/** The user file and its two readers: by business id in pam_bmc_login.c, by name in uip_user.c. */
module UserFile {
  import opened CText

  const PAM_SUCCESS := 0
  const PAM_AUTH_ERR := 7
  const TOKEN_TOO_LONG := 7
  const USER_NOT_FOUND_IN_IPMI := 1
  const USER_NAME_SIZE := 17

  /** The fields of IPMI_USER_S that are read from the file. */
  datatype User = User(userId: nat, userName: string, userEnabled: nat, privilege1: nat, userLockStatus: nat, userLoginRule: nat,
                       userLoginInterface: nat, isExcludeUser: nat, isPasswordExpired: nat, roleId: nat)

  const ZEROED := User(0, "", 0, 0, 0, 0, 0, 0, 0, 0)

  // ---- strtol with base ten and a 64-bit long ----

  datatype Number = Number(digits: bool, value: int, erange: bool)

  predicate IsSpace(c: char) { c == ' ' || '\t' <= c <= '\r' }

  predicate IsDigit(c: char) { '0' <= c <= '9' }

  function SkipSpace(s: string): string {
    if s != [] && IsSpace(s[0]) then SkipSpace(s[1..]) else s
  }

  function Digits(s: string, acc: nat): nat {
    if s != [] && IsDigit(s[0]) then Digits(s[1..], 10 * acc + (s[0] as int - '0' as int)) else acc
  }

  function Strtol(token: string): Number {
    var s := SkipSpace(token);
    var negative := s != [] && s[0] == '-';
    var t := if s != [] && (s[0] == '-' || s[0] == '+') then s[1..] else s;
    if t == [] || !IsDigit(t[0]) then Number(false, 0, false)
    else
      var v: int := if negative then 0 - Digits(t, 0) else Digits(t, 0);
      if v > 0x7fff_ffff_ffff_ffff then Number(true, 0x7fff_ffff_ffff_ffff, true)
      else if v < -0x8000_0000_0000_0000 then Number(true, -0x8000_0000_0000_0000, true)
      else Number(true, v, false)
  }

  /** (gint32)x */
  function I32(x: int): int {
    var r := x % 0x1_0000_0000;
    if r < 0x8000_0000 then r else r - 0x1_0000_0000
  }

  lemma I32Fits(x: int)
    ensures -0x8000_0000 <= I32(x) < 0x8000_0000
  {
  }

  /** parse_line_token_to_uint8: the range test compares a narrowed value with the limits of long and never fires. */
  method ParseLineTokenToUint8(token: string, target: nat) returns (ret: int, updated: nat)
    ensures ret == if Strtol(token).digits then RET_OK else RET_ERR
    ensures updated == if Strtol(token).digits then U8(Strtol(token).value) else target
  {
    var number := Strtol(token);
    var tmpVal := U8(number.value);
    if (number.erange && (tmpVal == 0x7fff_ffff_ffff_ffff || tmpVal == -0x8000_0000_0000_0000)) || !number.digits {
      return RET_ERR, target;
    }
    return RET_OK, tmpVal;
  }

  // ---- strsep ----

  /** What one strsep call leaves: the token, or none at the end, and the text after it. */
  datatype Cut = Cut(token: Option<string>, rest: Option<string>)

  function StrSep(text: Option<string>, d: char): Cut {
    match text
    case None => Cut(None, None)
    case Some(s) =>
      var n := Span(s, d);
      Cut(Some(s[..n]), if n < |s| then Some(s[n + 1..]) else None)
  }

  /** The tokens still to come. */
  function Pieces(text: Option<string>, d: char): seq<string> {
    match text
    case None => []
    case Some(s) => Split(s, d)
  }

  /** The current token, if any, and those still to come. */
  function Ahead(cut: Cut, d: char): seq<string> {
    match cut.token
    case None => []
    case Some(t) => [t] + Pieces(cut.rest, d)
  }

  lemma StrSepIsSplit(text: Option<string>, d: char)
    ensures Ahead(StrSep(text, d), d) == Pieces(text, d)
    ensures Left(StrSep(text, d)) <= if text.None? then 0 else 1 + |text.value|
  {
    if text.Some? { assert text.value[..|text.value|] == text.value; }
  }

  /** A measure of the text still to be cut. */
  function Left(cut: Cut): nat {
    if cut.token.None? then 0 else if cut.rest.None? then 1 else 2 + |cut.rest.value|
  }

  // ---- one line ----

  function Fields(line: string): seq<string> { Split(line, ':') }

  predicate IsNumberField(pos: nat) { pos == 1 || pos == 7 || pos == 12 || 14 <= pos <= 19 }

  predicate FieldOk(pos: nat, token: string) {
    (IsNumberField(pos) ==> Strtol(token).digits) && (pos == 2 ==> |token| < USER_NAME_SIZE)
  }

  /** What the reader by name answers for a bad field. */
  function Refusal(pos: nat): int {
    if pos == 2 then TOKEN_TOO_LONG else RET_ERR
  }

  function Put(user: User, pos: nat, token: string): User {
    var v := U8(Strtol(token).value);
    match pos
    case 1 => user.(userId := v)
    case 2 => user.(userName := token)
    case 7 => user.(userEnabled := v)
    case 12 => user.(privilege1 := v)
    case 14 => user.(userLockStatus := v)
    case 15 => user.(userLoginRule := v)
    case 16 => user.(userLoginInterface := v)
    case 17 => user.(isExcludeUser := v)
    case 18 => user.(isPasswordExpired := v)
    case 19 => user.(roleId := v)
    case _ => user
  }

  /** The record once the first n fields are stored. */
  function Fill(user: User, fields: seq<string>, n: nat): User
    requires n <= |fields|
  {
    if n == 0 then user else Put(Fill(user, fields, n - 1), n, fields[n - 1])
  }

  /** How many leading fields are in order. */
  function Accepted(fields: seq<string>, from: nat): (n: nat)
    requires from <= |fields|
    ensures from <= n <= |fields|
    ensures forall k :: from <= k < n ==> FieldOk(k + 1, fields[k])
    ensures n < |fields| ==> !FieldOk(n + 1, fields[n])
    decreases |fields| - from
  {
    if from < |fields| && FieldOk(from + 1, fields[from]) then Accepted(fields, from + 1) else from
  }

  /** The switch over field positions in pam_bmc_login.c. */
  method PamField(pos: nat, token: string, user0: User) returns (ret: int, user: User)
    ensures ret == if FieldOk(pos, token) then PAM_SUCCESS else if pos == 2 then PAM_AUTH_ERR else RET_ERR
    ensures user == if FieldOk(pos, token) then Put(user0, pos, token) else user0
  {
    hide Strtol;
    ret, user := PAM_SUCCESS, user0;
    match pos
    case 1 => { var v; ret, v := ParseLineTokenToUint8(token, user.userId); user := user.(userId := v); }
    case 2 => { if |token| >= USER_NAME_SIZE { ret := PAM_AUTH_ERR; } else { user := user.(userName := token); } }
    case 7 => { var v; ret, v := ParseLineTokenToUint8(token, user.userEnabled); user := user.(userEnabled := v); }
    case 12 => { var v; ret, v := ParseLineTokenToUint8(token, user.privilege1); user := user.(privilege1 := v); }
    case 14 => { var v; ret, v := ParseLineTokenToUint8(token, user.userLockStatus); user := user.(userLockStatus := v); }
    case 15 => { var v; ret, v := ParseLineTokenToUint8(token, user.userLoginRule); user := user.(userLoginRule := v); }
    case 16 => { var v; ret, v := ParseLineTokenToUint8(token, user.userLoginInterface); user := user.(userLoginInterface := v); }
    case 17 => { var v; ret, v := ParseLineTokenToUint8(token, user.isExcludeUser); user := user.(isExcludeUser := v); }
    case 18 => { var v; ret, v := ParseLineTokenToUint8(token, user.isPasswordExpired); user := user.(isPasswordExpired := v); }
    case 19 => { var v; ret, v := ParseLineTokenToUint8(token, user.roleId); user := user.(roleId := v); }
    case _ => {}
  }

  /** parse_line_to_struct of pam_bmc_login.c */
  method PamParseLine(line: string, user0: User) returns (ret: int, user: User)
    ensures ret == if Accepted(Fields(line), 0) == |Fields(line)| then PAM_SUCCESS else PAM_AUTH_ERR
    ensures user == Fill(user0, Fields(line), Accepted(Fields(line), 0))
  {
    hide Put, FieldOk, Split, StrSep;
    ret, user := RET_OK, user0;
    var pos := 0;
    ghost var fields := Fields(line);
    StrSepIsSplit(Some(line), ':');
    var cut := StrSep(Some(line), ':');
    while cut.token.Some?
      invariant 0 <= pos <= |fields| && fields[pos..] == Ahead(cut, ':')
      invariant ret == RET_OK && Accepted(fields, 0) == Accepted(fields, pos) && user == Fill(user0, fields, pos)
      decreases Left(cut)
    {
      pos := pos + 1;
      assert cut.token.value == fields[pos - 1] && fields[pos..] == Pieces(cut.rest, ':');
      ret, user := PamField(pos, cut.token.value, user);
      if ret != RET_OK { return PAM_AUTH_ERR, user; }
      StrSepIsSplit(cut.rest, ':');
      cut := StrSep(cut.rest, ':');
    }
  }

  /** parse_line_token_to_user_name */
  method ParseUserName(token: string, target: string) returns (ret: int, updated: string)
    ensures ret == if |token| < USER_NAME_SIZE then RET_OK else TOKEN_TOO_LONG
    ensures updated == if |token| < USER_NAME_SIZE then token else target
  {
    if |token| >= USER_NAME_SIZE { return TOKEN_TOO_LONG, target; }
    return RET_OK, token;
  }

  /** The switch over field positions in uip_user.c. */
  method UipField(pos: nat, token: string, user0: User) returns (ret: int, user: User)
    ensures ret == if FieldOk(pos, token) then RET_OK else Refusal(pos)
    ensures user == if FieldOk(pos, token) then Put(user0, pos, token) else user0
  {
    hide Strtol;
    ret, user := RET_OK, user0;
    match pos
    case 1 => { var v; ret, v := ParseLineTokenToUint8(token, user.userId); user := user.(userId := v); }
    case 2 => { var name; ret, name := ParseUserName(token, user.userName); user := user.(userName := name); }
    case 7 => { var v; ret, v := ParseLineTokenToUint8(token, user.userEnabled); user := user.(userEnabled := v); }
    case 12 => { var v; ret, v := ParseLineTokenToUint8(token, user.privilege1); user := user.(privilege1 := v); }
    case 14 => { var v; ret, v := ParseLineTokenToUint8(token, user.userLockStatus); user := user.(userLockStatus := v); }
    case 15 => { var v; ret, v := ParseLineTokenToUint8(token, user.userLoginRule); user := user.(userLoginRule := v); }
    case 16 => { var v; ret, v := ParseLineTokenToUint8(token, user.userLoginInterface); user := user.(userLoginInterface := v); }
    case 17 => { var v; ret, v := ParseLineTokenToUint8(token, user.isExcludeUser); user := user.(isExcludeUser := v); }
    case 18 => { var v; ret, v := ParseLineTokenToUint8(token, user.isPasswordExpired); user := user.(isPasswordExpired := v); }
    case 19 => { var v; ret, v := ParseLineTokenToUint8(token, user.roleId); user := user.(roleId := v); }
    case _ => {}
  }

  /** parse_line_to_struct of uip_user.c */
  method UipParseLine(line: string, user0: User) returns (ret: int, user: User)
    ensures ret == var n := Accepted(Fields(line), 0); if n == |Fields(line)| then RET_OK else Refusal(n + 1)
    ensures user == Fill(user0, Fields(line), Accepted(Fields(line), 0))
  {
    hide Put, FieldOk, Split, StrSep;
    ret, user := RET_OK, user0;
    var pos := 0;
    ghost var fields := Fields(line);
    StrSepIsSplit(Some(line), ':');
    var cut := StrSep(Some(line), ':');
    while cut.token.Some?
      invariant 0 <= pos <= |fields| && fields[pos..] == Ahead(cut, ':')
      invariant ret == RET_OK && Accepted(fields, 0) == Accepted(fields, pos) && user == Fill(user0, fields, pos)
      decreases Left(cut)
    {
      pos := pos + 1;
      assert cut.token.value == fields[pos - 1] && fields[pos..] == Pieces(cut.rest, ':');
      ret, user := UipField(pos, cut.token.value, user);
      if ret != RET_OK { return; }
      StrSepIsSplit(cut.rest, ':');
      cut := StrSep(cut.rest, ':');
    }
  }

  // ---- one file ----

  function UntilEmpty(lines: seq<string>): seq<string> {
    if lines == [] || lines[0] == "" then [] else [lines[0]] + UntilEmpty(lines[1..])
  }

  /** The lines both readers look at: those before the first empty one. */
  function Lines(data: string): seq<string> { UntilEmpty(Split(data, '\n')) }

  function IdOf(line: string): Number { Strtol(Fields(line)[0]) }

  /** The line the reader by id stops at; errno stays set once a number was out of range. */
  function LineWithId(lines: seq<string>, uid: int, errno: bool): Option<string> {
    if lines == [] then None
    else
      var number := IdOf(lines[0]);
      var now := errno || number.erange;
      if (now && I32(number.value) == 0) || !number.digits || I32(number.value) != uid then LineWithId(lines[1..], uid, now)
      else Some(lines[0])
  }

  /** get_user of pam_bmc_login.c */
  method PamGetUser(uid: int, data: string, user0: User) returns (ret: int, user: User)
    ensures var line := LineWithId(Lines(data), uid, false);
            if line.None? then ret == PAM_AUTH_ERR && user == user0
            else ret == (if Accepted(Fields(line.value), 0) == |Fields(line.value)| then PAM_SUCCESS else PAM_AUTH_ERR) &&
                 user == Fill(user0, Fields(line.value), Accepted(Fields(line.value), 0))
  {
    hide Split, StrSep, Strtol, I32, Fill, Accepted;
    user := user0;
    var errno := false;
    StrSepIsSplit(Some(data), '\n');
    var buf := StrSep(Some(data), '\n');
    while buf.token.Some? && |buf.token.value| != 0
      invariant user == user0 && LineWithId(Lines(data), uid, false) == LineWithId(UntilEmpty(Ahead(buf, '\n')), uid, errno)
      decreases Left(buf)
    {
      var line := buf.token.value;
      StrSepIsSplit(Some(line), ':');
      var token := StrSep(Some(line), ':').token.value;
      assert token == Fields(line)[0];
      var number := Strtol(token);
      var id := I32(number.value);
      I32Fits(number.value);
      errno := errno || number.erange;
      StrSepIsSplit(buf.rest, '\n');
      if (errno && (id == 0x7fff_ffff_ffff_ffff || id == -0x8000_0000_0000_0000)) || (errno && id == 0) || !number.digits {
        buf := StrSep(buf.rest, '\n');
        continue;
      }
      if id != uid {
        buf := StrSep(buf.rest, '\n');
        continue;
      }
      ret, user := PamParseLine(line, user0);
      return;
    }
    ret := PAM_AUTH_ERR;
  }

  /** Where the reader by name stops; a line without a second field hands strcmp a null pointer. */
  datatype Stop = Line(text: string) | NotFound | NullName

  function LineWithName(lines: seq<string>, name: string): Stop {
    if lines == [] then NotFound
    else if |Fields(lines[0])| < 2 then NullName
    else if Fields(lines[0])[1] == name then Line(lines[0])
    else LineWithName(lines[1..], name)
  }

  /** get_user of uip_user.c; `nullName` says that strcmp is handed a null pointer, where the call has no result. */
  method UipGetUser(name: string, data: string, user0: User) returns (ret: int, user: User, nullName: bool)
    ensures nullName <==> LineWithName(Lines(data), name).NullName?
    ensures match LineWithName(Lines(data), name)
            case NotFound => ret == USER_NOT_FOUND_IN_IPMI && user == user0
            case Line(line) =>
              ret == (var n := Accepted(Fields(line), 0); if n == |Fields(line)| then RET_OK else Refusal(n + 1)) &&
              user == Fill(user0, Fields(line), Accepted(Fields(line), 0))
            case NullName => user == user0
  {
    hide Split, StrSep, Fill, Accepted, Refusal;
    ret, user, nullName := USER_NOT_FOUND_IN_IPMI, user0, false;
    StrSepIsSplit(Some(data), '\n');
    var buf := StrSep(Some(data), '\n');
    while buf.token.Some? && |buf.token.value| != 0
      invariant ret == USER_NOT_FOUND_IN_IPMI && user == user0 && !nullName
      invariant LineWithName(Lines(data), name) == LineWithName(UntilEmpty(Ahead(buf, '\n')), name)
      decreases Left(buf)
    {
      var line := buf.token.value;
      StrSepIsSplit(Some(line), ':');
      var cut := StrSep(Some(line), ':');
      StrSepIsSplit(cut.rest, ':');
      cut := StrSep(cut.rest, ':');
      assert Fields(line)[1..] == Ahead(cut, ':');
      if cut.token.None? {
        nullName := true;
        return;
      }
      StrSepIsSplit(buf.rest, '\n');
      if cut.token.value != name {
        buf := StrSep(buf.rest, '\n');
        continue;
      }
      ret, user := UipParseLine(line, user0);
      return;
    }
  }

  // ---- what a record holds ----

  function NumberAt(fields: seq<string>, pos: nat): nat
    requires pos > 0
  {
    if pos <= |fields| then U8(Strtol(fields[pos - 1]).value) else 0
  }

  /** The record a line stands for: every number from its own column, missing columns zero. */
  function RecordOf(fields: seq<string>): User {
    User(NumberAt(fields, 1), if |fields| >= 2 then fields[1] else "", NumberAt(fields, 7), NumberAt(fields, 12), NumberAt(fields, 14),
         NumberAt(fields, 15), NumberAt(fields, 16), NumberAt(fields, 17), NumberAt(fields, 18), NumberAt(fields, 19))
  }

  lemma NextNumber(fields: seq<string>, token: string, pos: nat)
    requires pos > 0
    ensures NumberAt(fields + [token], pos) == if pos == |fields| + 1 then U8(Strtol(token).value) else NumberAt(fields, pos)
  {
  }

  lemma NextField(fields: seq<string>, token: string)
    ensures Put(RecordOf(fields), |fields| + 1, token) == RecordOf(fields + [token])
  {
    hide Strtol, U8, NumberAt;
    NextNumber(fields, token, 1);
    NextNumber(fields, token, 7);
    NextNumber(fields, token, 12);
    NextNumber(fields, token, 14);
    NextNumber(fields, token, 15);
    NextNumber(fields, token, 16);
    NextNumber(fields, token, 17);
    NextNumber(fields, token, 18);
    NextNumber(fields, token, 19);
  }

  /** Filling a zeroed structure field by field yields the record of the fields read. */
  lemma {:induction false} FillIsRecord(fields: seq<string>, n: nat)
    requires n <= |fields|
    ensures Fill(ZEROED, fields, n) == RecordOf(fields[..n])
  {
    if n > 0 {
      hide Put, RecordOf;
      FillIsRecord(fields, n - 1);
      NextField(fields[..n - 1], fields[n - 1]);
      assert fields[..n] == fields[..n - 1] + [fields[n - 1]];
    } else {
      assert fields[..0] == [];
    }
  }

  // ---- the two readers together ----

  predicate CarriesId(line: string, uid: int) {
    IdOf(line).digits && I32(IdOf(line).value) == uid
  }

  /** Line i is the first that carries the id. */
  predicate FirstCarrier(lines: seq<string>, uid: int, i: int) {
    0 <= i < |lines| && CarriesId(lines[i], uid) && forall k :: 0 <= k < i ==> !CarriesId(lines[k], uid)
  }

  /** For a nonzero id, the reader by id stops at the first line that carries it, and finds none only if no line does. */
  lemma {:induction false} FirstWithId(lines: seq<string>, uid: int, errno: bool)
    requires uid != 0
    ensures LineWithId(lines, uid, errno).None? <==> forall k :: 0 <= k < |lines| ==> !CarriesId(lines[k], uid)
    ensures LineWithId(lines, uid, errno).Some? ==>
              exists i :: FirstCarrier(lines, uid, i) && LineWithId(lines, uid, errno).value == lines[i]
  {
    hide IdOf, I32;
    if lines != [] {
      if CarriesId(lines[0], uid) {
        assert FirstCarrier(lines, uid, 0);
      } else {
        var rest, later := lines[1..], errno || IdOf(lines[0]).erange;
        FirstWithId(rest, uid, later);
        assert LineWithId(lines, uid, errno) == LineWithId(rest, uid, later);
        if LineWithId(rest, uid, later).Some? {
          var i :| FirstCarrier(rest, uid, i) && LineWithId(rest, uid, later).value == rest[i];
          assert forall k :: 0 < k < |lines| ==> lines[k] == rest[k - 1];
          assert FirstCarrier(lines, uid, i + 1) && lines[i + 1] == rest[i];
        } else {
          assert forall k :: 0 < k < |lines| ==> lines[k] == rest[k - 1];
        }
      }
    }
  }

  predicate TwoFields(lines: seq<string>) {
    forall k :: 0 <= k < |lines| ==> |Fields(lines[k])| >= 2
  }

  predicate UniqueNames(lines: seq<string>)
    requires TwoFields(lines)
  {
    forall j, k :: 0 <= j < |lines| && 0 <= k < |lines| && Fields(lines[j])[1] == Fields(lines[k])[1] ==> j == k
  }

  ghost predicate UniqueIds(lines: seq<string>) {
    forall uid, j, k :: 0 <= j < |lines| && 0 <= k < |lines| && CarriesId(lines[j], uid) && CarriesId(lines[k], uid) ==> j == k
  }

  lemma {:induction false} NameFound(lines: seq<string>, i: nat)
    requires i < |lines| && TwoFields(lines) && UniqueNames(lines)
    ensures LineWithName(lines, Fields(lines[i])[1]) == Line(lines[i])
  {
    hide Fields;
    if i > 0 {
      assert Fields(lines[0])[1] != Fields(lines[i])[1];
      assert forall k :: 0 <= k < |lines[1..]| ==> lines[1..][k] == lines[k + 1];
      NameFound(lines[1..], i - 1);
    }
  }

  /** On a file with unique ids and names, asking for a line's id or for its name reads that same line. */
  lemma BothReadersFindTheLine(data: string, i: nat, uid: int)
    requires i < |Lines(data)| && TwoFields(Lines(data)) && UniqueNames(Lines(data)) && UniqueIds(Lines(data))
    requires CarriesId(Lines(data)[i], uid) && uid != 0
    ensures LineWithId(Lines(data), uid, false) == Some(Lines(data)[i])
    ensures LineWithName(Lines(data), Fields(Lines(data)[i])[1]) == Line(Lines(data)[i])
  {
    var lines := Lines(data);
    hide Lines, CarriesId, Fields;
    FirstWithId(lines, uid, false);
    var j :| FirstCarrier(lines, uid, j) && LineWithId(lines, uid, false).value == lines[j];
    assert j == i;
    NameFound(lines, i);
  }

  /**
   * When the reader by id accepts a line and the name check that follows it passes, the reader by name accepts the same
   * line and builds the same record; ids need not be unique for this.
   */
  lemma RecordsAgreeAfterNameCheck(data: string, uid: int, name: string)
    requires uid != 0 && TwoFields(Lines(data)) && UniqueNames(Lines(data))
    requires LineWithId(Lines(data), uid, false).Some?
    requires var fields := Fields(LineWithId(Lines(data), uid, false).value);
             Accepted(fields, 0) == |fields| && Fill(ZEROED, fields, |fields|).userName == name
    ensures LineWithName(Lines(data), name) == Line(LineWithId(Lines(data), uid, false).value)
  {
    var lines := Lines(data);
    hide Lines, CarriesId, Fields, Put;
    FirstWithId(lines, uid, false);
    var i :| FirstCarrier(lines, uid, i) && LineWithId(lines, uid, false).value == lines[i];
    var fields := Fields(lines[i]);
    FillIsRecord(fields, |fields|);
    assert fields[..|fields|] == fields;
    NameFound(lines, i);
  }
}
