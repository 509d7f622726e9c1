/** ldap_special_char_escape: escaping the special characters of a group folder inside its own buffer
    (compare section 2.4 of RFC 4514). */
module DnEscape {
  import opened CText
  import opened SecureC

  /** strchr in the list of special characters. */
  predicate IsSpecial(c: char) {
    c == '\\' || c == '"' || c == ';' || c == '<' || c == '>' || c == '#' || c == '+' || c == '=' || c == ','
  }

  /** CN, OU or DC, in either case. */
  predicate IsTagName(a: char, b: char) {
    var name := [Lower(a), Lower(b)];
    name == "cn" || name == "ou" || name == "dc"
  }

  /** The '=' at position i closes a recognised tag. */
  predicate TagBefore(t: string, i: nat)
    requires i < |t|
  {
    || (i >= 2 && IsTagName(t[i - 2], t[i - 1]))
    || (i >= 3 && [Lower(t[i - 3]), Lower(t[i - 2]), Lower(t[i - 1])] == "uid")
  }

  /** The ',' at position i is followed by a recognised tag. */
  predicate TagAfter(t: string, i: nat)
    requires i < |t|
  {
    i + 3 < |t| && IsTagName(t[i + 1], t[i + 2]) && t[i + 3] == '='
  }

  predicate NeedsEscape(t: string, i: nat)
    requires i < |t|
  {
    && IsSpecial(t[i])
    && !(t[i] == '=' && TagBefore(t, i))
    && !(t[i] == ',' && TagAfter(t, i))
  }

  function Token(t: string, i: nat): string
    requires i < |t|
  {
    if NeedsEscape(t, i) then ['\\', t[i]] else [t[i]]
  }

  /** The first k characters of t, each escaped if its neighbours in t call for it. */
  function EscapeTo(t: string, k: nat): string
    requires k <= |t|
  {
    if k == 0 then [] else EscapeTo(t, k - 1) + Token(t, k - 1)
  }

  function Escape(t: string): string { EscapeTo(t, |t|) }

  /** Drops every escaping backslash, reading from the left. */
  function Drop(p: string): string {
    if p == [] then []
    else if p[0] != '\\' then [p[0]] + Drop(p[1..])
    else if |p| == 1 then []
    else [p[1]] + Drop(p[2..])
  }

  /** No backslash is left without the character it escapes. */
  predicate Complete(p: string) {
    p == [] || (if p[0] == '\\' then |p| >= 2 && Complete(p[2..]) else Complete(p[1..]))
  }

  lemma {:induction false} DropAppend(p: string, q: string)
    requires Complete(p)
    ensures Drop(p + q) == Drop(p) + Drop(q)
    ensures Complete(q) ==> Complete(p + q)
    decreases |p|
  {
    if p == [] {
      assert p + q == q;
    } else if p[0] == '\\' {
      assert (p + q)[2..] == p[2..] + q && (p + q)[1] == p[1];
      DropAppend(p[2..], q);
    } else {
      assert (p + q)[1..] == p[1..] + q;
      DropAppend(p[1..], q);
    }
  }

  lemma {:induction false} DropEscapeTo(t: string, k: nat)
    requires k <= |t|
    ensures Complete(EscapeTo(t, k)) && Drop(EscapeTo(t, k)) == t[..k]
  {
    if k > 0 {
      DropEscapeTo(t, k - 1);
      DropPieces(t[k - 1]);
      DropAppend(EscapeTo(t, k - 1), Token(t, k - 1));
      assert t[..k] == t[..k - 1] + [t[k - 1]];
    }
  }

  lemma DropPieces(c: char)
    ensures c != '\\' ==> Complete([c]) && Drop([c]) == [c]
    ensures Complete(['\\', c]) && Drop(['\\', c]) == [c]
    ensures Drop(['\\']) == []
  {
  }

  /** Escaping is undone by dropping the escaping backslashes. */
  lemma DropEscape(t: string)
    ensures Drop(Escape(t)) == t
  {
    DropEscapeTo(t, |t|);
  }

  lemma {:induction false} EscapeToLength(t: string, k: nat)
    requires k <= |t|
    ensures |EscapeTo(t, k)| >= k
  {
    if k > 0 { EscapeToLength(t, k - 1); }
  }

  /** What the code sees around position k while the first k characters are already escaped in place: the same as
      in the original text, since a tag's letters are never escaped. */
  lemma ContextPreserved(t: string, k: nat)
    requires k < |t|
    ensures var e := EscapeTo(t, k);
            NeedsEscape(e + t[k..], |e|) == NeedsEscape(t, k)
  {
    var e := EscapeTo(t, k);
    var u, i := e + t[k..], |e|;
    EscapeToLength(t, k);
    assert u[i] == t[k];
    if t[k] == ',' {
      assert k + 3 < |t| ==> u[i + 1] == t[k + 1] && u[i + 2] == t[k + 2] && u[i + 3] == t[k + 3];
    } else if t[k] == '=' {
      TagBeforePreserved(t, k);
    }
  }

  /** The characters before position k, seen from the escaped prefix. */
  lemma EscapedNeighbours(t: string, k: nat)
    requires 0 < k <= |t|
    ensures var e := EscapeTo(t, k);
            && e != [] && e[|e| - 1] == t[k - 1]
            && (|e| >= 2 && !IsSpecial(t[k - 1]) ==> k >= 2 && e[|e| - 2] == t[k - 2])
            && (|e| >= 3 && !IsSpecial(t[k - 1]) && !IsSpecial(t[k - 2]) ==> k >= 3 && e[|e| - 3] == t[k - 3])
  {
  }

  lemma TagNamesArePlain(a: char, b: char)
    ensures IsTagName(a, b) ==> !IsSpecial(a) && !IsSpecial(b)
    ensures [Lower(a), Lower(b)] == "id" ==> !IsSpecial(a) && !IsSpecial(b)
  {
  }

  lemma TagBeforePreserved(t: string, k: nat)
    requires k < |t| && t[k] == '='
    ensures var e := EscapeTo(t, k);
            TagBefore(e + t[k..], |e|) == TagBefore(t, k)
  {
    var e := EscapeTo(t, k);
    var u, i := e + t[k..], |e|;
    EscapeToLength(t, k);
    if i >= 2 {
      EscapedNeighbours(t, k);
      assert u[i - 2] == e[i - 2] && u[i - 1] == e[i - 1] && (i >= 3 ==> u[i - 3] == e[i - 3]);
      TagNamesArePlain(u[i - 2], u[i - 1]);
      if k >= 2 { TagNamesArePlain(t[k - 2], t[k - 1]); }
      UidEndsInId(u, i);
      UidEndsInId(t, k);
    }
  }

  lemma UidEndsInId(t: string, i: nat)
    requires i <= |t|
    ensures i >= 3 && [Lower(t[i - 3]), Lower(t[i - 2]), Lower(t[i - 1])] == "uid" ==>
              [Lower(t[i - 2]), Lower(t[i - 1])] == "id"
  {
  }

  // ---- what the result looks like ----

  /** From position i on: every backslash escapes a special character, and the special characters left bare are
      an '=' closing a recognised tag or a ',' before one. */
  predicate WellEscaped(e: string, i: nat)
    requires i <= |e|
    decreases |e| - i
  {
    i == |e| ||
    if e[i] == '\\' then i + 1 < |e| && IsSpecial(e[i + 1]) && WellEscaped(e, i + 2)
    else !NeedsEscape(e, i) && WellEscaped(e, i + 1)
  }

  lemma LowerLetters(c: char)
    ensures Lower('C') == 'c' && Lower('N') == 'n' && Lower('O') == 'o' && Lower('U') == 'u' && Lower('D') == 'd' && Lower('I') == 'i'
    ensures Lower(c) == Lower('=') <==> c == '='
  {
  }

  /** Which commas stay bare: exactly those in front of CN=, OU= or DC= in either case. In front of UID= the comma is
      escaped although the '=' behind UID is not. */
  lemma CommaBeforeTag(t: string, i: nat)
    requires i < |t| && t[i] == ','
    ensures !NeedsEscape(t, i) <==>
            i + 4 <= |t| &&
            (var tag := t[i + 1..i + 4]; EqualIgnoreCase(tag, "CN=") || EqualIgnoreCase(tag, "OU=") || EqualIgnoreCase(tag, "DC="))
    ensures i + 5 <= |t| && EqualIgnoreCase(t[i + 1..i + 5], "UID=") ==> NeedsEscape(t, i) && !NeedsEscape(t, i + 4)
  {
    LowerLetters('=');
    if i + 4 <= |t| {
      var tag := t[i + 1..i + 4];
      LowerLetters(tag[2]);
      assert tag[0] == t[i + 1] && tag[1] == t[i + 2] && tag[2] == t[i + 3];
      if i + 5 <= |t| {
        var uid := t[i + 1..i + 5];
        LowerLetters(uid[3]);
        assert uid[0] == t[i + 1] && uid[1] == t[i + 2] && uid[2] == t[i + 3] && uid[3] == t[i + 4];
      }
    }
    hide Lower;
  }

  /** Which '=' stay bare: exactly those behind CN, OU, DC or UID in either case. */
  lemma EqualsAfterTag(t: string, i: nat)
    requires i < |t| && t[i] == '='
    ensures !NeedsEscape(t, i) <==>
            || (i >= 2 && (var tag := t[i - 2..i];
                           EqualIgnoreCase(tag, "CN") || EqualIgnoreCase(tag, "OU") || EqualIgnoreCase(tag, "DC")))
            || (i >= 3 && EqualIgnoreCase(t[i - 3..i], "UID"))
  {
    if i >= 2 {
      TagNameText(t[i - 2], t[i - 1]);
      assert t[i - 2..i] == [t[i - 2], t[i - 1]];
    }
    if i >= 3 {
      UidText(t[i - 3], t[i - 2], t[i - 1]);
      assert t[i - 3..i] == [t[i - 3], t[i - 2], t[i - 1]];
    }
    hide IsTagName, EqualIgnoreCase, Lower;
  }

  lemma TagNameText(a: char, b: char)
    ensures IsTagName(a, b) <==> EqualIgnoreCase([a, b], "CN") || EqualIgnoreCase([a, b], "OU") || EqualIgnoreCase([a, b], "DC")
  {
    LowerLetters(a);
    var s, name := [a, b], [Lower(a), Lower(b)];
    hide Lower;
    assert name[0] == Lower(s[0]) && name[1] == Lower(s[1]);
  }

  lemma UidText(a: char, b: char, c: char)
    ensures [Lower(a), Lower(b), Lower(c)] == "uid" <==> EqualIgnoreCase([a, b, c], "UID")
  {
    LowerLetters(a);
    var s, name := [a, b, c], [Lower(a), Lower(b), Lower(c)];
    hide Lower;
    assert name[0] == Lower(s[0]) && name[1] == Lower(s[1]) && name[2] == Lower(s[2]);
  }

  /** Of the other characters exactly these seven are escaped, wherever they stand. */
  lemma OthersEscaped(t: string, i: nat)
    requires i < |t| && t[i] != '=' && t[i] != ','
    ensures NeedsEscape(t, i) <==> t[i] in ['\\', '"', ';', '<', '>', '#', '+']
  {
  }

  lemma {:induction false} EscapeToPrefix(t: string, k: nat, n: nat)
    requires k <= n <= |t|
    ensures EscapeTo(t, k) <= EscapeTo(t, n)
    decreases n - k
  {
    if k < n { EscapeToPrefix(t, k, n - 1); }
  }

  /** Where the k-th character lands in the result. */
  lemma TokenAt(t: string, k: nat)
    requires k < |t|
    ensures var e, i := Escape(t), |EscapeTo(t, k)|;
            && EscapeTo(t, k) <= e
            && (if NeedsEscape(t, k) then i + 2 <= |e| && e[i] == '\\' && e[i + 1] == t[k] && i + 2 == |EscapeTo(t, k + 1)|
                else i + 1 <= |e| && e[i] == t[k] && i + 1 == |EscapeTo(t, k + 1)|)
  {
    EscapeToPrefix(t, k, |t|);
    EscapeToPrefix(t, k + 1, |t|);
    var e1 := EscapeTo(t, k + 1);
    assert e1 == EscapeTo(t, k) + Token(t, k);
    assert e1 == Escape(t)[..|e1|];
  }

  /** A character that stays bare is bare for the same reason in the result. */
  lemma BareInResult(t: string, k: nat)
    requires k < |t| && !NeedsEscape(t, k)
    ensures |EscapeTo(t, k)| < |Escape(t)| && !NeedsEscape(Escape(t), |EscapeTo(t, k)|)
  {
    var e, i := Escape(t), |EscapeTo(t, k)|;
    TokenAt(t, k);
    if t[k] == '=' {
      TagBeforePreserved(t, k);
      var u := EscapeTo(t, k) + t[k..];
      assert forall j :: 0 <= j < i ==> u[j] == e[j];
    } else if t[k] == ',' {
      TagNamesArePlain(t[k + 1], t[k + 2]);
      TokenAt(t, k + 1);
      TokenAt(t, k + 2);
      assert TagBefore(t, k + 3);
      TokenAt(t, k + 3);
    }
  }

  lemma {:induction false} EscapeLeavesTagsOnly(t: string, k: nat)
    requires k <= |t|
    ensures |EscapeTo(t, k)| <= |Escape(t)| && WellEscaped(Escape(t), |EscapeTo(t, k)|)
    decreases |t| - k
  {
    EscapeToPrefix(t, k, |t|);
    if k < |t| {
      EscapeLeavesTagsOnly(t, k + 1);
      TokenAt(t, k);
      if !NeedsEscape(t, k) { BareInResult(t, k); }
    }
  }

  /** In an escaped text a bare special character is part of a recognised tag or precedes one. */
  lemma EscapeIsWellEscaped(t: string)
    ensures WellEscaped(Escape(t), 0)
  {
    EscapeLeavesTagsOnly(t, 0);
  }

  // ---- the code ----

  const TAGS := ["CN=", "OU=", "DC="]

  lemma TagText(s: string)
    ensures (exists j :: 0 <= j < |TAGS| && EqualIgnoreCase(TAGS[j], s)) <==>
            |s| == 3 && IsTagName(s[0], s[1]) && s[2] == '='
    ensures EqualIgnoreCase("UID=", s) <==> |s| == 4 && [Lower(s[0]), Lower(s[1]), Lower(s[2])] == "uid" && s[3] == '='
  {
    assert TAGS[0] == "CN=" && TAGS[1] == "OU=" && TAGS[2] == "DC=";
    if |s| == 3 && IsTagName(s[0], s[1]) && s[2] == '=' {
      var name := [Lower(s[0]), Lower(s[1])];
      assert name[0] == Lower(s[0]) && name[1] == Lower(s[1]);
      var j := if name == "cn" then 0 else if name == "ou" then 1 else 2;
      assert EqualIgnoreCase(TAGS[j], s);
    }
    if |s| == 4 && [Lower(s[0]), Lower(s[1]), Lower(s[2])] == "uid" && s[3] == '=' {
      var name := [Lower(s[0]), Lower(s[1]), Lower(s[2])];
      assert name[0] == Lower(s[0]) && name[1] == Lower(s[1]) && name[2] == Lower(s[2]);
    }
  }

  method IsRecognised(tmp: string, tmpUid: string) returns (found: bool)
    ensures found == ((exists j :: 0 <= j < |TAGS| && EqualIgnoreCase(TAGS[j], tmp)) || EqualIgnoreCase("UID=", tmpUid))
  {
    for j := 0 to |TAGS|
      invariant forall k :: 0 <= k < j ==> !EqualIgnoreCase(TAGS[k], tmp) && !EqualIgnoreCase("UID=", tmpUid)
    {
      if EqualIgnoreCase(TAGS[j], tmp) || EqualIgnoreCase("UID=", tmpUid) { return true; }
    }
    assert !EqualIgnoreCase(TAGS[0], tmp);
    return false;
  }

  /** ldap_check_special_char_escape. The length test is on unsigned numbers, so it wraps for texts
      shorter than three bytes. */
  method CheckSpecialChar(t: string, i: nat) returns (need: bool)
    requires i < |t| && (t[i] == '=' || t[i] == ',')
    ensures need == NeedsEscape(t, i)
  {
    var tmp, tmpUid := "", "";
    if t[i] == '=' && i >= 2 {
      tmp := t[i - 2..i + 1];
      if i >= 3 { tmpUid := t[i - 3..i + 1]; }
    } else if t[i] == ',' && (|t| < 3 || i < |t| - 3) {
      tmp := t[i + 1..Min(i + 4, |t|)];
    }
    var found := IsRecognised(tmp, tmpUid);
    TagText(tmp);
    TagText(tmpUid);
    return !found;
  }

  lemma {:induction false} EscapeTailLength(t: string, k: nat, n: nat)
    requires k <= n <= |t|
    ensures |EscapeTo(t, n)| >= |EscapeTo(t, k)| + (n - k)
    ensures k < n && NeedsEscape(t, k) ==> |EscapeTo(t, n)| > |EscapeTo(t, k)| + (n - k)
    decreases n - k
  {
    hide NeedsEscape;
    if k < n { EscapeTailLength(t, k, n - 1); }
  }

  /** The first n characters are the same. */
  ghost predicate Agree(a: string, b: string, n: int) {
    n <= 0 || (n <= |a| && n <= |b| && a[..n] == b[..n])
  }

  /** Nothing was lost so far. */
  ghost predicate Whole(t: string, i: nat, p: string, k: nat, m: nat)
    requires k <= |t|
  {
    i == |p| && m == |t| && p == EscapeTo(t, k)
  }

  /** The buffer is full for good, and what is finished is right but for its last bytes. */
  ghost predicate Full(t: string, max: nat, text: string, i: nat, p: string, k: nat)
    requires k <= |t|
  {
    && |Escape(t)| >= max && |text| == max - 1
    && if |p| < max - 4 then i == |p| && p == EscapeTo(t, k) else Agree(p, Escape(t), max - 4)
  }

  /** The state of the editing loop: the buffer holds the finished part p, standing for the first k characters
      of t, and then t[k..m]; or the buffer ran out and the loop is over. */
  ghost predicate Editing(t: string, max: nat, text: string, i: nat, p: string, k: nat, m: nat) {
    && k <= m <= |t| && |text| <= max
    && Complete(p) && Drop(p) == t[..k]
    && ((i == |p| && text == p + t[k..m]) || (i > |text| && (text == p || text == p + ['\\'])))
    && (Whole(t, i, p, k, m) || Full(t, max, text, i, p, k))
  }

  lemma EditingStarts(t: string, max: nat)
    requires |t| <= max
    ensures Editing(t, max, t, 0, "", 0, |t|)
  {
  }

  lemma PrefixContext(u: string, v: string, i: nat)
    requires u <= v && i < |u| && (i + 3 < |u| || u == v)
    ensures NeedsEscape(u, i) == NeedsEscape(v, i)
  {
  }

  /** As long as the finished part is all right, the next step extends it as the escape of t does. */
  lemma NextIsRight(t: string, max: nat, text: string, i: nat, p: string, k: nat, m: nat)
    requires Editing(t, max, text, i, p, k, m) && i < |text| && (Whole(t, i, p, k, m) || |p| < max - 4)
    ensures k < m && text[i] == t[k] && p == EscapeTo(t, k) && NeedsEscape(text, i) == NeedsEscape(t, k)
    ensures EscapeTo(t, k + 1) == p + if NeedsEscape(t, k) then ['\\', t[k]] else [t[k]]
    ensures EscapeTo(t, k + 1) <= Escape(t)
  {
    assert t[k..m] <= t[k..];
    PrefixContext(text, p + t[k..], i);
    ContextPreserved(t, k);
    EscapeToPrefix(t, k + 1, |t|);
  }

  lemma KeepCharacter(t: string, max: nat, text: string, i: nat, p: string, k: nat, m: nat)
    requires Editing(t, max, text, i, p, k, m) && i < |text| && !NeedsEscape(text, i)
    ensures k < m && Editing(t, max, text, i + 1, p + [text[i]], k + 1, m)
  {
    KeepsRight(t, max, text, i, p, k, m);
    BackslashIsEscaped(text, i);
    AppendOne(t, p, k);
    hide Drop, Complete, NeedsEscape, Whole, Full;
    assert text == p + [t[k]] + t[k + 1..m];
  }

  lemma AppendOne(t: string, p: string, k: nat)
    requires k < |t| && t[k] != '\\' && Complete(p) && Drop(p) == t[..k]
    ensures Complete(p + [t[k]]) && Drop(p + [t[k]]) == t[..k + 1]
  {
    DropPieces(t[k]);
    DropAppend(p, [t[k]]);
  }

  lemma BackslashIsEscaped(t: string, i: nat)
    requires i < |t|
    ensures !NeedsEscape(t, i) ==> t[i] != '\\'
  {
  }

  /** A longer finished part agrees where the shorter one did. */
  lemma AgreeLonger(p: string, more: string, e: string, n: int)
    ensures Agree(p, e, n) ==> Agree(p + more, e, n)
    ensures p <= e && n <= |p| ==> Agree(p, e, n)
  {
    if 0 < n <= |p| { assert (p + more)[..n] == p[..n]; }
  }

  lemma TextAtHand(t: string, max: nat, text: string, i: nat, p: string, k: nat, m: nat)
    requires Editing(t, max, text, i, p, k, m) && i < |text|
    ensures k < m && i == |p| && text == p + t[k..m] && text[i] == t[k]
  {
    hide Complete, Drop, Whole, Full;
  }

  lemma KeepsRight(t: string, max: nat, text: string, i: nat, p: string, k: nat, m: nat)
    requires Editing(t, max, text, i, p, k, m) && i < |text| && !NeedsEscape(text, i)
    ensures k < m && text[i] == t[k] && i == |p|
    ensures Whole(t, i + 1, p + [t[k]], k + 1, m) || Full(t, max, text, i + 1, p + [t[k]], k + 1)
  {
    TextAtHand(t, max, text, i, p, k, m);
    var next := p + [t[k]];
    if Whole(t, i, p, k, m) || |p| < max - 4 {
      NextIsRight(t, max, text, i, p, k, m);
      hide NeedsEscape;
      assert next == EscapeTo(t, k + 1) && |next| == i + 1;
      if Whole(t, i, p, k, m) {
        assert Whole(t, i + 1, next, k + 1, m);
      } else {
        AgreeLonger(next, [], Escape(t), max - 4);
        assert Full(t, max, text, i + 1, next, k + 1);
      }
    } else {
      hide NeedsEscape;
      AgreeLonger(p, [t[k]], Escape(t), max - 4);
      assert Full(t, max, text, i + 1, next, k + 1);
    }
  }

  lemma InsertsRight(t: string, max: nat, text: string, i: nat, p: string, k: nat, m: nat, edited: string, room: nat)
    requires Editing(t, max, text, i, p, k, m) && i < |text| && NeedsEscape(text, i)
    requires room == Min(|text| - i + 1, max - i - 1) && |edited| == i + room
    ensures k < m && text[i] == t[k] && i == |p|
    ensures var p' := if room < 2 then p else p + ['\\', t[k]];
            var k', m' := if room < 2 then k else k + 1, if room < 2 then k else k + room - 1;
            Whole(t, i + 2, p', k', m') || Full(t, max, edited, i + 2, p', k')
  {
    TextAtHand(t, max, text, i, p, k, m);
    var more := ['\\', t[k]];
    if Whole(t, i, p, k, m) { TooLong(t, max, text, i, p, k, m); }
    if Whole(t, i, p, k, m) || |p| < max - 4 {
      NextIsRight(t, max, text, i, p, k, m);
      EscapeToPrefix(t, k, |t|);
      AgreeLonger(p, [], Escape(t), max - 4);
      AgreeLonger(p + more, [], Escape(t), max - 4);
    }
    AgreeLonger(p, more, Escape(t), max - 4);
    hide Drop, Complete, NeedsEscape, Escape, EscapeTo, Agree;
  }

  lemma SliceOfSlice(t: string, k: nat, m: nat, n: nat)
    requires k <= m <= |t| && 1 <= n <= m - k
    ensures t[k..m][1..n] == t[k + 1..k + n]
  {
    var s := t[k..m];
    forall j | 0 <= j < n - 1 ensures s[1..n][j] == t[k + 1..k + n][j] {
      assert s[1..n][j] == s[j + 1];
    }
  }

  /** Without room for the backslash and everything behind it the escape of t is too long. */
  lemma TooLong(t: string, max: nat, text: string, i: nat, p: string, k: nat, m: nat)
    requires Editing(t, max, text, i, p, k, m) && i < |text| && NeedsEscape(text, i) && Whole(t, i, p, k, m)
    ensures |text| - i + 1 > max - i - 1 ==> |Escape(t)| >= max
  {
    NextIsRight(t, max, text, i, p, k, m);
    EscapeTailLength(t, k, |t|);
  }

  /** Text printed behind a backslash into `room` bytes. */
  lemma InsertedText(p: string, rest: string, room: nat)
    requires rest != [] && room <= |rest| + 1
    ensures p + (['\\'] + rest)[..room] ==
            if room == 0 then p else if room == 1 then p + ['\\'] else p + ['\\', rest[0]] + rest[1..room - 1]
  {
  }

  lemma InsertBackslash(t: string, max: nat, text: string, i: nat, p: string, k: nat, m: nat, edited: string)
    returns (p': string, k': nat, m': nat)
    requires Editing(t, max, text, i, p, k, m) && i < |text| && NeedsEscape(text, i)
    requires edited == text[..i] + (['\\'] + text[i..])[..Min(|text| - i + 1, max - i - 1)]
    ensures Editing(t, max, edited, i + 2, p', k', m')
  {
    hide Drop, Complete, NeedsEscape, Whole, Full;
    var room := Min(|text| - i + 1, max - i - 1);
    var rest := t[k..m];
    TextAtHand(t, max, text, i, p, k, m);
    assert text[..i] == p && text[i..] == rest && rest[0] == t[k];
    InsertsRight(t, max, text, i, p, k, m, edited, room);
    InsertedText(p, rest, room);
    assert edited == p + (['\\'] + rest)[..room];
    if room < 2 {
      p', k', m' := p, k, k;
    } else {
      p', k', m' := p + ['\\', t[k]], k + 1, k + room - 1;
      SliceOfSlice(t, k, m, room - 1);
      AppendPair(t, p, k);
    }
  }

  lemma AppendPair(t: string, p: string, k: nat)
    requires k < |t| && Complete(p) && Drop(p) == t[..k]
    ensures Complete(p + ['\\', t[k]]) && Drop(p + ['\\', t[k]]) == t[..k + 1]
  {
    DropPieces(t[k]);
    DropAppend(p, ['\\', t[k]]);
  }

  lemma EditingDone(t: string, max: nat, text: string, i: nat, p: string, k: nat, m: nat)
    requires Editing(t, max, text, i, p, k, m) && i >= |text|
    ensures Drop(text) <= t
    ensures if |Escape(t)| < max then text == Escape(t) else AsFarAsItFits(t, max, text)
  {
    hide Drop, Complete, EscapeTo;
    if text == p + ['\\'] {
      DropPieces(' ');
      DropAppend(p, ['\\']);
      assert Drop(p) + [] == Drop(p);
    } else {
      assert text == p;
    }
  }

  /** A result that does not fit fills the buffer, and all but its last bytes are those of the escape. Only a text without
      anything to escape may be one byte longer, as it was to begin with. */
  ghost predicate AsFarAsItFits(t: string, max: nat, text: string) {
    text == Escape(t) || (|text| == max - 1 && Agree(text, Escape(t), max - 4))
  }

  /** The tests at the head of the editing loop. */
  method CheckNeed(text: string, i: nat) returns (need: bool)
    requires i < |text|
    ensures need == NeedsEscape(text, i)
  {
    need := IsSpecial(text[i]);
    if need && (text[i] == '=' || text[i] == ',') {
      need := CheckSpecialChar(text, i);
    }
  }

  lemma NoNulInside(t: CString, i: nat, n: nat)
    requires i <= |t| && n <= |t| - i + 1
    ensures '\0' !in t[..i] + (['\\'] + t[i..])[..n]
  {
  }

  /** Reprints the text from position i behind a backslash, as far as the buffer allows. */
  method ShiftRight(buf: array<char>, max: nat, i: nat, folderTmp: string) returns (text: string)
    requires '\0' in buf[..] && folderTmp == Text(buf[..]) && i < |folderTmp| <= max < buf.Length
    modifies buf
    ensures '\0' in buf[..] && text == Text(buf[..])
    ensures text == folderTmp[..i] + (['\\'] + folderTmp[i..])[..Min(|folderTmp| - i + 1, max - i - 1)]
  {
    hide Text;
    assert buf[..i] == folderTmp[..i];
    var tail := ['\\'] + folderTmp[i..];
    ghost var n := Min(|tail|, max - i - 1);
    var ret := SnprintfS(buf, i, max - i, max - i - 1, tail);
    NoNulInside(folderTmp, i, n);
    ghost var after := buf[..];
    assert after[..i + n] == buf[..i + n] == folderTmp[..i] + tail[..n];
    assert after[i + n] == '\0';
    TextEndsAt(after, i + n);
    text := StrDup(buf);
  }

  /** ldap_special_char_escape: `max` bounds the edited text together with its terminator. */
  method SpecialCharEscape(buf: array<char>, max: nat)
    requires '\0' in buf[..] && |Text(buf[..])| <= max < buf.Length
    modifies buf
    ensures '\0' in buf[..]
    ensures var t := old(Text(buf[..]));
            && Drop(Text(buf[..])) <= t
            && if |Escape(t)| < max then Text(buf[..]) == Escape(t) else AsFarAsItFits(t, max, Text(buf[..]))
  {
    hide Drop, Complete, Escape, NeedsEscape, Editing, AsFarAsItFits, Text;
    var i := 0;
    var text := StrDup(buf);
    ghost var t, p := text, "";
    ghost var k: nat, m: nat := 0, |text|;
    EditingStarts(t, max);
    while i < |text|
      invariant '\0' in buf[..] && text == Text(buf[..]) && |text| <= max
      invariant Editing(t, max, text, i, p, k, m)
      decreases |text| - i
    {
      var need := CheckNeed(text, i);
      if need {
        var folderTmp := text;
        text := ShiftRight(buf, max, i, folderTmp);
        p, k, m := InsertBackslash(t, max, folderTmp, i, p, k, m, text);
        i := i + 1;
      } else {
        KeepCharacter(t, max, text, i, p, k, m);
        p, k := p + [text[i]], k + 1;
      }
      i := i + 1;
    }
    EditingDone(t, max, text, i, p, k, m);
  }
}
