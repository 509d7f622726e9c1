/** escape_string: search filter escaping of a user name, and its inverse (RFC 4515, section 3). */
module FilterEscape {
  import opened CText
  import opened Hex
  import opened SecureC

  const ESCAPE_LEN := 3
  const TO_BE_REPLACED := ['(', ')', '*', '\\']
  const REPLACE := ["\\28", "\\29", "\\2a", "\\5c"]

  /** One of the characters to be replaced. */
  predicate Special(c: char) { c == '(' || c == ')' || c == '*' || c == '\\' }

  function EscapeByte(c: char): (r: string)
    ensures |r| == if Special(c) then ESCAPE_LEN else 1
  {
    match c
    case '(' => "\\28"
    case ')' => "\\29"
    case '*' => "\\2a"
    case '\\' => "\\5c"
    case _ => [c]
  }

  function Escape(s: string): string {
    if s == [] then [] else EscapeByte(s[0]) + Escape(s[1..])
  }

  lemma {:induction false} EscapeAppend(s: string, c: char)
    ensures Escape(s + [c]) == Escape(s) + EscapeByte(c)
  {
    if s == [] {
      assert (s + [c])[1..] == [];
    } else {
      assert (s + [c])[1..] == s[1..] + [c];
      EscapeAppend(s[1..], c);
    }
  }

  lemma {:induction false} EscapeNoNul(s: CString)
    ensures '\0' !in Escape(s) && |s| <= |Escape(s)|
  {
    if s != [] { EscapeNoNul(s[1..]); }
  }

  /** The copy loop runs as long as a whole escape still fits; so all but the last byte may use size - 4 bytes. */
  predicate Fits(s: string, size: nat) {
    s == [] || |Escape(s[..|s| - 1])| + ESCAPE_LEN < size
  }

  lemma {:induction false} EscapeGrows(s: string, k: nat)
    requires k <= |s|
    ensures |Escape(s[..k])| <= |Escape(s)|
    ensures k < |s| ==> |Escape(s[..k])| < |Escape(s)|
  {
    if k == |s| {
      assert s[..k] == s;
    } else if k > 0 {
      assert s[..k][1..] == s[1..][..k - 1];
      EscapeGrows(s[1..], k - 1);
    }
  }

  /** The loop body of escape_string: appends one byte or its replacement. */
  method CopyByte(c: char, buf: array<char>, count: nat) returns (next: nat)
    requires count + ESCAPE_LEN < buf.Length
    modifies buf
    ensures next == count + |EscapeByte(c)|
    ensures buf[..next] == old(buf[..count]) + EscapeByte(c)
  {
    var i := 0;
    while i < |TO_BE_REPLACED| && c != TO_BE_REPLACED[i]
      invariant i <= |TO_BE_REPLACED|
      invariant forall k :: 0 <= k < i ==> c != TO_BE_REPLACED[k]
    {
      i := i + 1;
    }
    if i < |TO_BE_REPLACED| {
      var copied := StrncpyS(buf, count, buf.Length - count, REPLACE[i], ESCAPE_LEN);
      assert REPLACE[i][..ESCAPE_LEN] == REPLACE[i] == EscapeByte(c);
      assert buf[..count + ESCAPE_LEN] == buf[..count] + buf[count..count + ESCAPE_LEN];
      return count + ESCAPE_LEN;
    }
    assert TO_BE_REPLACED[0] != c && TO_BE_REPLACED[1] != c && TO_BE_REPLACED[2] != c && TO_BE_REPLACED[3] != c;
    PlainByte(c);
    buf[count] := c;
    return count + 1;
  }

  method EscapeString(username: CString, buf: array<char>) returns (ret: int)
    requires ESCAPE_LEN <= buf.Length <= 0x1_0000
    modifies buf
    ensures ret == RET_OK || ret == RET_ERR
    ensures ret == RET_OK <==> Fits(username, buf.Length)
    ensures ret == RET_OK ==> '\0' in buf[..] && Text(buf[..]) == Escape(username)
  {
    var count := 0;
    var pos := 0;
    assert username[..0] == [] && buf[..0] == [];
    while pos < |username| && count < buf.Length - ESCAPE_LEN
      invariant pos <= |username| && count < buf.Length
      invariant count == |Escape(username[..pos])| && buf[..count] == Escape(username[..pos])
      invariant pos > 0 ==> Fits(username[..pos], buf.Length)
    {
      EscapeAppend(username[..pos], username[pos]);
      assert username[..pos + 1] == username[..pos] + [username[pos]];
      assert username[..pos + 1][..pos] == username[..pos];
      count := CopyByte(username[pos], buf, count);
      pos := pos + 1;
    }
    if pos == |username| {
      assert username[..pos] == username;
      buf[count] := '\0';
      EscapeNoNul(username);
      assert buf[..][..count] == Escape(username) && buf[..][count] == '\0';
      TextEndsAt(buf[..], count);
      return RET_OK;
    }
    EscapeGrows(username[..|username| - 1], pos);
    assert username[..|username| - 1][..pos] == username[..pos];
    return RET_ERR;
  }

  // ---- the inverse ----

  /** Reads a filter value: a backslash takes two hex digits, and a bare '(', ')' or '*' is not allowed. */
  function Unescape(t: string): Option<string> {
    if t == [] then Some([])
    else if t[0] == '\\' then
      if |t| < 3 || !IsHex(t[1]) || !IsHex(t[2]) then None
      else match Unescape(t[3..])
        case None => None
        case Some(rest) => Some([(Digit(t[1]) * 16 + Digit(t[2])) as char] + rest)
    else if Special(t[0]) then None
    else match Unescape(t[1..])
      case None => None
      case Some(rest) => Some([t[0]] + rest)
  }

  /** Reading one escaped byte gives the byte and goes on behind it. */
  lemma UnescapeByte(c: char, rest: string)
    ensures Unescape(EscapeByte(c) + rest) == match Unescape(rest) case None => None case Some(tail) => Some([c] + tail)
  {
  }

  /** No character an escaped name holds is special but the backslash. */
  lemma {:induction false} NothingBare(s: string)
    ensures forall k :: 0 <= k < |Escape(s)| ==> Escape(s)[k] != '(' && Escape(s)[k] != ')' && Escape(s)[k] != '*'
  {
    if s != [] {
      NothingBare(s[1..]);
      var head, rest := EscapeByte(s[0]), Escape(s[1..]);
      assert Escape(s) == head + rest;
    }
  }

  /** Filter escaping is undone by filter unescaping, so it is injective. */
  lemma {:induction false} UnescapeEscape(s: string)
    ensures Unescape(Escape(s)) == Some(s)
  {
    if s != [] {
      UnescapeEscape(s[1..]);
      var head, rest := EscapeByte(s[0]), Escape(s[1..]);
      assert Escape(s) == head + rest && s == [s[0]] + s[1..];
      UnescapeByte(s[0], rest);
    }
  }

  // ---- names the escape changes ----

  predicate Plain(s: string) { forall k :: 0 <= k < |s| ==> !Special(s[k]) }

  /** The first special character, or the end. */
  function FirstSpecial(s: string): (n: nat)
    ensures n <= |s| && Plain(s[..n]) && (n < |s| ==> Special(s[n]))
  {
    if s == [] || Special(s[0]) then 0 else 1 + FirstSpecial(s[1..])
  }

  lemma {:induction false} EscapeLength(s: string)
    ensures |s| <= |Escape(s)|
  {
    if s != [] { EscapeLength(s[1..]); }
  }

  lemma PlainByte(c: char)
    requires !Special(c)
    ensures EscapeByte(c) == [c]
  {
  }

  /** A plain front is kept as it is. */
  lemma {:induction false} EscapeFront(u: string, v: string)
    requires Plain(u)
    ensures Escape(u + v) == u + Escape(v)
  {
    hide EscapeByte, Special;
    if u == [] {
      assert u + v == v;
    } else {
      PlainByte(u[0]);
      EscapeFront(u[1..], v);
      assert (u + v)[1..] == u[1..] + v && u == [u[0]] + u[1..];
    }
  }

  lemma EscapeFirst(c: char, rest: string)
    ensures Escape([c] + rest) == EscapeByte(c) + Escape(rest)
  {
    assert ([c] + rest)[1..] == rest;
  }

  /** The last byte is copied whenever the ones before it, escaped, leave four bytes. */
  lemma FitsExactly(s: string, c: char, size: nat)
    ensures Fits(s + [c], size) <==> |Escape(s)| <= size - 4
    ensures Fits([], size)
  {
    assert (s + [c])[..|s + [c]| - 1] == s;
  }

  /** Enough room: any name whose escaped form needs at most size - 3 bytes. */
  lemma ShortNamesFit(s: string, size: nat)
    requires |Escape(s)| + ESCAPE_LEN <= size
    ensures Fits(s, size)
  {
    if s != [] { EscapeGrows(s, |s| - 1); }
  }
}
