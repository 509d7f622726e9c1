/** The contract of the bounds-checking string functions, on a character buffer and an offset into it. */
module SecureC {
  import opened CText

  /** The text at the start of a buffer, up to its terminator. */
  function Text(buf: seq<char>): (t: string)
    ensures |t| <= |buf| && t == buf[..|t|] && '\0' !in t
    ensures '\0' in buf ==> |t| < |buf| && buf[|t|] == '\0'
  {
    if buf == [] || buf[0] == '\0' then [] else [buf[0]] + Text(buf[1..])
  }

  /** A terminator at position n with none before it ends the text there. */
  lemma {:induction false} TextEndsAt(buf: seq<char>, n: nat)
    requires n < |buf| && buf[n] == '\0' && '\0' !in buf[..n]
    ensures Text(buf) == buf[..n]
  {
  }

  function Min(a: int, b: int): int { if a < b then a else b }

  /** strncpy_s(buf + at, room, src, count): copies at most count bytes and terminates them, or empties the
      destination when they do not fit. */
  method StrncpyS(buf: array<char>, at: nat, room: nat, src: string, count: nat) returns (ret: int)
    requires 0 < room && at + room <= buf.Length
    modifies buf
    ensures ret == if Min(|src|, count) < room then RET_OK else RET_ERR
    ensures buf[..at] == old(buf[..at])
    ensures ret == RET_OK ==>
              var n := Min(|src|, count);
              buf[at..at + n] == src[..n] && buf[at + n] == '\0' && buf[at + n + 1..] == old(buf[at + n + 1..])
    ensures ret != RET_OK ==> buf[at] == '\0' && buf[at + 1..] == old(buf[at + 1..])
  {
    var n := Min(|src|, count);
    if n >= room {
      buf[at] := '\0';
      return RET_ERR;
    }
    for k := 0 to n
      invariant forall j :: 0 <= j < buf.Length ==> buf[j] == if at <= j < at + k then src[j - at] else old(buf[j])
    {
      buf[at + k] := src[k];
    }
    buf[at + n] := '\0';
    return RET_OK;
  }

  /** snprintf_s(buf + at, room, count, text): writes at most count bytes and terminates them. */
  method SnprintfS(buf: array<char>, at: nat, room: nat, count: nat, text: string) returns (ret: int)
    requires count < room && at + room <= buf.Length
    modifies buf
    ensures var n := Min(|text|, count);
            && buf[..at + n] == old(buf[..at]) + text[..n] && buf[at + n] == '\0'
            && ret == if |text| <= count then |text| else -1
  {
    var n := Min(|text|, count);
    for k := 0 to n
      invariant forall j :: 0 <= j < buf.Length ==> buf[j] == if at <= j < at + k then text[j - at] else old(buf[j])
    {
      buf[at + k] := text[k];
    }
    buf[at + n] := '\0';
    return if |text| <= count then |text| else -1;
  }

  /** strlen, by way of the whole text. */
  method StrDup(buf: array<char>) returns (t: string)
    requires '\0' in buf[..]
    ensures t == Text(buf[..])
  {
    var n := 0;
    while buf[n] != '\0'
      invariant n < buf.Length && '\0' !in buf[..n]
      decreases buf.Length - n
    {
      var next := n + 1;
      assert buf[..next] == buf[..n] + [buf[n]];
      assert buf[..] == buf[..next] + buf[next..];
      n := next;
    }
    assert buf[..][..n] == buf[..n] && buf[..][n] == '\0';
    TextEndsAt(buf[..], n);
    return buf[..n];
  }
}
