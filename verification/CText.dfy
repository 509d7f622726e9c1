/** C strings, the byte cast, and the few libc comparisons the modelled code uses. */
module CText {

  datatype Option<+T> = None | Some(value: T)

  /** The bytes of a C string before its terminator. */
  type CString = s: string | '\0' !in s

  const RET_OK := 0
  const RET_ERR := -1

  /** The byte a pointer into `s` reads; index |s| is the terminator and nothing beyond it may be read. */
  function At(s: string, i: nat): char
    requires i <= |s|
  {
    if i < |s| then s[i] else '\0'
  }

  /** tolower in the C locale. */
  function Lower(c: char): char {
    if 'A' <= c <= 'Z' then (c as int + 32) as char else c
  }

  /** strcasecmp(s, t) == 0 */
  predicate EqualIgnoreCase(s: string, t: string) {
    |s| == |t| && forall k :: 0 <= k < |s| ==> Lower(s[k]) == Lower(t[k])
  }

  /** (guint8)x */
  function U8(x: int): nat { x % 0x100 }

  // ---- cutting and joining ----

  /** How many characters come before the first d. */
  function Span(s: string, d: char): (n: nat)
    ensures n <= |s| && d !in s[..n] && (n < |s| ==> s[n] == d)
  {
    if s == [] || s[0] == d then 0 else 1 + Span(s[1..], d)
  }

  /** The pieces between the separators, empty ones included. */
  function Split(s: string, d: char): (parts: seq<string>)
    ensures |parts| > 0
  {
    var n := Span(s, d);
    if n == |s| then [s] else [s[..n]] + Split(s[n + 1..], d)
  }

  function Join(parts: seq<string>, d: char): string
    requires |parts| > 0
  {
    if |parts| == 1 then parts[0] else parts[0] + [d] + Join(parts[1..], d)
  }

  /** The pieces, each followed by the separator. */
  function Terminated(parts: seq<string>, d: char): string {
    if parts == [] then [] else Terminated(parts[..|parts| - 1], d) + parts[|parts| - 1] + [d]
  }

  lemma TerminatedStep(parts: seq<string>, last: string, d: char)
    ensures Terminated(parts + [last], d) == Terminated(parts, d) + last + [d]
  {
  }

  lemma {:induction false} JoinAppend(parts: seq<string>, last: string, d: char)
    ensures Join(parts + [last], d) == Terminated(parts, d) + last
  {
    if parts == [] {
    } else {
      var tail := parts[1..] + [last];
      assert (parts + [last])[1..] == tail;
      JoinAppend(parts[1..], last, d);
      TerminatedFront(parts, d);
    }
  }

  lemma {:induction false} TerminatedFront(parts: seq<string>, d: char)
    requires parts != []
    ensures Terminated(parts, d) == parts[0] + [d] + Terminated(parts[1..], d)
  {
    if |parts| == 1 {
      assert parts[..0] == [] && parts[1..] == [];
    } else {
      var front, last := parts[..|parts| - 1], parts[|parts| - 1];
      TerminatedFront(front, d);
      TerminatedStep(front[1..], last, d);
      assert parts[1..] == front[1..] + [last];
      Regroup(parts[0] + [d], Terminated(front[1..], d), last, [d]);
    }
  }

  lemma Regroup(a: string, b: string, c: string, d: string)
    ensures (a + b) + c + d == a + (b + c + d)
  {
  }

  lemma {:induction false} SpanOf(a: string, b: string, d: char)
    requires d !in a && (b == [] || b[0] == d)
    ensures Span(a + b, d) == |a|
  {
    if a == [] {
      assert a + b == b;
    } else {
      assert (a + b)[1..] == a[1..] + b;
      SpanOf(a[1..], b, d);
    }
  }

  /** Splitting undoes joining when no piece holds the separator. */
  lemma {:induction false} SplitJoin(parts: seq<string>, d: char)
    requires |parts| > 0 && forall p :: p in parts ==> d !in p
    ensures Split(Join(parts, d), d) == parts
  {
    if |parts| == 1 {
      SpanOf(parts[0], [], d);
      assert parts[0] + [] == parts[0];
    } else {
      var rest := [d] + Join(parts[1..], d);
      assert Join(parts, d) == parts[0] + rest;
      SpanOf(parts[0], rest, d);
      assert Join(parts, d)[|parts[0]| + 1..] == Join(parts[1..], d);
      SplitJoin(parts[1..], d);
    }
  }

  lemma TerminatedIsJoined(parts: seq<string>, d: char)
    requires |parts| > 0
    ensures Terminated(parts, d) == Join(parts, d) + [d]
  {
    var front, last := parts[..|parts| - 1], parts[|parts| - 1];
    assert parts == front + [last];
    JoinAppend(front, last, d);
  }

  /** Joined text consists of the pieces' characters and separators. */
  lemma {:induction false} JoinChars(parts: seq<string>, d: char, c: char)
    requires |parts| > 0 && c != d && forall p :: p in parts ==> c !in p
    ensures c !in Join(parts, d)
  {
    if |parts| > 1 { JoinChars(parts[1..], d, c); }
  }

  /** Joining the pieces of a text gives it back. */
  lemma {:induction false} JoinSplit(s: string, d: char)
    ensures Join(Split(s, d), d) == s
    decreases |s|
  {
    var n := Span(s, d);
    if n < |s| {
      var front, rest := s[..n], s[n + 1..];
      JoinSplit(rest, d);
      JoinFirst(front, Split(rest, d), d);
      hide Span, Join;
      assert Split(s, d) == [front] + Split(rest, d);
      assert s == front + [d] + rest;
    }
  }

  lemma JoinFirst(first: string, rest: seq<string>, d: char)
    requires rest != []
    ensures Join([first] + rest, d) == first + [d] + Join(rest, d)
  {
  }
}
