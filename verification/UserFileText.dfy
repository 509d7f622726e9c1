/** What the characters of the user file mean to its two readers: decimal numbers, columns and lines. */
module UserFileText {
  import opened CText
  import opened UserFile

  // ---- decimal numbers ----

  function DecimalDigit(d: nat): char
    requires d < 10
  {
    "0123456789"[d]
  }

  /** A number in base ten without leading zeros. */
  function Decimal(v: nat): (s: string)
    ensures s != []
  {
    if v < 10 then [DecimalDigit(v)] else Decimal(v / 10) + [DecimalDigit(v % 10)]
  }

  predicate AllDigits(s: string) { forall k :: 0 <= k < |s| ==> s[k] in "0123456789" }

  lemma DigitReads(c: char)
    ensures IsDigit(c) <==> c in "0123456789"
    ensures forall d :: 0 <= d < 10 ==> IsDigit(DecimalDigit(d)) && DecimalDigit(d) as int - '0' as int == d
  {
    assert "0123456789"[c as int % 48 % 10] in "0123456789";
    assert IsDigit(c) ==> c == "0123456789"[c as int - 48];
  }

  lemma {:induction false} DigitsAppend(a: string, b: string, acc: nat)
    requires AllDigits(a)
    ensures Digits(a + b, acc) == Digits(b, Digits(a, acc))
    decreases |a|
  {
    if a == [] {
      assert a + b == b;
    } else {
      assert (a + b)[1..] == a[1..] + b && (a + b)[0] == a[0];
      assert a[0] in "0123456789";
      DigitReads(a[0]);
      hide IsDigit;
      DigitsAppend(a[1..], b, 10 * acc + (a[0] as int - '0' as int));
    }
  }

  /** Nothing that is not a digit is read. */
  predicate Stops(rest: string) { rest == [] || rest[0] !in "0123456789" }

  lemma {:induction false} DecimalReads(v: nat, rest: string)
    requires Stops(rest)
    ensures AllDigits(Decimal(v)) && Digits(Decimal(v) + rest, 0) == v
  {
    DigitReads(if rest == [] then ' ' else rest[0]);
    var last := [DecimalDigit(v % 10)];
    assert (last + rest)[1..] == rest;
    if v >= 10 {
      DecimalReads(v / 10, []);
      assert Decimal(v / 10) + [] == Decimal(v / 10);
      DigitsAppend(Decimal(v / 10), last + rest, 0);
      assert Decimal(v) + rest == Decimal(v / 10) + (last + rest);
    }
  }

  predicate AllSpaces(s: string) { forall k :: 0 <= k < |s| ==> s[k] in [' ', '\t', '\n', 0xb as char, 0xc as char, '\r'] }

  lemma {:induction false} SpacesSkipped(space: string, rest: string)
    requires AllSpaces(space) && (rest == [] || !IsSpace(rest[0]))
    ensures SkipSpace(space + rest) == rest
  {
    if space == [] {
      assert space + rest == rest;
    } else {
      assert (space + rest)[1..] == space[1..] + rest;
      SpacesSkipped(space[1..], rest);
    }
  }

  /** The value a signed 64-bit number keeps of v. */
  function Saturated(v: int): int {
    if v > 9223372036854775807 then 9223372036854775807 else if v < -9223372036854775808 then -9223372036854775808 else v
  }

  function Signed(sign: string, v: nat): int { if sign == "-" then 0 - v else v }

  /** White space, a sign and a decimal number are read as its value, saturated; what follows does not matter. */
  lemma NumberReads(space: string, sign: string, v: nat, rest: string)
    requires AllSpaces(space) && (sign == "" || sign == "+" || sign == "-") && Stops(rest)
    ensures var number := Strtol(space + (sign + (Decimal(v) + rest)));
            number == Number(true, Saturated(Signed(sign, v)), Saturated(Signed(sign, v)) != Signed(sign, v))
  {
    var digits := Decimal(v) + rest;
    DecimalReads(v, rest);
    assert digits[0] == Decimal(v)[0];
    DigitReads(digits[0]);
    SpacesSkipped(space, sign + digits);
    assert sign + digits == if sign == "" then digits else [sign[0]] + digits;
    assert sign != "" ==> (sign + digits)[1..] == digits;
    hide SkipSpace, Decimal, Digits;
  }

  /** Without a digit behind white space and a sign there is no number. */
  lemma NoNumber(space: string, sign: string, rest: string)
    requires AllSpaces(space) && (sign == "" || sign == "+" || sign == "-") && Stops(rest)
    requires sign == "" ==> rest == [] || (!IsSpace(rest[0]) && rest[0] != '+' && rest[0] != '-')
    ensures !Strtol(space + (sign + rest)).digits
  {
    SpacesSkipped(space, sign + rest);
    if rest != [] { DigitReads(rest[0]); }
    assert sign + rest == if sign == "" then rest else [sign[0]] + rest;
    assert sign != "" ==> (sign + rest)[1..] == rest;
    hide SkipSpace;
  }

  // ---- columns ----

  /** The columns that hold numbers, counted from one. */
  const NUMBERS: set<nat> := {1, 7, 12, 14, 15, 16, 17, 18, 19}

  /** A line is accepted exactly if its columns 1, 7, 12 and 14 to 19, as far as there are any, start with numbers and the
      second has at most 16 characters; both readers agree on that. */
  lemma AcceptedExactly(fields: seq<string>)
    ensures Accepted(fields, 0) == |fields| <==>
            (forall pos :: pos in NUMBERS && pos <= |fields| ==> Strtol(fields[pos - 1]).digits) &&
            (|fields| >= 2 ==> |fields[1]| <= 16)
  {
    hide Strtol;
    var n := Accepted(fields, 0);
    if n < |fields| {
      assert !FieldOk(n + 1, fields[n]);
    } else {
      forall pos | pos in NUMBERS && pos <= |fields| ensures Strtol(fields[pos - 1]).digits {
        assert FieldOk(pos - 1 + 1, fields[pos - 1]);
      }
      if |fields| >= 2 { assert FieldOk(2, fields[1]); }
    }
  }

  /** What the reader by name answers for a refused line: 7 for a name too long, -1 for a column without a number. */
  lemma FirstBadColumn(fields: seq<string>)
    requires Accepted(fields, 0) < |fields|
    ensures var n := Accepted(fields, 0);
            Refusal(n + 1) == if n + 1 == 2 && |fields[1]| > 16 then 7 else -1
  {
    hide Strtol;
    assert !FieldOk(Accepted(fields, 0) + 1, fields[Accepted(fields, 0)]);
  }

  // ---- lines ----

  predicate IsLine(s: string) { s != [] && '\n' !in s }

  lemma {:induction false} UntilEmptyOf(lines: seq<string>, more: seq<string>)
    requires forall s :: s in lines ==> IsLine(s)
    ensures UntilEmpty(lines + ([""] + more)) == lines
  {
    var all := lines + ([""] + more);
    if lines != [] {
      assert IsLine(lines[0]);
      assert all[1..] == lines[1..] + ([""] + more);
      UntilEmptyOf(lines[1..], more);
    }
  }

  /** The lines looked at are those in front of the first empty one. */
  lemma LinesBeforeEmpty(lines: seq<string>, more: seq<string>)
    requires (forall s :: s in lines ==> IsLine(s)) && forall s :: s in more ==> '\n' !in s
    ensures Lines(Join(lines + ([""] + more), '\n')) == lines
  {
    SplitJoin(lines + ([""] + more), '\n');
    UntilEmptyOf(lines, more);
  }

  /** In a file of lines each of which ends in a newline, all of them. */
  lemma AllLines(lines: seq<string>)
    requires forall s :: s in lines ==> IsLine(s)
    ensures Lines(Terminated(lines, '\n')) == lines
  {
    LinesBeforeEmpty(lines, []);
    JoinAppend(lines, "", '\n');
    assert lines + ([""] + []) == lines + [""];
    assert Terminated(lines, '\n') + "" == Terminated(lines, '\n');
    hide Lines, Join, Terminated;
  }

  // ---- which line is found ----

  /** The reader by name stops at the first line that has no second field or the name there. */
  ghost predicate StopsAt(lines: seq<string>, name: string, i: int) {
    && 0 <= i < |lines| && (|Fields(lines[i])| < 2 || Fields(lines[i])[1] == name)
    && forall k :: 0 <= k < i ==> |Fields(lines[k])| >= 2 && Fields(lines[k])[1] != name
  }

  lemma {:induction false} StopsAtFirst(lines: seq<string>, name: string, i: int)
    requires StopsAt(lines, name, i)
    ensures LineWithName(lines, name) == if |Fields(lines[i])| < 2 then NullName else Line(lines[i])
    decreases |lines|
  {
    hide Fields;
    if i > 0 {
      assert |Fields(lines[0])| >= 2 && Fields(lines[0])[1] != name;
      forall k | 0 <= k < |lines[1..]| ensures lines[1..][k] == lines[k + 1] {}
      StopsAtFirst(lines[1..], name, i - 1);
    }
  }

  lemma {:induction false} StopsNowhere(lines: seq<string>, name: string)
    requires forall i :: !StopsAt(lines, name, i)
    ensures LineWithName(lines, name) == NotFound
  {
    hide Fields;
    if lines != [] {
      assert !StopsAt(lines, name, 0);
      forall i ensures !StopsAt(lines[1..], name, i) {
        assert !StopsAt(lines, name, i + 1);
        forall k | 0 <= k < |lines[1..]| ensures lines[1..][k] == lines[k + 1] {}
      }
      StopsNowhere(lines[1..], name);
    }
  }

  /** Line i carries the id zero and no number up to it was out of range. */
  ghost predicate ZeroAt(lines: seq<string>, i: int) {
    0 <= i < |lines| && CarriesId(lines[i], 0) && forall k :: 0 <= k <= i ==> !IdOf(lines[k]).erange
  }

  /** For the id zero the reader by id finds nothing behind a number out of range. */
  lemma {:induction false} FirstWithZero(lines: seq<string>)
    ensures LineWithId(lines, 0, false).Some? <==> exists i :: ZeroAt(lines, i)
  {
    hide IdOf, I32;
    if lines != [] {
      var rest := lines[1..];
      forall k | 0 <= k < |rest| ensures rest[k] == lines[k + 1] {}
      if IdOf(lines[0]).erange {
        NothingBehindError(rest);
      } else if CarriesId(lines[0], 0) {
        assert ZeroAt(lines, 0);
      } else {
        FirstWithZero(rest);
        if i :| ZeroAt(rest, i) { assert ZeroAt(lines, i + 1); }
        if i :| ZeroAt(lines, i) { assert ZeroAt(rest, i - 1); }
      }
    }
  }

  lemma {:induction false} NothingBehindError(lines: seq<string>)
    ensures LineWithId(lines, 0, true) == None
  {
    hide IdOf, I32;
    if lines != [] { NothingBehindError(lines[1..]); }
  }

  /** (gint32)x and (guint8)x keep x up to a multiple of the width. */
  lemma NarrowedModulo(x: int)
    ensures -0x8000_0000 <= I32(x) < 0x8000_0000 && exists q: int :: x == I32(x) + q * 0x1_0000_0000
    ensures 0 <= U8(x) < 256 && exists q: int :: x == U8(x) + q * 256
  {
    I32Fits(x);
    var q := x / 0x1_0000_0000;
    assert x == I32(x) + q * 0x1_0000_0000 || x == I32(x) + (q + 1) * 0x1_0000_0000;
    assert x == U8(x) + (x / 256) * 256;
  }
}
