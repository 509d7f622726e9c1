/** Hexadecimal numbers as text, in the two widths the address code prints. */
module Hex {

  predicate IsHex(c: char) { '0' <= c <= '9' || 'a' <= c <= 'f' || 'A' <= c <= 'F' }

  function Digit(c: char): (d: nat)
    requires IsHex(c)
    ensures d < 16
  {
    if '0' <= c <= '9' then c as int - '0' as int
    else if 'a' <= c <= 'f' then c as int - 'a' as int + 10
    else c as int - 'A' as int + 10
  }

  function HexChar(d: nat): (c: char)
    requires d < 16
    ensures IsHex(c) && Digit(c) == d && (c == '0' <==> d == 0)
  {
    if d < 10 then ('0' as int + d) as char else ('a' as int + (d - 10)) as char
  }

  /** The digits in their order, in either case; printing uses the lower one. */
  lemma DigitsInOrder(k: nat, c: char)
    requires k < 16
    ensures var lower, upper := "0123456789abcdef", "0123456789ABCDEF";
            && IsHex(lower[k]) && Digit(lower[k]) == k && IsHex(upper[k]) && Digit(upper[k]) == k && HexChar(k) == lower[k]
            && (IsHex(c) && Digit(c) == k <==> c == lower[k] || c == upper[k])
  {
  }

  predicate AllHex(s: string) { forall k :: 0 <= k < |s| ==> IsHex(s[k]) }

  /** tonumber(s, 16) */
  function Value(s: string): nat
    requires AllHex(s)
  {
    if s == [] then 0 else Value(s[..|s| - 1]) * 16 + Digit(s[|s| - 1])
  }

  predicate LowerCase(s: string) { forall k :: 0 <= k < |s| ==> IsHex(s[k]) && s[k] == HexChar(Digit(s[k])) }

  /** "%x" */
  function Short(v: nat): (s: string)
    ensures s != []
  {
    if v < 16 then [HexChar(v)] else Short(v / 16) + [HexChar(v % 16)]
  }

  lemma {:induction false} ShortFacts(v: nat)
    ensures AllHex(Short(v)) && LowerCase(Short(v)) && Value(Short(v)) == v
    ensures Short(v)[0] == '0' ==> v == 0
    ensures Short(v) == "0" <==> v == 0
  {
    if v < 16 {
      assert [HexChar(v)][..0] == [];
    } else {
      ShortFacts(v / 16);
      assert Short(v)[..|Short(v)| - 1] == Short(v / 16);
    }
  }

  /** n zeros */
  function Zeros(n: nat): string { seq(n, _ => '0') }

  /** A number printed with at least w digits: "%04x" and "%.2x". */
  function Wide(v: nat, w: nat): string {
    var s := Short(v);
    if |s| < w then Zeros(w - |s|) + s else s
  }

  function Padded(v: nat): string { Wide(v, 4) }

  lemma {:induction false} LeadingZeros(n: nat, s: string)
    requires AllHex(s)
    ensures AllHex(Zeros(n) + s) && Value(Zeros(n) + s) == Value(s)
    decreases |s|, n
  {
    var all := Zeros(n) + s;
    if s != [] {
      LeadingZeros(n, s[..|s| - 1]);
      assert all[..|all| - 1] == Zeros(n) + s[..|s| - 1];
    } else if n > 0 {
      LeadingZeros(n - 1, []);
      assert all[..|all| - 1] == Zeros(n - 1) + [];
      assert all[|all| - 1] == '0';
    }
  }

  lemma ZerosAreLowerCase(n: nat, s: string)
    requires LowerCase(s)
    ensures LowerCase(Zeros(n) + s)
  {
    assert IsHex('0') && HexChar(Digit('0')) == '0';
  }

  lemma WideValue(v: nat, w: nat)
    ensures LowerCase(Wide(v, w)) && Value(Wide(v, w)) == v
  {
    var s := Short(v);
    ShortFacts(v);
    hide Short, Value, Zeros, LowerCase, AllHex;
    if |s| < w {
      LeadingZeros(w - |s|, s);
      ZerosAreLowerCase(w - |s|, s);
    }
  }

  lemma {:induction false} ShortLength(v: nat, n: nat)
    requires 0 < n
    ensures n == 1 && v < 16 ==> |Short(v)| <= 1
    ensures n == 2 && v < 0x100 ==> |Short(v)| <= 2
    ensures n == 3 && v < 0x1000 ==> |Short(v)| <= 3
    ensures n == 4 && v < 0x1_0000 ==> |Short(v)| <= 4
  {
    if 1 < n <= 4 && v >= 16 { ShortLength(v / 16, n - 1); }
  }

  /** A 16-bit number prints as exactly four digits, a byte as two. */
  lemma WideLength(v: nat)
    ensures v < 0x1_0000 ==> |Padded(v)| == 4 && |Short(v)| <= 4
    ensures v < 0x100 ==> |Wide(v, 2)| == 2
  {
    ShortLength(v, 4);
    ShortLength(v, 2);
  }

  /** Equal-length digit strings with equal values agree, when neither uses upper case. */
  lemma {:induction false} ValueInjective(a: string, b: string)
    requires LowerCase(a) && LowerCase(b) && |a| == |b| && Value(a) == Value(b)
    ensures a == b
  {
    if a != [] {
      var x, y := Value(a[..|a| - 1]), Value(b[..|b| - 1]);
      var d, e := Digit(a[|a| - 1]), Digit(b[|b| - 1]);
      assert x * 16 + d == y * 16 + e;
      assert x == y && d == e;
      ValueInjective(a[..|a| - 1], b[..|b| - 1]);
    }
  }

  lemma ValueSnoc(a: string, c: char)
    requires AllHex(a) && IsHex(c)
    ensures AllHex(a + [c]) && Value(a + [c]) == Value(a) * 16 + Digit(c)
  {
  }

  lemma ValueConcat(a: string, b: string)
    requires AllHex(a) && AllHex(b) && |b| == 2
    ensures AllHex(a + b) && Value(a + b) == Value(a) * 256 + Value(b)
  {
    assert b == [] + [b[0]] + [b[1]] && a + b == a + [b[0]] + [b[1]];
    ValueSnoc([], b[0]);
    ValueSnoc([] + [b[0]], b[1]);
    ValueSnoc(a, b[0]);
    ValueSnoc(a + [b[0]], b[1]);
  }

  /** Two bytes printed one after the other are the 16-bit number printed. */
  lemma TwoBytes(high: nat, low: nat)
    requires high < 256 && low < 256
    ensures Wide(high, 2) + Wide(low, 2) == Padded(high * 256 + low)
  {
    var v := high * 256 + low;
    WideLength(high);
    WideLength(low);
    WideLength(v);
    WideValue(high, 2);
    WideValue(low, 2);
    WideValue(v, 4);
    ValueConcat(Wide(high, 2), Wide(low, 2));
    ValueInjective(Wide(high, 2) + Wide(low, 2), Padded(v));
  }

  lemma PaddedZero(v: nat)
    ensures Padded(v) == "0000" <==> v == 0
  {
    WideValue(v, 4);
    LeadingZeros(4, []);
    assert Zeros(4) + [] == "0000";
    if v == 0 { assert Padded(0) == Zeros(3) + "0" == "0000"; }
  }
}
