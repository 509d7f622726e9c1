/** Reading address texts back: by RFC 4291, section 2.2, and as normalize_ip does. */
module Ipv6Normalize {
  import opened CText
  import opened Hex
  import opened Ipv6Text

  // ---- finding "::" ----

  predicate DoubleAt(t: string, i: nat) {
    i + 1 < |t| && t[i] == ':' && t[i + 1] == ':'
  }

  /** The first "::" at or after a position. */
  function FindDouble(t: string, from: nat): (r: Option<nat>)
    requires from <= |t|
    ensures r.Some? ==> from <= r.value && DoubleAt(t, r.value) && forall k: nat :: from <= k < r.value ==> !DoubleAt(t, k)
    ensures r.None? ==> forall k: nat :: from <= k ==> !DoubleAt(t, k)
    decreases |t| - from
  {
    if from == |t| then None else if DoubleAt(t, from) then Some(from) else FindDouble(t, from + 1)
  }

  lemma DoubleBetween(left: string, right: string)
    requires SingleColons(left) && SingleColons(right)
    ensures var t := left + "::" + right;
            forall k: nat :: DoubleAt(t, k) <==> k == |left|
  {
  }

  // ---- RFC 4291 ----

  function ReadParts(parts: seq<string>): Option<seq<nat>> {
    if parts == [] then Some([])
    else if !IsPart(parts[0]) || |parts[0]| > 4 then None
    else match ReadParts(parts[1..])
      case None => None
      case Some(rest) => Some([Value(parts[0])] + rest)
  }

  function ReadGroups(t: string): Option<seq<nat>> {
    if t == [] then Some([]) else ReadParts(Split(t, ':'))
  }

  /** Eight groups of one to four hex digits, or fewer around one "::" that stands for one or more zero groups. */
  function ReadText(t: string): Option<seq<nat>> {
    match FindDouble(t, 0)
    case None =>
      (match ReadGroups(t)
       case None => None
       case Some(g) => if |g| == 8 then Some(g) else None)
    case Some(p) =>
      (match (ReadGroups(t[..p]), ReadGroups(t[p + 2..]))
       case (Some(l), Some(r)) => if |l| + |r| <= 7 then Some(l + seq(8 - |l| - |r|, _ => 0) + r) else None
       case _ => None)
  }

  lemma PartHasNoColon(p: string)
    requires IsPart(p)
    ensures ':' !in p
  {
  }

  lemma SplitParts(parts: seq<string>)
    requires AllParts(parts) && parts != []
    ensures Split(JoinAll(parts), ':') == parts
  {
    forall p | p in parts ensures ':' !in p {
      var k :| 0 <= k < |parts| && parts[k] == p;
      PartHasNoColon(parts[k]);
    }
    SplitJoin(parts, ':');
  }

  lemma {:induction false} ReadPartsBack(g: seq<nat>)
    requires forall k :: 0 <= k < |g| ==> g[k] < 0x1_0000
    ensures ReadParts(ShortAll(g)) == Some(g)
  {
    if g != [] {
      ReadPartsBack(g[1..]);
      ShortFacts(g[0]);
      WideLength(g[0]);
      assert ShortAll(g)[1..] == ShortAll(g[1..]);
      assert g == [g[0]] + g[1..];
    }
  }

  lemma ReadGroupsBack(g: seq<nat>)
    requires forall k :: 0 <= k < |g| ==> g[k] < 0x1_0000
    ensures ReadGroups(JoinAll(ShortAll(g))) == Some(g)
  {
    if g != [] {
      ShortAllParts(g);
      JoinedSingleColons(ShortAll(g));
      SplitParts(ShortAll(g));
      ReadPartsBack(g);
    }
  }

  /** The shortened text has at most one "::" and reads back to the same eight groups. */
  lemma ShortTextReadsBack(g: seq<nat>)
    requires IsAddress(g)
    ensures ReadText(ShortText(g)) == Some(g)
    ensures forall i: nat, j: nat :: DoubleAt(ShortText(g), i) && DoubleAt(ShortText(g), j) ==> i == j
  {
    var n, e := RunExists(g);
    hide ShortText, ReadText, DoubleAt, JoinAll, ShortAll;
    if n == 8 {
      ReadUnshortened(g);
    } else {
      ReadShortened(g, n, e);
    }
  }

  lemma ReadShortened(g: seq<nat>, n: nat, e: nat)
    requires IsAddress(g) && IsRun(g, n, e) && n < 8
    ensures ReadText(ShortAround(g, n, e)) == Some(g)
    ensures forall i: nat, j: nat :: DoubleAt(ShortAround(g, n, e), i) && DoubleAt(ShortAround(g, n, e), j) ==> i == j
  {
    hide JoinAll, ReadText, DoubleAt, FindDouble, ShortAll;
    ReadAround(g[..n], g[e..]);
    assert g[..n] + seq(8 - n - (8 - e), _ => 0) + g[e..] == g;
  }

  lemma ReadUnshortened(g: seq<nat>)
    requires IsAddress(g)
    ensures ReadText(JoinAll(ShortAll(g))) == Some(g)
    ensures forall k: nat :: !DoubleAt(JoinAll(ShortAll(g)), k)
  {
    ShortAllParts(g);
    JoinedSingleColons(ShortAll(g));
    ReadGroupsBack(g);
    hide JoinAll, ReadGroups;
  }

  lemma ReadAround(l: seq<nat>, r: seq<nat>)
    requires |l| + |r| <= 7
    requires (forall k :: 0 <= k < |l| ==> l[k] < 0x1_0000) && forall k :: 0 <= k < |r| ==> r[k] < 0x1_0000
    ensures var t := JoinAll(ShortAll(l)) + "::" + JoinAll(ShortAll(r));
            && ReadText(t) == Some(l + seq(8 - |l| - |r|, _ => 0) + r)
            && FindDouble(t, 0) == Some(|JoinAll(ShortAll(l))|)
            && forall k: nat :: DoubleAt(t, k) <==> k == |JoinAll(ShortAll(l))|
  {
    ShortAllParts(l);
    ShortAllParts(r);
    JoinedSingleColons(ShortAll(l));
    JoinedSingleColons(ShortAll(r));
    ReadGroupsBack(l);
    ReadGroupsBack(r);
    ReadSplit(JoinAll(ShortAll(l)), JoinAll(ShortAll(r)), l, r);
  }

  /** Reading two texts of single colons around a "::". */
  lemma ReadSplit(left: string, right: string, l: seq<nat>, r: seq<nat>)
    requires SingleColons(left) && SingleColons(right) && |l| + |r| <= 7
    requires ReadGroups(left) == Some(l) && ReadGroups(right) == Some(r)
    ensures var t := left + "::" + right;
            && ReadText(t) == Some(l + seq(8 - |l| - |r|, _ => 0) + r)
            && FindDouble(t, 0) == Some(|left|)
            && forall k: nat :: DoubleAt(t, k) <==> k == |left|
  {
    DoubleBetween(left, right);
    hide ReadGroups, SingleColons;
    var t := left + "::" + right;
    assert DoubleAt(t, |left|);
    assert t[..|left|] == left && t[|left| + 2..] == right;
  }

  // ---- normalize_ip ----

  function Colons(t: string): nat {
    if t == [] then 0 else Colons(t[..|t| - 1]) + if t[|t| - 1] == ':' then 1 else 0
  }

  /** string.rep(":0", n) */
  function Rep(n: int): string {
    if n <= 0 then [] else Rep(n - 1) + [':', '0']
  }

  /** The first "::" written out as zero groups. */
  function Expanded(ip: string): string {
    match FindDouble(ip, 0)
    case None => ip
    case Some(p) => ip[..p] + Rep(8 - Colons(ip) + 1) + ip[p + 2..]
  }

  function HexSpan(s: string): (n: nat)
    ensures n <= |s| && AllHex(s[..n]) && (n < |s| ==> !IsHex(s[n]))
    ensures s != [] && IsHex(s[0]) ==> n > 0
  {
    if s == [] || !IsHex(s[0]) then 0 else 1 + HexSpan(s[1..])
  }

  /** The matches of gmatch("[%x]+"). */
  function HexRuns(s: string): (runs: seq<string>)
    ensures AllParts(runs)
    decreases |s|
  {
    if s == [] then []
    else if !IsHex(s[0]) then HexRuns(s[1..])
    else [s[..HexSpan(s)]] + HexRuns(s[HexSpan(s)..])
  }

  function ZeroParts(n: int): (r: seq<string>)
    ensures |r| == if n < 0 then 0 else n
    ensures forall k :: 0 <= k < |r| ==> r[k] == "0"
  {
    seq(if n < 0 then 0 else n, _ => "0")
  }

  function Values(parts: seq<string>): (r: seq<nat>)
    requires AllParts(parts)
    ensures |r| == |parts| && forall k :: 0 <= k < |r| ==> r[k] == Value(parts[k])
  {
    seq(|parts|, k requires 0 <= k < |parts| => Value(parts[k]))
  }

  /** Blocks are added behind the last one until there are eight. */
  function Filled(values: seq<nat>): seq<nat> {
    if |values| < 8 then values + seq(8 - |values|, _ => 0) else values
  }

  function NormalText(ip: string): string {
    FullText(Filled(Values(HexRuns(Expanded(ip)))))
  }

  method CountColons(ip: string) returns (n: int)
    ensures n == Colons(ip)
  {
    n := 0;
    assert ip[..0] == [];
    for i := 0 to |ip|
      invariant n == Colons(ip[..i])
    {
      assert ip[..i + 1][..i] == ip[..i];
      if ip[i] == ':' { n := n + 1; }
    }
    assert ip[..|ip|] == ip;
  }

  /** Every block printed with four digits. */
  method PadBlocks(blocks: seq<string>) returns (padded: seq<string>)
    requires AllParts(blocks)
    ensures padded == PaddedAll(Values(blocks))
  {
    hide Padded, Value, AllHex;
    ghost var values := Values(blocks);
    padded := [];
    for i := 0 to |blocks|
      invariant padded == PaddedAll(values[..i])
    {
      assert IsPart(blocks[i]) && values[i] == Value(blocks[i]);
      padded := padded + [Padded(Value(blocks[i]))];
      assert values[..i + 1] == values[..i] + [values[i]];
    }
    assert values[..|blocks|] == values;
  }

  /** The loops that add missing blocks and print every block. */
  method PrintBlocks(found: seq<string>) returns (text: string)
    requires AllParts(found)
    ensures text == FullText(Filled(Values(found)))
  {
    ZeroPartsValues(if |found| < 8 then 8 - |found| else 0);
    hide Padded, Value, AllHex, Join;
    var blocks := found;
    while |blocks| < 8
      invariant |blocks| >= |found| && blocks == found + ZeroParts(|blocks| - |found|)
      invariant |found| < 8 ==> |blocks| <= 8
      invariant |found| >= 8 ==> blocks == found
      decreases 8 - |blocks|
    {
      blocks := blocks + ["0"];
    }
    if |found| < 8 {
      ValuesConcat(found, ZeroParts(8 - |found|));
    }
    assert Values(blocks) == Filled(Values(found));
    var padded := PadBlocks(blocks);
    return Join(padded, ':');
  }

  method Expand(ip: string) returns (expanded: string)
    ensures expanded == Expanded(ip)
  {
    var cut := FindDouble(ip, 0);
    if cut.None? { return ip; }
    var colons := CountColons(ip);
    var missing := 8 - colons;
    return ip[..cut.value] + Rep(missing + 1) + ip[cut.value + 2..];
  }

  /** normalize_ipv6 */
  method NormalizeIpv6(ip: string) returns (text: string)
    ensures text == NormalText(ip)
  {
    var expanded := Expand(ip);
    var blocks := HexRuns(expanded);
    text := PrintBlocks(blocks);
  }

  // ---- normalising a shortened text ----

  lemma {:induction false} ColonsConcat(a: string, b: string)
    ensures Colons(a + b) == Colons(a) + Colons(b)
    decreases |b|
  {
    if b == [] {
      assert a + b == a;
    } else {
      assert (a + b)[..|a + b| - 1] == a + b[..|b| - 1];
      ColonsConcat(a, b[..|b| - 1]);
    }
  }

  lemma {:induction false} NoColons(p: string)
    requires AllHex(p)
    ensures Colons(p) == 0
  {
    if p != [] { NoColons(p[..|p| - 1]); }
  }

  lemma {:induction false} JoinedColons(parts: seq<string>)
    requires AllParts(parts)
    ensures Colons(JoinAll(parts)) == if parts == [] then 0 else |parts| - 1
  {
    if parts != [] {
      assert IsPart(parts[0]);
      NoColons(parts[0]);
      if |parts| > 1 {
        var rest := JoinAll(parts[1..]);
        JoinedColons(parts[1..]);
        ColonsConcat(parts[0] + [':'], rest);
        ColonsConcat(parts[0], [':']);
        assert [':'][..0] == [];
      }
    }
  }

  lemma {:induction false} HexSpanOf(p: string, rest: string)
    requires AllHex(p) && (rest == [] || rest[0] == ':')
    ensures HexSpan(p + rest) == |p|
  {
    if p == [] {
      assert p + rest == rest;
    } else {
      assert (p + rest)[1..] == p[1..] + rest;
      HexSpanOf(p[1..], rest);
    }
  }

  predicate AllHexParts(parts: seq<string>) { forall k :: 0 <= k < |parts| ==> AllHex(parts[k]) }

  function NonEmpty(parts: seq<string>): (r: seq<string>)
    requires AllHexParts(parts)
    ensures AllParts(r)
  {
    if parts == [] then [] else (if parts[0] == [] then [] else [parts[0]]) + NonEmpty(parts[1..])
  }

  /** In a joined text the runs of hex digits are the nonempty parts. */
  lemma {:induction false} HexRunsOfJoin(parts: seq<string>)
    requires parts != [] && AllHexParts(parts)
    ensures HexRuns(Join(parts, ':')) == NonEmpty(parts)
  {
    var p := parts[0];
    assert AllHex(p);
    var rest := if |parts| == 1 then [] else [':'] + Join(parts[1..], ':');
    assert Join(parts, ':') == p + rest;
    HexSpanOf(p, rest);
    if |parts| > 1 {
      HexRunsOfJoin(parts[1..]);
      assert rest[1..] == Join(parts[1..], ':');
      assert HexRuns(rest) == NonEmpty(parts[1..]);
    } else {
      assert NonEmpty(parts[1..]) == [];
    }
    if p == [] {
      assert p + rest == rest;
    } else {
      assert (p + rest)[..|p|] == p && (p + rest)[|p|..] == rest;
    }
  }

  lemma {:induction false} NonEmptyOfParts(parts: seq<string>)
    requires AllParts(parts)
    ensures AllHexParts(parts) && NonEmpty(parts) == parts && NonEmpty([[]] + parts) == parts
  {
    if parts != [] {
      assert IsPart(parts[0]);
      NonEmptyOfParts(parts[1..]);
    }
    assert ([[]] + parts)[1..] == parts;
  }

  /** Appending ":0" n times to a joined text adds n zero parts. */
  lemma {:induction false} RepJoins(parts: seq<string>, n: nat)
    requires parts != []
    ensures Join(parts, ':') + Rep(n) == Join(parts + ZeroParts(n), ':')
  {
    hide Join, Terminated;
    if n == 0 {
      assert parts + ZeroParts(0) == parts;
      assert Join(parts, ':') + [] == Join(parts, ':');
    } else {
      RepJoins(parts, n - 1);
      var before := parts + ZeroParts(n - 1);
      assert parts + ZeroParts(n) == before + ["0"];
      JoinAppend(before, "0", ':');
      TerminatedIsJoined(before, ':');
      assert Join(parts, ':') + Rep(n) == Join(before, ':') + [':'] + "0";
    }
  }

  /** Two joined texts without a colon between them share a part. */
  lemma {:induction false} JoinMerges(a: seq<string>, x: string, y: string, c: seq<string>)
    ensures Join(a + [x], ':') + Join([y] + c, ':') == Join(a + [x + y] + c, ':')
  {
    var merged := a + [x + y] + c;
    if a == [] {
      assert a + [x] == [x] && merged == [x + y] + c;
      if c == [] {
        assert [y] + c == [y];
      } else {
        assert ([y] + c)[1..] == c && ([x + y] + c)[1..] == c;
      }
    } else {
      JoinMerges(a[1..], x, y, c);
      assert (a + [x])[1..] == a[1..] + [x] && merged[1..] == a[1..] + [x + y] + c;
    }
  }

  /** The zero groups an expanded text names between l and r others: one is missing when nothing stood left of "::". */
  function Gap(l: nat, r: nat): int {
    if l == 0 then 7 - r else 8 - l - r
  }

  /** The first part right of "::" takes the last "0" added in front of it. */
  function RightParts(r: seq<string>): seq<string> {
    if r == [] then [] else [['0'] + r[0]] + r[1..]
  }

  /** What expanding a text leaves as parts; nothing left of "::" still makes an empty part. */
  function ExpandedParts(l: seq<string>, r: seq<string>): seq<string> {
    (if l == [] then [[]] else []) + (l + ZeroParts(Gap(|l|, |r|)) + RightParts(r))
  }

  lemma ColonsAround(l: seq<string>, r: seq<string>)
    requires AllParts(l) && AllParts(r)
    ensures Colons(JoinAll(l) + "::" + JoinAll(r)) == 2 + (if l == [] then 0 else |l| - 1) + (if r == [] then 0 else |r| - 1)
  {
    JoinedColons(l);
    JoinedColons(r);
    ColonsConcat(JoinAll(l) + "::", JoinAll(r));
    ColonsConcat(JoinAll(l), "::");
    assert Colons("::") == 2 by { assert "::"[..1] == ":" && ":"[..0] == ""; }
  }

  lemma DoubleAtSeam(l: seq<string>, r: seq<string>)
    requires AllParts(l) && AllParts(r)
    ensures FindDouble(JoinAll(l) + "::" + JoinAll(r), 0) == Some(|JoinAll(l)|)
  {
    JoinedSingleColons(l);
    JoinedSingleColons(r);
    DoubleBetween(JoinAll(l), JoinAll(r));
    hide SingleColons;
    assert DoubleAt(JoinAll(l) + "::" + JoinAll(r), |JoinAll(l)|);
  }

  lemma ExpandedText(l: seq<string>, r: seq<string>)
    requires AllParts(l) && AllParts(r) && |l| + |r| <= 7
    ensures ExpandedParts(l, r) != []
    ensures Expanded(JoinAll(l) + "::" + JoinAll(r)) == Join(ExpandedParts(l, r), ':')
  {
    DoubleAtSeam(l, r);
    ColonsAround(l, r);
    var n := if r == [] then Gap(|l|, |r|) else Gap(|l|, |r|) + 1;
    ExpandedAround(JoinAll(l), JoinAll(r), n);
    ExpandedJoin(l, r, n);
  }

  lemma ExpandedAround(left: string, right: string, n: int)
    requires FindDouble(left + "::" + right, 0) == Some(|left|) && Colons(left + "::" + right) == 9 - n
    ensures Expanded(left + "::" + right) == left + Rep(n) + right
  {
    var t := left + "::" + right;
    hide FindDouble, Colons, Rep;
    assert t[..|left|] == left && t[|left| + 2..] == right;
  }

  function LeftParts(l: seq<string>): (parts: seq<string>)
    ensures parts != []
  {
    if l == [] then [[]] else l
  }

  lemma LeftJoins(l: seq<string>)
    ensures Join(LeftParts(l), ':') == JoinAll(l)
  {
  }

  lemma PartsGroup(l: seq<string>, r: seq<string>)
    ensures LeftParts(l) + (ZeroParts(Gap(|l|, |r|)) + RightParts(r)) == ExpandedParts(l, r)
  {
  }

  lemma ExpandedJoin(l: seq<string>, r: seq<string>, n: nat)
    requires Gap(|l|, |r|) >= 0 && n == if r == [] then Gap(|l|, |r|) else Gap(|l|, |r|) + 1
    ensures ExpandedParts(l, r) != []
    ensures JoinAll(l) + Rep(n) + JoinAll(r) == Join(ExpandedParts(l, r), ':')
  {
    hide Rep;
    var parts := LeftParts(l);
    LeftJoins(l);
    PartsGroup(l, r);
    RepJoins(parts, n);
    hide Join, ExpandedParts, LeftParts, Gap;
    if r == [] {
      assert RightParts(r) == [] && JoinAll(r) == [];
      assert parts + (ZeroParts(n) + []) == parts + ZeroParts(n);
      assert Join(parts, ':') + Rep(n) + [] == Join(parts, ':') + Rep(n);
    } else {
      assert r == [r[0]] + r[1..];
      LastZeroMerges(parts, n - 1, r[0], r[1..]);
    }
  }

  lemma LastZeroMerges(parts: seq<string>, n: nat, y: string, c: seq<string>)
    requires parts != []
    ensures Join(parts + ZeroParts(n + 1), ':') + Join([y] + c, ':') == Join(parts + (ZeroParts(n) + ([['0'] + y] + c)), ':')
  {
    var before := parts + ZeroParts(n);
    assert parts + ZeroParts(n + 1) == before + [['0']];
    JoinMerges(before, ['0'], y, c);
    assert parts + (ZeroParts(n) + ([['0'] + y] + c)) == before + [['0'] + y] + c;
  }

  lemma ValuesConcat(a: seq<string>, b: seq<string>)
    requires AllParts(a) && AllParts(b)
    ensures AllParts(a + b) && Values(a + b) == Values(a) + Values(b)
  {
  }

  lemma ValuesFront(p: string, rest: seq<string>)
    requires IsPart(p) && AllParts(rest)
    ensures AllParts([p] + rest) && Values([p] + rest) == [Value(p)] + Values(rest)
  {
    hide AllHex, Value;
  }

  lemma RightPartsValues(r: seq<string>)
    requires AllParts(r)
    ensures AllParts(RightParts(r)) && Values(RightParts(r)) == Values(r)
  {
    if r != [] {
      assert IsPart(r[0]);
      var merged := ['0'] + r[0];
      LeadingZeros(1, r[0]);
      assert Zeros(1) + r[0] == merged;
      hide AllHex, Value;
      assert AllParts(r[1..]);
      ValuesFront(merged, r[1..]);
      ValuesFront(r[0], r[1..]);
      hide AllParts, Values;
      assert r == [r[0]] + r[1..];
    }
  }

  lemma ZeroPartsValues(n: nat)
    ensures AllParts(ZeroParts(n)) && Values(ZeroParts(n)) == seq(n, _ => 0)
  {
  }

  lemma ExpandedPartsName(l: seq<string>, r: seq<string>)
    requires AllParts(l) && AllParts(r) && |l| + |r| <= 7
    ensures AllHexParts(ExpandedParts(l, r))
    ensures Values(NonEmpty(ExpandedParts(l, r))) == Values(l) + seq(Gap(|l|, |r|), _ => 0) + Values(r)
  {
    var gap := Gap(|l|, |r|);
    ZeroPartsValues(gap);
    RightPartsValues(r);
    ValuesConcat(l, ZeroParts(gap));
    ValuesConcat(l + ZeroParts(gap), RightParts(r));
    var body := l + ZeroParts(gap) + RightParts(r);
    NonEmptyOfParts(body);
    NonEmptyBehindEmpty(body);
    hide Values, NonEmpty, AllParts, AllHexParts, ZeroParts, RightParts;
    assert ExpandedParts(l, r) == if l == [] then [[]] + body else body;
  }

  lemma NonEmptyBehindEmpty(body: seq<string>)
    requires AllHexParts(body)
    ensures AllHexParts([[]] + body)
  {
    assert AllHex([]);
    hide AllHex;
  }

  lemma NormalizeWhole(parts: seq<string>)
    requires AllParts(parts) && |parts| == 8
    ensures NormalText(JoinAll(parts)) == FullText(Values(parts))
  {
    JoinedSingleColons(parts);
    NonEmptyOfParts(parts);
    HexRunsOfJoin(parts);
    assert FindDouble(JoinAll(parts), 0).None?;
  }

  lemma NormalizeAround(l: seq<string>, r: seq<string>)
    requires AllParts(l) && AllParts(r) && |l| + |r| <= 7
    ensures NormalText(JoinAll(l) + "::" + JoinAll(r)) ==
            FullText(Filled(Values(l) + seq(Gap(|l|, |r|), _ => 0) + Values(r)))
  {
    ExpandedText(l, r);
    ExpandedPartsName(l, r);
    HexRunsOfJoin(ExpandedParts(l, r));
  }

  // ---- normalising any text that names an address ----

  lemma {:induction false} ReadPartsAre(parts: seq<string>)
    requires ReadParts(parts).Some?
    ensures AllParts(parts) && Values(parts) == ReadParts(parts).value
  {
    if parts != [] {
      ReadPartsAre(parts[1..]);
      hide Value, AllHex;
      assert forall k :: 0 < k < |parts| ==> parts[k] == parts[1..][k - 1];
    }
  }

  /** The parts of a text of groups. */
  lemma GroupParts(t: string) returns (parts: seq<string>)
    requires ReadGroups(t).Some?
    ensures AllParts(parts) && JoinAll(parts) == t && Values(parts) == ReadGroups(t).value
    ensures parts == [] <==> t == []
  {
    parts := if t == [] then [] else Split(t, ':');
    if t != [] { JoinSplit(t, ':'); }
    ReadPartsAre(parts);
  }

  predicate StartsDouble(t: string) { DoubleAt(t, 0) }

  /** The groups as the normaliser prints them. */
  function Normalized(t: string, g: seq<nat>): seq<nat>
    requires |g| == 8
  {
    if StartsDouble(t) then g[1..] + [0] else g
  }

  /** Normalising any text of an address, in whatever case and with whatever leading zeros, gives the full form of the
      same address, except that behind a "::" in front every group moves one place to the left. */
  lemma NormalizeText(t: string)
    requires ReadText(t).Some?
    ensures |ReadText(t).value| == 8 && NormalText(t) == FullText(Normalized(t, ReadText(t).value))
  {
    var cut := FindDouble(t, 0);
    if cut.None? {
      hide NormalText, FullText, ReadGroups;
      var parts := GroupParts(t);
      NormalizeWhole(parts);
    } else {
      NormalizeCut(t, cut.value);
    }
  }

  /** The pieces of a text on either side of its "::". */
  lemma CutPieces(t: string, p: nat)
    requires ReadText(t).Some? && FindDouble(t, 0) == Some(p)
    ensures t == t[..p] + "::" + t[p + 2..] && (t[..p] == [] <==> StartsDouble(t))
    ensures ReadGroups(t[..p]).Some? && ReadGroups(t[p + 2..]).Some?
    ensures var l, r := ReadGroups(t[..p]).value, ReadGroups(t[p + 2..]).value;
            |l| + |r| <= 7 && ReadText(t).value == l + seq(8 - |l| - |r|, _ => 0) + r
  {
    hide ReadGroups;
  }

  lemma NormalizeCut(t: string, p: nat)
    requires ReadText(t).Some? && FindDouble(t, 0) == Some(p)
    ensures |ReadText(t).value| == 8 && NormalText(t) == FullText(Normalized(t, ReadText(t).value))
  {
    CutPieces(t, p);
    var g := ReadText(t).value;
    hide *;
    var l := GroupParts(t[..p]);
    var r := GroupParts(t[p + 2..]);
    NormalizeParts(t, l, r, g);
  }

  lemma NormalizeParts(t: string, l: seq<string>, r: seq<string>, g: seq<nat>)
    requires AllParts(l) && AllParts(r) && |l| + |r| <= 7 && t == JoinAll(l) + "::" + JoinAll(r)
    requires g == Values(l) + seq(8 - |l| - |r|, _ => 0) + Values(r) && (l == [] <==> StartsDouble(t))
    ensures |g| == 8 && NormalText(t) == FullText(Normalized(t, g))
  {
    hide NormalText, FullText, Filled, Normalized, StartsDouble, JoinAll, AllParts, Values, Gap;
    NormalizeAround(l, r);
    FilledIsNormalized(t, Values(l), Values(r), g);
  }

  lemma FilledIsNormalized(t: string, l: seq<nat>, r: seq<nat>, g: seq<nat>)
    requires |l| + |r| <= 7 && g == l + seq(8 - |l| - |r|, _ => 0) + r && (l == [] <==> StartsDouble(t))
    ensures Filled(l + seq(Gap(|l|, |r|), _ => 0) + r) == Normalized(t, g)
  {
    var named := l + seq(Gap(|l|, |r|), _ => 0) + r;
    if l == [] {
      assert named == g[1..];
    } else {
      assert named == g;
    }
  }

  lemma FullTextInjective(a: seq<nat>, b: seq<nat>)
    requires |a| == |b| && FullText(a) == FullText(b)
    ensures a == b
  {
    if a != [] {
      forall k | 0 <= k < |a| ensures IsPart(PaddedAll(a)[k]) && IsPart(PaddedAll(b)[k]) {
        WideValue(a[k], 4);
        WideValue(b[k], 4);
      }
      SplitParts(PaddedAll(a));
      SplitParts(PaddedAll(b));
      forall k | 0 <= k < |a| ensures a[k] == b[k] {
        WideValue(a[k], 4);
        WideValue(b[k], 4);
        assert Padded(a[k]) == PaddedAll(a)[k] == PaddedAll(b)[k];
      }
    }
  }

  predicate AllZero(g: seq<nat>) { forall k :: 0 <= k < |g| ==> g[k] == 0 }

  lemma RotatedZero(g: seq<nat>)
    requires |g| == 8 && g[0] == 0
    ensures g[1..] + [0] == g <==> AllZero(g)
  {
    var h := g[1..] + [0];
    assert h[7] == 0 && h[6] == g[7] && h[5] == g[6] && h[4] == g[5] && h[3] == g[4] && h[2] == g[3] && h[1] == g[2];
  }

  /** normalize_ip of a text is the full form of the address it names exactly when the text does not start with "::" or
      the address is all zero. */
  lemma NormalizeAgrees(t: string)
    requires ReadText(t).Some?
    ensures NormalText(t) == FullText(ReadText(t).value) <==> !StartsDouble(t) || AllZero(ReadText(t).value)
  {
    var g := ReadText(t).value;
    NormalizeText(t);
    hide ReadText, NormalText, FullText;
    if StartsDouble(t) {
      if g[0] == 0 { RotatedZero(g); }
      if FullText(g[1..] + [0]) == FullText(g) { FullTextInjective(g[1..] + [0], g); }
      if g[0] != 0 && g[1..] + [0] == g { DoubleStartsWithZero(t); }
    }
  }

  lemma DoubleStartsWithZero(t: string)
    requires ReadText(t).Some? && StartsDouble(t)
    ensures ReadText(t).value[0] == 0
  {
    assert FindDouble(t, 0) == Some(0) && t[..0] == [];
  }

  /** So the shortener and the normaliser agree exactly on the addresses that are all zero or whose first group is not. */
  lemma NormalizeShort(g: seq<nat>)
    requires IsAddress(g)
    ensures NormalText(ShortText(g)) == FullText(g) <==> g[0] != 0 || AllZero(g)
  {
    ShortTextReadsBack(g);
    NormalizeAgrees(ShortText(g));
    ShortTextStart(g);
  }

  lemma ShortTextStart(g: seq<nat>)
    requires IsAddress(g)
    ensures StartsDouble(ShortText(g)) <==> g[0] == 0
  {
    var n, e := RunExists(g);
    if n > 0 {
      var front := if n == 8 then ShortAll(g) else ShortAll(g[..n]);
      ShortFacts(g[0]);
      hide Short;
      assert front[0] == Short(g[0]) && JoinAll(front)[0] == front[0][0];
    }
  }

  lemma PaddedPart(v: nat)
    requires v < 0x1_0000
    ensures IsPart(Padded(v)) && |Padded(v)| == 4 && Value(Padded(v)) == v
  {
    WideValue(v, 4);
    WideLength(v);
  }

  lemma {:induction false} ReadPaddedParts(g: seq<nat>)
    requires forall k :: 0 <= k < |g| ==> g[k] < 0x1_0000
    ensures AllParts(PaddedAll(g)) && ReadParts(PaddedAll(g)) == Some(g)
  {
    if g != [] {
      hide Padded, Value, AllHex, Wide;
      ReadPaddedParts(g[1..]);
      PaddedPart(g[0]);
      assert PaddedAll(g)[1..] == PaddedAll(g[1..]);
      assert g == [g[0]] + g[1..];
      assert forall k :: 0 < k < |g| ==> PaddedAll(g)[k] == PaddedAll(g)[1..][k - 1];
    }
  }

  /** The full form names its address, and every group of it has four digits. */
  lemma FullTextReadsBack(g: seq<nat>)
    requires IsAddress(g)
    ensures ReadText(FullText(g)) == Some(g) && |FullText(g)| == 39
  {
    GroupAt(g, 0);
    ReadPaddedParts(g);
    JoinedSingleColons(PaddedAll(g));
    SplitParts(PaddedAll(g));
    hide PaddedAll, JoinAll, ReadParts, Split;
    assert FindDouble(FullText(g), 0).None?;
  }
}
