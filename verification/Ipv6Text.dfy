/** The IPv6 shortener of utils.lua, against the text form of RFC 4291, section 2.2. */
module Ipv6Text {
  import opened CText
  import opened Hex

  /** An address as its eight 16-bit groups. */
  predicate IsAddress(g: seq<nat>) {
    |g| == 8 && forall k :: 0 <= k < 8 ==> g[k] < 0x1_0000
  }

  // ---- the full form ----

  function ShortAll(g: seq<nat>): (r: seq<string>)
    ensures |r| == |g| && forall k :: 0 <= k < |r| ==> r[k] == Short(g[k])
  {
    seq(|g|, k requires 0 <= k < |g| => Short(g[k]))
  }

  function PaddedAll(g: seq<nat>): (r: seq<string>)
    ensures |r| == |g| && forall k :: 0 <= k < |r| ==> r[k] == Padded(g[k])
  {
    seq(|g|, k requires 0 <= k < |g| => Padded(g[k]))
  }

  function JoinAll(parts: seq<string>): string {
    if parts == [] then [] else Join(parts, ':')
  }

  function FullText(g: seq<nat>): string { JoinAll(PaddedAll(g)) }

  // ---- the short form ----

  /** Groups n to e are the first run of zero groups; n == e == 8 when there is none. */
  ghost predicate IsRun(g: seq<nat>, n: nat, e: nat) {
    && n <= e <= |g| == 8
    && (forall k :: 0 <= k < n ==> g[k] != 0)
    && (forall k :: n <= k < e ==> g[k] == 0)
    && (n < 8 ==> n < e)
    && (e < 8 ==> g[e] != 0)
  }

  function FirstZero(g: seq<nat>, from: nat): (n: nat)
    requires from <= |g|
    ensures from <= n <= |g| && (forall k :: from <= k < n ==> g[k] != 0) && (n < |g| ==> g[n] == 0)
    decreases |g| - from
  {
    if from == |g| || g[from] == 0 then from else FirstZero(g, from + 1)
  }

  function FirstNonzero(g: seq<nat>, from: nat): (n: nat)
    requires from <= |g|
    ensures from <= n <= |g| && (forall k :: from <= k < n ==> g[k] == 0) && (n < |g| ==> g[n] != 0)
    decreases |g| - from
  {
    if from == |g| || g[from] != 0 then from else FirstNonzero(g, from + 1)
  }

  /** The groups before and after a run, and "::" for the run. */
  function ShortAround(g: seq<nat>, n: nat, e: nat): string
    requires n <= e <= |g|
  {
    if n == |g| then JoinAll(ShortAll(g)) else JoinAll(ShortAll(g[..n])) + "::" + JoinAll(ShortAll(g[e..]))
  }

  /** The first run of zero groups shortened to "::", every group without leading zeros. */
  function ShortText(g: seq<nat>): string {
    var n := FirstZero(g, 0);
    ShortAround(g, n, FirstNonzero(g, n))
  }

  lemma RunExists(g: seq<nat>) returns (n: nat, e: nat)
    requires |g| == 8
    ensures IsRun(g, n, e) && ShortText(g) == ShortAround(g, n, e)
  {
    n := FirstZero(g, 0);
    e := FirstNonzero(g, n);
  }

  /** The run shortened is the first one, and it is shortened whole. */
  lemma FirstRunIsShortened(g: seq<nat>, n: nat, e: nat)
    requires IsRun(g, n, e)
    ensures ShortText(g) == if n == 8 then JoinAll(ShortAll(g)) else JoinAll(ShortAll(g[..n])) + "::" + JoinAll(ShortAll(g[e..]))
  {
    hide JoinAll, ShortAll;
    assert n < 8 ==> g[n] == 0;
    assert FirstZero(g, 0) == n;
    assert e < 8 ==> g[e] != 0;
    assert FirstNonzero(g, n) == e;
  }

  // ---- the code ----

  /** to_value: a string of hex digits read digit by digit. */
  method ToValue(str: string) returns (res: nat)
    requires AllHex(str)
    ensures res == Value(str)
  {
    res := 0;
    assert str[..0] == [];
    for i := 0 to |str|
      invariant res == Value(str[..i])
    {
      assert str[..i + 1][..i] == str[..i];
      res := res * 16 + Digit(str[i]);
    }
    assert str[..|str|] == str;
  }

  /** Where part i stands in a text of four-character parts. */
  lemma {:induction false} PartAt(parts: seq<string>, i: nat)
    requires i < |parts| && forall p :: p in parts ==> |p| == 4
    ensures |JoinAll(parts)| == 5 * |parts| - 1
    ensures JoinAll(parts)[5 * i..5 * i + 4] == parts[i]
  {
    if |parts| > 1 {
      var rest := JoinAll(parts[1..]);
      assert JoinAll(parts) == parts[0] + [':'] + rest;
      PartAt(parts[1..], if i == 0 then 0 else i - 1);
      var t := JoinAll(parts);
      assert t[..4] == parts[0] && t[5..] == rest;
      if i > 0 { assert t[5 * i..5 * i + 4] == t[5..][5 * (i - 1)..5 * (i - 1) + 4]; }
    }
  }

  lemma GroupAt(g: seq<nat>, i: nat)
    requires IsAddress(g) && i < 8
    ensures |FullText(g)| == 39
    ensures FullText(g)[5 * i..5 * i + 4] == Padded(g[i])
    ensures Padded(g[i]) == "0000" <==> g[i] == 0
    ensures AllHex(Padded(g[i])) && Value(Padded(g[i])) == g[i]
  {
    forall k | 0 <= k < 8 ensures |PaddedAll(g)[k]| == 4 { WideLength(g[k]); }
    PartAt(PaddedAll(g), i);
    PaddedZero(g[i]);
    WideValue(g[i], 4);
  }

  /** format_ipv6_addr: cuts 32 hex digits into groups of four. */
  method FormatIpv6Addr(digits: string) returns (text: string)
    requires |digits| == 32
    ensures text == JoinAll(seq(8, i requires 0 <= i < 8 => digits[4 * i..4 * i + 4]))
  {
    text := "";
    assert Terminated([], ':') == text;
    hide Terminated, Join;
    ghost var parts := seq(8, i requires 0 <= i < 8 => digits[4 * i..4 * i + 4]);
    assert parts[..0] == [];
    for i := 1 to 9
      invariant text == Terminated(parts[..i - 1], ':')
    {
      TerminatedStep(parts[..i - 1], parts[i - 1], ':');
      assert parts[..i] == parts[..i - 1] + [parts[i - 1]];
      var temp := digits[(i - 1) * 4..i * 4];
      text := text + temp;
      text := text + [':'];
    }
    assert parts[..8] == parts;
    TerminatedIsJoined(parts, ':');
    text := text[..|text| - 1];
  }

  /** What the loop of delete_zero_addr has produced after i groups, whose short forms are `parts`: the text, whether
      the run to shorten is open, and how many runs have been shortened. */
  ghost predicate Emitted(lead: string, parts: seq<string>, n: nat, e: nat, i: nat, text: string, zero: bool, count: nat)
    requires n <= e <= |parts| && i <= |parts|
  {
    if i <= n then text == lead + Terminated(parts[..i], ':') && !zero && count == 0
    else if i <= e then text == lead + Terminated(parts[..n], ':') && zero && count == 0
    else text == lead + Terminated(parts[..n], ':') + [':'] + Terminated(parts[e..i], ':') && !zero && count == 1
  }

  lemma TerminatedSlice(parts: seq<string>, a: nat, i: nat)
    requires a <= i < |parts|
    ensures Terminated(parts[a..i + 1], ':') == Terminated(parts[a..i], ':') + parts[i] + [':']
  {
    assert parts[a..i + 1] == parts[a..i] + [parts[i]];
    TerminatedStep(parts[a..i], parts[i], ':');
  }

  /** One turn of the loop. */
  lemma EmitStep(lead: string, g: seq<nat>, parts: seq<string>, n: nat, e: nat, i: nat, text: string, zero: bool, count: nat)
    requires IsRun(g, n, e) && |parts| == 8 && i < 8 && Emitted(lead, parts, n, e, i, text, zero, count)
    ensures if g[i] != 0 || count > 0
            then Emitted(lead, parts, n, e, i + 1, text + (if zero then [':'] else []) + parts[i] + [':'], false,
                         count + if zero then 1 else 0)
            else Emitted(lead, parts, n, e, i + 1, text, true, count)
  {
    if i < n {
      EmitHead(lead, parts, i);
    } else if i >= e {
      EmitTail(lead + Terminated(parts[..n], ':') + [':'], parts, e, i);
    }
  }

  lemma EmitHead(lead: string, parts: seq<string>, i: nat)
    requires i < |parts|
    ensures lead + Terminated(parts[..i], ':') + [] + parts[i] + [':'] == lead + Terminated(parts[..i + 1], ':')
  {
    assert parts[..i] == parts[0..i] && parts[..i + 1] == parts[0..i + 1];
    TerminatedSlice(parts, 0, i);
    assert lead + Terminated(parts[..i], ':') + [] == lead + Terminated(parts[..i], ':');
    Regroup(lead, Terminated(parts[..i], ':'), parts[i], [':']);
  }

  lemma EmitTail(head: string, parts: seq<string>, e: nat, i: nat)
    requires e <= i < |parts|
    ensures head + Terminated(parts[e..i], ':') + parts[i] + [':'] == head + Terminated(parts[e..i + 1], ':')
    ensures i == e ==> head + parts[i] + [':'] == head + Terminated(parts[e..i + 1], ':')
    ensures head + Terminated(parts[e..i], ':') + [] + parts[i] + [':'] == head + Terminated(parts[e..i + 1], ':')
  {
    TerminatedSlice(parts, e, i);
    assert head + Terminated(parts[e..i], ':') + [] == head + Terminated(parts[e..i], ':');
    Regroup(head, Terminated(parts[e..i], ':'), parts[i], [':']);
    if i == e { assert parts[e..i] == []; }
  }

  /** The last steps of delete_zero_addr: what is cut off the end. */
  method TrimEnd(text: string) returns (str: string)
    requires text != []
    ensures str == Trimmed(text)
  {
    str := text[..|text| - 1];
    if |str| >= 3 {
      if str[|str| - 3..] == [':', ':', '0'] { str := str[..|str| - 1]; }
    }
  }

  predicate EndsInZeroRun(s: string) {
    |s| >= 3 && s[|s| - 3] == ':' && s[|s| - 2] == ':' && s[|s| - 1] == '0'
  }

  function Trimmed(text: string): string
    requires text != []
  {
    var str := text[..|text| - 1];
    if EndsInZeroRun(str) then str[..|str| - 1] else str
  }

  method DeleteZeroAddr(fileIpv6Str: string, ghost g: seq<nat>) returns (str: string)
    requires IsAddress(g) && fileIpv6Str == FullText(g)
    ensures str == ShortText(g)
  {
    ghost var n, e := RunExists(g);
    ghost var parts := ShortAll(g);
    assert Terminated(parts[..0], ':') == [];
    hide Terminated, Trimmed, Short, FullText, ShortText, IsRun;
    var ipv6Addr := Lead(fileIpv6Str, g);
    var zeroFlag, count := false, 0;
    ghost var lead := ipv6Addr;
    assert lead == lead + Terminated(parts[..0], ':');
    for i := 1 to 9
      invariant Emitted(lead, parts, n, e, i - 1, ipv6Addr, zeroFlag, count)
    {
      EmitStep(lead, g, parts, n, e, i - 1, ipv6Addr, zeroFlag, count);
      var temp := Sub(fileIpv6Str, i, g);
      ipv6Addr, zeroFlag, count := EmitGroup(temp, g[i - 1], ipv6Addr, zeroFlag, count);
    }
    EmitEnd(g, n, e, lead, ipv6Addr, zeroFlag, count);
    if zeroFlag && count == 0 {
      ipv6Addr := ipv6Addr + [':', '0', ':'];
    }
    str := TrimEnd(ipv6Addr);
  }

  /** The text starts with a colon when the address starts with a zero group. */
  method Lead(fileIpv6Str: string, ghost g: seq<nat>) returns (lead: string)
    requires IsAddress(g) && fileIpv6Str == FullText(g)
    ensures lead == if g[0] == 0 then [':'] else []
  {
    GroupAt(g, 0);
    lead := [];
    if fileIpv6Str[0..4] == "0000" { lead := [':']; }
  }

  /** string.sub(s, (i - 1) * 5 + 1, i * 5 - 1): the i-th group. */
  method Sub(fileIpv6Str: string, i: nat, ghost g: seq<nat>) returns (temp: string)
    requires IsAddress(g) && fileIpv6Str == FullText(g) && 1 <= i <= 8
    ensures AllHex(temp) && Value(temp) == g[i - 1] && (temp == "0000" <==> g[i - 1] == 0)
  {
    GroupAt(g, i - 1);
    temp := fileIpv6Str[(i - 1) * 5..i * 5 - 1];
  }

  /** The loop body of delete_zero_addr. */
  method EmitGroup(temp: string, ghost v: nat, before: string, zero: bool, runs: nat)
    returns (ipv6Addr: string, zeroFlag: bool, count: nat)
    requires AllHex(temp) && Value(temp) == v && (temp == "0000" <==> v == 0)
    ensures if v != 0 || runs > 0
            then ipv6Addr == before + (if zero then [':'] else []) + Short(v) + [':'] && !zeroFlag &&
                 count == runs + if zero then 1 else 0
            else ipv6Addr == before && zeroFlag && count == runs
  {
    ipv6Addr, zeroFlag, count := before, zero, runs;
    if temp != "0000" || count > 0 {
      if zeroFlag {
        count := count + 1;
        zeroFlag := false;
        ipv6Addr := ipv6Addr + [':'];
      }
      var value := ToValue(temp);
      ipv6Addr := ipv6Addr + Short(value);
      ipv6Addr := ipv6Addr + [':'];
    } else {
      zeroFlag := true;
    }
  }

  // ---- the end of the text ----

  /** Colons stand alone in a text, and not at its ends. */
  ghost predicate SingleColons(t: string) {
    && (t != [] ==> t[0] != ':' && t[|t| - 1] != ':')
    && forall k :: 0 < k < |t| && t[k] == ':' ==> t[k - 1] != ':'
  }

  /** A part of an address text. */
  predicate IsPart(p: string) { p != [] && AllHex(p) }

  predicate AllParts(parts: seq<string>) { forall k :: 0 <= k < |parts| ==> IsPart(parts[k]) }

  lemma ShortAllParts(g: seq<nat>)
    ensures AllParts(ShortAll(g))
  {
    forall k | 0 <= k < |g| ensures IsPart(ShortAll(g)[k]) { ShortFacts(g[k]); }
  }

  lemma SingleColonsConcat(p: string, r: string)
    requires IsPart(p) && r != [] && SingleColons(r)
    ensures SingleColons(p + [':'] + r)
  {
  }

  lemma {:induction false} JoinedSingleColons(parts: seq<string>)
    requires AllParts(parts)
    ensures SingleColons(JoinAll(parts)) && (parts != [] ==> JoinAll(parts) != [])
  {
    if parts != [] {
      assert IsPart(parts[0]);
      if |parts| > 1 {
        JoinedSingleColons(parts[1..]);
        SingleColonsConcat(parts[0], JoinAll(parts[1..]));
      }
    }
  }

  lemma NotZeroRun(left: string, right: string)
    requires right != [] && right != "0" && SingleColons(right)
    ensures !EndsInZeroRun(left + right)
  {
  }

  /** A joined text is "0" only for the single group 0. */
  lemma JoinedNotZero(g: seq<nat>)
    requires g != [] && g[0] != 0
    ensures JoinAll(ShortAll(g)) != "0"
  {
  }

  /** Closed text: with its last colon it is trimmed to what it was. */
  lemma TrimColon(head: string, g: seq<nat>)
    requires g != [] && g[0] != 0
    ensures var text := head + JoinAll(ShortAll(g));
            Trimmed(text + [':']) == text
  {
    ShortAllParts(g);
    JoinedSingleColons(ShortAll(g));
    JoinedNotZero(g);
    NotZeroRun(head, JoinAll(ShortAll(g)));
    var text := head + JoinAll(ShortAll(g));
    assert (text + [':'])[..|text|] == text;
  }

  lemma TrimZeroRun(head: string)
    requires |head| >= 2 && head[|head| - 1] == ':' && head[|head| - 2] == ':'
    ensures Trimmed(head + ['0'] + [':']) == head
  {
  }

  /** The text at the end of the loop, once trimmed, is the short form. */
  lemma EmitEnd(g: seq<nat>, n: nat, e: nat, lead: string, text: string, zero: bool, count: nat)
    requires IsRun(g, n, e) && lead == (if g[0] == 0 then [':'] else [])
    requires Emitted(lead, ShortAll(g), n, e, 8, text, zero, count)
    ensures if zero && count == 0 then Trimmed(text + [':', '0', ':']) == ShortAround(g, n, e)
            else text != [] && Trimmed(text) == ShortAround(g, n, e)
  {
    hide Trimmed, Terminated, Join;
    var parts := ShortAll(g);
    if n == 8 {
      EndWithoutRun(g);
      assert parts[..8] == parts && lead == [];
    } else {
      OpenRun(g, n, lead);
      var head := JoinAll(ShortAll(g[..n])) + "::";
      if e == 8 {
        TrimZeroRun(head);
        assert text + [':', '0', ':'] == head + ['0'] + [':'];
        assert g[e..] == [];
      } else {
        EndAfterRun(g, e, head);
        assert text == head + Terminated(parts[e..8], ':');
      }
    }
  }

  lemma EndWithoutRun(g: seq<nat>)
    requires g != [] && g[0] != 0
    ensures var text := [] + Terminated(ShortAll(g), ':'); text != [] && Trimmed(text) == JoinAll(ShortAll(g))
  {
    var joined := JoinAll(ShortAll(g));
    TerminatedIsJoined(ShortAll(g), ':');
    TrimColon([], g);
    assert Terminated(ShortAll(g), ':') == joined + [':'];
    hide Terminated, Trimmed, JoinAll, ShortAll;
    assert [] + joined == joined && [] + (joined + [':']) == joined + [':'];
  }

  lemma OpenRun(g: seq<nat>, n: nat, lead: string)
    requires n < |g| && lead == (if g[0] == 0 then [':'] else []) && (n == 0 <==> g[0] == 0)
    ensures var open := lead + Terminated(ShortAll(g)[..n], ':');
            open == JoinAll(ShortAll(g[..n])) + [':'] && open + [':'] == JoinAll(ShortAll(g[..n])) + "::"
  {
    var left := ShortAll(g)[..n];
    assert left == ShortAll(g[..n]);
    if n > 0 { TerminatedIsJoined(left, ':'); }
  }

  lemma EndAfterRun(g: seq<nat>, e: nat, head: string)
    requires e < |g| && g[e] != 0
    ensures var text := head + Terminated(ShortAll(g)[e..|g|], ':');
            text != [] && Trimmed(text) == head + JoinAll(ShortAll(g[e..]))
  {
    var right := ShortAll(g)[e..|g|];
    assert right == ShortAll(g[e..]);
    TerminatedIsJoined(right, ':');
    TrimColon(head, g[e..]);
    assert head + (JoinAll(right) + [':']) == head + JoinAll(right) + [':'];
  }

  // ---- from sixteen bytes ----

  predicate IsBytes(b: seq<nat>) {
    |b| == 16 && forall k :: 0 <= k < 16 ==> b[k] < 0x100
  }

  function GroupsOf(b: seq<nat>): (g: seq<nat>)
    requires IsBytes(b)
    ensures IsAddress(g)
  {
    seq(8, i requires 0 <= i < 8 => b[2 * i] * 256 + b[2 * i + 1])
  }

  /** "%.2x" of every byte. */
  function Digits(b: seq<nat>): string {
    if b == [] then [] else Digits(b[..|b| - 1]) + Wide(b[|b| - 1], 2)
  }

  lemma {:induction false} DigitsAt(b: seq<nat>, k: nat)
    requires k < |b| && forall j :: 0 <= j < |b| ==> b[j] < 0x100
    ensures |Digits(b)| == 2 * |b| && |Wide(b[k], 2)| == 2
    ensures Digits(b)[2 * k] == Wide(b[k], 2)[0] && Digits(b)[2 * k + 1] == Wide(b[k], 2)[1]
  {
    var front, last := b[..|b| - 1], b[|b| - 1];
    WideLength(last);
    if k < |front| {
      DigitsAt(front, k);
    } else if |front| > 0 {
      DigitsAt(front, 0);
    }
  }

  lemma DigitsAreGroups(b: seq<nat>, i: nat)
    requires IsBytes(b) && i < 8
    ensures |Digits(b)| == 32 && Digits(b)[4 * i..4 * i + 4] == Padded(GroupsOf(b)[i])
  {
    hide Digits, Wide, Padded;
    DigitsAt(b, 2 * i);
    DigitsAt(b, 2 * i + 1);
    TwoBytes(b[2 * i], b[2 * i + 1]);
    var high, low, quad := Wide(b[2 * i], 2), Wide(b[2 * i + 1], 2), Digits(b)[4 * i..4 * i + 4];
    assert quad[0] == high[0] && quad[1] == high[1] && quad[2] == low[0] && quad[3] == low[1];
    assert quad == high + low;
  }

  /** simplify_ipmi_ipv6_req */
  method SimplifyIpmiIpv6Req(addrReq: seq<nat>) returns (text: string)
    requires IsBytes(addrReq)
    ensures text == ShortText(GroupsOf(addrReq))
  {
    var addrStr := Digits(addrReq);
    ghost var g := GroupsOf(addrReq);
    DigitsAreGroups(addrReq, 0);
    var full := FormatIpv6Addr(addrStr);
    ghost var parts := seq(8, i requires 0 <= i < 8 => addrStr[4 * i..4 * i + 4]);
    forall i | 0 <= i < 8 ensures parts[i] == PaddedAll(g)[i] { DigitsAreGroups(addrReq, i); }
    assert parts == PaddedAll(g);
    text := DeleteZeroAddr(full, g);
  }
}
