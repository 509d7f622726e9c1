/** remove_port_from_ip: the record name of an address, whatever port it came with. */
module IpAddress {
  import opened CText

  const MAX_IP_LENGTH := 64

  /** strchr */
  function First(s: string, c: char): (r: Option<nat>)
    ensures r.Some? ==> r.value < |s| && s[r.value] == c && c !in s[..r.value]
    ensures r.None? ==> c !in s
  {
    if s == [] then None
    else if s[0] == c then Some(0)
    else
      assert s == [s[0]] + s[1..];
      match First(s[1..], c)
      case None => None
      case Some(k) => assert s[..k + 1] == [s[0]] + s[1..][..k]; Some(k + 1)
  }

  /** strrchr */
  function Last(s: string, c: char): (r: Option<nat>)
    ensures r.Some? ==> r.value < |s| && s[r.value] == c && c !in s[r.value + 1..]
    ensures r.None? ==> c !in s
  {
    if s == [] then None
    else if s[|s| - 1] == c then Some(|s| - 1)
    else
      assert s == s[..|s| - 1] + [s[|s| - 1]];
      match Last(s[..|s| - 1], c)
      case None => None
      case Some(k) => assert s[k + 1..] == s[..|s| - 1][k + 1..] + [s[|s| - 1]]; Some(k)
  }

  /** strncpy_s into the 64-byte name: fails unless the text and its terminator fit. */
  function CopyName(s: string): Option<string> {
    if |s| < MAX_IP_LENGTH then Some(s) else None
  }

  function RemovePort(ip: string): Option<string> {
    if ip != [] && ip[0] == '[' then
      match First(ip, ']')
      case None => None
      case Some(end) =>
        if end + 1 < |ip| && ip[end + 1] != ':' then None else CopyName(ip[1..end])
    else
      var first, last := First(ip, ':'), Last(ip, ':');
      if first.Some? && last.Some? && first == last then CopyName(ip[..last.value]) else CopyName(ip)
  }

  /** Exactly one colon. */
  predicate OneColon(s: string) {
    First(s, ':').Some? && First(s, ':') == Last(s, ':')
  }

  lemma OneColonIs(s: string, k: nat)
    requires k < |s| && s[k] == ':'
    ensures OneColon(s) ==> First(s, ':') == Some(k)
    ensures ':' !in s[..k] && ':' !in s[k + 1..] ==> OneColon(s) && First(s, ':') == Some(k)
  {
    var f, l := First(s, ':').value, Last(s, ':').value;
    if f < k { assert s[f] in s[..k]; }
    if k < l { assert s[l] in s[k + 1..]; }
  }

  /** A record name that stripping leaves alone. */
  predicate Stable(name: string) {
    !(name != [] && name[0] == '[') && !OneColon(name)
  }

  /** Stripping a port twice is stripping it once, exactly when the result has neither a leading bracket nor a
      single colon; only a bracketed text can have one. */
  lemma StripTwice(ip: string)
    requires RemovePort(ip).Some?
    ensures var name := RemovePort(ip).value;
            && (RemovePort(name) == Some(name) <==> Stable(name))
            && (!(ip != [] && ip[0] == '[') ==> Stable(name))
  {
  }

  /** A stripped text fits the name buffer and, if it starts with a bracket, has no closing one. */
  lemma StrippedForm(ip: string)
    requires RemovePort(ip).Some?
    ensures var name := RemovePort(ip).value; |name| < MAX_IP_LENGTH && (name != [] && name[0] == '[' ==> ']' !in name)
  {
    if ip != [] && ip[0] == '[' {
      var end := First(ip, ']').value;
      assert forall c :: c in ip[1..end] ==> c in ip[..end];
    }
  }

  /** A bracket that is not closed has no record. */
  lemma BracketedIsRefused(n: string)
    requires n != [] && (n[0] == '[' ==> ']' !in n)
    ensures n[0] == '[' ==> RemovePort(n).None?
  {
  }

  lemma StableNameIsKept(n: string)
    requires |n| < MAX_IP_LENGTH
    ensures Stable(n) ==> RemovePort(n) == Some(n)
  {
  }

  // ---- the addresses callers pass ----

  predicate Plain(s: string) { '[' !in s && ']' !in s }

  predicate IsV4(s: string) { 0 < |s| < MAX_IP_LENGTH && Plain(s) && ':' !in s }

  /** An IPv6 text has at least two colons. */
  predicate IsV6(s: string) { 0 < |s| < MAX_IP_LENGTH && Plain(s) && ':' in s && !OneColon(s) }

  /** Every port of an address, and its bare form, share one record, whose name is stable. */
  lemma PortsShareRecord(address: string, port: string)
    ensures IsV4(address) ==>
              && RemovePort(address) == Some(address) && Stable(address)
              && (':' !in port ==> RemovePort(address + [':'] + port) == Some(address))
    ensures IsV6(address) ==>
              && RemovePort(address) == Some(address) && Stable(address)
              && RemovePort(['['] + address + [']']) == Some(address)
              && RemovePort(['['] + address + [']', ':'] + port) == Some(address)
  {
    if IsV4(address) {
      assert address[0] in address;
      var withPort := address + [':'] + port;
      assert withPort[0] == address[0] && withPort[..|address|] == address && withPort[|address| + 1..] == port;
      OneColonIs(withPort, |address|);
    }
    if IsV6(address) {
      assert address[0] in address;
      BracketEnds(address, []);
      BracketEnds(address, [':'] + port);
      assert ['['] + address + [']'] + [] == ['['] + address + [']'];
      assert ['['] + address + [']'] + ([':'] + port) == ['['] + address + [']', ':'] + port;
    }
  }

  lemma BracketEnds(address: string, rest: string)
    requires ']' !in address && |address| < MAX_IP_LENGTH && (rest == [] || rest[0] == ':')
    ensures RemovePort(['['] + address + [']'] + rest) == Some(address)
  {
    var ip, k := ['['] + address + [']'] + rest, |address| + 1;
    assert ip[k] == ']' && ip[..k] == ['['] + address && ip[1..k] == address;
    var end := First(ip, ']').value;
  }

  lemma FirstIsAt(s: string, c: char, k: nat)
    requires k < |s| && s[k] == c && c !in s[..k]
    ensures First(s, c) == Some(k)
  {
    forall i | 0 <= i < k ensures s[i] != c { assert s[..k][i] == s[i]; }
  }

  /** In front of a closing bracket stands the name, unless something else than a port follows; a bracket that is not
      closed has no name. */
  lemma BracketedName(address: string, rest: string)
    requires ']' !in address
    ensures RemovePort(['['] + address + [']'] + rest) ==
            if (rest == "" || rest[0] == ':') && |address| < 64 then Some(address) else None
    ensures RemovePort(['['] + address) == None
  {
    var ip := ['['] + address + [']'] + rest;
    assert ip[..|address| + 1] == ['['] + address && ip[1..|address| + 1] == address;
    FirstIsAt(ip, ']', |address| + 1);
    assert rest != "" ==> ip[|address| + 2] == rest[0];
    assert First(['['] + address, ']').None?;
  }

  /** Without a bracket in front, a single colon ends the name; any other text is the name itself. Only the length of the
      name can be wrong. */
  lemma UnbracketedName(address: string, port: string)
    requires ':' !in address && ':' !in port && (address == "" || address[0] != '[')
    ensures RemovePort(address + [':'] + port) == if |address| < 64 then Some(address) else None
    ensures RemovePort(address) == if |address| < 64 then Some(address) else None
  {
    var ip := address + [':'] + port;
    assert ip[|address|] == ':' && ip[..|address|] == address && ip[|address| + 1..] == port;
    OneColonIs(ip, |address|);
    assert address != "" ==> ip[0] == address[0];
  }

  /** Two colons or more: nothing is cut off. */
  lemma ManyColonsName(ip: string, j: nat, k: nat)
    requires j < k < |ip| && ip[j] == ip[k] == ':' && ip[0] != '['
    ensures RemovePort(ip) == if |ip| < 64 then Some(ip) else None
  {
    OneColonIs(ip, j);
    OneColonIs(ip, k);
  }
}
