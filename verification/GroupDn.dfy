/** Building the DN of a configured group from its name, its folder and the server's domain. */
module GroupDn {
  import opened CText
  import opened SecureC

  const LDAP_GROUPDN_MAX_LEN := 1021
  const COPY_MAX := 255
  const LDAP_TAG_CASE_UPPER := 0
  const LDAP_TAG_CASE_LOWER := 1

  datatype Tags = Tags(ou: string, dc: string, cn: string)

  function TagsOf(tagCase: int): Tags {
    if tagCase == LDAP_TAG_CASE_UPPER then Tags("OU=", "DC=", "CN=") else Tags("ou=", "dc=", "cn=")
  }

  // ---- tokens ----

  /** The nonempty pieces between delimiters, as repeated strtok_s calls deliver them. */
  function Tokens(s: string, d: char): (toks: seq<string>)
    decreases |s|
  {
    if s == [] then []
    else if s[0] == d then Tokens(s[1..], d)
    else
      var n := Span(s, d);
      [s[..n]] + Tokens(s[n..], d)
  }

  /** strtok_s(s, d): skips delimiters, then cuts a token and steps over the delimiter behind it. */
  method StrTok(s: string, d: char) returns (tok: Option<string>, end: string)
    ensures tok.None? <==> Tokens(s, d) == []
    ensures tok.None? ==> |end| <= |s| && Tokens(end, d) == []
    ensures tok.Some? ==> |end| < |s| && Tokens(s, d) == [tok.value] + Tokens(end, d)
  {
    end := s;
    while end != [] && end[0] == d
      invariant |end| <= |s| && Tokens(s, d) == Tokens(end, d)
    {
      end := end[1..];
    }
    if end == [] { return None, end; }
    var n := 0;
    while n < |end| && end[n] != d
      invariant n <= |end| && d !in end[..n]
    {
      n := n + 1;
    }
    TokenCut(end, n, d);
    return Some(end[..n]), if n < |end| then end[n + 1..] else [];
  }

  lemma TokenCut(s: string, n: nat, d: char)
    requires 0 < n <= |s| && d !in s[..n] && (n < |s| ==> s[n] == d)
    ensures Tokens(s, d) == [s[..n]] + Tokens(if n < |s| then s[n + 1..] else [], d)
  {
  }

  function Reverse(s: seq<string>): (r: seq<string>)
    ensures |r| == |s|
  {
    if s == [] then [] else Reverse(s[1..]) + [s[0]]
  }

  // ---- the ideal DN ----

  /** ldap_group_forder_check: the folder is already written as a DN. */
  predicate IsDnFolder(folder: string) {
    |folder| >= 3 && (EqualIgnoreCase(folder[..3], "OU=") || EqualIgnoreCase(folder[..3], "CN="))
  }

  /** The path segments of a folder; a folder of slashes only stands for itself. */
  function Segments(folder: string): seq<string> {
    var toks := Tokens(folder, '/');
    if toks == [] then [folder] else toks
  }

  function Labels(domain: string): seq<string> {
    var toks := Tokens(domain, '.');
    if toks == [] then [domain] else toks
  }

  function Tagged(tag: string, values: seq<string>): (r: seq<string>)
    ensures |r| == |values| && forall k :: 0 <= k < |r| ==> r[k] == tag + values[k]
  {
    seq(|values|, k requires 0 <= k < |values| => tag + values[k])
  }

  function FolderParts(folder: string, tags: Tags): seq<string> {
    if IsDnFolder(folder) then [folder]
    else if folder == [] then []
    else Tagged(tags.ou, Reverse(Segments(folder)))
  }

  function Parts(domain: string, folder: string, name: string, tags: Tags): seq<string> {
    [tags.cn + name] + FolderParts(folder, tags) + Tagged(tags.dc, Labels(domain))
  }

  /** CN=name, the folder from its innermost segment out, and the domain labels in order. */
  function IdealDn(domain: string, folder: string, name: string, tags: Tags): string {
    Join(Parts(domain, folder, name, tags), ',')
  }

  // ---- the code ----

  /** What a buffer of the DN's size keeps of a text. */
  function Cut(s: string): string { s[..Min(|s|, LDAP_GROUPDN_MAX_LEN - 1)] }

  /** The buffer holds the parts, each with its comma, as far as they fit. */
  ghost predicate Holds(buf: array<char>, len: nat, parts: seq<string>)
    reads buf
  {
    var all := Terminated(parts, ',');
    buf.Length == LDAP_GROUPDN_MAX_LEN && len == |Cut(all)| && buf[..len] == Cut(all)
  }

  /** len += snprintf_truncated_s(group_info + len, LDAP_GROUPDN_MAX_LEN - len, piece) */
  method Append(buf: array<char>, len: nat, piece: string, ghost parts: seq<string>) returns (next: nat)
    requires Holds(buf, len, parts)
    modifies buf
    ensures var all := Terminated(parts, ',') + piece;
            next == |Cut(all)| && buf[..next] == Cut(all) && buf[next] == '\0'
  {
    var room := LDAP_GROUPDN_MAX_LEN - len;
    var ret := SnprintfS(buf, len, room, room - 1, piece);
    next := len + Min(|piece|, room - 1);
  }

  method AppendPart(buf: array<char>, len: nat, part: string, ghost parts: seq<string>) returns (next: nat)
    requires Holds(buf, len, parts)
    modifies buf
    ensures Holds(buf, next, parts + [part])
  {
    next := Append(buf, len, part + [','], parts);
    TerminatedStep(parts, part, ',');
    assert Terminated(parts, ',') + (part + [',']) == Terminated(parts, ',') + part + [','];
  }

  lemma {:induction false} ReverseSnoc(s: seq<string>, last: string)
    ensures Reverse(s + [last]) == [last] + Reverse(s)
  {
    if s == [] {
      assert (s + [last])[1..] == [];
    } else {
      assert (s + [last])[1..] == s[1..] + [last];
      ReverseSnoc(s[1..], last);
    }
  }

  /** parse_mutil_path: the segments are collected by prepending, so they come out innermost first. */
  method AppendPath(buf: array<char>, len: nat, folder: string, tags: Tags, ghost parts: seq<string>) returns (next: nat)
    requires Holds(buf, len, parts) && folder != []
    modifies buf
    ensures Holds(buf, next, parts + Tagged(tags.ou, Reverse(Segments(folder))))
  {
    var list: seq<string> := [];
    var tok, end := StrTok(folder, '/');
    if tok.None? {
      list := [folder] + list;
    } else {
      ghost var cut: seq<string> := [];
      while tok.Some?
        invariant list == Reverse(cut)
        invariant Tokens(folder, '/') == cut + (if tok.Some? then [tok.value] else []) + Tokens(end, '/')
        invariant tok.None? ==> Tokens(end, '/') == []
        decreases |end|, tok.Some?
        modifies {}
      {
        ReverseSnoc(cut, tok.value);
        list := [tok.value] + list;
        cut := cut + [tok.value];
        tok, end := StrTok(end, '/');
      }
      assert cut == Segments(folder);
    }
    assert list == Reverse(Segments(folder));
    next := AppendTagged(buf, len, tags.ou, list, parts);
  }

  /** Appends one tagged part a round, each with its comma. */
  method AppendTagged(buf: array<char>, len: nat, tag: string, values: seq<string>, ghost parts: seq<string>)
    returns (next: nat)
    requires Holds(buf, len, parts)
    modifies buf
    ensures Holds(buf, next, parts + Tagged(tag, values))
  {
    next := len;
    assert parts + Tagged(tag, values)[..0] == parts;
    for i := 0 to |values|
      invariant Holds(buf, next, parts + Tagged(tag, values)[..i])
    {
      ghost var before := parts + Tagged(tag, values)[..i];
      assert parts + Tagged(tag, values)[..i + 1] == before + [tag + values[i]];
      next := AppendPart(buf, next, tag + values[i], before);
    }
    assert Tagged(tag, values)[..|values|] == Tagged(tag, values);
  }

  /** How much of the DN the buffer ends up with: the comma behind the last label costs a byte. */
  function Room(domain: string): nat {
    if Tokens(domain, '.') == [] then LDAP_GROUPDN_MAX_LEN - 1 else LDAP_GROUPDN_MAX_LEN - 2
  }

  function Kept(domain: string, ideal: string): string { ideal[..Min(|ideal|, Room(domain))] }

  /** The domain part of parse_ldap_group_info. The last byte written is replaced by the terminator: the comma after
      the last label, or whatever the end of the buffer cut the text to. */
  method AppendDomain(buf: array<char>, len: nat, domain: string, tags: Tags, ghost parts: seq<string>) returns (n: nat)
    requires Holds(buf, len, parts) && parts != []
    modifies buf
    ensures var ideal := Join(parts + Tagged(tags.dc, Labels(domain)), ',');
            && n < buf.Length && n == Min(|ideal|, Room(domain)) && buf[..n] == ideal[..n] && buf[n] == '\0'
  {
    var tok, end := StrTok(domain, '.');
    if tok.None? {
      n := Append(buf, len, tags.dc + domain, parts);
      JoinAppend(parts, tags.dc + domain, ',');
      assert Tagged(tags.dc, Labels(domain)) == [tags.dc + domain];
      return;
    }
    n := len;
    ghost var cut: seq<string> := [];
    ghost var so := parts;
    while tok.Some?
      invariant so == parts + Tagged(tags.dc, cut) && Holds(buf, n, so)
      invariant Tokens(domain, '.') == cut + (if tok.Some? then [tok.value] else []) + Tokens(end, '.')
      invariant tok.None? ==> Tokens(end, '.') == []
      decreases |end|, tok.Some?
    {
      n := AppendPart(buf, n, tags.dc + tok.value, so);
      so := so + [tags.dc + tok.value];
      cut := cut + [tok.value];
      assert so == parts + Tagged(tags.dc, cut);
      tok, end := StrTok(end, '.');
    }
    assert cut == Labels(domain);
    n := DropLastByte(buf, n, so);
  }

  /** Overwrites the last byte written with the terminator. */
  method DropLastByte(buf: array<char>, len: nat, ghost parts: seq<string>) returns (n: nat)
    requires Holds(buf, len, parts) && parts != []
    modifies buf
    ensures var ideal := Join(parts, ',');
            && n < buf.Length && n == Min(|ideal|, LDAP_GROUPDN_MAX_LEN - 2) && buf[..n] == ideal[..n] && buf[n] == '\0'
  {
    TerminatedIsJoined(parts, ',');
    ghost var ideal := Join(parts, ',');
    n := len - 1;
    assert forall j :: 0 <= j < n ==> buf[j] == buf[..len][j] == ideal[j];
    buf[n] := '\0';
  }

  /** The local copy of a parameter, at most 255 bytes of it. */
  function Copied(s: CString): CString { s[..Min(|s|, COPY_MAX)] }

  lemma {:induction false} TokensClean(s: string, d: char, c: char)
    ensures forall t :: t in Tokens(s, d) ==> t != [] && d !in t && (c !in s ==> c !in t)
    decreases |s|
  {
    if s != [] {
      if s[0] == d {
        TokensClean(s[1..], d, c);
      } else {
        TokensClean(s[Span(s, d)..], d, c);
      }
    }
  }

  lemma ReverseMembers(s: seq<string>)
    ensures forall p :: p in Reverse(s) ==> p in s
  {
  }

  /** The parts hold only characters of their inputs and of the tags. */
  lemma PartsWithout(domain: string, folder: string, name: string, tags: Tags, c: char)
    requires c !in domain && c !in folder && c !in name && c !in tags.ou && c !in tags.dc && c !in tags.cn
    ensures forall p :: p in Parts(domain, folder, name, tags) ==> c !in p
  {
    TokensClean(domain, '.', c);
    TokensClean(folder, '/', c);
    ReverseMembers(Segments(folder));
    forall p | p in FolderParts(folder, tags) ensures c !in p {
      if !IsDnFolder(folder) {
        var segs := Reverse(Segments(folder));
        var k :| 0 <= k < |segs| && p == tags.ou + segs[k];
        assert segs[k] in segs;
      }
    }
    forall p | p in Tagged(tags.dc, Labels(domain)) ensures c !in p {
      var k :| 0 <= k < |Labels(domain)| && p == tags.dc + Labels(domain)[k];
      assert Labels(domain)[k] in Labels(domain);
    }
  }

  lemma IdealHasNoNul(domain: CString, folder: CString, name: CString, tagCase: int)
    ensures '\0' !in IdealDn(domain, folder, name, TagsOf(tagCase))
  {
    PartsWithout(domain, folder, name, TagsOf(tagCase), '\0');
    JoinChars(Parts(domain, folder, name, TagsOf(tagCase)), ',', '\0');
  }

  /** parse_ldap_group_info */
  method ParseGroupInfo(domain: CString, folder: CString, name: CString, buf: array<char>, tagCase: int) returns (ret: int)
    requires buf.Length == LDAP_GROUPDN_MAX_LEN
    modifies buf
    ensures ret == if tagCase == LDAP_TAG_CASE_UPPER || tagCase == LDAP_TAG_CASE_LOWER then RET_OK else RET_ERR
    ensures ret == RET_OK ==>
              var ideal := IdealDn(Copied(domain), Copied(folder), name, TagsOf(tagCase));
              '\0' in buf[..] && Text(buf[..]) == Kept(Copied(domain), ideal)
  {
    if tagCase != LDAP_TAG_CASE_UPPER && tagCase != LDAP_TAG_CASE_LOWER { return RET_ERR; }
    var tags, domainCp, folderCp := TagsOf(tagCase), Copied(domain), Copied(folder);
    ghost var parts := [];
    var len := 0;
    assert buf[..0] == [] == Cut(Terminated(parts, ','));
    len := AppendPart(buf, len, tags.cn + name, parts);
    parts := [tags.cn + name];
    if IsDnFolder(folderCp) {
      len := AppendPart(buf, len, folderCp, parts);
    } else if folderCp != [] {
      len := AppendPath(buf, len, folderCp, tags, parts);
    }
    assert parts + [] == parts;
    parts := parts + FolderParts(folderCp, tags);
    var n := AppendDomain(buf, len, domainCp, tags, parts);
    IdealHasNoNul(domainCp, folderCp, name, tagCase);
    PrefixIsText(buf, n, IdealDn(domainCp, folderCp, name, tags));
    return RET_OK;
  }

  lemma PrefixIsText(buf: array<char>, n: nat, ideal: string)
    requires n < buf.Length && n <= |ideal| && buf[..n] == ideal[..n] && buf[n] == '\0' && '\0' !in ideal
    ensures '\0' in buf[..] && Text(buf[..]) == ideal[..n]
  {
  }

  // ---- the DN, literally ----

  lemma {:induction false} SpanSplits(a: string, b: string, d: char)
    ensures Span(a + [d] + b, d) == Span(a, d)
    decreases |a|
  {
    if a != [] && a[0] != d {
      assert (a + [d] + b)[1..] == a[1..] + [d] + b;
      SpanSplits(a[1..], b, d);
    }
  }

  /** A delimiter separates the tokens on either side, and text without one is a token itself unless it is empty. */
  lemma {:induction false} TokensSplit(a: string, b: string, d: char)
    ensures Tokens(a + [d] + b, d) == Tokens(a, d) + Tokens(b, d)
    ensures d !in a ==> Tokens(a, d) == if a == [] then [] else [a]
    decreases |a|
  {
    var s := a + [d] + b;
    if a == [] {
      assert s[0] == d && s[1..] == b;
    } else if a[0] == d {
      assert s[1..] == a[1..] + [d] + b;
      TokensSplit(a[1..], b, d);
    } else {
      var n := Span(a, d);
      SpanSplits(a, b, d);
      assert s[n..] == a[n..] + [d] + b && s[..n] == a[..n];
      TokensSplit(a[n..], b, d);
      if d !in a {
        assert n == |a| && a[..n] == a;
      }
    }
  }

  /** Each value behind its tag, the last value first, each followed by a comma. */
  function InnermostFirst(tag: string, values: seq<string>): string {
    if values == [] then [] else tag + values[|values| - 1] + "," + InnermostFirst(tag, values[..|values| - 1])
  }

  function InOrder(tag: string, values: seq<string>): string
    requires values != []
  {
    if |values| == 1 then tag + values[0] else tag + values[0] + "," + InOrder(tag, values[1..])
  }

  /** The tokens; text that consists of delimiters only stands for itself. */
  function TokensOrWhole(s: string, d: char): (values: seq<string>)
    ensures values != []
  {
    if Tokens(s, d) == [] then [s] else Tokens(s, d)
  }

  /** The DN character by character: the name, the folder as it is where it is written as a DN and otherwise from its
      innermost segment out, and the domain's labels, each behind its tag. */
  lemma DnReads(domain: string, folder: string, name: string, tagCase: int)
    requires tagCase == 0 || tagCase == 1
    ensures var (cn, ou, dc) := if tagCase == 0 then ("CN=", "OU=", "DC=") else ("cn=", "ou=", "dc=");
            var path := if |folder| >= 3 && (EqualIgnoreCase(folder[..3], "OU=") || EqualIgnoreCase(folder[..3], "CN="))
                        then folder + "," else if folder == [] then [] else InnermostFirst(ou, TokensOrWhole(folder, '/'));
            IdealDn(domain, folder, name, TagsOf(tagCase)) == cn + name + "," + path + InOrder(dc, TokensOrWhole(domain, '.'))
  {
    DnReadsWith(domain, folder, name, TagsOf(tagCase));
    hide IdealDn, Tokens, InnermostFirst, InOrder;
  }

  /** The folder's part of the DN. */
  function PathText(folder: string, ou: string): string {
    if IsDnFolder(folder) then folder + "," else if folder == [] then [] else InnermostFirst(ou, TokensOrWhole(folder, '/'))
  }

  lemma DnReadsWith(domain: string, folder: string, name: string, tags: Tags)
    ensures IdealDn(domain, folder, name, tags) ==
            tags.cn + name + "," + PathText(folder, tags.ou) + InOrder(tags.dc, TokensOrWhole(domain, '.'))
  {
    var dcs := Tagged(tags.dc, Labels(domain));
    JoinInOrder(tags.dc, Labels(domain));
    JoinPath(folder, tags, dcs);
    JoinFirst(tags.cn + name, FolderParts(folder, tags) + dcs, ',');
    Associative([tags.cn + name], FolderParts(folder, tags), dcs);
    Associative(tags.cn + name + ",", PathText(folder, tags.ou), Join(dcs, ','));
    assert Labels(domain) == TokensOrWhole(domain, '.');
    hide *;
  }

  lemma Associative<T>(a: seq<T>, b: seq<T>, c: seq<T>)
    ensures a + b + c == a + (b + c)
  {
  }

  lemma JoinPath(folder: string, tags: Tags, dcs: seq<string>)
    requires dcs != []
    ensures Join(FolderParts(folder, tags) + dcs, ',') == PathText(folder, tags.ou) + Join(dcs, ',')
  {
    if IsDnFolder(folder) {
      JoinFirst(folder, dcs, ',');
    } else if folder != [] {
      JoinReversed(tags.ou, Segments(folder), dcs);
    } else {
      assert [] + dcs == dcs;
    }
    hide Join, Tokens, InnermostFirst, Tagged;
  }

  lemma {:induction false} JoinInOrder(tag: string, values: seq<string>)
    requires values != []
    ensures Join(Tagged(tag, values), ',') == InOrder(tag, values)
  {
    if |values| > 1 {
      JoinInOrder(tag, values[1..]);
      assert Tagged(tag, values) == [tag + values[0]] + Tagged(tag, values[1..]);
    }
  }

  lemma {:induction false} JoinReversed(tag: string, values: seq<string>, rest: seq<string>)
    requires rest != []
    ensures Join(Tagged(tag, Reverse(values)) + rest, ',') == InnermostFirst(tag, values) + Join(rest, ',')
    decreases |values|
  {
    if values == [] {
      assert Tagged(tag, Reverse(values)) + rest == rest;
    } else {
      var front, last := values[..|values| - 1], values[|values| - 1];
      assert values == front + [last];
      ReverseSnoc(front, last);
      JoinReversed(tag, front, rest);
      var others := Tagged(tag, Reverse(front)) + rest;
      assert Tagged(tag, Reverse(values)) + rest == [tag + last] + others;
      JoinFirst(tag + last, others, ',');
      hide Join, Tagged, Reverse;
    }
  }

  // ---- reading a DN back ----

  /** The values of the leading parts that carry the tag. */
  function TakeTagged(parts: seq<string>, tag: string): seq<string> {
    if parts == [] || !(tag <= parts[0]) then [] else [parts[0][|tag|..]] + TakeTagged(parts[1..], tag)
  }

  /** The name, the folder path from the outside in, and the domain labels a DN was built from. */
  function Recover(dn: string, tags: Tags): (string, seq<string>, seq<string>) {
    var parts := Split(dn, ',');
    var name := TakeTagged(parts[..1], tags.cn);
    var ous := TakeTagged(parts[1..], tags.ou);
    var rest := if 1 + |ous| <= |parts| then parts[1 + |ous|..] else [];
    (if name == [] then [] else name[0], Reverse(ous), TakeTagged(rest, tags.dc))
  }

  lemma {:induction false} TakeTaggedBack(tag: string, values: seq<string>, rest: seq<string>)
    requires rest == [] || !(tag <= rest[0])
    ensures TakeTagged(Tagged(tag, values) + rest, tag) == values
  {
    var parts := Tagged(tag, values) + rest;
    if values == [] {
      assert parts == rest;
    } else {
      assert parts[0] == tag + values[0] && parts[0][|tag|..] == values[0];
      assert parts[1..] == Tagged(tag, values[1..]) + rest;
      TakeTaggedBack(tag, values[1..], rest);
    }
  }

  lemma {:induction false} ReverseTwice(s: seq<string>)
    ensures Reverse(Reverse(s)) == s
  {
    if s != [] {
      ReverseSnoc(Reverse(s[1..]), s[0]);
      ReverseTwice(s[1..]);
    }
  }

  lemma RecoverParts(name: string, path: seq<string>, labels: seq<string>, tagCase: int, dn: string)
    requires var tags := TagsOf(tagCase);
             labels != [] && Split(dn, ',') == [tags.cn + name] + Tagged(tags.ou, path) + Tagged(tags.dc, labels)
    ensures Recover(dn, TagsOf(tagCase)) == (name, Reverse(path), labels)
  {
    var tags := TagsOf(tagCase);
    var parts, dcs := Split(dn, ','), Tagged(tags.dc, labels);
    assert parts[..1] == [tags.cn + name] == Tagged(tags.cn, [name]) + [];
    TakeTaggedBack(tags.cn, [name], []);
    assert parts[1..] == Tagged(tags.ou, path) + dcs;
    assert dcs[0][0] == tags.dc[0] != tags.ou[0];
    TakeTaggedBack(tags.ou, path, dcs);
    assert parts[1 + |path|..] == dcs == dcs + [];
    TakeTaggedBack(tags.dc, labels, []);
  }

  /** From comma-free inputs the DN determines the name, the folder path and the domain labels. */
  lemma GroupDnRecovers(domain: string, folder: string, name: string, tagCase: int)
    requires ',' !in domain && ',' !in folder && ',' !in name && !IsDnFolder(folder)
    ensures var tags := TagsOf(tagCase);
            Recover(IdealDn(domain, folder, name, tags), tags) ==
            (name, if folder == [] then [] else Segments(folder), Labels(domain))
  {
    var tags := TagsOf(tagCase);
    PartsWithout(domain, folder, name, tags, ',');
    SplitJoin(Parts(domain, folder, name, tags), ',');
    var path := if folder == [] then [] else Reverse(Segments(folder));
    assert FolderParts(folder, tags) == Tagged(tags.ou, path);
    RecoverParts(name, path, Labels(domain), tagCase, IdealDn(domain, folder, name, tags));
    ReverseTwice(Segments(folder));
  }
}
