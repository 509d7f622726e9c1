/** The downward search: from a configured group through its members to the user, used when memberOf gave nothing.
    All configured groups share one visited set, and each search stops at its first success. */
module MemberSearch {
  import opened Chains
  import opened CText
  import opened DnCompare
  import opened Directory
  import opened Footprint

  datatype Visited = Visited(seen: set<Dn>, refused: bool)

  /** The group lists the user itself. */
  predicate ListsUser(members: seq<Dn>, user: CString) {
    exists m :: m in members && SameDn(m.text, user)
  }

  predicate Direct(g: Graph, user: CString, name: Dn) {
    Found(g, name).Some? && ListsUser(Next(g, name), user)
  }

  ghost function Find(g: Graph, user: CString, name: Dn, level: nat, v: Visited): (r: (Visited, SearchResult))
    ensures |v.seen| <= |r.0.seen|
    decreases Room(|v.seen|), 0, 0
  {
    if !Accepts(v.seen, name, level) then (v.(refused := v.refused || name !in v.seen), Unknown)
    else
      var v1 := v.(seen := v.seen + {name});
      if Found(g, name).None? then (v1, Unknown)
      else if Direct(g, user, name) then (v1, Success)
      else
        var (v2, found) := FindAny(g, user, Next(g, name), level + 1, v1);
        (v2, if found then Success else Error)
  }

  ghost function FindAny(g: Graph, user: CString, names: seq<Dn>, level: nat, v: Visited): (r: (Visited, bool))
    ensures |v.seen| <= |r.0.seen|
    decreases Room(|v.seen|), 1, |names|
  {
    if names == [] then (v, false)
    else
      var (v1, found) := FindAny(g, user, names[..|names| - 1], level, v);
      if found then (v1, true)
      else
        var (v2, rc) := Find(g, user, names[|names| - 1], level, v1);
        (v2, rc == Success)
  }

  lemma FindAnyStep(g: Graph, user: CString, names: seq<Dn>, last: Dn, level: nat, v: Visited)
    ensures var (v1, found) := FindAny(g, user, names, level, v);
            FindAny(g, user, names + [last], level, v) ==
            if found then (v1, true)
            else var (v2, rc) := Find(g, user, last, level, v1); (v2, rc == Success)
  {
  }

  /** Once found, later names are not looked at. */
  lemma {:induction false} FoundEarly(g: Graph, user: CString, names: seq<Dn>, k: nat, level: nat, v: Visited)
    requires k <= |names| && FindAny(g, user, names[..k], level, v).1
    ensures FindAny(g, user, names, level, v) == FindAny(g, user, names[..k], level, v)
    decreases |names|
  {
    if k == |names| {
      assert names[..k] == names;
    } else {
      assert names[..|names| - 1][..k] == names[..k];
      FoundEarly(g, user, names[..|names| - 1], k, level, v);
    }
  }

  // ---- the code ----

  ghost function Snapshot(table: NameTable): Visited
    reads table
  {
    Visited(table.names, table.refused)
  }

  lemma FindUnfolds(g: Graph, user: CString, name: Dn, level: nat, v: Visited)
    requires Accepts(v.seen, name, level)
    ensures var v1 := v.(seen := v.seen + {name});
            Find(g, user, name, level, v) ==
            if Found(g, name).None? then (v1, Unknown)
            else if Direct(g, user, name) then (v1, Success)
            else var (v2, found) := FindAny(g, user, Next(g, name), level + 1, v1); (v2, if found then Success else Error)
  {
  }

  lemma FindAnyNone(g: Graph, user: CString, level: nat, v: Visited)
    ensures FindAny(g, user, [], level, v) == (v, false)
  {
  }

  /** The first member loop of do_search_user_group. */
  method CheckMembers(members: seq<Dn>, user: CString) returns (listed: bool)
    ensures listed == ListsUser(members, user)
  {
    var i := 0;
    while i < |members|
      invariant i <= |members|
      invariant forall k :: 0 <= k < i ==> !SameDn(members[k].text, user)
    {
      var ret := CompareWithoutTag(Some(members[i].text), Some(user));
      if ret == RET_OK { return true; }
      i := i + 1;
    }
    return false;
  }

  /** do_search_user_group */
  method SearchUserGroup(server: Server, user: CString, name: Dn, level: nat, table: NameTable, ghost g: Graph)
    returns (rc: SearchResult)
    requires g == DownGraph(server)
    modifies table
    ensures (Snapshot(table), rc) == Find(g, user, name, level, old(Snapshot(table)))
    decreases Room(|table.names|), 0
  {
    var ok := table.Check(name, level);
    if !ok { return Unknown; }
    table.names := table.names + {name};
    ghost var v1 := Snapshot(table);
    FindUnfolds(g, user, name, level, old(Snapshot(table)));
    hide Find, FindAny;
    match Search(server.down, name)
    case Failed =>
      return Unknown;
    case Answered(chain) =>
      var msg := EntryFrom(chain, 0);
      if msg.None? { return Unknown; }
      if chain[msg.value].member.None? { return Unknown; }
      var members := chain[msg.value].member.value;
      assert Found(g, name) == Some(members);
      var listed := CheckMembers(members, user);
      if listed { return Success; }
      var found := SearchMembers(server, user, members, level + 1, table, g);
      return if found then Success else Error;
  }

  /** The second member loop of do_search_user_group. */
  method SearchMembers(server: Server, user: CString, members: seq<Dn>, level: nat, table: NameTable, ghost g: Graph)
    returns (found: bool)
    requires g == DownGraph(server)
    modifies table
    ensures (Snapshot(table), found) == FindAny(g, user, members, level, old(Snapshot(table)))
    decreases Room(|table.names|), 1
  {
    ghost var v1 := Snapshot(table);
    FindAnyNone(g, user, level, v1);
    hide Find, FindAny, DownGraph;
    assert members[..0] == [];
    for i := 0 to |members|
      invariant |v1.seen| <= |table.names|
      invariant (Snapshot(table), false) == FindAny(g, user, members[..i], level, v1)
    {
      FindAnyStep(g, user, members[..i], members[i], level, v1);
      assert members[..i + 1] == members[..i] + [members[i]];
      var ret := SearchUserGroup(server, user, members[i], level, table, g);
      if ret == Success {
        FoundEarly(g, user, members, i + 1, level, v1);
        return true;
      }
    }
    assert members[..|members|] == members;
    return false;
  }

  // ---- one search ----

  /** `name` leads to the user without touching `avoid`. */
  ghost predicate LeadsToUser(g: Graph, user: CString, roots: seq<Dn>, avoid: set<Dn>) {
    exists x :: Reaches(g, roots, x, avoid) && Direct(g, user, x)
  }

  /** The DNs of `s` beyond `before` do not list the user, and everything below them is in `s`. */
  ghost predicate Exhausted(g: Graph, user: CString, before: set<Dn>, s: set<Dn>) {
    ClosedBeyond(g, before, s) && forall x :: x in s && x !in before ==> !Direct(g, user, x)
  }

  lemma LeadsToUserWeaken(g: Graph, user: CString, roots: seq<Dn>, more: seq<Dn>, avoid: set<Dn>, less: set<Dn>)
    requires LeadsToUser(g, user, roots, avoid)
    requires less <= avoid && forall r :: r in roots ==> r in more
    ensures LeadsToUser(g, user, more, less)
  {
    var x :| Reaches(g, roots, x, avoid) && Direct(g, user, x);
    var p :| Route(g, p, roots, x, avoid);
    assert Route(g, p, more, x, less);
  }

  lemma ExhaustedHidesNothing(g: Graph, user: CString, roots: seq<Dn>, before: set<Dn>, s: set<Dn>)
    requires Exhausted(g, user, before, s) && forall r :: r in roots ==> r in s
    ensures !LeadsToUser(g, user, roots, before)
  {
    forall x | Reaches(g, roots, x, before) ensures !Direct(g, user, x) {
      var p :| Route(g, p, roots, x, before);
      RouteStaysInside(g, p, roots, x, before, s);
      assert x in p;
    }
  }

  /** Success always has a route that avoids what was visited before; failure without a refusal leaves
      everything newly visited exhausted. */
  lemma {:induction false} FindOutcome(g: Graph, user: CString, name: Dn, level: nat, v: Visited)
    ensures var (r, rc) := Find(g, user, name, level, v);
            && v.seen <= r.seen
            && (v.refused ==> r.refused)
            && (rc == Success ==> name in r.seen && LeadsToUser(g, user, [name], v.seen))
            && (rc != Success && !r.refused ==> name in r.seen && Exhausted(g, user, v.seen, r.seen))
    decreases Room(|v.seen|), 0, 0
  {
    if Accepts(v.seen, name, level) {
      var v1 := v.(seen := v.seen + {name});
      if Direct(g, user, name) {
        assert Route(g, [name], [name], name, v.seen);
        assert Reaches(g, [name], name, v.seen);
      } else if Found(g, name).Some? {
        FindAnyOutcome(g, user, Next(g, name), level + 1, v1);
        if FindAny(g, user, Next(g, name), level + 1, v1).1 {
          var x :| Reaches(g, Next(g, name), x, v1.seen) && Direct(g, user, x);
          var p :| Route(g, p, Next(g, name), x, v1.seen);
          RouteExtends(g, name, p, Next(g, name), x, v.seen, v1.seen);
          assert Reaches(g, [name], x, v.seen);
        }
      }
    }
  }

  lemma {:induction false} FindAnyOutcome(g: Graph, user: CString, names: seq<Dn>, level: nat, v: Visited)
    ensures var (r, found) := FindAny(g, user, names, level, v);
            && v.seen <= r.seen
            && (v.refused ==> r.refused)
            && (found ==> LeadsToUser(g, user, names, v.seen))
            && (!found && !r.refused ==> (forall n :: n in names ==> n in r.seen) && Exhausted(g, user, v.seen, r.seen))
    decreases Room(|v.seen|), 1, |names|
  {
    if names != [] {
      var front, last := names[..|names| - 1], names[|names| - 1];
      FindAnyOutcome(g, user, front, level, v);
      var (m, found) := FindAny(g, user, front, level, v);
      if found {
        LeadsToUserWeaken(g, user, front, names, v.seen, v.seen);
      } else {
        FindOutcome(g, user, last, level, m);
        if Find(g, user, last, level, m).1 == Success {
          LeadsToUserWeaken(g, user, [last], names, m.seen, v.seen);
        }
      }
    }
  }

  /** The exact result of one search that no cap cuts short: SUCCESS if and only if some route to the user
      avoids every DN visited before. */
  lemma FindIsExact(g: Graph, user: CString, name: Dn, level: nat, v: Visited)
    ensures var (r, rc) := Find(g, user, name, level, v);
            !r.refused ==> (rc == Success <==> LeadsToUser(g, user, [name], v.seen))
  {
    FindOutcome(g, user, name, level, v);
    var (r, rc) := Find(g, user, name, level, v);
    if rc != Success && !r.refused { ExhaustedHidesNothing(g, user, [name], v.seen, r.seen); }
  }

  // ---- all configured groups ----

  /** After some of the configured groups: the shared visited set, the group DNs found, the marks, and the flag. */
  datatype Progress = Progress(visited: Visited, found: set<Dn>, group: seq<int>, flag: bool)

  ghost function Round(g: Graph, user: CString, slot: Option<Dn>, j: nat, p: Progress): (r: Progress)
    requires j < |p.group|
    ensures |r.group| == |p.group|
  {
    if slot.None? then p
    else if slot.value in p.visited.seen && slot.value in p.found then p.(group := p.group[j := j])
    else
      var (v, rc) := Find(g, user, slot.value, 0, p.visited);
      if rc == Success then Progress(v, p.found + {slot.value}, p.group[j := j], true) else p.(visited := v)
  }

  ghost function Rounds(g: Graph, user: CString, groups: GroupTable, n: nat, group: seq<int>): (r: Progress)
    requires n <= MAX_USER_GROUP == |group|
    ensures |r.group| == MAX_USER_GROUP
  {
    if n == 0 then Progress(Visited({}, false), {}, group, false)
    else Round(g, user, groups[n - 1], n - 1, Rounds(g, user, groups, n - 1, group))
  }

  /** do_search_by_username, from the user's DN onwards */
  method SearchByUsername(server: Server, user: CString, groups: GroupTable, group: array<int>)
    returns (rc: SearchResult, ghost refused: bool)
    requires group.Length == MAX_USER_GROUP
    modifies group
    ensures var p := Rounds(DownGraph(server), user, groups, MAX_USER_GROUP, old(group[..]));
            group[..] == p.group && refused == p.visited.refused && rc == if p.flag then Success else Unknown
  {
    ghost var g, start := DownGraph(server), group[..];
    var flag := false;
    var table := new NameTable();
    var found: set<Dn> := {};
    for j := 0 to MAX_USER_GROUP
      invariant Progress(Snapshot(table), found, group[..], flag) == Rounds(g, user, groups, j, start)
    {
      if groups[j].None? { continue; }
      var name := groups[j].value;
      if name in table.names && name in found {
        group[j] := j;
        continue;
      }
      var ret := SearchUserGroup(server, user, name, 0, table, g);
      if ret == Success {
        group[j] := j;
        flag := true;
        found := found + {name};
      }
    }
    return if flag then Success else Unknown, table.refused;
  }

  /** Configured group j transitively contains the user. */
  ghost predicate GroupHoldsUser(g: Graph, user: CString, groups: GroupTable, j: nat)
    requires j < MAX_USER_GROUP
  {
    groups[j].Some? && LeadsToUser(g, user, [groups[j].value], {})
  }

  ghost predicate SomeHolderBelow(g: Graph, user: CString, groups: GroupTable, n: nat)
    requires n <= MAX_USER_GROUP
  {
    exists j :: 0 <= j < n && GroupHoldsUser(g, user, groups, j)
  }

  ghost predicate FirstHolder(g: Graph, user: CString, groups: GroupTable, j: nat)
    requires j < MAX_USER_GROUP
  {
    GroupHoldsUser(g, user, groups, j) && !SomeHolderBelow(g, user, groups, j)
  }

  /** What holds after the first n groups. */
  ghost predicate RoundsInvariant(g: Graph, user: CString, groups: GroupTable, n: nat, group: seq<int>, p: Progress)
    requires n <= MAX_USER_GROUP == |group| == |p.group|
  {
    && (forall d :: d in p.found ==> LeadsToUser(g, user, [d], {}))
    && (forall j :: 0 <= j < MAX_USER_GROUP ==>
          p.group[j] == group[j] || (j < n && p.group[j] == j && GroupHoldsUser(g, user, groups, j)))
    && (p.flag ==> SomeHolderBelow(g, user, groups, n))
    && (p.found != {} ==> p.flag)
    && (!p.visited.refused ==>
          && (!p.flag ==> Exhausted(g, user, {}, p.visited.seen) && !SomeHolderBelow(g, user, groups, n))
          && forall j :: 0 <= j < n && FirstHolder(g, user, groups, j) ==> p.group[j] == j)
  }

  /** A round that marks a group holding the user. */
  lemma MarkingRound(g: Graph, user: CString, groups: GroupTable, n: nat, group: seq<int>, p: Progress, q: Progress)
    requires n < MAX_USER_GROUP == |group| == |p.group|
    requires RoundsInvariant(g, user, groups, n, group, p)
    requires GroupHoldsUser(g, user, groups, n) && q.group == p.group[n := n] && q.flag
    requires q.found <= p.found + {groups[n].value}
    requires p.visited.refused ==> q.visited.refused
    ensures RoundsInvariant(g, user, groups, n + 1, group, q)
  {
  }

  /** A round that marks nothing. */
  lemma IdleRound(g: Graph, user: CString, groups: GroupTable, n: nat, group: seq<int>, p: Progress, v: Visited)
    requires n < MAX_USER_GROUP == |group| == |p.group|
    requires RoundsInvariant(g, user, groups, n, group, p)
    requires p.visited.refused ==> v.refused
    requires !v.refused && !p.flag ==> Exhausted(g, user, {}, v.seen) && !GroupHoldsUser(g, user, groups, n)
    ensures RoundsInvariant(g, user, groups, n + 1, group, p.(visited := v))
  {
  }

  lemma RoundKeepsInvariant(g: Graph, user: CString, groups: GroupTable, n: nat, group: seq<int>, p: Progress)
    requires n < MAX_USER_GROUP == |group| == |p.group|
    requires RoundsInvariant(g, user, groups, n, group, p)
    ensures RoundsInvariant(g, user, groups, n + 1, group, Round(g, user, groups[n], n, p))
  {
    var q := Round(g, user, groups[n], n, p);
    if groups[n].None? {
      IdleRound(g, user, groups, n, group, p, p.visited);
    } else if groups[n].value in p.visited.seen && groups[n].value in p.found {
      MarkingRound(g, user, groups, n, group, p, q);
    } else {
      var name := groups[n].value;
      FindOutcome(g, user, name, 0, p.visited);
      var (v, rc) := Find(g, user, name, 0, p.visited);
      if rc == Success {
        LeadsToUserWeaken(g, user, [name], [name], p.visited.seen, {});
        MarkingRound(g, user, groups, n, group, p, q);
      } else {
        if !v.refused && !p.flag { ExhaustedHidesNothing(g, user, [name], {}, v.seen); }
        IdleRound(g, user, groups, n, group, p, v);
      }
    }
  }

  lemma NothingVisited(g: Graph, user: CString, groups: GroupTable, group: seq<int>)
    requires |group| == MAX_USER_GROUP
    ensures RoundsInvariant(g, user, groups, 0, group, Progress(Visited({}, false), {}, group, false))
  {
  }

  lemma {:induction false} RoundsKeepInvariant(g: Graph, user: CString, groups: GroupTable, n: nat, group: seq<int>)
    requires n <= MAX_USER_GROUP == |group|
    ensures RoundsInvariant(g, user, groups, n, group, Rounds(g, user, groups, n, group))
  {
    hide RoundsInvariant, Round;
    if n == 0 {
      NothingVisited(g, user, groups, group);
    } else {
      RoundsKeepInvariant(g, user, groups, n - 1, group);
      RoundKeepsInvariant(g, user, groups, n - 1, group, Rounds(g, user, groups, n - 1, group));
    }
  }

  /** The fallback search: with no cap in the way it succeeds exactly when some configured group transitively
      contains the user and then marks the first such group; it never marks a group that does not. */
  lemma SearchByUsernameIsSound(g: Graph, user: CString, groups: GroupTable, group: seq<int>)
    requires |group| == MAX_USER_GROUP
    ensures var p := Rounds(g, user, groups, MAX_USER_GROUP, group);
            && (forall j :: 0 <= j < MAX_USER_GROUP && p.group[j] != group[j] ==>
                  p.group[j] == j && GroupHoldsUser(g, user, groups, j))
            && (p.flag ==> SomeHolderBelow(g, user, groups, MAX_USER_GROUP))
            && (!p.visited.refused ==>
                  && (p.flag <==> SomeHolderBelow(g, user, groups, MAX_USER_GROUP))
                  && forall j :: 0 <= j < MAX_USER_GROUP && FirstHolder(g, user, groups, j) ==> p.group[j] == j)
  {
    RoundsKeepInvariant(g, user, groups, MAX_USER_GROUP, group);
  }

  // ---- exactly which groups it marks ----

  /** Group j was found by name before, or still has a route to the user that avoids everything visited
      by the searches of the groups before it. */
  ghost predicate StillLeads(g: Graph, user: CString, groups: GroupTable, j: nat, group: seq<int>)
    requires j < MAX_USER_GROUP == |group|
  {
    var p := Rounds(g, user, groups, j, group);
    && groups[j].Some?
    && (groups[j].value in p.found || LeadsToUser(g, user, [groups[j].value], p.visited.seen))
  }

  lemma {:induction false} RefusalsOnlyGrow(g: Graph, user: CString, groups: GroupTable, m: nat, n: nat, group: seq<int>)
    requires m <= n <= MAX_USER_GROUP == |group|
    ensures Rounds(g, user, groups, m, group).visited.refused ==> Rounds(g, user, groups, n, group).visited.refused
    ensures forall j :: 0 <= j < m ==> Rounds(g, user, groups, n, group).group[j] == Rounds(g, user, groups, m, group).group[j]
  {
    if m < n {
      RefusalsOnlyGrow(g, user, groups, m, n - 1, group);
      var p := Rounds(g, user, groups, n - 1, group);
      if groups[n - 1].Some? { FindOutcome(g, user, groups[n - 1].value, 0, p.visited); }
    }
  }

  lemma {:induction false} FindStaysCapped(g: Graph, user: CString, name: Dn, level: nat, v: Visited)
    requires |v.seen| <= MAX_LDAP_GRP_HASH_SIZE
    ensures |Find(g, user, name, level, v).0.seen| <= MAX_LDAP_GRP_HASH_SIZE
    decreases Room(|v.seen|), 0, 0
  {
    if Accepts(v.seen, name, level) {
      FindAnyStaysCapped(g, user, Next(g, name), level + 1, v.(seen := v.seen + {name}));
    }
  }

  lemma {:induction false} FindAnyStaysCapped(g: Graph, user: CString, names: seq<Dn>, level: nat, v: Visited)
    requires |v.seen| <= MAX_LDAP_GRP_HASH_SIZE
    ensures |FindAny(g, user, names, level, v).0.seen| <= MAX_LDAP_GRP_HASH_SIZE
    decreases Room(|v.seen|), 1, |names|
  {
    if names != [] {
      FindAnyStaysCapped(g, user, names[..|names| - 1], level, v);
      FindStaysCapped(g, user, names[|names| - 1], level, FindAny(g, user, names[..|names| - 1], level, v).0);
    }
  }

  /** Every DN a downward search visits lies on a route from its start that avoids what was visited before and keeps
      the nesting within MAX_TREE_DEPTH. */
  lemma {:induction false} FindFollowsRoutes(g: Graph, user: CString, name: Dn, level: nat, v: Visited)
    ensures var r := Find(g, user, name, level, v).0;
            forall x :: x in r.seen && x !in v.seen ==> ShortRoute(g, [name], x, v.seen, LongestChain(level))
    decreases Room(|v.seen|), 0, 0
  {
    hide ShortRoute, Direct;
    if Accepts(v.seen, name, level) {
      var v1 := v.(seen := v.seen + {name});
      FindAnyFollowsRoutes(g, user, Next(g, name), level + 1, v1);
      OneStepRoute(g, name, v.seen, LongestChain(level));
      var r := Find(g, user, name, level, v).0;
      forall x | x in r.seen && x !in v1.seen ensures ShortRoute(g, [name], x, v.seen, LongestChain(level)) {
        ShortRouteExtends(g, name, x, v.seen, LongestChain(level + 1));
      }
    }
  }

  lemma OneStepRoute(g: Graph, name: Dn, avoid: set<Dn>, len: int)
    requires name !in avoid && 1 <= len
    ensures ShortRoute(g, [name], name, avoid, len)
  {
    assert Route(g, [name], [name], name, avoid);
  }

  lemma {:induction false} FindAnyFollowsRoutes(g: Graph, user: CString, names: seq<Dn>, level: nat, v: Visited)
    ensures var r := FindAny(g, user, names, level, v).0;
            forall x :: x in r.seen && x !in v.seen ==> ShortRoute(g, names, x, v.seen, LongestChain(level))
    decreases Room(|v.seen|), 1, |names|
  {
    hide ShortRoute;
    if names != [] {
      var front, last := names[..|names| - 1], names[|names| - 1];
      FindAnyFollowsRoutes(g, user, front, level, v);
      FindAnyOutcome(g, user, front, level, v);
      var m := FindAny(g, user, front, level, v).0;
      FindFollowsRoutes(g, user, last, level, m);
      var r := FindAny(g, user, names, level, v).0;
      forall x | x in r.seen && x !in v.seen ensures ShortRoute(g, names, x, v.seen, LongestChain(level)) {
        if x in m.seen {
          ShortRouteWeaken(g, front, names, x, v.seen, v.seen, LongestChain(level));
        } else {
          ShortRouteWeaken(g, [last], names, x, m.seen, v.seen, LongestChain(level));
        }
      }
    }
  }

  /** A chain of at most 51 DNs, starting at one of the first n configured groups, leads to x. */
  ghost predicate NearConfigured(g: Graph, groups: GroupTable, n: nat, x: Dn)
    requires n <= MAX_USER_GROUP
  {
    exists i :: 0 <= i < n && groups[i].Some? && ShortRoute(g, [groups[i].value], x, {}, MAX_TREE_DEPTH + 1)
  }

  /** On every directory, cyclic ones included, the five rounds of the downward search together look at no more than
      2000 DNs, each at the end of a chain of at most 51 that starts at a configured group. */
  lemma {:induction false} RoundsStayCapped(g: Graph, user: CString, groups: GroupTable, n: nat, group: seq<int>)
    requires n <= MAX_USER_GROUP == |group|
    ensures var p := Rounds(g, user, groups, n, group);
            |p.visited.seen| <= MAX_LDAP_GRP_HASH_SIZE &&
            forall x :: x in p.visited.seen ==> NearConfigured(g, groups, n, x)
  {
    hide Find, ShortRoute;
    if n > 0 {
      RoundsStayCapped(g, user, groups, n - 1, group);
      var p := Rounds(g, user, groups, n - 1, group).visited;
      if groups[n - 1].Some? {
        var name := groups[n - 1].value;
        FindStaysCapped(g, user, name, 0, p);
        FindFollowsRoutes(g, user, name, 0, p);
        var r := Find(g, user, name, 0, p).0;
        forall x | x in r.seen && x !in p.seen ensures NearConfigured(g, groups, n, x) {
          ShortRouteWeaken(g, [name], [name], x, p.seen, {}, MAX_TREE_DEPTH + 1);
        }
      }
    }
  }

  lemma {:induction false} FoundIsVisited(g: Graph, user: CString, groups: GroupTable, n: nat, group: seq<int>)
    requires n <= MAX_USER_GROUP == |group|
    ensures var p := Rounds(g, user, groups, n, group); p.found <= p.visited.seen
    ensures forall j :: n <= j < MAX_USER_GROUP ==> Rounds(g, user, groups, n, group).group[j] == group[j]
  {
    hide Find;
    if n > 0 {
      FoundIsVisited(g, user, groups, n - 1, group);
      var p := Rounds(g, user, groups, n - 1, group);
      if groups[n - 1].Some? {
        FindOutcome(g, user, groups[n - 1].value, 0, p.visited);
      }
    }
  }

  lemma {:induction false} MarkedIsFound(g: Graph, user: CString, groups: GroupTable, i: nat, n: nat, group: seq<int>)
    requires i < n <= MAX_USER_GROUP == |group| && groups[i].Some? && group[i] == NO_GROUP
    ensures var p := Rounds(g, user, groups, n, group);
            p.group[i] != NO_GROUP ==> groups[i].value in p.found
  {
    hide Find;
    if i < n - 1 {
      MarkedIsFound(g, user, groups, i, n - 1, group);
    } else {
      FoundIsVisited(g, user, groups, i, group);
    }
  }

  /** Two slots configured with the same DN: once the first is marked, so is the other. */
  lemma SameDnIsMarkedTwice(g: Graph, user: CString, groups: GroupTable, i: nat, j: nat, group: seq<int>)
    requires i < j < MAX_USER_GROUP == |group| && groups[i].Some? && groups[i] == groups[j] && group[i] == NO_GROUP
    ensures var p := Rounds(g, user, groups, MAX_USER_GROUP, group);
            p.group[i] != NO_GROUP ==> p.group[j] == j
  {
    hide Find;
    MarkedIsFound(g, user, groups, i, j, group);
    FoundIsVisited(g, user, groups, j, group);
    RefusalsOnlyGrow(g, user, groups, j, MAX_USER_GROUP, group);
    RefusalsOnlyGrow(g, user, groups, j + 1, MAX_USER_GROUP, group);
  }

  /** With no cap in the way, group j is marked if and only if it still leads to the user. */
  lemma SearchByUsernameMarks(g: Graph, user: CString, groups: GroupTable, j: nat, group: seq<int>)
    requires j < MAX_USER_GROUP == |group| && group[j] == NO_GROUP
    ensures var p := Rounds(g, user, groups, MAX_USER_GROUP, group);
            !p.visited.refused ==> (p.group[j] == j <==> StillLeads(g, user, groups, j, group))
  {
    var p := Rounds(g, user, groups, j, group);
    RefusalsOnlyGrow(g, user, groups, j + 1, MAX_USER_GROUP, group);
    FoundIsVisited(g, user, groups, j, group);
    if groups[j].Some? { FindIsExact(g, user, groups[j].value, 0, p.visited); }
  }

  /** A chain of at most 51 DNs leads to x from one of the first n configured groups that itself holds the user. */
  ghost predicate NearHolder(g: Graph, user: CString, groups: GroupTable, n: nat, x: Dn)
    requires n <= MAX_USER_GROUP
  {
    exists i :: 0 <= i < n && GroupHoldsUser(g, user, groups, i) &&
                ShortRoute(g, [groups[i].value], x, {}, MAX_TREE_DEPTH + 1)
  }

  /** What the rounds visit away from the groups that hold the user leads nowhere. */
  lemma {:induction false} VisitedElsewhereIsExhausted(g: Graph, user: CString, groups: GroupTable, n: nat,
                                                       group: seq<int>, near: set<Dn>)
    requires n <= MAX_USER_GROUP == |group|
    requires forall x :: NearHolder(g, user, groups, n, x) ==> x in near
    ensures var p := Rounds(g, user, groups, n, group).visited;
            !p.refused ==> Exhausted(g, user, near, p.seen)
  {
    hide Find, ShortRoute, LeadsToUser, Direct;
    if n > 0 {
      NearHolderGrows(g, user, groups, n - 1, near);
      VisitedElsewhereIsExhausted(g, user, groups, n - 1, group, near);
      var p := Rounds(g, user, groups, n - 1, group).visited;
      if groups[n - 1].Some? {
        var name := groups[n - 1].value;
        FindOutcome(g, user, name, 0, p);
        FindFollowsRoutes(g, user, name, 0, p);
        var (r, rc) := Find(g, user, name, 0, p);
        if rc == Success {
          LeadsToUserWeaken(g, user, [name], [name], p.seen, {});
          forall x | x in r.seen && x !in p.seen ensures x in near {
            ShortRouteWeaken(g, [name], [name], x, p.seen, {}, MAX_TREE_DEPTH + 1);
            assert NearHolder(g, user, groups, n, x);
          }
        }
      }
    }
  }

  lemma NearHolderGrows(g: Graph, user: CString, groups: GroupTable, n: nat, near: set<Dn>)
    requires n < MAX_USER_GROUP && forall x :: NearHolder(g, user, groups, n + 1, x) ==> x in near
    ensures forall x :: NearHolder(g, user, groups, n, x) ==> x in near
  {
    forall x | NearHolder(g, user, groups, n, x) ensures x in near { assert NearHolder(g, user, groups, n + 1, x); }
  }

  /** A route to the user that stays away from `near` meets nothing of a set exhausted beyond `near`. */
  lemma RouteAvoidsExhausted(g: Graph, user: CString, roots: seq<Dn>, near: set<Dn>, seen: set<Dn>)
    requires Exhausted(g, user, near, seen) && LeadsToUser(g, user, roots, near)
    ensures LeadsToUser(g, user, roots, seen)
  {
    var x :| Reaches(g, roots, x, near) && Direct(g, user, x);
    var p :| Route(g, p, roots, x, near);
    assert x in p;
    forall k | 0 <= k < |p| ensures p[k] !in seen {
      if p[k] in seen {
        RouteSuffix(g, p, roots, x, near, k);
        RouteStaysInside(g, p[k..], [p[k]], x, near, seen);
        assert false;
      }
    }
    assert Route(g, p, roots, x, seen);
  }

  /** A condition on the directory alone under which a group is not missed: `near` holds everything within 51 DNs of an
      earlier configured group that holds the user, and the user can be reached from this one without touching it. */
  lemma ApartGroupIsMarked(g: Graph, user: CString, groups: GroupTable, j: nat, group: seq<int>, near: set<Dn>)
    requires j < MAX_USER_GROUP == |group| && group[j] == NO_GROUP
    requires forall x :: NearHolder(g, user, groups, j, x) ==> x in near
    requires groups[j].Some? && LeadsToUser(g, user, [groups[j].value], near)
    ensures var p := Rounds(g, user, groups, MAX_USER_GROUP, group);
            !p.visited.refused ==> p.group[j] == j
  {
    hide Rounds, LeadsToUser, NearHolder, Exhausted;
    var p := Rounds(g, user, groups, j, group).visited;
    RefusalsOnlyGrow(g, user, groups, j, MAX_USER_GROUP, group);
    VisitedElsewhereIsExhausted(g, user, groups, j, group, near);
    if !p.refused { RouteAvoidsExhausted(g, user, [groups[j].value], near, p.seen); }
    SearchByUsernameMarks(g, user, groups, j, group);
  }

  lemma {:induction false} EmptySlots(g: Graph, user: CString, groups: GroupTable, n: nat, group: seq<int>)
    requires 1 <= n <= MAX_USER_GROUP == |group| && forall i :: 1 <= i < MAX_USER_GROUP ==> groups[i].None?
    ensures Rounds(g, user, groups, n, group) == Rounds(g, user, groups, 1, group)
  {
    if n > 1 { EmptySlots(g, user, groups, n - 1, group); }
  }

  /** A single configured group that lists the user is found. */
  lemma DirectGroupIsFound(g: Graph, user: CString, name: Dn, group: seq<int>)
    requires |group| == MAX_USER_GROUP && Direct(g, user, name)
    ensures Rounds(g, user, [Some(name), None, None, None, None], MAX_USER_GROUP, group).flag
  {
    var groups: GroupTable := [Some(name), None, None, None, None];
    EmptySlots(g, user, groups, MAX_USER_GROUP, group);
    assert Rounds(g, user, groups, 0, group) == Progress(Visited({}, false), {}, group, false);
  }

  /** Group B lists group A and group A lists the user, in a table that configures B first. */
  function NestedServer(a: Dn, b: Dn, user: Dn): Server {
    Server(Failed, map[], map[a := Answered([Entry(None, Some([user]))]), b := Answered([Entry(None, Some([a]))])])
  }

  /** Marking every group that holds the user does fail: A lists the user itself but was already visited on the way
      from B, so A stays unmarked. No cap is involved. */
  lemma VisitedGroupIsMissed(a: Dn, b: Dn, user: Dn)
    requires a != b && !SameDn(a.text, user.text)
    ensures var g := DownGraph(NestedServer(a, b, user));
            var groups: GroupTable := [Some(b), Some(a), None, None, None];
            var p := Rounds(g, user.text, groups, MAX_USER_GROUP, [NO_GROUP, NO_GROUP, NO_GROUP, NO_GROUP, NO_GROUP]);
            && !p.visited.refused
            && GroupHoldsUser(g, user.text, groups, 1) && p.group[1] == NO_GROUP
            && GroupHoldsUser(g, user.text, groups, 0) && p.group[0] == 0
  {
    var g := DownGraph(NestedServer(a, b, user));
    var groups: GroupTable := [Some(b), Some(a), None, None, None];
    var none := [NO_GROUP, NO_GROUP, NO_GROUP, NO_GROUP, NO_GROUP];
    assert Found(g, a) == Some([user]) && Found(g, b) == Some([a]);
    assert Direct(g, user.text, a) by { assert user in Next(g, a) && SameDn(user.text, user.text); }
    assert !Direct(g, user.text, b);
    assert Route(g, [a], [a], a, {});
    RouteExtends(g, b, [a], [a], a, {}, {});
    assert Reaches(g, [a], a, {}) && Reaches(g, [b], a, {});
    var nothing := Visited({}, false);
    var inB := Visited({b}, false);
    assert {} + {b} == {b};
    assert Find(g, user.text, a, 1, inB) == (Visited({b} + {a}, false), Success);
    assert [a][..0] == [];
    assert FindAny(g, user.text, [], 1, inB) == (inB, false);
    assert FindAny(g, user.text, [a], 1, inB) == (Visited({b} + {a}, false), true);
    assert Find(g, user.text, b, 0, nothing) == (Visited({b} + {a}, false), Success);
    var p1 := Rounds(g, user.text, groups, 1, none);
    assert Rounds(g, user.text, groups, 0, none) == Progress(nothing, {}, none, false);
    assert p1 == Progress(Visited({b} + {a}, false), {} + {b}, none[0 := 0], true);
    var p2 := Rounds(g, user.text, groups, 2, none);
    assert p2 == Round(g, user.text, Some(a), 1, p1) == p1;
    var p3 := Rounds(g, user.text, groups, 3, none);
    var p4 := Rounds(g, user.text, groups, 4, none);
    assert p3 == p2 && p4 == p3;
  }
}
