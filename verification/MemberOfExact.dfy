/** What the upward search decides: exactly the configured groups above the user, as long as no cap
    turned a fresh DN away; and when the caps cannot do so. */
module MemberOfExact {
  import opened Chains
  import opened Directory
  import opened FiniteSets
  import opened Footprint
  import opened MemberOfSearch

  /** Every DN an upward search visits lies on a route from its start that avoids what was visited before
      and keeps the nesting within MAX_TREE_DEPTH. */
  lemma {:induction false} OwnerFollowsRoutes(g: Graph, groups: GroupTable, name: Dn, level: nat, t: Trace)
    requires |t.group| == MAX_USER_GROUP
    ensures var r := Owner(g, groups, name, level, t).0;
            forall x :: x in r.seen && x !in t.seen ==>
              ShortRoute(g, [name], x, t.seen, MAX_TREE_DEPTH + 1 - level)
    decreases Room(|t.seen|), 0, 0
  {
    if Accepts(t.seen, name, level) {
      var t1 := Visit(groups, name, t);
      var above := Next(g, name);
      OwnerAllFollowsRoutes(g, groups, above, level + 1, t1);
      var r := OwnerAll(g, groups, above, level + 1, t1).0;
      forall x | x in r.seen && x !in t.seen
        ensures ShortRoute(g, [name], x, t.seen, MAX_TREE_DEPTH + 1 - level)
      {
        if x == name {
          assert Route(g, [name], [name], name, t.seen);
        } else {
          var p :| Route(g, p, above, x, t1.seen) && |p| <= MAX_TREE_DEPTH - level;
          RouteExtends(g, name, p, above, x, t.seen, t1.seen);
          assert |[name] + p| <= MAX_TREE_DEPTH + 1 - level;
        }
      }
    }
  }

  lemma {:induction false} OwnerAllFollowsRoutes(g: Graph, groups: GroupTable, names: seq<Dn>, level: nat, t: Trace)
    requires |t.group| == MAX_USER_GROUP
    ensures var r := OwnerAll(g, groups, names, level, t).0;
            forall x :: x in r.seen && x !in t.seen ==>
              ShortRoute(g, names, x, t.seen, MAX_TREE_DEPTH + 1 - level)
    decreases Room(|t.seen|), 1, |names|
  {
    if names != [] {
      var front, last := names[..|names| - 1], names[|names| - 1];
      OwnerAllFollowsRoutes(g, groups, front, level, t);
      OwnerAllExplores(g, groups, front, level, t);
      var m := OwnerAll(g, groups, front, level, t).0;
      OwnerFollowsRoutes(g, groups, last, level, m);
      var r := Owner(g, groups, last, level, m).0;
      forall x | x in r.seen && x !in t.seen
        ensures ShortRoute(g, names, x, t.seen, MAX_TREE_DEPTH + 1 - level)
      {
        if x in m.seen {
          ShortRouteWeaken(g, front, names, x, t.seen, t.seen, MAX_TREE_DEPTH + 1 - level);
        } else {
          ShortRouteWeaken(g, [last], names, x, m.seen, t.seen, MAX_TREE_DEPTH + 1 - level);
        }
      }
    }
  }

  lemma {:induction false} OwnerStaysCapped(g: Graph, groups: GroupTable, name: Dn, level: nat, t: Trace)
    requires |t.group| == MAX_USER_GROUP && |t.seen| <= MAX_LDAP_GRP_HASH_SIZE
    ensures |Owner(g, groups, name, level, t).0.seen| <= MAX_LDAP_GRP_HASH_SIZE
    decreases Room(|t.seen|), 0, 0
  {
    if Accepts(t.seen, name, level) {
      OwnerAllStaysCapped(g, groups, Next(g, name), level + 1, Visit(groups, name, t));
    }
  }

  lemma {:induction false} OwnerAllStaysCapped(g: Graph, groups: GroupTable, names: seq<Dn>, level: nat, t: Trace)
    requires |t.group| == MAX_USER_GROUP && |t.seen| <= MAX_LDAP_GRP_HASH_SIZE
    ensures |OwnerAll(g, groups, names, level, t).0.seen| <= MAX_LDAP_GRP_HASH_SIZE
    decreases Room(|t.seen|), 1, |names|
  {
    if names != [] {
      OwnerAllStaysCapped(g, groups, names[..|names| - 1], level, t);
      OwnerStaysCapped(g, groups, names[|names| - 1], level, OwnerAll(g, groups, names[..|names| - 1], level, t).0);
    }
  }

  /** On every directory, cyclic ones included, the upward search looks at no more than 2000 DNs, each at the end of a
      chain of at most 50 that starts at the user. */
  lemma MemberOfStaysCapped(server: Server, groups: GroupTable, group: seq<int>)
    requires |group| == MAX_USER_GROUP
    ensures var t := MemberOf(server, groups, group).0;
            |t.seen| <= MAX_LDAP_GRP_HASH_SIZE &&
            forall x :: x in t.seen ==> ShortRoute(UpGraph(server), UserOwners(server), x, {}, MAX_TREE_DEPTH)
  {
    OwnerAllStaysCapped(UpGraph(server), groups, UserOwners(server), 1, Trace({}, group, false));
    OwnerAllFollowsRoutes(UpGraph(server), groups, UserOwners(server), 1, Trace({}, group, false));
  }

  /** The user belongs to configured group i: a DN reachable from the user's memberOf values names it. */
  ghost predicate UserInGroup(server: Server, groups: GroupTable, i: nat)
    requires i < MAX_USER_GROUP
  {
    exists x :: Reaches(UpGraph(server), UserOwners(server), x, {}) && Matches(groups, x, i)
  }

  /** The memberOf search marks exactly the groups the user belongs to unless a cap refused a fresh DN;
      whatever the caps do it marks no other group. */
  lemma MemberOfIsExact(server: Server, groups: GroupTable, group: seq<int>)
    requires |group| == MAX_USER_GROUP
    ensures var t := MemberOf(server, groups, group).0;
            && (forall i :: 0 <= i < MAX_USER_GROUP ==>
                  t.group[i] == group[i] || (t.group[i] == i && UserInGroup(server, groups, i)))
            && (!t.refused ==> forall i :: 0 <= i < MAX_USER_GROUP ==>
                  t.group[i] == if UserInGroup(server, groups, i) then i else group[i])
  {
    var g := UpGraph(server);
    var start := Trace({}, group, false);
    var roots := UserOwners(server);
    OwnerAllExplores(g, groups, roots, 1, start);
    OwnerAllFollowsRoutes(g, groups, roots, 1, start);
    var t := MemberOf(server, groups, group).0;
    assert t.seen - start.seen == t.seen;
    forall i | 0 <= i < MAX_USER_GROUP && MarkedBy(groups, t.seen, i)
      ensures UserInGroup(server, groups, i)
    {
      var x :| x in t.seen && Matches(groups, x, i);
      assert ShortRoute(g, roots, x, {}, MAX_TREE_DEPTH);
      assert Reaches(g, roots, x, {});
    }
    if !t.refused {
      forall i | 0 <= i < MAX_USER_GROUP && UserInGroup(server, groups, i)
        ensures MarkedBy(groups, t.seen, i)
      {
        var x :| Reaches(g, roots, x, {}) && Matches(groups, x, i);
        var p :| Route(g, p, roots, x, {});
        RouteStaysInside(g, p, roots, x, {}, t.seen);
      }
    }
  }

  /** SUCCESS is returned exactly when some entry was set, so the second search starts from an untouched array. */
  lemma MemberOfSuccessIffMarked(server: Server, groups: GroupTable, group: seq<int>)
    requires |group| == MAX_USER_GROUP && forall i :: 0 <= i < MAX_USER_GROUP ==> group[i] == NO_GROUP
    ensures var (t, rc) := MemberOf(server, groups, group);
            && (rc == Success <==> t.group != group)
            && (rc == Success <==> exists i :: 0 <= i < MAX_USER_GROUP && t.group[i] == i)
  {
    var start := Trace({}, group, false);
    OwnerAllExplores(UpGraph(server), groups, UserOwners(server), 1, start);
    var (t, rc) := MemberOf(server, groups, group);
    assert t.seen - start.seen == t.seen;
    if rc == Success {
      var i :| 0 <= i < MAX_USER_GROUP && MarkedBy(groups, t.seen, i);
      assert t.group[i] == i;
    }
    if i :| 0 <= i < MAX_USER_GROUP && t.group[i] != group[i] {
      assert MarkedBy(groups, t.seen, i);
    }
  }

  // ---- when the caps refuse nothing ----

  /** The upward search counts its nesting from one. */
  const START := 1

  lemma {:induction false} OwnerNotRefused(g: Graph, roots: seq<Dn>, groups: GroupTable, name: Dn, level: nat, t: Trace,
                                           all: set<Dn>, stack: seq<Dn>)
    requires |t.group| == MAX_USER_GROUP && !t.refused && t.seen <= all && name in all
    requires SmallDirectory(g, roots, all, START)
    requires OpenChain(g, roots, stack, t.seen) && |stack| + START == level && Extends(g, roots, stack, name)
    ensures var r := Owner(g, groups, name, level, t).0; !r.refused && r.seen <= all
    decreases Room(|t.seen|), 0, 0
  {
    hide IsPath, Next, Mark;
    if name !in t.seen {
      SubsetCard(t.seen, all);
      OpenChainGrows(g, roots, stack, t.seen, name);
      assert |stack + [name]| <= MAX_TREE_DEPTH;
      forall n | n in Next(g, name) ensures n in all {}
      OwnerAllNotRefused(g, roots, groups, Next(g, name), level + 1, Visit(groups, name, t), all, stack + [name]);
    }
  }

  lemma {:induction false} OwnerAllNotRefused(g: Graph, roots: seq<Dn>, groups: GroupTable, names: seq<Dn>, level: nat, t: Trace,
                                              all: set<Dn>, stack: seq<Dn>)
    requires |t.group| == MAX_USER_GROUP && !t.refused && t.seen <= all
    requires SmallDirectory(g, roots, all, START)
    requires OpenChain(g, roots, stack, t.seen) && |stack| + START == level
    requires forall n :: n in names ==> n in all && Extends(g, roots, stack, n)
    ensures var r := OwnerAll(g, groups, names, level, t).0; !r.refused && r.seen <= all
    decreases Room(|t.seen|), 1, |names|
  {
    if names != [] {
      var front, last := names[..|names| - 1], names[|names| - 1];
      OwnerAllNotRefused(g, roots, groups, front, level, t, all, stack);
      OwnerAllExplores(g, groups, front, level, t);
      OwnerNotRefused(g, roots, groups, last, level, OwnerAll(g, groups, front, level, t).0, all, stack);
    }
  }

  /** At most 2000 DNs above the user and no chain longer than 50: the caps never bite. */
  lemma ShortChainsAreNotRefused(server: Server, groups: GroupTable, group: seq<int>, all: set<Dn>)
    requires |group| == MAX_USER_GROUP
    requires SmallDirectory(UpGraph(server), UserOwners(server), all, START)
    ensures !MemberOf(server, groups, group).0.refused
  {
    OwnerAllNotRefused(UpGraph(server), UserOwners(server), groups, UserOwners(server), 1, Trace({}, group, false), all, []);
  }

  /** In particular they never bite when at most 50 DNs lie above the user. */
  lemma FewGroupsAreNotRefused(server: Server, groups: GroupTable, group: seq<int>, all: set<Dn>)
    requires |group| == MAX_USER_GROUP && |all| <= MAX_TREE_DEPTH
    requires HoldsAllBeyond(UpGraph(server), UserOwners(server), all)
    ensures !MemberOf(server, groups, group).0.refused
  {
    var g, roots := UpGraph(server), UserOwners(server);
    forall p | IsPath(g, p) && p[0] in roots && Distinct(p)
      ensures |p| <= MAX_TREE_DEPTH
    {
      forall i | 0 <= i < |p| ensures p[i] in all {
        assert IsPath(g, p[..i + 1]);
        assert Route(g, p[..i + 1], roots, p[i], {});
        RouteStaysInside(g, p[..i + 1], roots, p[i], {}, all);
      }
      DistinctCard(p);
      SubsetCard(Elements(p), all);
    }
    ShortChainsAreNotRefused(server, groups, group, all);
  }
}
