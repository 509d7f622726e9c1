/** When the caps refuse nothing in the downward search. */
module MemberSearchCaps {
  import opened Chains
  import opened CText
  import opened Directory
  import opened FiniteSets
  import opened Footprint
  import opened MemberSearch

  /** The DNs of the configured groups. */
  function Starts(groups: GroupTable): seq<Dn> {
    StartsBelow(groups, MAX_USER_GROUP)
  }

  function StartsBelow(groups: GroupTable, n: nat): seq<Dn>
    requires n <= MAX_USER_GROUP
  {
    if n == 0 then [] else StartsBelow(groups, n - 1) + if groups[n - 1].Some? then [groups[n - 1].value] else []
  }

  lemma {:induction false} StartIn(groups: GroupTable, i: nat, n: nat)
    requires i < n <= MAX_USER_GROUP && groups[i].Some?
    ensures groups[i].value in StartsBelow(groups, n)
  {
    if i < n - 1 { StartIn(groups, i, n - 1); }
  }

  /** The downward search counts its nesting from zero. */
  const START := 0

  lemma {:induction false} FindNotRefused(g: Graph, user: CString, roots: seq<Dn>, name: Dn, level: nat, v: Visited,
                                          all: set<Dn>, stack: seq<Dn>)
    requires !v.refused && v.seen <= all && name in all && SmallDirectory(g, roots, all, START)
    requires OpenChain(g, roots, stack, v.seen) && |stack| == level && Extends(g, roots, stack, name)
    ensures var r := Find(g, user, name, level, v).0; !r.refused && v.seen <= r.seen <= all
    decreases Room(|v.seen|), 0, 0
  {
    hide IsPath, Next, Found, Direct;
    if name !in v.seen {
      SubsetCard(v.seen + {name}, all);
      assert |v.seen + {name}| == |v.seen| + 1;
      OpenChainGrows(g, roots, stack, v.seen, name);
      assert |stack + [name]| <= MAX_TREE_DEPTH + 1;
      forall n | n in Next(g, name) ensures n in all {}
      FindAnyNotRefused(g, user, roots, Next(g, name), level + 1, v.(seen := v.seen + {name}), all, stack + [name]);
    }
  }

  lemma {:induction false} FindAnyNotRefused(g: Graph, user: CString, roots: seq<Dn>, names: seq<Dn>, level: nat, v: Visited,
                                             all: set<Dn>, stack: seq<Dn>)
    requires !v.refused && v.seen <= all && SmallDirectory(g, roots, all, START) && OpenChain(g, roots, stack, v.seen) && |stack| == level
    requires forall n :: n in names ==> n in all && Extends(g, roots, stack, n)
    ensures var r := FindAny(g, user, names, level, v).0; !r.refused && v.seen <= r.seen <= all
    decreases Room(|v.seen|), 1, |names|
  {
    hide IsPath, Next;
    if names != [] {
      var front, last := names[..|names| - 1], names[|names| - 1];
      FindAnyNotRefused(g, user, roots, front, level, v, all, stack);
      FindNotRefused(g, user, roots, last, level, FindAny(g, user, front, level, v).0, all, stack);
    }
  }

  lemma StartNotRefused(g: Graph, user: CString, roots: seq<Dn>, name: Dn, v: Visited, all: set<Dn>)
    requires !v.refused && v.seen <= all && name in roots && SmallDirectory(g, roots, all, START)
    ensures var r := Find(g, user, name, 0, v).0; !r.refused && r.seen <= all
  {
    FindNotRefused(g, user, roots, name, 0, v, all, []);
  }

  lemma {:induction false} RoundsNotRefused(g: Graph, user: CString, groups: GroupTable, n: nat, group: seq<int>,
                                            roots: seq<Dn>, all: set<Dn>)
    requires n <= MAX_USER_GROUP == |group| && SmallDirectory(g, roots, all, START)
    requires forall i :: 0 <= i < n && groups[i].Some? ==> groups[i].value in roots
    ensures var p := Rounds(g, user, groups, n, group); !p.visited.refused && p.visited.seen <= all
  {
    hide Find, SmallDirectory;
    if n > 0 {
      RoundsNotRefused(g, user, groups, n - 1, group, roots, all);
      if groups[n - 1].Some? {
        StartNotRefused(g, user, roots, groups[n - 1].value, Rounds(g, user, groups, n - 1, group).visited, all);
      }
    }
  }

  /** With at most 2000 DNs below the configured groups and no chain longer than 51 the caps refuse nothing, and the
      fallback search has its exact result: SUCCESS if and only if some configured group transitively holds the user. */
  lemma SmallDirectoryIsSearchedExactly(server: Server, user: CString, groups: GroupTable, group: seq<int>, all: set<Dn>)
    requires |group| == MAX_USER_GROUP && SmallDirectory(DownGraph(server), Starts(groups), all, START)
    ensures var p := Rounds(DownGraph(server), user, groups, MAX_USER_GROUP, group);
            && !p.visited.refused
            && (p.flag <==> exists j :: 0 <= j < MAX_USER_GROUP && GroupHoldsUser(DownGraph(server), user, groups, j))
  {
    forall i | 0 <= i < MAX_USER_GROUP && groups[i].Some? ensures groups[i].value in Starts(groups) {
      StartIn(groups, i, MAX_USER_GROUP);
    }
    RoundsNotRefused(DownGraph(server), user, groups, MAX_USER_GROUP, group, Starts(groups), all);
    SearchByUsernameIsSound(DownGraph(server), user, groups, group);
  }
}
