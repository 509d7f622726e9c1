/** The upward search: from the user's memberOf values to every group above them. */
module MemberOfSearch {
  import opened CText
  import opened DnCompare
  import opened Directory
  import opened FiniteSets
  import opened Footprint

  /** What the search leaves behind: the visited DNs, the marks, and whether a cap ever refused a fresh DN. */
  datatype Trace = Trace(seen: set<Dn>, group: seq<int>, refused: bool)

  predicate Matches(groups: GroupTable, name: Dn, i: nat)
    requires i < MAX_USER_GROUP
  {
    groups[i].Some? && SameDn(name.text, groups[i].value.text)
  }

  predicate MatchesAny(groups: GroupTable, name: Dn) {
    exists i :: 0 <= i < MAX_USER_GROUP && Matches(groups, name, i)
  }

  function Mark(groups: GroupTable, name: Dn, group: seq<int>): (r: seq<int>)
    requires |group| == MAX_USER_GROUP
    ensures |r| == MAX_USER_GROUP
    ensures forall i :: 0 <= i < MAX_USER_GROUP ==> r[i] == if Matches(groups, name, i) then i else group[i]
  {
    seq(MAX_USER_GROUP, i requires 0 <= i < MAX_USER_GROUP => if Matches(groups, name, i) then i else group[i])
  }

  function Visit(groups: GroupTable, name: Dn, t: Trace): Trace
    requires |t.group| == MAX_USER_GROUP
  {
    t.(seen := t.seen + {name}, group := Mark(groups, name, t.group))
  }

  ghost function Owner(g: Graph, groups: GroupTable, name: Dn, level: nat, t: Trace): (r: (Trace, SearchResult))
    requires |t.group| == MAX_USER_GROUP
    ensures |t.seen| <= |r.0.seen| && |r.0.group| == MAX_USER_GROUP
    decreases Room(|t.seen|), 0, 0
  {
    if !Accepts(t.seen, name, level) then (t.(refused := t.refused || name !in t.seen), Unknown)
    else
      var (t2, found) := OwnerAll(g, groups, Next(g, name), level + 1, Visit(groups, name, t));
      (t2, if MatchesAny(groups, name) || found then Success else if Found(g, name).None? then Unknown else Error)
  }

  ghost function OwnerAll(g: Graph, groups: GroupTable, names: seq<Dn>, level: nat, t: Trace): (r: (Trace, bool))
    requires |t.group| == MAX_USER_GROUP
    ensures |t.seen| <= |r.0.seen| && |r.0.group| == MAX_USER_GROUP
    decreases Room(|t.seen|), 1, |names|
  {
    if names == [] then (t, false)
    else
      var (t1, found) := OwnerAll(g, groups, names[..|names| - 1], level, t);
      var (t2, rc) := Owner(g, groups, names[|names| - 1], level, t1);
      (t2, found || rc == Success)
  }

  lemma OwnerAllStep(g: Graph, groups: GroupTable, names: seq<Dn>, last: Dn, level: nat, t: Trace)
    requires |t.group| == MAX_USER_GROUP
    ensures var (t1, found) := OwnerAll(g, groups, names, level, t);
            var (t2, rc) := Owner(g, groups, last, level, t1);
            OwnerAll(g, groups, names + [last], level, t) == (t2, found || rc == Success)
  {
  }

  ghost function MemberOf(server: Server, groups: GroupTable, group: seq<int>): (r: (Trace, SearchResult))
    requires |group| == MAX_USER_GROUP
    ensures |r.0.group| == MAX_USER_GROUP
  {
    var (t, found) := OwnerAll(UpGraph(server), groups, UserOwners(server), 1, Trace({}, group, false));
    (t, if found then Success else Unknown)
  }

  // ---- the code ----

  ghost function Snapshot(table: NameTable, group: array<int>): Trace
    reads table, group
  {
    Trace(table.names, group[..], table.refused)
  }

  /** The loop over the configured groups in do_search_group_owner. */
  method MarkGroups(groups: GroupTable, name: Dn, group: array<int>) returns (matched: bool)
    requires group.Length == MAX_USER_GROUP
    modifies group
    ensures group[..] == Mark(groups, name, old(group[..]))
    ensures matched == MatchesAny(groups, name)
  {
    matched := false;
    for i := 0 to MAX_USER_GROUP
      invariant matched <==> exists k :: 0 <= k < i && Matches(groups, name, k)
      invariant forall k :: 0 <= k < MAX_USER_GROUP ==>
                  group[k] == if k < i && Matches(groups, name, k) then k else old(group[k])
    {
      var ret := CompareWithoutTag(Some(name.text), if groups[i].Some? then Some(groups[i].value.text) else None);
      assert ret == RET_OK <==> Matches(groups, name, i);
      if ret == RET_OK {
        matched := true;
        group[i] := i;
      }
    }
  }

  method SearchGroupOwner(server: Server, groups: GroupTable, name: Dn, group: array<int>, level: nat, table: NameTable,
                          ghost g: Graph)
    returns (rc: SearchResult)
    requires g == UpGraph(server)
    requires group.Length == MAX_USER_GROUP
    modifies group, table
    ensures (Snapshot(table, group), rc) == Owner(g, groups, name, level, old(Snapshot(table, group)))
    decreases Room(|table.names|), 0, 0
  {
    var ok := table.Check(name, level);
    if !ok { return Unknown; }
    table.names := table.names + {name};
    var matched := MarkGroups(groups, name, group);
    assert Snapshot(table, group) == Visit(groups, name, old(Snapshot(table, group)));
    match Search(server.up, name)
    case Failed =>
      return if matched then Success else Unknown;
    case Answered(chain) =>
      assert Found(g, name) == Some(OwnersAt(chain, EntriesRead(chain)));
      var found := SearchAbove(server, groups, chain, group, level + 1, table, g);
      return if matched || found then Success else Error;
  }

  lemma OwnerAllNone(g: Graph, groups: GroupTable, level: nat, t: Trace)
    requires |t.group| == MAX_USER_GROUP
    ensures OwnerAll(g, groups, [], level, t) == (t, false)
  {
  }

  lemma ReadStart(chain: seq<Message>)
    ensures OwnersAt(chain, []) == [] && Elements<nat>([]) == {} && |EntriesRead(chain)| <= 2
    ensures EntryFrom(chain, 0).None? ==> EntriesRead(chain) == []
  {
  }

  /** One turn of the loop over a group search's answer: either the entry was handled before and the loop is at its end,
      or it is the next of the entries read. */
  lemma ReadStep(chain: seq<Message>, order: seq<nat>, entry: nat)
    requires order <= EntriesRead(chain) && Some(entry) == EntryFrom(chain, if order == [] then 0 else 1)
    ensures entry in Elements(order) ==> order == EntriesRead(chain)
    ensures entry !in Elements(order) ==>
              && order + [entry] <= EntriesRead(chain)
              && Elements(order + [entry]) == Elements(order) + {entry}
              && OwnersAt(chain, order + [entry]) == OwnersAt(chain, order) + EntryOwners(chain[entry])
              && (EntryFrom(chain, 1).None? ==> order + [entry] == EntriesRead(chain))
  {
    var longer := order + [entry];
    assert longer[..|longer| - 1] == order;
    if order == [] { assert longer == [entry]; }
  }

  /** The loop over the answer's entries in do_search_group_owner. It advances from the head of the chain
      each time, and stops when that yields an entry it has handled. */
  method SearchAbove(server: Server, groups: GroupTable, chain: seq<Message>, group: array<int>, level: nat, table: NameTable,
                          ghost g: Graph)
    returns (found: bool)
    requires g == UpGraph(server)
    requires group.Length == MAX_USER_GROUP
    modifies group, table
    ensures (Snapshot(table, group), found) ==
            OwnerAll(g, groups, OwnersAt(chain, EntriesRead(chain)), level, old(Snapshot(table, group)))
    decreases Room(|table.names|), 2, 0
  {
    hide UpGraph, Owner, OwnerAll, EntriesRead, EntryFrom, OwnersAt, Elements;
    ReadStart(chain);
    ghost var start := Snapshot(table, group);
    found := false;
    var visited: set<nat> := {};
    ghost var order: seq<nat> := [];
    ghost var above := OwnersAt(chain, order);
    OwnerAllNone(g, groups, level, start);
    var msg := EntryFrom(chain, 0);
    while msg.Some?
      invariant |start.seen| <= |table.names|
      invariant order <= EntriesRead(chain) && visited == Elements(order) && |visited| <= |order|
      invariant msg == EntryFrom(chain, if order == [] then 0 else 1)
      invariant msg.None? ==> order == EntriesRead(chain)
      invariant above == OwnersAt(chain, order)
      invariant (Snapshot(table, group), found) == OwnerAll(g, groups, above, level, start)
      decreases msg.Some?, 2 - |order|
    {
      ReadStep(chain, order, msg.value);
      if |visited| >= MAX_LDAP_GRP_HASH_SIZE { break; }
      if msg.value in visited { break; }
      visited := visited + {msg.value};
      order := order + [msg.value];
      if chain[msg.value].memberOf.Some? {
        found := SearchValues(server, groups, chain[msg.value].memberOf.value, group, level, table, g, found, above, start);
      } else {
        assert above + EntryOwners(chain[msg.value]) == above;
      }
      above := above + EntryOwners(chain[msg.value]);
      msg := EntryFrom(chain, 1);
    }
    assert order == EntriesRead(chain);
  }

  /** The loop over attrCount that both searches run on one entry's memberOf values. */
  method SearchValues(server: Server, groups: GroupTable, vals: seq<Dn>, group: array<int>, level: nat, table: NameTable, ghost g: Graph,
                      already: bool, ghost above: seq<Dn>, ghost start: Trace)
    returns (found: bool)
    requires g == UpGraph(server)
    requires group.Length == |start.group| == MAX_USER_GROUP
    requires (Snapshot(table, group), already) == OwnerAll(g, groups, above, level, start)
    modifies group, table
    ensures (Snapshot(table, group), found) ==
            OwnerAll(g, groups, above + vals[..Count16(|vals|)], level, start)
    ensures |old(table.names)| <= |table.names|
    decreases Room(|table.names|), 1, 0
  {
    found := already;
    assert above + vals[..0] == above;
    for i := 0 to Count16(|vals|)
      invariant |old(table.names)| <= |table.names|
      invariant (Snapshot(table, group), found) == OwnerAll(g, groups, above + vals[..i], level, start)
    {
      OwnerAllStep(g, groups, above + vals[..i], vals[i], level, start);
      assert above + vals[..i + 1] == above + vals[..i] + [vals[i]];
      var ret := SearchGroupOwner(server, groups, vals[i], group, level, table, g);
      if ret == Success { found := true; }
    }
  }

  /** The loop over the user's entries in do_search_by_memberof_ext. It advances from the current message,
      so it handles every entry of the chain. */
  method SearchUserEntries(server: Server, groups: GroupTable, chain: seq<Message>, group: array<int>, table: NameTable,
                           ghost g: Graph)
    returns (found: bool)
    requires g == UpGraph(server)
    requires group.Length == MAX_USER_GROUP
    modifies group, table
    ensures (Snapshot(table, group), found) ==
            OwnerAll(g, groups, OwnersBelow(chain, |chain|), 1, old(Snapshot(table, group)))
  {
    ghost var start := Snapshot(table, group);
    found := false;
    for pos := 0 to |chain|
      invariant (Snapshot(table, group), found) == OwnerAll(g, groups, OwnersBelow(chain, pos), 1, start)
    {
      ghost var above := OwnersBelow(chain, pos);
      if chain[pos].Entry? && chain[pos].memberOf.Some? {
        found := SearchValues(server, groups, chain[pos].memberOf.value, group, 1, table, g, found, above, start);
      } else {
        assert above + [] == above;
      }
    }
  }

  /** do_search_by_memberof */
  method SearchByMemberOf(server: Server, groups: GroupTable, group: array<int>)
    returns (rc: SearchResult, ghost refused: bool)
    requires group.Length == MAX_USER_GROUP
    modifies group
    ensures var (t, result) := MemberOf(server, groups, old(group[..]));
            group[..] == t.group && refused == t.refused && rc == result
  {
    match server.user
    case Failed =>
      return Unknown, false;
    case Answered(chain) =>
      var table := new NameTable();
      var found := SearchUserEntries(server, groups, chain, group, table, UpGraph(server));
      return if found then Success else Unknown, table.refused;
  }

  // ---- what one search leaves behind ----

  /** Some DN of `xs` matches configured group i. */
  ghost predicate MarkedBy(groups: GroupTable, xs: set<Dn>, i: nat)
    requires i < MAX_USER_GROUP
  {
    exists x :: x in xs && Matches(groups, x, i)
  }

  ghost predicate MarksAny(groups: GroupTable, xs: set<Dn>) {
    exists i :: 0 <= i < MAX_USER_GROUP && MarkedBy(groups, xs, i)
  }

  /** r is t after a search: only the newly visited DNs were marked, and unless a cap refused one,
      everything above them was visited too. */
  ghost predicate Explored(g: Graph, groups: GroupTable, t: Trace, r: Trace) {
    && t.seen <= r.seen
    && (t.refused ==> r.refused)
    && |t.group| == |r.group| == MAX_USER_GROUP
    && (forall i :: 0 <= i < MAX_USER_GROUP ==>
          r.group[i] == if MarkedBy(groups, r.seen - t.seen, i) then i else t.group[i])
    && (!r.refused ==> ClosedBeyond(g, t.seen, r.seen))
  }

  lemma ExploredTwice(g: Graph, groups: GroupTable, t: Trace, m: Trace, r: Trace)
    requires Explored(g, groups, t, m) && Explored(g, groups, m, r)
    ensures Explored(g, groups, t, r)
    ensures MarksAny(groups, r.seen - t.seen) <==>
            MarksAny(groups, m.seen - t.seen) || MarksAny(groups, r.seen - m.seen)
  {
  }

  /** Visiting `name` first and exploring from there is an exploration from before the visit. */
  lemma VisitThenExplored(g: Graph, groups: GroupTable, name: Dn, t: Trace, r: Trace)
    requires |t.group| == MAX_USER_GROUP && name !in t.seen
    requires Explored(g, groups, Visit(groups, name, t), r)
    requires !r.refused ==> forall n :: n in Next(g, name) ==> n in r.seen
    ensures Explored(g, groups, t, r)
    ensures MarksAny(groups, r.seen - t.seen) <==>
            MatchesAny(groups, name) || MarksAny(groups, r.seen - Visit(groups, name, t).seen)
  {
  }

  lemma {:induction false} OwnerExplores(g: Graph, groups: GroupTable, name: Dn, level: nat, t: Trace)
    requires |t.group| == MAX_USER_GROUP
    ensures var (r, rc) := Owner(g, groups, name, level, t);
            && Explored(g, groups, t, r)
            && (rc == Success <==> MarksAny(groups, r.seen - t.seen))
            && (!r.refused ==> name in r.seen)
    decreases Room(|t.seen|), 0, 0
  {
    var (r, rc) := Owner(g, groups, name, level, t);
    if !Accepts(t.seen, name, level) {
      assert r.seen - t.seen == {};
    } else {
      OwnerAllExplores(g, groups, Next(g, name), level + 1, Visit(groups, name, t));
      VisitThenExplored(g, groups, name, t, r);
    }
  }

  lemma {:induction false} OwnerAllExplores(g: Graph, groups: GroupTable, names: seq<Dn>, level: nat, t: Trace)
    requires |t.group| == MAX_USER_GROUP
    ensures var (r, found) := OwnerAll(g, groups, names, level, t);
            && Explored(g, groups, t, r)
            && (found <==> MarksAny(groups, r.seen - t.seen))
            && (!r.refused ==> forall n :: n in names ==> n in r.seen)
    decreases Room(|t.seen|), 1, |names|
  {
    if names == [] {
    } else {
      var front, last := names[..|names| - 1], names[|names| - 1];
      OwnerAllExplores(g, groups, front, level, t);
      var m := OwnerAll(g, groups, front, level, t).0;
      OwnerExplores(g, groups, last, level, m);
      ExploredTwice(g, groups, t, m, Owner(g, groups, last, level, m).0);
    }
  }
}
