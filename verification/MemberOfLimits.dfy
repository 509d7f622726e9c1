/** What the caps cost: which groups the upward search misses when a cap refuses a fresh DN. */
module MemberOfLimits {
  import opened CText
  import opened DnCompare
  import opened Directory
  import opened Footprint
  import opened Chains
  import opened MemberOfSearch
  import opened MemberOfExact

  /** Every mark is right and no group is missed. */
  ghost predicate IsExact(server: Server, groups: GroupTable) {
    forall i :: 0 <= i < MAX_USER_GROUP ==>
      MemberOf(server, groups, NO_MARKS).0.group[i] == if UserInGroup(server, groups, i) then i else NO_GROUP
  }

  function OnlyGroup(x: Dn): GroupTable {
    [Some(x), None, None, None, None]
  }

  /** The user belongs to a group configured as x, yet a search for it alone does not mark it. */
  ghost predicate Missed(server: Server, x: Dn) {
    UserInGroup(server, OnlyGroup(x), 0) && MemberOf(server, OnlyGroup(x), NO_MARKS).0.group[0] == NO_GROUP
  }

  // ---- the visited DNs ----

  lemma {:induction false} OwnerSeesTheSame(g: Graph, groups: GroupTable, others: GroupTable, name: Dn, level: nat,
                                            t: Trace, u: Trace)
    requires |t.group| == |u.group| == MAX_USER_GROUP && t.seen == u.seen
    ensures Owner(g, groups, name, level, t).0.seen == Owner(g, others, name, level, u).0.seen
    decreases Room(|t.seen|), 0, 0
  {
    if Accepts(t.seen, name, level) {
      OwnerAllSeesTheSame(g, groups, others, Next(g, name), level + 1, Visit(groups, name, t), Visit(others, name, u));
    }
  }

  lemma {:induction false} OwnerAllSeesTheSame(g: Graph, groups: GroupTable, others: GroupTable, names: seq<Dn>, level: nat,
                                               t: Trace, u: Trace)
    requires |t.group| == |u.group| == MAX_USER_GROUP && t.seen == u.seen
    ensures OwnerAll(g, groups, names, level, t).0.seen == OwnerAll(g, others, names, level, u).0.seen
    decreases Room(|t.seen|), 1, |names|
  {
    if names != [] {
      var front, last := names[..|names| - 1], names[|names| - 1];
      OwnerAllSeesTheSame(g, groups, others, front, level, t, u);
      OwnerSeesTheSame(g, groups, others, last, level,
                       OwnerAll(g, groups, front, level, t).0, OwnerAll(g, others, front, level, u).0);
    }
  }

  /** What the search visits, whatever is configured. */
  ghost function Seen(server: Server): set<Dn> {
    MemberOf(server, [None, None, None, None, None], NO_MARKS).0.seen
  }

  /** With or without refusals, exactly the groups a visited DN names are marked. */
  lemma MarkedIffVisited(server: Server, groups: GroupTable)
    ensures forall i :: 0 <= i < MAX_USER_GROUP ==>
              MemberOf(server, groups, NO_MARKS).0.group[i] == if MarkedBy(groups, Seen(server), i) then i else NO_GROUP
  {
    var g, roots, start := UpGraph(server), UserOwners(server), Trace({}, NO_MARKS, false);
    OwnerAllSeesTheSame(g, groups, [None, None, None, None, None], roots, 1, start, start);
    OwnerAllExplores(g, groups, roots, 1, start);
    assert Seen(server) - start.seen == Seen(server);
  }

  ghost predicate Named(server: Server, x: Dn) {
    exists y :: y in Seen(server) && SameDn(y.text, x.text)
  }

  /** A group the user belongs to under its own DN is missed exactly if no visited DN names it. */
  lemma MissedIffNotNamed(server: Server, x: Dn)
    requires Reaches(UpGraph(server), UserOwners(server), x, {})
    ensures Missed(server, x) <==> !Named(server, x)
  {
    MarkedIffVisited(server, OnlyGroup(x));
    assert Matches(OnlyGroup(x), x, 0);
  }

  /** The search is exact for every table if and only if every DN above the user is named by a visited one. */
  lemma ExactIffAllNamed(server: Server)
    ensures (forall groups: GroupTable :: IsExact(server, groups)) <==>
            forall x :: Reaches(UpGraph(server), UserOwners(server), x, {}) ==> Named(server, x)
  {
    if forall x :: Reaches(UpGraph(server), UserOwners(server), x, {}) ==> Named(server, x) {
      forall groups: GroupTable ensures IsExact(server, groups) { NamedIsExact(server, groups); }
    } else {
      var x :| Reaches(UpGraph(server), UserOwners(server), x, {}) && !Named(server, x);
      MissedIffNotNamed(server, x);
      assert !IsExact(server, OnlyGroup(x));
    }
  }

  lemma NamedIsExact(server: Server, groups: GroupTable)
    requires forall x :: Reaches(UpGraph(server), UserOwners(server), x, {}) ==> Named(server, x)
    ensures IsExact(server, groups)
  {
    MarkedIffVisited(server, groups);
    MemberOfIsExact(server, groups, NO_MARKS);
    forall i | 0 <= i < MAX_USER_GROUP && UserInGroup(server, groups, i) ensures MarkedBy(groups, Seen(server), i) {
      var x :| Reaches(UpGraph(server), UserOwners(server), x, {}) && Matches(groups, x, i);
      var y :| y in Seen(server) && SameDn(y.text, x.text);
      SameDnTransitive(y.text, x.text, groups[i].value.text);
      assert Matches(groups, y, i);
    }
  }

  // ---- too far, too many ----

  /** Every group above the user that no chain of at most 50 leads to is missed. */
  lemma DistantGroupIsMissed(server: Server, x: Dn)
    requires Reaches(UpGraph(server), UserOwners(server), x, {})
    requires forall y :: ShortRoute(UpGraph(server), UserOwners(server), y, {}, MAX_TREE_DEPTH) ==> !SameDn(y.text, x.text)
    ensures Missed(server, x)
  {
    MissedIffNotNamed(server, x);
    MemberOfStaysCapped(server, [None, None, None, None, None], NO_MARKS);
  }

  ghost predicate PairwiseDifferent(s: set<Dn>) {
    forall x, y :: x in s && y in s && SameDn(x.text, y.text) ==> x == y
  }

  /** Pairwise different DNs need as many DNs to name them. */
  lemma {:induction false} NamesEnough(s: set<Dn>, names: set<Dn>)
    requires PairwiseDifferent(s)
    requires forall x :: x in s ==> exists y :: y in names && SameDn(y.text, x.text)
    ensures |s| <= |names|
    decreases s
  {
    if s != {} {
      var x :| x in s;
      var y :| y in names && SameDn(y.text, x.text);
      var rest := s - {x};
      forall z | z in rest ensures exists w :: w in names - {y} && SameDn(w.text, z.text) {
        var w :| w in names && SameDn(w.text, z.text);
        if w == y {
          SameDnSymmetric(y.text, x.text);
          SameDnTransitive(x.text, y.text, z.text);
        }
        assert w in names - {y};
      }
      NamesEnough(rest, names - {y});
    }
  }

  /** Of more than 2000 different groups above the user at least one is missed. */
  lemma ManyGroupsAreNotAllMarked(server: Server, s: set<Dn>)
    requires |s| > MAX_LDAP_GRP_HASH_SIZE && PairwiseDifferent(s)
    requires forall x :: x in s ==> Reaches(UpGraph(server), UserOwners(server), x, {})
    ensures exists x :: x in s && Missed(server, x)
  {
    MemberOfStaysCapped(server, [None, None, None, None, None], NO_MARKS);
    if forall x :: x in s ==> Named(server, x) { NamesEnough(s, Seen(server)); }
    var x :| x in s && !Named(server, x);
    MissedIffNotNamed(server, x);
  }

  // ---- the sharp bound ----

  /** The k-th DN of a chain: k letters. */
  function Letters(k: nat): Dn {
    Dn(seq(k, _ => 'a'))
  }

  function OnlyOwner(k: nat): Answer {
    Answered([Entry(Some([Letters(k)]), None)])
  }

  /** Each of the first n letter groups is a member of the next one only. */
  function ChainOfGroups(n: nat): map<Dn, Answer> {
    if n == 0 then map[] else ChainOfGroups(n - 1)[Letters(n) := OnlyOwner(n + 1)]
  }

  lemma {:induction false} ChainOfGroupsAt(n: nat, k: nat)
    ensures Search(ChainOfGroups(n), Letters(k)) == if 1 <= k <= n then OnlyOwner(k + 1) else Failed
  {
    assert |Letters(k).text| == k && |Letters(n).text| == n;
    if n > 0 { ChainOfGroupsAt(n - 1, k); }
  }

  /** A user whose only group starts a chain of 51 nested groups. */
  function DeepServer(): Server {
    Server(OnlyOwner(1), ChainOfGroups(MAX_TREE_DEPTH), map[])
  }

  lemma OnlyOwnerRead(k: nat)
    ensures Above(OnlyOwner(k)) == Some([Letters(k)])
  {
    var chain := OnlyOwner(k).chain;
    assert EntriesRead(chain) == [0];
    var order: seq<nat> := [0];
    assert order[..|order| - 1] == [];
    assert OwnersAt(chain, order) == OwnersAt(chain, []) + EntryOwners(chain[0]);
    assert EntryOwners(chain[0]) == [Letters(k)];
    assert OwnersAt(chain, order) == [Letters(k)];
  }

  lemma DeepServerNext(k: nat)
    ensures Next(UpGraph(DeepServer()), Letters(k)) == if 1 <= k <= MAX_TREE_DEPTH then [Letters(k + 1)] else []
  {
    ChainOfGroupsAt(MAX_TREE_DEPTH, k);
    OnlyOwnerRead(k + 1);
  }

  /** A route in the deep directory takes k steps to the k-th group. */
  lemma {:induction false} DeepRoute(p: seq<Dn>)
    requires IsPath(UpGraph(DeepServer()), p) && p[0] == Letters(1)
    ensures p[|p| - 1] == Letters(|p|)
  {
    hide UpGraph, DeepServer, Letters, Next;
    if |p| > 1 {
      DeepRoute(p[..|p| - 1]);
      DeepServerNext(|p| - 1);
    }
  }

  lemma {:induction false} DeepReach(k: nat)
    requires 1 <= k <= MAX_TREE_DEPTH + 1
    ensures Reaches(UpGraph(DeepServer()), [Letters(1)], Letters(k), {})
  {
    var g := UpGraph(DeepServer());
    if k == 1 {
      assert Route(g, [Letters(1)], [Letters(1)], Letters(1), {});
    } else {
      DeepReach(k - 1);
      var p :| Route(g, p, [Letters(1)], Letters(k - 1), {});
      DeepServerNext(k - 1);
      RouteAppend(g, p, [Letters(1)], Letters(k - 1), Letters(k), {});
    }
  }

  lemma DeepOwners()
    ensures UserOwners(DeepServer()) == [Letters(1)]
  {
    var chain := OnlyOwner(1).chain;
    assert OwnersBelow(chain, 1) == OwnersBelow(chain, 0) + EntryOwners(chain[0]);
  }

  /** In that directory the 51st group is missed. */
  lemma DeepGroupIsMissed()
    ensures Missed(DeepServer(), Letters(MAX_TREE_DEPTH + 1))
  {
    var server, deep := DeepServer(), Letters(MAX_TREE_DEPTH + 1);
    DeepOwners();
    DeepReach(MAX_TREE_DEPTH + 1);
    forall y | ShortRoute(UpGraph(server), [Letters(1)], y, {}, MAX_TREE_DEPTH) ensures !SameDn(y.text, deep.text) {
      var p :| Route(UpGraph(server), p, [Letters(1)], y, {}) && |p| <= MAX_TREE_DEPTH;
      DeepRoute(p);
    }
    DistantGroupIsMissed(server, deep);
  }

  function LettersTo(n: nat): set<Dn> {
    if n == 0 then {} else LettersTo(n - 1) + {Letters(n)}
  }

  lemma {:induction false} LettersToSize(n: nat)
    ensures |LettersTo(n)| <= n
  {
    if n > 0 { LettersToSize(n - 1); }
  }

  lemma {:induction false} LettersIn(n: nat, k: nat)
    requires 1 <= k <= n
    ensures Letters(k) in LettersTo(n)
  {
    if k < n { LettersIn(n - 1, k); }
  }

  lemma {:induction false} LetterOf(n: nat, x: Dn) returns (k: nat)
    requires x in LettersTo(n)
    ensures 1 <= k <= n && x == Letters(k)
  {
    if x == Letters(n) { k := n; } else { k := LetterOf(n - 1, x); }
  }

  ghost predicate AtMostAbove(server: Server, n: nat) {
    exists all :: HoldsAllBeyond(UpGraph(server), UserOwners(server), all) && |all| <= n
  }

  lemma DeepServerIsClosed(x: Dn, y: Dn)
    requires x in LettersTo(MAX_TREE_DEPTH + 1) && y in Next(UpGraph(DeepServer()), x)
    ensures y in LettersTo(MAX_TREE_DEPTH + 1)
  {
    var k := LetterOf(MAX_TREE_DEPTH + 1, x);
    hide UpGraph, DeepServer, Letters, LettersTo, Next;
    DeepServerNext(k);
    if k <= MAX_TREE_DEPTH { LettersIn(MAX_TREE_DEPTH + 1, k + 1); }
  }

  lemma DeepServerIsSmall()
    ensures AtMostAbove(DeepServer(), MAX_TREE_DEPTH + 1)
  {
    hide UpGraph, DeepServer, Letters, LettersTo, Next, UserOwners;
    var g, all := UpGraph(DeepServer()), LettersTo(MAX_TREE_DEPTH + 1);
    DeepOwners();
    LettersToSize(MAX_TREE_DEPTH + 1);
    LettersIn(MAX_TREE_DEPTH + 1, 1);
    forall x, y | x in all && y in Next(g, x) ensures y in all { DeepServerIsClosed(x, y); }
    assert HoldsAllBeyond(g, [Letters(1)], all);
  }

  /** The search is exact on every directory with at most n DNs above the user if and only if n is at most 50. */
  lemma ExactUpToDepth(n: nat)
    ensures (forall server: Server, groups: GroupTable :: AtMostAbove(server, n) ==> IsExact(server, groups)) <==>
            n <= MAX_TREE_DEPTH
  {
    if n <= MAX_TREE_DEPTH {
      forall server: Server, groups: GroupTable | AtMostAbove(server, n) ensures IsExact(server, groups) {
        var all :| HoldsAllBeyond(UpGraph(server), UserOwners(server), all) && |all| <= n;
        FewGroupsAreNotRefused(server, groups, NO_MARKS, all);
        MemberOfIsExact(server, groups, NO_MARKS);
      }
    } else {
      DeepServerIsSmall();
      DeepGroupIsMissed();
      assert !IsExact(DeepServer(), OnlyGroup(Letters(MAX_TREE_DEPTH + 1)));
    }
  }

  // ---- what the loop over an answer leaves out ----

  /** The positions of all entries of an answer from one on. */
  function EntryPositions(chain: seq<Message>, from: nat): seq<nat>
    decreases |chain| - from
  {
    if from >= |chain| then []
    else if chain[from].Entry? then [from] + EntryPositions(chain, from + 1)
    else EntryPositions(chain, from + 1)
  }

  lemma {:induction false} FirstPosition(chain: seq<Message>, from: nat)
    ensures match EntryFrom(chain, from)
            case None => EntryPositions(chain, from) == []
            case Some(k) => EntryPositions(chain, from) == [k] + EntryPositions(chain, k + 1)
    decreases |chain| - from
  {
    if from < |chain| && !chain[from].Entry? { FirstPosition(chain, from + 1); }
  }

  /** A group search reads every entry of its answer exactly if there is at most one, or two of which the first comes
      at the head. */
  lemma ReadsEveryEntry(chain: seq<Message>)
    ensures var all := EntryPositions(chain, 0);
            EntriesRead(chain) == all <==> |all| <= 1 || (|all| == 2 && chain[0].Entry?)
  {
    FirstPosition(chain, 0);
    FirstPosition(chain, 1);
    if EntryFrom(chain, 0).Some? {
      FirstPosition(chain, EntryFrom(chain, 0).value + 1);
      if EntryFrom(chain, 1).Some? { FirstPosition(chain, EntryFrom(chain, 1).value + 1); }
    }
  }

  /** Every value of an attribute is read exactly if there are fewer than 32768. */
  lemma ReadsEveryValue(m: Message)
    requires m.Entry? && m.memberOf.Some?
    ensures EntryOwners(m) == m.memberOf.value <==> |m.memberOf.value| < 0x8000
  {
    var n := |m.memberOf.value|;
    assert Count16(n) == n <==> n < 0x8000;
    assert m.memberOf.value[..n] == m.memberOf.value;
  }

  /** A user in group a, whose answer has three entries, the last of which names group b. */
  function ThreeEntries(a: Dn, b: Dn): Server {
    Server(Answered([Entry(Some([a]), None)]),
           map[a := Answered([Entry(None, None), Entry(None, None), Entry(Some([b]), None)])], map[])
  }

  /** Group b is not marked: the third entry is never read. */
  lemma ThirdEntryIsNotRead(a: Dn, b: Dn)
    requires !SameDn(a.text, b.text)
    ensures MemberOf(ThreeEntries(a, b), OnlyGroup(b), NO_MARKS).0.group == NO_MARKS
  {
    var server, groups := ThreeEntries(a, b), OnlyGroup(b);
    ThreeEntriesRead(a, b);
    MemberOfIsExact(server, groups, NO_MARKS);
    hide UpGraph, ThreeEntries, MemberOf, SameDn, Next, UserOwners;
    forall i | 0 <= i < MAX_USER_GROUP ensures !UserInGroup(server, groups, i) {
      forall x | Reaches(UpGraph(server), [a], x, {}) ensures x == a { ReachesItselfOnly(UpGraph(server), a, x); }
    }
  }

  lemma ReachesItselfOnly(g: Graph, a: Dn, x: Dn)
    requires Next(g, a) == [] && Reaches(g, [a], x, {})
    ensures x == a
  {
    var p :| Route(g, p, [a], x, {});
    RouteStaysInside(g, p, [a], x, {}, {a});
  }

  lemma ThreeEntriesRead(a: Dn, b: Dn)
    ensures UserOwners(ThreeEntries(a, b)) == [a] && Next(UpGraph(ThreeEntries(a, b)), a) == []
  {
    var user, chain := ThreeEntries(a, b).user.chain, ThreeEntries(a, b).up[a].chain;
    assert OwnersBelow(user, 1) == OwnersBelow(user, 0) + EntryOwners(user[0]) == [a];
    assert EntriesRead(chain) == [0, 1];
    var order: seq<nat> := [0, 1];
    assert order[..1] == [0] && [0][..0] == [];
    assert OwnersAt(chain, [0]) == OwnersAt(chain, []) + EntryOwners(chain[0]);
    assert OwnersAt(chain, order) == OwnersAt(chain, [0]) + EntryOwners(chain[1]);
  }
}
