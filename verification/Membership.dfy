/** Membership read off the answers of the server themselves: which messages and values of an answer count, and what the
    two searches decide in those terms. */
module Membership {
  import opened CText
  import opened DnCompare
  import opened Directory
  import Footprint
  import opened MemberOfSearch
  import opened MemberOfExact
  import opened MemberSearch

  // ---- values read ----

  /** The message carries d as a memberOf value in front of the 16-bit cut: below 32768 values every one of them. */
  ghost predicate CarriesOwner(m: Message, d: Dn) {
    m.Entry? && m.memberOf.Some? && exists j {:trigger m.memberOf.value[j]} ::
      0 <= j < |m.memberOf.value| % 0x1_0000 < 0x8000 && m.memberOf.value[j] == d
  }

  lemma CarriesAny(m: Message, j: nat)
    requires m.Entry? && m.memberOf.Some? && j < |m.memberOf.value| < 0x8000
    ensures CarriesOwner(m, m.memberOf.value[j])
  {
  }

  lemma CarriesIsOwner(m: Message, d: Dn)
    ensures CarriesOwner(m, d) <==> d in EntryOwners(m)
  {
    if m.Entry? && m.memberOf.Some? {
      var v := m.memberOf.value;
      var n := Count16(|v|);
      assert n == if |v| % 0x1_0000 < 0x8000 then |v| % 0x1_0000 else 0;
      if d in EntryOwners(m) {
        var j :| 0 <= j < n && v[..n][j] == d;
        assert v[j] == d;
      }
      if CarriesOwner(m, d) {
        var j :| 0 <= j < |v| % 0x1_0000 < 0x8000 && v[j] == d;
        assert v[..n][j] == d;
      }
    }
  }

  // ---- upward ----

  /** Some entry of the answer to the user search carries d. */
  ghost predicate UserStep(server: Server, d: Dn) {
    server.user.Answered? && exists k :: 0 <= k < |server.user.chain| && CarriesOwner(server.user.chain[k], d)
  }

  /** A group search looks at an entry if no other lies between the head of the answer and it. */
  ghost predicate LooksAt(chain: seq<Message>, k: int) {
    0 <= k < |chain| && chain[k].Entry? && forall i :: 0 < i < k ==> !chain[i].Entry?
  }

  ghost predicate OwnerStep(server: Server, x: Dn, d: Dn) {
    && x in server.up && server.up[x].Answered?
    && exists k :: LooksAt(server.up[x].chain, k) && CarriesOwner(server.up[x].chain[k], d)
  }

  lemma {:induction false} OwnersBelowHold(chain: seq<Message>, n: nat, d: Dn)
    requires n <= |chain|
    ensures d in OwnersBelow(chain, n) <==> exists k :: 0 <= k < n && CarriesOwner(chain[k], d)
  {
    if n > 0 {
      OwnersBelowHold(chain, n - 1, d);
      CarriesIsOwner(chain[n - 1], d);
    }
  }

  /** The search starts from exactly the values the user's entries carry. */
  lemma StartsFromEveryValue(server: Server, d: Dn)
    ensures d in UserOwners(server) <==> UserStep(server, d)
  {
    if server.user.Answered? { OwnersBelowHold(server.user.chain, |server.user.chain|, d); }
  }

  lemma {:induction false} EntryFromIs(chain: seq<Message>, from: nat)
    ensures forall i :: from <= i < (match EntryFrom(chain, from) case None => |chain| case Some(k) => k) ==> !chain[i].Entry?
    decreases |chain| - from
  {
    if from < |chain| && !chain[from].Entry? { EntryFromIs(chain, from + 1); }
  }

  lemma EntriesReadAre(chain: seq<Message>, k: nat)
    ensures k in EntriesRead(chain) <==> LooksAt(chain, k)
  {
    EntryFromIs(chain, 0);
    EntryFromIs(chain, 1);
  }

  lemma {:induction false} OwnersAtHold(chain: seq<Message>, entries: seq<nat>, d: Dn)
    ensures d in OwnersAt(chain, entries) <==> exists k :: k in entries && k < |chain| && CarriesOwner(chain[k], d)
  {
    if entries != [] {
      var front, last := entries[..|entries| - 1], entries[|entries| - 1];
      assert entries == front + [last];
      OwnersAtHold(chain, front, d);
      if last < |chain| { CarriesIsOwner(chain[last], d); }
    }
  }

  /** Above a group are exactly the values of the entries its search looks at. */
  lemma ClimbsToEveryValue(server: Server, x: Dn, d: Dn)
    ensures d in Next(UpGraph(server), x) <==> OwnerStep(server, x, d)
  {
    if x in server.up && server.up[x].Answered? {
      var chain := server.up[x].chain;
      OwnersAtHold(chain, EntriesRead(chain), d);
      forall k: nat ensures k in EntriesRead(chain) <==> LooksAt(chain, k) { EntriesReadAre(chain, k); }
    }
  }

  /** From a value of the user to a value of what the previous one's search looks at, and so on. */
  ghost predicate OwnerChain(server: Server, p: seq<Dn>) {
    |p| > 0 && UserStep(server, p[0]) && forall i :: 0 < i < |p| ==> OwnerStep(server, p[i - 1], p[i])
  }

  ghost predicate NamedAbove(server: Server, groups: GroupTable, i: nat)
    requires i < MAX_USER_GROUP
  {
    exists p :: OwnerChain(server, p) && Matches(groups, p[|p| - 1], i)
  }

  lemma RouteIsOwnerChain(server: Server, p: seq<Dn>)
    ensures |p| > 0 && Route(UpGraph(server), p, UserOwners(server), p[|p| - 1], {}) <==> OwnerChain(server, p)
  {
    hide UpGraph, UserOwners, Next, UserStep, OwnerStep;
    if |p| > 0 { StartsFromEveryValue(server, p[0]); }
    forall i | 0 < i < |p| ensures p[i] in Next(UpGraph(server), p[i - 1]) <==> OwnerStep(server, p[i - 1], p[i]) {
      ClimbsToEveryValue(server, p[i - 1], p[i]);
    }
    assert |p| > 0 && IsPath(UpGraph(server), p) <==> |p| > 0 && forall i :: 0 < i < |p| ==> OwnerStep(server, p[i - 1], p[i]);
  }

  lemma InGroupIsNamedAbove(server: Server, groups: GroupTable, i: nat)
    requires i < MAX_USER_GROUP
    ensures UserInGroup(server, groups, i) <==> NamedAbove(server, groups, i)
  {
    hide UpGraph, UserOwners, Next, Matches;
    if UserInGroup(server, groups, i) {
      var x :| Reaches(UpGraph(server), UserOwners(server), x, {}) && Matches(groups, x, i);
      var p :| Route(UpGraph(server), p, UserOwners(server), x, {});
      RouteIsOwnerChain(server, p);
      assert OwnerChain(server, p) && Matches(groups, p[|p| - 1], i);
    }
    if NamedAbove(server, groups, i) {
      var p :| OwnerChain(server, p) && Matches(groups, p[|p| - 1], i);
      RouteIsOwnerChain(server, p);
      assert Reaches(UpGraph(server), UserOwners(server), p[|p| - 1], {});
    }
  }

  /** In terms of the answers alone: unless a cap refused a fresh DN the memberOf search marks exactly the groups named
      at the end of a chain of values, and it succeeds exactly if there is one. */
  lemma MemberOfFollowsAnswers(server: Server, groups: GroupTable)
    ensures var (t, rc) := MemberOf(server, groups, NO_MARKS);
            && (forall i :: 0 <= i < MAX_USER_GROUP && t.group[i] != NO_GROUP ==> t.group[i] == i && NamedAbove(server, groups, i))
            && (!t.refused ==>
                  && (forall i :: 0 <= i < MAX_USER_GROUP ==>
                        t.group[i] == if NamedAbove(server, groups, i) then i else NO_GROUP)
                  && rc == if exists i :: 0 <= i < MAX_USER_GROUP && NamedAbove(server, groups, i) then Success else Unknown)
  {
    hide MemberOf, UserInGroup, NamedAbove;
    forall i | 0 <= i < MAX_USER_GROUP ensures UserInGroup(server, groups, i) <==> NamedAbove(server, groups, i) {
      InGroupIsNamedAbove(server, groups, i);
    }
    MemberOfIsExact(server, groups, NO_MARKS);
    MemberOfSuccessIffMarked(server, groups, NO_MARKS);
    ResultIsFlag(server, groups, NO_MARKS);
  }

  lemma ResultIsFlag(server: Server, groups: GroupTable, group: seq<int>)
    requires |group| == MAX_USER_GROUP
    ensures MemberOf(server, groups, group).1 != Error
  {
  }

  /** So every memberOf value of every entry of the user counts. */
  lemma EveryValueCounts(server: Server, groups: GroupTable, k: nat, j: nat, i: nat)
    requires server.user.Answered? && k < |server.user.chain| && i < MAX_USER_GROUP
    requires var m := server.user.chain[k];
             m.Entry? && m.memberOf.Some? && j < |m.memberOf.value| < 0x8000 && Matches(groups, m.memberOf.value[j], i)
    ensures var t := MemberOf(server, groups, NO_MARKS).0; !t.refused ==> t.group[i] == i
  {
    var m := server.user.chain[k];
    CarriesAny(m, j);
    assert OwnerChain(server, [m.memberOf.value[j]]);
    MemberOfFollowsAnswers(server, groups);
  }

  /** The values are taken in the order of the entries, and within an entry in theirs. */
  lemma {:induction false} OwnersInOrder(chain: seq<Message>, more: seq<Message>)
    ensures OwnersBelow(chain + more, |chain + more|) == OwnersBelow(chain, |chain|) + OwnersBelow(more, |more|)
    decreases |more|
  {
    if more == [] {
      assert chain + more == chain;
    } else {
      var front, last := more[..|more| - 1], more[|more| - 1];
      OwnersInOrder(chain, front);
      OneMore(chain + front, last);
      OneMore(front, last);
      assert |chain + front| + 1 == |chain + more| && |front| + 1 == |more|;
      hide *;
      SnocAppend(chain, more);
    }
  }

  lemma SnocAppend(chain: seq<Message>, more: seq<Message>)
    requires more != []
    ensures more == more[..|more| - 1] + [more[|more| - 1]]
    ensures chain + more == chain + more[..|more| - 1] + [more[|more| - 1]]
  {
  }

  lemma OneMore(chain: seq<Message>, last: Message)
    ensures OwnersBelow(chain + [last], |chain| + 1) == OwnersBelow(chain, |chain|) + EntryOwners(last)
  {
    SamePrefix(chain, [last], |chain|);
  }

  lemma {:induction false} SamePrefix(chain: seq<Message>, more: seq<Message>, n: nat)
    requires n <= |chain|
    ensures OwnersBelow(chain + more, n) == OwnersBelow(chain, n)
  {
    if n > 0 { SamePrefix(chain, more, n - 1); }
  }

  lemma OwnersOfOneEntry(values: seq<Dn>, member: Option<seq<Dn>>)
    ensures |values| < 0x8000 ==> OwnersBelow([Entry(Some(values), member)], 1) == values
  {
    var chain := [Entry(Some(values), member)];
    assert OwnersBelow(chain, 1) == OwnersBelow(chain, 0) + EntryOwners(chain[0]);
    if |values| < 0x8000 { assert values[..|values|] == values; }
  }

  /** Above a group come the values of the head of its answer and then those of the entry after it. */
  lemma ClimbsInOrder(server: Server, x: Dn, k: nat)
    requires x in server.up && server.up[x].Answered? && LooksAt(server.up[x].chain, k)
    ensures var chain := server.up[x].chain;
            && (k > 0 ==> Next(UpGraph(server), x) == EntryOwners(chain[0]) + EntryOwners(chain[k]))
            && (k == 0 && (forall i :: 0 < i < |chain| ==> !chain[i].Entry?) ==> Next(UpGraph(server), x) == EntryOwners(chain[0]))
  {
    var chain := server.up[x].chain;
    EntryFromIs(chain, 0);
    EntryFromIs(chain, 1);
    hide EntryOwners;
    OwnersOfTwo(chain, 0, k);
    OwnersOfTwo(chain, k, k);
    hide OwnersAt;
    assert EntriesRead(chain) == if k == 0 && EntryFrom(chain, 1).Some? then [0, EntryFrom(chain, 1).value]
                                 else if k == 0 || !chain[0].Entry? then [k] else [0, k];
    if !chain[0].Entry? { NoValues(chain[0]); }
  }

  lemma OwnersOfTwo(chain: seq<Message>, i: nat, k: nat)
    requires i < |chain| && k < |chain|
    ensures OwnersAt(chain, [i]) == EntryOwners(chain[i])
    ensures OwnersAt(chain, [i, k]) == EntryOwners(chain[i]) + EntryOwners(chain[k])
  {
    var one: seq<nat>, two: seq<nat> := [i], [i, k];
    hide EntryOwners;
    assert one[..0] == [] && two[..1] == one;
    assert OwnersAt(chain, one) == OwnersAt(chain, []) + EntryOwners(chain[i]);
    assert OwnersAt(chain, two) == OwnersAt(chain, one) + EntryOwners(chain[k]);
  }

  lemma NoValues(m: Message)
    ensures !m.Entry? ==> EntryOwners(m) == []
  {
  }

  // ---- downward ----

  /** m is a member carried by the first entry of the answer about x. */
  ghost predicate MemberStep(server: Server, x: Dn, m: Dn) {
    && x in server.down && server.down[x].Answered?
    && exists k :: IsFirstEntry(server.down[x].chain, k) && CarriesMember(server.down[x].chain[k], m)
  }

  ghost predicate IsFirstEntry(chain: seq<Message>, k: int) {
    0 <= k < |chain| && chain[k].Entry? && forall i :: 0 <= i < k ==> !chain[i].Entry?
  }

  predicate CarriesMember(e: Message, m: Dn) {
    e.Entry? && e.member.Some? && m in e.member.value
  }

  /** Below a group are exactly the members of the first entry, in their order. */
  lemma DescendsToEveryMember(server: Server, x: Dn)
    ensures forall m :: m in Next(DownGraph(server), x) <==> MemberStep(server, x, m)
    ensures x in server.down && server.down[x].Answered? ==>
              forall k :: IsFirstEntry(server.down[x].chain, k) ==> Found(DownGraph(server), x) == server.down[x].chain[k].member
  {
    if x in server.down && server.down[x].Answered? {
      var chain := server.down[x].chain;
      EntryFromIs(chain, 0);
      forall k | IsFirstEntry(chain, k) ensures EntryFrom(chain, 0) == Some(k) {}
      if EntryFrom(chain, 0).Some? { assert IsFirstEntry(chain, EntryFrom(chain, 0).value); }
    }
  }

  /** From a group to one of its members, and so on, down to one that is the user. */
  ghost predicate MemberChain(server: Server, user: CString, top: Dn, p: seq<Dn>) {
    && |p| >= 2 && p[0] == top && SameDn(p[|p| - 1].text, user)
    && forall i :: 0 < i < |p| ==> MemberStep(server, p[i - 1], p[i])
  }

  ghost predicate ListedBelow(server: Server, user: CString, top: Dn) {
    exists p :: MemberChain(server, user, top, p)
  }

  lemma RouteIsMemberPath(server: Server, p: seq<Dn>)
    ensures IsPath(DownGraph(server), p) <==> |p| > 0 && forall i :: 0 < i < |p| ==> MemberStep(server, p[i - 1], p[i])
  {
    hide DownGraph, Next, MemberStep;
    forall i | 0 < i < |p| ensures p[i] in Next(DownGraph(server), p[i - 1]) <==> MemberStep(server, p[i - 1], p[i]) {
      DescendsToEveryMember(server, p[i - 1]);
    }
  }

  lemma DirectIsMember(server: Server, user: CString, x: Dn)
    ensures Direct(DownGraph(server), user, x) <==> exists m :: MemberStep(server, x, m) && SameDn(m.text, user)
  {
    DescendsToEveryMember(server, x);
    hide DownGraph, MemberStep, SameDn;
  }

  lemma LeadsIsListedBelow(server: Server, user: CString, top: Dn)
    ensures LeadsToUser(DownGraph(server), user, [top], {}) <==> ListedBelow(server, user, top)
  {
    var g := DownGraph(server);
    hide DownGraph, IsPath, MemberStep, SameDn, Direct;
    if LeadsToUser(g, user, [top], {}) {
      var x :| Reaches(g, [top], x, {}) && Direct(g, user, x);
      var p :| Route(g, p, [top], x, {});
      DirectIsMember(server, user, x);
      var m :| MemberStep(server, x, m) && SameDn(m.text, user);
      RouteIsMemberPath(server, p);
      assert MemberChain(server, user, top, p + [m]);
    }
    if ListedBelow(server, user, top) {
      var p :| MemberChain(server, user, top, p);
      var q, x, m := p[..|p| - 1], p[|p| - 2], p[|p| - 1];
      RouteIsMemberPath(server, q);
      DirectIsMember(server, user, x);
      assert Route(g, q, [top], x, {});
      assert Reaches(g, [top], x, {});
    }
  }

  /** In terms of the answers alone: with no cap in the way the fallback search succeeds exactly if a chain of members
      leads from a configured group to the user, and it marks the first such group; it marks no other. */
  lemma SearchFollowsAnswers(server: Server, user: CString, groups: GroupTable)
    ensures var p := Rounds(DownGraph(server), user, groups, MAX_USER_GROUP, NO_MARKS);
            && (forall j :: 0 <= j < MAX_USER_GROUP && p.group[j] != NO_GROUP ==>
                  p.group[j] == j && groups[j].Some? && ListedBelow(server, user, groups[j].value))
            && (!p.visited.refused ==>
                  && (p.flag <==> exists j :: 0 <= j < MAX_USER_GROUP && groups[j].Some? && ListedBelow(server, user, groups[j].value))
                  && forall j :: 0 <= j < MAX_USER_GROUP && groups[j].Some? && ListedBelow(server, user, groups[j].value) &&
                                 (forall i :: 0 <= i < j && groups[i].Some? ==> !ListedBelow(server, user, groups[i].value)) ==>
                                   p.group[j] == j)
  {
    hide Rounds, ListedBelow, LeadsToUser, DownGraph;
    forall j | 0 <= j < MAX_USER_GROUP && groups[j].Some?
      ensures GroupHoldsUser(DownGraph(server), user, groups, j) <==> ListedBelow(server, user, groups[j].value)
    {
      LeadsIsListedBelow(server, user, groups[j].value);
    }
    SearchByUsernameIsSound(DownGraph(server), user, groups, NO_MARKS);
  }

  /** So every member of a group counts: an accepted search of a group that carries the user among them succeeds. */
  lemma EveryMemberCounts(server: Server, user: CString, x: Dn, k: nat, j: nat, level: nat, v: Visited)
    requires x in server.down && server.down[x].Answered? && IsFirstEntry(server.down[x].chain, k)
    requires var e := server.down[x].chain[k]; e.member.Some? && j < |e.member.value| && SameDn(e.member.value[j].text, user)
    requires Footprint.Accepts(v.seen, x, level)
    ensures Find(DownGraph(server), user, x, level, v) == (v.(seen := v.seen + {x}), Success)
  {
    DescendsToEveryMember(server, x);
    var m := server.down[x].chain[k].member.value[j];
    assert m in Next(DownGraph(server), x);
    assert Direct(DownGraph(server), user, x);
  }
}
