/** do_get_user_group and mscm_ldap_authenticate: from the marked groups to one privilege. */
module LdapLogin {
  import opened CText
  import opened SecureC
  import opened DnCompare
  import opened Directory
  import opened MemberOfSearch
  import opened MemberOfExact
  import opened LdapConfig
  import opened Chains
  import MemberSearch
  import MemberSearchCaps
  import FilterEscape
  import opened Membership
  import opened UserDn

  const LDAP_FILT_MAXSIZ := 1024
  const NO_PRIVILEGE := 0x0f
  const USER_LDAP_LOGIN_FAIL := 0xDA

  /** One login attempt: the directory, the name found for the user, the base DN, and how the user DN starts. */
  datatype Login = Login(server: Server, username: CString, base: CString, withUid: bool) {
    function User(): CString {
      Compared(username, base, withUid)
    }
  }

  ghost function GroupsOfUser(login: Login, groups: GroupTable, group: seq<int>): (r: (seq<int>, SearchResult))
    requires |group| == MAX_USER_GROUP
    ensures |r.0| == MAX_USER_GROUP
  {
    if !FilterEscape.Fits(login.username, LDAP_FILT_MAXSIZ) then (group, Error)
    else
      var (t, rc) := MemberOf(login.server, groups, group);
      if rc == Success then (t.group, Success)
      else
        var p := MemberSearch.Rounds(DownGraph(login.server), login.User(), groups, MAX_USER_GROUP, t.group);
        (p.group, if p.flag then Success else Unknown)
  }

  method GetUserGroup(login: Login, groups: GroupTable, group: array<int>) returns (rc: SearchResult)
    requires group.Length == MAX_USER_GROUP
    modifies group
    ensures (group[..], rc) == GroupsOfUser(login, groups, old(group[..]))
  {
    var escapedUser := new char[LDAP_FILT_MAXSIZ];
    var ret := FilterEscape.EscapeString(login.username, escapedUser);
    if ret != RET_OK { return Error; }
    ghost var refused;
    rc, refused := SearchByMemberOf(login.server, groups, group);
    if rc == Success { return; }
    var escaped := StrDup(escapedUser);
    rc, refused := MemberSearch.SearchByUsername(login.server, Composed(escaped, login.base, login.withUid), groups, group);
  }

  // ---- the privilege ----

  /** Entry j of the group table counts: its slot was marked. */
  predicate Granted(infos: seq<GroupInfo>, marks: seq<int>, j: nat)
    requires j < |infos| && |marks| == MAX_USER_GROUP
  {
    1 <= infos[j].innerId <= MAX_USER_GROUP && marks[infos[j].innerId - 1] != NO_GROUP
  }

  ghost function GrantedPrivileges(infos: seq<GroupInfo>, marks: seq<int>): set<nat>
    requires |marks| == MAX_USER_GROUP
  {
    set j | 0 <= j < |infos| && Granted(infos, marks, j) :: infos[j].priv
  }

  /** p is the greatest of the privileges other than "none", and "none" when there is no other. */
  ghost predicate IsTop(p: nat, privileges: set<nat>) {
    && (p == NO_PRIVILEGE || p in privileges)
    && (forall q :: q in privileges && q != NO_PRIVILEGE ==> p != NO_PRIVILEGE && q <= p)
  }

  /** Some entry of the table points at slot i. */
  predicate Pointed(infos: seq<GroupInfo>, n: nat, i: nat)
    requires n <= |infos|
  {
    exists j :: 0 <= j < n && infos[j].innerId == i + 1
  }

  /** p is the top over the granted entries the two loops have passed: slots below i, and of slot i those below j. */
  ghost predicate TopSoFar(p: nat, infos: seq<GroupInfo>, marks: seq<int>, i: nat, j: nat)
    requires |marks| == MAX_USER_GROUP
  {
    && (p == NO_PRIVILEGE || exists k :: 0 <= k < |infos| && Granted(infos, marks, k) && infos[k].priv == p)
    && (forall k :: 0 <= k < |infos| && Granted(infos, marks, k) && infos[k].priv != NO_PRIVILEGE ==>
          infos[k].innerId > i + 1 || (infos[k].innerId == i + 1 && k >= j) ||
          (p != NO_PRIVILEGE && infos[k].priv <= p))
  }

  /** The nested privilege loops of mscm_ldap_authenticate. */
  method ResolvePrivilege(infos: seq<GroupInfo>, groupId: seq<int>, group: array<int>) returns (privilege: nat)
    requires |infos| == |groupId| == group.Length == MAX_USER_GROUP
    modifies group
    ensures IsTop(privilege, GrantedPrivileges(infos, groupId))
    ensures forall i :: 0 <= i < MAX_USER_GROUP ==>
              group[i] == if groupId[i] != NO_GROUP && Pointed(infos, |infos|, i) then groupId[i] else old(group[i])
  {
    privilege := NO_PRIVILEGE;
    for i := 0 to MAX_USER_GROUP
      invariant TopSoFar(privilege, infos, groupId, i, 0)
      invariant forall k :: 0 <= k < MAX_USER_GROUP ==>
                  group[k] == if k < i && groupId[k] != NO_GROUP && Pointed(infos, |infos|, k) then groupId[k] else old(group[k])
    {
      if groupId[i] == NO_GROUP { continue; }
      for j := 0 to MAX_USER_GROUP
        invariant TopSoFar(privilege, infos, groupId, i, j)
        invariant forall k :: 0 <= k < MAX_USER_GROUP && k != i ==>
                    group[k] == if k < i && groupId[k] != NO_GROUP && Pointed(infos, |infos|, k)
                                then groupId[k] else old(group[k])
        invariant group[i] == if Pointed(infos, j, i) then groupId[i] else old(group[i])
      {
        if infos[j].innerId != i + 1 { continue; }
        if privilege == NO_PRIVILEGE || (infos[j].priv != NO_PRIVILEGE && privilege < infos[j].priv) {
          assert Granted(infos, groupId, j);
          privilege := infos[j].priv;
        }
        group[i] := groupId[i];
      }
    }
  }

  /** mscm_ldap_authenticate after the bind: `bound` is the answer of the servers to the credentials. */
  method Authenticate(login: Login, bound: bool, infos: seq<GroupInfo>, groups: GroupTable, group: array<int>)
    returns (ret: int, privilege: nat)
    requires |infos| == group.Length == MAX_USER_GROUP
    modifies group
    ensures var (marks, rc) := GroupsOfUser(login, groups, NO_MARKS);
            if bound && rc == Success then ret == RET_OK && IsTop(privilege, GrantedPrivileges(infos, marks))
            else ret == USER_LDAP_LOGIN_FAIL && privilege == NO_PRIVILEGE && group[..] == old(group[..])
    ensures var marks := GroupsOfUser(login, groups, NO_MARKS).0;
            ret == RET_OK ==> forall i :: 0 <= i < MAX_USER_GROUP ==>
              group[i] == if marks[i] != NO_GROUP && Pointed(infos, |infos|, i) then marks[i] else old(group[i])
  {
    var groupId := new int[MAX_USER_GROUP](_ => NO_GROUP);
    if !bound { return USER_LDAP_LOGIN_FAIL, NO_PRIVILEGE; }
    assert groupId[..] == NO_MARKS;
    var rc := GetUserGroup(login, groups, groupId);
    if rc != Success { return USER_LDAP_LOGIN_FAIL, NO_PRIVILEGE; }
    privilege := ResolvePrivilege(infos, groupId[..], group);
    return RET_OK, privilege;
  }

  // ---- end to end ----

  /** Group i belongs to this login: a DN reachable from the user's memberOf values names it, or it transitively lists
      the DN the code composes for the user. */
  ghost predicate BelongsTo(login: Login, groups: GroupTable, i: nat)
    requires i < MAX_USER_GROUP
  {
    || UserInGroup(login.server, groups, i)
    || MemberSearch.GroupHoldsUser(DownGraph(login.server), login.User(), groups, i)
  }

  /** No mark without that, whichever search set it and whatever the caps did. */
  lemma MarksAreMemberships(login: Login, groups: GroupTable)
    ensures var marks := GroupsOfUser(login, groups, NO_MARKS).0;
            forall i :: 0 <= i < MAX_USER_GROUP && marks[i] != NO_GROUP ==> marks[i] == i && BelongsTo(login, groups, i)
  {
    hide MemberOf, UserInGroup, MemberSearch.Rounds, MemberSearch.GroupHoldsUser, DownGraph;
    MemberOfIsExact(login.server, groups, NO_MARKS);
    MemberOfSuccessIffMarked(login.server, groups, NO_MARKS);
    MemberSearch.SearchByUsernameIsSound(DownGraph(login.server), login.User(), groups, NO_MARKS);
  }

  /** A login that ends in a privilege other than "none" owes it to such a group. */
  lemma NoPrivilegeWithoutGroup(login: Login, groups: GroupTable, infos: seq<GroupInfo>, privilege: nat)
    requires IsTop(privilege, GrantedPrivileges(infos, GroupsOfUser(login, groups, NO_MARKS).0))
    requires privilege != NO_PRIVILEGE
    ensures exists j :: 0 <= j < |infos| && 1 <= infos[j].innerId <= MAX_USER_GROUP && infos[j].priv == privilege
              && BelongsTo(login, groups, infos[j].innerId - 1)
  {
    MarksAreMemberships(login, groups);
    var marks := GroupsOfUser(login, groups, NO_MARKS).0;
    var j :| 0 <= j < |infos| && Granted(infos, marks, j) && infos[j].priv == privilege;
    assert BelongsTo(login, groups, infos[j].innerId - 1);
  }

  // ---- when the login succeeds, and with which privilege ----

  /** Configured group i lists the DN composed for the user, through members of members. */
  ghost predicate Lists(login: Login, groups: GroupTable, i: nat)
    requires i < MAX_USER_GROUP
  {
    groups[i].Some? && ListedBelow(login.server, login.User(), groups[i].value)
  }

  ghost predicate FirstLists(login: Login, groups: GroupTable, i: nat)
    requires i < MAX_USER_GROUP
  {
    Lists(login, groups, i) && forall k :: 0 <= k < i ==> !Lists(login, groups, k)
  }

  ghost predicate UpwardRefused(login: Login, groups: GroupTable) {
    MemberOf(login.server, groups, NO_MARKS).0.refused
  }

  ghost function Fallback(login: Login, groups: GroupTable): MemberSearch.Progress {
    MemberSearch.Rounds(DownGraph(login.server), login.User(), groups, MAX_USER_GROUP, NO_MARKS)
  }

  /** A name too long for the filter fails before anything is searched. */
  lemma LongNameFails(login: Login, groups: GroupTable)
    requires !FilterEscape.Fits(login.username, LDAP_FILT_MAXSIZ)
    ensures GroupsOfUser(login, groups, NO_MARKS) == (NO_MARKS, Error)
  {
  }

  /** Whenever the memberOf search does not succeed, whatever the answer it had, the fallback decides. */
  lemma FallbackDecides(login: Login, groups: GroupTable)
    requires FilterEscape.Fits(login.username, LDAP_FILT_MAXSIZ) && MemberOf(login.server, groups, NO_MARKS).1 != Success
    ensures var p := Fallback(login, groups);
            GroupsOfUser(login, groups, NO_MARKS) == (p.group, if p.flag then Success else Unknown)
  {
    hide MemberOf, MemberSearch.Rounds, DownGraph, FilterEscape.Fits;
    MemberOfSuccessIffMarked(login.server, groups, NO_MARKS);
  }

  /** On that path, with nothing refused in it, the login succeeds exactly if some configured group lists the user, and
      the first such group is marked. */
  lemma FallbackIsExact(login: Login, groups: GroupTable)
    requires FilterEscape.Fits(login.username, LDAP_FILT_MAXSIZ) && MemberOf(login.server, groups, NO_MARKS).1 != Success
    ensures var (marks, rc) := GroupsOfUser(login, groups, NO_MARKS);
            && (forall i :: 0 <= i < MAX_USER_GROUP && marks[i] != NO_GROUP ==> marks[i] == i && Lists(login, groups, i))
            && (!Fallback(login, groups).visited.refused ==>
                  && rc == (if exists i :: 0 <= i < MAX_USER_GROUP && Lists(login, groups, i) then Success else Unknown)
                  && forall i :: 0 <= i < MAX_USER_GROUP && FirstLists(login, groups, i) ==> marks[i] == i)
  {
    hide MemberOf, GroupsOfUser, MemberSearch.Rounds, DownGraph, ListedBelow, FilterEscape.Fits;
    FallbackDecides(login, groups);
    SearchFollowsAnswers(login.server, login.User(), groups);
    var p := Fallback(login, groups);
    hide Fallback;
    if !p.visited.refused && p.flag {
      var i :| 0 <= i < MAX_USER_GROUP && groups[i].Some? && ListedBelow(login.server, login.User(), groups[i].value);
      assert Lists(login, groups, i);
    }
  }

  /** Over both searches: with nothing refused, a login whose name fits succeeds exactly if a chain of memberOf values
      leads from the user to a configured group or a chain of members leads from one to the user. */
  lemma LoginIsExact(login: Login, groups: GroupTable)
    requires FilterEscape.Fits(login.username, LDAP_FILT_MAXSIZ)
    requires !UpwardRefused(login, groups) && !Fallback(login, groups).visited.refused
    ensures var (marks, rc) := GroupsOfUser(login, groups, NO_MARKS);
            && rc == (if exists i :: 0 <= i < MAX_USER_GROUP && (NamedAbove(login.server, groups, i) || Lists(login, groups, i))
                      then Success else Unknown)
            && (if exists i :: 0 <= i < MAX_USER_GROUP && NamedAbove(login.server, groups, i)
                then forall i :: 0 <= i < MAX_USER_GROUP ==> marks[i] == if NamedAbove(login.server, groups, i) then i else NO_GROUP
                else forall i :: 0 <= i < MAX_USER_GROUP && FirstLists(login, groups, i) ==> marks[i] == i)
  {
    MemberOfFollowsAnswers(login.server, groups);
    hide MemberOf, NamedAbove, Lists, Fallback, FilterEscape.Fits;
    if MemberOf(login.server, groups, NO_MARKS).1 != Success { FallbackIsExact(login, groups); }
  }

  /** Conditions on the directory alone under which that holds. */
  lemma LoginIsExactOnSmallDirectory(login: Login, groups: GroupTable, above: set<Dn>, below: set<Dn>)
    requires SmallDirectory(UpGraph(login.server), UserOwners(login.server), above, 1)
    requires SmallDirectory(DownGraph(login.server), MemberSearchCaps.Starts(groups), below, 0)
    ensures !UpwardRefused(login, groups) && !Fallback(login, groups).visited.refused
  {
    hide MemberOf, SmallDirectory, MemberSearch.Rounds;
    ShortChainsAreNotRefused(login.server, groups, NO_MARKS, above);
    MemberSearchCaps.SmallDirectoryIsSearchedExactly(login.server, login.User(), groups, NO_MARKS, below);
  }

  /** The entries of the table whose slot still has a route to the user when its turn comes. */
  ghost function StillLeadingPrivileges(login: Login, infos: seq<GroupInfo>, groups: GroupTable): set<nat> {
    set j | 0 <= j < |infos| && 1 <= infos[j].innerId <= MAX_USER_GROUP
            && MemberSearch.StillLeads(DownGraph(login.server), login.User(), groups, infos[j].innerId - 1, NO_MARKS) :: infos[j].priv
  }

  ghost function ListingPrivileges(login: Login, infos: seq<GroupInfo>, groups: GroupTable): set<nat> {
    set j | 0 <= j < |infos| && 1 <= infos[j].innerId <= MAX_USER_GROUP && Lists(login, groups, infos[j].innerId - 1) :: infos[j].priv
  }

  /** On the fallback path the privilege is the highest one among exactly those entries. */
  lemma FallbackPrivilege(login: Login, infos: seq<GroupInfo>, groups: GroupTable, privilege: nat)
    requires FilterEscape.Fits(login.username, LDAP_FILT_MAXSIZ) && MemberOf(login.server, groups, NO_MARKS).1 != Success
    requires !Fallback(login, groups).visited.refused
    ensures IsTop(privilege, GrantedPrivileges(infos, GroupsOfUser(login, groups, NO_MARKS).0)) <==>
            IsTop(privilege, StillLeadingPrivileges(login, infos, groups))
  {
    FallbackDecides(login, groups);
    var g, user, marks := DownGraph(login.server), login.User(), GroupsOfUser(login, groups, NO_MARKS).0;
    MarksAreMemberships(login, groups);
    hide MemberOf, GroupsOfUser, MemberSearch.Rounds, MemberSearch.StillLeads, BelongsTo, DownGraph, IsTop, FilterEscape.Fits;
    forall j | 0 <= j < MAX_USER_GROUP
      ensures marks[j] != NO_GROUP <==> MemberSearch.StillLeads(g, user, groups, j, NO_MARKS)
    {
      MemberSearch.SearchByUsernameMarks(g, user, groups, j, NO_MARKS);
    }
    assert GrantedPrivileges(infos, marks) == StillLeadingPrivileges(login, infos, groups);
  }

  /** `near` holds everything within 51 DNs of a group before group i that lists the user. */
  ghost predicate HoldsWhatIsNear(login: Login, groups: GroupTable, i: nat, near: set<Dn>)
    requires i < MAX_USER_GROUP
  {
    forall x :: MemberSearch.NearHolder(DownGraph(login.server), login.User(), groups, i, x) ==> x in near
  }

  /** The user can be reached from group i without touching what lies near an earlier group that lists the user. */
  ghost predicate IsApart(login: Login, groups: GroupTable, i: nat)
    requires i < MAX_USER_GROUP && groups[i].Some?
  {
    exists near :: HoldsWhatIsNear(login, groups, i, near)
                   && MemberSearch.LeadsToUser(DownGraph(login.server), login.User(), [groups[i].value], near)
  }

  /** When every group that lists the user is apart from the earlier ones, the login's privilege is the highest one among
      all groups that list the user, whatever their order. */
  lemma FallbackPrivilegeIsHighestListed(login: Login, infos: seq<GroupInfo>, groups: GroupTable, privilege: nat)
    requires FilterEscape.Fits(login.username, LDAP_FILT_MAXSIZ) && MemberOf(login.server, groups, NO_MARKS).1 != Success
    requires !Fallback(login, groups).visited.refused
    requires forall i :: 0 <= i < MAX_USER_GROUP && Lists(login, groups, i) ==> IsApart(login, groups, i)
    ensures IsTop(privilege, GrantedPrivileges(infos, GroupsOfUser(login, groups, NO_MARKS).0)) <==>
            IsTop(privilege, ListingPrivileges(login, infos, groups))
  {
    FallbackDecides(login, groups);
    FallbackIsExact(login, groups);
    var marks := GroupsOfUser(login, groups, NO_MARKS).0;
    forall i | 0 <= i < MAX_USER_GROUP && Lists(login, groups, i) ensures Fallback(login, groups).group[i] == i {
      ApartIsMarked(login, groups, i);
    }
    hide MemberOf, GroupsOfUser, Fallback, Lists, IsApart, IsTop, FilterEscape.Fits, GrantedPrivileges, ListingPrivileges;
    MarkedIsListed(login, infos, groups, marks);
  }

  lemma ApartIsMarked(login: Login, groups: GroupTable, i: nat)
    requires i < MAX_USER_GROUP && groups[i].Some? && IsApart(login, groups, i)
    ensures !Fallback(login, groups).visited.refused ==> Fallback(login, groups).group[i] == i
  {
    var g, user := DownGraph(login.server), login.User();
    hide MemberSearch.Rounds, MemberSearch.NearHolder, MemberSearch.LeadsToUser, DownGraph;
    var near :| HoldsWhatIsNear(login, groups, i, near) && MemberSearch.LeadsToUser(g, user, [groups[i].value], near);
    MemberSearch.ApartGroupIsMarked(g, user, groups, i, NO_MARKS, near);
  }

  lemma MarkedIsListed(login: Login, infos: seq<GroupInfo>, groups: GroupTable, marks: seq<int>)
    requires |marks| == MAX_USER_GROUP
    requires forall i :: 0 <= i < MAX_USER_GROUP ==> (marks[i] != NO_GROUP <==> Lists(login, groups, i))
    ensures GrantedPrivileges(infos, marks) == ListingPrivileges(login, infos, groups)
  {
    hide Lists;
  }

  // ---- the user the fallback search does not look for ----

  /** One group that lists the user's own DN and nothing else, and no answer in the other direction. */
  function ListingServer(group: Dn, own: CString): Server {
    Server(Failed, map[], map[group := Answered([Entry(None, Some([Dn(own)]))])])
  }

  lemma ListingGraph(group: Dn, own: CString)
    requires group.text != own
    ensures var g := DownGraph(ListingServer(group, own)); Found(g, group) == Some([Dn(own)]) && Found(g, Dn(own)).None?
  {
  }

  /** In that directory, and for every place of the user in it, the login finds the group exactly when the composed DN is
      the user's own; otherwise a configured group lists the user's own DN and the user is missed. */
  lemma ListedUserIsFound(username: CString, base: CString, withUid: bool, place: Place, own: CString, group: Dn)
    requires IsTag(place.tag) && own == OwnDn(username, place) && group.text != own
    ensures var login := Login(ListingServer(group, own), username, base, withUid);
            var groups: GroupTable := [Some(group), None, None, None, None];
            && MemberSearch.GroupHoldsUser(DownGraph(login.server), own, groups, 0)
            && (GroupsOfUser(login, groups, NO_MARKS).1 == Success <==> FindsOwnDn(username, base, withUid, place))
  {
    var login := Login(ListingServer(group, own), username, base, withUid);
    var groups: GroupTable := [Some(group), None, None, None, None];
    var g := DownGraph(login.server);
    ComposedDnIsOwn(username, base, withUid, place);
    if FindsOwnDn(username, base, withUid, place) { FoundNameFits(username, base, withUid, place); }
    ListingGraph(group, own);
    SameDnReflexive(own);
    NoAnswerUpward(login, groups);
    hide SameDn, ListingServer, OwnDn, Compared, DownGraph, MemberOf, FindsOwnDn, FilterEscape.Fits;
    OnlyListed(g, group, own, login.User());
    if SameDn(login.User(), own) {
      MemberSearch.DirectGroupIsFound(g, login.User(), group, NO_MARKS);
    } else {
      MemberSearch.SearchByUsernameIsSound(g, login.User(), groups, NO_MARKS);
    }
  }

  lemma NoAnswerUpward(login: Login, groups: GroupTable)
    requires login.server.user == Failed
    ensures MemberOf(login.server, groups, NO_MARKS) == (Trace({}, NO_MARKS, false), Unknown)
  {
  }

  /** A name that is found is short enough for the filter. */
  lemma FoundNameFits(username: CString, base: CString, withUid: bool, place: Place)
    requires FindsOwnDn(username, base, withUid, place)
    ensures FilterEscape.Fits(username, LDAP_FILT_MAXSIZ)
  {
    PlainIsKept(username);
    if username != [] { FilterEscape.EscapeGrows(username, |username| - 1); }
  }

  /** In that directory the group holds exactly who its one member names. */
  lemma OnlyListed(g: Graph, group: Dn, own: CString, user: CString)
    requires Found(g, group) == Some([Dn(own)]) && Found(g, Dn(own)).None? && SameDn(own, own)
    ensures MemberSearch.LeadsToUser(g, own, [group], {})
    ensures SameDn(user, own) ==> MemberSearch.Direct(g, user, group)
    ensures !SameDn(user, own) ==> !MemberSearch.LeadsToUser(g, user, [group], {})
  {
    assert Route(g, [group], [group], group, {});
    assert Reaches(g, [group], group, {});
    assert Dn(own) in Next(g, group);
    if SameDn(user, own) {
      SameDnSymmetric(user, own);
    } else {
      if SameDn(own, user) { SameDnSymmetric(own, user); }
      assert Next(g, group) == [Dn(own)] && Next(g, Dn(own)) == [];
      assert !MemberSearch.Direct(g, user, group) && !MemberSearch.Direct(g, user, Dn(own));
      MemberSearch.ExhaustedHidesNothing(g, user, [group], {}, {group, Dn(own)});
    }
  }

  /** The user's memberOf chains lead to a DN that names this one. */
  ghost predicate UserReaches(server: Server, dn: string) {
    exists x :: Reaches(UpGraph(server), UserOwners(server), x, {}) && SameDn(x.text, dn)
  }

  /** That is a chain of memberOf values in the answers themselves. */
  lemma ReachesByChain(server: Server, dn: string)
    ensures UserReaches(server, dn) <==> exists p: seq<Dn> :: OwnerChain(server, p) && SameDn(p[|p| - 1].text, dn)
  {
    hide UpGraph, UserOwners, Next, SameDn, UserStep, OwnerStep;
    if UserReaches(server, dn) {
      var x :| Reaches(UpGraph(server), UserOwners(server), x, {}) && SameDn(x.text, dn);
      var p :| Route(UpGraph(server), p, UserOwners(server), x, {});
      RouteIsOwnerChain(server, p);
      assert OwnerChain(server, p) && p[|p| - 1] == x;
    }
    if p: seq<Dn> :| OwnerChain(server, p) && SameDn(p[|p| - 1].text, dn) {
      RouteIsOwnerChain(server, p);
      assert Reaches(UpGraph(server), UserOwners(server), p[|p| - 1], {});
    }
  }

  /** The entries of the group table the user reaches, by the DN each entry is configured with. */
  ghost function ReachedPrivileges(server: Server, infos: seq<GroupInfo>, cnt: nat, domain: CString): set<nat>
    requires cnt <= |infos|
  {
    set j | 0 <= j < cnt && UserReaches(server, ConfiguredDn(infos[j], domain)) :: infos[j].priv
  }

  /** A table as the caller fills it: the first cnt entries with distinct ids, the rest zeroed, every DN within its buffer. */
  predicate WellFilled(infos: seq<GroupInfo>, cnt: nat, domain: CString) {
    && cnt <= |infos| == MAX_USER_GROUP
    && (forall i :: 0 <= i < cnt ==> ValidInfo(infos[i]) && DnFits(infos[i], domain))
    && (forall i, j :: 0 <= i < j < cnt ==> infos[i].innerId != infos[j].innerId)
    && (forall i :: cnt <= i < |infos| ==> infos[i].innerId == 0)
  }

  /** The memberOf path from the group table to the privilege: with no cap in the way, the login's privilege is the
      highest one other than "none" among the configured groups the user reaches, whatever their order. */
  lemma PrivilegeIsHighestReached(login: Login, infos: seq<GroupInfo>, cnt: nat, domain: CString, groups: GroupTable,
                                  privilege: nat)
    requires WellFilled(infos, cnt, domain)
    requires forall k :: 0 <= k < MAX_USER_GROUP ==> SlotHolds(groups[k], infos, cnt, k + 1, domain)
    requires FilterEscape.Fits(login.username, LDAP_FILT_MAXSIZ)
    requires var (t, rc) := MemberOf(login.server, groups, NO_MARKS); rc == Success && !t.refused
    ensures IsTop(privilege, GrantedPrivileges(infos, GroupsOfUser(login, groups, NO_MARKS).0)) <==>
            IsTop(privilege, ReachedPrivileges(login.server, infos, cnt, domain))
  {
    var marks := GroupsOfUser(login, groups, NO_MARKS).0;
    MemberOfIsExact(login.server, groups, NO_MARKS);
    hide MemberOf, UserInGroup, UserReaches, ConfiguredDn, DnFits, GroupsOfUser, IsTop, SlotHolds, Granted, WellFilled;
    forall j | 0 <= j < |infos|
      ensures Granted(infos, marks, j) <==> j < cnt && UserReaches(login.server, ConfiguredDn(infos[j], domain))
    {
      EntryGranted(login.server, infos, cnt, domain, groups, marks, j);
    }
    assert GrantedPrivileges(infos, marks) == ReachedPrivileges(login.server, infos, cnt, domain);
  }

  lemma EntryGranted(server: Server, infos: seq<GroupInfo>, cnt: nat, domain: CString, groups: GroupTable,
                     marks: seq<int>, j: nat)
    requires WellFilled(infos, cnt, domain) && j < |infos| && |marks| == MAX_USER_GROUP
    requires forall k :: 0 <= k < MAX_USER_GROUP ==> SlotHolds(groups[k], infos, cnt, k + 1, domain)
    requires forall k :: 0 <= k < MAX_USER_GROUP ==> marks[k] == if UserInGroup(server, groups, k) then k else NO_GROUP
    ensures Granted(infos, marks, j) <==> j < cnt && UserReaches(server, ConfiguredDn(infos[j], domain))
  {
    hide UserInGroup, UserReaches, ConfiguredDn, DnFits, IsBuilt;
    if j < cnt {
      LastWithIsOnly(infos, cnt, j);
      BuiltWhenFits(groups[infos[j].innerId - 1].value.text, infos[j], domain);
      SameGroup(server, groups, infos[j].innerId - 1);
    }
  }

  lemma LastWithIsOnly(infos: seq<GroupInfo>, cnt: nat, j: nat)
    requires j < cnt <= |infos| && forall i :: 0 <= i < cnt && i != j ==> infos[i].innerId != infos[j].innerId
    ensures LastWith(infos, cnt, infos[j].innerId) == Some(j)
  {
  }

  lemma SameGroup(server: Server, groups: GroupTable, k: nat)
    requires k < MAX_USER_GROUP && groups[k].Some?
    ensures UserInGroup(server, groups, k) <==> UserReaches(server, groups[k].value.text)
  {
  }
}
