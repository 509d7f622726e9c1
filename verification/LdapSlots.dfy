/** The file of logged-in LDAP users: fixed-size slots, the slot's position giving the user id. */
module LdapSlots {
  import opened CText

  const LDAP_USER_ID_BASE := 1000
  const LDAP_USER_MAX_COUNT := 32

  /** The fields the allocator looks at, and the rest of the record. */
  datatype LdapUser = LdapUser(used: nat, uid: int, rest: seq<nat>)

  /** A record of zero bytes, as left in a hole of the file. */
  const ZERO := LdapUser(0, 0, [])

  /** None while the file does not exist. */
  type SlotFile = Option<seq<LdapUser>>

  function Slots(f: SlotFile): seq<LdapUser> {
    match f case None => [] case Some(s) => s
  }

  function Index(uid: int): nat
    requires uid >= LDAP_USER_ID_BASE
  {
    uid - LDAP_USER_ID_BASE
  }

  predicate IsUsed(slots: seq<LdapUser>, i: nat) { i < |slots| && slots[i].used != 0 }

  /** fwrite of one record at a slot position; writing past the end leaves a hole of zero records. */
  function Written(slots: seq<LdapUser>, i: nat, usr: LdapUser): (r: seq<LdapUser>)
    ensures |r| == if i < |slots| then |slots| else i + 1
    ensures forall k :: 0 <= k < |r| ==> r[k] == if k == i then usr else if k < |slots| then slots[k] else ZERO
  {
    if i < |slots| then slots[i := usr] else slots + seq(i - |slots|, _ => ZERO) + [usr]
  }

  /** The first slot that is free, counting the one behind the end of the file. */
  function LeastFree(slots: seq<LdapUser>): (n: nat)
    ensures n <= |slots| && !IsUsed(slots, n)
    ensures forall k :: 0 <= k < n ==> IsUsed(slots, k)
  {
    if slots == [] || slots[0].used == 0 then 0
    else
      var n := LeastFree(slots[1..]);
      assert forall k :: 0 < k <= n ==> (IsUsed(slots, k) <==> IsUsed(slots[1..], k - 1));
      1 + n
  }

  lemma LeastFreeIs(slots: seq<LdapUser>, n: nat)
    requires !IsUsed(slots, n) && forall k :: 0 <= k < n ==> IsUsed(slots, k)
    ensures LeastFree(slots) == n
  {
  }

  /** The record the scan has read last: the free one it stopped at, else the last of the file. */
  function LastRead(slots: seq<LdapUser>): LdapUser {
    var n := LeastFree(slots);
    if n < |slots| then slots[n] else if slots == [] then ZERO else slots[|slots| - 1]
  }

  function AfterAlloc(f: SlotFile): (SlotFile, int) {
    var slots := Slots(f);
    var n := LeastFree(slots);
    if n >= LDAP_USER_MAX_COUNT then (Some(slots), RET_ERR)
    else
      var uid := LDAP_USER_ID_BASE + n;
      (Some(Written(slots, n, LastRead(slots).(used := 1, uid := uid))), uid)
  }

  function AfterRenew(f: SlotFile, usr: LdapUser): (SlotFile, int) {
    if usr.uid >= LDAP_USER_ID_BASE && f.Some? then (Some(Written(f.value, Index(usr.uid), usr)), RET_OK)
    else (f, RET_ERR)
  }

  function ReadAt(f: SlotFile, uid: int): Option<LdapUser> {
    if uid >= LDAP_USER_ID_BASE && Index(uid) < |Slots(f)| then Some(Slots(f)[Index(uid)]) else None
  }

  class UserFile {
    var file: SlotFile

    constructor ()
      ensures file == None
    {
      file := None;
    }

    /** uip_alloc_ldap_uid. The record written is the one read last, with only its id and its used mark set. */
    method AllocUid() returns (ret: int)
      modifies this
      ensures (file, ret) == AfterAlloc(old(file))
    {
      if file.None? { file := Some([]); }
      ghost var slots := file.value;
      var usr := ZERO;
      var n := 0;
      var i := 0;
      while i < |file.value|
        invariant i == n <= |slots| && file == Some(slots)
        invariant forall k :: 0 <= k < n ==> IsUsed(slots, k)
        invariant usr == if n == 0 then ZERO else slots[n - 1]
      {
        usr := file.value[i];
        if usr.used == 0 { break; }
        n := n + 1;
        i := i + 1;
      }
      LeastFreeIs(slots, n);
      assert usr == LastRead(slots);
      if n >= LDAP_USER_MAX_COUNT { return RET_ERR; }
      usr := usr.(used := 1, uid := LDAP_USER_ID_BASE + n);
      file := Some(Written(file.value, n, usr));
      return LDAP_USER_ID_BASE + n;
    }

    /** uip_read_ldap_user */
    method ReadUser(uid: int) returns (ret: int, usr: LdapUser)
      ensures ret == if ReadAt(file, uid).Some? then RET_OK else RET_ERR
      ensures ReadAt(file, uid).Some? ==> usr == ReadAt(file, uid).value
    {
      usr := ZERO;
      if uid < LDAP_USER_ID_BASE { return RET_ERR, usr; }
      if file.None? { return RET_ERR, usr; }
      var at := uid - LDAP_USER_ID_BASE;
      if at >= |file.value| { return RET_ERR, usr; }
      return RET_OK, file.value[at];
    }

    /** uip_renew_ldap_user */
    method RenewUser(usr: LdapUser) returns (ret: int)
      modifies this
      ensures (file, ret) == AfterRenew(old(file), usr)
    {
      if usr.uid < LDAP_USER_ID_BASE { return RET_ERR; }
      if file.None? { return RET_ERR; }
      file := Some(Written(file.value, usr.uid - LDAP_USER_ID_BASE, usr));
      return RET_OK;
    }
  }

  // ---- the allocator it implements ----

  ghost function UsedIds(f: SlotFile): set<int> {
    set i | 0 <= i < |Slots(f)| && IsUsed(Slots(f), i) :: LDAP_USER_ID_BASE + i
  }

  lemma UsedIdsAt(f: SlotFile, v: int)
    ensures v in UsedIds(f) <==> v >= LDAP_USER_ID_BASE && IsUsed(Slots(f), Index(v))
  {
  }

  /** Writing a record changes the use of its own id only. */
  lemma WrittenIds(f: SlotFile, f': SlotFile, i: nat, usr: LdapUser)
    requires f' == Some(Written(Slots(f), i, usr))
    ensures UsedIds(f') == if usr.used != 0 then UsedIds(f) + {LDAP_USER_ID_BASE + i} else UsedIds(f) - {LDAP_USER_ID_BASE + i}
  {
    forall v ensures v in UsedIds(f') <==> if v == LDAP_USER_ID_BASE + i then usr.used != 0 else v in UsedIds(f) {
      UsedIdsAt(f, v);
      UsedIdsAt(f', v);
    }
  }

  ghost predicate IsLeastFree(used: set<int>, uid: int) {
    LDAP_USER_ID_BASE <= uid && uid !in used && forall v :: LDAP_USER_ID_BASE <= v < uid ==> v in used
  }

  /** Allocation hands out the least free id and takes it, or fails exactly when the first 32 are taken. */
  lemma AllocIsLeastFree(f: SlotFile)
    ensures var (f', ret) := AfterAlloc(f);
            if forall v :: LDAP_USER_ID_BASE <= v < LDAP_USER_ID_BASE + LDAP_USER_MAX_COUNT ==> v in UsedIds(f)
            then ret == RET_ERR && UsedIds(f') == UsedIds(f)
            else IsLeastFree(UsedIds(f), ret) && ret < LDAP_USER_ID_BASE + LDAP_USER_MAX_COUNT
                 && UsedIds(f') == UsedIds(f) + {ret}
  {
    var slots := Slots(f);
    var n := LeastFree(slots);
    forall v ensures v in UsedIds(f) <==> v >= LDAP_USER_ID_BASE && IsUsed(slots, Index(v)) { UsedIdsAt(f, v); }
    var (f', ret) := AfterAlloc(f);
    if n < LDAP_USER_MAX_COUNT {
      assert LDAP_USER_ID_BASE + n !in UsedIds(f);
      WrittenIds(f, f', n, LastRead(slots).(used := 1, uid := ret));
    } else {
      assert Slots(f') == slots;
      forall v | LDAP_USER_ID_BASE <= v < LDAP_USER_ID_BASE + LDAP_USER_MAX_COUNT ensures v in UsedIds(f) {
        assert IsUsed(slots, Index(v));
      }
    }
  }

  /** Renewal takes or frees exactly the id it names. */
  lemma RenewSetsOneId(f: SlotFile, usr: LdapUser)
    requires usr.uid >= LDAP_USER_ID_BASE && f.Some?
    ensures UsedIds(AfterRenew(f, usr).0) == if usr.used != 0 then UsedIds(f) + {usr.uid} else UsedIds(f) - {usr.uid}
  {
    WrittenIds(f, AfterRenew(f, usr).0, Index(usr.uid), usr);
  }

  /** Reading after renewing returns what was written; every other record that could be read is unchanged. */
  lemma ReadAfterRenew(f: SlotFile, usr: LdapUser, uid: int)
    requires usr.uid >= LDAP_USER_ID_BASE && f.Some?
    ensures var f' := AfterRenew(f, usr).0;
            && ReadAt(f', usr.uid) == Some(usr)
            && (uid != usr.uid && ReadAt(f, uid).Some? ==> ReadAt(f', uid) == ReadAt(f, uid))
            && (uid != usr.uid && ReadAt(f, uid).None? && ReadAt(f', uid).Some? ==> ReadAt(f', uid) == Some(ZERO))
  {
  }

  /** Which ids can be read and renewed; a refused renewal leaves the file alone. */
  lemma AccessExactly(f: SlotFile, usr: LdapUser, uid: int)
    ensures ReadAt(f, uid).Some? <==> 1000 <= uid < 1000 + |Slots(f)|
    ensures AfterRenew(f, usr).1 == if 1000 <= usr.uid && f.Some? then RET_OK else RET_ERR
    ensures AfterRenew(f, usr).1 != RET_OK ==> AfterRenew(f, usr).0 == f
    ensures f.Some? && 1000 <= usr.uid ==>
              |Slots(AfterRenew(f, usr).0)| == if usr.uid - 1000 < |f.value| then |f.value| else usr.uid - 1000 + 1
  {
  }

  /** A slot added behind the last user starts out with that user's data under the new id. */
  lemma AppendedSlotCopiesPredecessor(f: SlotFile)
    requires 0 < LeastFree(Slots(f)) == |Slots(f)| < LDAP_USER_MAX_COUNT
    ensures var (f', ret) := AfterAlloc(f);
            ReadAt(f', ret) == Some(ReadAt(f, ret - 1).value.(used := 1, uid := ret))
  {
  }

  /** A free slot inside the file is handed out with the data its former user left. */
  lemma ReusedSlotKeepsData(f: SlotFile)
    requires LeastFree(Slots(f)) < |Slots(f)| && LeastFree(Slots(f)) < LDAP_USER_MAX_COUNT
    ensures var (f', ret) := AfterAlloc(f);
            var freed := ReadAt(f, ret);
            freed.Some? && freed.value.used == 0 && ReadAt(f', ret) == Some(freed.value.(used := 1, uid := ret))
  {
  }

  /** The first slot of a new or empty file starts from a record of zero bytes. */
  lemma FirstSlotIsZero(f: SlotFile)
    requires Slots(f) == []
    ensures var (f', ret) := AfterAlloc(f); ret == 1000 && f' == Some([LdapUser(1, 1000, [])])
  {
    assert Slots(AfterAlloc(f).0) == [LdapUser(1, 1000, [])];
  }

  /** Allocation changes no other record, and the file never shrinks. */
  lemma AllocKeepsOthers(f: SlotFile, uid: int)
    ensures var (f', ret) := AfterAlloc(f);
            && (uid != ret ==> ReadAt(f', uid) == ReadAt(f, uid))
            && |Slots(f)| <= |Slots(f')| <= |Slots(f)| + 1
            && (ret == RET_ERR ==> Slots(f') == Slots(f))
  {
  }

  // ---- runs ----

  datatype Event = Alloc | Renew(usr: LdapUser)

  function Step(f: SlotFile, e: Event): SlotFile {
    match e
    case Alloc => AfterAlloc(f).0
    case Renew(usr) => AfterRenew(f, usr).0
  }

  function Run(events: seq<Event>): SlotFile {
    if events == [] then None else Step(Run(events[..|events| - 1]), events[|events| - 1])
  }

  /** A used slot carries the id of its position. */
  ghost predicate Placed(f: SlotFile) {
    forall i :: 0 <= i < |Slots(f)| && IsUsed(Slots(f), i) ==> Slots(f)[i].uid == LDAP_USER_ID_BASE + i
  }

  predicate InRange(e: Event) {
    e.Alloc? || e.usr.uid < LDAP_USER_ID_BASE + LDAP_USER_MAX_COUNT
  }

  lemma StepKeepsPlaces(f: SlotFile, e: Event)
    requires Placed(f)
    ensures Placed(Step(f, e))
    ensures |Slots(f)| <= LDAP_USER_MAX_COUNT && InRange(e) ==> |Slots(Step(f, e))| <= LDAP_USER_MAX_COUNT
  {
    var before, after := Slots(f), Slots(Step(f, e));
    forall i | 0 <= i < |after| && IsUsed(after, i) ensures after[i].uid == LDAP_USER_ID_BASE + i {
      assert i < |before| && after[i] == before[i] ==> IsUsed(before, i);
    }
  }

  /** Over every run every live id sits in its own slot, so live ids are distinct; and with renewals of the first
      32 ids only there are never more than 32 slots. */
  lemma {:induction false} RunKeepsPlaces(events: seq<Event>)
    ensures Placed(Run(events))
    ensures (forall e :: e in events ==> InRange(e)) ==> |Slots(Run(events))| <= LDAP_USER_MAX_COUNT
    ensures var slots := Slots(Run(events));
            forall i, j :: 0 <= i < j < |slots| && IsUsed(slots, i) && IsUsed(slots, j) ==> slots[i].uid != slots[j].uid
  {
    if events != [] {
      var front, last := events[..|events| - 1], events[|events| - 1];
      assert last in events && forall e :: e in front ==> e in events;
      RunKeepsPlaces(front);
      StepKeepsPlaces(Run(front), last);
    }
  }
}
