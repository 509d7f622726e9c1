/** Increases with and without the test for a lock, mixed: what is stored then, and what it decides. */
module IpLockMixed {
  import opened CText
  import opened FailureBuffer
  import opened LockDecision
  import opened LockRun
  import opened IpAddress
  import opened IpLock

  // ---- one call ----

  /** The table has room for the name, or tracks it already. */
  predicate HasRoom(s: State, name: string) {
    name in s.tracked || |s.tracked| < 1000
  }

  /** The test finds a lock: it was asked for, and the settings, the name and the file it looks at are there. */
  predicate FindsLock(s: State, name: string, check: bool, w: World) {
    && check && w.conf.Some? && RemovePort(name).Some? && Opens(w, RemovePort(name).value)
    && IpLockedWith(IpTimes(Stored(s, RemovePort(name).value)), w.conf.value, w.now)
  }

  /** With room in the table and a file that opens, an increase records the failure unless the test finds a lock; then it
      stores nothing. It answers OK either way. */
  lemma IncreaseStoresUnlessLocked(s: State, ip: string, name: string, check: bool, w: World)
    requires RemovePort(ip) == Some(name) && HasRoom(s, name) && Opens(w, name)
    ensures var (s', ret) := AfterIncrease(s, ip, check, w);
            && ret == RET_OK && s'.tracked == s.tracked + {name}
            && Stored(s', name) == if FindsLock(s, name, check, w) then Stored(s, name) else PushRecord(Stored(s, name), w.now)
  {
    hide RemovePort, FileName, PushRecord, IpLockedWith;
  }

  /** So without the test it always records it. */
  lemma UncheckedIsPush(s: State, ip: string, name: string, w: World)
    requires RemovePort(ip) == Some(name) && HasRoom(s, name) && Opens(w, name)
    ensures var (s', ret) := AfterIncrease(s, ip, false, w);
            && ret == RET_OK && name in s'.tracked
            && IpTimes(Stored(s', name)) == Push(IpTimes(Stored(s, name)), w.now, 100)
  {
    hide RemovePort, FileName;
    IncreaseStoresUnlessLocked(s, ip, name, false, w);
    PushRecordTimes(Stored(s, name), w.now);
  }

  /** Every increase that fails, and why; a text without a name and a full table leave the state alone. */
  lemma IncreaseFailsExactly(s: State, ip: string, check: bool, w: World)
    ensures var (s', ret) := AfterIncrease(s, ip, check, w);
            match RemovePort(ip)
            case None => ret == RET_ERR && s' == s
            case Some(name) =>
              && (!HasRoom(s, name) ==> ret == RET_ERR && s' == s)
              && (HasRoom(s, name) ==>
                    && name in s'.tracked
                    && (Opens(w, name) ==> ret == RET_OK)
                    && (!Opens(w, name) && (check ==> !CheckedLocked(s, name, w)) ==>
                          ret == RET_ERR && forall n :: Stored(s', n) == Stored(s, n)))
  {
    hide RemovePort, FileName, PushRecord, IpLockedWith;
  }

  // ---- runs ----

  /** One increase: when, and whether it tests for a lock first. */
  datatype Try = Try(now: Time, check: bool)

  function AfterTry(buf: seq<Time>, conf: Conf, t: Try): seq<Time> {
    if t.check then Attempt(buf, conf, t.now) else Push(buf, t.now, MAX_RECORD_CNT)
  }

  function AfterTries(buf: seq<Time>, conf: Conf, tries: seq<Try>): seq<Time> {
    if tries == [] then buf else AfterTry(AfterTries(buf, conf, tries[..|tries| - 1]), conf, tries[|tries| - 1])
  }

  lemma AfterTriesStep(buf: seq<Time>, conf: Conf, tries: seq<Try>, t: Try)
    ensures AfterTries(buf, conf, tries + [t]) == AfterTry(AfterTries(buf, conf, tries), conf, t)
  {
    var all := tries + [t];
    assert all[..|all| - 1] == tries;
  }

  /** The increases of one address since it was last cleaned, as far as the table had room. */
  function TriesSince(events: seq<Event>, name: string): seq<Try> {
    if events == [] then []
    else
      var front, last := events[..|events| - 1], events[|events| - 1];
      if last.CleanAll? then []
      else if !Names(last, name) || last.Status? then TriesSince(front, name)
      else if last.Clean? then []
      else if HasRoom(Run(front), name) then TriesSince(front, name) + [Try(last.w.now, last.check)]
      else TriesSince(front, name)
  }

  /** Every increase of the address can open its file, and every one that tests for a lock finds the settings. */
  ghost predicate Undisturbed(events: seq<Event>, name: string, conf: Conf) {
    forall e :: e in events && e.Increase? && Names(e, name) ==> e.w.canOpen && (e.check ==> e.w.conf == Some(conf))
  }

  lemma IncreaseIsTry(s: State, e: Event, name: string, conf: Conf)
    requires e.Increase? && RemovePort(e.ip) == Some(name) && Stable(name) && HasRoom(s, name)
    requires Opens(e.w, name) && (e.check ==> e.w.conf == Some(conf))
    ensures IpTimes(Stored(Step(s, e), name)) == AfterTry(IpTimes(Stored(s, name)), conf, Try(e.w.now, e.check))
  {
    hide RemovePort, Stable, FileName, Push, IpLockedWith;
    if e.check { IncreaseIsAttempt(s, e.ip, e.w); } else { UncheckedIsPush(s, e.ip, name, e.w); }
  }

  lemma FullTableStoresNothing(s: State, e: Event, name: string)
    requires e.Increase? && RemovePort(e.ip) == Some(name) && !HasRoom(s, name)
    ensures Step(s, e) == s
  {
  }

  lemma StatusStoresNothing(s: State, e: Event, name: string)
    requires e.Status?
    ensures Stored(Step(s, e), name) == Stored(s, name)
  {
    hide RemovePort, FileName;
  }

  lemma CleanedStoresNothing(front: seq<Event>, e: Event, name: string)
    requires Stable(name) && (e.CleanAll? || (e.Clean? && RemovePort(e.ip) == Some(name)))
    ensures Stored(Step(Run(front), e), name) == []
  {
    hide RemovePort, Stable;
    if e.CleanAll? {
      RunIsGood(front);
      if name in Run(front).files { CleanedAreStable(Run(front), name); }
    }
  }

  /** Over every run, with anything happening to other addresses in between, the stored times of an address come from its
      increases since it was last cleaned, each tested one as an attempt and each other one as a recorded failure. */
  lemma {:induction false} RecordIsMixedRun(events: seq<Event>, name: string, conf: Conf)
    requires Stable(name) && FileName(name) && Undisturbed(events, name, conf)
    ensures IpTimes(Stored(Run(events), name)) == AfterTries([], conf, TriesSince(events, name))
  {
    if events != [] {
      var front, last := events[..|events| - 1], events[|events| - 1];
      assert last in events && forall e :: e in front ==> e in events;
      RecordIsMixedRun(front, name, conf);
      hide RemovePort, Stable, FileName, Undisturbed, AfterTry, Step;
      var s := Run(front);
      if last.CleanAll? || (last.Clean? && Names(last, name)) {
        CleanedStoresNothing(front, last, name);
      } else if !Names(last, name) {
        OthersUntouched(s, last, name);
      } else if last.Status? {
        StatusStoresNothing(s, last, name);
      } else if HasRoom(s, name) {
        UndisturbedAt(events, last, name, conf);
        IncreaseIsTry(s, last, name, conf);
        AfterTriesStep([], conf, TriesSince(front, name), Try(last.w.now, last.check));
      } else {
        FullTableStoresNothing(s, last, name);
      }
    }
  }

  lemma UndisturbedAt(events: seq<Event>, e: Event, name: string, conf: Conf)
    requires Undisturbed(events, name, conf) && e in events && e.Increase? && Names(e, name)
    ensures e.w.canOpen && (e.check ==> e.w.conf == Some(conf))
  {
  }

  // ---- increases without the test ----

  function TryTimes(tries: seq<Try>): seq<Time> {
    if tries == [] then [] else TryTimes(tries[..|tries| - 1]) + [tries[|tries| - 1].now]
  }

  lemma {:induction false} UncheckedArePushes(conf: Conf, tries: seq<Try>)
    requires forall t :: t in tries ==> !t.check
    ensures AfterTries([], conf, tries) == Pushes([], TryTimes(tries), MAX_RECORD_CNT)
  {
    if tries != [] {
      var front, last := tries[..|tries| - 1], tries[|tries| - 1];
      assert last in tries && forall t :: t in front ==> t in tries;
      UncheckedArePushes(conf, front);
      PushesStep(TryTimes(front), last.now);
    }
  }

  lemma PushesStep(times: seq<Time>, t: Time)
    ensures Pushes([], times + [t], MAX_RECORD_CNT) == Push(Pushes([], times, MAX_RECORD_CNT), t, MAX_RECORD_CNT)
  {
    var all := times + [t];
    assert all[..|all| - 1] == times;
  }

  lemma {:induction false} TriesAreUnchecked(events: seq<Event>, name: string)
    requires forall e :: e in events && e.Increase? && Names(e, name) ==> !e.check
    ensures forall t :: t in TriesSince(events, name) ==> !t.check
  {
    hide Names, Run, HasRoom;
    if events != [] {
      var front, last := events[..|events| - 1], events[|events| - 1];
      assert last in events && forall e :: e in front ==> e in events;
      TriesAreUnchecked(front, name);
    }
  }

  /** Over every run in which an address is only increased without the test, on a clock that does not run back, the
      last 100 of those increases are stored: none is lost while the table has room. */
  lemma UncheckedRunIsWindow(events: seq<Event>, name: string, conf: Conf)
    requires Stable(name) && FileName(name) && Undisturbed(events, name, conf)
    requires forall e :: e in events && e.Increase? && Names(e, name) ==> !e.check
    requires Sorted(TryTimes(TriesSince(events, name)))
    ensures Window(IpTimes(Stored(Run(events), name)), TryTimes(TriesSince(events, name)), 100)
  {
    hide Stable, FileName, Sorted, Window, Undisturbed, Names, Run, TriesSince;
    RecordIsMixedRun(events, name, conf);
    TriesAreUnchecked(events, name);
    UncheckedArePushes(conf, TriesSince(events, name));
    BufferIsWindow(TryTimes(TriesSince(events, name)), MAX_RECORD_CNT);
  }

  /** So the table then decides like the history of all those increases, whatever port the address comes with. */
  lemma UncheckedTableDecidesLikeHistory(events: seq<Event>, ip: string, w: World, conf: Conf)
    requires Acceptable(ip) && RemovePort(ip).Some? && w.conf == Some(conf) && Opens(w, RemovePort(ip).value)
    requires Undisturbed(events, RemovePort(ip).value, conf)
    requires forall e :: e in events && e.Increase? && Names(e, RemovePort(ip).value) ==> !e.check
    requires var h := TryTimes(TriesSince(events, RemovePort(ip).value)); Sorted(h) && Sane(conf, Latest(h))
    ensures var h := TryTimes(TriesSince(events, RemovePort(ip).value));
            CheckedLocked(Run(events), ip, w) <==>
            conf.threshold % 256 <= 100 && conf.interval <= Latest(h) && HistoryLocked(h, Narrowed(conf), w.now)
  {
    var name := RemovePort(ip).value;
    hide RemovePort, Stable, FileName, Sorted, Window, Undisturbed, Names, Run, TriesSince, HistoryLocked, IpLockedWith, Latest;
    UncheckedRunIsWindow(events, name, conf);
    IpDecisionIsHistory(IpTimes(Stored(Run(events), name)), TryTimes(TriesSince(events, name)), conf, w.now);
  }

  // ---- both kinds ----

  ghost function HistoryTries(h: seq<Time>, conf: Conf, tries: seq<Try>): seq<Time> {
    if tries == [] then h
    else
      var before, last := HistoryTries(h, conf, tries[..|tries| - 1]), tries[|tries| - 1];
      if last.check && HistoryLocked(before, conf, last.now) then before else before + [last.now]
  }

  lemma TryRefines(buf: seq<Time>, h: seq<Time>, conf: Conf, front: seq<Time>, t: Try)
    requires SaneRun(conf, front) && Sorted(front + [t.now]) && Refines(buf, h, front)
    ensures Refines(AfterTry(buf, conf, t), if t.check && HistoryLocked(h, conf, t.now) then h else h + [t.now], front + [t.now])
  {
    if t.check {
      AttemptRefines(buf, h, conf, front, t.now);
    } else {
      PushKeepsWindow(buf, h, t.now, MAX_RECORD_CNT);
      SortedSnoc(h, front, t.now, front + [t.now]);
    }
  }

  /** Over every run of tested and untested increases on such a clock the stored records decide like the unbounded history
      in which an increase counts unless it tested for a lock and that history was locked. */
  lemma {:induction false} MixedRunRefinesHistory(conf: Conf, tries: seq<Try>, now: Time)
    requires SaneRun(conf, TryTimes(tries))
    ensures var buf, h := AfterTries([], conf, tries), HistoryTries([], conf, tries);
            Refines(buf, h, TryTimes(tries)) && (IpLockedWith(buf, conf, now) <==> HistoryLocked(h, conf, now))
  {
    hide HistoryLocked, IpLockedWith, AfterTry;
    if tries == [] {
      NothingRefines();
    } else {
      var front, last := tries[..|tries| - 1], tries[|tries| - 1];
      FrontIsSane(conf, TryTimes(front), last.now);
      MixedRunRefinesHistory(conf, front, now);
      TryRefines(AfterTries([], conf, front), HistoryTries([], conf, front), conf, TryTimes(front), last);
    }
    DecisionsAgree(AfterTries([], conf, tries), HistoryTries([], conf, tries), conf, TryTimes(tries), now);
  }

  lemma NothingRefines()
    ensures Refines([], [], [])
  {
    assert LastOf([], MAX_RECORD_CNT) == [];
  }

  lemma FrontIsSane(conf: Conf, front: seq<Time>, last: Time)
    requires SaneRun(conf, front + [last])
    ensures SaneRun(conf, front)
  {
    assert (front + [last])[..|front|] == front;
  }

  /** So the table's decision is that over such a history, over every run that mixes the two kinds of increase. */
  lemma MixedTableDecidesLikeHistory(events: seq<Event>, ip: string, w: World, conf: Conf)
    requires Acceptable(ip) && RemovePort(ip).Some? && w.conf == Some(conf) && Opens(w, RemovePort(ip).value)
    requires Undisturbed(events, RemovePort(ip).value, conf)
    requires SaneRun(conf, TryTimes(TriesSince(events, RemovePort(ip).value)))
    ensures CheckedLocked(Run(events), ip, w) <==>
            HistoryLocked(HistoryTries([], conf, TriesSince(events, RemovePort(ip).value)), conf, w.now)
  {
    var name := RemovePort(ip).value;
    hide RemovePort, Stable, FileName, Undisturbed, Run, TriesSince, HistoryLocked, IpLockedWith, SaneRun;
    RecordIsMixedRun(events, name, conf);
    MixedRunRefinesHistory(conf, TriesSince(events, name), w.now);
  }
}
