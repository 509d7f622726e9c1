/** Runs of checked increments: while an IP is locked no attempt is recorded, so the lock expires on time. */
module LockRun {
  import opened FailureBuffer
  import opened LockDecision

  /** increase_fail_record with DO_CHECK, on the stored times of one IP. */
  function Attempt(buf: seq<Time>, conf: Conf, now: Time): seq<Time> {
    if IpLockedWith(buf, conf, now) then buf else Push(buf, now, MAX_RECORD_CNT)
  }

  function Attempts(buf: seq<Time>, conf: Conf, times: seq<Time>): seq<Time> {
    if times == [] then buf else Attempt(Attempts(buf, conf, times[..|times| - 1]), conf, times[|times| - 1])
  }

  /** How many of the attempts were recorded. */
  function Recorded(buf: seq<Time>, conf: Conf, times: seq<Time>): nat {
    if times == [] then 0
    else
      var front, last := times[..|times| - 1], times[|times| - 1];
      Recorded(buf, conf, front) + if IpLockedWith(Attempts(buf, conf, front), conf, last) then 0 else 1
  }

  lemma AttemptsSnoc(buf: seq<Time>, conf: Conf, times: seq<Time>, now: Time)
    ensures Attempts(buf, conf, times + [now]) == Attempt(Attempts(buf, conf, times), conf, now)
  {
    var all := times + [now];
    assert all[..|all| - 1] == times;
  }

  /** Once engaged, a lock does not depend on the time until it expires. */
  lemma EngagedUntilExpiry(buf: seq<Time>, conf: Conf, since: Time, t: Time)
    requires Sane(conf, Latest(buf)) && IpLockedWith(buf, conf, since)
    ensures IpLockedWith(buf, conf, t) <==> t <= Latest(buf) + conf.duration
  {
  }

  /** A lock whose latest failure is L holds at exactly the times up to L + duration, however many attempts
      arrive in the meantime. */
  lemma {:induction false} LockExpiresOnTime(buf: seq<Time>, conf: Conf, since: Time, attempts: seq<Time>, t: Time)
    requires Sane(conf, Latest(buf)) && IpLockedWith(buf, conf, since)
    requires forall a :: a in attempts ==> a <= Latest(buf) + conf.duration
    ensures Attempts(buf, conf, attempts) == buf && Recorded(buf, conf, attempts) == 0
    ensures IpLockedWith(Attempts(buf, conf, attempts), conf, t) <==> t <= Latest(buf) + conf.duration
  {
    if attempts != [] {
      var front, last := attempts[..|attempts| - 1], attempts[|attempts| - 1];
      assert last in attempts && forall a :: a in front ==> a in attempts;
      LockExpiresOnTime(buf, conf, since, front, t);
      EngagedUntilExpiry(buf, conf, since, last);
    }
    EngagedUntilExpiry(buf, conf, since, t);
  }

  // ---- after expiry ----

  lemma PushCount(buf: seq<Time>, now: Time, max: nat, bound: int)
    requires 0 < max
    ensures CountAfter(Push(buf, now, max), bound) <= CountAfter(buf, bound) + 1
    ensures Latest(Push(buf, now, max)) >= now
  {
    var pushed := Push(buf, now, max);
    LatestIsMax(pushed);
    if |buf| == max {
      var o := Oldest(buf);
      CountWithout(buf, o, bound);
      CountWithout(pushed, o, bound);
      assert pushed[..o] + pushed[o + 1..] == buf[..o] + buf[o + 1..];
      assert pushed[o] == now;
    } else {
      AppendOne(buf, now, bound);
    }
  }

  lemma {:induction false} CountMonotone(times: seq<Time>, low: int, high: int)
    requires low <= high
    ensures CountAfter(times, high) <= CountAfter(times, low)
  {
    if times != [] { CountMonotone(times[..|times| - 1], low, high); }
  }

  /** The records later than the bound are among the newly recorded ones. */
  lemma {:induction false} NewRecordsOnly(buf: seq<Time>, conf: Conf, attempts: seq<Time>, bound: Time, floor: Time)
    requires Latest(buf) <= bound && forall a :: a in attempts ==> a > floor
    ensures CountAfter(Attempts(buf, conf, attempts), bound) <= Recorded(buf, conf, attempts)
    ensures if Recorded(buf, conf, attempts) == 0 then Attempts(buf, conf, attempts) == buf
            else Latest(Attempts(buf, conf, attempts)) > floor
  {
    if attempts == [] {
      LatestIsMax(buf);
      NoneAfter(buf, bound);
    } else {
      var front, last := attempts[..|attempts| - 1], attempts[|attempts| - 1];
      assert last in attempts && forall a :: a in front ==> a in attempts;
      NewRecordsOnly(buf, conf, front, bound, floor);
      PushCount(Attempts(buf, conf, front), last, MAX_RECORD_CNT, bound);
    }
  }

  /** After a lock has expired it engages again only through `threshold` newly recorded failures, provided the
      failure interval is at most one second longer than the lock. */
  lemma RelockNeedsThreshold(buf: seq<Time>, conf: Conf, attempts: seq<Time>, t: Time)
    requires 0 < conf.threshold <= MAX_RECORD_CNT && conf.interval <= conf.duration + 1
    requires Sane(conf, Latest(buf)) && Sane(conf, Latest(Attempts(buf, conf, attempts)))
    requires forall a :: a in attempts ==> a > Latest(buf) + conf.duration
    requires t > Latest(buf) + conf.duration
    ensures IpLockedWith(Attempts(buf, conf, attempts), conf, t) ==> Recorded(buf, conf, attempts) >= conf.threshold
  {
    var end := Attempts(buf, conf, attempts);
    hide Attempts, Recorded, Latest, CountAfter, U64;
    NewRecordsOnly(buf, conf, attempts, Latest(buf), Latest(buf) + conf.duration);
    SaneConversions(conf, Latest(buf));
    SaneConversions(conf, Latest(end));
    if Recorded(buf, conf, attempts) > 0 {
      CountMonotone(end, Latest(buf), U64(Latest(end) - conf.interval));
    }
  }

  // ---- a whole run around one lock ----

  lemma {:induction false} AttemptsAppend(buf: seq<Time>, conf: Conf, early: seq<Time>, late: seq<Time>)
    ensures Attempts(buf, conf, early + late) == Attempts(Attempts(buf, conf, early), conf, late)
    ensures Recorded(buf, conf, early + late) == Recorded(buf, conf, early) + Recorded(Attempts(buf, conf, early), conf, late)
  {
    hide IpLockedWith, Attempt;
    if late == [] {
      assert early + late == early;
    } else {
      var all, front := early + late, late[..|late| - 1];
      assert all[..|all| - 1] == early + front;
      AttemptsAppend(buf, conf, early, front);
    }
  }

  /** How many of the times are at most the bound, counted from the front. */
  function Early(times: seq<Time>, bound: int): (n: nat)
    ensures n <= |times| && (forall k :: 0 <= k < n ==> times[k] <= bound) && (n < |times| ==> times[n] > bound)
  {
    if times == [] || times[0] > bound then 0 else 1 + Early(times[1..], bound)
  }

  lemma LateOnes(times: seq<Time>, bound: int)
    requires Sorted(times)
    ensures forall a :: a in times[Early(times, bound)..] ==> a > bound
    ensures forall a :: a in times[..Early(times, bound)] ==> a <= bound
  {
    var n := Early(times, bound);
    forall k | n <= k < |times| ensures times[k] > bound { SortedPair(times, n, k); }
  }

  /** The part behind the expiry. */
  lemma AfterExpiry(buf: seq<Time>, conf: Conf, since: Time, late: seq<Time>, t: Time)
    requires IpLockedWith(buf, conf, since) && 0 < conf.threshold <= MAX_RECORD_CNT
    requires Sane(conf, Latest(buf)) && Sane(conf, Latest(Attempts(buf, conf, late)))
    requires forall a :: a in late ==> a > Latest(buf) + conf.duration
    ensures var expiry, end := Latest(buf) + conf.duration, Attempts(buf, conf, late);
            && (Recorded(buf, conf, late) == 0 ==> (IpLockedWith(end, conf, t) <==> t <= expiry))
            && (conf.interval <= conf.duration + 1 && t > expiry && IpLockedWith(end, conf, t) ==>
                  Recorded(buf, conf, late) >= conf.threshold)
  {
    var expiry := Latest(buf) + conf.duration;
    NewRecordsOnly(buf, conf, late, expiry, expiry);
    EngagedUntilExpiry(buf, conf, since, t);
    hide Attempts, Recorded, Latest, IpLockedWith;
    if conf.interval <= conf.duration + 1 && t > expiry { RelockNeedsThreshold(buf, conf, late, t); }
  }

  /** A lock and whatever follows it, attempts in the order of time: while no new failure is recorded it holds at exactly
      the times up to its expiry; none is recorded up to then; and if the interval is at most the lock plus one second it
      holds later only after `threshold` new recorded failures. */
  lemma LockSpansRun(buf: seq<Time>, conf: Conf, since: Time, attempts: seq<Time>, t: Time)
    requires IpLockedWith(buf, conf, since) && Sorted(attempts)
    requires 0 < conf.threshold <= MAX_RECORD_CNT
    requires Sane(conf, Latest(buf)) && Sane(conf, Latest(Attempts(buf, conf, attempts)))
    ensures var expiry, end := Latest(buf) + conf.duration, Attempts(buf, conf, attempts);
            && Recorded(buf, conf, attempts[..Early(attempts, expiry)]) == 0
            && (Recorded(buf, conf, attempts) == 0 ==> (IpLockedWith(end, conf, t) <==> t <= expiry))
            && (conf.interval <= conf.duration + 1 && t > expiry && IpLockedWith(end, conf, t) ==>
                  Recorded(buf, conf, attempts) >= conf.threshold)
  {
    hide Attempts, Recorded, Latest, IpLockedWith, Sorted, Early;
    var n := Early(attempts, Latest(buf) + conf.duration);
    LateOnes(attempts, Latest(buf) + conf.duration);
    assert attempts == attempts[..n] + attempts[n..];
    SpansParts(buf, conf, since, attempts[..n], attempts[n..], t);
  }

  lemma SpansParts(buf: seq<Time>, conf: Conf, since: Time, early: seq<Time>, late: seq<Time>, t: Time)
    requires IpLockedWith(buf, conf, since) && 0 < conf.threshold <= MAX_RECORD_CNT
    requires Sane(conf, Latest(buf)) && Sane(conf, Latest(Attempts(buf, conf, early + late)))
    requires forall a :: a in early ==> a <= Latest(buf) + conf.duration
    requires forall a :: a in late ==> a > Latest(buf) + conf.duration
    ensures var expiry, end := Latest(buf) + conf.duration, Attempts(buf, conf, early + late);
            && Recorded(buf, conf, early) == 0
            && (Recorded(buf, conf, early + late) == 0 ==> (IpLockedWith(end, conf, t) <==> t <= expiry))
            && (conf.interval <= conf.duration + 1 && t > expiry && IpLockedWith(end, conf, t) ==>
                  Recorded(buf, conf, early + late) >= conf.threshold)
  {
    hide Attempts, Recorded, Latest, IpLockedWith;
    LockExpiresOnTime(buf, conf, since, early, t);
    AttemptsAppend(buf, conf, early, late);
    AfterExpiry(buf, conf, since, late, t);
  }

  lemma {:induction false} AllAfter(times: seq<Time>, bound: int)
    requires forall k :: 0 <= k < |times| ==> times[k] > bound
    ensures CountAfter(times, bound) == |times|
  {
    if times != [] { AllAfter(times[..|times| - 1], bound); }
  }

  lemma LatestIs(times: seq<Time>, t: Time)
    requires t in times && forall k :: 0 <= k < |times| ==> times[k] <= t
    ensures Latest(times) == t
  {
    LatestIsMax(times);
  }

  /** A buffer whose records all lie in the window, and are enough, locks until its latest record expires. */
  lemma FullWindowLocks(buf: seq<Time>, conf: Conf, latest: Time, now: Time)
    requires latest in buf && Sane(conf, latest) && conf.interval <= latest
    requires forall k :: 0 <= k < |buf| ==> latest - conf.interval < buf[k] <= latest
    requires 0 < conf.threshold <= |buf| && conf.threshold <= MAX_RECORD_CNT
    ensures IpLockedWith(buf, conf, now) <==> now <= latest + conf.duration
  {
    SaneConversions(conf, latest);
    LatestIs(buf, latest);
    AllAfter(buf, latest - conf.interval);
  }

  /** The interval condition is exact: for every interval longer than that there is a lock which, once expired,
      engages again through a single new failure although the threshold is more than one. */
  lemma LongIntervalRelocksEarly(conf: Conf, start: Time)
    requires 1 < conf.threshold <= MAX_RECORD_CNT && conf.interval > conf.duration + 1
    requires Sane(conf, start) && Sane(conf, start + conf.duration + 1) && conf.interval <= start
    ensures var buf, after := seq(conf.threshold, _ => start), start + conf.duration + 1;
            && IpLockedWith(buf, conf, start) && !IpLockedWith(buf, conf, after)
            && Recorded(buf, conf, [after]) == 1
            && IpLockedWith(Attempts(buf, conf, [after]), conf, after)
  {
    var buf, after := seq(conf.threshold, _ => start), start + conf.duration + 1;
    assert buf[0] in buf;
    FullWindowLocks(buf, conf, start, start);
    FullWindowLocks(buf, conf, start, after);
    var end := Push(buf, after, MAX_RECORD_CNT);
    assert end[if |buf| == MAX_RECORD_CNT then Oldest(buf) else |buf|] == after;
    FullWindowLocks(end, conf, after, after);
    var a := [after];
    assert a[..0] == [] && Attempts(buf, conf, []) == buf && Recorded(buf, conf, []) == 0;
    assert Attempts(buf, conf, a) == end;
  }

  // ---- thresholds a byte does not hold ----

  /** On this history the 100 stored records decide like the whole of it. */
  ghost predicate DecidesRight(conf: Conf, h: seq<Time>, now: Time) {
    IpLockedWith(LastOf(h, MAX_RECORD_CNT), conf, now) <==> HistoryLocked(h, conf, now)
  }

  lemma {:induction false} ConstantSorted(m: nat, t: Time)
    ensures Sorted(seq(m, _ => t))
  {
    if m > 0 {
      assert seq(m, _ => t)[..m - 1] == seq(m - 1, _ => t);
      ConstantSorted(m - 1, t);
    }
  }

  /** m failures at one time lock exactly if there are enough of them. */
  lemma ConstantHistory(m: nat, t: Time, conf: Conf)
    requires 0 < m && 0 < conf.interval <= t && 0 <= conf.duration
    ensures var h := seq(m, _ => t);
            Sorted(h) && Latest(h) == t && (HistoryLocked(h, conf, t) <==> conf.threshold != 0 && m >= conf.threshold)
  {
    var h := seq(m, _ => t);
    ConstantSorted(m, t);
    assert h[0] == t && t in h;
    LatestIs(h, t);
    AllAfter(h, t - conf.interval);
  }

  /** A threshold that narrows to 1..100 locks after that many failures, 257 after a single one; any other beyond 100
      does not lock however many failures there are. */
  lemma NarrowedThresholdMisjudges(conf: Conf, t: Time)
    requires conf.threshold > MAX_RECORD_CNT && Sane(conf, t) && 0 < conf.interval <= t
    ensures var k := conf.threshold % 256;
            if 1 <= k <= MAX_RECORD_CNT
            then IpLockedWith(seq(k, _ => t), conf, t) && !DecidesRight(conf, seq(k, _ => t), t)
            else HistoryLocked(seq(conf.threshold, _ => t), conf, t) && !DecidesRight(conf, seq(conf.threshold, _ => t), t)
  {
    var k := conf.threshold % 256;
    assert 0 <= k < 256 && k <= conf.threshold && (k <= MAX_RECORD_CNT ==> k < conf.threshold);
    var m := if 1 <= k <= MAX_RECORD_CNT then k else conf.threshold;
    var h := seq(m, _ => t);
    ConstantHistory(m, t, conf);
    ConstantHistory(m, t, Narrowed(conf));
    IpDecisionIsHistory(LastOf(h, MAX_RECORD_CNT), h, conf, t);
    hide Sorted, Latest, HistoryLocked, IpLockedWith;
  }

  /** Given an interval, the IP decision is right on every history that is at least that long if and only if the
      threshold is at most 100. */
  lemma ThresholdIsKeptUpToCapacity(conf: Conf)
    requires 0 <= conf.threshold && 0 < conf.interval && Sane(conf, conf.interval)
    ensures (forall h, now: Time :: Sorted(h) && Sane(conf, Latest(h)) && conf.interval <= Latest(h) ==> DecidesRight(conf, h, now)) <==>
            conf.threshold <= MAX_RECORD_CNT
  {
    if conf.threshold <= MAX_RECORD_CNT {
      forall h, now: Time | Sorted(h) && Sane(conf, Latest(h)) && conf.interval <= Latest(h) ensures DecidesRight(conf, h, now) {
        IpDecisionUpToCapacity(LastOf(h, MAX_RECORD_CNT), h, conf, now);
      }
    } else {
      var t, k := conf.interval, conf.threshold % 256;
      NarrowedThresholdMisjudges(conf, t);
      var m := if 1 <= k <= MAX_RECORD_CNT then k else conf.threshold;
      ConstantHistory(m, t, conf);
      assert !DecidesRight(conf, seq(m, _ => t), t);
    }
  }

  // ---- the same run over the whole history ----

  ghost function HistoryAttempts(h: seq<Time>, conf: Conf, times: seq<Time>): seq<Time> {
    if times == [] then h
    else
      var before, now := HistoryAttempts(h, conf, times[..|times| - 1]), times[|times| - 1];
      if HistoryLocked(before, conf, now) then before else before + [now]
  }

  /** The buffer holds the last failures of the history, whose times are among those of the run. */
  ghost predicate Refines(buf: seq<Time>, h: seq<Time>, times: seq<Time>) {
    Window(buf, h, MAX_RECORD_CNT) && Sorted(h) && forall t :: t in h ==> t in times
  }

  /** Settings and times of a run that no conversion changes. */
  ghost predicate SaneRun(conf: Conf, times: seq<Time>) {
    && 0 <= conf.threshold <= MAX_RECORD_CNT && Sane(conf, 0)
    && Sorted(times) && forall a :: a in times ==> conf.interval <= a && Sane(conf, a)
  }

  lemma DecisionsAgree(buf: seq<Time>, h: seq<Time>, conf: Conf, times: seq<Time>, now: Time)
    requires SaneRun(conf, times) && Refines(buf, h, times)
    ensures IpLockedWith(buf, conf, now) <==> HistoryLocked(h, conf, now)
  {
    LatestIsMax(h);
    IpDecisionUpToCapacity(buf, h, conf, now);
    if h == [] { assert !HistoryLocked(h, conf, now); }
  }

  lemma AttemptRefines(buf: seq<Time>, h: seq<Time>, conf: Conf, front: seq<Time>, last: Time)
    requires SaneRun(conf, front) && Sorted(front + [last]) && Refines(buf, h, front)
    ensures Refines(Attempt(buf, conf, last), if HistoryLocked(h, conf, last) then h else h + [last], front + [last])
  {
    DecisionsAgree(buf, h, conf, front, last);
    PushKeepsWindow(buf, h, last, MAX_RECORD_CNT);
    SortedSnoc(h, front, last, front + [last]);
  }

  /** Over every run on a clock that never runs back, the 100-record buffer holds the last failures of the unbounded
      history, and the two decide alike at every moment. */
  lemma {:induction false} RunRefinesHistory(conf: Conf, times: seq<Time>, now: Time)
    requires SaneRun(conf, times)
    ensures var buf, h := Attempts([], conf, times), HistoryAttempts([], conf, times);
            Refines(buf, h, times) && (IpLockedWith(buf, conf, now) <==> HistoryLocked(h, conf, now))
  {
    if times == [] {
      assert LastOf([], MAX_RECORD_CNT) == [];
    } else {
      var front, last := times[..|times| - 1], times[|times| - 1];
      assert times == front + [last] && Sorted(front);
      RunRefinesHistory(conf, front, now);
      AttemptRefines(Attempts([], conf, front), HistoryAttempts([], conf, front), conf, front, last);
    }
    DecisionsAgree(Attempts([], conf, times), HistoryAttempts([], conf, times), conf, times, now);
  }

  lemma SortedSnoc(h: seq<Time>, front: seq<Time>, last: Time, times: seq<Time>)
    requires Sorted(times) && times == front + [last] && Sorted(h) && forall t :: t in h ==> t in front
    ensures Sorted(h + [last])
  {
    if h != [] {
      assert h[|h| - 1] in front;
      var k :| 0 <= k < |front| && front[k] == h[|h| - 1];
      SortedPair(times, k, |times| - 1);
    }
    assert (h + [last])[..|h|] == h;
  }
}
