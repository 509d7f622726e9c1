/** When an IP or a user counts as locked, decided from the bounded buffers; and why the bound does not matter. */
module LockDecision {
  import opened FailureBuffer

  const TALLY_FAIL_INTERVAL_ADD_SECONDS := 300
  const NO_INTERVAL := -1

  const TWO_TO_64 := 0x1_0000_0000_0000_0000

  /** Conversion to guint64: reduction modulo 2 to the 64. */
  function U64(x: int): (r: nat)
    ensures r < TWO_TO_64
    decreases x < 0, if x < 0 then -x else x
  {
    if x < 0 then U64(x + TWO_TO_64) else if x < TWO_TO_64 then x else U64(x - TWO_TO_64)
  }

  /** The greatest time, 0 if there is none. */
  function Latest(times: seq<Time>): Time {
    if times == [] then 0
    else
      var front, last := Latest(times[..|times| - 1]), times[|times| - 1];
      if last > front then last else front
  }

  lemma {:induction false} LatestIsMax(times: seq<Time>)
    ensures forall k :: 0 <= k < |times| ==> times[k] <= Latest(times)
    ensures times != [] ==> Latest(times) in times
  {
    if times != [] {
      var front := times[..|times| - 1];
      LatestIsMax(front);
      assert forall k :: 0 <= k < |front| ==> times[k] == front[k];
      if Latest(times) in front { assert Latest(times) in times; }
    }
  }

  function CountAfter(times: seq<Time>, bound: int): nat {
    if times == [] then 0
    else CountAfter(times[..|times| - 1], bound) + if times[|times| - 1] > bound then 1 else 0
  }

  // ---- the IP decision ----

  /** The lockout settings as the bus delivers them. */
  datatype Conf = Conf(duration: int, threshold: int, interval: int)

  function IpLocked(times: seq<Time>, threshold: nat, interval: nat, unlock: nat, now: Time): bool {
    var latest := Latest(times);
    var failCnt := if U64(latest + unlock) < now then 0 else CountAfter(times, U64(latest - interval));
    threshold != 0 && failCnt >= threshold
  }

  /** The decision part of get_one_lock_status. */
  method LockStatus(records: seq<IpFailRecord>, threshold: nat, interval: nat, unlock: nat, now: Time)
    returns (locked: bool, start: Time)
    ensures locked == IpLocked(IpTimes(records), threshold, interval, unlock, now)
    ensures start == Latest(IpTimes(records))
  {
    hide U64;
    ghost var times := IpTimes(records);
    var latestTime: Time := 0;
    var failCnt := 0;
    assert times[..0] == [];
    for i := 0 to |records|
      invariant latestTime == Latest(times[..i])
    {
      assert times[..i + 1][..i] == times[..i];
      if records[i].timestamp > latestTime { latestTime := records[i].timestamp; }
    }
    var expOldestTime := U64(latestTime - interval);
    for i := 0 to |records|
      invariant failCnt == CountAfter(times[..i], expOldestTime)
    {
      assert times[..i + 1][..i] == times[..i];
      if expOldestTime < records[i].timestamp { failCnt := failCnt + 1; }
    }
    assert times[..|records|] == times;
    if U64(latestTime + unlock) < now { failCnt := 0; }
    return threshold != 0 && failCnt >= threshold, latestTime;
  }

  /** check_if_locked narrows the threshold to a guint8 and widens the other settings to guint64. */
  function IpLockedWith(times: seq<Time>, conf: Conf, now: Time): bool {
    IpLocked(times, conf.threshold % 256, U64(conf.interval), U64(conf.duration), now)
  }

  // ---- the user decision ----

  function ValidTimes(records: seq<TallyRecord>): seq<Time> {
    if records == [] then []
    else
      var last := records[|records| - 1];
      ValidTimes(records[..|records| - 1]) + if Valid(last) then [last.timestamp] else []
  }

  function FailInterval(unlock: nat, interval: int): nat {
    if interval == NO_INTERVAL then U64(unlock + TALLY_FAIL_INTERVAL_ADD_SECONDS) else U64(interval)
  }

  /** get_user_info: the failures that count and the time of the last one. */
  function TallyOf(times: seq<Time>, unlock: nat, interval: int, now: Time): (nat, Time) {
    var latest := Latest(times);
    if U64(latest + unlock) >= now then (CountAfter(times, latest - FailInterval(unlock, interval)), latest) else (0, 0)
  }

  lemma ValidTimesStep(records: seq<TallyRecord>, i: nat)
    requires i < |records|
    ensures var before, after := ValidTimes(records[..i]), ValidTimes(records[..i + 1]);
            after == if Valid(records[i]) then before + [records[i].timestamp] else before
  {
    assert records[..i + 1][..i] == records[..i];
  }

  lemma AppendOne(times: seq<Time>, t: Time, bound: int)
    ensures Latest(times + [t]) == if t > Latest(times) then t else Latest(times)
    ensures CountAfter(times + [t], bound) == CountAfter(times, bound) + if t > bound then 1 else 0
  {
  }

  method GetUserInfo(records: seq<TallyRecord>, unlock: nat, interval: int, now: Time) returns (failCnt: nat, failTime: Time)
    ensures (failCnt, failTime) == TallyOf(ValidTimes(records), unlock, interval, now)
  {
    var latestTime: Time := 0;
    var failures := 0;
    var failInterval := FailInterval(unlock, interval);
    assert records[..0] == [];
    for i := 0 to |records|
      invariant latestTime == Latest(ValidTimes(records[..i]))
    {
      ValidTimesStep(records, i);
      if !Valid(records[i]) { continue; }
      AppendOne(ValidTimes(records[..i]), records[i].timestamp, 0);
      if records[i].timestamp > latestTime { latestTime := records[i].timestamp; }
    }
    assert records[..|records|] == records;
    for i := 0 to |records|
      invariant failures == CountAfter(ValidTimes(records[..i]), latestTime - failInterval)
    {
      ValidTimesStep(records, i);
      if !Valid(records[i]) { continue; }
      AppendOne(ValidTimes(records[..i]), records[i].timestamp, latestTime - failInterval);
      if latestTime - records[i].timestamp < failInterval { failures := failures + 1; }
    }
    if U64(latestTime + unlock) >= now { return failures, latestTime; }
    return 0, 0;
  }

  /** The decision in uip_get_user_is_lock_by_username. */
  function UserLockedWith(times: seq<Time>, conf: Conf, now: Time): bool {
    conf.threshold != 0 && TallyOf(times, U64(conf.duration), conf.interval, now).0 >= conf.threshold
  }

  // ---- the history ----

  ghost predicate Sorted(h: seq<Time>) {
    |h| <= 1 || (Sorted(h[..|h| - 1]) && h[|h| - 2] <= h[|h| - 1])
  }

  lemma {:induction false} SortedPair(h: seq<Time>, i: nat, j: nat)
    requires Sorted(h) && i <= j < |h|
    ensures h[i] <= h[j]
  {
    if j < |h| - 1 {
      SortedPair(h[..|h| - 1], i, j);
    } else if i < j {
      SortedPair(h[..|h| - 1], i, |h| - 2);
    }
  }

  /** The decision over every failure ever recorded. */
  ghost predicate HistoryLocked(h: seq<Time>, conf: Conf, now: Time) {
    && conf.threshold != 0
    && now <= Latest(h) + conf.duration
    && CountAfter(h, Latest(h) - conf.interval) >= conf.threshold
  }

  function LastOf(h: seq<Time>, max: nat): seq<Time> {
    if |h| <= max then h else h[|h| - max..]
  }

  /** The buffer holds, in some order, the last max times of the history. */
  ghost predicate Window(buf: seq<Time>, h: seq<Time>, max: nat) {
    multiset(buf) == multiset(LastOf(h, max))
  }

  function Pushes(buf: seq<Time>, more: seq<Time>, max: nat): seq<Time>
    requires 0 < max
  {
    if more == [] then buf else Push(Pushes(buf, more[..|more| - 1], max), more[|more| - 1], max)
  }

  /** Replacing the oldest time drops the head of the window, whose times are sorted. */
  lemma ReplaceOldest(buf: seq<Time>, last: seq<Time>, now: Time)
    requires buf != [] && multiset(buf) == multiset(last) && |buf| == |last|
    requires forall k :: 0 <= k < |last| ==> last[0] <= last[k]
    ensures multiset(buf[Oldest(buf) := now]) == multiset(last[1..] + [now])
  {
    var o := Oldest(buf);
    assert buf[o] in multiset(last) && last[0] in multiset(buf);
    assert buf[o] == last[0];
    assert last == [last[0]] + last[1..];
    assert multiset(buf[o := now]) == multiset(buf) - multiset{buf[o]} + multiset{now};
  }

  lemma PushKeepsWindow(buf: seq<Time>, h: seq<Time>, now: Time, max: nat)
    requires 0 < max && Sorted(h) && Window(buf, h, max)
    ensures Window(Push(buf, now, max), h + [now], max)
  {
    var last := LastOf(h, max);
    SameSize(buf, last);
    LastOfSnoc(h, now, max);
    if |buf| == max {
      forall k | 0 <= k < |last| ensures last[0] <= last[k] { SortedPair(h, |h| - max, |h| - max + k); }
      ReplaceOldest(buf, last, now);
    }
  }

  lemma SameSize(a: seq<Time>, b: seq<Time>)
    requires multiset(a) == multiset(b)
    ensures |a| == |b|
  {
    assert |multiset(a)| == |a| && |multiset(b)| == |b|;
  }

  lemma LastOfSnoc(h: seq<Time>, now: Time, max: nat)
    requires 0 < max
    ensures LastOf(h + [now], max) == if |h| >= max then LastOf(h, max)[1..] + [now] else LastOf(h, max) + [now]
  {
  }

  /** After any run of failures at nondecreasing times the buffer holds the last min(n, max) of them. */
  lemma {:induction false} BufferIsWindow(h: seq<Time>, max: nat)
    requires 0 < max && Sorted(h)
    ensures Window(Pushes([], h, max), h, max)
  {
    if h == [] {
      assert LastOf(h, max) == [];
    } else {
      var front, last := h[..|h| - 1], h[|h| - 1];
      assert h == front + [last];
      assert Sorted(front);
      BufferIsWindow(front, max);
      PushKeepsWindow(Pushes([], front, max), front, last, max);
    }
  }

  // ---- the decisions depend on the window only ----

  lemma {:induction false} CountIsMultiset(a: seq<Time>, b: seq<Time>, bound: int)
    requires multiset(a) == multiset(b)
    ensures CountAfter(a, bound) == CountAfter(b, bound)
    decreases |a|
  {
    assert |multiset(a)| == |a| && |multiset(b)| == |b|;
    if a != [] {
      var front, t := a[..|a| - 1], a[|a| - 1];
      assert a == front + [t];
      assert t in multiset(b);
      var i :| 0 <= i < |b| && b[i] == t;
      assert b == b[..i] + [t] + b[i + 1..];
      assert multiset(b) == multiset(b[..i] + b[i + 1..]) + multiset{t};
      assert multiset(front) == multiset(a) - multiset{t};
      CountIsMultiset(front, b[..i] + b[i + 1..], bound);
      CountWithout(b, i, bound);
    }
  }

  lemma {:induction false} CountWithout(b: seq<Time>, i: nat, bound: int)
    requires i < |b|
    ensures CountAfter(b, bound) == CountAfter(b[..i] + b[i + 1..], bound) + if b[i] > bound then 1 else 0
    decreases |b|
  {
    if i == |b| - 1 {
      assert b[..i] + b[i + 1..] == b[..i];
    } else {
      var front := b[..|b| - 1];
      CountWithout(front, i, bound);
      var rest := b[..i] + b[i + 1..];
      assert rest[..|rest| - 1] == front[..i] + front[i + 1..];
    }
  }

  lemma LatestIsMultiset(a: seq<Time>, b: seq<Time>)
    requires multiset(a) == multiset(b)
    ensures Latest(a) == Latest(b)
  {
    assert |multiset(a)| == |a| && |multiset(b)| == |b|;
    LatestIsMax(a);
    LatestIsMax(b);
    if a != [] {
      assert Latest(a) in multiset(b) && Latest(b) in multiset(a);
    }
  }

  lemma {:induction false} CountAtMost(times: seq<Time>, bound: int)
    ensures CountAfter(times, bound) <= |times|
  {
    if times != [] { CountAtMost(times[..|times| - 1], bound); }
  }

  /** In a sorted history the failures after a bound are the last ones. */
  lemma {:induction false} CountInWindow(h: seq<Time>, max: nat, bound: int)
    requires Sorted(h)
    ensures CountAfter(LastOf(h, max), bound) == if CountAfter(h, bound) < max then CountAfter(h, bound) else max
    decreases |h|
  {
    CountAtMost(h, bound);
    if |h| <= max {
    } else if max == 0 {
      assert LastOf(h, 0) == [];
    } else {
      var front, last := h[..|h| - 1], h[|h| - 1];
      CountInWindow(front, max - 1, bound);
      assert LastOf(h, max)[..max - 1] == LastOf(front, max - 1);
      if last <= bound {
        forall k | 0 <= k < |h| ensures h[k] <= bound { SortedPair(h, k, |h| - 1); }
        NoneAfter(h, bound);
      }
    }
  }

  lemma {:induction false} NoneAfter(h: seq<Time>, bound: int)
    requires forall k :: 0 <= k < |h| ==> h[k] <= bound
    ensures CountAfter(h, bound) == 0
  {
    if h != [] { NoneAfter(h[..|h| - 1], bound); }
  }

  lemma LatestOfWindow(h: seq<Time>, max: nat)
    requires 0 < max && Sorted(h)
    ensures Latest(LastOf(h, max)) == Latest(h)
  {
    var last := LastOf(h, max);
    LatestIsMax(h);
    LatestIsMax(last);
    if |h| > max {
      assert last[max - 1] == h[|h| - 1];
      var i :| 0 <= i < |h| && h[i] == Latest(h);
      SortedPair(h, i, |h| - 1);
      var j :| 0 <= j < |last| && last[j] == Latest(last);
      SortedPair(h, |h| - max + j, |h| - 1);
    }
  }

  lemma WindowAgrees(buf: seq<Time>, h: seq<Time>, max: nat, bound: int)
    requires 0 < max && Sorted(h) && Window(buf, h, max)
    ensures Latest(buf) == Latest(h)
    ensures CountAfter(buf, bound) == if CountAfter(h, bound) < max then CountAfter(h, bound) else max
  {
    var last := LastOf(h, max);
    LatestIsMultiset(buf, last);
    CountIsMultiset(buf, last, bound);
    CountInWindow(h, max, bound);
    LatestOfWindow(h, max);
  }

  /** Nonnegative gint32 settings, and times a time_t can hold. */
  predicate Sane(conf: Conf, latest: Time) {
    0 <= conf.duration < 0x8000_0000 && 0 <= conf.interval < 0x8000_0000 && latest < 0x8000_0000_0000_0000
  }

  lemma SaneConversions(conf: Conf, latest: Time)
    requires Sane(conf, latest)
    ensures U64(conf.duration) == conf.duration && U64(conf.interval) == conf.interval
    ensures U64(latest + conf.duration) == latest + conf.duration
    ensures conf.interval <= latest ==> U64(latest - conf.interval) == latest - conf.interval
    ensures conf.interval > latest ==> U64(latest - conf.interval) >= latest
  {
  }

  /** The settings with the threshold check_if_locked passes on. */
  function Narrowed(conf: Conf): Conf {
    conf.(threshold := conf.threshold % 256)
  }

  /** For every threshold the IP decision over the 100 stored records is the decision over the whole history with the
      narrowed threshold, except that a narrowed threshold above the capacity never locks, nor does a window reaching
      back before the epoch, which wraps around. */
  lemma IpDecisionIsHistory(buf: seq<Time>, h: seq<Time>, conf: Conf, now: Time)
    requires Sorted(h) && Window(buf, h, MAX_RECORD_CNT) && Sane(conf, Latest(h))
    ensures IpLockedWith(buf, conf, now) <==>
            Narrowed(conf).threshold <= MAX_RECORD_CNT && conf.interval <= Latest(h) && HistoryLocked(h, Narrowed(conf), now)
  {
    WindowAgrees(buf, h, MAX_RECORD_CNT, U64(Latest(h) - conf.interval));
    CountedDecision(buf, h, conf, now);
  }

  lemma CountedDecision(buf: seq<Time>, h: seq<Time>, conf: Conf, now: Time)
    requires Sane(conf, Latest(h)) && Latest(buf) == Latest(h)
    requires var bound := U64(Latest(h) - conf.interval);
             CountAfter(buf, bound) == if CountAfter(h, bound) < MAX_RECORD_CNT then CountAfter(h, bound) else MAX_RECORD_CNT
    ensures IpLockedWith(buf, conf, now) <==>
            Narrowed(conf).threshold <= MAX_RECORD_CNT && conf.interval <= Latest(h) && HistoryLocked(h, Narrowed(conf), now)
  {
    SaneConversions(conf, Latest(h));
    IpLockedIs(buf, conf, now);
    NarrowedHistoryIs(h, conf, now);
    if conf.interval > Latest(h) { NoneBeyondLatest(buf, U64(Latest(h) - conf.interval)); }
    hide *;
  }

  lemma NarrowedHistoryIs(h: seq<Time>, conf: Conf, now: Time)
    ensures var k := Narrowed(conf).threshold;
            k >= 0 &&
            (HistoryLocked(h, Narrowed(conf), now) <==>
             k != 0 && now <= Latest(h) + conf.duration && CountAfter(h, Latest(h) - conf.interval) >= k)
  {
  }

  lemma NarrowedKeeps(conf: Conf)
    ensures 0 <= conf.threshold <= MAX_RECORD_CNT ==> Narrowed(conf) == conf
  {
  }

  /** For thresholds up to 100 that is the decision over the whole history itself. */
  lemma IpDecisionUpToCapacity(buf: seq<Time>, h: seq<Time>, conf: Conf, now: Time)
    requires Sorted(h) && Window(buf, h, MAX_RECORD_CNT) && Sane(conf, Latest(h)) && 0 <= conf.threshold <= MAX_RECORD_CNT
    ensures IpLockedWith(buf, conf, now) <==> conf.interval <= Latest(h) && HistoryLocked(h, conf, now)
  {
    IpDecisionIsHistory(buf, h, conf, now);
    NarrowedKeeps(conf);
    hide Sorted, Window, Latest, HistoryLocked, IpLockedWith, Narrowed;
  }

  /** The decision with its conversions carried out. */
  lemma IpLockedIs(buf: seq<Time>, conf: Conf, now: Time)
    requires Sane(conf, Latest(buf))
    ensures IpLockedWith(buf, conf, now) <==>
            Narrowed(conf).threshold != 0 && now <= Latest(buf) + conf.duration &&
            CountAfter(buf, U64(Latest(buf) - conf.interval)) >= Narrowed(conf).threshold
  {
  }

  lemma NoneBeyondLatest(buf: seq<Time>, bound: int)
    requires Latest(buf) <= bound
    ensures CountAfter(buf, bound) == 0
  {
  }

  /** The user decision over the 1024 stored records is the decision over the whole history. */
  lemma UserDecisionIsHistory(buf: seq<Time>, h: seq<Time>, conf: Conf, now: Time)
    requires Sorted(h) && Window(buf, h, MAX_RECORDS) && Sane(conf, Latest(h)) && 0 <= conf.threshold <= MAX_RECORDS
    ensures UserLockedWith(buf, conf, now) <==> HistoryLocked(h, conf, now)
  {
    SaneConversions(conf, Latest(h));
    WindowAgrees(buf, h, MAX_RECORDS, Latest(h) - conf.interval);
  }

  /** On equal histories the two decisions agree, for every threshold the smaller buffer can hold. */
  lemma IpAndUserAgree(ip: seq<Time>, user: seq<Time>, h: seq<Time>, conf: Conf, now: Time)
    requires Sorted(h) && Window(ip, h, MAX_RECORD_CNT) && Window(user, h, MAX_RECORDS)
    requires Sane(conf, Latest(h)) && 0 <= conf.threshold <= MAX_RECORD_CNT && conf.interval <= Latest(h)
    ensures IpLockedWith(ip, conf, now) == UserLockedWith(user, conf, now)
  {
    IpDecisionUpToCapacity(ip, h, conf, now);
    UserDecisionIsHistory(user, h, conf, now);
  }

  /** Beyond its capacity a buffer never locks: the narrowed IP threshold above 100, the user threshold above 1024. */
  lemma BeyondCapacityNeverLocks(ip: seq<Time>, user: seq<Time>, conf: Conf, now: Time)
    requires |ip| <= MAX_RECORD_CNT && |user| <= MAX_RECORDS
    ensures conf.threshold % 256 > MAX_RECORD_CNT ==> !IpLockedWith(ip, conf, now)
    ensures conf.threshold > MAX_RECORDS ==> !UserLockedWith(user, conf, now)
  {
    CountAtMost(ip, U64(Latest(ip) - U64(conf.interval)));
    CountAtMost(user, Latest(user) - FailInterval(U64(conf.duration), conf.interval));
  }
}
