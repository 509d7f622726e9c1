/** What get_user_info reports about a user, in terms of the stored records and of the whole history of failures. */
module UserTally {
  import opened FailureBuffer
  import opened LockDecision

  // ---- the records ----

  predicate MarkedValid(r: TallyRecord) { r.status % 2 == 1 }

  /** One of the records is valid and from time t. */
  ghost predicate ValidAt(records: seq<TallyRecord>, t: Time) {
    exists k :: 0 <= k < |records| && MarkedValid(records[k]) && records[k].timestamp == t
  }

  /** t is the greatest time of a valid record, 0 if there is none. */
  ghost predicate IsLatestValid(records: seq<TallyRecord>, t: Time) {
    && (forall u: Time :: ValidAt(records, u) ==> u <= t)
    && (ValidAt(records, t) || (t == 0 && forall u: Time :: !ValidAt(records, u)))
  }

  /** The positions of the valid records later than the bound. */
  ghost function LaterValid(records: seq<TallyRecord>, bound: int): set<nat> {
    set k | 0 <= k < |records| && MarkedValid(records[k]) && records[k].timestamp > bound
  }

  lemma {:induction false} ValidTimesHold(records: seq<TallyRecord>, t: Time)
    ensures t in ValidTimes(records) <==> ValidAt(records, t)
  {
    if records != [] {
      var front, last := records[..|records| - 1], records[|records| - 1];
      ValidTimesHold(front, t);
      if ValidAt(front, t) {
        var k :| 0 <= k < |front| && MarkedValid(front[k]) && front[k].timestamp == t;
        assert records[k] == front[k];
      }
      if ValidAt(records, t) {
        var k :| 0 <= k < |records| && MarkedValid(records[k]) && records[k].timestamp == t;
        if k < |front| { assert front[k] == records[k]; }
      }
    }
  }

  lemma LatestIsValid(records: seq<TallyRecord>)
    ensures IsLatestValid(records, Latest(ValidTimes(records)))
  {
    hide ValidTimes, Latest, ValidAt;
    LatestIsMax(ValidTimes(records));
    forall u: Time ensures u in ValidTimes(records) <==> ValidAt(records, u) { ValidTimesHold(records, u); }
    if ValidTimes(records) == [] { EmptyLatest(); }
  }

  lemma EmptyLatest()
    ensures Latest([]) == 0
  {
  }

  lemma {:induction false} CountIsLaterValid(records: seq<TallyRecord>, bound: int)
    ensures CountAfter(ValidTimes(records), bound) == |LaterValid(records, bound)|
  {
    if records == [] {
      assert LaterValid(records, bound) == {};
    } else {
      var front, last := records[..|records| - 1], records[|records| - 1];
      CountIsLaterValid(front, bound);
      AppendOne(ValidTimes(front), last.timestamp, bound);
      LaterValidStep(records, bound);
      hide CountAfter, LaterValid;
      if !MarkedValid(last) { assert ValidTimes(records) == ValidTimes(front); }
    }
  }

  lemma LaterValidStep(records: seq<TallyRecord>, bound: int)
    requires records != []
    ensures var front, last := records[..|records| - 1], records[|records| - 1];
            |LaterValid(records, bound)| == |LaterValid(front, bound)| + if MarkedValid(last) && last.timestamp > bound then 1 else 0
  {
    var front, last := records[..|records| - 1], records[|records| - 1];
    assert LaterValid(records, bound) ==
           LaterValid(front, bound) + if MarkedValid(last) && last.timestamp > bound then {|front|} else {};
  }

  /** One valid time only is the greatest one. */
  lemma LatestIsUnique(records: seq<TallyRecord>, t: Time)
    requires IsLatestValid(records, t)
    ensures Latest(ValidTimes(records)) == t
  {
    LatestIsValid(records);
  }

  /** The width of the window in which failures count: 300 seconds more than the lock where the caller gives none. */
  function Width(unlock: nat, interval: int): int {
    if interval == -1 then unlock + 300 else interval
  }

  lemma WidthKept(unlock: nat, interval: int)
    requires -1 <= interval < 0x8000_0000_0000_0000 && unlock < 0x8000_0000_0000_0000
    ensures FailInterval(unlock, interval) == Width(unlock, interval)
  {
  }

  /** Conversion to 64 bits is reduction modulo 2 to the 64. */
  lemma {:induction false} U64IsModulo(x: int)
    ensures exists k: int :: x == U64(x) + k * TWO_TO_64
    decreases x < 0, if x < 0 then -x else x
  {
    if x < 0 {
      U64IsModulo(x + TWO_TO_64);
      var k: int :| x + TWO_TO_64 == U64(x + TWO_TO_64) + k * TWO_TO_64;
      assert x == U64(x) + (k - 1) * TWO_TO_64;
    } else if x >= TWO_TO_64 {
      U64IsModulo(x - TWO_TO_64);
      var k: int :| x - TWO_TO_64 == U64(x - TWO_TO_64) + k * TWO_TO_64;
      assert x == U64(x) + (k + 1) * TWO_TO_64;
    } else {
      assert x == U64(x) + 0 * TWO_TO_64;
    }
  }

  /** While the tally is live, the time reported is the greatest of a valid record and the count is that of the valid
      records less than the width before it; afterwards both are zero. */
  lemma TallyOfRecords(records: seq<TallyRecord>, unlock: nat, interval: int, now: Time, latest: Time)
    requires IsLatestValid(records, latest)
    requires -1 <= interval < 0x8000_0000_0000_0000 && unlock < 0x8000_0000_0000_0000 && latest < 0x8000_0000_0000_0000
    ensures TallyOf(ValidTimes(records), unlock, interval, now) ==
            if now <= latest + unlock then (|LaterValid(records, latest - Width(unlock, interval))|, latest) else (0, 0)
  {
    LatestIsUnique(records, latest);
    CountIsLaterValid(records, latest - Width(unlock, interval));
    WidthKept(unlock, interval);
    LiveKept(latest, unlock);
    hide U64, ValidTimes, Latest, FailInterval;
  }

  lemma LiveKept(latest: Time, unlock: nat)
    requires unlock < 0x8000_0000_0000_0000 && latest < 0x8000_0000_0000_0000
    ensures U64(latest + unlock) == latest + unlock
  {
  }

  // ---- the history ----

  /** The positions of the times later than the bound. */
  ghost function Later(h: seq<Time>, bound: int): set<nat> {
    set k | 0 <= k < |h| && h[k] > bound
  }

  lemma {:induction false} CountIsLater(h: seq<Time>, bound: int)
    ensures CountAfter(h, bound) == |Later(h, bound)|
  {
    if h == [] {
      assert Later(h, bound) == {};
    } else {
      var front, last := h[..|h| - 1], h[|h| - 1];
      CountIsLater(front, bound);
      assert Later(h, bound) == Later(front, bound) + if last > bound then {|front|} else {};
    }
  }

  lemma LatestIsLast(h: seq<Time>)
    requires Sorted(h)
    ensures Latest(h) == if h == [] then 0 else h[|h| - 1]
  {
    LatestIsMax(h);
    if h != [] {
      var i :| 0 <= i < |h| && h[i] == Latest(h);
      SortedPair(h, i, |h| - 1);
    }
  }

  /** From a buffer that holds the last 1024 failures of a history: while the lock time after the last failure has not
      passed, that failure's time and the number of failures in the window before it, up to 1024; afterwards zero. */
  lemma TallyIsHistory(buf: seq<Time>, h: seq<Time>, unlock: nat, interval: int, now: Time)
    requires h != [] && Sorted(h) && Window(buf, h, MAX_RECORDS)
    requires -1 <= interval < 0x8000_0000_0000_0000 && unlock < 0x8000_0000_0000_0000 && h[|h| - 1] < 0x8000_0000_0000_0000
    ensures var last := h[|h| - 1];
            var failures := |Later(h, last - Width(unlock, interval))|;
            TallyOf(buf, unlock, interval, now) ==
            if now <= last + unlock then (if failures < 1024 then failures else 1024, last) else (0, 0)
  {
    var last := h[|h| - 1];
    LatestIsLast(h);
    CountIsLater(h, last - Width(unlock, interval));
    WindowAgrees(buf, h, MAX_RECORDS, last - Width(unlock, interval));
    WidthKept(unlock, interval);
    LiveKept(last, unlock);
    hide U64, Latest, FailInterval, Sorted, Window;
  }

  /** So it is after every run of recorded failures on a clock that does not run back. */
  lemma TallyAfterRun(h: seq<Time>, unlock: nat, interval: int, now: Time)
    requires h != [] && Sorted(h)
    requires -1 <= interval < 0x8000_0000_0000_0000 && unlock < 0x8000_0000_0000_0000 && h[|h| - 1] < 0x8000_0000_0000_0000
    ensures var last := h[|h| - 1];
            var failures := |Later(h, last - Width(unlock, interval))|;
            TallyOf(Pushes([], h, MAX_RECORDS), unlock, interval, now) ==
            if now <= last + unlock then (if failures < 1024 then failures else 1024, last) else (0, 0)
  {
    BufferIsWindow(h, MAX_RECORDS);
    TallyIsHistory(Pushes([], h, MAX_RECORDS), h, unlock, interval, now);
  }
}
