/** The two bounded failure buffers (per IP and per user) and the history of failures they stand for. */
module FailureBuffer {
  const MAX_RECORD_CNT := 100
  const MAX_RECORDS := 1024
  const FAILLOCK_RECORD_VALID := 0x1
  const FAILLOCK_SOURCE_RHOST := 0x2

  /** Seconds since the epoch. */
  type Time = nat

  datatype IpFailRecord = IpFailRecord(recordName: string, timestamp: Time)
  datatype TallyRecord = TallyRecord(recordName: string, status: nat, timestamp: Time)

  // ---- the buffer as a sequence of times ----

  /** The first position of the smallest time. */
  function Oldest(times: seq<Time>): (r: nat)
    requires times != []
    ensures r < |times|
    ensures forall k :: 0 <= k < |times| ==> times[r] <= times[k]
    ensures forall k :: 0 <= k < r ==> times[r] < times[k]
  {
    if |times| == 1 then 0
    else
      var front := Oldest(times[..|times| - 1]);
      if times[|times| - 1] < times[front] then |times| - 1 else front
  }

  /** A failure is appended, or takes the place of the oldest one when the buffer is full. */
  function Push(times: seq<Time>, now: Time, max: nat): seq<Time>
    requires 0 < max
  {
    if |times| == max then times[Oldest(times) := now] else times + [now]
  }

  function IpTimes(records: seq<IpFailRecord>): (r: seq<Time>)
    ensures |r| == |records| && forall k :: 0 <= k < |r| ==> r[k] == records[k].timestamp
  {
    seq(|records|, k requires 0 <= k < |records| => records[k].timestamp)
  }

  function PushRecord(records: seq<IpFailRecord>, now: Time): seq<IpFailRecord> {
    if |records| == MAX_RECORD_CNT then records[Oldest(IpTimes(records)) := IpFailRecord("Ip", now)]
    else records + [IpFailRecord("Ip", now)]
  }

  lemma PushRecordTimes(records: seq<IpFailRecord>, now: Time)
    ensures IpTimes(PushRecord(records, now)) == Push(IpTimes(records), now, MAX_RECORD_CNT)
  {
  }

  /** update_record of ip_lock.c: `cnt` of the 100 slots are in use. */
  method UpdateRecord(now: Time, cnt: nat, records: array<IpFailRecord>) returns (newCnt: nat)
    requires cnt <= records.Length == MAX_RECORD_CNT
    modifies records
    ensures newCnt <= MAX_RECORD_CNT
    ensures records[..newCnt] == PushRecord(old(records[..cnt]), now)
  {
    var locIdx := 0;
    ghost var times := IpTimes(records[..cnt]);
    newCnt := cnt;
    if cnt == MAX_RECORD_CNT {
      var oldestTime := records[0].timestamp;
      for i := 1 to cnt
        invariant locIdx < i && oldestTime == times[locIdx]
        invariant forall k :: 0 <= k < i ==> oldestTime <= times[k]
        invariant forall k :: 0 <= k < locIdx ==> oldestTime < times[k]
      {
        assert records[i].timestamp == times[i];
        if records[i].timestamp < oldestTime {
          oldestTime := records[i].timestamp;
          locIdx := i;
        }
      }
      OldestIs(times, locIdx);
    } else {
      locIdx := cnt;
      newCnt := cnt + 1;
    }
    records[locIdx] := IpFailRecord("Ip", now);
  }

  lemma OldestIs(times: seq<Time>, r: nat)
    requires r < |times|
    requires forall k :: 0 <= k < |times| ==> times[r] <= times[k]
    requires forall k :: 0 <= k < r ==> times[r] < times[k]
    ensures Oldest(times) == r
  {
  }

  function TallyTimes(records: seq<TallyRecord>): (r: seq<Time>)
    ensures |r| == |records| && forall k :: 0 <= k < |r| ==> r[k] == records[k].timestamp
  {
    seq(|records|, k requires 0 <= k < |records| => records[k].timestamp)
  }

  function Entry(now: Time): TallyRecord {
    TallyRecord("User", FAILLOCK_RECORD_VALID + FAILLOCK_SOURCE_RHOST, now)
  }

  function PushTally(records: seq<TallyRecord>, now: Time): seq<TallyRecord> {
    if |records| == MAX_RECORDS then records[Oldest(TallyTimes(records)) := Entry(now)] else records + [Entry(now)]
  }

  predicate Valid(r: TallyRecord) { r.status % 2 == FAILLOCK_RECORD_VALID }

  /** On the times that is the same push, and valid records stay valid. */
  lemma PushTallyTimes(records: seq<TallyRecord>, now: Time)
    ensures TallyTimes(PushTally(records, now)) == Push(TallyTimes(records), now, MAX_RECORDS)
    ensures (forall r :: r in records ==> Valid(r)) ==> forall r :: r in PushTally(records, now) ==> Valid(r)
  {
  }

  /** Record o is the first of those with the smallest time. */
  ghost predicate IsFirstOldest(times: seq<Time>, o: int) {
    0 <= o < |times| && (forall k :: 0 <= k < |times| ==> times[o] <= times[k]) && forall k :: 0 <= k < o ==> times[o] < times[k]
  }

  /** What a recorded failure leaves, record by record: below the capacity all earlier ones and the new one behind them,
      at the capacity the new one in the place of the oldest. */
  lemma PushedRecords(ip: seq<IpFailRecord>, user: seq<TallyRecord>, now: Time, o: nat)
    ensures |ip| < 100 ==> PushRecord(ip, now) == ip + [IpFailRecord("Ip", now)]
    ensures |ip| == 100 && IsFirstOldest(IpTimes(ip), o) ==> PushRecord(ip, now) == ip[o := IpFailRecord("Ip", now)]
    ensures |user| < 1024 ==> PushTally(user, now) == user + [TallyRecord("User", 3, now)]
    ensures |user| == 1024 && IsFirstOldest(TallyTimes(user), o) ==> PushTally(user, now) == user[o := TallyRecord("User", 3, now)]
  {
    if IsFirstOldest(IpTimes(ip), o) { OldestIs(IpTimes(ip), o); }
    if IsFirstOldest(TallyTimes(user), o) { OldestIs(TallyTimes(user), o); }
  }

  /** The records of one user, grown one at a time up to 1024. */
  class TallyData {
    var records: array<TallyRecord>

    constructor (stored: seq<TallyRecord>)
      ensures fresh(records) && records[..] == stored
    {
      records := new TallyRecord[|stored|](i requires 0 <= i < |stored| => stored[i]);
      new;
      assert records[..] == stored;
    }

    /** update_tally of pam_tally_ext.c */
    method UpdateTally(now: Time)
      requires records.Length <= MAX_RECORDS
      modifies this, records
      ensures records == old(records) || fresh(records)
      ensures records[..] == PushTally(old(records[..]), now)
      ensures TallyTimes(records[..]) == Push(old(TallyTimes(records[..])), now, MAX_RECORDS)
    {
      PushTallyTimes(records[..], now);
      var locIdx := 0;
      ghost var times := TallyTimes(records[..]);
      ghost var before := records[..];
      var entry := Entry(now);
      if records.Length == MAX_RECORDS {
        var oldestTime := records[0].timestamp;
        for i := 1 to records.Length
          invariant records == old(records) && records[..] == before
          invariant locIdx < i && oldestTime == times[locIdx]
          invariant forall k :: 0 <= k < i ==> oldestTime <= times[k]
          invariant forall k :: 0 <= k < locIdx ==> oldestTime < times[k]
        {
          assert records[i].timestamp == times[i];
          if records[i].timestamp < oldestTime {
            oldestTime := records[i].timestamp;
            locIdx := i;
          }
        }
        OldestIs(times, locIdx);
      } else {
        var count, data := records.Length, records;
        var newdata := new TallyRecord[count + 1](_ => entry);
        forall i | 0 <= i < count { newdata[i] := data[i]; }
        records := newdata;
        locIdx := count;
        assert records[..] == before + [entry];
      }
      records[locIdx] := entry;
      assert records[..] == if |before| == MAX_RECORDS then before[locIdx := entry] else before + [entry];
    }
  }
}
