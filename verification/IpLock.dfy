/** The per-IP failure records: a directory of record files and the capped table of tracked addresses. */
module IpLock {
  import opened CText
  import FiniteSets
  import opened FailureBuffer
  import opened LockDecision
  import opened IpAddress
  import LockRun

  const MAX_IP_RECORD_CNT := 1000

  datatype State = State(tracked: set<string>, files: map<string, seq<IpFailRecord>>)

  /** A name under which a record file can exist in the directory. */
  predicate FileName(name: string) {
    name != [] && name != "." && name != ".." && '/' !in name
  }

  /** What one call depends on besides the state: the settings if the bus delivers them, the clock, and whether
      the file system lets files be ok. */
  datatype World = World(conf: Option<Conf>, now: Time, canOpen: bool)

  predicate Opens(w: World, name: string) { w.canOpen && FileName(name) }

  function Stored(s: State, name: string): seq<IpFailRecord> {
    if name in s.files then s.files[name] else []
  }

  /** Opening in append mode creates a missing file. */
  function Touched(s: State, name: string): State {
    s.(files := s.files[name := Stored(s, name)])
  }

  /** get_one_lock_status on the state: the file of the stripped name comes into being. */
  function AfterStatus(s: State, ip: string, w: World): State {
    match RemovePort(ip)
    case None => s
    case Some(name) => if Opens(w, name) then Touched(s, name) else s
  }

  /** check_if_locked; every failure on the way counts as "not locked". */
  predicate CheckedLocked(s: State, ip: string, w: World) {
    && w.conf.Some? && RemovePort(ip).Some? && Opens(w, RemovePort(ip).value)
    && IpLockedWith(IpTimes(Stored(s, RemovePort(ip).value)), w.conf.value, w.now)
  }

  function AfterCheck(s: State, ip: string, w: World): State {
    if w.conf.Some? then AfterStatus(s, ip, w) else s
  }

  /** increase_fail_record */
  function AfterIncrease(s: State, ip: string, check: bool, w: World): (State, int) {
    match RemovePort(ip)
    case None => (s, RET_ERR)
    case Some(name) =>
      if name !in s.tracked && |s.tracked| >= MAX_IP_RECORD_CNT then (s, RET_ERR)
      else
        var s1 := s.(tracked := s.tracked + {name});
        var s2 := if check then AfterCheck(s1, name, w) else s1;
        if check && CheckedLocked(s1, name, w) then (s2, RET_OK)
        else if !Opens(w, name) then (s2, RET_ERR)
        else (s2.(files := s2.files[name := PushRecord(Stored(s2, name), w.now)]), RET_OK)
  }

  /** clean_fail_record */
  function AfterClean(s: State, ip: string): (State, int) {
    match RemovePort(ip)
    case None => (s, RET_ERR)
    case Some(name) => (State(s.tracked - {name}, s.files - {name}), RET_OK)
  }

  /** The names clean_all_fail_record asks to clean, as cleaning reads them. */
  function CleanedNames(names: set<string>): set<string> {
    set n | n in names && RemovePort(n).Some? :: RemovePort(n).value
  }

  function AfterCleanAll(s: State): State {
    State(s.tracked - CleanedNames(s.files.Keys), s.files - CleanedNames(s.files.Keys))
  }

  // ---- the code ----

  class IpFailTable {
    var tracked: set<string>
    var files: map<string, seq<IpFailRecord>>

    ghost function Now(): State
      reads this
    {
      State(tracked, files)
    }

    constructor ()
      ensures Now() == State({}, map[])
    {
      tracked, files := {}, map[];
    }

    /** Opens a record file for appending and reads it: at most its first 100 records. */
    method OpenAndRead(name: string, w: World) returns (ok: bool, records: seq<IpFailRecord>)
      requires forall n :: n in files ==> |files[n]| <= MAX_RECORD_CNT
      modifies this`files
      ensures ok == Opens(w, name)
      ensures Now() == if ok then Touched(old(Now()), name) else old(Now())
      ensures ok ==> records == Stored(old(Now()), name) && |records| <= MAX_RECORD_CNT
    {
      ok, records := Opens(w, name), [];
      if ok {
        if name in files { records := files[name]; }
        files := files[name := records];
      }
    }

    /** check_if_increase_record_cnt */
    method Track(name: string) returns (ret: int)
      modifies this`tracked
      ensures if name in old(tracked) || |old(tracked)| < MAX_IP_RECORD_CNT
              then ret == RET_OK && tracked == old(tracked) + {name}
              else ret == RET_ERR && tracked == old(tracked)
    {
      if name in tracked {
        assert tracked == tracked + {name};
        return RET_OK;
      }
      if |tracked| >= MAX_IP_RECORD_CNT { return RET_ERR; }
      tracked := tracked + {name};
      return RET_OK;
    }

    method GetOneLockStatus(ip: string, threshold: nat, interval: nat, unlock: nat, w: World)
      returns (ret: int, locked: bool, start: Time)
      requires forall n :: n in files ==> |files[n]| <= MAX_RECORD_CNT
      modifies this`files
      ensures Now() == AfterStatus(old(Now()), ip, w)
      ensures ret == if RemovePort(ip).Some? && Opens(w, RemovePort(ip).value) then RET_OK else RET_ERR
      ensures ret == RET_OK ==>
                var times := IpTimes(Stored(old(Now()), RemovePort(ip).value));
                locked == IpLocked(times, threshold, interval, unlock, w.now) && start == Latest(times)
      ensures ret != RET_OK ==> !locked
    {
      var clean := RemovePort(ip);
      if clean.None? { return RET_ERR, false, 0; }
      var ok, records := OpenAndRead(clean.value, w);
      if !ok { return RET_ERR, false, 0; }
      locked, start := LockStatus(records, threshold, interval, unlock, w.now);
      return RET_OK, locked, start;
    }

    method CheckIfLocked(ip: string, w: World) returns (locked: bool)
      requires forall n :: n in files ==> |files[n]| <= MAX_RECORD_CNT
      modifies this`files
      ensures Now() == AfterCheck(old(Now()), ip, w)
      ensures locked == CheckedLocked(old(Now()), ip, w)
    {
      if w.conf.None? { return false; }
      var conf := w.conf.value;
      var ret, status, start := GetOneLockStatus(ip, conf.threshold % 256, U64(conf.interval), U64(conf.duration), w);
      return ret == RET_OK && status;
    }

    method IncreaseFailRecord(ip: string, check: bool, w: World) returns (ret: int)
      requires forall n :: n in files ==> |files[n]| <= MAX_RECORD_CNT
      modifies this
      ensures (Now(), ret) == AfterIncrease(old(Now()), ip, check, w)
    {
      hide RemovePort, CheckedLocked, FileName;
      var clean := RemovePort(ip);
      if clean.None? { return RET_ERR; }
      var name := clean.value;
      ret := Track(name);
      if ret != RET_OK { return RET_ERR; }
      if check {
        var locked := CheckIfLocked(name, w);
        if locked { return RET_OK; }
      }
      ret := StoreFailure(name, w);
    }

    /** The last part of increase_fail_record: the record file is read, updated and written back. */
    method StoreFailure(name: string, w: World) returns (ret: int)
      requires forall n :: n in files ==> |files[n]| <= MAX_RECORD_CNT
      modifies this`files
      ensures ret == if Opens(w, name) then RET_OK else RET_ERR
      ensures tracked == old(tracked)
      ensures files == if Opens(w, name) then old(files)[name := PushRecord(Stored(old(Now()), name), w.now)] else old(files)
    {
      hide FileName;
      ghost var before := files;
      var ok, stored := OpenAndRead(name, w);
      if !ok { return RET_ERR; }
      var slot := new IpFailRecord[MAX_RECORD_CNT](i => if 0 <= i < |stored| then stored[i] else IpFailRecord("", 0));
      assert slot[..|stored|] == stored;
      var cnt := UpdateRecord(w.now, |stored|, slot);
      files := files[name := slot[..cnt]];
      assert files == before[name := PushRecord(stored, w.now)];
      return RET_OK;
    }

    method CleanFailRecord(ip: string) returns (ret: int)
      modifies this
      ensures (Now(), ret) == AfterClean(old(Now()), ip)
    {
      var clean := RemovePort(ip);
      if clean.None? { return RET_ERR; }
      files := files - {clean.value};
      tracked := tracked - {clean.value};
      return RET_OK;
    }

    /** clean_all_fail_record over a snapshot of the directory. */
    method CleanAllFailRecord()
      modifies this
      ensures Now() == AfterCleanAll(old(Now()))
    {
      var left := files.Keys;
      ghost var start, cleaned := Now(), {};
      while left != {}
        invariant cleaned + left == start.files.Keys
        invariant Now() == State(start.tracked - CleanedNames(cleaned), start.files - CleanedNames(cleaned))
        decreases left
      {
        var name :| name in left;
        var ret := CleanFailRecord(name);
        left := left - {name};
        assert CleanedNames(cleaned + {name}) ==
               CleanedNames(cleaned) + if RemovePort(name).Some? then {RemovePort(name).value} else {};
        cleaned := cleaned + {name};
      }
      assert cleaned == start.files.Keys;
    }
  }

  // ---- runs ----

  datatype Event =
    | Increase(ip: string, check: bool, w: World)
    | Clean(ip: string)
    | CleanAll
    | Status(ip: string, w: World)

  function Step(s: State, e: Event): State {
    match e
    case Increase(ip, check, w) => AfterIncrease(s, ip, check, w).0
    case Clean(ip) => AfterClean(s, ip).0
    case CleanAll => AfterCleanAll(s)
    case Status(ip, w) => AfterStatus(s, ip, w)
  }

  function Run(events: seq<Event>): State {
    if events == [] then State({}, map[]) else Step(Run(events[..|events| - 1]), events[|events| - 1])
  }

  /** What every name a record file can get has in common. */
  predicate RecordName(n: string) {
    FileName(n) && |n| < MAX_IP_LENGTH && (n[0] == '[' ==> ']' !in n)
  }

  ghost predicate Good(s: State) {
    && |s.tracked| <= MAX_IP_RECORD_CNT
    && (forall n :: n in s.files ==> |s.files[n]| <= MAX_RECORD_CNT && RecordName(n))
    && (forall n :: n in s.files && s.files[n] != [] ==> n in s.tracked)
  }

  lemma StoreKeepsGood(s: State, name: string, records: seq<IpFailRecord>)
    requires Good(s) && RecordName(name) && |records| <= MAX_RECORD_CNT && (records != [] ==> name in s.tracked)
    ensures Good(s.(files := s.files[name := records]))
  {
    hide RecordName;
  }

  lemma StatusKeepsGood(s: State, ip: string, w: World)
    requires Good(s)
    ensures Good(AfterStatus(s, ip, w))
  {
    if RemovePort(ip).Some? {
      StrippedForm(ip);
      var name := RemovePort(ip).value;
      hide RemovePort, FileName;
      if Opens(w, name) { StoreKeepsGood(s, name, Stored(s, name)); }
    }
  }

  lemma IncreaseKeepsGood(s: State, ip: string, check: bool, w: World)
    requires Good(s)
    ensures Good(AfterIncrease(s, ip, check, w).0)
  {
    if RemovePort(ip).Some? {
      StrippedForm(ip);
      hide RemovePort, FileName, CheckedLocked, PushRecord;
      var name := RemovePort(ip).value;
      if name in s.tracked || |s.tracked| < MAX_IP_RECORD_CNT {
        var s1 := s.(tracked := s.tracked + {name});
        assert name in s.tracked ==> s.tracked + {name} == s.tracked;
        StatusKeepsGood(s1, name, w);
        hide Good;
        var s2 := if check then AfterCheck(s1, name, w) else s1;
        if Opens(w, name) {
          PushedFits(s2, name, w.now);
          StoreKeepsGood(s2, name, PushRecord(Stored(s2, name), w.now));
        }
      }
    }
  }

  lemma PushedFits(s: State, name: string, now: Time)
    requires Good(s)
    ensures |PushRecord(Stored(s, name), now)| <= MAX_RECORD_CNT
  {
  }

  lemma StepKeepsGood(s: State, e: Event)
    requires Good(s)
    ensures Good(Step(s, e))
  {
    match e
    case Increase(ip, check, w) =>
      IncreaseKeepsGood(s, ip, check, w);
    case Clean(ip) =>
      FiniteSets.SubsetCard(Step(s, e).tracked, s.tracked);
    case CleanAll =>
      FiniteSets.SubsetCard(Step(s, e).tracked, s.tracked);
    case Status(ip, w) =>
      StatusKeepsGood(s, ip, w);
  }

  /** Over every run from an empty directory and table, whatever the texts: at most 1000 addresses are tracked, every
      address with a nonempty record is tracked, and no record grows beyond 100 failures. */
  lemma {:induction false} RunIsGood(events: seq<Event>)
    ensures Good(Run(events))
  {
    if events != [] {
      RunIsGood(events[..|events| - 1]);
      StepKeepsGood(Run(events[..|events| - 1]), events[|events| - 1]);
    }
  }

  // ---- cleaning everything ----

  /** Cleaning everything reaches a record file exactly if its name is stable. */
  lemma CleanedAreStable(s: State, n: string)
    requires Good(s) && n in s.files
    ensures n in CleanedNames(s.files.Keys) <==> Stable(n)
  {
    StableNameIsKept(n);
    if n in CleanedNames(s.files.Keys) {
      var m :| m in s.files && RemovePort(m) == Some(n);
      StripTwice(m);
      BracketedIsRefused(m);
    }
  }

  /** Over every run: cleaning everything removes exactly the records with a stable name and changes no other. */
  lemma CleanAllLeavesUnstable(events: seq<Event>, n: string)
    ensures var s := Run(events);
            && (n in AfterCleanAll(s).files <==> n in s.files && !Stable(n))
            && (n in AfterCleanAll(s).files ==> AfterCleanAll(s).files[n] == s.files[n])
  {
    RunIsGood(events);
    if n in Run(events).files { CleanedAreStable(Run(events), n); }
  }

  /** Over every run: an address with a record file leaves the table of tracked ones exactly if its name is stable. */
  lemma CleanAllUntracks(events: seq<Event>, n: string)
    requires n in Run(events).files
    ensures n in AfterCleanAll(Run(events)).tracked <==> n in Run(events).tracked && !Stable(n)
  {
    RunIsGood(events);
    CleanedAreStable(Run(events), n);
  }

  /** Cleaning one address: its record is gone, its entry in the table is free again, and no other name is concerned. */
  lemma CleanForgets(s: State, ip: string, name: string)
    requires RemovePort(ip) == Some(name)
    ensures var (s', ret) := AfterClean(s, ip);
            && ret == RET_OK && name !in s'.files && s'.tracked + {name} == s.tracked + {name} && name !in s'.tracked
            && forall n :: n != name ==> (n in s'.files <==> n in s.files) && Stored(s', n) == Stored(s, n)
  {
    hide RemovePort;
  }

  /** Asking for the status stores no failure and tracks nobody. */
  lemma StatusRecordsNothing(s: State, ip: string, w: World)
    ensures var s' := AfterStatus(s, ip, w); s'.tracked == s.tracked && forall n :: Stored(s', n) == Stored(s, n)
  {
    hide RemovePort, FileName;
  }

  /** An address text whose record name, if it has one, is stable; all IPv4[:port], bare IPv6 and bracketed
      IPv6[:port] texts are such. */
  predicate Acceptable(ip: string) {
    RemovePort(ip).Some? ==> Stable(RemovePort(ip).value)
  }

  predicate AcceptableEvent(e: Event) {
    e.CleanAll? || Acceptable(e.ip)
  }

  lemma StepKeepsStable(s: State, e: Event)
    requires AcceptableEvent(e) && forall n :: n in s.files ==> Stable(n)
    ensures forall n :: n in Step(s, e).files ==> Stable(n)
  {
    if !e.CleanAll? && RemovePort(e.ip).Some? {
      var name := RemovePort(e.ip).value;
      StripTwice(e.ip);
      hide RemovePort, Stable, FileName, CheckedLocked, PushRecord;
      assert Step(s, e).files.Keys <= s.files.Keys + {name};
    }
  }

  /** From acceptable texts alone, cleaning everything leaves no record file. */
  lemma {:induction false} AcceptableRunIsCleaned(events: seq<Event>)
    requires forall e :: e in events ==> AcceptableEvent(e)
    ensures forall n :: n in Run(events).files ==> Stable(n)
    ensures AfterCleanAll(Run(events)).files == map[]
  {
    hide Stable, AcceptableEvent;
    if events != [] {
      var front, last := events[..|events| - 1], events[|events| - 1];
      assert last in events && forall e :: e in front ==> e in events;
      AcceptableRunIsCleaned(front);
      StepKeepsStable(Run(front), last);
    }
    forall n ensures n !in AfterCleanAll(Run(events)).files { CleanAllLeavesUnstable(events, n); }
  }

  /** Then every address with a record leaves the table, too. */
  lemma AcceptableRunIsUntracked(events: seq<Event>)
    requires forall e :: e in events ==> AcceptableEvent(e)
    ensures AfterCleanAll(Run(events)).tracked == Run(events).tracked - Run(events).files.Keys
  {
    hide Stable, AcceptableEvent, RemovePort;
    AcceptableRunIsCleaned(events);
    var s := Run(events);
    forall n | n in CleanedNames(s.files.Keys) ensures n in s.files {
      var m :| m in s.files && RemovePort(m) == Some(n);
      RunIsGood(events);
      StableNameIsKept(m);
    }
    forall n | n in s.files ensures n in CleanedNames(s.files.Keys) {
      RunIsGood(events);
      CleanedAreStable(s, n);
    }
  }

  /** Every other text that names a file leaves a record behind. */
  lemma UnacceptableTextSurvives(ip: string, w: World)
    requires !Acceptable(ip) && Opens(w, RemovePort(ip).value)
    ensures var name := RemovePort(ip).value;
            var s := Run([Increase(ip, false, w)]);
            Stored(s, name) != [] && Stored(AfterCleanAll(s), name) == Stored(s, name)
  {
    var name, e := RemovePort(ip).value, Increase(ip, false, w);
    hide RemovePort, Stable, FileName;
    assert [e][..0] == [];
    assert Run([e]) == Step(Run([]), e) == Step(State({}, map[]), e);
    CleanAllLeavesUnstable([e], name);
  }

  /** There are such texts. */
  lemma BracketedColonIsUnacceptable()
    ensures RemovePort("[a:b]") == Some("a:b") && FileName("a:b") && !Acceptable("[a:b]")
  {
    var ip, name := "[a:b]", "a:b";
    assert ip[1..4] == name && ip[4] == ']';
    var end := First(ip, ']').value;
    assert end == 4;
    OneColonIs(name, 1);
  }

  // ---- one address ----

  /** Calls for other addresses leave an address's record and entry alone. */
  lemma OthersUntouched(s: State, e: Event, other: string)
    requires !e.CleanAll? && RemovePort(e.ip) != Some(other)
    ensures Stored(Step(s, e), other) == Stored(s, other)
    ensures other in Step(s, e).tracked <==> other in s.tracked
  {
    hide CheckedLocked, PushRecord, FileName, RemovePort, Opens;
  }

  /** A checked increase acts on the times of its record as one attempt of the lock's run. */
  lemma IncreaseIsAttempt(s: State, ip: string, w: World)
    requires Acceptable(ip) && RemovePort(ip).Some? && w.conf.Some? && Opens(w, RemovePort(ip).value)
    requires RemovePort(ip).value in s.tracked || |s.tracked| < MAX_IP_RECORD_CNT
    ensures var name, (s', ret) := RemovePort(ip).value, AfterIncrease(s, ip, true, w);
            && ret == RET_OK
            && IpTimes(Stored(s', name)) == LockRun.Attempt(IpTimes(Stored(s, name)), w.conf.value, w.now)
  {
    StripTwice(ip);
    PushRecordTimes(Stored(s, RemovePort(ip).value), w.now);
  }

  predicate Names(e: Event, name: string) {
    !e.CleanAll? && RemovePort(e.ip) == Some(name)
  }

  /** The times of the increases of one address since it was last cleaned; an increase that finds the table full counts
      for nothing. */
  function TimesSince(events: seq<Event>, name: string): seq<Time> {
    if events == [] then []
    else
      var front, last := events[..|events| - 1], events[|events| - 1];
      if last.CleanAll? then []
      else if !Names(last, name) || last.Status? then TimesSince(front, name)
      else if last.Clean? then []
      else if name in Run(front).tracked || |Run(front).tracked| < MAX_IP_RECORD_CNT then TimesSince(front, name) + [last.w.now]
      else TimesSince(front, name)
  }

  /** Every increase of the address is checked, finds the settings and can open its file. */
  ghost predicate FixedSettings(events: seq<Event>, name: string, conf: Conf) {
    forall e :: e in events && e.Increase? && Names(e, name) ==> e.check && e.w.conf == Some(conf) && e.w.canOpen
  }

  /** One more event, seen from one address. */
  lemma StepIsAttempt(events: seq<Event>, name: string, conf: Conf)
    requires events != [] && Stable(name) && FileName(name) && FixedSettings(events, name, conf)
    ensures var front := events[..|events| - 1];
            IpTimes(Stored(Run(front), name)) == LockRun.Attempts([], conf, TimesSince(front, name)) ==>
            IpTimes(Stored(Run(events), name)) == LockRun.Attempts([], conf, TimesSince(events, name))
  {
    var front, last := events[..|events| - 1], events[|events| - 1];
    var s, times := Run(front), TimesSince(front, name);
    assert last in events;
    hide RemovePort, Stable, FileName;
    if last.CleanAll? {
      RunIsGood(front);
      if name in s.files { CleanedAreStable(s, name); }
    } else if !Names(last, name) {
      OthersUntouched(s, last, name);
    } else if last.Increase? && TimesSince(events, name) != times {
      IncreaseIsAttempt(s, last.ip, last.w);
      LockRun.AttemptsSnoc([], conf, times, last.w.now);
    }
  }

  /** Over every run, with anything happening to other addresses in between, the stored times of an address are those of
      the lock's run over its increases since it was last cleaned. */
  lemma {:induction false} RecordIsLockRun(events: seq<Event>, name: string, conf: Conf)
    requires Stable(name) && FileName(name) && FixedSettings(events, name, conf)
    ensures IpTimes(Stored(Run(events), name)) == LockRun.Attempts([], conf, TimesSince(events, name))
  {
    if events != [] {
      var front := events[..|events| - 1];
      assert forall e :: e in front ==> e in events;
      RecordIsLockRun(front, name, conf);
      StepIsAttempt(events, name, conf);
    }
  }

  /** So the table decides like the whole history of those increases, whatever port the address comes with. */
  lemma TableDecidesLikeHistory(events: seq<Event>, ip: string, w: World)
    requires Acceptable(ip) && RemovePort(ip).Some? && w.conf.Some? && Opens(w, RemovePort(ip).value)
    requires FixedSettings(events, RemovePort(ip).value, w.conf.value)
    requires LockRun.SaneRun(w.conf.value, TimesSince(events, RemovePort(ip).value))
    ensures var history := LockRun.HistoryAttempts([], w.conf.value, TimesSince(events, RemovePort(ip).value));
            CheckedLocked(Run(events), ip, w) <==> HistoryLocked(history, w.conf.value, w.now)
  {
    var name := RemovePort(ip).value;
    RecordIsLockRun(events, name, w.conf.value);
    LockRun.RunRefinesHistory(w.conf.value, TimesSince(events, name), w.now);
  }

  /** Without a cleaning in between, the increases since the last one only grow. */
  lemma {:induction false} TimesGrow(before: seq<Event>, after: seq<Event>, name: string)
    requires forall e :: e in after ==> !e.CleanAll? && !(e.Clean? && Names(e, name))
    ensures TimesSince(before, name) <= TimesSince(before + after, name)
  {
    hide Names, Run;
    if after == [] {
      assert before + after == before;
    } else {
      var all, front, last := before + after, after[..|after| - 1], after[|after| - 1];
      assert all[..|all| - 1] == before + front && last in after;
      TimesGrow(before, front, name);
    }
  }

  /** A lock of the table and whatever follows it, for any address, as long as this one is not cleaned: with `news` the
      increases since, the lock holds at exactly the times up to its expiry while none of them is recorded, and later,
      if the interval is at most the lock plus one second, only once `threshold` of them are. */
  lemma TableLockSpansRun(before: seq<Event>, after: seq<Event>, ip: string, name: string, news: seq<Time>, conf: Conf,
                          since: Time, w: World)
    requires RemovePort(ip) == Some(name) && Stable(name) && Opens(w, name) && w.conf == Some(conf)
    requires FixedSettings(before + after, name, conf) && 0 < conf.threshold <= MAX_RECORD_CNT
    requires TimesSince(before + after, name) == TimesSince(before, name) + news && Sorted(news)
    requires var buf, end := IpTimes(Stored(Run(before), name)), IpTimes(Stored(Run(before + after), name));
             IpLockedWith(buf, conf, since) && Sane(conf, Latest(buf)) && Sane(conf, Latest(end))
    ensures var buf := IpTimes(Stored(Run(before), name));
            var expiry, recorded := Latest(buf) + conf.duration, LockRun.Recorded(buf, conf, news);
            && (recorded == 0 ==> (CheckedLocked(Run(before + after), ip, w) <==> w.now <= expiry))
            && (conf.interval <= conf.duration + 1 && w.now > expiry && CheckedLocked(Run(before + after), ip, w) ==>
                  recorded >= conf.threshold)
  {
    var earlier := TimesSince(before, name);
    assert forall e :: e in before ==> e in before + after;
    hide RemovePort, Stable, FileName, Run, TimesSince, Stored, IpLockedWith, Latest, Sorted;
    RecordIsLockRun(before, name, conf);
    RecordIsLockRun(before + after, name, conf);
    LockRun.AttemptsAppend([], conf, earlier, news);
    LockRun.LockSpansRun(LockRun.Attempts([], conf, earlier), conf, since, news, w.now);
  }
}
