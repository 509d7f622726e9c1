/** The login rules of check_login_rule.c: packed time comparisons and the combination of up to three rules. */
module LoginRule {
  import opened CText

  const USER_LOGIN_LIMITED := 0x90
  const MAX_RULE_COUNT := 3
  const MAX_RULE_LEN := 64
  const MAX_RULE_VALUE := 7
  const TIME_YEAR_BASE := 1900

  // ---- time rules ----

  /** struct tm: years since 1900 and months since January. */
  datatype Tm = Tm(year: int, mon: int, mday: int, hour: int, min: int)

  /** TIME_INFO: a 16-bit year and byte-wide fields, months from one; also the calendar reading of a struct tm. */
  datatype Moment = Moment(year: int, mon: int, mday: int, hour: int, min: int)

  datatype Interval = Interval(start: Moment, end: Moment)

  predicate IsByte(x: int) { 0 <= x < 0x100 }

  predicate Stored(m: Moment) {
    0 <= m.year < 0x1_0000 && IsByte(m.mon) && IsByte(m.mday) && IsByte(m.hour) && IsByte(m.min)
  }

  function Calendar(now: Tm): Moment {
    Moment(TIME_YEAR_BASE + now.year, 1 + now.mon, now.mday, now.hour, now.min)
  }

  /** What localtime_r delivers for the 16-bit years. */
  predicate LocalTime(now: Tm) {
    -TIME_YEAR_BASE <= now.year < 0x1_0000 - TIME_YEAR_BASE &&
    0 <= now.mon < 12 && 1 <= now.mday <= 31 && 0 <= now.hour < 24 && 0 <= now.min < 60
  }

  function ParseTimeYmdhm(mon: int, mday: int, hour: int, min: int): nat {
    U8(mon) * 0x100_0000 + U8(mday) * 0x1_0000 + U8(hour) * 0x100 + U8(min)
  }

  function ParseTimeYmd(year: int, mon: int, mday: int): nat {
    U8(year) * 0x1_0000 + U8(mon) * 0x100 + U8(mday)
  }

  function ParseTimeHm(hour: int, min: int): nat {
    U8(hour) * 0x100 + U8(min)
  }

  function CheckYmdhm(now: Tm, rule: Interval): int {
    var t := ParseTimeYmdhm(1 + now.mon, now.mday, now.hour, now.min);
    var s := ParseTimeYmdhm(rule.start.mon, rule.start.mday, rule.start.hour, rule.start.min);
    var e := ParseTimeYmdhm(rule.end.mon, rule.end.mday, rule.end.hour, rule.end.min);
    var year := TIME_YEAR_BASE + now.year;
    if year < rule.start.year || year > rule.end.year then RET_ERR
    else if year == rule.start.year && t < s then RET_ERR
    else if year == rule.end.year && t > e then RET_ERR
    else RET_OK
  }

  function CheckYmd(now: Tm, rule: Interval): int {
    var t := ParseTimeYmd(TIME_YEAR_BASE + now.year, 1 + now.mon, now.mday);
    var s := ParseTimeYmd(rule.start.year, rule.start.mon, rule.start.mday);
    var e := ParseTimeYmd(rule.end.year, rule.end.mon, rule.end.mday);
    if t < s || t > e then RET_ERR else RET_OK
  }

  function CheckHm(now: Tm, rule: Interval): int {
    var t := ParseTimeHm(now.hour, now.min);
    var s := ParseTimeHm(rule.start.hour, rule.start.min);
    var e := ParseTimeHm(rule.end.hour, rule.end.min);
    if t < s || t > e then RET_ERR else RET_OK
  }

  // ---- the calendar orders the packed numbers stand for ----

  predicate ClockNotLater(a: Moment, b: Moment) {
    a.hour < b.hour || (a.hour == b.hour && a.min <= b.min)
  }

  predicate DayNotLater(a: Moment, b: Moment) {
    a.year < b.year || (a.year == b.year && (a.mon < b.mon || (a.mon == b.mon && a.mday <= b.mday)))
  }

  predicate SameDay(a: Moment, b: Moment) {
    a.year == b.year && a.mon == b.mon && a.mday == b.mday
  }

  predicate NotLater(a: Moment, b: Moment) {
    if SameDay(a, b) then ClockNotLater(a, b) else DayNotLater(a, b)
  }

  /** Two-digit numbers compare by their high digit first. */
  lemma HighByteFirst(h: int, l: int, h': int, l': int)
    requires IsByte(l) && IsByte(l')
    ensures h * 0x100 + l <= h' * 0x100 + l' <==> h < h' || (h == h' && l <= l')
  {
  }

  lemma ByteKeepsValue(x: int)
    requires IsByte(x)
    ensures U8(x) == x
  {
  }

  lemma BytesKeepValue(m: Moment)
    requires Stored(m)
    ensures ParseTimeYmdhm(m.mon, m.mday, m.hour, m.min) == ((m.mon * 0x100 + m.mday) * 0x100 + m.hour) * 0x100 + m.min
    ensures ParseTimeHm(m.hour, m.min) == m.hour * 0x100 + m.min
    ensures ParseTimeYmd(m.year, m.mon, m.mday) == (U8(m.year) * 0x100 + m.mon) * 0x100 + m.mday
  {
    hide U8;
    ByteKeepsValue(m.mon);
    ByteKeepsValue(m.mday);
    ByteKeepsValue(m.hour);
    ByteKeepsValue(m.min);
  }

  lemma PackedYearless(a: Moment, b: Moment)
    requires Stored(a) && Stored(b) && a.year == b.year
    ensures ParseTimeYmdhm(a.mon, a.mday, a.hour, a.min) <= ParseTimeYmdhm(b.mon, b.mday, b.hour, b.min) <==> NotLater(a, b)
  {
    BytesKeepValue(a);
    BytesKeepValue(b);
    var x, y := a.mon * 0x100 + a.mday, b.mon * 0x100 + b.mday;
    hide ParseTimeYmdhm;
    HighByteFirst(a.mon, a.mday, b.mon, b.mday);
    HighByteFirst(b.mon, b.mday, a.mon, a.mday);
    HighByteFirst(x, a.hour, y, b.hour);
    HighByteFirst(y, b.hour, x, a.hour);
    HighByteFirst(x * 0x100 + a.hour, a.min, y * 0x100 + b.hour, b.min);
  }

  /** A full time rule admits exactly the moments of the calendar interval. */
  lemma YmdhmIsCalendar(now: Tm, rule: Interval)
    requires LocalTime(now) && Stored(rule.start) && Stored(rule.end)
    ensures CheckYmdhm(now, rule) == RET_OK <==> NotLater(rule.start, Calendar(now)) && NotLater(Calendar(now), rule.end)
  {
    var t := Calendar(now);
    if t.year == rule.start.year { PackedYearless(rule.start, t); }
    if t.year == rule.end.year { PackedYearless(t, rule.end); }
  }

  /** A clock rule admits exactly the minutes of the clock interval. */
  lemma HmIsClock(now: Tm, rule: Interval)
    requires LocalTime(now) && Stored(rule.start) && Stored(rule.end)
    ensures CheckHm(now, rule) == RET_OK <==> ClockNotLater(rule.start, Calendar(now)) && ClockNotLater(Calendar(now), rule.end)
  {
    PackedClock(rule.start, Calendar(now));
    PackedClock(Calendar(now), rule.end);
  }

  lemma PackedClock(a: Moment, b: Moment)
    requires Stored(a) && Stored(b)
    ensures ParseTimeHm(a.hour, a.min) <= ParseTimeHm(b.hour, b.min) <==> ClockNotLater(a, b)
  {
    BytesKeepValue(a);
    BytesKeepValue(b);
    hide ParseTimeHm;
    HighByteFirst(a.hour, a.min, b.hour, b.min);
  }

  /** A date with only the low byte of its year. */
  function Folded(m: Moment): Moment { m.(year := m.year % 0x100) }

  lemma PackedDay(a: Moment, b: Moment)
    requires Stored(a) && Stored(b)
    ensures ParseTimeYmd(a.year, a.mon, a.mday) <= ParseTimeYmd(b.year, b.mon, b.mday) <==> DayNotLater(Folded(a), Folded(b))
  {
  }

  /** A date rule compares the dates after folding every year to its low byte. */
  lemma YmdIsFolded(now: Tm, rule: Interval)
    requires LocalTime(now) && Stored(rule.start) && Stored(rule.end)
    ensures CheckYmd(now, rule) == RET_OK <==>
            DayNotLater(Folded(rule.start), Folded(Calendar(now))) && DayNotLater(Folded(Calendar(now)), Folded(rule.end))
  {
    PackedDay(rule.start, Calendar(now));
    PackedDay(Calendar(now), rule.end);
  }

  predicate InYears(m: Moment, first: int, last: int) {
    Stored(m) && first <= m.year <= last
  }

  predicate AllBetween(now: Tm, rule: Interval, first: int, last: int) {
    LocalTime(now) && InYears(Calendar(now), first, last) && InYears(rule.start, first, last) && InYears(rule.end, first, last)
  }

  ghost predicate YmdIsRight(now: Tm, rule: Interval) {
    CheckYmd(now, rule) == RET_OK <==> DayNotLater(rule.start, Calendar(now)) && DayNotLater(Calendar(now), rule.end)
  }

  ghost predicate YmdIsRightBetween(first: int, last: int) {
    forall now: Tm, rule: Interval :: AllBetween(now, rule, first, last) ==> YmdIsRight(now, rule)
  }

  lemma FoldingInBlock(a: Moment, b: Moment)
    requires a.year / 0x100 == b.year / 0x100
    ensures DayNotLater(Folded(a), Folded(b)) <==> DayNotLater(a, b)
  {
  }

  /** Date rules mean the calendar interval over a range of years exactly when the range lies in one block of 256 years. */
  lemma YmdIsCalendarInOneBlock(first: int, last: int)
    requires 0 <= first <= last < 0x1_0000
    ensures YmdIsRightBetween(first, last) <==> first / 0x100 == last / 0x100
  {
    if first / 0x100 == last / 0x100 {
      forall now: Tm, rule: Interval | AllBetween(now, rule, first, last)
        ensures YmdIsRight(now, rule)
      {
        YmdIsFolded(now, rule);
        FoldingInBlock(rule.start, Calendar(now));
        FoldingInBlock(Calendar(now), rule.end);
      }
    } else {
      // new year's day of the next block: its folded year is zero, below the year before
      var year := (first / 0x100 + 1) * 0x100;
      var now := Tm(year - TIME_YEAR_BASE, 0, 1, 0, 0);
      var rule := Interval(Moment(year - 1, 12, 31, 0, 0), Moment(year, 1, 2, 0, 0));
      assert first <= year - 1 && year <= last;
      YmdIsFolded(now, rule);
      assert AllBetween(now, rule, first, last) && !YmdIsRight(now, rule);
    }
  }

  // ---- one rule ----

  /** A rule line as read from the file, with what scanning its time text yields (none when it does not scan). */
  datatype Rule = Rule(enabled: int, time: string, scanned: Option<Interval>, ip: string, ipv6: string, mac: string)

  /** One login attempt: the local time and the rule texts that admit its address. */
  datatype Login = Login(now: Tm, addressRules: set<string>, macRules: set<string>)

  /** check_time_rule: the length of the text decides its kind. */
  function CheckTimeRule(rule: Rule, login: Login): int {
    if rule.time == "" then RET_OK
    else if U8(|rule.time|) == 33 && rule.scanned.Some? then CheckYmdhm(login.now, rule.scanned.value)
    else if U8(|rule.time|) == 21 && rule.scanned.Some? then CheckYmd(login.now, rule.scanned.value)
    else if U8(|rule.time|) == 11 && rule.scanned.Some? then CheckHm(login.now, rule.scanned.value)
    else RET_ERR
  }

  /** The calendar reading of a time rule. */
  predicate TimeAdmits(rule: Rule, now: Moment) {
    rule.time == "" ||
    (rule.scanned.Some? &&
     var start, end := rule.scanned.value.start, rule.scanned.value.end;
     match |rule.time|
     case 33 => NotLater(start, now) && NotLater(now, end)
     case 21 => DayNotLater(Folded(start), Folded(now)) && DayNotLater(Folded(now), Folded(end))
     case 11 => ClockNotLater(start, now) && ClockNotLater(now, end)
     case _ => false)
  }

  /** For every text a rule line can hold, the time test is the calendar reading. */
  lemma TimeRuleIsCalendar(rule: Rule, login: Login)
    requires |rule.time| <= MAX_RULE_LEN && LocalTime(login.now)
    requires rule.scanned.Some? ==> Stored(rule.scanned.value.start) && Stored(rule.scanned.value.end)
    ensures CheckTimeRule(rule, login) == RET_OK <==> TimeAdmits(rule, Calendar(login.now))
  {
    hide U8, CheckYmdhm, CheckYmd, CheckHm, NotLater, DayNotLater, ClockNotLater, Folded, Stored, LocalTime, Calendar;
    ByteKeepsValue(|rule.time|);
    if rule.scanned.Some? {
      var now, interval := login.now, rule.scanned.value;
      if |rule.time| == 33 {
        YmdhmIsCalendar(now, interval);
      } else if |rule.time| == 21 {
        YmdIsFolded(now, interval);
      } else if |rule.time| == 11 {
        HmIsClock(now, interval);
      }
    }
  }

  function CheckIpRule(text: string, login: Login): int {
    if text == "" || text in login.addressRules then RET_OK else RET_ERR
  }

  function CheckMacRule(text: string, login: Login): int {
    if text == "" || text in login.macRules then RET_OK else RET_ERR
  }

  /** The rule restricts addresses and the attempt's address is not admitted; the IPv4 text is used whenever there is one. */
  predicate AddressRefused(rule: Rule, login: Login) {
    if rule.ip != "" then rule.ip !in login.addressRules else rule.ipv6 != "" && rule.ipv6 !in login.addressRules
  }

  /** The rule admits the attempt in time, address and hardware address. */
  predicate Passes(rule: Rule, login: Login) {
    CheckTimeRule(rule, login) == RET_OK && !AddressRefused(rule, login) && (rule.mac == "" || rule.mac in login.macRules)
  }

  // ---- the three rules together ----

  function Weight(i: nat): nat {
    if i == 0 then 1 else if i == 1 then 2 else 4
  }

  /** The weights of the first n rules together. */
  function Weights(n: nat): nat {
    if n == 0 then 0 else if n == 1 then 1 else if n == 2 then 3 else 7
  }

  /** Bit i of the user's rule set. */
  predicate Selected(ruleIds: nat, i: nat) {
    ruleIds / Weight(i) % 2 == 1
  }

  predicate Applies(ruleIds: nat, rules: seq<Rule>, i: nat)
    requires i < |rules|
  {
    rules[i].enabled != 0 && Selected(ruleIds, i)
  }

  ghost predicate Admitted(ruleIds: nat, rules: seq<Rule>, login: Login) {
    (exists i :: 0 <= i < |rules| && Applies(ruleIds, rules, i) && Passes(rules[i], login)) ||
    forall i :: 0 <= i < |rules| ==> !Applies(ruleIds, rules, i)
  }

  /** check_rules */
  method CheckRules(ruleIds: nat, rules: seq<Rule>, login: Login) returns (ret: int)
    requires ruleIds < 0x100 && |rules| == MAX_RULE_COUNT
    ensures ret == if Admitted(ruleIds, rules, login) then RET_OK else USER_LOGIN_LIMITED
  {
    var flag := 0;
    var idx := 0;
    while idx < MAX_RULE_COUNT
      invariant 0 <= idx <= MAX_RULE_COUNT
      invariant 0 <= flag <= Weights(idx)
      invariant flag == Weights(idx) <==> forall i :: 0 <= i < idx ==> !Applies(ruleIds, rules, i)
      invariant forall i :: 0 <= i < idx && Applies(ruleIds, rules, i) ==> !Passes(rules[i], login)
    {
      if rules[idx].enabled == 0 || ruleIds / Weight(idx) % 2 == 0 {
        flag := (flag + Weight(idx)) % 0x100;
        idx := idx + 1;
        continue;
      }
      assert Applies(ruleIds, rules, idx);
      ret := CheckTimeRule(rules[idx], login);
      if ret == RET_OK {
        if |rules[idx].ip| == 0 && |rules[idx].ipv6| != 0 {
          ret := CheckIpRule(rules[idx].ipv6, login);
        } else {
          ret := CheckIpRule(rules[idx].ip, login);
        }
        if ret == RET_OK {
          ret := CheckMacRule(rules[idx].mac, login);
          if ret == RET_OK { return RET_OK; }
        }
      }
      idx := idx + 1;
    }
    ret := if flag == MAX_RULE_VALUE then RET_OK else USER_LOGIN_LIMITED;
  }

  // ---- one user ----

  /** The fields of the user record the login rules look at. */
  datatype RuleUser = RuleUser(loginRule: nat, isExcludeUser: nat)

  const UART2_NAME := "/dev/ttyS0"
  const FTP_NAME := "ftp"

  /** Serial console and FTP logins, users without rules and the emergency user are never restricted. */
  predicate Exempt(user: RuleUser, tty: string) {
    UART2_NAME <= tty || FTP_NAME <= tty || user.loginRule == 0 || user.isExcludeUser == 1
  }

  /** check_user_login_rule; `file` is what reading the rule file yields. */
  method CheckUserLoginRule(user: RuleUser, tty: string, file: Option<seq<Rule>>, login: Login) returns (ret: int)
    requires user.loginRule < 0x100 && (file.Some? ==> |file.value| == MAX_RULE_COUNT)
    ensures ret == RET_OK <==> Exempt(user, tty) || (file.Some? && Admitted(user.loginRule, file.value, login))
    ensures ret != RET_OK ==> ret == if file.None? then RET_ERR else USER_LOGIN_LIMITED
  {
    if UART2_NAME <= tty || FTP_NAME <= tty { return RET_OK; }
    if user.loginRule == 0 { return RET_OK; }
    if user.isExcludeUser == 1 { return RET_OK; }
    if file.None? { return RET_ERR; }
    ret := CheckRules(user.loginRule, file.value, login);
  }

  /** check_snmpv1v2_login_rule: the rule set is narrowed to a byte on the way. */
  method CheckSnmpLoginRule(ruleIds: int, file: Option<seq<Rule>>, login: Login) returns (ret: int)
    requires file.Some? ==> |file.value| == MAX_RULE_COUNT
    ensures ret == if file.None? then RET_ERR
                   else if Admitted(ruleIds % 0x100, file.value, login) then RET_OK else USER_LOGIN_LIMITED
  {
    if file.None? { return RET_ERR; }
    ret := CheckRules(U8(ruleIds), file.value, login);
  }

  // ---- the decision, literally ----

  /** A number whose three lowest bits are given selects the rules of the bits that are set. */
  lemma BitsSelect(b0: nat, b1: nat, b2: nat, high: nat)
    requires b0 <= 1 && b1 <= 1 && b2 <= 1
    ensures var ruleIds := b0 + 2 * b1 + 4 * b2 + 8 * high;
            (Selected(ruleIds, 0) <==> b0 == 1) && (Selected(ruleIds, 1) <==> b1 == 1) && (Selected(ruleIds, 2) <==> b2 == 1)
  {
    var upper := b2 + 2 * high;
    var middle := b1 + 2 * upper;
    LowestBit(b0, middle);
    LowestBit(b1, upper);
    LowestBit(b2, high);
    QuarterIsHalfTwice(b0 + 2 * middle);
  }

  lemma LowestBit(b: nat, rest: nat)
    requires b <= 1
    ensures (b + 2 * rest) % 2 == b && (b + 2 * rest) / 2 == rest
  {
  }

  lemma QuarterIsHalfTwice(x: nat)
    ensures x / 4 == x / 2 / 2 && x / 1 == x
  {
  }

  /** The calendar time lies in the rule's interval, the address is admitted by the IPv4 text if there is one and else by
      the IPv6 text, and the hardware address by its text; a rule without a text does not restrict what it is for. */
  predicate RuleAdmits(rule: Rule, login: Login) {
    && TimeAdmits(rule, Calendar(login.now))
    && (rule.ip != "" ==> rule.ip in login.addressRules)
    && (rule.ip == "" && rule.ipv6 != "" ==> rule.ipv6 in login.addressRules)
    && (rule.mac != "" ==> rule.mac in login.macRules)
  }

  predicate WellFormed(rule: Rule) {
    |rule.time| <= MAX_RULE_LEN && (rule.scanned.Some? ==> Stored(rule.scanned.value.start) && Stored(rule.scanned.value.end))
  }

  /** Bit by bit and rule by rule: whoever has none of the enabled rules is admitted, and so is whoever meets one of them. */
  lemma RulesDecide(b0: nat, b1: nat, b2: nat, high: nat, rules: seq<Rule>, login: Login)
    requires b0 <= 1 && b1 <= 1 && b2 <= 1 && |rules| == 3 && LocalTime(login.now)
    requires WellFormed(rules[0]) && WellFormed(rules[1]) && WellFormed(rules[2])
    ensures var on0, on1, on2 := rules[0].enabled != 0 && b0 == 1, rules[1].enabled != 0 && b1 == 1, rules[2].enabled != 0 && b2 == 1;
            Admitted(b0 + 2 * b1 + 4 * b2 + 8 * high, rules, login) <==>
            || (!on0 && !on1 && !on2)
            || (on0 && RuleAdmits(rules[0], login)) || (on1 && RuleAdmits(rules[1], login)) || (on2 && RuleAdmits(rules[2], login))
  {
    BitsSelect(b0, b1, b2, high);
    PassesAsRead(rules[0], login);
    PassesAsRead(rules[1], login);
    PassesAsRead(rules[2], login);
    hide Selected, Passes, RuleAdmits;
    var ruleIds := b0 + 2 * b1 + 4 * b2 + 8 * high;
    assert Applies(ruleIds, rules, 0) <==> rules[0].enabled != 0 && b0 == 1;
    assert Applies(ruleIds, rules, 1) <==> rules[1].enabled != 0 && b1 == 1;
    assert Applies(ruleIds, rules, 2) <==> rules[2].enabled != 0 && b2 == 1;
  }

  lemma PassesAsRead(rule: Rule, login: Login)
    requires WellFormed(rule) && LocalTime(login.now)
    ensures Passes(rule, login) <==> RuleAdmits(rule, login)
  {
    TimeRuleIsCalendar(rule, login);
    hide CheckTimeRule, TimeAdmits;
  }

  /** Exactly these four are exempt: the serial console, FTP, users without rules and the emergency user. */
  lemma ExemptExactly(user: RuleUser, tty: string)
    ensures Exempt(user, tty) <==>
            || (|tty| >= 10 && tty[..10] == "/dev/ttyS0") || (|tty| >= 3 && tty[..3] == "ftp")
            || user.loginRule == 0 || user.isExcludeUser == 1
  {
  }

  /** Two attempts that differ only in a rule the user has not selected, or that is off, are judged alike. */
  lemma OtherRulesDoNotMatter(ruleIds: nat, rules: seq<Rule>, i: nat, other: Rule, login: Login)
    requires i < |rules| && !Applies(ruleIds, rules, i) && !(other.enabled != 0 && Selected(ruleIds, i))
    ensures Admitted(ruleIds, rules, login) <==> Admitted(ruleIds, rules[i := other], login)
  {
    var changed := rules[i := other];
    assert forall k :: 0 <= k < |rules| ==> Applies(ruleIds, rules, k) == Applies(ruleIds, changed, k);
    if Admitted(ruleIds, rules, login) {
      if k :| 0 <= k < |rules| && Applies(ruleIds, rules, k) && Passes(rules[k], login) {
        assert k != i && changed[k] == rules[k];
      }
    } else {
      forall k | 0 <= k < |changed| && Applies(ruleIds, changed, k) ensures !Passes(changed[k], login) {
        assert changed[k] == rules[k];
      }
    }
  }
}
