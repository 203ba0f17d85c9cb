/**
 How one day's punches, overrides, leave, on-duty and work-from-home requests become a day record.
 Instants are seconds in one time zone, dates are day numbers, and fractions of a day are counted
 in halves.
 */
module AttendanceDay {
  import opened Prelude

  type Instant = int

  const FULL: nat := 2
  const HALF: nat := 1

  datatype PunchAction = CheckIn | CheckOut | Raw

  datatype Punch = Punch(at: Instant, action: PunchAction)

  datatype DaySession = FullDay | FirstHalf | SecondHalf

  /** An approved leave request. */
  datatype LeaveRequest = LeaveRequest(startDate: int, endDate: int, startSession: DaySession, endSession: DaySession)

  datatype DutyDuration = WholeDay | FirstHalfDay | SecondHalfDay | TimeRange

  /** An approved on-duty request; times are seconds of the day. */
  datatype DutyRequest = DutyRequest(
    startDate: int, endDate: int, duration: DutyDuration, startTime: Option<int>, endTime: Option<int>)

  datatype AttendanceRecord = AttendanceRecord(checkInAt: Instant, checkOutAt: Option<Instant>)

  /** The thresholds in force, in minutes, and the start of the shift. */
  datatype DayRules = DayRules(
    halfDayMinutes: nat, fullDayMinutes: nat, overtimeAfter: nat, graceMinutes: nat, shiftStart: Instant)

  /** All that is known about one employee on one date. `punches` is ordered by time. */
  datatype DayFacts = DayFacts(
    date: int, rules: DayRules, holiday: bool, weekOff: bool,
    leaves: seq<LeaveRequest>, duties: seq<DutyRequest>, wfh: Option<DaySession>,
    override: Option<AttendanceRecord>, punches: seq<Punch>)

  datatype DayStatus = Present | HalfDay | Absent | Incomplete | Holiday | WeekOff | OnLeave | OnDuty | WorkFromHome

  datatype DaySummary = DaySummary(
    status: DayStatus, checkInAt: Option<Instant>, checkOutAt: Option<Instant>,
    workedMinutes: nat, overtimeMinutes: nat, lateMinutes: nat, isLate: bool,
    needsRegularization: bool, paid: nat)

  function Max(a: int, b: int): int { if a < b then b else a }

  function Min(a: int, b: int): int { if a < b then a else b }

  // ----- fractions of requests

  function RequestDayFraction(startDate: int, endDate: int, date: int, startSession: DaySession,
                              endSession: DaySession): (f: nat)
    ensures f <= FULL && (f == 0 <==> date < startDate || date > endDate)
  {
    if date < startDate || date > endDate then 0
    else if startDate == endDate && endDate == date then
      if startSession != FullDay || endSession != FullDay then HALF else FULL
    else if date == startDate && startSession != FullDay then HALF
    else if date == endDate && endSession != FullDay then HALF
    else FULL
  }

  function LeaveTotal(leaves: seq<LeaveRequest>, date: int): nat {
    if leaves == [] then 0 else
    var last := leaves[|leaves| - 1];
    LeaveTotal(leaves[..|leaves| - 1], date)
    + RequestDayFraction(last.startDate, last.endDate, date, last.startSession, last.endSession)
  }

  function LeaveFraction(leaves: seq<LeaveRequest>, date: int): nat {
    Min(LeaveTotal(leaves, date), FULL)
  }

  method GetLeaveFraction(leaves: seq<LeaveRequest>, date: int) returns (fraction: nat)
    ensures fraction == LeaveFraction(leaves, date)
  {
    var total := 0;
    for i := 0 to |leaves|
      invariant total == LeaveTotal(leaves[..i], date)
    {
      var r := leaves[i];
      assert leaves[..i + 1][..i] == leaves[..i];
      if r.startDate <= date && date <= r.endDate {
        total := total + RequestDayFraction(r.startDate, r.endDate, date, r.startSession, r.endSession);
      }
    }
    assert leaves[..|leaves|] == leaves;
    fraction := Min(total, FULL);
  }

  function DutyPart(r: DutyRequest, date: int, halfDayMinutes: nat): nat {
    if date < r.startDate || date > r.endDate then 0
    else if r.duration.TimeRange? && r.startDate == date && r.endDate == date then
      if r.startTime.None? || r.endTime.None? then 0
      else if Max(0, (r.endTime.value - r.startTime.value) / 60) >= halfDayMinutes then FULL else HALF
    else match r.duration
      case WholeDay => FULL
      case FirstHalfDay => HALF
      case SecondHalfDay => HALF
      case TimeRange => RequestDayFraction(r.startDate, r.endDate, date, FullDay, FullDay)
  }

  function DutyTotal(duties: seq<DutyRequest>, date: int, halfDayMinutes: nat): nat {
    if duties == [] then 0
    else DutyTotal(duties[..|duties| - 1], date, halfDayMinutes) + DutyPart(duties[|duties| - 1], date, halfDayMinutes)
  }

  function DutyFraction(duties: seq<DutyRequest>, date: int, halfDayMinutes: nat): nat {
    Min(DutyTotal(duties, date, halfDayMinutes), FULL)
  }

  method GetDutyFraction(duties: seq<DutyRequest>, date: int, halfDayMinutes: nat) returns (fraction: nat)
    ensures fraction == DutyFraction(duties, date, halfDayMinutes)
  {
    var total := 0;
    for i := 0 to |duties|
      invariant total == DutyTotal(duties[..i], date, halfDayMinutes)
    {
      assert duties[..i + 1][..i] == duties[..i];
      total := total + DutyPart(duties[i], date, halfDayMinutes);
    }
    assert duties[..|duties|] == duties;
    fraction := Min(total, FULL);
  }

  function WfhFraction(wfh: Option<DaySession>): nat {
    if wfh.None? then 0 else if wfh.value.FullDay? then FULL else HALF
  }

  // ----- the interval worked

  predicate InOrder(punches: seq<Punch>) {
    forall i, j :: 0 <= i < j < |punches| ==> punches[i].at <= punches[j].at
  }

  function Times(punches: seq<Punch>, action: PunchAction): (times: seq<Instant>)
    ensures forall t :: t in times <==> Punch(t, action) in punches
  {
    if punches == [] then []
    else (if punches[0].action == action then [punches[0].at] else []) + Times(punches[1..], action)
  }

  function Since(times: seq<Instant>, from: Instant): (late: seq<Instant>)
    ensures forall t :: t in late <==> t in times && t >= from
  {
    if times == [] then []
    else (if times[0] >= from then [times[0]] else []) + Since(times[1..], from)
  }

  function Least(times: seq<Instant>): (t: Instant)
    requires times != []
    ensures t in times && forall x :: x in times ==> t <= x
  {
    assert forall x :: x in times ==> x == times[0] || x in times[1..];
    if |times| == 1 then times[0] else Min(times[0], Least(times[1..]))
  }

  function Greatest(times: seq<Instant>): (t: Instant)
    requires times != []
    ensures t in times && forall x :: x in times ==> x <= t
  {
    assert forall x :: x in times ==> x == times[0] || x in times[1..];
    if |times| == 1 then times[0] else Max(times[0], Greatest(times[1..]))
  }

  function CheckInOf(punches: seq<Punch>): Instant
    requires punches != []
  {
    var checkIns := Times(punches, CheckIn);
    if checkIns != [] then Least(checkIns) else punches[0].at
  }

  /** The check-in and check-out that a day's punches stand for. A check-out is never before the check-in. */
  function PickInterval(punches: seq<Punch>): (interval: (Option<Instant>, Option<Instant>))
    ensures interval.0.None? <==> punches == []
    ensures interval.1.Some? ==> interval.0.Some? && interval.0.value <= interval.1.value
    ensures interval.0.Some? ==> exists p :: p in punches && p.at == interval.0.value
    ensures interval.1.Some? ==> exists p :: p in punches && p.at == interval.1.value
  {
    if punches == [] then (None, None) else
    var checkIn := CheckInOf(punches);
    var checkOuts := Since(Times(punches, CheckOut), checkIn);
    var last := punches[|punches| - 1];
    assert last in punches && punches[0] in punches;
    assert Times(punches, CheckIn) != [] ==> Punch(checkIn, CheckIn) in punches;
    assert checkOuts != [] ==> Punch(Greatest(checkOuts), CheckOut) in punches;
    (Some(checkIn),
     if checkOuts != [] then Some(Greatest(checkOuts))
     else if |punches| > 1 && last.at > checkIn then Some(last.at)
     else None)
  }

  /**
   The check-in is the earliest explicit one if there is any. The day stays open exactly when no
   check-out follows the check-in and no punch at all is later than it; otherwise no check-out is
   later than the one picked.
   */
  lemma IntervalIsWidest(punches: seq<Punch>)
    requires InOrder(punches) && punches != []
    ensures var (checkIn, checkOut) := PickInterval(punches);
            && (forall p :: p in punches && p.action == CheckIn ==> checkIn.value <= p.at)
            && ((exists p :: p in punches && p.action == CheckIn) ==> Punch(checkIn.value, CheckIn) in punches)
            && ((forall p :: p in punches ==> p.action != CheckIn) ==> checkIn == Some(punches[0].at))
            && (checkOut.None? <==>
                  forall p :: p in punches ==> p.at <= checkIn.value && (p.action == CheckOut ==> p.at < checkIn.value))
            && (checkOut.Some? ==> forall p :: p in punches && p.action == CheckOut ==> p.at <= checkOut.value)
  {
    var checkIns := Times(punches, CheckIn);
    var checkIn := CheckInOf(punches);
    var checkOuts := Since(Times(punches, CheckOut), checkIn);
    var last := punches[|punches| - 1];
    forall p | p in punches
      ensures p.at <= last.at
      ensures p.action == CheckIn ==> p.at in checkIns
      ensures p.action == CheckOut && p.at >= checkIn ==> p.at in checkOuts
    {
      assert p == Punch(p.at, p.action);
      var i :| 0 <= i < |punches| && punches[i] == p;
    }
    if checkOuts != [] {
      assert Punch(checkOuts[0], CheckOut) in punches by {
        assert checkOuts[0] in checkOuts;
      }
    }
    assert last in punches;
    if checkIns != [] {
      assert Punch(checkIn, CheckIn) in punches;
    }
  }

  lemma IntervalOfTwo(from: Instant, to: Instant)
    requires from <= to
    ensures PickInterval([Punch(from, CheckIn), Punch(to, CheckOut)]) == (Some(from), Some(to))
  {
    var punches := [Punch(from, CheckIn), Punch(to, CheckOut)];
    var tail := [Punch(to, CheckOut)];
    assert punches[1..] == tail && tail[1..] == [];
    assert Times(tail, CheckIn) == [] && Times(tail, CheckOut) == [to];
    assert Times(punches, CheckIn) == [from] && Times(punches, CheckOut) == [to];
    assert [to][1..] == [];
    assert Since([to], from) == [to];
  }

  /**
   The day ends with the latest check-out if one follows the check-in; if none does, and the day does
   not stay open, it ends with the latest punch of any kind.
   */
  lemma IntervalEndsLatest(punches: seq<Punch>)
    requires InOrder(punches) && punches != []
    ensures var (checkIn, checkOut) := PickInterval(punches);
            if exists p :: p in punches && p.action == CheckOut && p.at >= checkIn.value then
              && checkOut.Some? && Punch(checkOut.value, CheckOut) in punches
              && forall p :: p in punches && p.action == CheckOut ==> p.at <= checkOut.value
            else
              checkOut.Some? ==> forall p :: p in punches ==> p.at <= checkOut.value
  {
    var checkIn := CheckInOf(punches);
    var checkOuts := Since(Times(punches, CheckOut), checkIn);
    forall p | p in punches
      ensures p.at <= punches[|punches| - 1].at
      ensures p.action == CheckOut && p.at >= checkIn ==> p.at in checkOuts
    {
      assert p == Punch(p.at, p.action);
      var i :| 0 <= i < |punches| && punches[i] == p;
    }
    if checkOuts != [] {
      assert Punch(Greatest(checkOuts), CheckOut) in punches;
    }
  }

  // ----- the day

  function WorkedMinutes(checkIn: Instant, checkOut: Instant): nat {
    Max(0, (checkOut - checkIn) / 60)
  }

  /** An override stands in for the punches. */
  function IntervalFrom(override: Option<AttendanceRecord>, punches: seq<Punch>): (Option<Instant>, Option<Instant>) {
    if override.Some? then (Some(override.value.checkInAt), override.value.checkOutAt)
    else PickInterval(punches)
  }

  function Interval(f: DayFacts): (Option<Instant>, Option<Instant>) {
    IntervalFrom(f.override, f.punches)
  }

  /** Status and paid halves before any request is looked at, except that a full WFH day needs no punch. */
  function BaseDay(f: DayFacts): (DayStatus, nat) {
    var (checkIn, checkOut) := Interval(f);
    if checkIn.Some? && checkOut.Some? then
      var worked := WorkedMinutes(checkIn.value, checkOut.value);
      if worked >= f.rules.fullDayMinutes then (Present, FULL)
      else if worked >= f.rules.halfDayMinutes then (HalfDay, HALF)
      else (Absent, 0)
    else if checkIn.Some? then (Incomplete, 0)
    else if f.holiday then (Holiday, FULL)
    else if f.weekOff then (WeekOff, FULL)
    else if WfhFraction(f.wfh) >= FULL then (WorkFromHome, FULL)
    else (Absent, 0)
  }

  /** The day after leave, on-duty and work-from-home requests. */
  function WithRequests(base: (DayStatus, nat), leave: nat, duty: nat, wfh: nat): (DayStatus, nat) {
    var (status, paid) := base;
    if leave >= FULL then (OnLeave, FULL)
    else if duty >= FULL && status in {Absent, Incomplete} then (OnDuty, FULL)
    else if leave == HALF then
      (if paid + HALF >= FULL then (Present, FULL) else (HalfDay, paid + HALF))
    else if duty == HALF && status in {Absent, HalfDay, Incomplete} then
      (if paid + HALF >= FULL then (Present, FULL) else (HalfDay, paid + HALF))
    else if wfh >= FULL && status in {Absent, Incomplete} then (WorkFromHome, FULL)
    else if wfh == HALF && status in {Absent, HalfDay, Incomplete} then
      (if paid + HALF >= FULL then (Present, FULL) else (WorkFromHome, paid + HALF))
    else base
  }

  function FinalDay(f: DayFacts): (DayStatus, nat) {
    WithRequests(BaseDay(f), LeaveFraction(f.leaves, f.date),
                 DutyFraction(f.duties, f.date, f.rules.halfDayMinutes), WfhFraction(f.wfh))
  }

  predicate PaidAsStatusSays(status: DayStatus, paid: nat) {
    match status
    case Absent => paid == 0
    case Incomplete => paid == 0
    case HalfDay => paid == HALF
    case WorkFromHome => paid == HALF || paid == FULL
    case _ => paid == FULL
  }

  lemma BaseStatusDeterminesPay(f: DayFacts)
    ensures PaidAsStatusSays(BaseDay(f).0, BaseDay(f).1)
  {
  }

  /** Worked, overtime and late minutes of a day with both ends of its interval; all zero otherwise. */
  predicate MinutesAgree(s: DaySummary, rules: DayRules) {
    if s.checkInAt.Some? && s.checkOutAt.Some? then
      && s.workedMinutes == WorkedMinutes(s.checkInAt.value, s.checkOutAt.value)
      && s.overtimeMinutes == Max(0, s.workedMinutes - rules.overtimeAfter)
      && (s.isLate <==> s.checkInAt.value > rules.shiftStart + 60 * rules.graceMinutes)
      && s.lateMinutes == Max(0, (s.checkInAt.value - rules.shiftStart) / 60 - rules.graceMinutes)
    else s.workedMinutes == s.overtimeMinutes == s.lateMinutes == 0 && !s.isLate
  }

  method SummarizePunches(f: DayFacts, wfhFraction: nat) returns (s: DaySummary)
    requires wfhFraction == WfhFraction(f.wfh)
    ensures (s.status, s.paid) == BaseDay(f)
    ensures (s.checkInAt, s.checkOutAt) == Interval(f)
    ensures s.needsRegularization <==> s.status == Incomplete
    ensures MinutesAgree(s, f.rules)
  {
    var rules := f.rules;
    var checkInAt: Option<Instant>, checkOutAt: Option<Instant> := None, None;
    if f.override.Some? {
      checkInAt, checkOutAt := Some(f.override.value.checkInAt), f.override.value.checkOutAt;
    } else if f.punches != [] {
      var interval := PickInterval(f.punches);
      checkInAt, checkOutAt := interval.0, interval.1;
    }
    var workedMinutes: nat, lateMinutes: nat, overtimeMinutes: nat := 0, 0, 0;
    var isLate, needsRegularization := false, false;
    var paid: nat := 0;
    var status := Absent;
    if checkInAt.Some? && checkOutAt.Some? {
      workedMinutes := Max(0, (checkOutAt.value - checkInAt.value) / 60);
      if workedMinutes >= rules.fullDayMinutes {
        status, paid := Present, FULL;
      } else if workedMinutes >= rules.halfDayMinutes {
        status, paid := HalfDay, HALF;
      }
      var lateThreshold := rules.shiftStart + 60 * rules.graceMinutes;
      if checkInAt.value > lateThreshold {
        lateMinutes := Max(0, (checkInAt.value - lateThreshold) / 60);
        isLate := true;
      }
      if workedMinutes > rules.overtimeAfter {
        overtimeMinutes := workedMinutes - rules.overtimeAfter;
      }
    } else if checkInAt.Some? {
      status := Incomplete;
      needsRegularization := true;
    } else if f.holiday {
      status, paid := Holiday, FULL;
    } else if f.weekOff {
      status, paid := WeekOff, FULL;
    } else if wfhFraction >= FULL {
      status, paid := WorkFromHome, FULL;
    }
    s := DaySummary(status, checkInAt, checkOutAt, workedMinutes, overtimeMinutes, lateMinutes, isLate,
                    needsRegularization, paid);
  }

  method ApplyRequests(status0: DayStatus, paid0: nat, needsRegularization0: bool, leave: nat, duty: nat, wfh: nat)
    returns (status: DayStatus, paid: nat, needsRegularization: bool)
    requires PaidAsStatusSays(status0, paid0) && (needsRegularization0 <==> status0 == Incomplete)
    ensures (status, paid) == WithRequests((status0, paid0), leave, duty, wfh)
    ensures needsRegularization <==> status == Incomplete
  {
    status, paid, needsRegularization := status0, paid0, needsRegularization0;
    if leave >= FULL {
      status, paid, needsRegularization := OnLeave, FULL, false;
    } else if duty >= FULL && status in {Absent, Incomplete} {
      status, paid, needsRegularization := OnDuty, FULL, false;
    } else if leave == HALF {
      paid := Min(FULL, paid + HALF);
      status := if paid >= FULL then Present else HalfDay;
      needsRegularization := false;
    } else if duty == HALF && status in {Absent, HalfDay, Incomplete} {
      paid := Min(FULL, paid + HALF);
      status := if paid >= FULL then Present else HalfDay;
      needsRegularization := false;
    } else if wfh >= FULL && status in {Absent, Incomplete} {
      status, paid, needsRegularization := WorkFromHome, FULL, false;
    } else if wfh == HALF && status in {Absent, HalfDay, Incomplete} {
      paid := Min(FULL, paid + HALF);
      status := if paid >= FULL then Present else WorkFromHome;
      needsRegularization := false;
    }
  }

  method SummarizeDay(f: DayFacts) returns (s: DaySummary)
    ensures (s.status, s.paid) == FinalDay(f)
    ensures (s.checkInAt, s.checkOutAt) == Interval(f)
    ensures s.needsRegularization <==> s.status == Incomplete
    ensures MinutesAgree(s, f.rules)
  {
    var leaveFraction := GetLeaveFraction(f.leaves, f.date);
    var dutyFraction := GetDutyFraction(f.duties, f.date, f.rules.halfDayMinutes);
    var wfhFraction := WfhFraction(f.wfh);
    s := SummarizePunches(f, wfhFraction);
    BaseStatusDeterminesPay(f);
    var status, paid, needsRegularization :=
      ApplyRequests(s.status, s.paid, s.needsRegularization, leaveFraction, dutyFraction, wfhFraction);
    s := s.(status := status, paid := paid, needsRegularization := needsRegularization);
  }

  // ----- status and pay agree

  /** Every day is paid 0, half or 1, in agreement with its status. */
  lemma StatusDeterminesPay(f: DayFacts)
    ensures PaidAsStatusSays(FinalDay(f).0, FinalDay(f).1) && FinalDay(f).1 <= FULL
  {
    BaseStatusDeterminesPay(f);
  }

  // ----- one more leave request

  function WithLeave(f: DayFacts, request: LeaveRequest): DayFacts {
    f.(leaves := f.leaves + [request])
  }

  lemma LeaveFractionGrows(leaves: seq<LeaveRequest>, request: LeaveRequest, date: int)
    ensures LeaveFraction(leaves, date) <= LeaveFraction(leaves + [request], date)
  {
    assert (leaves + [request])[..|leaves|] == leaves;
  }

  /** The only days on which another leave request costs pay: a half-day leave displaces a full day at home. */
  predicate HalfLeaveDisplacesWfh(f: DayFacts, request: LeaveRequest) {
    && LeaveFraction(f.leaves, f.date) == 0
    && LeaveFraction(f.leaves + [request], f.date) == HALF
    && DutyFraction(f.duties, f.date, f.rules.halfDayMinutes) == 0
    && WfhFraction(f.wfh) == FULL
    && Interval(f).0.Some? && BaseDay(f).1 == 0
  }

  /**
   One more approved leave request lowers a day's pay exactly when it is the day's only leave, half
   a day, and the employee, with a full WFH day approved and no on-duty time, punched without
   working half a day.
   */
  lemma LeaveLowersPayIff(f: DayFacts, request: LeaveRequest)
    ensures FinalDay(WithLeave(f, request)).1 < FinalDay(f).1 <==> HalfLeaveDisplacesWfh(f, request)
  {
    LeaveFractionGrows(f.leaves, request, f.date);
    assert BaseDay(WithLeave(f, request)) == BaseDay(f);
    BaseStatusDeterminesPay(f);
  }

  /** A day of plain rules: half a day from 240 minutes and a full one from 480, starting at nine. */
  function PlainDay(wfh: Option<DaySession>, punches: seq<Punch>): DayFacts {
    DayFacts(0, DayRules(240, 480, 540, 10, 9 * 3600), false, false, [], [], wfh, None, punches)
  }

  /** Working an hour in the office on an approved day at home, and then taking half a day off, costs half a day. */
  lemma HalfDayLeaveCanCostPay() returns (f: DayFacts, request: LeaveRequest)
    ensures FinalDay(f) == (WorkFromHome, FULL) && FinalDay(WithLeave(f, request)) == (HalfDay, HALF)
  {
    f := PlainDay(Some(FullDay), [Punch(9 * 3600, CheckIn), Punch(10 * 3600, CheckOut)]);
    request := LeaveRequest(0, 0, FirstHalf, FirstHalf);
    assert f.leaves + [request] == [request] && [request][..0] == [];
    assert LeaveTotal([request], 0) == LeaveTotal([], 0) + HALF;
    IntervalOfTwo(9 * 3600, 10 * 3600);
  }

  /** On a day without approved WFH, leave never lowers the pay. */
  lemma LeaveNeverLowersPayWithoutWfh(f: DayFacts, request: LeaveRequest)
    requires f.wfh.None?
    ensures FinalDay(WithLeave(f, request)).1 >= FinalDay(f).1
  {
    LeaveLowersPayIff(f, request);
  }

  // ----- one more on-duty request

  function WithDuty(f: DayFacts, request: DutyRequest): DayFacts {
    f.(duties := f.duties + [request])
  }

  lemma DutyFractionGrows(duties: seq<DutyRequest>, request: DutyRequest, date: int, halfDayMinutes: nat)
    ensures DutyFraction(duties, date, halfDayMinutes) <= DutyFraction(duties + [request], date, halfDayMinutes)
  {
    assert (duties + [request])[..|duties|] == duties;
  }

  /**
   The only days on which another on-duty request costs pay, none of which has leave: half a day on
   duty displaces a full day at home, or a full day on duty replaces the half day that had
   completed half a day of work.
   */
  predicate DutyCostsPay(f: DayFacts, request: DutyRequest) {
    var before := DutyFraction(f.duties, f.date, f.rules.halfDayMinutes);
    var after := DutyFraction(f.duties + [request], f.date, f.rules.halfDayMinutes);
    var (status, _) := BaseDay(f);
    && LeaveFraction(f.leaves, f.date) == 0
    && (|| (before == 0 && after == HALF && WfhFraction(f.wfh) == FULL && status in {Absent, Incomplete})
        || (before == HALF && after == FULL && WfhFraction(f.wfh) != HALF && status == HalfDay))
  }

  /** One more approved on-duty request lowers a day's pay exactly in those cases. */
  lemma DutyLowersPayIff(f: DayFacts, request: DutyRequest)
    ensures FinalDay(WithDuty(f, request)).1 < FinalDay(f).1 <==> DutyCostsPay(f, request)
  {
    DutyFractionGrows(f.duties, request, f.date, f.rules.halfDayMinutes);
    assert BaseDay(WithDuty(f, request)) == BaseDay(f);
    BaseStatusDeterminesPay(f);
  }

  /** Half a day on duty costs half of a full day at home with an hour in the office. */
  lemma HalfDayDutyCanCostPay() returns (f: DayFacts, request: DutyRequest)
    ensures FinalDay(f) == (WorkFromHome, FULL) && FinalDay(WithDuty(f, request)) == (HalfDay, HALF)
  {
    f := PlainDay(Some(FullDay), [Punch(9 * 3600, CheckIn), Punch(10 * 3600, CheckOut)]);
    request := DutyRequest(0, 0, FirstHalfDay, None, None);
    assert f.duties + [request] == [request] && [request][..0] == [];
    assert DutyTotal([request], 0, 240) == DutyTotal([], 0, 240) + HALF;
    IntervalOfTwo(9 * 3600, 10 * 3600);
  }

  /** A second half day on duty takes away what the first one added to half a day of work. */
  lemma SecondDutyCanCostPay() returns (f: DayFacts, request: DutyRequest)
    ensures FinalDay(f) == (Present, FULL) && FinalDay(WithDuty(f, request)) == (HalfDay, HALF)
  {
    request := DutyRequest(0, 0, SecondHalfDay, None, None);
    var first := DutyRequest(0, 0, FirstHalfDay, None, None);
    f := PlainDay(None, [Punch(9 * 3600, CheckIn), Punch(13 * 3600, CheckOut)]).(duties := [first]);
    assert [first][..0] == [] && [first] + [request] == [first, request] && [first, request][..1] == [first];
    assert DutyTotal([first], 0, 240) == DutyTotal([], 0, 240) + HALF;
    assert DutyTotal([first, request], 0, 240) == DutyTotal([first], 0, 240) + HALF;
    IntervalOfTwo(9 * 3600, 13 * 3600);
    assert BaseDay(f) == (HalfDay, HALF) && BaseDay(WithDuty(f, request)) == (HalfDay, HALF);
  }

  // ----- periods

  /** The halves paid for each date. */
  function PaidOn(facts: int -> DayFacts): int -> nat {
    (date: int) => FinalDay(facts(date)).1
  }

  /** The sum of `pay` over the `days` days from `first`. */
  function SumOver(pay: int -> nat, first: int, days: nat): nat {
    if days == 0 then 0 else SumOver(pay, first, days - 1) + pay(first + days - 1)
  }

  function DaysIn(periodStart: int, periodEnd: int): nat {
    Max(0, periodEnd - periodStart + 1)
  }

  lemma PayIsBounded(facts: int -> DayFacts)
    ensures forall date: int :: PaidOn(facts)(date) <= FULL
  {
    forall date: int
      ensures PaidOn(facts)(date) <= FULL
    {
      StatusDeterminesPay(facts(date));
    }
  }

  method RecalculateDay(facts: int -> DayFacts, date: int) returns (paid: nat)
    ensures paid == PaidOn(facts)(date)
  {
    var day := SummarizeDay(facts(date));
    paid := day.paid;
  }

  /** Halves of a day paid, and halves lost, over a period. */
  method GetPayrollAttendanceSummary(facts: int -> DayFacts, periodStart: int, periodEnd: int)
    returns (paid: nat, lop: nat)
    ensures paid == SumOver(PaidOn(facts), periodStart, DaysIn(periodStart, periodEnd))
    ensures paid + lop == 2 * DaysIn(periodStart, periodEnd)
    ensures periodStart == periodEnd ==> paid == FinalDay(facts(periodStart)).1
  {
    ghost var pay := PaidOn(facts);
    ghost var days := DaysIn(periodStart, periodEnd);
    paid := 0;
    var current := periodStart;
    ghost var n: nat := 0;
    while current <= periodEnd
      invariant n <= days && current == periodStart + n
      invariant paid == SumOver(pay, periodStart, n)
      decreases days - n
    {
      var day := RecalculateDay(facts, current);
      paid := paid + day;
      current := current + 1;
      n := n + 1;
    }
    PayIsBounded(facts);
    SumIsBounded(pay, periodStart, days);
    if periodStart == periodEnd {
      OneDayIsItsPay(pay, periodStart);
    }
    var totalDays := periodEnd - periodStart + 1;
    lop := Max(0, 2 * totalDays - paid);
  }

  /** A period of one day pays what the day pays. */
  lemma OneDayIsItsPay(pay: int -> nat, day: int)
    ensures SumOver(pay, day, 1) == pay(day) && SumOver(pay, day, 0) == 0
  {
  }

  lemma {:induction false} SumIsBounded(pay: int -> nat, first: int, days: nat)
    requires forall date: int :: pay(date) <= FULL
    ensures SumOver(pay, first, days) <= 2 * days
  {
    if days > 0 {
      SumIsBounded(pay, first, days - 1);
    }
  }

  /** Paid days, and so also lost days, add up over any split of a period. */
  lemma {:induction false} PeriodsAddUp(pay: int -> nat, first: int, m: nat, n: nat)
    ensures SumOver(pay, first, m + n) == SumOver(pay, first, m) + SumOver(pay, first + m, n)
    ensures 2 * (m + n) - SumOver(pay, first, m + n)
         == (2 * m - SumOver(pay, first, m)) + (2 * n - SumOver(pay, first + m, n))
    decreases n
  {
    if n > 0 {
      PeriodsAddUp(pay, first, m, n - 1);
    }
  }

  lemma {:induction false} SumIsMonotone(pay: int -> nat, more: int -> nat, first: int, days: nat)
    requires forall date: int :: first <= date < first + days ==> pay(date) <= more(date)
    ensures SumOver(pay, first, days) <= SumOver(more, first, days)
  {
    if days > 0 {
      SumIsMonotone(pay, more, first, days - 1);
    }
  }

  /** Over a period without approved WFH, another leave request never raises the loss of pay. */
  lemma LeaveNeverRaisesLop(facts: int -> DayFacts, more: int -> DayFacts, request: LeaveRequest, first: int, days: nat)
    requires forall date: int :: first <= date < first + days ==>
               facts(date).wfh.None? && more(date) == WithLeave(facts(date), request)
    ensures 2 * days - SumOver(PaidOn(more), first, days) <= 2 * days - SumOver(PaidOn(facts), first, days)
  {
    var before, after := PaidOn(facts), PaidOn(more);
    forall date: int | first <= date < first + days
      ensures before(date) <= after(date)
    {
      assert more(date) == WithLeave(facts(date), request);
      LeaveNeverLowersPayWithoutWfh(facts(date), request);
    }
    SumIsMonotone(before, after, first, days);
  }
}
