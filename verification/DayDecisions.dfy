/** What decides a day: its requests, its interval and its thresholds, each stated case by case. */
module DayDecisions {
  import opened Prelude
  import opened AttendanceDay

  // ----- requests

  predicate Within(date: int, startDate: int, endDate: int) {
    startDate <= date <= endDate
  }

  /** One of the ends of the request falls on the date and is not a full day. */
  predicate EndsInHalf(startDate: int, endDate: int, date: int, startSession: DaySession, endSession: DaySession) {
    || (date == startDate && !startSession.FullDay?)
    || (date == endDate && !endSession.FullDay?)
  }

  lemma RequestFractionIff(startDate: int, endDate: int, date: int, startSession: DaySession, endSession: DaySession)
    ensures var f := RequestDayFraction(startDate, endDate, date, startSession, endSession);
            var inside := Within(date, startDate, endDate);
            var half := EndsInHalf(startDate, endDate, date, startSession, endSession);
            (f == 0 <==> !inside) && (f == 1 <==> inside && half) && (f == 2 <==> inside && !half)
  {
  }

  lemma LeaveOfOne(r: LeaveRequest, date: int)
    ensures LeaveTotal([r], date) == RequestDayFraction(r.startDate, r.endDate, date, r.startSession, r.endSession)
    ensures LeaveTotal([], date) == 0
  {
    assert [r][..0] == [];
  }

  lemma {:induction false} LeaveOfBoth(a: seq<LeaveRequest>, b: seq<LeaveRequest>, date: int)
    ensures LeaveTotal(a + b, date) == LeaveTotal(a, date) + LeaveTotal(b, date)
  {
    if b == [] {
      assert a + b == a;
    } else {
      assert (a + b)[..|a + b| - 1] == a + b[..|b| - 1];
      LeaveOfBoth(a, b[..|b| - 1], date);
    }
  }

  /** A request counts as the whole day, half of it or nothing. */
  lemma DutyPartIff(r: DutyRequest, date: int, halfDayMinutes: nat)
    ensures var f := DutyPart(r, date, halfDayMinutes);
            var inside := Within(date, r.startDate, r.endDate);
            var byTheClock := r.duration.TimeRange? && r.startDate == date == r.endDate;
            && (!inside ==> f == 0)
            && (inside && r.duration.WholeDay? ==> f == 2)
            && (inside && (r.duration.FirstHalfDay? || r.duration.SecondHalfDay?) ==> f == 1)
            && (inside && r.duration.TimeRange? && !byTheClock ==> f == 2)
            && (byTheClock && (r.startTime.None? || r.endTime.None?) ==> f == 0)
            && (byTheClock && r.startTime.Some? && r.endTime.Some? ==>
                  if halfDayMinutes == 0 || r.endTime.value - r.startTime.value >= 60 * halfDayMinutes then f == 2
                    else f == 1)
  {
  }

  lemma DutyOfOne(r: DutyRequest, date: int, halfDayMinutes: nat)
    ensures DutyTotal([r], date, halfDayMinutes) == DutyPart(r, date, halfDayMinutes)
    ensures DutyTotal([], date, halfDayMinutes) == 0
  {
    assert [r][..0] == [];
  }

  lemma {:induction false} DutyOfBoth(a: seq<DutyRequest>, b: seq<DutyRequest>, date: int, halfDayMinutes: nat)
    ensures DutyTotal(a + b, date, halfDayMinutes) ==
              DutyTotal(a, date, halfDayMinutes) + DutyTotal(b, date, halfDayMinutes)
  {
    if b == [] {
      assert a + b == a;
    } else {
      assert (a + b)[..|a + b| - 1] == a + b[..|b| - 1];
      DutyOfBoth(a, b[..|b| - 1], date, halfDayMinutes);
    }
  }

  /** Requests add up to at most a full day. */
  lemma FractionsAreCapped(f: DayFacts)
    ensures var (total, leave) := (LeaveTotal(f.leaves, f.date), LeaveFraction(f.leaves, f.date));
            (total >= 2 ==> leave == 2) && (total < 2 ==> leave == total)
    ensures var (total, duty) := (DutyTotal(f.duties, f.date, f.rules.halfDayMinutes),
                                  DutyFraction(f.duties, f.date, f.rules.halfDayMinutes));
            (total >= 2 ==> duty == 2) && (total < 2 ==> duty == total)
    ensures WfhFraction(None) == 0 && WfhFraction(Some(FullDay)) == 2
    ensures WfhFraction(Some(FirstHalf)) == 1 && WfhFraction(Some(SecondHalf)) == 1
  {
  }

  // ----- the interval

  /** Whole minutes between check-in and check-out; none if the check-out comes first. */
  lemma WorkedMinutesIff(checkIn: Instant, checkOut: Instant)
    ensures var worked := WorkedMinutes(checkIn, checkOut);
            && (checkOut < checkIn ==> worked == 0)
            && (checkOut >= checkIn ==> 60 * worked <= checkOut - checkIn < 60 * (worked + 1))
  {
  }

  /** An override counts as it stands, whatever was punched. */
  lemma IntervalOfDay(f: DayFacts)
    ensures f.override.Some? ==> Interval(f) == (Some(f.override.value.checkInAt), f.override.value.checkOutAt)
    ensures f.override.None? ==> Interval(f) == PickInterval(f.punches)
    ensures f.override.None? ==> (Interval(f).0.None? <==> f.punches == [])
  {
  }

  /** Late minutes start after the grace, overtime after its threshold, and both need a closed interval. */
  lemma MinutesIff(s: DaySummary, rules: DayRules)
    requires MinutesAgree(s, rules)
    ensures s.checkInAt.Some? && s.checkOutAt.Some? ==>
              var lateBy := s.checkInAt.value - rules.shiftStart - 60 * rules.graceMinutes;
              && s.workedMinutes == WorkedMinutes(s.checkInAt.value, s.checkOutAt.value)
              && (s.workedMinutes > rules.overtimeAfter ==>
                    s.overtimeMinutes > 0 && s.overtimeMinutes + rules.overtimeAfter == s.workedMinutes)
              && (s.workedMinutes <= rules.overtimeAfter ==> s.overtimeMinutes == 0)
              && (s.isLate <==> lateBy > 0)
              && (lateBy <= 0 ==> s.lateMinutes == 0)
              && (lateBy > 0 ==> 60 * s.lateMinutes <= lateBy < 60 * (s.lateMinutes + 1))
    ensures s.checkInAt.None? || s.checkOutAt.None? ==>
              s.workedMinutes == 0 && s.overtimeMinutes == 0 && s.lateMinutes == 0 && !s.isLate
  {
  }

  // ----- before the requests

  /** A closed day is judged by its minutes, an open one is incomplete, and one without punches by the calendar. */
  lemma BaseDayIff(f: DayFacts)
    ensures var (checkIn, checkOut) := Interval(f);
            var (status, paid) := BaseDay(f);
            && (checkIn.Some? && checkOut.Some? ==>
                  var worked := WorkedMinutes(checkIn.value, checkOut.value);
                  && (worked >= f.rules.fullDayMinutes ==> status == Present && paid == 2)
                  && (worked < f.rules.fullDayMinutes && worked >= f.rules.halfDayMinutes ==>
                    status == HalfDay && paid == 1)
                  && (worked < f.rules.fullDayMinutes && worked < f.rules.halfDayMinutes ==>
                    status == Absent && paid == 0))
            && (checkIn.Some? && checkOut.None? ==> status == Incomplete && paid == 0)
            && (checkIn.None? && checkOut.None? ==>
                  && (f.holiday ==> status == Holiday && paid == 2)
                  && (!f.holiday && f.weekOff ==> status == WeekOff && paid == 2)
                  && (!f.holiday && !f.weekOff && f.wfh == Some(FullDay) ==> status == WorkFromHome && paid == 2)
                  && (!f.holiday && !f.weekOff && f.wfh != Some(FullDay) ==> status == Absent && paid == 0))
            && (checkIn.None? ==> checkOut.None?)
  {
  }

  // ----- after the requests

  predicate Unworked(status: DayStatus) {
    status == Absent || status == Incomplete
  }

  /** Nothing, or half a day, came of the day by itself. */
  predicate Deficient(status: DayStatus) {
    Unworked(status) || status == HalfDay
  }

  /** Half a day more than the day was worth: half of it, or all of it. */
  predicate Topped(base: (DayStatus, nat), day: (DayStatus, nat), half: DayStatus) {
    if base.1 == 0 then day == (half, 1) else day == (Present, 2)
  }

  /**
   A full leave settles the day. Next, a full day on duty settles a day on which nothing was worked.
   Next, half a leave adds half a day to whatever the day is; then half a day on duty, a full and a
   half day at home count, each only on a day that lacks it.
   */
  lemma FinalDayIff(f: DayFacts)
    ensures var (base, day) := (BaseDay(f), FinalDay(f));
            var leave := LeaveFraction(f.leaves, f.date);
            var duty := DutyFraction(f.duties, f.date, f.rules.halfDayMinutes);
            && (leave == 2 ==> day == (OnLeave, 2))
            && (leave != 2 && duty == 2 && Unworked(base.0) ==> day == (OnDuty, 2))
            && (leave == 1 && !(duty == 2 && Unworked(base.0)) ==> Topped(base, day, HalfDay))
            && (leave == 0 && duty == 2 && !Unworked(base.0) ==> AtHome(f, base, day))
            && (leave == 0 && duty == 1 && Deficient(base.0) ==> Topped(base, day, HalfDay))
            && (leave == 0 && duty == 1 && !Deficient(base.0) ==> day == base)
            && (leave == 0 && duty == 0 ==> AtHome(f, base, day))
  {
    BaseStatusDeterminesPay(f);
  }

  /** What approved time at home makes of the day. */
  predicate AtHome(f: DayFacts, base: (DayStatus, nat), day: (DayStatus, nat)) {
    && (f.wfh == Some(FullDay) && Unworked(base.0) ==> day == (WorkFromHome, 2))
    && (f.wfh == Some(FullDay) && !Unworked(base.0) ==> day == base)
    && (f.wfh.Some? && f.wfh != Some(FullDay) && Deficient(base.0) ==> Topped(base, day, WorkFromHome))
    && (f.wfh.Some? && f.wfh != Some(FullDay) && !Deficient(base.0) ==> day == base)
    && (f.wfh.None? ==> day == base)
  }

  // ----- periods

  lemma DaysInPeriod(periodStart: int, periodEnd: int)
    ensures periodEnd >= periodStart ==> periodStart + DaysIn(periodStart, periodEnd) == periodEnd + 1
    ensures periodEnd < periodStart ==> DaysIn(periodStart, periodEnd) == 0
  {
  }
}
