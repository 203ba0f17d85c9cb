/** Punching in and out: what is stored for a day, and when a punch is refused. */
module Punches {
  import opened Prelude
  import opened AttendanceDay

  datatype PunchError = AlreadyCheckedIn | NotCheckedIn

  /** What is stored for one employee and date: the punches in order of time, and the override if there is one. */
  datatype DayLog = DayLog(override: Option<AttendanceRecord>, punches: seq<Punch>)

  /** The list as the query orders it once the punch is stored. */
  function WithPunch(punches: seq<Punch>, p: Punch): seq<Punch> {
    if punches == [] then [p] else
    var last := |punches| - 1;
    if punches[last].at <= p.at then punches + [p]
    else WithPunch(punches[..last], p) + [punches[last]]
  }

  /** Storing a punch keeps the others. */
  lemma {:induction false} PunchIsStored(punches: seq<Punch>, p: Punch)
    ensures multiset(WithPunch(punches, p)) == multiset(punches) + multiset{p}
  {
    var last := |punches| - 1;
    if punches != [] && punches[last].at > p.at {
      PunchIsStored(punches[..last], p);
      assert punches == punches[..last] + [punches[last]];
    }
  }

  lemma StoredMembers(punches: seq<Punch>, p: Punch, q: Punch)
    requires q in WithPunch(punches, p)
    ensures q == p || q in punches
  {
    PunchIsStored(punches, p);
    assert q in multiset(WithPunch(punches, p));
  }

  lemma {:induction false} PunchIsStoredInOrder(punches: seq<Punch>, p: Punch)
    requires InOrder(punches)
    ensures InOrder(WithPunch(punches, p))
  {
    var last := |punches| - 1;
    if punches != [] && punches[last].at > p.at {
      var fewer := WithPunch(punches[..last], p);
      PunchIsStoredInOrder(punches[..last], p);
      forall i | 0 <= i < |fewer|
        ensures fewer[i].at <= punches[last].at
      {
        StoredMembers(punches[..last], p, fewer[i]);
      }
    }
  }

  lemma LatestPunchComesLast(punches: seq<Punch>, p: Punch)
    requires InOrder(punches) && (punches != [] ==> punches[|punches| - 1].at <= p.at)
    ensures WithPunch(punches, p) == punches + [p]
  {
  }

  /** Recording a punch: the interval of the day so far decides whether it is refused. */
  function Recorded(log: DayLog, action: PunchAction, now: Instant): Result<DayLog, PunchError> {
    var (checkIn, checkOut) := IntervalFrom(log.override, log.punches);
    if action == CheckIn && checkIn.Some? && checkOut.None? then Err(AlreadyCheckedIn)
    else if action == CheckOut && checkIn.None? then Err(NotCheckedIn)
    else Ok(log.(punches := WithPunch(log.punches, Punch(now, action))))
  }

  class PunchLog {
    var override: Option<AttendanceRecord>
    var punches: seq<Punch>

    method RecordEmployeePunch(action: PunchAction, now: Instant) returns (error: Option<PunchError>)
      modifies this
      ensures var before := DayLog(old(override), old(punches));
              Commits(Recorded(before, action, now), before, DayLog(override, punches), error)
    {
      var checkInAt: Option<Instant>, checkOutAt: Option<Instant> := None, None;
      if override.Some? {
        checkInAt, checkOutAt := Some(override.value.checkInAt), override.value.checkOutAt;
      } else {
        var interval := PickInterval(punches);
        checkInAt, checkOutAt := interval.0, interval.1;
      }
      if action == CheckIn && checkInAt.Some? && checkOutAt.None? {
        return Some(AlreadyCheckedIn);
      }
      if action == CheckOut && checkInAt.None? {
        return Some(NotCheckedIn);
      }
      punches := WithPunch(punches, Punch(now, action));
      return None;
    }
  }

  /**
   Everything that can happen to a day: somebody punches, another source delivers a punch of any
   time, or an override is set or removed.
   */
  datatype DayEvent =
    | Attempted(action: PunchAction, now: Instant)
    | Ingested(punch: Punch)
    | Overridden(record: Option<AttendanceRecord>)

  function AfterEvent(log: DayLog, event: DayEvent): DayLog {
    match event
    case Attempted(action, now) =>
      var recorded := Recorded(log, action, now);
      if recorded.Ok? then recorded.value else log
    case Ingested(punch) => log.(punches := WithPunch(log.punches, punch))
    case Overridden(record) => log.(override := record)
  }

  /** The day after a series of events; refused attempts leave no trace. */
  function AfterEvents(events: seq<DayEvent>): DayLog {
    if events == [] then DayLog(None, [])
    else AfterEvent(AfterEvents(events[..|events| - 1]), events[|events| - 1])
  }

  /** What each event does: a refusal changes nothing, a punch is added, and an override replaces the last one. */
  lemma EventIff(log: DayLog, event: DayEvent)
    ensures var after := AfterEvent(log, event);
            match event
            case Attempted(action, now) =>
              if Recorded(log, action, now).Err? then after == log
              else after.override == log.override
                   && multiset(after.punches) == multiset(log.punches) + multiset{Punch(now, action)}
            case Ingested(punch) =>
              after.override == log.override && multiset(after.punches) == multiset(log.punches) + multiset{punch}
            case Overridden(record) => after.override == record && after.punches == log.punches
    ensures AfterEvents([]) == DayLog(None, [])
  {
    match event
    case Attempted(action, now) => PunchIsStored(log.punches, Punch(now, action));
    case Ingested(punch) => PunchIsStored(log.punches, punch);
    case Overridden(_) =>
  }

  /** A refused check-in says that the employee is checked in, a refused check-out that they are not. */
  lemma RefusalNamesState(log: DayLog, action: PunchAction, now: Instant)
    requires Recorded(log, action, now).Err?
    ensures action.CheckIn? ==> Recorded(log, action, now) == Err(AlreadyCheckedIn)
    ensures action.CheckOut? ==> Recorded(log, action, now) == Err(NotCheckedIn)
    ensures !action.Raw?
  {
  }

  lemma {:induction false} PunchesStayInOrder(events: seq<DayEvent>)
    ensures InOrder(AfterEvents(events).punches)
  {
    if events != [] {
      var before := AfterEvents(events[..|events| - 1]);
      PunchesStayInOrder(events[..|events| - 1]);
      match events[|events| - 1]
      case Attempted(action, now) => PunchIsStoredInOrder(before.punches, Punch(now, action));
      case Ingested(punch) => PunchIsStoredInOrder(before.punches, punch);
      case Overridden(_) =>
    }
  }

  /**
   Nothing follows the first check-in, or the first punch of a day without any: there is no
   check-out at the latest time of the day, and no check-in at another.
   */
  predicate StillOpen(punches: seq<Punch>) {
    punches != [] &&
    var latest := punches[|punches| - 1].at;
    && (forall p :: p in punches && p.action == CheckIn ==> p.at == latest)
    && (forall p :: p in punches && p.action == CheckOut ==> p.at != latest)
    && (Punch(latest, CheckIn) in punches || punches[0].at == latest)
  }

  lemma OpenIntervalIff(punches: seq<Punch>)
    requires InOrder(punches) && punches != []
    ensures PickInterval(punches).1.None? <==> StillOpen(punches)
  {
    IntervalIsWidest(punches);
    var latest := punches[|punches| - 1];
    assert latest in punches && punches[0] in punches;
    forall p | p in punches
      ensures punches[0].at <= p.at <= latest.at
      ensures p == Punch(p.at, p.action)
    {
      var i :| 0 <= i < |punches| && punches[i] == p;
    }
  }

  /**
   After any events, a check-in is refused exactly while the override, or else the list of punches,
   leaves the day open; a check-out exactly if there is neither an override nor a punch.
   */
  lemma RefusedPunchIff(events: seq<DayEvent>, action: PunchAction, now: Instant)
    ensures var log := AfterEvents(events);
            Recorded(log, action, now).Err? <==>
              if log.override.Some? then action == CheckIn && log.override.value.checkOutAt.None?
              else (action == CheckIn && StillOpen(log.punches)) || (action == CheckOut && log.punches == [])
  {
    var log := AfterEvents(events);
    PunchesStayInOrder(events);
    if log.override.None? && log.punches != [] {
      OpenIntervalIff(log.punches);
    }
  }

  // ----- days on which employees only punch themselves

  /** Only check-ins and check-outs are attempted, one after the other. */
  predicate OnlyPunching(events: seq<DayEvent>) {
    && (forall i :: 0 <= i < |events| ==> events[i].Attempted? && events[i].action in {CheckIn, CheckOut})
    && (forall i, j :: 0 <= i < j < |events| ==>
          events[i].Attempted? && events[j].Attempted? && events[i].now <= events[j].now)
  }

  /** First in, then out, and after that anything. */
  predicate StartsInThenOut(punches: seq<Punch>) {
    && (|punches| > 0 ==> punches[0].action == CheckIn)
    && (|punches| > 1 ==> punches[1].action == CheckOut)
  }

  lemma OpenAfterFirstCheckIn(punches: seq<Punch>)
    requires InOrder(punches) && StartsInThenOut(punches) && punches != []
    ensures StillOpen(punches) <==> |punches| == 1
  {
    assert punches[0] in punches && punches[|punches| - 1] in punches;
    if |punches| > 1 {
      assert punches[1] in punches;
    }
  }

  /** One more attempt on such a day. */
  lemma OneMoreAttempt(log: DayLog, action: PunchAction, now: Instant)
    requires log.override.None? && InOrder(log.punches) && StartsInThenOut(log.punches)
    requires log.punches != [] ==> log.punches[|log.punches| - 1].at <= now
    requires action in {CheckIn, CheckOut}
    ensures Recorded(log, action, now) ==
              if action == CheckIn && |log.punches| == 1 then Err(AlreadyCheckedIn)
              else if action == CheckOut && log.punches == [] then Err(NotCheckedIn)
              else Ok(log.(punches := log.punches + [Punch(now, action)]))
  {
    LatestPunchComesLast(log.punches, Punch(now, action));
    if log.punches != [] {
      OpenIntervalIff(log.punches);
      OpenAfterFirstCheckIn(log.punches);
    }
  }

  ghost predicate RecordedFrom(events: seq<DayEvent>, punches: seq<Punch>) {
    forall p :: p in punches ==> Attempted(p.action, p.at) in events
  }

  /** The recorded punches start with a check-in followed by a check-out. */
  lemma {:induction false} RecordedDayIsWellFormed(events: seq<DayEvent>)
    requires OnlyPunching(events)
    ensures var log := AfterEvents(events);
            && log.override.None? && InOrder(log.punches) && StartsInThenOut(log.punches)
            && RecordedFrom(events, log.punches)
  {
    if events != [] {
      var earlier := events[..|events| - 1];
      var last := events[|events| - 1];
      var before := AfterEvents(earlier);
      RecordedDayIsWellFormed(earlier);
      LatestComesBefore(events, before.punches);
      OneMoreAttempt(before, last.action, last.now);
      PunchesStayInOrder(events);
    }
  }

  lemma LatestComesBefore(events: seq<DayEvent>, punches: seq<Punch>)
    requires OnlyPunching(events) && events != [] && RecordedFrom(events[..|events| - 1], punches)
    ensures punches != [] ==> punches[|punches| - 1].at <= events[|events| - 1].now
  {
    if punches != [] {
      var earlier, latest := events[..|events| - 1], punches[|punches| - 1];
      assert latest in punches;
      var i :| 0 <= i < |earlier| && earlier[i] == Attempted(latest.action, latest.at);
      assert events[i] == earlier[i];
    }
  }

  /** On such a day a check-in is refused exactly while the first one is the only punch. */
  lemma PunchingRefusedIff(events: seq<DayEvent>, action: PunchAction, now: Instant)
    requires OnlyPunching(events) && action in {CheckIn, CheckOut}
    ensures var log := AfterEvents(events);
            Recorded(log, action, now).Err? <==> |log.punches| == if action == CheckIn then 1 else 0
  {
    var log := AfterEvents(events);
    RecordedDayIsWellFormed(events);
    RefusedPunchIff(events, action, now);
    if log.punches != [] {
      OpenAfterFirstCheckIn(log.punches);
    }
  }

  lemma AttemptIsRecorded(events: seq<DayEvent>, punches: seq<Punch>, action: PunchAction, now: Instant)
    requires AfterEvents(events) == DayLog(None, punches) && StartsInThenOut(punches)
    requires punches != [] ==> punches[|punches| - 1].at <= now
    requires (action == CheckIn && |punches| != 1) || (action == CheckOut && |punches| > 0)
    ensures AfterEvents(events + [Attempted(action, now)]) == DayLog(None, punches + [Punch(now, action)])
  {
    PunchesStayInOrder(events);
    OneMoreAttempt(DayLog(None, punches), action, now);
    assert (events + [Attempted(action, now)])[..|events|] == events;
  }

  /** In, out, in and in again: all four are recorded, though the third left the day checked in. */
  lemma RepeatedCheckInIsRecorded(a: Instant, b: Instant, c: Instant, d: Instant)
    returns (events: seq<DayEvent>, punches: seq<Punch>)
    requires a <= b <= c <= d
    ensures events == [Attempted(CheckIn, a), Attempted(CheckOut, b), Attempted(CheckIn, c), Attempted(CheckIn, d)]
    ensures punches == [Punch(a, CheckIn), Punch(b, CheckOut), Punch(c, CheckIn), Punch(d, CheckIn)]
    ensures AfterEvents(events) == DayLog(None, punches)
  {
    var one := [Attempted(CheckIn, a)];
    var two := one + [Attempted(CheckOut, b)];
    var three := two + [Attempted(CheckIn, c)];
    events := three + [Attempted(CheckIn, d)];
    assert events == [Attempted(CheckIn, a), Attempted(CheckOut, b), Attempted(CheckIn, c), Attempted(CheckIn, d)];
    assert [] + one == one;
    var first, second := [Punch(a, CheckIn)], [Punch(a, CheckIn)] + [Punch(b, CheckOut)];
    var third := second + [Punch(c, CheckIn)];
    punches := third + [Punch(d, CheckIn)];
    assert punches == [Punch(a, CheckIn), Punch(b, CheckOut), Punch(c, CheckIn), Punch(d, CheckIn)];
    AttemptIsRecorded([], [], CheckIn, a);
    AttemptIsRecorded(one, first, CheckOut, b);
    AttemptIsRecorded(two, second, CheckIn, c);
    AttemptIsRecorded(three, third, CheckIn, d);
  }
}
