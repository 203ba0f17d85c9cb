/**
 The escalation job. It looks at every pending action of every pending run, oldest first, each in
 a transaction of its own, and an error ends it.
 */
module EscalationPass {
  import opened Prelude
  import opened ApproverResolution
  import opened ApprovalRuns
  import opened ApprovalInvariant
  import opened ApprovalTheorems
  import opened ApprovalRunObject

  /** A run with the organisation whose data its escalations read. */
  datatype LiveRun = LiveRun(ctx: RunContext, org: Organisation, state: RunState)

  /** An action, as the number of its run and its own number. */
  type Ref = (nat, nat)

  function Setting(org: Organisation, now: int): Environment {
    Environment(org, now, false)
  }

  // ----- what is due, and what cannot be escalated

  function TargetOf(ctx: RunContext, s: RunState, env: Environment, id: nat): Option<Person> {
    if id < |s.actions| then DueEscalation(ctx, s, env, id) else None
  }

  /** The action is due, and whoever it would go to has a row of the stage that is not pending. */
  predicate Stuck(ctx: RunContext, s: RunState, env: Environment, id: nat) {
    var target := TargetOf(ctx, s, env, id);
    && target.Some?
    && exists i :: && 0 <= i < |s.actions| && s.actions[i].stage == s.actions[id].stage
                   && s.actions[i].assignment.user == target.value.user && !s.actions[i].status.Pending?
  }

  predicate Due(runs: seq<LiveRun>, now: int, ref: Ref) {
    ref.0 < |runs| && TargetOf(runs[ref.0].ctx, runs[ref.0].state, Setting(runs[ref.0].org, now), ref.1).Some?
  }

  predicate Blocked(runs: seq<LiveRun>, now: int, ref: Ref) {
    ref.0 < |runs| && Stuck(runs[ref.0].ctx, runs[ref.0].state, Setting(runs[ref.0].org, now), ref.1)
  }

  ghost predicate AllSound(runs: seq<LiveRun>) {
    forall r {:trigger Invariant(runs[r].ctx, runs[r].state)} :: 0 <= r < |runs| ==>
      Invariant(runs[r].ctx, runs[r].state)
  }

  // ----- the pass

  function EscalateOne(runs: seq<LiveRun>, now: int, ref: Ref): Result<seq<LiveRun>, RunError> {
    if !Due(runs, now, ref) then Ok(runs) else
    var run := runs[ref.0];
    var env := Setting(run.org, now);
    match EscalateTo(run.state, env, ref.1, DueEscalation(run.ctx, run.state, env, ref.1).value)
    case Err(error) => Err(error)
    case Ok(next) => Ok(runs[ref.0 := run.(state := next)])
  }

  function CountedOn(outcome: (seq<LiveRun>, nat, Option<RunError>), more: nat): (seq<LiveRun>, nat, Option<RunError>) {
    (outcome.0, outcome.1 + more, outcome.2)
  }

  /** A pass over the given actions, up to the first error, with the number of escalations. */
  function EscalateEach(runs: seq<LiveRun>, now: int, refs: seq<Ref>): (seq<LiveRun>, nat, Option<RunError>)
    decreases |refs|
  {
    if refs == [] then (runs, 0, None) else
    match EscalateOne(runs, now, refs[0])
    case Err(error) => (runs, 0, Some(error))
    case Ok(next) =>
      CountedOn(EscalateEach(next, now, refs[1..]), if Due(runs, now, refs[0]) then 1 else 0)
  }

  ghost function Snapshot(runs: seq<ApprovalRun>, orgs: seq<Organisation>): (live: seq<LiveRun>)
    requires |runs| == |orgs|
    reads runs
    ensures |live| == |runs|
  {
    seq(|runs|, r requires 0 <= r < |runs| reads runs => LiveRun(runs[r].ctx, orgs[r], runs[r].State()))
  }

  /** One turn of the job's loop. */
  method EscalateAction(runs: seq<ApprovalRun>, orgs: seq<Organisation>, now: int, ref: Ref)
    returns (count: nat, error: Option<RunError>)
    requires |runs| == |orgs| && Distinct(runs)
    modifies runs
    ensures count == (if error.None? && Due(old(Snapshot(runs, orgs)), now, ref) then 1 else 0)
    ensures Commits(EscalateOne(old(Snapshot(runs, orgs)), now, ref),
                    old(Snapshot(runs, orgs)), Snapshot(runs, orgs), error)
  {
    var (r, id) := ref;
    if r >= |runs| || id >= |runs[r].actions| {
      return 0, None;
    }
    var target := runs[r].DueTarget(id, Setting(orgs[r], now));
    if target.None? {
      return 0, None;
    }
    error := runs[r].EscalateTo(id, target.value, Setting(orgs[r], now));
    count := if error.None? then 1 else 0;
    ghost var before := old(Snapshot(runs, orgs));
    assert Snapshot(runs, orgs) == before[r := before[r].(state := runs[r].State())];
    assert error.Some? ==> Snapshot(runs, orgs) == before;
  }

  lemma OneTurn(runs: seq<LiveRun>, now: int, refs: seq<Ref>, i: nat, count: nat)
    requires i < |refs|
    ensures CountedOn(EscalateEach(runs, now, refs[i..]), count) ==
            match EscalateOne(runs, now, refs[i])
            case Err(e) => (runs, count, Some(e))
            case Ok(next) =>
              CountedOn(EscalateEach(next, now, refs[i + 1..]), count + if Due(runs, now, refs[i]) then 1 else 0)
  {
    assert refs[i..][0] == refs[i] && refs[i..][1..] == refs[i + 1..];
  }

  /** The job itself, over the actions that were pending when it started. */
  method ProcessPendingActionEscalations(runs: seq<ApprovalRun>, orgs: seq<Organisation>, now: int, refs: seq<Ref>)
    returns (count: nat, error: Option<RunError>)
    requires |runs| == |orgs| && Distinct(runs)
    modifies runs
    ensures (Snapshot(runs, orgs), count, error) == EscalateEach(old(Snapshot(runs, orgs)), now, refs)
  {
    count, error := 0, None;
    ghost var start := Snapshot(runs, orgs);
    ghost var current := start;
    for i := 0 to |refs|
      invariant error.None? && current == Snapshot(runs, orgs)
      invariant EscalateEach(start, now, refs) == CountedOn(EscalateEach(current, now, refs[i..]), count)
    {
      OneTurn(current, now, refs, i, count);
      var escalated;
      escalated, error := EscalateAction(runs, orgs, now, refs[i]);
      if error.Some? {
        return;
      }
      current := Snapshot(runs, orgs);
      count := count + escalated;
    }
  }

  // ----- one escalation and the other actions of its run

  /** The due actions of a run share their stage, and so the person they go to. */
  lemma SharedTarget(ctx: RunContext, s: RunState, env: Environment, i: nat, j: nat)
    requires Invariant(ctx, s)
    requires TargetOf(ctx, s, env, i).Some? && TargetOf(ctx, s, env, j).Some?
    ensures s.actions[i].stage == s.actions[j].stage
    ensures TargetOf(ctx, s, env, i) == TargetOf(ctx, s, env, j)
    ensures Stuck(ctx, s, env, i) <==> Stuck(ctx, s, env, j)
  {
  }

  lemma StuckFails(ctx: RunContext, s: RunState, env: Environment, id: nat)
    requires Invariant(ctx, s) && TargetOf(ctx, s, env, id).Some?
    ensures EscalateTo(s, env, id, TargetOf(ctx, s, env, id).value).Err? <==> Stuck(ctx, s, env, id)
    ensures Stuck(ctx, s, env, id) ==> EscalateTo(s, env, id, TargetOf(ctx, s, env, id).value) == Err(DuplicateAction)
  {
    EscalationFailsIff(ctx, s, env, id);
  }

  /** What an escalation does to the rows: one is handed on, and one for the target may be added. */
  ghost predicate HandsOn(s: RunState, next: RunState, id: nat, user: UserId) {
    && id < |s.actions| && next.status == s.status && |s.actions| <= |next.actions| <= |s.actions| + 1
    && (forall i :: 0 <= i < |s.actions| && i != id ==> next.actions[i] == s.actions[i])
    && next.actions[id].stage == s.actions[id].stage && next.actions[id].assignment == s.actions[id].assignment
    && !next.actions[id].status.Pending?
    && (|next.actions| > |s.actions| ==>
          var row := next.actions[|s.actions|];
          row.stage == s.actions[id].stage && row.assignment.user == user && row.status.Pending?)
  }

  lemma EscalatingHandsOn(s: RunState, env: Environment, id: nat, target: Person)
    requires id < |s.actions|
    ensures EscalateTo(s, env, id, target).Ok? ==>
              HandsOn(s, EscalateTo(s, env, id, target).value, id, target.user)
  {
  }

  lemma OthersStayDue(ctx: RunContext, s: RunState, env: Environment, id: nat, next: RunState, other: nat)
    requires TargetOf(ctx, s, env, id).Some? && HandsOn(s, next, id, TargetOf(ctx, s, env, id).value.user)
    requires TargetOf(ctx, s, env, other).Some? ==> s.actions[other].stage == s.actions[id].stage
    ensures TargetOf(ctx, next, env, other) == if other == id then None else TargetOf(ctx, s, env, other)
  {
  }

  lemma OthersStayFree(ctx: RunContext, s: RunState, env: Environment, id: nat, next: RunState, other: nat)
    requires Invariant(ctx, s) && TargetOf(ctx, s, env, id).Some? && !Stuck(ctx, s, env, id)
    requires HandsOn(s, next, id, TargetOf(ctx, s, env, id).value.user)
    requires TargetOf(ctx, next, env, other).Some? ==> TargetOf(ctx, next, env, other) == TargetOf(ctx, s, env, other)
    ensures !Stuck(ctx, next, env, other) && !Stuck(ctx, s, env, other)
  {
    if TargetOf(ctx, s, env, other).Some? {
      SharedTarget(ctx, s, env, id, other);
      var user := TargetOf(ctx, s, env, id).value.user;
      assert s.actions[id].assignment.user != user;
      forall i | 0 <= i < |next.actions| && next.actions[i].stage == s.actions[id].stage
              && next.actions[i].assignment.user == user
        ensures next.actions[i].status.Pending?
      {
      }
    }
  }

  /** Within its run an escalation takes itself off what is due, and makes nothing stuck. */
  lemma OthersInRun(ctx: RunContext, s: RunState, env: Environment, id: nat, next: RunState)
    requires Invariant(ctx, s) && TargetOf(ctx, s, env, id).Some? && !Stuck(ctx, s, env, id)
    requires EscalateTo(s, env, id, TargetOf(ctx, s, env, id).value) == Ok(next)
    ensures forall other: nat :: TargetOf(ctx, next, env, other).Some? <==>
              TargetOf(ctx, s, env, other).Some? && other != id
    ensures forall other: nat :: Stuck(ctx, next, env, other) <==> Stuck(ctx, s, env, other)
  {
    EscalatingHandsOn(s, env, id, TargetOf(ctx, s, env, id).value);
    forall other: nat
      ensures TargetOf(ctx, next, env, other).Some? <==> TargetOf(ctx, s, env, other).Some? && other != id
      ensures Stuck(ctx, next, env, other) <==> Stuck(ctx, s, env, other)
    {
      if TargetOf(ctx, s, env, other).Some? {
        SharedTarget(ctx, s, env, id, other);
      }
      OthersStayDue(ctx, s, env, id, next, other);
      OthersStayFree(ctx, s, env, id, next, other);
    }
  }

  // ----- one escalation and the other actions of all runs

  lemma OthersInAllRuns(runs: seq<LiveRun>, now: int, ref: Ref, next: RunState)
    requires ref.0 < |runs|
    requires var run, env := runs[ref.0], Setting(runs[ref.0].org, now);
             && (forall other: nat :: TargetOf(run.ctx, next, env, other).Some? <==>
                   TargetOf(run.ctx, run.state, env, other).Some? && other != ref.1)
             && (forall other: nat :: Stuck(run.ctx, next, env, other) <==> Stuck(run.ctx, run.state, env, other))
    ensures var after := runs[ref.0 := runs[ref.0].(state := next)];
            && (forall other :: Due(after, now, other) <==> Due(runs, now, other) && other != ref)
            && (forall other :: Blocked(after, now, other) <==> Blocked(runs, now, other))
  {
  }

  lemma BlockedFails(runs: seq<LiveRun>, now: int, ref: Ref)
    requires AllSound(runs)
    ensures EscalateOne(runs, now, ref).Err? <==> Blocked(runs, now, ref)
    ensures Blocked(runs, now, ref) ==> Due(runs, now, ref) && EscalateOne(runs, now, ref) == Err(DuplicateAction)
  {
    if Due(runs, now, ref) {
      StuckFails(runs[ref.0].ctx, runs[ref.0].state, Setting(runs[ref.0].org, now), ref.1);
    }
  }

  /** One escalation takes exactly one action off the list of what is due, and blocks nothing. */
  lemma EscalatingOne(runs: seq<LiveRun>, now: int, ref: Ref)
    requires AllSound(runs) && Due(runs, now, ref) && !Blocked(runs, now, ref)
    ensures EscalateOne(runs, now, ref).Ok? && AllSound(EscalateOne(runs, now, ref).value)
    ensures forall other :: Due(EscalateOne(runs, now, ref).value, now, other) <==>
              Due(runs, now, other) && other != ref
    ensures forall other :: Blocked(EscalateOne(runs, now, ref).value, now, other) <==> Blocked(runs, now, other)
  {
    var run := runs[ref.0];
    var env := Setting(run.org, now);
    var target := TargetOf(run.ctx, run.state, env, ref.1).value;
    BlockedFails(runs, now, ref);
    var next := EscalateTo(run.state, env, ref.1, target).value;
    EscalateKeepsInvariant(run.ctx, run.state, env, ref.1);
    OthersInRun(run.ctx, run.state, env, ref.1, next);
    OthersInAllRuns(runs, now, ref, next);
  }

  // ----- when a pass fails, and what it leaves behind

  function CountDue(runs: seq<LiveRun>, now: int, refs: seq<Ref>): nat {
    if refs == [] then 0
    else (if Due(runs, now, refs[0]) then 1 else 0) + CountDue(runs, now, refs[1..])
  }

  /** Of distinct actions each that is due counts once. */
  lemma {:induction false} CountDueIsSize(runs: seq<LiveRun>, now: int, refs: seq<Ref>)
    requires Distinct(refs)
    ensures CountDue(runs, now, refs) == |set ref | ref in refs && Due(runs, now, ref)|
  {
    if refs != [] {
      var first, rest := refs[0], refs[1..];
      var later := set ref | ref in rest && Due(runs, now, ref);
      CountDueIsSize(runs, now, rest);
      assert first !in later && refs == [first] + rest;
      assert (set ref | ref in refs && Due(runs, now, ref)) == if Due(runs, now, first) then later + {first} else later;
    }
  }

  lemma {:induction false} SameCount(runs: seq<LiveRun>, others: seq<LiveRun>, now: int, refs: seq<Ref>)
    requires forall ref :: ref in refs ==> (Due(runs, now, ref) <==> Due(others, now, ref))
    ensures CountDue(runs, now, refs) == CountDue(others, now, refs)
  {
    if refs != [] {
      assert refs[0] in refs;
      SameCount(runs, others, now, refs[1..]);
    }
  }

  /** The first `k` actions can be escalated, and the next one, if there is one, cannot. */
  predicate FirstBlockedAt(runs: seq<LiveRun>, now: int, refs: seq<Ref>, k: nat) {
    && k <= |refs|
    && (forall j :: 0 <= j < k ==> !Blocked(runs, now, refs[j]))
    && (k < |refs| ==> Blocked(runs, now, refs[k]))
  }

  /** Everything due among the first `k` actions was handed on, and nothing else happened to what is due. */
  ghost predicate HandedOnFirst(runs: seq<LiveRun>, now: int, done: seq<Ref>, after: seq<LiveRun>, count: nat) {
    && count == CountDue(runs, now, done)
    && (forall ref :: Due(after, now, ref) <==> Due(runs, now, ref) && ref !in done)
    && (count == 0 ==> after == runs)
  }

  lemma HandingOnOneMore(runs: seq<LiveRun>, now: int, first: Ref, next: seq<LiveRun>, done: seq<Ref>,
                         after: seq<LiveRun>, count: nat)
    requires forall ref :: Due(next, now, ref) <==> Due(runs, now, ref) && ref != first
    requires !Due(runs, now, first) ==> next == runs
    requires first !in done && HandedOnFirst(next, now, done, after, count)
    ensures HandedOnFirst(runs, now, [first] + done, after, count + if Due(runs, now, first) then 1 else 0)
  {
    SameCount(runs, next, now, done);
    assert ([first] + done)[1..] == done;
  }

  /**
   A pass hands on what is due before the first blocked action, fails there, and leaves everything
   that is due from there on, in whatever run, as due as it was.
   */
  lemma {:induction false} PassStopsAtFirstBlocked(runs: seq<LiveRun>, now: int, refs: seq<Ref>, k: nat)
    requires AllSound(runs) && Distinct(refs) && FirstBlockedAt(runs, now, refs, k)
    ensures var (after, count, error) := EscalateEach(runs, now, refs);
            && error == (if k < |refs| then Some(DuplicateAction) else None)
            && HandedOnFirst(runs, now, refs[..k], after, count)
    decreases |refs|
  {
    if k > 0 {
      var first, rest := refs[0], refs[1..];
      var next := NextAfter(runs, now, first);
      PassStopsAtFirstBlocked(next, now, rest, k - 1);
      var (after, count, error) := EscalateEach(next, now, rest);
      HandingOnOneMore(runs, now, first, next, rest[..k - 1], after, count);
      assert refs[..k] == [first] + rest[..k - 1];
    } else {
      PassEndsAtOnce(runs, now, refs);
    }
  }

  lemma PassEndsAtOnce(runs: seq<LiveRun>, now: int, refs: seq<Ref>)
    requires AllSound(runs) && (refs == [] || Blocked(runs, now, refs[0]))
    ensures EscalateEach(runs, now, refs) == (runs, 0, if refs != [] then Some(DuplicateAction) else None)
  {
    if refs != [] {
      BlockedFails(runs, now, refs[0]);
    }
  }

  lemma NextAfter(runs: seq<LiveRun>, now: int, ref: Ref) returns (next: seq<LiveRun>)
    requires AllSound(runs) && !Blocked(runs, now, ref)
    ensures EscalateOne(runs, now, ref) == Ok(next) && AllSound(next)
    ensures forall other :: Due(next, now, other) <==> Due(runs, now, other) && other != ref
    ensures forall other :: Blocked(next, now, other) <==> Blocked(runs, now, other)
    ensures !Due(runs, now, ref) ==> next == runs
  {
    if Due(runs, now, ref) {
      EscalatingOne(runs, now, ref);
    }
    next := EscalateOne(runs, now, ref).value;
  }

  lemma {:induction false} FindFirstBlocked(runs: seq<LiveRun>, now: int, refs: seq<Ref>) returns (k: nat)
    ensures FirstBlockedAt(runs, now, refs, k)
    ensures k < |refs| <==> exists ref :: ref in refs && Blocked(runs, now, ref)
  {
    k := 0;
    while k < |refs| && !Blocked(runs, now, refs[k])
      invariant k <= |refs| && forall j :: 0 <= j < k ==> !Blocked(runs, now, refs[j])
    {
      k := k + 1;
    }
    if k < |refs| {
      assert refs[k] in refs;
    }
  }

  /** The actions a pass looks at: all pending actions of all pending runs, each once. */
  ghost predicate ListsPending(runs: seq<LiveRun>, refs: seq<Ref>) {
    && Distinct(refs)
    && forall ref: Ref :: ref in refs <==>
         && ref.0 < |runs| && runs[ref.0].state.status.Pending?
         && ref.1 < |runs[ref.0].state.actions| && runs[ref.0].state.actions[ref.1].status.Pending?
  }

  /**
   A pass succeeds if and only if no due action would go to a person with a decided action in the
   same stage, as seen before it starts; it then hands on all that was due and leaves nothing due.
   */
  lemma PassSucceedsIff(runs: seq<LiveRun>, now: int, refs: seq<Ref>)
    requires AllSound(runs) && ListsPending(runs, refs)
    ensures var (after, count, error) := EscalateEach(runs, now, refs);
            && (error == None <==> forall ref :: Due(runs, now, ref) ==> !Blocked(runs, now, ref))
            && (error == None ==> count == CountDue(runs, now, refs) && forall ref :: !Due(after, now, ref))
            && (error != None ==> error == Some(DuplicateAction) && exists ref :: Due(after, now, ref))
  {
    var k := FindFirstBlocked(runs, now, refs);
    PassStopsAtFirstBlocked(runs, now, refs, k);
    assert forall ref :: Due(runs, now, ref) ==> ref in refs;
    if k == |refs| {
      assert refs[..k] == refs;
    } else {
      assert Blocked(runs, now, refs[k]) && refs[k] !in refs[..k];
    }
  }

  /** Within one run a pass hands on everything that is due, or fails and changes nothing. */
  lemma OneRunAllOrNothing(run: LiveRun, now: int, refs: seq<Ref>)
    requires Invariant(run.ctx, run.state) && ListsPending([run], refs)
    ensures var (after, count, error) := EscalateEach([run], now, refs);
            if error == None then forall ref :: !Due(after, now, ref) else count == 0 && after == [run]
  {
    var runs := [run];
    var k := FindFirstBlocked(runs, now, refs);
    PassSucceedsIff(runs, now, refs);
    PassStopsAtFirstBlocked(runs, now, refs, k);
    if k < |refs| {
      var env := Setting(run.org, now);
      forall ref | ref in refs[..k]
        ensures !Due(runs, now, ref)
      {
        if Due(runs, now, ref) {
          SharedTarget(run.ctx, run.state, env, ref.1, refs[k].1);
        }
      }
      NothingDueCountsZero(runs, now, refs[..k]);
    }
  }

  lemma {:induction false} NothingDueCountsZero(runs: seq<LiveRun>, now: int, refs: seq<Ref>)
    requires forall ref :: ref in refs ==> !Due(runs, now, ref)
    ensures CountDue(runs, now, refs) == 0
  {
    if refs != [] {
      assert refs[0] in refs;
      NothingDueCountsZero(runs, now, refs[1..]);
    }
  }

  /** For each run, a pass is a trace of single escalations, so it keeps whatever those keep. */
  lemma {:induction false} PassIsATrace(runs: seq<LiveRun>, now: int, refs: seq<Ref>, r: nat)
    returns (trace: seq<(Environment, Step)>)
    requires r < |runs|
    ensures var (after, _, _) := EscalateEach(runs, now, refs);
            |after| == |runs| && after[r] == runs[r].(state := Execute(runs[r].ctx, runs[r].state, trace))
    ensures forall i :: 0 <= i < |trace| ==> trace[i].0 == Setting(runs[r].org, now) && trace[i].1.EscalateStep?
    decreases |refs|
  {
    if refs == [] || EscalateOne(runs, now, refs[0]).Err? {
      trace := [];
    } else {
      var next := EscalateOne(runs, now, refs[0]).value;
      var rest := PassIsATrace(next, now, refs[1..], r);
      if refs[0].0 == r && Due(runs, now, refs[0]) {
        trace := [(Setting(runs[r].org, now), EscalateStep(refs[0].1))] + rest;
        assert trace[1..] == rest;
        assert Apply(runs[r].ctx, runs[r].state, trace[0].0, trace[0].1) == next[r].state;
      } else {
        trace := rest;
      }
    }
  }
}
