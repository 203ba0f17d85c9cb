/** Runs in which an escalation fails, and what that does to the others. */
module EscalationExamples {
  import opened Prelude
  import opened ApproverResolution
  import opened ApprovalRuns
  import opened ApprovalInvariant
  import opened EscalationPass

  /** Employee n is user n, and nobody reports to anybody. */
  const ORG := Organisation(
    (e: EmployeeId) => e, (e: EmployeeId) => None, (e: EmployeeId) => None, (e: EmployeeId) => None,
    (d: nat) => [], (l: nat) => [], (r: string) => [], None, None, [], 0)

  const NOON := Setting(ORG, 0)
  const NEXT_DAY := Setting(ORG, 24)

  /** Employees 1 and 2 must both approve the leave of employee 0; after a day, 2 stands in. */
  const BOTH := Stage(
    1, All, StageRule([SpecificEmployee(Some(1)), SpecificEmployee(Some(2))], NoFallback),
    Some(SlaPolicy(true, Some(24), FallbackEmployee(Some(2)))))

  /** Employee 1 alone must approve; after a day, 2 stands in. */
  const ALONE := BOTH.(rule := StageRule([SpecificEmployee(Some(1))], NoFallback))

  const LEAVE := Request(Some(0), Leave)

  function Asks(user: UserId): Assignment {
    Assignment(user, Some(user), Direct, None, None)
  }

  lemma WhoIsAsked()
    ensures StageApprovers(ORG, ALONE.rule, LEAVE) == [Asks(1)]
    ensures StageApprovers(ORG, BOTH.rule, LEAVE) == [Asks(1), Asks(2)]
  {
    var one, two := SpecificEmployee(Some(1)), SpecificEmployee(Some(2));
    assert CandidatesOf(ORG, BOTH.rule, one, LEAVE) == [Asks(1)] == CandidatesOf(ORG, ALONE.rule, one, LEAVE);
    assert CandidatesOf(ORG, BOTH.rule, two, LEAVE) == [Asks(2)];
    assert [one, two][1..] == [two] && [two][1..] == [] && [one][1..] == [];
    assert Candidates(ORG, BOTH.rule, [two], LEAVE) == [Asks(2)];
    assert Candidates(ORG, BOTH.rule, [one, two], LEAVE) == [Asks(1), Asks(2)];
    assert Candidates(ORG, ALONE.rule, [one], LEAVE) == [Asks(1)];
    assert [Asks(1), Asks(2)][1..] == [Asks(2)] && [Asks(2)][1..] == [] && [Asks(1)][1..] == [];
    assert Unbarred(ORG, BOTH.rule, LEAVE, [Asks(2)]) == [Asks(2)];
    assert Unbarred(ORG, BOTH.rule, LEAVE, [Asks(1), Asks(2)]) == [Asks(1), Asks(2)];
    assert Unbarred(ORG, ALONE.rule, LEAVE, [Asks(1)]) == [Asks(1)];
    assert Deduplicated([Asks(2)], {} + {1}) == [Asks(2)];
    assert Deduplicated([Asks(1), Asks(2)], {}) == [Asks(1), Asks(2)];
    assert Deduplicated([Asks(1)], {}) == [Asks(1)];
  }

  function Row(stage: Stage, user: UserId): Action {
    NewAction(stage, Asks(user), 0, None)
  }

  lemma Created()
    ensures Create(RunContext([BOTH], LEAVE), NOON) ==
              Ok(RunState(RunStatus.Pending, 1, [Row(BOTH, 1), Row(BOTH, 2)], []))
    ensures Create(RunContext([ALONE], LEAVE), NOON) == Ok(RunState(RunStatus.Pending, 1, [Row(ALONE, 1)], []))
  {
    WhoIsAsked();
    var empty := RunState(RunStatus.Pending, 1, [], []);
    OpenStageRows(RunContext([BOTH], LEAVE), empty, BOTH, NOON);
    OpenStageRows(RunContext([ALONE], LEAVE), empty, ALONE, NOON);
    assert [] + NewActions(BOTH, [Asks(1), Asks(2)], 0) == [Row(BOTH, 1), Row(BOTH, 2)];
    assert [] + NewActions(ALONE, [Asks(1)], 0) == [Row(ALONE, 1)];
  }

  /** The first run after employee 2 has approved. */
  const HALF_APPROVED := RunState(
    RunStatus.Pending, 1, [Row(BOTH, 1), Decided(Row(BOTH, 2), ActionStatus.Approved, 0)], [])

  const TWO_APPROVES := [(NOON, ApproveStep(1, 2))]

  lemma HalfApprovedIsReached()
    ensures Create(RunContext([BOTH], LEAVE), NOON).Ok?
    ensures Execute(RunContext([BOTH], LEAVE), Create(RunContext([BOTH], LEAVE), NOON).value, TWO_APPROVES) ==
              HALF_APPROVED
  {
    Created();
    var ctx := RunContext([BOTH], LEAVE);
    var s := Create(ctx, NOON).value;
    var rows := ActionsAfterApproval(s, NOON, 1);
    assert rows == HALF_APPROVED.actions;
    assert rows[0].stage == BOTH && rows[0].status.Pending?;
    assert HasPending(rows, BOTH);
    assert Approve(ctx, s, NOON, 1, 2) == Ok(HALF_APPROVED);
    assert TWO_APPROVES[1..] == [];
  }

  /** In a run that can be reached, an escalation that is due breaches the uniqueness constraint. */
  lemma EscalationCanFail()
    returns (ctx: RunContext, env: Environment, trace: seq<(Environment, Step)>, late: Environment, id: nat)
    ensures Ascending(ctx.stages) && Create(ctx, env).Ok?
    ensures var s := Execute(ctx, Create(ctx, env).value, trace);
            && id < |s.actions| && DueEscalation(ctx, s, late, id).Some?
            && Escalate(ctx, s, late, id) == Err(DuplicateAction)
  {
    ctx, env, trace, late, id := RunContext([BOTH], LEAVE), NOON, TWO_APPROVES, NEXT_DAY, 0;
    HalfApprovedIsReached();
    TwoIsBlocked();
  }

  lemma TwoIsBlocked()
    ensures DueEscalation(RunContext([BOTH], LEAVE), HALF_APPROVED, NEXT_DAY, 0) == Some(Person(2, Some(2)))
    ensures EscalateTo(HALF_APPROVED, NEXT_DAY, 0, Person(2, Some(2))) == Err(DuplicateAction)
  {
    var rows := HALF_APPROVED.actions;
    assert rows[..1][..0] == [] && |rows[..1]| == 1;
    assert PendingActionOf(rows[..1], BOTH, 2).None?;
    assert PendingActionOf(rows, BOTH, 2).None?;
    assert rows[1].stage == BOTH && rows[1].assignment.user == 2;
    assert Taken(rows, BOTH, 2);
  }

  /** The run is in a state that a series of steps leads to. */
  ghost predicate Reachable(run: LiveRun) {
    exists env, trace :: Create(run.ctx, env).Ok? && Execute(run.ctx, Create(run.ctx, env).value, trace) == run.state
  }

  ghost predicate AllReachable(runs: seq<LiveRun>) {
    forall r {:trigger Reachable(runs[r])} :: 0 <= r < |runs| ==> Reachable(runs[r])
  }

  /** The half approved run, and one that waits for employee 1 alone. */
  const TWO_RUNS := [
    LiveRun(RunContext([BOTH], LEAVE), ORG, HALF_APPROVED),
    LiveRun(RunContext([ALONE], LEAVE), ORG, RunState(RunStatus.Pending, 1, [Row(ALONE, 1)], []))]

  /**
   The failure of one escalation keeps the job from the other runs: an action that could be
   escalated without error stays due.
   */
  lemma OneRunCanStarveAnother() returns (runs: seq<LiveRun>, now: int, refs: seq<Ref>, starved: Ref)
    ensures AllSound(runs) && ListsPending(runs, refs) && starved in refs
    ensures AllReachable(runs)
    ensures Due(runs, now, starved) && EscalateOne(runs, now, starved).Ok?
    ensures var (after, count, error) := EscalateEach(runs, now, refs);
            error == Some(DuplicateAction) && count == 0 && Due(after, now, starved)
  {
    runs, now, refs, starved := TWO_RUNS, 24, [(0, 0), (1, 0)], (1, 0);
    TwoRunsAreReached();
    TwoRunsAreSound();
    BothRefsAreListed();
    SecondIsDue();
    TwoIsBlocked();
    assert EscalateOne(runs, now, refs[0]) == Err(DuplicateAction);
  }

  lemma BothRefsAreListed()
    ensures ListsPending(TWO_RUNS, [(0, 0), (1, 0)])
  {
  }

  lemma SecondIsDue()
    ensures Due(TWO_RUNS, 24, (1, 0)) && EscalateOne(TWO_RUNS, 24, (1, 0)).Ok?
  {
    var run := TWO_RUNS[1];
    assert DueEscalation(run.ctx, run.state, NEXT_DAY, 0) == Some(Person(2, Some(2)));
    assert PendingActionOf(run.state.actions, ALONE, 2).None? && !Taken(run.state.actions, ALONE, 2);
  }

  lemma TwoRunsAreReached()
    ensures AllReachable(TWO_RUNS)
  {
    Created();
    HalfApprovedIsReached();
    var created := Create(TWO_RUNS[1].ctx, NOON).value;
    assert Execute(TWO_RUNS[1].ctx, created, []) == created;
    assert Reachable(TWO_RUNS[0]) && Reachable(TWO_RUNS[1]);
  }

  lemma TwoRunsAreSound()
    ensures AllSound(TWO_RUNS)
  {
    Created();
    HalfApprovedIsReached();
    EveryReachableStateIsSound(TWO_RUNS[0].ctx, NOON, TWO_APPROVES);
    CreateKeepsInvariant(TWO_RUNS[1].ctx, NOON);
    forall r | 0 <= r < |TWO_RUNS|
      ensures Invariant(TWO_RUNS[r].ctx, TWO_RUNS[r].state)
    {
    }
  }

  // ----- the requester as the target

  /** Employee 1 must approve; after a day, employee 0 stands in. */
  const SELF := ALONE.(sla := Some(SlaPolicy(true, Some(24), FallbackEmployee(Some(0)))))

  /** Escalation does not bar the requester, who may then approve their own leave. */
  lemma RequesterCanApproveOwnLeave() returns (ctx: RunContext, env: Environment, trace: seq<(Environment, Step)>)
    ensures Ascending(ctx.stages) && Create(ctx, env).Ok?
    ensures ctx.request == LEAVE && !SelfApprovalAllowed(LEAVE.kind)
    ensures var s := Execute(ctx, Create(ctx, env).value, trace);
            s.status.Approved? && exists i :: && 0 <= i < |s.actions| && s.actions[i].status.Approved?
                                             && s.actions[i].assignment.user == ORG.userOf(LEAVE.requester.value)
  {
    ctx, env := RunContext([SELF], LEAVE), NOON;
    var escalate, approve := (NEXT_DAY, EscalateStep(0)), (NEXT_DAY, ApproveStep(1, 0));
    trace := [escalate, approve];
    WhoIsAsked();
    OpenStageRows(ctx, RunState(RunStatus.Pending, 1, [], []), SELF, NOON);
    var created := Create(ctx, env).value;
    assert created.actions == [Row(SELF, 1)];
    var escalated := Apply(ctx, created, NEXT_DAY, escalate.1);
    HandedToRequester(ctx, created);
    ApprovedByRequester(ctx, escalated);
    var later: seq<(Environment, Step)> := [approve];
    assert trace[1..] == later && later[1..] == [];
    assert Execute(ctx, escalated, later) == Apply(ctx, escalated, NEXT_DAY, approve.1);
  }

  lemma HandedToRequester(ctx: RunContext, s: RunState)
    requires ctx == RunContext([SELF], LEAVE) && s == RunState(RunStatus.Pending, 1, [Row(SELF, 1)], [])
    ensures var next := Apply(ctx, s, NEXT_DAY, EscalateStep(0));
            && next.status.Pending? && next.currentStage == 1 && |next.actions| == 2
            && HandedOn(next.actions[0]) && next.actions[0].stage == SELF
            && next.actions[1].status.Pending? && next.actions[1].stage == SELF
            && next.actions[1].assignment.user == 0
  {
    assert s.actions[..0] == [];
    assert PendingActionOf(s.actions, SELF, 0).None?;
  }

  lemma ApprovedByRequester(ctx: RunContext, s: RunState)
    requires ctx == RunContext([SELF], LEAVE) && s.status.Pending? && s.currentStage == 1 && |s.actions| == 2
    requires HandedOn(s.actions[0]) && s.actions[1].status.Pending? && s.actions[1].stage == SELF
    requires s.actions[1].assignment.user == 0
    ensures var next := Apply(ctx, s, NEXT_DAY, ApproveStep(1, 0));
            && next.status.Approved? && |next.actions| == 2 && next.actions[1].status.Approved?
            && next.actions[1].assignment.user == 0
  {
    var rows := ActionsAfterApproval(s, NEXT_DAY, 1);
    assert rows[0] == s.actions[0] && rows[1].status.Approved?;
    assert !HasPending(rows, SELF);
    assert ctx.stages[1..] == [];
    assert NextStage(ctx.stages, 1) == None;
  }
}
