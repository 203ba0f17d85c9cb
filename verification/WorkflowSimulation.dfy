/** The workflow simulation, and in what sense real runs follow it. */
module WorkflowSimulation {
  import opened Prelude
  import opened ApproverResolution
  import opened ApprovalRuns
  import opened ApprovalInvariant
  import opened ApprovalTheorems
  import opened WorkflowSelection

  datatype SimulatedStage = SimulatedStage(sequence: nat, mode: StageMode, approvers: seq<Assignment>, warned: bool)

  function Simulated(stage: Stage, org: Organisation, request: Request): SimulatedStage {
    var approvers := StageApprovers(org, stage.rule, request);
    SimulatedStage(stage.sequence, stage.mode, approvers, approvers == [])
  }

  function Simulation(ctx: RunContext, org: Organisation): (simulated: seq<SimulatedStage>)
    ensures |simulated| == |ctx.stages|
  {
    seq(|ctx.stages|, i requires 0 <= i < |ctx.stages| => Simulated(ctx.stages[i], org, ctx.request))
  }

  /** What the simulation reports: the workflow, why it was chosen, and its stages. */
  datatype Report = Report(workflow: WorkflowId, source: Source, stages: seq<SimulatedStage>)

  method SimulateWorkflow(o: Options, a: Application, stagesOf: WorkflowId -> seq<Stage>, org: Organisation)
    returns (report: Result<Report, SelectionError>)
    ensures report.Err? ==> Selects(o, a, Err(report.error))
    ensures report.Ok? ==>
              && Selects(o, a, Ok((report.value.workflow, report.value.source)))
              && report.value.stages ==
                   Simulation(RunContext(stagesOf(report.value.workflow), Request(Some(a.employee), a.kind)), org)
  {
    var chosen := ResolveWorkflowWithSource(o, a);
    if chosen.Err? {
      return Err(chosen.error);
    }
    var stages := SimulateStages(RunContext(stagesOf(chosen.value.0), Request(Some(a.employee), a.kind)), org);
    return Ok(Report(chosen.value.0, chosen.value.1, stages));
  }

  method SimulateStages(ctx: RunContext, org: Organisation) returns (stages: seq<SimulatedStage>)
    ensures stages == Simulation(ctx, org)
    ensures forall k :: 0 <= k < |stages| ==>
              && stages[k].sequence == ctx.stages[k].sequence && stages[k].mode == ctx.stages[k].mode
              && stages[k].approvers == StageApprovers(org, ctx.stages[k].rule, ctx.request)
              && (stages[k].warned <==> |stages[k].approvers| == 0)
  {
    stages := [];
    for i := 0 to |ctx.stages|
      invariant stages == Simulation(ctx, org)[..i]
    {
      var stage := ctx.stages[i];
      var approvers := ResolveStageApprovers(org, stage.rule, ctx.request);
      var warned := false;
      if approvers == [] {
        warned := true;
      }
      stages := stages + [SimulatedStage(stage.sequence, stage.mode, approvers, warned)];
    }
  }

  // ----- who is asked, in order

  /** The (stage, assignee) pairs of a run's rows, in order of creation. */
  function Asked(actions: seq<Action>): seq<(nat, Assignment)> {
    seq(|actions|, i requires 0 <= i < |actions| => (actions[i].stage.sequence, actions[i].assignment))
  }

  function AskedInStage(stage: SimulatedStage): seq<(nat, Assignment)> {
    seq(|stage.approvers|, i requires 0 <= i < |stage.approvers| => (stage.sequence, stage.approvers[i]))
  }

  /** The pairs a simulation announces, stage after stage. */
  function Announced(simulated: seq<SimulatedStage>): seq<(nat, Assignment)> {
    if simulated == [] then []
    else Announced(simulated[..|simulated| - 1]) + AskedInStage(simulated[|simulated| - 1])
  }

  /** Where the stage that a run waits for stands in the workflow. */
  lemma {:induction false} NextStageAt(stages: seq<Stage>, k: nat)
    requires Ascending(stages) && k < |stages|
    ensures NextStage(stages, stages[k].sequence) == if k + 1 < |stages| then Some(stages[k + 1]) else None
    decreases |stages|
  {
    if k > 0 {
      NextStageAt(stages[1..], k - 1);
    } else if |stages| > 1 {
      assert stages[1..][0] == stages[1];
    }
  }

  /** The run has asked exactly whom the simulation announces for the first k + 1 stages. */
  ghost predicate Follows(ctx: RunContext, org: Organisation, s: RunState, k: nat) {
    && k < |ctx.stages|
    && s.currentStage == ctx.stages[k].sequence
    && Asked(s.actions) == Announced(Simulation(ctx, org)[..k + 1])
  }

  predicate NoEscalation(trace: seq<(Environment, Step)>) {
    forall i :: 0 <= i < |trace| ==> !trace[i].1.EscalateStep?
  }

  ghost predicate SameOrganisation(org: Organisation, trace: seq<(Environment, Step)>) {
    forall i :: 0 <= i < |trace| ==> trace[i].0.org == org
  }

  lemma AskedOfBoth(actions: seq<Action>, rows: seq<Action>)
    ensures Asked(actions + rows) == Asked(actions) + Asked(rows)
  {
  }

  lemma NewStageIsAnnounced(ctx: RunContext, org: Organisation, actions: seq<Action>, k: nat, now: int)
    requires k < |ctx.stages|
    requires Asked(actions) == Announced(Simulation(ctx, org)[..k])
    ensures Asked(actions + NewActions(ctx.stages[k], StageApprovers(org, ctx.stages[k].rule, ctx.request), now))
         == Announced(Simulation(ctx, org)[..k + 1])
  {
    var simulated := Simulation(ctx, org);
    assert simulated[..k + 1][..k] == simulated[..k];
    var rows := NewActions(ctx.stages[k], StageApprovers(org, ctx.stages[k].rule, ctx.request), now);
    AskedOfBoth(actions, rows);
    assert Asked(rows) == AskedInStage(simulated[k]);
  }

  lemma CreationFollows(ctx: RunContext, env: Environment)
    requires Ascending(ctx.stages) && Create(ctx, env).Ok?
    ensures Follows(ctx, env.org, Create(ctx, env).value, 0)
  {
    var empty := RunState(RunStatus.Pending, ctx.stages[0].sequence, [], []);
    OpenStageRows(ctx, empty, ctx.stages[0], env);
    NewStageIsAnnounced(ctx, env.org, [], 0, env.now);
    assert [] + NewActions(ctx.stages[0], StageApprovers(env.org, ctx.stages[0].rule, ctx.request), env.now)
        == NewActions(ctx.stages[0], StageApprovers(env.org, ctx.stages[0].rule, ctx.request), env.now);
  }

  lemma ApprovalFollows(ctx: RunContext, s: RunState, env: Environment, id: nat, actor: UserId, k: nat)
    returns (k': nat)
    requires Invariant(ctx, s) && Follows(ctx, env.org, s, k) && Approve(ctx, s, env, id, actor).Ok?
    ensures k <= k' <= k + 1 && Follows(ctx, env.org, Approve(ctx, s, env, id, actor).value, k')
  {
    var next := Approve(ctx, s, env, id, actor).value;
    var decided := ActionsAfterApproval(s, env, id);
    ApproveShape(ctx, s, env, id, actor);
    assert Asked(decided) == Asked(s.actions);
    NextStageAt(ctx.stages, k);
    if next == s.(status := next.status, actions := decided) {
      k' := k;
    } else {
      k' := k + 1;
      NewStageIsAnnounced(ctx, env.org, decided, k + 1, env.now);
    }
  }

  lemma StepFollows(ctx: RunContext, s: RunState, env: Environment, step: Step, k: nat) returns (k': nat)
    requires Invariant(ctx, s) && Follows(ctx, env.org, s, k) && !step.EscalateStep?
    ensures Follows(ctx, env.org, Apply(ctx, s, env, step), k')
  {
    var next := Apply(ctx, s, env, step);
    if step.ApproveStep? && Attempt(ctx, s, env, step).Ok? {
      k' := ApprovalFollows(ctx, s, env, step.id, step.actor, k);
    } else {
      k' := k;
      assert Asked(next.actions) == Asked(s.actions);
    }
  }

  lemma {:induction false} TraceFollows(ctx: RunContext, org: Organisation, s: RunState,
                                        trace: seq<(Environment, Step)>, k: nat)
    returns (k': nat)
    requires Invariant(ctx, s) && Follows(ctx, org, s, k)
    requires NoEscalation(trace) && SameOrganisation(org, trace)
    ensures Follows(ctx, org, Execute(ctx, s, trace), k')
    decreases |trace|
  {
    if trace == [] {
      k' := k;
    } else {
      var (env, step) := trace[0];
      assert !trace[0].1.EscalateStep? && trace[0].0.org == org;
      var next := StepFollows(ctx, s, env, step, k);
      StepKeepsInvariant(ctx, s, env, step);
      k' := TraceFollows(ctx, org, Apply(ctx, s, env, step), trace[1..], next);
    }
  }

  /**
   With the organisation data fixed and nothing escalated, a run has at any time asked exactly the
   simulated approvers of the stages it has reached, once each and in order; if it is approved,
   those of every stage.
   */
  lemma RunsFollowTheSimulation(ctx: RunContext, env: Environment, trace: seq<(Environment, Step)>)
    requires Ascending(ctx.stages) && Create(ctx, env).Ok?
    requires NoEscalation(trace) && SameOrganisation(env.org, trace)
    ensures var s := Execute(ctx, Create(ctx, env).value, trace);
            var simulated := Simulation(ctx, env.org);
            && (exists k :: 0 <= k < |ctx.stages| && ctx.stages[k].sequence == s.currentStage
                            && Asked(s.actions) == Announced(simulated[..k + 1]))
            && (s.status.Approved? ==> Asked(s.actions) == Announced(simulated))
  {
    var created := Create(ctx, env).value;
    CreateKeepsInvariant(ctx, env);
    CreationFollows(ctx, env);
    var k := TraceFollows(ctx, env.org, created, trace, 0);
    var s := Execute(ctx, created, trace);
    assert Asked(s.actions) == Announced(Simulation(ctx, env.org)[..k + 1]);
    ExecuteKeepsInvariant(ctx, created, trace);
    if s.status.Approved? {
      assert ctx.stages[|ctx.stages| - 1] in ctx.stages;
      var last := ctx.stages[|ctx.stages| - 1];
      assert Passed(s.actions, last);
      assert last.sequence <= s.currentStage;
      assert k == |ctx.stages| - 1;
      assert Simulation(ctx, env.org)[..k + 1] == Simulation(ctx, env.org);
    }
  }

  // ----- stages without approvers

  lemma StepStaysBelow(ctx: RunContext, s: RunState, env: Environment, step: Step, k: nat)
    requires Invariant(ctx, s)
    requires k < |ctx.stages| && Simulation(ctx, env.org)[k].warned
    requires s.currentStage < ctx.stages[k].sequence && !s.status.Approved?
    ensures var next := Apply(ctx, s, env, step);
            next.currentStage < ctx.stages[k].sequence && !next.status.Approved?
  {
    if step.ApproveStep? && Attempt(ctx, s, env, step).Ok? {
      ApprovalStaysBelow(ctx, s, env, step.id, step.actor, k);
      StepKeepsInvariant(ctx, s, env, step);
      UnreachedStageIsOpen(ctx, Apply(ctx, s, env, step), ctx.stages[k]);
    }
  }

  lemma ApprovalStaysBelow(ctx: RunContext, s: RunState, env: Environment, id: nat, actor: UserId, k: nat)
    requires Invariant(ctx, s) && Approve(ctx, s, env, id, actor).Ok?
    requires k < |ctx.stages| && s.currentStage < ctx.stages[k].sequence
    requires StageApprovers(env.org, ctx.stages[k].rule, ctx.request) == []
    ensures Approve(ctx, s, env, id, actor).value.currentStage < ctx.stages[k].sequence
  {
    ApproveShape(ctx, s, env, id, actor);
    if Approve(ctx, s, env, id, actor).value.currentStage != s.currentStage {
      EarlierUnlessSame(ctx.stages, s.currentStage, k);
    }
  }

  lemma EarlierUnlessSame(stages: seq<Stage>, current: nat, k: nat)
    requires Ascending(stages) && k < |stages| && current < stages[k].sequence
    ensures var next := NextStage(stages, current);
            next.Some? && (next.value == stages[k] || next.value.sequence < stages[k].sequence)
  {
    NextStageIsNext(stages, current);
    assert stages[k] in stages;
  }

  lemma UnreachedStageIsOpen(ctx: RunContext, s: RunState, stage: Stage)
    requires Invariant(ctx, s) && stage in ctx.stages && s.currentStage < stage.sequence
    ensures !s.status.Approved?
  {
    assert !Passed(s.actions, stage);
  }

  lemma {:induction false} TraceStaysBelow(ctx: RunContext, org: Organisation, s: RunState,
                                           trace: seq<(Environment, Step)>, k: nat)
    requires Invariant(ctx, s) && SameOrganisation(org, trace)
    requires k < |ctx.stages| && Simulation(ctx, org)[k].warned
    requires s.currentStage < ctx.stages[k].sequence && !s.status.Approved?
    ensures var last := Execute(ctx, s, trace);
            last.currentStage < ctx.stages[k].sequence && !last.status.Approved?
    decreases |trace|
  {
    if trace != [] {
      assert trace[0].0.org == org;
      StepStaysBelow(ctx, s, trace[0].0, trace[0].1, k);
      StepKeepsInvariant(ctx, s, trace[0].0, trace[0].1);
      TraceStaysBelow(ctx, org, Apply(ctx, s, trace[0].0, trace[0].1), trace[1..], k);
    }
  }

  /**
   A stage for which the simulation warns is never reached, whatever is approved, rejected or
   escalated: no run gets past the stage before it, and none is approved.
   */
  lemma WarnedStageBlocksRuns(ctx: RunContext, env: Environment, trace: seq<(Environment, Step)>, k: nat)
    requires Ascending(ctx.stages) && SameOrganisation(env.org, trace)
    requires k < |ctx.stages| && Simulation(ctx, env.org)[k].warned
    ensures Create(ctx, env).Ok? ==>
              var s := Execute(ctx, Create(ctx, env).value, trace);
              s.currentStage < ctx.stages[k].sequence && !s.status.Approved?
  {
    if Create(ctx, env).Ok? {
      var created := Create(ctx, env).value;
      CreateKeepsInvariant(ctx, env);
      assert created.currentStage == ctx.stages[0].sequence && created.status.Pending?;
      TraceStaysBelow(ctx, env.org, created, trace, k);
    }
  }

  // ----- stages with approvers

  predicate NothingWarned(ctx: RunContext, org: Organisation) {
    forall k :: 0 <= k < |ctx.stages| ==> StageApprovers(org, ctx.stages[k].rule, ctx.request) != []
  }

  /** Whatever stage comes next has approvers. */
  predicate NextIsStaffed(ctx: RunContext, org: Organisation, s: RunState) {
    var next := NextStage(ctx.stages, s.currentStage);
    next.Some? ==> StageApprovers(org, next.value.rule, ctx.request) != []
  }

  lemma ApprovalIsAccepted(ctx: RunContext, s: RunState, env: Environment, id: nat)
    requires Invariant(ctx, s) && NextIsStaffed(ctx, env.org, s) && !env.actionsBlocked
    requires id in PendingIds(s.actions)
    ensures Approve(ctx, s, env, id, s.actions[id].assignment.user).Ok?
  {
    var next := s.(actions := ActionsAfterApproval(s, env, id));
    NextStageIsNext(ctx.stages, s.currentStage);
    var following := NextStage(ctx.stages, s.currentStage);
    if following.Some? {
      OpenStageRows(ctx, next, following.value, env);
    }
  }

  /** An approval opens a later stage, or leaves fewer actions pending. */
  lemma ApprovalMakesProgress(ctx: RunContext, s: RunState, env: Environment, id: nat, actor: UserId)
    requires Invariant(ctx, s) && Approve(ctx, s, env, id, actor).Ok?
    ensures var next := Approve(ctx, s, env, id, actor).value;
            || |StagesLeft(ctx, next)| < |StagesLeft(ctx, s)|
            || (|StagesLeft(ctx, next)| == |StagesLeft(ctx, s)| && |PendingIds(next.actions)| < |PendingIds(s.actions)|)
  {
    var next := Approve(ctx, s, env, id, actor).value;
    var decided := ActionsAfterApproval(s, env, id);
    ApproveShape(ctx, s, env, id, actor);
    if next == s.(status := next.status, actions := decided) {
      assert StagesLeft(ctx, next) == StagesLeft(ctx, s);
      assert decided[id].status.Approved?;
      SmallerSet(PendingIds(next.actions), PendingIds(s.actions), id);
    } else {
      SmallerSet(StagesLeft(ctx, next), StagesLeft(ctx, s), NextStage(ctx.stages, s.currentStage).value);
    }
  }

  lemma ApprovalGoesOn(ctx: RunContext, s: RunState, env: Environment, id: nat, actor: UserId)
    requires Invariant(ctx, s) && Approve(ctx, s, env, id, actor).Ok?
    ensures var next := Approve(ctx, s, env, id, actor).value;
            next.status.Pending? || next.status.Approved?
  {
    ApproveShape(ctx, s, env, id, actor);
    assert s.actions[id].status.Pending? && s.status.Pending?;
  }

  /** In a pending run some approval is accepted and makes progress. */
  lemma SomeoneApproves(ctx: RunContext, s: RunState, env: Environment) returns (step: Step)
    requires Invariant(ctx, s) && NextIsStaffed(ctx, env.org, s) && !env.actionsBlocked && s.status.Pending?
    ensures step.ApproveStep?
    ensures var next := Apply(ctx, s, env, step);
            && Invariant(ctx, next) && (next.status.Pending? || next.status.Approved?)
            && (|| |StagesLeft(ctx, next)| < |StagesLeft(ctx, s)|
                || (|StagesLeft(ctx, next)| == |StagesLeft(ctx, s)|
                  && |PendingIds(next.actions)| < |PendingIds(s.actions)|))
  {
    var id: nat :| id < |s.actions| && s.actions[id].status.Pending?;
    var actor := s.actions[id].assignment.user;
    step := ApproveStep(id, actor);
    ApprovalIsAccepted(ctx, s, env, id);
    assert Apply(ctx, s, env, step) == Approve(ctx, s, env, id, actor).value;
    ApprovalMakesProgress(ctx, s, env, id, actor);
    ApprovalGoesOn(ctx, s, env, id, actor);
    ApproveKeepsInvariant(ctx, s, env, id, actor);
  }

  predicate OnlyApprovals(trace: seq<(Environment, Step)>) {
    forall i :: 0 <= i < |trace| ==> trace[i].1.ApproveStep?
  }

  lemma FirstStepThenRest(ctx: RunContext, s: RunState, env: Environment, step: Step, rest: seq<(Environment, Step)>)
    returns (trace: seq<(Environment, Step)>)
    requires step.ApproveStep? && OnlyApprovals(rest) && SameOrganisation(env.org, rest)
    ensures Execute(ctx, s, trace) == Execute(ctx, Apply(ctx, s, env, step), rest)
    ensures OnlyApprovals(trace) && SameOrganisation(env.org, trace)
  {
    trace := [(env, step)] + rest;
    assert trace[1..] == rest;
  }

  /** Without warnings there is a series of approvals that ends in an approved run. */
  lemma {:induction false} EveryoneApproves(ctx: RunContext, s: RunState, env: Environment)
    returns (trace: seq<(Environment, Step)>)
    requires Invariant(ctx, s) && NothingWarned(ctx, env.org) && !env.actionsBlocked
    requires s.status.Pending? || s.status.Approved?
    ensures Execute(ctx, s, trace).status.Approved?
    ensures OnlyApprovals(trace) && SameOrganisation(env.org, trace)
    decreases |StagesLeft(ctx, s)|, |PendingIds(s.actions)|
  {
    if s.status.Approved? {
      trace := [];
    } else {
      NextStageIsNext(ctx.stages, s.currentStage);
      var step := SomeoneApproves(ctx, s, env);
      var rest := EveryoneApproves(ctx, Apply(ctx, s, env, step), env);
      trace := FirstStepThenRest(ctx, s, env, step, rest);
    }
  }

  /** Whoever approves, whenever, under whatever data: the run stays pending, or is approved. */
  lemma {:induction false} ApprovalsNeverReject(ctx: RunContext, s: RunState, trace: seq<(Environment, Step)>)
    requires Invariant(ctx, s) && OnlyApprovals(trace)
    requires s.status.Pending? || s.status.Approved?
    ensures Execute(ctx, s, trace).status.Pending? || Execute(ctx, s, trace).status.Approved?
    decreases |trace|
  {
    if trace != [] {
      var (env, step) := trace[0];
      assert trace[0].1.ApproveStep?;
      if Attempt(ctx, s, env, step).Ok? {
        ApprovalGoesOn(ctx, s, env, step.id, step.actor);
      }
      StepKeepsInvariant(ctx, s, env, step);
      ApprovalsNeverReject(ctx, Apply(ctx, s, env, step), trace[1..]);
    }
  }

  /**
   If everyone approves, the run is approved: a series of approvals ends in an approved run if and
   only if it leaves nothing pending, whatever the simulation said.
   */
  lemma ApprovedIffNothingLeft(ctx: RunContext, env: Environment, trace: seq<(Environment, Step)>)
    requires Ascending(ctx.stages) && Create(ctx, env).Ok? && OnlyApprovals(trace)
    ensures var s := Execute(ctx, Create(ctx, env).value, trace);
            s.status.Approved? <==> !SomethingPending(s.actions)
  {
    CreateKeepsInvariant(ctx, env);
    var created := Create(ctx, env).value;
    ApprovalsNeverReject(ctx, created, trace);
    PendingRunHasPendingAction(ctx, env, trace);
  }

  ghost predicate CanBeApproved(ctx: RunContext, env: Environment)
    requires Create(ctx, env).Ok?
  {
    exists trace ::
      SameOrganisation(env.org, trace) && Execute(ctx, Create(ctx, env).value, trace).status.Approved?
  }

  /** With fixed organisation data and no licence block, a run can be approved exactly when nothing is warned about. */
  lemma ApprovableIffNothingWarned(ctx: RunContext, env: Environment)
    requires Ascending(ctx.stages) && !env.actionsBlocked && ctx.stages != []
    ensures (Create(ctx, env).Ok? && CanBeApproved(ctx, env)) <==>
            forall k :: 0 <= k < |ctx.stages| ==> !Simulation(ctx, env.org)[k].warned
  {
    var simulated := Simulation(ctx, env.org);
    if forall k :: 0 <= k < |ctx.stages| ==> !simulated[k].warned {
      forall k | 0 <= k < |ctx.stages|
        ensures StageApprovers(env.org, ctx.stages[k].rule, ctx.request) != []
      {
        assert !simulated[k].warned;
      }
      var empty := RunState(RunStatus.Pending, ctx.stages[0].sequence, [], []);
      OpenStageRows(ctx, empty, ctx.stages[0], env);
      CreateKeepsInvariant(ctx, env);
      assert Create(ctx, env).value.status.Pending?;
      var trace := EveryoneApproves(ctx, Create(ctx, env).value, env);
    } else {
      var k :| 0 <= k < |ctx.stages| && simulated[k].warned;
      if Create(ctx, env).Ok? && CanBeApproved(ctx, env) {
        var trace :| SameOrganisation(env.org, trace) && Execute(ctx, Create(ctx, env).value, trace).status.Approved?;
        WarnedStageBlocksRuns(ctx, env, trace, k);
      }
    }
  }
}
