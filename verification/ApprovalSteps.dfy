/** Who may decide an action, and what each step of a run does to each of its rows. */
module ApprovalSteps {
  import opened Prelude
  import opened ApproverResolution
  import opened ApprovalRuns
  import opened ApprovalInvariant
  import opened ApprovalTheorems
  import opened WorkflowSimulation

  // ----- who may decide

  /** The actor is the approver of a pending action, and the licence does not block decisions. */
  predicate MayDecide(s: RunState, env: Environment, id: nat, actor: UserId) {
    && id < |s.actions|
    && s.actions[id].assignment.user == actor
    && s.actions[id].status.Pending?
    && !env.actionsBlocked
  }

  /** Why a decision is refused, in the order in which the reasons are looked for. */
  ghost predicate RefusedFor(s: RunState, env: Environment, id: nat, actor: UserId, error: RunError) {
    match error
    case NoSuchAction => id >= |s.actions|
    case NotTheApprover => id < |s.actions| && s.actions[id].assignment.user != actor
    case NotPending => id < |s.actions| && s.actions[id].assignment.user == actor && !s.actions[id].status.Pending?
    case ActionsBlocked =>
      && id < |s.actions| && s.actions[id].assignment.user == actor && s.actions[id].status.Pending?
      && env.actionsBlocked
    case _ => false
  }

  lemma RejectionAcceptedIff(s: RunState, env: Environment, id: nat, actor: UserId)
    ensures Reject(s, env, id, actor).Ok? <==> MayDecide(s, env, id, actor)
    ensures forall error :: Reject(s, env, id, actor) == Err(error) <==> RefusedFor(s, env, id, actor, error)
  {
  }

  /** Once this action is approved the stage waits for nobody. */
  predicate CompletesStage(s: RunState, id: nat)
    requires id < |s.actions|
  {
    || s.actions[id].stage.mode.Any?
    || forall i :: 0 <= i < |s.actions| && i != id && s.actions[i].stage == s.actions[id].stage ==>
         !s.actions[i].status.Pending?
  }

  lemma PendingAfterApproval(s: RunState, env: Environment, id: nat)
    requires id < |s.actions| && s.actions[id].stage.mode.All?
    ensures HasPending(ActionsAfterApproval(s, env, id), s.actions[id].stage) <==> !CompletesStage(s, id)
  {
    var rows := ActionsAfterApproval(s, env, id);
    if i :| && 0 <= i < |s.actions| && i != id
            && s.actions[i].stage == s.actions[id].stage && s.actions[i].status.Pending? {
      assert rows[i] == s.actions[i];
    }
  }

  lemma EntitledApproval(ctx: RunContext, s: RunState, env: Environment, id: nat, actor: UserId)
    requires Invariant(ctx, s) && MayDecide(s, env, id, actor)
    ensures Approve(ctx, s, env, id, actor).Ok? <==> (CompletesStage(s, id) ==> NextIsStaffed(ctx, env.org, s))
    ensures Approve(ctx, s, env, id, actor).Err? ==> Approve(ctx, s, env, id, actor) == Err(NoApprovers)
  {
    if s.actions[id].stage.mode.All? {
      PendingAfterApproval(s, env, id);
    }
    var next := s.(actions := ActionsAfterApproval(s, env, id));
    NextStageIsNext(ctx.stages, s.currentStage);
    var following := NextStage(ctx.stages, s.currentStage);
    if following.Some? {
      OpenStageRows(ctx, next, following.value, env);
    }
  }

  /** An approval is accepted from its approver, unless it completes a stage and the next one has no approvers. */
  lemma ApprovalAcceptedIff(ctx: RunContext, s: RunState, env: Environment, id: nat, actor: UserId)
    requires Invariant(ctx, s)
    ensures Approve(ctx, s, env, id, actor).Ok? <==>
              MayDecide(s, env, id, actor) && (CompletesStage(s, id) ==> NextIsStaffed(ctx, env.org, s))
  {
    if MayDecide(s, env, id, actor) {
      EntitledApproval(ctx, s, env, id, actor);
    }
  }

  lemma ApprovalRefusedFor(ctx: RunContext, s: RunState, env: Environment, id: nat, actor: UserId, error: RunError)
    requires Invariant(ctx, s)
    ensures Approve(ctx, s, env, id, actor) == Err(error) <==>
              || RefusedFor(s, env, id, actor, error)
              || (&& error == NoApprovers && MayDecide(s, env, id, actor)
                  && CompletesStage(s, id) && !NextIsStaffed(ctx, env.org, s))
  {
    if MayDecide(s, env, id, actor) {
      EntitledApproval(ctx, s, env, id, actor);
    }
  }

  // ----- what each step does to each row

  /** Decided now, and otherwise as it was. */
  predicate BecomesDecided(before: Action, after: Action, status: ActionStatus, now: int) {
    && after.status == status && after.actedAt == Some(now)
    && after.stage == before.stage && after.assignment == before.assignment && after.createdAt == before.createdAt
    && after.escalatedAt == before.escalatedAt && after.escalatedFrom == before.escalatedFrom
  }

  /** In any state an approval decides its row and, in an ANY stage, skips the others of that stage that wait. */
  lemma ApprovalOfStage(s: RunState, env: Environment, id: nat)
    requires id < |s.actions|
    ensures var rows := ActionsAfterApproval(s, env, id);
            && BecomesDecided(s.actions[id], rows[id], ActionStatus.Approved, env.now)
            && forall i :: 0 <= i < |s.actions| && i != id ==>
                 if s.actions[i].status.Pending? && s.actions[i].stage == s.actions[id].stage
                    && s.actions[id].stage.mode.Any?
                 then BecomesDecided(s.actions[i], rows[i], Skipped, env.now)
                 else rows[i] == s.actions[i]
  {
  }

  /** An approval approves its row, skips the others that wait in an ANY stage, and touches no other row. */
  lemma ApprovalOfRows(ctx: RunContext, s: RunState, env: Environment, id: nat, actor: UserId)
    requires Invariant(ctx, s) && Approve(ctx, s, env, id, actor).Ok?
    ensures var next := Approve(ctx, s, env, id, actor).value;
            && |s.actions| <= |next.actions| && next.handoffs == s.handoffs
            && BecomesDecided(s.actions[id], next.actions[id], ActionStatus.Approved, env.now)
            && forall i :: 0 <= i < |s.actions| && i != id ==>
                 if s.actions[i].status.Pending? && s.actions[i].stage == s.actions[id].stage
                    && s.actions[id].stage.mode.Any?
                 then BecomesDecided(s.actions[i], next.actions[i], Skipped, env.now)
                 else next.actions[i] == s.actions[i]
  {
    ApproveShape(ctx, s, env, id, actor);
  }

  /**
   What becomes of the run: it waits on as long as the stage does; then it opens the next stage, with
   one pending row, created now, for each approver; after the last stage it is approved.
   */
  lemma ApprovalOfRun(ctx: RunContext, s: RunState, env: Environment, id: nat, actor: UserId)
    requires Invariant(ctx, s) && Approve(ctx, s, env, id, actor).Ok?
    ensures var next := Approve(ctx, s, env, id, actor).value;
            if !CompletesStage(s, id) then
              next.status.Pending? && next.currentStage == s.currentStage && |next.actions| == |s.actions|
            else if forall stage :: stage in ctx.stages ==> stage.sequence <= s.currentStage then
              next.status.Approved? && next.currentStage == s.currentStage && |next.actions| == |s.actions|
            else
              exists stage :: && OpensNext(ctx, s, env, stage, next)
  {
    NextStageIsNext(ctx.stages, s.currentStage);
    if s.actions[id].stage.mode.All? {
      PendingAfterApproval(s, env, id);
    }
    if CompletesStage(s, id) && NextStage(ctx.stages, s.currentStage).Some? {
      var stage := NextStage(ctx.stages, s.currentStage).value;
      NextStageIsOpened(ctx, s, env, id, actor, stage);
    }
  }

  lemma NextStageIsOpened(ctx: RunContext, s: RunState, env: Environment, id: nat, actor: UserId, stage: Stage)
    requires Invariant(ctx, s) && Approve(ctx, s, env, id, actor).Ok? && CompletesStage(s, id)
    requires NextStage(ctx.stages, s.currentStage) == Some(stage)
    ensures OpensNext(ctx, s, env, stage, Approve(ctx, s, env, id, actor).value)
  {
    if s.actions[id].stage.mode.All? {
      PendingAfterApproval(s, env, id);
    }
    NextStageIsNext(ctx.stages, s.currentStage);
    OpenStageRows(ctx, s.(actions := ActionsAfterApproval(s, env, id)), stage, env);
  }

  /** The run has opened the first stage after the current one. */
  ghost predicate OpensNext(ctx: RunContext, s: RunState, env: Environment, stage: Stage, next: RunState) {
    var approvers := StageApprovers(env.org, stage.rule, ctx.request);
    && stage in ctx.stages && stage.sequence > s.currentStage
    && (forall other :: other in ctx.stages && other.sequence > s.currentStage ==> stage.sequence <= other.sequence)
    && next.status.Pending? && next.currentStage == stage.sequence
    && |next.actions| == |s.actions| + |approvers|
    && forall i :: 0 <= i < |approvers| ==> IsFresh(next.actions[|s.actions| + i], stage, approvers[i], env.now, None)
  }

  predicate IsFresh(row: Action, stage: Stage, assignment: Assignment, now: int, from: Option<nat>) {
    && row.stage == stage && row.assignment == assignment && row.status.Pending?
    && row.createdAt == now && row.actedAt.None? && row.escalatedAt.None? && row.escalatedFrom == from
  }

  /** A created run waits in the first stage, with one fresh row for each of its approvers. */
  lemma CreationOfRun(ctx: RunContext, env: Environment)
    requires Ascending(ctx.stages)
    ensures Create(ctx, env).Err? <==>
              ctx.stages == [] || StageApprovers(env.org, ctx.stages[0].rule, ctx.request) == []
    ensures Create(ctx, env) == Err(NoStages) <==> ctx.stages == []
    ensures Create(ctx, env).Ok? ==>
              var s := Create(ctx, env).value;
              var approvers := StageApprovers(env.org, ctx.stages[0].rule, ctx.request);
              && s.status.Pending? && s.currentStage == ctx.stages[0].sequence && s.handoffs == []
              && |s.actions| == |approvers|
              && forall i :: 0 <= i < |approvers| ==> IsFresh(s.actions[i], ctx.stages[0], approvers[i], env.now, None)
  {
    if ctx.stages != [] {
      OpenStageRows(ctx, RunState(RunStatus.Pending, ctx.stages[0].sequence, [], []), ctx.stages[0], env);
    }
  }

  /** A rejection rejects its row, cancels all others that wait, and ends the run where it stands. */
  lemma RejectionOfRun(s: RunState, env: Environment, id: nat, actor: UserId)
    requires Reject(s, env, id, actor).Ok?
    ensures var next := Reject(s, env, id, actor).value;
            && next.status.Rejected? && next.currentStage == s.currentStage && next.handoffs == s.handoffs
            && |next.actions| == |s.actions|
            && BecomesDecided(s.actions[id], next.actions[id], ActionStatus.Rejected, env.now)
            && forall i :: 0 <= i < |s.actions| && i != id ==>
                 if s.actions[i].status.Pending?
                 then BecomesDecided(s.actions[i], next.actions[i], ActionStatus.Cancelled, env.now)
                 else next.actions[i] == s.actions[i]
  {
  }

  /** A cancellation cancels every row that waits and ends the run where it stands; a finished run stays. */
  lemma CancellationOfRun(s: RunState, env: Environment)
    ensures !s.status.Pending? ==> Cancel(s, env) == s
    ensures s.status.Pending? ==>
              var next := Cancel(s, env);
              && next.status.Cancelled? && next.currentStage == s.currentStage && next.handoffs == s.handoffs
              && |next.actions| == |s.actions|
              && forall i :: 0 <= i < |s.actions| ==>
                   if s.actions[i].status.Pending?
                   then BecomesDecided(s.actions[i], next.actions[i], ActionStatus.Cancelled, env.now)
                   else next.actions[i] == s.actions[i]
  {
  }

  // ----- escalation

  /** The action has waited in a pending run for the hours of its stage's active policy. */
  predicate WaitedTooLong(s: RunState, now: int, id: nat)
    requires id < |s.actions|
  {
    var row := s.actions[id];
    && s.status.Pending? && row.status.Pending? && row.escalatedAt.None?
    && row.stage.sla.Some? && row.stage.sla.value.active
    && exists hours: nat :: && row.stage.sla.value.escalateAfterHours == Some(hours) && hours >= 1
                            && now - row.createdAt >= hours
  }

  lemma EscalationIsDueIff(ctx: RunContext, s: RunState, env: Environment, id: nat, target: Person)
    requires id < |s.actions|
    ensures DueEscalation(ctx, s, env, id) == Some(target) <==>
              && WaitedTooLong(s, env.now, id)
              && EscalationTarget(ctx, env.org, s.actions[id].stage.sla.value) == Some(target)
              && target.user != s.actions[id].assignment.user
  {
  }

  /** An escalation cancels and stamps its row, and adds at most one row, for the target in the same stage. */
  lemma EscalationOfRows(s: RunState, env: Environment, id: nat, target: Person)
    requires id < |s.actions| && EscalateTo(s, env, id, target).Ok?
    ensures var next := EscalateTo(s, env, id, target).value;
            var (row, after) := (s.actions[id], next.actions[id]);
            && next.status == s.status && next.currentStage == s.currentStage
            && after == row.(status := ActionStatus.Cancelled, actedAt := Some(env.now), escalatedAt := Some(env.now))
            && (forall i :: 0 <= i < |s.actions| && i != id ==> next.actions[i] == s.actions[i])
            && |next.handoffs| == |s.handoffs| + 1 && next.handoffs[..|s.handoffs|] == s.handoffs
            && next.handoffs[|s.handoffs|].0 == id
            && var to := next.handoffs[|s.handoffs|].1;
               if exists i :: 0 <= i < |s.actions| && WaitsFor(s.actions[i], row.stage, target.user) then
                 |next.actions| == |s.actions| && to < |s.actions| && WaitsFor(s.actions[to], row.stage, target.user)
               else
                 && |next.actions| == |s.actions| + 1 && to == |s.actions|
                 && StandsIn(row, next.actions[to], target, env.now, id)
  {
  }

  predicate WaitsFor(row: Action, stage: Stage, user: UserId) {
    row.stage == stage && row.assignment.user == user && row.status.Pending?
  }

  /** A fresh row for the target that names those to whom the duty was first assigned. */
  predicate StandsIn(row: Action, added: Action, target: Person, now: int, id: nat) {
    && added.stage == row.stage && added.status.Pending? && added.createdAt == now
    && added.actedAt.None? && added.escalatedAt.None? && added.escalatedFrom == Some(id)
    && added.assignment.user == target.user && added.assignment.employee == target.employee
    && added.assignment.source == Escalated
    && (row.assignment.originalUser.Some? ==> added.assignment.originalUser == row.assignment.originalUser)
    && (row.assignment.originalUser.None? ==> added.assignment.originalUser == Some(row.assignment.user))
    && (row.assignment.originalEmployee.Some? ==> added.assignment.originalEmployee == row.assignment.originalEmployee)
    && (row.assignment.originalEmployee.None? ==> added.assignment.originalEmployee == row.assignment.employee)
  }

  // ----- every decision was taken by its approver

  predicate IsDecision(row: Action) {
    row.status.Approved? || row.status.Rejected?
  }

  /** The step decides the row as it now stands, and its actor was entitled to. */
  ghost predicate DecidedBy(before: RunState, env: Environment, step: Step, id: nat, row: Action) {
    && (row.status.Approved? ==> step == ApproveStep(id, row.assignment.user))
    && (row.status.Rejected? ==> step == RejectStep(id, row.assignment.user))
    && !env.actionsBlocked && row.actedAt == Some(env.now)
    && id < |before.actions| && before.actions[id].status.Pending?
    && before.actions[id].assignment == row.assignment && before.actions[id].stage == row.stage
  }

  lemma StepDecides(ctx: RunContext, s: RunState, env: Environment, step: Step, id: nat)
    requires Invariant(ctx, s)
    requires id < |Apply(ctx, s, env, step).actions| && IsDecision(Apply(ctx, s, env, step).actions[id])
    requires id < |s.actions| ==> s.actions[id] != Apply(ctx, s, env, step).actions[id]
    ensures DecidedBy(s, env, step, id, Apply(ctx, s, env, step).actions[id])
  {
    var row := Apply(ctx, s, env, step).actions[id];
    assert Attempt(ctx, s, env, step).Ok?;
    match step
    case ApproveStep(i, actor) =>
      ApprovalAcceptedIff(ctx, s, env, i, actor);
      ApprovalOfRows(ctx, s, env, i, actor);
      ApproveShape(ctx, s, env, i, actor);
    case RejectStep(i, actor) =>
      RejectionAcceptedIff(s, env, i, actor);
      RejectionOfRun(s, env, i, actor);
    case CancelStep => CancellationOfRun(s, env);
    case EscalateStep(i) =>
  }

  lemma {:induction false} LastStep(ctx: RunContext, s: RunState, trace: seq<(Environment, Step)>)
    requires trace != []
    ensures var n := |trace| - 1;
            Execute(ctx, s, trace) == Apply(ctx, Execute(ctx, s, trace[..n]), trace[n].0, trace[n].1)
    decreases |trace|
  {
    var n := |trace| - 1;
    if n > 0 {
      LastStep(ctx, Apply(ctx, s, trace[0].0, trace[0].1), trace[1..]);
      assert trace[1..][..n - 1] == trace[..n][1..];
    }
  }

  /**
   Every approved or rejected row of a reachable state was decided by a step of its own approver, in
   the sense it shows and at the time it shows, while it was pending and decisions were not blocked.
   */
  lemma {:induction false} DecidedByItsApprover(ctx: RunContext, s: RunState, trace: seq<(Environment, Step)>, id: nat)
    returns (k: nat)
    requires Invariant(ctx, s) && forall i :: 0 <= i < |s.actions| ==> !IsDecision(s.actions[i])
    requires id < |Execute(ctx, s, trace).actions| && IsDecision(Execute(ctx, s, trace).actions[id])
    ensures k < |trace|
    ensures DecidedBy(Execute(ctx, s, trace[..k]), trace[k].0, trace[k].1, id, Execute(ctx, s, trace).actions[id])
    decreases |trace|
  {
    var n := |trace| - 1;
    LastStep(ctx, s, trace);
    var before := Execute(ctx, s, trace[..n]);
    ExecuteKeepsInvariant(ctx, s, trace[..n]);
    if id < |before.actions| && before.actions[id] == Execute(ctx, s, trace).actions[id] {
      k := DecidedByItsApprover(ctx, s, trace[..n], id);
      assert trace[..n][..k] == trace[..k];
    } else {
      k := n;
      StepDecides(ctx, before, trace[n].0, trace[n].1, id);
    }
  }

  /** The same from the creation of the run, when nothing is decided yet. */
  lemma EveryDecisionWasEntitled(ctx: RunContext, env: Environment, trace: seq<(Environment, Step)>, id: nat)
    returns (k: nat)
    requires Ascending(ctx.stages) && Create(ctx, env).Ok?
    requires id < |Execute(ctx, Create(ctx, env).value, trace).actions|
    requires IsDecision(Execute(ctx, Create(ctx, env).value, trace).actions[id])
    ensures k < |trace|
    ensures var created := Create(ctx, env).value;
            DecidedBy(Execute(ctx, created, trace[..k]), trace[k].0, trace[k].1, id,
              Execute(ctx, created, trace).actions[id])
  {
    CreateKeepsInvariant(ctx, env);
    CreationOfRun(ctx, env);
    k := DecidedByItsApprover(ctx, Create(ctx, env).value, trace, id);
  }
}
