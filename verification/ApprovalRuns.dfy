/**
 One approval run as a state machine. Each function from a state to a result is one database
 transaction: an error leaves the caller with the old state.
 */
module ApprovalRuns {
  import opened Prelude
  import opened ApproverResolution

  datatype StageMode = All | Any

  datatype RunStatus = Pending | Approved | Rejected | Cancelled

  datatype ActionStatus = Pending | Approved | Rejected | Skipped | Cancelled

  datatype SlaPolicy = SlaPolicy(active: bool, escalateAfterHours: Option<nat>, target: Fallback)

  datatype Stage = Stage(sequence: nat, mode: StageMode, rule: StageRule, sla: Option<SlaPolicy>)

  datatype Action = Action(
    stage: Stage, assignment: Assignment, status: ActionStatus, createdAt: int,
    actedAt: Option<int>, escalatedAt: Option<int>, escalatedFrom: Option<nat>)

  /**
   The run and its action rows; an action's id is its position. `handoffs` records, in order,
   which action each escalation passed its duty to; no column holds it when an escalation merges
   into an action that is already pending.
   */
  datatype RunState = RunState(
    status: RunStatus, currentStage: nat, actions: seq<Action>, handoffs: seq<(nat, nat)>)

  /** What stays fixed for the life of a run: the stages in sequence order, and the request. */
  datatype RunContext = RunContext(stages: seq<Stage>, request: Request)

  /** What a step reads: the organisation, the clock in hours, and the licence guard. */
  datatype Environment = Environment(org: Organisation, now: int, actionsBlocked: bool)

  datatype RunError =
    | NoStages | NoApprovers | DuplicateAction
    | NoSuchAction | NotTheApprover | NotPending | ActionsBlocked

  type Outcome = Result<RunState, RunError>

  /** The sequence numbers of a workflow's stages are unique and listed in order. */
  predicate Ascending(stages: seq<Stage>) {
    forall i, j :: 0 <= i < j < |stages| ==> stages[i].sequence < stages[j].sequence
  }

  function NextStage(stages: seq<Stage>, after: nat): Option<Stage> {
    if stages == [] then None
    else if stages[0].sequence > after then Some(stages[0])
    else NextStage(stages[1..], after)
  }

  // ----- action rows

  predicate Taken(actions: seq<Action>, stage: Stage, user: UserId) {
    exists i :: 0 <= i < |actions| && actions[i].stage == stage && actions[i].assignment.user == user
  }

  function NewAction(stage: Stage, assignment: Assignment, now: int, from: Option<nat>): Action {
    Action(stage, assignment, ActionStatus.Pending, now, None, None, from)
  }

  /** Inserts one row, subject to the uniqueness of (run, stage, user). */
  function InsertAction(actions: seq<Action>, action: Action): Result<seq<Action>, RunError> {
    if Taken(actions, action.stage, action.assignment.user) then Err(DuplicateAction)
    else Ok(actions + [action])
  }

  function InsertActions(actions: seq<Action>, stage: Stage, assignments: seq<Assignment>, now: int)
    : Result<seq<Action>, RunError>
    decreases |assignments|
  {
    if assignments == [] then Ok(actions) else
    var inserted := InsertAction(actions, NewAction(stage, assignments[0], now, None));
    if inserted.Err? then inserted
    else InsertActions(inserted.value, stage, assignments[1..], now)
  }

  function Decided(action: Action, status: ActionStatus, now: int): Action {
    action.(status := status, actedAt := Some(now))
  }

  /** Every other pending row, of one stage or of all stages, gets the given status. */
  function CloseOthers(actions: seq<Action>, keep: Option<nat>, stage: Option<Stage>, status: ActionStatus, now: int)
    : (closed: seq<Action>)
    ensures |closed| == |actions|
  {
    seq(|actions|, i requires 0 <= i < |actions| =>
      if actions[i].status.Pending? && keep != Some(i) && (stage.None? || actions[i].stage == stage.value)
      then Decided(actions[i], status, now) else actions[i])
  }

  predicate HasPending(actions: seq<Action>, stage: Stage) {
    exists i :: 0 <= i < |actions| && actions[i].stage == stage && actions[i].status.Pending?
  }

  /** The pending row of `user` in `stage`, if there is one. */
  function PendingActionOf(actions: seq<Action>, stage: Stage, user: UserId): (found: Option<nat>)
    ensures found.Some? ==>
              && found.value < |actions|
              && actions[found.value].stage == stage
              && actions[found.value].assignment.user == user
              && actions[found.value].status.Pending?
    ensures found.None? ==>
              forall i :: 0 <= i < |actions| && actions[i].stage == stage && actions[i].assignment.user == user
                ==> !actions[i].status.Pending?
  {
    if actions == [] then None else
    var last := actions[|actions| - 1];
    if last.stage == stage && last.assignment.user == user && last.status.Pending? then Some(|actions| - 1)
    else PendingActionOf(actions[..|actions| - 1], stage, user)
  }

  // ----- the steps

  function OpenStage(ctx: RunContext, s: RunState, stage: Stage, env: Environment): Outcome {
    var assignments := StageApprovers(env.org, stage.rule, ctx.request);
    if assignments == [] then Err(NoApprovers) else
    match InsertActions(s.actions, stage, assignments, env.now)
    case Err(error) => Err(error)
    case Ok(actions) => Ok(s.(currentStage := stage.sequence, actions := actions))
  }

  function Create(ctx: RunContext, env: Environment): Outcome {
    if ctx.stages == [] then Err(NoStages)
    else OpenStage(ctx, RunState(RunStatus.Pending, ctx.stages[0].sequence, [], []), ctx.stages[0], env)
  }

  function AdvanceOrComplete(ctx: RunContext, s: RunState, env: Environment): Outcome {
    match NextStage(ctx.stages, s.currentStage)
    case None => Ok(s.(status := RunStatus.Approved))
    case Some(stage) => OpenStage(ctx, s, stage, env)
  }

  /** The tests that approval and rejection make; neither looks at the run's own status. */
  function Refusal(s: RunState, env: Environment, id: nat, actor: UserId): Option<RunError> {
    if id >= |s.actions| then Some(NoSuchAction)
    else if s.actions[id].assignment.user != actor then Some(NotTheApprover)
    else if !s.actions[id].status.Pending? then Some(NotPending)
    else if env.actionsBlocked then Some(ActionsBlocked)
    else None
  }

  /** The rows after an approval, before the run moves on. */
  function ActionsAfterApproval(s: RunState, env: Environment, id: nat): (actions: seq<Action>)
    requires id < |s.actions|
    ensures |actions| == |s.actions|
  {
    var approved := s.actions[id := Decided(s.actions[id], ActionStatus.Approved, env.now)];
    var stage := s.actions[id].stage;
    if stage.mode.Any? then CloseOthers(approved, Some(id), Some(stage), Skipped, env.now) else approved
  }

  function Approve(ctx: RunContext, s: RunState, env: Environment, id: nat, actor: UserId): Outcome {
    if Refusal(s, env, id, actor).Some? then Err(Refusal(s, env, id, actor).value) else
    var stage := s.actions[id].stage;
    var next := s.(actions := ActionsAfterApproval(s, env, id));
    if stage.mode.Any? || !HasPending(next.actions, stage) then AdvanceOrComplete(ctx, next, env)
    else Ok(next)
  }

  function Reject(s: RunState, env: Environment, id: nat, actor: UserId): Outcome {
    if Refusal(s, env, id, actor).Some? then Err(Refusal(s, env, id, actor).value) else
    var rejected := s.actions[id := Decided(s.actions[id], ActionStatus.Rejected, env.now)];
    Ok(s.(status := RunStatus.Rejected,
          actions := CloseOthers(rejected, Some(id), None, ActionStatus.Cancelled, env.now)))
  }

  function Cancel(s: RunState, env: Environment): RunState {
    if !s.status.Pending? then s
    else s.(status := RunStatus.Cancelled,
            actions := CloseOthers(s.actions, None, None, ActionStatus.Cancelled, env.now))
  }

  // ----- escalation

  function EscalationTarget(ctx: RunContext, org: Organisation, policy: SlaPolicy): Option<Person> {
    if policy.target.FallbackOrgAdmin? then
      if org.primaryAdmin.Some? then Some(Person(org.primaryAdmin.value, None)) else None
    else StageFallback(org, policy.target, ctx.request.requester)
  }

  /** The person a pending action is to be escalated to now, if its SLA has lapsed. */
  function DueEscalation(ctx: RunContext, s: RunState, env: Environment, id: nat): Option<Person>
    requires id < |s.actions|
  {
    var action := s.actions[id];
    if !s.status.Pending? || !action.status.Pending? || action.escalatedAt.Some? then None
    else if action.stage.sla.None? || !action.stage.sla.value.active then None else
    var policy := action.stage.sla.value;
    if policy.escalateAfterHours.None? || policy.escalateAfterHours.value == 0 then None
    else if action.createdAt + policy.escalateAfterHours.value > env.now then None else
    var target := EscalationTarget(ctx, env.org, policy);
    if target.Some? && target.value.user != action.assignment.user then target else None
  }

  function EscalatedAssignment(from: Assignment, target: Person): Assignment {
    Assignment(
      target.user, target.employee, Escalated,
      if from.originalUser.Some? then from.originalUser else Some(from.user),
      if from.originalEmployee.Some? then from.originalEmployee else from.employee)
  }

  function HandOver(s: RunState, now: int, id: nat, to: nat): RunState
    requires id < |s.actions|
  {
    var closed := Decided(s.actions[id], ActionStatus.Cancelled, now).(escalatedAt := Some(now));
    s.(actions := s.actions[id := closed], handoffs := s.handoffs + [(id, to)])
  }

  function EscalateTo(s: RunState, env: Environment, id: nat, target: Person): Outcome
    requires id < |s.actions|
  {
    var action := s.actions[id];
    match PendingActionOf(s.actions, action.stage, target.user)
    case Some(existing) => Ok(HandOver(s, env.now, id, existing))
    case None =>
      var created := NewAction(action.stage, EscalatedAssignment(action.assignment, target), env.now, Some(id));
      match InsertAction(s.actions, created)
      case Err(error) => Err(error)
      case Ok(actions) => Ok(HandOver(s.(actions := actions), env.now, id, |s.actions|))
  }

  function Escalate(ctx: RunContext, s: RunState, env: Environment, id: nat): Outcome {
    if id >= |s.actions| || DueEscalation(ctx, s, env, id).None? then Ok(s)
    else EscalateTo(s, env, id, DueEscalation(ctx, s, env, id).value)
  }

  // ----- runs

  datatype Step =
    | ApproveStep(id: nat, actor: UserId)
    | RejectStep(id: nat, actor: UserId)
    | CancelStep
    | EscalateStep(id: nat)

  function Attempt(ctx: RunContext, s: RunState, env: Environment, step: Step): Outcome {
    match step
    case ApproveStep(id, actor) => Approve(ctx, s, env, id, actor)
    case RejectStep(id, actor) => Reject(s, env, id, actor)
    case CancelStep => Ok(Cancel(s, env))
    case EscalateStep(id) => Escalate(ctx, s, env, id)
  }

  /** A failed step is rolled back. */
  function Apply(ctx: RunContext, s: RunState, env: Environment, step: Step): RunState {
    var outcome := Attempt(ctx, s, env, step);
    if outcome.Ok? then outcome.value else s
  }

  /** The state after any mix of steps, each in an environment of its own. */
  function Execute(ctx: RunContext, s: RunState, trace: seq<(Environment, Step)>): RunState
    decreases |trace|
  {
    if trace == [] then s
    else Execute(ctx, Apply(ctx, s, trace[0].0, trace[0].1), trace[1..])
  }
}
