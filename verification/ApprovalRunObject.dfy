/**
 The approval run as the object the services update in place. Every method is proved against the
 corresponding step of module ApprovalRuns; on an error it restores the state it found, as the
 surrounding transaction does.
 */
module ApprovalRunObject {
  import opened Prelude
  import opened ApproverResolution
  import Runs = ApprovalRuns
  import opened ApprovalRuns

  class ApprovalRun {
    const ctx: RunContext
    var status: RunStatus
    var currentStage: nat
    var actions: seq<Action>
    ghost var handoffs: seq<(nat, nat)>

    ghost function State(): RunState
      reads this
    {
      RunState(status, currentStage, actions, handoffs)
    }

    constructor (ctx: RunContext, firstSequence: nat)
      ensures this.ctx == ctx
      ensures State() == RunState(RunStatus.Pending, firstSequence, [], [])
    {
      this.ctx := ctx;
      status := RunStatus.Pending;
      currentStage := firstSequence;
      actions := [];
      handoffs := [];
    }

    method CreateStageActions(stage: Stage, env: Environment) returns (error: Option<RunError>)
      modifies this`actions
      ensures var assignments := StageApprovers(env.org, stage.rule, ctx.request);
              if assignments == [] then error == Some(NoApprovers)
              else match InsertActions(old(actions), stage, assignments, env.now)
                case Err(e) => error == Some(e)
                case Ok(rows) => error == None && actions == rows
    {
      var assignments := ResolveStageApprovers(env.org, stage.rule, ctx.request);
      if assignments == [] {
        return Some(NoApprovers);
      }
      for i := 0 to |assignments|
        invariant InsertActions(actions, stage, assignments[i..], env.now)
               == InsertActions(old(actions), stage, assignments, env.now)
      {
        assert assignments[i..][1..] == assignments[i + 1..];
        if Taken(actions, stage, assignments[i].user) {
          return Some(DuplicateAction);
        }
        actions := actions + [NewAction(stage, assignments[i], env.now, None)];
      }
      return None;
    }

    method AdvanceOrComplete(env: Environment) returns (error: Option<RunError>)
      modifies this
      ensures match Runs.AdvanceOrComplete(ctx, old(State()), env)
              case Err(e) => error == Some(e)
              case Ok(next) => error == None && State() == next
    {
      var next := NextStage(ctx.stages, currentStage);
      if next.None? {
        status := RunStatus.Approved;
        return None;
      }
      currentStage := next.value.sequence;
      error := CreateStageActions(next.value, env);
    }

    method Approve(id: nat, actor: UserId, env: Environment) returns (error: Option<RunError>)
      modifies this
      ensures Commits(Runs.Approve(ctx, old(State()), env, id, actor), old(State()), State(), error)
    {
      if id >= |actions| {
        return Some(NoSuchAction);
      }
      if actions[id].assignment.user != actor {
        return Some(NotTheApprover);
      }
      if !actions[id].status.Pending? {
        return Some(NotPending);
      }
      if env.actionsBlocked {
        return Some(ActionsBlocked);
      }
      var savedStatus, savedStage, savedActions := status, currentStage, actions;
      var stage := actions[id].stage;
      actions := actions[id := Decided(actions[id], ActionStatus.Approved, env.now)];
      var stageComplete;
      if stage.mode.Any? {
        actions := CloseOthers(actions, Some(id), Some(stage), Skipped, env.now);
        stageComplete := true;
      } else {
        stageComplete := !HasPending(actions, stage);
      }
      if stageComplete {
        error := AdvanceOrComplete(env);
        if error.Some? {
          status, currentStage, actions, handoffs := savedStatus, savedStage, savedActions, old(handoffs);
        }
      } else {
        error := None;
      }
    }

    method Reject(id: nat, actor: UserId, env: Environment) returns (error: Option<RunError>)
      modifies this
      ensures Commits(Runs.Reject(old(State()), env, id, actor), old(State()), State(), error)
    {
      if id >= |actions| {
        return Some(NoSuchAction);
      }
      if actions[id].assignment.user != actor {
        return Some(NotTheApprover);
      }
      if !actions[id].status.Pending? {
        return Some(NotPending);
      }
      if env.actionsBlocked {
        return Some(ActionsBlocked);
      }
      actions := actions[id := Decided(actions[id], ActionStatus.Rejected, env.now)];
      status := RunStatus.Rejected;
      actions := CloseOthers(actions, Some(id), None, ActionStatus.Cancelled, env.now);
      error := None;
    }

    method Cancel(env: Environment)
      modifies this
      ensures State() == Runs.Cancel(old(State()), env)
    {
      if !status.Pending? {
        return;
      }
      status := RunStatus.Cancelled;
      actions := CloseOthers(actions, None, None, ActionStatus.Cancelled, env.now);
    }

    method EscalateTo(id: nat, target: Person, env: Environment) returns (error: Option<RunError>)
      requires id < |actions|
      modifies this
      ensures Commits(Runs.EscalateTo(old(State()), env, id, target), old(State()), State(), error)
    {
      var locked := actions[id];
      var existing := PendingActionOf(actions, locked.stage, target.user);
      if existing.None? {
        if Taken(actions, locked.stage, target.user) {
          return Some(DuplicateAction);
        }
        handoffs := handoffs + [(id, |actions|)];
        actions := actions + [NewAction(locked.stage, EscalatedAssignment(locked.assignment, target), env.now,
          Some(id))];
      } else {
        handoffs := handoffs + [(id, existing.value)];
      }
      actions := actions[id := Decided(locked, ActionStatus.Cancelled, env.now).(escalatedAt := Some(env.now))];
      error := None;
    }

    /** The person an action is to be escalated to now, by the tests of the job in their order. */
    method DueTarget(id: nat, env: Environment) returns (target: Option<Person>)
      requires id < |actions|
      ensures target == DueEscalation(ctx, State(), env, id)
    {
      var action := actions[id];
      if !status.Pending? || !action.status.Pending? || action.escalatedAt.Some? {
        return None;
      }
      if action.stage.sla.None? || !action.stage.sla.value.active {
        return None;
      }
      var policy := action.stage.sla.value;
      if policy.escalateAfterHours.None? || policy.escalateAfterHours.value == 0 {
        return None;
      }
      if action.createdAt + policy.escalateAfterHours.value > env.now {
        return None;
      }
      target := EscalationTarget(ctx, env.org, policy);
      if target.Some? && target.value.user == action.assignment.user {
        return None;
      }
    }
  }

  method CreateApprovalRun(ctx: RunContext, env: Environment)
    returns (run: Option<ApprovalRun>, error: Option<RunError>)
    ensures match Runs.Create(ctx, env)
            case Err(e) => run == None && error == Some(e)
            case Ok(s) =>
              && error == None && run.Some? && fresh(run.value)
              && run.value.ctx == ctx && run.value.State() == s
  {
    if ctx.stages == [] {
      return None, Some(NoStages);
    }
    var created := new ApprovalRun(ctx, ctx.stages[0].sequence);
    error := created.CreateStageActions(ctx.stages[0], env);
    run := if error.None? then Some(created) else None;
  }
}
