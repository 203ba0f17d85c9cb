/** What the rows of an approval run record about how they came to be, over whole runs. */
module ApprovalHistory {
  import opened Prelude
  import opened ApproverResolution
  import opened ApprovalRuns
  import opened ApprovalInvariant
  import opened ApprovalTheorems

  /** The user to whom a duty was first assigned. */
  function Origin(a: Assignment): UserId {
    if a.originalUser.Some? then a.originalUser.value else a.user
  }

  /** The row went to someone else no earlier than its stage's policy allows. */
  predicate EscalatedWhenDue(row: Action) {
    row.escalatedAt.Some? ==>
      && row.status.Cancelled?
      && Escalates(row.stage)
      && row.createdAt + row.stage.sla.value.escalateAfterHours.value <= row.escalatedAt.value
  }

  /** The row exists because an earlier row of its stage was escalated, and remembers whose duty it was. */
  predicate StandsInFor(actions: seq<Action>, i: nat, from: nat)
    requires i < |actions|
  {
    && from < i
    && HandedOn(actions[from])
    && actions[from].stage == actions[i].stage
    && actions[i].assignment.source == Escalated
    && actions[i].assignment.user != actions[from].assignment.user
    && Origin(actions[i].assignment) == Origin(actions[from].assignment)
  }

  ghost predicate RowDocumented(actions: seq<Action>, i: nat)
    requires i < |actions|
  {
    && (actions[i].status.Pending? <==> actions[i].actedAt.None?)
    && EscalatedWhenDue(actions[i])
    && (actions[i].escalatedFrom.Some? ==> StandsInFor(actions, i, actions[i].escalatedFrom.value))
  }

  ghost predicate Documented(actions: seq<Action>) {
    forall i :: 0 <= i < |actions| ==> RowDocumented(actions, i)
  }

  /** Rows that were final stay; rows decided now are stamped and not escalated; new rows are fresh. */
  lemma DecidingKeepsDocumented(before: seq<Action>, after: seq<Action>)
    requires Documented(before) && Extends(before, after)
    requires forall i :: 0 <= i < |before| && before[i].status.Pending? && after[i] != before[i] ==>
               && !after[i].status.Pending? && after[i].actedAt.Some? && after[i].escalatedAt.None?
               && after[i].escalatedFrom == before[i].escalatedFrom
    requires forall i :: |before| <= i < |after| ==>
               after[i].status.Pending? && after[i].actedAt.None? && after[i].escalatedAt.None?
                 && after[i].escalatedFrom.None?
    ensures Documented(after)
  {
    forall i | 0 <= i < |after|
      ensures RowDocumented(after, i)
    {
      if i < |before| {
        assert RowDocumented(before, i);
      }
    }
  }

  lemma HandingOverKeepsDocumented(ctx: RunContext, s: RunState, env: Environment, id: nat, target: Person)
    requires Documented(s.actions) && Invariant(ctx, s)
    requires id < |s.actions| && DueEscalation(ctx, s, env, id) == Some(target)
    requires EscalateTo(s, env, id, target).Ok?
    ensures Documented(EscalateTo(s, env, id, target).value.actions)
  {
    var next := EscalateTo(s, env, id, target).value;
    assert RowDocumented(s.actions, id);
    forall i | 0 <= i < |next.actions|
      ensures RowDocumented(next.actions, i)
    {
      if i < |s.actions| {
        assert RowDocumented(s.actions, i);
      }
    }
  }

  lemma DecidedRowsAreDocumented(ctx: RunContext, s: RunState, env: Environment, id: nat)
    requires Invariant(ctx, s) && Documented(s.actions) && id < |s.actions| && s.actions[id].status.Pending?
    ensures Documented(ActionsAfterApproval(s, env, id))
  {
    DecidingKeepsDocumented(s.actions, ActionsAfterApproval(s, env, id));
  }

  lemma NewRowsAreDocumented(actions: seq<Action>, stage: Stage, assignments: seq<Assignment>, now: int)
    requires Documented(actions)
    ensures Documented(actions + NewActions(stage, assignments, now))
  {
    DecidingKeepsDocumented(actions, actions + NewActions(stage, assignments, now));
  }

  lemma ApprovingKeepsDocumented(ctx: RunContext, s: RunState, env: Environment, id: nat, actor: UserId)
    requires Invariant(ctx, s) && Documented(s.actions) && Approve(ctx, s, env, id, actor).Ok?
    ensures Documented(Approve(ctx, s, env, id, actor).value.actions)
  {
    var next := Approve(ctx, s, env, id, actor).value;
    var decided := ActionsAfterApproval(s, env, id);
    DecidedRowsAreDocumented(ctx, s, env, id);
    ApproveShape(ctx, s, env, id, actor);
    if next.actions != decided {
      var stage := NextStage(ctx.stages, s.currentStage).value;
      NewRowsAreDocumented(decided, stage, StageApprovers(env.org, stage.rule, ctx.request), env.now);
    }
  }

  lemma RejectingKeepsDocumented(ctx: RunContext, s: RunState, env: Environment, id: nat, actor: UserId)
    requires Invariant(ctx, s) && Documented(s.actions) && Reject(s, env, id, actor).Ok?
    ensures Documented(Reject(s, env, id, actor).value.actions)
  {
    DecidingKeepsDocumented(s.actions, Reject(s, env, id, actor).value.actions);
  }

  lemma CancellingKeepsDocumented(ctx: RunContext, s: RunState, env: Environment)
    requires Invariant(ctx, s) && Documented(s.actions)
    ensures Documented(Cancel(s, env).actions)
  {
    DecidingKeepsDocumented(s.actions, Cancel(s, env).actions);
  }

  lemma StepKeepsDocumented(ctx: RunContext, s: RunState, env: Environment, step: Step)
    requires Invariant(ctx, s) && Documented(s.actions)
    ensures Documented(Apply(ctx, s, env, step).actions)
  {
    if Attempt(ctx, s, env, step).Ok? {
      match step
      case ApproveStep(id, actor) => ApprovingKeepsDocumented(ctx, s, env, id, actor);
      case RejectStep(id, actor) => RejectingKeepsDocumented(ctx, s, env, id, actor);
      case CancelStep => CancellingKeepsDocumented(ctx, s, env);
      case EscalateStep(id) =>
        if id < |s.actions| && DueEscalation(ctx, s, env, id).Some? {
          HandingOverKeepsDocumented(ctx, s, env, id, DueEscalation(ctx, s, env, id).value);
        }
    }
  }

  lemma {:induction false} ExecuteKeepsDocumented(ctx: RunContext, s: RunState, trace: seq<(Environment, Step)>)
    requires Invariant(ctx, s) && Documented(s.actions)
    ensures Documented(Execute(ctx, s, trace).actions)
    decreases |trace|
  {
    if trace != [] {
      StepKeepsDocumented(ctx, s, trace[0].0, trace[0].1);
      StepKeepsInvariant(ctx, s, trace[0].0, trace[0].1);
      ExecuteKeepsDocumented(ctx, Apply(ctx, s, trace[0].0, trace[0].1), trace[1..]);
    }
  }

  /**
   In every reachable state an action is stamped exactly when it is no longer pending, was
   escalated only after its stage's hours had passed, and, if it stands in for another one,
   still names the user to whom the duty was first assigned.
   */
  lemma EveryRowIsDocumented(ctx: RunContext, env: Environment, trace: seq<(Environment, Step)>)
    requires Ascending(ctx.stages) && Create(ctx, env).Ok?
    ensures Documented(Execute(ctx, Create(ctx, env).value, trace).actions)
  {
    CreateKeepsInvariant(ctx, env);
    var empty := RunState(RunStatus.Pending, ctx.stages[0].sequence, [], []);
    OpenStageRows(ctx, empty, ctx.stages[0], env);
    DecidingKeepsDocumented([], Create(ctx, env).value.actions);
    ExecuteKeepsDocumented(ctx, Create(ctx, env).value, trace);
  }

  // ----- why each row exists

  /** The stage's approvers, under the data of that moment, include the row's. */
  ghost predicate AskedUnder(ctx: RunContext, env: Environment, row: Action) {
    row.assignment in StageApprovers(env.org, row.stage.rule, ctx.request)
  }

  /** The stage has an active policy with hours after which an action is escalated. */
  predicate Escalates(stage: Stage) {
    && stage.sla.Some? && stage.sla.value.active
    && stage.sla.value.escalateAfterHours.Some? && stage.sla.value.escalateAfterHours.value > 0
  }

  /** The row was added by an escalation to the target of the stage's policy at that moment. */
  ghost predicate HandedToTarget(ctx: RunContext, env: Environment, row: Action) {
    && row.assignment.source == Escalated
    && Escalates(row.stage)
    && EscalationTarget(ctx, env.org, row.stage.sla.value) == Some(Person(row.assignment.user, row.assignment.employee))
  }

  ghost predicate Explained(ctx: RunContext, envs: seq<Environment>, row: Action) {
    exists env :: env in envs && (AskedUnder(ctx, env, row) || HandedToTarget(ctx, env, row))
  }

  ghost predicate AllExplained(ctx: RunContext, envs: seq<Environment>, actions: seq<Action>) {
    forall i :: 0 <= i < |actions| ==> Explained(ctx, envs, actions[i])
  }

  lemma KeptRowsStayExplained(ctx: RunContext, envs: seq<Environment>, before: seq<Action>, after: seq<Action>)
    requires AllExplained(ctx, envs, before) && Extends(before, after)
    requires forall i :: |before| <= i < |after| ==> Explained(ctx, envs, after[i])
    ensures AllExplained(ctx, envs, after)
  {
    forall i | 0 <= i < |after|
      ensures Explained(ctx, envs, after[i])
    {
      if i < |before| {
        assert Explained(ctx, envs, before[i]);
        var env :| env in envs && (AskedUnder(ctx, env, before[i]) || HandedToTarget(ctx, env, before[i]));
        assert AskedUnder(ctx, env, after[i]) || HandedToTarget(ctx, env, after[i]);
      }
    }
  }

  lemma ApprovingKeepsExplained(ctx: RunContext, s: RunState, env: Environment, id: nat, actor: UserId,
                                envs: seq<Environment>)
    requires Invariant(ctx, s) && AllExplained(ctx, envs, s.actions) && env in envs
    ensures Approve(ctx, s, env, id, actor).Ok? ==>
              AllExplained(ctx, envs, Approve(ctx, s, env, id, actor).value.actions)
  {
    if Approve(ctx, s, env, id, actor).Ok? {
      var next := Approve(ctx, s, env, id, actor).value;
      ApproveExtends(ctx, s, env, id, actor);
      ApproveShape(ctx, s, env, id, actor);
    }
  }

  lemma AddedRowIsForTarget(ctx: RunContext, s: RunState, env: Environment, id: nat)
    requires Escalate(ctx, s, env, id).Ok?
    ensures var rows := Escalate(ctx, s, env, id).value.actions;
            |rows| <= |s.actions| + 1 && (|rows| > |s.actions| ==> HandedToTarget(ctx, env, rows[|s.actions|]))
  {
  }

  lemma EscalatingKeepsExplained(ctx: RunContext, s: RunState, env: Environment, id: nat, envs: seq<Environment>)
    requires Invariant(ctx, s) && AllExplained(ctx, envs, s.actions) && env in envs
    requires Escalate(ctx, s, env, id).Ok?
    ensures AllExplained(ctx, envs, Escalate(ctx, s, env, id).value.actions)
  {
    EscalateExtends(ctx, s, env, id);
    AddedRowIsForTarget(ctx, s, env, id);
    KeptRowsStayExplained(ctx, envs, s.actions, Escalate(ctx, s, env, id).value.actions);
  }

  lemma StepKeepsExplained(ctx: RunContext, s: RunState, env: Environment, step: Step, envs: seq<Environment>)
    requires Invariant(ctx, s) && AllExplained(ctx, envs, s.actions) && env in envs
    ensures AllExplained(ctx, envs, Apply(ctx, s, env, step).actions)
  {
    if Attempt(ctx, s, env, step).Ok? {
      match step
      case ApproveStep(id, actor) => ApprovingKeepsExplained(ctx, s, env, id, actor, envs);
      case EscalateStep(id) => EscalatingKeepsExplained(ctx, s, env, id, envs);
      case _ =>
        StepExtends(ctx, s, env, step);
    }
  }

  lemma {:induction false} ExecuteKeepsExplained(ctx: RunContext, s: RunState, trace: seq<(Environment, Step)>,
                                                 envs: seq<Environment>)
    requires Invariant(ctx, s) && AllExplained(ctx, envs, s.actions)
    requires forall i :: 0 <= i < |trace| ==> trace[i].0 in envs
    ensures AllExplained(ctx, envs, Execute(ctx, s, trace).actions)
    decreases |trace|
  {
    if trace != [] {
      StepKeepsExplained(ctx, s, trace[0].0, trace[0].1, envs);
      StepKeepsInvariant(ctx, s, trace[0].0, trace[0].1);
      ExecuteKeepsExplained(ctx, Apply(ctx, s, trace[0].0, trace[0].1), trace[1..], envs);
    }
  }

  lemma CreatedRowsAreExplained(ctx: RunContext, env: Environment, envs: seq<Environment>)
    requires Create(ctx, env).Ok? && env in envs
    ensures AllExplained(ctx, envs, Create(ctx, env).value.actions)
  {
    OpenStageRows(ctx, RunState(RunStatus.Pending, ctx.stages[0].sequence, [], []), ctx.stages[0], env);
  }

  /** The environments in which a run was created and its steps were attempted. */
  function Environments(env: Environment, trace: seq<(Environment, Step)>): seq<Environment> {
    [env] + seq(|trace|, i requires 0 <= i < |trace| => trace[i].0)
  }

  lemma EnvironmentsOccur(env: Environment, trace: seq<(Environment, Step)>)
    ensures env in Environments(env, trace)
    ensures forall i :: 0 <= i < |trace| ==> trace[i].0 in Environments(env, trace)
  {
    var envs := Environments(env, trace);
    assert envs[0] == env;
    assert forall i :: 0 <= i < |trace| ==> envs[i + 1] == trace[i].0;
  }

  /**
   Every row of a reachable state was asked for by its stage's rule, or put there by an escalation
   to the policy's target.
   */
  lemma EveryRowIsExplained(ctx: RunContext, env: Environment, trace: seq<(Environment, Step)>)
    requires Ascending(ctx.stages) && Create(ctx, env).Ok?
    ensures AllExplained(ctx, Environments(env, trace), Execute(ctx, Create(ctx, env).value, trace).actions)
  {
    var envs := Environments(env, trace);
    var created := Create(ctx, env).value;
    EnvironmentsOccur(env, trace);
    CreatedRowsAreExplained(ctx, env, envs);
    CreateKeepsInvariant(ctx, env);
    ExecuteKeepsExplained(ctx, created, trace, envs);
  }

  /**
   Over a whole run of a kind that bars the requester, the requester is named only as the delegated
   fallback of a stage, or in a row whose escalation policy had the requester as its target.
   */
  lemma OwnRequestOnlyByFallbackOrEscalation(ctx: RunContext, env: Environment, trace: seq<(Environment, Step)>, i: nat)
    requires Ascending(ctx.stages) && Create(ctx, env).Ok?
    requires ctx.request.requester.Some? && !SelfApprovalAllowed(ctx.request.kind)
    requires i < |Execute(ctx, Create(ctx, env).value, trace).actions|
    requires var row := Execute(ctx, Create(ctx, env).value, trace).actions[i];
             forall e :: e in Environments(env, trace) ==>
               row.assignment.user == e.org.userOf(ctx.request.requester.value)
    ensures var row := Execute(ctx, Create(ctx, env).value, trace).actions[i];
            exists e :: e in Environments(env, trace) &&
              (HandedToTarget(ctx, e, row) || row.assignment in FallbackAssignment(e.org, row.stage.rule, ctx.request))
  {
    EveryRowIsExplained(ctx, env, trace);
    var row := Execute(ctx, Create(ctx, env).value, trace).actions[i];
    assert Explained(ctx, Environments(env, trace), row);
    var e :| e in Environments(env, trace) && (AskedUnder(ctx, e, row) || HandedToTarget(ctx, e, row));
    if AskedUnder(ctx, e, row) {
      RequesterOnlyThroughFallback(e.org, row.stage.rule, ctx.request, row.assignment);
    }
  }
}
