/** What every step of an approval run keeps. */
module ApprovalInvariant {
  import opened Prelude
  import opened ApproverResolution
  import opened ApprovalRuns

  predicate HandedOn(action: Action) {
    action.status.Cancelled? && action.escalatedAt.Some?
  }

  /** A final state that the stage's mode allows in a stage that was passed. */
  predicate Settled(action: Action) {
    || action.status.Approved?
    || HandedOn(action)
    || (action.stage.mode.Any? && action.status.Skipped?)
  }

  /** The stage was passed: somebody approved, and nobody's duty was dropped. */
  ghost predicate Passed(actions: seq<Action>, stage: Stage) {
    && (exists i :: 0 <= i < |actions| && actions[i].stage == stage && actions[i].status.Approved?)
    && (forall i :: 0 <= i < |actions| && actions[i].stage == stage ==> Settled(actions[i]))
  }

  /** A row that may exist in the stage the run is waiting for. */
  predicate Live(action: Action) {
    || action.status.Pending?
    || HandedOn(action)
    || (action.stage.mode.All? && action.status.Approved?)
  }

  ghost predicate OnePerUser(actions: seq<Action>) {
    forall i, j :: 0 <= i < j < |actions| && actions[i].stage == actions[j].stage ==>
      actions[i].assignment.user != actions[j].assignment.user
  }

  ghost predicate StagesReached(ctx: RunContext, s: RunState) {
    && (exists stage :: stage in ctx.stages && stage.sequence == s.currentStage)
    && (forall i :: 0 <= i < |s.actions| ==>
          s.actions[i].stage in ctx.stages && s.actions[i].stage.sequence <= s.currentStage)
  }

  predicate IsSource(handoffs: seq<(nat, nat)>, id: nat) {
    exists k :: 0 <= k < |handoffs| && handoffs[k].0 == id
  }

  /** Hand-offs leave each action once, and lead only to actions handed on later, if at all. */
  ghost predicate HandoffsOrdered(handoffs: seq<(nat, nat)>) {
    && (forall k, l :: 0 <= k < l < |handoffs| ==> handoffs[k].0 != handoffs[l].0)
    && (forall k, l :: 0 <= k <= l < |handoffs| ==> handoffs[k].0 != handoffs[l].1)
  }

  /** The recorded hand-offs are those of the rows that were escalated, and stay in one stage. */
  ghost predicate HandoffsRecorded(actions: seq<Action>, handoffs: seq<(nat, nat)>) {
    && (forall k :: 0 <= k < |handoffs| ==>
          && handoffs[k].0 < |actions| && handoffs[k].1 < |actions|
          && HandedOn(actions[handoffs[k].0])
          && actions[handoffs[k].0].stage == actions[handoffs[k].1].stage)
    && (forall i :: 0 <= i < |actions| && HandedOn(actions[i]) ==> IsSource(handoffs, i))
  }

  ghost predicate PendingInCurrentStage(s: RunState) {
    forall i :: 0 <= i < |s.actions| && s.actions[i].status.Pending? ==>
      s.status.Pending? && s.actions[i].stage.sequence == s.currentStage && s.actions[i].escalatedAt.None?
  }

  ghost predicate RejectionShows(s: RunState) {
    s.status.Rejected? <==> exists i :: 0 <= i < |s.actions| && s.actions[i].status.Rejected?
  }

  ghost predicate PassedBefore(ctx: RunContext, actions: seq<Action>, sequence: nat) {
    forall stage {:trigger Passed(actions, stage)} :: stage in ctx.stages && stage.sequence < sequence ==>
      Passed(actions, stage)
  }

  /** Holds also between the decision on an action and the move to the next stage. */
  ghost predicate Consistent(ctx: RunContext, s: RunState) {
    && Ascending(ctx.stages)
    && StagesReached(ctx, s)
    && OnePerUser(s.actions)
    && HandoffsOrdered(s.handoffs)
    && HandoffsRecorded(s.actions, s.handoffs)
    && PendingInCurrentStage(s)
    && RejectionShows(s)
    && PassedBefore(ctx, s.actions, s.currentStage)
  }

  ghost predicate SomethingPending(actions: seq<Action>) {
    exists i :: 0 <= i < |actions| && actions[i].status.Pending?
  }

  ghost predicate CurrentStageLive(s: RunState) {
    forall i :: 0 <= i < |s.actions| && s.actions[i].stage.sequence == s.currentStage ==> Live(s.actions[i])
  }

  ghost predicate Invariant(ctx: RunContext, s: RunState) {
    && Consistent(ctx, s)
    && (s.status.Pending? ==> SomethingPending(s.actions) && CurrentStageLive(s))
    && (s.status.Approved? ==>
          forall stage {:trigger Passed(s.actions, stage)} :: stage in ctx.stages ==> Passed(s.actions, stage))
  }

  // ----- rows are never lost, and a decided row never changes again

  ghost predicate Extends(before: seq<Action>, after: seq<Action>) {
    && |before| <= |after|
    && forall i :: 0 <= i < |before| ==>
         && after[i].stage == before[i].stage
         && after[i].assignment == before[i].assignment
         && (!before[i].status.Pending? ==> after[i] == before[i])
  }

  lemma PassedIsKept(before: seq<Action>, after: seq<Action>, stage: Stage)
    requires Extends(before, after) && Passed(before, stage)
    requires forall i :: |before| <= i < |after| ==> after[i].stage != stage
    ensures Passed(after, stage)
  {
    var i :| 0 <= i < |before| && before[i].stage == stage && before[i].status.Approved?;
    assert after[i] == before[i];
  }

  lemma PassedBeforeIsKept(ctx: RunContext, before: seq<Action>, after: seq<Action>, sequence: nat)
    requires Extends(before, after) && PassedBefore(ctx, before, sequence)
    requires forall i :: |before| <= i < |after| ==> after[i].stage.sequence >= sequence
    ensures PassedBefore(ctx, after, sequence)
  {
    forall stage | stage in ctx.stages && stage.sequence < sequence
      ensures Passed(after, stage)
    {
      PassedIsKept(before, after, stage);
    }
  }

  lemma HandoffsAreKept(before: seq<Action>, after: seq<Action>, handoffs: seq<(nat, nat)>)
    requires Extends(before, after) && HandoffsRecorded(before, handoffs)
    requires forall i :: 0 <= i < |after| && HandedOn(after[i]) ==> i < |before| && HandedOn(before[i])
    ensures HandoffsRecorded(after, handoffs)
  {
  }

  // ----- stages

  lemma {:induction false} NextStageIsNext(stages: seq<Stage>, after: nat)
    requires Ascending(stages)
    ensures var next := NextStage(stages, after);
            if next.None? then forall stage :: stage in stages ==> stage.sequence <= after
            else && next.value in stages && next.value.sequence > after
                 && forall stage :: stage in stages && stage.sequence > after ==> next.value.sequence <= stage.sequence
  {
    if stages != [] && stages[0].sequence <= after {
      NextStageIsNext(stages[1..], after);
    }
  }

  // ----- opening a stage

  function NewActions(stage: Stage, assignments: seq<Assignment>, now: int): (rows: seq<Action>)
    ensures |rows| == |assignments|
  {
    seq(|assignments|, i requires 0 <= i < |assignments| => NewAction(stage, assignments[i], now, None))
  }

  /** The uniqueness constraint never refuses the rows of a stage that has none yet. */
  lemma {:induction false} FreshRowsAreInserted(actions: seq<Action>, stage: Stage, assignments: seq<Assignment>,
                                                now: int)
    requires DistinctUsers(assignments)
    requires forall a :: a in assignments ==> !Taken(actions, stage, a.user)
    ensures InsertActions(actions, stage, assignments, now) == Ok(actions + NewActions(stage, assignments, now))
    decreases |assignments|
  {
    if assignments == [] {
      assert actions + NewActions(stage, assignments, now) == actions;
    } else {
      var row := NewAction(stage, assignments[0], now, None);
      assert assignments[0] in assignments;
      forall a | a in assignments[1..]
        ensures !Taken(actions + [row], stage, a.user)
      {
        assert a in assignments;
        var k :| 0 <= k < |assignments[1..]| && assignments[1..][k] == a;
        assert assignments[0].user != assignments[k + 1].user;
      }
      FreshRowsAreInserted(actions + [row], stage, assignments[1..], now);
      assert actions + NewActions(stage, assignments, now)
          == (actions + [row]) + NewActions(stage, assignments[1..], now);
    }
  }

  /** Opening a stage fails only for want of approvers; otherwise it asks each of them once. */
  lemma OpenStageRows(ctx: RunContext, s: RunState, stage: Stage, env: Environment)
    requires forall i :: 0 <= i < |s.actions| ==> s.actions[i].stage != stage
    ensures var assignments := StageApprovers(env.org, stage.rule, ctx.request);
            OpenStage(ctx, s, stage, env) ==
              if assignments == [] then Err(NoApprovers)
              else Ok(s.(currentStage := stage.sequence,
                actions := s.actions + NewActions(stage, assignments, env.now)))
  {
    ApproversAreDistinct(env.org, stage.rule, ctx.request);
    FreshRowsAreInserted(s.actions, stage, StageApprovers(env.org, stage.rule, ctx.request), env.now);
  }

  /** All rows are final, and every stage before `stage` is passed. */
  ghost predicate ReadyFor(ctx: RunContext, s: RunState, stage: Stage) {
    && Ascending(ctx.stages) && stage in ctx.stages
    && s.status.Pending? && OnePerUser(s.actions) && HandoffsOrdered(s.handoffs)
      && HandoffsRecorded(s.actions, s.handoffs)
    && (forall i :: 0 <= i < |s.actions| ==>
          && s.actions[i].stage in ctx.stages && s.actions[i].stage.sequence < stage.sequence
          && !s.actions[i].status.Pending? && !s.actions[i].status.Rejected?)
    && PassedBefore(ctx, s.actions, stage.sequence)
  }

  lemma NewRowsKeepInvariant(ctx: RunContext, s: RunState, stage: Stage, assignments: seq<Assignment>, now: int,
                             next: RunState)
    requires ReadyFor(ctx, s, stage)
    requires assignments != [] && DistinctUsers(assignments)
    requires next == s.(currentStage := stage.sequence, actions := s.actions + NewActions(stage, assignments, now))
    ensures Invariant(ctx, next)
  {
    var rows := NewActions(stage, assignments, now);
    assert next.actions[|s.actions|] == rows[0];
    PassedBeforeIsKept(ctx, s.actions, next.actions, stage.sequence);
    HandoffsAreKept(s.actions, next.actions, s.handoffs);
  }

  /** A run whose reached stages are all passed may open the next one. */
  lemma OpenStageKeepsInvariant(ctx: RunContext, s: RunState, stage: Stage, env: Environment)
    requires ReadyFor(ctx, s, stage)
    requires OpenStage(ctx, s, stage, env).Ok?
    ensures Invariant(ctx, OpenStage(ctx, s, stage, env).value)
  {
    OpenStageRows(ctx, s, stage, env);
    var assignments := StageApprovers(env.org, stage.rule, ctx.request);
    ApproversAreDistinct(env.org, stage.rule, ctx.request);
    NewRowsKeepInvariant(ctx, s, stage, assignments, env.now, OpenStage(ctx, s, stage, env).value);
  }

  lemma CreateKeepsInvariant(ctx: RunContext, env: Environment)
    requires Ascending(ctx.stages) && Create(ctx, env).Ok?
    ensures Invariant(ctx, Create(ctx, env).value)
  {
    var empty := RunState(RunStatus.Pending, ctx.stages[0].sequence, [], []);
    OpenStageKeepsInvariant(ctx, empty, ctx.stages[0], env);
  }

  // ----- approving

  lemma AdvanceKeepsInvariant(ctx: RunContext, s: RunState, env: Environment)
    requires Consistent(ctx, s) && s.status.Pending?
    requires forall i :: 0 <= i < |s.actions| ==> !s.actions[i].status.Pending?
    requires forall stage :: stage in ctx.stages && stage.sequence == s.currentStage ==> Passed(s.actions, stage)
    requires AdvanceOrComplete(ctx, s, env).Ok?
    ensures Invariant(ctx, AdvanceOrComplete(ctx, s, env).value)
  {
    NextStageIsNext(ctx.stages, s.currentStage);
    var next := NextStage(ctx.stages, s.currentStage);
    if next.Some? {
      OpenStageKeepsInvariant(ctx, s, next.value, env);
    }
  }

  /** Rows other than `id` keep their stage and user and change only from pending to `status`. */
  ghost predicate OnlyClosed(before: seq<Action>, after: seq<Action>, id: nat, status: ActionStatus) {
    && |before| == |after|
    && forall i :: 0 <= i < |before| ==>
         && after[i].stage == before[i].stage && after[i].assignment == before[i].assignment
         && after[i].escalatedAt == before[i].escalatedAt
         && (i != id ==> after[i] == before[i] || (before[i].status.Pending? && after[i].status == status))
  }

  lemma ConsistentAfterDecision(ctx: RunContext, s: RunState, next: RunState, id: nat, status: ActionStatus)
    requires Consistent(ctx, s) && s.status.Pending?
    requires id < |s.actions| && s.actions[id].status.Pending?
    requires OnlyClosed(s.actions, next.actions, id, status)
    requires next == s.(actions := next.actions, status := next.status)
    requires next.actions[id].status.Approved? || next.actions[id].status.Rejected?
    requires status.Skipped? || status.Cancelled?
    requires next.status.Rejected? <==> next.actions[id].status.Rejected?
    requires !next.status.Pending? ==> forall i :: 0 <= i < |next.actions| ==> !next.actions[i].status.Pending?
    ensures Consistent(ctx, next)
  {
    PassedBeforeIsKept(ctx, s.actions, next.actions, s.currentStage);
  }

  lemma StageIsPassedWhenComplete(ctx: RunContext, s: RunState, env: Environment, id: nat)
    requires Invariant(ctx, s) && s.status.Pending?
    requires id < |s.actions| && s.actions[id].status.Pending?
    requires s.actions[id].stage.mode.Any? || !HasPending(ActionsAfterApproval(s, env, id), s.actions[id].stage)
    ensures var after := ActionsAfterApproval(s, env, id);
            && Passed(after, s.actions[id].stage)
            && forall i :: 0 <= i < |after| ==> !after[i].status.Pending?
  {
    var after := ActionsAfterApproval(s, env, id);
    var stage := s.actions[id].stage;
    assert after[id] == Decided(s.actions[id], ActionStatus.Approved, env.now);
    forall i | 0 <= i < |after|
      ensures !after[i].status.Pending?
    {
    }
  }

  lemma ApproveKeepsInvariant(ctx: RunContext, s: RunState, env: Environment, id: nat, actor: UserId)
    requires Invariant(ctx, s) && Approve(ctx, s, env, id, actor).Ok?
    ensures Invariant(ctx, Approve(ctx, s, env, id, actor).value)
  {
    var stage := s.actions[id].stage;
    var next := s.(actions := ActionsAfterApproval(s, env, id));
    assert OnlyClosed(s.actions, next.actions, id, Skipped);
    assert next.actions[id] == Decided(s.actions[id], ActionStatus.Approved, env.now);
    ConsistentAfterDecision(ctx, s, next, id, Skipped);
    if stage.mode.Any? || !HasPending(next.actions, stage) {
      StageIsPassedWhenComplete(ctx, s, env, id);
      forall t | t in ctx.stages && t.sequence == s.currentStage
        ensures Passed(next.actions, t)
      {
      }
      AdvanceKeepsInvariant(ctx, next, env);
    }
  }

  lemma RejectKeepsInvariant(ctx: RunContext, s: RunState, env: Environment, id: nat, actor: UserId)
    requires Invariant(ctx, s) && Reject(s, env, id, actor).Ok?
    ensures Invariant(ctx, Reject(s, env, id, actor).value)
  {
    var next := Reject(s, env, id, actor).value;
    assert OnlyClosed(s.actions, next.actions, id, ActionStatus.Cancelled);
    ConsistentAfterDecision(ctx, s, next, id, ActionStatus.Cancelled);
  }

  lemma CancelKeepsInvariant(ctx: RunContext, s: RunState, env: Environment)
    requires Invariant(ctx, s)
    ensures Invariant(ctx, Cancel(s, env))
  {
    if s.status.Pending? {
      var next := Cancel(s, env);
      PassedBeforeIsKept(ctx, s.actions, next.actions, s.currentStage);
      HandoffsAreKept(s.actions, next.actions, s.handoffs);
    }
  }

  // ----- escalating

  /** The receiver is pending, so it has not been handed on itself: the new hand-off is the latest. */
  lemma NewHandoffIsLast(actions: seq<Action>, handoffs: seq<(nat, nat)>, id: nat, to: nat)
    requires HandoffsOrdered(handoffs) && HandoffsRecorded(actions, handoffs)
    requires id < |actions| && to < |actions| && id != to
    requires actions[id].status.Pending? && actions[to].status.Pending?
    ensures HandoffsOrdered(handoffs + [(id, to)])
  {
    assert forall k :: 0 <= k < |handoffs| ==> HandedOn(actions[handoffs[k].0]);
  }

  lemma NewHandoffIsRecorded(s: RunState, now: int, id: nat, to: nat)
    requires HandoffsRecorded(s.actions, s.handoffs)
    requires id < |s.actions| && to < |s.actions| && id != to
    requires s.actions[id].status.Pending? && s.actions[id].stage == s.actions[to].stage
    ensures HandoffsRecorded(HandOver(s, now, id, to).actions, HandOver(s, now, id, to).handoffs)
  {
    var next := HandOver(s, now, id, to);
    assert forall k :: 0 <= k < |s.handoffs| ==> next.handoffs[k] == s.handoffs[k];
    assert next.handoffs[|s.handoffs|] == (id, to);
    forall i | 0 <= i < |next.actions| && HandedOn(next.actions[i])
      ensures IsSource(next.handoffs, i)
    {
      if i != id {
        var k :| 0 <= k < |s.handoffs| && s.handoffs[k].0 == i;
        assert next.handoffs[k].0 == i;
      }
    }
  }

  lemma HandOverKeepsInvariant(ctx: RunContext, s: RunState, now: int, id: nat, to: nat)
    requires Invariant(ctx, s) && s.status.Pending?
    requires id < |s.actions| && to < |s.actions| && id != to
    requires s.actions[id].status.Pending? && s.actions[to].status.Pending?
    requires s.actions[id].stage == s.actions[to].stage
    ensures Invariant(ctx, HandOver(s, now, id, to))
  {
    var next := HandOver(s, now, id, to);
    NewHandoffIsLast(s.actions, s.handoffs, id, to);
    NewHandoffIsRecorded(s, now, id, to);
    PassedBeforeIsKept(ctx, s.actions, next.actions, s.currentStage);
    assert next.actions[to].status.Pending?;
  }

  lemma InsertKeepsInvariant(ctx: RunContext, s: RunState, row: Action)
    requires Invariant(ctx, s) && s.status.Pending?
    requires row.status.Pending? && row.escalatedAt.None?
    requires row.stage in ctx.stages && row.stage.sequence == s.currentStage
    requires !Taken(s.actions, row.stage, row.assignment.user)
    ensures Invariant(ctx, s.(actions := s.actions + [row]))
  {
    var next := s.(actions := s.actions + [row]);
    assert next.actions[|s.actions|] == row;
    PassedBeforeIsKept(ctx, s.actions, next.actions, s.currentStage);
  }

  lemma EscalateKeepsInvariant(ctx: RunContext, s: RunState, env: Environment, id: nat)
    requires Invariant(ctx, s) && Escalate(ctx, s, env, id).Ok?
    ensures Invariant(ctx, Escalate(ctx, s, env, id).value)
  {
    if id < |s.actions| && DueEscalation(ctx, s, env, id).Some? {
      var target := DueEscalation(ctx, s, env, id).value;
      var action := s.actions[id];
      var existing := PendingActionOf(s.actions, action.stage, target.user);
      if existing.Some? {
        HandOverKeepsInvariant(ctx, s, env.now, id, existing.value);
      } else {
        var row := NewAction(action.stage, EscalatedAssignment(action.assignment, target), env.now, Some(id));
        InsertKeepsInvariant(ctx, s, row);
        HandOverKeepsInvariant(ctx, s.(actions := s.actions + [row]), env.now, id, |s.actions|);
      }
    }
  }

  // ----- runs

  lemma StepKeepsInvariant(ctx: RunContext, s: RunState, env: Environment, step: Step)
    requires Invariant(ctx, s)
    ensures Invariant(ctx, Apply(ctx, s, env, step))
  {
    if Attempt(ctx, s, env, step).Ok? {
      match step
      case ApproveStep(id, actor) => ApproveKeepsInvariant(ctx, s, env, id, actor);
      case RejectStep(id, actor) => RejectKeepsInvariant(ctx, s, env, id, actor);
      case CancelStep => CancelKeepsInvariant(ctx, s, env);
      case EscalateStep(id) => EscalateKeepsInvariant(ctx, s, env, id);
    }
  }

  lemma {:induction false} ExecuteKeepsInvariant(ctx: RunContext, s: RunState, trace: seq<(Environment, Step)>)
    requires Invariant(ctx, s)
    ensures Invariant(ctx, Execute(ctx, s, trace))
    decreases |trace|
  {
    if trace != [] {
      StepKeepsInvariant(ctx, s, trace[0].0, trace[0].1);
      ExecuteKeepsInvariant(ctx, Apply(ctx, s, trace[0].0, trace[0].1), trace[1..]);
    }
  }

  /** Whatever happens to a run created under any organisation data, the invariant holds. */
  lemma EveryReachableStateIsSound(ctx: RunContext, env: Environment, trace: seq<(Environment, Step)>)
    requires Ascending(ctx.stages) && Create(ctx, env).Ok?
    ensures Invariant(ctx, Execute(ctx, Create(ctx, env).value, trace))
  {
    CreateKeepsInvariant(ctx, env);
    ExecuteKeepsInvariant(ctx, Create(ctx, env).value, trace);
  }
}
