/** Which users a run can ever name, and so when a requester is asked about their own request. */
module OwnRequests {
  import opened Prelude
  import opened ApproverResolution
  import opened ApprovalRuns
  import opened ApprovalInvariant
  import opened ApprovalTheorems
  import opened ApprovalHistory
  import opened WorkflowSimulation

  function ApproversOf(ctx: RunContext, org: Organisation, k: nat): seq<Assignment>
    requires k < |ctx.stages|
  {
    StageApprovers(org, ctx.stages[k].rule, ctx.request)
  }

  /** The stage has an active policy that escalates to the user. */
  predicate EscalatesTo(ctx: RunContext, org: Organisation, stage: Stage, user: UserId) {
    && Escalates(stage)
    && EscalationTarget(ctx, org, stage.sla.value).Some?
    && EscalationTarget(ctx, org, stage.sla.value).value.user == user
  }

  /** Every stage up to the k-th has approvers. */
  predicate StaffedUpTo(ctx: RunContext, org: Organisation, k: nat)
    requires k < |ctx.stages|
  {
    forall j :: 0 <= j <= k ==> ApproversOf(ctx, org, j) != []
  }

  /** Some stage asks for the user, or escalates to the user, and it and all stages before it have approvers. */
  predicate WithinReach(ctx: RunContext, org: Organisation, user: UserId) {
    exists k ::
      && 0 <= k < |ctx.stages| && StaffedUpTo(ctx, org, k)
      && (user in Users(ApproversOf(ctx, org, k)) || EscalatesTo(ctx, org, ctx.stages[k], user))
  }

  predicate Names(s: RunState, user: UserId) {
    exists i :: 0 <= i < |s.actions| && s.actions[i].assignment.user == user
  }

  /** With the organisation data as they are, some run of the workflow names the user. */
  ghost predicate CanBeNamed(ctx: RunContext, env: Environment, user: UserId) {
    && Create(ctx, env).Ok?
    && exists trace ::
         SameOrganisation(env.org, trace) && Names(Execute(ctx, Create(ctx, env).value, trace), user)
  }

  // ----- whoever is named is within reach

  lemma ReachedStagesAreStaffed(ctx: RunContext, env: Environment, trace: seq<(Environment, Step)>, k: nat)
    requires Ascending(ctx.stages) && Create(ctx, env).Ok? && SameOrganisation(env.org, trace)
    requires k < |ctx.stages|
    requires ctx.stages[k].sequence <= Execute(ctx, Create(ctx, env).value, trace).currentStage
    ensures StaffedUpTo(ctx, env.org, k)
  {
    forall j | 0 <= j <= k
      ensures ApproversOf(ctx, env.org, j) != []
    {
      if ApproversOf(ctx, env.org, j) == [] {
        assert Simulation(ctx, env.org)[j].warned;
        WarnedStageBlocksRuns(ctx, env, trace, j);
      }
    }
  }

  lemma NamedIsWithinReach(ctx: RunContext, env: Environment, trace: seq<(Environment, Step)>, i: nat)
    requires Ascending(ctx.stages) && Create(ctx, env).Ok? && SameOrganisation(env.org, trace)
    requires i < |Execute(ctx, Create(ctx, env).value, trace).actions|
    ensures WithinReach(ctx, env.org, Execute(ctx, Create(ctx, env).value, trace).actions[i].assignment.user)
  {
    var s := Execute(ctx, Create(ctx, env).value, trace);
    var row := s.actions[i];
    assert row.stage in ctx.stages && row.stage.sequence <= s.currentStage by {
      EveryReachableStateIsSound(ctx, env, trace);
    }
    var k :| 0 <= k < |ctx.stages| && ctx.stages[k] == row.stage;
    ReachedStagesAreStaffed(ctx, env, trace, k);
    EveryRowIsExplained(ctx, env, trace);
    assert Explained(ctx, Environments(env, trace), row);
    var e :| e in Environments(env, trace) && (AskedUnder(ctx, e, row) || HandedToTarget(ctx, e, row));
    assert e.org == env.org;
    if AskedUnder(ctx, e, row) {
      assert row.assignment.user in Users(ApproversOf(ctx, env.org, k));
    } else {
      assert EscalatesTo(ctx, env.org, ctx.stages[k], row.assignment.user);
    }
  }

  // ----- whoever is within reach can be named

  lemma {:induction false} AnnouncedMembers(simulated: seq<SimulatedStage>, sequence: nat, a: Assignment)
    ensures (sequence, a) in Announced(simulated) <==>
            exists j :: 0 <= j < |simulated| && simulated[j].sequence == sequence && a in simulated[j].approvers
  {
    if simulated != [] {
      var last := |simulated| - 1;
      AnnouncedMembers(simulated[..last], sequence, a);
      assert (sequence, a) in AskedInStage(simulated[last]) <==>
             simulated[last].sequence == sequence && a in simulated[last].approvers by {
        LastStageMembers(simulated[last], sequence, a);
      }
      if (sequence, a) in Announced(simulated[..last]) {
        var j :| && 0 <= j < |simulated[..last]| && simulated[..last][j].sequence == sequence
                 && a in simulated[..last][j].approvers;
        assert simulated[j].sequence == sequence && a in simulated[j].approvers;
      }
      if j :| 0 <= j < |simulated| && simulated[j].sequence == sequence && a in simulated[j].approvers && j < last {
        assert simulated[..last][j] == simulated[j];
      }
    }
  }

  lemma LastStageMembers(stage: SimulatedStage, sequence: nat, a: Assignment)
    ensures (sequence, a) in AskedInStage(stage) <==> stage.sequence == sequence && a in stage.approvers
  {
    if a in stage.approvers {
      var i :| 0 <= i < |stage.approvers| && stage.approvers[i] == a;
      assert AskedInStage(stage)[i] == (stage.sequence, a);
    }
  }

  /** A run that follows the simulation has, in the stage it waits for, a row for exactly each approver. */
  lemma RowsOfCurrentStage(ctx: RunContext, org: Organisation, s: RunState, k: nat, a: Assignment)
    requires Ascending(ctx.stages) && Follows(ctx, org, s, k)
    ensures a in ApproversOf(ctx, org, k) <==>
            exists i :: && 0 <= i < |s.actions| && s.actions[i].stage.sequence == ctx.stages[k].sequence
                        && s.actions[i].assignment == a
  {
    var simulated := Simulation(ctx, org)[..k + 1];
    var sequence := ctx.stages[k].sequence;
    AnnouncedMembers(simulated, sequence, a);
    assert simulated[k].sequence == sequence && simulated[k].approvers == ApproversOf(ctx, org, k);
    if (sequence, a) in Asked(s.actions) {
      var i :| 0 <= i < |s.actions| && Asked(s.actions)[i] == (sequence, a);
      assert s.actions[i].assignment == a;
    }
    if i :| && 0 <= i < |s.actions| && s.actions[i].stage.sequence == sequence && s.actions[i].assignment == a {
      assert Asked(s.actions)[i] == (sequence, a);
    }
  }

  lemma EarlierStageHasNext(ctx: RunContext, org: Organisation, s: RunState, j: nat, k: nat)
    requires Ascending(ctx.stages) && j < k < |ctx.stages| && s.currentStage == ctx.stages[j].sequence
    requires StaffedUpTo(ctx, org, k)
    ensures NextStage(ctx.stages, s.currentStage) == Some(ctx.stages[j + 1]) && NextIsStaffed(ctx, org, s)
  {
    NextStageAt(ctx.stages, j);
    assert ApproversOf(ctx, org, j + 1) != [];
  }

  lemma NotTheLastStage(ctx: RunContext, s: RunState, env: Environment, id: nat, actor: UserId)
    requires Approve(ctx, s, env, id, actor).Ok? && NextStage(ctx.stages, s.currentStage).Some?
    ensures Approve(ctx, s, env, id, actor).value.status == s.status
  {
  }

  lemma OneApprovalCloser(ctx: RunContext, s: RunState, env: Environment, j: nat, k: nat) returns (step: Step, j': nat)
    requires Invariant(ctx, s) && s.status.Pending? && Follows(ctx, env.org, s, j) && !env.actionsBlocked
    requires j < k < |ctx.stages| && StaffedUpTo(ctx, env.org, k)
    ensures j' <= k
    ensures var next := Apply(ctx, s, env, step);
            && Invariant(ctx, next) && next.status.Pending? && Follows(ctx, env.org, next, j')
            && (|| |StagesLeft(ctx, next)| < |StagesLeft(ctx, s)|
                || (|StagesLeft(ctx, next)| == |StagesLeft(ctx, s)|
                    && |PendingIds(next.actions)| < |PendingIds(s.actions)|))
  {
    EarlierStageHasNext(ctx, env.org, s, j, k);
    step := SomeoneApproves(ctx, s, env);
    j' := ApprovalFollows(ctx, s, env, step.id, step.actor, j);
    NotTheLastStage(ctx, s, env, step.id, step.actor);
  }

  /** With approvers in every stage up to the k-th, approvals lead to that stage. */
  lemma {:induction false} StageCanBeReached(ctx: RunContext, s: RunState, env: Environment, j: nat, k: nat)
    returns (trace: seq<(Environment, Step)>)
    requires Invariant(ctx, s) && s.status.Pending? && Follows(ctx, env.org, s, j) && !env.actionsBlocked
    requires j <= k < |ctx.stages| && StaffedUpTo(ctx, env.org, k)
    ensures SameOrganisation(env.org, trace)
    ensures var last := Execute(ctx, s, trace);
            Invariant(ctx, last) && last.status.Pending? && Follows(ctx, env.org, last, k)
    decreases |StagesLeft(ctx, s)|, |PendingIds(s.actions)|
  {
    if j == k {
      trace := [];
    } else {
      var step, j' := OneApprovalCloser(ctx, s, env, j, k);
      var rest := StageCanBeReached(ctx, Apply(ctx, s, env, step), env, j', k);
      trace := [(env, step)] + rest;
      assert trace[1..] == rest;
    }
  }

  lemma {:induction false} OneMoreStep(ctx: RunContext, s: RunState, trace: seq<(Environment, Step)>, env: Environment,
                                       step: Step)
    ensures Execute(ctx, s, trace + [(env, step)]) == Apply(ctx, Execute(ctx, s, trace), env, step)
    decreases |trace|
  {
    if trace == [] {
      assert trace + [(env, step)] == [(env, step)];
      assert [(env, step)][1..] == [];
    } else {
      OneMoreStep(ctx, Apply(ctx, s, trace[0].0, trace[0].1), trace[1..], env, step);
      assert (trace + [(env, step)])[1..] == trace[1..] + [(env, step)];
    }
  }

  /** Once its hours have passed, a pending action can be handed to a user who has no row in its stage yet. */
  lemma EscalationNames(ctx: RunContext, s: RunState, org: Organisation, id: nat, user: UserId)
    returns (env: Environment)
    requires Invariant(ctx, s) && id < |s.actions| && s.actions[id].status.Pending?
    requires EscalatesTo(ctx, org, s.actions[id].stage, user)
    requires forall i :: 0 <= i < |s.actions| && s.actions[i].stage == s.actions[id].stage ==>
               s.actions[i].assignment.user != user
    ensures env.org == org && Names(Apply(ctx, s, env, EscalateStep(id)), user)
  {
    var action := s.actions[id];
    env := Environment(org, action.createdAt + action.stage.sla.value.escalateAfterHours.value, false);
    var target := DueEscalation(ctx, s, env, id);
    assert target.Some? && target.value.user == user;
    assert PendingActionOf(s.actions, action.stage, user).None?;
    var next := EscalateTo(s, env, id, target.value).value;
    assert next.actions[|s.actions|].assignment.user == user;
    assert Apply(ctx, s, env, EscalateStep(id)) == next;
  }

  lemma CurrentStageEscalates(ctx: RunContext, org: Organisation, s: RunState, k: nat, user: UserId)
    returns (id: nat, late: Environment)
    requires Invariant(ctx, s) && s.status.Pending? && Follows(ctx, org, s, k)
    requires user !in Users(ApproversOf(ctx, org, k)) && EscalatesTo(ctx, org, ctx.stages[k], user)
    ensures late.org == org && Names(Apply(ctx, s, late, EscalateStep(id)), user)
  {
    id :| id < |s.actions| && s.actions[id].status.Pending?;
    CurrentRowsAreApprovers(ctx, org, s, k);
    late := EscalationNames(ctx, s, org, id, user);
  }

  lemma WithinReachIsNamed(ctx: RunContext, env: Environment, k: nat, user: UserId)
    returns (trace: seq<(Environment, Step)>)
    requires Ascending(ctx.stages) && k < |ctx.stages| && StaffedUpTo(ctx, env.org, k)
    requires user in Users(ApproversOf(ctx, env.org, k)) || EscalatesTo(ctx, env.org, ctx.stages[k], user)
    ensures Create(ctx, env).Ok? && SameOrganisation(env.org, trace)
    ensures Names(Execute(ctx, Create(ctx, env).value, trace), user)
  {
    var created := CreatedRun(ctx, env, k);
    var open := env.(actionsBlocked := false);
    trace := StageCanBeReached(ctx, created, open, 0, k);
    var s := Execute(ctx, created, trace);
    if user in Users(ApproversOf(ctx, env.org, k)) {
      var a :| a in ApproversOf(ctx, env.org, k) && a.user == user;
      RowsOfCurrentStage(ctx, env.org, s, k, a);
    } else {
      var id, late := CurrentStageEscalates(ctx, env.org, s, k, user);
      OneMoreStep(ctx, created, trace, late, EscalateStep(id));
      trace := trace + [(late, EscalateStep(id))];
    }
  }

  lemma CreatedRun(ctx: RunContext, env: Environment, k: nat) returns (created: RunState)
    requires Ascending(ctx.stages) && k < |ctx.stages| && StaffedUpTo(ctx, env.org, k)
    ensures Create(ctx, env) == Ok(created)
    ensures Invariant(ctx, created) && created.status.Pending? && Follows(ctx, env.org, created, 0)
  {
    assert ApproversOf(ctx, env.org, 0) != [];
    OpenStageRows(ctx, RunState(RunStatus.Pending, ctx.stages[0].sequence, [], []), ctx.stages[0], env);
    created := Create(ctx, env).value;
    CreateKeepsInvariant(ctx, env);
    CreationFollows(ctx, env);
  }

  /** In the stage a run waits for, only approvers have rows as long as nothing was escalated. */
  lemma CurrentRowsAreApprovers(ctx: RunContext, org: Organisation, s: RunState, k: nat)
    requires Invariant(ctx, s) && Follows(ctx, org, s, k)
    ensures forall i :: 0 <= i < |s.actions| && s.actions[i].stage.sequence == ctx.stages[k].sequence ==>
              && s.actions[i].stage == ctx.stages[k]
              && s.actions[i].assignment.user in Users(ApproversOf(ctx, org, k))
  {
    forall i | 0 <= i < |s.actions| && s.actions[i].stage.sequence == ctx.stages[k].sequence
      ensures s.actions[i].stage == ctx.stages[k]
      ensures s.actions[i].assignment.user in Users(ApproversOf(ctx, org, k))
    {
      RowsOfCurrentStage(ctx, org, s, k, s.actions[i].assignment);
      assert s.actions[i].stage in ctx.stages;
    }
  }

  // ----- the exact conditions

  /**
   With the organisation data fixed, some run of the workflow names a user if and only if some stage
   asks for the user or escalates to the user, and it and all stages before it have approvers.
   */
  lemma NamedIffWithinReach(ctx: RunContext, env: Environment, user: UserId)
    requires Ascending(ctx.stages)
    ensures CanBeNamed(ctx, env, user) <==> WithinReach(ctx, env.org, user)
  {
    if CanBeNamed(ctx, env, user) {
      var trace :| SameOrganisation(env.org, trace) && Names(Execute(ctx, Create(ctx, env).value, trace), user);
      var s := Execute(ctx, Create(ctx, env).value, trace);
      var i :| 0 <= i < |s.actions| && s.actions[i].assignment.user == user;
      NamedIsWithinReach(ctx, env, trace, i);
    }
    if WithinReach(ctx, env.org, user) {
      var k :| && 0 <= k < |ctx.stages| && StaffedUpTo(ctx, env.org, k)
               && (user in Users(ApproversOf(ctx, env.org, k)) || EscalatesTo(ctx, env.org, ctx.stages[k], user));
      var trace := WithinReachIsNamed(ctx, env, k, user);
    }
  }

  /** The stage's rule falls back to the requester, or its policy escalates to the requester. */
  predicate TurnsToRequester(ctx: RunContext, org: Organisation, stage: Stage)
    requires ctx.request.requester.Some?
  {
    var candidates := Candidates(org, stage.rule, stage.rule.approvers, ctx.request);
    || (&& FallbackIsRequester(org, stage.rule, ctx.request)
        && (candidates == [] || exists a :: a in candidates && IsBarred(org, ctx.request, a)))
    || EscalatesTo(ctx, org, stage, org.userOf(ctx.request.requester.value))
  }

  /**
   In a kind that bars the requester, a run can name the requester if and only if some stage, up to
   which all stages have approvers, turns to the requester: by a delegated fallback that stands in
   for nobody else or for the requester, or by an active escalation policy.
   */
  lemma OwnRequestIff(ctx: RunContext, env: Environment)
    requires Ascending(ctx.stages)
    requires ctx.request.requester.Some? && !SelfApprovalAllowed(ctx.request.kind)
    ensures CanBeNamed(ctx, env, env.org.userOf(ctx.request.requester.value)) <==>
            exists k :: && 0 <= k < |ctx.stages| && StaffedUpTo(ctx, env.org, k)
                        && TurnsToRequester(ctx, env.org, ctx.stages[k])
  {
    var user := env.org.userOf(ctx.request.requester.value);
    NamedIffWithinReach(ctx, env, user);
    forall k | 0 <= k < |ctx.stages|
      ensures TurnsToRequester(ctx, env.org, ctx.stages[k]) <==>
              user in Users(ApproversOf(ctx, env.org, k)) || EscalatesTo(ctx, env.org, ctx.stages[k], user)
    {
      RequesterIsAskedIff(env.org, ctx.stages[k].rule, ctx.request);
    }
  }
}
