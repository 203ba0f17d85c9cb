/** What the invariant of an approval run means for whole runs. */
module ApprovalTheorems {
  import opened Prelude
  import opened ApproverResolution
  import opened ApprovalRuns
  import opened ApprovalInvariant

  // ----- finished runs

  /** A run waits exactly as long as one of its actions does. */
  lemma PendingRunHasPendingAction(ctx: RunContext, env: Environment, trace: seq<(Environment, Step)>)
    requires Ascending(ctx.stages) && Create(ctx, env).Ok?
    ensures var s := Execute(ctx, Create(ctx, env).value, trace);
            && (s.status.Pending? <==> SomethingPending(s.actions))
            && (forall i :: 0 <= i < |s.actions| && s.actions[i].status.Pending? ==>
                  s.actions[i].stage.sequence == s.currentStage)
  {
    EveryReachableStateIsSound(ctx, env, trace);
  }

  /** No step, in any environment, changes anything in a finished run. */
  lemma {:induction false} FinishedRunIsAbsorbing(ctx: RunContext, s: RunState, trace: seq<(Environment, Step)>)
    requires Invariant(ctx, s) && !s.status.Pending?
    ensures Execute(ctx, s, trace) == s
    decreases |trace|
  {
    if trace != [] {
      FinishedRunIsAbsorbing(ctx, s, trace[1..]);
    }
  }

  lemma StepExtends(ctx: RunContext, s: RunState, env: Environment, step: Step)
    requires Invariant(ctx, s)
    ensures Extends(s.actions, Apply(ctx, s, env, step).actions)
  {
    if Attempt(ctx, s, env, step).Ok? {
      match step
      case ApproveStep(id, actor) => ApproveExtends(ctx, s, env, id, actor);
      case RejectStep(id, actor) =>
      case CancelStep =>
      case EscalateStep(id) => EscalateExtends(ctx, s, env, id);
    }
  }

  lemma ApproveExtends(ctx: RunContext, s: RunState, env: Environment, id: nat, actor: UserId)
    requires Invariant(ctx, s) && Approve(ctx, s, env, id, actor).Ok?
    ensures Extends(s.actions, Approve(ctx, s, env, id, actor).value.actions)
  {
    ApproveShape(ctx, s, env, id, actor);
    assert Extends(s.actions, ActionsAfterApproval(s, env, id));
  }

  lemma EscalateExtends(ctx: RunContext, s: RunState, env: Environment, id: nat)
    requires Escalate(ctx, s, env, id).Ok?
    ensures Extends(s.actions, Escalate(ctx, s, env, id).value.actions)
  {
  }

  /** The run after an approval: the rows as decided, followed by those of the next stage if one was opened. */
  lemma ApproveShape(ctx: RunContext, s: RunState, env: Environment, id: nat, actor: UserId)
    requires Invariant(ctx, s) && Approve(ctx, s, env, id, actor).Ok?
    ensures var next := Approve(ctx, s, env, id, actor).value;
            var decided := ActionsAfterApproval(s, env, id);
            var following := NextStage(ctx.stages, s.currentStage);
            || next == s.(status := next.status, actions := decided)
            || (&& following.Some?
                && following.value in ctx.stages && following.value.sequence > s.currentStage
                && StageApprovers(env.org, following.value.rule, ctx.request) != []
                && next == s.(currentStage := following.value.sequence,
                              actions := decided + NewActions(following.value,
                                                              StageApprovers(
                                                                env.org, following.value.rule, ctx.request),
                                                              env.now)))
  {
    var stage := s.actions[id].stage;
    var decided := s.(actions := ActionsAfterApproval(s, env, id));
    if stage.mode.Any? || !HasPending(decided.actions, stage) {
      NextStageIsNext(ctx.stages, s.currentStage);
      var following := NextStage(ctx.stages, s.currentStage);
      if following.Some? {
        OpenStageRows(ctx, decided, following.value, env);
      }
    }
  }

  /** No action row is ever lost or reassigned, and a decision is never revised. */
  lemma {:induction false} DecisionsAreFinal(ctx: RunContext, s: RunState, trace: seq<(Environment, Step)>)
    requires Invariant(ctx, s)
    ensures Extends(s.actions, Execute(ctx, s, trace).actions)
    decreases |trace|
  {
    if trace != [] {
      var next := Apply(ctx, s, trace[0].0, trace[0].1);
      StepExtends(ctx, s, trace[0].0, trace[0].1);
      StepKeepsInvariant(ctx, s, trace[0].0, trace[0].1);
      DecisionsAreFinal(ctx, next, trace[1..]);
    }
  }

  // ----- what an approval means

  predicate IsHandoff(s: RunState, from: nat, to: nat) {
    (from, to) in s.handoffs
  }

  /** A chain of actions, each of which handed its duty to the next. */
  predicate HandoffChain(s: RunState, chain: seq<nat>) {
    && chain != []
    && (|chain| > 1 ==> IsHandoff(s, chain[0], chain[1]) && HandoffChain(s, chain[1..]))
  }

  lemma {:induction false} ChainsAreShort(s: RunState, chain: seq<nat>, k: nat)
    requires HandoffsOrdered(s.handoffs) && HandoffChain(s, chain)
    requires |chain| >= 2
    requires k < |s.handoffs| && s.handoffs[k] == (chain[0], chain[1])
    ensures |chain| - 1 <= |s.handoffs| - k
    decreases |chain|
  {
    if |chain| > 2 {
      assert IsHandoff(s, chain[1], chain[2]);
      var l :| 0 <= l < |s.handoffs| && s.handoffs[l] == (chain[1], chain[2]);
      assert k < l;
      ChainsAreShort(s, chain[1..], l);
    }
  }

  lemma {:induction false} ChainStaysInStage(s: RunState, chain: seq<nat>)
    requires HandoffsRecorded(s.actions, s.handoffs)
    requires HandoffChain(s, chain) && chain[0] < |s.actions|
    ensures chain[|chain| - 1] < |s.actions|
    ensures s.actions[chain[|chain| - 1]].stage == s.actions[chain[0]].stage
    decreases |chain|
  {
    if |chain| > 1 {
      ChainStaysInStage(s, chain[1..]);
    }
  }

  /** The last action of a chain has not been handed on. */
  predicate Complete(s: RunState, chain: seq<nat>)
    requires chain != []
  {
    !IsSource(s.handoffs, chain[|chain| - 1])
  }

  /**
   The discharge theorem. When a run is approved, every stage of its workflow has an approved
   action; and from every action ever created in a stage that needs all its approvers, each chain
   of hand-offs followed to its end, which is at most as long as there are hand-offs, ends at an
   approved action of the same stage.
   */
  lemma ApprovedRunIsDischarged(ctx: RunContext, env: Environment, trace: seq<(Environment, Step)>)
    requires Ascending(ctx.stages) && Create(ctx, env).Ok?
    requires Execute(ctx, Create(ctx, env).value, trace).status.Approved?
    ensures var s := Execute(ctx, Create(ctx, env).value, trace);
            && (forall stage :: stage in ctx.stages ==>
                  exists i :: 0 <= i < |s.actions| && s.actions[i].stage == stage && s.actions[i].status.Approved?)
            && (forall i :: 0 <= i < |s.actions| && s.actions[i].stage.mode.All? ==>
                  s.actions[i].status.Approved? || HandedOn(s.actions[i]))
            && (forall chain :: HandoffChain(s, chain) ==> |chain| <= |s.handoffs| + 1)
            && (forall chain ::
                  HandoffChain(s, chain) && chain[0] < |s.actions| && s.actions[chain[0]].stage.mode.All?
                    && Complete(s, chain)
                  ==> var last := chain[|chain| - 1];
                      && last < |s.actions|
                      && s.actions[last].stage == s.actions[chain[0]].stage
                      && s.actions[last].status.Approved?)
  {
    EveryReachableStateIsSound(ctx, env, trace);
    var s := Execute(ctx, Create(ctx, env).value, trace);
    ApprovedStagesAreSettled(ctx, s);
    forall chain | HandoffChain(s, chain)
      ensures |chain| <= |s.handoffs| + 1
    {
      if |chain| > 1 {
        assert IsHandoff(s, chain[0], chain[1]);
        var k :| 0 <= k < |s.handoffs| && s.handoffs[k] == (chain[0], chain[1]);
        ChainsAreShort(s, chain, k);
      }
    }
    forall chain | HandoffChain(s, chain) && chain[0] < |s.actions|
                && s.actions[chain[0]].stage.mode.All? && Complete(s, chain)
      ensures var last := chain[|chain| - 1];
              && last < |s.actions|
              && s.actions[last].stage == s.actions[chain[0]].stage
              && s.actions[last].status.Approved?
    {
      ChainStaysInStage(s, chain);
      var last := chain[|chain| - 1];
      assert Settled(s.actions[last]);
    }
  }

  lemma ApprovedStagesAreSettled(ctx: RunContext, s: RunState)
    requires Invariant(ctx, s) && s.status.Approved?
    ensures forall stage :: stage in ctx.stages ==>
              exists i :: 0 <= i < |s.actions| && s.actions[i].stage == stage && s.actions[i].status.Approved?
    ensures forall i :: 0 <= i < |s.actions| ==> Settled(s.actions[i])
  {
    forall stage | stage in ctx.stages
      ensures exists i :: 0 <= i < |s.actions| && s.actions[i].stage == stage && s.actions[i].status.Approved?
    {
      assert Passed(s.actions, stage);
    }
    forall i | 0 <= i < |s.actions|
      ensures Settled(s.actions[i])
    {
      assert Passed(s.actions, s.actions[i].stage);
    }
  }

  /** From every action of an approved run's ALL stage there is a chain of hand-offs to an approved action. */
  lemma {:induction false} DutyReachesAnApproval(s: RunState, id: nat) returns (chain: seq<nat>)
    requires HandoffsOrdered(s.handoffs) && HandoffsRecorded(s.actions, s.handoffs)
    requires id < |s.actions|
    requires forall i :: 0 <= i < |s.actions| && s.actions[i].stage == s.actions[id].stage ==>
               s.actions[i].status.Approved? || HandedOn(s.actions[i])
    ensures HandoffChain(s, chain) && chain[0] == id
    ensures chain[|chain| - 1] < |s.actions| && s.actions[chain[|chain| - 1]].status.Approved?
    decreases |s.handoffs| - (if IsSource(s.handoffs, id) then IndexOfSource(s.handoffs, id) else |s.handoffs|)
  {
    if s.actions[id].status.Approved? {
      chain := [id];
    } else {
      var k := IndexOfSource(s.handoffs, id);
      var to := s.handoffs[k].1;
      assert IsHandoff(s, id, to);
      if IsSource(s.handoffs, to) {
        assert k < IndexOfSource(s.handoffs, to);
      }
      var rest := DutyReachesAnApproval(s, to);
      chain := [id] + rest;
      assert chain[1..] == rest;
    }
  }

  ghost function IndexOfSource(handoffs: seq<(nat, nat)>, id: nat): (k: nat)
    requires IsSource(handoffs, id)
    ensures k < |handoffs| && handoffs[k].0 == id
  {
    var k :| 0 <= k < |handoffs| && handoffs[k].0 == id;
    k
  }

  /** Approved, rejected and cancelled runs are told apart by their rows. */
  lemma OutcomeMatchesRows(ctx: RunContext, env: Environment, trace: seq<(Environment, Step)>)
    requires Ascending(ctx.stages) && Create(ctx, env).Ok?
    ensures var s := Execute(ctx, Create(ctx, env).value, trace);
            && (s.status.Rejected? <==> exists i :: 0 <= i < |s.actions| && s.actions[i].status.Rejected?)
            && (s.status.Approved? ==> forall i :: 0 <= i < |s.actions| ==> Settled(s.actions[i]))
  {
    EveryReachableStateIsSound(ctx, env, trace);
    var s := Execute(ctx, Create(ctx, env).value, trace);
    if s.status.Approved? {
      ApprovedStagesAreSettled(ctx, s);
    }
  }

  /**
   A due escalation fails exactly when the person it goes to has already decided, or been relieved
   of, an action of the same stage: the row it would add is refused as a duplicate.
   */
  lemma EscalationFailsIff(ctx: RunContext, s: RunState, env: Environment, id: nat)
    requires Invariant(ctx, s) && id < |s.actions| && DueEscalation(ctx, s, env, id).Some?
    ensures var target := DueEscalation(ctx, s, env, id).value;
            Escalate(ctx, s, env, id) == Err(DuplicateAction) <==>
            exists i :: && 0 <= i < |s.actions| && s.actions[i].stage == s.actions[id].stage
                        && s.actions[i].assignment.user == target.user && !s.actions[i].status.Pending?
  {
    var target := DueEscalation(ctx, s, env, id).value;
    var existing := PendingActionOf(s.actions, s.actions[id].stage, target.user);
    if existing.Some? {
      assert s.actions[existing.value].assignment.user == target.user;
    }
  }

  // ----- every run is finite

  ghost predicate Within(org: Organisation, users: set<UserId>) {
    && (forall e: EmployeeId :: org.userOf(e) in users)
    && (org.primaryAdmin.Some? ==> org.primaryAdmin.value in users)
    && (org.createdBy.Some? ==> org.createdBy.value in users)
  }

  ghost predicate AllWithin(assignments: seq<Assignment>, users: set<UserId>) {
    forall a :: a in assignments ==> a.user in users
  }

  lemma CandidatesOfWithin(org: Organisation, rule: StageRule, approver: StageApprover, request: Request,
                           users: set<UserId>)
    requires Within(org, users)
    ensures AllWithin(CandidatesOf(org, rule, approver, request), users)
  {
  }

  lemma {:induction false} CandidatesWithin(org: Organisation, rule: StageRule, approvers: seq<StageApprover>,
                                            request: Request, users: set<UserId>)
    requires Within(org, users)
    ensures AllWithin(Candidates(org, rule, approvers, request), users)
  {
    if approvers != [] {
      var first := CandidatesOf(org, rule, approvers[0], request);
      var others := Candidates(org, rule, approvers[1..], request);
      assert AllWithin(first, users) by {
        CandidatesOfWithin(org, rule, approvers[0], request, users);
      }
      assert AllWithin(others, users) by {
        CandidatesWithin(org, rule, approvers[1..], request, users);
      }
      forall a: Assignment | a in first + others
        ensures a.user in users
      {
      }
    }
  }

  lemma ApproversWithin(org: Organisation, rule: StageRule, request: Request, users: set<UserId>)
    requires Within(org, users)
    ensures AllWithin(StageApprovers(org, rule, request), users)
  {
    var candidates := Candidates(org, rule, rule.approvers, request);
    var unbarred := Unbarred(org, rule, request, candidates);
    assert AllWithin(FallbackAssignment(org, rule, request), users);
    assert AllWithin(unbarred, users) by {
      CandidatesWithin(org, rule, rule.approvers, request, users);
      UnbarredMembers(org, rule, request, candidates);
    }
    assert AllWithin(Deduplicated(unbarred, {}), users) by {
      DeduplicatedMembers(unbarred, {});
    }
  }

  ghost predicate RowsWithin(actions: seq<Action>, users: set<UserId>) {
    forall i :: 0 <= i < |actions| ==> actions[i].assignment.user in users
  }

  ghost function PendingIds(actions: seq<Action>): set<nat> {
    set i: nat | i < |actions| && actions[i].status.Pending?
  }

  ghost function UsersAsked(s: RunState): set<UserId> {
    set i: nat | i < |s.actions| && s.actions[i].stage.sequence == s.currentStage :: s.actions[i].assignment.user
  }

  ghost function StagesLeft(ctx: RunContext, s: RunState): set<Stage> {
    set stage | stage in ctx.stages && stage.sequence > s.currentStage
  }

  /** Stages left, users not yet asked in this stage, and pending actions, as one number. */
  ghost function Potential(ctx: RunContext, s: RunState, users: set<UserId>): nat {
    |StagesLeft(ctx, s)| * (|users| + 1) + |users - UsersAsked(s)| + |PendingIds(s.actions)|
  }

  /** Pending actions of distinct users who are all among those asked. */
  lemma {:induction false} PendingAtMostAsked(actions: seq<Action>, ids: set<nat>, asked: set<UserId>)
    requires forall i :: i in ids ==> i < |actions| && actions[i].assignment.user in asked
    requires forall i, j :: i in ids && j in ids && i < j ==> actions[i].assignment.user != actions[j].assignment.user
    ensures |ids| <= |asked|
    decreases ids
  {
    if ids != {} {
      var i :| i in ids;
      PendingAtMostAsked(actions, ids - {i}, asked - {actions[i].assignment.user});
    }
  }

  lemma OpenUsersBound(ctx: RunContext, s: RunState, users: set<UserId>)
    requires Invariant(ctx, s) && RowsWithin(s.actions, users)
    ensures |users - UsersAsked(s)| + |PendingIds(s.actions)| <= |users|
  {
    var asked := UsersAsked(s);
    var ids := PendingIds(s.actions);
    forall i, j | i in ids && j in ids && i < j
      ensures s.actions[i].assignment.user != s.actions[j].assignment.user
    {
    }
    PendingAtMostAsked(s.actions, ids, asked);
    assert asked <= users;
    assert |users - asked| == |users| - |asked|;
  }

  /** Deciding rows without adding any lowers the potential. */
  lemma DecidingLowersPotential(ctx: RunContext, s: RunState, next: RunState, users: set<UserId>, id: nat)
    requires |next.actions| == |s.actions| && next.currentStage == s.currentStage
    requires forall i :: 0 <= i < |s.actions| ==>
               && next.actions[i].stage == s.actions[i].stage && next.actions[i].assignment == s.actions[i].assignment
               && (next.actions[i].status.Pending? ==> s.actions[i].status.Pending?)
    requires id < |s.actions| && s.actions[id].status.Pending? && !next.actions[id].status.Pending?
    ensures Potential(ctx, next, users) < Potential(ctx, s, users)
  {
    assert UsersAsked(next) == UsersAsked(s);
    assert StagesLeft(ctx, next) == StagesLeft(ctx, s);
    SmallerSet(PendingIds(next.actions), PendingIds(s.actions), id);
  }

  lemma {:induction false} SubsetIsNoLarger<T>(a: set<T>, b: set<T>)
    requires a <= b
    ensures |a| <= |b|
  {
    assert b == a + (b - a);
  }

  lemma SmallerSet<T>(a: set<T>, b: set<T>, x: T)
    requires a <= b && x in b && x !in a
    ensures |a| < |b|
  {
    SubsetIsNoLarger(a, b - {x});
  }

  lemma OneStageLess(less: nat, more: nat, weight: nat)
    requires less < more
    ensures less * weight + weight <= more * weight
  {
    assert (less + 1) * weight <= more * weight;
  }

  lemma AdvancingLowersPotential(ctx: RunContext, s: RunState, next: RunState, users: set<UserId>, stage: Stage,
                                 id: nat)
    requires stage in ctx.stages && next.currentStage == stage.sequence > s.currentStage
    requires id in PendingIds(s.actions)
    requires Invariant(ctx, next) && RowsWithin(next.actions, users)
    ensures Potential(ctx, next, users) < Potential(ctx, s, users)
  {
    OpenUsersBound(ctx, next, users);
    var before := StagesLeft(ctx, s);
    var after := StagesLeft(ctx, next);
    SmallerSet(after, before, stage);
    OneStageLess(|after|, |before|, |users| + 1);
    SmallerSet({}, PendingIds(s.actions), id);
  }

  lemma DecidedRowsWithin(s: RunState, env: Environment, id: nat, users: set<UserId>)
    requires id < |s.actions| && RowsWithin(s.actions, users)
    ensures var decided := ActionsAfterApproval(s, env, id);
            decided[id].status.Approved? && RowsWithin(decided, users)
  {
  }

  lemma NewRowsWithin(ctx: RunContext, rows: seq<Action>, stage: Stage, env: Environment, users: set<UserId>)
    requires RowsWithin(rows, users) && Within(env.org, users)
    ensures RowsWithin(rows + NewActions(stage, StageApprovers(env.org, stage.rule, ctx.request), env.now), users)
  {
    ApproversWithin(env.org, stage.rule, ctx.request, users);
  }

  lemma ApproveLowersPotential(ctx: RunContext, s: RunState, env: Environment, id: nat, actor: UserId,
                               users: set<UserId>)
    requires Invariant(ctx, s) && RowsWithin(s.actions, users) && Within(env.org, users)
    requires Approve(ctx, s, env, id, actor).Ok?
    ensures var next := Approve(ctx, s, env, id, actor).value;
            RowsWithin(next.actions, users) && Potential(ctx, next, users) < Potential(ctx, s, users)
  {
    var decided := ActionsAfterApproval(s, env, id);
    var next := Approve(ctx, s, env, id, actor).value;
    DecidedRowsWithin(s, env, id, users);
    ApproveShape(ctx, s, env, id, actor);
    if next == s.(status := next.status, actions := decided) {
      DecidingLowersPotential(ctx, s, next, users, id);
    } else {
      ApproveKeepsInvariant(ctx, s, env, id, actor);
      NextStageLowersPotential(ctx, s, env, id, decided, NextStage(ctx.stages, s.currentStage).value, next, users);
    }
  }

  lemma NextStageLowersPotential(ctx: RunContext, s: RunState, env: Environment, id: nat, decided: seq<Action>,
                                 stage: Stage, next: RunState, users: set<UserId>)
    requires id in PendingIds(s.actions) && RowsWithin(decided, users) && Within(env.org, users)
    requires stage in ctx.stages && stage.sequence > s.currentStage
    requires next == s.(currentStage := stage.sequence,
                        actions := decided + NewActions(stage, StageApprovers(env.org, stage.rule, ctx.request),
                          env.now))
    requires Invariant(ctx, next)
    ensures RowsWithin(next.actions, users) && Potential(ctx, next, users) < Potential(ctx, s, users)
  {
    NewRowsWithin(ctx, decided, stage, env, users);
    AdvancingLowersPotential(ctx, s, next, users, stage, id);
  }

  /** The receiver of a new escalation had not been asked in this stage before. */
  lemma EscalationAsksSomeoneNew(ctx: RunContext, s: RunState, row: Action)
    requires Invariant(ctx, s)
    requires row.stage in ctx.stages && row.stage.sequence == s.currentStage
    requires !Taken(s.actions, row.stage, row.assignment.user)
    ensures row.assignment.user !in UsersAsked(s)
  {
    forall i: nat | i < |s.actions| && s.actions[i].stage.sequence == s.currentStage
      ensures s.actions[i].assignment.user != row.assignment.user
    {
    }
  }

  lemma OneMoreAsked(s: RunState, next: RunState, row: Action)
    requires |next.actions| == |s.actions| + 1 && next.currentStage == s.currentStage == row.stage.sequence
    requires next.actions[|s.actions|] == row
    requires forall i :: 0 <= i < |s.actions| ==>
               next.actions[i].stage == s.actions[i].stage && next.actions[i].assignment == s.actions[i].assignment
    ensures UsersAsked(next) == UsersAsked(s) + {row.assignment.user}
  {
    assert next.actions[|s.actions|].assignment.user in UsersAsked(next);
    forall u | u in UsersAsked(s)
      ensures u in UsersAsked(next)
    {
      var i: nat :| i < |s.actions| && s.actions[i].stage.sequence == s.currentStage
        && s.actions[i].assignment.user == u;
      assert next.actions[i].assignment.user == u;
    }
  }

  lemma OnePendingForAnother(before: seq<Action>, after: seq<Action>, id: nat)
    requires |after| == |before| + 1 && id < |before|
    requires before[id].status.Pending? && !after[id].status.Pending? && after[|before|].status.Pending?
    requires forall i :: 0 <= i < |before| && i != id ==> after[i] == before[i]
    ensures |PendingIds(after)| == |PendingIds(before)|
  {
    var others := PendingIds(before) - {id};
    assert |others| == |PendingIds(before)| - 1;
    forall i: nat
      ensures i in PendingIds(after) <==> i in others + {|before|}
    {
      if i < |before| && i != id {
        assert after[i] == before[i];
      }
    }
    assert PendingIds(after) == others + {|before|};
  }

  lemma CreatingEscalationLowersPotential(ctx: RunContext, s: RunState, now: int, id: nat, row: Action,
                                          users: set<UserId>)
    requires RowsWithin(s.actions, users)
    requires id < |s.actions| && s.actions[id].status.Pending?
    requires row.status.Pending? && row.stage.sequence == s.currentStage && row.assignment.user in users
    requires row.assignment.user !in UsersAsked(s)
    ensures var next := HandOver(s.(actions := s.actions + [row]), now, id, |s.actions|);
            RowsWithin(next.actions, users) && Potential(ctx, next, users) < Potential(ctx, s, users)
  {
    var next := HandOver(s.(actions := s.actions + [row]), now, id, |s.actions|);
    assert |PendingIds(next.actions)| == |PendingIds(s.actions)| by {
      OnePendingForAnother(s.actions, next.actions, id);
    }
    assert UsersAsked(next) == UsersAsked(s) + {row.assignment.user} by {
      OneMoreAsked(s, next, row);
    }
  }

  lemma EscalateToLowersPotential(ctx: RunContext, s: RunState, env: Environment, id: nat, target: Person,
                                  users: set<UserId>)
    requires Invariant(ctx, s) && RowsWithin(s.actions, users) && target.user in users
    requires id < |s.actions| && s.actions[id].status.Pending? && EscalateTo(s, env, id, target).Ok?
    ensures var next := EscalateTo(s, env, id, target).value;
            RowsWithin(next.actions, users) && Potential(ctx, next, users) < Potential(ctx, s, users)
  {
    var action := s.actions[id];
    var existing := PendingActionOf(s.actions, action.stage, target.user);
    if existing.Some? {
      DecidingLowersPotential(ctx, s, HandOver(s, env.now, id, existing.value), users, id);
    } else {
      var row := NewAction(action.stage, EscalatedAssignment(action.assignment, target), env.now, Some(id));
      EscalationAsksSomeoneNew(ctx, s, row);
      CreatingEscalationLowersPotential(ctx, s, env.now, id, row, users);
    }
  }

  lemma EscalateLowersPotential(ctx: RunContext, s: RunState, env: Environment, id: nat, users: set<UserId>)
    requires Invariant(ctx, s) && RowsWithin(s.actions, users) && Within(env.org, users)
    requires Escalate(ctx, s, env, id).Ok? && Escalate(ctx, s, env, id).value != s
    ensures var next := Escalate(ctx, s, env, id).value;
            RowsWithin(next.actions, users) && Potential(ctx, next, users) < Potential(ctx, s, users)
  {
    EscalateToLowersPotential(ctx, s, env, id, DueEscalation(ctx, s, env, id).value, users);
  }

  lemma RejectLowersPotential(ctx: RunContext, s: RunState, env: Environment, id: nat, actor: UserId,
                              users: set<UserId>)
    requires RowsWithin(s.actions, users) && Reject(s, env, id, actor).Ok?
    ensures var next := Reject(s, env, id, actor).value;
            RowsWithin(next.actions, users) && Potential(ctx, next, users) < Potential(ctx, s, users)
  {
    DecidingLowersPotential(ctx, s, Reject(s, env, id, actor).value, users, id);
  }

  lemma CancelLowersPotential(ctx: RunContext, s: RunState, env: Environment, users: set<UserId>)
    requires Invariant(ctx, s) && RowsWithin(s.actions, users) && s.status.Pending?
    ensures RowsWithin(Cancel(s, env).actions, users)
              && Potential(ctx, Cancel(s, env), users) < Potential(ctx, s, users)
  {
    var i :| 0 <= i < |s.actions| && s.actions[i].status.Pending?;
    DecidingLowersPotential(ctx, s, Cancel(s, env), users, i);
  }

  /** Every step that changes a run lowers its potential. */
  lemma StepLowersPotential(ctx: RunContext, s: RunState, env: Environment, step: Step, users: set<UserId>)
    requires Invariant(ctx, s) && RowsWithin(s.actions, users) && Within(env.org, users)
    ensures RowsWithin(Apply(ctx, s, env, step).actions, users)
    ensures Apply(ctx, s, env, step) != s ==> Potential(ctx, Apply(ctx, s, env, step), users) < Potential(ctx, s, users)
  {
    if Attempt(ctx, s, env, step).Ok? && Apply(ctx, s, env, step) != s {
      match step
      case ApproveStep(id, actor) => ApproveLowersPotential(ctx, s, env, id, actor, users);
      case RejectStep(id, actor) => RejectLowersPotential(ctx, s, env, id, actor, users);
      case CancelStep => CancelLowersPotential(ctx, s, env, users);
      case EscalateStep(id) => EscalateLowersPotential(ctx, s, env, id, users);
    }
  }

  /** How many steps of a trace changed the run. */
  ghost function Changes(ctx: RunContext, s: RunState, trace: seq<(Environment, Step)>): nat
    decreases |trace|
  {
    if trace == [] then 0 else
    var next := Apply(ctx, s, trace[0].0, trace[0].1);
    (if next != s then 1 else 0) + Changes(ctx, next, trace[1..])
  }

  lemma {:induction false} ChangesWithinPotential(ctx: RunContext, s: RunState, trace: seq<(Environment, Step)>,
                                                  users: set<UserId>)
    requires Invariant(ctx, s) && RowsWithin(s.actions, users)
    requires forall i :: 0 <= i < |trace| ==> Within(trace[i].0.org, users)
    ensures Changes(ctx, s, trace) <= Potential(ctx, s, users)
    decreases |trace|
  {
    if trace != [] {
      StepLowersPotential(ctx, s, trace[0].0, trace[0].1, users);
      StepKeepsInvariant(ctx, s, trace[0].0, trace[0].1);
      ChangesWithinPotential(ctx, Apply(ctx, s, trace[0].0, trace[0].1), trace[1..], users);
    }
  }

  lemma {:induction false} StageCount(stages: seq<Stage>, picked: set<Stage>)
    requires forall stage :: stage in picked ==> stage in stages
    ensures |picked| <= |stages|
    decreases |stages|
  {
    if picked == {} {
    } else if stages[0] in picked {
      StageCount(stages[1..], picked - {stages[0]});
    } else {
      StageCount(stages[1..], picked);
    }
  }

  /**
   Every run is finite: whatever is attempted, a run with n stages in an organisation of m users
   changes at most n * (m + 1) times after its creation.
   */
  lemma RunsAreFinite(ctx: RunContext, env: Environment, trace: seq<(Environment, Step)>, users: set<UserId>)
    requires Ascending(ctx.stages) && Create(ctx, env).Ok?
    requires Within(env.org, users) && forall i :: 0 <= i < |trace| ==> Within(trace[i].0.org, users)
    ensures Changes(ctx, Create(ctx, env).value, trace) <= |ctx.stages| * (|users| + 1)
  {
    var s := Create(ctx, env).value;
    CreateKeepsInvariant(ctx, env);
    assert RowsWithin(s.actions, users) && s.currentStage == ctx.stages[0].sequence by {
      var empty := RunState(RunStatus.Pending, ctx.stages[0].sequence, [], []);
      OpenStageRows(ctx, empty, ctx.stages[0], env);
      ApproversWithin(env.org, ctx.stages[0].rule, ctx.request, users);
    }
    OpenUsersBound(ctx, s, users);
    ChangesWithinPotential(ctx, s, trace, users);
    StageCount(ctx.stages[1..], StagesLeft(ctx, s));
    OneStageLess(|StagesLeft(ctx, s)|, |ctx.stages|, |users| + 1);
  }
}
