/** Whom each kind of approver, fallback and escalation target stands for, in terms of the organisation's own data. */
module ApproverKinds {
  import opened Prelude
  import opened ApproverResolution
  import opened ApprovalRuns

  // ----- standing for a person

  /** The delegation is in force today for requests of the kind that go to the employee. */
  predicate Covers(org: Organisation, d: Delegation, employee: EmployeeId, kind: RequestKind) {
    && d.active && d.delegator == employee && kind in d.kinds
    && !(org.today < d.startDate) && !(d.endDate.Some? && d.endDate.value < org.today)
  }

  /**
   The assignment asks the delegate of the first delegation that covers the employee, and names the
   employee as the original approver; without one it asks the employee.
   */
  ghost predicate AsksFor(org: Organisation, kind: RequestKind, employee: EmployeeId, a: Assignment) {
    if exists i :: 0 <= i < |org.delegations| && Covers(org, org.delegations[i], employee, kind) then
      exists i ::
        && 0 <= i < |org.delegations| && Covers(org, org.delegations[i], employee, kind)
        && (forall j :: 0 <= j < i ==> !Covers(org, org.delegations[j], employee, kind))
        && var delegate := org.delegations[i].delegate;
           a == Assignment(org.userOf(delegate), Some(delegate), Delegated, Some(org.userOf(employee)), Some(employee))
    else a == Assignment(org.userOf(employee), Some(employee), Direct, None, None)
  }

  lemma {:induction false} FirstCovering(org: Organisation, rows: seq<Delegation>, employee: EmployeeId,
                                         kind: RequestKind)
    ensures match ActiveDelegation(rows, employee, kind, org.today)
            case None => forall i :: 0 <= i < |rows| ==> !Covers(org, rows[i], employee, kind)
            case Some(d) =>
              exists i :: && 0 <= i < |rows| && rows[i] == d && Covers(org, d, employee, kind)
                          && forall j :: 0 <= j < i ==> !Covers(org, rows[j], employee, kind)
  {
    if rows != [] && !Covers(org, rows[0], employee, kind) {
      FirstCovering(org, rows[1..], employee, kind);
      if ActiveDelegation(rows, employee, kind, org.today).Some? {
        var d := ActiveDelegation(rows, employee, kind, org.today).value;
        var i :| && 0 <= i < |rows[1..]| && rows[1..][i] == d && Covers(org, d, employee, kind)
                 && forall j :: 0 <= j < i ==> !Covers(org, rows[1..][j], employee, kind);
        assert rows[i + 1] == d;
        assert forall j :: 0 < j < i + 1 ==> rows[j] == rows[1..][j - 1];
      } else {
        assert forall j :: 0 < j < |rows| ==> rows[j] == rows[1..][j - 1];
      }
    }
  }

  lemma EmployeeIsAskedFor(org: Organisation, kind: RequestKind, employee: EmployeeId)
    ensures AsksFor(org, kind, employee, WithDelegation(org, Person(org.userOf(employee), Some(employee)), kind))
  {
    FirstCovering(org, org.delegations, employee, kind);
  }

  /** A user without an employee record is always asked in person. */
  predicate AsksUser(user: UserId, a: Assignment) {
    a == Assignment(user, None, Direct, None, None)
  }

  // ----- the people an organisation names

  /** `chain` climbs from the employee, manager by manager. */
  predicate ManagerPath(org: Organisation, chain: seq<EmployeeId>) {
    chain != [] && forall i :: 0 <= i < |chain| - 1 ==> org.managerOf(chain[i]) == Some(chain[i + 1])
  }

  /** The manager is that many levels above the employee; a level below one counts as one. */
  ghost predicate IsManagerAt(org: Organisation, employee: EmployeeId, level: int, manager: EmployeeId) {
    exists chain :: && ManagerPath(org, chain) && |chain| == (if level < 1 then 1 else level) + 1
                    && chain[0] == employee && chain[|chain| - 1] == manager
  }

  lemma {:induction false} ClimbingFinds(org: Organisation, employee: EmployeeId, steps: nat, manager: EmployeeId)
    requires ManagerChain(org, Some(employee), steps) == Some(manager)
    ensures exists chain :: && ManagerPath(org, chain) && |chain| == steps + 1
                            && chain[0] == employee && chain[|chain| - 1] == manager
    decreases steps
  {
    if steps == 0 {
      assert ManagerPath(org, [employee]);
    } else {
      var next := org.managerOf(employee).value;
      ClimbingFinds(org, next, steps - 1, manager);
      var rest :| && ManagerPath(org, rest) && |rest| == steps && rest[0] == next && rest[|rest| - 1] == manager;
      assert ManagerPath(org, [employee] + rest);
    }
  }

  lemma {:induction false} PathIsClimbed(org: Organisation, chain: seq<EmployeeId>)
    requires ManagerPath(org, chain)
    ensures ManagerChain(org, Some(chain[0]), |chain| - 1) == Some(chain[|chain| - 1])
    decreases |chain|
  {
    if |chain| > 1 {
      PathIsClimbed(org, chain[1..]);
    }
  }

  lemma ManagerAtLevelIff(org: Organisation, employee: EmployeeId, level: int, manager: EmployeeId)
    ensures ManagerAtLevel(org, Some(employee), level) == Some(manager) <==> IsManagerAt(org, employee, level, manager)
  {
    var steps := if level < 1 then 1 else level;
    if ManagerAtLevel(org, Some(employee), level) == Some(manager) {
      ClimbingFinds(org, employee, steps, manager);
    }
    if IsManagerAt(org, employee, level, manager) {
      var chain :| && ManagerPath(org, chain) && |chain| == steps + 1
                   && chain[0] == employee && chain[|chain| - 1] == manager;
      PathIsClimbed(org, chain);
    }
  }

  /** The five role codes of old, and the codes that the organisation's roles now have. */
  const RENAMED_ROLES: map<string, string> := map[
    "HR_BUSINESS_PARTNER" := "ORG_HR_ADMIN",
    "PAYROLL_ADMIN" := "ORG_PAYROLL_ADMIN",
    "FINANCE_APPROVER" := "ORG_FINANCE_APPROVER",
    "LOCATION_ADMIN" := "ORG_LOCATION_ADMIN",
    "DEPARTMENT_HEAD" := "ORG_DEPARTMENT_HEAD"]

  function HoldersOf(org: Organisation, code: string): seq<EmployeeId> {
    org.roleHolders(if code in RENAMED_ROLES then RENAMED_ROLES[code] else code)
  }

  lemma RoleIsLookedUp(org: Organisation, code: string)
    ensures EmployeesForRole(org, code) == HoldersOf(org, code)
  {
  }

  ghost predicate IsFirstOf(people: seq<EmployeeId>, person: Option<EmployeeId>) {
    if |people| > 0 then person == Some(people[0]) else person.None?
  }

  ghost predicate IsManagerOf(org: Organisation, requester: Option<EmployeeId>, person: Option<EmployeeId>) {
    if requester.Some? then person == org.managerOf(requester.value) else person.None?
  }

  ghost predicate HeadsDepartmentOf(org: Organisation, requester: Option<EmployeeId>, person: Option<EmployeeId>) {
    if requester.Some? && org.departmentOf(requester.value).Some?
    then IsFirstOf(org.departmentHeads(org.departmentOf(requester.value).value), person)
    else person.None?
  }

  ghost predicate RunsLocationOf(org: Organisation, requester: Option<EmployeeId>, person: Option<EmployeeId>) {
    if requester.Some? && org.locationOf(requester.value).Some?
    then IsFirstOf(org.locationAdmins(org.locationOf(requester.value).value), person)
    else person.None?
  }

  // ----- the candidates of each kind

  /** The candidates are one person, or nobody. */
  ghost predicate Offers(org: Organisation, kind: RequestKind, person: Option<EmployeeId>,
                         candidates: seq<Assignment>) {
    if person.Some? then |candidates| == 1 && AsksFor(org, kind, person.value, candidates[0]) else candidates == []
  }

  lemma PersonIsOffered(org: Organisation, kind: RequestKind, person: Option<EmployeeId>)
    ensures Offers(org, kind, person, AssignOptional(org, PersonOf(org, person), kind))
  {
    if person.Some? {
      EmployeeIsAskedFor(org, kind, person.value);
    }
  }

  lemma ManagerIsCandidate(org: Organisation, rule: StageRule, request: Request, manager: Option<EmployeeId>)
    requires IsManagerOf(org, request.requester, manager)
    ensures manager.Some? ==>
              Offers(org, request.kind, manager, CandidatesOf(org, rule, StageApprover.ReportingManager, request))
    ensures manager.None? ==>
              CandidatesOf(org, rule, StageApprover.ReportingManager, request) == FallbackAssignment(org, rule, request)
  {
    PersonIsOffered(org, request.kind, manager);
    if request.requester.Some? {
      assert ManagerAtLevel(org, request.requester, 1) == org.managerOf(request.requester.value) by {
        assert ManagerChain(org, org.managerOf(request.requester.value), 0) == org.managerOf(request.requester.value);
      }
    }
  }

  lemma NthManagerIsCandidate(org: Organisation, rule: StageRule, request: Request, level: int,
                              person: Option<EmployeeId>)
    requires request.requester.None? ==> person.None?
    requires request.requester.Some? ==>
               forall m: EmployeeId :: person == Some(m) <==> IsManagerAt(org, request.requester.value, level, m)
    ensures Offers(org, request.kind, person, CandidatesOf(org, rule, NthLevelManager(level), request))
  {
    PersonIsOffered(org, request.kind, person);
    if request.requester.Some? {
      var found := ManagerAtLevel(org, request.requester, level);
      if found.Some? {
        ManagerAtLevelIff(org, request.requester.value, level, found.value);
      }
      if person.Some? {
        ManagerAtLevelIff(org, request.requester.value, level, person.value);
      }
    }
  }

  lemma DepartmentHeadIsCandidate(org: Organisation, rule: StageRule, request: Request, head: Option<EmployeeId>)
    requires HeadsDepartmentOf(org, request.requester, head)
    ensures Offers(org, request.kind, head, CandidatesOf(org, rule, StageApprover.DepartmentHead, request))
  {
    PersonIsOffered(org, request.kind, head);
  }

  lemma LocationAdminIsCandidate(org: Organisation, rule: StageRule, request: Request, admin: Option<EmployeeId>)
    requires RunsLocationOf(org, request.requester, admin)
    ensures Offers(org, request.kind, admin, CandidatesOf(org, rule, StageApprover.LocationAdmin, request))
  {
    PersonIsOffered(org, request.kind, admin);
  }

  lemma NamedEmployeeIsCandidate(org: Organisation, rule: StageRule, request: Request, employee: Option<EmployeeId>)
    ensures Offers(org, request.kind, employee, CandidatesOf(org, rule, SpecificEmployee(employee), request))
  {
    PersonIsOffered(org, request.kind, employee);
  }

  lemma PrimaryAdminIsCandidate(org: Organisation, rule: StageRule, request: Request)
    ensures var candidates := CandidatesOf(org, rule, StageApprover.PrimaryOrgAdmin, request);
            if org.primaryAdmin.Some? then |candidates| == 1 && AsksUser(org.primaryAdmin.value, candidates[0])
            else candidates == []
  {
  }

  /** Every holder of the role is a candidate, in order; a stage that names no code uses the approver type as one. */
  lemma RoleHoldersAreCandidates(org: Organisation, rule: StageRule, request: Request, approverType: string,
                                 code: string)
    ensures var holders := HoldersOf(org, if |code| == 0 then approverType else code);
            var candidates := CandidatesOf(org, rule, RoleBased(approverType, code), request);
            && |candidates| == |holders|
            && forall i :: 0 <= i < |holders| ==> AsksFor(org, request.kind, holders[i], candidates[i])
  {
    var name := if |code| == 0 then approverType else code;
    var holders := HoldersOf(org, name);
    RoleIsLookedUp(org, name);
    assert CandidatesOf(org, rule, RoleBased(approverType, code), request) == AssignAll(org, holders, request.kind);
    forall i | 0 <= i < |holders|
      ensures AsksFor(org, request.kind, holders[i], AssignAll(org, holders, request.kind)[i])
    {
      EmployeeIsAskedFor(org, request.kind, holders[i]);
    }
  }

  /** The candidates of a list of approvers are those of its parts, one after the other. */
  lemma {:induction false} CandidatesOfBoth(org: Organisation, rule: StageRule, request: Request,
                                            xs: seq<StageApprover>, ys: seq<StageApprover>)
    ensures Candidates(org, rule, xs + ys, request) ==
              Candidates(org, rule, xs, request) + Candidates(org, rule, ys, request)
    ensures Candidates(org, rule, [], request) == []
  {
    if xs == [] {
      assert xs + ys == ys;
    } else {
      assert (xs + ys)[1..] == xs[1..] + ys;
      CandidatesOfBoth(org, rule, request, xs[1..], ys);
    }
  }

  lemma CandidatesOfOne(org: Organisation, rule: StageRule, request: Request, approver: StageApprover)
    ensures Candidates(org, rule, [approver], request) == CandidatesOf(org, rule, approver, request)
  {
    assert [approver][1..] == [];
  }

  // ----- fallbacks and escalation targets

  /** What a fallback of each kind stands for, in terms of the organisation. */
  ghost predicate StandsFor(org: Organisation, fallback: Fallback, requester: Option<EmployeeId>,
                            person: Option<Person>) {
    match fallback
    case NoFallback => person.None?
    case FallbackManager => exists m :: IsManagerOf(org, requester, m) && person == AsPerson(org, m)
    case FallbackDepartmentHead =>
      exists head :: HeadsDepartmentOf(org, requester, head) && person == AsPerson(org, head)
    case FallbackRole(code) => exists first :: IsFirstOf(HoldersOf(org, code), first) && person == AsPerson(org, first)
    case FallbackEmployee(employee) => person == AsPerson(org, employee)
    case FallbackOrgAdmin =>
      && (org.primaryAdmin.Some? ==> person == Some(Person(org.primaryAdmin.value, None)))
      && (org.primaryAdmin.None? && org.createdBy.Some? ==> person == Some(Person(org.createdBy.value, None)))
      && (org.primaryAdmin.None? && org.createdBy.None? ==> person.None?)
  }

  function AsPerson(org: Organisation, employee: Option<EmployeeId>): Option<Person> {
    match employee
    case Some(e) => Some(Person(org.userOf(e), Some(e)))
    case None => None
  }

  lemma FallbackStandsFor(org: Organisation, fallback: Fallback, requester: Option<EmployeeId>)
    ensures StandsFor(org, fallback, requester, StageFallback(org, fallback, requester))
  {
    match fallback
    case FallbackManager =>
      var m := if requester.Some? then org.managerOf(requester.value) else None;
      assert requester.Some? ==> ManagerChain(org, org.managerOf(requester.value), 0) == m;
      assert IsManagerOf(org, requester, m) && PersonOf(org, m) == AsPerson(org, m);
    case FallbackDepartmentHead =>
      var head := DepartmentHeadOf(org, requester);
      assert HeadsDepartmentOf(org, requester, head) && PersonOf(org, head) == AsPerson(org, head);
    case FallbackRole(code) =>
      var first := First(EmployeesForRole(org, code));
      RoleIsLookedUp(org, code);
      assert IsFirstOf(HoldersOf(org, code), first) && PersonOf(org, first) == AsPerson(org, first);
    case _ =>
  }

  /** An escalation goes where the fallback of that kind would, but never to the organisation's creator. */
  lemma TargetStandsFor(ctx: RunContext, org: Organisation, policy: SlaPolicy)
    ensures var target := EscalationTarget(ctx, org, policy);
            if policy.target.FallbackOrgAdmin?
            then (if org.primaryAdmin.Some? then target == Some(Person(org.primaryAdmin.value, None)) else target.None?)
            else StandsFor(org, policy.target, ctx.request.requester, target)
  {
    FallbackStandsFor(org, policy.target, ctx.request.requester);
  }

  /** The fallback assignment asks for whom the fallback stands. */
  lemma FallbackIsAskedFor(org: Organisation, rule: StageRule, request: Request, person: Option<Person>)
    requires StandsFor(org, rule.fallback, request.requester, person)
    ensures var fallback := FallbackAssignment(org, rule, request);
            match person
            case None => fallback == []
            case Some(Person(user, Some(e))) => |fallback| == 1 && AsksFor(org, request.kind, e, fallback[0])
            case Some(Person(user, None)) => |fallback| == 1 && AsksUser(user, fallback[0])
  {
    FallbackStandsFor(org, rule.fallback, request.requester);
    OneStandsFor(org, rule.fallback, request.requester, person, StageFallback(org, rule.fallback, request.requester));
    if person.Some? && person.value.employee.Some? {
      EmployeeIsAskedFor(org, request.kind, person.value.employee.value);
    }
  }

  lemma OneStandsFor(org: Organisation, fallback: Fallback, requester: Option<EmployeeId>, p: Option<Person>,
                     q: Option<Person>)
    requires StandsFor(org, fallback, requester, p) && StandsFor(org, fallback, requester, q)
    ensures p == q
    ensures p.Some? && p.value.employee.Some? ==> p.value.user == org.userOf(p.value.employee.value)
  {
    match fallback
    case FallbackRole(code) =>
      var first :| IsFirstOf(HoldersOf(org, code), first) && p == AsPerson(org, first);
      var other :| IsFirstOf(HoldersOf(org, code), other) && q == AsPerson(org, other);
    case FallbackDepartmentHead =>
      var head :| HeadsDepartmentOf(org, requester, head) && p == AsPerson(org, head);
      var other :| HeadsDepartmentOf(org, requester, other) && q == AsPerson(org, other);
    case FallbackManager =>
      var m :| IsManagerOf(org, requester, m) && p == AsPerson(org, m);
      var other :| IsManagerOf(org, requester, other) && q == AsPerson(org, other);
    case FallbackEmployee(employee) => assert p == AsPerson(org, employee) == q;
    case FallbackOrgAdmin => assert p == q;
    case NoFallback => assert p == q;
  }

  // ----- from candidates to the approvers of a stage

  /** Only these kinds let the requester decide. */
  lemma WhoIsBarred(org: Organisation, request: Request, a: Assignment)
    ensures IsBarred(org, request, a) <==>
              && request.requester.Some? && a.user == org.userOf(request.requester.value)
              && (|| request.kind.Leave? || request.kind.OnDuty? || request.kind.AttendanceRegularization?
                  || request.kind.ExpenseClaim? || request.kind.Promotion? || request.kind.Transfer?)
  {
    match request.kind
    case PayrollProcessing =>
    case SalaryRevision =>
    case CompensationTemplateChange =>
    case _ =>
  }

  /** Candidates who are not barred are asked as they are, if no two are the same user. */
  lemma {:induction false} UnbarredAreKept(org: Organisation, rule: StageRule, request: Request,
                                           candidates: seq<Assignment>)
    requires forall a :: a in candidates ==> !IsBarred(org, request, a)
    ensures Unbarred(org, rule, request, candidates) == candidates
  {
    if candidates != [] {
      UnbarredAreKept(org, rule, request, candidates[1..]);
    }
  }

  lemma {:induction false} DistinctAreKept(candidates: seq<Assignment>, seen: set<UserId>)
    requires DistinctUsers(candidates) && forall a :: a in candidates ==> a.user !in seen
    ensures Deduplicated(candidates, seen) == candidates
  {
    if candidates != [] {
      assert candidates[0] in candidates;
      forall a | a in candidates[1..]
        ensures a.user !in seen + {candidates[0].user}
      {
        assert a in candidates;
        var i :| 0 <= i < |candidates[1..]| && candidates[1..][i] == a;
        assert candidates[0].user != candidates[i + 1].user;
      }
      DistinctAreKept(candidates[1..], seen + {candidates[0].user});
    }
  }

  /** A stage whose only candidate is not barred asks that candidate. */
  lemma OnlyCandidateIsAsked(org: Organisation, rule: StageRule, request: Request, a: Assignment)
    requires Candidates(org, rule, rule.approvers, request) == [a] && !IsBarred(org, request, a)
    ensures StageApprovers(org, rule, request) == [a]
  {
    UnbarredAreKept(org, rule, request, [a]);
    DistinctAreKept([a], {});
  }

  /** A stage without candidates asks its fallback. */
  lemma FallbackIsAskedWithoutCandidates(org: Organisation, rule: StageRule, request: Request)
    requires Candidates(org, rule, rule.approvers, request) == []
    ensures StageApprovers(org, rule, request) == FallbackAssignment(org, rule, request)
  {
  }

  // ----- stages with one approver

  /** Whom an approver of a kind that stands for one employee names, in terms of the organisation. */
  ghost predicate NamesEmployee(org: Organisation, approver: StageApprover, requester: Option<EmployeeId>,
                                person: Option<EmployeeId>) {
    match approver
    case ReportingManager => IsManagerOf(org, requester, person)
    case NthLevelManager(level) =>
      if requester.None? then person.None?
      else forall m: EmployeeId :: person == Some(m) <==> IsManagerAt(org, requester.value, level, m)
    case DepartmentHead => HeadsDepartmentOf(org, requester, person)
    case LocationAdmin => RunsLocationOf(org, requester, person)
    case SpecificEmployee(employee) => person == employee
    case _ => false
  }

  lemma EmployeeIsCandidate(org: Organisation, rule: StageRule, request: Request, approver: StageApprover,
                            person: Option<EmployeeId>)
    requires NamesEmployee(org, approver, request.requester, person)
    ensures person.Some? || !approver.ReportingManager? ==>
              Offers(org, request.kind, person, CandidatesOf(org, rule, approver, request))
    ensures person.None? && approver.ReportingManager? ==>
              CandidatesOf(org, rule, approver, request) == FallbackAssignment(org, rule, request)
  {
    match approver
    case ReportingManager => ManagerIsCandidate(org, rule, request, person);
    case NthLevelManager(level) => NthManagerIsCandidate(org, rule, request, level, person);
    case DepartmentHead => DepartmentHeadIsCandidate(org, rule, request, person);
    case LocationAdmin => LocationAdminIsCandidate(org, rule, request, person);
    case SpecificEmployee(employee) => NamedEmployeeIsCandidate(org, rule, request, employee);
  }

  /**
   A stage with one approver asks the employee whom the approver names, or that employee's delegate,
   unless this is the requester in a kind that bars requesters.
   */
  lemma StageAsksEmployee(org: Organisation, rule: StageRule, request: Request, approver: StageApprover, e: EmployeeId)
    requires rule.approvers == [approver] && NamesEmployee(org, approver, request.requester, Some(e))
    ensures exists a ::
              && AsksFor(org, request.kind, e, a)
              && StageApprovers(org, rule, request) ==
                   if IsBarred(org, request, a) then FallbackAssignment(org, rule, request) else [a]
  {
    EmployeeIsCandidate(org, rule, request, approver, Some(e));
    CandidatesOfOne(org, rule, request, approver);
    var candidates := Candidates(org, rule, rule.approvers, request);
    var a := candidates[0];
    assert candidates == [a] && AsksFor(org, request.kind, e, a);
    if IsBarred(org, request, a) {
      BarredCandidateYields(org, rule, request, a);
    } else {
      OnlyCandidateIsAsked(org, rule, request, a);
    }
  }

  lemma BarredCandidateYields(org: Organisation, rule: StageRule, request: Request, a: Assignment)
    requires Candidates(org, rule, rule.approvers, request) == [a] && IsBarred(org, request, a)
    ensures StageApprovers(org, rule, request) == FallbackAssignment(org, rule, request)
  {
    var fallback := FallbackAssignment(org, rule, request);
    UnbarredOfOne(org, rule, request, a);
    DistinctAreKept(fallback, {});
  }

  /** A stage whose one approver names nobody asks its fallback, if it has one. */
  lemma StageAsksFallback(org: Organisation, rule: StageRule, request: Request, approver: StageApprover)
    requires rule.approvers == [approver] && NamesEmployee(org, approver, request.requester, None)
    ensures StageApprovers(org, rule, request) == FallbackAssignment(org, rule, request)
  {
    var fallback := FallbackAssignment(org, rule, request);
    EmployeeIsCandidate(org, rule, request, approver, None);
    CandidatesOfOne(org, rule, request, approver);
    if Candidates(org, rule, rule.approvers, request) != [] {
      assert fallback == [fallback[0]];
      UnbarredOfOne(org, rule, request, fallback[0]);
      DistinctAreKept(fallback, {});
    }
  }

  lemma StageAsksPrimaryAdmin(org: Organisation, rule: StageRule, request: Request, admin: UserId)
    requires rule.approvers == [StageApprover.PrimaryOrgAdmin] && org.primaryAdmin == Some(admin)
    ensures exists a ::
              && AsksUser(admin, a)
              && StageApprovers(org, rule, request) ==
                   if IsBarred(org, request, a) then FallbackAssignment(org, rule, request) else [a]
  {
    CandidatesOfOne(org, rule, request, StageApprover.PrimaryOrgAdmin);
    var candidates := Candidates(org, rule, rule.approvers, request);
    var a := candidates[0];
    assert candidates == [a] && AsksUser(admin, a);
    if IsBarred(org, request, a) {
      BarredCandidateYields(org, rule, request, a);
    } else {
      OnlyCandidateIsAsked(org, rule, request, a);
    }
  }

  /** A stage of role holders asks every one of them who is not barred, and nobody else but the fallback. */
  lemma StageAsksRoleHolders(org: Organisation, rule: StageRule, request: Request, approverType: string, code: string)
    requires rule.approvers == [RoleBased(approverType, code)]
    ensures var holders := HoldersOf(org, if |code| == 0 then approverType else code);
            && (forall h, a :: h in holders && AsksFor(org, request.kind, h, a) && !IsBarred(org, request, a) ==>
                  a.user in Users(StageApprovers(org, rule, request)))
            && (forall a :: a in StageApprovers(org, rule, request) ==>
                  || a in FallbackAssignment(org, rule, request)
                  || exists h :: h in holders && AsksFor(org, request.kind, h, a))
  {
    var holders := HoldersOf(org, if |code| == 0 then approverType else code);
    var candidates := Candidates(org, rule, rule.approvers, request);
    CandidatesOfOne(org, rule, request, RoleBased(approverType, code));
    RoleHoldersAreCandidates(org, rule, request, approverType, code);
    forall h, a | h in holders && AsksFor(org, request.kind, h, a) && !IsBarred(org, request, a)
      ensures a.user in Users(StageApprovers(org, rule, request))
    {
      var i :| 0 <= i < |holders| && holders[i] == h;
      assert candidates[i] in candidates && candidates[i] == a;
      EveryCandidateIsAsked(org, rule, request, a);
    }
    UnbarredMembers(org, rule, request, candidates);
    DeduplicatedMembers(Unbarred(org, rule, request, candidates), {});
    forall a | a in StageApprovers(org, rule, request) && a !in FallbackAssignment(org, rule, request)
      ensures exists h :: h in holders && AsksFor(org, request.kind, h, a)
    {
      assert a in candidates;
      var i :| 0 <= i < |candidates| && candidates[i] == a;
      assert holders[i] in holders;
    }
  }

  // ----- stages with several approvers

  /** A barred candidate gives place to the fallback, and the candidates keep their order. */
  lemma {:induction false} UnbarredOfBoth(org: Organisation, rule: StageRule, request: Request,
                                          xs: seq<Assignment>, ys: seq<Assignment>)
    ensures Unbarred(org, rule, request, xs + ys) == Unbarred(org, rule, request, xs) + Unbarred(org, rule, request, ys)
  {
    if xs == [] {
      assert xs + ys == ys;
    } else {
      assert (xs + ys)[1..] == xs[1..] + ys;
      UnbarredOfBoth(org, rule, request, xs[1..], ys);
    }
  }

  lemma UnbarredOfOne(org: Organisation, rule: StageRule, request: Request, a: Assignment)
    ensures IsBarred(org, request, a) ==> Unbarred(org, rule, request, [a]) == FallbackAssignment(org, rule, request)
    ensures !IsBarred(org, request, a) ==> Unbarred(org, rule, request, [a]) == [a]
  {
    assert [a][1..] == [];
  }

  /** `kept` are places in ascending order, and `picked` what stands there. */
  predicate Picks(all: seq<Assignment>, places: seq<nat>, picked: seq<Assignment>) {
    && |places| == |picked|
    && (forall i :: 0 <= i < |places| ==> places[i] < |all| && all[places[i]] == picked[i])
    && (forall i, j :: 0 <= i < j < |places| ==> places[i] < places[j])
  }

  /** Removing duplicates keeps the order. */
  lemma {:induction false} DeduplicationKeepsOrder(all: seq<Assignment>, seen: set<UserId>) returns (places: seq<nat>)
    ensures Picks(all, places, Deduplicated(all, seen))
  {
    if all == [] {
      places := [];
    } else {
      var first := all[0].user !in seen;
      var rest := DeduplicationKeepsOrder(all[1..], if first then seen + {all[0].user} else seen);
      var shifted := seq(|rest|, i requires 0 <= i < |rest| => rest[i] + 1);
      places := if first then [0] + shifted else shifted;
    }
  }
}
