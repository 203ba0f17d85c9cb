/**
 Who must act on one approval stage: the candidates its approver rows name, delegation,
 replacement of the requester by the stage's fallback, and removal of duplicates.
 */
module ApproverResolution {
  import opened Prelude

  type UserId = nat
  type EmployeeId = nat

  datatype RequestKind =
    | Leave | OnDuty | AttendanceRegularization | ExpenseClaim
    | PayrollProcessing | SalaryRevision | CompensationTemplateChange
    | Promotion | Transfer

  datatype Delegation = Delegation(
    delegator: EmployeeId, delegate: EmployeeId, kinds: set<RequestKind>,
    startDate: int, endDate: Option<int>, active: bool)

  /**
   The organisation data a resolution reads. Foreign keys always resolve, so the lookups are
   total. The role rosters keep the order in which the queries list employees, and `delegations`
   keeps the order "latest start first, newest first".
   */
  datatype Organisation = Organisation(
    userOf: EmployeeId -> UserId,
    managerOf: EmployeeId -> Option<EmployeeId>,
    departmentOf: EmployeeId -> Option<nat>,
    locationOf: EmployeeId -> Option<nat>,
    departmentHeads: nat -> seq<EmployeeId>,
    locationAdmins: nat -> seq<EmployeeId>,
    roleHolders: string -> seq<EmployeeId>,
    primaryAdmin: Option<UserId>,
    createdBy: Option<UserId>,
    delegations: seq<Delegation>,
    today: int)

  datatype StageApprover =
    | ReportingManager
    | NthLevelManager(level: int)
    | DepartmentHead
    | LocationAdmin
    | RoleBased(approverType: string, roleCode: string)
    | SpecificEmployee(employee: Option<EmployeeId>)
    | PrimaryOrgAdmin

  datatype Fallback =
    | NoFallback
    | FallbackManager
    | FallbackDepartmentHead
    | FallbackRole(code: string)
    | FallbackEmployee(employee: Option<EmployeeId>)
    | FallbackOrgAdmin

  datatype AssignmentSource = Direct | Delegated | Escalated

  datatype Assignment = Assignment(
    user: UserId, employee: Option<EmployeeId>, source: AssignmentSource,
    originalUser: Option<UserId>, originalEmployee: Option<EmployeeId>)

  /** What one stage asks for. */
  datatype StageRule = StageRule(approvers: seq<StageApprover>, fallback: Fallback)

  /** Whose request is being decided, and of which kind. */
  datatype Request = Request(requester: Option<EmployeeId>, kind: RequestKind)

  /** A user with the employee record behind it, if there is one. */
  datatype Person = Person(user: UserId, employee: Option<EmployeeId>)

  // ----- lookups

  /** Payroll kinds let the requester approve their own request. */
  predicate SelfApprovalAllowed(kind: RequestKind) {
    kind in {PayrollProcessing, SalaryRevision, CompensationTemplateChange}
  }

  function First(xs: seq<EmployeeId>): Option<EmployeeId> {
    if xs == [] then None else Some(xs[0])
  }

  function NormaliseRoleCode(code: string): string {
    if code == "HR_BUSINESS_PARTNER" then "ORG_HR_ADMIN"
    else if code == "PAYROLL_ADMIN" then "ORG_PAYROLL_ADMIN"
    else if code == "FINANCE_APPROVER" then "ORG_FINANCE_APPROVER"
    else if code == "LOCATION_ADMIN" then "ORG_LOCATION_ADMIN"
    else if code == "DEPARTMENT_HEAD" then "ORG_DEPARTMENT_HEAD"
    else code
  }

  function EmployeesForRole(org: Organisation, code: string): seq<EmployeeId> {
    org.roleHolders(NormaliseRoleCode(code))
  }

  /** `steps` manager links up from `employee`, if the chain is that long. */
  function ManagerChain(org: Organisation, employee: Option<EmployeeId>, steps: nat): Option<EmployeeId>
    decreases steps
  {
    if steps == 0 || employee.None? then employee
    else ManagerChain(org, org.managerOf(employee.value), steps - 1)
  }

  function ManagerAtLevel(org: Organisation, employee: Option<EmployeeId>, level: int): Option<EmployeeId> {
    ManagerChain(org, employee, if level < 1 then 1 else level)
  }

  method FindManagerAtLevel(org: Organisation, employee: Option<EmployeeId>, level: int)
    returns (manager: Option<EmployeeId>)
    ensures manager == ManagerAtLevel(org, employee, level)
  {
    if employee.None? {
      return None;
    }
    var current := employee.value;
    var levels := if level < 1 then 1 else level;
    for i := 0 to levels
      invariant ManagerChain(org, Some(current), levels - i) == ManagerAtLevel(org, employee, level)
    {
      var next := org.managerOf(current);
      if next.None? {
        return None;
      }
      current := next.value;
    }
    return Some(current);
  }

  function DepartmentHeadOf(org: Organisation, employee: Option<EmployeeId>): Option<EmployeeId> {
    if employee.None? || org.departmentOf(employee.value).None? then None
    else First(org.departmentHeads(org.departmentOf(employee.value).value))
  }

  function LocationAdminOf(org: Organisation, employee: Option<EmployeeId>): Option<EmployeeId> {
    if employee.None? || org.locationOf(employee.value).None? then None
    else First(org.locationAdmins(org.locationOf(employee.value).value))
  }

  function PersonOf(org: Organisation, employee: Option<EmployeeId>): Option<Person> {
    if employee.None? then None else Some(Person(org.userOf(employee.value), employee))
  }

  function StageFallback(org: Organisation, fallback: Fallback, requester: Option<EmployeeId>): Option<Person> {
    match fallback
    case NoFallback => None
    case FallbackManager => PersonOf(org, ManagerAtLevel(org, requester, 1))
    case FallbackDepartmentHead => PersonOf(org, DepartmentHeadOf(org, requester))
    case FallbackRole(code) => PersonOf(org, First(EmployeesForRole(org, code)))
    case FallbackEmployee(employee) => PersonOf(org, employee)
    case FallbackOrgAdmin =>
      if org.primaryAdmin.Some? then Some(Person(org.primaryAdmin.value, None))
      else if org.createdBy.Some? then Some(Person(org.createdBy.value, None))
      else None
  }

  // ----- delegation

  predicate InForce(d: Delegation, approver: EmployeeId, kind: RequestKind, today: int) {
    && d.delegator == approver
    && d.active
    && d.startDate <= today
    && (d.endDate.None? || today <= d.endDate.value)
    && kind in d.kinds
  }

  function ActiveDelegation(rows: seq<Delegation>, approver: EmployeeId, kind: RequestKind, today: int)
    : (found: Option<Delegation>)
    ensures found.Some? ==> found.value in rows && InForce(found.value, approver, kind, today)
    ensures found.None? ==> forall d :: d in rows ==> !InForce(d, approver, kind, today)
  {
    if rows == [] then None
    else if InForce(rows[0], approver, kind, today) then Some(rows[0])
    else ActiveDelegation(rows[1..], approver, kind, today)
  }

  method GetActiveDelegation(rows: seq<Delegation>, approver: EmployeeId, kind: RequestKind, today: int)
    returns (found: Option<Delegation>)
    ensures found == ActiveDelegation(rows, approver, kind, today)
  {
    for i := 0 to |rows|
      invariant ActiveDelegation(rows, approver, kind, today) == ActiveDelegation(rows[i..], approver, kind, today)
    {
      if InForce(rows[i], approver, kind, today) {
        return Some(rows[i]);
      }
    }
    return None;
  }

  /**
   The delegation applied is one in force with the latest start date; of those with that start date
   that are in force, it is the one listed first, which is the newest.
   */
  lemma {:induction false} LatestDelegationWins(rows: seq<Delegation>, approver: EmployeeId, kind: RequestKind,
                                                today: int)
    returns (k: nat)
    requires forall i, j :: 0 <= i < j < |rows| ==> rows[j].startDate <= rows[i].startDate
    requires ActiveDelegation(rows, approver, kind, today).Some?
    ensures k < |rows| && ActiveDelegation(rows, approver, kind, today) == Some(rows[k])
    ensures forall i :: 0 <= i < |rows| && InForce(rows[i], approver, kind, today) ==>
              k <= i && rows[i].startDate <= rows[k].startDate
  {
    if InForce(rows[0], approver, kind, today) {
      k := 0;
    } else {
      k := LatestDelegationWins(rows[1..], approver, kind, today);
      k := k + 1;
    }
  }

  function WithDelegation(org: Organisation, person: Person, kind: RequestKind): Assignment {
    var direct := Assignment(person.user, person.employee, Direct, None, None);
    if person.employee.None? then direct else
    var found := ActiveDelegation(org.delegations, person.employee.value, kind, org.today);
    if found.None? then direct else
    Assignment(org.userOf(found.value.delegate), Some(found.value.delegate), Delegated,
               Some(person.user), person.employee)
  }

  method ResolveAssignmentWithDelegation(org: Organisation, person: Person, kind: RequestKind)
    returns (assignment: Assignment)
    ensures assignment == WithDelegation(org, person, kind)
  {
    assignment := Assignment(person.user, person.employee, Direct, None, None);
    if person.employee.None? {
      return;
    }
    var delegation := GetActiveDelegation(org.delegations, person.employee.value, kind, org.today);
    if delegation.None? {
      return;
    }
    var delegate := delegation.value.delegate;
    assignment := assignment.(
      user := org.userOf(delegate),
      employee := Some(delegate),
      source := Delegated,
      originalUser := Some(person.user),
      originalEmployee := person.employee);
  }

  // ----- what a resolution yields

  function AssignAll(org: Organisation, employees: seq<EmployeeId>, kind: RequestKind): seq<Assignment> {
    seq(|employees|, i requires 0 <= i < |employees| =>
      WithDelegation(org, Person(org.userOf(employees[i]), Some(employees[i])), kind))
  }

  function AssignOptional(org: Organisation, person: Option<Person>, kind: RequestKind): seq<Assignment> {
    if person.None? then [] else [WithDelegation(org, person.value, kind)]
  }

  /** The stage's fallback person after delegation, as a list of at most one. */
  function FallbackAssignment(org: Organisation, rule: StageRule, request: Request): seq<Assignment> {
    AssignOptional(org, StageFallback(org, rule.fallback, request.requester), request.kind)
  }

  function CandidatesOf(org: Organisation, rule: StageRule, approver: StageApprover,
                        request: Request): seq<Assignment> {
    match approver
    case ReportingManager =>
      var manager := ManagerAtLevel(org, request.requester, 1);
      if manager.Some? then AssignOptional(org, PersonOf(org, manager), request.kind)
      else FallbackAssignment(org, rule, request)
    case NthLevelManager(level) =>
      AssignOptional(org, PersonOf(org, ManagerAtLevel(org, request.requester, level)), request.kind)
    case DepartmentHead => AssignOptional(org, PersonOf(org, DepartmentHeadOf(org, request.requester)), request.kind)
    case LocationAdmin => AssignOptional(org, PersonOf(org, LocationAdminOf(org, request.requester)), request.kind)
    case RoleBased(approverType, roleCode) =>
      AssignAll(org, EmployeesForRole(org, if roleCode != "" then roleCode else approverType), request.kind)
    case SpecificEmployee(employee) => AssignOptional(org, PersonOf(org, employee), request.kind)
    case PrimaryOrgAdmin =>
      if org.primaryAdmin.None? then [] else [WithDelegation(org, Person(org.primaryAdmin.value, None), request.kind)]
  }

  function Candidates(org: Organisation, rule: StageRule, approvers: seq<StageApprover>,
                      request: Request): seq<Assignment> {
    if approvers == [] then []
    else CandidatesOf(org, rule, approvers[0], request) + Candidates(org, rule, approvers[1..], request)
  }

  /** The assignment names the requester, in a kind that forbids approving one's own request. */
  predicate IsBarred(org: Organisation, request: Request, assignment: Assignment) {
    && request.requester.Some?
    && assignment.user == org.userOf(request.requester.value)
    && !SelfApprovalAllowed(request.kind)
  }

  function Unbarred(org: Organisation, rule: StageRule, request: Request,
                    assignments: seq<Assignment>): seq<Assignment> {
    if assignments == [] then []
    else (if IsBarred(org, request, assignments[0]) then FallbackAssignment(org, rule, request) else [assignments[0]])
         + Unbarred(org, rule, request, assignments[1..])
  }

  function Deduplicated(assignments: seq<Assignment>, seen: set<UserId>): seq<Assignment> {
    if assignments == [] then []
    else if assignments[0].user in seen then Deduplicated(assignments[1..], seen)
    else [assignments[0]] + Deduplicated(assignments[1..], seen + {assignments[0].user})
  }

  /** The approvers of a stage; the empty list means that nobody could be resolved. */
  function StageApprovers(org: Organisation, rule: StageRule, request: Request): seq<Assignment> {
    var deduped := Deduplicated(Unbarred(org, rule, request, Candidates(org, rule, rule.approvers, request)), {});
    if deduped == [] then FallbackAssignment(org, rule, request) else deduped
  }

  // ----- the resolution itself

  method AppendAssignments(resolved: seq<Assignment>, org: Organisation, employees: seq<EmployeeId>, kind: RequestKind)
    returns (extended: seq<Assignment>)
    ensures extended == resolved + AssignAll(org, employees, kind)
  {
    extended := resolved;
    for i := 0 to |employees|
      invariant extended == resolved + AssignAll(org, employees, kind)[..i]
    {
      var assignment :=
        ResolveAssignmentWithDelegation(org, Person(org.userOf(employees[i]), Some(employees[i])), kind);
      extended := extended + [assignment];
    }
  }

  method AppendOptional(resolved: seq<Assignment>, org: Organisation, person: Option<Person>, kind: RequestKind)
    returns (extended: seq<Assignment>)
    ensures extended == resolved + AssignOptional(org, person, kind)
  {
    extended := resolved;
    if person.Some? {
      var assignment := ResolveAssignmentWithDelegation(org, person.value, kind);
      extended := extended + [assignment];
    }
  }

  method CollectCandidate(resolved: seq<Assignment>, org: Organisation, rule: StageRule, approver: StageApprover,
                          request: Request)
    returns (extended: seq<Assignment>)
    ensures extended == resolved + CandidatesOf(org, rule, approver, request)
  {
    extended := resolved;
    match approver {
      case ReportingManager =>
        var manager := FindManagerAtLevel(org, request.requester, 1);
        if manager.Some? {
          extended := AppendOptional(resolved, org, PersonOf(org, manager), request.kind);
        } else {
          var fallback := StageFallback(org, rule.fallback, request.requester);
          extended := AppendOptional(resolved, org, fallback, request.kind);
        }
      case NthLevelManager(level) =>
        var manager := FindManagerAtLevel(org, request.requester, level);
        extended := AppendOptional(resolved, org, PersonOf(org, manager), request.kind);
      case DepartmentHead =>
        extended := AppendOptional(resolved, org, PersonOf(org, DepartmentHeadOf(org, request.requester)),
          request.kind);
      case LocationAdmin =>
        extended := AppendOptional(resolved, org, PersonOf(org, LocationAdminOf(org, request.requester)), request.kind);
      case RoleBased(approverType, roleCode) =>
        var code := if roleCode != "" then roleCode else approverType;
        extended := AppendAssignments(resolved, org, EmployeesForRole(org, code), request.kind);
      case SpecificEmployee(employee) =>
        extended := AppendOptional(resolved, org, PersonOf(org, employee), request.kind);
      case PrimaryOrgAdmin =>
        if org.primaryAdmin.Some? {
          extended := AppendOptional(resolved, org, Some(Person(org.primaryAdmin.value, None)), request.kind);
        }
    }
  }

  lemma NextCandidates(org: Organisation, rule: StageRule, approvers: seq<StageApprover>, request: Request,
                       i: nat, done: seq<Assignment>)
    requires i < |approvers|
    ensures done + Candidates(org, rule, approvers[i..], request)
         == (done + CandidatesOf(org, rule, approvers[i], request)) + Candidates(org, rule, approvers[i + 1..], request)
  {
    assert approvers[i..][1..] == approvers[i + 1..];
  }

  method CollectCandidates(org: Organisation, rule: StageRule, request: Request)
    returns (resolved: seq<Assignment>)
    ensures resolved == Candidates(org, rule, rule.approvers, request)
  {
    resolved := [];
    ghost var all := Candidates(org, rule, rule.approvers, request);
    assert rule.approvers[0..] == rule.approvers;
    for i := 0 to |rule.approvers|
      invariant resolved + Candidates(org, rule, rule.approvers[i..], request) == all
    {
      NextCandidates(org, rule, rule.approvers, request, i, resolved);
      resolved := CollectCandidate(resolved, org, rule, rule.approvers[i], request);
    }
  }

  method ReplaceBarred(org: Organisation, rule: StageRule, request: Request, resolved: seq<Assignment>)
    returns (filtered: seq<Assignment>)
    ensures filtered == Unbarred(org, rule, request, resolved)
  {
    filtered := [];
    for i := 0 to |resolved|
      invariant filtered + Unbarred(org, rule, request, resolved[i..]) == Unbarred(org, rule, request, resolved)
    {
      assert resolved[i..][1..] == resolved[i + 1..];
      if IsBarred(org, request, resolved[i]) {
        filtered := AppendOptional(filtered, org, StageFallback(org, rule.fallback, request.requester), request.kind);
      } else {
        filtered := filtered + [resolved[i]];
      }
    }
  }

  method Deduplicate(filtered: seq<Assignment>) returns (deduped: seq<Assignment>)
    ensures deduped == Deduplicated(filtered, {})
  {
    deduped := [];
    var seen: set<UserId> := {};
    for i := 0 to |filtered|
      invariant deduped + Deduplicated(filtered[i..], seen) == Deduplicated(filtered, {})
    {
      assert filtered[i..][1..] == filtered[i + 1..];
      if filtered[i].user !in seen {
        seen := seen + {filtered[i].user};
        deduped := deduped + [filtered[i]];
      }
    }
  }

  method ResolveStageApprovers(org: Organisation, rule: StageRule, request: Request)
    returns (deduped: seq<Assignment>)
    ensures deduped == StageApprovers(org, rule, request)
  {
    var resolved := CollectCandidates(org, rule, request);
    var filtered := ReplaceBarred(org, rule, request, resolved);
    deduped := Deduplicate(filtered);
    if deduped == [] {
      deduped := AppendOptional([], org, StageFallback(org, rule.fallback, request.requester), request.kind);
    }
  }

  // ----- what the approvers of a stage are guaranteed to be

  predicate DistinctUsers(assignments: seq<Assignment>) {
    forall i, j :: 0 <= i < j < |assignments| ==> assignments[i].user != assignments[j].user
  }

  /** The users named by a list of assignments. */
  function Users(assignments: seq<Assignment>): set<UserId> {
    set a | a in assignments :: a.user
  }

  lemma {:induction false} DeduplicatedUsers(assignments: seq<Assignment>, seen: set<UserId>)
    ensures Users(Deduplicated(assignments, seen)) == Users(assignments) - seen
    ensures DistinctUsers(Deduplicated(assignments, seen))
  {
    if assignments != [] {
      var first := assignments[0];
      var rest := assignments[1..];
      assert assignments == [first] + rest;
      assert Users(assignments) == {first.user} + Users(rest);
      if first.user in seen {
        DeduplicatedUsers(rest, seen);
      } else {
        DeduplicatedUsers(rest, seen + {first.user});
        var tail := Deduplicated(rest, seen + {first.user});
        assert Users([first] + tail) == {first.user} + Users(tail);
        assert forall a :: a in tail ==> a.user in Users(tail);
      }
    }
  }

  lemma {:induction false} DeduplicatedMembers(assignments: seq<Assignment>, seen: set<UserId>)
    ensures forall a :: a in Deduplicated(assignments, seen) ==> a in assignments
  {
    if assignments != [] {
      DeduplicatedMembers(assignments[1..], seen);
      DeduplicatedMembers(assignments[1..], seen + {assignments[0].user});
    }
  }

  /** Replacing the requester keeps every other candidate and can only add the fallback. */
  lemma {:induction false} UnbarredMembers(org: Organisation, rule: StageRule, request: Request,
                                           assignments: seq<Assignment>)
    ensures forall a :: a in Unbarred(org, rule, request, assignments) ==>
              a in FallbackAssignment(org, rule, request) || (a in assignments && !IsBarred(org, request, a))
    ensures forall a :: a in assignments && !IsBarred(org, request, a) ==>
              a in Unbarred(org, rule, request, assignments)
  {
    if assignments != [] {
      UnbarredMembers(org, rule, request, assignments[1..]);
    }
  }

  /** No user is asked twice in one stage. */
  lemma ApproversAreDistinct(org: Organisation, rule: StageRule, request: Request)
    ensures DistinctUsers(StageApprovers(org, rule, request))
  {
    DeduplicatedUsers(Unbarred(org, rule, request, Candidates(org, rule, rule.approvers, request)), {});
  }

  /**
   Outside the payroll kinds the requester is asked only where the stage's fallback, after
   delegation, is the requester.
   */
  lemma RequesterOnlyThroughFallback(org: Organisation, rule: StageRule, request: Request, a: Assignment)
    requires a in StageApprovers(org, rule, request)
    requires request.requester.Some? && !SelfApprovalAllowed(request.kind)
    requires a.user == org.userOf(request.requester.value)
    ensures StageFallback(org, rule.fallback, request.requester).Some?
    ensures a == WithDelegation(org, StageFallback(org, rule.fallback, request.requester).value, request.kind)
  {
    var candidates := Candidates(org, rule, rule.approvers, request);
    var unbarred := Unbarred(org, rule, request, candidates);
    DeduplicatedMembers(unbarred, {});
    UnbarredMembers(org, rule, request, candidates);
    assert IsBarred(org, request, a);
    assert a in FallbackAssignment(org, rule, request);
  }

  /** The fallback of the stage, after delegation, is the requester. */
  predicate FallbackIsRequester(org: Organisation, rule: StageRule, request: Request) {
    && request.requester.Some?
    && StageFallback(org, rule.fallback, request.requester).Some?
    && WithDelegation(org, StageFallback(org, rule.fallback, request.requester).value, request.kind).user
       == org.userOf(request.requester.value)
  }

  /**
   Outside the payroll kinds a stage asks the requester exactly if its delegated fallback is the
   requester, and it has no candidate at all or one who is the requester.
   */
  lemma RequesterIsAskedIff(org: Organisation, rule: StageRule, request: Request)
    requires request.requester.Some? && !SelfApprovalAllowed(request.kind)
    ensures var candidates := Candidates(org, rule, rule.approvers, request);
            org.userOf(request.requester.value) in Users(StageApprovers(org, rule, request)) <==>
            && FallbackIsRequester(org, rule, request)
            && (candidates == [] || exists a :: a in candidates && IsBarred(org, request, a))
  {
    var user := org.userOf(request.requester.value);
    var candidates := Candidates(org, rule, rule.approvers, request);
    var unbarred := Unbarred(org, rule, request, candidates);
    var asked := StageApprovers(org, rule, request);
    UnbarredFallback(org, rule, request, candidates);
    UnbarredMembers(org, rule, request, candidates);
    DeduplicatedUsers(unbarred, {});
    if user in Users(asked) {
      var a :| a in asked && a.user == user;
      RequesterOnlyThroughFallback(org, rule, request, a);
    }
  }

  /** A barred candidate puts the fallback in its place. */
  lemma {:induction false} UnbarredFallback(org: Organisation, rule: StageRule, request: Request,
                                            assignments: seq<Assignment>)
    ensures (exists a :: a in assignments && IsBarred(org, request, a)) ==>
              forall f :: f in FallbackAssignment(org, rule, request) ==> f in Unbarred(org, rule, request, assignments)
    ensures (forall a :: a in assignments ==> !IsBarred(org, request, a)) ==>
              Unbarred(org, rule, request, assignments) == assignments
  {
    if assignments != [] {
      UnbarredFallback(org, rule, request, assignments[1..]);
    }
  }

  /** Every candidate who is not barred is asked, possibly through an earlier assignment of the same user. */
  lemma EveryCandidateIsAsked(org: Organisation, rule: StageRule, request: Request, a: Assignment)
    requires a in Candidates(org, rule, rule.approvers, request) && !IsBarred(org, request, a)
    ensures a.user in Users(StageApprovers(org, rule, request))
  {
    var candidates := Candidates(org, rule, rule.approvers, request);
    UnbarredMembers(org, rule, request, candidates);
    DeduplicatedUsers(Unbarred(org, rule, request, candidates), {});
  }

  /**
   A stage has nobody to ask exactly when it has no fallback and every candidate is the requester
   in a kind that forbids it (in particular when there is no candidate at all).
   */
  lemma NobodyResolvedIff(org: Organisation, rule: StageRule, request: Request)
    ensures StageApprovers(org, rule, request) == [] <==>
            && StageFallback(org, rule.fallback, request.requester).None?
            && forall a :: a in Candidates(org, rule, rule.approvers, request) ==> IsBarred(org, request, a)
  {
    var candidates := Candidates(org, rule, rule.approvers, request);
    var unbarred := Unbarred(org, rule, request, candidates);
    UnbarredMembers(org, rule, request, candidates);
    DeduplicatedMembers(unbarred, {});
    if exists a :: a in candidates && !IsBarred(org, request, a) {
      var a :| a in candidates && !IsBarred(org, request, a);
      EveryCandidateIsAsked(org, rule, request, a);
    }
    var asked := StageApprovers(org, rule, request);
    if asked != [] {
      assert asked[0] in asked;
    }
  }

  /** `a` is the first of the assignments that names its user. */
  predicate IsFirstForUser(assignments: seq<Assignment>, a: Assignment) {
    exists i :: && 0 <= i < |assignments| && assignments[i] == a
                && forall j :: 0 <= j < i ==> assignments[j].user != a.user
  }

  /** Of several assignments to one user the first is kept. */
  lemma {:induction false} FirstAssignmentIsKept(assignments: seq<Assignment>, seen: set<UserId>, a: Assignment)
    requires a in Deduplicated(assignments, seen)
    ensures a.user !in seen && IsFirstForUser(assignments, a)
  {
    var first := assignments[0];
    if a == first && first.user !in seen {
      assert assignments[0] == a;
    } else {
      var seenNow := if first.user in seen then seen else seen + {first.user};
      FirstAssignmentIsKept(assignments[1..], seenNow, a);
      var i :| 0 <= i < |assignments[1..]| && assignments[1..][i] == a
            && forall j :: 0 <= j < i ==> assignments[1..][j].user != a.user;
      assert assignments[i + 1] == a;
      forall j | 0 <= j < i + 1
        ensures assignments[j].user != a.user
      {
        if j > 0 {
          assert assignments[j] == assignments[1..][j - 1];
        }
      }
    }
  }
}
