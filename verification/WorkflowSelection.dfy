/** Which workflow decides a request: an assignment, else the first matching rule, else the default. */
module WorkflowSelection {
  import opened Prelude
  import opened Sorting
  import opened ApproverResolution

  type WorkflowId = nat

  /** A condition that is not set matches everything. Texts are compared in trimmed lower case. */
  datatype Rule = Rule(
    workflow: WorkflowId, workflowActive: bool, active: bool, kind: RequestKind, priority: nat, createdAt: int,
    department: Option<nat>, location: Option<nat>, employee: Option<EmployeeId>, leaveType: Option<nat>,
    employmentType: Option<string>, designation: Option<string>,
    minAmount: Option<int>, maxAmount: Option<int>, labels: map<string, string>)

  /** The request and the applicant, with the labels (grade, band, cost centre, legal entity) it came with. */
  datatype Application = Application(
    kind: RequestKind, employee: EmployeeId, department: Option<nat>, location: Option<nat>, leaveType: Option<nat>,
    employmentType: string, designation: string, amount: Option<int>, labels: map<string, string>)

  /** What there is to choose from: the employee's assigned workflow, the rules and the default. */
  datatype Options = Options(assignment: Option<WorkflowId>, rules: seq<Rule>, fallback: Option<WorkflowId>)

  datatype Source = FromAssignment | FromRule | FromDefault

  datatype SelectionError = NoDefaultWorkflow

  predicate Agrees<T(==)>(wanted: Option<T>, actual: Option<T>) {
    wanted.None? || wanted == actual
  }

  predicate Matches(rule: Rule, a: Application) {
    && rule.active && rule.kind == a.kind
    && Agrees(rule.department, a.department)
    && Agrees(rule.location, a.location)
    && Agrees(rule.employee, Some(a.employee))
    && Agrees(rule.employmentType, Some(a.employmentType))
    && Agrees(rule.designation, Some(a.designation))
    && Agrees(rule.leaveType, a.leaveType)
    && (rule.minAmount.None? || (a.amount.Some? && a.amount.value >= rule.minAmount.value))
    && (rule.maxAmount.None? || (a.amount.Some? && a.amount.value <= rule.maxAmount.value))
    && forall name :: name in rule.labels ==> name in a.labels && a.labels[name] == rule.labels[name]
  }

  predicate Applies(rule: Rule, a: Application) {
    rule.workflowActive && Matches(rule, a)
  }

  function ByPriority(): (Rule, Rule) -> bool {
    (x: Rule, y: Rule) => x.priority < y.priority || (x.priority == y.priority && x.createdAt <= y.createdAt)
  }

  /**
   An assignment wins over every rule, and a rule over the default; among the rules that apply, one
   of least priority number, and of those an oldest, is taken.
   */
  ghost predicate Selects(o: Options, a: Application, chosen: Result<(WorkflowId, Source), SelectionError>) {
    if o.assignment.Some? then chosen == Ok((o.assignment.value, FromAssignment))
    else if exists r :: r in o.rules && Applies(r, a) then
      exists r :: && r in o.rules && Applies(r, a) && chosen == Ok((r.workflow, FromRule))
                  && forall other :: other in o.rules && Applies(other, a) ==> ByPriority()(r, other)
    else chosen == if o.fallback.Some? then Ok((o.fallback.value, FromDefault)) else Err(NoDefaultWorkflow)
  }

  method ResolveWorkflowWithSource(o: Options, a: Application)
    returns (chosen: Result<(WorkflowId, Source), SelectionError>)
    ensures Selects(o, a, chosen)
  {
    if o.assignment.Some? {
      return Ok((o.assignment.value, FromAssignment));
    }
    var ordered := Sort(ByPriority(), o.rules);
    SortPermutes(ByPriority(), o.rules);
    SortedMembers(ByPriority(), o.rules);
    for i := 0 to |ordered|
      invariant forall j :: 0 <= j < i ==> !Applies(ordered[j], a)
    {
      var rule := ordered[i];
      if Applies(rule, a) {
        assert rule in ordered;
        forall other | other in o.rules && Applies(other, a)
          ensures ByPriority()(rule, other)
        {
          assert other in ordered;
          var j :| 0 <= j < |ordered| && ordered[j] == other;
          assert j == i || ByPriority()(ordered[i], ordered[j]);
        }
        return Ok((rule.workflow, FromRule));
      }
    }
    assert forall r :: r in o.rules ==> r in ordered;
    if o.fallback.None? {
      return Err(NoDefaultWorkflow);
    }
    return Ok((o.fallback.value, FromDefault));
  }

  // ----- what a rule asks for

  /** A rule without conditions matches every request of its kind, as long as it is active. */
  lemma BareRuleMatchesIff(rule: Rule, a: Application)
    requires rule.department.None? && rule.location.None? && rule.employee.None? && rule.leaveType.None?
    requires rule.employmentType.None? && rule.designation.None? && rule.minAmount.None? && rule.maxAmount.None?
    requires rule.labels == map[]
    ensures Matches(rule, a) <==> rule.active && rule.kind == a.kind
    ensures Applies(rule, a) <==> rule.workflowActive && rule.active && rule.kind == a.kind
  {
  }

  /** Each condition on the applicant restricts the rule to those who meet it. */
  lemma ApplicantConditionsRestrict(rule: Rule, a: Application)
    ensures rule.department.Some? ==>
              (Matches(rule, a) <==> Matches(rule.(department := None), a) && a.department == rule.department)
    ensures rule.location.Some? ==>
              (Matches(rule, a) <==> Matches(rule.(location := None), a) && a.location == rule.location)
    ensures rule.employee.Some? ==>
              (Matches(rule, a) <==> Matches(rule.(employee := None), a) && a.employee == rule.employee.value)
    ensures rule.employmentType.Some? ==>
              (Matches(rule, a) <==>
               Matches(rule.(employmentType := None), a) && a.employmentType == rule.employmentType.value)
    ensures rule.designation.Some? ==>
              (Matches(rule, a) <==> Matches(rule.(designation := None), a) && a.designation == rule.designation.value)
  {
  }

  /** So does each condition on the request; both bounds of an amount are included, and need an amount. */
  lemma RequestConditionsRestrict(rule: Rule, a: Application, name: string)
    ensures rule.leaveType.Some? ==>
              (Matches(rule, a) <==> Matches(rule.(leaveType := None), a) && a.leaveType == rule.leaveType)
    ensures rule.minAmount.Some? ==>
              (Matches(rule, a) <==>
               Matches(rule.(minAmount := None), a) && a.amount.Some? && !(a.amount.value < rule.minAmount.value))
    ensures rule.maxAmount.Some? ==>
              (Matches(rule, a) <==>
               Matches(rule.(maxAmount := None), a) && a.amount.Some? && !(a.amount.value > rule.maxAmount.value))
    ensures name in rule.labels ==>
              (Matches(rule, a) <==>
               && Matches(rule.(labels := rule.labels - {name}), a)
               && name in a.labels && a.labels[name] == rule.labels[name])
  {
  }

  /** Why a workflow was chosen: each source rules out those before it. */
  lemma WhyChosen(o: Options, a: Application, chosen: Result<(WorkflowId, Source), SelectionError>)
    requires Selects(o, a, chosen)
    ensures chosen.Err? <==> o.assignment.None? && o.fallback.None? && forall r :: r in o.rules ==> !Applies(r, a)
    ensures chosen.Ok? && chosen.value.1.FromAssignment? <==> o.assignment.Some?
    ensures chosen.Ok? && chosen.value.1.FromAssignment? ==> o.assignment == Some(chosen.value.0)
    ensures chosen.Ok? && chosen.value.1.FromRule? <==>
              o.assignment.None? && exists r :: r in o.rules && Applies(r, a)
    ensures chosen.Ok? && chosen.value.1.FromRule? ==>
              exists r ::
                && r in o.rules && Applies(r, a) && r.workflow == chosen.value.0
                && forall other :: other in o.rules && Applies(other, a) ==>
                     r.priority < other.priority || (r.priority == other.priority && !(other.createdAt < r.createdAt))
    ensures chosen.Ok? && chosen.value.1.FromDefault? ==> o.fallback == Some(chosen.value.0)
  {
  }
}
