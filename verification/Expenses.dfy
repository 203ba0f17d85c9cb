/**
 Expense claims from draft to reimbursement: the claim's own states, the approval run that decides
 it, and the pay runs that include and pay it. Amounts are in hundredths.
 */
module Expenses {
  import opened Prelude
  import opened Sorting
  import Approvals = ApprovalRuns

  type EmployeeId = nat
  type ClaimId = nat
  type RunId = nat
  type PayRunId = nat
  type ItemId = nat

  datatype ClaimStatus = Draft | Submitted | Approved | Rejected | Cancelled

  datatype Reimbursement = NotReady | PendingPayroll | Included | Paid

  datatype Line = Line(amount: int, receiptRequired: bool, hasReceipt: bool)

  datatype Claim = Claim(
    organisation: nat, employee: EmployeeId, lines: seq<Line>, status: ClaimStatus, reimbursement: Reimbursement,
    approvalRun: Option<RunId>, approvedAt: Option<int>, payRun: Option<PayRunId>, payItem: Option<ItemId>)

  /** An approval run whose subject is a claim. */
  datatype Case = Case(ctx: Approvals.RunContext, state: Approvals.RunState, claim: ClaimId)

  datatype PayRunStatus = RunDraft | Calculated | ApprovalPending | RunApproved | RunRejected | Finalized

  datatype PayRun = PayRun(organisation: nat, regular: bool, status: PayRunStatus)

  datatype PayLine = PayLine(claim: ClaimId, amount: int)

  datatype PayItem = PayItem(payRun: PayRunId, employee: EmployeeId, ready: bool, lines: seq<PayLine>, reimbursed: int)

  datatype Payment = Payment(claim: ClaimId, item: ItemId, amount: int)

  /**
   The rows. A claim's, case's or pay run's id is its position; pay-run items are deleted and
   numbered afresh. `payments` records what was ever paid out.
   */
  datatype Ledger = Ledger(
    claims: seq<Claim>, cases: seq<Case>, payRuns: seq<PayRun>,
    items: map<ItemId, PayItem>, nextItem: nat, payments: seq<Payment>)

  datatype ExpenseError =
    | NoSuchClaim | NotTheOwner | NotEditable | NoLines | AmountNotPositive | ReceiptMissing
    | NotSubmittable(error: Approvals.RunError) | NoSuchRun
    | NoSuchPayRun | PayRunLocked | DuplicateItem | NotFinalizable

  type Outcome = Result<Ledger, ExpenseError>

  function Total(lines: seq<Line>): int {
    if lines == [] then 0 else Total(lines[..|lines| - 1]) + lines[|lines| - 1].amount
  }

  lemma TotalOfOne(line: Line)
    ensures Total([line]) == line.amount
  {
    assert [line][..0] == [];
  }

  /** The total of two lists of lines is the sum of their totals. */
  lemma {:induction false} TotalOfBoth(a: seq<Line>, b: seq<Line>)
    ensures Total(a + b) == Total(a) + Total(b)
  {
    if b == [] {
      assert a + b == a;
    } else {
      assert (a + b)[..|a + b| - 1] == a + b[..|b| - 1];
      TotalOfBoth(a, b[..|b| - 1]);
    }
  }

  lemma TotalOfParts(lines: seq<Line>)
    ensures |lines| == 1 ==> Total(lines) == lines[0].amount
    ensures forall k :: 0 <= k <= |lines| ==> Total(lines) == Total(lines[..k]) + Total(lines[k..])
  {
    if |lines| == 1 {
      TotalOfOne(lines[0]);
      assert lines == [lines[0]];
    }
    forall k | 0 <= k <= |lines|
      ensures Total(lines) == Total(lines[..k]) + Total(lines[k..])
    {
      TotalOfBoth(lines[..k], lines[k..]);
      assert lines[..k] + lines[k..] == lines;
    }
  }

  method TotalAmount(lines: seq<Line>) returns (total: int)
    ensures total == Total(lines)
    ensures |lines| == 1 ==> total == lines[0].amount
    ensures forall k :: 0 <= k <= |lines| ==> total == Total(lines[..k]) + Total(lines[k..])
  {
    total := 0;
    for i := 0 to |lines|
      invariant total == Total(lines[..i])
    {
      assert lines[..i + 1][..i] == lines[..i];
      total := total + lines[i].amount;
    }
    assert lines[..|lines|] == lines;
    TotalOfParts(lines);
  }

  predicate PositiveLines(lines: seq<Line>) {
    lines != [] && forall i :: 0 <= i < |lines| ==> lines[i].amount > 0
  }

  lemma {:induction false} PositiveTotal(lines: seq<Line>)
    requires PositiveLines(lines)
    ensures Total(lines) > 0
  {
    if |lines| > 1 {
      PositiveTotal(lines[..|lines| - 1]);
    } else {
      assert Total(lines[..0]) == 0;
    }
  }

  // ----- claims

  predicate Editable(status: ClaimStatus) {
    status == Draft || status == Rejected
  }

  function LineProblem(lines: seq<Line>): Option<ExpenseError> {
    if lines == [] then Some(NoLines)
    else if !PositiveLines(lines) then Some(AmountNotPositive)
    else None
  }

  function Created(s: Ledger, organisation: nat, employee: EmployeeId, lines: seq<Line>): Outcome {
    if LineProblem(lines).Some? then Err(LineProblem(lines).value)
    else Ok(s.(claims := s.claims + [Claim(organisation, employee, lines, Draft, NotReady, None, None, None, None)]))
  }

  function Updated(s: Ledger, id: ClaimId, requester: EmployeeId, lines: seq<Line>): Outcome {
    if id >= |s.claims| then Err(NoSuchClaim)
    else if s.claims[id].employee != requester then Err(NotTheOwner)
    else if !Editable(s.claims[id].status) then Err(NotEditable)
    else if LineProblem(lines).Some? then Err(LineProblem(lines).value)
    else Ok(s.(claims := s.claims[id := s.claims[id].(lines := lines)]))
  }

  predicate ReceiptsComplete(lines: seq<Line>) {
    forall i :: 0 <= i < |lines| ==> lines[i].receiptRequired ==> lines[i].hasReceipt
  }

  function SubmittedTo(s: Ledger, id: ClaimId, requester: EmployeeId, ctx: Approvals.RunContext,
                       env: Approvals.Environment): Outcome {
    if id >= |s.claims| then Err(NoSuchClaim)
    else if s.claims[id].employee != requester then Err(NotTheOwner)
    else if !Editable(s.claims[id].status) then Err(NotEditable)
    else if s.claims[id].lines == [] then Err(NoLines)
    else if !ReceiptsComplete(s.claims[id].lines) then Err(ReceiptMissing)
    else match Approvals.Create(ctx, env)
      case Err(e) => Err(NotSubmittable(e))
      case Ok(run) =>
        var claim := s.claims[id].(approvalRun := Some(|s.cases|), status := Submitted, reimbursement := NotReady);
        Ok(s.(claims := s.claims[id := claim], cases := s.cases + [Case(ctx, run, id)]))
  }

  /** The owner's own claims are the only ones the cancellation looks at. */
  function CancelledByOwner(s: Ledger, id: ClaimId, requester: EmployeeId): Outcome {
    if id >= |s.claims| || s.claims[id].employee != requester then Err(NoSuchClaim)
    else if !Editable(s.claims[id].status) then Err(NotEditable)
    else Ok(s.(claims := s.claims[id := s.claims[id].(status := Cancelled)]))
  }

  /** What a claim does when its run's status becomes `outcome`. */
  function OnStatusChange(claim: Claim, outcome: Approvals.RunStatus, now: int): Claim {
    match outcome
    case Approved => claim.(status := ClaimStatus.Approved, reimbursement := PendingPayroll, approvedAt := Some(now))
    case Rejected => claim.(status := ClaimStatus.Rejected, reimbursement := NotReady)
    case Cancelled => claim.(status := ClaimStatus.Cancelled, reimbursement := NotReady)
    case Pending => claim
  }

  /** One step of an approval run; its subject hears of it when the run's status changes. */
  function Decided(s: Ledger, r: RunId, env: Approvals.Environment, step: Approvals.Step): Outcome {
    if r >= |s.cases| || s.cases[r].claim >= |s.claims| then Err(NoSuchRun) else
    var c := s.cases[r];
    var next := Approvals.Apply(c.ctx, c.state, env, step);
    var claim := if next.status != c.state.status then OnStatusChange(s.claims[c.claim], next.status, env.now)
      else s.claims[c.claim];
    Ok(s.(cases := s.cases[r := c.(state := next)], claims := s.claims[c.claim := claim]))
  }

  // ----- pay runs

  /** Claims included in the pay run wait for payroll again. */
  function ResetClaims(claims: seq<Claim>, p: PayRunId): (reset: seq<Claim>)
    ensures |reset| == |claims|
  {
    seq(|claims|, i requires 0 <= i < |claims| =>
      if claims[i].payRun == Some(p) && claims[i].reimbursement == Included
      then claims[i].(reimbursement := PendingPayroll, payRun := None, payItem := None)
      else claims[i])
  }

  /** Deleting items clears the pointers to them. */
  function DetachClaims(claims: seq<Claim>, gone: set<ItemId>): (detached: seq<Claim>)
    ensures |detached| == |claims|
  {
    seq(|claims|, i requires 0 <= i < |claims| =>
      if claims[i].payItem.Some? && claims[i].payItem.value in gone then claims[i].(payItem := None) else claims[i])
  }

  predicate IsPending(claim: Claim, run: PayRun, employee: EmployeeId) {
    && run.regular
    && claim.organisation == run.organisation
    && claim.status == ClaimStatus.Approved
    && claim.reimbursement == PendingPayroll
    && claim.employee == employee
  }

  predicate InRange(claims: seq<Claim>, ids: seq<ClaimId>) {
    forall i :: 0 <= i < |ids| ==> ids[i] < |claims|
  }

  function ApprovalTime(claims: seq<Claim>, id: ClaimId): int {
    if id < |claims| && claims[id].approvedAt.Some? then claims[id].approvedAt.value else 0
  }

  /** By time of approval, and among equals by creation. */
  function ByApproval(claims: seq<Claim>): (ClaimId, ClaimId) -> bool {
    (a: ClaimId, b: ClaimId) =>
      || ApprovalTime(claims, a) < ApprovalTime(claims, b)
      || (ApprovalTime(claims, a) == ApprovalTime(claims, b) && a <= b)
  }

  /** The claims that a pay run may include, in order of creation. */
  function Waiting(claims: seq<Claim>, run: PayRun): (ids: seq<ClaimId>)
    ensures forall id: ClaimId :: id in ids <==> id < |claims| && IsPending(claims[id], run, claims[id].employee)
    ensures Distinct(ids)
  {
    if claims == [] then [] else
    var last := |claims| - 1;
    var earlier := Waiting(claims[..last], run);
    assert forall id: ClaimId :: id in earlier <==>
             id < last && IsPending(claims[id], run, claims[id].employee);
    earlier + (if IsPending(claims[last], run, claims[last].employee) then [last] else [])
  }

  function OfEmployee(claims: seq<Claim>, ids: seq<ClaimId>, employee: EmployeeId): (own: seq<ClaimId>)
    requires InRange(claims, ids)
    ensures forall id: ClaimId :: id in own <==> id in ids && claims[id].employee == employee
  {
    if ids == [] then [] else
    var last := |ids| - 1;
    assert ids == ids[..last] + [ids[last]];
    OfEmployee(claims, ids[..last], employee) + (if claims[ids[last]].employee == employee then [ids[last]] else [])
  }

  lemma {:induction false} OwnIdsKeepOrder(claims: seq<Claim>, ids: seq<ClaimId>, employee: EmployeeId)
    requires InRange(claims, ids) && Distinct(ids) && Sorted(ByApproval(claims), ids)
    ensures Distinct(OfEmployee(claims, ids, employee))
    ensures Sorted(ByApproval(claims), OfEmployee(claims, ids, employee))
  {
    if ids != [] {
      var last := |ids| - 1;
      var own := OfEmployee(claims, ids[..last], employee);
      OwnIdsKeepOrder(claims, ids[..last], employee);
      forall i | 0 <= i < |own|
        ensures own[i] != ids[last] && ByApproval(claims)(own[i], ids[last])
      {
        OwnComesBefore(claims, ids, employee, own[i]);
      }
    }
  }

  lemma OwnComesBefore(claims: seq<Claim>, ids: seq<ClaimId>, employee: EmployeeId, id: ClaimId)
    requires InRange(claims, ids) && ids != [] && Distinct(ids) && Sorted(ByApproval(claims), ids)
    requires id in OfEmployee(claims, ids[..|ids| - 1], employee)
    ensures id != ids[|ids| - 1] && ByApproval(claims)(id, ids[|ids| - 1])
  {
    var j :| 0 <= j < |ids| - 1 && ids[j] == id;
  }

  /** The claims that a pay run may include, in order of approval. */
  function Ordered(claims: seq<Claim>, run: PayRun): (ids: seq<ClaimId>)
    ensures forall id: ClaimId :: id in ids <==> id < |claims| && IsPending(claims[id], run, claims[id].employee)
    ensures Distinct(ids) && InRange(claims, ids) && Sorted(ByApproval(claims), ids)
  {
    SortPermutes(ByApproval(claims), Waiting(claims, run));
    SortedMembers(ByApproval(claims), Waiting(claims, run));
    var ids := Sort(ByApproval(claims), Waiting(claims, run));
    assert forall i :: 0 <= i < |ids| ==> ids[i] in ids;
    ids
  }

  /** Those of one employee, in the same order. */
  function PendingClaimIds(claims: seq<Claim>, run: PayRun, employee: EmployeeId): (ids: seq<ClaimId>)
    ensures forall id: ClaimId :: id in ids <==> id < |claims| && IsPending(claims[id], run, employee)
    ensures Distinct(ids) && InRange(claims, ids) && Sorted(ByApproval(claims), ids)
  {
    OwnIdsKeepOrder(claims, Ordered(claims, run), employee);
    var ids := OfEmployee(claims, Ordered(claims, run), employee);
    assert forall i :: 0 <= i < |ids| ==> ids[i] in ids;
    ids
  }

  /** Two lists of the same claims in order of approval are the same list. */
  lemma {:induction false} OneOrder(claims: seq<Claim>, ids: seq<ClaimId>, others: seq<ClaimId>)
    requires Distinct(ids) && Sorted(ByApproval(claims), ids)
    requires Distinct(others) && Sorted(ByApproval(claims), others)
    requires forall id: ClaimId :: id in ids <==> id in others
    ensures ids == others
  {
    if ids == [] {
      if others != [] {
        HasMember(others);
      }
    } else {
      var first := ids[0];
      assert first in ids && first in others;
      assert others[0] in others && others[0] in ids;
      var i :| 0 <= i < |ids| && ids[i] == others[0];
      var j :| 0 <= j < |others| && others[j] == first;
      assert first == others[0];
      forall id: ClaimId
        ensures id in ids[1..] <==> id in others[1..]
      {
        TailMembers(ids, id);
        TailMembers(others, id);
      }
      OneOrder(claims, ids[1..], others[1..]);
    }
  }

  function PayLines(claims: seq<Claim>, ids: seq<ClaimId>): (lines: seq<PayLine>)
    requires InRange(claims, ids)
  {
    if ids == [] then [] else
    var last := ids[|ids| - 1];
    PayLines(claims, ids[..|ids| - 1])
    + (if Total(claims[last].lines) <= 0 then [] else [PayLine(last, Total(claims[last].lines))])
  }

  function LineSum(lines: seq<PayLine>): int {
    if lines == [] then 0 else LineSum(lines[..|lines| - 1]) + lines[|lines| - 1].amount
  }

  function ClaimSum(claims: seq<Claim>, ids: seq<ClaimId>): int
    requires InRange(claims, ids)
  {
    if ids == [] then 0 else ClaimSum(claims, ids[..|ids| - 1]) + Total(claims[ids[|ids| - 1]].lines)
  }

  /** The reimbursement lines of one employee's pay item, and their sum. */
  method BuildPayrollReimbursementLines(claims: seq<Claim>, ids: seq<ClaimId>) returns (lines: seq<PayLine>, total: int)
    requires InRange(claims, ids)
    ensures lines == PayLines(claims, ids) && total == LineSum(lines)
  {
    lines, total := [], 0;
    for i := 0 to |ids|
      invariant lines == PayLines(claims, ids[..i]) && total == LineSum(lines)
    {
      assert ids[..i + 1][..i] == ids[..i];
      var amount := TotalAmount(claims[ids[i]].lines);
      if amount <= 0 {
        continue;
      }
      ghost var before := lines;
      lines := lines + [PayLine(ids[i], amount)];
      assert lines[..|lines| - 1] == before;
      total := total + amount;
    }
    assert ids[..|ids|] == ids;
  }

  /** An employee to be paid; `ready` is false when the calculation ends in an exception item. */
  datatype StaffEntry = StaffEntry(employee: EmployeeId, ready: bool)

  function IncludeClaims(claims: seq<Claim>, ids: seq<ClaimId>, p: PayRunId, item: ItemId): (included: seq<Claim>)
    ensures |included| == |claims|
  {
    seq(|claims|, i requires 0 <= i < |claims| =>
      if i in ids then claims[i].(reimbursement := Included, payRun := Some(p), payItem := Some(item)) else claims[i])
  }

  /** Creates the item of one employee and includes that employee's pending claims in it. */
  function WithItem(s: Ledger, p: PayRunId, entry: StaffEntry): Ledger
    requires p < |s.payRuns|
  {
    var ids := if entry.ready then PendingClaimIds(s.claims, s.payRuns[p], entry.employee) else [];
    var lines := PayLines(s.claims, ids);
    s.(claims := IncludeClaims(s.claims, ids, p, s.nextItem),
       items := s.items[s.nextItem := PayItem(p, entry.employee, entry.ready, lines, LineSum(lines))],
       nextItem := s.nextItem + 1)
  }

  function WithItems(s: Ledger, p: PayRunId, staff: seq<StaffEntry>): (next: Ledger)
    requires p < |s.payRuns|
    ensures next.payRuns == s.payRuns
    decreases |staff|
  {
    if staff == [] then s else WithItem(WithItems(s, p, staff[..|staff| - 1]), p, staff[|staff| - 1])
  }

  function ItemsOf(s: Ledger, p: PayRunId): set<ItemId> {
    set i | i in s.items && s.items[i].payRun == p
  }

  /** The ledger once the pay run's earlier results are gone. */
  function Cleared(s: Ledger, p: PayRunId): Ledger {
    var gone := ItemsOf(s, p);
    s.(claims := DetachClaims(ResetClaims(s.claims, p), gone), items := s.items - gone)
  }

  predicate EmployeesDistinct(staff: seq<StaffEntry>) {
    forall i, j :: 0 <= i < j < |staff| ==> staff[i].employee != staff[j].employee
  }

  function CalculatedRun(s: Ledger, p: PayRunId, staff: seq<StaffEntry>): Outcome {
    if p >= |s.payRuns| then Err(NoSuchPayRun)
    else if s.payRuns[p].status in {RunApproved, Finalized} then Err(PayRunLocked)
    else if !EmployeesDistinct(staff) then Err(DuplicateItem)
    else
      var next := WithItems(Cleared(s, p), p, staff);
      Ok(next.(payRuns := next.payRuns[p := next.payRuns[p].(status := Calculated)]))
  }

  /** The claim is included in a ready item of the pay run. */
  predicate Payable(s: Ledger, claim: Claim, p: PayRunId) {
    && claim.reimbursement == Included
    && claim.payItem.Some? && claim.payItem.value in s.items
    && s.items[claim.payItem.value].payRun == p && s.items[claim.payItem.value].ready
  }

  function PaidClaims(s: Ledger, p: PayRunId): (paid: seq<Claim>)
    ensures |paid| == |s.claims|
  {
    seq(|s.claims|, i requires 0 <= i < |s.claims| =>
      if Payable(s, s.claims[i], p) then s.claims[i].(reimbursement := Paid) else s.claims[i])
  }

  function PaymentsFor(s: Ledger, p: PayRunId, n: nat): seq<Payment>
    requires n <= |s.claims|
  {
    if n == 0 then [] else
    PaymentsFor(s, p, n - 1)
    + (if Payable(s, s.claims[n - 1], p)
       then [Payment(n - 1, s.claims[n - 1].payItem.value, Total(s.claims[n - 1].lines))] else [])
  }

  predicate CanFinalize(s: Ledger, p: PayRunId, skipApproval: bool)
    requires p < |s.payRuns|
  {
    && (s.payRuns[p].status == RunApproved || (s.payRuns[p].status == Calculated && skipApproval))
    && (forall i :: i in ItemsOf(s, p) ==> s.items[i].ready)
    && ItemsOf(s, p) != {}
  }

  function FinalizedRun(s: Ledger, p: PayRunId, skipApproval: bool): Outcome {
    if p >= |s.payRuns| then Err(NoSuchPayRun)
    else if !CanFinalize(s, p, skipApproval) then Err(NotFinalizable)
    else Ok(s.(claims := PaidClaims(s, p),
               payRuns := s.payRuns[p := s.payRuns[p].(status := Finalized)],
               payments := s.payments + PaymentsFor(s, p, |s.claims|)))
  }

  /** Submission, approval or rejection of the pay run itself, which never touches a finalized run. */
  function PayRunMoved(s: Ledger, p: PayRunId, status: PayRunStatus): Outcome {
    if p >= |s.payRuns| then Err(NoSuchPayRun)
    else if s.payRuns[p].status == Finalized || status == Finalized then Err(PayRunLocked)
    else Ok(s.(payRuns := s.payRuns[p := s.payRuns[p].(status := status)]))
  }

  function PayRunOpened(s: Ledger, organisation: nat, regular: bool): Outcome {
    Ok(s.(payRuns := s.payRuns + [PayRun(organisation, regular, RunDraft)]))
  }
}
