/** Who may take which step of the expense ledger, and exactly what it changes. */
module ExpenseSteps {
  import opened Prelude
  import opened Expenses

  // ----- sums

  lemma LineSumOfOne(line: PayLine)
    ensures LineSum([line]) == line.amount && LineSum([]) == 0
  {
    assert [line][..0] == [];
  }

  lemma {:induction false} LineSumOfBoth(a: seq<PayLine>, b: seq<PayLine>)
    ensures LineSum(a + b) == LineSum(a) + LineSum(b)
  {
    if b == [] {
      assert a + b == a;
    } else {
      assert (a + b)[..|a + b| - 1] == a + b[..|b| - 1];
      LineSumOfBoth(a, b[..|b| - 1]);
    }
  }

  lemma ClaimSumOfOne(claims: seq<Claim>, id: ClaimId)
    requires id < |claims|
    ensures ClaimSum(claims, [id]) == Total(claims[id].lines) && ClaimSum(claims, []) == 0
  {
    assert [id][..0] == [];
  }

  lemma {:induction false} ClaimSumOfBoth(claims: seq<Claim>, a: seq<ClaimId>, b: seq<ClaimId>)
    requires InRange(claims, a) && InRange(claims, b)
    ensures ClaimSum(claims, a + b) == ClaimSum(claims, a) + ClaimSum(claims, b)
  {
    if b == [] {
      assert a + b == a;
    } else {
      assert (a + b)[..|a + b| - 1] == a + b[..|b| - 1];
      ClaimSumOfBoth(claims, a, b[..|b| - 1]);
    }
  }

  /** A claim whose total is positive has one line, for that total; others have none. */
  lemma PayLinesOfOne(claims: seq<Claim>, id: ClaimId)
    requires id < |claims|
    ensures PayLines(claims, [id]) == if Total(claims[id].lines) > 0 then [PayLine(id, Total(claims[id].lines))] else []
    ensures PayLines(claims, []) == []
  {
    assert [id][..0] == [];
  }

  lemma {:induction false} PayLinesOfBoth(claims: seq<Claim>, a: seq<ClaimId>, b: seq<ClaimId>)
    requires InRange(claims, a) && InRange(claims, b)
    ensures PayLines(claims, a + b) == PayLines(claims, a) + PayLines(claims, b)
  {
    if b == [] {
      assert a + b == a;
    } else {
      assert (a + b)[..|a + b| - 1] == a + b[..|b| - 1];
      PayLinesOfBoth(claims, a, b[..|b| - 1]);
    }
  }

  // ----- claims

  /** Lines that a claim may have: at least one, and each for a positive amount. */
  predicate ProperLines(lines: seq<Line>) {
    |lines| > 0 && forall i :: 0 <= i < |lines| ==> 0 < lines[i].amount
  }

  /** Only claim `id` changes, and it becomes `c`. */
  predicate ChangesOnly(s: Ledger, next: Ledger, id: ClaimId, c: Claim) {
    && |next.claims| == |s.claims| && id < |s.claims| && next.claims[id] == c
    && (forall i :: 0 <= i < |s.claims| && i != id ==> next.claims[i] == s.claims[i])
    && next.payRuns == s.payRuns && next.items == s.items && next.nextItem == s.nextItem && next.payments == s.payments
  }

  lemma CreationIff(s: Ledger, organisation: nat, employee: EmployeeId, lines: seq<Line>)
    ensures var outcome := Created(s, organisation, employee, lines);
            && (outcome.Ok? <==> ProperLines(lines))
            && (outcome == Err(NoLines) <==> |lines| == 0)
            && (outcome.Ok? ==>
                  var c := outcome.value.claims[|s.claims|];
                  && |outcome.value.claims| == |s.claims| + 1 && outcome.value.claims[..|s.claims|] == s.claims
                  && outcome.value == s.(claims := outcome.value.claims)
                  && c.organisation == organisation && c.employee == employee && c.lines == lines
                  && c.status.Draft? && c.reimbursement.NotReady?
                  && c.approvalRun.None? && c.approvedAt.None? && c.payRun.None? && c.payItem.None?)
  {
  }

  /** The owner's claim is a draft or was rejected. */
  predicate MayEdit(s: Ledger, id: ClaimId, requester: EmployeeId) {
    && id < |s.claims| && s.claims[id].employee == requester
    && (s.claims[id].status.Draft? || s.claims[id].status.Rejected?)
  }

  /** Why a change of a claim is refused before anything else is looked at. */
  ghost predicate EditRefusedFor(s: Ledger, id: ClaimId, requester: EmployeeId, error: ExpenseError) {
    match error
    case NoSuchClaim => id >= |s.claims|
    case NotTheOwner => id < |s.claims| && s.claims[id].employee != requester
    case NotEditable =>
      && id < |s.claims| && s.claims[id].employee == requester
      && !(s.claims[id].status.Draft? || s.claims[id].status.Rejected?)
    case _ => false
  }

  lemma UpdateIff(s: Ledger, id: ClaimId, requester: EmployeeId, lines: seq<Line>)
    ensures var outcome := Updated(s, id, requester, lines);
            && (outcome.Ok? <==> MayEdit(s, id, requester) && ProperLines(lines))
            && (forall e :: EditRefusedFor(s, id, requester, e) ==> outcome == Err(e))
            && (MayEdit(s, id, requester) && |lines| == 0 ==> outcome == Err(NoLines))
            && (MayEdit(s, id, requester) && |lines| > 0 && !ProperLines(lines) ==> outcome == Err(AmountNotPositive))
            && (outcome.Ok? ==> ChangesOnly(s, outcome.value, id, s.claims[id].(lines := lines))
                                && outcome.value.cases == s.cases)
  {
  }

  predicate LacksReceipt(lines: seq<Line>) {
    exists i :: 0 <= i < |lines| && lines[i].receiptRequired && !lines[i].hasReceipt
  }

  /** A claim is submitted by its owner, with lines, with the receipts they need, to a workflow that can start. */
  lemma SubmissionIff(s: Ledger, id: ClaimId, requester: EmployeeId, ctx: Approvals.RunContext,
                      env: Approvals.Environment)
    ensures var outcome := SubmittedTo(s, id, requester, ctx, env);
            && (outcome.Ok? <==>
                  && MayEdit(s, id, requester) && |s.claims[id].lines| > 0
                  && !LacksReceipt(s.claims[id].lines)
                  && Approvals.Create(ctx, env).Ok?)
            && (forall e :: EditRefusedFor(s, id, requester, e) ==> outcome == Err(e))
            && (MayEdit(s, id, requester) && |s.claims[id].lines| == 0 ==> outcome == Err(NoLines))
            && (MayEdit(s, id, requester) && LacksReceipt(s.claims[id].lines) ==> outcome == Err(ReceiptMissing))
            && (outcome.Ok? ==>
                  && ChangesOnly(s, outcome.value, id,
                                 s.claims[id].(approvalRun := Some(|s.cases|), status := Submitted,
                                   reimbursement := NotReady))
                  && |outcome.value.cases| == |s.cases| + 1 && outcome.value.cases[..|s.cases|] == s.cases
                  && outcome.value.cases[|s.cases|] == Case(ctx, Approvals.Create(ctx, env).value, id))
  {
  }

  lemma CancellationIff(s: Ledger, id: ClaimId, requester: EmployeeId)
    ensures var outcome := CancelledByOwner(s, id, requester);
            && (outcome.Ok? <==> MayEdit(s, id, requester))
            && (outcome == Err(NoSuchClaim) <==> id >= |s.claims| || s.claims[id].employee != requester)
            && (outcome.Ok? ==> ChangesOnly(s, outcome.value, id, s.claims[id].(status := ClaimStatus.Cancelled))
                                && outcome.value.cases == s.cases)
  {
  }

  /** What a claim becomes when its run ends: approved and waiting for payroll from now on, or not payable. */
  predicate Follows(before: Claim, after: Claim, outcome: Approvals.RunStatus, now: int) {
    && after == before.(status := after.status, reimbursement := after.reimbursement, approvedAt := after.approvedAt)
    && (outcome.Approved? ==>
          after.status.Approved? && after.reimbursement.PendingPayroll? && after.approvedAt == Some(now))
    && (outcome.Rejected? ==>
          after.status.Rejected? && after.reimbursement.NotReady? && after.approvedAt == before.approvedAt)
    && (outcome.Cancelled? ==>
          after.status.Cancelled? && after.reimbursement.NotReady? && after.approvedAt == before.approvedAt)
    && (outcome.Pending? ==> after == before)
  }

  /** A step of a run changes that run and, if the run's status changes, the claim it decides. */
  lemma DecisionReachesClaim(s: Ledger, r: RunId, env: Approvals.Environment, step: Approvals.Step)
    ensures var outcome := Decided(s, r, env, step);
            && (outcome.Ok? <==> r < |s.cases| && s.cases[r].claim < |s.claims|)
            && (outcome.Ok? ==>
                  var k := s.cases[r];
                  var state := Approvals.Apply(k.ctx, k.state, env, step);
                  var next := outcome.value;
                  && ChangesOnly(s, next, k.claim, next.claims[k.claim])
                  && |next.cases| == |s.cases| && next.cases[r] == k.(state := state)
                  && (forall i :: 0 <= i < |s.cases| && i != r ==> next.cases[i] == s.cases[i])
                  && if state.status == k.state.status then next.claims[k.claim] == s.claims[k.claim]
                     else Follows(s.claims[k.claim], next.claims[k.claim], state.status, env.now))
  {
  }

  // ----- pay runs

  /** An approved claim of the organisation that waits for payroll, for a regular pay run. */
  lemma IsPendingIff(claim: Claim, run: PayRun, employee: EmployeeId)
    ensures IsPending(claim, run, employee) <==>
              && run.regular && claim.employee == employee && claim.organisation == run.organisation
              && claim.status.Approved? && claim.reimbursement.PendingPayroll?
  {
  }

  /** A pay run may be calculated until it is approved, for a list that names nobody twice. */
  lemma CalculationIff(s: Ledger, p: PayRunId, staff: seq<StaffEntry>)
    ensures var outcome := CalculatedRun(s, p, staff);
            && (outcome.Ok? <==>
                  && p < |s.payRuns|
                  && (var status := s.payRuns[p].status;
                      status.RunDraft? || status.Calculated? || status.ApprovalPending? || status.RunRejected?)
                  && forall i, j :: 0 <= i < j < |staff| ==> staff[i].employee != staff[j].employee)
            && (outcome == Err(NoSuchPayRun) <==> p >= |s.payRuns|)
            && (outcome == Err(PayRunLocked) <==>
                  p < |s.payRuns| && (s.payRuns[p].status.RunApproved? || s.payRuns[p].status.Finalized?))
            && (outcome.Ok? ==> outcome.value.payRuns == s.payRuns[p := s.payRuns[p].(status := Calculated)]
                                && outcome.value.cases == s.cases && outcome.value.payments == s.payments)
  {
    if p < |s.payRuns| {
      ItemsTouchNothingElse(Cleared(s, p), p, staff);
      match s.payRuns[p].status
      case RunDraft =>
      case Calculated =>
      case ApprovalPending =>
      case RunApproved =>
      case RunRejected =>
      case Finalized =>
    }
  }

  lemma {:induction false} ItemsTouchNothingElse(s: Ledger, p: PayRunId, staff: seq<StaffEntry>)
    requires p < |s.payRuns|
    ensures WithItems(s, p, staff).cases == s.cases && WithItems(s, p, staff).payments == s.payments
    decreases |staff|
  {
    if staff != [] {
      ItemsTouchNothingElse(s, p, staff[..|staff| - 1]);
    }
  }

  /** Recalculating starts from a ledger without the run's items, in which the claims they held wait again. */
  lemma ClearingOfRun(s: Ledger, p: PayRunId)
    ensures var next := Cleared(s, p);
            && (forall i :: i in next.items <==> i in s.items && s.items[i].payRun != p)
            && (forall i :: i in next.items ==> next.items[i] == s.items[i])
            && next == s.(claims := next.claims, items := next.items) && |next.claims| == |s.claims|
            && forall id :: 0 <= id < |s.claims| ==>
                 var (c, d) := (s.claims[id], next.claims[id]);
                 && d == c.(reimbursement := d.reimbursement, payRun := d.payRun, payItem := d.payItem)
                 && (c.payRun == Some(p) && c.reimbursement.Included? ==>
                       d.reimbursement.PendingPayroll? && d.payRun.None? && d.payItem.None?)
                 && (!(c.payRun == Some(p) && c.reimbursement.Included?) ==>
                       && d.reimbursement == c.reimbursement && d.payRun == c.payRun
                       && (if exists i :: i in s.items && s.items[i].payRun == p && c.payItem == Some(i)
                           then d.payItem.None? else d.payItem == c.payItem))
  {
  }

  /** A new item holds exactly the waiting claims of its employee, unless the calculation failed for that employee. */
  lemma ItemOfEmployee(s: Ledger, p: PayRunId, entry: StaffEntry)
    requires p < |s.payRuns|
    ensures var next := WithItem(s, p, entry);
            && next.nextItem == s.nextItem + 1 && |next.claims| == |s.claims|
            && next == s.(claims := next.claims, items := next.items, nextItem := next.nextItem)
            && s.nextItem in next.items
            && (forall i :: i != s.nextItem ==> (i in next.items <==> i in s.items))
            && (forall i :: i != s.nextItem && i in s.items ==> next.items[i] == s.items[i])
            && (var item := next.items[s.nextItem];
                && item.payRun == p && item.employee == entry.employee && item.ready == entry.ready
                && (!entry.ready ==> item.lines == [] && item.reimbursed == 0))
            && forall id :: 0 <= id < |s.claims| ==>
                 next.claims[id] ==
                   if entry.ready && IsPending(s.claims[id], s.payRuns[p], entry.employee)
                   then s.claims[id].(reimbursement := Included, payRun := Some(p), payItem := Some(s.nextItem))
                   else s.claims[id]
  {
    if !entry.ready {
      assert PayLines(s.claims, []) == [];
    }
  }

  /** A pay run is paid out once it is approved, or calculated if approval is skipped, with items that are all ready. */
  lemma FinalizationIff(s: Ledger, p: PayRunId, skipApproval: bool)
    ensures var outcome := FinalizedRun(s, p, skipApproval);
            && (outcome.Ok? <==>
                  && p < |s.payRuns|
                  && (s.payRuns[p].status.RunApproved? || (s.payRuns[p].status.Calculated? && skipApproval))
                  && (exists i :: i in s.items && s.items[i].payRun == p)
                  && (forall i :: i in s.items && s.items[i].payRun == p ==> s.items[i].ready))
            && (outcome == Err(NoSuchPayRun) <==> p >= |s.payRuns|)
            && (outcome.Ok? ==>
                  var next := outcome.value;
                  && next.payRuns == s.payRuns[p := s.payRuns[p].(status := Finalized)]
                  && next == s.(claims := next.claims, payRuns := next.payRuns, payments := next.payments)
                  && |next.claims| == |s.claims|
                  && forall id :: 0 <= id < |s.claims| ==>
                       next.claims[id] ==
                         if s.claims[id].reimbursement.Included?
                            && exists i :: && i in s.items && s.items[i].payRun == p && s.items[i].ready
                                           && s.claims[id].payItem == Some(i)
                         then s.claims[id].(reimbursement := Paid) else s.claims[id])
  {
    if p < |s.payRuns| {
      if i :| i in s.items && s.items[i].payRun == p {
        assert i in ItemsOf(s, p);
      }
    }
  }

  /** The payments of a run are one for each claim it pays, in order, for the claim's total. */
  lemma {:induction false} PaymentsOfRun(s: Ledger, p: PayRunId, n: nat, id: ClaimId)
    requires n <= |s.claims|
    ensures (exists payment :: payment in PaymentsFor(s, p, n) && payment.claim == id) <==>
              id < n && Payable(s, s.claims[id], p)
    ensures forall payment :: payment in PaymentsFor(s, p, n) && payment.claim == id ==>
              id < n && payment == Payment(id, s.claims[id].payItem.value, Total(s.claims[id].lines))
  {
    if n > 0 {
      PaymentsOfRun(s, p, n - 1, id);
      var earlier := PaymentsFor(s, p, n - 1);
      assert forall payment :: payment in earlier ==> payment in PaymentsFor(s, p, n);
      if id == n - 1 && Payable(s, s.claims[id], p) {
        var last := Payment(id, s.claims[id].payItem.value, Total(s.claims[id].lines));
        assert PaymentsFor(s, p, n) == earlier + [last];
        assert last in PaymentsFor(s, p, n);
      }
    }
  }

  /** Any other move of a pay run is between states that are not final. */
  lemma MoveIff(s: Ledger, p: PayRunId, status: PayRunStatus)
    ensures var outcome := PayRunMoved(s, p, status);
            && (outcome.Ok? <==> p < |s.payRuns| && !s.payRuns[p].status.Finalized? && !status.Finalized?)
            && (outcome.Ok? ==> outcome.value == s.(payRuns := s.payRuns[p := s.payRuns[p].(status := status)]))
  {
  }
}
