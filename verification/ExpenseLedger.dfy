/** The expense services as methods over the rows they update, each proved against module Expenses. */
module ExpenseLedger {
  import opened Prelude
  import opened Expenses
  import opened ExpenseProofs

  /** The claims a pay run may include, by employee, each list in order of approval. */
  method GetPendingClaimsByEmployee(claims: seq<Claim>, run: PayRun) returns (grouped: map<EmployeeId, seq<ClaimId>>)
    ensures forall e: EmployeeId :: ListAt(grouped, e) == PendingClaimIds(claims, run, e)
  {
    grouped := map[];
    if !run.regular {
      forall e: EmployeeId
        ensures PendingClaimIds(claims, run, e) == []
      {
        if PendingClaimIds(claims, run, e) != [] {
          HasMember(PendingClaimIds(claims, run, e));
        }
      }
      return;
    }
    var ordered := Ordered(claims, run);
    for i := 0 to |ordered|
      invariant forall e: EmployeeId :: ListAt(grouped, e) == OfEmployee(claims, ordered[..i], e)
    {
      OneMoreClaim(claims, ordered, i);
      grouped := AppendAt<EmployeeId, ClaimId>(grouped, claims[ordered[i]].employee, ordered[i]);
    }
    assert ordered[..|ordered|] == ordered;
  }

  lemma OneMoreClaim(claims: seq<Claim>, ids: seq<ClaimId>, i: nat)
    requires InRange(claims, ids) && i < |ids|
    ensures forall e: EmployeeId ::
              OfEmployee(claims, ids[..i + 1], e)
              == OfEmployee(claims, ids[..i], e) + (if claims[ids[i]].employee == e then [ids[i]] else [])
  {
    assert ids[..i + 1][..i] == ids[..i];
  }

  lemma SamePendingIds(claims: seq<Claim>, others: seq<Claim>, run: PayRun, employee: EmployeeId)
    requires |claims| == |others|
    requires forall i :: 0 <= i < |claims| ==>
               && claims[i].approvedAt == others[i].approvedAt
               && (IsPending(claims[i], run, employee) <==> IsPending(others[i], run, employee))
    ensures PendingClaimIds(claims, run, employee) == PendingClaimIds(others, run, employee)
  {
    var ids, same := PendingClaimIds(claims, run, employee), PendingClaimIds(others, run, employee);
    forall i, j | 0 <= i < j < |same|
      ensures ByApproval(claims)(same[i], same[j])
    {
      assert ByApproval(others)(same[i], same[j]);
    }
    OneOrder(claims, ids, same);
  }

  lemma {:induction false} SamePayLines(claims: seq<Claim>, others: seq<Claim>, ids: seq<ClaimId>)
    requires |claims| == |others| && InRange(claims, ids)
    requires forall i :: 0 <= i < |claims| ==> claims[i].lines == others[i].lines
    ensures PayLines(claims, ids) == PayLines(others, ids)
  {
    if ids != [] {
      SamePayLines(claims, others, ids[..|ids| - 1]);
    }
  }

  /** Items of other employees leave an employee's pending claims, and everyone's lines, as they were. */
  lemma {:induction false} OtherItemsDoNotInterfere(s: Ledger, p: PayRunId, staff: seq<StaffEntry>,
                                                    employee: EmployeeId)
    requires p < |s.payRuns| && forall i :: 0 <= i < |staff| ==> staff[i].employee != employee
    ensures var next := WithItems(s, p, staff);
            && |next.claims| == |s.claims|
            && next.payRuns[p] == s.payRuns[p]
            && forall i :: 0 <= i < |s.claims| ==>
                 && next.claims[i].lines == s.claims[i].lines && next.claims[i].approvedAt == s.claims[i].approvedAt
                 && (IsPending(next.claims[i], s.payRuns[p], employee) <==>
                   IsPending(s.claims[i], s.payRuns[p], employee))
    decreases |staff|
  {
    if staff != [] {
      var before := WithItems(s, p, staff[..|staff| - 1]);
      OtherItemsDoNotInterfere(s, p, staff[..|staff| - 1], employee);
      ItemShape(before, p, staff[|staff| - 1]);
    }
  }

  class LedgerStore {
    var claims: seq<Claim>
    var cases: seq<Case>
    var payRuns: seq<PayRun>
    var items: map<ItemId, PayItem>
    var nextItem: nat
    ghost var payments: seq<Payment>

    ghost function State(): Ledger
      reads this
    {
      Ledger(claims, cases, payRuns, items, nextItem, payments)
    }

    constructor ()
      ensures State() == EMPTY
    {
      claims, cases, payRuns, items, nextItem, payments := [], [], [], map[], 0, [];
    }

    method SubmitExpenseClaim(id: ClaimId, requester: EmployeeId, ctx: Approvals.RunContext, env: Approvals.Environment)
      returns (error: Option<ExpenseError>)
      modifies this
      ensures Commits(SubmittedTo(old(State()), id, requester, ctx, env), old(State()), State(), error)
    {
      if id >= |claims| {
        return Some(NoSuchClaim);
      }
      var claim := claims[id];
      if claim.employee != requester {
        return Some(NotTheOwner);
      }
      if !Editable(claim.status) {
        return Some(NotEditable);
      }
      if claim.lines == [] {
        return Some(NoLines);
      }
      for i := 0 to |claim.lines|
        invariant forall j :: 0 <= j < i ==> claim.lines[j].receiptRequired ==> claim.lines[j].hasReceipt
      {
        if claim.lines[i].receiptRequired && !claim.lines[i].hasReceipt {
          return Some(ReceiptMissing);
        }
      }
      var run := Approvals.Create(ctx, env);
      if run.Err? {
        return Some(NotSubmittable(run.error));
      }
      claim := claim.(approvalRun := Some(|cases|));
      cases := cases + [Case(ctx, run.value, id)];
      claim := claim.(status := Submitted);
      claim := claim.(reimbursement := NotReady);
      claims := claims[id := claim];
      return None;
    }

    method HandleApprovalStatusChange(id: ClaimId, outcome: Approvals.RunStatus, now: int)
      requires id < |claims|
      modifies this`claims
      ensures claims == old(claims)[id := OnStatusChange(old(claims)[id], outcome, now)]
    {
      var claim := claims[id];
      match outcome {
        case Approved =>
          claim := claim.(status := ClaimStatus.Approved);
          claim := claim.(reimbursement := PendingPayroll);
          claim := claim.(approvedAt := Some(now));
        case Rejected =>
          claim := claim.(status := ClaimStatus.Rejected);
          claim := claim.(reimbursement := NotReady);
        case Cancelled =>
          claim := claim.(status := ClaimStatus.Cancelled);
          claim := claim.(reimbursement := NotReady);
        case Pending =>
      }
      claims := claims[id := claim];
    }

    /** A step of a claim's approval run, which tells the claim about a change of status. */
    method Decide(r: RunId, env: Approvals.Environment, step: Approvals.Step) returns (error: Option<ExpenseError>)
      modifies this
      ensures Commits(Decided(old(State()), r, env, step), old(State()), State(), error)
    {
      if r >= |cases| || cases[r].claim >= |claims| {
        return Some(NoSuchRun);
      }
      var k := cases[r];
      var next := Approvals.Apply(k.ctx, k.state, env, step);
      cases := cases[r := k.(state := next)];
      if next.status != k.state.status {
        HandleApprovalStatusChange(k.claim, next.status, env.now);
      }
      return None;
    }

    /** The claims included in the pay run wait for payroll again, and lose nothing but their pay run and item. */
    method ResetExpenseClaimsForPayRun(p: PayRunId)
      modifies this`claims
      ensures |claims| == |old(claims)|
      ensures forall i :: 0 <= i < |claims| && InRun(old(claims)[i], p) ==>
                && claims[i].reimbursement == PendingPayroll && claims[i].payRun.None? && claims[i].payItem.None?
                && claims[i] == old(claims)[i].(reimbursement := PendingPayroll, payRun := None, payItem := None)
      ensures forall i :: 0 <= i < |claims| && !InRun(old(claims)[i], p) ==> claims[i] == old(claims)[i]
      ensures forall i :: 0 <= i < |claims| ==> !InRun(claims[i], p)
    {
      for i := 0 to |claims|
        invariant |claims| == |old(claims)|
        invariant claims[..i] == ResetClaims(old(claims), p)[..i] && claims[i..] == old(claims)[i..]
      {
        var claim := claims[i];
        if InRun(claim, p) {
          claim := claim.(reimbursement := PendingPayroll);
          claim := claim.(payRun := None);
          claim := claim.(payItem := None);
          claims := claims[i := claim];
        }
      }
    }

    /** Marks the given claims, one after the other, as included in the item. */
    method MarkIncludedInPayroll(ids: seq<ClaimId>, p: PayRunId, item: ItemId)
      requires InRange(claims, ids)
      modifies this`claims
      ensures claims == IncludeClaims(old(claims), ids, p, item)
    {
      for i := 0 to |ids|
        invariant claims == IncludeClaims(old(claims), ids[..i], p, item)
      {
        var claim := claims[ids[i]];
        claim := claim.(reimbursement := Included);
        claim := claim.(payRun := Some(p));
        claim := claim.(payItem := Some(item));
        IncludingOneMore(old(claims), ids, i, p, item);
        claims := claims[ids[i] := claim];
      }
      assert ids[..|ids|] == ids;
    }

    method CreateItem(p: PayRunId, entry: StaffEntry, pending: seq<ClaimId>)
      requires p < |payRuns| && pending == PendingClaimIds(claims, payRuns[p], entry.employee)
      modifies this
      ensures State() == WithItem(old(State()), p, entry)
    {
      var item := nextItem;
      if entry.ready {
        var lines, total := BuildPayrollReimbursementLines(claims, pending);
        items := items[item := PayItem(p, entry.employee, true, lines, total)];
        MarkIncludedInPayroll(pending, p, item);
      } else {
        items := items[item := PayItem(p, entry.employee, false, [], 0)];
        assert IncludeClaims(claims, [], p, item) == claims;
      }
      nextItem := nextItem + 1;
    }

    method CalculatePayRun(p: PayRunId, staff: seq<StaffEntry>) returns (error: Option<ExpenseError>)
      modifies this
      ensures Commits(CalculatedRun(old(State()), p, staff), old(State()), State(), error)
    {
      if p >= |payRuns| {
        return Some(NoSuchPayRun);
      }
      if payRuns[p].status in {RunApproved, Finalized} {
        return Some(PayRunLocked);
      }
      if !EmployeesDistinct(staff) {
        return Some(DuplicateItem);
      }
      var gone := set i | i in items && items[i].payRun == p;
      ResetExpenseClaimsForPayRun(p);
      assert claims == ResetClaims(old(claims), p);
      claims := DetachClaims(claims, gone);
      items := items - gone;
      ghost var cleared := State();
      assert cleared == Cleared(old(State()), p);
      var grouped := GetPendingClaimsByEmployee(claims, payRuns[p]);
      for i := 0 to |staff|
        invariant State() == WithItems(cleared, p, staff[..i])
      {
        assert staff[..i + 1][..i] == staff[..i];
        var employee := staff[i].employee;
        assert ListAt(grouped, employee) == PendingClaimIds(claims, payRuns[p], employee) by {
          OtherItemsDoNotInterfere(cleared, p, staff[..i], employee);
          SamePendingIds(cleared.claims, claims, payRuns[p], employee);
        }
        CreateItem(p, staff[i], ListAt(grouped, employee));
      }
      assert staff[..|staff|] == staff;
      payRuns := payRuns[p := payRuns[p].(status := Calculated)];
      return None;
    }

    method FinalizePayRun(p: PayRunId, skipApproval: bool) returns (error: Option<ExpenseError>)
      modifies this
      ensures Commits(FinalizedRun(old(State()), p, skipApproval), old(State()), State(), error)
    {
      if p >= |payRuns| {
        return Some(NoSuchPayRun);
      }
      var own := set i | i in items && items[i].payRun == p;
      if !(payRuns[p].status == RunApproved || (payRuns[p].status == Calculated && skipApproval)) {
        return Some(NotFinalizable);
      }
      if (exists i :: i in own && !items[i].ready) || own == {} {
        return Some(NotFinalizable);
      }
      payments := payments + PaymentsFor(State(), p, |claims|);
      var left := own;
      while left != {}
        invariant left <= own
        invariant claims == PaidThrough(old(claims), own - left)
        invariant State() == old(State()).(claims := claims, payments := payments)
        invariant payments == old(payments) + PaymentsFor(old(State()), p, |old(claims)|)
        decreases left
      {
        var item :| item in left;
        left := left - {item};
        ghost var before := claims;
        MarkPaidForItem(item);
        assert claims == PaidThrough(before, {item});
        PaidOneMore(old(claims), own - left - {item}, item);
        assert own - left - {item} + {item} == own - left;
      }
      assert own - left == own;
      assert PaidThrough(old(claims), own) == PaidClaims(old(State()), p);
      payRuns := payRuns[p := payRuns[p].(status := Finalized)];
      return None;
    }

    /** The claims included in the item are paid, and change in nothing else; the other claims stay as they are. */
    method MarkPaidForItem(item: ItemId)
      modifies this`claims
      ensures |claims| == |old(claims)|
      ensures forall i :: 0 <= i < |claims| && IncludedIn(old(claims)[i], {item}) ==>
                claims[i].reimbursement == Paid && claims[i] == old(claims)[i].(reimbursement := Paid)
      ensures forall i :: 0 <= i < |claims| && !IncludedIn(old(claims)[i], {item}) ==> claims[i] == old(claims)[i]
    {
      for i := 0 to |claims|
        invariant |claims| == |old(claims)|
        invariant claims[..i] == PaidThrough(old(claims), {item})[..i] && claims[i..] == old(claims)[i..]
      {
        if IncludedIn(claims[i], {item}) {
          claims := claims[i := claims[i].(reimbursement := Paid)];
        }
      }
    }
  }

  lemma IncludingOneMore(claims: seq<Claim>, ids: seq<ClaimId>, i: nat, p: PayRunId, item: ItemId)
    requires InRange(claims, ids) && i < |ids|
    ensures var before := IncludeClaims(claims, ids[..i], p, item);
            IncludeClaims(claims, ids[..i + 1], p, item) ==
            before[ids[i] := before[ids[i]].(reimbursement := Included, payRun := Some(p), payItem := Some(item))]
  {
    assert ids[..i + 1] == ids[..i] + [ids[i]];
  }

  predicate InRun(claim: Claim, p: PayRunId) {
    claim.payRun == Some(p) && claim.reimbursement == Included
  }

  predicate IncludedIn(claim: Claim, items: set<ItemId>) {
    claim.reimbursement == Included && claim.payItem.Some? && claim.payItem.value in items
  }

  /** The claims included in one of the given items are paid. */
  function PaidThrough(claims: seq<Claim>, items: set<ItemId>): (paid: seq<Claim>)
    ensures |paid| == |claims|
  {
    seq(|claims|, i requires 0 <= i < |claims| =>
      if IncludedIn(claims[i], items)
      then claims[i].(reimbursement := Paid) else claims[i])
  }

  lemma PaidOneMore(claims: seq<Claim>, done: set<ItemId>, item: ItemId)
    ensures PaidThrough(PaidThrough(claims, done), {item}) == PaidThrough(claims, done + {item})
  {
  }
}
