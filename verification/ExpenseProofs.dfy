/** What every step of the expense ledger keeps, and that a claim is paid at most once. */
module ExpenseProofs {
  import opened Prelude
  import opened ApprovalInvariant
  import opened Expenses

  // ----- what a sound ledger is

  /** The claim's pay item exists, belongs to its employee and pay run, and has the claim's line. */
  ghost predicate TiedToItem(s: Ledger, id: ClaimId, c: Claim) {
    && c.payRun.Some? && c.payRun.value < |s.payRuns|
    && c.payItem.Some? && c.payItem.value in s.items
    && var item := s.items[c.payItem.value];
       && item.payRun == c.payRun.value && item.employee == c.employee && item.ready
       && PayLine(id, Total(c.lines)) in item.lines
  }

  ghost predicate DecidedBy(s: Ledger, id: ClaimId, c: Claim, status: Approvals.RunStatus) {
    && c.approvalRun.Some? && c.approvalRun.value < |s.cases|
    && s.cases[c.approvalRun.value].claim == id
    && s.cases[c.approvalRun.value].state.status == status
  }

  ghost predicate ClaimSound(s: Ledger, id: ClaimId, c: Claim) {
    && PositiveLines(c.lines)
    && (c.reimbursement != NotReady <==> c.status == ClaimStatus.Approved)
    && (c.reimbursement in {NotReady, PendingPayroll} ==> c.payRun.None? && c.payItem.None?)
    && (c.reimbursement in {Included, Paid} ==>
          && TiedToItem(s, id, c)
          && (c.reimbursement == Paid <==> s.payRuns[c.payRun.value].status == Finalized))
    && (c.status == Submitted ==> DecidedBy(s, id, c, Approvals.RunStatus.Pending))
    && (c.status == ClaimStatus.Approved ==> c.approvedAt.Some? && DecidedBy(s, id, c, Approvals.RunStatus.Approved))
  }

  ghost predicate CaseSound(s: Ledger, r: RunId, k: Case) {
    && Invariant(k.ctx, k.state)
    && k.claim < |s.claims|
    && (k.state.status.Pending? ==>
          s.claims[k.claim].status == Submitted && s.claims[k.claim].approvalRun == Some(r))
  }

  ghost predicate ItemSound(s: Ledger, i: ItemId, item: PayItem) {
    && i < s.nextItem
    && item.payRun < |s.payRuns|
    && item.reimbursed == LineSum(item.lines)
    && (forall line :: line in item.lines ==>
          && line.claim < |s.claims|
          && s.claims[line.claim].payItem == Some(i)
          && line.amount == Total(s.claims[line.claim].lines))
    && (forall j, k :: 0 <= j < k < |item.lines| ==> item.lines[j].claim != item.lines[k].claim)
  }

  ghost predicate PaymentsSound(s: Ledger) {
    && (forall j, k :: 0 <= j < k < |s.payments| ==> s.payments[j].claim != s.payments[k].claim)
    && (forall payment :: payment in s.payments ==>
          && payment.claim < |s.claims|
          && s.claims[payment.claim].reimbursement == Paid
          && payment == Payment(payment.claim, payment.item, Total(s.claims[payment.claim].lines))
          && s.claims[payment.claim].payItem == Some(payment.item))
    && (forall id: ClaimId :: id < |s.claims| && s.claims[id].reimbursement == Paid ==>
          exists payment :: payment in s.payments && payment.claim == id)
  }

  ghost predicate ClaimsSound(s: Ledger) {
    forall id: ClaimId {:trigger ClaimSound(s, id, s.claims[id])} :: id < |s.claims| ==> ClaimSound(s, id, s.claims[id])
  }

  ghost predicate CasesSound(s: Ledger) {
    forall r: RunId {:trigger CaseSound(s, r, s.cases[r])} :: r < |s.cases| ==> CaseSound(s, r, s.cases[r])
  }

  ghost predicate ItemsSound(s: Ledger) {
    forall i: ItemId {:trigger ItemSound(s, i, s.items[i])} :: i in s.items ==> ItemSound(s, i, s.items[i])
  }

  ghost predicate Sound(s: Ledger) {
    ClaimsSound(s) && CasesSound(s) && ItemsSound(s) && PaymentsSound(s)
  }

  // ----- editing and submitting

  /** A claim that is not tied to payroll may be replaced by another such claim. */
  lemma ReplacingUnpaidClaim(s: Ledger, id: ClaimId, c: Claim, next: Ledger)
    requires Sound(s) && id < |s.claims|
    requires s.claims[id].reimbursement == NotReady && c.payItem.None? && c.reimbursement in {NotReady, PendingPayroll}
    requires next == s.(claims := s.claims[id := c])
    ensures ItemsSound(next) && PaymentsSound(next)
    ensures forall i: ClaimId :: i < |s.claims| && i != id ==> ClaimSound(next, i, next.claims[i])
  {
    forall i: ClaimId | i < |s.claims| && i != id
      ensures ClaimSound(next, i, next.claims[i])
    {
      assert ClaimSound(s, i, s.claims[i]);
    }
    forall i: ItemId | i in next.items
      ensures ItemSound(next, i, next.items[i])
    {
      assert ItemSound(s, i, s.items[i]);
      assert ClaimSound(s, id, s.claims[id]);
    }
    forall other: ClaimId | other < |next.claims| && next.claims[other].reimbursement == Paid
      ensures exists payment :: payment in next.payments && payment.claim == other
    {
      assert s.claims[other].reimbursement == Paid;
    }
  }

  lemma CreatingKeepsSound(s: Ledger, organisation: nat, employee: EmployeeId, lines: seq<Line>)
    requires Sound(s) && Created(s, organisation, employee, lines).Ok?
    ensures Sound(Created(s, organisation, employee, lines).value)
  {
    var next := Created(s, organisation, employee, lines).value;
    forall id: ClaimId | id < |next.claims|
      ensures ClaimSound(next, id, next.claims[id])
    {
      if id < |s.claims| {
        assert ClaimSound(s, id, s.claims[id]);
      }
    }
    forall i: ItemId | i in next.items
      ensures ItemSound(next, i, next.items[i])
    {
      assert ItemSound(s, i, s.items[i]);
    }
    forall r: RunId | r < |next.cases|
      ensures CaseSound(next, r, next.cases[r])
    {
      assert CaseSound(s, r, s.cases[r]);
    }
    forall id: ClaimId | id < |next.claims| && next.claims[id].reimbursement == Paid
      ensures exists payment :: payment in next.payments && payment.claim == id
    {
      assert s.claims[id].reimbursement == Paid;
    }
  }

  lemma EditingKeepsSound(s: Ledger, id: ClaimId, c: Claim)
    requires Sound(s) && id < |s.claims| && Editable(s.claims[id].status)
    requires PositiveLines(c.lines) && c.status in {s.claims[id].status, ClaimStatus.Cancelled}
    requires c == s.claims[id].(lines := c.lines, status := c.status)
    ensures Sound(s.(claims := s.claims[id := c]))
  {
    var next := s.(claims := s.claims[id := c]);
    assert ClaimSound(s, id, s.claims[id]);
    ReplacingUnpaidClaim(s, id, c, next);
    forall r: RunId | r < |next.cases|
      ensures CaseSound(next, r, next.cases[r])
    {
      assert CaseSound(s, r, s.cases[r]);
    }
  }

  lemma SubmittingKeepsCases(s: Ledger, id: ClaimId, requester: EmployeeId, ctx: Approvals.RunContext,
                             env: Approvals.Environment)
    requires CasesSound(s) && Approvals.Ascending(ctx.stages) && SubmittedTo(s, id, requester, ctx, env).Ok?
    requires s.claims[id].status != Submitted
    ensures CasesSound(SubmittedTo(s, id, requester, ctx, env).value)
  {
    var next := SubmittedTo(s, id, requester, ctx, env).value;
    CreateKeepsInvariant(ctx, env);
    forall r: RunId | r < |next.cases|
      ensures CaseSound(next, r, next.cases[r])
    {
      if r < |s.cases| {
        assert CaseSound(s, r, s.cases[r]);
      }
    }
  }

  lemma SubmittingKeepsSound(s: Ledger, id: ClaimId, requester: EmployeeId, ctx: Approvals.RunContext,
                             env: Approvals.Environment)
    requires Sound(s) && Approvals.Ascending(ctx.stages) && SubmittedTo(s, id, requester, ctx, env).Ok?
    ensures Sound(SubmittedTo(s, id, requester, ctx, env).value)
  {
    var next := SubmittedTo(s, id, requester, ctx, env).value;
    var c := next.claims[id];
    assert ClaimSound(s, id, s.claims[id]);
    var replaced := s.(claims := s.claims[id := c]);
    ReplacingUnpaidClaim(s, id, c, replaced);
    ItemsAndPaymentsIgnoreCases(replaced, next);
    assert next.cases[|s.cases|] == Case(ctx, Approvals.Create(ctx, env).value, id);
    forall other: ClaimId | other < |next.claims|
      ensures ClaimSound(next, other, next.claims[other])
    {
      if other != id {
        assert ClaimSound(s, other, s.claims[other]);
      }
    }
    SubmittingKeepsCases(s, id, requester, ctx, env);
  }

  // ----- decisions on a claim's run

  /** What a step of case `r` changes: that case, and its claim if the case's status changed. */
  ghost predicate StepShape(s: Ledger, r: RunId, next: Ledger) {
    && r < |s.cases| == |next.cases| && |next.claims| == |s.claims|
    && var k, k' := s.cases[r], next.cases[r];
       && k.claim == k'.claim < |s.claims|
       && next == s.(cases := s.cases[r := k'], claims := s.claims[k.claim := next.claims[k.claim]])
       && Invariant(k'.ctx, k'.state)
       && if k'.state.status == k.state.status then next.claims[k.claim] == s.claims[k.claim]
          else && k.state.status.Pending? && !k'.state.status.Pending?
               && exists now :: next.claims[k.claim] == OnStatusChange(s.claims[k.claim], k'.state.status, now)
  }

  lemma DecidingHasStepShape(s: Ledger, r: RunId, env: Approvals.Environment, step: Approvals.Step)
    requires Sound(s) && Decided(s, r, env, step).Ok?
    ensures StepShape(s, r, Decided(s, r, env, step).value)
  {
    var k := s.cases[r];
    assert CaseSound(s, r, k);
    StepKeepsInvariant(k.ctx, k.state, env, step);
  }

  lemma DecidingKeepsClaims(s: Ledger, r: RunId, next: Ledger)
    requires Sound(s) && StepShape(s, r, next)
    ensures ClaimsSound(next)
  {
    assert CaseSound(s, r, s.cases[r]);
    forall other: ClaimId | other < |next.claims|
      ensures ClaimSound(next, other, next.claims[other])
    {
      assert ClaimSound(s, other, s.claims[other]);
    }
  }

  lemma DecidingKeepsCases(s: Ledger, r: RunId, next: Ledger)
    requires Sound(s) && StepShape(s, r, next)
    ensures CasesSound(next)
  {
    assert CaseSound(s, r, s.cases[r]);
    forall other: RunId | other < |next.cases|
      ensures CaseSound(next, other, next.cases[other])
    {
      assert CaseSound(s, other, s.cases[other]);
    }
  }

  lemma DecidingKeepsSound(s: Ledger, r: RunId, env: Approvals.Environment, step: Approvals.Step)
    requires Sound(s) && Decided(s, r, env, step).Ok?
    ensures Sound(Decided(s, r, env, step).value)
  {
    var next := Decided(s, r, env, step).value;
    DecidingHasStepShape(s, r, env, step);
    StepShapeKeepsSound(s, r, next);
  }

  lemma StepShapeKeepsSound(s: Ledger, r: RunId, next: Ledger)
    requires Sound(s) && StepShape(s, r, next)
    ensures Sound(next)
  {
    DecidingKeepsClaims(s, r, next);
    DecidingKeepsCases(s, r, next);
    assert CaseSound(s, r, s.cases[r]);
    var id := s.cases[r].claim;
    assert ClaimSound(s, id, s.claims[id]);
    if next.claims[id] != s.claims[id] {
      ReplacingUnpaidClaim(s, id, next.claims[id], s.(claims := s.claims[id := next.claims[id]]));
    } else {
      assert next.claims == s.claims;
    }
    ItemsAndPaymentsIgnoreCases(s.(claims := next.claims), next);
  }

  lemma ItemsAndPaymentsIgnoreCases(s: Ledger, next: Ledger)
    requires ItemsSound(s) && PaymentsSound(s) && next == s.(cases := next.cases)
    ensures ItemsSound(next) && PaymentsSound(next)
  {
    forall i: ItemId | i in next.items
      ensures ItemSound(next, i, next.items[i])
    {
      assert ItemSound(s, i, s.items[i]);
    }
  }

  // ----- calculating a pay run

  /** Under a sound ledger, clearing a pay run that is not finalized sends its claims back and touches no other. */
  lemma ClearedClaims(s: Ledger, p: PayRunId)
    requires Sound(s) && p < |s.payRuns| && s.payRuns[p].status != Finalized
    ensures Cleared(s, p).claims == ResetClaims(s.claims, p)
    ensures forall id: ClaimId :: id < |s.claims| ==>
              Cleared(s, p).claims[id] ==
                if s.claims[id].payRun == Some(p) then
                  s.claims[id].(reimbursement := PendingPayroll, payRun := None, payItem := None)
                else s.claims[id]
  {
    var gone := ItemsOf(s, p);
    var reset := ResetClaims(s.claims, p);
    forall id: ClaimId | id < |s.claims|
      ensures DetachClaims(reset, gone)[id] == reset[id]
      ensures reset[id] == if s.claims[id].payRun == Some(p)
                           then s.claims[id].(reimbursement := PendingPayroll, payRun := None, payItem := None)
                           else s.claims[id]
    {
      assert ClaimSound(s, id, s.claims[id]);
    }
    assert DetachClaims(reset, gone) == reset;
  }

  lemma ClearingKeepsSound(s: Ledger, p: PayRunId)
    requires Sound(s) && p < |s.payRuns| && s.payRuns[p].status != Finalized
    ensures Sound(Cleared(s, p))
    ensures forall id: ClaimId :: id < |s.claims| ==> Cleared(s, p).claims[id].payRun != Some(p)
    ensures forall i: ItemId :: i in Cleared(s, p).items ==> Cleared(s, p).items[i].payRun != p
  {
    var next := Cleared(s, p);
    ClearedClaims(s, p);
    forall id: ClaimId | id < |next.claims|
      ensures ClaimSound(next, id, next.claims[id])
    {
      assert ClaimSound(s, id, s.claims[id]);
    }
    forall r: RunId | r < |next.cases|
      ensures CaseSound(next, r, next.cases[r])
    {
      assert CaseSound(s, r, s.cases[r]);
    }
    forall i: ItemId | i in next.items
      ensures ItemSound(next, i, next.items[i])
    {
      ClearingKeepsItem(s, p, i);
    }
    ClearingKeepsPayments(s, p);
  }

  lemma ClearingKeepsItem(s: Ledger, p: PayRunId, i: ItemId)
    requires Sound(s) && p < |s.payRuns| && s.payRuns[p].status != Finalized
    requires i in s.items && s.items[i].payRun != p
    ensures ItemSound(Cleared(s, p), i, s.items[i])
  {
    ClearedClaims(s, p);
    assert ItemSound(s, i, s.items[i]);
    forall line | line in s.items[i].lines
      ensures Cleared(s, p).claims[line.claim] == s.claims[line.claim]
    {
      assert ClaimSound(s, line.claim, s.claims[line.claim]);
    }
  }

  lemma ClearingKeepsPayments(s: Ledger, p: PayRunId)
    requires Sound(s) && p < |s.payRuns| && s.payRuns[p].status != Finalized
    ensures PaymentsSound(Cleared(s, p))
  {
    var next := Cleared(s, p);
    ClearedClaims(s, p);
    forall id: ClaimId | id < |s.claims|
      ensures s.claims[id].reimbursement == Paid ==> next.claims[id] == s.claims[id]
      ensures next.claims[id].reimbursement == Paid ==> s.claims[id].reimbursement == Paid
    {
      assert ClaimSound(s, id, s.claims[id]);
    }
    assert PaymentsSound(s);
  }

  lemma {:induction false} LinesOfClaims(claims: seq<Claim>, ids: seq<ClaimId>)
    requires InRange(claims, ids) && Distinct(ids)
    ensures var lines := PayLines(claims, ids);
            && (forall line :: line in lines ==> line.claim in ids && line.amount == Total(claims[line.claim].lines))
            && (forall id :: id in ids && Total(claims[id].lines) > 0 ==> PayLine(id, Total(claims[id].lines)) in lines)
            && (forall j, k :: 0 <= j < k < |lines| ==> lines[j].claim != lines[k].claim)
  {
    if ids != [] {
      var last := |ids| - 1;
      LinesOfClaims(claims, ids[..last]);
      assert ids == ids[..last] + [ids[last]];
      assert ids[last] !in ids[..last];
    }
  }

  /** What including an employee's pending claims in a new item changes. */
  lemma ItemShape(s: Ledger, p: PayRunId, entry: StaffEntry)
    requires p < |s.payRuns|
    ensures var next := WithItem(s, p, entry);
            var item := next.items[s.nextItem];
            && next == s.(claims := next.claims, items := s.items[s.nextItem := item], nextItem := s.nextItem + 1)
            && item.payRun == p && item.employee == entry.employee && item.ready == entry.ready
            && item.reimbursed == LineSum(item.lines)
            && |next.claims| == |s.claims|
            && forall id: ClaimId :: id < |s.claims| ==>
                 next.claims[id] ==
                   if entry.ready && IsPending(s.claims[id], s.payRuns[p], entry.employee)
                   then s.claims[id].(reimbursement := Included, payRun := Some(p), payItem := Some(s.nextItem))
                   else s.claims[id]
  {
  }

  lemma NewItemKeepsClaims(s: Ledger, p: PayRunId, entry: StaffEntry)
    requires Sound(s) && p < |s.payRuns| && s.payRuns[p].status != Finalized
    ensures ClaimsSound(WithItem(s, p, entry))
  {
    var next := WithItem(s, p, entry);
    ItemShape(s, p, entry);
    var ids := if entry.ready then PendingClaimIds(s.claims, s.payRuns[p], entry.employee) else [];
    LinesOfClaims(s.claims, ids);
    forall id: ClaimId | id < |next.claims|
      ensures ClaimSound(next, id, next.claims[id])
    {
      assert ClaimSound(s, id, s.claims[id]);
      PositiveTotal(s.claims[id].lines);
      OldItemsStay(s, p, entry, id);
    }
  }

  lemma OldItemsStay(s: Ledger, p: PayRunId, entry: StaffEntry, id: ClaimId)
    requires Sound(s) && p < |s.payRuns| && id < |s.claims|
    ensures s.claims[id].reimbursement in {Included, Paid} ==>
              var i := s.claims[id].payItem;
              i.Some? && i.value in s.items && i.value != s.nextItem
  {
    assert ClaimSound(s, id, s.claims[id]);
    if s.claims[id].reimbursement in {Included, Paid} {
      var i := s.claims[id].payItem.value;
      assert ItemSound(s, i, s.items[i]);
    }
  }

  lemma NewItemKeepsItems(s: Ledger, p: PayRunId, entry: StaffEntry)
    requires Sound(s) && p < |s.payRuns| && s.payRuns[p].status != Finalized
    ensures ItemsSound(WithItem(s, p, entry))
  {
    var next := WithItem(s, p, entry);
    ItemShape(s, p, entry);
    var ids := if entry.ready then PendingClaimIds(s.claims, s.payRuns[p], entry.employee) else [];
    LinesOfClaims(s.claims, ids);
    forall i: ItemId | i in next.items
      ensures ItemSound(next, i, next.items[i])
    {
      if i == s.nextItem {
        assert next.items[i].lines == PayLines(s.claims, ids);
      } else {
        NewItemKeepsItem(s, p, entry, i);
      }
    }
  }

  lemma NewItemKeepsItem(s: Ledger, p: PayRunId, entry: StaffEntry, i: ItemId)
    requires Sound(s) && p < |s.payRuns| && s.payRuns[p].status != Finalized && i in s.items && i != s.nextItem
    ensures ItemSound(WithItem(s, p, entry), i, WithItem(s, p, entry).items[i])
  {
    var next := WithItem(s, p, entry);
    ItemShape(s, p, entry);
    assert ItemSound(s, i, s.items[i]);
    forall line | line in s.items[i].lines
      ensures next.claims[line.claim] == s.claims[line.claim]
    {
      assert ClaimSound(s, line.claim, s.claims[line.claim]);
    }
  }

  lemma NewItemKeepsSound(s: Ledger, p: PayRunId, entry: StaffEntry)
    requires Sound(s) && p < |s.payRuns| && s.payRuns[p].status != Finalized
    ensures Sound(WithItem(s, p, entry))
  {
    var next := WithItem(s, p, entry);
    ItemShape(s, p, entry);
    NewItemKeepsClaims(s, p, entry);
    NewItemKeepsItems(s, p, entry);
    forall r: RunId | r < |next.cases|
      ensures CaseSound(next, r, next.cases[r])
    {
      assert CaseSound(s, r, s.cases[r]);
    }
    forall id: ClaimId | id < |s.claims|
      ensures s.claims[id].reimbursement == Paid ==> next.claims[id] == s.claims[id]
      ensures next.claims[id].reimbursement == Paid ==> s.claims[id].reimbursement == Paid
    {
    }
    assert PaymentsSound(s);
  }

  lemma {:induction false} NewItemsKeepSound(s: Ledger, p: PayRunId, staff: seq<StaffEntry>)
    requires Sound(s) && p < |s.payRuns| && s.payRuns[p].status != Finalized
    ensures Sound(WithItems(s, p, staff))
    decreases |staff|
  {
    if staff != [] {
      NewItemsKeepSound(s, p, staff[..|staff| - 1]);
      NewItemKeepsSound(WithItems(s, p, staff[..|staff| - 1]), p, staff[|staff| - 1]);
    }
  }

  /** A pay run may move between states that are not final. */
  lemma MovingPayRunKeepsSound(s: Ledger, p: PayRunId, run: PayRun)
    requires Sound(s) && p < |s.payRuns| && s.payRuns[p].status != Finalized && run.status != Finalized
    ensures Sound(s.(payRuns := s.payRuns[p := run]))
  {
    var next := s.(payRuns := s.payRuns[p := run]);
    forall id: ClaimId | id < |next.claims|
      ensures ClaimSound(next, id, next.claims[id])
    {
      assert ClaimSound(s, id, s.claims[id]);
    }
    forall r: RunId | r < |next.cases|
      ensures CaseSound(next, r, next.cases[r])
    {
      assert CaseSound(s, r, s.cases[r]);
    }
    forall i: ItemId | i in next.items
      ensures ItemSound(next, i, next.items[i])
    {
      assert ItemSound(s, i, s.items[i]);
    }
    assert PaymentsSound(s);
  }

  lemma CalculatingKeepsSound(s: Ledger, p: PayRunId, staff: seq<StaffEntry>)
    requires Sound(s) && CalculatedRun(s, p, staff).Ok?
    ensures Sound(CalculatedRun(s, p, staff).value)
  {
    ClearingKeepsSound(s, p);
    NewItemsKeepSound(Cleared(s, p), p, staff);
    var next := WithItems(Cleared(s, p), p, staff);
    MovingPayRunKeepsSound(next, p, next.payRuns[p].(status := Calculated));
  }

  // ----- finalizing a pay run

  lemma {:induction false} NewPayments(s: Ledger, p: PayRunId, n: nat)
    requires n <= |s.claims|
    ensures var added := PaymentsFor(s, p, n);
            && (forall payment :: payment in added ==>
                  && payment.claim < n && Payable(s, s.claims[payment.claim], p)
                  && s.claims[payment.claim].payItem == Some(payment.item)
                  && payment.amount == Total(s.claims[payment.claim].lines))
            && (forall id: ClaimId :: id < n && Payable(s, s.claims[id], p) ==>
                  exists payment :: payment in added && payment.claim == id)
            && (forall j, k :: 0 <= j < k < |added| ==> added[j].claim != added[k].claim)
  {
    if n > 0 {
      NewPayments(s, p, n - 1);
      var before := PaymentsFor(s, p, n - 1);
      var added := PaymentsFor(s, p, n);
      assert before <= added;
      forall id: ClaimId | id < n && Payable(s, s.claims[id], p)
        ensures exists payment :: payment in added && payment.claim == id
      {
        if id == n - 1 {
          assert added[|added| - 1].claim == id;
        } else {
          var payment :| payment in before && payment.claim == id;
          assert payment in added;
        }
      }
    }
  }

  lemma FinalizingKeepsClaims(s: Ledger, p: PayRunId, skipApproval: bool)
    requires Sound(s) && FinalizedRun(s, p, skipApproval).Ok?
    ensures ClaimsSound(FinalizedRun(s, p, skipApproval).value)
  {
    var next := FinalizedRun(s, p, skipApproval).value;
    forall id: ClaimId | id < |next.claims|
      ensures ClaimSound(next, id, next.claims[id])
    {
      assert ClaimSound(s, id, s.claims[id]);
    }
  }

  lemma FinalizingKeepsPayments(s: Ledger, p: PayRunId, skipApproval: bool)
    requires Sound(s) && FinalizedRun(s, p, skipApproval).Ok?
    ensures PaymentsSound(FinalizedRun(s, p, skipApproval).value)
  {
    var next := FinalizedRun(s, p, skipApproval).value;
    var added := PaymentsFor(s, p, |s.claims|);
    NewPayments(s, p, |s.claims|);
    assert forall j :: 0 <= j < |added| ==> added[j] in added;
    assert forall j :: 0 <= j < |s.payments| ==> s.payments[j] in s.payments;
    forall id: ClaimId | id < |next.claims| && next.claims[id].reimbursement == Paid
      ensures exists payment :: payment in next.payments && payment.claim == id
    {
      if s.claims[id].reimbursement == Paid {
        var payment :| payment in s.payments && payment.claim == id;
        assert payment in next.payments;
      } else {
        var payment :| payment in added && payment.claim == id;
        assert payment in next.payments;
      }
    }
  }

  lemma FinalizingKeepsSound(s: Ledger, p: PayRunId, skipApproval: bool)
    requires Sound(s) && FinalizedRun(s, p, skipApproval).Ok?
    ensures Sound(FinalizedRun(s, p, skipApproval).value)
  {
    var next := FinalizedRun(s, p, skipApproval).value;
    FinalizingKeepsClaims(s, p, skipApproval);
    FinalizingKeepsPayments(s, p, skipApproval);
    forall r: RunId | r < |next.cases|
      ensures CaseSound(next, r, next.cases[r])
    {
      assert CaseSound(s, r, s.cases[r]);
    }
    forall i: ItemId | i in next.items
      ensures ItemSound(next, i, next.items[i])
    {
      assert ItemSound(s, i, s.items[i]);
    }
  }

  // ----- whole histories

  datatype Operation =
    | CreateClaim(organisation: nat, employee: EmployeeId, lines: seq<Line>)
    | UpdateClaim(id: ClaimId, requester: EmployeeId, lines: seq<Line>)
    | SubmitClaim(id: ClaimId, requester: EmployeeId, ctx: Approvals.RunContext, env: Approvals.Environment)
    | CancelClaim(id: ClaimId, requester: EmployeeId)
    | Decide(run: RunId, env: Approvals.Environment, step: Approvals.Step)
    | OpenPayRun(organisation: nat, regular: bool)
    | MovePayRun(p: PayRunId, status: PayRunStatus)
    | Calculate(p: PayRunId, staff: seq<StaffEntry>)
    | Finalize(p: PayRunId, skipApproval: bool)

  function Attempted(s: Ledger, op: Operation): Outcome {
    match op
    case CreateClaim(organisation, employee, lines) => Created(s, organisation, employee, lines)
    case UpdateClaim(id, requester, lines) => Updated(s, id, requester, lines)
    case SubmitClaim(id, requester, ctx, env) => SubmittedTo(s, id, requester, ctx, env)
    case CancelClaim(id, requester) => CancelledByOwner(s, id, requester)
    case Decide(run, env, step) => Decided(s, run, env, step)
    case OpenPayRun(organisation, regular) => PayRunOpened(s, organisation, regular)
    case MovePayRun(p, status) => PayRunMoved(s, p, status)
    case Calculate(p, staff) => CalculatedRun(s, p, staff)
    case Finalize(p, skipApproval) => FinalizedRun(s, p, skipApproval)
  }

  /** A failed operation is rolled back. */
  function After(s: Ledger, op: Operation): Ledger {
    if Attempted(s, op).Ok? then Attempted(s, op).value else s
  }

  function AfterAll(s: Ledger, ops: seq<Operation>): Ledger
    decreases |ops|
  {
    if ops == [] then s else AfterAll(After(s, ops[0]), ops[1..])
  }

  /** Claims are submitted to workflows, whose stages have unique sequence numbers. */
  predicate WellFormed(op: Operation) {
    op.SubmitClaim? ==> Approvals.Ascending(op.ctx.stages)
  }

  const EMPTY := Ledger([], [], [], map[], 0, [])

  lemma OpeningKeepsSound(s: Ledger, organisation: nat, regular: bool)
    requires Sound(s)
    ensures Sound(PayRunOpened(s, organisation, regular).value)
  {
    var next := PayRunOpened(s, organisation, regular).value;
    forall id: ClaimId | id < |next.claims|
      ensures ClaimSound(next, id, next.claims[id])
    {
      assert ClaimSound(s, id, s.claims[id]);
    }
    forall r: RunId | r < |next.cases|
      ensures CaseSound(next, r, next.cases[r])
    {
      assert CaseSound(s, r, s.cases[r]);
    }
    forall i: ItemId | i in next.items
      ensures ItemSound(next, i, next.items[i])
    {
      assert ItemSound(s, i, s.items[i]);
    }
    assert PaymentsSound(s);
  }

  lemma OperationKeepsSound(s: Ledger, op: Operation)
    requires Sound(s) && WellFormed(op)
    ensures Sound(After(s, op))
  {
    if Attempted(s, op).Ok? {
      match op
      case CreateClaim(organisation, employee, lines) => CreatingKeepsSound(s, organisation, employee, lines);
      case UpdateClaim(id, requester, lines) => EditingKeepsSound(s, id, s.claims[id].(lines := lines));
      case SubmitClaim(id, requester, ctx, env) => SubmittingKeepsSound(s, id, requester, ctx, env);
      case CancelClaim(id, requester) =>
        assert ClaimSound(s, id, s.claims[id]);
        EditingKeepsSound(s, id, s.claims[id].(status := ClaimStatus.Cancelled));
      case Decide(run, env, step) => DecidingKeepsSound(s, run, env, step);
      case OpenPayRun(organisation, regular) => OpeningKeepsSound(s, organisation, regular);
      case MovePayRun(p, status) => MovingPayRunKeepsSound(s, p, s.payRuns[p].(status := status));
      case Calculate(p, staff) => CalculatingKeepsSound(s, p, staff);
      case Finalize(p, skipApproval) => FinalizingKeepsSound(s, p, skipApproval);
    }
  }

  /** Every history from an empty ledger stays sound. */
  lemma {:induction false} HistoryKeepsSound(s: Ledger, ops: seq<Operation>)
    requires Sound(s) && forall i :: 0 <= i < |ops| ==> WellFormed(ops[i])
    ensures Sound(AfterAll(s, ops))
    decreases |ops|
  {
    if ops != [] {
      OperationKeepsSound(s, ops[0]);
      HistoryKeepsSound(After(s, ops[0]), ops[1..]);
    }
  }

  lemma {:induction false} CalculatingKeepsPaid(s: Ledger, p: PayRunId, staff: seq<StaffEntry>, id: ClaimId)
    requires p < |s.payRuns| && id < |s.claims| && s.claims[id].reimbursement == Paid
    ensures |WithItems(s, p, staff).claims| == |s.claims| && WithItems(s, p, staff).claims[id] == s.claims[id]
    decreases |staff|
  {
    if staff != [] {
      var before := WithItems(s, p, staff[..|staff| - 1]);
      CalculatingKeepsPaid(s, p, staff[..|staff| - 1], id);
      ItemShape(before, p, staff[|staff| - 1]);
    }
  }

  lemma ClearingKeepsPaid(s: Ledger, p: PayRunId, id: ClaimId)
    requires Sound(s) && p < |s.payRuns| && s.payRuns[p].status != Finalized
    requires id < |s.claims| && s.claims[id].reimbursement == Paid
    ensures |Cleared(s, p).claims| == |s.claims| && Cleared(s, p).claims[id] == s.claims[id]
  {
    ClearedClaims(s, p);
    assert ClaimSound(s, id, s.claims[id]);
  }

  lemma DecidingKeepsPaid(s: Ledger, r: RunId, env: Approvals.Environment, step: Approvals.Step, id: ClaimId)
    requires Sound(s) && Decided(s, r, env, step).Ok?
    requires id < |s.claims| && s.claims[id].reimbursement == Paid
    ensures var next := Decided(s, r, env, step).value;
            id < |next.claims| && next.claims[id] == s.claims[id]
  {
    assert ClaimSound(s, id, s.claims[id]);
    assert CaseSound(s, r, s.cases[r]);
    DecidingHasStepShape(s, r, env, step);
  }

  /** No operation touches a claim that has been paid. */
  lemma OperationKeepsPaid(s: Ledger, op: Operation, id: ClaimId)
    requires Sound(s) && id < |s.claims| && s.claims[id].reimbursement == Paid
    ensures var next := After(s, op);
            id < |next.claims| && next.claims[id] == s.claims[id]
  {
    if Attempted(s, op).Err? {
    } else if op.Decide? {
      DecidingKeepsPaid(s, op.run, op.env, op.step, id);
    } else if op.Calculate? {
      ClearingKeepsPaid(s, op.p, id);
      CalculatingKeepsPaid(Cleared(s, op.p), op.p, op.staff, id);
    } else {
      assert ClaimSound(s, id, s.claims[id]);
    }
  }

  lemma {:induction false} ItemsKeepPayments(s: Ledger, p: PayRunId, staff: seq<StaffEntry>)
    requires p < |s.payRuns|
    ensures WithItems(s, p, staff).payments == s.payments
    decreases |staff|
  {
    if staff != [] {
      ItemsKeepPayments(s, p, staff[..|staff| - 1]);
    }
  }

  lemma PaymentsOnlyGrow(s: Ledger, op: Operation)
    ensures s.payments <= After(s, op).payments
  {
    if op.Calculate? && Attempted(s, op).Ok? {
      ItemsKeepPayments(Cleared(s, op.p), op.p, op.staff);
    }
  }

  /** Once paid, a claim never changes again, whatever is submitted, decided, recalculated or finalized. */
  lemma {:induction false} PaidIsForever(s: Ledger, ops: seq<Operation>, id: ClaimId)
    requires Sound(s) && forall i :: 0 <= i < |ops| ==> WellFormed(ops[i])
    requires id < |s.claims| && s.claims[id].reimbursement == Paid
    ensures id < |AfterAll(s, ops).claims| && AfterAll(s, ops).claims[id] == s.claims[id]
    ensures s.payments <= AfterAll(s, ops).payments
    decreases |ops|
  {
    if ops != [] {
      OperationKeepsPaid(s, ops[0], id);
      OperationKeepsSound(s, ops[0]);
      PaymentsOnlyGrow(s, ops[0]);
      PaidIsForever(After(s, ops[0]), ops[1..], id);
    }
  }

  /**
   Over any history a claim is paid out at most once, and then for its total; a claim that is
   included or paid was approved by a run that is approved, and belongs to one item of one pay run,
   which carries its line.
   */
  lemma PaidAtMostOnce(ops: seq<Operation>)
    requires forall i :: 0 <= i < |ops| ==> WellFormed(ops[i])
    ensures var s := AfterAll(EMPTY, ops);
            && (forall j, k :: 0 <= j < k < |s.payments| ==> s.payments[j].claim != s.payments[k].claim)
            && (forall payment :: payment in s.payments ==>
                  && payment.claim < |s.claims|
                  && s.claims[payment.claim].reimbursement == Paid
                  && payment.amount == Total(s.claims[payment.claim].lines))
            && (forall id: ClaimId :: id < |s.claims| && s.claims[id].reimbursement in {Included, Paid} ==>
                  && s.claims[id].status == ClaimStatus.Approved
                  && DecidedBy(s, id, s.claims[id], Approvals.RunStatus.Approved)
                  && TiedToItem(s, id, s.claims[id]))
  {
    assert Sound(EMPTY);
    HistoryKeepsSound(EMPTY, ops);
    var s := AfterAll(EMPTY, ops);
    forall id: ClaimId | id < |s.claims| && s.claims[id].reimbursement in {Included, Paid}
      ensures s.claims[id].status == ClaimStatus.Approved
      ensures DecidedBy(s, id, s.claims[id], Approvals.RunStatus.Approved) && TiedToItem(s, id, s.claims[id])
    {
      assert ClaimSound(s, id, s.claims[id]);
    }
  }

  /** Behind every claim that was included or paid stands an approval in each stage of its workflow. */
  lemma PaidClaimWasDischarged(s: Ledger, id: ClaimId, stage: Approvals.Stage)
    requires Sound(s) && id < |s.claims| && s.claims[id].reimbursement in {Included, Paid}
    ensures DecidedBy(s, id, s.claims[id], Approvals.RunStatus.Approved)
    ensures var k := s.cases[s.claims[id].approvalRun.value];
            stage in k.ctx.stages ==>
              exists i :: 0 <= i < |k.state.actions| && k.state.actions[i].stage == stage
                && k.state.actions[i].status.Approved?
  {
    assert ClaimSound(s, id, s.claims[id]);
    var r := s.claims[id].approvalRun.value;
    assert CaseSound(s, r, s.cases[r]);
    if stage in s.cases[r].ctx.stages {
      assert Passed(s.cases[r].state.actions, stage);
    }
  }

  predicate InFinalizedRun(s: Ledger, i: ItemId) {
    i in s.items && s.items[i].payRun < |s.payRuns| && s.payRuns[s.items[i].payRun].status == Finalized
  }

  /** The lines of a finalized pay run are exactly its payments. */
  lemma FinalizedLinesArePaid(s: Ledger, i: ItemId)
    requires Sound(s) && InFinalizedRun(s, i)
    ensures forall line :: line in s.items[i].lines <==> Payment(line.claim, i, line.amount) in s.payments
  {
    assert ItemSound(s, i, s.items[i]);
    forall line | line in s.items[i].lines
      ensures Payment(line.claim, i, line.amount) in s.payments
    {
      assert ClaimSound(s, line.claim, s.claims[line.claim]);
      var payment :| payment in s.payments && payment.claim == line.claim;
    }
    forall line: PayLine | Payment(line.claim, i, line.amount) in s.payments
      ensures line in s.items[i].lines
    {
      assert ClaimSound(s, line.claim, s.claims[line.claim]);
    }
  }

  // ----- including and resetting

  lemma {:induction false} LinesSumToTotals(claims: seq<Claim>, ids: seq<ClaimId>)
    requires InRange(claims, ids)
    requires forall i :: 0 <= i < |ids| ==> PositiveLines(claims[ids[i]].lines)
    ensures LineSum(PayLines(claims, ids)) == ClaimSum(claims, ids) && |PayLines(claims, ids)| == |ids|
  {
    if ids != [] {
      var last := |ids| - 1;
      LinesSumToTotals(claims, ids[..last]);
      PositiveTotal(claims[ids[last]].lines);
      var lines := PayLines(claims, ids);
      assert lines[..|lines| - 1] == PayLines(claims, ids[..last]);
    }
  }

  /** A new item reimburses the sum of all the claims of its employee that were pending. */
  lemma ItemReimbursesPendingClaims(s: Ledger, p: PayRunId, entry: StaffEntry)
    requires Sound(s) && p < |s.payRuns| && entry.ready
    ensures WithItem(s, p, entry).items[s.nextItem].reimbursed
         == ClaimSum(s.claims, PendingClaimIds(s.claims, s.payRuns[p], entry.employee))
  {
    var ids := PendingClaimIds(s.claims, s.payRuns[p], entry.employee);
    forall i | 0 <= i < |ids|
      ensures PositiveLines(s.claims[ids[i]].lines)
    {
      assert ClaimSound(s, ids[i], s.claims[ids[i]]);
    }
    LinesSumToTotals(s.claims, ids);
  }

  /** `c` is as before, or was pending and is now included in the pay run. */
  predicate UnchangedOrIncluded(before: Claim, c: Claim, p: PayRunId) {
    || c == before
    || (&& before.reimbursement == PendingPayroll && before.payRun.None? && before.payItem.None?
        && c == before.(reimbursement := Included, payRun := Some(p), payItem := c.payItem))
  }

  lemma {:induction false} ItemsOnlyInclude(s: Ledger, p: PayRunId, staff: seq<StaffEntry>)
    requires Sound(s) && p < |s.payRuns|
    ensures |WithItems(s, p, staff).claims| == |s.claims|
    ensures forall id: ClaimId :: id < |s.claims| ==>
              UnchangedOrIncluded(s.claims[id], WithItems(s, p, staff).claims[id], p)
    decreases |staff|
  {
    if staff != [] {
      var before := WithItems(s, p, staff[..|staff| - 1]);
      ItemsOnlyInclude(s, p, staff[..|staff| - 1]);
      ItemShape(before, p, staff[|staff| - 1]);
      forall id: ClaimId | id < |s.claims|
        ensures UnchangedOrIncluded(s.claims[id], WithItems(s, p, staff).claims[id], p)
      {
        assert ClaimSound(s, id, s.claims[id]);
        assert UnchangedOrIncluded(s.claims[id], before.claims[id], p);
      }
    }
  }

  /**
   Including claims in a pay run and then clearing the run restores every claim, for any staff
   list; so recalculating a run starts from the same pending claims each time.
   */
  lemma ClearingUndoesIncluding(s: Ledger, p: PayRunId, staff: seq<StaffEntry>)
    requires Sound(s) && p < |s.payRuns| && s.payRuns[p].status != Finalized
    requires forall id: ClaimId :: id < |s.claims| ==> s.claims[id].payRun != Some(p)
    ensures Cleared(WithItems(s, p, staff), p).claims == s.claims
  {
    var included := WithItems(s, p, staff);
    NewItemsKeepSound(s, p, staff);
    ItemsOnlyInclude(s, p, staff);
    ClearedClaims(included, p);
    forall id: ClaimId | id < |s.claims|
      ensures Cleared(included, p).claims[id] == s.claims[id]
    {
      assert UnchangedOrIncluded(s.claims[id], included.claims[id], p);
    }
  }
}
