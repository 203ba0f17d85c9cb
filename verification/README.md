# Verified model of the HR services

This project models, in Dafny, the parts of the HR backend that carry state machines and graph
algorithms, and proves properties of them over every input, every organisation and every history.
Paths below are relative to the repository root.

* **Approval runs** (`ApproverResolution`, `ApproverKinds`, `WorkflowSelection`, `ApprovalRuns`,
  `ApprovalSteps`, `ApprovalInvariant`, `ApprovalTheorems`, `ApprovalHistory`, `ApprovalRunObject`,
  `EscalationPass`, `EscalationExamples`, `WorkflowSimulation`, `OwnRequests`). A run walks the stages of its
  workflow; each stage holds one action per approver in ALL or ANY mode. A state is the run's
  status, its current stage and its action rows, in order of creation. Every function from a state
  to a result is one database transaction; a failed one leaves the state alone. The theorems range
  over traces: any mix of approve, reject, cancel and escalate attempts, each with its own
  organisation data, clock and licence guard. `ApprovalRunObject.ApprovalRun` is the row that the
  services update in place; each of its methods is proved against the step it performs, and the
  escalation job of `EscalationPass` runs over any number of such rows. Escalation passes a duty to
  a new action or to one that is already pending. No column records the second kind, so the state
  carries the list of hand-offs as a history variable.
* **Delegations** (`Delegations`). The table of delegations and the stack search that keeps the
  active ones free of loops.
* **Reporting graph** (`PointerGraph`, `Employees`, `OrgChartCycles`, `OrgChartTree`,
  `ReportingTeam`, `ChartFacts`). The cycle search, the chart and the team collection over the same manager
  pointers, which may be cyclic or dangle, and the lemmas that make the three agree.
* **Departments** (`Departments`). The hierarchy under creation, editing and deactivation.
* **Attendance** (`AttendanceDay`, `DayDecisions`, `Punches`, `AttendanceSheets`,
  `SheetFacts`). One day's record, the payroll totals, punching
  in and out, and the two spreadsheet imports. Instants are seconds in one zone, dates are day
  numbers, fractions of a day are counted in halves.
* **Expenses** (`Expenses`, `ExpenseSteps`, `ExpenseProofs`, `ExpenseLedger`). Claims, the approval runs that decide
  them (the runs of `ApprovalRuns`), and the pay runs that include and pay them.
* **Fresh codes** (`FreshCodes`). The unbounded searches for an employee code and a role code.

Where the code does something its documentation or a reader would not expect, the model follows the
code and a lemma says exactly when:

* a due escalation fails exactly when the person it goes to already has a decided action in the
  stage (`EscalationFailsIff`), which happens in runs that can be reached (`EscalationCanFail`). One
  such action ends the whole job: a pass succeeds if and only if it meets none, as seen before it
  starts (`PassSucceedsIff`); otherwise what is due from there on stays due
  (`PassStopsAtFirstBlocked`), also in other runs (`OneRunCanStarveAnother`);
* outside the payroll kinds a run can still name its requester, exactly when some stage, up to which
  all stages have approvers, turns to the requester by its delegated fallback or by an active
  escalation policy (`OwnRequestIff`), and the requester may then approve
  (`RequesterCanApproveOwnLeave`);
* a half-day leave lowers a day's pay exactly when it displaces a full work-from-home day on which
  the employee punched (`LeaveLowersPayIff`, `HalfDayLeaveCanCostPay`), and an on-duty request can
  lower it in two ways (`DutyLowersPayIff`, `HalfDayDutyCanCostPay`, `SecondDutyCanCostPay`);
* after the first check-out of a day, further check-ins are not refused any more
  (`PunchingRefusedIff`, `RepeatedCheckInIsRecorded`); with an override the override alone decides
  (`RefusedPunchIff`);
* the loop check holds inactive delegations to the rule of active ones, although storing an inactive
  row never makes a loop (`RefusalIsNecessaryIff`, `InactiveRowIsRefused`);
* the workbook of a punch sheet without one readable punch is itself refused as empty
  (`EmptyWorkbookIff`);
* `Department` has no `head` column, so a department head is always the holder of the scoped role.

## Model

| member | source | states |
|---|---|---|
| ApproverResolution.FindManagerAtLevel | backend/apps/approvals/services.py:305-313 | climbing level by level, at least once, finds the manager that many links up, or nobody if the chain is shorter |
| ApproverResolution.GetActiveDelegation | backend/apps/approvals/services.py:215-230 | the first row of the ordered table that is in force for the approver and the kind, or none if no row is |
| ApproverResolution.LatestDelegationWins | backend/apps/approvals/services.py:227-229 | the delegation applied starts no earlier than any other one in force, and comes first in the table among those in force, so that the newest wins among equals |
| ApproverResolution.ResolveAssignmentWithDelegation | backend/apps/approvals/services.py:379-403 | an approver with a delegation in force is replaced by the delegate and kept as the original approver |
| ApproverResolution.ResolveStageApprovers | backend/apps/approvals/services.py:411-480 | candidates in order, the requester replaced by the fallback, duplicates dropped, the fallback alone if nobody is left |
| ApproverResolution.ApproversAreDistinct | backend/apps/approvals/services.py:466-473 | no user is asked twice in a stage, for any roster, delegations and fallback |
| ApproverResolution.FirstAssignmentIsKept | backend/apps/approvals/services.py:466-473 | of several assignments to one user the first one is kept |
| ApproverResolution.RequesterOnlyThroughFallback | backend/apps/approvals/services.py:450-464 | outside the payroll kinds the requester is asked only where the stage's fallback, after delegation, is the requester |
| ApproverResolution.RequesterIsAskedIff | backend/apps/approvals/services.py:450-480 | outside the payroll kinds a stage asks the requester if and only if its delegated fallback is the requester and it has no candidate at all, or one who is the requester |
| ApproverResolution.EveryCandidateIsAsked | backend/apps/approvals/services.py:411-473 | every candidate who is not the barred requester is asked |
| ApproverResolution.NobodyResolvedIff | backend/apps/approvals/services.py:474-480 | the resolution comes up empty if and only if there is no fallback and every candidate is the barred requester |
| ApproverKinds.EmployeeIsAskedFor | backend/apps/approvals/services.py:215-230 | the first delegation in force today for the kind, start and end date included, puts the delegate in place of the employee; without one the employee is asked |
| ApproverKinds.ManagerAtLevelIff | backend/apps/approvals/services.py:305-313 | the manager found is the end of a chain of that many manager links, at least one |
| ApproverKinds.RoleIsLookedUp | backend/apps/approvals/services.py:316-350 | the five old role codes are looked up under their new names, all others as they are |
| ApproverKinds.StageAsksEmployee | backend/apps/approvals/services.py:411-473 | a stage with one approver asks the manager, the manager some levels up, the first head of the requester's department, the first administrator of the requester's location or the named employee, or the delegate of that person; a barred requester gives place to the fallback |
| ApproverKinds.StageAsksFallback | backend/apps/approvals/services.py:411-480 | a stage whose one approver names nobody asks its fallback |
| ApproverKinds.StageAsksPrimaryAdmin | backend/apps/approvals/services.py:411-473 | a stage for the primary administrator asks that user, unless barred |
| ApproverKinds.PrimaryAdminIsCandidate | backend/apps/approvals/services.py:411-448 | the primary administrator is a candidate if there is one |
| ApproverKinds.StageAsksRoleHolders | backend/apps/approvals/services.py:411-473 | a stage for a role asks every holder who is not barred, and nobody else but the fallback |
| ApproverKinds.CandidatesOfBoth | backend/apps/approvals/services.py:411-448 | the candidates of several approvers are those of each, one after the other |
| ApproverKinds.UnbarredOfBoth | backend/apps/approvals/services.py:450-464 | replacing barred candidates goes one by one and keeps the order |
| ApproverKinds.DeduplicationKeepsOrder | backend/apps/approvals/services.py:466-473 | those who are kept keep their order |
| ApproverKinds.FallbackStandsFor | backend/apps/approvals/services.py:357-376 | a fallback stands for the manager, the department head, the first holder of the role, the named employee, or the primary administrator and else the creator of the organisation |
| ApproverKinds.FallbackIsAskedFor | backend/apps/approvals/services.py:357-403 | the fallback asks the person it stands for, or that person's delegate |
| ApproverKinds.FallbackIsAskedWithoutCandidates | backend/apps/approvals/services.py:474-480 | a stage without candidates asks its fallback |
| ApproverKinds.TargetStandsFor | backend/apps/approvals/services.py:726-755 | an escalation target is found like the fallback of its kind, but is never the creator of the organisation |
| ApproverKinds.WhoIsBarred | backend/apps/approvals/services.py:450-464 | the requester is barred in six kinds, and in the three payroll kinds not |
| WorkflowSelection.ResolveWorkflowWithSource | backend/apps/approvals/services.py:178-201 | an assignment beats every rule, a rule of least priority number and greatest age beats the rest, the default comes last, and there is an error only without a default |
| WorkflowSelection.BareRuleMatchesIff | backend/apps/approvals/services.py:102-127 | a rule without conditions matches every request of its kind, if it and its workflow are active |
| WorkflowSelection.ApplicantConditionsRestrict | backend/apps/approvals/services.py:102-127 | each condition on the applicant restricts the rule to those who meet it |
| WorkflowSelection.RequestConditionsRestrict | backend/apps/approvals/services.py:102-127 | so does each condition on the request; amounts may equal the bounds, and a bound needs an amount |
| WorkflowSelection.WhyChosen | backend/apps/approvals/services.py:178-201 | each source of the workflow rules out those before it, and no other matching rule has a smaller priority, or the same one and an earlier creation |
| ApprovalInvariant.OpenStageRows | backend/apps/approvals/services.py:499-519 | opening a stage fails only for want of approvers: the uniqueness constraint never refuses its rows, and each approver gets one pending action |
| ApprovalInvariant.CreateKeepsInvariant | backend/apps/approvals/services.py:522-550 | a created run satisfies the global invariant |
| ApprovalInvariant.ApproveKeepsInvariant | backend/apps/approvals/services.py:624-680 | approval, with skipping, advancing and completing, keeps the invariant |
| ApprovalInvariant.RejectKeepsInvariant | backend/apps/approvals/services.py:683-716 | rejection keeps the invariant |
| ApprovalInvariant.CancelKeepsInvariant | backend/apps/approvals/services.py:876-890 | cancellation keeps the invariant |
| ApprovalInvariant.NewHandoffIsLast | backend/apps/approvals/services.py:835-855 | the receiver of a hand-off has not been handed on itself, so hand-offs never form a circle |
| ApprovalInvariant.EscalateKeepsInvariant | backend/apps/approvals/services.py:795-855 | escalation to a new or to an already pending action keeps the invariant |
| ApprovalInvariant.EveryReachableStateIsSound | backend/apps/approvals/services.py:522-890 | whatever is attempted, in whatever environments, every reachable state satisfies the invariant |
| ApprovalTheorems.PendingRunHasPendingAction | backend/apps/approvals/services.py:624-716 | a run is PENDING if and only if it has a pending action, and pending actions belong to the current stage |
| ApprovalTheorems.FinishedRunIsAbsorbing | backend/apps/approvals/services.py:649-716 | no trace of steps changes anything in an approved, rejected or cancelled run, although approval and rejection never test the run's status |
| ApprovalTheorems.DecisionsAreFinal | backend/apps/approvals/services.py:649-716 | no action is lost or reassigned and no decision is revised, over any trace |
| ApprovalTheorems.ApprovedRunIsDischarged | backend/apps/approvals/services.py:649-680 | when a run is approved every stage has an approved action, every action of an ALL stage was approved or handed on, and every complete chain of hand-offs from it, of bounded length, ends at an approved action of that stage |
| ApprovalTheorems.DutyReachesAnApproval | backend/apps/approvals/services.py:822-855 | from every action of an ALL stage whose actions are approved or handed on there is a chain of hand-offs to an approved one |
| ApprovalTheorems.OutcomeMatchesRows | backend/apps/approvals/services.py:683-705 | a run is rejected if and only if one of its actions is, and an approved run holds settled rows only |
| ApprovalTheorems.EscalationFailsIff | backend/apps/approvals/services.py:835-850 | a due escalation hits the uniqueness constraint if and only if its target has a decided action in the stage |
| ApprovalTheorems.StepLowersPotential | backend/apps/approvals/services.py:624-716 | every step that changes a run lowers a number made of the stages left, the users not yet asked and the pending actions |
| ApprovalTheorems.RunsAreFinite | backend/apps/approvals/models.py:416-421 | with m users and n stages, a run changes at most n * (m + 1) times after its creation |
| ApprovalSteps.RejectionAcceptedIff | backend/apps/approvals/services.py:683-690 | a rejection is accepted if and only if the actor is the approver of a pending action and decisions are not blocked, and each refusal has its reason |
| ApprovalSteps.ApprovalAcceptedIff | backend/apps/approvals/services.py:649-680 | an approval is accepted if and only if, besides, the next stage has approvers in case it completes the current one |
| ApprovalSteps.ApprovalRefusedFor | backend/apps/approvals/services.py:649-680 | the reason of every refused approval |
| ApprovalSteps.ApprovalOfRows | backend/apps/approvals/services.py:659-672 | an approval approves its row, skips the others that wait in an ANY stage, and touches no other row |
| ApprovalSteps.ApprovalOfStage | backend/apps/approvals/services.py:659-672 | the same for the rows in any state, before the run moves on |
| ApprovalSteps.ApprovalOfRun | backend/apps/approvals/services.py:624-680 | the run waits on, opens its next stage with one fresh row for each approver, or is approved after its last |
| ApprovalSteps.CreationOfRun | backend/apps/approvals/services.py:522-550 | a created run waits in its first stage with one fresh row for each approver |
| ApprovalSteps.RejectionOfRun | backend/apps/approvals/services.py:692-705 | a rejection rejects its row, cancels all others that wait, and ends the run |
| ApprovalSteps.CancellationOfRun | backend/apps/approvals/services.py:876-890 | a cancellation cancels all rows that wait and ends the run; a finished run stays |
| ApprovalSteps.EscalationIsDueIff | backend/apps/approvals/services.py:812-820 | an action is due if and only if it has waited the hours of its stage's active policy and the target is somebody else |
| ApprovalSteps.EscalationOfRows | backend/apps/approvals/services.py:835-855 | an escalation cancels and stamps its row and passes the duty to the target's waiting row, or to a fresh one that names those first assigned |
| ApprovalSteps.EveryDecisionWasEntitled | backend/apps/approvals/services.py:649-690 | over any trace every approved or rejected row was decided by a step of its own approver, in that sense and at that time, while it was pending and decisions were not blocked |
| ApprovalHistory.EveryRowIsDocumented | backend/apps/approvals/services.py:812-855 | in every reachable state a row is stamped exactly when it is decided, was escalated only after its stage's hours, and a stand-in still names the user to whom the duty was first assigned |
| ApprovalHistory.EveryRowIsExplained | backend/apps/approvals/services.py:499-519 | over any trace every row was asked for by its stage's rule at the time, or put there by an escalation whose target it names |
| ApprovalHistory.OwnRequestOnlyByFallbackOrEscalation | backend/apps/approvals/services.py:726-755 | over any trace of such a kind, whatever the organisation data become, a row naming the requester is the stage's delegated fallback or an escalated row whose target was the requester |
| OwnRequests.NamedIffWithinReach | backend/apps/approvals/services.py:624-855 | with fixed organisation data some run of a workflow names a user if and only if some stage asks for the user or actively escalates to the user, and it and all stages before it have approvers |
| OwnRequests.OwnRequestIff | backend/apps/approvals/services.py:726-755 | outside the payroll kinds a run can name its requester if and only if some stage up to which all stages have approvers turns to the requester, by its delegated fallback or by an active escalation policy |
| ApprovalRunObject.ApprovalRun.CreateStageActions | backend/apps/approvals/services.py:499-519 | inserts the resolved approvers one by one under the uniqueness constraint |
| ApprovalRunObject.ApprovalRun.AdvanceOrComplete | backend/apps/approvals/services.py:624-646 | the run opens its next stage or is approved |
| ApprovalRunObject.ApprovalRun.Approve | backend/apps/approvals/services.py:649-680 | the run becomes the approved state, or is left alone with the error |
| ApprovalRunObject.ApprovalRun.Reject | backend/apps/approvals/services.py:683-716 | the run becomes the rejected state, or is left alone with the error |
| ApprovalRunObject.ApprovalRun.Cancel | backend/apps/approvals/services.py:876-890 | a pending run is cancelled with its pending actions; a finished one is left alone |
| ApprovalRunObject.ApprovalRun.EscalateTo | backend/apps/approvals/services.py:822-855 | the duty goes to the target's pending action or to a new one, or the row is refused and nothing changes |
| EscalationPass.ProcessPendingActionEscalations | backend/apps/approvals/services.py:795-873 | one pass over the given actions of all runs, each its own transaction, up to the first error |
| EscalationPass.EscalateAction | backend/apps/approvals/services.py:813-855 | one turn of the loop escalates exactly the action that is due, or changes no run |
| EscalationPass.EscalatingOne | backend/apps/approvals/services.py:822-855 | an escalation takes exactly its own action off what is due in all runs, and neither blocks nor frees another |
| EscalationPass.PassStopsAtFirstBlocked | backend/apps/approvals/services.py:812-873 | a pass hands on exactly what is due before the first blocked action, fails there with the uniqueness breach, and leaves everything due from there on as it was |
| EscalationPass.PassSucceedsIff | backend/apps/approvals/services.py:795-873 | a pass over all pending actions succeeds if and only if, before it starts, no due action would go to someone with a decided action in its stage; then it counts all that was due and leaves nothing due, otherwise something stays due |
| EscalationPass.CountDueIsSize | backend/apps/approvals/services.py:812-873 | each of the distinct actions that are due counts once |
| EscalationPass.OneRunAllOrNothing | backend/apps/approvals/services.py:812-873 | within one run a pass hands on everything due, or changes nothing |
| EscalationExamples.EscalationCanFail | backend/apps/approvals/services.py:835-850 | a reachable run whose due escalation breaches the uniqueness constraint |
| EscalationExamples.OneRunCanStarveAnother | backend/apps/approvals/services.py:812-873 | two reachable runs such that the failure in one keeps an action of the other due |
| EscalationExamples.RequesterCanApproveOwnLeave | backend/apps/approvals/services.py:726-755 | a reachable run that a requester of a barred kind approved after being its escalation target |
| ApprovalRunObject.CreateApprovalRun | backend/apps/approvals/services.py:522-550 | a new run with its first stage opened, or no run and the error |
| EscalationPass.PassIsATrace | backend/apps/approvals/services.py:812-873 | for each run a pass is a series of single escalations, so every theorem about traces covers it |
| WorkflowSimulation.SimulateWorkflow | backend/apps/approvals/services.py:900-942 | the workflow a request would get, with the reason, and for each stage in order the approvers a run would ask, with a warning where there is none |
| WorkflowSimulation.RunsFollowTheSimulation | backend/apps/approvals/services.py:900-942 | with fixed organisation data and no escalation a run has asked exactly the simulated approvers of the stages it has reached, once each and in order, and of all stages when it is approved |
| WorkflowSimulation.WarnedStageBlocksRuns | backend/apps/approvals/services.py:900-942 | a stage the simulation warns about is never reached, and no run is approved, whatever is attempted |
| WorkflowSimulation.EveryoneApproves | backend/apps/approvals/services.py:624-680 | without warnings there is a series of approvals that ends in an approved run |
| WorkflowSimulation.ApprovedIffNothingLeft | backend/apps/approvals/services.py:624-680 | every series of approvals, by whomever and under whatever data, ends in an approved run if and only if it leaves nothing pending |
| WorkflowSimulation.ApprovableIffNothingWarned | backend/apps/approvals/services.py:900-942 | a run can be created and approved if and only if the simulation warns about no stage |
| Delegations.ValidateDelegationLoop | backend/apps/approvals/services.py:233-254 | the search ends, and refuses exactly self-delegation and delegates who already lead to the delegator |
| Delegations.NewEdgeClosesLoopIff | backend/apps/approvals/services.py:243-254 | adding a delegation to a loop-free graph makes a loop if and only if the search refuses it |
| Delegations.DelegationTable.UpsertDelegation | backend/apps/approvals/services.py:257-302 | stores the new or edited row, or leaves the table alone with the error |
| Delegations.UpsertKeepsLoopFree | backend/apps/approvals/services.py:271-298 | creating or editing keeps the active delegations of every organisation free of loops |
| Delegations.RefusalIsNecessaryIff | backend/apps/approvals/services.py:233-276 | a refused row would have made a loop if and only if it is active |
| Delegations.InactiveRowIsRefused | backend/apps/approvals/services.py:233-276 | a table and an inactive row that is refused as a loop although storing it makes none |
| Delegations.DelegationsStayLoopFree | backend/apps/approvals/services.py:257-302 | starting from no delegations, no series of creations and edits produces a loop |
| Delegations.UpsertAcceptedIff | backend/apps/approvals/services.py:257-295 | a delegation is accepted if and only if both employees and the edited row belong to the organisation, the delegate is another and does not lead back, and it does not end before it starts |
| Delegations.UpsertStores | backend/apps/approvals/services.py:277-302 | the row is stored as asked for, and every other row stays |
| Delegations.EdgesAre | backend/apps/approvals/services.py:237-246 | the graph holds the active delegations of the organisation except the one being edited |
| Delegations.DelegationsStayProper | backend/apps/approvals/services.py:257-302 | every stored delegation is between two employees of its organisation and does not end before it starts |
| PointerGraph.EndsUnlessCycle | backend/apps/employees/services.py:1474-1511 | a manager chain ends if and only if it leads to no cycle |
| OrgChartCycles.MeetingThePath | backend/apps/employees/services.py:1484-1488 | meeting a member of the current path again yields a cycle that is genuine and new |
| OrgChartCycles.CycleFinder.Dfs | backend/apps/employees/services.py:1483-1505 | the recursive search ends and leaves every visited employee who lies on a cycle reported |
| OrgChartCycles.ValidateOrgChartCycles | backend/apps/employees/services.py:1474-1511 | the lists are genuine cycles without common members, and hold exactly those who lie on a cycle that an employee of the organisation leads to |
| OrgChartTree.GroupByManager | backend/apps/employees/services.py:1395-1407 | each shown employee is listed once, under a shown manager or among the roots |
| OrgChartTree.NodeHoldsItsReports | backend/apps/employees/services.py:1409-1420 | building a node ends, and the node holds, once each, exactly its employee and all direct and indirect reports |
| OrgChartTree.GetOrgChartTree | backend/apps/employees/services.py:1386-1422 | every shown employee whose chain ends is placed once, under the manager or at the top and in name order; nobody else is placed |
| OrgChartTree.EveryoneShownIffNoCycles | backend/apps/employees/services.py:1386-1511 | with inactive rows included and managers in the organisation, everyone is shown if and only if the cycle search returns nothing |
| ReportingTeam.CollectTeam | backend/apps/employees/services.py:1456-1467 | the breadth-first loop ends, also on cycles, with everybody below the employee, once each, the closer ones first |
| ReportingTeam.GetReportingTeam | backend/apps/employees/services.py:1425-1467 | with indirect reports that team; without them the included employees who point to the employee, in query order |
| ReportingTeam.DirectTeamIsFirstLevel | backend/apps/employees/services.py:1436-1443 | the direct team is the set of people at distance one |
| ReportingTeam.BelowNodeIff | backend/apps/employees/services.py:1409-1420 | in any chart the places below a node hold, once each, exactly those whose manager links lead to its employee |
| ReportingTeam.TeamIsTheChartBelow | backend/apps/employees/services.py:1386-1467 | with inactive rows included, the team of anybody in the chart is everybody whom the chart places below that node |
| ChartFacts.PlacedIff | backend/apps/employees/services.py:1386-1422 | an employee is placed, and once, if and only if a line of shown managers leads up to somebody without a shown manager; by default resigned, retired and terminated employees are not shown |
| ChartFacts.TopLevel | backend/apps/employees/services.py:1409-1422 | the top level is in name order and holds nobody with a shown manager |
| ChartFacts.LevelBelow | backend/apps/employees/services.py:1409-1420 | below a node, in name order, stand only employees who report to it |
| ChartFacts.TeamIff | backend/apps/employees/services.py:1445-1467 | an employee is in the full team if and only if a line of included employees, active ones by default, leads up to its head |
| ChartFacts.TeamOrder | backend/apps/employees/services.py:1456-1467 | whoever comes earlier in the team has a reporting line that is no longer |
| ChartFacts.DirectTeamIff | backend/apps/employees/services.py:1436-1443 | the direct team holds the included employees who report to its head |
| ChartFacts.FilterKeepsOrder | backend/apps/employees/services.py:1436-1443 | the rows that pass a filter keep the order of the query |
| ChartFacts.CyclesAreManagers | backend/apps/employees/services.py:1483-1505 | in a reported list everybody is managed by the next, and the last is the first |
| ChartFacts.ManagerLinks | backend/apps/employees/services.py:1496-1499 | a step of the search leads to the manager of an employee who exists |
| Departments.ResolveParent | backend/apps/departments/services.py:16-35 | the walk up the parents ends, and refuses exactly inactive or foreign parents, the department itself and its descendants |
| Departments.RedirectingStaysAcyclic | backend/apps/departments/services.py:30-35 | pointing a department to one that does not lead back to it makes no cycle |
| Departments.DepartmentTable.Create | backend/apps/departments/services.py:38-51 | adds the department, or leaves the table alone with the error; the table stays valid |
| Departments.DepartmentTable.Update | backend/apps/departments/services.py:54-76 | changes name and parent, or leaves the table alone with the error; the table stays valid |
| Departments.DepartmentTable.Deactivate | backend/apps/departments/services.py:79-90 | deactivates a department without active children and employees, or leaves the table alone; the table stays valid |
| Departments.HierarchyStaysSound | backend/apps/departments/services.py:16-90 | over any history the hierarchy is a forest, so every walk up ends, and all ancestors of an active department are active |
| Departments.CreationIff | backend/apps/departments/services.py:38-51 | a department is created if and only if its parent is an active one of the organisation, or none, and its name is free; it is active, and no other row changes |
| Departments.UpdateIff | backend/apps/departments/services.py:54-76 | an edit is accepted if and only if the new parent is available and not below the department, and the name is free; only what was asked for changes |
| Departments.ParentRefusedFor | backend/apps/departments/services.py:16-35 | why a parent is refused |
| Departments.ParentsAre | backend/apps/departments/services.py:30-35 | a step of the walk leads to the parent of a department that exists |
| Departments.DeactivationIff | backend/apps/departments/services.py:79-90 | a department is deactivated if and only if it has no active children and no active employees; nothing else changes |
| AttendanceDay.GetLeaveFraction | backend/apps/attendance/services.py:583-612 | the leave of a date in halves, at most a full day |
| AttendanceDay.GetDutyFraction | backend/apps/attendance/services.py:615-645 | the on-duty time of a date in halves, at most a full day |
| AttendanceDay.PickInterval | backend/apps/attendance/services.py:676-695 | both ends are punches of the day, and a check-out is never before the check-in |
| AttendanceDay.IntervalIsWidest | backend/apps/attendance/services.py:676-695 | the earliest check-in and the latest check-out are taken, and the day is open if and only if nothing that counts follows the check-in |
| AttendanceDay.IntervalEndsLatest | backend/apps/attendance/services.py:688-695 | the day ends with the latest check-out if one follows the check-in, and else, unless it stays open, with the latest punch of any kind |
| AttendanceDay.SummarizeDay | backend/apps/attendance/services.py:730-876 | status, pay, interval, worked, late and overtime minutes of a day, and needs_regularization exactly for INCOMPLETE |
| AttendanceDay.StatusDeterminesPay | backend/apps/attendance/services.py:774-846 | ABSENT and INCOMPLETE are paid nothing, HALF_DAY half, WFH half or full, everything else full |
| DayDecisions.RequestFractionIff | backend/apps/attendance/services.py:583-595 | a request counts for its dates, a half where it starts or ends in a half session and a whole day elsewhere |
| DayDecisions.DutyPartIff | backend/apps/attendance/services.py:615-645 | an on-duty request counts as a whole or half day by its duration, or by the clock against the half-day minutes |
| DayDecisions.LeaveOfBoth | backend/apps/attendance/services.py:597-612 | leave requests add up |
| DayDecisions.LeaveOfOne | backend/apps/attendance/services.py:597-612 | one leave request counts for its fraction |
| DayDecisions.DutyOfBoth | backend/apps/attendance/services.py:615-645 | on-duty requests add up |
| DayDecisions.DutyOfOne | backend/apps/attendance/services.py:615-645 | one on-duty request counts for its part |
| DayDecisions.FractionsAreCapped | backend/apps/attendance/services.py:597-664 | both are capped at a full day, and work from home counts a full or half day |
| DayDecisions.WorkedMinutesIff | backend/apps/attendance/services.py:776-780 | worked minutes are the whole minutes of the interval |
| DayDecisions.IntervalOfDay | backend/apps/attendance/services.py:757-771 | an override counts as it stands, whatever was punched |
| DayDecisions.MinutesIff | backend/apps/attendance/services.py:776-800 | late minutes count from the end of the grace, overtime from its threshold, and only a closed interval has any |
| DayDecisions.BaseDayIff | backend/apps/attendance/services.py:774-813 | a closed day is judged by its minutes, an open one is incomplete, and one without punches is judged by holiday, week off and work from home |
| DayDecisions.FinalDayIff | backend/apps/attendance/services.py:815-846 | what full and half leave, on-duty time and work from home make of each kind of day |
| AttendanceDay.LeaveLowersPayIff | backend/apps/attendance/services.py:815-846 | one more leave request lowers a day's pay if and only if it is a first half-day leave on a punched full WFH day without duty or half a day of work |
| AttendanceDay.HalfDayLeaveCanCostPay | backend/apps/attendance/services.py:825-829 | a day at home that a half-day leave turns from a full into a half paid day |
| AttendanceDay.LeaveNeverLowersPayWithoutWfh | backend/apps/attendance/services.py:815-846 | without approved WFH, leave never lowers a day's pay |
| AttendanceDay.DutyLowersPayIff | backend/apps/attendance/services.py:815-846 | one more on-duty request lowers a day's pay exactly in the two cases named |
| AttendanceDay.HalfDayDutyCanCostPay | backend/apps/attendance/services.py:815-846 | the first case occurs: half a day on duty costs half of a full day at home |
| AttendanceDay.SecondDutyCanCostPay | backend/apps/attendance/services.py:815-846 | the second case occurs: a second half day on duty takes away what the first one added |
| AttendanceDay.GetPayrollAttendanceSummary | backend/apps/attendance/services.py:1608-1626 | paid is the sum over the days, that of one day its own paid fraction, and paid plus lost is the number of days, for every period |
| AttendanceDay.PeriodsAddUp | backend/apps/attendance/services.py:1608-1626 | paid and lost days add up over any split of a period |
| AttendanceDay.OneDayIsItsPay | backend/apps/attendance/services.py:1608-1618 | a period of one day pays what the day pays |
| DayDecisions.DaysInPeriod | backend/apps/attendance/services.py:1608-1626 | a period has the days from its start to its end, both included |
| AttendanceDay.LeaveNeverRaisesLop | backend/apps/attendance/services.py:1608-1626 | over a period without WFH, one more leave request never raises the loss of pay |
| Punches.PunchLog.RecordEmployeePunch | backend/apps/attendance/services.py:1181-1204 | stores the punch in order of time, or refuses it and leaves the day alone; an override decides in place of the punches |
| Punches.RecordedDayIsWellFormed | backend/apps/attendance/services.py:1157-1218 | on a day on which employees only punch themselves, the recorded punches start with a check-in followed by a check-out |
| Punches.OpenIntervalIff | backend/apps/attendance/services.py:676-695 | a list of punches leaves the day open if and only if nothing in it follows its first check-in, or its first punch without any |
| Punches.RefusedPunchIff | backend/apps/attendance/services.py:1183-1190 | after any punches, deliveries from other sources and overrides, a check-in is refused if and only if the override, or else the list of punches, leaves the day open, and a check-out if and only if there is neither |
| Punches.EventIff | backend/apps/attendance/services.py:1157-1218 | a refused attempt changes nothing, a recorded or delivered punch is added, and an override replaces the last one |
| Punches.RefusalNamesState | backend/apps/attendance/services.py:1183-1190 | which error a refused punch gets |
| Punches.PunchingRefusedIff | backend/apps/attendance/services.py:1183-1190 | where employees only punch themselves, a check-in is refused if and only if there is exactly one punch, a check-out if and only if there is none |
| Punches.RepeatedCheckInIsRecorded | backend/apps/attendance/services.py:1183-1190 | in, out, in and in again are all recorded |
| AttendanceSheets.CheckRows | backend/apps/attendance/services.py:1646-1687 | a row is accepted if and only if it is readable and the first for its employee and date; accepted plus faulty is all |
| AttendanceSheets.AttendanceStore.ImportAttendanceSheet | backend/apps/attendance/services.py:1629-1727 | posts all rows if every row is acceptable and none otherwise, with valid plus error rows equal to all rows |
| AttendanceSheets.PostingStoresRow | backend/apps/attendance/services.py:1700-1714 | posting leaves the record of each row, one for each employee and date |
| AttendanceSheets.PostingKeepsOthers | backend/apps/attendance/services.py:1700-1714 | posting touches no other employee-date |
| SheetFacts.ReadableIff | backend/apps/attendance/services.py:1648-1668 | a row can be read if its employee is known, its cells are readable and the check-out does not come first |
| SheetFacts.RecordOfRow | backend/apps/attendance/services.py:1652-1660 | the record holds both times on the date of the row |
| SheetFacts.CheckedRowIff | backend/apps/attendance/services.py:1646-1687 | the first readable row of an employee-date is accepted with its times, every other row is an error |
| SheetFacts.JobRows | backend/apps/attendance/services.py:1689-1722 | a posted job shows all rows posted, a failed one what was found |
| SheetFacts.CountOfBoth | backend/apps/attendance/services.py:1689-1690 | rows are counted one by one |
| SheetFacts.CountOfOne | backend/apps/attendance/services.py:1689-1690 | a row counts for its own status |
| AttendanceSheets.ImportPunchSheet | backend/apps/attendance/services.py:1730-1807 | one row for each employee-day, and one error row for each unreadable punch |
| AttendanceSheets.GeneratedRowsInOrder | backend/apps/attendance/services.py:1766-1798 | the generated rows are numbered from 2 and strictly ordered by date and then employee |
| AttendanceSheets.PunchSheetAccounting | backend/apps/attendance/services.py:1746-1798 | the punches grouped into generated rows plus the error rows are all rows of the sheet |
| SheetFacts.ReadablePunchIff | backend/apps/attendance/services.py:1747-1755 | a punch can be read if its employee is known and date and time are readable; it is grouped by employee and date |
| SheetFacts.EntriesOfBoth | backend/apps/attendance/services.py:1746-1755 | the punches of an employee-day keep the order of the sheet |
| SheetFacts.EntriesOfOne | backend/apps/attendance/services.py:1746-1755 | a readable punch belongs to its employee and date only |
| SheetFacts.FaultyOfBoth | backend/apps/attendance/services.py:1756-1763 | each unreadable punch is reported once, in order |
| SheetFacts.FaultyOfOne | backend/apps/attendance/services.py:1756-1763 | an unreadable punch is reported by row number and code |
| SheetFacts.GeneratedRowIff | backend/apps/attendance/services.py:1766-1790 | a generated row counts its punches and is incomplete exactly for a single one |
| SheetFacts.PunchJobIff | backend/apps/attendance/services.py:1792-1798 | the job waits for review if any punch was readable and fails otherwise |
| AttendanceSheets.GeneratedRunsFirstToLast | backend/apps/attendance/services.py:1771-1775 | a generated row runs from the earliest to the latest punch, and is INCOMPLETE exactly for a single punch |
| AttendanceSheets.BuildNormalizedAttendanceWorkbook | backend/apps/attendance/services.py:301-339 | the rows for review, by row number, with times cut to the minute |
| SheetFacts.NormalizedRowIff | backend/apps/attendance/services.py:308-316 | a workbook row repeats code and date and shows the times of day without seconds |
| SheetFacts.ToMinuteIff | backend/apps/attendance/services.py:313-314 | cutting to the minute gives the last full minute that is not later |
| SheetFacts.WorkbookRows | backend/apps/attendance/services.py:307-309 | the workbook holds the accepted and incomplete rows by number |
| AttendanceSheets.PunchSheetRoundTrip | backend/apps/attendance/services.py:1629-1807 | re-importing the workbook of a punch sheet posts if and only if no employee-day has a single punch, and then stores the first and last punch of each day to the minute, in order, and nothing else |
| AttendanceSheets.EmptyWorkbookIff | backend/apps/attendance/services.py:1767-1798 | the workbook is empty, so that its import is refused, if and only if no punch was readable |
| Expenses.TotalAmount | backend/apps/expenses/models.py:146-148 | the sum of the line amounts: that of one line its amount, and that of all lines the sum over any two parts |
| Expenses.TotalOfOne | backend/apps/expenses/models.py:146-148 | the total of one line is its amount |
| Expenses.TotalOfBoth | backend/apps/expenses/models.py:146-148 | the total of two lists of lines is the sum of their totals |
| Expenses.BuildPayrollReimbursementLines | backend/apps/expenses/services.py:269-289 | one line for each claim with a positive total, and the sum of the lines |
| ExpenseSteps.PayLinesOfOne | backend/apps/expenses/services.py:269-289 | a claim with a positive total has one line, for that total, and others have none |
| ExpenseSteps.PayLinesOfBoth | backend/apps/expenses/services.py:269-289 | the lines of several claims are those of each, in order |
| ExpenseSteps.LineSumOfBoth | backend/apps/expenses/services.py:272-289 | the reimbursed amount adds up over the lines |
| ExpenseSteps.LineSumOfOne | backend/apps/expenses/services.py:272-289 | one line is reimbursed with its amount |
| ExpenseSteps.ClaimSumOfOne | backend/apps/expenses/services.py:272-289 | one claim adds its total |
| ExpenseSteps.ClaimSumOfBoth | backend/apps/expenses/services.py:272-289 | the totals of several claims add up |
| ExpenseSteps.CreationIff | backend/apps/expenses/services.py:56-95 | a claim is created if and only if it has lines and all amounts are positive, as a draft with those lines |
| ExpenseSteps.UpdateIff | backend/apps/expenses/services.py:99-148 | only the owner of a draft or rejected claim edits it, with proper lines, and nothing but the lines changes |
| ExpenseSteps.SubmissionIff | backend/apps/expenses/services.py:151-178 | a claim is submitted by its owner, as a draft or after rejection, with lines, with all receipts, if its run can be created |
| ExpenseSteps.CancellationIff | backend/apps/expenses/views.py:178-187 | only the owner of a draft or rejected claim cancels it |
| ExpenseSteps.DecisionReachesClaim | backend/apps/expenses/models.py:150-170 | when a run ends its claim is approved now and waits for payroll, or is rejected or cancelled and not payable; no other claim changes |
| ExpenseSteps.IsPendingIff | backend/apps/expenses/services.py:249-261 | which claims a pay run may include |
| ExpenseSteps.CalculationIff | backend/apps/payroll/services.py:1416-1439 | a pay run can be calculated until it is approved, for a list that names nobody twice |
| ExpenseSteps.ClearingOfRun | backend/apps/expenses/services.py:237-246 | recalculating removes exactly the run's items and makes the claims they held wait again |
| ExpenseSteps.ItemOfEmployee | backend/apps/expenses/services.py:292-307 | a new item includes exactly the waiting claims of its employee, or none if the calculation failed |
| ExpenseSteps.FinalizationIff | backend/apps/payroll/services.py:2504-2576 | a pay run is paid out if and only if it is approved, or calculated with approval skipped, and has items that are all ready; exactly the claims included in them become paid |
| ExpenseSteps.MoveIff | backend/apps/payroll/services.py:2504-2520 | any other move of a pay run is between states that are not final |
| ExpenseSteps.PaymentsOfRun | backend/apps/expenses/services.py:318-326 | there is one payment for each claim that the run pays, for its total |
| ExpenseLedger.GetPendingClaimsByEmployee | backend/apps/expenses/services.py:249-266 | for each employee exactly the approved claims that wait for payroll, in order of approval and then of creation, and nothing for a run that is not regular |
| ExpenseLedger.LedgerStore.SubmitExpenseClaim | backend/apps/expenses/services.py:151-178 | the claim is submitted with a new run, or nothing changes |
| ExpenseLedger.LedgerStore.HandleApprovalStatusChange | backend/apps/expenses/models.py:150-170 | the claim follows the outcome of its run |
| ExpenseLedger.LedgerStore.Decide | backend/apps/approvals/services.py:483-496 | a step of a claim's run, heard by the claim when the run's status changes |
| ExpenseLedger.LedgerStore.ResetExpenseClaimsForPayRun | backend/apps/expenses/services.py:237-246 | exactly the claims included in the run wait for payroll again, without run and item; all else about them and all other claims stay, and none is included in the run any more |
| ExpenseLedger.LedgerStore.MarkIncludedInPayroll | backend/apps/expenses/services.py:292-316 | exactly the given claims are included in the item |
| ExpenseLedger.LedgerStore.CalculatePayRun | backend/apps/payroll/services.py:1416-2046 | the run's earlier results are cleared and each employee's pending claims are included in a new item, or nothing changes |
| ExpenseLedger.LedgerStore.FinalizePayRun | backend/apps/payroll/services.py:2504-2576 | exactly the claims included in the run's ready items are paid, or nothing changes |
| ExpenseLedger.LedgerStore.MarkPaidForItem | backend/apps/expenses/services.py:318-326 | exactly the claims included in the item become paid; all else about them and all other claims stay |
| ExpenseProofs.HistoryKeepsSound | backend/apps/expenses/services.py:151-326 | every history keeps claims, approval runs, items and payments in agreement |
| ExpenseProofs.PaidIsForever | backend/apps/expenses/services.py:237-326 | once paid, a claim never changes again, over any history |
| ExpenseProofs.PaidAtMostOnce | backend/apps/expenses/services.py:292-326 | over any history a claim is paid at most once and for its total; an included or paid claim was approved by an approved run and belongs to one item, which carries its line |
| ExpenseProofs.PaidClaimWasDischarged | backend/apps/expenses/models.py:150-158 | behind every included or paid claim stands an approval in each stage of its workflow |
| ExpenseProofs.FinalizedLinesArePaid | backend/apps/payroll/services.py:2518-2572 | the reimbursement lines of a finalized run are exactly its payments |
| ExpenseProofs.ItemReimbursesPendingClaims | backend/apps/expenses/services.py:269-289 | a new item reimburses the sum of all the pending claims of its employee |
| ExpenseProofs.ClearingUndoesIncluding | backend/apps/expenses/services.py:237-307 | including and then resetting restores every claim |
| FreshCodes.EmployeeCodesDiffer | backend/apps/employees/services.py:149 | different counters give different codes, past three digits too |
| FreshCodes.NextEmployeeCode | backend/apps/employees/services.py:140-152 | the search ends with the unused code of the least counter |
| FreshCodes.EmployeeCodeFormat | backend/apps/employees/services.py:149 | the code is "EMP" and the counter in at least three digits |
| FreshCodes.RoleCodesDiffer | backend/apps/access_control/serializers.py:102-103 | different counters give different codes, whatever the truncation cuts off |
| FreshCodes.BuildUniqueCode | backend/apps/access_control/serializers.py:94-105 | the search ends with the base or the least free suffix, unused, and of at most 120 characters while fewer than 10^119 - 2 codes are in use |
| FreshCodes.RoleCodeFormat | backend/apps/access_control/serializers.py:102-103 | the suffix is appended whole, and the base is cut, if at all, to 120 characters in all |
| FreshCodes.BaseCodeFormat | backend/apps/access_control/serializers.py:94-100 | the base is prefix and name, or "ROLE" without a name, cut to 100 characters |

## Left out

- Interleavings: every transaction is one serial step. Only escalation takes a row lock, and two
  requests that read before either writes are not part of this model.
- A workflow does not change while a run is live; deleting a stage would delete its actions.
- Between the transactions of one escalation pass nothing else happens, and the organisation data stay.
- Trimming and case folding of role codes, employee codes and rule texts: they are compared as stored.
- Which condition labels of an approval rule are configured, and the catalogue and legacy columns
  behind an employee's assigned workflow, are inputs.
- Row order by timestamps is taken as the order of creation.
- CalculatePayRun: does not cancel the pay run's own pending approval before recalculating, because
  the approval of pay runs is not part of this model.
- RecordedDayIsWellFormed: does not speak of days with an override or with punches from other
  sources, on which a list may start with anything; RefusedPunchIff covers every day.
- Approval runs inside the expense ledger are values stepped by the functions of `ApprovalRuns`, not
  shared `ApprovalRun` objects; aliasing between a claim and its run is not modelled.
- Expense policies, categories, currencies and titles; receipts are a flag on the line.
- Everything a pay run computes besides expense reimbursement, and the approval of the pay run
  itself: its status may move between any two states that are not final.
- Payable overtime, because it reads a column that `Shift` does not declare; the choice of shift,
  thresholds and holiday for a date, which are inputs.
- Time zones, clock changes, geo-fences and address ranges.
- Reading and writing workbook files: rows are tuples, and a cell is a readable date or time or not.
- The depth limit of the interpreter's stack in the two recursions over manager chains.
- Notifications, audit events, reminders, views, permissions and storage.
