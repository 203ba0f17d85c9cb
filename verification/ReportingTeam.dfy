/** The breadth-first collection of a manager's team, and how it agrees with the chart. */
module ReportingTeam {
  import opened Prelude
  import opened PointerGraph
  import opened Employees
  import opened OrgChartCycles
  import opened OrgChartTree

  /** The rows a team is drawn from. Unlike the chart, the default leaves out invited and pending employees. */
  predicate Included(table: EmployeeTable, organisation: nat, includeInactive: bool, e: Id) {
    && e in table
    && table[e].organisation == organisation
    && (includeInactive || table[e].status.Active?)
  }

  function IsIncluded(table: EmployeeTable, organisation: nat, includeInactive: bool): Id -> bool {
    (e: Id) => Included(table, organisation, includeInactive, e)
  }

  /** The manager pointers of the included rows, wherever they lead. */
  function TeamPointers(table: EmployeeTable, organisation: nat, includeInactive: bool): Pointers {
    map e | e in table && Included(table, organisation, includeInactive, e) :: table[e].manager
  }

  /** `x` reports to `top` over exactly `k` links, and not over fewer. */
  ghost predicate Below(up: Pointers, top: Id, x: Id, k: nat) {
    && k > 0
    && Walk(up, x, k) == Some(top)
    && forall j: nat :: 0 < j < k ==> Walk(up, x, j) != Some(top)
  }

  lemma DirectReportIsBelow(up: Pointers, top: Id, x: Id)
    requires Next(up, x) == Some(top)
    ensures Below(up, top, x, 1)
  {
    WalkOne(up, x);
  }

  lemma IndirectReportIsBelow(up: Pointers, top: Id, x: Id, k: nat)
    requires Next(up, x).Some? && Next(up, x).value != top && Below(up, top, Next(up, x).value, k)
    ensures Below(up, top, x, k + 1)
  {
    forall j: nat | 0 < j < k + 1
      ensures Walk(up, x, j) != Some(top)
    {
      if j == 1 {
        WalkOne(up, x);
      } else {
        assert Walk(up, x, j) == Walk(up, Next(up, x).value, j - 1);
      }
    }
  }

  lemma BelowThroughManager(up: Pointers, top: Id, x: Id, k: nat)
    requires Below(up, top, x, k)
    ensures Next(up, x).Some?
    ensures if k == 1 then Next(up, x).value == top
            else Next(up, x).value != top && Below(up, top, Next(up, x).value, k - 1)
  {
    WalkOne(up, x);
    if k > 1 {
      var m := Next(up, x).value;
      forall j: nat | 0 < j < k - 1
        ensures Walk(up, m, j) != Some(top)
      {
        assert Walk(up, x, j + 1) == Walk(up, m, j);
      }
    }
  }

  // ----- the collection

  /**
   The people met so far, `[top] + team`, with their distances; the first `popped` of them have had
   their reports looked up.
   */
  ghost predicate Collecting(up: Pointers, top: Id, team: seq<Id>, distances: seq<nat>, popped: nat) {
    && |distances| == |team| && popped <= |team| + 1
    && Distinct(team)
    && (forall i :: 0 <= i < |team| ==> team[i] in up && Below(up, top, team[i], distances[i]))
    && (forall i, j :: 0 <= i < j < |team| ==> distances[i] <= distances[j])
    && (forall i :: 0 <= i < |team| && popped <= |team| ==> distances[i] <= DistanceAt(distances, popped) + 1)
  }

  function DistanceAt(distances: seq<nat>, position: nat): nat
    requires position <= |distances|
  {
    if position == 0 then 0 else distances[position - 1]
  }

  function PersonAt(top: Id, team: seq<Id>, position: nat): Id
    requires position <= |team|
  {
    if position == 0 then top else team[position - 1]
  }

  /** Everyone who reports to one of the first `popped` people met has been met. */
  ghost predicate LookedUp(up: Pointers, top: Id, team: seq<Id>, popped: nat)
    requires popped <= |team| + 1
  {
    forall i, x: Id :: 0 <= i < popped && Next(up, x) == Some(PersonAt(top, team, i)) ==> x in team
  }

  ghost predicate DirectReportsMet(up: Pointers, top: Id, team: seq<Id>) {
    forall x: Id :: Next(up, x) == Some(top) ==> x in team
  }

  lemma {:induction false} EveryoneBelowIsMet(up: Pointers, top: Id, team: seq<Id>, x: Id, k: nat)
    requires LookedUp(up, top, team, |team| + 1) && Below(up, top, x, k)
    ensures x in team
    decreases k
  {
    BelowThroughManager(up, top, x, k);
    if k == 1 {
      assert PersonAt(top, team, 0) == top;
    } else {
      var m := Next(up, x).value;
      EveryoneBelowIsMet(up, top, team, m, k - 1);
      var i :| 0 <= i < |team| && team[i] == m;
      assert PersonAt(top, team, i + 1) == m;
    }
  }

  /** Someone not met before, whose manager is being looked up, is the furthest away so far. */
  lemma MeetingReport(up: Pointers, top: Id, team: seq<Id>, distances: seq<nat>, position: nat, x: Id)
    requires Collecting(up, top, team, distances, position) && position <= |team|
    requires Next(up, x) == Some(PersonAt(top, team, position)) && x !in team
    requires position > 0 ==> DirectReportsMet(up, top, team)
    ensures Collecting(up, top, team + [x], distances + [DistanceAt(distances, position) + 1], position)
  {
    var manager := PersonAt(top, team, position);
    if position == 0 {
      DirectReportIsBelow(up, top, x);
    } else {
      IndirectReportIsBelow(up, top, x, distances[position - 1]);
    }
  }

  /** The team is exactly the people below, each once, the closer ones first. */
  ghost predicate IsTeam(up: Pointers, top: Id, team: seq<Id>) {
    && Distinct(team)
    && (forall x: Id :: x in team <==> exists k: nat :: Below(up, top, x, k))
    && (forall i, j, k: nat, l: nat ::
          0 <= i < j < |team| && Below(up, top, team[i], k) && Below(up, top, team[j], l) ==> k <= l)
  }

  lemma CollectedIsTeam(up: Pointers, top: Id, team: seq<Id>, distances: seq<nat>)
    requires Collecting(up, top, team, distances, |team| + 1) && LookedUp(up, top, team, |team| + 1)
    ensures IsTeam(up, top, team)
  {
    forall x: Id, k: nat | Below(up, top, x, k)
      ensures x in team
    {
      EveryoneBelowIsMet(up, top, team, x, k);
    }
    forall i, j, k: nat, l: nat | 0 <= i < j < |team| && Below(up, top, team[i], k) && Below(up, top, team[j], l)
      ensures k <= l
    {
    }
  }

  method MeetReports(ghost up: Pointers, ghost top: Id, reports: seq<Id>, ghost position: nat,
                     team0: seq<Id>, ghost distances0: seq<nat>, queue0: seq<Id>, seen0: set<Id>)
    returns (team: seq<Id>, ghost distances: seq<nat>, queue: seq<Id>, seen: set<Id>)
    requires Collecting(up, top, team0, distances0, position) && position <= |team0|
    requires forall x: Id :: x in reports <==> Next(up, x) == Some(PersonAt(top, team0, position))
    requires LookedUp(up, top, team0, position)
    requires queue0 == team0[position..] && seen0 == Elements(team0)
    ensures Collecting(up, top, team, distances, position) && team0 <= team
    ensures forall x: Id :: x in reports ==> x in team
    ensures queue == team[position..] && seen == Elements(team)
  {
    team, distances, queue, seen := team0, distances0, queue0, seen0;
    assert PersonAt(top, team, 0) == top;
    for i := 0 to |reports|
      invariant Collecting(up, top, team, distances, position) && team0 <= team
      invariant PersonAt(top, team, position) == PersonAt(top, team0, position)
      invariant position > 0 ==> DirectReportsMet(up, top, team)
      invariant forall j :: 0 <= j < i ==> reports[j] in team
      invariant queue == team[position..] && seen == Elements(team)
    {
      var report := reports[i];
      assert report in reports;
      if report in seen {
        continue;
      }
      MeetingReport(up, top, team, distances, position, report);
      seen := seen + {report};
      distances := distances + [DistanceAt(distances, position) + 1];
      team := team + [report];
      queue := queue + [report];
    }
  }

  /** The rows by their manager pointer; those without a manager form a group that is never looked up. */
  method GroupRows(table: EmployeeTable, rows: seq<Id>) returns (children: map<Option<Id>, seq<Id>>)
    requires forall e: Id :: e in rows ==> e in table
    ensures forall m: Option<Id>, x: Id :: x in ListAt(children, m) <==> x in rows && table[x].manager == m
  {
    children := map[];
    for i := 0 to |rows|
      invariant forall m: Option<Id>, x: Id :: x in ListAt(children, m) <==> x in rows[..i] && table[x].manager == m
    {
      var report := rows[i];
      assert rows[..i + 1] == rows[..i] + [report];
      assert report in rows;
      children := AppendAt(children, table[report].manager, report);
    }
    assert rows[..|rows|] == rows;
  }

  method CollectTeam(ghost up: Pointers, children: map<Option<Id>, seq<Id>>, employee: Id) returns (team: seq<Id>)
    requires forall m: Id, x: Id :: x in ListAt(children, Some(m)) <==> Next(up, x) == Some(m)
    ensures IsTeam(up, employee, team)
  {
    ghost var distances: seq<nat> := [];
    ghost var popped := 0;
    var seen: set<Id> := {};
    var queue := [employee];
    team := [];
    while queue != []
      invariant popped <= |team| + 1
      invariant queue == ([employee] + team)[popped..] && seen == Elements(team)
      invariant Collecting(up, employee, team, distances, popped)
      invariant LookedUp(up, employee, team, popped)
      decreases up.Keys - Elements(team), |queue|
    {
      var manager := queue[0];
      queue := queue[1..];
      assert manager == PersonAt(employee, team, popped);
      assert queue == team[popped..];
      ghost var before := team;
      team, distances, queue, seen :=
        MeetReports(up, employee, ListAt(children, Some(manager)), popped, team, distances, queue, seen);
      LookingUpNext(up, employee, before, team, popped);
      MovingOn(up, employee, team, distances, popped);
      assert before == team || up.Keys - Elements(team) < up.Keys - Elements(before) by {
        NewPeopleAreRows(up, before, team);
      }
      popped := popped + 1;
      assert queue == ([employee] + team)[popped..];
    }
    assert IsTeam(up, employee, team) by {
      CollectedIsTeam(up, employee, team, distances);
    }
  }

  lemma LookingUpNext(up: Pointers, top: Id, before: seq<Id>, after: seq<Id>, position: nat)
    requires position <= |before| && before <= after && LookedUp(up, top, before, position)
    requires forall x: Id :: Next(up, x) == Some(PersonAt(top, before, position)) ==> x in after
    ensures LookedUp(up, top, after, position + 1)
  {
    forall i, x: Id | 0 <= i < position + 1 && Next(up, x) == Some(PersonAt(top, after, i))
      ensures x in after
    {
      assert PersonAt(top, after, i) == PersonAt(top, before, i);
    }
  }

  lemma MovingOn(up: Pointers, top: Id, team: seq<Id>, distances: seq<nat>, position: nat)
    requires Collecting(up, top, team, distances, position) && position <= |team|
    ensures Collecting(up, top, team, distances, position + 1)
  {
  }

  lemma NewPeopleAreRows(up: Pointers, before: seq<Id>, after: seq<Id>)
    requires before <= after && Distinct(after) && forall i :: 0 <= i < |after| ==> after[i] in up
    ensures before == after || up.Keys - Elements(after) < up.Keys - Elements(before)
  {
    if before != after {
      var x := after[|before|];
      assert x in Elements(after) && x !in Elements(before);
      assert x in up.Keys - Elements(before);
    }
  }

  method GetReportingTeam(table: EmployeeTable, order: seq<Id>, organisation: nat, employee: Id,
                          includeInactive: bool, includeIndirect: bool)
    returns (team: seq<Id>)
    requires Lists(order, table)
    ensures includeIndirect ==> IsTeam(TeamPointers(table, organisation, includeInactive), employee, team)
    ensures !includeIndirect ==>
              team == Filter(order, ReportsTo(TeamPointers(table, organisation, includeInactive), employee))
  {
    if !includeIndirect {
      team := Filter(order, ReportsTo(TeamPointers(table, organisation, includeInactive), employee));
      return;
    }
    var rows := Filter(order, IsIncluded(table, organisation, includeInactive));
    var children := GroupRows(table, rows);
    team := CollectTeam(TeamPointers(table, organisation, includeInactive), children, employee);
  }

  /** Without indirect reports, the team is the first level of the full one. */
  lemma DirectTeamIsFirstLevel(table: EmployeeTable, order: seq<Id>, organisation: nat, employee: Id,
                               includeInactive: bool)
    requires Lists(order, table)
    ensures var up := TeamPointers(table, organisation, includeInactive);
            forall x: Id :: x in Filter(order, ReportsTo(up, employee)) <==> Below(up, employee, x, 1)
  {
    var up := TeamPointers(table, organisation, includeInactive);
    forall x: Id
      ensures Next(up, x) == Some(employee) <==> Below(up, employee, x, 1)
    {
      WalkOne(up, x);
    }
  }

  // ----- agreement with the chart

  lemma {:induction false} TeamWalkIsChartWalk(table: EmployeeTable, organisation: nat, x: Id, top: Id, k: nat)
    requires Shown(table, organisation, true, top)
    ensures Walk(TeamPointers(table, organisation, true), x, k) == Some(top)
       <==> Walk(ChartPointers(table, organisation, true), x, k) == Some(top)
    decreases k
  {
    var up := TeamPointers(table, organisation, true);
    var t := ChartPointers(table, organisation, true);
    if k > 0 && Next(up, x).Some? {
      var m := Next(up, x).value;
      TeamWalkIsChartWalk(table, organisation, m, top, k - 1);
      if Walk(up, m, k - 1) == Some(top) {
        assert m == top || m in up;
      }
    }
  }

  /** The node stands somewhere in the forest. */
  predicate Stands(node: OrgNode, nodes: seq<OrgNode>)
    decreases nodes
  {
    nodes != [] && (node == nodes[0] || Stands(node, nodes[0].directReports) || Stands(node, nodes[1..]))
  }

  /** Whoever stands in a well-placed node reports to its employee, directly or not. */
  lemma {:induction false} PlacedUnderSuperior(t: Pointers, table: EmployeeTable, nodes: seq<OrgNode>,
                                               manager: Option<Id>, x: Id)
    requires AllUnder(t, table, nodes, manager) && CountAll(nodes, x) > 0
    ensures exists top: Id :: Next(t, top) == manager && Reaches(t, x, top)
    ensures manager.Some? ==> Reaches(t, x, manager.value)
    decreases nodes
  {
    if Count(nodes[0], x) > 0 {
      var top := nodes[0].id;
      if top == x {
        ReachesItself(t, x);
      } else {
        PlacedUnderSuperior(t, table, nodes[0].directReports, Some(top), x);
      }
      assert Reaches(t, x, top);
    } else {
      PlacedUnderSuperior(t, table, nodes[1..], manager, x);
    }
    var top: Id :| Next(t, top) == manager && Reaches(t, x, top);
    if manager.Some? {
      ReachesItself(t, manager.value);
      ReachesNext(t, top, manager.value);
      ReachesTransitively(t, x, top, manager.value);
    }
  }

  /** A report stands only under nodes of the manager. */
  lemma {:induction false} NoManagerNoReport(t: Pointers, table: EmployeeTable, nodes: seq<OrgNode>,
                                             manager: Option<Id>, x: Id)
    requires AllUnder(t, table, nodes, manager) && Next(t, x).Some? && Next(t, x) != manager
    requires CountAll(nodes, Next(t, x).value) == 0
    ensures CountAll(nodes, x) == 0
    decreases nodes
  {
    if nodes != [] {
      NoManagerNoReport(t, table, nodes[0].directReports, Some(nodes[0].id), x);
      NoManagerNoReport(t, table, nodes[1..], manager, x);
    }
  }

  lemma {:induction false} StandingCounts(node: OrgNode, nodes: seq<OrgNode>, x: Id)
    requires Stands(node, nodes)
    ensures Count(node, x) <= CountAll(nodes, x)
    decreases nodes
  {
    if node != nodes[0] {
      if Stands(node, nodes[0].directReports) {
        StandingCounts(node, nodes[0].directReports, x);
      } else {
        StandingCounts(node, nodes[1..], x);
      }
    }
  }

  /** Where a node holds every place of a manager, it holds every place of the reports. */
  lemma {:induction false} ReportsComeAlong(t: Pointers, table: EmployeeTable, nodes: seq<OrgNode>, manager: Option<Id>,
                                            node: OrgNode, x: Id)
    requires AllUnder(t, table, nodes, manager) && Stands(node, nodes)
    requires Next(t, x).Some? && Next(t, x) != manager
    requires Count(node, Next(t, x).value) == CountAll(nodes, Next(t, x).value)
    ensures Count(node, x) == CountAll(nodes, x)
    decreases nodes
  {
    var m := Next(t, x).value;
    var first, rest := nodes[0], nodes[1..];
    if node == first {
      NoManagerNoReport(t, table, rest, manager, x);
    } else if Stands(node, first.directReports) {
      StandingCounts(node, first.directReports, m);
      NoManagerNoReport(t, table, rest, manager, x);
      ReportsComeAlong(t, table, first.directReports, Some(first.id), node, x);
    } else {
      StandingCounts(node, rest, m);
      assert Count(first, m) == 0;
      NoManagerNoReport(t, table, first.directReports, Some(first.id), x);
      ReportsComeAlong(t, table, rest, manager, node, x);
    }
  }

  lemma {:induction false} NodePlacement(t: Pointers, table: EmployeeTable, nodes: seq<OrgNode>, manager: Option<Id>,
                                         node: OrgNode)
    requires AllUnder(t, table, nodes, manager) && Stands(node, nodes)
    ensures WellPlaced(t, table, node)
    decreases nodes
  {
    if node != nodes[0] {
      if Stands(node, nodes[0].directReports) {
        NodePlacement(t, table, nodes[0].directReports, Some(nodes[0].id), node);
      } else {
        NodePlacement(t, table, nodes[1..], manager, node);
      }
    }
  }

  /** A node of a chart holds everybody from whom the manager links lead to its employee. */
  lemma {:induction false} NodeHoldsWhoReaches(table: EmployeeTable, organisation: nat, includeInactive: bool,
                                               forest: seq<OrgNode>, node: OrgNode, x: Id, k: nat)
    requires IsChart(table, organisation, includeInactive, forest) && Stands(node, forest)
    requires Walk(ChartPointers(table, organisation, includeInactive), x, k) == Some(node.id)
    ensures Count(node, x) == 1
    decreases k
  {
    var t := ChartPointers(table, organisation, includeInactive);
    StandingCounts(node, forest, node.id);
    assert Ends(t, node.id);
    DepthAlongWalk(t, x, node.id, k);
    if k > 0 {
      NodeHoldsWhoReaches(table, organisation, includeInactive, forest, node, Next(t, x).value, k - 1);
      StandingCounts(node, forest, Next(t, x).value);
      ReportsComeAlong(t, table, forest, None, node, x);
    }
  }

  /** In any chart, the reports below a node are those who reach its employee over the chart's links. */
  lemma BelowNodeIff(table: EmployeeTable, organisation: nat, includeInactive: bool, forest: seq<OrgNode>,
                     node: OrgNode, x: Id)
    requires IsChart(table, organisation, includeInactive, forest) && Stands(node, forest)
    ensures CountAll(node.directReports, x) ==
              if x != node.id && Reaches(ChartPointers(table, organisation, includeInactive), x, node.id) then 1 else 0
  {
    var t := ChartPointers(table, organisation, includeInactive);
    NodePlacement(t, table, forest, None, node);
    NodeHoldsWhoReaches(table, organisation, includeInactive, forest, node, node.id, 0);
    if Reaches(t, x, node.id) {
      var k: nat :| Walk(t, x, k) == Some(node.id);
      NodeHoldsWhoReaches(table, organisation, includeInactive, forest, node, x, k);
    }
    if CountAll(node.directReports, x) > 0 {
      PlacedUnderSuperior(t, table, node.directReports, Some(node.id), x);
    }
  }

  /**
   With inactive employees included, the team of anybody shown in the chart is exactly everybody
   whom the chart places below that employee's node.
   */
  lemma TeamIsTheChartBelow(table: EmployeeTable, organisation: nat, forest: seq<OrgNode>, node: OrgNode, team: seq<Id>)
    requires IsChart(table, organisation, true, forest) && Stands(node, forest)
    requires IsTeam(TeamPointers(table, organisation, true), node.id, team)
    ensures forall x: Id :: x in team <==> CountAll(node.directReports, x) == 1
  {
    var up := TeamPointers(table, organisation, true);
    var t := ChartPointers(table, organisation, true);
    var top := node.id;
    StandingCounts(node, forest, top);
    assert top in t && Ends(t, top);
    EndingIsOffCycle(t, top);
    forall x: Id
      ensures x in team <==> CountAll(node.directReports, x) == 1
    {
      BelowNodeIff(table, organisation, true, forest, node, x);
      if x in team {
        var k: nat :| Below(up, top, x, k);
        TeamWalkIsChartWalk(table, organisation, x, top, k);
        assert Reaches(t, x, top) && x != top;
      }
      if Reaches(t, x, top) && x != top {
        ChartReachIsBelow(table, organisation, x, top);
      }
    }
  }

  lemma ChartReachIsBelow(table: EmployeeTable, organisation: nat, x: Id, top: Id)
    requires Shown(table, organisation, true, top) && x != top
    requires !OnCycle(ChartPointers(table, organisation, true), top)
    requires Reaches(ChartPointers(table, organisation, true), x, top)
    ensures exists k: nat :: Below(TeamPointers(table, organisation, true), top, x, k)
  {
    var t := ChartPointers(table, organisation, true);
    var k: nat :| Walk(t, x, k) == Some(top);
    TeamWalkIsChartWalk(table, organisation, x, top, k);
    forall j: nat | 0 < j < k
      ensures Walk(TeamPointers(table, organisation, true), x, j) != Some(top)
    {
      TeamWalkIsChartWalk(table, organisation, x, top, j);
      if Walk(t, x, j) == Some(top) {
        WalkSplits(t, x, j, k - j);
      }
    }
    assert Below(TeamPointers(table, organisation, true), top, x, k);
  }
}
