/** What charts, teams and cycle reports say about the employee rows themselves. */
module ChartFacts {
  import opened Prelude
  import opened Sorting
  import opened PointerGraph
  import opened Employees
  import opened OrgChartCycles
  import opened OrgChartTree
  import opened ReportingTeam

  // ----- the chart

  /** By default a chart shows active, invited and pending employees of the organisation. */
  predicate Appears(table: EmployeeTable, organisation: nat, includeInactive: bool, e: Id) {
    && e in table && table[e].organisation == organisation
    && (includeInactive || !(table[e].status.Resigned? || table[e].status.Retired? || table[e].status.Terminated?))
  }

  /** The manager under whom the chart places the employee, or nobody. */
  predicate PlacedUnder(table: EmployeeTable, organisation: nat, includeInactive: bool, e: Id, manager: Option<Id>)
    requires e in table
  {
    if table[e].manager.Some? && Appears(table, organisation, includeInactive, table[e].manager.value)
    then manager == table[e].manager else manager.None?
  }

  lemma ShownAppears(table: EmployeeTable, organisation: nat, includeInactive: bool, e: Id)
    ensures Shown(table, organisation, includeInactive, e) <==> Appears(table, organisation, includeInactive, e)
  {
    if e in table {
      match table[e].status
      case Active =>
      case Invited =>
      case Pending =>
      case Resigned =>
      case Retired =>
      case Terminated =>
    }
  }

  lemma ChartLinks(table: EmployeeTable, organisation: nat, includeInactive: bool, e: Id)
    ensures var t := ChartPointers(table, organisation, includeInactive);
            && (e in t <==> Appears(table, organisation, includeInactive, e))
            && (e in t ==> PlacedUnder(table, organisation, includeInactive, e, Next(t, e)))
            && (e !in t ==> Next(t, e).None?)
  {
    ShownAppears(table, organisation, includeInactive, e);
    if e in table && table[e].manager.Some? {
      ShownAppears(table, organisation, includeInactive, table[e].manager.value);
    }
  }

  /** A line of command from the employee up to somebody placed at the top. */
  ghost predicate CommandLine(table: EmployeeTable, organisation: nat, includeInactive: bool, line: seq<Id>) {
    && line != []
    && (forall i :: 0 <= i < |line| ==> Appears(table, organisation, includeInactive, line[i]))
    && (forall i :: 0 <= i < |line| - 1 ==>
          PlacedUnder(table, organisation, includeInactive, line[i], Some(line[i + 1])))
    && PlacedUnder(table, organisation, includeInactive, line[|line| - 1], None)
  }

  lemma {:induction false} WalkIsLine(table: EmployeeTable, organisation: nat, includeInactive: bool, e: Id, k: nat)
    returns (line: seq<Id>)
    requires e in ChartPointers(table, organisation, includeInactive)
    requires Walk(ChartPointers(table, organisation, includeInactive), e, k).None?
    ensures CommandLine(table, organisation, includeInactive, line) && line[0] == e
    decreases k
  {
    var t := ChartPointers(table, organisation, includeInactive);
    ChartLinks(table, organisation, includeInactive, e);
    if Next(t, e).None? {
      line := [e];
    } else {
      var rest := WalkIsLine(table, organisation, includeInactive, Next(t, e).value, k - 1);
      line := [e] + rest;
    }
  }

  lemma {:induction false} LineIsWalked(table: EmployeeTable, organisation: nat, includeInactive: bool, line: seq<Id>)
    requires CommandLine(table, organisation, includeInactive, line)
    ensures Walk(ChartPointers(table, organisation, includeInactive), line[0], |line|).None?
    decreases |line|
  {
    ChartLinks(table, organisation, includeInactive, line[0]);
    if |line| > 1 {
      assert PlacedUnder(table, organisation, includeInactive, line[0], Some(line[1]));
      LineIsWalked(table, organisation, includeInactive, line[1..]);
    }
  }

  /** An employee is placed, and once, if and only if a line of command leads from them to the top. */
  lemma PlacedIff(table: EmployeeTable, organisation: nat, includeInactive: bool, forest: seq<OrgNode>, e: Id)
    requires IsChart(table, organisation, includeInactive, forest)
    ensures CountAll(forest, e) <= 1
    ensures CountAll(forest, e) == 1 <==>
              exists line :: CommandLine(table, organisation, includeInactive, line) && line[0] == e
  {
    var t := ChartPointers(table, organisation, includeInactive);
    if CountAll(forest, e) == 1 {
      var k: nat :| Walk(t, e, k).None?;
      var line := WalkIsLine(table, organisation, includeInactive, e, k);
    }
    if line :| CommandLine(table, organisation, includeInactive, line) && line[0] == e {
      ChartLinks(table, organisation, includeInactive, e);
      LineIsWalked(table, organisation, includeInactive, line);
      assert Ends(t, e);
    }
  }

  predicate InNameOrder(table: EmployeeTable, nodes: seq<OrgNode>) {
    forall i, j :: 0 <= i < j < |nodes| && nodes[i].id in table && nodes[j].id in table ==>
      !(table[nodes[j].id].nameKey < table[nodes[i].id].nameKey)
  }

  lemma {:induction false} AllPlacedUnder(t: Pointers, table: EmployeeTable, nodes: seq<OrgNode>, manager: Option<Id>,
                                          i: nat)
    requires AllUnder(t, table, nodes, manager) && i < |nodes|
    ensures Next(t, nodes[i].id) == manager
  {
    if i > 0 {
      AllPlacedUnder(t, table, nodes[1..], manager, i - 1);
    }
  }

  lemma SortedIdsAreInNameOrder(table: EmployeeTable, nodes: seq<OrgNode>)
    requires Sorted(ByName(table), Ids(nodes))
    ensures InNameOrder(table, nodes)
  {
    forall i, j | 0 <= i < j < |nodes| && nodes[i].id in table && nodes[j].id in table
      ensures !(table[nodes[j].id].nameKey < table[nodes[i].id].nameKey)
    {
      assert ByName(table)(Ids(nodes)[i], Ids(nodes)[j]);
    }
  }

  /** The top level is in name order and holds nobody with a manager in the chart. */
  lemma TopLevel(table: EmployeeTable, organisation: nat, includeInactive: bool, forest: seq<OrgNode>, i: nat)
    requires IsChart(table, organisation, includeInactive, forest) && i < |forest|
    ensures InNameOrder(table, forest)
    ensures forest[i].id in table && PlacedUnder(table, organisation, includeInactive, forest[i].id, None)
  {
    var t := ChartPointers(table, organisation, includeInactive);
    SortedIdsAreInNameOrder(table, forest);
    AllPlacedUnder(t, table, forest, None, i);
    TopIsCounted(forest, i);
    ChartLinks(table, organisation, includeInactive, forest[i].id);
  }

  lemma {:induction false} TopIsCounted(forest: seq<OrgNode>, i: nat)
    requires i < |forest|
    ensures CountAll(forest, forest[i].id) > 0
  {
    if i > 0 {
      TopIsCounted(forest[1..], i - 1);
    }
  }

  /** Below a node, in name order, stand only employees whose manager is the node's. */
  lemma LevelBelow(table: EmployeeTable, organisation: nat, includeInactive: bool, forest: seq<OrgNode>, node: OrgNode,
                   i: nat)
    requires IsChart(table, organisation, includeInactive, forest) && Stands(node, forest) && i < |node.directReports|
    ensures InNameOrder(table, node.directReports)
    ensures var report := node.directReports[i].id;
            report in table && table[report].manager == Some(node.id)
  {
    var t := ChartPointers(table, organisation, includeInactive);
    NodePlacement(t, table, forest, None, node);
    SortedIdsAreInNameOrder(table, node.directReports);
    AllPlacedUnder(t, table, node.directReports, Some(node.id), i);
    ChartLinks(table, organisation, includeInactive, node.directReports[i].id);
  }

  // ----- the team

  /** By default a team holds active employees of the organisation only. */
  predicate Belongs(table: EmployeeTable, organisation: nat, includeInactive: bool, e: Id) {
    e in table && table[e].organisation == organisation && (!includeInactive ==> table[e].status.Active?)
  }

  /** From the employee up to the top, everybody but the top belongs and reports to the next. */
  ghost predicate ReportingLine(table: EmployeeTable, organisation: nat, includeInactive: bool, line: seq<Id>) {
    && |line| > 1
    && forall i :: 0 <= i < |line| - 1 ==>
         Belongs(table, organisation, includeInactive, line[i]) && table[line[i]].manager == Some(line[i + 1])
  }

  lemma TeamLinks(table: EmployeeTable, organisation: nat, includeInactive: bool, e: Id, m: Id)
    ensures Next(TeamPointers(table, organisation, includeInactive), e) == Some(m) <==>
              Belongs(table, organisation, includeInactive, e) && table[e].manager == Some(m)
  {
  }

  lemma {:induction false} WalkIsReporting(table: EmployeeTable, organisation: nat, includeInactive: bool, e: Id,
                                           top: Id, k: nat)
    returns (line: seq<Id>)
    requires k > 0 && Walk(TeamPointers(table, organisation, includeInactive), e, k) == Some(top)
    ensures ReportingLine(table, organisation, includeInactive, line)
    ensures |line| == k + 1 && line[0] == e && line[k] == top
    decreases k
  {
    var next := Next(TeamPointers(table, organisation, includeInactive), e).value;
    TeamLinks(table, organisation, includeInactive, e, next);
    if k == 1 {
      line := [e, top];
    } else {
      var rest := WalkIsReporting(table, organisation, includeInactive, next, top, k - 1);
      line := [e] + rest;
    }
  }

  lemma {:induction false} ReportingIsWalked(table: EmployeeTable, organisation: nat, includeInactive: bool,
                                             line: seq<Id>)
    requires ReportingLine(table, organisation, includeInactive, line)
    ensures Walk(TeamPointers(table, organisation, includeInactive), line[0], |line| - 1) == Some(line[|line| - 1])
    decreases |line|
  {
    TeamLinks(table, organisation, includeInactive, line[0], line[1]);
    if |line| > 2 {
      ReportingIsWalked(table, organisation, includeInactive, line[1..]);
    }
  }

  lemma {:induction false} ShortestWalk(up: Pointers, top: Id, x: Id, k: nat) returns (j: nat)
    requires k > 0 && Walk(up, x, k) == Some(top)
    ensures j <= k && Below(up, top, x, j)
    decreases k
  {
    if i: nat :| 0 < i < k && Walk(up, x, i) == Some(top) {
      j := ShortestWalk(up, top, x, i);
    } else {
      j := k;
    }
  }

  /**
   A full team holds an employee if and only if a reporting line leads from the employee to its
   head, and puts those first whose shortest line is shorter.
   */
  lemma TeamIff(table: EmployeeTable, organisation: nat, includeInactive: bool, top: Id, team: seq<Id>, e: Id)
    requires IsTeam(TeamPointers(table, organisation, includeInactive), top, team)
    ensures e in team <==>
              exists line :: && ReportingLine(table, organisation, includeInactive, line)
                             && line[0] == e && line[|line| - 1] == top
  {
    var up := TeamPointers(table, organisation, includeInactive);
    if e in team {
      var k: nat :| Below(up, top, e, k);
      var line := WalkIsReporting(table, organisation, includeInactive, e, top, k);
    }
    if line :| && ReportingLine(table, organisation, includeInactive, line)
               && line[0] == e && line[|line| - 1] == top {
      ReportingIsWalked(table, organisation, includeInactive, line);
      var j := ShortestWalk(up, top, e, |line| - 1);
    }
  }

  lemma TeamOrder(table: EmployeeTable, organisation: nat, includeInactive: bool, top: Id, team: seq<Id>, i: nat,
                  j: nat,
                  line: seq<Id>)
    requires IsTeam(TeamPointers(table, organisation, includeInactive), top, team) && i < j < |team|
    requires ReportingLine(table, organisation, includeInactive, line) && line[0] == team[j] && line[|line| - 1] == top
    ensures exists shorter :: && ReportingLine(table, organisation, includeInactive, shorter)
                              && shorter[0] == team[i] && shorter[|shorter| - 1] == top && |shorter| <= |line|
  {
    var up := TeamPointers(table, organisation, includeInactive);
    ReportingIsWalked(table, organisation, includeInactive, line);
    var l := ShortestWalk(up, top, team[j], |line| - 1);
    assert team[i] in team;
    var k: nat :| Below(up, top, team[i], k);
    var shorter := WalkIsReporting(table, organisation, includeInactive, team[i], top, k);
  }

  /** Without indirect reports, a team holds those who belong and report to its head, in query order. */
  lemma DirectTeamIff(table: EmployeeTable, order: seq<Id>, organisation: nat, includeInactive: bool, top: Id, e: Id)
    requires Lists(order, table)
    ensures e in Filter(order, ReportsTo(TeamPointers(table, organisation, includeInactive), top)) <==>
              Belongs(table, organisation, includeInactive, e) && table[e].manager == Some(top)
  {
    TeamLinks(table, organisation, includeInactive, e, top);
  }

  /** What stands at the places, which ascend. */
  predicate Picks(order: seq<Id>, places: seq<nat>, kept: seq<Id>) {
    && |places| == |kept|
    && (forall i :: 0 <= i < |places| ==> places[i] < |order| && order[places[i]] == kept[i])
    && (forall i, j :: 0 <= i < j < |places| ==> places[i] < places[j])
  }

  lemma PickingOneMore(order: seq<Id>, places: seq<nat>, kept: seq<Id>, first: bool) returns (more: seq<nat>)
    requires order != [] && Picks(order[1..], places, kept)
    ensures Picks(order, more, (if first then [order[0]] else []) + kept)
  {
    var shifted := seq(|places|, i requires 0 <= i < |places| => places[i] + 1);
    more := (if first then [0] else []) + shifted;
  }

  /** Rows that pass a filter keep the order of the query. */
  lemma {:induction false} FilterKeepsOrder(order: seq<Id>, keep: Id -> bool) returns (places: seq<nat>)
    ensures Picks(order, places, Filter(order, keep))
  {
    if order == [] {
      places := [];
    } else {
      var rest := FilterKeepsOrder(order[1..], keep);
      places := PickingOneMore(order, rest, Filter(order[1..], keep), keep(order[0]));
    }
  }

  // ----- the cycles

  /** In a reported list everybody but the last is managed by the next, and the last is the first. */
  lemma CyclesAreManagers(table: EmployeeTable, organisation: nat, cycles: seq<seq<Id>>, c: nat, i: nat)
    requires IsCycleReport(table, organisation, cycles) && c < |cycles| && i < |cycles[c]| - 1
    ensures cycles[c][i] in table && table[cycles[c][i]].manager == Some(cycles[c][i + 1])
    ensures cycles[c][0] == cycles[c][|cycles[c]| - 1]
  {
    assert ClosedChain(Managers(table), cycles[c]);
    assert Next(Managers(table), cycles[c][i]) == Some(cycles[c][i + 1]);
  }

  lemma ManagerLinks(table: EmployeeTable, e: Id, m: Id)
    ensures Next(Managers(table), e) == Some(m) <==> e in table && table[e].manager == Some(m)
  {
  }
}
