/** The organisation chart as a forest, and how it agrees with the search for cycles. */
module OrgChartTree {
  import opened Prelude
  import opened Sorting
  import opened PointerGraph
  import opened Employees
  import opened OrgChartCycles

  datatype OrgNode = OrgNode(id: Id, directReports: seq<OrgNode>)

  predicate Shown(table: EmployeeTable, organisation: nat, includeInactive: bool, e: Id) {
    && e in table
    && table[e].organisation == organisation
    && (includeInactive || table[e].status in {Active, Invited, Pending})
  }

  /** The manager pointers of the chart: those between two employees who are both shown. */
  function ChartPointers(table: EmployeeTable, organisation: nat, includeInactive: bool): Pointers {
    map e | e in table && Shown(table, organisation, includeInactive, e) ::
      var manager := table[e].manager;
      if manager.Some? && Shown(table, organisation, includeInactive, manager.value) then manager else None
  }

  // ----- sorting by name

  function NameKey(table: EmployeeTable, e: Id): int {
    if e in table then table[e].nameKey else 0
  }

  function ByName(table: EmployeeTable): (Id, Id) -> bool {
    (a: Id, b: Id) => NameKey(table, a) <= NameKey(table, b)
  }

  function SortByName(table: EmployeeTable, es: seq<Id>): seq<Id> {
    Sort(ByName(table), es)
  }

  lemma SortingByName(table: EmployeeTable, es: seq<Id>)
    ensures Sorted(ByName(table), SortByName(table, es))
    ensures forall x: Id :: x in SortByName(table, es) <==> x in es
    ensures Distinct(es) ==> Distinct(SortByName(table, es))
  {
    SortPermutes(ByName(table), es);
    SortedMembers(ByName(table), es);
  }

  // ----- building the forest

  function ReportsTo(t: Pointers, manager: Id): Id -> bool {
    (e: Id) => Next(t, e) == Some(manager)
  }

  function IsRoot(t: Pointers): Id -> bool {
    (e: Id) => Next(t, e).None?
  }

  function IsShown(table: EmployeeTable, organisation: nat, includeInactive: bool): Id -> bool {
    (e: Id) => Shown(table, organisation, includeInactive, e)
  }

  /** `children` lists, for each manager, exactly the employees who report to that manager. */
  ghost predicate ListsReports(t: Pointers, children: map<Id, seq<Id>>) {
    forall m: Id :: && Distinct(ListAt(children, m))
                && forall e: Id :: e in ListAt(children, m) <==> Next(t, e) == Some(m)
  }

  ghost predicate AtDepth(t: Pointers, es: seq<Id>, depth: nat) {
    forall e: Id :: e in es ==> Ends(t, e) && Depth(t, e) == depth
  }

  lemma ReportsAreDeeper(t: Pointers, table: EmployeeTable, children: map<Id, seq<Id>>, e: Id)
    requires ListsReports(t, children) && Ends(t, e)
    ensures AtDepth(t, SortByName(table, ListAt(children, e)), Depth(t, e) + 1)
  {
    SortingByName(table, ListAt(children, e));
    forall c: Id | c in SortByName(table, ListAt(children, e))
      ensures Ends(t, c) && Depth(t, c) == Depth(t, e) + 1
    {
      EndsAlong(t, c);
      DepthOfNext(t, c);
    }
  }

  function BuildNode(ghost t: Pointers, table: EmployeeTable, children: map<Id, seq<Id>>, e: Id): (node: OrgNode)
    requires ListsReports(t, children) && Ends(t, e)
    ensures node.id == e
    decreases |t| + 1 - Depth(t, e), 0
  {
    DepthIsBounded(t, e);
    ReportsAreDeeper(t, table, children, e);
    OrgNode(e, BuildNodes(t, table, children, SortByName(table, ListAt(children, e)), Depth(t, e) + 1))
  }

  function BuildNodes(ghost t: Pointers, table: EmployeeTable, children: map<Id, seq<Id>>, es: seq<Id>,
                      ghost depth: nat)
    : (nodes: seq<OrgNode>)
    requires ListsReports(t, children) && AtDepth(t, es, depth) && depth <= |t| + 1
    ensures |nodes| == |es| && forall i :: 0 <= i < |es| ==> nodes[i].id == es[i]
    decreases |t| + 1 - depth, |es|
  {
    if es == [] then []
    else
      assert es[0] in es;
      [BuildNode(t, table, children, es[0])] + BuildNodes(t, table, children, es[1..], depth)
  }

  // ----- how often an employee is placed

  function Count(node: OrgNode, x: Id): nat {
    (if node.id == x then 1 else 0) + CountAll(node.directReports, x)
  }

  function CountAll(nodes: seq<OrgNode>, x: Id): nat {
    if nodes == [] then 0 else Count(nodes[0], x) + CountAll(nodes[1..], x)
  }

  lemma DepthAlongWalk(t: Pointers, x: Id, y: Id, k: nat)
    requires Walk(t, x, k) == Some(y) && Ends(t, y)
    ensures Ends(t, x) && Depth(t, x) == Depth(t, y) + k
  {
    var d := Depth(t, y);
    WalkSplits(t, x, k, d);
    WalkSplits(t, x, k, d + 1);
    assert StopsAfter(t, x, k + d);
    StopsOnce(t, x, Depth(t, x), k + d);
  }

  /** At any one depth, an employee has at most one superior. */
  lemma OneSuperiorPerDepth(t: Pointers, x: Id, a: Id, b: Id)
    requires Reaches(t, x, a) && Reaches(t, x, b) && Ends(t, a) && Ends(t, b) && Depth(t, a) == Depth(t, b)
    ensures a == b
  {
    var j: nat :| Walk(t, x, j) == Some(a);
    var k: nat :| Walk(t, x, k) == Some(b);
    DepthAlongWalk(t, x, a, j);
    DepthAlongWalk(t, x, b, k);
  }

  ghost predicate ReachesOne(t: Pointers, x: Id, es: seq<Id>) {
    exists e: Id :: e in es && Reaches(t, x, e)
  }

  lemma ReachesThroughReport(t: Pointers, x: Id, e: Id, reports: seq<Id>)
    requires Ends(t, e) && forall c: Id :: c in reports <==> Next(t, c) == Some(e)
    ensures Reaches(t, x, e) <==> x == e || ReachesOne(t, x, reports)
    ensures x == e ==> !ReachesOne(t, x, reports)
  {
    ReachesItself(t, e);
    if Reaches(t, x, e) && x != e {
      var k: nat :| Walk(t, x, k) == Some(e);
      WalkSplits(t, x, k - 1, 1);
      var c := Walk(t, x, k - 1).value;
      assert Walk(t, c, 1) == Some(e);
      assert Next(t, c).Some? && Walk(t, Next(t, c).value, 0) == Next(t, c);
      assert Reaches(t, x, c);
    }
    if ReachesOne(t, x, reports) {
      var c: Id :| c in reports && Reaches(t, x, c);
      ReachesNext(t, c, e);
      ReachesTransitively(t, x, c, e);
      if x == e {
        ReturnIsCycle(t, e, c);
        EndingIsOffCycle(t, e);
      }
    }
  }

  /** Of distinct employees at one depth, at most one is a superior of `x`. */
  lemma ReachesFirstOrRest(t: Pointers, x: Id, es: seq<Id>, depth: nat)
    requires es != [] && Distinct(es) && AtDepth(t, es, depth)
    ensures ReachesOne(t, x, es) <==> Reaches(t, x, es[0]) || ReachesOne(t, x, es[1..])
    ensures Reaches(t, x, es[0]) ==> !ReachesOne(t, x, es[1..])
  {
    assert forall e: Id :: e in es <==> e == es[0] || e in es[1..];
    if Reaches(t, x, es[0]) {
      forall e: Id | e in es[1..]
        ensures !Reaches(t, x, e)
      {
        if Reaches(t, x, e) {
          OneSuperiorPerDepth(t, x, es[0], e);
        }
      }
    }
  }

  /** A node holds, once each, its employee and everybody who reports to them directly or not. */
  lemma {:induction false} NodeHoldsItsReports(t: Pointers, table: EmployeeTable, children: map<Id, seq<Id>>, e: Id,
                                               x: Id)
    requires ListsReports(t, children) && Ends(t, e)
    ensures Count(BuildNode(t, table, children, e), x) == if Reaches(t, x, e) then 1 else 0
    decreases |t| + 1 - Depth(t, e), 0
  {
    var reports := SortByName(table, ListAt(children, e));
    DepthIsBounded(t, e);
    ReportsAreDeeper(t, table, children, e);
    SortingByName(table, ListAt(children, e));
    NodesHoldTheirReports(t, table, children, reports, Depth(t, e) + 1, x);
    ReachesThroughReport(t, x, e, reports);
  }

  lemma {:induction false} NodesHoldTheirReports(t: Pointers, table: EmployeeTable, children: map<Id, seq<Id>>,
                                                 es: seq<Id>, depth: nat, x: Id)
    requires ListsReports(t, children) && AtDepth(t, es, depth) && depth <= |t| + 1 && Distinct(es)
    ensures CountAll(BuildNodes(t, table, children, es, depth), x) == if ReachesOne(t, x, es) then 1 else 0
    decreases |t| + 1 - depth, |es|
  {
    if es != [] {
      assert es[0] in es;
      NodeHoldsItsReports(t, table, children, es[0], x);
      NodesHoldTheirReports(t, table, children, es[1..], depth, x);
      ReachesFirstOrRest(t, x, es, depth);
    }
  }

  // ----- the shape of the forest

  function Ids(nodes: seq<OrgNode>): (ids: seq<Id>)
    ensures |ids| == |nodes| && forall i :: 0 <= i < |nodes| ==> ids[i] == nodes[i].id
  {
    seq(|nodes|, i requires 0 <= i < |nodes| => nodes[i].id)
  }

  /** Under every node stand, in name order, only employees who report to that node's employee. */
  ghost predicate WellPlaced(t: Pointers, table: EmployeeTable, node: OrgNode)
    decreases node, 1
  {
    Sorted(ByName(table), Ids(node.directReports)) && AllUnder(t, table, node.directReports, Some(node.id))
  }

  ghost predicate AllUnder(t: Pointers, table: EmployeeTable, nodes: seq<OrgNode>, manager: Option<Id>)
    decreases nodes, 0
  {
    nodes == [] ||
    (&& Next(t, nodes[0].id) == manager
     && WellPlaced(t, table, nodes[0])
     && AllUnder(t, table, nodes[1..], manager))
  }

  lemma {:induction false} NodeIsWellPlaced(t: Pointers, table: EmployeeTable, children: map<Id, seq<Id>>, e: Id)
    requires ListsReports(t, children) && Ends(t, e)
    ensures WellPlaced(t, table, BuildNode(t, table, children, e))
    decreases |t| + 1 - Depth(t, e), 0
  {
    var reports := SortByName(table, ListAt(children, e));
    DepthIsBounded(t, e);
    ReportsAreDeeper(t, table, children, e);
    SortingByName(table, ListAt(children, e));
    NodesAreWellPlaced(t, table, children, reports, Depth(t, e) + 1, Some(e));
    assert Ids(BuildNode(t, table, children, e).directReports) == reports;
  }

  lemma {:induction false} NodesAreWellPlaced(t: Pointers, table: EmployeeTable, children: map<Id, seq<Id>>,
                                              es: seq<Id>, depth: nat, manager: Option<Id>)
    requires ListsReports(t, children) && AtDepth(t, es, depth) && depth <= |t| + 1
    requires forall e: Id :: e in es ==> Next(t, e) == manager
    ensures AllUnder(t, table, BuildNodes(t, table, children, es, depth), manager)
    decreases |t| + 1 - depth, |es|
  {
    if es != [] {
      assert es[0] in es;
      NodeIsWellPlaced(t, table, children, es[0]);
      NodesAreWellPlaced(t, table, children, es[1..], depth, manager);
    }
  }

  /**
   Every shown employee whose chain of shown managers ends is placed exactly once, under their
   manager or at the top; nobody else is placed.
   */
  ghost predicate IsChart(table: EmployeeTable, organisation: nat, includeInactive: bool, forest: seq<OrgNode>) {
    var t := ChartPointers(table, organisation, includeInactive);
    && (forall x: Id :: CountAll(forest, x) == if x in t && Ends(t, x) then 1 else 0)
    && Sorted(ByName(table), Ids(forest))
    && AllUnder(t, table, forest, None)
  }

  lemma {:induction false} ChainEndsAtRoot(t: Pointers, x: Id, roots: seq<Id>, k: nat)
    requires x in t && (forall e: Id :: e in t && Next(t, e).None? ==> e in roots)
    requires forall e: Id :: e in t && Next(t, e).Some? ==> Next(t, e).value in t
    requires StopsAfter(t, x, k)
    ensures ReachesOne(t, x, roots)
    decreases k
  {
    if k == 0 {
      WalkOne(t, x);
      ReachesItself(t, x);
    } else {
      var y := Next(t, x).value;
      ChainEndsAtRoot(t, y, roots, k - 1);
      var r: Id :| r in roots && Reaches(t, y, r);
      ReachesNext(t, x, r);
    }
  }

  /** What the roots of a chart are: shown, and without a shown manager. */
  ghost predicate AreRoots(t: Pointers, roots: seq<Id>) {
    Distinct(roots) && forall e: Id :: e in roots <==> e in t && Next(t, e).None?
  }

  lemma RootsAreAtTheTop(t: Pointers, roots: seq<Id>)
    requires AreRoots(t, roots)
    ensures AtDepth(t, roots, 0)
  {
    forall e: Id | e in roots
      ensures Ends(t, e) && Depth(t, e) == 0
    {
      assert Walk(t, e, 1).None?;
      assert StopsAfter(t, e, 0);
      StopsOnce(t, e, Depth(t, e), 0);
    }
  }

  lemma ForestPlacesWhoEnds(t: Pointers, table: EmployeeTable, children: map<Id, seq<Id>>, roots: seq<Id>, x: Id)
    requires ListsReports(t, children) && AreRoots(t, roots) && AtDepth(t, roots, 0)
    requires forall e: Id :: e in t && Next(t, e).Some? ==> Next(t, e).value in t
    ensures CountAll(BuildNodes(t, table, children, roots, 0), x) == if x in t && Ends(t, x) then 1 else 0
  {
    NodesHoldTheirReports(t, table, children, roots, 0, x);
    if x in t && Ends(t, x) {
      ChainEndsAtRoot(t, x, roots, Depth(t, x));
    } else if ReachesOne(t, x, roots) {
      var r: Id :| r in roots && Reaches(t, x, r);
      var k: nat :| Walk(t, x, k) == Some(r);
      DepthAlongWalk(t, x, r, k);
    }
  }

  lemma ForestIsChart(table: EmployeeTable, organisation: nat, includeInactive: bool, t: Pointers,
                      children: map<Id, seq<Id>>, roots: seq<Id>)
    requires t == ChartPointers(table, organisation, includeInactive)
    requires ListsReports(t, children) && AreRoots(t, roots)
    ensures AtDepth(t, SortByName(table, roots), 0)
    ensures IsChart(table, organisation, includeInactive, BuildNodes(t, table, children, SortByName(table, roots), 0))
  {
    var sorted := SortByName(table, roots);
    SortingByName(table, roots);
    assert AreRoots(t, sorted);
    RootsAreAtTheTop(t, sorted);
    var forest := BuildNodes(t, table, children, sorted, 0);
    assert Ids(forest) == sorted;
    NodesAreWellPlaced(t, table, children, sorted, 0, None);
    forall x: Id
      ensures CountAll(forest, x) == if x in t && Ends(t, x) then 1 else 0
    {
      ForestPlacesWhoEnds(t, table, children, sorted, x);
    }
  }

  /** `t` holds the manager pointers between two of the listed employees. */
  ghost predicate PointersAmong(t: Pointers, table: EmployeeTable, employees: seq<Id>) {
    && (forall e: Id :: e in t <==> e in employees)
    && (forall e: Id :: e in employees ==> e in table)
    && forall e: Id {:trigger Next(t, e)} :: e in employees ==>
         Next(t, e) == if table[e].manager.Some? && table[e].manager.value in employees then table[e].manager else None
  }

  /** The listed employees, grouped by manager, in the order of the list. */
  ghost predicate Grouped(t: Pointers, es: seq<Id>, children: map<Id, seq<Id>>, roots: seq<Id>) {
    && roots == Filter(es, IsRoot(t))
    && forall m: Id :: ListAt(children, m) == Filter(es, ReportsTo(t, m))
  }

  lemma GroupingOne(t: Pointers, es: seq<Id>, e: Id, children: map<Id, seq<Id>>, extended: map<Id, seq<Id>>,
                    roots: seq<Id>, extendedRoots: seq<Id>)
    requires Grouped(t, es, children, roots)
    requires extendedRoots == roots + (if Next(t, e).None? then [e] else [])
    requires forall m: Id :: ListAt(extended, m) == ListAt(children, m) + (if Next(t, e) == Some(m) then [e] else [])
    ensures Grouped(t, es + [e], extended, extendedRoots)
  {
    FilterAppends(es, e, IsRoot(t));
    forall m: Id
      ensures ListAt(extended, m) == Filter(es + [e], ReportsTo(t, m))
    {
      FilterAppends(es, e, ReportsTo(t, m));
    }
  }

  method GroupByManager(ghost t: Pointers, table: EmployeeTable, employees: seq<Id>)
    returns (children: map<Id, seq<Id>>, roots: seq<Id>)
    requires Distinct(employees) && PointersAmong(t, table, employees)
    ensures ListsReports(t, children) && AreRoots(t, roots)
  {
    children := map[];
    roots := [];
    for i := 0 to |employees|
      invariant Grouped(t, employees[..i], children, roots)
    {
      ghost var before, topBefore := children, roots;
      var e := employees[i];
      assert e in employees;
      var manager := table[e].manager;
      if manager.Some? && manager.value in employees {
        children := AppendAt(children, manager.value, e);
      } else {
        roots := roots + [e];
      }
      assert Next(t, e) == if manager.Some? && manager.value in employees then manager else None;
      assert Grouped(t, employees[..i + 1], children, roots) by {
        assert employees[..i + 1] == employees[..i] + [e];
        GroupingOne(t, employees[..i], e, before, children, topBefore, roots);
      }
    }
    assert ListsReports(t, children) && AreRoots(t, roots) by {
      assert employees[..|employees|] == employees;
      GroupsAreComplete(t, employees, children, roots);
    }
  }

  lemma GroupsAreComplete(t: Pointers, employees: seq<Id>, children: map<Id, seq<Id>>, roots: seq<Id>)
    requires Distinct(employees) && forall e: Id :: e in t <==> e in employees
    requires Grouped(t, employees, children, roots)
    ensures ListsReports(t, children) && AreRoots(t, roots)
  {
    forall m: Id
      ensures Distinct(ListAt(children, m)) && forall e: Id :: e in ListAt(children, m) <==> Next(t, e) == Some(m)
    {
      FilterIsDistinct(employees, ReportsTo(t, m));
    }
    FilterIsDistinct(employees, IsRoot(t));
  }

  method GetOrgChartTree(table: EmployeeTable, order: seq<Id>, organisation: nat, includeInactive: bool)
    returns (forest: seq<OrgNode>)
    requires Lists(order, table)
    ensures IsChart(table, organisation, includeInactive, forest)
  {
    ghost var t := ChartPointers(table, organisation, includeInactive);
    var employees := Filter(order, IsShown(table, organisation, includeInactive));
    FilterIsDistinct(order, IsShown(table, organisation, includeInactive));
    var children, roots := GroupByManager(t, table, employees);
    ForestIsChart(table, organisation, includeInactive, t, children, roots);
    forest := BuildNodes(t, table, children, SortByName(table, roots), 0);
  }

  // ----- agreement with the search for cycles

  ghost predicate ManagersInSameOrganisation(table: EmployeeTable, organisation: nat) {
    forall e: Id :: e in table && table[e].organisation == organisation && table[e].manager.Some?
      && table[e].manager.value in table
      ==> table[table[e].manager.value].organisation == organisation
  }

  lemma {:induction false} ChartWalkIsManagerWalk(table: EmployeeTable, organisation: nat, e: Id, k: nat)
    requires Walk(ChartPointers(table, organisation, true), e, k).Some?
    ensures Walk(Managers(table), e, k) == Walk(ChartPointers(table, organisation, true), e, k)
    decreases k
  {
    if k > 0 {
      var t := ChartPointers(table, organisation, true);
      ChartWalkIsManagerWalk(table, organisation, Next(t, e).value, k - 1);
    }
  }

  lemma {:induction false} LongManagerWalkIsInChart(table: EmployeeTable, organisation: nat, e: Id, k: nat)
    requires ManagersInSameOrganisation(table, organisation)
    requires Shown(table, organisation, true, e) && Walk(Managers(table), e, k + 1).Some?
    ensures Walk(ChartPointers(table, organisation, true), e, k).Some?
    decreases k
  {
    if k > 0 {
      var y := Next(Managers(table), e).value;
      assert Walk(Managers(table), y, k).Some?;
      assert Next(Managers(table), y).Some?;
      LongManagerWalkIsInChart(table, organisation, y, k - 1);
    }
  }

  lemma ChainsEndAlike(table: EmployeeTable, organisation: nat, e: Id)
    requires ManagersInSameOrganisation(table, organisation) && Shown(table, organisation, true, e)
    ensures Ends(ChartPointers(table, organisation, true), e) <==> Ends(Managers(table), e)
  {
    var t := ChartPointers(table, organisation, true);
    var g := Managers(table);
    if Ends(g, e) {
      var k: nat :| Walk(g, e, k).None?;
      if Walk(t, e, k).Some? {
        ChartWalkIsManagerWalk(table, organisation, e, k);
      }
    }
    if Ends(t, e) {
      var k: nat :| Walk(t, e, k).None?;
      if Walk(g, e, k + 1).Some? {
        LongManagerWalkIsInChart(table, organisation, e, k);
      }
    }
  }

  /**
   With inactive employees included and managers in the same organisation, the chart shows
   everyone exactly when the search for cycles reports none.
   */
  lemma EveryoneShownIffNoCycles(table: EmployeeTable, organisation: nat, cycles: seq<seq<Id>>, forest: seq<OrgNode>)
    requires ManagersInSameOrganisation(table, organisation)
    requires IsCycleReport(table, organisation, cycles)
    requires IsChart(table, organisation, true, forest)
    ensures cycles == [] <==>
            forall e: Id :: e in table && table[e].organisation == organisation ==> CountAll(forest, e) == 1
  {
    var t := ChartPointers(table, organisation, true);
    var g := Managers(table);
    forall e: Id | e in table && table[e].organisation == organisation
      ensures CountAll(forest, e) == 1 <==> !exists y: Id :: Reaches(g, e, y) && OnCycle(g, y)
    {
      ChainsEndAlike(table, organisation, e);
      EndsUnlessCycle(g, e);
    }
    if cycles == [] {
      forall e: Id | e in table && table[e].organisation == organisation
        ensures !exists y: Id :: Reaches(g, e, y) && OnCycle(g, y)
      {
        assert forall y: Id :: !Reported(cycles, y);
      }
    } else {
      var x := cycles[0][0];
      assert Reported(cycles, x);
      var e: Id :| e in table && table[e].organisation == organisation && Reaches(g, e, x);
      assert CountAll(forest, e) != 1;
    }
  }
}
