/** The search for cycles among manager pointers. */
module OrgChartCycles {
  import opened Prelude
  import opened PointerGraph
  import opened Employees

  /** A chain of managers that returns to its start, with no one else in it twice. */
  ghost predicate ClosedChain(g: Pointers, c: seq<Id>) {
    && |c| >= 2
    && c[0] == c[|c| - 1]
    && Distinct(c[..|c| - 1])
    && forall i :: 0 <= i < |c| - 1 ==> Next(g, c[i]) == Some(c[i + 1])
  }

  ghost predicate Reported(cycles: seq<seq<Id>>, x: Id) {
    exists i :: 0 <= i < |cycles| && x in cycles[i]
  }

  /** Genuine cycles, no two of which share a member. */
  ghost predicate SeparateCycles(g: Pointers, cycles: seq<seq<Id>>) {
    && (forall i :: 0 <= i < |cycles| ==> ClosedChain(g, cycles[i]))
    && (forall i, j, x :: 0 <= i < j < |cycles| && x in cycles[i] ==> x !in cycles[j])
  }

  ghost predicate Covered(g: Pointers, cycles: seq<seq<Id>>, s: set<Id>) {
    && (forall x :: x in s && OnCycle(g, x) ==> Reported(cycles, x))
    && (forall x: Id :: Reported(cycles, x) ==> x in s)
  }

  /** `path` is a chain of managers in which nobody occurs twice. */
  ghost predicate Chain(g: Pointers, path: seq<Id>) {
    && Distinct(path)
    && forall i :: 0 <= i < |path| - 1 ==> Next(g, path[i]) == Some(path[i + 1])
  }

  function Elements(path: seq<Id>): set<Id> {
    set x | x in path
  }

  // ----- facts about chains

  lemma {:induction false} ChainReachesLater(g: Pointers, path: seq<Id>, i: nat, j: nat)
    requires Chain(g, path) && i <= j < |path|
    ensures Reaches(g, path[i], path[j])
    decreases j - i
  {
    if i == j {
      ReachesItself(g, path[i]);
    } else {
      ChainReachesLater(g, path, i + 1, j);
      ReachesNext(g, path[i], path[j]);
    }
  }

  lemma ChainMember(g: Pointers, path: seq<Id>, x: Id)
    requires Chain(g, path) && x in path
    ensures Reaches(g, x, path[|path| - 1])
  {
    var i :| 0 <= i < |path| && path[i] == x;
    ChainReachesLater(g, path, i, |path| - 1);
  }

  /** When the chain runs into one of its own members, the members before that one lie on no cycle. */
  lemma LeadInIsOffCycle(g: Pointers, path: seq<Id>, start: nat, x: Id)
    requires Chain(g, path) && start < |path|
    requires Next(g, path[|path| - 1]) == Some(path[start])
    requires x in path && OnCycle(g, x)
    ensures x in path[start..]
  {
    var loop := Elements(path[start..]);
    assert Closed(g, loop) by {
      forall y: Id | y in loop && Next(g, y).Some?
        ensures Next(g, y).value in loop
      {
        var i :| start <= i < |path| && path[i] == y;
        if i < |path| - 1 {
          assert path[i + 1] in path[start..];
        } else {
          assert path[start] in path[start..];
        }
      }
    }
    if x !in loop {
      ChainMember(g, path, x);
      assert path[|path| - 1] in path[start..];
      LeadsAwayForGood(g, loop, x, path[|path| - 1]);
    }
  }

  /** When the chain runs into a closed set of other employees, none of its members lies on a cycle. */
  lemma TailIsOffCycle(g: Pointers, path: seq<Id>, done: set<Id>, next: Id, x: Id)
    requires Chain(g, path) && path != []
    requires Next(g, path[|path| - 1]) == Some(next) && next in done
    requires Closed(g, done) && x in path && x !in done
    ensures !OnCycle(g, x)
  {
    ChainMember(g, path, x);
    ReachesItself(g, next);
    ReachesNext(g, path[|path| - 1], next);
    ReachesTransitively(g, x, path[|path| - 1], next);
    LeadsAwayForGood(g, done, x, next);
  }

  /** When the chain ends, none of its members lies on a cycle. */
  lemma EndingChainIsOffCycle(g: Pointers, path: seq<Id>, x: Id)
    requires Chain(g, path) && x in path
    requires Next(g, path[|path| - 1]).None?
    ensures !OnCycle(g, x)
  {
    var last := path[|path| - 1];
    if x != last {
      ChainMember(g, path, x);
      LeadsAwayForGood(g, {last}, x, last);
    }
  }

  // ----- the search

  /** Everyone a pointer of the table starts from or leads to. */
  ghost function Universe(g: Pointers): set<Id> {
    g.Keys + set x | x in g && g[x].Some? :: g[x].value
  }

  /** What holds when the search is about to look at `next`, having come along `path`. */
  ghost predicate Searching(g: Pointers, cycles: seq<seq<Id>>, visited: set<Id>, path: seq<Id>, next: Id) {
    && Chain(g, path)
    && Elements(path) <= visited
    && visited <= Universe(g)
    && next in Universe(g)
    && (path != [] ==> Next(g, path[|path| - 1]) == Some(next))
    && Closed(g, visited - Elements(path))
    && SeparateCycles(g, cycles)
    && Covered(g, cycles, visited - Elements(path))
  }

  /** What holds when no search is under way. */
  ghost predicate Idle(g: Pointers, cycles: seq<seq<Id>>, visited: set<Id>) {
    && visited <= Universe(g)
    && Closed(g, visited)
    && SeparateCycles(g, cycles)
    && Covered(g, cycles, visited)
  }

  lemma PathIsClosedOff(g: Pointers, cycles: seq<seq<Id>>, visited: set<Id>, path: seq<Id>, next: Id)
    requires Searching(g, cycles, visited, path, next) && next in visited
    ensures Closed(g, visited)
  {
    forall x: Id | x in visited && Next(g, x).Some?
      ensures Next(g, x).value in visited
    {
      if x in Elements(path) {
        var i :| 0 <= i < |path| && path[i] == x;
        if i < |path| - 1 {
          assert path[i + 1] in Elements(path);
        }
      }
    }
  }

  lemma RepeatIsClosedChain(g: Pointers, path: seq<Id>, start: nat)
    requires Chain(g, path) && start < |path| && Next(g, path[|path| - 1]) == Some(path[start])
    ensures ClosedChain(g, path[start..] + [path[start]])
  {
    var c := path[start..] + [path[start]];
    assert c[..|c| - 1] == path[start..];
    forall i | 0 <= i < |c| - 1
      ensures Next(g, c[i]) == Some(c[i + 1])
    {
      assert c[i] == path[start + i];
    }
  }

  /** Meeting a member of the path again: the new cycle is genuine, is new, and settles the whole path. */
  lemma MeetingThePath(g: Pointers, cycles: seq<seq<Id>>, visited: set<Id>, path: seq<Id>, start: nat)
    requires start < |path| && Searching(g, cycles, visited, path, path[start])
    ensures Idle(g, cycles + [path[start..] + [path[start]]], visited)
  {
    var c := path[start..] + [path[start]];
    var extended := cycles + [c];
    RepeatIsClosedChain(g, path, start);
    PathIsClosedOff(g, cycles, visited, path, path[start]);
    assert forall x :: x in c ==> x in path && x in Elements(path);
    assert forall i :: 0 <= i < |cycles| ==> extended[i] == cycles[i];
    assert extended[|cycles|] == c;
    assert forall x :: x in c ==> !Reported(cycles, x);
    forall x | x in visited && OnCycle(g, x)
      ensures Reported(extended, x)
    {
      if x in Elements(path) {
        LeadInIsOffCycle(g, path, start, x);
        assert x in extended[|cycles|];
      } else {
        var i :| 0 <= i < |cycles| && x in cycles[i];
        assert x in extended[i];
      }
    }
    forall x: Id | Reported(extended, x)
      ensures x in visited
    {
      if !Reported(cycles, x) {
        assert x in c;
      }
    }
  }

  /** Meeting someone whose chain was followed before. */
  lemma MeetingTheVisited(g: Pointers, cycles: seq<seq<Id>>, visited: set<Id>, path: seq<Id>, next: Id)
    requires Searching(g, cycles, visited, path, next) && next in visited - Elements(path)
    ensures Idle(g, cycles, visited)
  {
    PathIsClosedOff(g, cycles, visited, path, next);
    forall x | x in visited && OnCycle(g, x)
      ensures Reported(cycles, x)
    {
      if x in Elements(path) {
        TailIsOffCycle(g, path, visited - Elements(path), next, x);
      }
    }
  }

  lemma Extending(g: Pointers, cycles: seq<seq<Id>>, visited: set<Id>, path: seq<Id>, next: Id)
    requires Searching(g, cycles, visited, path, next) && next !in visited
    ensures Chain(g, path + [next])
    ensures Elements(path + [next]) == Elements(path) + {next}
    ensures (visited + {next}) - Elements(path + [next]) == visited - Elements(path)
  {
  }

  /** Reaching the end of the chain. */
  lemma MeetingTheEnd(g: Pointers, cycles: seq<seq<Id>>, visited: set<Id>, path: seq<Id>, next: Id)
    requires Searching(g, cycles, visited, path, next) && next !in visited && Next(g, next).None?
    ensures Idle(g, cycles, visited + {next})
  {
    Extending(g, cycles, visited, path, next);
    var longer := path + [next];
    var all := visited + {next};
    forall x: Id | x in all && Next(g, x).Some?
      ensures Next(g, x).value in all
    {
      if x in Elements(path) {
        var i :| 0 <= i < |path| && path[i] == x;
        assert longer[i + 1] in Elements(longer);
      }
    }
    forall x | x in all && OnCycle(g, x)
      ensures Reported(cycles, x)
    {
      if x in Elements(longer) {
        EndingChainIsOffCycle(g, longer, x);
      }
    }
  }

  class CycleFinder {
    const g: Pointers
    var cycles: seq<seq<Id>>
    var visited: set<Id>
    var recStack: set<Id>

    constructor (g: Pointers)
      ensures this.g == g && cycles == [] && visited == {} && recStack == {}
    {
      this.g := g;
      cycles, visited, recStack := [], {}, {};
    }

    method Dfs(next: Id, path: seq<Id>) returns (found: bool)
      requires Searching(g, cycles, visited, path, next) && recStack == Elements(path)
      modifies this
      ensures Idle(g, cycles, visited)
      ensures recStack == old(recStack)
      ensures old(visited) + {next} <= visited
      ensures forall x :: x in visited ==> x in old(visited) || Reaches(g, next, x)
      decreases Universe(g) - visited
    {
      ReachesItself(g, next);
      if next in recStack {
        var start :| 0 <= start < |path| && path[start] == next;
        MeetingThePath(g, cycles, visited, path, start);
        cycles := cycles + [path[start..] + [next]];
        return true;
      }
      if next in visited {
        MeetingTheVisited(g, cycles, visited, path, next);
        return false;
      }
      Extending(g, cycles, visited, path, next);
      ghost var before := visited;
      visited := visited + {next};
      recStack := recStack + {next};
      if next in g && g[next].Some? {
        var manager := g[next].value;
        var _ := Dfs(manager, path + [next]);
        forall x | x in visited
          ensures x in before || Reaches(g, next, x)
        {
          if x !in before && x != next {
            ReachesNext(g, next, x);
          }
        }
      } else {
        MeetingTheEnd(g, cycles, before, path, next);
      }
      recStack := recStack - {next};
      return false;
    }
  }

  lemma ReportedIsOnCycle(g: Pointers, c: seq<Id>, x: Id)
    requires ClosedChain(g, c) && x in c
    ensures OnCycle(g, x)
  {
    var loop := c[..|c| - 1];
    var i :| 0 <= i < |loop| && loop[i] == x;
    assert Chain(g, loop);
    ChainReachesLater(g, loop, i, |loop| - 1);
    ChainReachesLater(g, loop, 0, i);
    var last := loop[|loop| - 1];
    assert Next(g, last) == Some(c[0]);
    ReachesNext(g, last, x);
    ReachesTransitively(g, x, last, x);
    var k: nat :| Walk(g, last, k) == Some(x);
    ReturnIsCycle(g, x, last);
  }

  /** Leaving `x` for a point whose next is upstream of `x` comes back to `x` in at least one step. */
  lemma ReturnIsCycle(g: Pointers, x: Id, last: Id)
    requires Reaches(g, x, last) && Next(g, last).Some? && Reaches(g, Next(g, last).value, x)
    ensures OnCycle(g, x)
  {
    var j: nat :| Walk(g, x, j) == Some(last);
    var k: nat :| Walk(g, Next(g, last).value, k) == Some(x);
    WalkSplits(g, x, j, k + 1);
    assert Walk(g, last, k + 1) == Some(x);
    assert Walk(g, x, j + (k + 1)) == Some(x);
  }

  ghost predicate InReach(table: EmployeeTable, organisation: nat, x: Id) {
    exists e :: e in table && table[e].organisation == organisation && Reaches(Managers(table), e, x)
  }

  /**
   Every reported list is a genuine cycle of managers, the lists share nobody, and someone is in
   one of them exactly when they lie on a cycle that an employee of the organisation leads to.
   */
  ghost predicate IsCycleReport(table: EmployeeTable, organisation: nat, cycles: seq<seq<Id>>) {
    && SeparateCycles(Managers(table), cycles)
    && (forall x: Id :: Reported(cycles, x) <==> OnCycle(Managers(table), x) && InReach(table, organisation, x))
  }

  method ValidateOrgChartCycles(table: EmployeeTable, order: seq<Id>, organisation: nat) returns (cycles: seq<seq<Id>>)
    requires Lists(order, table)
    ensures IsCycleReport(table, organisation, cycles)
  {
    var g := Managers(table);
    var employees := Filter(order, e => e in table && table[e].organisation == organisation && table[e].manager.Some?);
    var finder := new CycleFinder(g);
    for i := 0 to |employees|
      invariant fresh(finder) && finder.g == g && finder.recStack == {}
      invariant Idle(g, finder.cycles, finder.visited)
      invariant forall j :: 0 <= j < i ==> employees[j] in finder.visited
      invariant forall x :: x in finder.visited ==> InReach(table, organisation, x)
    {
      var employee := employees[i];
      assert employee in employees;
      if employee !in finder.visited {
        assert Elements([]) == {};
        assert finder.visited - Elements([]) == finder.visited;
        var _ := finder.Dfs(employee, []);
      }
    }
    cycles := finder.cycles;
    forall x | Reported(cycles, x)
      ensures OnCycle(g, x)
    {
      var i :| 0 <= i < |cycles| && x in cycles[i];
      ReportedIsOnCycle(g, cycles[i], x);
    }
    forall x: Id | OnCycle(g, x) && InReach(table, organisation, x)
      ensures Reported(cycles, x)
    {
      var e :| e in table && table[e].organisation == organisation && Reaches(g, e, x);
      var k: nat :| Walk(g, e, k) == Some(x);
      if table[e].manager.Some? {
        assert e in employees;
        WalkStaysInClosed(g, finder.visited, e, k);
      } else {
      }
    }
  }
}
