/**
 Tables whose rows point to at most one other row: employees to their managers, departments to
 their parents. A pointer may dangle, in which case the walk along it stops there.
 */
module PointerGraph {
  import opened Prelude

  type Id = nat

  type Pointers = map<Id, Option<Id>>

  function Next(g: Pointers, x: Id): Option<Id> {
    if x in g then g[x] else None
  }

  /** `steps` links on from `x`, if the chain is that long. */
  function Walk(g: Pointers, x: Id, steps: nat): Option<Id>
    decreases steps
  {
    if steps == 0 then Some(x)
    else if Next(g, x).None? then None
    else Walk(g, Next(g, x).value, steps - 1)
  }

  ghost predicate Reaches(g: Pointers, x: Id, y: Id) {
    exists k: nat :: Walk(g, x, k) == Some(y)
  }

  ghost predicate OnCycle(g: Pointers, x: Id) {
    exists k: nat :: k > 0 && Walk(g, x, k) == Some(x)
  }

  /** The chain from `x` comes to an end. */
  ghost predicate Ends(g: Pointers, x: Id) {
    exists k: nat :: Walk(g, x, k).None?
  }

  ghost predicate Acyclic(g: Pointers) {
    forall x: Id :: !OnCycle(g, x)
  }

  ghost predicate Closed(g: Pointers, s: set<Id>) {
    forall x: Id :: x in s && Next(g, x).Some? ==> Next(g, x).value in s
  }

  // ----- walks

  lemma {:induction false} WalkSplits(g: Pointers, x: Id, j: nat, k: nat)
    ensures Walk(g, x, j + k) == if Walk(g, x, j).None? then None else Walk(g, Walk(g, x, j).value, k)
    decreases j
  {
    if j > 0 && Next(g, x).Some? {
      WalkSplits(g, Next(g, x).value, j - 1, k);
    }
  }

  lemma WalkOne(g: Pointers, x: Id)
    ensures Walk(g, x, 1) == Next(g, x)
  {
    if Next(g, x).Some? {
      assert Walk(g, Next(g, x).value, 0) == Next(g, x);
    }
  }

  lemma ReachesNext(g: Pointers, x: Id, y: Id)
    requires Next(g, x).Some? && Reaches(g, Next(g, x).value, y)
    ensures Reaches(g, x, y)
  {
    var k: nat :| Walk(g, Next(g, x).value, k) == Some(y);
    assert Walk(g, x, k + 1) == Some(y);
  }

  lemma ReachesItself(g: Pointers, x: Id)
    ensures Reaches(g, x, x)
  {
    assert Walk(g, x, 0) == Some(x);
  }

  lemma ReachesTransitively(g: Pointers, x: Id, y: Id, z: Id)
    requires Reaches(g, x, y) && Reaches(g, y, z)
    ensures Reaches(g, x, z)
  {
    var j: nat :| Walk(g, x, j) == Some(y);
    var k: nat :| Walk(g, y, k) == Some(z);
    WalkSplits(g, x, j, k);
  }

  lemma {:induction false} WalkStaysInClosed(g: Pointers, s: set<Id>, x: Id, k: nat)
    requires Closed(g, s) && x in s
    ensures Walk(g, x, k).Some? ==> Walk(g, x, k).value in s
    decreases k
  {
    if k > 0 && Next(g, x).Some? {
      WalkStaysInClosed(g, s, Next(g, x).value, k - 1);
    }
  }

  /** From anywhere downstream of a point on a cycle, the walk leads back to that point. */
  lemma {:induction false} CycleLeadsBack(g: Pointers, x: Id, j: nat)
    requires OnCycle(g, x)
    ensures Walk(g, x, j).Some? && Reaches(g, Walk(g, x, j).value, x)
    decreases j
  {
    if j == 0 {
      ReachesItself(g, x);
    } else {
      CycleLeadsBack(g, x, j - 1);
      var y := Walk(g, x, j - 1).value;
      WalkSplits(g, x, j - 1, 1);
      var m: nat :| Walk(g, y, m) == Some(x);
      if m == 0 {
        var k: nat :| k > 0 && Walk(g, x, k) == Some(x);
        assert Walk(g, Next(g, x).value, k - 1) == Some(x);
      } else {
        assert Walk(g, Next(g, y).value, m - 1) == Some(x);
      }
      WalkOne(g, y);
    }
  }

  /** A point outside a closed set that leads into it lies on no cycle. */
  lemma LeadsAwayForGood(g: Pointers, s: set<Id>, x: Id, y: Id)
    requires Closed(g, s) && x !in s && y in s && Reaches(g, x, y)
    ensures !OnCycle(g, x)
  {
    if OnCycle(g, x) {
      var j: nat :| Walk(g, x, j) == Some(y);
      CycleLeadsBack(g, x, j);
      var k: nat :| Walk(g, y, k) == Some(x);
      WalkStaysInClosed(g, s, y, k);
    }
  }

  // ----- chains end unless they run into a cycle

  /** The first `n` points of the walk from `x`. */
  function Points(g: Pointers, x: Id, n: nat): (points: seq<Id>)
    requires forall k :: 0 <= k < n ==> Walk(g, x, k).Some?
    ensures |points| == n && forall k :: 0 <= k < n ==> Some(points[k]) == Walk(g, x, k)
  {
    seq(n, k requires 0 <= k < n => Walk(g, x, k).value)
  }

  lemma {:induction false} WalkPrefix(g: Pointers, x: Id, j: nat, k: nat)
    requires j <= k && Walk(g, x, k).Some?
    ensures Walk(g, x, j).Some?
  {
    WalkSplits(g, x, j, k - j);
  }

  lemma RepeatIsCycle(g: Pointers, x: Id, i: nat, j: nat)
    requires i < j && Walk(g, x, i).Some? && Walk(g, x, j) == Walk(g, x, i)
    ensures OnCycle(g, Walk(g, x, i).value)
  {
    WalkSplits(g, x, i, j - i);
  }

  /** A walk longer than the table runs into a cycle. */
  lemma LongWalkMeetsCycle(g: Pointers, x: Id)
    requires Walk(g, x, |g| + 1).Some?
    ensures exists y: Id :: Reaches(g, x, y) && OnCycle(g, y)
  {
    forall k: nat | k <= |g|
      ensures Walk(g, x, k).Some? && Walk(g, x, k).value in g
    {
      WalkPrefix(g, x, k, |g| + 1);
      WalkSplits(g, x, k, |g| + 1 - k);
    }
    var points := Points(g, x, |g| + 1);
    if Distinct(points) {
      forall p | p in points
        ensures p in g.Keys
      {
        var k :| 0 <= k < |points| && points[k] == p;
        assert Walk(g, x, k) == Some(p);
      }
      DistinctWithinBound(points, g.Keys);
      assert false;
    }
    var i, j :| 0 <= i < j < |points| && points[i] == points[j];
    assert Walk(g, x, i) == Some(points[i]) && Walk(g, x, j) == Some(points[j]);
    RepeatIsCycle(g, x, i, j);
    assert Reaches(g, x, points[i]);
  }

  /** A chain ends exactly when it leads to no cycle. */
  lemma EndsUnlessCycle(g: Pointers, x: Id)
    ensures Ends(g, x) <==> !exists y: Id :: Reaches(g, x, y) && OnCycle(g, y)
  {
    if !Ends(g, x) {
      LongWalkMeetsCycle(g, x);
    }
    if Ends(g, x) && exists y: Id :: Reaches(g, x, y) && OnCycle(g, y) {
      var y: Id :| Reaches(g, x, y) && OnCycle(g, y);
      var j: nat :| Walk(g, x, j) == Some(y);
      var n: nat :| Walk(g, x, n).None?;
      if n <= j {
        WalkPrefix(g, x, n, j);
      } else {
        WalkSplits(g, x, j, n - j);
        CycleLeadsBack(g, y, n - j);
      }
    }
  }

  lemma EndingIsOffCycle(g: Pointers, x: Id)
    requires Ends(g, x)
    ensures !OnCycle(g, x)
  {
    EndsUnlessCycle(g, x);
    ReachesItself(g, x);
  }

  lemma EndsAlong(g: Pointers, x: Id)
    requires Next(g, x).Some?
    ensures Ends(g, x) <==> Ends(g, Next(g, x).value)
  {
    var y := Next(g, x).value;
    if Ends(g, y) {
      var k: nat :| Walk(g, y, k).None?;
      assert Walk(g, x, k + 1).None?;
    }
    if Ends(g, x) {
      var k: nat :| Walk(g, x, k).None?;
      assert k > 0 && Walk(g, y, k - 1).None?;
    }
  }

  // ----- depth

  /** The chain from `x` has exactly `k` links. */
  predicate StopsAfter(g: Pointers, x: Id, k: nat) {
    Walk(g, x, k).Some? && Walk(g, x, k + 1).None?
  }

  lemma {:induction false} EndingStops(g: Pointers, x: Id, k: nat)
    requires Walk(g, x, k).None?
    ensures exists d: nat :: StopsAfter(g, x, d)
    decreases k
  {
    if Walk(g, x, k - 1).None? {
      EndingStops(g, x, k - 1);
    } else {
      assert StopsAfter(g, x, k - 1);
    }
  }

  /** The number of links from `x` to the end of its chain. */
  ghost function Depth(g: Pointers, x: Id): (d: nat)
    requires Ends(g, x)
    ensures StopsAfter(g, x, d)
  {
    var k: nat :| Walk(g, x, k).None?;
    EndingStops(g, x, k);
    var d: nat :| StopsAfter(g, x, d);
    d
  }

  lemma StopsOnce(g: Pointers, x: Id, k: nat, l: nat)
    requires StopsAfter(g, x, k) && StopsAfter(g, x, l)
    ensures k == l
  {
    if k < l {
      WalkPrefix(g, x, k + 1, l);
    } else if l < k {
      WalkPrefix(g, x, l + 1, k);
    }
  }

  lemma DepthOfNext(g: Pointers, x: Id)
    requires Ends(g, x) && Next(g, x).Some?
    ensures Ends(g, Next(g, x).value) && Depth(g, x) == Depth(g, Next(g, x).value) + 1
  {
    EndsAlong(g, x);
    var d := Depth(g, Next(g, x).value);
    assert StopsAfter(g, x, d + 1);
    StopsOnce(g, x, Depth(g, x), d + 1);
  }

  /** No chain that ends is longer than the table. */
  lemma DepthIsBounded(g: Pointers, x: Id)
    requires Ends(g, x)
    ensures Depth(g, x) <= |g|
  {
    var d := Depth(g, x);
    if d > |g| {
      WalkPrefix(g, x, |g| + 1, d);
      LongWalkMeetsCycle(g, x);
      EndsUnlessCycle(g, x);
    }
  }
}
