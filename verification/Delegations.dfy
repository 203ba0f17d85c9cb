/** The table of approval delegations and the search that keeps it free of loops. */
module Delegations {
  import opened Prelude
  import opened ApproverResolution

  datatype Row = Row(organisation: nat, terms: Delegation)

  type Rows = map<nat, Row>

  type Graph = set<(EmployeeId, EmployeeId)>

  datatype DelegationError = ForeignEmployee | NoSuchDelegation | SelfDelegation | DelegationLoop | EndsBeforeStart

  /** An active row of the organisation, other than the one being edited. */
  predicate Counts(rows: Rows, organisation: nat, exclude: Option<nat>, id: nat) {
    id in rows && rows[id].organisation == organisation && rows[id].terms.active && exclude != Some(id)
  }

  function CountingIds(rows: Rows, organisation: nat, exclude: Option<nat>): set<nat> {
    set id | id in rows && Counts(rows, organisation, exclude, id)
  }

  function EdgesOf(rows: Rows, ids: set<nat>): Graph
    requires ids <= rows.Keys
  {
    set id | id in ids :: (rows[id].terms.delegator, rows[id].terms.delegate)
  }

  function Edges(rows: Rows, organisation: nat, exclude: Option<nat>): Graph {
    EdgesOf(rows, CountingIds(rows, organisation, exclude))
  }

  // ----- paths

  ghost predicate Path(g: Graph, p: seq<EmployeeId>) {
    p != [] && (|p| > 1 ==> (p[0], p[1]) in g && Path(g, p[1..]))
  }

  ghost predicate Leads(g: Graph, x: EmployeeId, y: EmployeeId) {
    exists p: seq<EmployeeId> :: Path(g, p) && p[0] == x && p[|p| - 1] == y
  }

  /** No path of at least one edge returns to its start. */
  ghost predicate Acyclic(g: Graph) {
    forall p: seq<EmployeeId> :: Path(g, p) && |p| > 1 ==> p[0] != p[|p| - 1]
  }

  ghost predicate ClosedUnder(g: Graph, s: set<EmployeeId>) {
    forall x: EmployeeId, y: EmployeeId :: x in s && (x, y) in g ==> y in s
  }

  lemma {:induction false} PathStaysInside(g: Graph, s: set<EmployeeId>, p: seq<EmployeeId>)
    requires ClosedUnder(g, s) && Path(g, p) && p[0] in s
    ensures forall i :: 0 <= i < |p| ==> p[i] in s
  {
    if |p| > 1 {
      PathStaysInside(g, s, p[1..]);
      forall i | 0 <= i < |p|
        ensures p[i] in s
      {
        assert i > 0 ==> p[i] == p[1..][i - 1];
      }
    }
  }

  lemma LeadsNowhereOutside(g: Graph, s: set<EmployeeId>, x: EmployeeId, y: EmployeeId)
    requires ClosedUnder(g, s) && x in s && y !in s
    ensures !Leads(g, x, y)
  {
    forall p: seq<EmployeeId> | Path(g, p) && p[0] == x
      ensures p[|p| - 1] != y
    {
      PathStaysInside(g, s, p);
    }
  }

  lemma {:induction false} PathExtends(g: Graph, p: seq<EmployeeId>, y: EmployeeId)
    requires Path(g, p) && (p[|p| - 1], y) in g
    ensures Path(g, p + [y])
  {
    if |p| == 1 {
      assert (p + [y])[1..] == [y];
    } else {
      PathExtends(g, p[1..], y);
      assert (p + [y])[1..] == p[1..] + [y];
    }
  }

  lemma LeadsFurther(g: Graph, x: EmployeeId, y: EmployeeId, z: EmployeeId)
    requires Leads(g, x, y) && (y, z) in g
    ensures Leads(g, x, z)
  {
    var p: seq<EmployeeId> :| Path(g, p) && p[0] == x && p[|p| - 1] == y;
    PathExtends(g, p, z);
    assert (p + [z])[|p + [z]| - 1] == z && (p + [z])[0] == x;
  }

  lemma LeadsToItself(g: Graph, x: EmployeeId)
    ensures Leads(g, x, x)
  {
    assert Path(g, [x]);
  }

  lemma {:induction false} MorePaths(g: Graph, more: Graph, p: seq<EmployeeId>)
    requires g <= more && Path(g, p)
    ensures Path(more, p)
  {
    if |p| > 1 {
      MorePaths(g, more, p[1..]);
    }
  }

  lemma FewerEdgesStayAcyclic(g: Graph, more: Graph)
    requires g <= more && Acyclic(more)
    ensures Acyclic(g)
  {
    forall p: seq<EmployeeId> | Path(g, p) && |p| > 1
      ensures p[0] != p[|p| - 1]
    {
      MorePaths(g, more, p);
    }
  }

  // ----- one more edge

  /** Whom `x` leads to, among the employees the graph mentions. */
  ghost function Downstream(g: Graph, x: EmployeeId): set<EmployeeId> {
    set e: EmployeeId | e in {x} + (set edge | edge in g :: edge.1) && Leads(g, x, e)
  }

  lemma DownstreamIsClosed(g: Graph, x: EmployeeId)
    ensures ClosedUnder(g, Downstream(g, x)) && x in Downstream(g, x)
  {
    LeadsToItself(g, x);
    forall y: EmployeeId, z: EmployeeId | y in Downstream(g, x) && (y, z) in g
      ensures z in Downstream(g, x)
    {
      LeadsFurther(g, x, y, z);
      assert (y, z).1 == z;
    }
  }

  /** A path that leaves from outside a closed set and never enters it does not use an edge into the set. */
  lemma {:induction false} PathAvoidsNewEdge(g: Graph, edge: (EmployeeId, EmployeeId), inside: set<EmployeeId>,
                                             p: seq<EmployeeId>)
    requires Path(g + {edge}, p) && edge.1 in inside
    requires forall i :: 0 <= i < |p| ==> p[i] !in inside
    ensures Path(g, p)
  {
    if |p| > 1 {
      assert forall i :: 0 <= i < |p[1..]| ==> p[1..][i] == p[i + 1];
      PathAvoidsNewEdge(g, edge, inside, p[1..]);
    }
  }

  lemma {:induction false} PathInsideAvoidsNewEdge(g: Graph, edge: (EmployeeId, EmployeeId), inside: set<EmployeeId>,
                                                   p: seq<EmployeeId>)
    requires Path(g + {edge}, p) && edge.0 !in inside
    requires forall i :: 0 <= i < |p| ==> p[i] in inside
    ensures Path(g, p)
  {
    if |p| > 1 {
      assert forall i :: 0 <= i < |p[1..]| ==> p[1..][i] == p[i + 1];
      PathInsideAvoidsNewEdge(g, edge, inside, p[1..]);
    }
  }

  lemma {:induction false} PathSuffix(g: Graph, p: seq<EmployeeId>, i: nat)
    requires Path(g, p) && i < |p|
    ensures Path(g, p[i..])
  {
    if i > 0 {
      PathSuffix(g, p[1..], i - 1);
      assert p[1..][i - 1..] == p[i..];
    }
  }

  /** A new edge closes a loop exactly when its end already leads to its start. */
  lemma NewEdgeClosesLoopIff(g: Graph, x: EmployeeId, y: EmployeeId)
    requires Acyclic(g)
    ensures Acyclic(g + {(x, y)}) <==> x != y && !Leads(g, y, x)
  {
    var more := g + {(x, y)};
    if x == y {
      assert Path(more, [x][1..] + [x]);
      assert Path(more, [x, x]) by {
        assert [x, x][1..] == [x];
      }
    } else if Leads(g, y, x) {
      var p: seq<EmployeeId> :| Path(g, p) && p[0] == y && p[|p| - 1] == x;
      MorePaths(g, more, p);
      var loop := [x] + p;
      assert loop[1..] == p && Path(more, loop);
      assert loop[|loop| - 1] == x;
    } else {
      var inside := Downstream(g, y);
      DownstreamIsClosed(g, y);
      assert x !in inside;
      assert ClosedUnder(more, inside);
      forall p: seq<EmployeeId> | Path(more, p) && |p| > 1
        ensures p[0] != p[|p| - 1]
      {
        if p[0] in inside {
          PathStaysInside(more, inside, p);
          PathInsideAvoidsNewEdge(g, (x, y), inside, p);
        } else if forall i :: 0 <= i < |p| ==> p[i] !in inside {
          PathAvoidsNewEdge(g, (x, y), inside, p);
        } else {
          var i :| 0 <= i < |p| && p[i] in inside;
          PathSuffix(more, p, i);
          PathStaysInside(more, inside, p[i..]);
          assert p[i..][|p[i..]| - 1] == p[|p| - 1];
        }
      }
    }
  }

  // ----- the search

  /** The successor lists hold exactly the edges of the graph. */
  ghost predicate Represents(edges: map<EmployeeId, set<EmployeeId>>, g: Graph) {
    forall x: EmployeeId, y: EmployeeId :: (x in edges && y in edges[x]) <==> (x, y) in g
  }

  method CollectEdges(rows: Rows, organisation: nat, exclude: Option<nat>)
    returns (edges: map<EmployeeId, set<EmployeeId>>)
    ensures Represents(edges, Edges(rows, organisation, exclude))
  {
    edges := map[];
    var ids := CountingIds(rows, organisation, exclude);
    var left := ids;
    while left != {}
      invariant left <= ids
      invariant Represents(edges, EdgesOf(rows, ids - left))
      decreases left
    {
      ghost var done := ids - left;
      var id :| id in left;
      left := left - {id};
      var terms := rows[id].terms;
      edges := AddEdge(edges, terms.delegator, terms.delegate, EdgesOf(rows, done));
      assert ids - left == done + {id};
    }
    assert ids - left == ids;
  }

  method AddEdge(edges: map<EmployeeId, set<EmployeeId>>, x: EmployeeId, y: EmployeeId, ghost g: Graph)
    returns (extended: map<EmployeeId, set<EmployeeId>>)
    requires Represents(edges, g)
    ensures Represents(extended, g + {(x, y)})
  {
    extended := edges;
    if x !in extended {
      extended := extended[x := {}];
    }
    extended := extended[x := extended[x] + {y}];
  }

  /** The members of a set, in some order. */
  method Listing(s: set<EmployeeId>) returns (members: seq<EmployeeId>)
    ensures forall x: EmployeeId :: x in members <==> x in s
  {
    members := [];
    var left := s;
    while left != {}
      invariant left <= s
      invariant forall x: EmployeeId :: x in members <==> x in s - left
      decreases left
    {
      var x :| x in left;
      left := left - {x};
      members := members + [x];
    }
  }

  /** Everything on the stack can be reached, and the successors of what was seen are seen or on the stack. */
  ghost predicate Searching(g: Graph, from: EmployeeId, target: EmployeeId, seen: set<EmployeeId>,
                            stack: seq<EmployeeId>) {
    && target !in seen
    && (from in seen || from in stack)
    && (forall x: EmployeeId :: x in stack ==> Leads(g, from, x))
    && (forall x: EmployeeId, y: EmployeeId :: x in seen && (x, y) in g ==> y in seen || y in stack)
  }

  lemma Expanding(g: Graph, from: EmployeeId, target: EmployeeId, seen: set<EmployeeId>, stack: seq<EmployeeId>,
                  top: EmployeeId, successors: seq<EmployeeId>)
    requires Searching(g, from, target, seen, stack + [top]) && top != target
    requires forall y: EmployeeId :: y in successors <==> (top, y) in g
    ensures Searching(g, from, target, seen + {top}, stack + successors)
  {
    assert top in stack + [top];
    forall x: EmployeeId | x in successors
      ensures Leads(g, from, x)
    {
      LeadsFurther(g, from, top, x);
    }
  }

  /** Refuses exactly self-delegation and delegates who already lead back to the delegator. */
  method ValidateDelegationLoop(rows: Rows, organisation: nat, delegator: EmployeeId, delegate: EmployeeId,
                                exclude: Option<nat>)
    returns (error: Option<DelegationError>)
    ensures error == if delegator == delegate then Some(SelfDelegation)
                     else if Leads(Edges(rows, organisation, exclude), delegate, delegator) then Some(DelegationLoop)
                     else None
  {
    if delegator == delegate {
      return Some(SelfDelegation);
    }
    ghost var g := Edges(rows, organisation, exclude);
    var edges := CollectEdges(rows, organisation, exclude);
    edges := AddEdge(edges, delegator, delegate, g);
    var stack := [delegate];
    var seen: set<EmployeeId> := {};
    ghost var universe := {delegate} + (set edge | edge in g :: edge.1);
    LeadsToItself(g, delegate);
    while stack != []
      invariant Searching(g, delegate, delegator, seen, stack) && seen <= universe
      invariant forall x: EmployeeId :: x in stack ==> x in universe
      decreases universe - seen, |stack|
    {
      var current := stack[|stack| - 1];
      assert stack == stack[..|stack| - 1] + [current];
      stack := stack[..|stack| - 1];
      if current == delegator {
        return Some(DelegationLoop);
      }
      if current in seen {
        continue;
      }
      var successors := Listing(if current in edges then edges[current] else {});
      assert forall y: EmployeeId :: y in successors ==> (current, y) in g && (current, y).1 == y;
      Expanding(g, delegate, delegator, seen, stack, current, successors);
      seen := seen + {current};
      stack := stack + successors;
    }
    LeadsNowhereOutside(g, seen, delegate, delegator);
    return None;
  }

  // ----- creating and editing

  /** What a caller asks for; `existing` is the row to edit. */
  datatype Upsert = Upsert(organisation: nat, terms: Delegation, existing: Option<nat>)

  /** The table with the row stored, whatever it says. */
  function Stored(rows: Rows, op: Upsert, freshId: nat): Rows {
    rows[(if op.existing.Some? then op.existing.value else freshId) := Row(op.organisation, op.terms)]
  }

  ghost function Outcome(rows: Rows, organisationOf: EmployeeId -> nat, op: Upsert, freshId: nat)
    : Result<Rows, DelegationError>
  {
    var t := op.terms;
    if organisationOf(t.delegator) != op.organisation || organisationOf(t.delegate) != op.organisation then
      Err(ForeignEmployee)
    else if op.existing.Some?
      && (op.existing.value !in rows || rows[op.existing.value].organisation != op.organisation) then
      Err(NoSuchDelegation)
    else if t.delegator == t.delegate then Err(SelfDelegation)
    else if Leads(Edges(rows, op.organisation, op.existing), t.delegate, t.delegator) then Err(DelegationLoop)
    else if t.endDate.Some? && t.endDate.value < t.startDate then Err(EndsBeforeStart)
    else Ok(Stored(rows, op, freshId))
  }

  class DelegationTable {
    var rows: Rows

    method UpsertDelegation(organisationOf: EmployeeId -> nat, op: Upsert, freshId: nat)
      returns (error: Option<DelegationError>)
      requires freshId !in rows
      modifies this
      ensures Commits(Outcome(old(rows), organisationOf, op, freshId), old(rows), rows, error)
    {
      if organisationOf(op.terms.delegator) != op.organisation || organisationOf(op.terms.delegate) != op.organisation {
        return Some(ForeignEmployee);
      }
      if op.existing.Some? && (op.existing.value !in rows || rows[op.existing.value].organisation != op.organisation) {
        return Some(NoSuchDelegation);
      }
      error := ValidateDelegationLoop(rows, op.organisation, op.terms.delegator, op.terms.delegate, op.existing);
      if error.Some? {
        return;
      }
      if op.terms.endDate.Some? && op.terms.endDate.value < op.terms.startDate {
        return Some(EndsBeforeStart);
      }
      var id := if op.existing.Some? then op.existing.value else freshId;
      rows := rows[id := Row(op.organisation, op.terms)];
    }
  }

  ghost predicate LoopFree(rows: Rows) {
    forall organisation: nat :: Acyclic(Edges(rows, organisation, None))
  }

  lemma EdgesAfterUpsert(rows: Rows, op: Upsert, id: nat, organisation: nat)
    requires op.existing == Some(id) || (op.existing.None? && id !in rows)
    requires id in rows ==> rows[id].organisation == op.organisation
    ensures var next := rows[id := Row(op.organisation, op.terms)];
            Edges(next, organisation, None) ==
              if organisation != op.organisation then Edges(rows, organisation, None)
              else Edges(rows, organisation, op.existing)
                   + (if op.terms.active then {(op.terms.delegator, op.terms.delegate)} else {})
  {
    var next := rows[id := Row(op.organisation, op.terms)];
    if organisation != op.organisation {
      assert CountingIds(next, organisation, None) == CountingIds(rows, organisation, None);
    } else {
      var kept := CountingIds(rows, organisation, op.existing);
      assert CountingIds(next, organisation, None) == if op.terms.active then kept + {id} else kept;
    }
  }

  /** Creating or editing a delegation keeps every organisation's active delegations free of loops. */
  lemma UpsertKeepsLoopFree(rows: Rows, organisationOf: EmployeeId -> nat, op: Upsert, freshId: nat)
    requires LoopFree(rows) && freshId !in rows && Outcome(rows, organisationOf, op, freshId).Ok?
    ensures LoopFree(Outcome(rows, organisationOf, op, freshId).value)
  {
    var next := Outcome(rows, organisationOf, op, freshId).value;
    var id := if op.existing.Some? then op.existing.value else freshId;
    var g := Edges(rows, op.organisation, op.existing);
    FewerEdgesStayAcyclic(g, Edges(rows, op.organisation, None));
    NewEdgeClosesLoopIff(g, op.terms.delegator, op.terms.delegate);
    forall organisation: nat
      ensures Acyclic(Edges(next, organisation, None))
    {
      EdgesAfterUpsert(rows, op, id, organisation);
      assert g + {} == g;
    }
  }

  /**
   When the check refuses a delegation, storing it would have made a loop if and only if the row is
   active; an inactive row never makes one.
   */
  lemma RefusalIsNecessaryIff(rows: Rows, organisationOf: EmployeeId -> nat, op: Upsert, freshId: nat)
    requires LoopFree(rows) && freshId !in rows
    requires Outcome(rows, organisationOf, op, freshId) in {Err(SelfDelegation), Err(DelegationLoop)}
    ensures !LoopFree(Stored(rows, op, freshId)) <==> op.terms.active
  {
    var id := if op.existing.Some? then op.existing.value else freshId;
    var next := Stored(rows, op, freshId);
    var g := Edges(rows, op.organisation, op.existing);
    FewerEdgesStayAcyclic(g, Edges(rows, op.organisation, None));
    NewEdgeClosesLoopIff(g, op.terms.delegator, op.terms.delegate);
    forall organisation: nat
      ensures Acyclic(Edges(next, organisation, None)) <==> organisation != op.organisation || !op.terms.active
    {
      EdgesAfterUpsert(rows, op, id, organisation);
      assert g + {} == g;
    }
    assert op.terms.active ==> !Acyclic(Edges(next, op.organisation, None));
  }

  /** With 1 delegating to 2, an inactive delegation from 2 to 1 is refused, though storing it makes no loop. */
  lemma InactiveRowIsRefused() returns (rows: Rows, op: Upsert)
    ensures LoopFree(rows) && !op.terms.active
    ensures Outcome(rows, _ => 0, op, 1) == Err(DelegationLoop)
    ensures LoopFree(Stored(rows, op, 1))
  {
    var everywhere: EmployeeId -> nat := _ => 0;
    rows := map[0 := Row(0, Delegation(1, 2, {Leave}, 0, None, true))];
    op := Upsert(0, Delegation(2, 1, {Leave}, 0, None, false), None);
    var first := Upsert(0, rows[0].terms, None);
    assert Edges(map[], 0, None) == {};
    UpsertKeepsLoopFree(map[], everywhere, first, 0);
    assert map[][0 := rows[0]] == rows;
    assert 0 in CountingIds(rows, 0, None);
    var g := Edges(rows, 0, None);
    assert (1, 2) in g;
    assert Path(g, [1, 2][1..]) && Path(g, [1, 2]);
    assert [1, 2][|[1, 2]| - 1] == 2;
    assert Leads(g, 1, 2);
    RefusalIsNecessaryIff(rows, everywhere, op, 1);
  }

  /** The ids of new rows are fresh. */
  ghost function AfterAll(rows: Rows, organisationOf: EmployeeId -> nat, ops: seq<(Upsert, nat)>): Rows
    decreases |ops|
  {
    if ops == [] then rows else
    var outcome := if ops[0].1 in rows then Err(NoSuchDelegation)
      else Outcome(rows, organisationOf, ops[0].0, ops[0].1);
    AfterAll(if outcome.Ok? then outcome.value else rows, organisationOf, ops[1..])
  }

  lemma {:induction false} UpsertsKeepLoopFree(rows: Rows, organisationOf: EmployeeId -> nat, ops: seq<(Upsert, nat)>)
    requires LoopFree(rows)
    ensures LoopFree(AfterAll(rows, organisationOf, ops))
    decreases |ops|
  {
    if ops != [] {
      var (op, freshId) := ops[0];
      if freshId !in rows && Outcome(rows, organisationOf, op, freshId).Ok? {
        UpsertKeepsLoopFree(rows, organisationOf, op, freshId);
        UpsertsKeepLoopFree(Outcome(rows, organisationOf, op, freshId).value, organisationOf, ops[1..]);
      } else {
        UpsertsKeepLoopFree(rows, organisationOf, ops[1..]);
      }
    }
  }

  /** Starting from no delegations, no sequence of creations and edits ever produces a loop. */
  lemma DelegationsStayLoopFree(organisationOf: EmployeeId -> nat, ops: seq<(Upsert, nat)>)
    ensures LoopFree(AfterAll(map[], organisationOf, ops))
  {
    UpsertsKeepLoopFree(map[], organisationOf, ops);
  }

  // ----- what is accepted, and what it changes

  /** Both employees belong to the organisation, and so does the row that is edited, if one is. */
  predicate BelongsTo(rows: Rows, organisationOf: EmployeeId -> nat, op: Upsert) {
    && organisationOf(op.terms.delegator) == op.organisation
    && organisationOf(op.terms.delegate) == op.organisation
    && (op.existing.Some? ==> op.existing.value in rows && rows[op.existing.value].organisation == op.organisation)
  }

  predicate EndsInTime(terms: Delegation) {
    terms.endDate.Some? ==> !(terms.endDate.value < terms.startDate)
  }

  lemma UpsertAcceptedIff(rows: Rows, organisationOf: EmployeeId -> nat, op: Upsert, freshId: nat)
    ensures var t := op.terms;
            var outcome := Outcome(rows, organisationOf, op, freshId);
            var leadsBack := Leads(Edges(rows, op.organisation, op.existing), t.delegate, t.delegator);
            && (outcome.Ok? <==>
                  BelongsTo(rows, organisationOf, op) && t.delegator != t.delegate && !leadsBack && EndsInTime(t))
            && (BelongsTo(rows, organisationOf, op) && t.delegator == t.delegate ==> outcome == Err(SelfDelegation))
            && (BelongsTo(rows, organisationOf, op) && t.delegator != t.delegate && leadsBack ==>
                  outcome == Err(DelegationLoop))
            && (BelongsTo(rows, organisationOf, op) && t.delegator != t.delegate && !leadsBack && !EndsInTime(t) ==>
                  outcome == Err(EndsBeforeStart))
            && (!BelongsTo(rows, organisationOf, op) ==> outcome in {Err(ForeignEmployee), Err(NoSuchDelegation)})
  {
  }

  /** The row asked for is stored as it was asked for, and every other row stays. */
  lemma UpsertStores(rows: Rows, organisationOf: EmployeeId -> nat, op: Upsert, freshId: nat)
    requires freshId !in rows && Outcome(rows, organisationOf, op, freshId).Ok?
    ensures var next := Outcome(rows, organisationOf, op, freshId).value;
            var id := if op.existing.Some? then op.existing.value else freshId;
            && id in next && next[id].terms == op.terms && next[id].organisation == op.organisation
            && (op.existing.Some? ==> next.Keys == rows.Keys)
            && (op.existing.None? ==> next.Keys == rows.Keys + {freshId})
            && forall other :: other in rows && other != id ==> next[other] == rows[other]
  {
  }

  /** The edges are the active delegations of the organisation, other than the one being edited. */
  lemma EdgesAre(rows: Rows, organisation: nat, exclude: Option<nat>, x: EmployeeId, y: EmployeeId)
    ensures (x, y) in Edges(rows, organisation, exclude) <==>
              exists id :: && id in rows && rows[id].organisation == organisation && rows[id].terms.active
                           && rows[id].terms.delegator == x && rows[id].terms.delegate == y
                           && !(exclude.Some? && exclude.value == id)
  {
    if id :| && id in rows && rows[id].organisation == organisation && rows[id].terms.active
             && rows[id].terms.delegator == x && rows[id].terms.delegate == y
             && !(exclude.Some? && exclude.value == id) {
      assert id in CountingIds(rows, organisation, exclude);
    }
  }

  /** Every stored delegation is between two employees of its organisation and does not end before it starts. */
  ghost predicate Proper(rows: Rows, organisationOf: EmployeeId -> nat) {
    forall id :: id in rows ==>
      && organisationOf(rows[id].terms.delegator) == rows[id].organisation
      && organisationOf(rows[id].terms.delegate) == rows[id].organisation
      && rows[id].terms.delegator != rows[id].terms.delegate
      && (rows[id].terms.endDate.Some? ==> rows[id].terms.startDate <= rows[id].terms.endDate.value)
  }

  /** From no delegations, every series of creations and edits leaves proper rows only. */
  lemma DelegationsStayProper(organisationOf: EmployeeId -> nat, ops: seq<(Upsert, nat)>)
    ensures Proper(AfterAll(map[], organisationOf, ops), organisationOf)
  {
    UpsertsKeepProper(map[], organisationOf, ops);
  }

  lemma {:induction false} UpsertsKeepProper(rows: Rows, organisationOf: EmployeeId -> nat, ops: seq<(Upsert, nat)>)
    requires Proper(rows, organisationOf)
    ensures Proper(AfterAll(rows, organisationOf, ops), organisationOf)
    decreases |ops|
  {
    if ops != [] {
      var (op, freshId) := ops[0];
      if freshId !in rows && Outcome(rows, organisationOf, op, freshId).Ok? {
        UpsertsKeepProper(Outcome(rows, organisationOf, op, freshId).value, organisationOf, ops[1..]);
      } else {
        UpsertsKeepProper(rows, organisationOf, ops[1..]);
      }
    }
  }
}
