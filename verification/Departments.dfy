/** The department hierarchy under creation, editing and deactivation. */
module Departments {
  import opened Prelude
  import opened PointerGraph

  datatype Department = Department(organisation: nat, name: string, parent: Option<Id>, active: bool)

  type Table = map<Id, Department>

  datatype DepartmentError =
    | NoSuchDepartment | ParentUnavailable | OwnParent | HierarchyCycle | NameTaken
    | HasActiveChildren | HasActiveEmployees

  function Parents(rows: Table): Pointers {
    map d | d in rows :: rows[d].parent
  }

  predicate NameUsed(rows: Table, organisation: nat, name: string, exclude: Option<Id>) {
    exists d :: d in rows && rows[d].organisation == organisation && rows[d].name == name && exclude != Some(d)
  }

  ghost predicate ParentsExist(rows: Table) {
    forall d :: d in rows && rows[d].parent.Some? ==> rows[d].parent.value in rows
  }

  ghost predicate ActiveUnderActive(rows: Table) {
    forall d :: d in rows && rows[d].active && rows[d].parent.Some? && rows[d].parent.value in rows
      ==> rows[rows[d].parent.value].active
  }

  ghost predicate NamesUnique(rows: Table) {
    forall a, b :: a in rows && b in rows && a != b && rows[a].organisation == rows[b].organisation
      ==> rows[a].name != rows[b].name
  }

  /** A forest, whose active departments have active parents only, with names unique in each organisation. */
  ghost predicate Valid(rows: Table) {
    ParentsExist(rows) && Acyclic(Parents(rows)) && ActiveUnderActive(rows) && NamesUnique(rows)
  }

  // ----- choosing a parent

  ghost function ParentChoice(rows: Table, organisation: nat, wanted: Option<Id>, department: Option<Id>)
    : Result<Option<Id>, DepartmentError>
  {
    if wanted.None? then Ok(None)
    else if wanted.value !in rows || rows[wanted.value].organisation != organisation || !rows[wanted.value].active then
      Err(ParentUnavailable)
    else if department == wanted then Err(OwnParent)
    else if department.Some? && Reaches(Parents(rows), wanted.value, department.value) then Err(HierarchyCycle)
    else Ok(wanted)
  }

  /** The walk up from the wanted parent ends because the hierarchy has no cycle yet. */
  method ResolveParent(rows: Table, organisation: nat, wanted: Option<Id>, department: Option<Id>)
    returns (parent: Result<Option<Id>, DepartmentError>)
    requires Valid(rows)
    ensures parent == ParentChoice(rows, organisation, wanted, department)
  {
    if wanted.None? {
      return Ok(None);
    }
    if wanted.value !in rows || rows[wanted.value].organisation != organisation || !rows[wanted.value].active {
      return Err(ParentUnavailable);
    }
    if department == wanted {
      return Err(OwnParent);
    }
    ghost var g := Parents(rows);
    var cursor := wanted;
    EndsUnlessCycle(g, wanted.value);
    ReachesItself(g, wanted.value);
    while cursor.Some?
      invariant cursor.Some? ==> cursor.value in rows && Ends(g, cursor.value) && Reaches(g, wanted.value, cursor.value)
      invariant department.Some? ==>
                  (Reaches(g, wanted.value, department.value) <==>
                    cursor.Some? && Reaches(g, cursor.value, department.value))
      decreases if cursor.Some? then Depth(g, cursor.value) + 1 else 0
    {
      if department == cursor {
        return Err(HierarchyCycle);
      }
      if department.Some? {
        ReachesOnlyThroughNext(g, cursor.value, department.value);
      }
      if rows[cursor.value].parent.Some? {
        DepthOfNext(g, cursor.value);
        ReachesItself(g, rows[cursor.value].parent.value);
        ReachesNext(g, cursor.value, rows[cursor.value].parent.value);
        ReachesTransitively(g, wanted.value, cursor.value, rows[cursor.value].parent.value);
      }
      cursor := rows[cursor.value].parent;
    }
    return Ok(wanted);
  }

  lemma ReachesOnlyThroughNext(g: Pointers, x: Id, y: Id)
    ensures Reaches(g, x, y) <==> x == y || (Next(g, x).Some? && Reaches(g, Next(g, x).value, y))
  {
    ReachesItself(g, x);
    if Reaches(g, x, y) && x != y {
      var k: nat :| Walk(g, x, k) == Some(y);
      assert Walk(g, Next(g, x).value, k - 1) == Some(y);
    }
    if Next(g, x).Some? && Reaches(g, Next(g, x).value, y) {
      ReachesNext(g, x, y);
    }
  }

  // ----- the operations

  /** An edit changes the name, the parent, both or neither; `parent` holds the new choice, which may be "none". */
  datatype Edit = Edit(name: Option<string>, parent: Option<Option<Id>>)

  type Outcome = Result<Table, DepartmentError>

  ghost function Created(rows: Table, freshId: Id, organisation: nat, name: string, wanted: Option<Id>): Outcome {
    match ParentChoice(rows, organisation, wanted, None)
    case Err(e) => Err(e)
    case Ok(parent) =>
      if NameUsed(rows, organisation, name, None) then Err(NameTaken)
      else Ok(rows[freshId := Department(organisation, name, parent, true)])
  }

  ghost function Updated(rows: Table, d: Id, edit: Edit): Outcome {
    if d !in rows then Err(NoSuchDepartment) else
    var row := rows[d];
    var choice := if edit.parent.Some? then ParentChoice(rows, row.organisation, edit.parent.value, Some(d))
      else Ok(row.parent);
    if choice.Err? then Err(choice.error) else
    var name := if edit.name.Some? then edit.name.value else row.name;
    if NameUsed(rows, row.organisation, name, Some(d)) then Err(NameTaken)
    else Ok(rows[d := row.(name := name, parent := choice.value)])
  }

  predicate HasActiveChild(rows: Table, d: Id) {
    exists c :: c in rows && rows[c].parent == Some(d) && rows[c].active
  }

  function Deactivated(rows: Table, d: Id, hasActiveEmployees: bool): Outcome {
    if d !in rows then Err(NoSuchDepartment)
    else if HasActiveChild(rows, d) then Err(HasActiveChildren)
    else if hasActiveEmployees then Err(HasActiveEmployees)
    else Ok(rows[d := rows[d].(active := false)])
  }

  class DepartmentTable {
    var rows: Table

    method Create(freshId: Id, organisation: nat, name: string, wanted: Option<Id>)
      returns (error: Option<DepartmentError>)
      requires Valid(rows) && freshId !in rows
      modifies this
      ensures Valid(rows)
      ensures Commits(Created(old(rows), freshId, organisation, name, wanted), old(rows), rows, error)
    {
      var parent := ResolveParent(rows, organisation, wanted, None);
      if parent.Err? {
        return Some(parent.error);
      }
      if NameUsed(rows, organisation, name, None) {
        return Some(NameTaken);
      }
      CreatingKeepsValid(rows, freshId, organisation, name, wanted);
      rows := rows[freshId := Department(organisation, name, parent.value, true)];
      return None;
    }

    method Update(d: Id, edit: Edit) returns (error: Option<DepartmentError>)
      requires Valid(rows)
      modifies this
      ensures Valid(rows)
      ensures Commits(Updated(old(rows), d, edit), old(rows), rows, error)
    {
      if d !in rows {
        return Some(NoSuchDepartment);
      }
      var row := rows[d];
      if edit.parent.Some? {
        var parent := ResolveParent(rows, row.organisation, edit.parent.value, Some(d));
        if parent.Err? {
          return Some(parent.error);
        }
        row := row.(parent := parent.value);
      }
      if edit.name.Some? {
        row := row.(name := edit.name.value);
      }
      if NameUsed(rows, row.organisation, row.name, Some(d)) {
        return Some(NameTaken);
      }
      UpdatingKeepsValid(rows, d, edit);
      rows := rows[d := row];
      return None;
    }

    method Deactivate(d: Id, hasActiveEmployees: bool) returns (error: Option<DepartmentError>)
      requires Valid(rows)
      modifies this
      ensures Valid(rows)
      ensures Commits(Deactivated(old(rows), d, hasActiveEmployees), old(rows), rows, error)
    {
      if d !in rows {
        return Some(NoSuchDepartment);
      }
      if HasActiveChild(rows, d) {
        return Some(HasActiveChildren);
      }
      if hasActiveEmployees {
        return Some(HasActiveEmployees);
      }
      DeactivatingKeepsValid(rows, d, hasActiveEmployees);
      rows := rows[d := rows[d].(active := false)];
      return None;
    }
  }

  // ----- redirecting one pointer

  ghost function Upstream(g: Pointers, p: Id): set<Id> {
    set y: Id | y in {p} + (set x | x in g && g[x].Some? :: g[x].value) && Reaches(g, p, y)
  }

  lemma UpstreamIsClosed(g: Pointers, p: Id)
    ensures Closed(g, Upstream(g, p)) && p in Upstream(g, p)
  {
    ReachesItself(g, p);
    forall y: Id | y in Upstream(g, p) && Next(g, y).Some?
      ensures Next(g, y).value in Upstream(g, p)
    {
      var z := Next(g, y).value;
      ReachesItself(g, z);
      ReachesNext(g, y, z);
      ReachesTransitively(g, p, y, z);
    }
  }

  lemma {:induction false} WalkAwayFromChange(g: Pointers, changed: Pointers, d: Id, x: Id, k: nat)
    requires forall y: Id :: y != d ==> Next(changed, y) == Next(g, y)
    requires !Reaches(changed, x, d)
    ensures Walk(changed, x, k) == Walk(g, x, k)
    decreases k
  {
    ReachesItself(changed, x);
    if k > 0 && Next(changed, x).Some? {
      var y := Next(changed, x).value;
      if Reaches(changed, y, d) {
        ReachesNext(changed, x, d);
      }
      WalkAwayFromChange(g, changed, d, y, k - 1);
    }
  }

  /** A cycle that does not pass the changed pointer was there before. */
  lemma OldCycle(g: Pointers, changed: Pointers, d: Id, x: Id)
    requires forall y: Id :: y != d ==> Next(changed, y) == Next(g, y)
    requires !Reaches(changed, x, d) && OnCycle(changed, x)
    ensures OnCycle(g, x)
  {
    var k: nat :| k > 0 && Walk(changed, x, k) == Some(x);
    WalkAwayFromChange(g, changed, d, x, k);
  }

  /** Redirecting a pointer to someone who does not lead back to it makes no cycle. */
  lemma RedirectingStaysAcyclic(g: Pointers, changed: Pointers, d: Id, p: Id)
    requires Acyclic(g) && !Reaches(g, p, d) && changed == g[d := Some(p)]
    ensures Acyclic(changed)
  {
    var upstream := Upstream(g, p);
    UpstreamIsClosed(g, p);
    assert Closed(changed, upstream) by {
      forall y: Id | y in upstream && Next(changed, y).Some?
        ensures Next(changed, y).value in upstream
      {
        assert y != d && Next(changed, y) == Next(g, y);
      }
    }
    forall x: Id
      ensures !OnCycle(changed, x)
    {
      if Reaches(changed, x, d) {
        if x in upstream {
          var k: nat :| Walk(changed, x, k) == Some(d);
          WalkStaysInClosed(changed, upstream, x, k);
        }
        ReachesItself(changed, p);
        ReachesNext(changed, d, p);
        ReachesTransitively(changed, x, d, p);
        LeadsAwayForGood(changed, upstream, x, p);
      } else if OnCycle(changed, x) {
        OldCycle(g, changed, d, x);
      }
    }
  }

  lemma ClearingStaysAcyclic(g: Pointers, changed: Pointers, d: Id)
    requires Acyclic(g) && changed == g[d := None]
    ensures Acyclic(changed)
  {
    forall x: Id
      ensures !OnCycle(changed, x)
    {
      if Reaches(changed, x, d) {
        if x != d {
          LeadsAwayForGood(changed, {d}, x, d);
        }
      } else if OnCycle(changed, x) {
        OldCycle(g, changed, d, x);
      }
    }
  }

  // ----- every operation keeps a valid table

  lemma FreshIdIsUnreached(rows: Table, freshId: Id, p: Id)
    requires ParentsExist(rows) && freshId !in rows && p in rows
    ensures !Reaches(Parents(rows), p, freshId)
  {
    var g := Parents(rows);
    assert Closed(g, rows.Keys);
    if Reaches(g, p, freshId) {
      var k: nat :| Walk(g, p, k) == Some(freshId);
      WalkStaysInClosed(g, rows.Keys, p, k);
    }
  }

  lemma CreatingKeepsValid(rows: Table, freshId: Id, organisation: nat, name: string, wanted: Option<Id>)
    requires Valid(rows) && freshId !in rows && Created(rows, freshId, organisation, name, wanted).Ok?
    ensures Valid(Created(rows, freshId, organisation, name, wanted).value)
  {
    var next := Created(rows, freshId, organisation, name, wanted).value;
    assert Parents(next) == Parents(rows)[freshId := wanted];
    if wanted.None? {
      ClearingStaysAcyclic(Parents(rows), Parents(next), freshId);
    } else {
      FreshIdIsUnreached(rows, freshId, wanted.value);
      RedirectingStaysAcyclic(Parents(rows), Parents(next), freshId, wanted.value);
    }
  }

  lemma UpdatingKeepsValid(rows: Table, d: Id, edit: Edit)
    requires Valid(rows) && Updated(rows, d, edit).Ok?
    ensures Valid(Updated(rows, d, edit).value)
  {
    var next := Updated(rows, d, edit).value;
    var parent := next[d].parent;
    assert Parents(next) == Parents(rows)[d := parent];
    if edit.parent.None? {
      assert Parents(next) == Parents(rows);
    } else if parent.None? {
      ClearingStaysAcyclic(Parents(rows), Parents(next), d);
    } else {
      RedirectingStaysAcyclic(Parents(rows), Parents(next), d, parent.value);
    }
  }

  lemma DeactivatingKeepsValid(rows: Table, d: Id, hasActiveEmployees: bool)
    requires Valid(rows) && Deactivated(rows, d, hasActiveEmployees).Ok?
    ensures Valid(Deactivated(rows, d, hasActiveEmployees).value)
  {
    var next := Deactivated(rows, d, hasActiveEmployees).value;
    assert Parents(next) == Parents(rows);
  }

  // ----- whole histories

  datatype Operation =
    | Creation(freshId: Id, organisation: nat, name: string, wanted: Option<Id>)
    | Editing(d: Id, edit: Edit)
    | Deactivation(d: Id, hasActiveEmployees: bool)

  ghost function After(rows: Table, op: Operation): Table {
    var outcome :=
      match op
      case Creation(freshId, organisation, name, wanted) =>
        if freshId in rows then Err(NameTaken) else Created(rows, freshId, organisation, name, wanted)
      case Editing(d, edit) => Updated(rows, d, edit)
      case Deactivation(d, hasActiveEmployees) => Deactivated(rows, d, hasActiveEmployees);
    if outcome.Ok? then outcome.value else rows
  }

  ghost function AfterAll(rows: Table, ops: seq<Operation>): Table
    decreases |ops|
  {
    if ops == [] then rows else AfterAll(After(rows, ops[0]), ops[1..])
  }

  /**
   Over any history the hierarchy stays a forest, so that every walk up its parents ends, and the
   ancestors of an active department are all active.
   */
  lemma {:induction false} HierarchyStaysSound(rows: Table, ops: seq<Operation>)
    requires Valid(rows)
    ensures Valid(AfterAll(rows, ops))
    ensures forall d: Id :: Ends(Parents(AfterAll(rows, ops)), d)
    ensures forall d: Id, k: nat :: AncestorIsActive(AfterAll(rows, ops), d, k)
    decreases |ops|
  {
    if ops == [] {
      forall d: Id
        ensures Ends(Parents(rows), d)
      {
        EndsUnlessCycle(Parents(rows), d);
      }
      forall d: Id, k: nat
        ensures AncestorIsActive(rows, d, k)
      {
        ActiveUpwards(rows, d, k);
      }
    } else {
      match ops[0] {
        case Creation(freshId, organisation, name, wanted) =>
          if freshId !in rows && Created(rows, freshId, organisation, name, wanted).Ok? {
            CreatingKeepsValid(rows, freshId, organisation, name, wanted);
          }
        case Editing(d, edit) =>
          if Updated(rows, d, edit).Ok? {
            UpdatingKeepsValid(rows, d, edit);
          }
        case Deactivation(d, hasActiveEmployees) =>
          if Deactivated(rows, d, hasActiveEmployees).Ok? {
            DeactivatingKeepsValid(rows, d, hasActiveEmployees);
          }
      }
      HierarchyStaysSound(After(rows, ops[0]), ops[1..]);
    }
  }

  /** If `d` is active, so is its ancestor `k` levels up. */
  ghost predicate AncestorIsActive(rows: Table, d: Id, k: nat) {
    d in rows && rows[d].active && Walk(Parents(rows), d, k).Some? ==>
      var ancestor := Walk(Parents(rows), d, k).value;
      ancestor in rows && rows[ancestor].active
  }

  lemma ActiveUpwards(rows: Table, d: Id, k: nat)
    requires ParentsExist(rows) && ActiveUnderActive(rows)
    ensures AncestorIsActive(rows, d, k)
  {
    var active := set a | a in rows && rows[a].active;
    assert Closed(Parents(rows), active);
    if d in active {
      WalkStaysInClosed(Parents(rows), active, d, k);
    }
  }

  // ----- what is accepted, and what it changes

  /** The parent asked for is an active department of the organisation, or none. */
  predicate ParentAvailable(rows: Table, organisation: nat, wanted: Option<Id>) {
    wanted.Some? ==>
      wanted.value in rows && rows[wanted.value].organisation == organisation && rows[wanted.value].active
  }

  ghost predicate WouldClose(rows: Table, wanted: Option<Id>, department: Id) {
    wanted.Some? && Reaches(Parents(rows), wanted.value, department)
  }

  /** No other department of the organisation has the name. */
  predicate NameFree(rows: Table, organisation: nat, name: string, except: set<Id>) {
    forall d :: d in rows && d !in except && rows[d].organisation == organisation ==> rows[d].name != name
  }

  predicate ChangesOnly(rows: Table, next: Table, d: Id) {
    d in next && next.Keys == rows.Keys + {d} && forall other :: other in rows && other != d ==>
      next[other] == rows[other]
  }

  lemma CreationIff(rows: Table, freshId: Id, organisation: nat, name: string, wanted: Option<Id>)
    requires freshId !in rows
    ensures var outcome := Created(rows, freshId, organisation, name, wanted);
            && (outcome.Ok? <==> ParentAvailable(rows, organisation, wanted) && NameFree(rows, organisation, name, {}))
            && (outcome == Err(ParentUnavailable) <==> !ParentAvailable(rows, organisation, wanted))
            && (outcome.Ok? ==>
                  && ChangesOnly(rows, outcome.value, freshId)
                  && var row := outcome.value[freshId];
                     row.organisation == organisation && row.name == name && row.parent == wanted && row.active)
  {
  }

  /** An edit is accepted if its new parent is available and not below the department, and its name is free. */
  lemma UpdateIff(rows: Table, d: Id, edit: Edit)
    ensures var outcome := Updated(rows, d, edit);
            && (d !in rows <==> outcome == Err(NoSuchDepartment))
            && (d in rows ==>
                  var row := rows[d];
                  var name := if edit.name.Some? then edit.name.value else row.name;
                  && (outcome.Ok? <==>
                        && (edit.parent.Some? ==>
                              ParentAvailable(rows, row.organisation, edit.parent.value)
                                && !WouldClose(rows, edit.parent.value, d))
                        && NameFree(rows, row.organisation, name, {d}))
                  && (outcome.Ok? ==>
                        && ChangesOnly(rows, outcome.value, d)
                        && var after := outcome.value[d];
                           && after.organisation == row.organisation && after.active == row.active && after.name == name
                           && (edit.parent.Some? ==> after.parent == edit.parent.value)
                           && (edit.parent.None? ==> after.parent == row.parent)))
  {
    if d in rows && edit.parent.Some? && edit.parent.value == Some(d) {
      ReachesItself(Parents(rows), d);
    }
  }

  /** Why a parent is refused: not available, the department itself, or one of its descendants. */
  lemma ParentRefusedFor(rows: Table, organisation: nat, wanted: Id, d: Id)
    ensures var choice := ParentChoice(rows, organisation, Some(wanted), Some(d));
            && (choice == Err(ParentUnavailable) <==> !ParentAvailable(rows, organisation, Some(wanted)))
            && (choice == Err(OwnParent) <==> ParentAvailable(rows, organisation, Some(wanted)) && wanted == d)
            && (choice == Err(HierarchyCycle) <==>
                  && ParentAvailable(rows, organisation, Some(wanted)) && wanted != d
                  && WouldClose(rows, Some(wanted), d))
  {
  }

  lemma DeactivationIff(rows: Table, d: Id, hasActiveEmployees: bool)
    ensures var outcome := Deactivated(rows, d, hasActiveEmployees);
            var hasActiveChild := exists c :: c in rows && rows[c].active && rows[c].parent == Some(d);
            && (outcome.Ok? <==> d in rows && !hasActiveChild && !hasActiveEmployees)
            && (outcome == Err(NoSuchDepartment) <==> d !in rows)
            && (outcome == Err(HasActiveChildren) <==> d in rows && hasActiveChild)
            && (outcome.Ok? ==>
                  && ChangesOnly(rows, outcome.value, d)
                  && !outcome.value[d].active && outcome.value[d].name == rows[d].name
                  && outcome.value[d].organisation == rows[d].organisation && outcome.value[d].parent == rows[d].parent)
  {
  }

  /** A step up is the parent of a department that exists. */
  lemma ParentsAre(rows: Table, d: Id)
    ensures Next(Parents(rows), d) == if d in rows then rows[d].parent else None
  {
  }
}
