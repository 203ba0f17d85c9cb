/** The employee rows that the reporting-graph services read. */
module Employees {
  import opened Prelude
  import opened PointerGraph

  datatype EmployeeStatus = Invited | Pending | Active | Resigned | Retired | Terminated

  /** `nameKey` stands for the place of the full name in name order; namesakes share it. */
  datatype Employee = Employee(organisation: nat, manager: Option<Id>, status: EmployeeStatus, nameKey: int)

  /** The rows that are not soft-deleted. A manager pointer may lead to a row that is no longer here. */
  type EmployeeTable = map<Id, Employee>

  function Managers(table: EmployeeTable): Pointers {
    map e | e in table :: table[e].manager
  }

  /** `order` lists every row once, in the order a query returns rows. */
  ghost predicate Lists(order: seq<Id>, table: EmployeeTable) {
    && Distinct(order)
    && (forall e :: e in order <==> e in table)
  }

  /** The listed ids for which `keep` holds, in the same order. */
  function Filter(order: seq<Id>, keep: Id -> bool): (kept: seq<Id>)
    ensures forall e :: e in kept <==> e in order && keep(e)
  {
    if order == [] then []
    else (if keep(order[0]) then [order[0]] else []) + Filter(order[1..], keep)
  }

  lemma {:induction false} FilterIsDistinct(order: seq<Id>, keep: Id -> bool)
    requires Distinct(order)
    ensures Distinct(Filter(order, keep))
  {
    if order != [] {
      FilterIsDistinct(order[1..], keep);
      var rest := Filter(order[1..], keep);
      assert order[0] !in order[1..];
      if keep(order[0]) {
        assert Filter(order, keep) == [order[0]] + rest;
      } else {
        assert Filter(order, keep) == rest;
      }
    }
  }

  lemma {:induction false} FilterAppends(order: seq<Id>, last: Id, keep: Id -> bool)
    ensures Filter(order + [last], keep) == Filter(order, keep) + (if keep(last) then [last] else [])
  {
    if order == [] {
      assert [] + [last] == [last];
    } else {
      assert (order + [last])[1..] == order[1..] + [last];
      FilterAppends(order[1..], last, keep);
    }
  }
}
