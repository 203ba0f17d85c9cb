/** Result types and small facts about sequences that several models share. */
module Prelude {

  datatype Option<+T> = None | Some(value: T)

  datatype Result<+T, +E> = Ok(value: T) | Err(error: E)

  /** A transaction ends in the state its outcome gives, or leaves the state alone with the error. */
  ghost predicate Commits<S, E>(outcome: Result<S, E>, before: S, after: S, error: Option<E>) {
    match outcome
    case Ok(next) => error == None && after == next
    case Err(e) => error == Some(e) && after == before
  }

  /** No two positions of `s` hold the same value. */
  predicate Distinct<T(==)>(s: seq<T>) {
    forall i, j :: 0 <= i < j < |s| ==> s[i] != s[j]
  }

  /** The values of a duplicate-free sequence drawn from `bound` are no more than `bound` holds. */
  lemma {:induction false} DistinctWithinBound<T>(s: seq<T>, bound: set<T>)
    requires Distinct(s)
    requires forall x :: x in s ==> x in bound
    ensures |s| <= |bound|
  {
    if s != [] {
      var last := s[|s| - 1];
      var rest := s[..|s| - 1];
      forall x | x in rest
        ensures x in bound - {last}
      {
        var i :| 0 <= i < |rest| && rest[i] == x;
        assert s[i] == x;
      }
      DistinctWithinBound(rest, bound - {last});
    }
  }

  lemma TailMembers<T>(s: seq<T>, x: T)
    requires s != [] && Distinct(s)
    ensures x in s[1..] <==> x in s && x != s[0]
  {
    assert s == [s[0]] + s[1..];
  }

  lemma HasMember<T>(s: seq<T>)
    requires s != []
    ensures exists x :: x in s
  {
    assert s[0] in s;
  }

  // ----- maps of lists

  /** The list under `key`, which is empty where there is none. */
  function ListAt<K, V>(lists: map<K, seq<V>>, key: K): seq<V> {
    if key in lists then lists[key] else []
  }

  method AppendAt<K(!new, ==), V>(lists: map<K, seq<V>>, key: K, value: V) returns (extended: map<K, seq<V>>)
    ensures forall k: K :: ListAt(extended, k) == ListAt(lists, k) + (if k == key then [value] else [])
  {
    extended := lists;
    if key !in extended {
      extended := extended[key := []];
    }
    extended := extended[key := extended[key] + [value]];
  }
}
