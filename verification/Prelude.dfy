/** Shared vocabulary: optional values, and facts about distinct sequences. */
module Prelude {

  datatype Option<+T> = None | Some(value: T)

  ghost predicate Distinct<T>(s: seq<T>) {
    forall i, j :: 0 <= i < j < |s| ==> s[i] != s[j]
  }

  ghost function Elements<T>(s: seq<T>): set<T> {
    set x | x in s
  }

  /** Pigeonhole: a sequence without repetitions is no longer than a set that holds its elements. */
  lemma {:induction false} DistinctFits<T>(s: seq<T>, bound: set<T>)
    requires Distinct(s)
    requires forall x :: x in s ==> x in bound
    ensures |s| <= |bound|
  {
    if s != [] {
      var last := s[|s| - 1];
      var front := s[..|s| - 1];
      forall x | x in front ensures x in bound - {last} {
        assert x in s;
      }
      DistinctFits(front, bound - {last});
    }
  }

  /** The elements of a set, each once, in some order: the result of a query whose order does not matter. */
  method Enumerate<T(==)>(elements: set<T>) returns (q: seq<T>)
    ensures Distinct(q) && Elements(q) == elements
  {
    q := [];
    var rest := elements;
    while rest != {}
      invariant Distinct(q)
      invariant forall x :: x in q ==> x in elements && x !in rest
      invariant forall x :: x in elements ==> x in q || x in rest
      decreases rest
    {
      var x :| x in rest;
      q := q + [x];
      rest := rest - {x};
    }
  }

  lemma TakeOneMore<T>(q: seq<T>, i: nat)
    requires Distinct(q) && i < |q|
    ensures Elements(q[..i + 1]) == Elements(q[..i]) + {q[i]}
    ensures q[i] in Elements(q) && q[i] !in Elements(q[..i]) && Elements(q[..i]) <= Elements(q)
  {
    assert q[..i + 1] == q[..i] + [q[i]];
  }

  /** `next` is an unused id of a table of rows. */
  predicate IdsBelow<V>(rows: map<int, V>, next: int) {
    forall i :: i in rows ==> i < next
  }

  function Last<T>(s: seq<T>): T
    requires s != []
  {
    s[|s| - 1]
  }

  lemma SplitLast<T>(s: seq<T>)
    requires s != []
    ensures s == s[..|s| - 1] + [Last(s)]
  {
  }

  lemma Regroup<T>(a: seq<T>, b: seq<T>, c: seq<T>)
    ensures (a + b) + c == a + (b + c)
  {
  }
}
