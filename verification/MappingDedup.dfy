/** The migration that leaves one current mapping per pair of item and shared element. */
module MappingDedup {
  import opened Prelude

  datatype Mapping = Mapping(item: int, element: int, version: int, isCurrent: bool, validTo: Option<int>)

  datatype Pair = Pair(item: int, element: int)

  function PairOf(row: Mapping): Pair {
    Pair(row.item, row.element)
  }

  predicate IsCurrent(table: map<int, Mapping>, id: int) {
    id in table && table[id].isCurrent
  }

  /** The row has the larger version or, with equal versions, the larger id. */
  predicate Outranks(table: map<int, Mapping>, a: int, b: int)
    requires a in table && b in table
  {
    table[a].version > table[b].version || (table[a].version == table[b].version && a > b)
  }

  /** The current row of its pair that outranks all others. */
  ghost predicate Best(table: map<int, Mapping>, id: int) {
    IsCurrent(table, id) &&
    forall other :: IsCurrent(table, other) && PairOf(table[other]) == PairOf(table[id]) ==> !Outranks(table, other, id)
  }

  /** The table after the migration. */
  ghost function Settled(table: map<int, Mapping>, today: int): map<int, Mapping> {
    map id | id in table :: if Loses(table, id) then Retired(table[id], today) else table[id]
  }

  ghost predicate Loses(table: map<int, Mapping>, id: int) {
    IsCurrent(table, id) && !Best(table, id)
  }

  function Retired(row: Mapping, today: int): Mapping {
    row.(isCurrent := false, validTo := Some(today))
  }

  // ---------- the pass over the ordered rows ----------

  /** Pair by pair, within a pair the row that outranks first. */
  predicate Comes(table: map<int, Mapping>, a: int, b: int)
    requires a in table && b in table
  {
    var p, q := table[a], table[b];
    || p.item < q.item
    || (p.item == q.item && (p.element < q.element || (p.element == q.element && Outranks(table, a, b))))
  }

  /** The result of the query: the current rows, in order. */
  ghost predicate QueryOrder(table: map<int, Mapping>, order: seq<int>) {
    && (forall i :: 0 <= i < |order| ==> IsCurrent(table, order[i]))
    && (forall id :: IsCurrent(table, id) ==> id in order)
    && (forall i, j :: 0 <= i < j < |order| ==> InOrder(table, order, i, j))
  }

  predicate InOrder(table: map<int, Mapping>, order: seq<int>, i: nat, j: nat)
    requires i < |order| && j < |order|
  {
    order[i] in table && order[j] in table && Comes(table, order[i], order[j])
  }

  lemma EarlierOutranks(table: map<int, Mapping>, order: seq<int>, i: nat, j: nat)
    requires QueryOrder(table, order) && i < j < |order| && PairOf(table[order[i]]) == PairOf(table[order[j]])
    ensures !Outranks(table, order[j], order[i])
  {
    assert InOrder(table, order, i, j);
  }

  /** A row is best exactly when its pair has not come before. */
  lemma BestIff(table: map<int, Mapping>, order: seq<int>, n: nat)
    requires QueryOrder(table, order) && n < |order|
    ensures Best(table, order[n]) <==> forall i :: 0 <= i < n ==> PairOf(table[order[i]]) != PairOf(table[order[n]])
  {
    if Best(table, order[n]) {
      forall i | 0 <= i < n ensures PairOf(table[order[i]]) != PairOf(table[order[n]]) {
        assert InOrder(table, order, i, n) && IsCurrent(table, order[i]);
      }
    } else {
      var other :| IsCurrent(table, other) && PairOf(table[other]) == PairOf(table[order[n]]) &&
          Outranks(table, other, order[n]);
      var i :| 0 <= i < |order| && order[i] == other;
      if n < i {
        EarlierOutranks(table, order, n, i);
      }
    }
  }

  ghost predicate SeenPairs(table: map<int, Mapping>, order: seq<int>, n: nat, seen: set<Pair>)
    requires QueryOrder(table, order) && n <= |order|
  {
    && (forall i :: 0 <= i < n ==> PairOf(table[order[i]]) in seen)
    && (forall p :: p in seen ==> exists i :: 0 <= i < n && PairOf(table[order[i]]) == p)
  }

  ghost predicate ToRetire(table: map<int, Mapping>, order: seq<int>, n: nat, ids: seq<int>)
    requires QueryOrder(table, order) && n <= |order|
  {
    && (forall i :: 0 <= i < n ==> (order[i] in ids <==> !Best(table, order[i])))
    && (forall x :: x in ids ==> Loses(table, x))
  }

  lemma SeenGrows(table: map<int, Mapping>, order: seq<int>, n: nat, seen: set<Pair>)
    requires QueryOrder(table, order) && n < |order| && SeenPairs(table, order, n, seen)
    ensures SeenPairs(table, order, n + 1, seen + {PairOf(table[order[n]])})
    ensures PairOf(table[order[n]]) in seen <==> !Best(table, order[n])
  {
    BestIff(table, order, n);
  }

  lemma RetireGrows(table: map<int, Mapping>, order: seq<int>, n: nat, ids: seq<int>)
    requires QueryOrder(table, order) && n < |order| && ToRetire(table, order, n, ids)
    ensures ToRetire(table, order, n + 1, if Best(table, order[n]) then ids else ids + [order[n]])
  {
    var longer := if Best(table, order[n]) then ids else ids + [order[n]];
    forall i | 0 <= i < n + 1 ensures order[i] in longer <==> !Best(table, order[i]) {
      assert i < n ==> (order[i] in ids <==> !Best(table, order[i]));
    }
  }

  /** What the pass has found after `n` rows. */
  ghost predicate Passed(table: map<int, Mapping>, order: seq<int>, n: nat, seen: set<Pair>, ids: seq<int>)
    requires QueryOrder(table, order) && n <= |order|
  {
    SeenPairs(table, order, n, seen) && ToRetire(table, order, n, ids)
  }

  lemma OneMoreRow(table: map<int, Mapping>, order: seq<int>, n: nat, seen: set<Pair>, ids: seq<int>)
    requires QueryOrder(table, order) && n < |order| && Passed(table, order, n, seen, ids)
    ensures var pair := PairOf(table[order[n]]);
            if pair in seen then Passed(table, order, n + 1, seen, ids + [order[n]])
            else Passed(table, order, n + 1, seen + {pair}, ids)
  {
    SeenGrows(table, order, n, seen);
    RetireGrows(table, order, n, ids);
    var pair := PairOf(table[order[n]]);
    assert pair in seen ==> seen + {pair} == seen;
  }

  lemma RetireListed(table: map<int, Mapping>, order: seq<int>, today: int, ids: seq<int>)
    requires QueryOrder(table, order) && ToRetire(table, order, |order|, ids)
    ensures Settled(table, today) ==
            map id | id in table :: if id in ids then Retired(table[id], today) else table[id]
  {
    forall id | id in table ensures id in ids <==> Loses(table, id) {
      if IsCurrent(table, id) {
        var i :| 0 <= i < |order| && order[i] == id;
      }
    }
  }

  method DeduplicateCurrentMappings(table: map<int, Mapping>, order: seq<int>, today: int)
      returns (table': map<int, Mapping>)
    requires QueryOrder(table, order)
    ensures table' == Settled(table, today)
  {
    var seen: set<Pair> := {};
    var retireIds: seq<int> := [];
    for n := 0 to |order|
      invariant Passed(table, order, n, seen, retireIds)
    {
      OneMoreRow(table, order, n, seen, retireIds);
      var key := PairOf(table[order[n]]);
      if key in seen {
        retireIds := retireIds + [order[n]];
        continue;
      }
      seen := seen + {key};
    }
    RetireListed(table, order, today, retireIds);
    table' := map id | id in table :: if id in retireIds then Retired(table[id], today) else table[id];
  }

  // ---------- what the migration leaves ----------

  /** Exactly the best rows are current, so the partial unique index can be created. */
  lemma OneCurrentPerPair(table: map<int, Mapping>, today: int, a: int, b: int)
    requires IsCurrent(Settled(table, today), a) && IsCurrent(Settled(table, today), b)
    requires PairOf(Settled(table, today)[a]) == PairOf(Settled(table, today)[b])
    ensures a == b && Best(table, a)
  {
    assert Best(table, a) && Best(table, b);
  }

  /** No pair loses its mapping. */
  lemma {:induction false} PairKept(table: map<int, Mapping>, order: seq<int>, today: int, n: nat) returns (kept: int)
    requires QueryOrder(table, order) && n < |order|
    ensures IsCurrent(Settled(table, today), kept) && PairOf(Settled(table, today)[kept]) == PairOf(table[order[n]])
    decreases n
  {
    BestIff(table, order, n);
    if Best(table, order[n]) {
      kept := order[n];
    } else {
      var i :| 0 <= i < n && PairOf(table[order[i]]) == PairOf(table[order[n]]);
      kept := PairKept(table, order, today, i);
    }
  }

  /** The migration run again, on whatever day, changes nothing. */
  lemma SettledTwice(table: map<int, Mapping>, today: int, later: int)
    ensures Settled(Settled(table, today), later) == Settled(table, today)
  {
    var once := Settled(table, today);
    forall id | IsCurrent(once, id) ensures Best(once, id) {
      forall other | IsCurrent(once, other) && PairOf(once[other]) == PairOf(once[id]) ensures other == id {
        OneCurrentPerPair(table, today, other, id);
      }
    }
  }

  /**
   A mapping is current afterwards if and only if it was, and no other current mapping of its item and element has a
   larger version, or the same version and a larger id. One that is retired gets today as its last day; nothing else
   changes.
   */
  lemma CurrentAfterIff(table: map<int, Mapping>, today: int, id: int)
    requires id in table
    ensures id in Settled(table, today)
    ensures Settled(table, today)[id].isCurrent <==>
            table[id].isCurrent &&
            forall other :: (other in table && table[other].isCurrent && table[other].item == table[id].item &&
                             table[other].element == table[id].element) ==>
              table[other].version < table[id].version ||
              (table[other].version == table[id].version && other <= id)
    ensures var row, after := table[id], Settled(table, today)[id];
            after == if row.isCurrent == after.isCurrent then row
                     else Mapping(row.item, row.element, row.version, false, Some(today))
  {
  }
}
