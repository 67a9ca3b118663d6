/**
 The migration that prepares a uniqueness constraint: of the dimensions of a data point the newest of
 each normalised type stays. The table is a map from ids; `order` is the result of the ordered query.
 The loop updates types on the way and deletes the listed rows at the end, as the migration does; both
 together are one function of the table, which does not mention the order.
 */
module DimensionDedup {
  import opened Prelude

  // ---------- dimension types ----------

  /** `fold` stands for stripping and lower-casing. */
  function Normalize(kind: Option<string>, fold: string -> string): string {
    var folded := fold(if kind.Some? then kind.value else "");
    if folded == "gas" || folded == "gas_type" then "gas_type" else folded
  }

  ghost predicate Folding(fold: string -> string) {
    (forall s :: fold(fold(s)) == fold(s)) && fold("gas_type") == "gas_type"
  }

  lemma NormalizeTwice(kind: Option<string>, fold: string -> string)
    requires Folding(fold)
    ensures Normalize(Some(Normalize(kind, fold)), fold) == Normalize(kind, fold)
  {
  }

  // ---------- dimensions ----------

  datatype Dimension = Dimension(dataPoint: int, kind: Option<string>)

  predicate SameKey(table: map<int, Dimension>, fold: string -> string, a: int, b: int)
    requires a in table && b in table
  {
    table[a].dataPoint == table[b].dataPoint && Normalize(table[a].kind, fold) == Normalize(table[b].kind, fold)
  }

  /** No row of the same data point and normalised type has a larger id. */
  ghost predicate Newest(table: map<int, Dimension>, fold: string -> string, id: int)
    requires id in table
  {
    forall other :: other in table && SameKey(table, fold, id, other) ==> other <= id
  }

  /** The table after the migration: the newest rows, with their types normalised. */
  ghost function Cleaned(table: map<int, Dimension>, fold: string -> string): map<int, Dimension> {
    map id | id in table && Newest(table, fold, id) ::
      Dimension(table[id].dataPoint, Some(Normalize(table[id].kind, fold)))
  }

  ghost predicate DimensionOrder(table: map<int, Dimension>, order: seq<int>) {
    && (forall i :: 0 <= i < |order| ==> order[i] in table)
    && (forall id :: id in table ==> id in order)
    && (forall i, j :: 0 <= i < j < |order| ==>
          || table[order[i]].dataPoint < table[order[j]].dataPoint
          || (table[order[i]].dataPoint == table[order[j]].dataPoint && order[i] > order[j]))
  }

  datatype DimensionKey = DimensionKey(dataPoint: int, kind: string)

  function KeyOf(d: Dimension, fold: string -> string): DimensionKey {
    DimensionKey(d.dataPoint, Normalize(d.kind, fold))
  }

  /** In the query's order a row is newest exactly when its key has not come before. */
  lemma NewestIff(table: map<int, Dimension>, fold: string -> string, order: seq<int>, n: nat)
    requires DimensionOrder(table, order) && n < |order|
    ensures order[n] in table
    ensures Newest(table, fold, order[n]) <==>
            forall i :: 0 <= i < n ==> KeyOf(table[order[i]], fold) != KeyOf(table[order[n]], fold)
  {
    if forall i :: 0 <= i < n ==> KeyOf(table[order[i]], fold) != KeyOf(table[order[n]], fold) {
      forall other | other in table && SameKey(table, fold, order[n], other) ensures other <= order[n] {
        var j :| 0 <= j < |order| && order[j] == other;
        assert KeyOf(table[order[j]], fold) == KeyOf(table[order[n]], fold);
      }
    } else {
      var i :| 0 <= i < n && KeyOf(table[order[i]], fold) == KeyOf(table[order[n]], fold);
      assert SameKey(table, fold, order[n], order[i]) && order[i] > order[n];
    }
  }

  lemma NoRowTwice(table: map<int, Dimension>, order: seq<int>, i: nat, j: nat)
    requires DimensionOrder(table, order) && i < |order| && j < |order| && i != j
    ensures order[i] != order[j]
  {
    var lo, hi := if i < j then i else j, if i < j then j else i;
    assert table[order[lo]].dataPoint < table[order[hi]].dataPoint || order[lo] > order[hi];
  }

  function Normalized(d: Dimension, fold: string -> string): Dimension {
    d.(kind := Some(Normalize(d.kind, fold)))
  }

  /** What the loop has done to the table after `n` rows: types of the newest rows are normalised. */
  ghost predicate UpdatedTo(table: map<int, Dimension>, fold: string -> string, order: seq<int>, n: nat,
                            table': map<int, Dimension>)
    requires DimensionOrder(table, order) && n <= |order|
  {
    && table'.Keys == table.Keys
    && (forall i :: 0 <= i < |order| ==>
          order[i] in table' &&
          table'[order[i]] == if i < n && Newest(table, fold, order[i]) then Normalized(table[order[i]], fold)
              else table[order[i]])
  }

  ghost predicate Seen(table: map<int, Dimension>, fold: string -> string, order: seq<int>, n: nat,
                       seen: set<DimensionKey>)
    requires DimensionOrder(table, order) && n <= |order|
  {
    && (forall i :: 0 <= i < n ==> KeyOf(table[order[i]], fold) in seen)
    && (forall k :: k in seen ==> exists i :: 0 <= i < n && KeyOf(table[order[i]], fold) == k)
  }

  ghost predicate Duplicates(table: map<int, Dimension>, fold: string -> string, order: seq<int>, n: nat, ids: seq<int>)
    requires DimensionOrder(table, order) && n <= |order|
  {
    && (forall i :: 0 <= i < n ==> (order[i] in ids <==> !Newest(table, fold, order[i])))
    && (forall x :: x in ids ==> exists i :: 0 <= i < n && order[i] == x)
  }

  lemma DuplicatesGrow(table: map<int, Dimension>, fold: string -> string, order: seq<int>, n: nat, ids: seq<int>)
    requires DimensionOrder(table, order) && n < |order| && Duplicates(table, fold, order, n, ids)
    ensures Duplicates(table, fold, order, n + 1, ids + if Newest(table, fold, order[n]) then [] else [order[n]])
  {
    var longer := ids + if Newest(table, fold, order[n]) then [] else [order[n]];
    forall i | 0 <= i < n ensures order[i] != order[n] {
      NoRowTwice(table, order, i, n);
    }
    assert order[n] !in ids;
    assert forall i :: 0 <= i < n ==> (order[i] in longer <==> order[i] in ids);
  }

  lemma TableUpdated(table: map<int, Dimension>, fold: string -> string, order: seq<int>, n: nat,
                     table': map<int, Dimension>)
    requires DimensionOrder(table, order) && n < |order| && UpdatedTo(table, fold, order, n, table')
    ensures UpdatedTo(table, fold, order, n + 1,
                      if Newest(table, fold, order[n]) then table'[order[n] := Normalized(table[order[n]], fold)]
                      else table')
  {
    forall i | 0 <= i < |order| && i != n ensures order[i] != order[n] {
      NoRowTwice(table, order, i, n);
    }
  }

  lemma SeenGrows(table: map<int, Dimension>, fold: string -> string, order: seq<int>, n: nat, seen: set<DimensionKey>)
    requires DimensionOrder(table, order) && n < |order| && Seen(table, fold, order, n, seen)
    ensures KeyOf(table[order[n]], fold) in seen <==> !Newest(table, fold, order[n])
    ensures Seen(table, fold, order, n + 1, seen + {KeyOf(table[order[n]], fold)})
  {
    NewestIff(table, fold, order, n);
  }

  ghost predicate LoopHolds(table: map<int, Dimension>, fold: string -> string, order: seq<int>, n: nat,
                            table': map<int, Dimension>, seen: set<DimensionKey>, ids: seq<int>)
    requires DimensionOrder(table, order) && n <= |order|
  {
    UpdatedTo(table, fold, order, n, table') && Seen(table, fold, order, n, seen) &&
    Duplicates(table, fold, order, n, ids)
  }

  /** The key was seen: the row is listed. */
  lemma StepDuplicate(table: map<int, Dimension>, fold: string -> string, order: seq<int>, n: nat,
                      table': map<int, Dimension>, seen: set<DimensionKey>, ids: seq<int>)
    requires DimensionOrder(table, order) && n < |order| && LoopHolds(table, fold, order, n, table', seen, ids)
    requires KeyOf(table[order[n]], fold) in seen
    ensures LoopHolds(table, fold, order, n + 1, table', seen, ids + [order[n]])
  {
    SeenGrows(table, fold, order, n, seen);
    assert seen + {KeyOf(table[order[n]], fold)} == seen;
    DuplicatesGrow(table, fold, order, n, ids);
    TableUpdated(table, fold, order, n, table');
  }

  /** The key is new: the row stays, with its type normalised. */
  lemma StepNew(table: map<int, Dimension>, fold: string -> string, order: seq<int>, n: nat,
                table': map<int, Dimension>, seen: set<DimensionKey>, ids: seq<int>)
    requires DimensionOrder(table, order) && n < |order| && LoopHolds(table, fold, order, n, table', seen, ids)
    requires KeyOf(table[order[n]], fold) !in seen
    ensures LoopHolds(table, fold, order, n + 1, table'[order[n] := Normalized(table[order[n]], fold)],
                      seen + {KeyOf(table[order[n]], fold)}, ids)
    ensures order[n] in table' && table'[order[n]] == table[order[n]]
  {
    SeenGrows(table, fold, order, n, seen);
    DuplicatesGrow(table, fold, order, n, ids);
    assert ids + [] == ids;
    TableUpdated(table, fold, order, n, table');
  }

  /** Updating the types on the way and deleting the listed rows at the end cleans the table. */
  lemma DeleteListed(table: map<int, Dimension>, fold: string -> string, order: seq<int>,
                     table': map<int, Dimension>, ids: seq<int>)
    requires DimensionOrder(table, order)
    requires UpdatedTo(table, fold, order, |order|, table') && Duplicates(table, fold, order, |order|, ids)
    ensures (map id | id in table' && id !in ids :: table'[id]) == Cleaned(table, fold)
  {
    forall id | id in table
      ensures id in table' && (id !in ids <==> Newest(table, fold, id))
      ensures Newest(table, fold, id) ==> table'[id] == Normalized(table[id], fold)
    {
      RowAfter(table, fold, order, table', ids, id);
    }
  }

  lemma RowAfter(table: map<int, Dimension>, fold: string -> string, order: seq<int>, table': map<int, Dimension>,
                 ids: seq<int>, id: int)
    requires DimensionOrder(table, order) && id in table
    requires UpdatedTo(table, fold, order, |order|, table') && Duplicates(table, fold, order, |order|, ids)
    ensures id in table' && (id !in ids <==> Newest(table, fold, id))
    ensures Newest(table, fold, id) ==> table'[id] == Normalized(table[id], fold)
  {
    var i :| 0 <= i < |order| && order[i] == id;
  }

  /** One row of the loop, whether its key was seen or is new. */
  lemma OneMoreRow(table: map<int, Dimension>, fold: string -> string, order: seq<int>, n: nat,
                   table': map<int, Dimension>, seen: set<DimensionKey>, ids: seq<int>)
    requires DimensionOrder(table, order) && n < |order| && LoopHolds(table, fold, order, n, table', seen, ids)
    ensures var id := order[n];
            if KeyOf(table[id], fold) in seen then LoopHolds(table, fold, order, n + 1, table', seen, ids + [id])
            else LoopHolds(table, fold, order, n + 1, table'[id := Normalized(table[id], fold)],
                           seen + {KeyOf(table[id], fold)}, ids)
    ensures var id := order[n];
            KeyOf(table[id], fold) !in seen && table[id].kind == Some(Normalize(table[id].kind, fold)) ==>
              table'[id := Normalized(table[id], fold)] == table'
  {
    if KeyOf(table[order[n]], fold) in seen {
      StepDuplicate(table, fold, order, n, table', seen, ids);
    } else {
      StepNew(table, fold, order, n, table', seen, ids);
    }
  }

  /** The migration of dimensions. */
  method DeduplicateDimensions(table: map<int, Dimension>, order: seq<int>, fold: string -> string)
    returns (table': map<int, Dimension>)
    requires DimensionOrder(table, order)
    ensures table' == Cleaned(table, fold)
  {
    table' := table;
    var seen: set<DimensionKey> := {};
    var duplicateIds: seq<int> := [];
    for n := 0 to |order|
      invariant LoopHolds(table, fold, order, n, table', seen, duplicateIds)
    {
      OneMoreRow(table, fold, order, n, table', seen, duplicateIds);
      var id := order[n];
      var row := table[id];
      var normalized := Normalize(row.kind, fold);
      var key := DimensionKey(row.dataPoint, normalized);
      if key in seen {
        duplicateIds := duplicateIds + [id];
        continue;
      }
      seen := seen + {key};
      if row.kind != Some(normalized) {
        table' := table'[id := row.(kind := Some(normalized))];
      }
    }
    DeleteListed(table, fold, order, table', duplicateIds);
    table' := map id | id in table' && id !in duplicateIds :: table'[id];
  }

  /** One dimension per data point and type is left, all types are normalised, and no key is lost. */
  lemma CleanedIsUnique(table: map<int, Dimension>, fold: string -> string, a: int, b: int)
    requires a in Cleaned(table, fold) && b in Cleaned(table, fold)
    requires Cleaned(table, fold)[a] == Cleaned(table, fold)[b]
    ensures a == b
  {
    assert SameKey(table, fold, a, b) && SameKey(table, fold, b, a);
  }

  lemma {:induction false} KeyKept(table: map<int, Dimension>, fold: string -> string, order: seq<int>, n: nat)
    requires DimensionOrder(table, order) && n < |order|
    ensures exists kept :: kept in Cleaned(table, fold) && kept >= order[n] && SameKey(table, fold, order[n], kept)
    decreases n
  {
    NewestIff(table, fold, order, n);
    if Newest(table, fold, order[n]) {
      assert order[n] in Cleaned(table, fold);
    } else {
      var i :| 0 <= i < n && KeyOf(table[order[i]], fold) == KeyOf(table[order[n]], fold);
      KeyKept(table, fold, order, i);
      assert order[i] > order[n];
    }
  }

  /** The migration run again changes nothing. */
  lemma CleanedTwice(table: map<int, Dimension>, fold: string -> string)
    requires Folding(fold)
    ensures Cleaned(Cleaned(table, fold), fold) == Cleaned(table, fold)
  {
    var once := Cleaned(table, fold);
    forall id | id in once
      ensures Newest(once, fold, id) && once[id].kind == Some(Normalize(once[id].kind, fold))
    {
      NormalizeTwice(table[id].kind, fold);
      forall other | other in once && SameKey(once, fold, id, other) ensures other <= id {
        NormalizeTwice(table[other].kind, fold);
        assert SameKey(table, fold, id, other);
      }
    }
  }

  // ---------- told by the columns ----------

  /** The text that a type stands for; none is the empty one. */
  function Written(kind: Option<string>): string {
    match kind case Some(s) => s case None => ""
  }

  predicate IsGas(folded: string) {
    folded == "gas" || folded == "gas_type"
  }

  /** Two types are one if they fold to the same text, or both to one of the two names of gas types. */
  predicate SameType(a: Option<string>, b: Option<string>, fold: string -> string) {
    fold(Written(a)) == fold(Written(b)) || (IsGas(fold(Written(a))) && IsGas(fold(Written(b))))
  }

  /**
   A dimension stays if and only if no newer one of its data point has its type; then it has the folded type, gas
   types under their longer name.
   */
  lemma StaysIff(table: map<int, Dimension>, fold: string -> string, id: int)
    requires id in table
    ensures id in Cleaned(table, fold) <==>
            forall other :: other in table && other > id && table[other].dataPoint == table[id].dataPoint ==>
              !SameType(table[other].kind, table[id].kind, fold)
    ensures id in Cleaned(table, fold) ==>
            var folded := fold(Written(table[id].kind));
            && Cleaned(table, fold)[id].dataPoint == table[id].dataPoint
            && Cleaned(table, fold)[id].kind == Some(if IsGas(folded) then "gas_type" else folded)
  {
    forall other | other in table
      ensures SameKey(table, fold, id, other) <==>
              table[other].dataPoint == table[id].dataPoint && SameType(table[other].kind, table[id].kind, fold)
    {
    }
  }
}
