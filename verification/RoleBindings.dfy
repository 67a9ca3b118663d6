/**
 The migration that leaves one role binding per user and scope: one pass over the ordered rows with a
 dictionary of the best row so far, then a delete of everything it listed. A row is best in its group
 if it has the least priority, the earliest of several such rows counting; the pass lists exactly the
 others, so exactly the best survive, one for each group, and a second pass finds nothing to list.
 */
module RoleBindings {
  import opened Prelude

  datatype Row = Row(id: int, user: int, role: string, scopeType: string, scopeId: Option<int>)

  datatype Key = Key(user: int, scopeType: string, scopeId: Option<int>)

  function KeyOf(row: Row): Key {
    Key(row.user, row.scopeType, row.scopeId)
  }

  const ROLE_PRIORITY: map<string, int> := map[
    "platform_admin" := 0, "admin" := 1, "esg_manager" := 2, "reviewer" := 3, "collector" := 4, "auditor" := 5]

  function Priority(role: string): int {
    if role in ROLE_PRIORITY then ROLE_PRIORITY[role] else 99
  }

  /** Row `i` beats row `j`: a smaller priority, or the same and an earlier place in the query's order. */
  predicate Beats(rows: seq<Row>, i: nat, j: nat)
    requires i < |rows| && j < |rows|
  {
    Priority(rows[i].role) < Priority(rows[j].role) || (Priority(rows[i].role) == Priority(rows[j].role) && i <= j)
  }

  /** Row `i` beats all rows of its group among the first `n`. */
  ghost predicate Best(rows: seq<Row>, n: nat, i: nat)
    requires i < n <= |rows|
  {
    forall j: nat :: j < n && KeyOf(rows[j]) == KeyOf(rows[i]) ==> Beats(rows, i, j)
  }

  ghost predicate DistinctIds(rows: seq<Row>) {
    forall i, j :: 0 <= i < j < |rows| ==> rows[i].id != rows[j].id
  }

  datatype Holder = Holder(priority: int, id: int)

  /** The holder of key `k` is the row at `pos`, the best of its group among the first `n`. */
  ghost predicate HeldBy(rows: seq<Row>, n: nat, k: Key, holder: Holder, pos: nat) {
    && n <= |rows|
    && pos < n && KeyOf(rows[pos]) == k && Best(rows, n, pos)
    && holder == Holder(Priority(rows[pos].role), rows[pos].id)
  }

  /** The dictionary after `n` rows: per key the best row, whose position the ghost map remembers. */
  ghost predicate SeenHolds(rows: seq<Row>, n: nat, seen: map<Key, Holder>, at: map<Key, nat>) {
    && n <= |rows|
    && seen.Keys == at.Keys
    && (forall i: nat :: i < n ==> KeyOf(rows[i]) in seen)
    && (forall k :: k in seen ==> HeldBy(rows, n, k, seen[k], at[k]))
  }

  /** The ids listed after `n` rows: those of the rows that are not best, each once. */
  ghost predicate Lists(rows: seq<Row>, n: nat, ids: seq<int>) {
    && n <= |rows|
    && Distinct(ids)
    && (forall i: nat :: i < n ==> (rows[i].id in ids <==> !Best(rows, n, i)))
    && (forall x :: x in ids ==> exists i: nat :: i < n && rows[i].id == x)
  }

  lemma BestGrows(rows: seq<Row>, n: nat, i: nat)
    requires i < n < |rows|
    ensures Best(rows, n + 1, i) <==> Best(rows, n, i) && (KeyOf(rows[n]) == KeyOf(rows[i]) ==> Beats(rows, i, n))
  {
  }

  /** Beside the best row of a group there is no other. */
  lemma OneBest(rows: seq<Row>, n: nat, i: nat, h: nat)
    requires i < n <= |rows| && h < n && i != h && Best(rows, n, h)
    ensures KeyOf(rows[i]) == KeyOf(rows[h]) ==> !Best(rows, n, i)
  {
    if KeyOf(rows[i]) == KeyOf(rows[h]) {
      assert Beats(rows, h, i);
      assert !Beats(rows, i, h);
    }
  }

  lemma HolderStays(rows: seq<Row>, n: nat, k: Key, holder: Holder, pos: nat)
    requires n < |rows| && HeldBy(rows, n, k, holder, pos)
    requires KeyOf(rows[n]) != k || holder.priority <= Priority(rows[n].role)
    ensures HeldBy(rows, n + 1, k, holder, pos)
  {
    BestGrows(rows, n, pos);
  }

  lemma HolderTakesOver(rows: seq<Row>, n: nat, k: Key)
    requires n < |rows| && KeyOf(rows[n]) == k
    requires forall i: nat :: i < n && KeyOf(rows[i]) == k ==> Priority(rows[n].role) < Priority(rows[i].role)
    ensures HeldBy(rows, n + 1, k, Holder(Priority(rows[n].role), rows[n].id), n)
  {
  }

  /** The new row takes its key over: nobody of its group came before, or all of them are of lower rank. */
  lemma SeenTakesOver(rows: seq<Row>, n: nat, seen: map<Key, Holder>, at: map<Key, nat>)
    requires n < |rows| && SeenHolds(rows, n, seen, at)
    requires KeyOf(rows[n]) in seen ==> Priority(rows[n].role) < seen[KeyOf(rows[n])].priority
    ensures SeenHolds(rows, n + 1, seen[KeyOf(rows[n]) := Holder(Priority(rows[n].role), rows[n].id)],
                      at[KeyOf(rows[n]) := n])
  {
    var key := KeyOf(rows[n]);
    forall i: nat | i < n && KeyOf(rows[i]) == key ensures Priority(rows[n].role) < Priority(rows[i].role) {
      assert Beats(rows, at[key], i);
    }
    HolderTakesOver(rows, n, key);
    forall k | k in seen && k != key ensures HeldBy(rows, n + 1, k, seen[k], at[k]) {
      HolderStays(rows, n, k, seen[k], at[k]);
    }
  }

  lemma SeenStays(rows: seq<Row>, n: nat, seen: map<Key, Holder>, at: map<Key, nat>)
    requires n < |rows| && SeenHolds(rows, n, seen, at) && KeyOf(rows[n]) in seen
    requires seen[KeyOf(rows[n])].priority <= Priority(rows[n].role)
    ensures SeenHolds(rows, n + 1, seen, at)
  {
    forall k | k in seen ensures HeldBy(rows, n + 1, k, seen[k], at[k]) {
      HolderStays(rows, n, k, seen[k], at[k]);
    }
  }

  /** A key not seen before: the row is best, and nobody else's standing changes. */
  lemma NewKey(rows: seq<Row>, n: nat, ids: seq<int>)
    requires n < |rows| && DistinctIds(rows) && Lists(rows, n, ids)
    requires forall i: nat :: i < n ==> KeyOf(rows[i]) != KeyOf(rows[n])
    ensures Lists(rows, n + 1, ids)
  {
    forall i: nat | i < n ensures Best(rows, n + 1, i) == Best(rows, n, i) {
      BestGrows(rows, n, i);
    }
    assert Best(rows, n + 1, n);
  }

  /** A key seen before: the holder and the new row compete, the loser's id is listed. */
  lemma KnownKey(rows: seq<Row>, n: nat, h: nat, ids: seq<int>)
    requires n < |rows| && DistinctIds(rows) && Lists(rows, n, ids)
    requires h < n && KeyOf(rows[h]) == KeyOf(rows[n]) && Best(rows, n, h)
    ensures var wins := Priority(rows[n].role) < Priority(rows[h].role);
            Lists(rows, n + 1, ids + [rows[if wins then h else n].id])
  {
    var wins := Priority(rows[n].role) < Priority(rows[h].role);
    forall i: nat | i < n && i != h ensures Best(rows, n + 1, i) == Best(rows, n, i) {
      OneBest(rows, n, i, h);
      BestGrows(rows, n, i);
    }
    BestGrows(rows, n, h);
    NewcomerBestIff(rows, n, h);
    LoserListed(rows, n, ids, if wins then h else n);
  }

  lemma NewcomerBestIff(rows: seq<Row>, n: nat, h: nat)
    requires h < n < |rows| && KeyOf(rows[h]) == KeyOf(rows[n]) && Best(rows, n, h)
    ensures Best(rows, n + 1, n) <==> Priority(rows[n].role) < Priority(rows[h].role)
  {
    if Priority(rows[n].role) < Priority(rows[h].role) {
      forall j: nat | j < n && KeyOf(rows[j]) == KeyOf(rows[n]) ensures Beats(rows, n, j) {
        assert Beats(rows, h, j);
      }
    } else {
      assert !Beats(rows, n, h);
    }
  }

  lemma LoserListed(rows: seq<Row>, n: nat, ids: seq<int>, loser: nat)
    requires n < |rows| && DistinctIds(rows) && Lists(rows, n, ids) && loser <= n &&
             (loser < n ==> Best(rows, n, loser))
    requires forall i: nat :: i <= n && i != loser ==> (Best(rows, n + 1, i) <==> i == n || Best(rows, n, i))
    requires !Best(rows, n + 1, loser)
    ensures Lists(rows, n + 1, ids + [rows[loser].id])
  {
    var longer := ids + [rows[loser].id];
    assert rows[loser].id !in ids;
    forall i: nat | i <= n ensures rows[i].id in longer <==> !Best(rows, n + 1, i) {
      assert i != loser ==> rows[i].id != rows[loser].id;
    }
  }

  /** One more row keeps what the loop relies on, whether its key is new, it takes the key over, or it loses. */
  lemma OneMoreRow(rows: seq<Row>, n: nat, seen: map<Key, Holder>, at: map<Key, nat>, ids: seq<int>)
    requires n < |rows| && DistinctIds(rows) && SeenHolds(rows, n, seen, at) && Lists(rows, n, ids)
    ensures var k, holder := KeyOf(rows[n]), Holder(Priority(rows[n].role), rows[n].id);
            if k !in seen then Lists(rows, n + 1, ids) && SeenHolds(rows, n + 1, seen[k := holder], at[k := n])
            else if holder.priority < seen[k].priority
            then Lists(rows, n + 1, ids + [seen[k].id]) && SeenHolds(rows, n + 1, seen[k := holder], at[k := n])
            else Lists(rows, n + 1, ids + [rows[n].id]) && SeenHolds(rows, n + 1, seen, at)
  {
    var k := KeyOf(rows[n]);
    if k !in seen {
      SeenTakesOver(rows, n, seen, at);
      NewKey(rows, n, ids);
    } else {
      assert HeldBy(rows, n, k, seen[k], at[k]);
      KnownKey(rows, n, at[k], ids);
      if Priority(rows[n].role) < seen[k].priority {
        SeenTakesOver(rows, n, seen, at);
      } else {
        SeenStays(rows, n, seen, at);
      }
    }
  }

  method DuplicateIds(rows: seq<Row>) returns (duplicateIds: seq<int>)
    requires DistinctIds(rows)
    ensures Lists(rows, |rows|, duplicateIds)
  {
    duplicateIds := [];
    var seen: map<Key, Holder> := map[];
    ghost var at: map<Key, nat> := map[];
    for n := 0 to |rows|
      invariant SeenHolds(rows, n, seen, at) && Lists(rows, n, duplicateIds)
    {
      var row := rows[n];
      var key, priority := KeyOf(row), Priority(row.role);
      OneMoreRow(rows, n, seen, at, duplicateIds);
      if key !in seen {
        seen, at := seen[key := Holder(priority, row.id)], at[key := n];
        continue;
      }
      var existing := seen[key];
      if priority < existing.priority {
        duplicateIds := duplicateIds + [existing.id];
        seen, at := seen[key := Holder(priority, row.id)], at[key := n];
      } else {
        duplicateIds := duplicateIds + [row.id];
      }
    }
  }

  // ---------- what is left ----------

  /** The best rows of the first `n` places, in order. */
  ghost function Survivors(rows: seq<Row>, n: nat): seq<Row>
    requires n <= |rows|
  {
    if n == 0 then [] else Survivors(rows, n - 1) + if Best(rows, |rows|, n - 1) then [rows[n - 1]] else []
  }

  lemma {:induction false} SurvivorPlace(rows: seq<Row>, n: nat, x: Row) returns (i: nat)
    requires n <= |rows| && x in Survivors(rows, n)
    ensures i < n && rows[i] == x && Best(rows, |rows|, i)
  {
    if Best(rows, |rows|, n - 1) && x == rows[n - 1] {
      i := n - 1;
    } else {
      i := SurvivorPlace(rows, n - 1, x);
    }
  }

  lemma {:induction false} BestSurvives(rows: seq<Row>, n: nat, i: nat)
    requires i < n <= |rows| && Best(rows, |rows|, i)
    ensures rows[i] in Survivors(rows, n)
  {
    if i < n - 1 {
      BestSurvives(rows, n - 1, i);
    }
  }

  /** The migration: list the duplicates, delete them. */
  method Deduplicate(rows: seq<Row>) returns (kept: seq<Row>)
    requires DistinctIds(rows)
    ensures kept == Survivors(rows, |rows|)
  {
    var duplicateIds := DuplicateIds(rows);
    kept := [];
    for n := 0 to |rows|
      invariant kept == Survivors(rows, n)
    {
      if rows[n].id !in duplicateIds {
        kept := kept + [rows[n]];
      }
    }
  }

  /** In every group some row is best. */
  lemma {:induction false} SomeBest(rows: seq<Row>, n: nat, i: nat) returns (best: nat)
    requires i < n <= |rows|
    ensures best < n && KeyOf(rows[best]) == KeyOf(rows[i]) && Best(rows, n, best)
    decreases n
  {
    if n == 1 {
      best := i;
    } else if forall j: nat :: j < n - 1 ==> KeyOf(rows[j]) != KeyOf(rows[i]) {
      best := i;
    } else {
      var j: nat :| j < n - 1 && KeyOf(rows[j]) == KeyOf(rows[i]);
      best := SomeBest(rows, n - 1, j);
      BestGrows(rows, n - 1, best);
      if KeyOf(rows[n - 1]) == KeyOf(rows[i]) {
        NewcomerBestIff(rows, n - 1, best);
        if Priority(rows[n - 1].role) < Priority(rows[best].role) {
          best := n - 1;
        }
      }
    }
  }

  /** One row per user and scope: one survives in every group, and no two survivors share a group. */
  lemma OnePerGroup(rows: seq<Row>, i: nat)
    requires i < |rows|
    ensures exists x :: x in Survivors(rows, |rows|) && KeyOf(x) == KeyOf(rows[i])
    ensures forall a, b :: 0 <= a < b < |Survivors(rows, |rows|)| ==>
              KeyOf(Survivors(rows, |rows|)[a]) != KeyOf(Survivors(rows, |rows|)[b])
  {
    var best := SomeBest(rows, |rows|, i);
    BestSurvives(rows, |rows|, best);
    KeysApart(rows, |rows|);
  }

  ghost predicate DistinctKeys(rows: seq<Row>) {
    forall a, b :: 0 <= a < b < |rows| ==> KeyOf(rows[a]) != KeyOf(rows[b])
  }

  lemma {:induction false} KeysApart(rows: seq<Row>, n: nat)
    requires n <= |rows|
    ensures DistinctKeys(Survivors(rows, n))
  {
    if n > 0 {
      KeysApart(rows, n - 1);
      if Best(rows, |rows|, n - 1) {
        forall x | x in Survivors(rows, n - 1) ensures KeyOf(x) != KeyOf(rows[n - 1]) {
          var i := SurvivorPlace(rows, n - 1, x);
          OneBest(rows, |rows|, n - 1, i);
        }
        OneMoreKey(Survivors(rows, n - 1), rows[n - 1]);
      } else {
        assert Survivors(rows, n) == Survivors(rows, n - 1);
      }
    }
  }

  lemma OneMoreKey(rows: seq<Row>, x: Row)
    requires DistinctKeys(rows) && forall y :: y in rows ==> KeyOf(y) != KeyOf(x)
    ensures DistinctKeys(rows + [x])
  {
  }

  lemma {:induction false} DistinctKeysSurvive(rows: seq<Row>, n: nat)
    requires n <= |rows| && DistinctKeys(rows)
    ensures Survivors(rows, n) == rows[..n]
  {
    if n > 0 {
      DistinctKeysSurvive(rows, n - 1);
      assert Best(rows, |rows|, n - 1);
      assert rows[..n] == rows[..n - 1] + [rows[n - 1]];
    }
  }

  /** A second pass deletes nothing. */
  lemma SecondPass(rows: seq<Row>)
    ensures var kept := Survivors(rows, |rows|); Survivors(kept, |kept|) == kept
  {
    var kept := Survivors(rows, |rows|);
    KeysApart(rows, |rows|);
    DistinctKeysSurvive(kept, |kept|);
    assert kept[..|kept|] == kept;
  }

  // ---------- who survives, by the names of the roles ----------

  const RANKING := ["platform_admin", "admin", "esg_manager", "reviewer", "collector", "auditor"]

  /** `a` stands in the ranking, and `b` later or not at all. */
  ghost predicate Above(a: string, b: string) {
    exists x :: 0 <= x < |RANKING| && RANKING[x] == a && forall y :: 0 <= y <= x ==> RANKING[y] != b
  }

  lemma AboveIff(a: string, b: string)
    ensures Above(a, b) <==> Priority(a) < Priority(b)
  {
    InRanking(a);
    InRanking(b);
    assert forall x :: 0 <= x < |RANKING| ==> Priority(RANKING[x]) == x;
    if Priority(a) < Priority(b) {
      assert RANKING[Priority(a)] == a;
      assert forall y :: 0 <= y <= Priority(a) ==> RANKING[y] != b;
    }
  }

  /** Priorities are places in the ranking; a role that has none comes after all of them. */
  lemma InRanking(role: string)
    ensures if Priority(role) < |RANKING| then 0 <= Priority(role) && RANKING[Priority(role)] == role
            else role !in RANKING
  {
  }

  predicate SameScope(a: Row, b: Row) {
    a.user == b.user && a.scopeType == b.scopeType && a.scopeId == b.scopeId
  }

  /**
   A row survives if and only if no row of the same user and scope has a role above its own, and none before it in the
   query's order has a role that its own is not above.
   */
  lemma SurvivesIff(rows: seq<Row>, i: nat)
    requires DistinctIds(rows) && i < |rows|
    ensures rows[i] in Survivors(rows, |rows|) <==>
            forall j: nat :: j < |rows| && SameScope(rows[j], rows[i]) ==>
              !Above(rows[j].role, rows[i].role) && (j < i ==> Above(rows[i].role, rows[j].role))
  {
    forall j: nat | j < |rows|
      ensures Beats(rows, i, j) <==>
              !Above(rows[j].role, rows[i].role) && (j < i ==> Above(rows[i].role, rows[j].role))
    {
      AboveIff(rows[j].role, rows[i].role);
      AboveIff(rows[i].role, rows[j].role);
    }
    if Best(rows, |rows|, i) {
      BestSurvives(rows, |rows|, i);
    }
    if rows[i] in Survivors(rows, |rows|) {
      var k := SurvivorPlace(rows, |rows|, rows[i]);
      assert rows[k].id == rows[i].id;
    }
  }
}
