/**
 A database table whose rows are looked up by natural key. `body` holds the columns that an upsert
 rewrites, `rest` those it leaves alone; a row that is not `live` is kept but never found again.
 The lemmas say what each operation does to look-ups, when two tables with the same rows are equal,
 and that tables only grow while rows only die.
 */
module KeyedTable {
  import opened Prelude

  datatype Row<K, B, R> = Row(key: K, body: B, rest: R, live: bool)

  datatype Table<K, B, R> = Table(rows: map<int, Row<K, B, R>>, next: int)

  predicate Holds<K(==), B, R>(t: Table<K, B, R>, i: int, k: K) {
    i in t.rows && t.rows[i].live && t.rows[i].key == k
  }

  /** Two live rows with one key. */
  predicate BothHold<K(==), B, R>(t: Table<K, B, R>, i: int, j: int) {
    i in t.rows && Holds(t, j, t.rows[i].key) && t.rows[i].live
  }

  /** At most one live row per key, and `next` is a fresh id. */
  ghost predicate Unique<K, B, R>(t: Table<K, B, R>) {
    && (forall i, j :: BothHold(t, i, j) ==> i == j)
    && (forall i :: i in t.rows ==> i < t.next)
  }

  ghost function Find<K, B, R>(t: Table<K, B, R>, k: K): (r: Option<int>)
    ensures r.Some? ==> Holds(t, r.value, k)
    ensures r.None? ==> forall i :: !Holds(t, i, k)
  {
    if i :| Holds(t, i, k) then Some(i) else None
  }

  lemma FindIsUnique<K, B, R>(t: Table<K, B, R>, i: int, k: K)
    requires Unique(t) && Holds(t, i, k)
    ensures Find(t, k) == Some(i)
  {
    assert BothHold(t, i, Find(t, k).value);
  }

  /** The query for one row: at most one matches. */
  method Lookup<K(==), B, R>(t: Table<K, B, R>, k: K) returns (r: Option<int>)
    requires Unique(t)
    ensures r == Find(t, k)
  {
    if i :| i in t.rows && Holds(t, i, k) {
      FindIsUnique(t, i, k);
      return Some(i);
    }
    return None;
  }

  // ---------- the operations ----------

  function Inserted<K, B, R>(t: Table<K, B, R>, k: K, b: B, r: R): Table<K, B, R> {
    Table(t.rows[t.next := Row(k, b, r, true)], t.next + 1)
  }

  function Rewritten<K, B, R>(t: Table<K, B, R>, i: int, b: B): Table<K, B, R>
    requires i in t.rows
  {
    t.(rows := t.rows[i := t.rows[i].(body := b)])
  }

  ghost function Upserted<K, B, R>(t: Table<K, B, R>, k: K, b: B, r: R): Table<K, B, R> {
    var found := Find(t, k);
    if found.Some? then Rewritten(t, found.value, b) else Inserted(t, k, b, r)
  }

  ghost function Ensured<K, B, R>(t: Table<K, B, R>, k: K, b: B, r: R): Table<K, B, R> {
    if Find(t, k).Some? then t else Inserted(t, k, b, r)
  }

  function Retired<K, B, R>(t: Table<K, B, R>, dies: K -> bool): Table<K, B, R> {
    t.(rows := map i | i in t.rows :: if t.rows[i].live && dies(t.rows[i].key) then t.rows[i].(live := false)
       else t.rows[i])
  }

  lemma RewriteNothing<K, B, R>(t: Table<K, B, R>, i: int)
    requires i in t.rows
    ensures Rewritten(t, i, t.rows[i].body) == t
  {
    assert t.rows[i := t.rows[i]] == t.rows;
  }

  lemma InsertedFinds<K, B, R>(t: Table<K, B, R>, k: K, b: B, r: R)
    requires Unique(t) && Find(t, k).None?
    ensures var t' := Inserted(t, k, b, r);
            Unique(t') && Find(t', k) == Some(t.next) && forall k2 :: k2 != k ==> Find(t', k2) == Find(t, k2)
  {
    var t' := Inserted(t, k, b, r);
    forall i | i in t.rows && t.rows[i].live ensures t.rows[i].key != k {
      assert !Holds(t, i, k);
    }
    forall i, j | BothHold(t', i, j) ensures i == j {
      assert i != t.next && j != t.next ==> BothHold(t, i, j);
    }
    FindIsUnique(t', t.next, k);
    forall k2 | k2 != k ensures Find(t', k2) == Find(t, k2) {
      assert Find(t', k2).Some? ==> Holds(t, Find(t', k2).value, k2);
      if Find(t, k2).Some? {
        FindIsUnique(t', Find(t, k2).value, k2);
      }
    }
  }

  lemma RewrittenFinds<K, B, R>(t: Table<K, B, R>, i: int, b: B)
    requires Unique(t) && i in t.rows
    ensures Unique(Rewritten(t, i, b)) && forall k :: Find(Rewritten(t, i, b), k) == Find(t, k)
  {
    var t' := Rewritten(t, i, b);
    assert forall i, j :: BothHold(t', i, j) ==> BothHold(t, i, j);
    forall k ensures Find(t', k) == Find(t, k) {
      assert Find(t', k).Some? ==> Holds(t, Find(t', k).value, k);
      if Find(t, k).Some? {
        FindIsUnique(t', Find(t, k).value, k);
      }
    }
  }

  /** After an upsert the key is found with the new body; other keys are found where they were, unchanged. */
  lemma UpsertedFinds<K, B, R>(t: Table<K, B, R>, k: K, b: B, r: R)
    requires Unique(t)
    ensures var t' := Upserted(t, k, b, r);
            && Unique(t') && Find(t', k).Some? && t'.rows[Find(t', k).value].body == b
            && (Find(t, k).Some? ==> Find(t', k) == Find(t, k))
            && (forall k2 :: k2 != k ==> Find(t', k2) == Find(t, k2))
            && (forall i :: i in t.rows && Find(t', k) != Some(i) ==> i in t'.rows && t'.rows[i] == t.rows[i])
  {
    if Find(t, k).Some? {
      RewrittenFinds(t, Find(t, k).value, b);
    } else {
      InsertedFinds(t, k, b, r);
    }
  }

  lemma RetiredFinds<K, B, R>(t: Table<K, B, R>, dies: K -> bool)
    requires Unique(t)
    ensures Unique(Retired(t, dies))
    ensures forall k :: Find(Retired(t, dies), k) == if dies(k) then None else Find(t, k)
  {
    var t' := Retired(t, dies);
    assert forall i, j :: BothHold(t', i, j) ==> BothHold(t, i, j);
    forall k ensures Find(t', k) == if dies(k) then None else Find(t, k) {
      assert Find(t', k).Some? ==> Holds(t, Find(t', k).value, k) && !dies(k);
      if Find(t, k).Some? && !dies(k) {
        FindIsUnique(t', Find(t, k).value, k);
      }
    }
  }

  // ---------- what has been written last ----------

  /** Every key of `w` is found, with that body. */
  ghost predicate Reflects<K, B, R>(t: Table<K, B, R>, w: map<K, B>) {
    forall k :: k in w ==> Find(t, k).Some? && t.rows[Find(t, k).value].body == w[k]
  }

  lemma UpsertedReflects<K, B, R>(t: Table<K, B, R>, w: map<K, B>, k: K, b: B, r: R)
    requires Unique(t) && Reflects(t, w)
    ensures Reflects(Upserted(t, k, b, r), w[k := b])
  {
    UpsertedFinds(t, k, b, r);
    var t' := Upserted(t, k, b, r);
    forall k2 | k2 in w && k2 != k ensures Find(t', k2).Some? && t'.rows[Find(t', k2).value].body == w[k2] {
      assert Find(t', k2) == Find(t, k2);
      assert Find(t', k) != Find(t', k2);
    }
  }

  lemma RetiredReflects<K, B, R>(t: Table<K, B, R>, w: map<K, B>, dies: K -> bool)
    requires Unique(t) && Reflects(t, w)
    requires forall k :: k in w ==> !dies(k)
    ensures Reflects(Retired(t, dies), w)
  {
    RetiredFinds(t, dies);
  }

  // ---------- two tables that differ only in bodies ----------

  ghost predicate SameSkeleton<K, B, R>(a: Table<K, B, R>, b: Table<K, B, R>) {
    && a.next == b.next && a.rows.Keys == b.rows.Keys
    && forall i :: i in a.rows ==> b.rows[i] == a.rows[i].(body := b.rows[i].body)
  }

  lemma SkeletonFinds<K, B, R>(a: Table<K, B, R>, b: Table<K, B, R>)
    requires Unique(a) && SameSkeleton(a, b)
    ensures Unique(b) && forall k :: Find(b, k) == Find(a, k)
  {
    assert forall i, j :: BothHold(b, i, j) ==> BothHold(a, i, j);
    forall k ensures Find(b, k) == Find(a, k) {
      assert Find(b, k).Some? ==> Holds(a, Find(b, k).value, k);
      if Find(a, k).Some? {
        FindIsUnique(b, Find(a, k).value, k);
      }
    }
  }

  /** Rows that no key of `w` leads to are equal. */
  ghost predicate SameElsewhere<K, B, R>(a: Table<K, B, R>, b: Table<K, B, R>, w: map<K, B>)
    requires SameSkeleton(a, b)
  {
    forall i :: i in a.rows && !(a.rows[i].live && a.rows[i].key in w) ==> b.rows[i] == a.rows[i]
  }

  ghost predicate Shadows<K, B, R>(a: Table<K, B, R>, b: Table<K, B, R>, w: map<K, B>) {
    SameSkeleton(a, b) && SameElsewhere(a, b, w)
  }

  /** Writing again to a key that is there changes one body only. */
  lemma UpsertedShadows<K, B, R>(a: Table<K, B, R>, t: Table<K, B, R>, w: map<K, B>, k: K, b: B, r: R)
    requires Unique(a) && Shadows(a, t, w) && k in w && Find(a, k).Some?
    ensures Shadows(a, Upserted(t, k, b, r), w)
  {
    SkeletonFinds(a, t);
  }

  /** Two tables that reflect the same writes and agree elsewhere are equal. */
  lemma ShadowsMeet<K, B, R>(a: Table<K, B, R>, b: Table<K, B, R>, w: map<K, B>)
    requires Unique(a) && Shadows(a, b, w) && Reflects(a, w) && Reflects(b, w)
    ensures a == b
  {
    SkeletonFinds(a, b);
    forall i | i in a.rows ensures b.rows[i] == a.rows[i] {
      if a.rows[i].live && a.rows[i].key in w {
        FindIsUnique(a, i, a.rows[i].key);
      }
    }
    assert a.rows == b.rows;
  }

  // ---------- tables only grow, and rows only die ----------

  ghost predicate Grows<K, B, R>(a: Table<K, B, R>, b: Table<K, B, R>) {
    && a.next <= b.next
    && (forall i :: i in a.rows ==>
         i in b.rows && b.rows[i].key == a.rows[i].key && (b.rows[i].live ==> a.rows[i].live))
    && (forall i :: i in b.rows && i !in a.rows ==> a.next <= i < b.next)
  }

  lemma OperationsGrow<K, B, R>(t: Table<K, B, R>, k: K, b: B, r: R, dies: K -> bool)
    requires Unique(t)
    ensures Grows(t, Upserted(t, k, b, r)) && Grows(t, Ensured(t, k, b, r)) && Grows(t, Retired(t, dies))
  {
  }

  ghost predicate IsLive<K, B, R>(t: Table<K, B, R>, k: K) {
    exists i :: Holds(t, i, k)
  }

  /** What lies between a table and itself has the same live keys. */
  lemma Squeezed<K, B, R>(a: Table<K, B, R>, b: Table<K, B, R>, k: K)
    requires Grows(a, b) && Grows(b, a)
    ensures IsLive(a, k) <==> IsLive(b, k)
  {
    if IsLive(a, k) {
      var i :| Holds(a, i, k);
      assert Holds(b, i, k);
    }
    if IsLive(b, k) {
      var i :| Holds(b, i, k);
      assert Holds(a, i, k);
    }
  }
}
