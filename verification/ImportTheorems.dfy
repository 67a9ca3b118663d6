/**
 What a whole import does: it leaves each parsed disclosure with exactly the items it lists, and
 importing the document again changes nothing, if and only if parsed disclosures that share a code
 list the same item codes.

 The first part follows, disclosure by disclosure, which items are current. For the second, `Writes`
 collects the last body written under each key: a second import can differ from the first one's end in
 such bodies only (`Retraces`), ends with the same ones (`Holding`), and therefore ends in the same tables.
 The converse needs no writes at all: rows are never revived, so an import that ends where it began has
 left every disclosure's items as they were on the way.
 */
module ImportTheorems {
  import opened Prelude
  import opened KeyedTable
  import opened CatalogImport

  /** Disclosures that fall on one row agree on their item codes. */
  ghost predicate NoConflict(doc: seq<Parsed>) {
    forall j, k :: 0 <= j < k < |doc| && doc[j].code == doc[k].code ==> Codes(doc[j].points) == Codes(doc[k].points)
  }

  ghost function RowOf(db: Db, job: Job, code: string): int {
    IdOf(db.disclosures, KeyOfDisclosure(job, code))
  }

  ghost predicate Lists(db: Db, d: int, codes: set<string>) {
    forall k: ItemKey :: k.disclosure == d ==> (IsLive(db.items, k) <==> k.Coded? && k.code in codes)
  }

  // ---------- current item codes ----------

  lemma PutPointLives(db: Db, job: Job, d: int, pt: DataPoint, sortOrder: int, k: ItemKey)
    requires Keyed(db)
    ensures Find(PutPoint(db, job, d, pt, sortOrder).items, k).Some? <==>
            Find(db.items, k).Some? || k == KeyOfItem(d, pt.itemCode)
    ensures PutPoint(db, job, d, pt, sortOrder).disclosures == db.disclosures
  {
    UpsertedFinds(db.items, KeyOfItem(d, pt.itemCode), ItemBodyOf(pt, sortOrder), NEW_ITEM);
  }

  lemma {:induction false} PutPointsLives(db: Db, job: Job, d: int, points: seq<DataPoint>, n: nat, k: ItemKey)
    requires Keyed(db) && n <= |points|
    ensures var after := PutPoints(db, job, d, points, n);
            && after.disclosures == db.disclosures
            && (Find(after.items, k).Some? <==>
                  Find(db.items, k).Some? || (k.disclosure == d && k.Coded? && k.code in Codes(points[..n])))
  {
    if n > 0 {
      PutPointsKeyed(db, job, d, points, n - 1);
      PutPointsLives(db, job, d, points, n - 1, k);
      PutPointLives(PutPoints(db, job, d, points, n - 1), job, d, points[n - 1], n, k);
      assert points[..n] == points[..n - 1] + [points[n - 1]];
    }
  }

  /** One disclosure: its own row lists exactly its codes, other rows what they listed before. */
  lemma ImportOneLives(db: Db, job: Job, p: Parsed, k: ItemKey)
    requires Keyed(db)
    ensures var after := ImportOne(db, job, p);
            && after.disclosures == PutDisclosure(db.disclosures, job, p)
            && (if k.disclosure == RowOf(after, job, p.code)
                then IsLive(after.items, k) <==> k.Coded? && k.code in Codes(p.points)
                else IsLive(after.items, k) <==> IsLive(db.items, k))
  {
    UpsertedFinds(db.disclosures, KeyOfDisclosure(job, p.code), DisclosureBodyOf(job, p), NEW_DISCLOSURE);
    var entered := db.(disclosures := PutDisclosure(db.disclosures, job, p));
    var d := RowOf(entered, job, p.code);
    PutPointsKeyed(entered, job, d, p.points, |p.points|);
    PutPointsLives(entered, job, d, p.points, |p.points|, k);
    assert p.points[..|p.points|] == p.points;
    var filled := PutPoints(entered, job, d, p.points, |p.points|);
    RetiredFinds(filled.items, key => IsStale(key, d, Codes(p.points)));
  }

  /** What importing one disclosure does to rows of disclosures and to current items. */
  ghost predicate StepFacts(before: Db, after: Db, job: Job, p: Parsed) {
    && HasRow(after, job, p.code)
    && (forall c :: HasRow(before, job, c) ==> HasRow(after, job, c) && RowOf(after, job, c) == RowOf(before, job, c))
    && (forall k: ItemKey ::
          if k.disclosure == RowOf(after, job, p.code)
          then IsLive(after.items, k) <==> k.Coded? && k.code in Codes(p.points)
          else IsLive(after.items, k) <==> IsLive(before.items, k))
  }

  ghost predicate HasRow(db: Db, job: Job, code: string) {
    Find(db.disclosures, KeyOfDisclosure(job, code)).Some?
  }

  lemma ImportOneSteps(db: Db, job: Job, p: Parsed)
    requires Keyed(db)
    ensures StepFacts(db, ImportOne(db, job, p), job, p)
  {
    var after := ImportOne(db, job, p);
    forall k: ItemKey
      ensures if k.disclosure == RowOf(after, job, p.code)
              then IsLive(after.items, k) <==> k.Coded? && k.code in Codes(p.points)
              else IsLive(after.items, k) <==> IsLive(db.items, k)
      ensures after.disclosures == PutDisclosure(db.disclosures, job, p)
    {
      ImportOneLives(db, job, p, k);
    }
    ImportOneLives(db, job, p, Uncoded(0, 0));
    UpsertedFinds(db.disclosures, KeyOfDisclosure(job, p.code), DisclosureBodyOf(job, p), NEW_DISCLOSURE);
  }

  /** The states of one import, in order. */
  ghost predicate Trace(dbs: seq<Db>, job: Job, doc: seq<Parsed>) {
    |dbs| == |doc| + 1 && forall n :: 0 <= n < |doc| ==> StepFacts(dbs[n], dbs[n + 1], job, doc[n])
  }

  ghost function States(db: Db, job: Job, doc: seq<Parsed>): (dbs: seq<Db>)
    ensures |dbs| == |doc| + 1 && forall n :: 0 <= n <= |doc| ==> dbs[n] == Import(db, job, doc, n)
  {
    seq(|doc| + 1, n requires 0 <= n <= |doc| => Import(db, job, doc, n))
  }

  /** Once a disclosure has a row it keeps it. */
  lemma {:induction false} RowsStable(dbs: seq<Db>, job: Job, doc: seq<Parsed>, j: nat, m: nat, n: nat)
    requires Trace(dbs, job, doc) && j < m <= n <= |doc|
    ensures HasRow(dbs[n], job, doc[j].code) && RowOf(dbs[n], job, doc[j].code) == RowOf(dbs[m], job, doc[j].code)
    decreases n
  {
    assert StepFacts(dbs[n - 1], dbs[n], job, doc[n - 1]);
    if j + 1 < n {
      RowsStable(dbs, job, doc, j, if m < n then m else n - 1, n - 1);
    }
  }

  /** After `n` disclosures, the latest one with a given code decides what its row lists. */
  lemma {:induction false} LatestDecides(dbs: seq<Db>, job: Job, doc: seq<Parsed>, n: nat, j: nat)
    requires Trace(dbs, job, doc) && j < n <= |doc|
    requires forall l :: j < l < n ==> doc[l].code != doc[j].code
    ensures Lists(dbs[n], RowOf(dbs[n], job, doc[j].code), Codes(doc[j].points))
  {
    assert StepFacts(dbs[n - 1], dbs[n], job, doc[n - 1]);
    if j < n - 1 {
      LatestDecides(dbs, job, doc, n - 1, j);
      RowsStable(dbs, job, doc, j, n - 1, n);
    }
  }

  lemma {:induction false} LatestExists(doc: seq<Parsed>, n: nat, j: nat) returns (l: nat)
    requires j < n <= |doc|
    ensures j <= l < n && doc[l].code == doc[j].code
    ensures forall l' :: l < l' < n ==> doc[l'].code != doc[j].code
  {
    if doc[n - 1].code == doc[j].code {
      l := n - 1;
    } else {
      l := LatestExists(doc, n - 1, j);
    }
  }

  lemma ListsOnce(db: Db, d: int, a: set<string>, b: set<string>)
    requires Lists(db, d, a) && Lists(db, d, b)
    ensures a == b
  {
    forall c ensures c in a <==> c in b {
      var k := Coded(d, c);
      assert k.disclosure == d && k.code == c;
    }
  }

  ghost predicate EveryoneListed(db: Db, job: Job, doc: seq<Parsed>) {
    forall j :: 0 <= j < |doc| ==> Lists(db, RowOf(db, job, doc[j].code), Codes(doc[j].points))
  }

  lemma ListedIff(dbs: seq<Db>, job: Job, doc: seq<Parsed>)
    requires Trace(dbs, job, doc)
    ensures EveryoneListed(dbs[|doc|], job, doc) <==> NoConflict(doc)
  {
    var after := dbs[|doc|];
    if NoConflict(doc) {
      forall j | 0 <= j < |doc| ensures Lists(after, RowOf(after, job, doc[j].code), Codes(doc[j].points)) {
        var l := LatestExists(doc, |doc|, j);
        LatestDecides(dbs, job, doc, |doc|, l);
      }
    }
    if EveryoneListed(after, job, doc) {
      forall j, k | 0 <= j < k < |doc| && doc[j].code == doc[k].code
        ensures Codes(doc[j].points) == Codes(doc[k].points) {
        ListsOnce(after, RowOf(after, job, doc[j].code), Codes(doc[j].points), Codes(doc[k].points));
      }
    }
  }

  /** Reconciliation: every parsed disclosure's current items are exactly those
   * it lists, just when nothing conflicts. */
  lemma ReconcilesIff(db: Db, job: Job, doc: seq<Parsed>)
    requires Keyed(db)
    ensures EveryoneListed(Import(db, job, doc, |doc|), job, doc) <==> NoConflict(doc)
  {
    StatesRun(db, job, doc);
    RunTraces(States(db, job, doc), job, doc);
    ListedIff(States(db, job, doc), job, doc);
  }

  // ---------- an import that changes nothing has nothing in conflict ----------

  lemma {:induction false} PutPointsGrow(db: Db, job: Job, d: int, points: seq<DataPoint>, n: nat)
    requires Keyed(db) && n <= |points|
    ensures Grows(db.items, PutPoints(db, job, d, points, n).items)
  {
    if n > 0 {
      PutPointsGrow(db, job, d, points, n - 1);
      PutPointsKeyed(db, job, d, points, n - 1);
      var before := PutPoints(db, job, d, points, n - 1);
      OperationsGrow(before.items, KeyOfItem(d, points[n - 1].itemCode), ItemBodyOf(points[n - 1], n), NEW_ITEM,
                     _ => false);
    }
  }

  lemma ImportOneGrows(db: Db, job: Job, p: Parsed)
    requires Keyed(db)
    ensures Grows(db.items, ImportOne(db, job, p).items)
  {
    UpsertedFinds(db.disclosures, KeyOfDisclosure(job, p.code), DisclosureBodyOf(job, p), NEW_DISCLOSURE);
    var entered := db.(disclosures := PutDisclosure(db.disclosures, job, p));
    var d := RowOf(entered, job, p.code);
    PutPointsGrow(entered, job, d, p.points, |p.points|);
    PutPointsKeyed(entered, job, d, p.points, |p.points|);
    var filled := PutPoints(entered, job, d, p.points, |p.points|);
    OperationsGrow(filled.items, Uncoded(0, 0), ItemBody("", None, "", "", None, 0), NEW_ITEM,
                   k => IsStale(k, d, Codes(p.points)));
  }

  ghost predicate RunStep(before: Db, after: Db, job: Job, p: Parsed) {
    Keyed(before) && after == ImportOne(before, job, p)
  }

  /** A sequence of states, each the import of one more disclosure into the one before. */
  ghost predicate Run(dbs: seq<Db>, job: Job, doc: seq<Parsed>) {
    |dbs| == |doc| + 1 && forall n :: 0 <= n < |doc| ==> RunStep(dbs[n], dbs[n + 1], job, doc[n])
  }

  lemma StatesRun(db: Db, job: Job, doc: seq<Parsed>)
    requires Keyed(db)
    ensures Run(States(db, job, doc), job, doc)
  {
    forall n | 0 <= n < |doc|
      ensures RunStep(States(db, job, doc)[n], States(db, job, doc)[n + 1], job, doc[n])
    {
      ImportKeyed(db, job, doc, n);
    }
  }

  lemma RunTraces(dbs: seq<Db>, job: Job, doc: seq<Parsed>)
    requires Run(dbs, job, doc)
    ensures Trace(dbs, job, doc)
  {
    forall n | 0 <= n < |doc| ensures StepFacts(dbs[n], dbs[n + 1], job, doc[n]) {
      assert RunStep(dbs[n], dbs[n + 1], job, doc[n]);
      ImportOneSteps(dbs[n], job, doc[n]);
    }
  }

  lemma {:induction false} RunGrows(dbs: seq<Db>, job: Job, doc: seq<Parsed>, m: nat, n: nat)
    requires Run(dbs, job, doc) && m <= n <= |doc|
    ensures Grows(dbs[m].items, dbs[n].items)
    decreases n
  {
    if m < n {
      RunGrows(dbs, job, doc, m, n - 1);
      assert RunStep(dbs[n - 1], dbs[n], job, doc[n - 1]);
      ImportOneGrows(dbs[n - 1], job, doc[n - 1]);
    }
  }

  lemma FixedPointListed(db: Db, job: Job, doc: seq<Parsed>, n: nat)
    requires Keyed(db) && n < |doc|
    requires Import(db, job, doc, |doc|) == db
    ensures Lists(db, RowOf(db, job, doc[n].code), Codes(doc[n].points))
  {
    var dbs := States(db, job, doc);
    StatesRun(db, job, doc);
    RunTraces(States(db, job, doc), job, doc);
    var after := dbs[n + 1];
    RowsStable(dbs, job, doc, n, n + 1, |doc|);
    StatesRun(db, job, doc);
    RunGrows(dbs, job, doc, 0, n + 1);
    RunGrows(dbs, job, doc, n + 1, |doc|);
    forall k: ItemKey ensures IsLive(after.items, k) <==> IsLive(db.items, k) {
      Squeezed(db.items, after.items, k);
    }
  }

  lemma FixedPointAgrees(db: Db, job: Job, doc: seq<Parsed>)
    requires Keyed(db) && Import(db, job, doc, |doc|) == db
    ensures NoConflict(doc)
  {
    forall j, k | 0 <= j < k < |doc| && doc[j].code == doc[k].code
      ensures Codes(doc[j].points) == Codes(doc[k].points) {
      FixedPointListed(db, job, doc, j);
      FixedPointListed(db, job, doc, k);
      ListsOnce(db, RowOf(db, job, doc[j].code), Codes(doc[j].points), Codes(doc[k].points));
    }
  }

  // ---------- what an import writes, last write winning ----------

  function PointItemWrites(w: map<ItemKey, ItemBody>, d: int, points: seq<DataPoint>, n: nat): map<ItemKey, ItemBody>
    requires n <= |points|
  {
    if n == 0 then w
    else PointItemWrites(w, d, points, n - 1)[KeyOfItem(d, points[n - 1].itemCode) := ItemBodyOf(points[n - 1], n)]
  }

  function PointElementWrites(w: map<string, ElementBody>, job: Job, points: seq<DataPoint>,
                             n: nat): map<string, ElementBody>
    requires n <= |points|
  {
    if n == 0 then w
    else
      PointElementWrites(w, job, points, n - 1)
        [SharedCode(job, points[n - 1].itemCode) := ElementBodyOf(job, ItemBodyOf(points[n - 1], n))]
  }

  /** Bodies by key: disclosures, items, shared elements. */
  datatype Writes = Writes(
    disclosures: map<DisclosureKey, DisclosureBody>, items: map<ItemKey, ItemBody>, elements: map<string, ElementBody>)

  function WithPoints(w: Writes, job: Job, d: int, points: seq<DataPoint>, n: nat): Writes
    requires n <= |points|
  {
    w.(items := PointItemWrites(w.items, d, points, n),
       elements := if job.withShared then PointElementWrites(w.elements, job, points, n) else w.elements)
  }

  /** The writes of the first `n` disclosures; `final` supplies the row ids of disclosures. */
  ghost function WritesOf(final: Db, job: Job, doc: seq<Parsed>, n: nat): Writes
    requires n <= |doc|
  {
    if n == 0 then Writes(map[], map[], map[])
    else
      var p := doc[n - 1];
      var w := WritesOf(final, job, doc, n - 1);
      WithPoints(w.(disclosures := w.disclosures[KeyOfDisclosure(job, p.code) := DisclosureBodyOf(job, p)]),
                 job, RowOf(final, job, p.code), p.points, |p.points|)
  }

  ghost predicate ItemMapped(db: Db, job: Job, k: ItemKey) {
    k.Coded? &&
    Find(db.mappings, MappingKey(IdOf(db.items, k), IdOf(db.elements, SharedCode(job, k.code)))).Some?
  }

  /** The tables hold what was written, and each written item is mapped to its shared element. */
  ghost predicate Holding(db: Db, job: Job, w: Writes) {
    && Reflects(db.disclosures, w.disclosures) && Reflects(db.items, w.items)
    && (job.withShared ==>
          && Reflects(db.elements, w.elements)
          && forall k :: k in w.items ==> k.Coded? && SharedCode(job, k.code) in w.elements && ItemMapped(db, job, k))
  }

  lemma PutPointMaps(db: Db, job: Job, d: int, pt: DataPoint, sortOrder: int, k: ItemKey)
    requires Keyed(db) && job.withShared
    requires k == KeyOfItem(d, pt.itemCode) ||
             (Find(db.items, k).Some? && k.Coded? && Find(db.elements, SharedCode(job, k.code)).Some? &&
              ItemMapped(db, job, k))
    ensures ItemMapped(PutPoint(db, job, d, pt, sortOrder), job, k)
  {
    var key, code := KeyOfItem(d, pt.itemCode), SharedCode(job, pt.itemCode);
    UpsertedFinds(db.items, key, ItemBodyOf(pt, sortOrder), NEW_ITEM);
    UpsertedFinds(db.elements, code, ElementBodyOf(job, ItemBodyOf(pt, sortOrder)), NewElement(code));
    var after := PutPoint(db, job, d, pt, sortOrder);
    var m := MappingKey(IdOf(after.items, key), IdOf(after.elements, code));
    if Find(db.mappings, m).None? {
      InsertedFinds(db.mappings, m, FULL, FIRST_VERSION);
    }
  }

  lemma PutPointHolding(db: Db, job: Job, d: int, points: seq<DataPoint>, n: nat, w: Writes)
    requires Keyed(db) && 0 < n <= |points|
    requires Holding(db, job, WithPoints(w, job, d, points, n - 1))
    ensures Holding(PutPoint(db, job, d, points[n - 1], n), job, WithPoints(w, job, d, points, n))
  {
    var pt := points[n - 1];
    var w0 := WithPoints(w, job, d, points, n - 1);
    UpsertedReflects(db.items, w0.items, KeyOfItem(d, pt.itemCode), ItemBodyOf(pt, n), NEW_ITEM);
    if job.withShared {
      UpsertedReflects(db.elements, w0.elements, SharedCode(job, pt.itemCode), ElementBodyOf(job, ItemBodyOf(pt, n)),
                       NewElement(SharedCode(job, pt.itemCode)));
      var w1 := WithPoints(w, job, d, points, n);
      forall k | k in w1.items
        ensures k.Coded? && SharedCode(job, k.code) in w1.elements &&
                ItemMapped(PutPoint(db, job, d, pt, n), job, k)
      {
        PutPointMaps(db, job, d, pt, n, k);
      }
    }
  }

  lemma {:induction false} PutPointsHolding(db: Db, job: Job, d: int, points: seq<DataPoint>, n: nat, w: Writes)
    requires Keyed(db) && n <= |points| && Holding(db, job, w)
    ensures Holding(PutPoints(db, job, d, points, n), job, WithPoints(w, job, d, points, n))
  {
    if n > 0 {
      PutPointsHolding(db, job, d, points, n - 1, w);
      PutPointsKeyed(db, job, d, points, n - 1);
      PutPointHolding(PutPoints(db, job, d, points, n - 1), job, d, points, n, w);
    }
  }

  /** Retiring what a disclosure does not list spares everything written, if all that was written for it is listed. */
  lemma DeactivatedHolding(db: Db, job: Job, d: int, codes: set<string>, w: Writes)
    requires Keyed(db) && Holding(db, job, w)
    requires forall k :: k in w.items ==> !IsStale(k, d, codes)
    ensures Holding(Deactivated(db, d, codes), job, w)
  {
    RetiredReflects(db.items, w.items, k => IsStale(k, d, codes));
    RetiredFinds(db.items, k => IsStale(k, d, codes));
    var stale := StaleIds(db.items, d, codes);
    RetiredFinds(db.mappings, (k: MappingKey) => k.item in stale);
    if job.withShared {
      forall k | k in w.items ensures ItemMapped(Deactivated(db, d, codes), job, k) {
        assert Find(db.items, k).value !in stale;
      }
    }
  }

  /** Where a written item key comes from. */
  ghost predicate WrittenBy(final: Db, job: Job, p: Parsed, k: ItemKey) {
    k.disclosure == RowOf(final, job, p.code) && k.Coded? && k.code in Codes(p.points)
  }

  lemma {:induction false} PointKeys(w: map<ItemKey, ItemBody>, d: int, points: seq<DataPoint>, n: nat, k: ItemKey)
    requires n <= |points| && k in PointItemWrites(w, d, points, n)
    ensures k in w || (k.disclosure == d && k.Coded? && k.code in Codes(points))
  {
    if n > 0 && k != KeyOfItem(d, points[n - 1].itemCode) {
      PointKeys(w, d, points, n - 1, k);
    } else if n > 0 {
      assert points[n - 1] in points;
    }
  }

  lemma {:induction false} WrittenKeys(final: Db, job: Job, doc: seq<Parsed>, n: nat, k: ItemKey)
    requires n <= |doc| && k in WritesOf(final, job, doc, n).items
    ensures exists j :: 0 <= j < n && WrittenBy(final, job, doc[j], k)
  {
    var p := doc[n - 1];
    PointKeys(WritesOf(final, job, doc, n - 1).items, RowOf(final, job, p.code), p.points, |p.points|, k);
    if k in WritesOf(final, job, doc, n - 1).items {
      WrittenKeys(final, job, doc, n - 1, k);
    } else {
      assert WrittenBy(final, job, doc[n - 1], k);
    }
  }

  /** All disclosures have rows at the end, and in state `m` the first `m` of them have those rows. */
  ghost predicate RowsSettled(dbs: seq<Db>, final: Db, job: Job, doc: seq<Parsed>) {
    && |dbs| == |doc| + 1
    && (forall j :: 0 <= j < |doc| ==> HasRow(final, job, doc[j].code))
    && (forall j :: 0 <= j < |doc| ==> RowOf(dbs[j + 1], job, doc[j].code) == RowOf(final, job, doc[j].code))
  }

  lemma NothingWrittenIsStale(final: Db, job: Job, doc: seq<Parsed>, n: nat)
    requires 0 < n <= |doc| && NoConflict(doc)
    requires forall j :: 0 <= j < |doc| ==> HasRow(final, job, doc[j].code)
    ensures forall k :: k in WritesOf(final, job, doc, n).items ==>
              !IsStale(k, RowOf(final, job, doc[n - 1].code), Codes(doc[n - 1].points))
  {
    forall k | k in WritesOf(final, job, doc, n).items
      ensures !IsStale(k, RowOf(final, job, doc[n - 1].code), Codes(doc[n - 1].points))
    {
      WrittenKeys(final, job, doc, n, k);
      var j :| 0 <= j < n && WrittenBy(final, job, doc[j], k);
      if doc[j].code != doc[n - 1].code {
      } else if j < n - 1 {
        assert Codes(doc[j].points) == Codes(doc[n - 1].points);
      }
    }
  }

  lemma ImportOneHolding(db: Db, final: Db, job: Job, doc: seq<Parsed>, n: nat)
    requires 0 < n <= |doc| && NoConflict(doc) && Keyed(db)
    requires forall j :: 0 <= j < |doc| ==> HasRow(final, job, doc[j].code)
    requires Holding(db, job, WritesOf(final, job, doc, n - 1))
    requires RowOf(ImportOne(db, job, doc[n - 1]), job, doc[n - 1].code) == RowOf(final, job, doc[n - 1].code)
    ensures Holding(ImportOne(db, job, doc[n - 1]), job, WritesOf(final, job, doc, n))
  {
    var p := doc[n - 1];
    var key, body := KeyOfDisclosure(job, p.code), DisclosureBodyOf(job, p);
    var w := WritesOf(final, job, doc, n - 1);
    UpsertedFinds(db.disclosures, key, body, NEW_DISCLOSURE);
    UpsertedReflects(db.disclosures, w.disclosures, key, body, NEW_DISCLOSURE);
    var entered := db.(disclosures := PutDisclosure(db.disclosures, job, p));
    var w1 := w.(disclosures := w.disclosures[key := body]);
    assert Holding(entered, job, w1);
    ImportOneLives(db, job, p, Uncoded(0, 0));
    var d := RowOf(final, job, p.code);
    PutPointsKeyed(entered, job, d, p.points, |p.points|);
    PutPointsHolding(entered, job, d, p.points, |p.points|, w1);
    NothingWrittenIsStale(final, job, doc, n);
    DeactivatedHolding(PutPoints(entered, job, d, p.points, |p.points|), job, d, Codes(p.points),
                       WritesOf(final, job, doc, n));
  }

  lemma {:induction false} RunHolding(dbs: seq<Db>, final: Db, job: Job, doc: seq<Parsed>, n: nat)
    requires n <= |doc| && NoConflict(doc)
    requires Run(dbs, job, doc) && RowsSettled(dbs, final, job, doc)
    ensures Holding(dbs[n], job, WritesOf(final, job, doc, n))
  {
    if n > 0 {
      RunHolding(dbs, final, job, doc, n - 1);
      assert RunStep(dbs[n - 1], dbs[n], job, doc[n - 1]);
      ImportOneHolding(dbs[n - 1], final, job, doc, n);
    }
  }

  // ---------- the second import, when nothing conflicts ----------

  /** `db` differs from `first` at most in bodies of rows that the document writes. */
  ghost predicate Retraces(first: Db, db: Db, job: Job, w: Writes) {
    && Shadows(first.disclosures, db.disclosures, w.disclosures)
    && Shadows(first.items, db.items, w.items)
    && (if job.withShared then Shadows(first.elements, db.elements, w.elements) else db.elements == first.elements)
    && db.mappings == first.mappings
  }

  lemma RetracePoint(first: Db, db: Db, job: Job, w: Writes, d: int, pt: DataPoint, sortOrder: int)
    requires Keyed(first) && Holding(first, job, w) && Retraces(first, db, job, w)
    requires KeyOfItem(d, pt.itemCode) in w.items
    ensures Retraces(first, PutPoint(db, job, d, pt, sortOrder), job, w)
  {
    var key, code := KeyOfItem(d, pt.itemCode), SharedCode(job, pt.itemCode);
    UpsertedShadows(first.items, db.items, w.items, key, ItemBodyOf(pt, sortOrder), NEW_ITEM);
    if job.withShared {
      assert ItemMapped(first, job, key);
      UpsertedShadows(first.elements, db.elements, w.elements, code, ElementBodyOf(job, ItemBodyOf(pt, sortOrder)),
                      NewElement(code));
      SkeletonFinds(first.items, PutItem(db.items, d, pt, sortOrder));
      SkeletonFinds(first.elements, PutElement(db.elements, job, pt, sortOrder));
    }
  }

  lemma {:induction false} RetracePoints(first: Db, db: Db, job: Job, w: Writes, d: int, points: seq<DataPoint>, n: nat)
    requires Keyed(first) && Holding(first, job, w) && Retraces(first, db, job, w) && n <= |points|
    requires forall i :: 0 <= i < |points| ==> KeyOfItem(d, points[i].itemCode) in w.items
    ensures Retraces(first, PutPoints(db, job, d, points, n), job, w)
  {
    if n > 0 {
      RetracePoints(first, db, job, w, d, points, n - 1);
      RetracePoint(first, PutPoints(db, job, d, points, n - 1), job, w, d, points[n - 1], n);
    }
  }

  lemma RetraceNothingStale(first: Db, db: Db, job: Job, w: Writes, d: int, codes: set<string>)
    requires Retraces(first, db, job, w) && Lists(first, d, codes)
    ensures Deactivated(db, d, codes) == db
  {
    forall i | i in db.items.rows && db.items.rows[i].live ensures !IsStale(db.items.rows[i].key, d, codes) {
      assert Holds(first.items, i, db.items.rows[i].key);
    }
    assert StaleIds(db.items, d, codes) == {};
    NothingStale(db, d, codes);
  }

  lemma RetraceOne(first: Db, db: Db, job: Job, w: Writes, p: Parsed)
    requires Keyed(first) && Holding(first, job, w) && Retraces(first, db, job, w)
    requires HasRow(first, job, p.code) && KeyOfDisclosure(job, p.code) in w.disclosures
    requires Lists(first, RowOf(first, job, p.code), Codes(p.points))
    requires forall i :: 0 <= i < |p.points| ==> KeyOfItem(RowOf(first, job, p.code), p.points[i].itemCode) in w.items
    ensures Retraces(first, ImportOne(db, job, p), job, w)
    ensures RowOf(ImportOne(db, job, p), job, p.code) == RowOf(first, job, p.code)
  {
    var key, body := KeyOfDisclosure(job, p.code), DisclosureBodyOf(job, p);
    UpsertedShadows(first.disclosures, db.disclosures, w.disclosures, key, body, NEW_DISCLOSURE);
    var entered := db.(disclosures := PutDisclosure(db.disclosures, job, p));
    SkeletonFinds(first.disclosures, entered.disclosures);
    var d := RowOf(first, job, p.code);
    assert RowOf(entered, job, p.code) == d;
    RetracePoints(first, entered, job, w, d, p.points, |p.points|);
    var filled := PutPoints(entered, job, d, p.points, |p.points|);
    RetraceNothingStale(first, filled, job, w, d, Codes(p.points));
    SkeletonFinds(first.disclosures, filled.disclosures);
  }

  lemma {:induction false} PointsWritten(w: map<ItemKey, ItemBody>, d: int, points: seq<DataPoint>, n: nat, i: nat)
    requires i < n <= |points|
    ensures KeyOfItem(d, points[i].itemCode) in PointItemWrites(w, d, points, n)
  {
    if i < n - 1 {
      PointsWritten(w, d, points, n - 1, i);
    }
  }

  lemma {:induction false} PointsKept(w: map<ItemKey, ItemBody>, d: int, points: seq<DataPoint>, n: nat)
    requires n <= |points|
    ensures w.Keys <= PointItemWrites(w, d, points, n).Keys
  {
    if n > 0 {
      PointsKept(w, d, points, n - 1);
    }
  }

  lemma {:induction false} AllWritten(final: Db, job: Job, doc: seq<Parsed>, n: nat, j: nat)
    requires j < n <= |doc|
    ensures KeyOfDisclosure(job, doc[j].code) in WritesOf(final, job, doc, n).disclosures
    ensures forall i :: 0 <= i < |doc[j].points| ==>
              KeyOfItem(RowOf(final, job, doc[j].code), doc[j].points[i].itemCode) in WritesOf(final, job, doc, n).items
  {
    var p := doc[n - 1];
    var w, d := WritesOf(final, job, doc, n - 1), RowOf(final, job, p.code);
    PointsKept(w.items, d, p.points, |p.points|);
    if j < n - 1 {
      AllWritten(final, job, doc, n - 1, j);
    } else {
      forall i | 0 <= i < |p.points| ensures KeyOfItem(d, p.points[i].itemCode) in WritesOf(final, job, doc, n).items {
        PointsWritten(w.items, d, p.points, |p.points|, i);
      }
    }
  }

  /** The writes cover all that the document lists, at the rows that its disclosures have. */
  ghost predicate Covers(first: Db, job: Job, doc: seq<Parsed>, w: Writes) {
    forall j :: 0 <= j < |doc| ==> CoversOne(first, job, doc[j], w)
  }

  ghost predicate CoversOne(first: Db, job: Job, p: Parsed, w: Writes) {
    && HasRow(first, job, p.code) && KeyOfDisclosure(job, p.code) in w.disclosures
    && forall i :: 0 <= i < |p.points| ==> KeyOfItem(RowOf(first, job, p.code), p.points[i].itemCode) in w.items
  }

  /** One import after another of the same document: every state of the second retraces the end of the first. */
  lemma {:induction false} SecondRetraces(dbs: seq<Db>, job: Job, doc: seq<Parsed>, w: Writes, n: nat)
    requires Run(dbs, job, doc) && Finished(dbs[0], job, doc, w) && n <= |doc|
    ensures Retraces(dbs[0], dbs[n], job, w)
    ensures n > 0 ==> RowOf(dbs[n], job, doc[n - 1].code) == RowOf(dbs[0], job, doc[n - 1].code)
  {
    if n > 0 {
      SecondRetraces(dbs, job, doc, w, n - 1);
      assert RunStep(dbs[n - 1], dbs[n], job, doc[n - 1]);
      assert CoversOne(dbs[0], job, doc[n - 1], w);
      RetraceOne(dbs[0], dbs[n - 1], job, w, doc[n - 1]);
    }
  }

  lemma TraceSettles(dbs: seq<Db>, job: Job, doc: seq<Parsed>)
    requires Trace(dbs, job, doc)
    ensures RowsSettled(dbs, dbs[|doc|], job, doc)
  {
    forall j | 0 <= j < |doc|
      ensures HasRow(dbs[|doc|], job, doc[j].code)
      ensures RowOf(dbs[j + 1], job, doc[j].code) == RowOf(dbs[|doc|], job, doc[j].code)
    {
      RowsStable(dbs, job, doc, j, j + 1, |doc|);
    }
  }

  /** The end of an import whose document has no conflict. */
  ghost predicate Finished(first: Db, job: Job, doc: seq<Parsed>, w: Writes) {
    && Keyed(first) && Holding(first, job, w) && EveryoneListed(first, job, doc) && Covers(first, job, doc, w)
  }

  lemma FirstFinishes(db: Db, job: Job, doc: seq<Parsed>, first: Db)
    requires Keyed(db) && NoConflict(doc) && first == Import(db, job, doc, |doc|)
    ensures Finished(first, job, doc, WritesOf(first, job, doc, |doc|))
  {
    ImportKeyed(db, job, doc, |doc|);
    StatesRun(db, job, doc);
    RunTraces(States(db, job, doc), job, doc);
    TraceSettles(States(db, job, doc), job, doc);
    RunHolding(States(db, job, doc), first, job, doc, |doc|);
    ReconcilesIff(db, job, doc);
    forall j | 0 <= j < |doc| ensures CoversOne(first, job, doc[j], WritesOf(first, job, doc, |doc|)) {
      AllWritten(first, job, doc, |doc|, j);
    }
  }

  lemma SecondSettles(dbs: seq<Db>, job: Job, doc: seq<Parsed>, w: Writes)
    requires Run(dbs, job, doc) && Finished(dbs[0], job, doc, w)
    ensures RowsSettled(dbs, dbs[0], job, doc)
  {
    forall n | 0 <= n < |doc|
      ensures HasRow(dbs[0], job, doc[n].code) && RowOf(dbs[n + 1], job, doc[n].code) == RowOf(dbs[0], job, doc[n].code)
    {
      SecondRetraces(dbs, job, doc, w, n + 1);
      assert CoversOne(dbs[0], job, doc[n], w);
    }
  }

  lemma RetracedIsSame(first: Db, again: Db, job: Job, w: Writes)
    requires Keyed(first) && Retraces(first, again, job, w) && Holding(first, job, w) && Holding(again, job, w)
    ensures again == first
  {
    ShadowsMeet(first.disclosures, again.disclosures, w.disclosures);
    ShadowsMeet(first.items, again.items, w.items);
    if job.withShared {
      ShadowsMeet(first.elements, again.elements, w.elements);
    }
  }

  lemma NoConflictRepeats(db: Db, job: Job, doc: seq<Parsed>, first: Db)
    requires Keyed(db) && NoConflict(doc) && first == Import(db, job, doc, |doc|)
    ensures Import(first, job, doc, |doc|) == first
  {
    var w := WritesOf(first, job, doc, |doc|);
    FirstFinishes(db, job, doc, first);
    var dbs := States(first, job, doc);
    StatesRun(first, job, doc);
    assert dbs[0] == first;
    SecondSettles(dbs, job, doc, w);
    RunHolding(dbs, first, job, doc, |doc|);
    SecondRetraces(dbs, job, doc, w, |doc|);
    RetracedIsSame(first, dbs[|doc|], job, w);
  }

  /**
   Idempotence: the same document imported a second time leaves every table as it was, just when nothing
   conflicts. Item codes that share a shared-element code, within one disclosure or across, do not matter.
   */
  lemma RepeatsIff(db: Db, job: Job, doc: seq<Parsed>)
    requires Keyed(db)
    ensures var first := Import(db, job, doc, |doc|);
            Import(first, job, doc, |doc|) == first <==> NoConflict(doc)
  {
    var first := Import(db, job, doc, |doc|);
    ImportKeyed(db, job, doc, |doc|);
    if NoConflict(doc) {
      NoConflictRepeats(db, job, doc, first);
    }
    if Import(first, job, doc, |doc|) == first {
      FixedPointAgrees(first, job, doc);
    }
  }

  /** Documents with one disclosure per code, as the DOCX parser builds them, always reconcile and repeat. */
  lemma OneDisclosurePerCode(db: Db, job: Job, doc: seq<Parsed>)
    requires Keyed(db)
    requires forall i, j :: 0 <= i < j < |doc| ==> doc[i].code != doc[j].code
    ensures var first := Import(db, job, doc, |doc|);
            && Keyed(first)
            && (Consistent(db) && !Refused(db, job, doc, |doc|) ==> Consistent(first))
            && EveryoneListed(first, job, doc)
            && Import(first, job, doc, |doc|) == first
  {
    assert NoConflict(doc);
    ImportKeyed(db, job, doc, |doc|);
    if !Refused(db, job, doc, |doc|) {
      ThroughConsistent(db, job, doc);
    }
    ReconcilesIff(db, job, doc);
    RepeatsIff(db, job, doc);
  }
}
