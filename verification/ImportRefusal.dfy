/**
 When an import is refused: exactly when, in the database it starts from, a listed item has lost its
 mapping's currency but not its first version, or a listed item's shared element is not there but its key
 is. Whatever the document, a second import is not refused.

 From a refusal back to the start: rows are never lost, keys never change, and a mapping is retired only
 together with its item (`Follows`), so a pair that is blocked while its item is current was blocked at the
 start; and an item outlives the import of a disclosure with its code only if it is listed there. From the
 start to a refusal: a blocked pair stays blocked until its own disclosure lists it, which then is refused.
 After an import that went through, every listed item is mapped, hence not blocked. `ImportElements` says the
 same of element keys. The last part gives databases and documents for each outcome.
 */
module ImportRefusal {
  import opened Prelude
  import opened KeyedTable
  import opened CatalogImport
  import opened CatalogKeys
  import opened ImportElements
  import opened ImportTheorems

  /** The disclosure, the item and its shared element are there, and their pair is blocked. */
  ghost predicate BlockedPoint(db: Db, job: Job, code: string, itemCode: string) {
    && job.withShared && HasRow(db, job, code)
    && Find(db.items, KeyOfItem(RowOf(db, job, code), itemCode)).Some?
    && Find(db.elements, SharedCode(job, itemCode)).Some?
    && Blocked(db.mappings, PairOf(db, job, KeyOfItem(RowOf(db, job, code), itemCode)))
  }

  ghost function PairOf(db: Db, job: Job, k: ItemKey): MappingKey
    requires k.Coded?
  {
    MappingKey(IdOf(db.items, k), IdOf(db.elements, SharedCode(job, k.code)))
  }

  predicate FirstOfCode(doc: seq<Parsed>, n: nat)
    requires n < |doc|
  {
    forall m :: 0 <= m < n ==> doc[m].code != doc[n].code
  }

  /** Some disclosure, the first of the document with its code, lists an item whose pair is blocked. */
  ghost predicate ListsBlocked(db: Db, job: Job, doc: seq<Parsed>) {
    exists n, i :: 0 <= n < |doc| && 0 <= i < |doc[n].points| && FirstOfCode(doc, n) &&
                   BlockedPoint(db, job, doc[n].code, doc[n].points[i].itemCode)
  }

  // ---------- what has become of the tables since the start ----------

  ghost predicate MappingsFollow(start: Mappings, t: Mappings, items: Items) {
    && (forall m :: m in start.rows ==>
          m in t.rows && t.rows[m].key == start.rows[m].key && t.rows[m].rest == start.rows[m].rest &&
          (t.rows[m].live ==> start.rows[m].live))
    && (forall m :: m in t.rows ==> t.rows[m].key.item in items.rows)
    && (forall m :: m in t.rows && !t.rows[m].live && items.rows[t.rows[m].key.item].live ==>
          m in start.rows && !start.rows[m].live)
  }

  /** Rows are never lost, keys never change, what is retired stays retired, and
   * a mapping is retired with its item only. */
  ghost predicate Follows(start: Db, db: Db) {
    && Grows(start.disclosures, db.disclosures) && Grows(start.items, db.items) &&
       ElementsFollow(start.elements, db.elements)
    && MappingsFollow(start.mappings, db.mappings, db.items)
    && (forall m :: m in db.mappings.rows ==> db.mappings.rows[m].key.element in db.elements.rows)
  }

  lemma ItemFollows(start: Db, db: Db, d: int, pt: DataPoint, sortOrder: int)
    requires Keyed(db) && Follows(start, db)
    ensures Follows(start, db.(items := PutItem(db.items, d, pt, sortOrder)))
    ensures IdOf(PutItem(db.items, d, pt, sortOrder), KeyOfItem(d, pt.itemCode)) in
            PutItem(db.items, d, pt, sortOrder).rows
  {
    UpsertedFinds(db.items, KeyOfItem(d, pt.itemCode), ItemBodyOf(pt, sortOrder), NEW_ITEM);
  }

  lemma ElementFollows(start: Db, db: Db, job: Job, pt: DataPoint, sortOrder: int)
    requires Unique(db.elements) && Follows(start, db)
    ensures Follows(start, db.(elements := PutElement(db.elements, job, pt, sortOrder)))
    ensures IdOf(PutElement(db.elements, job, pt, sortOrder), SharedCode(job, pt.itemCode)) in
            PutElement(db.elements, job, pt, sortOrder).rows
  {
    PutElementFollows(start.elements, db.elements, job, pt, sortOrder);
    UpsertedFinds(db.elements, SharedCode(job, pt.itemCode), ElementBodyOf(job, ItemBodyOf(pt, sortOrder)),
                  NewElement(SharedCode(job, pt.itemCode)));
  }

  lemma PointFollows(start: Db, db: Db, job: Job, d: int, pt: DataPoint, sortOrder: int)
    requires Keyed(db) && Follows(start, db)
    ensures Follows(start, PutPoint(db, job, d, pt, sortOrder))
  {
    ItemFollows(start, db, d, pt, sortOrder);
    if job.withShared {
      var db1 := db.(items := PutItem(db.items, d, pt, sortOrder));
      ElementFollows(start, db1, job, pt, sortOrder);
      MappingFollows(start.mappings, db.mappings, db1.items,
                     MappingKey(IdOf(db1.items, KeyOfItem(d, pt.itemCode)),
                                IdOf(PutElement(db.elements, job, pt, sortOrder), SharedCode(job, pt.itemCode))));
    }
  }

  lemma MappingFollows(start: Mappings, t: Mappings, items: Items, k: MappingKey)
    requires Unique(t) && MappingsFollow(start, t, items) && k.item in items.rows
    ensures MappingsFollow(start, Ensured(t, k, FULL, FIRST_VERSION), items)
  {
  }

  lemma DeactivatedFollows(start: Db, db: Db, d: int, codes: set<string>)
    requires Follows(start, db)
    ensures Follows(start, Deactivated(db, d, codes))
  {
  }

  lemma {:induction false} PointsFollow(start: Db, db: Db, job: Job, d: int, points: seq<DataPoint>, n: nat)
    requires Keyed(db) && Follows(start, db) && n <= |points|
    ensures Follows(start, PutPoints(db, job, d, points, n))
    ensures PutPoints(db, job, d, points, n).disclosures == db.disclosures
  {
    if n > 0 {
      PointsFollow(start, db, job, d, points, n - 1);
      PutPointsKeyed(db, job, d, points, n - 1);
      PointFollows(start, PutPoints(db, job, d, points, n - 1), job, d, points[n - 1], n);
    }
  }

  /** The database once the disclosure has its row. */
  ghost function Entered(db: Db, job: Job, p: Parsed): Db {
    db.(disclosures := PutDisclosure(db.disclosures, job, p))
  }

  lemma EnteredFollows(start: Db, db: Db, job: Job, p: Parsed)
    requires Keyed(db) && Follows(start, db)
    ensures Follows(start, Entered(db, job, p)) && Keyed(Entered(db, job, p)) &&
            HasRow(Entered(db, job, p), job, p.code)
    ensures HasRow(db, job, p.code) ==> RowOf(Entered(db, job, p), job, p.code) == RowOf(db, job, p.code)
  {
    UpsertedFinds(db.disclosures, KeyOfDisclosure(job, p.code), DisclosureBodyOf(job, p), NEW_DISCLOSURE);
  }

  lemma OneFollows(start: Db, db: Db, job: Job, p: Parsed)
    requires Keyed(db) && Follows(start, db)
    ensures Follows(start, ImportOne(db, job, p))
  {
    EnteredFollows(start, db, job, p);
    var d := RowOf(Entered(db, job, p), job, p.code);
    PointsFollow(start, Entered(db, job, p), job, d, p.points, |p.points|);
    DeactivatedFollows(start, PutPoints(Entered(db, job, p), job, d, p.points, |p.points|), d, Codes(p.points));
  }

  lemma {:induction false} ImportFollows(start: Db, job: Job, doc: seq<Parsed>, n: nat)
    requires Keyed(start) && ReferencesHold(start) && n <= |doc|
    ensures Follows(start, Import(start, job, doc, n)) && Keyed(Import(start, job, doc, n))
  {
    ImportKeyed(start, job, doc, n);
    if n > 0 {
      ImportFollows(start, job, doc, n - 1);
      OneFollows(start, Import(start, job, doc, n - 1), job, doc[n - 1]);
    }
  }

  // ---------- a refusal goes back to the start ----------

  /** A live row of the start's was live then, with the same key. */
  lemma FoundBefore<K, B, R>(start: Table<K, B, R>, t: Table<K, B, R>, k: K)
    requires Unique(start) && Grows(start, t) && Find(t, k).Some? && Find(t, k).value in start.rows
    ensures Find(start, k) == Find(t, k)
  {
    FindIsUnique(start, Find(t, k).value, k);
  }

  /** A pair blocked now, of an item that is current, was blocked at the start. */
  lemma BlockedBefore(start: Db, db: Db, job: Job, code: string, itemCode: string)
    requires Keyed(start) && ReferencesHold(start) && Follows(start, db)
    requires BlockedPoint(db, job, code, itemCode)
    ensures BlockedPoint(start, job, code, itemCode) && RowOf(start, job, code) == RowOf(db, job, code)
    ensures Find(start.items, KeyOfItem(RowOf(db, job, code), itemCode)) ==
            Find(db.items, KeyOfItem(RowOf(db, job, code), itemCode))
  {
    var k := KeyOfItem(RowOf(db, job, code), itemCode);
    var pair := PairOf(db, job, k);
    var m :| IsFirst(db.mappings, m, pair);
    assert !Holds(db.mappings, m, pair);
    assert m in start.mappings.rows && start.mappings.rows[m].key == pair;
    FoundBefore(start.items, db.items, k);
    FoundBefore(start.elements, db.elements, SharedCode(job, itemCode));
    assert start.items.rows[pair.item].key == k;
    FoundBefore(start.disclosures, db.disclosures, KeyOfDisclosure(job, code));
    assert IsFirst(start.mappings, m, pair);
    CurrencyLasts(start.mappings, db.mappings, db.items, pair);
  }

  lemma CurrencyLasts(start: Mappings, t: Mappings, items: Items, pair: MappingKey)
    requires MappingsFollow(start, t, items)
    requires pair.item in items.rows && items.rows[pair.item].live
    ensures Find(start, pair).Some? ==> Find(t, pair).Some?
  {
    if Find(start, pair).Some? {
      assert Holds(t, Find(start, pair).value, pair);
    }
  }

  /** A data point whose mapping is refused stands for an item and an element that are both there already. */
  lemma RefusedMeansBlocked(start: Db, db: Db, job: Job, code: string, pt: DataPoint, sortOrder: int)
    requires Keyed(db) && Follows(start, db) && HasRow(db, job, code)
    requires job.withShared && PointBlocked(db, job, RowOf(db, job, code), pt, sortOrder)
    ensures BlockedPoint(db, job, code, pt.itemCode)
  {
    var k, shared := KeyOfItem(RowOf(db, job, code), pt.itemCode), SharedCode(job, pt.itemCode);
    UpsertedFinds(db.items, k, ItemBodyOf(pt, sortOrder), NEW_ITEM);
    UpsertedFinds(db.elements, shared, ElementBodyOf(job, ItemBodyOf(pt, sortOrder)), NewElement(shared));
    var pair := MappingKey(IdOf(PutItem(db.items, RowOf(db, job, code), pt, sortOrder), k),
                           IdOf(PutElement(db.elements, job, pt, sortOrder), shared));
    var m :| IsFirst(db.mappings, m, pair);
    if Find(db.items, k).None? {
      InsertedFinds(db.items, k, ItemBodyOf(pt, sortOrder), NEW_ITEM);
    }
    if Find(db.elements, shared).None? {
      InsertedFinds(db.elements, shared, ElementBodyOf(job, ItemBodyOf(pt, sortOrder)), NewElement(shared));
    }
  }

  /** The first data point that is refused, if one of the first `n` is. */
  lemma {:induction false} RefusedPoint(db: Db, job: Job, d: int, points: seq<DataPoint>, n: nat) returns (i: nat)
    requires n <= |points| && PointsRefused(db, job, d, points, n)
    ensures i < n && PointRefused(PutPoints(db, job, d, points, i), job, d, points[i], i + 1)
  {
    if PointsRefused(db, job, d, points, n - 1) {
      i := RefusedPoint(db, job, d, points, n - 1);
    } else {
      i := n - 1;
    }
  }

  lemma {:induction false} RefusedDisclosure(db: Db, job: Job, doc: seq<Parsed>, n: nat) returns (j: nat)
    requires n <= |doc| && Refused(db, job, doc, n)
    ensures j < n && OneRefused(Import(db, job, doc, j), job, doc[j])
  {
    if Refused(db, job, doc, n - 1) {
      j := RefusedDisclosure(db, job, doc, n - 1);
    } else {
      j := n - 1;
    }
  }

  /** The item listed, current all along, stands in a pair that was blocked at the start. */
  ghost predicate RefusedItem(start: Db, db: Db, job: Job, p: Parsed, i: nat, item: int)
    requires i < |p.points|
  {
    && BlockedPoint(start, job, p.code, p.points[i].itemCode)
    && Holds(start.items, item, KeyOfItem(RowOf(start, job, p.code), p.points[i].itemCode))
    && item in db.items.rows && db.items.rows[item].live
  }

  /** What is refused while one disclosure is imported was taken or blocked at the start. */
  lemma RefusedInOne(start: Db, db: Db, job: Job, p: Parsed) returns (i: nat, item: int)
    requires Keyed(start) && ReferencesHold(start) && Keyed(db) && Follows(start, db) && OneRefused(db, job, p)
    ensures i < |p.points| && job.withShared
    ensures KeyTaken(start.elements, SharedCode(job, p.points[i].itemCode)) || RefusedItem(start, db, job, p, i, item)
  {
    EnteredFollows(start, db, job, p);
    var entered := Entered(db, job, p);
    i := RefusedPoint(entered, job, RowOf(entered, job, p.code), p.points, |p.points|);
    item := RefusedAt(start, entered, job, p, i);
  }

  lemma RefusedAt(start: Db, entered: Db, job: Job, p: Parsed, i: nat) returns (item: int)
    requires Keyed(start) && ReferencesHold(start) && Keyed(entered) && Follows(start, entered) &&
             HasRow(entered, job, p.code)
    requires i < |p.points|
    requires var d := RowOf(entered, job, p.code);
             PointRefused(PutPoints(entered, job, d, p.points, i), job, d, p.points[i], i + 1)
    ensures KeyTaken(start.elements, SharedCode(job, p.points[i].itemCode)) ||
            RefusedItem(start, entered, job, p, i, item)
  {
    var d := RowOf(entered, job, p.code);
    var at := PutPoints(entered, job, d, p.points, i);
    PointsFollow(start, entered, job, d, p.points, i);
    if KeyTaken(at.elements, SharedCode(job, p.points[i].itemCode)) {
      assert IsShared(SharedCode(job, p.points[i].itemCode));
      TakenBefore(start.elements, at.elements, SharedCode(job, p.points[i].itemCode));
      item := 0;
    } else {
      item := BlockedAt(start, entered, job, p, i);
    }
  }

  lemma BlockedAt(start: Db, entered: Db, job: Job, p: Parsed, i: nat) returns (item: int)
    requires Keyed(start) && ReferencesHold(start) && Keyed(entered) && Follows(start, entered) &&
             HasRow(entered, job, p.code)
    requires i < |p.points| && job.withShared
    requires var d := RowOf(entered, job, p.code);
             PointBlocked(PutPoints(entered, job, d, p.points, i), job, d, p.points[i], i + 1)
    ensures RefusedItem(start, entered, job, p, i, item)
  {
    var d := RowOf(entered, job, p.code);
    PointsFollow(start, entered, job, d, p.points, i);
    PutPointsKeyed(entered, job, d, p.points, i);
    PutPointsGrow(entered, job, d, p.points, i);
    item := BlockedThere(start, entered, PutPoints(entered, job, d, p.points, i), job, p, i);
  }

  lemma BlockedThere(start: Db, entered: Db, at: Db, job: Job, p: Parsed, i: nat) returns (item: int)
    requires Keyed(start) && ReferencesHold(start) && Keyed(at) && Follows(start, at) && HasRow(at, job, p.code)
    requires Grows(entered.items, at.items) && Follows(start, entered) && i < |p.points| && job.withShared
    requires PointBlocked(at, job, RowOf(at, job, p.code), p.points[i], i + 1)
    ensures RefusedItem(start, entered, job, p, i, item)
  {
    RefusedMeansBlocked(start, at, job, p.code, p.points[i], i + 1);
    BlockedBefore(start, at, job, p.code, p.points[i].itemCode);
    item := IdOf(at.items, KeyOfItem(RowOf(at, job, p.code), p.points[i].itemCode));
  }

  lemma {:induction false} FirstWithCode(doc: seq<Parsed>, n: nat) returns (m: nat)
    requires n < |doc|
    ensures m <= n && FirstOfCode(doc, m) && doc[m].code == doc[n].code
    decreases n
  {
    m := n;
    if !FirstOfCode(doc, n) {
      var l :| 0 <= l < n && doc[l].code == doc[n].code;
      m := FirstWithCode(doc, l);
    }
  }

  /** An item that outlives the import of a disclosure with its code is listed by it. */
  lemma OutlivesListed(start: Db, job: Job, doc: seq<Parsed>, m: nat, n: nat, item: int, itemCode: string)
    requires Keyed(start) && ReferencesHold(start) && m < n < |doc| && doc[m].code == doc[n].code
    requires item in start.items.rows &&
             start.items.rows[item].key == KeyOfItem(RowOf(start, job, doc[n].code), itemCode)
    requires HasRow(start, job, doc[n].code)
    requires item in Import(start, job, doc, n).items.rows && Import(start, job, doc, n).items.rows[item].live
    ensures itemCode in Codes(doc[m].points)
  {
    var dbs := States(start, job, doc);
    StatesRun(start, job, doc);
    RunTraces(dbs, job, doc);
    RunGrows(dbs, job, doc, 0, m + 1);
    RunGrows(dbs, job, doc, m + 1, n);
    RowsHeld(dbs, job, doc, m + 1, doc[m].code);
    assert StepFacts(dbs[m], dbs[m + 1], job, doc[m]);
    assert Holds(dbs[m + 1].items, item, start.items.rows[item].key);
    assert IsLive(dbs[m + 1].items, start.items.rows[item].key);
  }

  lemma {:induction false} RowsHeld(dbs: seq<Db>, job: Job, doc: seq<Parsed>, n: nat, code: string)
    requires Trace(dbs, job, doc) && n <= |doc| && HasRow(dbs[0], job, code)
    ensures HasRow(dbs[n], job, code) && RowOf(dbs[n], job, code) == RowOf(dbs[0], job, code)
  {
    if n > 0 {
      RowsHeld(dbs, job, doc, n - 1, code);
      assert StepFacts(dbs[n - 1], dbs[n], job, doc[n - 1]);
    }
  }

  /** The first disclosure with the code lists the item too. */
  lemma BlockedIsListed(start: Db, job: Job, doc: seq<Parsed>, n: nat, i: nat, item: int)
    requires Keyed(start) && ReferencesHold(start) && n < |doc| && i < |doc[n].points|
    requires RefusedItem(start, Import(start, job, doc, n), job, doc[n], i, item)
    ensures ListsBlocked(start, job, doc)
  {
    var m := FirstWithCode(doc, n);
    if m == n {
      assert BlockedPoint(start, job, doc[m].code, doc[m].points[i].itemCode);
    } else {
      OutlivesListed(start, job, doc, m, n, item, doc[n].points[i].itemCode);
      var pt :| pt in doc[m].points && pt.itemCode == doc[n].points[i].itemCode;
      var j :| 0 <= j < |doc[m].points| && doc[m].points[j] == pt;
      assert BlockedPoint(start, job, doc[m].code, doc[m].points[j].itemCode);
    }
  }

  lemma RefusedMeansListed(start: Db, job: Job, doc: seq<Parsed>)
    requires Keyed(start) && ReferencesHold(start) && Refused(start, job, doc, |doc|)
    ensures ListsBlocked(start, job, doc) || ListsTaken(start, job, doc)
  {
    var n := RefusedDisclosure(start, job, doc, |doc|);
    ImportFollows(start, job, doc, n);
    var i, item := RefusedInOne(start, Import(start, job, doc, n), job, doc[n]);
    if RefusedItem(start, Import(start, job, doc, n), job, doc[n], i, item) {
      BlockedIsListed(start, job, doc, n, i, item);
    }
  }

  // ---------- a blocked pair stays blocked until it is listed ----------

  lemma PointKeepsBlocked(db: Db, job: Job, code: string, itemCode: string, d: int, pt: DataPoint, sortOrder: int)
    requires Keyed(db) && BlockedPoint(db, job, code, itemCode)
    requires KeyOfItem(d, pt.itemCode) != KeyOfItem(RowOf(db, job, code), itemCode)
    ensures BlockedPoint(PutPoint(db, job, d, pt, sortOrder), job, code, itemCode)
    ensures PutPoint(db, job, d, pt, sortOrder).disclosures == db.disclosures
  {
    var k, other := KeyOfItem(RowOf(db, job, code), itemCode), KeyOfItem(d, pt.itemCode);
    var after := PutPoint(db, job, d, pt, sortOrder);
    UpsertedFinds(db.items, other, ItemBodyOf(pt, sortOrder), NEW_ITEM);
    UpsertedFinds(db.elements, SharedCode(job, pt.itemCode), ElementBodyOf(job, ItemBodyOf(pt, sortOrder)),
                  NewElement(SharedCode(job, pt.itemCode)));
    assert PairOf(after, job, k) == PairOf(db, job, k);
    MappingKeepsBlocked(db.mappings, PairOf(db, job, k),
                        MappingKey(IdOf(after.items, other), IdOf(after.elements, SharedCode(job, pt.itemCode))));
  }

  lemma MappingKeepsBlocked(t: Mappings, pair: MappingKey, k: MappingKey)
    requires Unique(t) && Blocked(t, pair) && k != pair
    ensures Blocked(Ensured(t, k, FULL, FIRST_VERSION), pair)
  {
    var m :| IsFirst(t, m, pair);
    if Find(t, k).None? {
      InsertedFinds(t, k, FULL, FIRST_VERSION);
    }
    assert IsFirst(Ensured(t, k, FULL, FIRST_VERSION), m, pair);
  }

  ghost predicate StandsBlocked(db: Db, job: Job, code: string, itemCode: string) {
    Keyed(db) && BlockedPoint(db, job, code, itemCode)
  }

  lemma NextKeepsBlocked(db: Db, job: Job, code: string, itemCode: string, d: int, pt: DataPoint, sortOrder: int,
                         row: int)
    requires StandsBlocked(db, job, code, itemCode) && RowOf(db, job, code) == row
    requires d != row || pt.itemCode != itemCode
    ensures StandsBlocked(PutPoint(db, job, d, pt, sortOrder), job, code, itemCode)
    ensures RowOf(PutPoint(db, job, d, pt, sortOrder), job, code) == row
  {
    PutPointKeyed(db, job, d, pt, sortOrder);
    PointKeepsBlocked(db, job, code, itemCode, d, pt, sortOrder);
  }

  lemma {:induction false} PointsKeepBlocked(db: Db, job: Job, code: string, itemCode: string, d: int,
                                             points: seq<DataPoint>, n: nat)
    requires StandsBlocked(db, job, code, itemCode) && n <= |points|
    requires d == RowOf(db, job, code) ==> forall l :: 0 <= l < n ==> points[l].itemCode != itemCode
    ensures StandsBlocked(PutPoints(db, job, d, points, n), job, code, itemCode)
    ensures RowOf(PutPoints(db, job, d, points, n), job, code) == RowOf(db, job, code)
  {
    if n > 0 {
      PointsKeepBlocked(db, job, code, itemCode, d, points, n - 1);
      NextKeepsBlocked(PutPoints(db, job, d, points, n - 1), job, code, itemCode, d, points[n - 1], n,
                       RowOf(db, job, code));
    }
  }

  lemma EnteringKeepsBlocked(db: Db, job: Job, code: string, itemCode: string, p: Parsed)
    requires Keyed(db) && BlockedPoint(db, job, code, itemCode)
    ensures Keyed(Entered(db, job, p)) && BlockedPoint(Entered(db, job, p), job, code, itemCode)
    ensures HasRow(Entered(db, job, p), job, p.code)
    ensures p.code != code ==> RowOf(Entered(db, job, p), job, p.code) != RowOf(Entered(db, job, p), job, code)
  {
    UpsertedFinds(db.disclosures, KeyOfDisclosure(job, p.code), DisclosureBodyOf(job, p), NEW_DISCLOSURE);
  }

  lemma RetiringKeepsBlocked(db: Db, job: Job, code: string, itemCode: string, d: int, codes: set<string>)
    requires Keyed(db) && BlockedPoint(db, job, code, itemCode) && d != RowOf(db, job, code)
    ensures BlockedPoint(Deactivated(db, d, codes), job, code, itemCode)
  {
    var k, stale := KeyOfItem(RowOf(db, job, code), itemCode), StaleIds(db.items, d, codes);
    RetiredFinds(db.items, key => IsStale(key, d, codes));
    RetiredFinds(db.mappings, (key: MappingKey) => key.item in stale);
    var m :| IsFirst(db.mappings, m, PairOf(db, job, k));
    assert IsFirst(Deactivated(db, d, codes).mappings, m, PairOf(db, job, k));
  }

  lemma OneKeepsBlocked(db: Db, job: Job, code: string, itemCode: string, p: Parsed)
    requires StandsBlocked(db, job, code, itemCode) && p.code != code
    ensures StandsBlocked(ImportOne(db, job, p), job, code, itemCode)
  {
    ImportOneKeyed(db, job, p);
    var entered := Entered(db, job, p);
    EnteringKeepsBlocked(db, job, code, itemCode, p);
    var d := RowOf(entered, job, p.code);
    PointsKeepBlocked(entered, job, code, itemCode, d, p.points, |p.points|);
    PutPointsKeyed(entered, job, d, p.points, |p.points|);
    RetiringKeepsBlocked(PutPoints(entered, job, d, p.points, |p.points|), job, code, itemCode, d, Codes(p.points));
  }

  ghost predicate Unlisted(doc: seq<Parsed>, n: nat, code: string)
    requires n <= |doc|
  {
    forall m :: 0 <= m < n ==> doc[m].code != code
  }

  lemma {:induction false} ImportKeepsBlocked(start: Db, job: Job, doc: seq<Parsed>, n: nat, code: string,
                                              itemCode: string)
    requires StandsBlocked(start, job, code, itemCode)
    requires n <= |doc| && Unlisted(doc, n, code)
    ensures StandsBlocked(Import(start, job, doc, n), job, code, itemCode)
  {
    if n > 0 {
      ImportKeepsBlocked(start, job, doc, n - 1, code, itemCode);
      OneKeepsBlocked(Import(start, job, doc, n - 1), job, code, itemCode, doc[n - 1]);
    }
  }

  lemma BlockedIsRefused(db: Db, job: Job, code: string, pt: DataPoint, sortOrder: int)
    requires Keyed(db) && BlockedPoint(db, job, code, pt.itemCode)
    ensures PointRefused(db, job, RowOf(db, job, code), pt, sortOrder)
  {
    UpsertedFinds(db.items, KeyOfItem(RowOf(db, job, code), pt.itemCode), ItemBodyOf(pt, sortOrder), NEW_ITEM);
    UpsertedFinds(db.elements, SharedCode(job, pt.itemCode), ElementBodyOf(job, ItemBodyOf(pt, sortOrder)),
                  NewElement(SharedCode(job, pt.itemCode)));
  }

  lemma {:induction false} FirstPoint(points: seq<DataPoint>, n: nat) returns (i: nat)
    requires n < |points|
    ensures i <= n && points[i].itemCode == points[n].itemCode
    ensures forall l :: 0 <= l < i ==> points[l].itemCode != points[i].itemCode
    decreases n
  {
    i := n;
    if l :| 0 <= l < n && points[l].itemCode == points[n].itemCode {
      i := FirstPoint(points, l);
    }
  }

  lemma BlockedIsRefusedInOne(db: Db, job: Job, p: Parsed, n: nat)
    requires Keyed(db) && n < |p.points| && BlockedPoint(db, job, p.code, p.points[n].itemCode)
    ensures OneRefused(db, job, p)
  {
    var i := FirstPoint(p.points, n);
    var entered, itemCode := Entered(db, job, p), p.points[i].itemCode;
    EnteringKeepsBlocked(db, job, p.code, itemCode, p);
    var d := RowOf(entered, job, p.code);
    PointsKeepBlocked(entered, job, p.code, itemCode, d, p.points, i);
    PutPointsKeyed(entered, job, d, p.points, i);
    BlockedIsRefused(PutPoints(entered, job, d, p.points, i), job, p.code, p.points[i], i + 1);
    RefusedStays(entered, job, d, p.points, i + 1, |p.points|);
  }

  lemma ListsBlockedRefuses(start: Db, job: Job, doc: seq<Parsed>)
    requires Keyed(start) && ListsBlocked(start, job, doc)
    ensures Refused(start, job, doc, |doc|)
  {
    var n, i :| 0 <= n < |doc| && 0 <= i < |doc[n].points| && FirstOfCode(doc, n) &&
                BlockedPoint(start, job, doc[n].code, doc[n].points[i].itemCode);
    ImportKeepsBlocked(start, job, doc, n, doc[n].code, doc[n].points[i].itemCode);
    BlockedIsRefusedInOne(Import(start, job, doc, n), job, doc[n], i);
    RefusedForGood(start, job, doc, n + 1, |doc|);
  }

  /**
   An import is refused if and only if, before it begins, a listed pair of item and element is blocked, or a
   listed item's element is not there while another element has its key.
   */
  lemma RefusedIff(start: Db, job: Job, doc: seq<Parsed>)
    requires Keyed(start) && ReferencesHold(start)
    ensures Refused(start, job, doc, |doc|) <==> ListsBlocked(start, job, doc) || ListsTaken(start, job, doc)
  {
    if Refused(start, job, doc, |doc|) {
      RefusedMeansListed(start, job, doc);
    }
    if ListsBlocked(start, job, doc) {
      ListsBlockedRefuses(start, job, doc);
    }
    if ListsTaken(start, job, doc) {
      ListsTakenRefuses(start, job, doc);
    }
  }

  // ---------- an import that succeeded can be repeated ----------

  /** The item is current and mapped to its shared element. */
  ghost predicate MappedPoint(db: Db, job: Job, k: ItemKey) {
    && k.Coded? && Find(db.items, k).Some? && Find(db.elements, SharedCode(job, k.code)).Some? && ItemMapped(db, job, k)
  }

  lemma PointMaps(db: Db, job: Job, d: int, pt: DataPoint, sortOrder: int, k: ItemKey)
    requires Keyed(db) && job.withShared && (k == KeyOfItem(d, pt.itemCode) || MappedPoint(db, job, k))
    ensures MappedPoint(PutPoint(db, job, d, pt, sortOrder), job, k)
  {
    PutPointMaps(db, job, d, pt, sortOrder, k);
    UpsertedFinds(db.items, KeyOfItem(d, pt.itemCode), ItemBodyOf(pt, sortOrder), NEW_ITEM);
    UpsertedFinds(db.elements, SharedCode(job, pt.itemCode), ElementBodyOf(job, ItemBodyOf(pt, sortOrder)),
                  NewElement(SharedCode(job, pt.itemCode)));
  }

  lemma {:induction false} PointsMap(db: Db, job: Job, d: int, points: seq<DataPoint>, n: nat, k: ItemKey)
    requires Keyed(db) && job.withShared && n <= |points|
    requires MappedPoint(db, job, k) || (k.Coded? && k.disclosure == d && k.code in Codes(points[..n]))
    ensures MappedPoint(PutPoints(db, job, d, points, n), job, k)
  {
    if n > 0 {
      assert points[..n] == points[..n - 1] + [points[n - 1]];
      PutPointsKeyed(db, job, d, points, n - 1);
      if k != KeyOfItem(d, points[n - 1].itemCode) {
        PointsMap(db, job, d, points, n - 1, k);
      }
      PointMaps(PutPoints(db, job, d, points, n - 1), job, d, points[n - 1], n, k);
    }
  }

  lemma RetiringKeepsMapped(db: Db, job: Job, d: int, codes: set<string>, k: ItemKey)
    requires Keyed(db) && MappedPoint(db, job, k) && !IsStale(k, d, codes)
    ensures MappedPoint(Deactivated(db, d, codes), job, k)
  {
    var stale := StaleIds(db.items, d, codes);
    RetiredFinds(db.items, key => IsStale(key, d, codes));
    RetiredFinds(db.mappings, (key: MappingKey) => key.item in stale);
  }

  lemma OneMaps(db: Db, job: Job, p: Parsed, k: ItemKey)
    requires Keyed(db) && job.withShared && k.Coded?
    requires if k.disclosure == RowOf(Entered(db, job, p), job, p.code) then k.code in Codes(p.points)
             else MappedPoint(db, job, k)
    ensures MappedPoint(ImportOne(db, job, p), job, k)
  {
    var entered := Entered(db, job, p);
    UpsertedFinds(db.disclosures, KeyOfDisclosure(job, p.code), DisclosureBodyOf(job, p), NEW_DISCLOSURE);
    var d := RowOf(entered, job, p.code);
    assert p.points[..|p.points|] == p.points;
    PointsMap(entered, job, d, p.points, |p.points|, k);
    PutPointsKeyed(entered, job, d, p.points, |p.points|);
    RetiringKeepsMapped(PutPoints(entered, job, d, p.points, |p.points|), job, d, Codes(p.points), k);
  }

  ghost predicate MappedCode(db: Db, job: Job, code: string, itemCode: string) {
    HasRow(db, job, code) && MappedPoint(db, job, KeyOfItem(RowOf(db, job, code), itemCode))
  }

  lemma OneMapsCode(db: Db, job: Job, p: Parsed, code: string, itemCode: string)
    requires Keyed(db) && job.withShared
    requires if p.code == code then itemCode in Codes(p.points) else MappedCode(db, job, code, itemCode)
    ensures MappedCode(ImportOne(db, job, p), job, code, itemCode)
  {
    ImportOneLives(db, job, p, Uncoded(0, 0));
    UpsertedFinds(db.disclosures, KeyOfDisclosure(job, p.code), DisclosureBodyOf(job, p), NEW_DISCLOSURE);
    OneMaps(db, job, p, KeyOfItem(RowOf(Entered(db, job, p), job, code), itemCode));
  }

  ghost predicate StandsMapped(db: Db, job: Job, code: string, itemCode: string) {
    Keyed(db) && job.withShared && MappedCode(db, job, code, itemCode)
  }

  lemma OneMakesMapped(db: Db, job: Job, p: Parsed, itemCode: string)
    requires Keyed(db) && job.withShared && itemCode in Codes(p.points)
    ensures StandsMapped(ImportOne(db, job, p), job, p.code, itemCode)
  {
    ImportOneKeyed(db, job, p);
    OneMapsCode(db, job, p, p.code, itemCode);
  }

  lemma OneKeepsMapped(db: Db, job: Job, p: Parsed, code: string, itemCode: string)
    requires StandsMapped(db, job, code, itemCode) && p.code != code
    ensures StandsMapped(ImportOne(db, job, p), job, code, itemCode)
  {
    ImportOneKeyed(db, job, p);
    OneMapsCode(db, job, p, code, itemCode);
  }

  /** After `n` disclosures, the items of the latest one with a given code are mapped. */
  lemma {:induction false} LatestMaps(db: Db, job: Job, doc: seq<Parsed>, n: nat, j: nat, itemCode: string)
    requires Keyed(db) && job.withShared && j < n <= |doc| && itemCode in Codes(doc[j].points)
    requires forall l :: j < l < n ==> doc[l].code != doc[j].code
    ensures StandsMapped(Import(db, job, doc, n), job, doc[j].code, itemCode)
  {
    if j == n - 1 {
      ImportKeyed(db, job, doc, n - 1);
      OneMakesMapped(Import(db, job, doc, n - 1), job, doc[j], itemCode);
    } else {
      LatestMaps(db, job, doc, n - 1, j, itemCode);
      OneKeepsMapped(Import(db, job, doc, n - 1), job, doc[n - 1], doc[j].code, itemCode);
    }
  }

  lemma NothingBlockedAfter(db: Db, job: Job, doc: seq<Parsed>, n: nat, itemCode: string)
    requires Keyed(db) && n < |doc|
    ensures !BlockedPoint(Import(db, job, doc, |doc|), job, doc[n].code, itemCode)
  {
    var first := Import(db, job, doc, |doc|);
    var l := LatestExists(doc, |doc|, n);
    StatesRun(db, job, doc);
    RunTraces(States(db, job, doc), job, doc);
    LatestDecides(States(db, job, doc), job, doc, |doc|, l);
    var k := KeyOfItem(RowOf(first, job, doc[n].code), itemCode);
    if job.withShared && IsLive(first.items, k) {
      LatestMaps(db, job, doc, |doc|, l, itemCode);
    }
  }

  /** The database accepts the same document a second time. */
  lemma SecondNotRefused(db: Db, job: Job, doc: seq<Parsed>)
    requires Consistent(db) && !Refused(db, job, doc, |doc|)
    ensures !Refused(Import(db, job, doc, |doc|), job, doc, |doc|)
  {
    ImportKeepsConsistent(db, job, doc, |doc|);
    RefusedIff(Import(db, job, doc, |doc|), job, doc);
    NothingTakenAfter(db, job, doc);
    forall n: nat, i: nat | n < |doc| && i < |doc[n].points|
      ensures !BlockedPoint(Import(db, job, doc, |doc|), job, doc[n].code, doc[n].points[i].itemCode)
    {
      NothingBlockedAfter(db, job, doc, n, doc[n].points[i].itemCode);
    }
  }

  // ---------- inputs for each outcome ----------

  const POINT := DataPoint("GRI 305-1-a", "Gross emissions", "metric", "number", None)
  const DISCLOSURE := Parsed("GRI 305-1", "Direct emissions", "Report gross emissions.", "topic", None, 1, [POINT])
  const EMPTIED := DISCLOSURE.(points := [])

  function JobWith(slug: string -> Slug): Job {
    Job(1, 1, "environment", true, slug)
  }

  /** One disclosure, its item, two further items without a code, the item's
   * shared element, and mappings of the pair. */
  function Sample(slug: string -> Slug, mappings: Mappings): Db {
    var job := JobWith(slug);
    Db(Table(map[1 := Row(KeyOfDisclosure(job, DISCLOSURE.code), DisclosureBodyOf(job, DISCLOSURE),
                          NEW_DISCLOSURE, true)], 2),
       Table(map[1 := Row(KeyOfItem(1, POINT.itemCode), ItemBodyOf(POINT, 1), NEW_ITEM, true),
                 2 := Row(Uncoded(1, 2), ItemBodyOf(POINT, 2), NEW_ITEM, true),
                 3 := Row(Uncoded(1, 3), ItemBodyOf(POINT, 3), NEW_ITEM, true)], 4),
       Table(map[1 := Row(SharedCode(job, POINT.itemCode), ElementBodyOf(job, ItemBodyOf(POINT, 1)),
                       NewElement(SharedCode(job, POINT.itemCode)), true)], 2),
       mappings)
  }

  const RETIRED_FIRST: Row<MappingKey, MappingBody, MappingRest> := Row(MappingKey(1, 1), FULL, FIRST_VERSION, false)
  const CURRENT_SECOND: Row<MappingKey, MappingBody, MappingRest> := Row(MappingKey(1, 1), FULL, MappingRest(2), true)

  lemma SampleFinds(slug: string -> Slug, mappings: Mappings)
    ensures var job, db := JobWith(slug), Sample(slug, mappings);
            && Unique(db.disclosures) && Unique(db.items) && Unique(db.elements)
            && HasRow(db, job, DISCLOSURE.code) && RowOf(db, job, DISCLOSURE.code) == 1
            && Find(db.items, KeyOfItem(1, POINT.itemCode)) == Some(1)
            && Find(db.elements, SharedCode(job, POINT.itemCode)) == Some(1)
  {
    var job, db := JobWith(slug), Sample(slug, mappings);
    FindIsUnique(db.disclosures, 1, KeyOfDisclosure(job, DISCLOSURE.code));
    FindIsUnique(db.items, 1, KeyOfItem(1, POINT.itemCode));
    FindIsUnique(db.elements, 1, SharedCode(job, POINT.itemCode));
  }

  /** A version 1 that was retired while its item stayed current: every constraint holds, and the import is refused. */
  lemma RefusalHappens(slug: string -> Slug)
    ensures var db := Sample(slug, Table(map[1 := RETIRED_FIRST], 2));
            Consistent(db) && Refused(db, JobWith(slug), [DISCLOSURE], 1)
  {
    var db := Sample(slug, Table(map[1 := RETIRED_FIRST], 2));
    SampleFinds(slug, db.mappings);
    assert IsFirst(db.mappings, 1, MappingKey(1, 1));
    assert FirstOfCode([DISCLOSURE], 0) && [DISCLOSURE][0].points[0] == POINT;
    RefusedIff(db, JobWith(slug), [DISCLOSURE]);
  }

  /** The element's code in small letters, with the key that every element gets from its code. */
  function SmallElement(slug: string -> Slug): Elements {
    var job := JobWith(slug);
    var code := Lower(SharedCode(job, POINT.itemCode));
    Table(map[1 := Row(code, ElementBodyOf(job, ItemBodyOf(POINT, 1)), NewElement(code), true)], 2)
  }

  /** An element that somebody entered under the code in small letters: every
   * constraint holds, and the import is refused. */
  lemma KeyTakenHappens(slug: string -> Slug)
    ensures var db := Sample(slug, Table(map[], 1)).(elements := SmallElement(slug));
            Consistent(db) && Refused(db, JobWith(slug), [DISCLOSURE], 1)
  {
    var job, db := JobWith(slug), Sample(slug, Table(map[], 1)).(elements := SmallElement(slug));
    var code := SharedCode(job, POINT.itemCode);
    SampleFinds(slug, db.mappings);
    SmallLettersSameKey(slug(POINT.itemCode));
    assert HoldsKey(db.elements, 1, ElementKeyOf(code));
    assert [DISCLOSURE][0].points[0] == POINT && KeyTaken(db.elements, code);
    RefusedIff(db, job, [DISCLOSURE]);
  }

  /** A retired version 1 with a current version 2, as `create_mapping` leaves a pair. */
  function Versioned(slug: string -> Slug): Db {
    Sample(slug, Table(map[1 := RETIRED_FIRST, 2 := CURRENT_SECOND], 3))
  }

  lemma VersionedNotRefused(slug: string -> Slug)
    ensures Consistent(Versioned(slug)) && !Refused(Versioned(slug), JobWith(slug), [DISCLOSURE], 1)
  {
    SampleFinds(slug, Versioned(slug).mappings);
    FindIsUnique(Versioned(slug).mappings, 2, MappingKey(1, 1));
    RefusedIff(Versioned(slug), JobWith(slug), [DISCLOSURE]);
  }

  /** There the import goes through, and repeats. */
  lemma NewVersionAccepted(slug: string -> Slug)
    ensures var db, job, doc := Versioned(slug), JobWith(slug), [DISCLOSURE];
            && Consistent(db) && !Refused(db, job, doc, 1) && Consistent(Import(db, job, doc, 1))
            && Import(Import(db, job, doc, 1), job, doc, 1) == Import(db, job, doc, 1)
  {
    var db, job, doc := Versioned(slug), JobWith(slug), [DISCLOSURE];
    VersionedNotRefused(slug);
    ImportKeepsConsistent(db, job, doc, 1);
    RepeatsIff(db, job, doc);
  }

  /** One code parsed twice, the second time without its item: nothing
   * reconciles, and a second import changes the tables again. */
  lemma ConflictHappens(db: Db, job: Job)
    requires Keyed(db)
    ensures var doc := [DISCLOSURE, EMPTIED];
            var first := Import(db, job, doc, 2);
            !EveryoneListed(first, job, doc) && Import(first, job, doc, 2) != first
  {
    var doc := [DISCLOSURE, EMPTIED];
    assert POINT.itemCode in Codes(doc[0].points) && POINT.itemCode !in Codes(doc[1].points) &&
           doc[0].code == doc[1].code;
    assert !NoConflict(doc);
    ReconcilesIff(db, job, doc);
    RepeatsIff(db, job, doc);
  }
}
