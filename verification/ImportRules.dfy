/** What an import leaves in the catalog of each disclosure and data point it lists, told column by column. */
module ImportRules {
  import opened Prelude
  import opened KeyedTable
  import opened CatalogKeys
  import opened CatalogImport
  import opened ImportTheorems

  // ---------- the rows ----------

  predicate IsDisclosure(db: Db, id: int, standard: int, code: string) {
    && id in db.disclosures.rows && db.disclosures.rows[id].live
    && db.disclosures.rows[id].key.standard == standard && db.disclosures.rows[id].key.code == code
  }

  predicate IsItem(db: Db, id: int, disclosure: int, code: string) {
    && id in db.items.rows && db.items.rows[id].live && db.items.rows[id].key.Coded?
    && db.items.rows[id].key.disclosure == disclosure && db.items.rows[id].key.code == code
  }

  predicate IsElement(db: Db, id: int, code: string) {
    id in db.elements.rows && db.elements.rows[id].live && db.elements.rows[id].key == code
  }

  /** A current mapping. */
  predicate Joins(db: Db, id: int, item: int, element: int) {
    && id in db.mappings.rows && db.mappings.rows[id].live
    && db.mappings.rows[id].key.item == item && db.mappings.rows[id].key.element == element
  }

  predicate DisclosureSays(db: Db, job: Job, id: int, p: Parsed)
    requires id in db.disclosures.rows
  {
    var row := db.disclosures.rows[id].body;
    && row.section == Some(job.section) && row.title == p.title && row.description == Some(p.requirementText)
    && row.kind == p.kind && row.mandatory == "mandatory" && row.rule == p.rule && row.sortOrder == p.sortOrder
  }

  /** The item as the data point describes it, at the given place in its disclosure. */
  predicate ItemSays(db: Db, id: int, pt: DataPoint, place: int)
    requires id in db.items.rows
  {
    var row := db.items.rows[id].body;
    && row.name == pt.text && row.description == Some(pt.text) && row.itemType == pt.itemType
    && row.valueType == pt.valueType && row.unitCode == pt.unitCode && row.sortOrder == place
  }

  predicate ElementSays(db: Db, job: Job, id: int, pt: DataPoint)
    requires id in db.elements.rows
  {
    var row := db.elements.rows[id].body;
    && row.name == pt.text && row.description == Some(pt.text) && row.domain == Some(job.domain)
    && row.valueType == Some(pt.valueType) && row.unitCode == pt.unitCode
  }

  // ---------- the last write under a key ----------

  ghost predicate LastCode(doc: seq<Parsed>, n: nat, j: nat)
    requires j < n <= |doc|
  {
    forall k :: j < k < n ==> doc[k].code != doc[j].code
  }

  ghost predicate LastItem(points: seq<DataPoint>, n: nat, i: nat)
    requires i < n <= |points|
  {
    forall k :: i < k < n ==> points[k].itemCode != points[i].itemCode
  }

  ghost predicate NoPointShares(job: Job, points: seq<DataPoint>, from: nat, n: nat, slug: string)
    requires n <= |points|
  {
    forall k :: from <= k < n ==> job.slug(points[k].itemCode) != slug
  }

  /** No later data point of the first `n` disclosures has the same shared element. */
  ghost predicate LastShared(job: Job, doc: seq<Parsed>, n: nat, j: nat, i: nat)
    requires j < n <= |doc| && i < |doc[j].points|
  {
    var slug := job.slug(doc[j].points[i].itemCode);
    && NoPointShares(job, doc[j].points, i + 1, |doc[j].points|, slug)
    && forall k :: j < k < n ==> NoPointShares(job, doc[k].points, 0, |doc[k].points|, slug)
  }

  lemma {:induction false} ItemWriteLast(w: map<ItemKey, ItemBody>, d: int, points: seq<DataPoint>, n: nat, i: nat)
    requires i < n <= |points| && LastItem(points, n, i)
    ensures var k := KeyOfItem(d, points[i].itemCode);
            k in PointItemWrites(w, d, points, n) && PointItemWrites(w, d, points, n)[k] == ItemBodyOf(points[i], i + 1)
  {
    if i < n - 1 {
      ItemWriteLast(w, d, points, n - 1, i);
      assert points[n - 1].itemCode != points[i].itemCode;
    }
  }

  lemma {:induction false} OtherItemWrites(w: map<ItemKey, ItemBody>, d: int, points: seq<DataPoint>, n: nat,
                                           k: ItemKey)
    requires n <= |points| && k in w && k.disclosure != d
    ensures k in PointItemWrites(w, d, points, n) && PointItemWrites(w, d, points, n)[k] == w[k]
  {
    if n > 0 {
      OtherItemWrites(w, d, points, n - 1, k);
    }
  }

  lemma SharedCodesDiffer(job: Job, a: string, b: string)
    requires job.slug(a) != job.slug(b)
    ensures SharedCode(job, a) != SharedCode(job, b)
  {
    assert SharedCode(job, a)[3..] == job.slug(a) && SharedCode(job, b)[3..] == job.slug(b);
  }

  lemma {:induction false} ElementWriteLast(w: map<string, ElementBody>, job: Job, points: seq<DataPoint>, n: nat,
                                            i: nat)
    requires i < n <= |points| && NoPointShares(job, points, i + 1, n, job.slug(points[i].itemCode))
    ensures var k, after := SharedCode(job, points[i].itemCode), PointElementWrites(w, job, points, n);
            k in after && after[k] == ElementBodyOf(job, ItemBodyOf(points[i], i + 1))
  {
    if i < n - 1 {
      ElementWriteLast(w, job, points, n - 1, i);
      SharedCodesDiffer(job, points[i].itemCode, points[n - 1].itemCode);
    }
  }

  lemma {:induction false} OtherElementWrites(w: map<string, ElementBody>, job: Job, points: seq<DataPoint>, n: nat,
                                              itemCode: string)
    requires n <= |points| && NoPointShares(job, points, 0, n, job.slug(itemCode)) && SharedCode(job, itemCode) in w
    ensures var k, after := SharedCode(job, itemCode), PointElementWrites(w, job, points, n);
            k in after && after[k] == w[k]
  {
    if n > 0 {
      OtherElementWrites(w, job, points, n - 1, itemCode);
      SharedCodesDiffer(job, itemCode, points[n - 1].itemCode);
    }
  }

  lemma OtherRow(final: Db, job: Job, a: string, b: string)
    requires HasRow(final, job, a) && HasRow(final, job, b) && a != b
    ensures RowOf(final, job, a) != RowOf(final, job, b)
  {
  }

  lemma {:induction false} ItemWritten(final: Db, job: Job, doc: seq<Parsed>, n: nat, j: nat, i: nat)
    requires j < n <= |doc| && i < |doc[j].points| && LastCode(doc, n, j) && LastItem(doc[j].points, |doc[j].points|, i)
    requires forall k :: 0 <= k < |doc| ==> HasRow(final, job, doc[k].code)
    ensures var k, w := KeyOfItem(RowOf(final, job, doc[j].code), doc[j].points[i].itemCode),
                        WritesOf(final, job, doc, n).items;
            k in w && w[k] == ItemBodyOf(doc[j].points[i], i + 1)
  {
    var p, before := doc[n - 1], WritesOf(final, job, doc, n - 1).items;
    if j == n - 1 {
      ItemWriteLast(before, RowOf(final, job, p.code), p.points, |p.points|, i);
    } else {
      ItemWritten(final, job, doc, n - 1, j, i);
      OtherRow(final, job, doc[j].code, p.code);
      OtherItemWrites(before, RowOf(final, job, p.code), p.points, |p.points|,
                      KeyOfItem(RowOf(final, job, doc[j].code), doc[j].points[i].itemCode));
    }
  }

  lemma {:induction false} DisclosureWritten(final: Db, job: Job, doc: seq<Parsed>, n: nat, j: nat)
    requires j < n <= |doc| && LastCode(doc, n, j)
    ensures var k, w := KeyOfDisclosure(job, doc[j].code), WritesOf(final, job, doc, n).disclosures;
            k in w && w[k] == DisclosureBodyOf(job, doc[j])
  {
    if j < n - 1 {
      DisclosureWritten(final, job, doc, n - 1, j);
    }
  }

  lemma {:induction false} ElementWritten(final: Db, job: Job, doc: seq<Parsed>, n: nat, j: nat, i: nat)
    requires j < n <= |doc| && i < |doc[j].points| && job.withShared && LastShared(job, doc, n, j, i)
    ensures var k, w := SharedCode(job, doc[j].points[i].itemCode), WritesOf(final, job, doc, n).elements;
            k in w && w[k] == ElementBodyOf(job, ItemBodyOf(doc[j].points[i], i + 1))
  {
    var p, before := doc[n - 1], WritesOf(final, job, doc, n - 1).elements;
    if j == n - 1 {
      ElementWriteLast(before, job, p.points, |p.points|, i);
    } else {
      ElementWritten(final, job, doc, n - 1, j, i);
      OtherElementWrites(before, job, p.points, |p.points|, doc[j].points[i].itemCode);
    }
  }

  // ---------- what an import leaves ----------

  /** A listed disclosure that no later one shares its code with is the one row with its code, and is as parsed. */
  lemma DisclosureImported(db: Db, job: Job, doc: seq<Parsed>, j: nat) returns (d: int)
    requires Keyed(db) && NoConflict(doc) && j < |doc| && LastCode(doc, |doc|, j)
    ensures var first := Import(db, job, doc, |doc|);
            && IsDisclosure(first, d, job.standard, doc[j].code) && DisclosureSays(first, job, d, doc[j])
            && forall e :: IsDisclosure(first, e, job.standard, doc[j].code) ==> e == d
  {
    var first := Import(db, job, doc, |doc|);
    FirstFinishes(db, job, doc, first);
    var key := KeyOfDisclosure(job, doc[j].code);
    DisclosureWritten(first, job, doc, |doc|, j);
    assert CoversOne(first, job, doc[j], WritesOf(first, job, doc, |doc|));
    d := RowOf(first, job, doc[j].code);
    forall e | IsDisclosure(first, e, job.standard, doc[j].code) ensures e == d {
      FindIsUnique(first.disclosures, e, key);
    }
  }

  /** A listed data point is the one current item with its code below that row, at its place counted from 1. */
  lemma ItemImported(db: Db, job: Job, doc: seq<Parsed>, j: nat, i: nat) returns (d: int, item: int)
    requires Keyed(db) && NoConflict(doc) && j < |doc| && LastCode(doc, |doc|, j)
    requires i < |doc[j].points| && LastItem(doc[j].points, |doc[j].points|, i)
    ensures var first, pt := Import(db, job, doc, |doc|), doc[j].points[i];
            && IsDisclosure(first, d, job.standard, doc[j].code)
            && IsItem(first, item, d, pt.itemCode) && ItemSays(first, item, pt, i + 1)
            && forall e :: IsItem(first, e, d, pt.itemCode) ==> e == item
    ensures d == RowOf(Import(db, job, doc, |doc|), job, doc[j].code)
    ensures item == IdOf(Import(db, job, doc, |doc|).items, KeyOfItem(d, doc[j].points[i].itemCode))
  {
    var first := Import(db, job, doc, |doc|);
    FirstFinishes(db, job, doc, first);
    forall k | 0 <= k < |doc| ensures HasRow(first, job, doc[k].code) {
      assert CoversOne(first, job, doc[k], WritesOf(first, job, doc, |doc|));
    }
    d := RowOf(first, job, doc[j].code);
    var key := KeyOfItem(d, doc[j].points[i].itemCode);
    ItemWritten(first, job, doc, |doc|, j, i);
    item := IdOf(first.items, key);
    forall e | IsItem(first, e, d, doc[j].points[i].itemCode) ensures e == item {
      FindIsUnique(first.items, e, key);
    }
  }

  /** With shared elements, the element with the normalised code is as the item is, and a current mapping joins them. */
  lemma ElementImported(db: Db, job: Job, doc: seq<Parsed>, j: nat, i: nat)
      returns (d: int, item: int, element: int, mapping: int)
    requires Keyed(db) && NoConflict(doc) && j < |doc| && LastCode(doc, |doc|, j) && job.withShared
    requires i < |doc[j].points| && LastItem(doc[j].points, |doc[j].points|, i) && LastShared(job, doc, |doc|, j, i)
    ensures var first, pt := Import(db, job, doc, |doc|), doc[j].points[i];
            && IsDisclosure(first, d, job.standard, doc[j].code) && IsItem(first, item, d, pt.itemCode)
            && IsElement(first, element, "SE-" + job.slug(pt.itemCode)) && ElementSays(first, job, element, pt)
            && Joins(first, mapping, item, element)
  {
    var first := Import(db, job, doc, |doc|);
    var w := WritesOf(first, job, doc, |doc|);
    d, item := ItemImported(db, job, doc, j, i);
    FirstFinishes(db, job, doc, first);
    ElementWritten(first, job, doc, |doc|, j, i);
    assert CoversOne(first, job, doc[j], w);
    var key, code := KeyOfItem(d, doc[j].points[i].itemCode), SharedCode(job, doc[j].points[i].itemCode);
    assert key in w.items && ItemMapped(first, job, key);
    element := IdOf(first.elements, code);
    mapping := Find(first.mappings, MappingKey(item, element)).value;
  }

  /** Nothing else of a listed disclosure is current. */
  lemma OnlyListedCurrent(db: Db, job: Job, doc: seq<Parsed>, j: nat, d: int, item: int)
    requires Keyed(db) && NoConflict(doc) && j < |doc|
    requires var first := Import(db, job, doc, |doc|);
             && IsDisclosure(first, d, job.standard, doc[j].code)
             && item in first.items.rows && first.items.rows[item].live && first.items.rows[item].key.disclosure == d
    ensures exists i :: 0 <= i < |doc[j].points| &&
              IsItem(Import(db, job, doc, |doc|), item, d, doc[j].points[i].itemCode)
  {
    var first := Import(db, job, doc, |doc|);
    ImportKeyed(db, job, doc, |doc|);
    ReconcilesIff(db, job, doc);
    FindIsUnique(first.disclosures, d, KeyOfDisclosure(job, doc[j].code));
    var k := first.items.rows[item].key;
    assert Holds(first.items, item, k) && IsLive(first.items, k);
    assert Lists(first, d, Codes(doc[j].points));
    var pt :| pt in doc[j].points && pt.itemCode == k.code;
    var i :| 0 <= i < |doc[j].points| && doc[j].points[i] == pt;
  }

  // ---------- documents that list nothing twice ----------

  /** No two disclosures with one code, no two data points of one disclosure with one code. */
  ghost predicate ListsOnceOnly(doc: seq<Parsed>) {
    && (forall j, k :: 0 <= j < k < |doc| ==> doc[j].code != doc[k].code)
    && (forall j :: 0 <= j < |doc| ==> LastItems(doc[j].points))
  }

  ghost predicate LastItems(points: seq<DataPoint>) {
    forall i :: 0 <= i < |points| ==> LastItem(points, |points|, i)
  }

  /** The disclosure and its data point number `i` are in the catalog as parsed. */
  ghost predicate InCatalog(db: Db, job: Job, p: Parsed, i: nat)
    requires i < |p.points|
  {
    exists d, item ::
      && IsDisclosure(db, d, job.standard, p.code) && DisclosureSays(db, job, d, p)
      && IsItem(db, item, d, p.points[i].itemCode) && ItemSays(db, item, p.points[i], i + 1)
  }

  /** Every data point of such a document is in the catalog after its import. */
  lemma DistinctDocumentImported(db: Db, job: Job, doc: seq<Parsed>, j: nat, i: nat)
    requires Keyed(db) && ListsOnceOnly(doc) && j < |doc| && i < |doc[j].points|
    ensures InCatalog(Import(db, job, doc, |doc|), job, doc[j], i)
  {
    assert NoConflict(doc) && LastCode(doc, |doc|, j) && LastItems(doc[j].points);
    var d, item := ItemImported(db, job, doc, j, i);
    var e := DisclosureImported(db, job, doc, j);
    assert d == e;
  }

  // ---------- columns that an import leaves alone, and what new rows start with ----------

  /** Rows stay, with their keys and other columns; new ones start with the defaults. */
  ghost predicate DisclosuresKept(start: Disclosures, t: Disclosures) {
    && (forall i :: i in start.rows ==>
          i in t.rows && t.rows[i].key == start.rows[i].key && t.rows[i].rest == start.rows[i].rest &&
          t.rows[i].live == start.rows[i].live)
    && (forall i :: i in t.rows && i !in start.rows ==> i >= start.next && t.rows[i].rest.disclosureKey == None)
    && start.next <= t.next
  }

  ghost predicate ItemsKept(start: Items, t: Items) {
    && (forall i :: i in start.rows ==>
          i in t.rows && t.rows[i].key == start.rows[i].key && t.rows[i].rest == start.rows[i].rest &&
          (t.rows[i].live ==> start.rows[i].live))
    && (forall i :: i in t.rows && i !in start.rows ==> i >= start.next && NewItemSays(t.rows[i].rest))
    && start.next <= t.next
  }

  /** A new item is required, needs no evidence, has no parent, and may occur any number of times. */
  predicate NewItemSays(rest: ItemRest) {
    && rest.isRequired && !rest.requiresEvidence && rest.parent == None
    && rest.cardinalityMin == 0 && rest.cardinalityMax == None
  }

  ghost predicate ElementsKept(start: Elements, t: Elements) {
    && (forall i :: i in start.rows ==>
          i in t.rows && t.rows[i].key == start.rows[i].key && t.rows[i].rest == start.rows[i].rest &&
          t.rows[i].live == start.rows[i].live)
    && (forall i :: i in t.rows && i !in start.rows ==>
          i >= start.next && t.rows[i].rest.ownerLayer == "internal_catalog" &&
          t.rows[i].rest.elementKey == "internal:" + Token(t.rows[i].key))
    && start.next <= t.next
  }

  /** Old mappings keep their kind and version; a new one is full and a first version. */
  ghost predicate MappingsKept(start: Mappings, t: Mappings) {
    && (forall i :: i in start.rows ==>
          i in t.rows && t.rows[i].key == start.rows[i].key && t.rows[i].rest == start.rows[i].rest &&
          t.rows[i].body == start.rows[i].body && (t.rows[i].live ==> start.rows[i].live))
    && (forall i :: i in t.rows && i !in start.rows ==>
          i >= start.next && t.rows[i].body.kind == "full" && t.rows[i].rest.version == 1)
    && start.next <= t.next
  }

  ghost predicate Kept(start: Db, db: Db) {
    && DisclosuresKept(start.disclosures, db.disclosures) && ItemsKept(start.items, db.items)
    && ElementsKept(start.elements, db.elements) && MappingsKept(start.mappings, db.mappings)
  }

  lemma PointKeeps(start: Db, db: Db, job: Job, d: int, pt: DataPoint, sortOrder: int)
    requires Keyed(db) && Kept(start, db)
    ensures Kept(start, PutPoint(db, job, d, pt, sortOrder))
  {
    ItemPutKeeps(start.items, db.items, d, pt, sortOrder);
    ElementPutKeeps(start.elements, db.elements, job, pt, sortOrder);
    var after := PutPoint(db, job, d, pt, sortOrder);
    MappingPutKeeps(start.mappings, db.mappings, IdOf(after.items, KeyOfItem(d, pt.itemCode)),
                    IdOf(after.elements, SharedCode(job, pt.itemCode)));
  }

  lemma ItemPutKeeps(start: Items, t: Items, d: int, pt: DataPoint, sortOrder: int)
    requires Unique(t) && ItemsKept(start, t)
    ensures ItemsKept(start, PutItem(t, d, pt, sortOrder))
  {
  }

  lemma ElementPutKeeps(start: Elements, t: Elements, job: Job, pt: DataPoint, sortOrder: int)
    requires Unique(t) && ElementsKept(start, t)
    ensures ElementsKept(start, PutElement(t, job, pt, sortOrder))
  {
  }

  lemma MappingPutKeeps(start: Mappings, t: Mappings, item: int, element: int)
    requires Unique(t) && MappingsKept(start, t)
    ensures MappingsKept(start, PutMapping(t, item, element))
  {
  }

  lemma {:induction false} PointsKeep(start: Db, db: Db, job: Job, d: int, points: seq<DataPoint>, n: nat)
    requires Keyed(db) && Kept(start, db) && n <= |points|
    ensures Kept(start, PutPoints(db, job, d, points, n))
  {
    if n > 0 {
      PointsKeep(start, db, job, d, points, n - 1);
      PutPointsKeyed(db, job, d, points, n - 1);
      PointKeeps(start, PutPoints(db, job, d, points, n - 1), job, d, points[n - 1], n);
    }
  }

  lemma DeactivationKeeps(start: Db, db: Db, d: int, codes: set<string>)
    requires Kept(start, db)
    ensures Kept(start, Deactivated(db, d, codes))
  {
  }

  lemma OneKeeps(start: Db, db: Db, job: Job, p: Parsed)
    requires Keyed(db) && Kept(start, db)
    ensures Kept(start, ImportOne(db, job, p))
  {
    var key := KeyOfDisclosure(job, p.code);
    UpsertedFinds(db.disclosures, key, DisclosureBodyOf(job, p), NEW_DISCLOSURE);
    var entered := db.(disclosures := PutDisclosure(db.disclosures, job, p));
    var d := IdOf(entered.disclosures, key);
    PointsKeep(start, entered, job, d, p.points, |p.points|);
    DeactivationKeeps(start, PutPoints(entered, job, d, p.points, |p.points|), d, Codes(p.points));
  }

  lemma {:induction false} ImportKeeps(db: Db, job: Job, doc: seq<Parsed>, n: nat)
    requires Keyed(db) && n <= |doc|
    ensures Kept(db, Import(db, job, doc, n))
  {
    if n > 0 {
      ImportKeyed(db, job, doc, n - 1);
      ImportKeeps(db, job, doc, n - 1);
      OneKeeps(db, Import(db, job, doc, n - 1), job, doc[n - 1]);
    } else {
      NothingDone(db);
    }
  }

  lemma NothingDone(db: Db)
    ensures Kept(db, db)
  {
  }

  // ---------- the constraints, column by column ----------

  /** After an accepted import into a consistent catalog. */
  lemma ConstraintsHold(db: Db, job: Job, doc: seq<Parsed>)
    requires Consistent(db) && !Refused(db, job, doc, |doc|)
    ensures var after := Import(db, job, doc, |doc|);
            && (forall i, d, c, e :: IsDisclosure(after, i, d, c) && IsDisclosure(after, e, d, c) ==> i == e)
            && (forall i, d, c, e :: IsItem(after, i, d, c) && IsItem(after, e, d, c) ==> i == e)
            && (forall m, i, e, n :: Joins(after, m, i, e) && Joins(after, n, i, e) ==> m == n)
            && (forall m, i, e :: Joins(after, m, i, e) ==> i in after.items.rows && after.items.rows[i].live)
  {
    var after := Import(db, job, doc, |doc|);
    ImportKeepsConsistent(db, job, doc, |doc|);
    forall i, d, c, e | IsDisclosure(after, i, d, c) && IsDisclosure(after, e, d, c) ensures i == e {
      FindIsUnique(after.disclosures, i, DisclosureKey(d, c));
      FindIsUnique(after.disclosures, e, DisclosureKey(d, c));
    }
    forall i, d, c, e | IsItem(after, i, d, c) && IsItem(after, e, d, c) ensures i == e {
      FindIsUnique(after.items, i, Coded(d, c));
      FindIsUnique(after.items, e, Coded(d, c));
    }
    forall m, i, e, n | Joins(after, m, i, e) && Joins(after, n, i, e) ensures m == n {
      FindIsUnique(after.mappings, m, MappingKey(i, e));
      FindIsUnique(after.mappings, n, MappingKey(i, e));
    }
  }
}
