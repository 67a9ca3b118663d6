/**
 Importing a parsed GRI document into the catalog, table by table and as a class.
 `ImportTheorems` proves what a whole import does.
 */
module CatalogImport {
  import opened Prelude
  import Decimal
  import opened KeyedTable
  import opened CatalogKeys

  // ---------- the tables ----------

  datatype DisclosureKey = DisclosureKey(standard: int, code: string)
  datatype DisclosureBody = DisclosureBody(
    section: Option<int>, title: string, description: Option<string>, kind: string, mandatory: string,
    rule: Option<string>, sortOrder: int)
  datatype DisclosureRest = DisclosureRest(disclosureKey: Option<string>)

  /** An item is live while it is current. One without a code is found by
   * nobody: its own id tells it from the others. */
  datatype ItemKey = Coded(disclosure: int, code: string) | Uncoded(disclosure: int, id: int)
  datatype ItemBody = ItemBody(
    name: string, description: Option<string>, itemType: string, valueType: string, unitCode: Option<string>,
    sortOrder: int)
  datatype ItemRest = ItemRest(
    parent: Option<int>, isRequired: bool, requiresEvidence: bool, cardinalityMin: int, cardinalityMax: Option<int>)

  /** Elements are found by code whether current or not: all of them are live. */
  datatype ElementBody = ElementBody(
    name: string, description: Option<string>, domain: Option<string>, valueType: Option<string>,
    unitCode: Option<string>)
  datatype ElementRest = ElementRest(ownerLayer: string, elementKey: string)

  datatype MappingKey = MappingKey(item: int, element: int)
  datatype MappingBody = MappingBody(kind: string)
  datatype MappingRest = MappingRest(version: int)

  type Disclosures = Table<DisclosureKey, DisclosureBody, DisclosureRest>
  type Items = Table<ItemKey, ItemBody, ItemRest>
  type Elements = Table<string, ElementBody, ElementRest>
  type Mappings = Table<MappingKey, MappingBody, MappingRest>

  datatype Db = Db(disclosures: Disclosures, items: Items, elements: Elements, mappings: Mappings)

  const NEW_DISCLOSURE := DisclosureRest(None)
  const NEW_ITEM := ItemRest(None, true, false, 0, None)
  const FULL := MappingBody("full")
  const FIRST_VERSION := MappingRest(1)

  // ---------- the parsed document ----------

  /** The parser's item codes all begin with the standard's name. */
  type ItemCode = s: string | s != "" witness "GRI"

  datatype DataPoint = DataPoint(itemCode: ItemCode, text: string, itemType: string, valueType: string,
                                 unitCode: Option<string>)

  datatype Parsed = Parsed(
    code: string, title: string, requirementText: string, kind: string, rule: Option<string>, sortOrder: int,
    points: seq<DataPoint>)

  /** What stays fixed during one import; `slug` turns an item code into the tail of a shared-element code. */
  datatype Job = Job(standard: int, section: int, domain: string, withShared: bool, slug: string -> Slug)

  function Codes(points: seq<DataPoint>): set<string> {
    set p | p in points :: p.itemCode
  }

  function DisclosureBodyOf(job: Job, p: Parsed): DisclosureBody {
    DisclosureBody(Some(job.section), p.title, Some(p.requirementText), p.kind, "mandatory", p.rule, p.sortOrder)
  }

  function ItemBodyOf(pt: DataPoint, sortOrder: int): ItemBody {
    ItemBody(pt.text, Some(pt.text), pt.itemType, pt.valueType, pt.unitCode, sortOrder)
  }

  function ElementBodyOf(job: Job, item: ItemBody): ElementBody {
    ElementBody(item.name, item.description, Some(job.domain), Some(item.valueType), item.unitCode)
  }

  function SharedCode(job: Job, itemCode: string): string {
    "SE-" + job.slug(itemCode)
  }

  function NewElement(code: string): ElementRest {
    ElementRest("internal_catalog", ElementKeyOf(code))
  }

  /** The code of an item's shared element; an item without a code lends its id. */
  function ElementCode(job: Job, id: int, key: ItemKey): string {
    SharedCode(job, if key.Coded? && key.code != "" then key.code else "ITEM-" + Decimal.OfInt(id))
  }

  function KeyOfDisclosure(job: Job, code: string): DisclosureKey {
    DisclosureKey(job.standard, code)
  }

  function KeyOfItem(disclosure: int, code: string): ItemKey {
    Coded(disclosure, code)
  }

  // ---------- the operations on values ----------

  ghost function IdOf<K, B, R>(t: Table<K, B, R>, k: K): int {
    if Find(t, k).Some? then Find(t, k).value else 0
  }

  ghost function PutDisclosure(t: Disclosures, job: Job, p: Parsed): Disclosures {
    Upserted(t, KeyOfDisclosure(job, p.code), DisclosureBodyOf(job, p), NEW_DISCLOSURE)
  }

  ghost function PutItem(t: Items, d: int, pt: DataPoint, sortOrder: int): Items {
    Upserted(t, KeyOfItem(d, pt.itemCode), ItemBodyOf(pt, sortOrder), NEW_ITEM)
  }

  ghost function PutElement(t: Elements, job: Job, pt: DataPoint, sortOrder: int): Elements {
    var code := SharedCode(job, pt.itemCode);
    Upserted(t, code, ElementBodyOf(job, ItemBodyOf(pt, sortOrder)), NewElement(code))
  }

  ghost function PutMapping(t: Mappings, item: int, element: int): Mappings {
    Ensured(t, MappingKey(item, element), FULL, FIRST_VERSION)
  }

  ghost function PutPoint(db: Db, job: Job, d: int, pt: DataPoint, sortOrder: int): Db {
    var items := PutItem(db.items, d, pt, sortOrder);
    if !job.withShared then db.(items := items)
    else
      var elements := PutElement(db.elements, job, pt, sortOrder);
      var item, element := IdOf(items, KeyOfItem(d, pt.itemCode)), IdOf(elements, SharedCode(job, pt.itemCode));
      db.(items := items, elements := elements, mappings := PutMapping(db.mappings, item, element))
  }

  /** The first `n` data points, numbered from 1. */
  ghost function PutPoints(db: Db, job: Job, d: int, points: seq<DataPoint>, n: nat): Db
    requires n <= |points|
  {
    if n == 0 then db else PutPoint(PutPoints(db, job, d, points, n - 1), job, d, points[n - 1], n)
  }

  predicate IsStale(k: ItemKey, d: int, codes: set<string>) {
    k.disclosure == d && !(k.Coded? && k.code in codes)
  }

  function StaleIds(t: Items, d: int, codes: set<string>): set<int> {
    set i | i in t.rows && t.rows[i].live && IsStale(t.rows[i].key, d, codes)
  }

  function Deactivated(db: Db, d: int, codes: set<string>): Db {
    var stale := StaleIds(db.items, d, codes);
    db.(items := Retired(db.items, k => IsStale(k, d, codes)),
        mappings := Retired(db.mappings, (k: MappingKey) => k.item in stale))
  }

  ghost function ImportOne(db: Db, job: Job, p: Parsed): Db {
    var disclosures := PutDisclosure(db.disclosures, job, p);
    var d := IdOf(disclosures, KeyOfDisclosure(job, p.code));
    Deactivated(PutPoints(db.(disclosures := disclosures), job, d, p.points, |p.points|), d, Codes(p.points))
  }

  /** The first `n` disclosures of the document. */
  ghost function Import(db: Db, job: Job, doc: seq<Parsed>, n: nat): Db
    requires n <= |doc|
  {
    if n == 0 then db else ImportOne(Import(db, job, doc, n - 1), job, doc[n - 1])
  }

  // ---------- the refusals ----------

  predicate HoldsKey(t: Elements, e: int, elementKey: string) {
    e in t.rows && t.rows[e].rest.elementKey == elementKey
  }

  /** No element has the code, but one has its key: the unique index on element keys refuses a new element. */
  ghost predicate KeyTaken(t: Elements, code: string) {
    Find(t, code).None? && exists e :: HoldsKey(t, e, ElementKeyOf(code))
  }

  lemma KeyTakenMeans(t: Elements, code: string)
    ensures KeyTaken(t, code) <==>
            (forall e :: e in t.rows && t.rows[e].live ==> t.rows[e].key != code) &&
            (exists e :: e in t.rows && t.rows[e].rest.elementKey == "internal:" + Token(code))
  {
    if forall e :: e in t.rows && t.rows[e].live ==> t.rows[e].key != code {
      assert forall e :: !Holds(t, e, code);
    }
    if Find(t, code).None? {
      assert forall e :: e in t.rows && t.rows[e].live && t.rows[e].key == code ==> Holds(t, e, code);
    }
    forall e ensures HoldsKey(t, e, ElementKeyOf(code)) <==>
                     e in t.rows && t.rows[e].rest.elementKey == "internal:" + Token(code) {
    }
  }

  predicate IsFirst(t: Mappings, m: int, k: MappingKey) {
    m in t.rows && t.rows[m].key == k && t.rows[m].rest == FIRST_VERSION
  }

  /** The pair has a version-1 row but no current one: the unique constraint on versions refuses a new first version. */
  ghost predicate Blocked(t: Mappings, k: MappingKey) {
    Find(t, k).None? && exists m :: IsFirst(t, m, k)
  }

  lemma BlockedMeans(t: Mappings, k: MappingKey)
    ensures Blocked(t, k) <==>
            (exists m :: m in t.rows && t.rows[m].key == k && t.rows[m].rest.version == 1) &&
            (forall m :: m in t.rows && t.rows[m].key == k ==> !t.rows[m].live)
  {
    if Blocked(t, k) {
      var m :| IsFirst(t, m, k);
      forall i | i in t.rows && t.rows[i].key == k ensures !t.rows[i].live {
        assert !Holds(t, i, k);
      }
    }
    forall m | m in t.rows && t.rows[m].key == k && t.rows[m].rest.version == 1 ensures IsFirst(t, m, k) {
    }
  }

  ghost predicate PointBlocked(db: Db, job: Job, d: int, pt: DataPoint, sortOrder: int) {
    Blocked(db.mappings, MappingKey(IdOf(PutItem(db.items, d, pt, sortOrder), KeyOfItem(d, pt.itemCode)),
                                    IdOf(PutElement(db.elements, job, pt, sortOrder), SharedCode(job, pt.itemCode))))
  }

  ghost predicate PointRefused(db: Db, job: Job, d: int, pt: DataPoint, sortOrder: int) {
    job.withShared && (KeyTaken(db.elements, SharedCode(job, pt.itemCode)) || PointBlocked(db, job, d, pt, sortOrder))
  }

  /** One of the first `n` data points is refused. */
  ghost predicate PointsRefused(db: Db, job: Job, d: int, points: seq<DataPoint>, n: nat)
    requires n <= |points|
  {
    n > 0 && (PointsRefused(db, job, d, points, n - 1) ||
              PointRefused(PutPoints(db, job, d, points, n - 1), job, d, points[n - 1], n))
  }

  ghost predicate OneRefused(db: Db, job: Job, p: Parsed) {
    var disclosures := PutDisclosure(db.disclosures, job, p);
    PointsRefused(db.(disclosures := disclosures), job, IdOf(disclosures, KeyOfDisclosure(job, p.code)), p.points,
                  |p.points|)
  }

  /** One of the first `n` disclosures is refused. */
  ghost predicate Refused(db: Db, job: Job, doc: seq<Parsed>, n: nat)
    requires n <= |doc|
  {
    n > 0 && (Refused(db, job, doc, n - 1) || OneRefused(Import(db, job, doc, n - 1), job, doc[n - 1]))
  }

  // ---------- keys stay unique ----------

  /** At most one current row per natural key, in every table. */
  ghost predicate Keyed(db: Db) {
    Unique(db.disclosures) && Unique(db.items) && Unique(db.elements) && Unique(db.mappings)
  }

  lemma PutPointKeyed(db: Db, job: Job, d: int, pt: DataPoint, sortOrder: int)
    requires Keyed(db)
    ensures Keyed(PutPoint(db, job, d, pt, sortOrder))
  {
    UpsertedFinds(db.items, KeyOfItem(d, pt.itemCode), ItemBodyOf(pt, sortOrder), NEW_ITEM);
    if job.withShared {
      UpsertedFinds(db.elements, SharedCode(job, pt.itemCode), ElementBodyOf(job, ItemBodyOf(pt, sortOrder)),
                    NewElement(SharedCode(job, pt.itemCode)));
      var after := PutPoint(db, job, d, pt, sortOrder);
      var k :=
          MappingKey(IdOf(after.items, KeyOfItem(d, pt.itemCode)), IdOf(after.elements, SharedCode(job, pt.itemCode)));
      if Find(db.mappings, k).None? {
        InsertedFinds(db.mappings, k, FULL, FIRST_VERSION);
      }
    }
  }

  lemma {:induction false} PutPointsKeyed(db: Db, job: Job, d: int, points: seq<DataPoint>, n: nat)
    requires Keyed(db) && n <= |points|
    ensures Keyed(PutPoints(db, job, d, points, n))
  {
    if n > 0 {
      PutPointsKeyed(db, job, d, points, n - 1);
      PutPointKeyed(PutPoints(db, job, d, points, n - 1), job, d, points[n - 1], n);
    }
  }

  lemma DeactivatedKeyed(db: Db, d: int, codes: set<string>)
    requires Keyed(db)
    ensures Keyed(Deactivated(db, d, codes))
  {
    RetiredFinds(db.items, k => IsStale(k, d, codes));
    var stale := StaleIds(db.items, d, codes);
    RetiredFinds(db.mappings, (k: MappingKey) => k.item in stale);
  }

  lemma ImportOneKeyed(db: Db, job: Job, p: Parsed)
    requires Keyed(db)
    ensures Keyed(ImportOne(db, job, p))
  {
    var key := KeyOfDisclosure(job, p.code);
    UpsertedFinds(db.disclosures, key, DisclosureBodyOf(job, p), NEW_DISCLOSURE);
    var disclosures := PutDisclosure(db.disclosures, job, p);
    var d := IdOf(disclosures, key);
    PutPointsKeyed(db.(disclosures := disclosures), job, d, p.points, |p.points|);
    DeactivatedKeyed(PutPoints(db.(disclosures := disclosures), job, d, p.points, |p.points|), d, Codes(p.points));
  }

  lemma {:induction false} ImportKeyed(db: Db, job: Job, doc: seq<Parsed>, n: nat)
    requires Keyed(db) && n <= |doc|
    ensures Keyed(Import(db, job, doc, n))
  {
    if n > 0 {
      ImportKeyed(db, job, doc, n - 1);
      ImportOneKeyed(Import(db, job, doc, n - 1), job, doc[n - 1]);
    }
  }

  // ---------- references and versions ----------

  /** The foreign keys. */
  ghost predicate ReferencesHold(db: Db) {
    && (forall i :: i in db.items.rows ==> db.items.rows[i].key.disclosure in db.disclosures.rows)
    && (forall m :: m in db.mappings.rows ==>
          db.mappings.rows[m].key.item in db.items.rows && db.mappings.rows[m].key.element in db.elements.rows)
  }

  /** A current mapping belongs to a current item. */
  ghost predicate MappingsBelong(db: Db) {
    forall m :: m in db.mappings.rows && db.mappings.rows[m].live ==>
      var item := db.mappings.rows[m].key.item; item in db.items.rows && db.items.rows[item].live
  }

  predicate SameVersion(a: Row<MappingKey, MappingBody, MappingRest>, b: Row<MappingKey, MappingBody, MappingRest>) {
    a.key == b.key && a.rest == b.rest
  }

  /** Unique (item, element, version). */
  ghost predicate VersionsUnique(t: Mappings) {
    forall m, m' {:trigger SameVersion(t.rows[m], t.rows[m'])} ::
      (m in t.rows && m' in t.rows && SameVersion(t.rows[m], t.rows[m'])) ==> m == m'
  }

  /** Unique element key. */
  ghost predicate ElementKeysUnique(t: Elements) {
    forall e, e' :: e' in t.rows && HoldsKey(t, e, t.rows[e'].rest.elementKey) ==> e == e'
  }

  ghost predicate Consistent(db: Db) {
    && Keyed(db) && ReferencesHold(db) && MappingsBelong(db)
    && VersionsUnique(db.mappings) && ElementKeysUnique(db.elements)
  }

  lemma PutElementKeys(t: Elements, job: Job, pt: DataPoint, sortOrder: int)
    requires Unique(t) && ElementKeysUnique(t) && !KeyTaken(t, SharedCode(job, pt.itemCode))
    ensures ElementKeysUnique(PutElement(t, job, pt, sortOrder))
  {
    var code, after := SharedCode(job, pt.itemCode), PutElement(t, job, pt, sortOrder);
    forall e, e' | e' in after.rows && HoldsKey(after, e, after.rows[e'].rest.elementKey) ensures e == e' {
      if Find(t, code).None? {
        assert e in t.rows && e' == t.next ==> HoldsKey(t, e, ElementKeyOf(code));
        assert e' in t.rows && e == t.next ==> HoldsKey(t, e', ElementKeyOf(code));
      }
      assert e in t.rows && e' in t.rows ==> HoldsKey(t, e, t.rows[e'].rest.elementKey);
    }
  }

  lemma PutMappingVersions(t: Mappings, k: MappingKey)
    requires Unique(t) && VersionsUnique(t) && !Blocked(t, k)
    ensures VersionsUnique(Ensured(t, k, FULL, FIRST_VERSION))
  {
    var after := Ensured(t, k, FULL, FIRST_VERSION);
    forall m, m' | m in after.rows && m' in after.rows && SameVersion(after.rows[m], after.rows[m']) ensures m == m' {
      if Find(t, k).None? {
        assert m in t.rows && m' == t.next ==> IsFirst(t, m, k);
        assert m' in t.rows && m == t.next ==> IsFirst(t, m', k);
      }
      assert m in t.rows && m' in t.rows ==> SameVersion(t.rows[m], t.rows[m']);
    }
  }

  lemma PutPointConsistent(db: Db, job: Job, d: int, pt: DataPoint, sortOrder: int)
    requires Consistent(db) && d in db.disclosures.rows && !PointRefused(db, job, d, pt, sortOrder)
    ensures Consistent(PutPoint(db, job, d, pt, sortOrder))
  {
    var key, code := KeyOfItem(d, pt.itemCode), SharedCode(job, pt.itemCode);
    PutPointKeyed(db, job, d, pt, sortOrder);
    UpsertedFinds(db.items, key, ItemBodyOf(pt, sortOrder), NEW_ITEM);
    if job.withShared {
      UpsertedFinds(db.elements, code, ElementBodyOf(job, ItemBodyOf(pt, sortOrder)),
                    NewElement(SharedCode(job, pt.itemCode)));
      PutElementKeys(db.elements, job, pt, sortOrder);
      var after := PutPoint(db, job, d, pt, sortOrder);
      PutMappingVersions(db.mappings, MappingKey(IdOf(after.items, key), IdOf(after.elements, code)));
    }
  }

  lemma {:induction false} PutPointsConsistent(db: Db, job: Job, d: int, points: seq<DataPoint>, n: nat)
    requires n <= |points| && Consistent(db) && d in db.disclosures.rows && !PointsRefused(db, job, d, points, n)
    ensures Consistent(PutPoints(db, job, d, points, n)) &&
            PutPoints(db, job, d, points, n).disclosures == db.disclosures
  {
    if n > 0 {
      PutPointsConsistent(db, job, d, points, n - 1);
      PutPointConsistent(PutPoints(db, job, d, points, n - 1), job, d, points[n - 1], n);
    }
  }

  lemma DeactivatedConsistent(db: Db, d: int, codes: set<string>)
    requires Consistent(db)
    ensures Consistent(Deactivated(db, d, codes))
  {
    DeactivatedKeyed(db, d, codes);
    var after := Deactivated(db, d, codes);
    forall m, m' | m in after.mappings.rows && m' in after.mappings.rows &&
                   SameVersion(after.mappings.rows[m], after.mappings.rows[m'])
      ensures m == m'
    {
      assert SameVersion(db.mappings.rows[m], db.mappings.rows[m']);
    }
  }

  lemma ImportOneConsistent(db: Db, job: Job, p: Parsed)
    requires Consistent(db) && !OneRefused(db, job, p)
    ensures Consistent(ImportOne(db, job, p))
  {
    var key := KeyOfDisclosure(job, p.code);
    UpsertedFinds(db.disclosures, key, DisclosureBodyOf(job, p), NEW_DISCLOSURE);
    var entered := db.(disclosures := PutDisclosure(db.disclosures, job, p));
    var d := IdOf(entered.disclosures, key);
    PutPointsConsistent(entered, job, d, p.points, |p.points|);
    DeactivatedConsistent(PutPoints(entered, job, d, p.points, |p.points|), d, Codes(p.points));
  }

  /** An import that is not refused keeps every constraint: unique keys and
   * versions, references, current mappings on current items. */
  lemma {:induction false} ImportKeepsConsistent(db: Db, job: Job, doc: seq<Parsed>, n: nat)
    requires n <= |doc| && Consistent(db) && !Refused(db, job, doc, n)
    ensures Consistent(Import(db, job, doc, n))
  {
    if n > 0 {
      ImportKeepsConsistent(db, job, doc, n - 1);
      ImportOneConsistent(Import(db, job, doc, n - 1), job, doc[n - 1]);
    }
  }

  lemma ThroughConsistent(db: Db, job: Job, doc: seq<Parsed>)
    requires !Refused(db, job, doc, |doc|)
    ensures Consistent(db) ==> Consistent(Import(db, job, doc, |doc|))
  {
    if Consistent(db) {
      ImportKeepsConsistent(db, job, doc, |doc|);
    }
  }

  // ---------- the session ----------

  class Catalog {
    var disclosures: Disclosures
    var items: Items
    var elements: Elements
    var mappings: Mappings

    ghost function View(): Db
      reads this
    {
      Db(disclosures, items, elements, mappings)
    }

    method UpsertDisclosure(job: Job, p: Parsed) returns (id: int)
      requires Unique(disclosures)
      modifies this`disclosures
      ensures disclosures == PutDisclosure(old(disclosures), job, p)
      ensures id == IdOf(disclosures, KeyOfDisclosure(job, p.code)) && id in disclosures.rows
      ensures disclosures.rows[id].key.standard == job.standard && disclosures.rows[id].key.code == p.code
      ensures var row := disclosures.rows[id].body;
              && row.section == Some(job.section) && row.title == p.title && row.description == Some(p.requirementText)
              && row.kind == p.kind && row.mandatory == "mandatory" && row.rule == p.rule
              && row.sortOrder == p.sortOrder
    {
      var key := KeyOfDisclosure(job, p.code);
      UpsertedFinds(disclosures, key, DisclosureBodyOf(job, p), NEW_DISCLOSURE);
      var found := Lookup(disclosures, key);
      if found == None {
        InsertedFinds(disclosures, key, DisclosureBodyOf(job, p), NEW_DISCLOSURE);
        id := disclosures.next;
        disclosures := Inserted(disclosures, key, DisclosureBodyOf(job, p), NEW_DISCLOSURE);
      } else {
        id := found.value;
        if disclosures.rows[id].body != DisclosureBodyOf(job, p) {
          disclosures := Rewritten(disclosures, id, DisclosureBodyOf(job, p));
        } else {
          RewriteNothing(disclosures, id);
        }
      }
    }

    method UpsertRequirementItem(d: int, pt: DataPoint, sortOrder: int) returns (id: int)
      requires Unique(items)
      modifies this`items
      ensures items == PutItem(old(items), d, pt, sortOrder)
      ensures id == IdOf(items, KeyOfItem(d, pt.itemCode)) && id in items.rows
      ensures items.rows[id].body == ItemBodyOf(pt, sortOrder) && items.rows[id].key == KeyOfItem(d, pt.itemCode)
      ensures items.rows[id].key == Coded(d, pt.itemCode)
      ensures var row := items.rows[id].body;
              && row.name == pt.text && row.description == Some(pt.text) && row.itemType == pt.itemType
              && row.valueType == pt.valueType && row.unitCode == pt.unitCode && row.sortOrder == sortOrder
    {
      var key := KeyOfItem(d, pt.itemCode);
      UpsertedFinds(items, key, ItemBodyOf(pt, sortOrder), NEW_ITEM);
      var found := Lookup(items, key);
      if found == None {
        InsertedFinds(items, key, ItemBodyOf(pt, sortOrder), NEW_ITEM);
        id := items.next;
        items := Inserted(items, key, ItemBodyOf(pt, sortOrder), NEW_ITEM);
      } else {
        id := found.value;
        if items.rows[id].body != ItemBodyOf(pt, sortOrder) {
          items := Rewritten(items, id, ItemBodyOf(pt, sortOrder));
        } else {
          RewriteNothing(items, id);
        }
      }
    }

    /** The element is written from the item row, as it now stands; `false` is the database refusing a new element. */
    method UpsertSharedElement(job: Job, item: int) returns (ok: bool, id: int)
      requires Unique(elements)
      requires item in items.rows
      modifies this`elements
      ensures var code := ElementCode(job, item, items.rows[item].key);
              && (ok <==> !KeyTaken(old(elements), code))
              && (!ok ==> elements == old(elements))
              && (ok ==>
                    elements ==
                        Upserted(old(elements), code, ElementBodyOf(job, items.rows[item].body), NewElement(code)) &&
                    id == IdOf(elements, code))
      ensures ok ==>
                var from := items.rows[item].body;
                && id in elements.rows && elements.rows[id].key == ElementCode(job, item, items.rows[item].key)
                && elements.rows[id].body == ElementBody(from.name, from.description, Some(job.domain),
                                                         Some(from.valueType), from.unitCode)
    {
      var code, body := ElementCode(job, item, items.rows[item].key), ElementBodyOf(job, items.rows[item].body);
      UpsertedFinds(elements, code, body, NewElement(code));
      var found := Lookup(elements, code);
      if found == None {
        if e :| e in elements.rows && HoldsKey(elements, e, ElementKeyOf(code)) {
          return false, 0;
        }
        InsertedFinds(elements, code, body, NewElement(code));
        id := elements.next;
        elements := Inserted(elements, code, body, NewElement(code));
      } else {
        id := found.value;
        if elements.rows[id].body != body {
          elements := Rewritten(elements, id, body);
        } else {
          RewriteNothing(elements, id);
        }
      }
      return true, id;
    }

    /** Adds a first version unless the pair has a current mapping; `false` is the database refusing the row. */
    method EnsureMapping(item: int, element: int) returns (ok: bool)
      requires Unique(mappings)
      modifies this`mappings
      ensures ok <==> !Blocked(old(mappings), MappingKey(item, element))
      ensures mappings == if ok then PutMapping(old(mappings), item, element) else old(mappings)
      // refused when a version 1 of the pair is there, but none of its mappings is current
      ensures !ok <==> (exists m :: m in old(mappings).rows && old(mappings).rows[m].key == MappingKey(item, element) &&
                                    old(mappings).rows[m].rest.version == 1) &&
                       (forall m :: m in old(mappings).rows && old(mappings).rows[m].key == MappingKey(item, element)
                                    ==> !old(mappings).rows[m].live)
      // afterwards one is current; a new one is full and a first version
      ensures ok ==> exists m :: m in mappings.rows && mappings.rows[m].live &&
                                 mappings.rows[m].key == MappingKey(item, element)
      ensures forall m :: m in mappings.rows && m !in old(mappings).rows ==>
                mappings.rows[m].body.kind == "full" && mappings.rows[m].rest.version == 1
    {
      var key := MappingKey(item, element);
      BlockedMeans(mappings, key);
      var found := Lookup(mappings, key);
      if found != None {
        assert mappings.rows[found.value].live;
        return true;
      }
      if m :| m in mappings.rows && IsFirst(mappings, m, key) {
        return false;
      }
      ghost var added := mappings.next;
      mappings := Inserted(mappings, key, FULL, FIRST_VERSION);
      assert added in mappings.rows && mappings.rows[added].live;
      return true;
    }

    method DeactivateStaleRequirementItems(d: int, activeCodes: set<string>)
      modifies this`items, this`mappings
      ensures View() == Deactivated(old(View()), d, activeCodes)
    {
      var stale := StaleIds(items, d, activeCodes);
      if stale == {} {
        NothingStale(View(), d, activeCodes);
        return;
      }
      items := Retired(items, k => IsStale(k, d, activeCodes));
      mappings := Retired(mappings, (k: MappingKey) => k.item in stale);
    }

    method ImportPoint(job: Job, d: int, pt: DataPoint, sortOrder: int) returns (ok: bool)
      requires Keyed(View())
      modifies this`items, this`elements, this`mappings
      ensures ok <==> !PointRefused(old(View()), job, d, pt, sortOrder)
      ensures ok ==> View() == PutPoint(old(View()), job, d, pt, sortOrder)
    {
      ok := true;
      var item := UpsertRequirementItem(d, pt, sortOrder);
      if job.withShared {
        var element;
        ok, element := UpsertSharedElement(job, item);
        if ok {
          ok := EnsureMapping(item, element);
        }
      }
    }

    method ImportPoints(job: Job, d: int, points: seq<DataPoint>) returns (ok: bool, activeCodes: set<string>)
      requires Keyed(View())
      modifies this`items, this`elements, this`mappings
      ensures ok <==> !PointsRefused(old(View()), job, d, points, |points|)
      ensures ok ==> View() == PutPoints(old(View()), job, d, points, |points|) && activeCodes == Codes(points)
    {
      ghost var start := View();
      ok, activeCodes := true, {};
      for n := 0 to |points|
        invariant ok && View() == PutPoints(start, job, d, points, n) && !PointsRefused(start, job, d, points, n)
        invariant activeCodes == Codes(points[..n])
      {
        NextPointRefused(start, job, d, points, n);
        OneMoreCode(points, n);
        ok := ImportPoint(job, d, points[n], n + 1);
        if !ok {
          return;
        }
        activeCodes := activeCodes + {points[n].itemCode};
      }
      assert points[..|points|] == points;
    }

    method ImportDisclosure(job: Job, p: Parsed) returns (ok: bool)
      requires Keyed(View())
      modifies this
      ensures ok <==> !OneRefused(old(View()), job, p)
      ensures ok ==> View() == ImportOne(old(View()), job, p)
    {
      UpsertedFinds(disclosures, KeyOfDisclosure(job, p.code), DisclosureBodyOf(job, p), NEW_DISCLOSURE);
      var d := UpsertDisclosure(job, p);
      var activeCodes;
      ok, activeCodes := ImportPoints(job, d, p.points);
      if ok {
        DeactivateStaleRequirementItems(d, activeCodes);
      }
    }

    /** The whole import; `false` is the database refusing a row, after which the caller rolls back. */
    method ImportDocx(job: Job, doc: seq<Parsed>) returns (ok: bool)
      requires Keyed(View())
      modifies this
      ensures ok <==> !Refused(old(View()), job, doc, |doc|)
      ensures ok ==> View() == Import(old(View()), job, doc, |doc|)
      ensures ok && Consistent(old(View())) ==> Consistent(View())
    {
      ghost var start := View();
      ok := true;
      for n := 0 to |doc|
        invariant ok && View() == Import(start, job, doc, n) && !Refused(start, job, doc, n)
      {
        ImportKeyed(start, job, doc, n);
        NextRefused(start, job, doc, n);
        ok := ImportDisclosure(job, doc[n]);
        if !ok {
          return;
        }
      }
      ThroughConsistent(start, job, doc);
    }
  }

  lemma {:induction false} RefusedStays(db: Db, job: Job, d: int, points: seq<DataPoint>, m: nat, n: nat)
    requires m <= n <= |points| && PointsRefused(db, job, d, points, m)
    ensures PointsRefused(db, job, d, points, n)
  {
    if m < n {
      RefusedStays(db, job, d, points, m, n - 1);
    }
  }

  /** The next data point decides; a refusal is final. */
  lemma NextPointRefused(db: Db, job: Job, d: int, points: seq<DataPoint>, n: nat)
    requires Keyed(db) && n < |points| && !PointsRefused(db, job, d, points, n)
    ensures Keyed(PutPoints(db, job, d, points, n))
    ensures var refused := PointRefused(PutPoints(db, job, d, points, n), job, d, points[n], n + 1);
            (PointsRefused(db, job, d, points, n + 1) <==> refused) &&
            (refused ==> PointsRefused(db, job, d, points, |points|))
  {
    PutPointsKeyed(db, job, d, points, n);
    if PointsRefused(db, job, d, points, n + 1) {
      RefusedStays(db, job, d, points, n + 1, |points|);
    }
  }

  lemma OneMoreCode(points: seq<DataPoint>, n: nat)
    requires n < |points|
    ensures Codes(points[..n + 1]) == Codes(points[..n]) + {points[n].itemCode}
  {
    assert points[..n + 1] == points[..n] + [points[n]];
  }

  /** The next disclosure decides; a refusal is final. */
  lemma NextRefused(db: Db, job: Job, doc: seq<Parsed>, n: nat)
    requires n < |doc| && !Refused(db, job, doc, n)
    ensures Refused(db, job, doc, n + 1) <==> OneRefused(Import(db, job, doc, n), job, doc[n])
    ensures OneRefused(Import(db, job, doc, n), job, doc[n]) ==> Refused(db, job, doc, |doc|)
  {
    if Refused(db, job, doc, n + 1) {
      RefusedForGood(db, job, doc, n + 1, |doc|);
    }
  }

  lemma {:induction false} RefusedForGood(db: Db, job: Job, doc: seq<Parsed>, m: nat, n: nat)
    requires m <= n <= |doc| && Refused(db, job, doc, m)
    ensures Refused(db, job, doc, n)
  {
    if m < n {
      RefusedForGood(db, job, doc, m, n - 1);
    }
  }

  lemma NothingStale(db: Db, d: int, codes: set<string>)
    requires forall i :: i !in StaleIds(db.items, d, codes)
    ensures Deactivated(db, d, codes) == db
  {
    var after := Deactivated(db, d, codes);
    assert forall i :: i in db.items.rows ==> i !in StaleIds(db.items, d, codes);
    assert after.items.rows == db.items.rows;
    assert after.mappings.rows == db.mappings.rows;
  }
}
