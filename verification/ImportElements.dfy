/** What an import does to shared elements: which are there, and when the unique index on their keys refuses one. */
module ImportElements {
  import opened Prelude
  import opened CatalogKeys
  import opened KeyedTable
  import opened CatalogImport

  /** A code that the import gives to elements. */
  ghost predicate IsShared(code: string) {
    exists x: Slug :: code == "SE-" + x
  }

  /** Elements of the start are still there under their keys, and any other one
   * has a code of the import's and its key. */
  ghost predicate ElementsFollow(start: Elements, t: Elements) {
    && start.next <= t.next
    && (forall e :: e in start.rows ==>
          && e in t.rows && t.rows[e].key == start.rows[e].key && t.rows[e].rest == start.rows[e].rest
          && t.rows[e].live == start.rows[e].live)
    && (forall e :: e in t.rows && e !in start.rows ==>
          start.next <= e < t.next && t.rows[e].live && IsShared(t.rows[e].key) &&
          t.rows[e].rest == NewElement(t.rows[e].key))
  }

  lemma PutElementFollows(start: Elements, t: Elements, job: Job, pt: DataPoint, sortOrder: int)
    requires Unique(t) && ElementsFollow(start, t)
    ensures ElementsFollow(start, PutElement(t, job, pt, sortOrder))
  {
    assert IsShared(SharedCode(job, pt.itemCode));
  }

  lemma SameKeySameCode(a: string, b: string)
    requires IsShared(a) && IsShared(b) && ElementKeyOf(a) == ElementKeyOf(b)
    ensures a == b
  {
    var x: Slug :| a == "SE-" + x;
    var y: Slug :| b == "SE-" + y;
    SlugKeysDiffer(x, y);
  }

  /** A key that is taken was taken at the start: the elements made since have their codes. */
  lemma TakenBefore(start: Elements, t: Elements, code: string)
    requires ElementsFollow(start, t) && IsShared(code) && KeyTaken(t, code)
    ensures KeyTaken(start, code)
  {
    if Find(start, code).Some? {
      assert Holds(t, Find(start, code).value, code);
    }
    var e :| HoldsKey(t, e, ElementKeyOf(code));
    if e in start.rows {
      assert HoldsKey(start, e, ElementKeyOf(code));
    } else {
      SameKeySameCode(t.rows[e].key, code);
      assert Holds(t, e, code);
    }
  }

  // ---------- a taken key is refused when its code is listed ----------

  lemma PutElementKeepsTaken(t: Elements, job: Job, pt: DataPoint, sortOrder: int, code: string)
    requires Unique(t) && KeyTaken(t, code) && SharedCode(job, pt.itemCode) != code
    ensures KeyTaken(PutElement(t, job, pt, sortOrder), code)
  {
    var shared := SharedCode(job, pt.itemCode);
    UpsertedFinds(t, shared, ElementBodyOf(job, ItemBodyOf(pt, sortOrder)), NewElement(shared));
    var e :| HoldsKey(t, e, ElementKeyOf(code));
    assert HoldsKey(PutElement(t, job, pt, sortOrder), e, ElementKeyOf(code));
  }

  lemma {:induction false} PointsKeepTaken(db: Db, job: Job, d: int, points: seq<DataPoint>, n: nat, code: string)
    requires Keyed(db) && n <= |points| && KeyTaken(db.elements, code)
    ensures PointsRefused(db, job, d, points, n) || KeyTaken(PutPoints(db, job, d, points, n).elements, code)
  {
    if n > 0 {
      PointsKeepTaken(db, job, d, points, n - 1, code);
      if !PointsRefused(db, job, d, points, n) {
        PutPointsKeyed(db, job, d, points, n - 1);
        if job.withShared {
          PutElementKeepsTaken(PutPoints(db, job, d, points, n - 1).elements, job, points[n - 1], n, code);
        }
      }
    }
  }

  lemma {:induction false} ImportKeepsTaken(db: Db, job: Job, doc: seq<Parsed>, n: nat, code: string)
    requires Keyed(db) && n <= |doc| && KeyTaken(db.elements, code)
    ensures Refused(db, job, doc, n) || KeyTaken(Import(db, job, doc, n).elements, code)
  {
    if n > 0 {
      ImportKeepsTaken(db, job, doc, n - 1, code);
      if !Refused(db, job, doc, n - 1) {
        ImportKeyed(db, job, doc, n - 1);
        OneKeepsTaken(Import(db, job, doc, n - 1), job, doc[n - 1], code);
      }
    }
  }

  lemma OneKeepsTaken(db: Db, job: Job, p: Parsed, code: string)
    requires Keyed(db) && KeyTaken(db.elements, code)
    ensures OneRefused(db, job, p) || KeyTaken(ImportOne(db, job, p).elements, code)
  {
    var key := KeyOfDisclosure(job, p.code);
    UpsertedFinds(db.disclosures, key, DisclosureBodyOf(job, p), NEW_DISCLOSURE);
    var disclosures := PutDisclosure(db.disclosures, job, p);
    PointsKeepTaken(db.(disclosures := disclosures), job, IdOf(disclosures, key), p.points, |p.points|, code);
  }

  lemma TakenIsRefused(db: Db, job: Job, p: Parsed, i: nat)
    requires Keyed(db) && job.withShared && i < |p.points| &&
             KeyTaken(db.elements, SharedCode(job, p.points[i].itemCode))
    ensures OneRefused(db, job, p)
  {
    var key := KeyOfDisclosure(job, p.code);
    UpsertedFinds(db.disclosures, key, DisclosureBodyOf(job, p), NEW_DISCLOSURE);
    var disclosures := PutDisclosure(db.disclosures, job, p);
    var entered, d := db.(disclosures := disclosures), IdOf(disclosures, key);
    PointsKeepTaken(entered, job, d, p.points, i, SharedCode(job, p.points[i].itemCode));
    RefusedStays(entered, job, d, p.points, i + 1, |p.points|);
  }

  /** Some listed item's shared element is not there, but its key is. */
  ghost predicate ListsTaken(db: Db, job: Job, doc: seq<Parsed>) {
    job.withShared &&
    exists n, i :: 0 <= n < |doc| && 0 <= i < |doc[n].points| &&
      KeyTaken(db.elements, SharedCode(job, doc[n].points[i].itemCode))
  }

  lemma ListsTakenRefuses(start: Db, job: Job, doc: seq<Parsed>)
    requires Keyed(start) && ListsTaken(start, job, doc)
    ensures Refused(start, job, doc, |doc|)
  {
    var n, i :| 0 <= n < |doc| && 0 <= i < |doc[n].points| &&
                KeyTaken(start.elements, SharedCode(job, doc[n].points[i].itemCode));
    ImportKeepsTaken(start, job, doc, n, SharedCode(job, doc[n].points[i].itemCode));
    if !Refused(start, job, doc, n) {
      ImportKeyed(start, job, doc, n);
      TakenIsRefused(Import(start, job, doc, n), job, doc[n], i);
    }
    RefusedForGood(start, job, doc, if Refused(start, job, doc, n) then n else n + 1, |doc|);
  }

  // ---------- after an import every listed element is there ----------

  ghost predicate HasElement(db: Db, code: string) {
    Find(db.elements, code).Some?
  }

  lemma PointMakesElement(db: Db, job: Job, d: int, pt: DataPoint, sortOrder: int)
    requires Keyed(db)
    ensures job.withShared ==> HasElement(PutPoint(db, job, d, pt, sortOrder), SharedCode(job, pt.itemCode))
    ensures forall code :: HasElement(db, code) ==> HasElement(PutPoint(db, job, d, pt, sortOrder), code)
  {
    var shared := SharedCode(job, pt.itemCode);
    UpsertedFinds(db.elements, shared, ElementBodyOf(job, ItemBodyOf(pt, sortOrder)), NewElement(shared));
  }

  lemma {:induction false} PointsKeepElement(db: Db, job: Job, d: int, points: seq<DataPoint>, n: nat, code: string)
    requires Keyed(db) && n <= |points| && HasElement(db, code)
    ensures HasElement(PutPoints(db, job, d, points, n), code)
  {
    if n > 0 {
      PutPointsKeyed(db, job, d, points, n - 1);
      PointsKeepElement(db, job, d, points, n - 1, code);
      PointMakesElement(PutPoints(db, job, d, points, n - 1), job, d, points[n - 1], n);
    }
  }

  lemma {:induction false} PointsMakeElement(db: Db, job: Job, d: int, points: seq<DataPoint>, n: nat, i: nat)
    requires Keyed(db) && job.withShared && i < n <= |points|
    ensures HasElement(PutPoints(db, job, d, points, n), SharedCode(job, points[i].itemCode))
  {
    PutPointsKeyed(db, job, d, points, n - 1);
    PointMakesElement(PutPoints(db, job, d, points, n - 1), job, d, points[n - 1], n);
    if i < n - 1 {
      PointsMakeElement(db, job, d, points, n - 1, i);
    }
  }

  lemma OneKeepsElement(db: Db, job: Job, p: Parsed, code: string)
    requires Keyed(db) && HasElement(db, code)
    ensures HasElement(ImportOne(db, job, p), code)
  {
    var key := KeyOfDisclosure(job, p.code);
    UpsertedFinds(db.disclosures, key, DisclosureBodyOf(job, p), NEW_DISCLOSURE);
    var disclosures := PutDisclosure(db.disclosures, job, p);
    PointsKeepElement(db.(disclosures := disclosures), job, IdOf(disclosures, key), p.points, |p.points|, code);
  }

  lemma OneMakesElement(db: Db, job: Job, p: Parsed, i: nat)
    requires Keyed(db) && job.withShared && i < |p.points|
    ensures HasElement(ImportOne(db, job, p), SharedCode(job, p.points[i].itemCode))
  {
    var key := KeyOfDisclosure(job, p.code);
    UpsertedFinds(db.disclosures, key, DisclosureBodyOf(job, p), NEW_DISCLOSURE);
    var disclosures := PutDisclosure(db.disclosures, job, p);
    PointsMakeElement(db.(disclosures := disclosures), job, IdOf(disclosures, key), p.points, |p.points|, i);
  }

  lemma {:induction false} ImportMakesElements(db: Db, job: Job, doc: seq<Parsed>, n: nat, j: nat, i: nat)
    requires Keyed(db) && job.withShared && j < n <= |doc| && i < |doc[j].points|
    ensures HasElement(Import(db, job, doc, n), SharedCode(job, doc[j].points[i].itemCode))
  {
    ImportKeyed(db, job, doc, n - 1);
    if j == n - 1 {
      OneMakesElement(Import(db, job, doc, n - 1), job, doc[n - 1], i);
    } else {
      ImportMakesElements(db, job, doc, n - 1, j, i);
      OneKeepsElement(Import(db, job, doc, n - 1), job, doc[n - 1], SharedCode(job, doc[j].points[i].itemCode));
    }
  }

  lemma NothingTakenAfter(db: Db, job: Job, doc: seq<Parsed>)
    requires Keyed(db)
    ensures !ListsTaken(Import(db, job, doc, |doc|), job, doc)
  {
    forall n: nat, i: nat | job.withShared && n < |doc| && i < |doc[n].points|
      ensures !KeyTaken(Import(db, job, doc, |doc|).elements, SharedCode(job, doc[n].points[i].itemCode))
    {
      ImportMakesElements(db, job, doc, |doc|, n, i);
    }
  }
}
