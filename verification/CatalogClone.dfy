/**
 Copying the current requirement items of one disclosure to another, with their parent links,
 shared-element mappings and dependencies. Tables are maps from row id to row; a query enumerates
 the ids of the rows it selects, in some order. Rows are matched by item key.
 */
module CatalogClone {
  import opened Prelude
  import Decimal

  datatype Details = Details(
    description: Option<string>, itemType: string, valueType: string, unitCode: Option<string>,
    isRequired: bool, requiresEvidence: bool, cardinalityMin: int, cardinalityMax: Option<int>,
    granularityRule: Option<string>, validationRule: Option<string>,
    version: int, validFrom: Option<int>, validTo: Option<int>)

  /** `catalogKey` is the one column that the copy does not carry over. */
  datatype Item = Item(
    disclosure: int, parent: Option<int>, code: Option<string>, name: string, sortOrder: int,
    isCurrent: bool, details: Details, catalogKey: Option<string>)

  datatype Mapping = Mapping(
    item: int, element: int, kind: string, version: int, isCurrent: bool, validFrom: Option<int>, validTo: Option<int>)

  datatype Dependency = Dependency(item: int, dependsOn: int, kind: string, condition: Option<string>)

  type Items = map<int, Item>
  type Mappings = map<int, Mapping>
  type Dependencies = map<int, Dependency>

  function ItemKey(item: Item): string {
    if item.code.Some? && item.code.value != "" then item.code.value
    else "name::" + Decimal.OfInt(item.sortOrder) + "::" + item.name
  }

  function CurrentItems(items: Items, disclosure: int): set<int> {
    set i | i in items && items[i].disclosure == disclosure && items[i].isCurrent
  }

  ghost predicate KeysDistinct(items: Items, disclosure: int) {
    forall i, j ::
      (i in CurrentItems(items, disclosure) && j in CurrentItems(items, disclosure) &&
       ItemKey(items[i]) == ItemKey(items[j]))
      ==> i == j
  }

  // ---------- what a clone is ----------

  function Image(m: map<int, int>, id: Option<int>): Option<int> {
    if id.Some? && id.value in m then Some(m[id.value]) else None
  }

  function Copies(m: map<int, int>): set<int> {
    set s | s in m :: m[s]
  }

  /** The row that the copy of `source` must be: everything but the owner, the parent and the catalog key. */
  function CopyOf(source: Item, target: int, parent: Option<int>, catalogKey: Option<string>): Item {
    source.(disclosure := target, parent := parent, catalogKey := catalogKey)
  }

  function KeptCatalogKey(before: Items, id: int): Option<string> {
    if id in before then before[id].catalogKey else None
  }

  /** `m` sends each current source item to a current target item, reusing the one with the same key if there is one. */
  ghost predicate MatchesByKey(before: Items, src: int, tgt: int, m: map<int, int>) {
    && m.Keys == CurrentItems(before, src)
    && (forall s, t :: s in m && t in CurrentItems(before, tgt) && ItemKey(before[t]) == ItemKey(before[s]) ==>
         m[s] == t)
    && (forall s :: s in m && m[s] in before ==>
         m[s] in CurrentItems(before, tgt) && ItemKey(before[m[s]]) == ItemKey(before[s]))
    && (forall s, s' :: s in m && s' in m && m[s] == m[s'] ==> s == s')
  }

  ghost predicate ItemsCloned(before: Items, after: Items, src: int, tgt: int, m: map<int, int>) {
    && MatchesByKey(before, src, tgt, m)
    && (forall s :: s in m ==>
          m[s] in after &&
          after[m[s]] == CopyOf(before[s], tgt, Image(m, before[s].parent), KeptCatalogKey(before, m[s])))
    && (forall i :: i in before && i !in Copies(m) ==> i in after && after[i] == before[i])
    && (forall i :: i in after && i !in before ==> i in Copies(m))
  }

  predicate SameTriple(a: Mapping, item: int, element: int, version: int) {
    a.item == item && a.element == element && a.version == version
  }

  predicate HasTriple(mappings: Mappings, item: int, element: int, version: int) {
    exists y :: y in mappings && SameTriple(mappings[y], item, element, version)
  }

  ghost predicate MappingsCloned(before: Mappings, after: Mappings, m: map<int, int>) {
    && (forall x :: x in before ==> x in after && after[x] == before[x])
    && (forall x :: x in before && before[x].isCurrent && before[x].item in m ==>
          HasTriple(after, m[before[x].item], before[x].element, before[x].version))
    && (forall y :: y in after && y !in before ==>
          !HasTriple(before, after[y].item, after[y].element, after[y].version) &&
          exists x :: x in before && before[x].isCurrent && before[x].item in m &&
                      after[y] == before[x].(item := m[before[x].item]))
  }

  predicate SameEdge(d: Dependency, item: int, dependsOn: int, kind: string) {
    d.item == item && d.dependsOn == dependsOn && d.kind == kind
  }

  predicate HasEdge(dependencies: Dependencies, item: int, dependsOn: int, kind: string) {
    exists y :: y in dependencies && SameEdge(dependencies[y], item, dependsOn, kind)
  }

  predicate Internal(d: Dependency, m: map<int, int>) {
    d.item in m && d.dependsOn in m
  }

  ghost predicate DependenciesCloned(before: Dependencies, after: Dependencies, m: map<int, int>) {
    && (forall x :: x in before ==> x in after && after[x] == before[x])
    && (forall x :: x in before && Internal(before[x], m) ==>
          HasEdge(after, m[before[x].item], m[before[x].dependsOn], before[x].kind))
    && (forall y :: y in after && y !in before ==>
          !HasEdge(before, after[y].item, after[y].dependsOn, after[y].kind) &&
          exists x :: x in before && Internal(before[x], m) &&
                      after[y] == before[x].(item := m[before[x].item], dependsOn := m[before[x].dependsOn]))
  }

  datatype Tables = Tables(items: Items, mappings: Mappings, dependencies: Dependencies)

  ghost predicate Cloned(before: Tables, after: Tables, src: int, tgt: int, m: map<int, int>) {
    && ItemsCloned(before.items, after.items, src, tgt, m)
    && MappingsCloned(before.mappings, after.mappings, m)
    && DependenciesCloned(before.dependencies, after.dependencies, m)
  }

  // ---------- table constraints ----------

  predicate BothCurrent(a: Mapping, b: Mapping) {
    a.isCurrent && b.isCurrent && a.item == b.item && a.element == b.element
  }

  /** Unique (item, element, version); unique (item, element) among current rows. */
  ghost predicate MappingsUnique(mappings: Mappings) {
    && (forall x, y ::
          (x in mappings && y in mappings &&
           SameTriple(mappings[x], mappings[y].item, mappings[y].element, mappings[y].version))
          ==> x == y)
    && (forall x, y :: x in mappings && y in mappings && BothCurrent(mappings[x], mappings[y]) ==> x == y)
  }

  ghost predicate DependenciesUnique(dependencies: Dependencies) {
    forall x, y ::
      (x in dependencies && y in dependencies &&
       SameEdge(dependencies[x], dependencies[y].item, dependencies[y].dependsOn, dependencies[y].kind))
      ==> x == y
  }

  ghost predicate ReferencesHold(t: Tables) {
    && (forall x :: x in t.mappings ==> t.mappings[x].item in t.items)
    && (forall x :: x in t.dependencies ==> t.dependencies[x].item in t.items && t.dependencies[x].dependsOn in t.items)
  }

  /**
   A current source mapping whose copy the unique index on current (item, element) refuses: the target
   item already has a current mapping of that element, and no row of the copied version.
   */
  ghost predicate Clashes(t: Tables, src: int, tgt: int) {
    exists x, z :: x in t.mappings && z in t.mappings && ClashingPair(t, src, tgt, t.mappings[x], t.mappings[z])
  }

  ghost predicate ClashingPair(t: Tables, src: int, tgt: int, source: Mapping, target: Mapping) {
    && source.isCurrent && target.isCurrent && source.element == target.element
    && source.item in CurrentItems(t.items, src) && target.item in CurrentItems(t.items, tgt)
    && ItemKey(t.items[source.item]) == ItemKey(t.items[target.item])
    && !HasTriple(t.mappings, target.item, source.element, source.version)
  }

  const PLAIN := Details(None, "metric", "number", None, true, false, 0, None, None, None, 1, None, None)

  function Plain(disclosure: int): Item {
    Item(disclosure, None, Some("305-1-a"), "Gross emissions", 1, true, PLAIN, None)
  }

  function MappingOf(item: int, version: int): Mapping {
    Mapping(item, 1, "full", version, true, None, None)
  }

  /** One item with one code on either side, mapped to one element in different versions: the copy is refused. */
  lemma ClashHappens()
    ensures var t := Tables(map[1 := Plain(1), 2 := Plain(2)], map[1 := MappingOf(1, 1), 2 := MappingOf(2, 2)], map[]);
            && MappingsUnique(t.mappings) && DependenciesUnique(t.dependencies) && ReferencesHold(t)
            && KeysDistinct(t.items, 1) && KeysDistinct(t.items, 2)
            && Clashes(t, 1, 2)
  {
    var t := Tables(map[1 := Plain(1), 2 := Plain(2)], map[1 := MappingOf(1, 1), 2 := MappingOf(2, 2)], map[]);
    assert ClashingPair(t, 1, 2, t.mappings[1], t.mappings[2]);
  }

  // ---------- running the copy again ----------

  lemma CopyKeepsKey(source: Item, tgt: int, parent: Option<int>, catalogKey: Option<string>)
    ensures ItemKey(CopyOf(source, tgt, parent, catalogKey)) == ItemKey(source)
  {
  }

  /** The source rows are untouched, except that inside one disclosure a parent outside it is cut. */
  lemma SourceAfterClone(before: Items, after: Items, src: int, tgt: int, m: map<int, int>, s: int)
    requires ItemsCloned(before, after, src, tgt, m) && KeysDistinct(before, src)
    requires s in m
    ensures s in after && after[s] == before[s].(parent := after[s].parent)
    ensures Image(m, after[s].parent) == Image(m, before[s].parent)
    ensures s in CurrentItems(after, src)
  {
    if s in Copies(m) {
      var s' :| s' in m && m[s'] == s;
      assert ItemKey(before[s]) == ItemKey(before[s']);
      assert src == tgt && s' == s;
      assert m[s] == s;
      var p := before[s].parent;
      if p.Some? && p.value in m {
        assert p.value in CurrentItems(before, tgt);
        assert m[p.value] == p.value;
      }
    }
  }

  lemma SourceNotCopied(before: Items, src: int, tgt: int, m: map<int, int>, i: int)
    requires MatchesByKey(before, src, tgt, m) && src != tgt
    requires i in CurrentItems(before, src)
    ensures i !in Copies(m)
  {
  }

  lemma CurrentItemsAfterClone(before: Items, after: Items, src: int, tgt: int, m: map<int, int>)
    requires ItemsCloned(before, after, src, tgt, m) && KeysDistinct(before, src)
    ensures CurrentItems(after, src) == CurrentItems(before, src) + if src == tgt then Copies(m) else {}
    ensures CurrentItems(after, tgt) == CurrentItems(before, tgt) + Copies(m)
  {
    forall i ensures i in CurrentItems(after, tgt) <==> i in CurrentItems(before, tgt) || i in Copies(m) {
      if i in Copies(m) {
        var s :| s in m && m[s] == i;
        assert s in CurrentItems(before, src);
      }
    }
    forall i | src != tgt ensures i in CurrentItems(after, src) <==> i in CurrentItems(before, src) {
      if i in Copies(m) {
        var s :| s in m && m[s] == i;
        assert i in before ==> i in CurrentItems(before, tgt);
      }
    }
  }

  /** The keys stay distinct on both sides, so the copy can be run again. */
  lemma KeysStayDistinct(before: Items, after: Items, src: int, tgt: int, m: map<int, int>)
    requires ItemsCloned(before, after, src, tgt, m)
    requires KeysDistinct(before, src) && KeysDistinct(before, tgt)
    ensures KeysDistinct(after, src) && KeysDistinct(after, tgt)
  {
    CurrentItemsAfterClone(before, after, src, tgt, m);
    forall i, j | i in CurrentItems(after, tgt) && j in CurrentItems(after, tgt) &&
      ItemKey(after[i]) == ItemKey(after[j])
      ensures i == j
    {
      if i in Copies(m) && j in Copies(m) {
        var s :| s in m && m[s] == i;
        var r :| r in m && m[r] == j;
        assert ItemKey(before[s]) == ItemKey(before[r]);
      }
    }
    if src != tgt {
      forall i | i in CurrentItems(after, src) ensures after[i] == before[i] {
        SourceNotCopied(before, src, tgt, m, i);
      }
    }
  }

  lemma SecondMatch(before: Items, after: Items, src: int, tgt: int, m: map<int, int>, m2: map<int, int>)
    requires ItemsCloned(before, after, src, tgt, m)
    requires KeysDistinct(before, src) && KeysDistinct(before, tgt)
    requires MatchesByKey(after, src, tgt, m2)
    ensures m2 == m
  {
    CurrentItemsAfterClone(before, after, src, tgt, m);
    if src == tgt {
      forall s | s in m ensures m[s] == s {
        assert s in CurrentItems(before, tgt);
      }
    }
    assert m2.Keys == m.Keys;
    forall s | s in m ensures m2[s] == m[s] {
      SourceAfterClone(before, after, src, tgt, m, s);
      assert m[s] in Copies(m);
      assert m[s] in CurrentItems(after, tgt);
      assert ItemKey(after[m[s]]) == ItemKey(before[s]) == ItemKey(after[s]);
    }
  }

  lemma SecondItems(before: Items, after: Items, again: Items, src: int, tgt: int, m: map<int, int>, m2: map<int, int>)
    requires ItemsCloned(before, after, src, tgt, m) && ItemsCloned(after, again, src, tgt, m2)
    requires KeysDistinct(before, src) && KeysDistinct(before, tgt)
    ensures m2 == m && again == after
  {
    SecondMatch(before, after, src, tgt, m, m2);
    forall i | i in after ensures i in again && again[i] == after[i] {
      if i in Copies(m) {
        var s :| s in m && m[s] == i;
        SourceAfterClone(before, after, src, tgt, m, s);
      }
    }
    assert forall k :: k in after <==> k in again;
    assert forall k :: k in after ==> again[k] == after[k];
  }

  lemma SecondMappings(before: Mappings, after: Mappings, again: Mappings, m: map<int, int>)
    requires MappingsCloned(before, after, m) && MappingsCloned(after, again, m)
    requires forall x :: x in after && x !in before && after[x].item in m ==>
               HasTriple(after, m[after[x].item], after[x].element, after[x].version)
    ensures again == after
  {
    forall x | x in after && after[x].isCurrent && after[x].item in m
      ensures HasTriple(after, m[after[x].item], after[x].element, after[x].version)
    {
      assert x in before ==> after[x] == before[x];
    }
    assert forall k :: k in after <==> k in again;
    assert forall k :: k in after ==> again[k] == after[k];
  }

  lemma SecondDependencies(before: Dependencies, after: Dependencies, again: Dependencies, m: map<int, int>)
    requires DependenciesCloned(before, after, m) && DependenciesCloned(after, again, m)
    requires forall x :: x in after && x !in before && Internal(after[x], m) ==>
               HasEdge(after, m[after[x].item], m[after[x].dependsOn], after[x].kind)
    ensures again == after
  {
    forall x | x in after && Internal(after[x], m)
      ensures HasEdge(after, m[after[x].item], m[after[x].dependsOn], after[x].kind)
    {
      assert x in before ==> after[x] == before[x];
    }
    assert forall k :: k in after <==> k in again;
    assert forall k :: k in after ==> again[k] == after[k];
  }

  /** In one disclosure a row is its own image; in two, no copy lands on a source item. */
  lemma CopiesAreSettled(before: Items, src: int, tgt: int, m: map<int, int>, s: int)
    requires MatchesByKey(before, src, tgt, m) && s in m
    requires m[s] in m
    ensures m[m[s]] == m[s]
  {
    assert m[s] in CurrentItems(before, src);
    assert src == tgt;
  }

  /** Idempotence: a second copy changes no row and creates none. */
  lemma CloneAgainIsIdentity(before: Tables, after: Tables, again: Tables, src: int, tgt: int, m: map<int, int>,
                             m2: map<int, int>)
    requires Cloned(before, after, src, tgt, m) && Cloned(after, again, src, tgt, m2)
    requires KeysDistinct(before.items, src) && KeysDistinct(before.items, tgt)
    ensures m2 == m && again == after
  {
    SecondItems(before.items, after.items, again.items, src, tgt, m, m2);
    forall x | x in after.mappings && x !in before.mappings && after.mappings[x].item in m
      ensures HasTriple(after.mappings, m[after.mappings[x].item], after.mappings[x].element, after.mappings[x].version)
    {
      var w :| w in before.mappings && before.mappings[w].isCurrent && before.mappings[w].item in m &&
               after.mappings[x] == before.mappings[w].(item := m[before.mappings[w].item]);
      CopiesAreSettled(before.items, src, tgt, m, before.mappings[w].item);
      assert SameTriple(after.mappings[x], m[after.mappings[x].item], after.mappings[x].element,
                        after.mappings[x].version);
    }
    SecondMappings(before.mappings, after.mappings, again.mappings, m);
    forall x | x in after.dependencies && x !in before.dependencies && Internal(after.dependencies[x], m)
      ensures HasEdge(after.dependencies, m[after.dependencies[x].item], m[after.dependencies[x].dependsOn],
                      after.dependencies[x].kind)
    {
      var w :| w in before.dependencies && Internal(before.dependencies[w], m) &&
               after.dependencies[x] ==
               before.dependencies[w].(item := m[before.dependencies[w].item],
                                       dependsOn := m[before.dependencies[w].dependsOn]);
      CopiesAreSettled(before.items, src, tgt, m, before.dependencies[w].item);
      CopiesAreSettled(before.items, src, tgt, m, before.dependencies[w].dependsOn);
      assert SameEdge(after.dependencies[x], m[after.dependencies[x].item], m[after.dependencies[x].dependsOn],
                      after.dependencies[x].kind);
    }
    SecondDependencies(before.dependencies, after.dependencies, again.dependencies, m);
  }

  /** After a copy nothing clashes, so the second copy is not refused. */
  lemma SecondCopyNotRefused(before: Tables, after: Tables, src: int, tgt: int, m: map<int, int>)
    requires Cloned(before, after, src, tgt, m)
    requires KeysDistinct(before.items, src) && KeysDistinct(before.items, tgt)
    ensures !Clashes(after, src, tgt)
  {
    CurrentItemsAfterClone(before.items, after.items, src, tgt, m);
    KeysStayDistinct(before.items, after.items, src, tgt, m);
    forall x, z | x in after.mappings && z in after.mappings
      ensures !ClashingPair(after, src, tgt, after.mappings[x], after.mappings[z])
    {
      var s := after.mappings[x].item;
      if after.mappings[x].isCurrent && s in m {
        SourceAfterClone(before.items, after.items, src, tgt, m, s);
        CopyExists(before, after, src, tgt, m, x);
        assert m[s] in Copies(m) && ItemKey(after.items[m[s]]) == ItemKey(after.items[s]);
      } else if src == tgt {
        OwnImages(before.items, src, m);
      }
    }
  }

  lemma OwnImages(before: Items, src: int, m: map<int, int>)
    requires MatchesByKey(before, src, src, m)
    ensures forall s :: s in m ==> m[s] == s
    ensures Copies(m) == CurrentItems(before, src)
  {
  }

  lemma CopyExists(before: Tables, after: Tables, src: int, tgt: int, m: map<int, int>, x: int)
    requires Cloned(before, after, src, tgt, m)
    requires x in after.mappings && after.mappings[x].isCurrent && after.mappings[x].item in m
    ensures HasTriple(after.mappings, m[after.mappings[x].item], after.mappings[x].element, after.mappings[x].version)
  {
    if x in before.mappings {
      assert after.mappings[x] == before.mappings[x];
    } else {
      var w :| w in before.mappings && before.mappings[w].isCurrent && before.mappings[w].item in m &&
               after.mappings[x] == before.mappings[w].(item := m[before.mappings[w].item]);
      CopiesAreSettled(before.items, src, tgt, m, before.mappings[w].item);
      assert SameTriple(after.mappings[x], m[after.mappings[x].item], after.mappings[x].element,
                        after.mappings[x].version);
    }
  }

  // ---------- the tables in the session ----------

  /** Copies of sources with equal keys coincide, and no others do. */
  ghost predicate MergesEqualKeys(before: Items, m: map<int, int>)
    requires forall s :: s in m ==> s in before
  {
    forall s, s' :: s in m && s' in m ==> (m[s] == m[s'] <==> ItemKey(before[s]) == ItemKey(before[s']))
  }

  /** Copied but not yet linked: parents are still those the target rows had. */
  ghost predicate ContentCopied(before: Items, after: Items, src: int, tgt: int, m: map<int, int>) {
    && MatchesByKey(before, src, tgt, m)
    && (forall s :: s in m ==>
          m[s] in after &&
          after[m[s]] == CopyOf(before[s], tgt, KeptParent(before, m[s]), KeptCatalogKey(before, m[s])))
    && (forall i :: i in before && i !in Copies(m) ==> i in after && after[i] == before[i])
    && (forall i :: i in after && i !in before ==> i in Copies(m))
  }

  function KeptParent(before: Items, id: int): Option<int> {
    if id in before then before[id].parent else None
  }

  lemma SourceUntouched(before: Items, after: Items, src: int, tgt: int, m: map<int, int>, s: int)
    requires ContentCopied(before, after, src, tgt, m) && KeysDistinct(before, src) && s in m
    ensures s in after && after[s] == before[s]
  {
    if s in Copies(m) {
      var s' :| s' in m && m[s'] == s;
      assert ItemKey(before[s]) == ItemKey(before[s']);
    }
  }

  // ---------- one round of the copying loop ----------

  /** Every key leads to a current target item with that key. */
  ghost predicate IndexHolds(items: Items, tgt: int, byKey: map<string, int>) {
    forall k :: k in byKey ==> byKey[k] in CurrentItems(items, tgt) && ItemKey(items[byKey[k]]) == k
  }

  /** No row is lost, and none changes its owner, currency or key. */
  ghost predicate RowsKept(before: Items, items: Items) {
    forall t :: t in before ==>
      && t in items && items[t].disclosure == before[t].disclosure && items[t].isCurrent == before[t].isCurrent
      && ItemKey(items[t]) == ItemKey(before[t])
  }

  ghost predicate MappedByKey(before: Items, m: map<int, int>, byKey: map<string, int>) {
    && (forall s :: s in m ==> s in before && ItemKey(before[s]) in byKey && byKey[ItemKey(before[s])] == m[s])
    && (forall k :: k in byKey ==> byKey[k] in before || byKey[k] in Copies(m))
  }

  ghost predicate TargetsFound(before: Items, tgt: int, byKey: map<string, int>) {
    forall t :: t in CurrentItems(before, tgt) ==> ItemKey(before[t]) in byKey && byKey[ItemKey(before[t])] == t
  }

  /** What is true of the rows when keys are distinct on both sides. */
  ghost predicate CopiedSoFar(before: Items, items: Items, src: int, tgt: int, m: map<int, int>) {
    && (forall s :: s in m ==>
          s in before && m[s] in items &&
          items[m[s]] == CopyOf(before[s], tgt, KeptParent(before, m[s]), KeptCatalogKey(before, m[s])))
    && (forall t :: t in before && t !in Copies(m) ==> t in items && items[t] == before[t])
    && (forall s :: s in CurrentItems(before, src) ==> s in items && items[s] == before[s])
  }

  lemma CopiesGrow(m: map<int, int>, s: int, target: int)
    requires s !in m
    ensures Copies(m[s := target]) == Copies(m) + {target}
  {
    var longer := m[s := target];
    forall x ensures x in Copies(longer) <==> x in Copies(m) || x == target {
      if x in Copies(m) {
        var r :| r in m && m[r] == x;
        assert longer[r] == x;
      }
      if x == target {
        assert longer[s] == x;
      }
    }
  }

  function TargetFor(byKey: map<string, int>, key: string, newId: int): int {
    if key in byKey then byKey[key] else newId
  }

  function RowFor(items: Items, s: int, tgt: int, target: int): Item
    requires s in items
  {
    CopyOf(items[s], tgt, KeptParent(items, target), KeptCatalogKey(items, target))
  }

  lemma RoundKeepsIndex(before: Items, items: Items, tgt: int, byKey: map<string, int>, s: int, target: int)
    requires IndexHolds(items, tgt, byKey) && RowsKept(before, items)
    requires s in before && before[s].isCurrent
    requires if ItemKey(items[s]) in byKey then target == byKey[ItemKey(items[s])] else target !in items
    ensures var after := items[target := RowFor(items, s, tgt, target)];
            IndexHolds(after, tgt, byKey[ItemKey(items[s]) := target]) && RowsKept(before, after)
  {
    CopyKeepsKey(items[s], tgt, KeptParent(items, target), KeptCatalogKey(items, target));
  }

  lemma RoundKeepsMatches(before: Items, m: map<int, int>, byKey: map<string, int>, s: int, target: int)
    requires MappedByKey(before, m, byKey) && s in before && s !in m
    requires ItemKey(before[s]) in byKey ==> target == byKey[ItemKey(before[s])]
    ensures MappedByKey(before, m[s := target], byKey[ItemKey(before[s]) := target])
  {
    CopiesGrow(m, s, target);
  }

  /** With distinct source keys, the target of one more source is nobody else's. */
  lemma TargetIsNew(before: Items, items: Items, src: int, tgt: int, m: map<int, int>, byKey: map<string, int>,
                    s: int, newId: int)
    requires IndexHolds(items, tgt, byKey) && RowsKept(before, items) && MappedByKey(before, m, byKey)
    requires KeysDistinct(before, src) && m.Keys <= CurrentItems(before, src)
    requires s in CurrentItems(before, src) && s !in m && newId !in items
    ensures TargetFor(byKey, ItemKey(items[s]), newId) !in Copies(m)
  {
    var target := TargetFor(byKey, ItemKey(items[s]), newId);
    forall r | r in m ensures m[r] != target {
      assert ItemKey(before[r]) != ItemKey(before[s]);
      assert ItemKey(items[m[r]]) == ItemKey(before[r]);
    }
  }

  lemma RoundKeepsCopies(before: Items, items: Items, src: int, tgt: int, m: map<int, int>, s: int, target: int)
    requires CopiedSoFar(before, items, src, tgt, m) && RowsKept(before, items)
    requires s in CurrentItems(before, src) && s !in m && target !in Copies(m)
    requires target in before || target !in items
    requires target in CurrentItems(before, src) ==> target == s && src == tgt
    ensures CopiedSoFar(before, items[target := RowFor(items, s, tgt, target)], src, tgt, m[s := target])
  {
    assert items[s] == before[s];
    assert target in before ==> items[target] == before[target];
    CopiesGrow(m, s, target);
    var longer := m[s := target];
    forall r | r in longer
      ensures r in before && (r == s || longer[r] != target)
      ensures r != s ==> longer[r] in items &&
                         items[longer[r]] ==
                             CopyOf(before[r], tgt, KeptParent(before, longer[r]), KeptCatalogKey(before, longer[r]))
    {
      assert r != s ==> m[r] in Copies(m);
    }
  }

  lemma RoundKeepsTargets(before: Items, items: Items, src: int, tgt: int, m: map<int, int>, byKey: map<string, int>,
                          s: int, newId: int)
    requires IndexHolds(items, tgt, byKey) && RowsKept(before, items) && MappedByKey(before, m, byKey)
    requires KeysDistinct(before, src) && TargetsFound(before, tgt, byKey)
    requires s in CurrentItems(before, src) && s !in m && newId !in items
    requires TargetFor(byKey, ItemKey(items[s]), newId) !in Copies(m)
    ensures var key := ItemKey(items[s]);
            var target := TargetFor(byKey, key, newId);
            && TargetsFound(before, tgt, byKey[key := target])
            && (target in before || target !in items)
            && (target in CurrentItems(before, src) ==> target == s && src == tgt)
  {
    var key := ItemKey(items[s]);
    assert key == ItemKey(before[s]);
  }

  // ---------- a source whose key nobody else has, whatever the other keys ----------

  /** A current target item with the key of `s`. */
  predicate SameKeyTarget(before: Items, tgt: int, s: int, t: int) {
    s in before && t in CurrentItems(before, tgt) && ItemKey(before[t]) == ItemKey(before[s])
  }

  /** No other current source item has the key of `s`, and no two current target items have it. */
  ghost predicate Lone(before: Items, src: int, tgt: int, s: int) {
    && s in CurrentItems(before, src)
    && (forall r :: SameKeyTarget(before, src, s, r) ==> r == s)
    && (forall t, t' :: SameKeyTarget(before, tgt, s, t) && SameKeyTarget(before, tgt, s, t') ==> t == t')
  }

  /** `s` went to the target item with its key, or to a new one, which now says what `s` says. */
  ghost predicate CopiedAlone(before: Items, items: Items, tgt: int, m: map<int, int>, s: int) {
    && s in before && s in m && m[s] in items
    && (forall t :: SameKeyTarget(before, tgt, s, t) ==> m[s] == t)
    && (m[s] in before ==> SameKeyTarget(before, tgt, s, m[s]))
    && items[m[s]] == CopyOf(before[s], tgt, items[m[s]].parent, KeptCatalogKey(before, m[s]))
  }

  ghost predicate AwaitsCopy(before: Items, items: Items, tgt: int, byKey: map<string, int>, s: int) {
    && s in before && s in items && items[s] == before[s]
    && var key := ItemKey(before[s]);
    && (key in byKey ==> SameKeyTarget(before, tgt, s, byKey[key]) && byKey[key] in items &&
                         items[byKey[key]] == before[byKey[key]])
    && (forall t :: SameKeyTarget(before, tgt, s, t) ==> key in byKey && byKey[key] == t)
  }

  ghost predicate LonesHold(before: Items, items: Items, src: int, tgt: int, m: map<int, int>,
                            byKey: map<string, int>) {
    forall s {:trigger Lone(before, src, tgt, s)} :: Lone(before, src, tgt, s) ==>
      if s in m then CopiedAlone(before, items, tgt, m, s) else AwaitsCopy(before, items, tgt, byKey, s)
  }

  lemma CopyOfLone(before: Items, items: Items, tgt: int, m: map<int, int>, byKey: map<string, int>, s: int, newId: int)
    requires RowsKept(before, items) && AwaitsCopy(before, items, tgt, byKey, s) && newId !in items
    ensures var target := TargetFor(byKey, ItemKey(items[s]), newId);
            CopiedAlone(before, items[target := RowFor(items, s, tgt, target)], tgt, m[s := target], s)
  {
  }

  lemma OtherCopyKeepsLone(before: Items, items: Items, tgt: int, m: map<int, int>, byKey: map<string, int>, s: int,
                           r: int, target: int)
    requires s in before && r in items && r !in m && r != s && ItemKey(items[r]) != ItemKey(before[s])
    requires target in items ==> ItemKey(items[target]) == ItemKey(items[r])
    requires if s in m then CopiedAlone(before, items, tgt, m, s) else AwaitsCopy(before, items, tgt, byKey, s)
    ensures var after := items[target := RowFor(items, r, tgt, target)];
            if s in m then CopiedAlone(before, after, tgt, m[r := target], s)
            else AwaitsCopy(before, after, tgt, byKey[ItemKey(items[r]) := target], s)
  {
  }

  lemma RoundKeepsLones(before: Items, items: Items, src: int, tgt: int, m: map<int, int>, byKey: map<string, int>,
                        r: int, newId: int)
    requires IndexHolds(items, tgt, byKey) && RowsKept(before, items) && LonesHold(before, items, src, tgt, m, byKey)
    requires r in CurrentItems(before, src) && r !in m && newId !in items
    ensures var key := ItemKey(items[r]);
            var target := TargetFor(byKey, key, newId);
            LonesHold(before, items[target := RowFor(items, r, tgt, target)], src, tgt, m[r := target],
                      byKey[key := target])
  {
    var key := ItemKey(items[r]);
    var target := TargetFor(byKey, key, newId);
    var after, longer, keys := items[target := RowFor(items, r, tgt, target)], m[r := target], byKey[key := target];
    forall s {:trigger Lone(before, src, tgt, s)} | Lone(before, src, tgt, s)
      ensures if s in longer then CopiedAlone(before, after, tgt, longer, s)
              else AwaitsCopy(before, after, tgt, keys, s)
    {
      if s == r {
        CopyOfLone(before, items, tgt, m, byKey, s, newId);
      } else {
        assert !SameKeyTarget(before, src, s, r);
        OtherCopyKeepsLone(before, items, tgt, m, byKey, s, r, target);
      }
    }
  }

  lemma LonesWait(items: Items, src: int, tgt: int, byKey: map<string, int>)
    requires IndexHolds(items, tgt, byKey)
    requires forall t :: t in CurrentItems(items, tgt) ==> ItemKey(items[t]) in byKey
    ensures LonesHold(items, items, src, tgt, map[], byKey)
  {
    forall s {:trigger Lone(items, src, tgt, s)} | Lone(items, src, tgt, s)
      ensures AwaitsCopy(items, items, tgt, byKey, s)
    {
      var key := ItemKey(items[s]);
      assert key in byKey ==> SameKeyTarget(items, tgt, s, byKey[key]);
    }
  }

  /**
   What the copy does to rows whatever their keys: none is lost or gets another key, each source has an image with its
   key, new rows are images, and a source whose key nobody else has is copied as it should be.
   */
  ghost predicate CopiedByKey(before: Items, after: Items, src: int, tgt: int, m: map<int, int>) {
    && m.Keys == CurrentItems(before, src) && RowsKept(before, after)
    && (forall s :: s in m ==> m[s] in CurrentItems(after, tgt) && ItemKey(after[m[s]]) == ItemKey(before[s]))
    && (forall t :: t in after && t !in before ==> t in Copies(m))
    && (forall s {:trigger Lone(before, src, tgt, s)} :: Lone(before, src, tgt, s) ==>
          CopiedAlone(before, after, tgt, m, s))
  }

  lemma CopyingByKey(before: Items, items: Items, src: int, tgt: int, m: map<int, int>, byKey: map<string, int>)
    requires Copying(before, items, src, tgt, m, byKey) && m.Keys == CurrentItems(before, src)
    ensures CopiedByKey(before, items, src, tgt, m)
  {
  }

  /** Parents are not part of it. */
  lemma StillByKey(before: Items, was: Items, now: Items, src: int, tgt: int, m: map<int, int>)
    requires CopiedByKey(before, was, src, tgt, m) && now.Keys == was.Keys
    requires forall i :: i in was ==> now[i] == was[i].(parent := now[i].parent)
    ensures CopiedByKey(before, now, src, tgt, m)
  {
    forall i | i in was
      ensures ItemKey(now[i]) == ItemKey(was[i]) && (i in CurrentItems(now, tgt) <==> i in CurrentItems(was, tgt))
    {
      assert now[i] == was[i].(parent := now[i].parent);
    }
    forall s | s in m ensures m[s] in CurrentItems(now, tgt) && ItemKey(now[m[s]]) == ItemKey(before[s]) {
      assert m[s] in CurrentItems(was, tgt) && m[s] in was;
    }
    forall s {:trigger Lone(before, src, tgt, s)} | Lone(before, src, tgt, s)
      ensures CopiedAlone(before, now, tgt, m, s)
    {
      assert CopiedAlone(before, was, tgt, m, s);
    }
  }

  /** The state of the loop after some rounds. */
  ghost predicate Copying(before: Items, items: Items, src: int, tgt: int, m: map<int, int>, byKey: map<string, int>) {
    && IndexHolds(items, tgt, byKey) && RowsKept(before, items) && MappedByKey(before, m, byKey)
    && (forall t :: t in items && t !in before ==> t in Copies(m)) && LonesHold(before, items, src, tgt, m, byKey)
    && (KeysDistinct(before, src) && KeysDistinct(before, tgt) ==>
          TargetsFound(before, tgt, byKey) && CopiedSoFar(before, items, src, tgt, m))
  }

  lemma Round(before: Items, items: Items, src: int, tgt: int, m: map<int, int>, byKey: map<string, int>, s: int,
              newId: int)
    requires Copying(before, items, src, tgt, m, byKey)
    requires m.Keys <= CurrentItems(before, src)
    requires s in CurrentItems(before, src) && s !in m && newId !in items
    ensures var key := ItemKey(items[s]);
            var target := TargetFor(byKey, key, newId);
            Copying(before, items[target := RowFor(items, s, tgt, target)], src, tgt, m[s := target],
                    byKey[key := target])
  {
    RoundKeepsIndex(before, items, tgt, byKey, s, TargetFor(byKey, ItemKey(items[s]), newId));
    RoundKeepsMatches(before, m, byKey, s, TargetFor(byKey, ItemKey(items[s]), newId));
    RoundKeepsLones(before, items, src, tgt, m, byKey, s, newId);
    if KeysDistinct(before, src) && KeysDistinct(before, tgt) {
      TargetIsNew(before, items, src, tgt, m, byKey, s, newId);
      RoundKeepsTargets(before, items, src, tgt, m, byKey, s, newId);
      RoundKeepsCopies(before, items, src, tgt, m, s, TargetFor(byKey, ItemKey(items[s]), newId));
    }
    CopiesGrow(m, s, TargetFor(byKey, ItemKey(items[s]), newId));
  }

  lemma CopyingStarts(items: Items, src: int, tgt: int, byKey: map<string, int>)
    requires IndexHolds(items, tgt, byKey)
    requires forall t :: t in CurrentItems(items, tgt) ==> ItemKey(items[t]) in byKey
    ensures Copying(items, items, src, tgt, map[], byKey)
  {
    LonesWait(items, src, tgt, byKey);
  }

  lemma CopyingDone(before: Items, items: Items, src: int, tgt: int, m: map<int, int>, byKey: map<string, int>)
    requires Copying(before, items, src, tgt, m, byKey)
    requires m.Keys == CurrentItems(before, src)
    ensures forall t :: t in before ==> t in items
    ensures forall s :: s in m ==> m[s] in items
    ensures MergesEqualKeys(before, m) && CopiedByKey(before, items, src, tgt, m)
    ensures KeysDistinct(before, src) && KeysDistinct(before, tgt) ==> ContentCopied(before, items, src, tgt, m)
  {
    CopyingByKey(before, items, src, tgt, m, byKey);
    forall s, s' | s in m && s' in m ensures m[s] == m[s'] <==> ItemKey(before[s]) == ItemKey(before[s']) {
      assert ItemKey(items[m[s]]) == ItemKey(before[s]) && ItemKey(items[m[s']]) == ItemKey(before[s']);
    }
  }

  // ---------- linking parents ----------

  ghost predicate Linking(before: Items, items: Items, src: int, tgt: int, m: map<int, int>, done: set<int>) {
    && MatchesByKey(before, src, tgt, m)
    && (forall s :: s in m ==>
          m[s] in items &&
          items[m[s]] ==
              CopyOf(before[s], tgt, if s in done then Image(m, before[s].parent) else KeptParent(before, m[s]),
                     KeptCatalogKey(before, m[s])))
    && (forall i :: i in before && i !in Copies(m) ==> i in items && items[i] == before[i])
    && (forall i :: i in items && i !in before ==> i in Copies(m))
    && (forall s :: s in m && s !in done ==> s in items && items[s] == before[s])
  }

  lemma LinkingStarts(before: Items, items: Items, src: int, tgt: int, m: map<int, int>)
    requires ContentCopied(before, items, src, tgt, m) && KeysDistinct(before, src)
    ensures Linking(before, items, src, tgt, m, {})
  {
    forall s | s in m ensures s in items && items[s] == before[s] {
      SourceUntouched(before, items, src, tgt, m, s);
    }
  }

  lemma LinkRound(before: Items, items: Items, src: int, tgt: int, m: map<int, int>, done: set<int>, s: int)
    requires Linking(before, items, src, tgt, m, done) && KeysDistinct(before, src)
    requires s in m && s !in done
    ensures Linking(before, items[m[s] := items[m[s]].(parent := Image(m, items[s].parent))], src, tgt, m, done + {s})
  {
    forall r | r in m && r != s ensures m[r] != m[s] && r != m[s] {
      OnlyItsOwn(before, src, tgt, m, s, r);
    }
  }

  // ---------- parent links whatever the keys ----------

  ghost predicate SourcesApart(m: map<int, int>) {
    forall s :: s in m ==> s !in Copies(m)
  }

  /** Among the first `n` sources none after number `k` shares its target. */
  ghost predicate LastTo(m: map<int, int>, ids: seq<int>, k: nat, n: nat)
    requires k < n <= |ids|
  {
    forall l :: k < l < n ==> Image(m, Some(ids[l])) != Image(m, Some(ids[k]))
  }

  /** Nothing but parents of targets has changed; of the sources that share a target the last one has set its parent. */
  ghost predicate ParentsSet(was: Items, now: Items, m: map<int, int>, ids: seq<int>, n: nat) {
    && n <= |ids| && now.Keys == was.Keys
    && (forall i :: i in was ==> now[i] == was[i].(parent := now[i].parent))
    && (forall i :: i in was && i !in Copies(m) ==> now[i] == was[i])
    && (SourcesApart(m) ==>
          forall k {:trigger LastTo(m, ids, k, n)} :: 0 <= k < n && LastTo(m, ids, k, n) ==>
            ParentSet(was, now, m, ids[k]))
  }

  ghost predicate ParentSet(was: Items, now: Items, m: map<int, int>, s: int) {
    s in m && s in was && m[s] in now && now[m[s]].parent == Image(m, was[s].parent)
  }

  lemma ParentSetNext(was: Items, now: Items, m: map<int, int>, ids: seq<int>, n: nat)
    requires ParentsSet(was, now, m, ids, n) && n < |ids|
    requires ids[n] in m && ids[n] in was && m[ids[n]] in was
    ensures var target := m[ids[n]];
            ParentsSet(was, now[target := now[target].(parent := Image(m, now[ids[n]].parent))], m, ids, n + 1)
  {
    var s := ids[n];
    var target := m[s];
    var after := now[target := now[target].(parent := Image(m, now[s].parent))];
    assert target in Copies(m);
    if SourcesApart(m) {
      forall k | 0 <= k < n + 1 && LastTo(m, ids, k, n + 1) ensures ParentSet(was, after, m, ids[k]) {
        if k < n {
          assert LastTo(m, ids, k, n) && ParentSet(was, now, m, ids[k]);
          assert Image(m, Some(ids[n])) != Image(m, Some(ids[k]));
        }
      }
    }
  }

  /** What holds of the linking loop after `i` sources. */
  ghost predicate Linked(before: Items, was: Items, now: Items, src: int, tgt: int, m: map<int, int>, ids: seq<int>,
                         i: nat) {
    && ParentsSet(was, now, m, ids, i)
    && (KeysDistinct(before, src) && ContentCopied(before, was, src, tgt, m) ==>
        Linking(before, now, src, tgt, m, Elements(ids[..i])))
  }

  lemma LinkedStarts(before: Items, was: Items, src: int, tgt: int, m: map<int, int>, ids: seq<int>)
    ensures Linked(before, was, was, src, tgt, m, ids, 0)
  {
    if KeysDistinct(before, src) && ContentCopied(before, was, src, tgt, m) {
      LinkingStarts(before, was, src, tgt, m);
      assert Elements(ids[..0]) == {};
    }
  }

  lemma LinkedEnds(before: Items, was: Items, now: Items, src: int, tgt: int, m: map<int, int>, ids: seq<int>)
    requires Linked(before, was, now, src, tgt, m, ids, |ids|) && Elements(ids) == m.Keys
    ensures ParentsSet(was, now, m, ids, |ids|)
    ensures KeysDistinct(before, src) && ContentCopied(before, was, src, tgt, m) ==>
            Linking(before, now, src, tgt, m, m.Keys)
  {
    assert ids[..|ids|] == ids;
  }

  lemma LinkedNext(before: Items, was: Items, now: Items, src: int, tgt: int, m: map<int, int>, ids: seq<int>, i: nat)
    requires Linked(before, was, now, src, tgt, m, ids, i) && i < |ids| && Distinct(ids) && Elements(ids) == m.Keys
    requires forall s :: s in m ==> m[s] in was && s in was
    ensures ids[i] in m && ids[i] in now && m[ids[i]] in now
    ensures var target := m[ids[i]];
            Linked(before, was, now[target := now[target].(parent := Image(m, now[ids[i]].parent))], src, tgt, m,
                   ids, i + 1)
  {
    TakeOneMore(ids, i);
    assert ids[i] in Elements(ids);
    ParentSetNext(was, now, m, ids, i);
    if KeysDistinct(before, src) && ContentCopied(before, was, src, tgt, m) {
      LinkRound(before, now, src, tgt, m, Elements(ids[..i]), ids[i]);
    }
  }

  lemma OnlyItsOwn(before: Items, src: int, tgt: int, m: map<int, int>, s: int, r: int)
    requires MatchesByKey(before, src, tgt, m) && KeysDistinct(before, src) && s in m && r in m
    ensures m[s] == r ==> s == r
  {
  }

  lemma LinkingDone(before: Items, items: Items, src: int, tgt: int, m: map<int, int>)
    requires Linking(before, items, src, tgt, m, m.Keys)
    ensures ItemsCloned(before, items, src, tgt, m)
  {
  }

  // ---------- copying mappings ----------

  /** The unique index refuses the copy of some current source mapping. */
  ghost predicate Refused(mappings: Mappings, m: map<int, int>) {
    exists x, z :: x in mappings && z in mappings && RefusedPair(mappings, m, mappings[x], mappings[z])
  }

  predicate RefusedPair(mappings: Mappings, m: map<int, int>, source: Mapping, target: Mapping) {
    && source.isCurrent && source.item in m && !HasTriple(mappings, m[source.item], source.element, source.version)
    && target.isCurrent && target.item == m[source.item] && target.element == source.element
  }

  lemma RefusedIffClashes(t: Tables, src: int, tgt: int, m: map<int, int>)
    requires MatchesByKey(t.items, src, tgt, m) && ReferencesHold(t)
    ensures Refused(t.mappings, m) <==> Clashes(t, src, tgt)
  {
    forall x, z | x in t.mappings && z in t.mappings
      ensures RefusedPair(t.mappings, m, t.mappings[x], t.mappings[z]) <==>
              ClashingPair(t, src, tgt, t.mappings[x], t.mappings[z])
    {
      assert t.mappings[z].item in t.items;
    }
  }

  function CopiedMapping(row: Mapping, m: map<int, int>): Mapping
    requires row.item in m
  {
    row.(item := m[row.item])
  }

  predicate ToCopy(row: Mapping, m: map<int, int>) {
    row.isCurrent && row.item in m
  }

  ghost predicate MappingsSoFar(before: Mappings, now: Mappings, m: map<int, int>, done: set<int>) {
    && (forall x :: x in before ==> x in now && now[x] == before[x])
    && (forall x :: x in done ==> x in before && ToCopy(before[x], m) &&
                                  HasTriple(now, m[before[x].item], before[x].element, before[x].version))
    && (forall y :: y in now && y !in before ==>
          !HasTriple(before, now[y].item, now[y].element, now[y].version) &&
          exists x :: x in done && x in before && ToCopy(before[x], m) && now[y] == CopiedMapping(before[x], m))
  }

  ghost predicate Injective(m: map<int, int>) {
    forall s, s' :: s in m && s' in m && m[s] == m[s'] ==> s == s'
  }

  /** A row added in an earlier round for another mapping is neither the copy of this one nor in its way. */
  lemma EarlierRowsApart(before: Mappings, now: Mappings, m: map<int, int>, done: set<int>, x: int, y: int)
    requires MappingsSoFar(before, now, m, done) && MappingsUnique(before) && Injective(m)
    requires x in before && x !in done && ToCopy(before[x], m)
    requires y in now && y !in before
    ensures !(now[y].item == m[before[x].item] && now[y].element == before[x].element)
  {
    var w :| w in done && w in before && ToCopy(before[w], m) && now[y] == CopiedMapping(before[w], m);
    assert BothCurrent(before[w], before[x]) ==> w == x;
  }

  lemma MappingPresent(before: Mappings, now: Mappings, m: map<int, int>, done: set<int>, x: int)
    requires MappingsSoFar(before, now, m, done)
    requires x in before && ToCopy(before[x], m)
    requires HasTriple(now, m[before[x].item], before[x].element, before[x].version)
    ensures MappingsSoFar(before, now, m, done + {x})
    ensures MappingsUnique(before) && Injective(m) && x !in done ==>
              HasTriple(before, m[before[x].item], before[x].element, before[x].version)
  {
    if MappingsUnique(before) && Injective(m) && x !in done {
      var y :| y in now && SameTriple(now[y], m[before[x].item], before[x].element, before[x].version);
      if y !in before {
        EarlierRowsApart(before, now, m, done, x, y);
      }
    }
  }

  lemma MappingAdded(before: Mappings, now: Mappings, m: map<int, int>, done: set<int>, x: int, y: int)
    requires MappingsSoFar(before, now, m, done) && MappingsUnique(now) && y !in now
    requires x in before && ToCopy(before[x], m)
    requires !HasTriple(now, m[before[x].item], before[x].element, before[x].version)
    requires forall z :: z in now ==> !BothCurrent(now[z], CopiedMapping(before[x], m))
    ensures MappingsSoFar(before, now[y := CopiedMapping(before[x], m)], m, done + {x})
    ensures MappingsUnique(now[y := CopiedMapping(before[x], m)])
  {
    var after := now[y := CopiedMapping(before[x], m)];
    assert SameTriple(after[y], m[before[x].item], before[x].element, before[x].version);
    forall w | w in done ensures HasTriple(after, m[before[w].item], before[w].element, before[w].version) {
      var z :| z in now && SameTriple(now[z], m[before[w].item], before[w].element, before[w].version);
      assert after[z] == now[z];
    }
    assert forall z :: z in now ==>
      !SameTriple(now[z], after[y].item, after[y].element, after[y].version);
  }

  lemma RefusalFound(before: Mappings, now: Mappings, m: map<int, int>, done: set<int>, x: int, z: int)
    requires MappingsSoFar(before, now, m, done) && MappingsUnique(before)
    requires x in before && x !in done && ToCopy(before[x], m)
    requires !HasTriple(now, m[before[x].item], before[x].element, before[x].version)
    requires z in now && BothCurrent(now[z], CopiedMapping(before[x], m))
    ensures Injective(m) ==> z in before && RefusedPair(before, m, before[x], before[z])
  {
    if Injective(m) && z !in before {
      EarlierRowsApart(before, now, m, done, x, z);
    }
    assert forall y :: y in before ==> now[y] == before[y];
  }

  // ---------- copying dependencies ----------

  ghost predicate DependenciesSoFar(before: Dependencies, now: Dependencies, m: map<int, int>, done: set<int>) {
    && (forall x :: x in before ==> x in now && now[x] == before[x])
    && (forall x :: x in done ==> x in before && Internal(before[x], m) &&
                                  HasEdge(now, m[before[x].item], m[before[x].dependsOn], before[x].kind))
    && (forall y :: y in now && y !in before ==>
          !HasEdge(before, now[y].item, now[y].dependsOn, now[y].kind) &&
          exists x :: x in done && x in before && Internal(before[x], m) && now[y] == CopiedDependency(before[x], m))
  }

  function CopiedDependency(row: Dependency, m: map<int, int>): Dependency
    requires Internal(row, m)
  {
    row.(item := m[row.item], dependsOn := m[row.dependsOn])
  }

  lemma DependencyAdded(before: Dependencies, now: Dependencies, m: map<int, int>, done: set<int>, x: int, y: int)
    requires DependenciesSoFar(before, now, m, done) && DependenciesUnique(now) && y !in now
    requires x in before && Internal(before[x], m)
    requires !HasEdge(now, m[before[x].item], m[before[x].dependsOn], before[x].kind)
    ensures DependenciesSoFar(before, now[y := CopiedDependency(before[x], m)], m, done + {x})
    ensures DependenciesUnique(now[y := CopiedDependency(before[x], m)])
  {
    var after := now[y := CopiedDependency(before[x], m)];
    assert SameEdge(after[y], m[before[x].item], m[before[x].dependsOn], before[x].kind);
    forall w | w in done ensures HasEdge(after, m[before[w].item], m[before[w].dependsOn], before[w].kind) {
      var z :| z in now && SameEdge(now[z], m[before[w].item], m[before[w].dependsOn], before[w].kind);
      assert after[z] == now[z];
    }
    assert forall z :: z in now ==> !SameEdge(now[z], after[y].item, after[y].dependsOn, after[y].kind);
  }

  lemma ReferencesSurvive(before: Tables, after: Tables, m: map<int, int>)
    requires ReferencesHold(before)
    requires forall i :: i in before.items ==> i in after.items
    requires forall s :: s in m ==> m[s] in after.items
    requires MappingsCloned(before.mappings, after.mappings, m) &&
             DependenciesCloned(before.dependencies, after.dependencies, m)
    ensures ReferencesHold(after)
  {
    forall x | x in after.mappings ensures after.mappings[x].item in after.items {
      assert x in before.mappings ==> after.mappings[x] == before.mappings[x];
    }
    forall x | x in after.dependencies
      ensures after.dependencies[x].item in after.items && after.dependencies[x].dependsOn in after.items
    {
      assert x in before.dependencies ==> after.dependencies[x] == before.dependencies[x];
    }
  }

  class Catalog {
    var items: Items
    var mappings: Mappings
    var dependencies: Dependencies
    var nextItem: int
    var nextMapping: int
    var nextDependency: int

    ghost function View(): Tables
      reads this
    {
      Tables(items, mappings, dependencies)
    }

    ghost predicate Valid()
      reads this
    {
      && IdsBelow(items, nextItem) && IdsBelow(mappings, nextMapping) && IdsBelow(dependencies, nextDependency)
      && MappingsUnique(mappings) && DependenciesUnique(dependencies) && ReferencesHold(View())
    }

    /** Target items by key; of two with one key the later one enumerated wins. */
    method IndexByKey(tgt: int) returns (byKey: map<string, int>)
      ensures IndexHolds(items, tgt, byKey)
      ensures forall t :: t in CurrentItems(items, tgt) ==> ItemKey(items[t]) in byKey
    {
      byKey := map[];
      var targets := Enumerate(CurrentItems(items, tgt));
      for i := 0 to |targets|
        invariant IndexHolds(items, tgt, byKey)
        invariant forall j :: 0 <= j < i ==> targets[j] in Elements(targets) && ItemKey(items[targets[j]]) in byKey
      {
        assert targets[i] in Elements(targets);
        byKey := byKey[ItemKey(items[targets[i]]) := targets[i]];
      }
      forall t | t in CurrentItems(items, tgt) ensures ItemKey(items[t]) in byKey {
        assert t in Elements(targets);
      }
    }

    /** One source item: a new row, or the row with the same key brought up to date. */
    method CopyItem(s: int, src: int, tgt: int, m: map<int, int>, byKey: map<string, int>, ghost before: Items)
      returns (target: int, byKey': map<string, int>)
      requires IdsBelow(items, nextItem)
      requires Copying(before, items, src, tgt, m, byKey)
      requires m.Keys <= CurrentItems(before, src) && s in CurrentItems(before, src) && s !in m
      modifies this`items, this`nextItem
      ensures IdsBelow(items, nextItem)
      ensures Copying(before, items, src, tgt, m[s := target], byKey')
    {
      Round(before, items, src, tgt, m, byKey, s, nextItem);
      var key := ItemKey(items[s]);
      if key !in byKey {
        target := nextItem;
        nextItem := nextItem + 1;
        items := items[target := CopyOf(items[s], tgt, None, None)];
      } else {
        target := byKey[key];
        items := items[target := CopyOf(items[s], tgt, items[target].parent, items[target].catalogKey)];
      }
      byKey' := byKey[key := target];
    }

    method CopyItems(src: int, tgt: int, sourceIds: seq<int>) returns (m: map<int, int>)
      requires IdsBelow(items, nextItem)
      requires Distinct(sourceIds) && Elements(sourceIds) == CurrentItems(items, src)
      modifies this`items, this`nextItem
      ensures IdsBelow(items, nextItem)
      ensures m.Keys == CurrentItems(old(items), src)
      ensures forall t :: t in old(items) ==> t in items
      ensures forall s :: s in m ==> m[s] in items
      ensures MergesEqualKeys(old(items), m) && CopiedByKey(old(items), items, src, tgt, m)
      ensures KeysDistinct(old(items), src) && KeysDistinct(old(items), tgt) ==>
              ContentCopied(old(items), items, src, tgt, m)
    {
      ghost var before := items;
      var byKey := IndexByKey(tgt);
      m := map[];
      CopyingStarts(items, src, tgt, byKey);
      for i := 0 to |sourceIds|
        invariant IdsBelow(items, nextItem)
        invariant m.Keys == Elements(sourceIds[..i])
        invariant Copying(before, items, src, tgt, m, byKey)
      {
        var s := sourceIds[i];
        TakeOneMore(sourceIds, i);
        var target;
        target, byKey := CopyItem(s, src, tgt, m, byKey, before);
        m := m[s := target];
      }
      CopyingDone(before, items, src, tgt, m, byKey);
      assert sourceIds[..|sourceIds|] == sourceIds;
    }

    method LinkParent(s: int, m: map<int, int>)
      requires s in m && s in items && m[s] in items
      modifies this`items
      ensures items == old(items)[m[s] := old(items)[m[s]].(parent := Image(m, old(items)[s].parent))]
    {
      var desired := Image(m, items[s].parent);
      if items[m[s]].parent != desired {
        items := items[m[s] := items[m[s]].(parent := desired)];
      } else {
        assert items[m[s] := items[m[s]].(parent := desired)] == items;
      }
    }

    method LinkParents(src: int, tgt: int, sourceIds: seq<int>, m: map<int, int>, ghost before: Items)
      requires Distinct(sourceIds) && Elements(sourceIds) == m.Keys
      requires forall s :: s in m ==> m[s] in items && s in items
      modifies this`items
      ensures ParentsSet(old(items), items, m, sourceIds, |sourceIds|)
      ensures KeysDistinct(before, src) && ContentCopied(before, old(items), src, tgt, m) ==>
              Linking(before, items, src, tgt, m, m.Keys)
    {
      ghost var was := items;
      LinkedStarts(before, was, src, tgt, m, sourceIds);
      for i := 0 to |sourceIds|
        invariant Linked(before, was, items, src, tgt, m, sourceIds, i)
      {
        LinkNext(src, tgt, sourceIds, i, m, before, was);
      }
      LinkedEnds(before, was, items, src, tgt, m, sourceIds);
    }

    method LinkNext(src: int, tgt: int, sourceIds: seq<int>, i: nat, m: map<int, int>, ghost before: Items,
                    ghost was: Items)
      requires Linked(before, was, items, src, tgt, m, sourceIds, i) && i < |sourceIds|
      requires Distinct(sourceIds) && Elements(sourceIds) == m.Keys && forall s :: s in m ==> m[s] in was && s in was
      modifies this`items
      ensures Linked(before, was, items, src, tgt, m, sourceIds, i + 1)
    {
      LinkedNext(before, was, items, src, tgt, m, sourceIds, i);
      LinkParent(sourceIds[i], m);
    }

    /** One mapping: present already, added, or refused because another version of it is current at the target. */
    method CopyMapping(x: int, m: map<int, int>, ghost before: Mappings, ghost done: set<int>) returns (ok: bool)
      requires IdsBelow(mappings, nextMapping) && MappingsUnique(mappings) && MappingsUnique(before)
      requires MappingsSoFar(before, mappings, m, done) && x in before && x !in done && ToCopy(before[x], m)
      modifies this`mappings, this`nextMapping
      ensures IdsBelow(mappings, nextMapping) && MappingsUnique(mappings)
      ensures ok ==> MappingsSoFar(before, mappings, m, done + {x})
      ensures Injective(m) ==> (ok <==> forall z :: z in before ==> !RefusedPair(before, m, before[x], before[z]))
    {
      assert mappings[x] == before[x];
      var row := CopiedMapping(mappings[x], m);
      if HasTriple(mappings, row.item, row.element, row.version) {
        MappingPresent(before, mappings, m, done, x);
        return true;
      }
      if exists z :: z in mappings && BothCurrent(mappings[z], row) {
        ghost var z :| z in mappings && BothCurrent(mappings[z], row);
        RefusalFound(before, mappings, m, done, x, z);
        return false;
      }
      MappingAdded(before, mappings, m, done, x, nextMapping);
      mappings := mappings[nextMapping := row];
      nextMapping := nextMapping + 1;
      return true;
    }

    /** Adds the missing copies; `false` is the database refusing a row under the unique index. */
    method CopyMappings(m: map<int, int>) returns (ok: bool)
      requires IdsBelow(mappings, nextMapping) && MappingsUnique(mappings)
      modifies this`mappings, this`nextMapping
      ensures IdsBelow(mappings, nextMapping) && MappingsUnique(mappings)
      ensures ok ==> MappingsCloned(old(mappings), mappings, m)
      ensures Injective(m) ==> (ok <==> !Refused(old(mappings), m))
    {
      ghost var before := mappings;
      var rows := Enumerate(set x | x in mappings && ToCopy(mappings[x], m));
      for i := 0 to |rows|
        invariant IdsBelow(mappings, nextMapping) && MappingsUnique(mappings)
        invariant MappingsSoFar(before, mappings, m, Elements(rows[..i]))
        invariant Injective(m) ==> forall j, z :: 0 <= j < i && z in before ==>
                    rows[j] in before && !RefusedPair(before, m, before[rows[j]], before[z])
      {
        TakeOneMore(rows, i);
        ok := CopyMapping(rows[i], m, before, Elements(rows[..i]));
        if !ok {
          return false;
        }
      }
      assert rows[..|rows|] == rows;
      return true;
    }

    method CopyDependencies(m: map<int, int>)
      requires IdsBelow(dependencies, nextDependency) && DependenciesUnique(dependencies)
      modifies this`dependencies, this`nextDependency
      ensures IdsBelow(dependencies, nextDependency) && DependenciesUnique(dependencies)
      ensures DependenciesCloned(old(dependencies), dependencies, m)
    {
      ghost var before := dependencies;
      var rows := Enumerate(set x | x in dependencies && Internal(dependencies[x], m));
      for i := 0 to |rows|
        invariant IdsBelow(dependencies, nextDependency) && DependenciesUnique(dependencies)
        invariant DependenciesSoFar(before, dependencies, m, Elements(rows[..i]))
      {
        TakeOneMore(rows, i);
        CopyDependency(rows[i], m, before, Elements(rows[..i]));
      }
      assert rows[..|rows|] == rows;
    }

    method CopyDependency(x: int, m: map<int, int>, ghost before: Dependencies, ghost done: set<int>)
      requires IdsBelow(dependencies, nextDependency) && DependenciesUnique(dependencies)
      requires DependenciesSoFar(before, dependencies, m, done) && x in before && Internal(before[x], m)
      modifies this`dependencies, this`nextDependency
      ensures IdsBelow(dependencies, nextDependency) && DependenciesUnique(dependencies)
      ensures DependenciesSoFar(before, dependencies, m, done + {x})
    {
      assert dependencies[x] == before[x];
      var row := CopiedDependency(dependencies[x], m);
      if !HasEdge(dependencies, row.item, row.dependsOn, row.kind) {
        DependencyAdded(before, dependencies, m, done, x, nextDependency);
        dependencies := dependencies[nextDependency := row];
        nextDependency := nextDependency + 1;
      }
    }

    /** The items and their parent links. */
    method CopyAndLink(src: int, tgt: int) returns (m: map<int, int>)
      requires IdsBelow(items, nextItem)
      modifies this`items, this`nextItem
      ensures IdsBelow(items, nextItem)
      ensures m.Keys == CurrentItems(old(items), src) && MergesEqualKeys(old(items), m)
      ensures CopiedByKey(old(items), items, src, tgt, m)
      ensures (forall t :: t in old(items) ==> t in items) && (forall s :: s in m ==> m[s] in items)
      ensures KeysDistinct(old(items), src) && KeysDistinct(old(items), tgt) ==>
              ItemsCloned(old(items), items, src, tgt, m)
    {
      ghost var before := items;
      var sourceIds := Enumerate(CurrentItems(items, src));
      m := CopyItems(src, tgt, sourceIds);
      ghost var was := items;
      LinkParents(src, tgt, sourceIds, m, before);
      StillByKey(before, was, items, src, tgt, m);
      if KeysDistinct(before, src) && KeysDistinct(before, tgt) {
        LinkingDone(before, items, src, tgt, m);
      }
    }

    /**
     The whole copy. Two sources share a target exactly when their keys are equal. When keys are distinct on both
     sides the result is a clone, unless a current target mapping of another version stands in the way.
     */
    method CopyRequirementItems(src: int, tgt: int) returns (ok: bool, m: map<int, int>)
      requires Valid()
      modifies this
      ensures m.Keys == CurrentItems(old(items), src)
      ensures MergesEqualKeys(old(items), m) && CopiedByKey(old(items), items, src, tgt, m)
      ensures ok ==> Valid()
      ensures KeysDistinct(old(items), src) && KeysDistinct(old(items), tgt) ==>
              (ok <==> !Clashes(old(View()), src, tgt)) &&
              (ok ==> Cloned(old(View()), View(), src, tgt, m))
    {
      ghost var before := View();
      m := CopyAndLink(src, tgt);
      if KeysDistinct(before.items, src) && KeysDistinct(before.items, tgt) {
        RefusedIffClashes(before, src, tgt, m);
      }
      ok := CopyRelations(m);
      if ok {
        ReferencesSurvive(before, View(), m);
      }
    }

    /** The mappings, and if none is refused the dependencies. */
    method CopyRelations(m: map<int, int>) returns (ok: bool)
      requires IdsBelow(mappings, nextMapping) && MappingsUnique(mappings)
      requires IdsBelow(dependencies, nextDependency) && DependenciesUnique(dependencies)
      modifies this`mappings, this`nextMapping, this`dependencies, this`nextDependency
      ensures IdsBelow(mappings, nextMapping) && MappingsUnique(mappings)
      ensures IdsBelow(dependencies, nextDependency) && DependenciesUnique(dependencies)
      ensures ok ==>
              MappingsCloned(old(mappings), mappings, m) && DependenciesCloned(old(dependencies), dependencies, m)
      ensures Injective(m) ==> (ok <==> !Refused(old(mappings), m))
    {
      ok := CopyMappings(m);
      if ok {
        CopyDependencies(m);
      }
    }
  }
}
