/** Which items a copy takes for the same, and what it leaves of them, told from the columns of the items. */
module CatalogRules {
  import opened Prelude
  import Decimal
  import opened CatalogClone

  predicate HasCode(item: Item) {
    item.code != None && item.code != Some("")
  }

  /** The code is what stands for an item without one: a code that spells its sort order and name. */
  predicate Spells(code: Option<string>, item: Item) {
    code == Some("name::" + Decimal.OfInt(item.sortOrder) + "::" + item.name)
  }

  /** Items with codes are alike by code, items without by sort order and name, mixed ones if the code spells these. */
  predicate Alike(a: Item, b: Item) {
    if HasCode(a) then (if HasCode(b) then a.code == b.code else Spells(a.code, b))
    else if HasCode(b) then Spells(b.code, a)
    else a.sortOrder == b.sortOrder && a.name == b.name
  }

  // ---------- keys ----------

  lemma ColonAfter(p: string, x: string)
    ensures (p + ("::" + x))[|p|] == ':'
  {
  }

  lemma NoColon(n: int, y: string)
    ensures forall k :: 0 <= k < |Decimal.OfInt(n)| ==> (Decimal.OfInt(n) + ("::" + y))[k] != ':'
  {
  }

  lemma NumberEnds(m: int, n: int, x: string, y: string)
    requires Decimal.OfInt(m) + ("::" + x) == Decimal.OfInt(n) + ("::" + y) && |Decimal.OfInt(m)| <= |Decimal.OfInt(n)|
    ensures Decimal.OfInt(m) == Decimal.OfInt(n)
  {
    var p, q := Decimal.OfInt(m), Decimal.OfInt(n);
    ColonAfter(p, x);
    NoColon(n, y);
    assert |p| == |q|;
    assert (p + ("::" + x))[..|p|] == p && (q + ("::" + y))[..|q|] == q;
  }

  lemma NumberAndNameRead(m: int, n: int, x: string, y: string)
    requires Decimal.OfInt(m) + ("::" + x) == Decimal.OfInt(n) + ("::" + y)
    ensures m == n && x == y
  {
    var p, q := Decimal.OfInt(m), Decimal.OfInt(n);
    if |p| <= |q| {
      NumberEnds(m, n, x, y);
    } else {
      NumberEnds(n, m, y, x);
    }
    Decimal.IntInjective(m, n);
    assert (p + ("::" + x))[|p| + 2..] == x && (q + ("::" + y))[|q| + 2..] == y;
  }

  lemma UncodedKey(item: Item)
    requires !HasCode(item)
    ensures ItemKey(item) == "name::" + (Decimal.OfInt(item.sortOrder) + ("::" + item.name))
    ensures ItemKey(item)[6..] == Decimal.OfInt(item.sortOrder) + ("::" + item.name)
  {
  }

  /** Keys are equal if and only if the items are alike. */
  lemma KeysMeetIff(a: Item, b: Item)
    ensures ItemKey(a) == ItemKey(b) <==> Alike(a, b)
  {
    if !HasCode(a) && !HasCode(b) {
      UncodedKey(a);
      UncodedKey(b);
      if ItemKey(a) == ItemKey(b) {
        NumberAndNameRead(a.sortOrder, b.sortOrder, a.name, b.name);
      }
    }
  }

  // ---------- what the copy makes of an item ----------

  predicate Current(items: Items, disclosure: int, i: int) {
    i in items && items[i].disclosure == disclosure && items[i].isCurrent
  }

  /** Keys are distinct if and only if no two current items are alike. */
  lemma KeysDistinctIff(items: Items, disclosure: int)
    ensures KeysDistinct(items, disclosure) <==>
            forall i, j :: Current(items, disclosure, i) && Current(items, disclosure, j) && Alike(items[i], items[j])
                           ==> i == j
  {
    forall i, j | i in items && j in items
      ensures ItemKey(items[i]) == ItemKey(items[j]) <==> Alike(items[i], items[j])
    {
      KeysMeetIff(items[i], items[j]);
    }
    forall i ensures i in CurrentItems(items, disclosure) <==> Current(items, disclosure, i) {
    }
  }

  /** Of two sources the images are one row if and only if the sources are alike. */
  lemma ImagesMeetIff(before: Items, m: map<int, int>, s: int, r: int)
    requires (forall x :: x in m ==> x in before) && MergesEqualKeys(before, m) && s in m && r in m
    ensures m[s] == m[r] <==> Alike(before[s], before[r])
  {
    KeysMeetIff(before[s], before[r]);
  }

  /** No other current source item is like `s`, and at most one current target item is. */
  ghost predicate Singular(before: Items, src: int, tgt: int, s: int) {
    && Current(before, src, s)
    && (forall r :: Current(before, src, r) && Alike(before[r], before[s]) ==> r == s)
    && (forall t, t' :: (Current(before, tgt, t) && Current(before, tgt, t') && Alike(before[t], before[s]) &&
                         Alike(before[t'], before[s])) ==> t == t')
  }

  lemma SingularIsLone(before: Items, src: int, tgt: int, s: int)
    requires Singular(before, src, tgt, s)
    ensures Lone(before, src, tgt, s)
  {
    forall i | i in before ensures ItemKey(before[i]) == ItemKey(before[s]) <==> Alike(before[i], before[s]) {
      KeysMeetIff(before[i], before[s]);
    }
    assert forall d, t :: SameKeyTarget(before, d, s, t) ==> Current(before, d, t) && Alike(before[t], before[s]);
  }

  /** The row says of the item what the source says. */
  predicate Repeats(copy: Item, source: Item) {
    && copy.code == source.code && copy.name == source.name && copy.sortOrder == source.sortOrder
    && copy.details == source.details && copy.isCurrent == source.isCurrent
  }

  /**
   A source item that is like no other goes to the current target item like it, if there is one, else to a new row. Then
   that row repeats it, and is the only current target item like it.
   */
  lemma ItemFollows(before: Items, after: Items, src: int, tgt: int, m: map<int, int>, s: int)
    requires CopiedByKey(before, after, src, tgt, m) && Singular(before, src, tgt, s)
    ensures s in m && Current(after, tgt, m[s]) && Repeats(after[m[s]], before[s])
    ensures after[m[s]].catalogKey == if m[s] in before then before[m[s]].catalogKey else None
    ensures forall t :: Current(before, tgt, t) && Alike(before[t], before[s]) ==> m[s] == t
    ensures m[s] in before ==> Current(before, tgt, m[s]) && Alike(before[m[s]], before[s])
    ensures forall i :: Current(after, tgt, i) && Alike(after[i], before[s]) ==> i == m[s]
  {
    SingularIsLone(before, src, tgt, s);
    assert m[s] in CurrentItems(after, tgt);
    forall t | Current(before, tgt, t) && Alike(before[t], before[s]) ensures m[s] == t {
      KeysMeetIff(before[t], before[s]);
      assert SameKeyTarget(before, tgt, s, t);
    }
    if m[s] in before {
      KeysMeetIff(before[m[s]], before[s]);
    }
    forall i | Current(after, tgt, i) && Alike(after[i], before[s]) ensures i == m[s] {
      KeysMeetIff(after[i], before[s]);
      OnlyImage(before, after, src, tgt, m, s, i);
    }
  }

  lemma OnlyImage(before: Items, after: Items, src: int, tgt: int, m: map<int, int>, s: int, i: int)
    requires CopiedByKey(before, after, src, tgt, m) && Lone(before, src, tgt, s)
    requires Current(after, tgt, i) && ItemKey(after[i]) == ItemKey(before[s])
    ensures i == m[s]
  {
    if i in before {
      assert SameKeyTarget(before, tgt, s, i);
    } else {
      var r :| r in m && m[r] == i;
      assert SameKeyTarget(before, src, s, r);
    }
  }

  /** The code spells no current item without a code, on either side. */
  ghost predicate SpellsNone(before: Items, src: int, tgt: int, code: Option<string>) {
    forall i :: (Current(before, src, i) || Current(before, tgt, i)) && !HasCode(before[i]) ==> !Spells(code, before[i])
  }

  ghost predicate CodeOnce(before: Items, disclosure: int, code: Option<string>) {
    forall i, j :: (Current(before, disclosure, i) && Current(before, disclosure, j) && before[i].code == code &&
                    before[j].code == code) ==> i == j
  }

  /** When a code stands once on either side and spells nothing, the one target item with it repeats the source. */
  lemma CodedItemFollows(before: Items, after: Items, src: int, tgt: int, m: map<int, int>, s: int)
    requires CopiedByKey(before, after, src, tgt, m) && Current(before, src, s) && HasCode(before[s])
    requires CodeOnce(before, src, before[s].code) && CodeOnce(before, tgt, before[s].code)
    requires SpellsNone(before, src, tgt, before[s].code)
    ensures s in m && Current(after, tgt, m[s]) && Repeats(after[m[s]], before[s])
    ensures forall t :: Current(before, tgt, t) && before[t].code == before[s].code ==> m[s] == t
    ensures m[s] in before ==> Current(before, tgt, m[s]) && before[m[s]].code == before[s].code
    ensures forall i :: Current(after, tgt, i) && after[i].code == before[s].code ==> i == m[s]
  {
    ItemFollows(before, after, src, tgt, m, s);
    assert forall i :: i in after && after[i].code == before[s].code ==> Alike(after[i], before[s]);
  }

  // ---------- what the copy makes of links, mappings and dependencies ----------

  /** A copy's parent is the copy of the source's parent, and none if that was not copied. */
  lemma ParentsFollow(before: Items, after: Items, src: int, tgt: int, m: map<int, int>, s: int)
    requires ItemsCloned(before, after, src, tgt, m) && Current(before, src, s)
    ensures s in m && m[s] in after
    ensures match before[s].parent
            case Some(p) => after[m[s]].parent == if Current(before, src, p) then Some(m[p]) else None
            case None => after[m[s]].parent == None
  {
    assert s in CurrentItems(before, src);
    if before[s].parent.Some? {
      var p := before[s].parent.value;
      assert p in CurrentItems(before, src) <==> Current(before, src, p);
    }
  }

  predicate SameMapping(a: Mapping, item: int, element: int, version: int) {
    a.item == item && a.element == element && a.version == version
  }

  /** Every current mapping of a copied item has its counterpart, and what is added copies one that had none. */
  lemma MappingsFollow(before: Mappings, after: Mappings, m: map<int, int>)
    requires MappingsCloned(before, after, m)
    ensures forall x :: x in before ==> x in after && after[x] == before[x]
    ensures forall x :: x in before && before[x].isCurrent && before[x].item in m ==>
              exists y :: y in after && SameMapping(after[y], m[before[x].item], before[x].element, before[x].version)
    ensures forall y :: y in after && y !in before ==>
              exists x :: x in before && before[x].isCurrent && before[x].item in m &&
                after[y] == Mapping(m[before[x].item], before[x].element, before[x].kind, before[x].version, true,
                                    before[x].validFrom, before[x].validTo)
    ensures forall y, z :: y in after && y !in before && z in before ==>
              !SameMapping(before[z], after[y].item, after[y].element, after[y].version)
  {
    forall x | x in before && before[x].isCurrent && before[x].item in m
      ensures exists y :: y in after && SameMapping(after[y], m[before[x].item], before[x].element, before[x].version)
    {
      var y :| y in after && SameTriple(after[y], m[before[x].item], before[x].element, before[x].version);
      assert SameMapping(after[y], m[before[x].item], before[x].element, before[x].version);
    }
    forall y, z | y in after && y !in before && z in before
      ensures !SameMapping(before[z], after[y].item, after[y].element, after[y].version)
    {
      assert !SameTriple(before[z], after[y].item, after[y].element, after[y].version);
    }
  }

  predicate SameDependency(d: Dependency, item: int, dependsOn: int, kind: string) {
    d.item == item && d.dependsOn == dependsOn && d.kind == kind
  }

  /** Every dependency between copied items has its counterpart, and what is added copies one that had none. */
  lemma DependenciesFollow(before: Dependencies, after: Dependencies, m: map<int, int>)
    requires DependenciesCloned(before, after, m)
    ensures forall x :: x in before ==> x in after && after[x] == before[x]
    ensures forall x :: x in before && before[x].item in m && before[x].dependsOn in m ==>
              exists y :: y in after &&
                SameDependency(after[y], m[before[x].item], m[before[x].dependsOn], before[x].kind)
    ensures forall y :: y in after && y !in before ==>
              exists x :: x in before && before[x].item in m && before[x].dependsOn in m &&
                after[y] == Dependency(m[before[x].item], m[before[x].dependsOn], before[x].kind, before[x].condition)
    ensures forall y, z :: y in after && y !in before && z in before ==>
              !SameDependency(before[z], after[y].item, after[y].dependsOn, after[y].kind)
  {
    forall x | x in before && before[x].item in m && before[x].dependsOn in m
      ensures exists y :: y in after &&
                SameDependency(after[y], m[before[x].item], m[before[x].dependsOn], before[x].kind)
    {
      assert Internal(before[x], m);
      var y :| y in after && SameEdge(after[y], m[before[x].item], m[before[x].dependsOn], before[x].kind);
      assert SameDependency(after[y], m[before[x].item], m[before[x].dependsOn], before[x].kind);
    }
    forall y, z | y in after && y !in before && z in before
      ensures !SameDependency(before[z], after[y].item, after[y].dependsOn, after[y].kind)
    {
      assert !SameEdge(before[z], after[y].item, after[y].dependsOn, after[y].kind);
    }
  }

  /** Current mappings of alike items to one element, the source's version of which the target item does not have. */
  ghost predicate InTheWay(t: Tables, src: int, tgt: int, x: int, z: int) {
    && x in t.mappings && z in t.mappings && t.mappings[x].isCurrent && t.mappings[z].isCurrent
    && t.mappings[x].element == t.mappings[z].element
    && Current(t.items, src, t.mappings[x].item) && Current(t.items, tgt, t.mappings[z].item)
    && Alike(t.items[t.mappings[x].item], t.items[t.mappings[z].item])
    && forall w :: w in t.mappings ==>
         !SameMapping(t.mappings[w], t.mappings[z].item, t.mappings[x].element, t.mappings[x].version)
  }

  /** When the copy is refused. */
  lemma ClashesIff(t: Tables, src: int, tgt: int)
    ensures Clashes(t, src, tgt) <==> exists x, z :: InTheWay(t, src, tgt, x, z)
  {
    forall x, z | x in t.mappings && z in t.mappings
      ensures ClashingPair(t, src, tgt, t.mappings[x], t.mappings[z]) <==> InTheWay(t, src, tgt, x, z)
    {
      ClashingPairMeans(t, src, tgt, x, z);
    }
    if Clashes(t, src, tgt) {
      var x, z :| x in t.mappings && z in t.mappings && ClashingPair(t, src, tgt, t.mappings[x], t.mappings[z]);
      assert InTheWay(t, src, tgt, x, z);
    }
  }

  lemma ClashingPairMeans(t: Tables, src: int, tgt: int, x: int, z: int)
    requires x in t.mappings && z in t.mappings
    ensures ClashingPair(t, src, tgt, t.mappings[x], t.mappings[z]) <==> InTheWay(t, src, tgt, x, z)
  {
    var i, j := t.mappings[x].item, t.mappings[z].item;
    assert i in CurrentItems(t.items, src) <==> Current(t.items, src, i);
    assert j in CurrentItems(t.items, tgt) <==> Current(t.items, tgt, j);
    if Current(t.items, src, i) && Current(t.items, tgt, j) {
      KeysMeetIff(t.items[i], t.items[j]);
    }
    forall w | w in t.mappings
      ensures SameTriple(t.mappings[w], j, t.mappings[x].element, t.mappings[x].version) <==>
              SameMapping(t.mappings[w], j, t.mappings[x].element, t.mappings[x].version)
    {
    }
  }
}
