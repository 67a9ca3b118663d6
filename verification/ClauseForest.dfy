/**
 Forests of numbered clauses and their preorder listings. A clause's place in the forest is fixed by
 the listing of tree depths alone: `Flatten` is injective, and every legal listing of depths has a forest.
 */
module ClauseForest {
  import opened Prelude

  datatype Tree = Node(labelText: string, text: string, children: seq<Tree>)

  datatype Clause = Clause(labelText: string, text: string)

  /** One line of a preorder listing. */
  datatype Entry = Entry(clause: Clause, depth: nat)

  function Flatten(forest: seq<Tree>, depth: nat): seq<Entry> {
    if forest == [] then []
    else
      var t := forest[0];
      [Entry(Clause(t.labelText, t.text), depth)] + Flatten(t.children, depth + 1) + Flatten(forest[1..], depth)
  }

  lemma {:induction false} FlattenDeep(forest: seq<Tree>, depth: nat)
    ensures forall i :: 0 <= i < |Flatten(forest, depth)| ==> Flatten(forest, depth)[i].depth >= depth
    ensures forest != [] ==> Flatten(forest, depth) != [] && Flatten(forest, depth)[0].depth == depth
  {
    if forest != [] {
      FlattenDeep(forest[0].children, depth + 1);
      FlattenDeep(forest[1..], depth);
    }
  }

  lemma FlattenCons(f: seq<Tree>, depth: nat)
    requires f != []
    ensures Flatten(f, depth) ==
            [Entry(Clause(f[0].labelText, f[0].text), depth)] +
                (Flatten(f[0].children, depth + 1) + Flatten(f[1..], depth))
  {
    var e, c, r := [Entry(Clause(f[0].labelText, f[0].text), depth)], Flatten(f[0].children, depth + 1),
        Flatten(f[1..], depth);
    assert (e + c) + r == e + (c + r);
  }

  lemma HeadAndTail<T>(x: T, s: seq<T>, y: T, t: seq<T>)
    requires [x] + s == [y] + t
    ensures x == y && s == t
  {
    assert ([x] + s)[0] == x && ([y] + t)[0] == y;
    assert ([x] + s)[1..] == s && ([y] + t)[1..] == t;
  }

  lemma DepthTells(a: seq<Entry>, b: seq<Entry>, a': seq<Entry>, b': seq<Entry>, depth: nat)
    requires forall i :: 0 <= i < |a'| ==> a'[i].depth > depth
    requires b != [] ==> b[0].depth == depth
    ensures |a| < |a'| ==> a + b != a' + b'
  {
    if |a| < |a'| {
      assert (a' + b')[|a|] == a'[|a|];
      assert b != [] ==> (a + b)[|a|] == b[0];
    }
  }

  /** The children of the first tree end where the listing comes back to its depth. */
  lemma SplitAtDepth(a: seq<Entry>, b: seq<Entry>, a': seq<Entry>, b': seq<Entry>, depth: nat)
    requires a + b == a' + b'
    requires forall i :: 0 <= i < |a| ==> a[i].depth > depth
    requires forall i :: 0 <= i < |a'| ==> a'[i].depth > depth
    requires b != [] ==> b[0].depth == depth
    requires b' != [] ==> b'[0].depth == depth
    ensures a == a' && b == b'
  {
    DepthTells(a, b, a', b', depth);
    DepthTells(a', b', a, b, depth);
    assert (a + b)[..|a|] == a && (a + b)[|a|..] == b;
    assert (a' + b')[..|a'|] == a' && (a' + b')[|a'|..] == b';
  }

  /** A forest is determined by its preorder listing with depths. */
  lemma {:induction false} FlattenInjective(f: seq<Tree>, g: seq<Tree>, depth: nat)
    requires Flatten(f, depth) == Flatten(g, depth)
    ensures f == g
  {
    FlattenDeep(f, depth);
    FlattenDeep(g, depth);
    if f != [] {
      FirstTreesEqual(f, g, depth);
      FlattenInjective(f[0].children, g[0].children, depth + 1);
      FlattenInjective(f[1..], g[1..], depth);
      assert f == [f[0]] + f[1..] && g == [g[0]] + g[1..];
    }
  }

  lemma FirstTreesEqual(f: seq<Tree>, g: seq<Tree>, depth: nat)
    requires f != [] && g != [] && Flatten(f, depth) == Flatten(g, depth)
    ensures f[0].labelText == g[0].labelText && f[0].text == g[0].text
    ensures Flatten(f[0].children, depth + 1) == Flatten(g[0].children, depth + 1)
    ensures Flatten(f[1..], depth) == Flatten(g[1..], depth)
  {
    FlattenCons(f, depth);
    FlattenCons(g, depth);
    var tf, uf := Flatten(f[0].children, depth + 1), Flatten(g[0].children, depth + 1);
    HeadAndTail(Entry(Clause(f[0].labelText, f[0].text), depth), tf + Flatten(f[1..], depth),
                Entry(Clause(g[0].labelText, g[0].text), depth), uf + Flatten(g[1..], depth));
    FlattenDeep(f[0].children, depth + 1);
    FlattenDeep(g[0].children, depth + 1);
    FlattenDeep(f[1..], depth);
    FlattenDeep(g[1..], depth);
    SplitAtDepth(tf, Flatten(f[1..], depth), uf, Flatten(g[1..], depth), depth);
  }

  // ---------- depths and parents by position ----------

  /** Depths of a preorder listing: the first is 1, none exceeds its predecessor by more than 1. */
  ghost predicate LegalDepths(td: seq<nat>) {
    && (forall i :: 0 <= i < |td| ==> td[i] >= 1)
    && (td != [] ==> td[0] == 1)
    && (forall i :: 0 < i < |td| ==> GrowsByOne(td, i))
  }

  predicate GrowsByOne(td: seq<nat>, i: nat)
    requires 0 < i < |td|
  {
    td[i] <= td[i - 1] + 1
  }

  /** The last position before `i` at depth `v`. */
  function LastAt(td: seq<nat>, i: nat, v: nat): (r: Option<nat>)
    requires i <= |td|
    ensures r.Some? ==> r.value < i && td[r.value] == v
  {
    if i == 0 then None else if td[i - 1] == v then Some(i - 1) else LastAt(td, i - 1, v)
  }

  lemma {:induction false} LastAtInPrefix(td: seq<nat>, n: nat, i: nat, v: nat)
    requires i <= n <= |td|
    ensures LastAt(td[..n], i, v) == LastAt(td, i, v)
  {
    if i > 0 {
      LastAtInPrefix(td, n, i - 1, v);
    }
  }

  lemma {:induction false} LastAtIsLast(td: seq<nat>, i: nat, v: nat, k: nat)
    requires k < i <= |td| && td[k] == v
    ensures LastAt(td, i, v).Some? && LastAt(td, i, v).value >= k
  {
    if td[i - 1] != v {
      LastAtIsLast(td, i - 1, v, k);
    }
  }

  function ParentAt(td: seq<nat>, i: nat): Option<nat>
    requires i < |td|
  {
    if td[i] == 0 then None else LastAt(td, i, td[i] - 1)
  }

  /** Where the subtree of `i` ends: the next position that is not deeper. */
  function End(td: seq<nat>, i: nat, from: nat): (e: nat)
    requires i < from <= |td|
    ensures from <= e <= |td|
    ensures forall k :: from <= k < e ==> td[k] > td[i]
    ensures e < |td| ==> td[e] <= td[i]
    decreases |td| - from
  {
    if from < |td| && td[from] > td[i] then End(td, i, from + 1) else from
  }

  /** The positions from `lo` on whose parent is `p`. */
  function ChildrenFrom(td: seq<nat>, p: Option<nat>, lo: nat): (kids: seq<nat>)
    requires lo <= |td|
    ensures forall i :: 0 <= i < |kids| ==> lo <= kids[i] < |td|
    decreases |td| - lo
  {
    if lo == |td| then []
    else if ParentAt(td, lo) != p then ChildrenFrom(td, p, lo + 1)
    else [lo] + ChildrenFrom(td, p, lo + 1)
  }

  function ChildrenOf(td: seq<nat>, i: nat): (kids: seq<nat>)
    requires i < |td|
    ensures forall j :: 0 <= j < |kids| ==> i < kids[j] < |td|
  {
    ChildrenFrom(td, Some(i), i + 1)
  }

  function Roots(td: seq<nat>): (kids: seq<nat>)
    ensures forall j :: 0 <= j < |kids| ==> kids[j] < |td|
  {
    ChildrenFrom(td, None, 0)
  }

  /** The trees at the given positions, children being the positions that have them as parent. */
  function TreesAt(cs: seq<Clause>, td: seq<nat>, kids: seq<nat>, bound: nat): (trees: seq<Tree>)
    requires |cs| == |td|
    requires forall j :: 0 <= j < |kids| ==> bound <= kids[j] < |td|
    ensures |trees| == |kids|
    decreases |td| - bound, |kids|
  {
    if kids == [] then []
    else
      var k := kids[0];
      [Node(cs[k].labelText, cs[k].text, TreesAt(cs, td, ChildrenOf(td, k), k + 1))] + TreesAt(cs, td, kids[1..], bound)
  }

  function Listing(cs: seq<Clause>, td: seq<nat>): (entries: seq<Entry>)
    requires |cs| == |td|
    ensures |entries| == |cs|
    ensures forall i :: 0 <= i < |cs| ==> entries[i] == Entry(cs[i], td[i])
  {
    seq(|cs|, i requires 0 <= i < |cs| => Entry(cs[i], td[i]))
  }

  /** The parent of a position is the last one before it that is one level up, and nothing in between comes as high. */
  lemma {:induction false} DepthsInBetween(td: seq<nat>, i: nat, j: nat)
    requires LegalDepths(td) && i < j < |td| && td[j] > td[i]
    requires forall k :: i < k < j ==> td[k] > td[i]
    ensures td[j] == td[i] + 1 ==> ParentAt(td, j) == Some(i)
    ensures td[j] > td[i] + 1 ==> ParentAt(td, j).Some? && ParentAt(td, j).value > i
  {
    if td[j] > td[i] + 1 {
      ReachesDepth(td, i, j, td[j] - 1);
      var k :| i < k < j && td[k] == td[j] - 1;
      LastAtIsLast(td, j, td[j] - 1, k);
    } else {
      LastAtIsLast(td, j, td[i], i);
    }
  }

  /** Depths grow one at a time, so every level between is passed. */
  lemma {:induction false} ReachesDepth(td: seq<nat>, i: nat, j: nat, v: nat)
    requires LegalDepths(td) && i < j < |td| && td[i] < v < td[j]
    ensures exists k :: i < k < j && td[k] == v
    decreases j
  {
    assert GrowsByOne(td, j);
    if td[j - 1] < td[j] {
      if td[j - 1] != v {
        ReachesDepth(td, i, j - 1, v);
      }
    } else {
      ReachesDepth(td, i, j - 1, v);
    }
  }

  // ---------- the listing, read off the positions ----------

  /** The preorder listing of the trees below `p` from position `lo` on. */
  function FlatFrom(cs: seq<Clause>, td: seq<nat>, p: Option<nat>, lo: nat, depth: nat): seq<Entry>
    requires |cs| == |td| && lo <= |td|
    decreases |td| - lo
  {
    if lo == |td| then []
    else if ParentAt(td, lo) != p then FlatFrom(cs, td, p, lo + 1, depth)
    else [Entry(cs[lo], depth)] + (FlatFrom(cs, td, Some(lo), lo + 1, depth + 1) + FlatFrom(cs, td, p, lo + 1, depth))
  }

  lemma {:induction false} FlattenIsFlat(cs: seq<Clause>, td: seq<nat>, p: Option<nat>, lo: nat, bound: nat, depth: nat)
    requires |cs| == |td| && bound <= lo <= |td|
    ensures Flatten(TreesAt(cs, td, ChildrenFrom(td, p, lo), bound), depth) == FlatFrom(cs, td, p, lo, depth)
    decreases |td| - lo
  {
    if lo < |td| {
      FlattenIsFlat(cs, td, p, lo + 1, bound, depth);
      if ParentAt(td, lo) == p {
        FlattenIsFlat(cs, td, Some(lo), lo + 1, lo + 1, depth + 1);
        FlattenHere(cs, td, p, lo, bound, depth);
      }
    }
  }

  lemma FlattenHere(cs: seq<Clause>, td: seq<nat>, p: Option<nat>, lo: nat, bound: nat, depth: nat)
    requires |cs| == |td| && bound <= lo < |td| && ParentAt(td, lo) == p
    ensures Flatten(TreesAt(cs, td, ChildrenFrom(td, p, lo), bound), depth) ==
            [Entry(cs[lo], depth)] +
            (Flatten(TreesAt(cs, td, ChildrenFrom(td, Some(lo), lo + 1), lo + 1), depth + 1) +
             Flatten(TreesAt(cs, td, ChildrenFrom(td, p, lo + 1), bound), depth))
  {
    FlattenFirst(cs, td, lo, ChildrenFrom(td, p, lo + 1), bound, depth);
  }

  /** The first tree's entry, then its subtree, then the trees after it. */
  lemma FlattenFirst(cs: seq<Clause>, td: seq<nat>, lo: nat, rest: seq<nat>, bound: nat, depth: nat)
    requires |cs| == |td| && bound <= lo < |td| && forall j :: 0 <= j < |rest| ==> bound <= rest[j] < |td|
    ensures Flatten(TreesAt(cs, td, [lo] + rest, bound), depth) ==
            [Entry(cs[lo], depth)] +
            (Flatten(TreesAt(cs, td, ChildrenOf(td, lo), lo + 1), depth + 1) +
             Flatten(TreesAt(cs, td, rest, bound), depth))
  {
    var kids := [lo] + rest;
    assert kids[0] == lo && kids[1..] == rest;
    FlattenCons(TreesAt(cs, td, kids, bound), depth);
  }

  /** Inside the subtree of `k`, nothing has a parent above `k`. */
  lemma {:induction false} SkipSubtree(cs: seq<Clause>, td: seq<nat>, p: Option<nat>, k: nat, lo: nat, depth: nat)
    requires |cs| == |td| && LegalDepths(td) && k < |td| && k < lo <= End(td, k, k + 1)
    requires p.Some? ==> p.value < k
    ensures FlatFrom(cs, td, p, lo, depth) == FlatFrom(cs, td, p, End(td, k, k + 1), depth)
    decreases |td| - lo
  {
    if lo < End(td, k, k + 1) {
      DepthsInBetween(td, k, lo);
      SkipSubtree(cs, td, p, k, lo + 1, depth);
    }
  }

  lemma {:induction false} NoLaterChild(cs: seq<Clause>, td: seq<nat>, lo: nat, p: nat, at: nat, depth: nat)
    requires |cs| == |td| && LegalDepths(td) && p < lo <= at <= |td| && (lo < |td| ==> td[lo] <= td[p])
    ensures FlatFrom(cs, td, Some(p), at, depth) == []
    decreases |td| - at
  {
    if at < |td| {
      if td[at] == td[p] + 1 {
        PassesDepth(td, lo, at, td[p]);
        var k :| lo <= k < at && td[k] == td[p];
        LastAtIsLast(td, at, td[p], k);
      }
      NoLaterChild(cs, td, lo, p, at + 1, depth);
    }
  }

  lemma {:induction false} PassesDepth(td: seq<nat>, lo: nat, at: nat, v: nat)
    requires LegalDepths(td) && lo < at < |td| && td[lo] <= v < td[at]
    ensures exists k :: lo <= k < at && td[k] == v
  {
    if td[lo] < v {
      ReachesDepth(td, lo, at, v);
    }
  }

  /** From `lo` on: `p` is the parent whose subtree ends at `end`, and `lo` is its child or that end. */
  ghost predicate AtChild(td: seq<nat>, p: Option<nat>, lo: nat, end: nat) {
    && lo <= end <= |td|
    && (if p.Some? then p.value < lo && end == End(td, p.value, p.value + 1) else end == |td|)
    && (lo < end ==> ParentAt(td, lo) == p && td[lo] == ChildDepth(td, p))
  }

  function ChildDepth(td: seq<nat>, p: Option<nat>): nat
    requires p.Some? ==> p.value < |td|
  {
    if p.Some? then td[p.value] + 1 else 1
  }

  /** The trees below one parent, from a child on, list exactly the positions up to the end of the parent's subtree. */
  lemma {:induction false} TreesList(cs: seq<Clause>, td: seq<nat>, p: Option<nat>, lo: nat, end: nat)
    requires |cs| == |td| && LegalDepths(td) && AtChild(td, p, lo, end)
    ensures FlatFrom(cs, td, p, lo, ChildDepth(td, p)) == Listing(cs, td)[lo..end]
    decreases |td| - lo
  {
    if lo == end {
      NothingAtEnd(cs, td, p, end, ChildDepth(td, p));
    } else {
      var next := NextChild(td, p, lo, end);
      TreesList(cs, td, Some(lo), lo + 1, next);
      TreesList(cs, td, p, next, end);
      FlatFirst(cs, td, p, lo, next, end);
    }
  }

  lemma NothingAtEnd(cs: seq<Clause>, td: seq<nat>, p: Option<nat>, end: nat, depth: nat)
    requires |cs| == |td| && LegalDepths(td) && AtChild(td, p, end, end)
    ensures FlatFrom(cs, td, p, end, depth) == []
  {
    if p.Some? {
      NoLaterChild(cs, td, end, p.value, end, depth);
    }
  }

  /** The first child's entry, its subtree, and the children after it. */
  lemma FlatFirst(cs: seq<Clause>, td: seq<nat>, p: Option<nat>, lo: nat, next: nat, end: nat)
    requires |cs| == |td| && LegalDepths(td) && AtChild(td, p, lo, end) && lo < next <= end &&
             AtChild(td, Some(lo), lo + 1, next)
    requires FlatFrom(cs, td, Some(lo), lo + 1, ChildDepth(td, Some(lo))) == Listing(cs, td)[lo + 1..next]
    requires FlatFrom(cs, td, p, next, ChildDepth(td, p)) == Listing(cs, td)[next..end]
    ensures FlatFrom(cs, td, p, lo, ChildDepth(td, p)) == Listing(cs, td)[lo..end]
  {
    SkipSubtree(cs, td, p, lo, lo + 1, ChildDepth(td, p));
    JoinSlices(Listing(cs, td), lo, next, end);
  }

  lemma JoinSlices(l: seq<Entry>, lo: nat, next: nat, end: nat)
    requires lo < next <= end <= |l|
    ensures l[lo..end] == [l[lo]] + (l[lo + 1..next] + l[next..end])
  {
  }

  /** Both where the subtree of a child ends and where it begins, the walk over children goes on. */
  lemma NextChild(td: seq<nat>, p: Option<nat>, lo: nat, end: nat) returns (next: nat)
    requires LegalDepths(td) && AtChild(td, p, lo, end) && lo < end
    ensures lo < next <= end && AtChild(td, p, next, end) && AtChild(td, Some(lo), lo + 1, next)
  {
    next := End(td, lo, lo + 1);
    if lo + 1 < next {
      DepthsInBetween(td, lo, lo + 1);
    }
    if next < end && p.Some? {
      DepthsInBetween(td, p.value, next);
    }
  }

  /** Every legal listing has its forest. */
  lemma {:induction false} ForestOfListing(cs: seq<Clause>, td: seq<nat>)
    requires |cs| == |td| && LegalDepths(td)
    ensures Flatten(TreesAt(cs, td, Roots(td), 0), 1) == Listing(cs, td)
  {
    TreesList(cs, td, None, 0, |td|);
    FlattenIsFlat(cs, td, None, 0, 0, 1);
    assert Listing(cs, td)[0..|td|] == Listing(cs, td);
  }
}
