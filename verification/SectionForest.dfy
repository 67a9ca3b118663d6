/**
 Cloning the section tree of the umbrella standard. The recursion follows child lists built from
 `parent_section_id`, which may dangle or run in circles; it starts only from sections without a parent.
 */
module SectionForest {
  import opened Prelude

  datatype Section = Section(parent: Option<int>, code: Option<string>, title: string, sortOrder: int)

  /** The loaded sections by id, and the order in which the query returned them. */
  datatype Table = Table(rows: map<int, Section>, order: seq<int>)

  ghost predicate WellLoaded(t: Table) {
    Distinct(t.order) && Elements(t.order) == t.rows.Keys
  }

  function ChildrenIn(t: Table, ids: seq<int>, parent: Option<int>): (kids: seq<int>)
    ensures |kids| <= |ids|
    ensures forall k :: k in kids ==> k in ids && k in t.rows && t.rows[k].parent == parent
    ensures forall k :: k in ids && k in t.rows && t.rows[k].parent == parent ==> k in kids
  {
    if ids == [] then []
    else (if ids[0] in t.rows && t.rows[ids[0]].parent == parent then [ids[0]] else [])
         + ChildrenIn(t, ids[1..], parent)
  }

  function Children(t: Table, parent: Option<int>): (kids: seq<int>)
    ensures |kids| <= |t.order|
    ensures forall k :: k in kids ==> k in t.rows && t.rows[k].parent == parent
  {
    ChildrenIn(t, t.order, parent)
  }

  lemma {:induction false} ChildrenDistinct(t: Table, ids: seq<int>, parent: Option<int>)
    requires Distinct(ids)
    ensures Distinct(ChildrenIn(t, ids, parent))
  {
    if ids != [] {
      assert Distinct(ids[1..]);
      ChildrenDistinct(t, ids[1..], parent);
      assert ids[0] !in ids[1..];
    }
  }

  // ---------- paths from a root ----------

  /** Each section is the parent of the next, and the first has none. */
  ghost predicate RootPath(t: Table, path: seq<int>) {
    && path != []
    && (forall i :: 0 <= i < |path| ==> path[i] in t.rows)
    && t.rows[path[0]].parent == None
    && (forall i :: 0 < i < |path| ==> t.rows[path[i]].parent == Some(path[i - 1]))
  }

  lemma LastParent(t: Table, p: seq<int>)
    requires RootPath(t, p)
    ensures t.rows[Last(p)].parent == if |p| == 1 then None else Some(p[|p| - 2])
  {
    var i := |p| - 1;
    assert i > 0 ==> t.rows[p[i]].parent == Some(p[i - 1]);
  }

  lemma DistinctConcat(a: seq<int>, b: seq<int>)
    requires Distinct(a) && Distinct(b)
    requires forall x :: x in a ==> x !in b
    ensures Distinct(a + b)
  {
    forall i, j | 0 <= i < j < |a + b| ensures (a + b)[i] != (a + b)[j] {
      assert i < |a| <= j ==> a[i] in a && b[j - |a|] in b;
    }
  }

  /** A section has one parent, so it has at most one path from a root. */
  lemma {:induction false} PathUnique(t: Table, p: seq<int>, q: seq<int>)
    requires RootPath(t, p) && RootPath(t, q) && Last(p) == Last(q)
    ensures p == q
  {
    LastParent(t, p);
    LastParent(t, q);
    if |p| > 1 {
      var p', q' := p[..|p| - 1], q[..|q| - 1];
      assert p[|p| - 2] == q[|q| - 2];
      PathUnique(t, p', q');
      assert p == p' + [Last(p)] && q == q' + [Last(q)];
    } else {
      assert p == [Last(p)] && q == [Last(q)];
    }
  }

  lemma PathPrefix(t: Table, p: seq<int>, n: nat)
    requires RootPath(t, p) && 0 < n <= |p|
    ensures RootPath(t, p[..n])
  {
  }

  /** No path repeats a section, so none is longer than the table. */
  lemma PathDistinct(t: Table, p: seq<int>)
    requires RootPath(t, p)
    ensures Distinct(p) && |p| <= |t.rows.Keys|
  {
    forall i, j | 0 <= i < j < |p| ensures p[i] != p[j] {
      if p[i] == p[j] {
        PathPrefix(t, p, i + 1);
        PathPrefix(t, p, j + 1);
        PathUnique(t, p[..i + 1], p[..j + 1]);
      }
    }
    DistinctFits(p, t.rows.Keys);
  }

  lemma PathExtends(t: Table, path: seq<int>, child: int)
    requires RootPath(t, path) && child in t.rows && t.rows[child].parent == Some(Last(path))
    ensures RootPath(t, path + [child]) && |path| < |t.rows.Keys|
  {
    PathDistinct(t, path + [child]);
  }

  // ---------- what the recursion visits ----------

  /** The sections visited below the last section of the path, itself first: the order of the recursive calls. */
  ghost function Branch(t: Table, path: seq<int>): seq<int>
    requires RootPath(t, path)
    decreases |t.rows.Keys| - |path|, |t.order| + 1
  {
    PathDistinct(t, path);
    [Last(path)] + Branches(t, path, Children(t, Some(Last(path))))
  }

  ghost function Branches(t: Table, path: seq<int>, kids: seq<int>): seq<int>
    requires RootPath(t, path)
    requires forall k :: k in kids ==> k in t.rows && t.rows[k].parent == Some(Last(path))
    decreases |t.rows.Keys| - |path|, |kids|
  {
    if kids == [] then []
    else
      PathExtends(t, path, kids[0]);
      Branch(t, path + [kids[0]]) + Branches(t, path, kids[1..])
  }

  ghost predicate Below(t: Table, path: seq<int>, v: int) {
    exists q :: RootPath(t, q) && path <= q && Last(q) == v
  }

  lemma {:induction false} VisitedIsBelow(t: Table, path: seq<int>, v: int)
    requires RootPath(t, path) && v in Branch(t, path)
    ensures Below(t, path, v)
    decreases |t.rows.Keys| - |path|, |t.order| + 1
  {
    if v == Last(path) {
      assert RootPath(t, path) && path <= path;
    } else {
      PathDistinct(t, path);
      VisitedInBranches(t, path, Children(t, Some(Last(path))), v);
    }
  }

  lemma {:induction false} VisitedInBranches(t: Table, path: seq<int>, kids: seq<int>, v: int)
    requires RootPath(t, path)
    requires forall k :: k in kids ==> k in t.rows && t.rows[k].parent == Some(Last(path))
    requires v in Branches(t, path, kids)
    ensures exists k :: k in kids && RootPath(t, path + [k]) && Below(t, path + [k], v)
    ensures Below(t, path, v)
    decreases |t.rows.Keys| - |path|, |kids|
  {
    PathExtends(t, path, kids[0]);
    if v in Branch(t, path + [kids[0]]) {
      VisitedIsBelow(t, path + [kids[0]], v);
      var q :| RootPath(t, q) && path + [kids[0]] <= q && Last(q) == v;
      assert path <= q;
    } else {
      VisitedInBranches(t, path, kids[1..], v);
    }
  }

  lemma {:induction false} BelowIsVisited(t: Table, path: seq<int>, q: seq<int>)
    requires WellLoaded(t)
    requires RootPath(t, path) && RootPath(t, q) && path <= q
    ensures Last(q) in Branch(t, path)
    decreases |q| - |path|
  {
    if |path| < |q| {
      var child := q[|path|];
      assert child in Elements(t.order);
      assert t.rows[child].parent == Some(Last(path));
      PathExtends(t, path, child);
      assert path + [child] <= q;
      BelowIsVisited(t, path + [child], q);
      BranchAmong(t, path, Children(t, Some(Last(path))), child, Last(q));
    } else {
      assert path == q;
    }
  }

  lemma {:induction false} BranchAmong(t: Table, path: seq<int>, kids: seq<int>, child: int, v: int)
    requires RootPath(t, path) && child in kids && RootPath(t, path + [child])
    requires forall k :: k in kids ==> k in t.rows && t.rows[k].parent == Some(Last(path))
    requires v in Branch(t, path + [child])
    ensures v in Branches(t, path, kids)
    decreases |kids|
  {
    PathExtends(t, path, kids[0]);
    if child != kids[0] {
      BranchAmong(t, path, kids[1..], child, v);
    }
  }

  lemma {:induction false} BranchDistinct(t: Table, path: seq<int>)
    requires WellLoaded(t) && RootPath(t, path)
    ensures Distinct(Branch(t, path))
    decreases |t.rows.Keys| - |path|, |t.order| + 1
  {
    var kids := Children(t, Some(Last(path)));
    PathDistinct(t, path);
    ChildrenDistinct(t, t.order, Some(Last(path)));
    BranchesDistinct(t, path, kids);
    if Last(path) in Branches(t, path, kids) {
      VisitedInBranches(t, path, kids, Last(path));
      var k :| k in kids && RootPath(t, path + [k]) && Below(t, path + [k], Last(path));
      var q :| RootPath(t, q) && path + [k] <= q && Last(q) == Last(path);
      PathUnique(t, path, q);
    }
  }

  lemma {:induction false} BranchesDistinct(t: Table, path: seq<int>, kids: seq<int>)
    requires WellLoaded(t) && RootPath(t, path) && Distinct(kids)
    requires forall k :: k in kids ==> k in t.rows && t.rows[k].parent == Some(Last(path))
    ensures Distinct(Branches(t, path, kids))
    decreases |t.rows.Keys| - |path|, |kids|
  {
    if kids != [] {
      PathExtends(t, path, kids[0]);
      var first, rest := Branch(t, path + [kids[0]]), Branches(t, path, kids[1..]);
      BranchDistinct(t, path + [kids[0]]);
      assert Distinct(kids[1..]);
      BranchesDistinct(t, path, kids[1..]);
      forall v | v in first ensures v !in rest {
        SiblingsApart(t, path, kids, v);
      }
      DistinctConcat(first, rest);
    }
  }

  /** Two siblings share no descendant: the paths through them to it would be two. */
  lemma SiblingsApart(t: Table, path: seq<int>, kids: seq<int>, v: int)
    requires RootPath(t, path) && Distinct(kids) && kids != []
    requires forall k :: k in kids ==> k in t.rows && t.rows[k].parent == Some(Last(path))
    requires RootPath(t, path + [kids[0]])
    requires v in Branch(t, path + [kids[0]])
    ensures v !in Branches(t, path, kids[1..])
  {
    VisitedIsBelow(t, path + [kids[0]], v);
    var p :| RootPath(t, p) && path + [kids[0]] <= p && Last(p) == v;
    TurnsTo(path, kids[0], p);
    if v in Branches(t, path, kids[1..]) {
      VisitedInBranches(t, path, kids[1..], v);
      var k :| k in kids[1..] && RootPath(t, path + [k]) && Below(t, path + [k], v);
      var q :| RootPath(t, q) && path + [k] <= q && Last(q) == v;
      TurnsTo(path, k, q);
      PathUnique(t, p, q);
    }
  }

  lemma TurnsTo(path: seq<int>, k: int, q: seq<int>)
    requires path + [k] <= q
    ensures |path| < |q| && q[|path|] == k
  {
    assert (path + [k])[|path|] == k;
  }

  // ---------- all roots ----------

  ghost function RootBranches(t: Table, roots: seq<int>): seq<int>
    requires forall r :: r in roots ==> r in t.rows && t.rows[r].parent == None
  {
    if roots == [] then []
    else
      var r := roots[0];
      assert r in roots && forall i :: 0 <= i < |[r]| ==> [r][i] == r;
      Branch(t, [r]) + RootBranches(t, roots[1..])
  }

  ghost predicate Rooted(t: Table, v: int) {
    exists q :: RootPath(t, q) && Last(q) == v
  }

  ghost predicate RootedAmong(t: Table, roots: seq<int>, v: int) {
    exists q :: RootPath(t, q) && q[0] in roots && Last(q) == v
  }

  lemma OneRootExact(t: Table, r: int, v: int)
    requires WellLoaded(t) && RootPath(t, [r])
    ensures v in Branch(t, [r]) <==> RootedAmong(t, [r], v)
  {
    if v in Branch(t, [r]) {
      VisitedIsBelow(t, [r], v);
      var q :| RootPath(t, q) && [r] <= q && Last(q) == v;
      assert q[0] in [r];
    }
    if RootedAmong(t, [r], v) {
      var q :| RootPath(t, q) && q[0] in [r] && Last(q) == v;
      assert [r] <= q;
      BelowIsVisited(t, [r], q);
    }
  }

  lemma {:induction false} RootBranchesExact(t: Table, roots: seq<int>)
    requires WellLoaded(t) && Distinct(roots)
    requires forall r :: r in roots ==> r in t.rows && t.rows[r].parent == None
    ensures Distinct(RootBranches(t, roots))
    ensures forall v :: v in RootBranches(t, roots) <==> RootedAmong(t, roots, v)
  {
    if roots != [] {
      var r, rest := roots[0], roots[1..];
      assert Distinct(rest);
      RootBranchesExact(t, rest);
      assert RootPath(t, [r]);
      BranchDistinct(t, [r]);
      forall v
        ensures v in Branch(t, [r]) <==> RootedAmong(t, [r], v)
        ensures v in Branch(t, [r]) ==> v !in RootBranches(t, rest)
        ensures RootedAmong(t, roots, v) <==> RootedAmong(t, [r], v) || RootedAmong(t, rest, v)
      {
        OneRootExact(t, r, v);
        RootsApart(t, roots, v);
      }
      DistinctConcat(Branch(t, [r]), RootBranches(t, rest));
    }
  }

  lemma RootsApart(t: Table, roots: seq<int>, v: int)
    requires Distinct(roots) && roots != []
    ensures !(RootedAmong(t, [roots[0]], v) && RootedAmong(t, roots[1..], v))
    ensures RootedAmong(t, roots, v) <==> RootedAmong(t, [roots[0]], v) || RootedAmong(t, roots[1..], v)
  {
    if RootedAmong(t, roots, v) {
      var q :| RootPath(t, q) && q[0] in roots && Last(q) == v;
      assert q[0] in [roots[0]] || q[0] in roots[1..];
    }
    if RootedAmong(t, [roots[0]], v) && RootedAmong(t, roots[1..], v) {
      var p :| RootPath(t, p) && p[0] in [roots[0]] && Last(p) == v;
      var q :| RootPath(t, q) && q[0] in roots[1..] && Last(q) == v;
      PathUnique(t, p, q);
    }
  }

  /** One run visits exactly the sections that a chain of parents connects to a root, each once. */
  lemma EverySectionOnce(t: Table)
    requires WellLoaded(t)
    ensures Distinct(RootBranches(t, Children(t, None)))
    ensures forall v :: v in RootBranches(t, Children(t, None)) <==> Rooted(t, v)
  {
    var roots := Children(t, None);
    ChildrenDistinct(t, t.order, None);
    RootBranchesExact(t, roots);
    forall v | Rooted(t, v) ensures RootedAmong(t, roots, v) {
      var q :| RootPath(t, q) && Last(q) == v;
      assert q[0] in Elements(t.order);
    }
  }

  // ---------- cycles and dangling parents ----------

  /** The section reached by going up `n` times, if the chain gets that far inside the table. */
  function Up(t: Table, v: int, n: nat): (u: Option<int>)
    ensures u.Some? ==> u.value in t.rows
    decreases n
  {
    if v !in t.rows then None
    else if n == 0 then Some(v)
    else if t.rows[v].parent == None then None
    else Up(t, t.rows[v].parent.value, n - 1)
  }

  lemma {:induction false} UpFromPath(t: Table, p: seq<int>, n: nat)
    requires RootPath(t, p)
    ensures Up(t, Last(p), n) == if n < |p| then Some(p[|p| - 1 - n]) else None
    decreases n
  {
    if n > 0 && |p| > 1 {
      PathPrefix(t, p, |p| - 1);
      UpFromPath(t, p[..|p| - 1], n - 1);
    }
  }

  /** A section on a cycle of parents, or below one, is never reached. */
  lemma CyclesUnreached(t: Table, v: int, above: nat, around: nat)
    requires around > 0
    requires Up(t, v, above).Some? && Up(t, v, above + around) == Up(t, v, above)
    ensures !Rooted(t, v)
  {
    if Rooted(t, v) {
      var q :| RootPath(t, q) && Last(q) == v;
      PathDistinct(t, q);
      UpFromPath(t, q, above);
      UpFromPath(t, q, above + around);
    }
  }

  lemma {:induction false} UpAdds(t: Table, v: int, n: nat)
    requires Up(t, v, n).Some? && t.rows[Up(t, v, n).value].parent.Some?
    ensures Up(t, v, n + 1) == Up(t, t.rows[Up(t, v, n).value].parent.value, 0)
    decreases n
  {
    if n > 0 {
      UpAdds(t, t.rows[v].parent.value, n - 1);
    }
  }

  /** A section below a parent that is not in the table is never reached either. */
  lemma DanglingUnreached(t: Table, v: int, above: nat)
    requires Up(t, v, above).Some?
    requires var top := Up(t, v, above).value; t.rows[top].parent.Some? && t.rows[top].parent.value !in t.rows
    ensures !Rooted(t, v)
  {
    UpAdds(t, v, above);
    if Rooted(t, v) {
      var q :| RootPath(t, q) && Last(q) == v;
      UpFromPath(t, q, above);
      UpFromPath(t, q, above + 1);
    }
  }

  /** The parent of the section reached is not in the table. */
  ghost predicate Dangling(t: Table, v: int, above: nat) {
    Up(t, v, above).Some? && var parent := t.rows[Up(t, v, above).value].parent; parent.Some? && parent.value !in t.rows
  }

  ghost predicate Circling(t: Table, v: int, above: nat, around: nat) {
    around > 0 && Up(t, v, above).Some? && Up(t, v, above + around) == Up(t, v, above)
  }

  lemma {:induction false} RootedByUp(t: Table, v: int, n: nat)
    requires Up(t, v, n).Some? && t.rows[Up(t, v, n).value].parent == None
    ensures Rooted(t, v)
    decreases n
  {
    if n == 0 {
      assert RootPath(t, [v]) && Last([v]) == v;
    } else {
      var p := t.rows[v].parent.value;
      RootedByUp(t, p, n - 1);
      var q :| RootPath(t, q) && Last(q) == p;
      assert RootPath(t, q + [v]) && Last(q + [v]) == v;
    }
  }

  lemma {:induction false} UpGoesOn(t: Table, v: int, n: nat)
    requires v in t.rows && !Rooted(t, v) && forall above: nat :: !Dangling(t, v, above)
    ensures Up(t, v, n).Some?
    decreases n
  {
    if n > 0 {
      UpGoesOn(t, v, n - 1);
      assert !Dangling(t, v, n - 1);
      if t.rows[Up(t, v, n - 1).value].parent == None {
        RootedByUp(t, v, n - 1);
      }
      UpAdds(t, v, n - 1);
    }
  }

  /** A chain of parents that never ends comes round: there are only so many sections. */
  lemma EndlessCircles(t: Table, v: int)
    requires forall n: nat :: Up(t, v, n).Some?
    ensures exists above: nat, around: nat :: Circling(t, v, above, around)
  {
    var chain := seq(|t.rows.Keys| + 1, i requires 0 <= i => Up(t, v, i).value);
    if Distinct(chain) {
      DistinctFits(chain, t.rows.Keys);
    }
    var i, j :| 0 <= i < j < |chain| && chain[i] == chain[j];
    assert Circling(t, v, i, j - i);
  }

  /** Exactly the sections on or below a cycle, or below a parent that is not there, are not reached. */
  lemma UnreachedIff(t: Table, v: int)
    requires v in t.rows
    ensures !Rooted(t, v) <==>
            (exists above: nat, around: nat :: Circling(t, v, above, around)) ||
            (exists above: nat :: Dangling(t, v, above))
  {
    if above: nat, around: nat :| Circling(t, v, above, around) {
      CyclesUnreached(t, v, above, around);
    } else if above: nat :| Dangling(t, v, above) {
      DanglingUnreached(t, v, above);
    } else if !Rooted(t, v) {
      forall n: nat ensures Up(t, v, n).Some? {
        UpGoesOn(t, v, n);
      }
      EndlessCircles(t, v);
    }
  }

  // ---------- how branches lie in the run ----------

  /** No section is in the trees of two roots. */
  lemma TreesApart(t: Table, r: int, other: int, v: int)
    requires WellLoaded(t) && RootPath(t, [r]) && RootPath(t, [other]) && r != other && v in Branch(t, [r])
    ensures v !in Branch(t, [other])
  {
    OneRootExact(t, r, v);
    OneRootExact(t, other, v);
    RootsApart(t, [r, other], v);
    assert [r, other][1..] == [other];
  }

  /** The branch of the first child left is apart from the section itself, and comes next. */
  lemma ChildBranchNext(t: Table, path: seq<int>, kids: seq<int>)
    requires WellLoaded(t) && RootPath(t, path) && kids != []
    requires forall k :: k in kids ==> k in t.rows && t.rows[k].parent == Some(Last(path))
    ensures RootPath(t, path + [kids[0]]) && |path| < |t.rows.Keys|
    ensures Branches(t, path, kids) == Branch(t, path + [kids[0]]) + Branches(t, path, kids[1..])
    ensures Last(path) !in Branch(t, path + [kids[0]])
  {
    PathExtends(t, path, kids[0]);
    if Last(path) in Branch(t, path + [kids[0]]) {
      VisitedIsBelow(t, path + [kids[0]], Last(path));
      var q :| RootPath(t, q) && path + [kids[0]] <= q && Last(q) == Last(path);
      PathUnique(t, path, q);
    }
  }

  // ---------- the order of a run ----------

  ghost predicate Before(s: seq<int>, a: int, b: int) {
    exists i, j :: 0 <= i < j < |s| && s[i] == a && s[j] == b
  }

  lemma BeforeInPart(p: seq<int>, s: seq<int>, a: int, b: int)
    requires Before(s, a, b)
    ensures Before(p + s, a, b) && Before(s + p, a, b)
  {
    var i, j :| 0 <= i < j < |s| && s[i] == a && s[j] == b;
    assert (p + s)[|p| + i] == a && (p + s)[|p| + j] == b;
    assert (s + p)[i] == a && (s + p)[j] == b;
  }

  lemma BeforeAcross(p: seq<int>, q: seq<int>, a: int, b: int)
    requires a in p && b in q
    ensures Before(p + q, a, b)
  {
    var i :| 0 <= i < |p| && p[i] == a;
    var j :| 0 <= j < |q| && q[j] == b;
    assert (p + q)[i] == a && (p + q)[|p| + j] == b;
  }

  lemma {:induction false} ChildrenInOrder(t: Table, ids: seq<int>, parent: Option<int>, a: int, b: int)
    requires Before(ids, a, b) && a in t.rows && b in t.rows && t.rows[a].parent == parent && t.rows[b].parent == parent
    ensures Before(ChildrenIn(t, ids, parent), a, b)
  {
    var i, j :| 0 <= i < j < |ids| && ids[i] == a && ids[j] == b;
    var rest := ChildrenIn(t, ids[1..], parent);
    assert ids[1..][j - 1] == b;
    if i == 0 {
      BeforeAcross([a], rest, a, b);
    } else {
      assert ids[1..][i - 1] == a;
      ChildrenInOrder(t, ids[1..], parent, a, b);
      BeforeInPart([ids[0]], rest, a, b);
      assert ChildrenIn(t, ids, parent) == [ids[0]] + rest || ChildrenIn(t, ids, parent) == rest;
    }
  }

  lemma {:induction false} BranchesInOrder(t: Table, path: seq<int>, kids: seq<int>, a: int, b: int)
    requires RootPath(t, path) && Before(kids, a, b)
    requires forall k :: k in kids ==> k in t.rows && t.rows[k].parent == Some(Last(path))
    ensures Before(Branches(t, path, kids), a, b)
    decreases |kids|
  {
    var i, j :| 0 <= i < j < |kids| && kids[i] == a && kids[j] == b;
    PathExtends(t, path, kids[0]);
    var first, rest := Branch(t, path + [kids[0]]), Branches(t, path, kids[1..]);
    assert kids[1..][j - 1] == b;
    if i == 0 {
      KidVisited(t, path, kids[1..], b);
      BeforeAcross(first, rest, a, b);
    } else {
      assert kids[1..][i - 1] == a;
      BranchesInOrder(t, path, kids[1..], a, b);
      BeforeInPart(first, rest, a, b);
    }
  }

  lemma KidVisited(t: Table, path: seq<int>, kids: seq<int>, k: int)
    requires RootPath(t, path) && k in kids
    requires forall k :: k in kids ==> k in t.rows && t.rows[k].parent == Some(Last(path))
    ensures k in Branches(t, path, kids)
  {
    PathExtends(t, path, k);
    BranchAmong(t, path, kids, k, k);
  }

  /** What is in order in a branch is in order in every branch around it. */
  lemma {:induction false} OrderOutward(t: Table, path: seq<int>, q: seq<int>, a: int, b: int)
    requires WellLoaded(t) && RootPath(t, path) && RootPath(t, q) && path <= q && Before(Branch(t, q), a, b)
    ensures Before(Branch(t, path), a, b)
    decreases |q| - |path|
  {
    if |path| < |q| {
      var child := q[|path|];
      assert child in Elements(t.order) && t.rows[child].parent == Some(Last(path));
      PathExtends(t, path, child);
      assert path + [child] <= q;
      OrderOutward(t, path + [child], q, a, b);
      var kids := Children(t, Some(Last(path)));
      PathDistinct(t, path);
      OrderAmong(t, path, kids, child, a, b);
      BeforeInPart([Last(path)], Branches(t, path, kids), a, b);
    } else {
      assert path == q;
    }
  }

  lemma {:induction false} OrderAmong(t: Table, path: seq<int>, kids: seq<int>, child: int, a: int, b: int)
    requires RootPath(t, path) && child in kids && RootPath(t, path + [child])
    requires forall k :: k in kids ==> k in t.rows && t.rows[k].parent == Some(Last(path))
    requires Before(Branch(t, path + [child]), a, b)
    ensures Before(Branches(t, path, kids), a, b)
    decreases |kids|
  {
    PathExtends(t, path, kids[0]);
    var first, rest := Branch(t, path + [kids[0]]), Branches(t, path, kids[1..]);
    if child == kids[0] {
      BeforeInPart(rest, first, a, b);
    } else {
      OrderAmong(t, path, kids[1..], child, a, b);
      BeforeInPart(first, rest, a, b);
    }
  }

  lemma {:induction false} OrderAmongRoots(t: Table, roots: seq<int>, r: int, a: int, b: int)
    requires forall x :: x in roots ==> x in t.rows && t.rows[x].parent == None
    requires r in roots && RootPath(t, [r]) && Before(Branch(t, [r]), a, b)
    ensures Before(RootBranches(t, roots), a, b)
  {
    var r0 := roots[0];
    assert RootPath(t, [r0]);
    var first, rest := Branch(t, [r0]), RootBranches(t, roots[1..]);
    if r == r0 {
      BeforeInPart(rest, first, a, b);
    } else {
      OrderAmongRoots(t, roots[1..], r, a, b);
      BeforeInPart(first, rest, a, b);
    }
  }

  lemma {:induction false} RootsInOrder(t: Table, roots: seq<int>, a: int, b: int)
    requires forall x :: x in roots ==> x in t.rows && t.rows[x].parent == None
    requires Before(roots, a, b)
    ensures Before(RootBranches(t, roots), a, b)
  {
    var i, j :| 0 <= i < j < |roots| && roots[i] == a && roots[j] == b;
    var r := roots[0];
    assert RootPath(t, [r]);
    var first, rest := Branch(t, [r]), RootBranches(t, roots[1..]);
    assert roots[1..][j - 1] == b;
    if i == 0 {
      RootVisited(t, roots[1..], b);
      BeforeAcross(first, rest, a, b);
    } else {
      assert roots[1..][i - 1] == a;
      RootsInOrder(t, roots[1..], a, b);
      BeforeInPart(first, rest, a, b);
    }
  }

  lemma {:induction false} RootVisited(t: Table, roots: seq<int>, r: int)
    requires forall x :: x in roots ==> x in t.rows && t.rows[x].parent == None
    requires r in roots
    ensures r in RootBranches(t, roots)
  {
    if r != roots[0] {
      RootVisited(t, roots[1..], r);
    }
  }

  /** The order of the visits of one run. */
  ghost function Visits(t: Table): seq<int> {
    RootBranches(t, Children(t, None))
  }

  lemma OrderInRun(t: Table, q: seq<int>, a: int, b: int)
    requires WellLoaded(t) && RootPath(t, q) && Before(Branch(t, q), a, b)
    ensures Before(Visits(t), a, b)
  {
    assert q[0] in Elements(t.order);
    PathPrefix(t, q, 1);
    assert q[..1] == [q[0]];
    OrderOutward(t, [q[0]], q, a, b);
    OrderAmongRoots(t, Children(t, None), q[0], a, b);
  }

  /** A parent is visited before its children. */
  lemma ParentFirst(t: Table, v: int)
    requires WellLoaded(t) && Rooted(t, v) && t.rows[v].parent.Some?
    ensures Before(Visits(t), t.rows[v].parent.value, v)
  {
    var q :| RootPath(t, q) && Last(q) == v;
    LastParent(t, q);
    var up, p := q[..|q| - 1], t.rows[v].parent.value;
    PathPrefix(t, q, |q| - 1);
    assert v in Elements(t.order);
    PathDistinct(t, up);
    KidVisited(t, up, Children(t, Some(p)), v);
    BeforeAcross([p], Branches(t, up, Children(t, Some(p))), p, v);
    OrderInRun(t, up, p, v);
  }

  /** Sections with one parent are visited in the order in which they were loaded. */
  lemma SiblingsInOrder(t: Table, a: int, b: int)
    requires WellLoaded(t) && Rooted(t, a) && Before(t.order, a, b) && b in t.rows &&
             t.rows[a].parent == t.rows[b].parent
    ensures Before(Visits(t), a, b)
  {
    var parent := t.rows[a].parent;
    ChildrenInOrder(t, t.order, parent, a, b);
    if parent == None {
      RootsInOrder(t, Children(t, None), a, b);
    } else {
      var q :| RootPath(t, q) && Last(q) == a;
      LastParent(t, q);
      var up := q[..|q| - 1];
      PathPrefix(t, q, |q| - 1);
      PathDistinct(t, up);
      var kids := Children(t, parent);
      BranchesInOrder(t, up, kids, a, b);
      BeforeInPart([Last(up)], Branches(t, up, kids), a, b);
      OrderInRun(t, up, a, b);
    }
  }
}
