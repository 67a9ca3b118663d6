/** Cloning the visited sections into the standards of their roots: what a run leaves, and when it merges sections. */
module SectionClone {
  import opened Prelude
  import opened SectionForest

  datatype TargetSection = TargetSection(standard: int, parent: Option<int>, code: Option<string>, title: string,
                                         sortOrder: int)

  /** The target rows, the next id, and the row that each visited section was sent to. */
  datatype State = State(sections: map<int, TargetSection>, next: int, image: map<int, int>)

  function ImageOf(s: State, u: int): int {
    if u in s.image then s.image[u] else 0
  }

  /** Where in the target a section goes. */
  datatype Place = Place(standard: int, parent: Option<int>)

  function At(row: TargetSection): Place {
    Place(row.standard, row.parent)
  }

  function RowAt(place: Place, source: Section): TargetSection {
    TargetSection(place.standard, place.parent, source.code, source.title, source.sortOrder)
  }

  /** A section with a code looks for the code, one without for the title. */
  predicate Takes(source: Section, code: Option<string>, title: string) {
    if source.code.Some? && source.code.value != "" then code == source.code else title == source.title
  }

  predicate Matches(row: TargetSection, place: Place, source: Section) {
    At(row) == place && Takes(source, row.code, row.title)
  }

  predicate Known(sections: map<int, TargetSection>, place: Place, source: Section) {
    exists i :: i in sections && Matches(sections[i], place, source)
  }

  /** When no row is found, none in the place has the section's code or, if that is none, its title. */
  lemma FoundInFields(sections: map<int, TargetSection>, standard: int, parent: Option<int>, source: Section)
    ensures Known(sections, Place(standard, parent), source) <==>
            exists i :: i in sections && sections[i].standard == standard && sections[i].parent == parent &&
              if source.code == None || source.code == Some("") then sections[i].title == source.title
              else sections[i].code == source.code
  {
    forall i | i in sections
      ensures Matches(sections[i], Place(standard, parent), source) <==>
              sections[i].standard == standard && sections[i].parent == parent &&
              if source.code == None || source.code == Some("") then sections[i].title == source.title
              else sections[i].code == source.code
    {
    }
  }

  // ---------- one visit ----------

  /** A parent, if there is one, has its image. */
  predicate HasPlace(t: Table, s: State, u: int) {
    u in t.rows &&
    (t.rows[u].parent.Some? ==> t.rows[u].parent.value in s.image && s.image[t.rows[u].parent.value] in s.sections)
  }

  /** A root goes to the top of the standard `f(u)` made for it, any other section under its parent's image. */
  function PlaceOf(t: Table, f: int -> int, s: State, u: int): Place
    requires HasPlace(t, s, u)
  {
    var parent := t.rows[u].parent;
    if parent == None then Place(f(u), None)
    else Place(s.sections[s.image[parent.value]].standard, Some(s.image[parent.value]))
  }

  /** What one visit does: some matching row, if there is one, is rewritten; else there is a new row. */
  predicate Visited(s: State, s': State, u: int, place: Place, source: Section) {
    && u in s'.image && s'.image == s.image[u := s'.image[u]]
    && s'.sections == s.sections[s'.image[u] := RowAt(place, source)]
    && if Known(s.sections, place, source)
       then s'.next == s.next && s'.image[u] in s.sections && Matches(s.sections[s'.image[u]], place, source)
       else s'.next == s.next + 1 && s'.image[u] == s.next
  }

  predicate Step(t: Table, f: int -> int, s: State, s': State, u: int) {
    HasPlace(t, s, u) && Visited(s, s', u, PlaceOf(t, f, s, u), t.rows[u])
  }

  /** The states of a run that makes the given visits. */
  ghost predicate IsRun(t: Table, f: int -> int, states: seq<State>, visits: seq<int>) {
    |states| == |visits| + 1 && forall n :: 0 <= n < |visits| ==> StepAt(t, f, states, visits, n)
  }

  predicate StepAt(t: Table, f: int -> int, states: seq<State>, visits: seq<int>, n: nat)
    requires n < |visits| && n + 1 < |states|
  {
    Step(t, f, states[n], states[n + 1], visits[n])
  }

  // ---------- what every visit keeps ----------

  ghost predicate IsTarget(t: Table, f: int -> int, standard: int) {
    exists r :: r in t.rows && t.rows[r].parent == None && f(r) == standard
  }

  /** The image is a row at the section's place. */
  ghost predicate Settled(t: Table, f: int -> int, s: State, u: int) {
    && HasPlace(t, s, u) && u in s.image && s.image[u] in s.sections
    && At(s.sections[s.image[u]]) == PlaceOf(t, f, s, u) && IsTarget(t, f, PlaceOf(t, f, s, u).standard)
  }

  /** Exactly the visited sections have images, all in place. */
  ghost predicate Good(t: Table, f: int -> int, s: State, done: seq<int>) {
    && IdsBelow(s.sections, s.next)
    && s.image.Keys == Elements(done)
    && (forall u {:trigger Settled(t, f, s, u)} :: u in done ==> Settled(t, f, s, u))
  }

  /** Rows stay where they are in the tree. */
  ghost predicate PlacesKept(before: map<int, TargetSection>, after: map<int, TargetSection>) {
    forall i :: i in before ==> i in after && At(after[i]) == At(before[i])
  }

  ghost predicate SamePlace(t: Table, f: int -> int, s: State, s': State, u: int) {
    HasPlace(t, s, u) && HasPlace(t, s', u) && PlaceOf(t, f, s', u) == PlaceOf(t, f, s, u)
  }

  lemma OneMoreElement<T>(s: seq<T>, x: T)
    ensures Elements(s + [x]) == Elements(s) + {x}
  {
  }

  lemma StepKeeps(t: Table, f: int -> int, s: State, s': State, done: seq<int>, u: int)
    requires Good(t, f, s, done) && Step(t, f, s, s', u) && u !in done
    ensures Good(t, f, s', done + [u]) && PlacesKept(s.sections, s'.sections)
    ensures PlaceOf(t, f, s', u) == PlaceOf(t, f, s, u)
    ensures forall w :: w in done ==> ImageOf(s', w) == ImageOf(s, w) && SamePlace(t, f, s, s', w)
  {
    OneMoreElement(done, u);
    assert s'.image.Keys == s.image.Keys + {u};
    forall w | w in done ensures SamePlace(t, f, s, s', w) && Settled(t, f, s', w) {
      assert Settled(t, f, s, w);
    }
    var parent := t.rows[u].parent;
    assert parent.Some? ==> Settled(t, f, s, parent.value);
    assert parent == None ==> IsTarget(t, f, f(u));
    assert Settled(t, f, s', u);
  }

  /** No later visit went to the row of visit `k`. */
  ghost predicate Latest(s: State, done: seq<int>, k: nat)
    requires k < |done|
  {
    forall l :: k < l < |done| ==> ImageOf(s, done[l]) != ImageOf(s, done[k])
  }

  /** The image carries the section's own code, title and sort order. */
  ghost predicate Shown(t: Table, f: int -> int, s: State, u: int) {
    Settled(t, f, s, u) && s.sections[ImageOf(s, u)] == RowAt(PlaceOf(t, f, s, u), t.rows[u])
  }

  ghost predicate LatestShown(t: Table, f: int -> int, s: State, done: seq<int>)
  {
    forall k {:trigger Latest(s, done, k)} :: 0 <= k < |done| && Latest(s, done, k) ==> Shown(t, f, s, done[k])
  }

  ghost predicate IsImage(s: State, done: seq<int>, i: int) {
    exists u :: u in done && ImageOf(s, u) == i
  }

  /** Rows are the images and, unchanged, those of the start. */
  ghost predicate Accounted(start: map<int, TargetSection>, s: State, done: seq<int>) {
    && (forall i :: i in start ==> i in s.sections)
    && (forall i {:trigger IsImage(s, done, i)} :: i in s.sections && !IsImage(s, done, i) ==>
         i in start && s.sections[i] == start[i])
  }

  ghost predicate Copied(t: Table, f: int -> int, start: map<int, TargetSection>, s: State, done: seq<int>) {
    && Good(t, f, s, done) && LatestShown(t, f, s, done)
    && PlacesKept(start, s.sections) && Accounted(start, s, done)
  }

  lemma StepShows(t: Table, f: int -> int, s: State, s': State, done: seq<int>, u: int)
    requires Good(t, f, s, done) && LatestShown(t, f, s, done) && Step(t, f, s, s', u) && u !in done
    requires Good(t, f, s', done + [u])
    ensures LatestShown(t, f, s', done + [u])
  {
    StepKeeps(t, f, s, s', done, u);
    var all := done + [u];
    forall k | 0 <= k < |all| && Latest(s', all, k) ensures Shown(t, f, s', all[k]) {
      if k < |done| {
        assert all[|done|] == u;
        forall l | k < l < |done| ensures ImageOf(s, done[l]) != ImageOf(s, done[k]) {
          assert all[l] == done[l];
        }
        assert Latest(s, done, k);
        assert Shown(t, f, s, done[k]);
      }
    }
  }

  lemma StepAccounts(start: map<int, TargetSection>, s: State, s': State, done: seq<int>, u: int, place: Place,
                     source: Section)
    requires Accounted(start, s, done) && Visited(s, s', u, place, source) && u !in done
    ensures Accounted(start, s', done + [u])
  {
    forall i | i in s'.sections && !IsImage(s', done + [u], i) ensures i in start && s'.sections[i] == start[i] {
      assert u in done + [u];
      forall w | w in done ensures ImageOf(s, w) != i {
        assert w in done + [u];
      }
      assert !IsImage(s, done, i);
    }
  }

  lemma StepCopies(t: Table, f: int -> int, start: map<int, TargetSection>, s: State, s': State, done: seq<int>, u: int)
    requires Copied(t, f, start, s, done) && Step(t, f, s, s', u) && u !in done
    ensures Copied(t, f, start, s', done + [u])
  {
    StepKeeps(t, f, s, s', done, u);
    StepShows(t, f, s, s', done, u);
    StepAccounts(start, s, s', done, u, PlaceOf(t, f, s, u), t.rows[u]);
  }

  /** Every image is in the standard made for the root of its section. */
  lemma {:induction false} StandardOfRoot(t: Table, f: int -> int, s: State, done: seq<int>, q: seq<int>)
    requires Good(t, f, s, done) && RootPath(t, q) && Last(q) in done
    ensures Settled(t, f, s, Last(q)) && s.sections[s.image[Last(q)]].standard == f(q[0])
  {
    LastParent(t, q);
    assert Settled(t, f, s, Last(q));
    if |q| > 1 {
      PathPrefix(t, q, |q| - 1);
      var p := t.rows[Last(q)].parent.value;
      assert p in s.image && p == Last(q[..|q| - 1]);
      assert p in done;
      StandardOfRoot(t, f, s, done, q[..|q| - 1]);
    }
  }

  // ---------- when sections are merged ----------

  /** No target standard has a row. */
  ghost predicate Fresh(t: Table, f: int -> int, sections: map<int, TargetSection>) {
    forall i :: i in sections ==> !IsTarget(t, f, sections[i].standard)
  }

  /** Children of one parent, or roots of one standard. */
  predicate Siblings(t: Table, f: int -> int, a: int, b: int) {
    a in t.rows && b in t.rows && t.rows[a].parent == t.rows[b].parent && (t.rows[a].parent == None ==> f(a) == f(b))
  }

  /** `b`, looked up after `a`, finds the row of `a`. */
  predicate Merges(t: Table, f: int -> int, a: int, b: int) {
    Siblings(t, f, a, b) && Takes(t.rows[b], t.rows[a].code, t.rows[a].title)
  }

  ghost predicate ImagesDistinct(s: State, done: seq<int>)
  {
    forall k, l :: 0 <= k < l < |done| ==> ImageOf(s, done[k]) != ImageOf(s, done[l])
  }

  ghost predicate MergeFree(t: Table, f: int -> int, done: seq<int>) {
    forall k, l :: 0 <= k < l < |done| ==> !Merges(t, f, done[k], done[l])
  }

  /** While images are distinct, two places are one just for siblings. */
  lemma PlacesMeet(t: Table, f: int -> int, s: State, done: seq<int>, a: int, u: int)
    requires Good(t, f, s, done) && ImagesDistinct(s, done) && a in done && HasPlace(t, s, u)
    ensures HasPlace(t, s, a) && (PlaceOf(t, f, s, a) == PlaceOf(t, f, s, u) <==> Siblings(t, f, a, u))
  {
    assert Settled(t, f, s, a);
    var p, q := t.rows[a].parent, t.rows[u].parent;
    if p.Some? && q.Some? && ImageOf(s, p.value) == ImageOf(s, q.value) {
      ImageOnce(s, done, p.value, q.value);
    }
  }

  lemma ImageOnce(s: State, done: seq<int>, a: int, b: int)
    requires ImagesDistinct(s, done)
    requires a in done && b in done && ImageOf(s, a) == ImageOf(s, b)
    ensures a == b
  {
    var i :| 0 <= i < |done| && done[i] == a;
    var j :| 0 <= j < |done| && done[j] == b;
    assert ImageOf(s, done[i]) == ImageOf(s, done[j]);
  }

  lemma AllShown(t: Table, f: int -> int, s: State, done: seq<int>, a: int)
    requires Good(t, f, s, done) && LatestShown(t, f, s, done) && ImagesDistinct(s, done) && a in done
    ensures Shown(t, f, s, a)
  {
    var k :| 0 <= k < |done| && done[k] == a;
    assert Latest(s, done, k);
  }

  /** A matching row is the image of a sibling that it merges with. */
  lemma MatchIsSibling(t: Table, f: int -> int, start: map<int, TargetSection>, s: State, done: seq<int>, u: int,
                       i: int) returns (a: int)
    requires Copied(t, f, start, s, done) && Fresh(t, f, start) && ImagesDistinct(s, done)
    requires HasPlace(t, s, u) && i in s.sections && Matches(s.sections[i], PlaceOf(t, f, s, u), t.rows[u])
    ensures a in done && ImageOf(s, a) == i && Merges(t, f, a, u)
  {
    PlaceIsTarget(t, f, s, done, u);
    assert IsImage(s, done, i);
    a :| a in done && ImageOf(s, a) == i;
    AllShown(t, f, s, done, a);
    PlacesMeet(t, f, s, done, a, u);
  }

  lemma PlaceIsTarget(t: Table, f: int -> int, s: State, done: seq<int>, u: int)
    requires Good(t, f, s, done) && HasPlace(t, s, u)
    ensures IsTarget(t, f, PlaceOf(t, f, s, u).standard)
  {
    var parent := t.rows[u].parent;
    if parent.Some? {
      assert Settled(t, f, s, parent.value);
    }
  }

  lemma SiblingMatches(t: Table, f: int -> int, s: State, done: seq<int>, a: int, u: int)
    requires Good(t, f, s, done) && LatestShown(t, f, s, done) && ImagesDistinct(s, done)
    requires a in done && HasPlace(t, s, u) && Merges(t, f, a, u)
    ensures Settled(t, f, s, a) && Matches(s.sections[s.image[a]], PlaceOf(t, f, s, u), t.rows[u])
    ensures Known(s.sections, PlaceOf(t, f, s, u), t.rows[u])
  {
    AllShown(t, f, s, done, a);
    PlacesMeet(t, f, s, done, a, u);
    assert Matches(s.sections[s.image[a]], PlaceOf(t, f, s, u), t.rows[u]);
  }

  /** One more visit keeps images distinct unless it merges. */
  lemma StepInjective(t: Table, f: int -> int, start: map<int, TargetSection>, s: State, s': State, done: seq<int>,
                      u: int)
    requires Copied(t, f, start, s, done) && Fresh(t, f, start) && ImagesDistinct(s, done)
    requires Step(t, f, s, s', u) && u !in done && Good(t, f, s', done + [u])
    ensures ImagesDistinct(s', done + [u]) <==> forall a :: a in done ==> !Merges(t, f, a, u)
  {
    StepKeeps(t, f, s, s', done, u);
    var all := done + [u];
    if Known(s.sections, PlaceOf(t, f, s, u), t.rows[u]) {
      var a := MatchIsSibling(t, f, start, s, done, u, ImageOf(s', u));
      var k :| 0 <= k < |done| && done[k] == a;
      assert all[k] == a && all[|done|] == u && ImageOf(s', a) == ImageOf(s', u);
    } else {
      forall a | a in done ensures !Merges(t, f, a, u) && ImageOf(s', a) != ImageOf(s', u) {
        if Merges(t, f, a, u) {
          SiblingMatches(t, f, s, done, a, u);
        }
        assert Settled(t, f, s, a);
      }
    }
  }

  lemma MergeFreeSnoc(t: Table, f: int -> int, done: seq<int>, u: int)
    ensures MergeFree(t, f, done + [u]) <==> MergeFree(t, f, done) && forall a :: a in done ==> !Merges(t, f, a, u)
  {
    var all := done + [u];
    if MergeFree(t, f, all) {
      forall k, l | 0 <= k < l < |done| ensures !Merges(t, f, done[k], done[l]) {
        assert !Merges(t, f, all[k], all[l]);
      }
      forall a | a in done ensures !Merges(t, f, a, u) {
        var k :| 0 <= k < |done| && done[k] == a;
        assert !Merges(t, f, all[k], all[|done|]);
      }
    }
  }

  lemma CollisionStays(s: State, s': State, done: seq<int>, u: int)
    requires forall w :: w in done ==> ImageOf(s', w) == ImageOf(s, w)
    requires !ImagesDistinct(s, done)
    ensures !ImagesDistinct(s', done + [u])
  {
    var k, l :| 0 <= k < l < |done| && ImageOf(s, done[k]) == ImageOf(s, done[l]);
    var all := done + [u];
    assert all[k] == done[k] && all[l] == done[l];
  }

  /** Images in place, rows showing their last visitor, nothing else changed;
   * and images distinct unless a visit merged. */
  ghost predicate Reached(t: Table, f: int -> int, start: map<int, TargetSection>, s: State, done: seq<int>) {
    && Copied(t, f, start, s, done)
    && (Fresh(t, f, start) ==> (ImagesDistinct(s, done) <==> MergeFree(t, f, done)))
  }

  lemma StepReaches(t: Table, f: int -> int, start: map<int, TargetSection>, s: State, s': State, done: seq<int>,
                    u: int)
    requires Reached(t, f, start, s, done) && Step(t, f, s, s', u) && u !in done
    ensures Reached(t, f, start, s', done + [u])
  {
    StepKeeps(t, f, s, s', done, u);
    StepCopies(t, f, start, s, s', done, u);
    MergeFreeSnoc(t, f, done, u);
    if ImagesDistinct(s, done) && Fresh(t, f, start) {
      StepInjective(t, f, start, s, s', done, u);
    } else if !ImagesDistinct(s, done) {
      CollisionStays(s, s', done, u);
    }
  }

  lemma NextIsNew(done: seq<int>, rest: seq<int>)
    requires Distinct(done + rest) && rest != []
    ensures rest[0] !in done && (done + [rest[0]]) + rest[1..] == done + rest
  {
    assert (done + rest)[|done|] == rest[0];
    forall x | x in done ensures x != rest[0] {
      var i :| 0 <= i < |done| && done[i] == x;
      assert (done + rest)[i] == x;
    }
  }

  lemma RunTail(t: Table, f: int -> int, states: seq<State>, visits: seq<int>)
    requires IsRun(t, f, states, visits) && visits != []
    ensures Step(t, f, states[0], states[1], visits[0]) && IsRun(t, f, states[1..], visits[1..])
  {
    assert StepAt(t, f, states, visits, 0);
    forall n | 0 <= n < |visits[1..]| ensures StepAt(t, f, states[1..], visits[1..], n) {
      assert StepAt(t, f, states, visits, n + 1);
    }
  }

  /** Every run keeps what one visit keeps. */
  lemma {:induction false} RunReaches(t: Table, f: int -> int, start: map<int, TargetSection>, states: seq<State>,
                                       done: seq<int>, rest: seq<int>)
    requires IsRun(t, f, states, rest) && Distinct(done + rest) && Reached(t, f, start, states[0], done)
    ensures Reached(t, f, start, Last(states), done + rest)
    decreases |rest|
  {
    if rest == [] {
      assert done + rest == done;
    } else {
      NextIsNew(done, rest);
      RunTail(t, f, states, rest);
      StepReaches(t, f, start, states[0], states[1], done, rest[0]);
      RunReaches(t, f, start, states[1..], done + [rest[0]], rest[1..]);
    }
  }

  lemma StartReaches(t: Table, f: int -> int, s: State)
    requires s.image == map[] && IdsBelow(s.sections, s.next)
    ensures Reached(t, f, s.sections, s, [])
  {
  }

  /** What holds at the end of a run. */
  lemma EndOfRun(t: Table, f: int -> int, states: seq<State>, visits: seq<int>)
    requires IsRun(t, f, states, visits) && Distinct(visits)
    requires |states| > 0 && states[0].image == map[] && IdsBelow(states[0].sections, states[0].next)
    ensures Reached(t, f, states[0].sections, Last(states), visits)
  {
    StartReaches(t, f, states[0]);
    assert [] + visits == visits;
    RunReaches(t, f, states[0].sections, states, [], visits);
  }

  /** No section merges with a sibling loaded before it. */
  ghost predicate NoMerge(t: Table, f: int -> int) {
    forall a, b :: Rooted(t, a) && Before(t.order, a, b) ==> !Merges(t, f, a, b)
  }

  ghost predicate AllPlaced(t: Table, f: int -> int, s: State) {
    forall q :: RootPath(t, q) ==>
      Settled(t, f, s, Last(q)) && s.sections[s.image[Last(q)]].standard == f(q[0])
  }

  lemma NoMergeIff(t: Table, f: int -> int)
    requires WellLoaded(t)
    ensures MergeFree(t, f, Visits(t)) <==> NoMerge(t, f)
  {
    var visits := Visits(t);
    EverySectionOnce(t);
    if MergeFree(t, f, visits) {
      forall a, b | Rooted(t, a) && Before(t.order, a, b) ensures !Merges(t, f, a, b) {
        if Siblings(t, f, a, b) {
          SiblingsInOrder(t, a, b);
          var k, l :| 0 <= k < l < |visits| && visits[k] == a && visits[l] == b;
        }
      }
    }
    if NoMerge(t, f) {
      forall k, l | 0 <= k < l < |visits| ensures !Merges(t, f, visits[k], visits[l]) {
        if Siblings(t, f, visits[k], visits[l]) {
          LoadedInOrder(t, k, l);
        }
      }
    }
  }

  lemma InRows(t: Table, v: int)
    requires WellLoaded(t) && Rooted(t, v)
    ensures v in t.rows && v in t.order
  {
    assert v in Elements(t.order);
  }

  lemma BeforeOnce(s: seq<int>, i: nat, j: nat)
    requires Distinct(s) && i < j < |s|
    ensures !Before(s, s[j], s[i])
  {
  }

  /** Siblings visited in some order were loaded in that order. */
  lemma LoadedInOrder(t: Table, k: nat, l: nat)
    requires WellLoaded(t) && k < l < |Visits(t)|
    requires var a, b := Visits(t)[k], Visits(t)[l]; a in t.rows && b in t.rows && t.rows[a].parent == t.rows[b].parent
    ensures Rooted(t, Visits(t)[k]) && Before(t.order, Visits(t)[k], Visits(t)[l])
  {
    var visits := Visits(t);
    EverySectionOnce(t);
    var a, b := visits[k], visits[l];
    assert a in visits && b in visits;
    InRows(t, a);
    InRows(t, b);
    var i :| 0 <= i < |t.order| && t.order[i] == a;
    var j :| 0 <= j < |t.order| && t.order[j] == b;
    BeforeOnce(visits, k, l);
    assert j < i ==> Before(t.order, b, a);
    if Before(t.order, b, a) {
      SiblingsInOrder(t, b, a);
    }
  }

  /** A whole run, from no images, over the visits that the recursion makes. */
  ghost predicate WholeRun(t: Table, f: int -> int, states: seq<State>) {
    && WellLoaded(t) && IsRun(t, f, states, Visits(t))
    && states[0].image == map[] && IdsBelow(states[0].sections, states[0].next)
  }

  /** Every section connected to a root has its image, in the root's standard
   * and under its parent's image; other rows are unchanged. */
  lemma RunPlacesAll(t: Table, f: int -> int, states: seq<State>)
    requires WholeRun(t, f, states)
    ensures var end := Last(states);
            && (forall u :: u in end.image <==> Rooted(t, u))
            && AllPlaced(t, f, end)
            && PlacesKept(states[0].sections, end.sections)
            && Accounted(states[0].sections, end, Visits(t))
  {
    var visits, end := Visits(t), Last(states);
    EverySectionOnce(t);
    EndOfRun(t, f, states, visits);
    forall q | RootPath(t, q)
      ensures Settled(t, f, end, Last(q)) && end.sections[end.image[Last(q)]].standard == f(q[0])
    {
      assert Rooted(t, Last(q));
      StandardOfRoot(t, f, end, visits, q);
    }
  }

  /** No two sections connected to a root share a row. */
  ghost predicate OneToOne(t: Table, s: State) {
    forall a, b :: Rooted(t, a) && Rooted(t, b) && ImageOf(s, a) == ImageOf(s, b) ==> a == b
  }

  lemma OneToOneIff(t: Table, s: State)
    requires WellLoaded(t)
    ensures OneToOne(t, s) <==> ImagesDistinct(s, Visits(t))
  {
    var visits := Visits(t);
    EverySectionOnce(t);
    if OneToOne(t, s) {
      forall k, l | 0 <= k < l < |visits| ensures ImageOf(s, visits[k]) != ImageOf(s, visits[l]) {
        assert visits[k] in visits && visits[l] in visits;
      }
    }
    if ImagesDistinct(s, visits) {
      forall a, b | Rooted(t, a) && Rooted(t, b) && ImageOf(s, a) == ImageOf(s, b) ensures a == b {
        ImageOnce(s, visits, a, b);
      }
    }
  }

  /**
   Into standards that start without rows, the copy is one-to-one exactly when no section merges with a sibling
   loaded before it. Then every image also carries its section's code, title and sort order.
   */
  lemma OneToOneIffNoMerge(t: Table, f: int -> int, states: seq<State>)
    requires WholeRun(t, f, states) && Fresh(t, f, states[0].sections)
    ensures OneToOne(t, Last(states)) <==> NoMerge(t, f)
    ensures NoMerge(t, f) ==> forall u :: Rooted(t, u) ==> Shown(t, f, Last(states), u)
  {
    var visits, end := Visits(t), Last(states);
    EverySectionOnce(t);
    EndOfRun(t, f, states, visits);
    OneToOneIff(t, end);
    NoMergeIff(t, f);
    if NoMerge(t, f) {
      forall u | Rooted(t, u) ensures Shown(t, f, end, u) {
        AllShown(t, f, end, visits, u);
      }
    }
  }

  // ---------- the script ----------

  lemma RunSnoc(t: Table, f: int -> int, states: seq<State>, visits: seq<int>, s: State, u: int)
    requires IsRun(t, f, states, visits) && Step(t, f, Last(states), s, u)
    ensures IsRun(t, f, states + [s], visits + [u]) && (states + [s])[0] == states[0]
  {
    forall n | 0 <= n < |visits + [u]| ensures StepAt(t, f, states + [s], visits + [u], n) {
      if n < |visits| {
        assert StepAt(t, f, states, visits, n);
      }
    }
  }

  /** Rows stay in place, and so do the images of all sections but those given. */
  ghost predicate Kept(before: State, after: State, except: seq<int>) {
    && PlacesKept(before.sections, after.sections)
    && forall u :: u in before.image && u !in except ==> u in after.image && after.image[u] == before.image[u]
  }

  lemma KeptOn(a: State, b: State, c: State, done: seq<int>, part: seq<int>)
    requires Kept(a, b, done) && Kept(b, c, part)
    ensures Kept(a, c, done + part)
  {
  }

  /** The section's image is row `id` of the standard. */
  ghost predicate Stands(s: State, v: int, id: int, standard: int) {
    v in s.image && s.image[v] == id && id in s.sections && s.sections[id].standard == standard
  }

  /** The script's tables; the ghost trace holds the states its visits have gone through. */
  class SectionCloner {
    const table: Table
    const standardFor: int -> int
    var sections: map<int, TargetSection>
    var nextSection: int
    var image: map<int, int>
    ghost var visited: seq<int>
    ghost var trace: seq<State>

    ghost function Now(): State
      reads this
    {
      State(sections, nextSection, image)
    }

    ghost predicate Valid()
      reads this
    {
      && WellLoaded(table) && IdsBelow(sections, nextSection)
      && IsRun(table, standardFor, trace, visited) && Last(trace) == Now()
    }

    constructor (table: Table, standardFor: int -> int, sections: map<int, TargetSection>, nextSection: int)
      requires WellLoaded(table) && IdsBelow(sections, nextSection)
      ensures Valid() && this.table == table && this.standardFor == standardFor && visited == []
      ensures Now() == State(sections, nextSection, map[])
    {
      this.table, this.standardFor, this.sections, this.nextSection := table, standardFor, sections, nextSection;
      image, visited, trace := map[], [], [State(sections, nextSection, map[])];
    }

    method EnsureSection(standard: int, source: Section, parent: Option<int>) returns (id: int)
      requires IdsBelow(sections, nextSection)
      modifies this`sections, this`nextSection
      ensures IdsBelow(sections, nextSection)
      ensures sections == old(sections)[id := RowAt(Place(standard, parent), source)]
      ensures if Known(old(sections), Place(standard, parent), source)
              then nextSection == old(nextSection) && id in old(sections) &&
              Matches(old(sections)[id], Place(standard, parent), source)
              else nextSection == old(nextSection) + 1 && id == old(nextSection)
      ensures && sections[id].standard == standard && sections[id].parent == parent && sections[id].code == source.code
              && sections[id].title == source.title && sections[id].sortOrder == source.sortOrder
      // the row found is in the same place and has the section's code or, if that is none, its title
      ensures id in old(sections) ==>
                && old(sections)[id].standard == standard && old(sections)[id].parent == parent
                && if source.code == None || source.code == Some("") then old(sections)[id].title == source.title
                   else old(sections)[id].code == source.code
      ensures id !in old(sections) ==>
                forall i :: (i in old(sections) && old(sections)[i].standard == standard &&
                             old(sections)[i].parent == parent) ==>
                  if source.code == None || source.code == Some("") then old(sections)[i].title != source.title
                  else old(sections)[i].code != source.code
    {
      FoundInFields(sections, standard, parent, source);
      if Known(sections, Place(standard, parent), source) {
        id :| id in sections && Matches(sections[id], Place(standard, parent), source);
        sections :=
            sections[id := sections[id].(code := source.code, title := source.title, sortOrder := source.sortOrder)];
      } else {
        id := nextSection;
        nextSection := nextSection + 1;
        sections := sections[id := TargetSection(standard, parent, source.code, source.title, source.sortOrder)];
      }
    }

    /** One visit is one step of the run. */
    method Visit(v: int, standard: int, targetParent: Option<int>) returns (id: int)
      requires Valid() && HasPlace(table, Now(), v) &&
               PlaceOf(table, standardFor, Now(), v) == Place(standard, targetParent)
      modifies this
      ensures Valid() && visited == old(visited) + [v] && trace[0] == old(trace[0])
      ensures Kept(old(Now()), Now(), [v]) && Stands(Now(), v, id, standard)
    {
      id := EnsureSection(standard, table.rows[v], targetParent);
      image := image[v := id];
      RunSnoc(table, standardFor, trace, visited, Now(), v);
      visited, trace := visited + [v], trace + [Now()];
    }

    /** Terminates on every table: the ghost path from the root grows, and no path is longer than the table. */
    method CloneSectionBranch(v: int, standard: int, targetParent: Option<int>, ghost path: seq<int>)
      requires Valid() && RootPath(table, path) && Last(path) == v
      requires HasPlace(table, Now(), v) && PlaceOf(table, standardFor, Now(), v) == Place(standard, targetParent)
      modifies this
      ensures Valid() && visited == old(visited) + Branch(table, path) && trace[0] == old(trace[0])
      ensures Kept(old(Now()), Now(), Branch(table, path))
      decreases |table.rows.Keys| - |path|, 2
    {
      PathDistinct(table, path);
      ghost var was := Now();
      var id := Visit(v, standard, targetParent);
      ghost var now := Now();
      CloneChildren(v, id, standard, path);
      KeptOn(was, now, Now(), [v], Branches(table, path, Children(table, Some(v))));
      Regroup(old(visited), [v], Branches(table, path, Children(table, Some(v))));
    }

    method CloneChildren(v: int, id: int, standard: int, ghost path: seq<int>)
      requires Valid() && RootPath(table, path) && Last(path) == v
      requires Stands(Now(), v, id, standard)
      modifies this
      ensures Valid() && visited == old(visited) + Branches(table, path, Children(table, Some(v))) &&
              trace[0] == old(trace[0])
      ensures Kept(old(Now()), Now(), Branches(table, path, Children(table, Some(v))))
      decreases |table.rows.Keys| - |path|, 1
    {
      var kids := Children(table, Some(v));
      ghost var done: seq<int>, before, was, start := [], visited, Now(), trace[0];
      for i := 0 to |kids|
        invariant Valid() && visited == before + done && trace[0] == start
        invariant done + Branches(table, path, kids[i..]) == Branches(table, path, kids)
        invariant Kept(was, Now(), done) && Stands(Now(), v, id, standard)
      {
        assert kids[i] in kids && kids[i..][1..] == kids[i + 1..];
        ghost var now := Now();
        ghost var part := CloneChild(kids[i], v, id, standard, path, kids[i..]);
        KeptOn(was, now, Now(), done, part);
        Regroup(before, done, part);
        Regroup(done, part, Branches(table, path, kids[i + 1..]));
        done := done + part;
      }
      assert kids[|kids|..] == [];
    }

    method CloneChild(k: int, v: int, id: int, standard: int, ghost path: seq<int>, ghost kids: seq<int>)
        returns (ghost part: seq<int>)
      requires Valid() && RootPath(table, path) && Last(path) == v && kids != [] && k == kids[0]
      requires forall k :: k in kids ==> k in table.rows && table.rows[k].parent == Some(v)
      requires Stands(Now(), v, id, standard)
      modifies this
      ensures Valid() && visited == old(visited) + part && trace[0] == old(trace[0])
      ensures part + Branches(table, path, kids[1..]) == Branches(table, path, kids)
      ensures Kept(old(Now()), Now(), part)
      ensures Stands(Now(), v, id, standard)
      decreases |table.rows.Keys| - |path|, 0
    {
      ChildBranchNext(table, path, kids);
      part := Branch(table, path + [k]);
      CloneSectionBranch(k, standard, Some(id), path + [k]);
    }

    /**
     The whole run: every section connected to a root has its image, in the standard made for that root and under
     its parent's image; nothing else changes. Into standards without rows the copy is one-to-one exactly when
     nothing merges, and then complete.
     */
    method SplitSections()
      requires Valid() && visited == [] && image == map[]
      modifies this
      ensures Valid() && visited == Visits(table) && WholeRun(table, standardFor, trace) && trace[0] == old(Now())
      ensures (forall u :: u in image <==> Rooted(table, u)) && AllPlaced(table, standardFor, Now())
      ensures PlacesKept(old(sections), sections) && Accounted(old(sections), Now(), visited)
      ensures Fresh(table, standardFor, old(sections)) ==>
                && (OneToOne(table, Now()) <==> NoMerge(table, standardFor))
                && (NoMerge(table, standardFor) ==>
                    forall u :: Rooted(table, u) ==> Shown(table, standardFor, Now(), u))
    {
      CloneRoots();
      RunPlacesAll(table, standardFor, trace);
      if Fresh(table, standardFor, old(sections)) {
        OneToOneIffNoMerge(table, standardFor, trace);
      }
    }

    method CloneRoots()
      requires Valid() && visited == [] && image == map[]
      modifies this
      ensures Valid() && visited == Visits(table) && trace[0] == old(Now())
    {
      ghost var start := Now();
      var roots := Children(table, None);
      RootsAhead(table);
      for i := 0 to |roots|
        invariant Valid() && trace[0] == start && Ahead(table, visited, roots, i)
      {
        CloneRoot(roots, i);
      }
      RootsDone(table, visited);
    }

    method CloneRoot(roots: seq<int>, i: nat)
      requires Valid() && roots == Children(table, None) && i < |roots| && Ahead(table, visited, roots, i)
      modifies this
      ensures Valid() && trace[0] == old(trace[0]) && Ahead(table, visited, roots, i + 1)
    {
      var r := roots[i];
      assert r in roots && roots[i..][1..] == roots[i + 1..];
      ghost var before := visited;
      CloneSectionBranch(r, standardFor(r), None, [r]);
      Regroup(before, Branch(table, [r]), RootBranches(table, roots[i + 1..]));
    }
  }

  /** The visits made so far, and those from root number `i` on, make up the run. */
  ghost predicate Ahead(t: Table, visited: seq<int>, roots: seq<int>, i: nat)
    requires roots == Children(t, None) && i <= |roots|
  {
    visited + RootBranches(t, roots[i..]) == Visits(t)
  }

  lemma RootsAhead(t: Table)
    ensures Ahead(t, [], Children(t, None), 0)
  {
    assert Children(t, None)[0..] == Children(t, None);
  }

  lemma RootsDone(t: Table, visited: seq<int>)
    requires Ahead(t, visited, Children(t, None), |Children(t, None)|)
    ensures visited == Visits(t)
  {
    assert Children(t, None)[|Children(t, None)|..] == [];
  }
}
