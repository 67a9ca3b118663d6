/** A root with two sections below it: what the first run leaves of them, and whether a second run repeats. */
module SectionExamples {
  import opened Prelude
  import opened SectionForest
  import opened SectionClone
  import opened SectionRerun

  const TOP := Section(None, Some("GRI 2"), "General Disclosures", 1)
  const CODED := Section(Some(1), Some("2.1"), "Reporting practices", 1)
  const UNCODED := Section(Some(1), None, "Reporting practices", 2)
  const NAMESAKE := Section(Some(1), None, "Reporting practices", 3)

  function Pair(first: Section, second: Section): Table {
    Table(map[1 := TOP, 2 := first, 3 := second], [1, 2, 3])
  }

  ghost predicate IsPair(t: Table) {
    && WellLoaded(t) && (forall v :: Rooted(t, v) <==> v == 1 || v == 2 || v == 3)
    && 1 in t.rows && t.rows[1].parent == None
    && 2 in t.rows && t.rows[2].parent == Some(1) && 3 in t.rows && t.rows[3].parent == Some(1)
    && Before(t.order, 2, 3)
  }

  lemma PairLoads(first: Section, second: Section)
    requires first.parent == Some(1) && second.parent == Some(1)
    ensures IsPair(Pair(first, second))
  {
    var t := Pair(first, second);
    assert RootPath(t, [1]) && Last([1]) == 1;
    assert RootPath(t, [1, 2]) && Last([1, 2]) == 2;
    assert RootPath(t, [1, 3]) && Last([1, 3]) == 3;
    assert t.order[1] == 2 && t.order[2] == 3;
    forall v | Rooted(t, v) ensures v in t.rows {
      var q :| RootPath(t, q) && Last(q) == v;
    }
  }

  // ---------- the visits ----------

  lemma ThreeInOrder(s: seq<int>)
    requires Distinct(s) && forall v :: v in s <==> v == 1 || v == 2 || v == 3
    requires Before(s, 1, 2) && Before(s, 2, 3)
    ensures s == [1, 2, 3]
  {
    var i, j :| 0 <= i < j < |s| && s[i] == 1 && s[j] == 2;
    var j', k :| 0 <= j' < k < |s| && s[j'] == 2 && s[k] == 3;
    assert j == j';
    assert forall n :: 0 <= n < |s| ==> s[n] in s;
    DistinctFits(s, {1, 2, 3});
    assert i == 0 && j == 1 && k == 2;
  }

  lemma PairVisits(t: Table)
    requires IsPair(t)
    ensures Visits(t) == [1, 2, 3]
  {
    EverySectionOnce(t);
    ParentFirst(t, 2);
    SiblingsInOrder(t, 2, 3);
    ThreeInOrder(Visits(t));
  }

  lemma ThreeSteps(t: Table, f: int -> int, states: seq<State>)
    requires IsPair(t) && WholeRun(t, f, states)
    ensures |states| == 4 && Step(t, f, states[0], states[1], 1) && Step(t, f, states[1], states[2], 2)
    ensures Step(t, f, states[2], states[3], 3)
  {
    PairVisits(t);
    assert StepAt(t, f, states, Visits(t), 0) && StepAt(t, f, states, Visits(t), 1) &&
           StepAt(t, f, states, Visits(t), 2);
  }

  // ---------- one visit, when at most one row is at the place ----------

  ghost predicate OnlyRowAt(sections: map<int, TargetSection>, place: Place, r: int) {
    forall i :: i in sections && At(sections[i]) == place ==> i == r
  }

  ghost predicate NoRowAt(sections: map<int, TargetSection>, place: Place) {
    forall i :: i in sections ==> At(sections[i]) != place
  }

  function Put(s: State, u: int, r: int, row: TargetSection, next: int): State {
    State(s.sections[r := row], next, s.image[u := r])
  }

  lemma VisitMakes(s: State, s': State, u: int, place: Place, source: Section)
    requires Visited(s, s', u, place, source) && NoRowAt(s.sections, place)
    ensures s' == Put(s, u, s.next, RowAt(place, source), s.next + 1)
  {
  }

  lemma VisitFinds(s: State, s': State, u: int, place: Place, source: Section, r: int)
    requires Visited(s, s', u, place, source) && OnlyRowAt(s.sections, place, r) && r in s.sections
    requires At(s.sections[r]) == place && Takes(source, s.sections[r].code, s.sections[r].title)
    ensures s' == Put(s, u, r, RowAt(place, source), s.next)
  {
    assert Matches(s.sections[r], place, source) && Known(s.sections, place, source);
    var i := s'.image[u];
    assert At(s.sections[i]) == place && i == r;
    assert s'.image == s.image[u := i];
  }

  lemma VisitMisses(s: State, s': State, u: int, place: Place, source: Section, r: int)
    requires Visited(s, s', u, place, source) && OnlyRowAt(s.sections, place, r) && r in s.sections
    requires !Takes(source, s.sections[r].code, s.sections[r].title)
    ensures s'.image[u] == s.next && u in s'.image
  {
  }

  // ---------- the first run ----------

  /** Places of the root and of the two below it, the root's row being `top`. */
  function TopPlace(f: int -> int): Place {
    Place(f(1), None)
  }

  function LowPlace(f: int -> int, top: int): Place {
    Place(f(1), Some(top))
  }

  /** One row for the root, and one that the second section took over from the first. */
  ghost predicate Merged(t: Table, f: int -> int, s: State, top: int, low: int)
    requires 1 in t.rows && 3 in t.rows
  {
    && top != low && top < s.next && low < s.next
    && s.image == map[1 := top, 2 := low, 3 := low]
    && top in s.sections && s.sections[top] == RowAt(TopPlace(f), t.rows[1])
    && low in s.sections && s.sections[low] == RowAt(LowPlace(f, top), t.rows[3])
    && OnlyRowAt(s.sections, TopPlace(f), top) && OnlyRowAt(s.sections, LowPlace(f, top), low)
  }

  lemma FirstRunMerges(t: Table, f: int -> int, states: seq<State>)
    requires IsPair(t) && WholeRun(t, f, states) && Fresh(t, f, states[0].sections) && Merges(t, f, 2, 3)
    ensures Merged(t, f, Last(states), states[0].next, states[0].next + 1)
  {
    ThreeSteps(t, f, states);
    var s0, top, low := states[0], states[0].next, states[0].next + 1;
    assert IsTarget(t, f, f(1));
    VisitMakes(s0, states[1], 1, TopPlace(f), t.rows[1]);
    VisitMakes(states[1], states[2], 2, LowPlace(f, top), t.rows[2]);
    VisitFinds(states[2], states[3], 3, LowPlace(f, top), t.rows[3], low);
    ImagesOfThree(states[3].image, s0.image, top, low);
  }

  lemma ImagesOfThree(m: map<int, int>, start: map<int, int>, top: int, low: int)
    requires start == map[] && m == start[1 := top][2 := low][3 := low]
    ensures m == map[1 := top, 2 := low, 3 := low]
  {
  }

  // ---------- the second run ----------

  lemma SecondTop(t: Table, f: int -> int, first: State, s: State, top: int, low: int)
    requires IsPair(t) && Merged(t, f, first, top, low) && Step(t, f, first.(image := map[]), s, 1)
    ensures s == Put(first.(image := map[]), 1, top, first.sections[top], first.next) && s.sections == first.sections
  {
    VisitFinds(first.(image := map[]), s, 1, TopPlace(f), t.rows[1], top);
    assert first.sections[top := first.sections[top]] == first.sections;
  }

  /** After a merge of two sections, every second run repeats if the first fits
   * the second's row, and none does otherwise. */
  lemma SecondRunAfterMerge(t: Table, f: int -> int, states: seq<State>, second: seq<State>)
    requires IsPair(t) && WholeRun(t, f, states) && Fresh(t, f, states[0].sections) && Merges(t, f, 2, 3)
    requires Rerun(t, f, Last(states), second)
    ensures Last(second) == Last(states) <==> Merges(t, f, 3, 2)
  {
    var first, top, low := Last(states), states[0].next, states[0].next + 1;
    FirstRunMerges(t, f, states);
    ThreeSteps(t, f, second);
    SecondTop(t, f, first, second[1], top, low);
    if Merges(t, f, 3, 2) {
      SecondRepeats(t, f, first, second, top, low);
    } else {
      VisitMisses(second[1], second[2], 2, LowPlace(f, top), t.rows[2], low);
      assert second[3].image[2] == second[2].image[2];
    }
  }

  lemma SecondRepeats(t: Table, f: int -> int, first: State, second: seq<State>, top: int, low: int)
    requires IsPair(t) && Merged(t, f, first, top, low) && Merges(t, f, 2, 3) && Merges(t, f, 3, 2)
    requires |second| == 4 && second[0] == first.(image := map[])
    requires second[1] == Put(second[0], 1, top, first.sections[top], first.next) &&
             second[1].sections == first.sections
    requires Step(t, f, second[1], second[2], 2) && Step(t, f, second[2], second[3], 3)
    ensures second[3] == first
  {
    VisitFinds(second[1], second[2], 2, LowPlace(f, top), t.rows[2], low);
    VisitFinds(second[2], second[3], 3, LowPlace(f, top), t.rows[3], low);
    assert second[3].sections == first.sections;
    ImagesOfThree(second[3].image, second[0].image, top, low);
  }

  // ---------- inputs for each outcome ----------

  /** A section with a code, then one without and of the same title: one row is left, and the code is gone. */
  lemma CodeErased(f: int -> int, states: seq<State>)
    requires WholeRun(Pair(CODED, UNCODED), f, states) && Fresh(Pair(CODED, UNCODED), f, states[0].sections)
    ensures var end := Last(states);
            && 2 in end.image && 3 in end.image && end.image[2] == end.image[3] && end.image[2] in end.sections
            && end.sections[end.image[2]].code == None
  {
    PairLoads(CODED, UNCODED);
    FirstRunMerges(Pair(CODED, UNCODED), f, states);
  }

  /** Then no second run repeats: the section with the code finds no row of its own and makes one. */
  lemma ErasedNeverRepeats(f: int -> int, states: seq<State>, second: seq<State>)
    requires WholeRun(Pair(CODED, UNCODED), f, states) && Fresh(Pair(CODED, UNCODED), f, states[0].sections)
    requires Rerun(Pair(CODED, UNCODED), f, Last(states), second)
    ensures Last(second) != Last(states)
  {
    PairLoads(CODED, UNCODED);
    SecondRunAfterMerge(Pair(CODED, UNCODED), f, states, second);
  }

  /** Two sections without a code and of one title share a row, and every second run repeats. */
  lemma NamesakesRepeat(f: int -> int, states: seq<State>, second: seq<State>)
    requires WholeRun(Pair(UNCODED, NAMESAKE), f, states) && Fresh(Pair(UNCODED, NAMESAKE), f, states[0].sections)
    requires Rerun(Pair(UNCODED, NAMESAKE), f, Last(states), second)
    ensures ImageOf(Last(states), 2) == ImageOf(Last(states), 3) && Last(second) == Last(states)
  {
    PairLoads(UNCODED, NAMESAKE);
    FirstRunMerges(Pair(UNCODED, NAMESAKE), f, states);
    SecondRunAfterMerge(Pair(UNCODED, NAMESAKE), f, states, second);
  }

  /** Sections that differ in code only by lacking one do not merge in this order, yet a second run can go astray. */
  lemma SecondRunCanDiffer(f: int -> int)
    ensures var t := Pair(UNCODED, CODED); WellLoaded(t) && NoMerge(t, f) && !NoTwins(t, f)
  {
    var t := Pair(UNCODED, CODED);
    PairLoads(UNCODED, CODED);
    assert Merges(t, f, 3, 2);
  }
}
