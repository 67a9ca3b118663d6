/** A second run over the same sections: when it retraces the first, and how it can go astray. */
module SectionRerun {
  import opened Prelude
  import opened SectionForest
  import opened SectionClone

  /** A run over the same table and the rows that a first one left. */
  ghost predicate Rerun(t: Table, f: int -> int, first: State, states: seq<State>) {
    WholeRun(t, f, states) && states[0] == first.(image := map[])
  }

  /** No section's look-up finds another's row, in either order. */
  ghost predicate NoTwins(t: Table, f: int -> int) {
    forall a, b :: Rooted(t, a) && Rooted(t, b) && a != b ==> !Merges(t, f, a, b)
  }

  ghost predicate TwinFree(t: Table, f: int -> int, visits: seq<int>) {
    forall a, b :: a in visits && b in visits && a != b ==> !Merges(t, f, a, b)
  }

  /** The end of a run that merged nothing. */
  ghost predicate Finished(t: Table, f: int -> int, start: map<int, TargetSection>, first: State, visits: seq<int>) {
    Copied(t, f, start, first, visits) && Fresh(t, f, start) && ImagesDistinct(first, visits)
  }

  function Restricted<K, V>(m: map<K, V>, ks: seq<K>): map<K, V> {
    map k | k in m && k in ks :: m[k]
  }

  lemma RestrictedMore<K, V>(m: map<K, V>, ks: seq<K>, k: K)
    requires k in m
    ensures Restricted(m, ks + [k]) == Restricted(m, ks)[k := m[k]]
  {
  }

  lemma RestrictedAll<K, V>(m: map<K, V>, ks: seq<K>)
    requires m.Keys == Elements(ks)
    ensures Restricted(m, ks) == m
  {
    assert forall k :: k in m.Keys ==> k in Elements(ks);
  }

  /** The rows of the end of the first run, and its images of the sections visited so far. */
  function Upto(first: State, done: seq<int>): State {
    State(first.sections, first.next, Restricted(first.image, done))
  }

  /** The section finds its own row again. */
  lemma FindsItself(t: Table, f: int -> int, first: State, visits: seq<int>, s: State, done: seq<int>, u: int)
    requires Good(t, f, first, visits) && LatestShown(t, f, first, visits) && ImagesDistinct(first, visits)
    requires s == Upto(first, done) && HasPlace(t, s, u) && u in visits
    ensures Shown(t, f, first, u) && PlaceOf(t, f, s, u) == PlaceOf(t, f, first, u)
    ensures Matches(s.sections[first.image[u]], PlaceOf(t, f, s, u), t.rows[u]) &&
            Known(s.sections, PlaceOf(t, f, s, u), t.rows[u])
  {
    AllShown(t, f, first, visits, u);
    var parent := t.rows[u].parent;
    if parent.Some? {
      var p := parent.value;
      assert p in s.image && p in done;
    }
    assert Matches(s.sections[first.image[u]], PlaceOf(t, f, s, u), t.rows[u]);
  }

  lemma SecondStep(t: Table, f: int -> int, start: map<int, TargetSection>, first: State, visits: seq<int>,
                   s: State, s': State, done: seq<int>, u: int)
    requires Finished(t, f, start, first, visits) && s == Upto(first, done) && Step(t, f, s, s', u) && u in visits
    requires TwinFree(t, f, visits)
    ensures s' == Upto(first, done + [u])
  {
    FindsItself(t, f, first, visits, s, done, u);
    var a := MatchIsSibling(t, f, start, first, visits, u, s'.image[u]);
    assert a == u || !Merges(t, f, a, u);
    RestrictedMore(first.image, done, u);
    assert first.sections[first.image[u] := RowAt(PlaceOf(t, f, s, u), t.rows[u])] == first.sections;
  }

  lemma {:induction false} SecondTraces(t: Table, f: int -> int, start: map<int, TargetSection>, first: State,
                                        visits: seq<int>, states: seq<State>, done: seq<int>, rest: seq<int>)
    requires Finished(t, f, start, first, visits) && TwinFree(t, f, visits) && IsRun(t, f, states, rest)
    requires states[0] == Upto(first, done) && visits == done + rest
    ensures Last(states) == Upto(first, visits)
    decreases |rest|
  {
    if rest == [] {
      assert visits == done;
    } else {
      RunTail(t, f, states, rest);
      assert visits == (done + [rest[0]]) + rest[1..] && rest[0] in visits;
      SecondStep(t, f, start, first, visits, states[0], states[1], done, rest[0]);
      SecondTraces(t, f, start, first, visits, states[1..], done + [rest[0]], rest[1..]);
    }
  }

  lemma FinishedRun(t: Table, f: int -> int, states: seq<State>)
    requires WholeRun(t, f, states) && Fresh(t, f, states[0].sections) && NoMerge(t, f)
    ensures Finished(t, f, states[0].sections, Last(states), Visits(t))
  {
    EverySectionOnce(t);
    NoMergeIff(t, f);
    EndOfRun(t, f, states, Visits(t));
  }

  lemma TwinFreeRetraces(t: Table, f: int -> int, states: seq<State>, second: seq<State>)
    requires WholeRun(t, f, states) && Fresh(t, f, states[0].sections) && NoMerge(t, f) && NoTwins(t, f)
    requires Rerun(t, f, Last(states), second)
    ensures Last(second) == Last(states)
  {
    FinishedRun(t, f, states);
    EverySectionOnce(t);
    assert TwinFree(t, f, Visits(t));
    SecondEnds(t, f, states[0].sections, Last(states), Visits(t), second);
  }

  lemma SecondEnds(t: Table, f: int -> int, start: map<int, TargetSection>, first: State, visits: seq<int>,
                   states: seq<State>)
    requires Finished(t, f, start, first, visits) && TwinFree(t, f, visits) && IsRun(t, f, states, visits)
    requires states[0] == first.(image := map[])
    ensures Last(states) == first
  {
    assert states[0] == Upto(first, []) && [] + visits == visits;
    SecondTraces(t, f, start, first, visits, states, [], visits);
    RestrictedAll(first.image, visits);
  }

  // ---------- a second run that goes astray ----------

  lemma NextState(t: Table, f: int -> int, s: State, u: int) returns (s': State)
    requires HasPlace(t, s, u)
    ensures Step(t, f, s, s', u)
  {
    var place, source := PlaceOf(t, f, s, u), t.rows[u];
    var i, next := s.next, s.next + 1;
    if Known(s.sections, place, source) {
      i :| i in s.sections && Matches(s.sections[i], place, source);
      next := s.next;
    }
    s' := State(s.sections[i := RowAt(place, source)], next, s.image[u := i]);
  }

  predicate Reachable(t: Table, done: seq<int>, u: int) {
    u in t.rows && u !in done && (t.rows[u].parent.Some? ==> t.rows[u].parent.value in done)
  }

  /** Each section to come is new and has its parent before it. */
  predicate CanVisit(t: Table, done: seq<int>, rest: seq<int>)
    decreases |rest|
  {
    if rest == [] then true else Reachable(t, done, rest[0]) && CanVisit(t, done + [rest[0]], rest[1..])
  }

  lemma {:induction false} RestOfRun(t: Table, n: nat)
    requires WellLoaded(t) && n <= |Visits(t)|
    ensures CanVisit(t, Visits(t)[..n], Visits(t)[n..])
    decreases |Visits(t)| - n
  {
    var visits := Visits(t);
    if n < |visits| {
      RestOfRun(t, n + 1);
      NextReachable(t, n);
      assert visits[..n] + [visits[n]] == visits[..n + 1] && visits[n..][1..] == visits[n + 1..];
    }
  }

  lemma NextReachable(t: Table, n: nat)
    requires WellLoaded(t) && n < |Visits(t)|
    ensures Reachable(t, Visits(t)[..n], Visits(t)[n])
  {
    var visits := Visits(t);
    EverySectionOnce(t);
    var u := visits[n];
    assert u in visits;
    InRows(t, u);
    if t.rows[u].parent.Some? {
      ParentFirst(t, u);
      var i, j :| 0 <= i < j < |visits| && visits[i] == t.rows[u].parent.value && visits[j] == u;
      assert visits[..n][i] == visits[i];
    }
  }

  lemma ReachableHasPlace(t: Table, f: int -> int, s: State, done: seq<int>, u: int)
    requires Good(t, f, s, done) && Reachable(t, done, u)
    ensures HasPlace(t, s, u)
  {
    if t.rows[u].parent.Some? {
      var p := t.rows[u].parent.value;
      assert p in done && Settled(t, f, s, p);
    }
  }

  lemma RunCons(t: Table, f: int -> int, s: State, states: seq<State>, u: int, visits: seq<int>)
    requires IsRun(t, f, states, visits) && Step(t, f, s, states[0], u)
    ensures IsRun(t, f, [s] + states, [u] + visits) && Last([s] + states) == Last(states)
  {
    forall n | 0 <= n < |[u] + visits| ensures StepAt(t, f, [s] + states, [u] + visits, n) {
      if n > 0 {
        assert StepAt(t, f, states, visits, n - 1);
      }
    }
  }

  /** From any good state the rest of the run can be made. */
  lemma {:induction false} Continue(t: Table, f: int -> int, s: State, done: seq<int>, rest: seq<int>)
      returns (states: seq<State>)
    requires CanVisit(t, done, rest) && Good(t, f, s, done)
    ensures IsRun(t, f, states, rest) && states[0] == s
    ensures forall w :: w in done ==> ImageOf(Last(states), w) == ImageOf(s, w)
    decreases |rest|
  {
    states := [s];
    if rest != [] {
      var u := rest[0];
      ReachableHasPlace(t, f, s, done, u);
      var s' := NextState(t, f, s, u);
      StepKeeps(t, f, s, s', done, u);
      var after := Continue(t, f, s', done + [u], rest[1..]);
      RunCons(t, f, s, after, u, rest[1..]);
      states := [s] + after;
      assert rest == [u] + rest[1..];
    }
  }

  /** A visit may retrace the first run. */
  lemma TraceStep(t: Table, f: int -> int, start: map<int, TargetSection>, first: State, visits: seq<int>,
                  done: seq<int>, u: int)
    requires Finished(t, f, start, first, visits) && u in visits && HasPlace(t, Upto(first, done), u)
    ensures Step(t, f, Upto(first, done), Upto(first, done + [u]), u)
  {
    var s := Upto(first, done);
    FindsItself(t, f, first, visits, s, done, u);
    RestrictedMore(first.image, done, u);
    assert first.sections[first.image[u] := RowAt(PlaceOf(t, f, s, u), t.rows[u])] == first.sections;
  }

  /** Of two twins, it may send one to the row of the other. */
  lemma StrayStep(t: Table, f: int -> int, start: map<int, TargetSection>, first: State, visits: seq<int>,
                  done: seq<int>, u: int, a: int) returns (s: State)
    requires Finished(t, f, start, first, visits) && u in visits && HasPlace(t, Upto(first, done), u)
    requires a in visits && Merges(t, f, a, u)
    ensures Step(t, f, Upto(first, done), s, u) && ImageOf(s, u) == ImageOf(first, a)
  {
    var before, i := Upto(first, done), ImageOf(first, a);
    FindsItself(t, f, first, visits, before, done, u);
    SiblingMatches(t, f, first, visits, a, u);
    s := State(before.sections[i := RowAt(PlaceOf(t, f, before, u), t.rows[u])], before.next, before.image[u := i]);
  }

  lemma StrayNow(t: Table, f: int -> int, start: map<int, TargetSection>, first: State, visits: seq<int>,
                 done: seq<int>, u: int, rest: seq<int>, a: int) returns (states: seq<State>)
    requires Finished(t, f, start, first, visits) && Good(t, f, Upto(first, done), done)
    requires Reachable(t, done, u) && CanVisit(t, done + [u], rest) && u in visits && a in visits && Merges(t, f, a, u)
    ensures IsRun(t, f, states, rest) && Step(t, f, Upto(first, done), states[0], u)
    ensures ImageOf(Last(states), u) == ImageOf(first, a)
  {
    ReachableHasPlace(t, f, Upto(first, done), done, u);
    var s := StrayStep(t, f, start, first, visits, done, u, a);
    StepKeeps(t, f, Upto(first, done), s, done, u);
    states := Continue(t, f, s, done + [u], rest);
  }

  lemma TraceNow(t: Table, f: int -> int, start: map<int, TargetSection>, first: State, visits: seq<int>,
                 done: seq<int>, u: int)
    requires Finished(t, f, start, first, visits) && Good(t, f, Upto(first, done), done) && Reachable(t, done, u) &&
             u in visits
    ensures Step(t, f, Upto(first, done), Upto(first, done + [u]), u) && Good(t, f, Upto(first, done + [u]), done + [u])
  {
    ReachableHasPlace(t, f, Upto(first, done), done, u);
    TraceStep(t, f, start, first, visits, done, u);
    StepKeeps(t, f, Upto(first, done), Upto(first, done + [u]), done, u);
  }

  lemma {:induction false} StrayRun(t: Table, f: int -> int, start: map<int, TargetSection>, first: State,
                                    visits: seq<int>,
                                     done: seq<int>, rest: seq<int>, a: int, b: int) returns (states: seq<State>)
    requires Finished(t, f, start, first, visits) && Good(t, f, Upto(first, done), done) && CanVisit(t, done, rest)
    requires a in visits && b in rest && Merges(t, f, a, b) && forall u :: u in rest ==> u in visits
    ensures IsRun(t, f, states, rest) && states[0] == Upto(first, done)
    ensures ImageOf(Last(states), b) == ImageOf(first, a)
    decreases |rest|
  {
    var u, after := rest[0], [];
    assert rest == [u] + rest[1..] && u in visits;
    if u == b {
      after := StrayNow(t, f, start, first, visits, done, u, rest[1..], a);
    } else {
      TraceNow(t, f, start, first, visits, done, u);
      after := StrayRun(t, f, start, first, visits, done + [u], rest[1..], a, b);
    }
    RunCons(t, f, Upto(first, done), after, u, rest[1..]);
    states := [Upto(first, done)] + after;
  }

  lemma TwinsGoAstray(t: Table, f: int -> int, states: seq<State>, a: int, b: int) returns (second: seq<State>)
    requires WholeRun(t, f, states) && Fresh(t, f, states[0].sections) && NoMerge(t, f)
    requires Rooted(t, a) && Rooted(t, b) && a != b && Merges(t, f, a, b)
    ensures Rerun(t, f, Last(states), second)
    ensures ImageOf(Last(second), b) == ImageOf(Last(states), a) != ImageOf(Last(states), b)
  {
    EverySectionOnce(t);
    FinishedRun(t, f, states);
    var first, visits := Last(states), Visits(t);
    RestOfRun(t, 0);
    assert visits[..0] == [] && visits[0..] == visits && Upto(first, []) == first.(image := map[]);
    second := StrayRun(t, f, states[0].sections, first, visits, [], visits, a, b);
    if ImageOf(first, a) == ImageOf(first, b) {
      ImageOnce(first, visits, a, b);
    }
  }

  /** When the first run merged nothing: every second run ends exactly as the
   * first did, just when no section finds a twin. */
  lemma SecondRunIff(t: Table, f: int -> int, states: seq<State>)
    requires WholeRun(t, f, states) && Fresh(t, f, states[0].sections) && NoMerge(t, f)
    ensures (forall second :: Rerun(t, f, Last(states), second) ==> Last(second) == Last(states)) <==> NoTwins(t, f)
  {
    if NoTwins(t, f) {
      forall second | Rerun(t, f, Last(states), second) ensures Last(second) == Last(states) {
        TwinFreeRetraces(t, f, states, second);
      }
    } else {
      var a, b :| Rooted(t, a) && Rooted(t, b) && a != b && Merges(t, f, a, b);
      var second := TwinsGoAstray(t, f, states, a, b);
      assert Rerun(t, f, Last(states), second);
    }
  }
}
