/** Which sections share a row, and what their rows say, told from the columns of the source sections. */
module SectionRules {
  import opened Prelude
  import opened SectionForest
  import opened SectionClone
  import opened SectionRerun

  predicate HasCode(section: Section) {
    section.code != None && section.code != Some("")
  }

  /** `later` is looked up where a row says what `earlier` says: by code if it has one, else by title. */
  predicate MistakenFor(later: Section, earlier: Section) {
    || (HasCode(later) && later.code == earlier.code)
    || (!HasCode(later) && later.title == earlier.title)
  }

  predicate SameParent(t: Table, f: int -> int, a: int, b: int) {
    && a in t.rows && b in t.rows && t.rows[a].parent == t.rows[b].parent
    && (t.rows[a].parent == None ==> f(a) == f(b))
  }

  lemma MergesMeans(t: Table, f: int -> int, a: int, b: int)
    ensures Merges(t, f, a, b) <==> SameParent(t, f, a, b) && MistakenFor(t.rows[b], t.rows[a])
  {
  }

  // ---------- one visit ----------

  /** The row says what the section says. */
  predicate Says(row: TargetSection, section: Section) {
    row.code == section.code && row.title == section.title && row.sortOrder == section.sortOrder
  }

  /** The row is where the section belongs: at the top of its own standard, or below its parent's image. */
  predicate InPlace(t: Table, f: int -> int, s: State, u: int, row: TargetSection)
    requires HasPlace(t, s, u)
  {
    match t.rows[u].parent
    case None => row.standard == f(u) && row.parent == None
    case Some(p) => row.parent == Some(s.image[p]) && row.standard == s.sections[s.image[p]].standard
  }

  /** A row that the look-up can find. */
  predicate Findable(t: Table, f: int -> int, s: State, u: int, row: TargetSection)
    requires HasPlace(t, s, u)
  {
    InPlace(t, f, s, u, row) && if HasCode(t.rows[u]) then row.code == t.rows[u].code else row.title == t.rows[u].title
  }

  lemma FindableMatches(t: Table, f: int -> int, s: State, u: int, row: TargetSection)
    requires HasPlace(t, s, u)
    ensures Findable(t, f, s, u, row) <==> Matches(row, PlaceOf(t, f, s, u), t.rows[u])
  {
  }

  /** One visit: some findable row is overwritten, if there is one, else a new row is made; no other row changes. */
  lemma VisitRule(t: Table, f: int -> int, s: State, s': State, u: int)
    requires Step(t, f, s, s', u) && IdsBelow(s.sections, s.next)
    ensures u in s'.image && s'.image[u] in s'.sections
    ensures var row := s'.sections[s'.image[u]]; Says(row, t.rows[u]) && InPlace(t, f, s, u, row)
    ensures forall i :: i != s'.image[u] ==>
              (i in s'.sections <==> i in s.sections) && (i in s.sections ==> s'.sections[i] == s.sections[i])
    ensures s'.image[u] in s.sections <==> exists i :: i in s.sections && Findable(t, f, s, u, s.sections[i])
    ensures s'.image[u] in s.sections ==> Findable(t, f, s, u, s.sections[s'.image[u]])
  {
    var place, source := PlaceOf(t, f, s, u), t.rows[u];
    forall i | i in s.sections
      ensures Findable(t, f, s, u, s.sections[i]) <==> Matches(s.sections[i], place, source)
    {
      FindableMatches(t, f, s, u, s.sections[i]);
    }
  }

  /** Visited after `a` and mistaken for no other, a section lands on the row of `a` just when mistaken for `a`. */
  lemma LandsOnIff(t: Table, f: int -> int, start: map<int, TargetSection>, s: State, s': State, done: seq<int>,
                   u: int, a: int)
    requires Copied(t, f, start, s, done) && Fresh(t, f, start) && ImagesDistinct(s, done)
    requires Step(t, f, s, s', u) && u !in done && a in done
    requires forall b :: b in done && b != a && SameParent(t, f, b, u) ==> !MistakenFor(t.rows[u], t.rows[b])
    ensures ImageOf(s', u) == ImageOf(s, a) <==> SameParent(t, f, a, u) && MistakenFor(t.rows[u], t.rows[a])
  {
    MergesMeans(t, f, a, u);
    if Known(s.sections, PlaceOf(t, f, s, u), t.rows[u]) {
      var b := MatchIsSibling(t, f, start, s, done, u, ImageOf(s', u));
      MergesMeans(t, f, b, u);
    } else {
      assert Settled(t, f, s, a);
      if Merges(t, f, a, u) {
        SiblingMatches(t, f, s, done, a, u);
      }
    }
  }

  // ---------- whole runs ----------

  /** The section's image is in its place and says what the section says. */
  predicate OwnRow(t: Table, f: int -> int, s: State, u: int) {
    && HasPlace(t, s, u) && u in s.image && s.image[u] in s.sections
    && InPlace(t, f, s, u, s.sections[s.image[u]]) && Says(s.sections[s.image[u]], t.rows[u])
  }

  /** No section is mistaken for a sibling loaded before it. */
  ghost predicate NoneMistakenForEarlier(t: Table, f: int -> int) {
    forall a, b :: Rooted(t, a) && Before(t.order, a, b) && SameParent(t, f, a, b) ==>
      !MistakenFor(t.rows[b], t.rows[a])
  }

  ghost predicate NoneMistaken(t: Table, f: int -> int) {
    forall a, b :: Rooted(t, a) && Rooted(t, b) && a != b && SameParent(t, f, a, b) ==>
      !MistakenFor(t.rows[b], t.rows[a])
  }

  lemma ConditionsMean(t: Table, f: int -> int)
    ensures NoMerge(t, f) <==> NoneMistakenForEarlier(t, f)
    ensures NoTwins(t, f) <==> NoneMistaken(t, f)
  {
    forall a, b ensures Merges(t, f, a, b) <==> SameParent(t, f, a, b) && MistakenFor(t.rows[b], t.rows[a]) {
      MergesMeans(t, f, a, b);
    }
  }

  /**
   Into standards without rows: the copy is one-to-one if and only if no section has the code of a sibling loaded before
   it, or no code and the title of one. Then a second run is sure to repeat if and only if that holds of siblings in
   either order.
   */
  lemma SharedRowsIff(t: Table, f: int -> int, states: seq<State>)
    requires WholeRun(t, f, states) && Fresh(t, f, states[0].sections)
    ensures OneToOne(t, Last(states)) <==> NoneMistakenForEarlier(t, f)
    ensures NoneMistakenForEarlier(t, f) ==>
              ((forall second :: Rerun(t, f, Last(states), second) ==> Last(second) == Last(states)) <==>
               NoneMistaken(t, f))
  {
    ConditionsMean(t, f);
    OneToOneIffNoMerge(t, f, states);
    if NoMerge(t, f) {
      SecondRunIff(t, f, states);
    }
  }

  /** Siblings all have codes, and different ones. */
  ghost predicate CodesTellApart(t: Table, f: int -> int) {
    && (forall u :: Rooted(t, u) ==> HasCode(t.rows[u]))
    && (forall a, b :: Rooted(t, a) && Rooted(t, b) && a != b && SameParent(t, f, a, b) ==>
          t.rows[a].code != t.rows[b].code)
  }

  lemma ApartNotMistaken(t: Table, f: int -> int)
    requires WellLoaded(t) && CodesTellApart(t, f)
    ensures NoneMistaken(t, f) && NoneMistakenForEarlier(t, f)
  {
    forall a, b | Rooted(t, a) && Before(t.order, a, b) && SameParent(t, f, a, b) ensures Rooted(t, b) && a != b {
      SiblingRooted(t, a, b);
    }
  }

  lemma SiblingRooted(t: Table, a: int, b: int)
    requires WellLoaded(t) && Rooted(t, a) && Before(t.order, a, b) && a in t.rows && b in t.rows
    requires t.rows[a].parent == t.rows[b].parent
    ensures Rooted(t, b) && a != b
  {
    SiblingsInOrder(t, a, b);
    EverySectionOnce(t);
  }

  /** With such codes every section has a row of its own, which says what the section says, and a second run repeats. */
  lemma CodedSectionsKeepTheirRows(t: Table, f: int -> int, states: seq<State>)
    requires WholeRun(t, f, states) && Fresh(t, f, states[0].sections) && CodesTellApart(t, f)
    ensures OneToOne(t, Last(states))
    ensures forall u :: Rooted(t, u) ==> OwnRow(t, f, Last(states), u)
    ensures forall second :: Rerun(t, f, Last(states), second) ==> Last(second) == Last(states)
  {
    ApartNotMistaken(t, f);
    SharedRowsIff(t, f, states);
    RowsSay(t, f, states);
  }

  /** When the copy is one-to-one, every row says what its section says. */
  lemma RowsSay(t: Table, f: int -> int, states: seq<State>)
    requires WholeRun(t, f, states) && Fresh(t, f, states[0].sections) && OneToOne(t, Last(states))
    ensures forall u :: Rooted(t, u) ==> OwnRow(t, f, Last(states), u)
  {
    OneToOneIffNoMerge(t, f, states);
    forall u | Rooted(t, u) ensures OwnRow(t, f, Last(states), u) {
      assert Shown(t, f, Last(states), u);
    }
  }
}
