/**
 Whose text a line goes to: a line that opens a clause starts its text, and every plain line up to the next such line
 is added at its end. Said once for sequences of events, then of both clause parsers.
 */
module ReadingOrder {
  import opened Prelude
  import SasbClauses
  import GriClauses

  datatype Event = Opens(tag: string, text: string) | Continues(line: string) | Skipped

  datatype Said = Said(tag: string, text: string)

  function Told(events: seq<Event>, norm: string -> string): seq<Said> {
    if events == [] then []
    else
      var before := Told(events[..|events| - 1], norm);
      match Last(events)
      case Opens(tag, text) => before + [Said(tag, norm(text))]
      case Continues(line) => if before == [] then [] else Extended(before, line, norm)
      case Skipped => before
  }

  function Extended(said: seq<Said>, line: string, norm: string -> string): (after: seq<Said>)
    requires said != []
    ensures |after| == |said|
  {
    said[|said| - 1 := Said(Last(said).tag, norm(Last(said).text + " " + line))]
  }

  /** A clause's own text, then the plain lines, in order. */
  function TextWith(text: string, more: seq<Event>, norm: string -> string): string {
    if more == [] then norm(text)
    else
      var before := TextWith(text, more[..|more| - 1], norm);
      if Last(more).Continues? then norm(before + " " + Last(more).line) else before
  }

  function Openings(events: seq<Event>): nat {
    if events == [] then 0 else Openings(events[..|events| - 1]) + if Last(events).Opens? then 1 else 0
  }

  lemma {:induction false} ToldLength(events: seq<Event>, norm: string -> string)
    ensures |Told(events, norm)| == Openings(events)
  {
    if events != [] {
      ToldLength(events[..|events| - 1], norm);
    }
  }

  ghost predicate NoneOpens(events: seq<Event>, from: nat, to: nat)
    requires to <= |events|
  {
    forall k :: from <= k < to ==> !events[k].Opens?
  }

  /** Up to the next opening, the clause opened last is the last one told. */
  lemma {:induction false} LastTold(events: seq<Event>, i: nat, j: nat, norm: string -> string)
    requires i < j <= |events| && events[i].Opens? && NoneOpens(events, i + 1, j)
    ensures var told := Told(events[..j], norm);
            && |told| == Openings(events[..i]) + 1
            && Last(told) == Said(events[i].tag, TextWith(events[i].text, events[i + 1..j], norm))
    decreases j
  {
    assert events[..j][..j - 1] == events[..j - 1];
    ToldLength(events[..i], norm);
    if i + 1 < j {
      LastTold(events, i, j - 1, norm);
      assert events[i + 1..j][..j - i - 2] == events[i + 1..j - 1];
    }
  }

  /** What was told before a clause was opened stays as it is. */
  lemma {:induction false} ToldStays(events: seq<Event>, j: nat, n: nat, norm: string -> string)
    requires j < n <= |events| && events[j].Opens?
    ensures var before, after := Told(events[..j], norm), Told(events[..n], norm);
            |before| < |after| && after[..|before|] == before
    decreases n
  {
    assert events[..n][..n - 1] == events[..n - 1];
    if j + 1 < n {
      ToldStays(events, j, n - 1, norm);
    }
  }

  /** A clause is told in its turn, with the plain lines between its own line and the next that opens one. */
  lemma ToldInOrder(events: seq<Event>, i: nat, j: nat, norm: string -> string)
    requires i < j <= |events| && events[i].Opens? && NoneOpens(events, i + 1, j)
    requires j < |events| ==> events[j].Opens?
    ensures Openings(events[..i]) < |Told(events, norm)|
    ensures Told(events, norm)[Openings(events[..i])] ==
            Said(events[i].tag, TextWith(events[i].text, events[i + 1..j], norm))
  {
    LastTold(events, i, j, norm);
    assert events[..|events|] == events;
    if j < |events| {
      ToldStays(events, j, |events|, norm);
      var before, after := Told(events[..j], norm), Told(events, norm);
      assert after[..|before|][|before| - 1] == Last(before);
    }
  }

  /** The plain lines before the first that opens a clause. */
  function Lead(events: seq<Event>): seq<string> {
    if events == [] || events[0].Opens? then []
    else (if events[0].Continues? then [events[0].line] else []) + Lead(events[1..])
  }

  lemma {:induction false} LeadSnoc(events: seq<Event>, e: Event)
    ensures Lead(events + [e]) ==
            if Openings(events) == 0 && e.Continues? then Lead(events) + [e.line] else Lead(events)
  {
    if events == [] {
      assert (events + [e])[1..] == [] && Openings(events) == 0;
    } else {
      assert (events + [e])[1..] == events[1..] + [e];
      LeadSnoc(events[1..], e);
      OpeningsCons(events);
    }
  }

  lemma {:induction false} OpeningsCons(events: seq<Event>)
    requires events != []
    ensures Openings(events) == (if events[0].Opens? then 1 else 0) + Openings(events[1..])
  {
    if |events| > 1 {
      OpeningsCons(events[..|events| - 1]);
      assert events[1..][..|events| - 2] == events[..|events| - 1][1..];
    }
  }

  // ---------- the SASB parser ----------

  /** What a line is to the parser of numbered clauses. */
  function SasbEvent(raw: string, r: SasbClauses.Reading): Event {
    var line := r.clean(raw);
    if line == "" || r.noise(line) then Skipped
    else
      match SasbClauses.MatchClause(line)
      case Some(c) => Opens(c.labelText, c.text)
      case None => Continues(line)
  }

  function SasbEvents(lines: seq<string>, r: SasbClauses.Reading): (events: seq<Event>)
    ensures |events| == |lines| && forall i :: 0 <= i < |lines| ==> events[i] == SasbEvent(lines[i], r)
  {
    seq(|lines|, i requires 0 <= i < |lines| => SasbEvent(lines[i], r))
  }

  lemma {:induction false} SasbTold(lines: seq<string>, r: SasbClauses.Reading)
    ensures var clauses, told := SasbClauses.Accumulate(lines, r).clauses, Told(SasbEvents(lines, r), r.norm);
            |clauses| == |told| &&
            forall i :: 0 <= i < |told| ==> clauses[i].labelText == told[i].tag && clauses[i].text == told[i].text
  {
    if lines != [] {
      var n := |lines| - 1;
      SasbTold(lines[..n], r);
      assert SasbEvents(lines, r)[..n] == SasbEvents(lines[..n], r);
    }
  }

  /** A numbered clause has the text of its own line and of the plain lines up to the next clause line. */
  lemma SasbTextInOrder(lines: seq<string>, r: SasbClauses.Reading, i: nat, j: nat)
    requires i < j <= |lines|
    requires var events := SasbEvents(lines, r);
             events[i].Opens? && NoneOpens(events, i + 1, j) && (j < |lines| ==> events[j].Opens?)
    ensures var events, clauses := SasbEvents(lines, r), SasbClauses.Accumulate(lines, r).clauses;
            var n := Openings(events[..i]);
            && n < |clauses| && clauses[n].labelText == events[i].tag
            && clauses[n].text == TextWith(events[i].text, events[i + 1..j], r.norm)
  {
    SasbTold(lines, r);
    ToldInOrder(SasbEvents(lines, r), i, j, r.norm);
  }

  /** The preface is made of the plain lines before the first clause. */
  lemma {:induction false} SasbPreface(lines: seq<string>, r: SasbClauses.Reading)
    ensures SasbClauses.Accumulate(lines, r).preface == Lead(SasbEvents(lines, r))
  {
    if lines != [] {
      var n := |lines| - 1;
      SasbPreface(lines[..n], r);
      SasbTold(lines[..n], r);
      ToldLength(SasbEvents(lines[..n], r), r.norm);
      LeadSnoc(SasbEvents(lines[..n], r), SasbEvent(lines[n], r));
      assert SasbEvents(lines, r) == SasbEvents(lines[..n], r) + [SasbEvent(lines[n], r)];
    }
  }

  // ---------- the GRI parser ----------

  /** What a line is to the parser of lettered clauses, given whether one has been opened before. */
  function GriEvent(raw: string, open: bool, r: GriClauses.Reading): Event {
    var line := r.clean(raw);
    if line == "" || r.noise(line) then Skipped
    else
      var letter, roman := GriClauses.LetterClause(line), GriClauses.RomanClause(line);
      if open && roman.Some? then Opens(roman.value.tag, roman.value.text)
      else if letter.Some? then Opens(letter.value.tag, letter.value.text)
      else Continues(line)
  }

  function GriEvents(lines: seq<string>, r: GriClauses.Reading): (events: seq<Event>)
    ensures |events| == |lines|
  {
    if lines == [] then []
    else
      var before := GriEvents(lines[..|lines| - 1], r);
      before + [GriEvent(Last(lines), Openings(before) > 0, r)]
  }

  /** Labels and texts of a forest in preorder. */
  function Preorder(tops: seq<GriClauses.Tree>): seq<Said> {
    if tops == [] then []
    else [Said(tops[0].tag, tops[0].text)] + Preorder(tops[0].children) + Preorder(tops[1..])
  }

  lemma {:induction false} PreorderSnoc(a: seq<GriClauses.Tree>, t: GriClauses.Tree)
    ensures Preorder(a + [t]) == Preorder(a) + ([Said(t.tag, t.text)] + Preorder(t.children))
  {
    if a != [] {
      PreorderSnoc(a[1..], t);
      assert (a + [t])[1..] == a[1..] + [t];
    } else {
      assert (a + [t])[1..] == [];
    }
  }

  lemma PreorderOnLast(tops: seq<GriClauses.Tree>, t: GriClauses.Tree)
    requires tops != []
    ensures Preorder(tops) ==
            Preorder(tops[..|tops| - 1]) + ([Said(Last(tops).tag, Last(tops).text)] + Preorder(Last(tops).children))
    ensures Preorder(GriClauses.OnLast(tops, t)) ==
            Preorder(tops[..|tops| - 1]) + ([Said(t.tag, t.text)] + Preorder(t.children))
  {
    PreorderSnoc(tops[..|tops| - 1], Last(tops));
    PreorderSnoc(tops[..|tops| - 1], t);
    SplitLast(tops);
    SplitLast(GriClauses.OnLast(tops, t));
  }

  lemma ChildTold(t: GriClauses.Tree, m: GriClauses.Match, r: GriClauses.Reading)
    ensures Preorder(GriClauses.WithChild(t, m, r).children) == Preorder(t.children) + [Said(m.tag, r.norm(m.text))]
  {
    var child := Last(GriClauses.WithChild(t, m, r).children);
    PreorderSnoc(t.children, child);
    assert Preorder(child.children) == [];
  }

  lemma ContinuedTold(t: GriClauses.Tree, line: string, r: GriClauses.Reading)
    requires GriClauses.TwoLevels(t)
    ensures var told, after := [Said(t.tag, t.text)] + Preorder(t.children), GriClauses.Continued(t, line, r);
            [Said(after.tag, after.text)] + Preorder(after.children) == Extended(told, line, r.norm)
  {
    if t.children != [] {
      var last := Last(t.children);
      assert last.children == [];
      PreorderOnLast(t.children, Last(GriClauses.Continued(t, line, r).children));
    }
  }

  lemma ExtendedTail(a: seq<Said>, b: seq<Said>, line: string, norm: string -> string)
    requires b != []
    ensures Extended(a + b, line, norm) == a + Extended(b, line, norm)
  {
  }

  lemma {:induction false} GriTold(lines: seq<string>, raw: string, r: GriClauses.Reading)
    ensures Preorder(GriClauses.Accumulate(lines, raw, r).tops) == Told(GriEvents(lines, r), r.norm)
  {
    if lines != [] {
      var front := lines[..|lines| - 1];
      var p, events := GriClauses.Accumulate(front, raw, r), GriEvents(front, r);
      GriTold(front, raw, r);
      ToldLength(events, r.norm);
      GriClauses.NeverThreeLevels(front, raw, r);
      assert GriEvents(lines, r)[..|front|] == events;
      assert p.tops != [] <==> Openings(events) > 0;
      OneMoreTold(p, r.clean(Last(lines)), raw, r);
    }
  }

  /** One clean line that is no noise. */
  lemma OneMoreTold(p: GriClauses.Parsed, line: string, raw: string, r: GriClauses.Reading)
    requires forall t :: t in p.tops ==> GriClauses.TwoLevels(t)
    ensures Preorder(GriClauses.AddCleanLine(p, line, raw, r).tops) ==
            match GriClauses.KindOf(line, p.tops != [])
            case Roman(m) => Preorder(p.tops) + [Said(m.tag, r.norm(m.text))]
            case Letter(m) => Preorder(p.tops) + [Said(m.tag, r.norm(m.text))]
            case Plain => if p.tops == [] then [] else Extended(Preorder(p.tops), line, r.norm)
  {
    match GriClauses.KindOf(line, p.tops != [])
    case Roman(m) =>
      ChildTold(Last(p.tops), m, r);
      PreorderOnLast(p.tops, GriClauses.WithChild(Last(p.tops), m, r));
    case Letter(m) =>
      PreorderSnoc(p.tops, GriClauses.Node(m.tag, raw + "-" + m.tag, r.norm(m.text), []));
    case Plain =>
      if p.tops != [] {
        PlainTold(p.tops, line, r);
      }
  }

  lemma PlainTold(tops: seq<GriClauses.Tree>, line: string, r: GriClauses.Reading)
    requires tops != [] && GriClauses.TwoLevels(Last(tops))
    ensures Preorder(tops) != []
    ensures Preorder(GriClauses.OnLast(tops, GriClauses.Continued(Last(tops), line, r))) ==
            Extended(Preorder(tops), line, r.norm)
  {
    var t := Last(tops);
    ContinuedTold(t, line, r);
    PreorderOnLast(tops, GriClauses.Continued(t, line, r));
    ExtendedTail(Preorder(tops[..|tops| - 1]), [Said(t.tag, t.text)] + Preorder(t.children), line, r.norm);
  }

  /** In preorder, a clause at either level has the text of its line and of the plain lines up to the next clause. */
  lemma GriTextInOrder(lines: seq<string>, raw: string, r: GriClauses.Reading, i: nat, j: nat)
    requires i < j <= |lines|
    requires var events := GriEvents(lines, r);
             events[i].Opens? && NoneOpens(events, i + 1, j) && (j < |lines| ==> events[j].Opens?)
    ensures var events, said := GriEvents(lines, r), Preorder(GriClauses.Accumulate(lines, raw, r).tops);
            var n := Openings(events[..i]);
            n < |said| && said[n] == Said(events[i].tag, TextWith(events[i].text, events[i + 1..j], r.norm))
  {
    GriTold(lines, raw, r);
    ToldInOrder(GriEvents(lines, r), i, j, r.norm);
  }

  lemma {:induction false} GriPreface(lines: seq<string>, raw: string, r: GriClauses.Reading)
    ensures GriClauses.Accumulate(lines, raw, r).preface == Lead(GriEvents(lines, r))
  {
    if lines != [] {
      var front := lines[..|lines| - 1];
      var events := GriEvents(front, r);
      GriPreface(front, raw, r);
      GriTold(front, raw, r);
      ToldLength(events, r.norm);
      LeadSnoc(events, GriEvent(Last(lines), Openings(events) > 0, r));
      assert GriClauses.Accumulate(front, raw, r).tops != [] <==> Openings(events) > 0;
    }
  }
}
