/**
 Writing GRI clauses out as one "label. text" line each and parsing them again. A lettered clause
 "i.", "v." or "x." below another is taken for a Roman numeral, so the round trip holds just when there is none.
 */
module GriRendering {
  import opened Prelude
  import opened LineText
  import opened GriClauses

  function LineOf(t: Tree): string {
    t.tag + ". " + t.text
  }

  function LinesOf(trees: seq<Tree>): seq<string> {
    if trees == [] then [] else LinesOf(trees[..|trees| - 1]) + [LineOf(Last(trees))]
  }

  function Render(tops: seq<Tree>): seq<string> {
    if tops == [] then [] else Render(tops[..|tops| - 1]) + ([LineOf(Last(tops))] + LinesOf(Last(tops).children))
  }

  /** The clause's line reads as itself. */
  ghost predicate Legible(t: Tree, r: Reading) {
    && t.text != "" && t.text[0] != ' ' && r.norm(t.text) == t.text
    && r.clean(LineOf(t)) == LineOf(t) && !r.noise(LineOf(t))
  }

  ghost predicate LegibleTop(t: Tree, raw: string, r: Reading) {
    && |t.tag| == 1 && IsLetter(t.tag[0]) && t.code == raw + "-" + t.tag && Legible(t, r)
    && LegibleKids(t.children, t.code, r)
  }

  ghost predicate LegibleChild(t: Tree, parentCode: string, r: Reading) {
    t.tag in ROMANS && t.code == parentCode + "-" + t.tag && t.children == [] && Legible(t, r)
  }

  ghost predicate LegibleKids(kids: seq<Tree>, code: string, r: Reading) {
    forall i :: 0 <= i < |kids| ==> LegibleChild(kids[i], code, r)
  }

  ghost predicate LegibleTops(tops: seq<Tree>, raw: string, r: Reading) {
    forall i :: 0 <= i < |tops| ==> LegibleTop(tops[i], raw, r)
  }

  // ---------- single lines ----------

  lemma {:induction false} FirstFieldOf(tag: string, rest: string)
    requires forall i :: 0 <= i < |tag| ==> tag[i] != '.'
    ensures FirstField(tag + ("." + rest)) == tag
  {
    var line := tag + ("." + rest);
    if tag != "" {
      FirstFieldOf(tag[1..], rest);
      assert line[1..] == tag[1..] + ("." + rest);
    }
  }

  lemma LineParts(t: Tree, r: Reading)
    requires Legible(t, r) && forall i :: 0 <= i < |t.tag| ==> t.tag[i] != '.'
    ensures LabelledText(LineOf(t), t.tag) == Some(t.text)
    ensures FirstField(LineOf(t)) == t.tag
    ensures LineOf(t) != ""
  {
    var line := LineOf(t);
    assert line == t.tag + ("." + (" " + t.text));
    FirstFieldOf(t.tag, " " + t.text);
    assert line[|t.tag| + 1..] == " " + t.text;
    OneSpace(t.text);
  }

  /** A child's line below an open clause becomes that child. */
  lemma ChildLine(p: Parsed, t: Tree, raw: string, r: Reading)
    requires t.tag in ROMANS && Legible(t, r) && p.tops != []
    ensures AddLine(p, raw, LineOf(t), r) ==
            p.(tops := OnLast(p.tops, WithChild(Last(p.tops), Match(t.tag, t.text), r)))
  {
    LineParts(t, r);
  }

  /** A lettered line opens a clause, unless it can be read as Roman below an open one. */
  lemma TopLine(p: Parsed, t: Tree, raw: string, r: Reading)
    requires LegibleTop(t, raw, r)
    ensures AddLine(p, raw, LineOf(t), r) ==
            if p.tops != [] && t.tag in ROMANS
            then p.(tops := OnLast(p.tops, WithChild(Last(p.tops), Match(t.tag, t.text), r)))
            else p.(tops := p.tops + [Node(t.tag, t.code, t.text, [])])
  {
    LineParts(t, r);
    assert [LineOf(t)[0]] == t.tag;
  }

  // ---------- runs of lines ----------

  lemma LinesSplit(lines: seq<string>, kids: seq<Tree>)
    requires kids != []
    ensures lines + LinesOf(kids) == (lines + LinesOf(kids[..|kids| - 1])) + [LineOf(Last(kids))]
  {
  }

  lemma ChildStep(lines: seq<string>, kids: seq<Tree>, kid: Tree, front: seq<Tree>, top: Tree, raw: string, r: Reading)
    requires Accumulate(lines, raw, r) == Parsed([], front + [top.(children := kids)])
    requires LegibleChild(kid, top.code, r)
    ensures Accumulate(lines + [LineOf(kid)], raw, r) == Parsed([], front + [top.(children := kids + [kid])])
  {
    ChildLine(Accumulate(lines, raw, r), kid, raw, r);
  }

  /** The children's lines, read below the open clause `top`, give its children back. */
  lemma {:induction false} ChildLines(lines: seq<string>, kids: seq<Tree>, front: seq<Tree>, top: Tree, raw: string,
                                      r: Reading)
    requires Accumulate(lines, raw, r) == Parsed([], front + [top.(children := [])])
    requires LegibleKids(kids, top.code, r)
    ensures Accumulate(lines + LinesOf(kids), raw, r) == Parsed([], front + [top.(children := kids)])
  {
    if kids == [] {
      assert lines + LinesOf(kids) == lines;
    } else {
      var n := |kids| - 1;
      ChildLines(lines, kids[..n], front, top, raw, r);
      LinesSplit(lines, kids);
      ChildStep(lines + LinesOf(kids[..n]), kids[..n], kids[n], front, top, raw, r);
      SplitLast(kids);
    }
  }

  lemma ChildKeepsCount(lines: seq<string>, kid: Tree, raw: string, r: Reading)
    requires Accumulate(lines, raw, r).tops != [] && kid.tag in ROMANS && Legible(kid, r)
    ensures |Accumulate(lines + [LineOf(kid)], raw, r).tops| == |Accumulate(lines, raw, r).tops|
  {
    ChildLine(Accumulate(lines, raw, r), kid, raw, r);
  }

  /** Children's lines never open a lettered clause. */
  lemma {:induction false} ChildLinesKeepCount(lines: seq<string>, kids: seq<Tree>, code: string, raw: string,
                                               r: Reading)
    requires Accumulate(lines, raw, r).tops != [] && LegibleKids(kids, code, r)
    ensures |Accumulate(lines + LinesOf(kids), raw, r).tops| == |Accumulate(lines, raw, r).tops|
  {
    if kids == [] {
      assert lines + LinesOf(kids) == lines;
    } else {
      var n := |kids| - 1;
      ChildLinesKeepCount(lines, kids[..n], code, raw, r);
      LinesSplit(lines, kids);
      ChildKeepsCount(lines + LinesOf(kids[..n]), kids[n], raw, r);
    }
  }

  /** The lettered clauses that stay lettered: the first, and those that are no Roman numeral. */
  function StayLettered(tops: seq<Tree>): (n: nat)
    ensures n <= |tops| && (tops != [] ==> n > 0)
    ensures n == |tops| <==> forall i :: 0 < i < |tops| ==> tops[i].tag !in ROMANS
  {
    if tops == [] then 0
    else
      var n := |tops| - 1;
      StayLettered(tops[..n]) + if n > 0 && tops[n].tag in ROMANS then 0 else 1
  }

  lemma RenderSplit(tops: seq<Tree>)
    requires tops != []
    ensures Render(tops) == (Render(tops[..|tops| - 1]) + [LineOf(Last(tops))]) + LinesOf(Last(tops).children)
  {
  }

  lemma {:induction false} CountTops(tops: seq<Tree>, raw: string, r: Reading)
    requires LegibleTops(tops, raw, r)
    ensures |Accumulate(Render(tops), raw, r).tops| == StayLettered(tops)
  {
    if tops != [] {
      var n := |tops| - 1;
      CountTops(tops[..n], raw, r);
      RenderSplit(tops);
      var lines := Render(tops[..n]);
      TopLine(Accumulate(lines, raw, r), tops[n], raw, r);
      ChildLinesKeepCount(lines + [LineOf(tops[n])], tops[n].children, tops[n].code, raw, r);
    }
  }

  lemma TopStep(lines: seq<string>, front: seq<Tree>, t: Tree, raw: string, r: Reading)
    requires Accumulate(lines, raw, r) == Parsed([], front) && LegibleTop(t, raw, r)
    requires front == [] || t.tag !in ROMANS
    ensures Accumulate(lines + [LineOf(t)], raw, r) == Parsed([], front + [t.(children := [])])
  {
    TopLine(Accumulate(lines, raw, r), t, raw, r);
  }

  lemma {:induction false} ReadsBack(tops: seq<Tree>, raw: string, r: Reading)
    requires LegibleTops(tops, raw, r) && forall i :: 0 < i < |tops| ==> tops[i].tag !in ROMANS
    ensures Accumulate(Render(tops), raw, r) == Parsed([], tops)
  {
    if tops != [] {
      var n := |tops| - 1;
      ReadsBack(tops[..n], raw, r);
      RenderSplit(tops);
      TopStep(Render(tops[..n]), tops[..n], tops[n], raw, r);
      ChildLines(Render(tops[..n]) + [LineOf(tops[n])], tops[n].children, tops[..n], tops[n], raw, r);
      SplitLast(tops);
    }
  }

  /** Clauses written out and parsed again come back unchanged exactly when no later letter can be read as Roman. */
  lemma RenderRoundTripIff(tops: seq<Tree>, raw: string, r: Reading)
    requires LegibleTops(tops, raw, r)
    ensures Accumulate(Render(tops), raw, r) == Parsed([], tops) <==>
            forall i :: 0 < i < |tops| ==> tops[i].tag !in ROMANS
  {
    CountTops(tops, raw, r);
    if forall i :: 0 < i < |tops| ==> tops[i].tag !in ROMANS {
      ReadsBack(tops, raw, r);
    }
  }

  const AS_IT_STANDS := Reading(line => line, _ => false, text => text, c => c == ' ')

  /** Two lettered clauses "a." and "i.": the second comes back as a child of the first. */
  lemma RomanLetterLost(raw: string)
    ensures var tops := [Node("a", raw + "-a", "Emissions", []), Node("i", raw + "-i", "Gases", [])];
            LegibleTops(tops, raw, AS_IT_STANDS) && Accumulate(Render(tops), raw, AS_IT_STANDS) != Parsed([], tops)
  {
    var tops := [Node("a", raw + "-a", "Emissions", []), Node("i", raw + "-i", "Gases", [])];
    assert tops[1].tag == ROMANS[0];
    RenderRoundTripIff(tops, raw, AS_IT_STANDS);
  }
}
