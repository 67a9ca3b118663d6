/**
 Rendering forests of SASB clauses: as one "label text" line per node, which the parser reads back,
 and as the indented list of the markdown output, which determines the forest.
 */
module SasbRendering {
  import opened Prelude
  import opened ClauseForest
  import opened LineText
  import opened SasbClauses

  // ---------- what a parse keeps of its input ----------

  /** The labels of the clause lines, in input order. */
  function ClauseLabels(lines: seq<string>, r: Reading): seq<string> {
    if lines == [] then []
    else
      var line := r.clean(lines[|lines| - 1]);
      ClauseLabels(lines[..|lines| - 1], r) +
      if line == "" || r.noise(line) || MatchClause(line).None? then [] else [MatchClause(line).value.labelText]
  }

  /** Preorder of the parsed forest goes through the labels in input order, none lost and none moved. */
  lemma {:induction false} LabelsInOrder(lines: seq<string>, r: Reading)
    ensures var cs := Accumulate(lines, r).clauses;
            && |Flatten(ForestOf(cs), 1)| == |ClauseLabels(lines, r)|
            && forall i :: 0 <= i < |ClauseLabels(lines, r)| ==>
                 && Flatten(ForestOf(cs), 1)[i].clause.labelText == ClauseLabels(lines, r)[i]
                 && 1 <= Flatten(ForestOf(cs), 1)[i].depth <= ClauseDepth(ClauseLabels(lines, r)[i])
  {
    var cs := Accumulate(lines, r).clauses;
    LabelsAccumulate(lines, r);
    ForestIsFaithful(cs, ForestOf(cs));
    TreeDepthsLegal(cs);
  }

  lemma {:induction false} LabelsAccumulate(lines: seq<string>, r: Reading)
    ensures |Accumulate(lines, r).clauses| == |ClauseLabels(lines, r)|
    ensures forall i :: 0 <= i < |ClauseLabels(lines, r)| ==>
              Accumulate(lines, r).clauses[i].labelText == ClauseLabels(lines, r)[i]
  {
    if lines != [] {
      LabelsAccumulate(lines[..|lines| - 1], r);
    }
  }

  /** Every node of the parsed forest stands at its label's depth just when no label skips a level. */
  lemma DepthsMatchLabelsIff(lines: seq<string>, r: Reading)
    ensures var cs := Accumulate(lines, r).clauses;
            DepthConsistent(ForestOf(cs)) <==> SkipsNoLevel(cs)
  {
    var cs := Accumulate(lines, r).clauses;
    ForestIsFaithful(cs, ForestOf(cs));
    AsLabelledIff(cs);
    var entries := Listing(cs, TreeDepths(cs));
    assert entries == Flatten(ForestOf(cs), 1);
    if DepthConsistent(ForestOf(cs)) {
      forall i | 0 <= i < |cs| ensures TreeDepths(cs)[i] == ClauseDepth(cs[i].labelText) {
        assert entries[i].depth == ClauseDepth(entries[i].clause.labelText);
      }
    }
  }

  // ---------- one line per node ----------

  function LineOf(c: Clause): string {
    c.labelText + " " + c.text
  }

  function Render(forest: seq<Tree>): seq<string> {
    if forest == [] then []
    else
      var t := forest[0];
      [LineOf(Clause(t.labelText, t.text))] + Render(t.children) + Render(forest[1..])
  }

  function ClausesOf(entries: seq<Entry>): (cs: seq<Clause>)
    ensures |cs| == |entries|
  {
    seq(|entries|, i requires 0 <= i < |entries| => entries[i].clause)
  }

  lemma {:induction false} RenderIsFlatten(forest: seq<Tree>, depth: nat)
    ensures |Render(forest)| == |Flatten(forest, depth)|
    ensures forall i :: 0 <= i < |Render(forest)| ==> Render(forest)[i] == LineOf(Flatten(forest, depth)[i].clause)
  {
    if forest != [] {
      RenderIsFlatten(forest[0].children, depth + 1);
      RenderIsFlatten(forest[1..], depth);
    }
  }

  /** Every node stands as deep as its label says. */
  ghost predicate DepthConsistent(forest: seq<Tree>) {
    forall e :: e in Flatten(forest, 1) ==> e.depth == ClauseDepth(e.clause.labelText)
  }

  /** The node's line reads as itself: a label, a trimmed and normalised text, not taken for page noise. */
  ghost predicate Legible(c: Clause, r: Reading) {
    && IsLabel(c.labelText) && c.text != "" && c.text[0] != ' ' && r.norm(c.text) == c.text
    && r.clean(LineOf(c)) == LineOf(c) && !r.noise(LineOf(c))
  }

  lemma {:induction false} ReadsBack(cs: seq<Clause>, lines: seq<string>, r: Reading)
    requires |lines| == |cs|
    requires forall i :: 0 <= i < |cs| ==> Legible(cs[i], r) && lines[i] == LineOf(cs[i])
    ensures Accumulate(lines, r) == Parsed([], cs)
  {
    if lines != [] {
      var n := |cs| - 1;
      ReadsBack(cs[..n], lines[..n], r);
      ClauseLineMatches(cs[n].labelText, cs[n].text);
      assert LineOf(cs[n]) != "";
      assert cs == cs[..n] + [cs[n]];
    }
  }

  /** In a preorder listing the depth grows one at a time. */
  lemma {:induction false} FlattenSteps(forest: seq<Tree>, depth: nat)
    ensures forall i :: 0 < i < |Flatten(forest, depth)| ==>
              Flatten(forest, depth)[i].depth <= Flatten(forest, depth)[i - 1].depth + 1
  {
    if forest != [] {
      FlattenSteps(forest[0].children, depth + 1);
      FlattenSteps(forest[1..], depth);
      FlattenDeep(forest[0].children, depth + 1);
      FlattenDeep(forest[1..], depth);
      FlattenCons(forest, depth);
    }
  }

  /** Every node stands where its line, read in its turn, would put it. */
  ghost predicate AsReadIn(forest: seq<Tree>) {
    var entries := Flatten(forest, 1);
    forall i :: 0 <= i < |entries| ==> entries[i].depth == TreeDepths(ClausesOf(entries))[i]
  }

  /** A legible forest, rendered as one line per node and parsed again, comes
   * back unchanged exactly if its depths are tree depths. */
  lemma RenderRoundTripIff(forest: seq<Tree>, r: Reading)
    requires forall e :: e in Flatten(forest, 1) ==> Legible(e.clause, r)
    ensures Accumulate(Render(forest), r).preface == []
    ensures ForestOf(Accumulate(Render(forest), r).clauses) == forest <==> AsReadIn(forest)
  {
    var entries := Flatten(forest, 1);
    var cs := ClausesOf(entries);
    RenderIsFlatten(forest, 1);
    forall i | 0 <= i < |cs| ensures Legible(cs[i], r) && Render(forest)[i] == LineOf(cs[i]) {
      assert entries[i] in entries;
    }
    ReadsBack(cs, Render(forest), r);
    ForestIsFaithful(cs, forest);
    var listing := Listing(cs, TreeDepths(cs));
    if AsReadIn(forest) {
      forall i | 0 <= i < |cs| ensures entries[i] == listing[i] {
      }
      assert entries == listing;
    }
    if entries == listing {
      forall i | 0 <= i < |cs| ensures entries[i].depth == TreeDepths(cs)[i] {
        assert listing[i] == Entry(cs[i], TreeDepths(cs)[i]);
      }
    }
  }

  /** Whatever was parsed comes back, whether or not its labels skip levels. */
  lemma ParsedComesBack(cs: seq<Clause>, r: Reading)
    requires forall i :: 0 <= i < |cs| ==> Legible(cs[i], r)
    ensures ForestOf(Accumulate(Render(ForestOf(cs)), r).clauses) == ForestOf(cs)
  {
    var listing := Listing(cs, TreeDepths(cs));
    ForestIsFaithful(cs, ForestOf(cs));
    assert ClausesOf(listing) == cs;
    RenderRoundTripIff(ForestOf(cs), r);
  }

  /** So does every forest whose nodes stand as deep as their labels say. */
  lemma RenderRoundTrip(forest: seq<Tree>, r: Reading)
    requires DepthConsistent(forest)
    requires forall e :: e in Flatten(forest, 1) ==> Legible(e.clause, r)
    ensures ForestOf(Accumulate(Render(forest), r).clauses) == forest
  {
    var entries := Flatten(forest, 1);
    NoLevelSkipped(forest);
    AsLabelledIff(ClausesOf(entries));
    forall i | 0 <= i < |entries| ensures entries[i].depth == TreeDepths(ClausesOf(entries))[i] {
      assert entries[i] in entries;
    }
    RenderRoundTripIff(forest, r);
  }

  lemma NoLevelSkipped(forest: seq<Tree>)
    requires DepthConsistent(forest)
    ensures SkipsNoLevel(ClausesOf(Flatten(forest, 1)))
  {
    var entries := Flatten(forest, 1);
    FlattenSteps(forest, 1);
    FlattenDeep(forest, 1);
    forall i | 0 <= i < |entries| ensures entries[i].depth == ClauseDepth(entries[i].clause.labelText) {
      assert entries[i] in entries;
    }
  }

  // ---------- the markdown list ----------

  function Indent(n: nat): (s: string)
    ensures |s| == 2 * n && forall i :: 0 <= i < |s| ==> s[i] == ' '
  {
    if n == 0 then "" else "  " + Indent(n - 1)
  }

  function MarkdownLine(e: Entry): string {
    Indent(e.depth) + "- " + LineOf(e.clause)
  }

  /** The recursive writer of the list: the preorder listing, each line indented by its depth. */
  method ClausesToMarkdown(clauses: seq<Tree>, indent: nat) returns (lines: seq<string>)
    ensures |lines| == |Flatten(clauses, indent)|
    ensures forall i :: 0 <= i < |lines| ==> lines[i] == MarkdownLine(Flatten(clauses, indent)[i])
    decreases clauses
  {
    lines := [];
    var prefix := Indent(indent);
    assert clauses[..0] == [];
    for k := 0 to |clauses|
      invariant |lines| == |Flatten(clauses[..k], indent)|
      invariant forall i :: 0 <= i < |lines| ==> lines[i] == MarkdownLine(Flatten(clauses[..k], indent)[i])
    {
      var c := clauses[k];
      ghost var before := lines;
      lines := lines + [prefix + "- " + c.labelText + " " + c.text];
      var below := [];
      if c.children != [] {
        below := ClausesToMarkdown(c.children, indent + 1);
        lines := lines + below;
      }
      assert prefix + "- " + c.labelText + " " + c.text == MarkdownLine(Entry(Clause(c.labelText, c.text), indent));
      assert clauses[..k + 1] == clauses[..k] + [c];
      FlattenSnoc(clauses[..k], c, indent);
      assert lines == before + ([MarkdownLine(Entry(Clause(c.labelText, c.text), indent))] + below);
    }
    assert clauses[..|clauses|] == clauses;
  }

  lemma {:induction false} FlattenSnoc(f: seq<Tree>, t: Tree, depth: nat)
    ensures Flatten(f + [t], depth) ==
            Flatten(f, depth) + ([Entry(Clause(t.labelText, t.text), depth)] + Flatten(t.children, depth + 1))
  {
    if f != [] {
      FlattenSnoc(f[1..], t, depth);
      assert (f + [t])[1..] == f[1..] + [t];
    } else {
      assert (f + [t])[1..] == [];
    }
  }

  lemma NotDeeper(m: nat, n: nat, a: string, b: string)
    requires Indent(m) + "- " + a == Indent(n) + "- " + b
    ensures m >= n
  {
    var s := Indent(m) + "- " + a;
    assert s[2 * m] == '-';
    assert forall i :: 0 <= i < 2 * n ==> s[i] == Indent(n)[i];
  }

  lemma IndentTells(m: nat, n: nat, a: string, b: string)
    requires Indent(m) + "- " + a == Indent(n) + "- " + b
    ensures m == n && a == b
  {
    NotDeeper(m, n, a, b);
    NotDeeper(n, m, b, a);
    assert a == (Indent(m) + "- " + a)[2 * m + 2..] && b == (Indent(n) + "- " + b)[2 * n + 2..];
  }

  lemma LineOfInjective(c: Clause, d: Clause)
    requires IsLabel(c.labelText) && IsLabel(d.labelText) && LineOf(c) == LineOf(d)
    ensures c == d
  {
    FirstSpaceAt(LineOf(c), |c.labelText|);
    FirstSpaceAt(LineOf(d), |d.labelText|);
    var n := |c.labelText|;
    assert LineOf(c)[..n] == c.labelText && LineOf(d)[..n] == d.labelText;
    assert LineOf(c)[n + 1..] == c.text && LineOf(d)[n + 1..] == d.text;
  }

  /** A line of the list gives away its depth, label and text. */
  lemma MarkdownLineInjective(d: Entry, e: Entry)
    requires IsLabel(d.clause.labelText) && IsLabel(e.clause.labelText) && MarkdownLine(d) == MarkdownLine(e)
    ensures d == e
  {
    IndentTells(d.depth, e.depth, LineOf(d.clause), LineOf(e.clause));
    LineOfInjective(d.clause, e.clause);
  }

  /** Two forests with the same list are the same forest. */
  lemma MarkdownDetermines(f: seq<Tree>, g: seq<Tree>, indent: nat)
    requires forall e :: e in Flatten(f, indent) || e in Flatten(g, indent) ==> IsLabel(e.clause.labelText)
    requires |Flatten(f, indent)| == |Flatten(g, indent)|
    requires forall i :: 0 <= i < |Flatten(f, indent)| ==>
               MarkdownLine(Flatten(f, indent)[i]) == MarkdownLine(Flatten(g, indent)[i])
    ensures f == g
  {
    var a, b := Flatten(f, indent), Flatten(g, indent);
    forall i | 0 <= i < |a| ensures a[i] == b[i] {
      assert a[i] in a && b[i] in b;
      MarkdownLineInjective(a[i], b[i]);
    }
    FlattenInjective(f, g, indent);
  }
}
