/**
 The parser of numbered SASB clauses: a stack of open clauses, nodes that are attached first and
 receive children and continuation text later. Cleaning of lines, the page-noise test and text
 normalisation are parameters; clause lines are recognised here.
 */
module SasbClauses {
  import opened Prelude
  import Decimal
  import opened ClauseForest
  import opened LineText

  // ---------- clause lines: digits separated by '.', then spaces, then text ----------

  function DotCount(s: string): nat {
    if s == "" then 0 else DotCount(s[1..]) + if s[0] == '.' then 1 else 0
  }

  function ClauseDepth(tag: string): nat {
    DotCount(tag) + 1
  }

  predicate IsLabel(s: string) {
    && s != ""
    && (forall i :: 0 <= i < |s| ==> Decimal.IsDigit(s[i]) || s[i] == '.')
    && Decimal.IsDigit(s[0]) && Decimal.IsDigit(s[|s| - 1])
    && (forall i :: 0 <= i < |s| - 1 ==> !(s[i] == '.' && s[i + 1] == '.'))
  }

  function MatchClause(line: string): Option<Clause> {
    var i := FirstSpace(line);
    match TextAfterSpaces(line[i..])
    case Some(text) => if IsLabel(line[..i]) then Some(Clause(line[..i], text)) else None
    case None => None
  }

  /** A label and a text with one space between them are recognised as what they are. */
  lemma ClauseLineMatches(tag: string, text: string)
    requires IsLabel(tag) && text != "" && text[0] != ' '
    ensures MatchClause(tag + " " + text) == Some(Clause(tag, text))
  {
    var line := tag + " " + text;
    FirstSpaceAt(line, |tag|);
    assert line[..|tag|] == tag && line[|tag|..] == " " + text;
    OneSpace(text);
  }

  /** A line opens a clause if and only if it is a label, at least one space and a text. */
  lemma ClauseLineIff(line: string, tag: string, text: string)
    ensures MatchClause(line) == Some(Clause(tag, text)) <==>
            IsLabel(tag) && Begins(text) && exists k: nat :: k > 0 && line == tag + (Spaces(k) + text)
  {
    if MatchClause(line) == Some(Clause(tag, text)) {
      TextAfterSpacesIff(line[FirstSpace(line)..], text);
      var k: nat :| k > 0 && line[FirstSpace(line)..] == Spaces(k) + text;
      assert line == tag + (Spaces(k) + text);
    }
    if k: nat :| IsLabel(tag) && Begins(text) && k > 0 && line == tag + (Spaces(k) + text) {
      assert line[|tag|] == ' ' && forall i :: 0 <= i < |tag| ==> line[i] == tag[i];
      FirstSpaceAt(line, |tag|);
      assert line[..|tag|] == tag && line[|tag|..] == Spaces(k) + text;
      TextAfterSpacesIff(line[|tag|..], text);
    }
  }

  lemma {:induction false} DotsAdd(a: string, b: string)
    ensures DotCount(a + b) == DotCount(a) + DotCount(b)
  {
    if a == "" {
      assert a + b == b;
    } else {
      assert (a + b)[1..] == a[1..] + b;
      DotsAdd(a[1..], b);
    }
  }

  lemma {:induction false} NoDots(s: string)
    requires '.' !in s
    ensures DotCount(s) == 0
  {
    if s != "" {
      NoDots(s[1..]);
    }
  }

  /** A label of one part is at the top; labels joined by a dot lie as deep as both together. */
  lemma DepthsAdd(a: string, b: string)
    ensures '.' !in a ==> ClauseDepth(a) == 1
    ensures ClauseDepth(a + "." + b) == ClauseDepth(a) + ClauseDepth(b)
  {
    if '.' !in a {
      NoDots(a);
    }
    DotsAdd(a + ".", b);
    DotsAdd(a, ".");
    NoDots("");
    assert "."[1..] == "";
  }

  /** A label is a number, or a number, a dot and a label. */
  lemma LabelIff(s: string)
    ensures IsLabel(s) <==>
            exists k :: 0 < k <= |s| && Decimal.AllDigits(s[..k]) &&
                        (k == |s| || (s[k] == '.' && IsLabel(s[k + 1..])))
  {
    if IsLabel(s) {
      var k := Number(s);
      if k < |s| {
        RestIsLabel(s, k);
      }
    }
    if k :| 0 < k <= |s| && Decimal.AllDigits(s[..k]) && (k == |s| || (s[k] == '.' && IsLabel(s[k + 1..]))) {
      if k == |s| {
        NumberIsLabel(s);
      } else {
        PartsMakeLabel(s, s[..k], s[k + 1..]);
      }
    }
  }

  lemma RestIsLabel(s: string, k: nat)
    requires IsLabel(s) && 0 < k < |s| && s[k] == '.'
    ensures IsLabel(s[k + 1..])
  {
    var rest := s[k + 1..];
    assert forall i :: 0 <= i < |rest| ==> rest[i] == s[k + 1 + i];
    assert k < |s| - 1 && s[k + 1] != '.';
    assert rest[|rest| - 1] == s[|s| - 1];
  }

  lemma NumberIsLabel(s: string)
    requires s != "" && Decimal.AllDigits(s)
    ensures IsLabel(s)
  {
  }

  lemma PartsMakeLabel(s: string, number: string, rest: string)
    requires s == number + "." + rest && number != "" && Decimal.AllDigits(number) && IsLabel(rest)
    ensures IsLabel(s)
  {
    var k := |number|;
    assert s[0] == number[0] && s[|s| - 1] == rest[|rest| - 1];
    forall i | 0 <= i < |s| - 1 ensures !(s[i] == '.' && s[i + 1] == '.') {
      if i < k {
        assert s[i] == number[i];
      } else if i == k {
        assert s[i + 1] == rest[0];
      } else {
        assert s[i] == rest[i - k - 1] && s[i + 1] == rest[i - k];
      }
    }
    forall i | 0 <= i < |s| ensures Decimal.IsDigit(s[i]) || s[i] == '.' {
      if i < k {
        assert s[i] == number[i];
      } else if i > k {
        assert s[i] == rest[i - k - 1];
      }
    }
  }

  lemma {:induction false} Number(s: string) returns (k: nat)
    requires IsLabel(s)
    ensures 0 < k <= |s| && Decimal.AllDigits(s[..k]) && (k < |s| ==> s[k] == '.')
  {
    k := 1;
    while k < |s| && s[k] != '.'
      invariant 0 < k <= |s| && Decimal.AllDigits(s[..k])
    {
      k := k + 1;
    }
  }

  // ---------- what a sequence of lines says ----------

  datatype Reading = Reading(clean: string -> string, noise: string -> bool, norm: string -> string)

  datatype Parsed = Parsed(preface: seq<string>, clauses: seq<Clause>)

  /** One more line: noise is dropped, a clause line opens a clause, other text continues the last one opened. */
  function AddLine(p: Parsed, raw: string, r: Reading): Parsed {
    var line := r.clean(raw);
    if line == "" || r.noise(line) then p else AddCleanLine(p, line, MatchClause(line), r)
  }

  /** `found` is the clause that the line opens, if it opens one. */
  function AddCleanLine(p: Parsed, line: string, found: Option<Clause>, r: Reading): Parsed {
    match found
    case Some(c) => p.(clauses := p.clauses + [Clause(c.labelText, r.norm(c.text))])
    case None =>
      if p.clauses == [] then p.(preface := p.preface + [line])
      else
        var last := |p.clauses| - 1;
        p.(clauses := p.clauses[last := Clause(p.clauses[last].labelText, r.norm(p.clauses[last].text + " " + line))])
  }

  function Accumulate(lines: seq<string>, r: Reading): Parsed {
    if lines == [] then Parsed([], []) else AddLine(Accumulate(lines[..|lines| - 1], r), lines[|lines| - 1], r)
  }

  function Min(a: nat, b: nat): nat {
    if a < b then a else b
  }

  /** Where each clause lands: as deep as its label says, but at most one below the clause before it. */
  function TreeDepths(clauses: seq<Clause>): (td: seq<nat>)
    ensures |td| == |clauses|
  {
    if clauses == [] then []
    else
      var front := TreeDepths(clauses[..|clauses| - 1]);
      front + [NextDepth(front, clauses[|clauses| - 1])]
  }

  function NextDepth(before: seq<nat>, c: Clause): nat {
    Min(ClauseDepth(c.labelText), (if before == [] then 0 else before[|before| - 1]) + 1)
  }

  lemma {:induction false} TreeDepthsLegal(clauses: seq<Clause>)
    ensures LegalDepths(TreeDepths(clauses))
    ensures forall i :: 0 <= i < |clauses| ==> TreeDepths(clauses)[i] <= ClauseDepth(clauses[i].labelText)
  {
    if clauses != [] {
      var front := TreeDepths(clauses[..|clauses| - 1]);
      TreeDepthsLegal(clauses[..|clauses| - 1]);
      OneMoreLegal(front, NextDepth(front, clauses[|clauses| - 1]));
    }
  }

  /** No legal depths that respect the labels are deeper anywhere. */
  lemma {:induction false} DeepestLegal(clauses: seq<Clause>, depths: seq<nat>)
    requires |depths| == |clauses| && LegalDepths(depths)
    requires forall i :: 0 <= i < |clauses| ==> depths[i] <= ClauseDepth(clauses[i].labelText)
    ensures forall i :: 0 <= i < |clauses| ==> depths[i] <= TreeDepths(clauses)[i]
  {
    if clauses != [] {
      var n := |clauses| - 1;
      forall i | 0 < i < n ensures GrowsByOne(depths[..n], i) {
        assert GrowsByOne(depths, i);
      }
      DeepestLegal(clauses[..n], depths[..n]);
      assert n > 0 ==> GrowsByOne(depths, n) && depths[n - 1] <= TreeDepths(clauses[..n])[n - 1];
    }
  }

  lemma OneMoreLegal(td: seq<nat>, d: nat)
    requires LegalDepths(td) && 1 <= d <= (if td == [] then 0 else td[|td| - 1]) + 1
    ensures LegalDepths(td + [d])
  {
    forall i | 0 < i < |td + [d]| ensures GrowsByOne(td + [d], i) {
      assert i < |td| ==> GrowsByOne(td, i);
    }
  }

  /** The tree depths depend on the labels only. */
  lemma {:induction false} DepthsFromLabels(a: seq<Clause>, b: seq<Clause>)
    requires |a| == |b| && forall i :: 0 <= i < |a| ==> a[i].labelText == b[i].labelText
    ensures TreeDepths(a) == TreeDepths(b)
  {
    if a != [] {
      DepthsFromLabels(a[..|a| - 1], b[..|b| - 1]);
    }
  }

  /** No label goes more than one level below the label before it, and the first is at the top. */
  ghost predicate SkipsNoLevel(clauses: seq<Clause>) {
    && (clauses != [] ==> ClauseDepth(clauses[0].labelText) == 1)
    && forall i :: 0 < i < |clauses| ==> ClauseDepth(clauses[i].labelText) <= ClauseDepth(clauses[i - 1].labelText) + 1
  }

  ghost predicate DepthsAsLabelled(clauses: seq<Clause>) {
    AsLabelled(TreeDepths(clauses), clauses)
  }

  /** Every clause lands at its label's depth just when no label skips a level. */
  lemma {:induction false} AsLabelledIff(clauses: seq<Clause>)
    ensures DepthsAsLabelled(clauses) <==> SkipsNoLevel(clauses)
  {
    if clauses != [] {
      var n := |clauses| - 1;
      AsLabelledIff(clauses[..n]);
      LabelledPrefix(clauses);
      SkipsPrefix(clauses);
      if n > 0 && DepthsAsLabelled(clauses[..n]) {
        assert TreeDepths(clauses[..n])[n - 1] == ClauseDepth(clauses[..n][n - 1].labelText);
      }
    }
  }

  ghost predicate AsLabelled(td: seq<nat>, clauses: seq<Clause>) {
    |td| == |clauses| && forall i :: 0 <= i < |td| ==> td[i] == ClauseDepth(clauses[i].labelText)
  }

  lemma AsLabelledSnoc(td: seq<nat>, clauses: seq<Clause>, d: nat, c: Clause)
    requires |td| == |clauses|
    ensures AsLabelled(td + [d], clauses + [c]) <==> AsLabelled(td, clauses) && d == ClauseDepth(c.labelText)
  {
    if AsLabelled(td + [d], clauses + [c]) {
      forall i | 0 <= i < |td| ensures td[i] == ClauseDepth(clauses[i].labelText) {
        assert (td + [d])[i] == td[i] && (clauses + [c])[i] == clauses[i];
      }
      assert (td + [d])[|td|] == d && (clauses + [c])[|td|] == c;
    }
  }

  lemma LabelledPrefix(clauses: seq<Clause>)
    requires clauses != []
    ensures var n := |clauses| - 1;
            DepthsAsLabelled(clauses) <==>
                DepthsAsLabelled(clauses[..n]) && TreeDepths(clauses)[n] == ClauseDepth(clauses[n].labelText)
  {
    var n := |clauses| - 1;
    SplitLast(clauses);
    AsLabelledSnoc(TreeDepths(clauses[..n]), clauses[..n], NextDepth(TreeDepths(clauses[..n]), clauses[n]), clauses[n]);
  }

  lemma SkipsPrefix(clauses: seq<Clause>)
    requires clauses != []
    ensures var n := |clauses| - 1;
            SkipsNoLevel(clauses) <==>
            SkipsNoLevel(clauses[..n]) &&
            ClauseDepth(clauses[n].labelText) <= (if n == 0 then 0 else ClauseDepth(clauses[n - 1].labelText)) + 1
  {
    var n := |clauses| - 1;
    assert forall i :: 0 <= i < n ==> clauses[..n][i] == clauses[i];
  }

  // ---------- the open clauses ----------

  /** Positions of the open clauses, outermost first. */
  function Spine(td: seq<nat>): (stack: seq<nat>)
    ensures forall k :: 0 <= k < |stack| ==> stack[k] < |td|
  {
    if td == [] then []
    else
      var n := |td| - 1;
      var before := Spine(td[..n]);
      before[..Min(|before|, if td[n] == 0 then 0 else td[n] - 1)] + [n]
  }

  /** The stack is as high as the last depth, and its entry for a level is the last position at that level. */
  lemma {:induction false} SpineHolds(td: seq<nat>)
    requires LegalDepths(td)
    ensures |Spine(td)| == if td == [] then 0 else td[|td| - 1]
    ensures forall k :: 0 <= k < |Spine(td)| ==> LastAt(td, |td|, k + 1) == Some(Spine(td)[k])
  {
    if td != [] {
      var n := |td| - 1;
      var front := Front(td);
      FrontLegal(td);
      SpineHolds(front);
      forall k | 0 <= k < |Spine(td)| ensures LastAt(td, |td|, k + 1) == Some(Spine(td)[k]) {
        LastAtInPrefix(td, n, n, k + 1);
      }
    }
  }

  function Front(td: seq<nat>): seq<nat>
    requires td != []
  {
    td[..|td| - 1]
  }

  lemma FrontLegal(td: seq<nat>)
    requires LegalDepths(td) && td != []
    ensures LegalDepths(Front(td)) && 1 <= td[|td| - 1] <= (if |td| == 1 then 0 else td[|td| - 2]) + 1
  {
    forall i | 0 < i < |Front(td)| ensures GrowsByOne(Front(td), i) {
      assert GrowsByOne(td, i);
    }
    assert |td| > 1 ==> GrowsByOne(td, |td| - 1);
  }

  lemma ParentInFront(td: seq<nat>, i: nat)
    requires td != [] && i < |td| - 1
    ensures ParentAt(Front(td), i) == ParentAt(td, i)
  {
    if td[i] > 0 {
      LastAtInPrefix(td, |td| - 1, i, td[i] - 1);
    }
  }

  /** The parent of the last position is the open clause one level up. */
  lemma ParentOfLast(td: seq<nat>)
    requires LegalDepths(td) && td != []
    ensures 1 <= td[|td| - 1] <= |Spine(Front(td))| + 1
    ensures ParentAt(td, |td| - 1) == if td[|td| - 1] == 1 then None else Some(Spine(Front(td))[td[|td| - 1] - 2])
  {
    var n := |td| - 1;
    FrontLegal(td);
    SpineHolds(Front(td));
    LastAtInPrefix(td, n, n, td[n] - 1);
    if td[n] == 1 {
      NothingAtZero(Front(td), n);
    }
  }

  lemma {:induction false} NothingAtZero(td: seq<nat>, i: nat)
    requires LegalDepths(td) && i <= |td|
    ensures LastAt(td, i, 0) == None
  {
    if i > 0 {
      NothingAtZero(td, i - 1);
    }
  }

  function IfParent(td: seq<nat>, p: Option<nat>): seq<nat>
    requires td != []
  {
    if ParentAt(td, |td| - 1) == p then [|td| - 1] else []
  }

  lemma FrontStep(td: seq<nat>, p: Option<nat>, lo: nat)
    requires td != [] && lo < |td| - 1
    ensures ChildrenFrom(Front(td), p, lo) ==
            (if ParentAt(td, lo) == p then [lo] else []) + ChildrenFrom(Front(td), p, lo + 1)
  {
    ParentInFront(td, lo);
  }

  lemma WholeStep(td: seq<nat>, p: Option<nat>, lo: nat)
    requires lo < |td|
    ensures ChildrenFrom(td, p, lo) == (if ParentAt(td, lo) == p then [lo] else []) + ChildrenFrom(td, p, lo + 1)
  {
  }

  lemma LastStep(td: seq<nat>, p: Option<nat>)
    requires td != []
    ensures ChildrenFrom(td, p, |td| - 1) == IfParent(td, p)
    ensures ChildrenFrom(Front(td), p, |td| - 1) == []
  {
    assert ChildrenFrom(td, p, |td|) == [];
  }

  /** One more position is at most one more child. */
  lemma {:induction false} ChildrenGrow(td: seq<nat>, p: Option<nat>, lo: nat)
    requires td != [] && lo < |td|
    ensures ChildrenFrom(td, p, lo) == ChildrenFrom(Front(td), p, lo) + IfParent(td, p)
    decreases |td| - lo
  {
    if lo == |td| - 1 {
      LastStep(td, p);
    } else {
      ChildrenGrow(td, p, lo + 1);
      GrowStep(td, p, lo);
    }
  }

  lemma GrowStep(td: seq<nat>, p: Option<nat>, lo: nat)
    requires lo < |td| - 1
    requires ChildrenFrom(td, p, lo + 1) == ChildrenFrom(Front(td), p, lo + 1) + IfParent(td, p)
    ensures ChildrenFrom(td, p, lo) == ChildrenFrom(Front(td), p, lo) + IfParent(td, p)
  {
    WholeStep(td, p, lo);
    FrontStep(td, p, lo);
    Regroup(if ParentAt(td, lo) == p then [lo] else [], ChildrenFrom(Front(td), p, lo + 1), IfParent(td, p));
  }

  // ---------- the nodes ----------

  class NumberedClause {
    const labelText: string
    var text: string
    var children: seq<NumberedClause>

    constructor (tag: string, text: string)
      ensures labelText == tag && this.text == text && children == []
    {
      labelText, this.text, children := tag, text, [];
    }
  }

  ghost function Pick(nodes: seq<NumberedClause>, ks: seq<nat>): (picked: seq<NumberedClause>)
    requires forall i :: 0 <= i < |ks| ==> ks[i] < |nodes|
    ensures |picked| == |ks| && forall i :: 0 <= i < |ks| ==> picked[i] == nodes[ks[i]]
  {
    seq(|ks|, i requires 0 <= i < |ks| => nodes[ks[i]])
  }

  lemma PickFromLonger(nodes: seq<NumberedClause>, node: NumberedClause, ks: seq<nat>)
    requires forall i :: 0 <= i < |ks| ==> ks[i] < |nodes|
    ensures Pick(nodes + [node], ks) == Pick(nodes, ks)
    ensures Pick(nodes + [node], ks + [|nodes|]) == Pick(nodes, ks) + [node]
  {
  }

  /** The children of node `j`, as the depths give them. */
  ghost function KidsAt(nodes: seq<NumberedClause>, td: seq<nat>, j: nat): seq<NumberedClause>
    requires |nodes| == |td| && j < |td|
  {
    Pick(nodes, ChildrenOf(td, j))
  }

  /** The heap holds one node per clause, in order, each with its children. */
  ghost predicate Built(nodes: seq<NumberedClause>, cs: seq<Clause>, td: seq<nat>)
    reads nodes
  {
    && |nodes| == |cs| == |td|
    && forall j :: 0 <= j < |nodes| ==>
         nodes[j].labelText == cs[j].labelText && nodes[j].text == cs[j].text &&
         nodes[j].children == KidsAt(nodes, td, j)
  }

  /** How the last position changes the children of every node. */
  lemma KidsGrow(nodes: seq<NumberedClause>, node: NumberedClause, td: seq<nat>, j: nat)
    requires td != [] && |nodes| == |td| - 1 && j < |td|
    ensures KidsAt(nodes + [node], td, j) ==
            if j == |nodes| then []
            else if ParentAt(td, |nodes|) == Some(j) then KidsAt(nodes, Front(td), j) + [node]
            else KidsAt(nodes, Front(td), j)
  {
    if j < |nodes| {
      ChildrenGrow(td, Some(j), j + 1);
      PickFromLonger(nodes, node, ChildrenOf(Front(td), j));
      assert ChildrenOf(Front(td), j) + [] == ChildrenOf(Front(td), j);
    }
  }

  lemma RootsGrow(nodes: seq<NumberedClause>, node: NumberedClause, td: seq<nat>)
    requires td != [] && |nodes| == |td| - 1
    ensures Pick(nodes + [node], Roots(td)) ==
            if ParentAt(td, |nodes|) == None then Pick(nodes, Roots(Front(td))) + [node]
            else Pick(nodes, Roots(Front(td)))
  {
    ChildrenGrow(td, None, 0);
    PickFromLonger(nodes, node, Roots(Front(td)));
    assert Roots(Front(td)) + [] == Roots(Front(td));
  }

  // ---------- from nodes to trees ----------

  /** The node is the root of the tree. */
  ghost predicate Denotes(heap: set<NumberedClause>, node: NumberedClause, t: Tree)
    reads heap
    decreases t
  {
    && node in heap && node.labelText == t.labelText && node.text == t.text && |node.children| == |t.children|
    && forall i :: 0 <= i < |t.children| ==> Denotes(heap, node.children[i], t.children[i])
  }

  ghost predicate DenoteAll(heap: set<NumberedClause>, nodes: seq<NumberedClause>, trees: seq<Tree>)
    reads heap
  {
    |nodes| == |trees| && forall i :: 0 <= i < |trees| ==> Denotes(heap, nodes[i], trees[i])
  }

  function TreeAt(cs: seq<Clause>, td: seq<nat>, k: nat): Tree
    requires |cs| == |td| && k < |td|
  {
    Node(cs[k].labelText, cs[k].text, TreesAt(cs, td, ChildrenOf(td, k), k + 1))
  }

  lemma {:induction false} TreesAtIndex(cs: seq<Clause>, td: seq<nat>, ks: seq<nat>, bound: nat, i: nat)
    requires |cs| == |td| && i < |ks|
    requires forall j :: 0 <= j < |ks| ==> bound <= ks[j] < |td|
    ensures TreesAt(cs, td, ks, bound)[i] == TreeAt(cs, td, ks[i])
    decreases i
  {
    if i > 0 {
      TreesAtIndex(cs, td, ks[1..], bound, i - 1);
    }
  }

  lemma {:induction false} NodeDenotes(nodes: seq<NumberedClause>, cs: seq<Clause>, td: seq<nat>, k: nat)
    requires Built(nodes, cs, td) && k < |td|
    ensures Denotes(Elements(nodes), nodes[k], TreeAt(cs, td, k))
    decreases |td| - k
  {
    var kids, trees := ChildrenOf(td, k), TreeAt(cs, td, k).children;
    assert nodes[k].children == Pick(nodes, kids);
    forall i | 0 <= i < |trees| ensures Denotes(Elements(nodes), Pick(nodes, kids)[i], trees[i]) {
      TreesAtIndex(cs, td, kids, k + 1, i);
      NodeDenotes(nodes, cs, td, kids[i]);
    }
    FromChildren(Elements(nodes), nodes[k], TreeAt(cs, td, k));
  }

  lemma FromChildren(heap: set<NumberedClause>, node: NumberedClause, t: Tree)
    requires node in heap && node.labelText == t.labelText && node.text == t.text &&
             DenoteAll(heap, node.children, t.children)
    ensures Denotes(heap, node, t)
  {
  }

  lemma RootsDenote(nodes: seq<NumberedClause>, cs: seq<Clause>, td: seq<nat>)
    requires Built(nodes, cs, td)
    ensures DenoteAll(Elements(nodes), Pick(nodes, Roots(td)), TreesAt(cs, td, Roots(td), 0))
  {
    var trees := TreesAt(cs, td, Roots(td), 0);
    forall i | 0 <= i < |trees| ensures Denotes(Elements(nodes), Pick(nodes, Roots(td))[i], trees[i]) {
      TreesAtIndex(cs, td, Roots(td), 0, i);
      NodeDenotes(nodes, cs, td, Roots(td)[i]);
    }
  }

  // ---------- the parser ----------

  lemma DepthsOfOneMore(cs: seq<Clause>, c: Clause)
    ensures TreeDepths(cs + [c]) == TreeDepths(cs) + [NextDepth(TreeDepths(cs), c)]
  {
    var longer := cs + [c];
    assert longer[..|longer| - 1] == cs && longer[|longer| - 1] == c;
  }

  /** One more depth: at the level asked for, or just below what is open. */
  ghost predicate OneMore(td: seq<nat>, td': seq<nat>, level: nat) {
    td' != [] && LegalDepths(td') && Front(td') == td && td'[|td|] == Min(level, |Spine(td)| + 1)
  }

  lemma DepthsAreOneMore(cs: seq<Clause>, c: Clause)
    ensures OneMore(TreeDepths(cs), TreeDepths(cs + [c]), ClauseDepth(c.labelText))
  {
    DepthsOfOneMore(cs, c);
    TreeDepthsLegal(cs + [c]);
    TreeDepthsLegal(cs);
    SpineHolds(TreeDepths(cs));
  }

  lemma SpineOfOneMore(td: seq<nat>)
    requires LegalDepths(td) && td != []
    ensures |Spine(Front(td))| + 1 >= td[|td| - 1] >= 1
    ensures Spine(td) == Spine(Front(td))[..td[|td| - 1] - 1] + [|td| - 1]
  {
    ParentOfLast(td);
  }

  /** The innermost open clause is the parent; nothing is open if there is none. */
  ghost predicate EndsIn(above: seq<NumberedClause>, nodes: seq<NumberedClause>, parent: Option<nat>) {
    match parent
    case None => above == []
    case Some(p) => p < |nodes| && above != [] && above[|above| - 1] == nodes[p]
  }

  /** Attaches the node below the innermost open clause, or as a root. */
  method Attach(node: NumberedClause, roots: seq<NumberedClause>, above: seq<NumberedClause>,
                ghost nodes: seq<NumberedClause>, ghost parent: Option<nat>)
    returns (roots': seq<NumberedClause>)
    requires Distinct(nodes) && node !in nodes
    requires EndsIn(above, nodes, parent)
    modifies nodes
    ensures forall j :: 0 <= j < |nodes| ==>
              nodes[j].text == old(nodes[j].text) &&
              nodes[j].children == old(nodes[j].children) + if parent == Some(j) then [node] else []
    ensures roots' == roots + if parent == None then [node] else []
  {
    roots' := roots;
    if above != [] {
      var top := above[|above| - 1];
      top.children := top.children + [node];
    } else {
      roots' := roots + [node];
    }
  }

  /** A clause line: close clauses until there is room for its level, attach the node, leave it open. */
  method OpenClause(tag: string, text: string, roots: seq<NumberedClause>, stack: seq<NumberedClause>,
                    ghost nodes: seq<NumberedClause>, ghost cs: seq<Clause>, ghost td: seq<nat>, ghost td': seq<nat>)
    returns (node: NumberedClause, roots': seq<NumberedClause>, stack': seq<NumberedClause>)
    requires Distinct(nodes) && Built(nodes, cs, td) && OneMore(td, td', ClauseDepth(tag))
    requires roots == Pick(nodes, Roots(td)) && stack == Pick(nodes, Spine(td))
    modifies nodes
    ensures fresh(node)
    ensures Built(nodes + [node], cs + [Clause(tag, text)], td')
    ensures roots' == Pick(nodes + [node], Roots(td')) && stack' == Pick(nodes + [node], Spine(td'))
  {
    node := new NumberedClause(tag, text);
    NodeFits(nodes, node, td, td');
    var above := CloseDownTo(stack, ClauseDepth(tag));
    assert above == stack[..td'[|td|] - 1];
    roots' := Place(node, roots, above, nodes, cs, Clause(tag, text), td, td');
    stack' := above + [node];
  }

  /** Attaches a new node so that the heap holds one clause more. */
  method Place(node: NumberedClause, roots: seq<NumberedClause>, above: seq<NumberedClause>,
               ghost nodes: seq<NumberedClause>, ghost cs: seq<Clause>, ghost c: Clause, ghost td: seq<nat>,
               ghost td': seq<nat>)
    returns (roots': seq<NumberedClause>)
    requires Distinct(nodes) && node !in nodes && node.labelText == c.labelText && node.text == c.text &&
             node.children == []
    requires Built(nodes, cs, td) && td' != [] && Front(td') == td
    requires EndsIn(above, nodes, ParentAt(td', |td|))
    modifies nodes
    ensures Built(nodes + [node], cs + [c], td')
    ensures roots' == roots + if ParentAt(td', |td|) == None then [node] else []
  {
    AllKidsGrow(nodes, node, td');
    roots' := Attach(node, roots, above, nodes, ParentAt(td', |td|));
    BuiltGrows(nodes, node, cs, c, td');
  }

  /** What one more position means for the stack, the roots and everyone's children. */
  lemma NodeFits(nodes: seq<NumberedClause>, node: NumberedClause, td: seq<nat>, td': seq<nat>)
    requires td' != [] && LegalDepths(td') && Front(td') == td && |nodes| == |td|
    ensures 1 <= td'[|td|] <= |Spine(td)| + 1
    ensures Pick(nodes + [node], Spine(td')) == Pick(nodes, Spine(td))[..td'[|td|] - 1] + [node]
    ensures Pick(nodes + [node], Roots(td')) == Pick(nodes, Roots(td)) + if ParentAt(td', |td|) == None then [node]
            else []
    ensures EndsIn(Pick(nodes, Spine(td))[..td'[|td|] - 1], nodes, ParentAt(td', |td|))
  {
    SpineOfOneMore(td');
    ParentOfLast(td');
    RootsGrow(nodes, node, td');
    StackGrows(nodes, node, Spine(td), td'[|td|] - 1);
  }

  lemma AllKidsGrow(nodes: seq<NumberedClause>, node: NumberedClause, td: seq<nat>)
    requires td != [] && |nodes| == |td| - 1
    ensures forall j :: 0 <= j < |nodes| ==>
              KidsAt(nodes + [node], td, j) ==
              KidsAt(nodes, Front(td), j) + if ParentAt(td, |nodes|) == Some(j) then [node] else []
    ensures KidsAt(nodes + [node], td, |nodes|) == []
  {
    forall j | 0 <= j < |nodes|
      ensures KidsAt(nodes + [node], td, j) ==
              KidsAt(nodes, Front(td), j) + if ParentAt(td, |nodes|) == Some(j) then [node] else []
    {
      KidsGrow(nodes, node, td, j);
    }
    KidsGrow(nodes, node, td, |nodes|);
  }

  lemma StackGrows(nodes: seq<NumberedClause>, node: NumberedClause, ks: seq<nat>, n: nat)
    requires n <= |ks| && forall i :: 0 <= i < |ks| ==> ks[i] < |nodes|
    ensures Pick(nodes + [node], ks[..n] + [|nodes|]) == Pick(nodes, ks)[..n] + [node]
  {
    PickFromLonger(nodes, node, ks[..n]);
    assert Pick(nodes, ks[..n]) == Pick(nodes, ks)[..n];
  }

  lemma BuiltGrows(nodes: seq<NumberedClause>, node: NumberedClause, cs: seq<Clause>, c: Clause, td': seq<nat>)
    requires |nodes| == |cs| == |td'| - 1
    requires forall j :: 0 <= j < |nodes| ==>
               nodes[j].labelText == cs[j].labelText && nodes[j].text == cs[j].text &&
               nodes[j].children == KidsAt(nodes + [node], td', j)
    requires node.labelText == c.labelText && node.text == c.text &&
             node.children == KidsAt(nodes + [node], td', |nodes|)
    ensures Built(nodes + [node], cs + [c], td')
  {
  }

  method CloseDownTo(stack: seq<NumberedClause>, level: nat) returns (rest: seq<NumberedClause>)
    requires level >= 1
    ensures rest == stack[..Min(level - 1, |stack|)]
  {
    rest := stack;
    while |rest| >= level
      invariant rest <= stack && |rest| >= Min(level - 1, |stack|)
    {
      rest := rest[..|rest| - 1];
    }
  }

  /** A continuation line: the text of the last opened clause grows. */
  method ContinueClause(current: NumberedClause, text: string,
                        ghost nodes: seq<NumberedClause>, ghost cs: seq<Clause>, ghost td: seq<nat>)
    requires Distinct(nodes) && Built(nodes, cs, td) && nodes != [] && current == nodes[|nodes| - 1]
    modifies current
    ensures Built(nodes, cs[|nodes| - 1 := Clause(cs[|nodes| - 1].labelText, text)], td)
  {
    current.text := text;
  }

  /** The forest of a list of clauses. */
  function ForestOf(cs: seq<Clause>): seq<Tree> {
    TreesAt(cs, TreeDepths(cs), Roots(TreeDepths(cs)), 0)
  }

  /** In preorder the forest lists the clauses in order, each at its tree depth, and it is the only one that does. */
  lemma ForestIsFaithful(cs: seq<Clause>, forest: seq<Tree>)
    ensures forest == ForestOf(cs) <==> Flatten(forest, 1) == Listing(cs, TreeDepths(cs))
  {
    TreeDepthsLegal(cs);
    ForestOfListing(cs, TreeDepths(cs));
    if Flatten(forest, 1) == Listing(cs, TreeDepths(cs)) {
      FlattenInjective(forest, ForestOf(cs), 1);
    }
  }

  /** What the parser's variables hold after the lines that say `p`. */
  ghost predicate Parsing(p: Parsed, nodes: seq<NumberedClause>, preface: seq<string>, roots: seq<NumberedClause>,
                          stack: seq<NumberedClause>, current: NumberedClause?)
    reads nodes
  {
    var td := TreeDepths(p.clauses);
    && Distinct(nodes) && Built(nodes, p.clauses, td)
    && preface == p.preface
    && roots == Pick(nodes, Roots(td)) && stack == Pick(nodes, Spine(td))
    && current == if nodes == [] then null else nodes[|nodes| - 1]
  }

  /** A clause line read in the midst of parsing. */
  method OpenLine(c: Clause, roots: seq<NumberedClause>, stack: seq<NumberedClause>, ghost line: string,
                  ghost found: Clause, ghost r: Reading,
                  ghost preface: seq<string>, ghost current: NumberedClause?, ghost p: Parsed,
                  ghost nodes: seq<NumberedClause>)
    returns (node: NumberedClause, roots': seq<NumberedClause>, stack': seq<NumberedClause>)
    requires Parsing(p, nodes, preface, roots, stack, current)
    requires c == Clause(found.labelText, r.norm(found.text))
    modifies nodes
    ensures fresh(node)
    ensures Parsing(AddCleanLine(p, line, Some(found), r), nodes + [node], preface, roots', stack', node)
  {
    assert AddCleanLine(p, line, Some(found), r) == p.(clauses := p.clauses + [c]);
    DepthsAreOneMore(p.clauses, c);
    node, roots', stack' := OpenClause(c.labelText, c.text, roots, stack,
                                       nodes, p.clauses, TreeDepths(p.clauses), TreeDepths(p.clauses + [c]));
    ParsingGrows(p, c, nodes, node, preface, roots', stack');
  }

  lemma ParsingGrows(p: Parsed, c: Clause, nodes: seq<NumberedClause>, node: NumberedClause, preface: seq<string>,
                     roots: seq<NumberedClause>, stack: seq<NumberedClause>)
    requires Distinct(nodes) && node !in nodes && preface == p.preface
    requires Built(nodes + [node], p.clauses + [c], TreeDepths(p.clauses + [c]))
    requires roots == Pick(nodes + [node], Roots(TreeDepths(p.clauses + [c])))
    requires stack == Pick(nodes + [node], Spine(TreeDepths(p.clauses + [c])))
    ensures Parsing(p.(clauses := p.clauses + [c]), nodes + [node], preface, roots, stack, node)
  {
    var longer := nodes + [node];
    assert longer[|longer| - 1] == node && Distinct(longer);
  }

  /** A continuation line read in the midst of parsing. */
  method ContinueLine(current: NumberedClause, line: string, r: Reading, ghost preface: seq<string>,
                      ghost roots: seq<NumberedClause>,
                      ghost stack: seq<NumberedClause>, ghost p: Parsed, ghost nodes: seq<NumberedClause>)
    requires Parsing(p, nodes, preface, roots, stack, current)
    modifies nodes
    ensures Parsing(AddCleanLine(p, line, None, r), nodes, preface, roots, stack, current)
  {
    var text := r.norm(current.text + " " + line);
    ghost var longer := p.clauses[|nodes| - 1 := Clause(p.clauses[|nodes| - 1].labelText, text)];
    DepthsFromLabels(p.clauses, longer);
    ContinueClause(current, text, nodes, p.clauses, TreeDepths(p.clauses));
    assert AddCleanLine(p, line, None, r) == p.(clauses := longer);
  }

  /** A line before the first clause. */
  lemma PrefaceLine(line: string, r: Reading, preface: seq<string>, roots: seq<NumberedClause>,
                    stack: seq<NumberedClause>, p: Parsed, nodes: seq<NumberedClause>)
    requires Parsing(p, nodes, preface, roots, stack, null)
    ensures Parsing(AddCleanLine(p, line, None, r), nodes, preface + [line], roots, stack, null)
  {
  }

  method ParseLine(line: string, found: Option<Clause>, r: Reading, preface: seq<string>, roots: seq<NumberedClause>,
                   stack: seq<NumberedClause>,
                   current: NumberedClause?, ghost p: Parsed, ghost nodes: seq<NumberedClause>)
    returns (preface': seq<string>, roots': seq<NumberedClause>, stack': seq<NumberedClause>,
             current': NumberedClause?, ghost nodes': seq<NumberedClause>)
    requires Parsing(p, nodes, preface, roots, stack, current)
    modifies nodes
    ensures Parsing(AddCleanLine(p, line, found, r), nodes', preface', roots', stack', current')
    ensures nodes <= nodes' && forall j :: |nodes| <= j < |nodes'| ==> fresh(nodes'[j])
  {
    preface', roots', stack', current', nodes' := preface, roots, stack, current, nodes;
    if found.Some? {
      var node;
      var clause := Clause(found.value.labelText, r.norm(found.value.text));
      node, roots', stack' := OpenLine(clause, roots, stack, line, found.value, r, preface, current, p, nodes);
      current', nodes' := node, nodes + [node];
    } else if current == null {
      PrefaceLine(line, r, preface, roots, stack, p, nodes);
      preface' := preface + [line];
    } else {
      ContinueLine(current, line, r, preface, roots, stack, p, nodes);
    }
  }

  /**
   Reads all lines. There is one node per clause, in input order; the roots returned are the nodes of the
   forest of the clauses that the lines spell out.
   */
  method ParseNumberedClauses(lines: seq<string>, r: Reading)
    returns (preface: seq<string>, roots: seq<NumberedClause>, ghost nodes: seq<NumberedClause>)
    ensures preface == Accumulate(lines, r).preface
    ensures Distinct(nodes) && Built(nodes, Accumulate(lines, r).clauses, TreeDepths(Accumulate(lines, r).clauses))
    ensures DenoteAll(Elements(nodes), roots, ForestOf(Accumulate(lines, r).clauses))
    ensures forall j :: 0 <= j < |nodes| ==> fresh(nodes[j])
  {
    ghost var stack, current;
    preface, roots, stack, current, nodes := ParseLines(lines, r);
    ghost var cs := Accumulate(lines, r).clauses;
    RootsDenote(nodes, cs, TreeDepths(cs));
  }

  method ParseLines(lines: seq<string>, r: Reading)
    returns (preface: seq<string>, roots: seq<NumberedClause>, stack: seq<NumberedClause>, current: NumberedClause?,
             ghost nodes: seq<NumberedClause>)
    ensures Parsing(Accumulate(lines, r), nodes, preface, roots, stack, current)
    ensures forall j :: 0 <= j < |nodes| ==> fresh(nodes[j])
  {
    preface, roots, stack, current, nodes := [], [], [], null, [];
    for i := 0 to |lines|
      invariant forall j :: 0 <= j < |nodes| ==> fresh(nodes[j])
      invariant Parsing(Accumulate(lines[..i], r), nodes, preface, roots, stack, current)
    {
      assert lines[..i + 1][..i] == lines[..i];
      var line := r.clean(lines[i]);
      if r.noise(line) {
        continue;
      }
      if line == "" {
        continue;
      }
      preface, roots, stack, current, nodes :=
        ParseLine(line, MatchClause(line), r, preface, roots, stack, current, Accumulate(lines[..i], r), nodes);
    }
    assert lines[..|lines|] == lines;
  }
}
