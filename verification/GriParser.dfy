/**
 The GRI clause parser over mutable nodes, with its two cursors `currentTop` and `currentChild`,
 and the recursive collection of leaves from the nodes. A node is attached when its line is read
 and edited while it is the target of continuation lines, so the proof keeps the finished clauses
 apart from the one still open: only the open one and its children may change.
 */
module GriParser {
  import opened Prelude
  import opened GriClauses

  class RequirementClause {
    const tag: string
    const code: string
    var text: string
    var children: seq<RequirementClause>

    constructor (tag: string, code: string, text: string)
      ensures this.tag == tag && this.code == code && this.text == text && children == []
    {
      this.tag, this.code, this.text, children := tag, code, text, [];
    }
  }

  /** The node is the root of the tree, all nodes being in `heap`. */
  ghost predicate Denotes(heap: set<RequirementClause>, node: RequirementClause, t: Tree)
    reads heap
    decreases t
  {
    && node in heap && node.tag == t.tag && node.code == t.code && node.text == t.text &&
       |node.children| == |t.children|
    && forall i :: 0 <= i < |t.children| ==> Denotes(heap, node.children[i], t.children[i])
  }

  ghost predicate DenoteAll(heap: set<RequirementClause>, nodes: seq<RequirementClause>, trees: seq<Tree>)
    reads heap
  {
    |nodes| == |trees| && forall i :: 0 <= i < |trees| ==> Denotes(heap, nodes[i], trees[i])
  }

  ghost predicate IsChild(node: RequirementClause, t: Tree)
    reads node
  {
    && node.tag == t.tag && node.code == t.code && node.text == t.text
    && node.children == [] && t.children == []
  }

  /** A lettered clause still open: it and its children may yet change. */
  ghost predicate Open(node: RequirementClause, t: Tree)
    reads node, node.children
  {
    && node.tag == t.tag && node.code == t.code && node.text == t.text
    && Distinct(node.children) && node !in node.children && |node.children| == |t.children|
    && forall i :: 0 <= i < |t.children| ==> IsChild(node.children[i], t.children[i])
  }

  lemma {:induction false} DenotesMore(small: set<RequirementClause>, large: set<RequirementClause>,
                                       node: RequirementClause, t: Tree)
    requires Denotes(small, node, t) && small <= large
    ensures Denotes(large, node, t)
    decreases t
  {
    forall i | 0 <= i < |t.children| ensures Denotes(large, node.children[i], t.children[i]) {
      DenotesMore(small, large, node.children[i], t.children[i]);
    }
  }

  lemma OpenDenotes(heap: set<RequirementClause>, node: RequirementClause, t: Tree)
    requires Open(node, t) && node in heap && Elements(node.children) <= heap
    ensures Denotes(heap, node, t)
  {
    forall i | 0 <= i < |t.children| ensures Denotes(heap, node.children[i], t.children[i]) {
      assert node.children[i] in Elements(node.children);
    }
  }

  // ---------- the open clause ----------

  ghost function Footprint(top: RequirementClause): set<RequirementClause>
    reads top
  {
    {top} + Elements(top.children)
  }

  /** No node serves two clauses: clauses and their children are all different. */
  ghost predicate Separate(heap: set<RequirementClause>, nodes: seq<RequirementClause>)
    reads heap
  {
    && (forall i :: 0 <= i < |nodes| ==> nodes[i] in heap && OwnNodes(heap, nodes[i]))
    && (forall i, j :: 0 <= i < j < |nodes| ==> Footprint(nodes[i]) !! Footprint(nodes[j]))
  }

  ghost predicate OwnNodes(heap: set<RequirementClause>, node: RequirementClause)
    requires node in heap
    reads heap
  {
    Elements(node.children) <= heap && Distinct(node.children) && node !in node.children
  }

  method AddChild(top: RequirementClause, m: Match, r: Reading, ghost t: Tree) returns (child: RequirementClause)
    requires Open(top, t)
    modifies top
    ensures Open(top, WithChild(t, m, r)) && fresh(child)
    ensures top.children == old(top.children) + [child]
  {
    child := new RequirementClause(m.tag, top.code + "-" + m.tag, r.norm(m.text));
    top.children := top.children + [child];
    ghost var t' := WithChild(t, m, r);
    forall i | 0 <= i < |t'.children| ensures IsChild(top.children[i], t'.children[i]) {
      if i < |t.children| {
        assert IsChild(top.children[i], t.children[i]);
      }
    }
  }

  method Continue(top: RequirementClause, child: RequirementClause?, line: string, r: Reading, ghost t: Tree)
    requires Open(top, t) && child == if top.children == [] then null else Last(top.children)
    modifies Footprint(top)
    ensures Open(top, Continued(t, line, r))
    ensures top.children == old(top.children)
  {
    var target := if child != null then child else top;
    target.text := r.norm(target.text + " " + line);
  }

  // ---------- the parser ----------

  /** What the variables hold after the lines that say `p`: finished clauses in `done`, and one open at the end. */
  ghost predicate Parsing(p: Parsed, done: set<RequirementClause>, preface: seq<string>,
                          clauses: seq<RequirementClause>, top: RequirementClause?, child: RequirementClause?)
    reads done, top, if top == null then {} else Elements(top.children)
  {
    && preface == p.preface && |clauses| == |p.tops|
    && (top == null <==> clauses == [])
    && (top == null ==> child == null)
    && (top != null ==>
          && top == Last(clauses) && Footprint(top) !! done
          && DenoteAll(done, clauses[..|clauses| - 1], p.tops[..|clauses| - 1]) &&
             Separate(done, clauses[..|clauses| - 1])
          && Open(top, Last(p.tops))
          && child == if top.children == [] then null else Last(top.children))
  }

  /** Closing the open clause makes it one of the finished. */
  lemma CloseTop(p: Parsed, done: set<RequirementClause>, preface: seq<string>, clauses: seq<RequirementClause>,
                 top: RequirementClause, child: RequirementClause?)
    requires Parsing(p, done, preface, clauses, top, child)
    ensures DenoteAll(done + Footprint(top), clauses, p.tops) && Separate(done + Footprint(top), clauses)
  {
    var n := |clauses| - 1;
    CloseApart(done, clauses, top);
    forall i | 0 <= i < n ensures Denotes(done + Footprint(top), clauses[i], p.tops[i]) {
      assert Denotes(done, clauses[..n][i], p.tops[..n][i]);
      DenotesMore(done, done + Footprint(top), clauses[i], p.tops[i]);
    }
    OpenDenotes(done + Footprint(top), top, Last(p.tops));
  }

  lemma CloseApart(done: set<RequirementClause>, clauses: seq<RequirementClause>, top: RequirementClause)
    requires clauses != [] && top == Last(clauses) && Footprint(top) !! done && Separate(done, clauses[..|clauses| - 1])
    requires Distinct(top.children) && top !in top.children
    ensures Separate(done + Footprint(top), clauses)
  {
    var n, heap := |clauses| - 1, done + Footprint(top);
    forall i | 0 <= i < n ensures clauses[i] in done && Footprint(clauses[i]) <= done && OwnNodes(heap, clauses[i]) {
      assert clauses[..n][i] == clauses[i] && OwnNodes(done, clauses[i]);
    }
    forall i, j | 0 <= i < j < |clauses| ensures Footprint(clauses[i]) !! Footprint(clauses[j]) {
      if j < n {
        assert Footprint(clauses[..n][i]) !! Footprint(clauses[..n][j]);
      }
    }
  }

  ghost function Used(done: set<RequirementClause>, top: RequirementClause?): set<RequirementClause>
    reads top
  {
    done + if top == null then {} else Footprint(top)
  }

  /** A lettered clause: what was open is finished. */
  method OpenTop(m: Match, raw: string, r: Reading, clauses: seq<RequirementClause>, ghost preface: seq<string>,
                 ghost top: RequirementClause?, ghost child: RequirementClause?, ghost p: Parsed,
                 ghost done: set<RequirementClause>)
    returns (node: RequirementClause, ghost done': set<RequirementClause>)
    requires Parsing(p, done, preface, clauses, top, child)
    ensures fresh(node) && Used(done', node) == Used(done, top) + {node}
    ensures Parsing(p.(tops := p.tops + [Node(m.tag, raw + "-" + m.tag, r.norm(m.text), [])]), done',
                    preface, clauses + [node], node, null)
  {
    done' := Used(done, top);
    if top != null {
      CloseTop(p, done, preface, clauses, top, child);
    }
    node := new RequirementClause(m.tag, raw + "-" + m.tag, r.norm(m.text));
    TopOpened(p, done', preface, clauses, node, Node(m.tag, raw + "-" + m.tag, r.norm(m.text), []));
  }

  lemma TopOpened(p: Parsed, done: set<RequirementClause>, preface: seq<string>, clauses: seq<RequirementClause>,
                  node: RequirementClause, t: Tree)
    requires DenoteAll(done, clauses, p.tops) && Separate(done, clauses) && preface == p.preface
    requires node !in done && node.children == [] && IsChild(node, t)
    ensures Parsing(p.(tops := p.tops + [t]), done, preface, clauses + [node], node, null)
  {
    assert (clauses + [node])[..|clauses|] == clauses && (p.tops + [t])[..|clauses|] == p.tops;
  }

  /** A Roman-numbered line below an open clause. */
  method ChildLine(m: Match, r: Reading, top: RequirementClause, ghost line: string, ghost raw: string,
                   ghost preface: seq<string>,
                   ghost clauses: seq<RequirementClause>, ghost child: RequirementClause?, ghost p: Parsed,
                   ghost done: set<RequirementClause>)
    returns (child': RequirementClause)
    requires Parsing(p, done, preface, clauses, top, child)
    modifies top
    ensures Parsing(AddOfKind(p, Roman(m), line, raw, r), done, preface, clauses, top, child')
    ensures fresh(child') && Used(done, top) == old(Used(done, top)) + {child'}
  {
    child' := AddChild(top, m, r, Last(p.tops));
  }

  /** A line that continues the clause or child last opened. */
  method PlainLine(line: string, r: Reading, top: RequirementClause, child: RequirementClause?, ghost raw: string,
                   ghost preface: seq<string>, ghost clauses: seq<RequirementClause>, ghost p: Parsed,
                   ghost done: set<RequirementClause>)
    requires Parsing(p, done, preface, clauses, top, child)
    modifies Footprint(top)
    ensures Parsing(AddOfKind(p, Plain, line, raw, r), done, preface, clauses, top, child)
    ensures Used(done, top) == old(Used(done, top))
  {
    Continue(top, child, line, r, Last(p.tops));
  }

  /** A line before the first clause. */
  lemma PrefaceLine(line: string, r: Reading, raw: string, preface: seq<string>, clauses: seq<RequirementClause>,
                    p: Parsed, done: set<RequirementClause>)
    requires Parsing(p, done, preface, clauses, null, null)
    ensures Parsing(AddOfKind(p, Plain, line, raw, r), done, preface + [line], clauses, null, null)
  {
  }

  method ParseLine(line: string, letter: Option<Match>, roman: Option<Match>, raw: string, r: Reading,
                   preface: seq<string>, clauses: seq<RequirementClause>, top: RequirementClause?,
                   child: RequirementClause?, ghost p: Parsed, ghost done: set<RequirementClause>)
    returns (preface': seq<string>, clauses': seq<RequirementClause>, top': RequirementClause?,
             child': RequirementClause?, ghost done': set<RequirementClause>)
    requires Parsing(p, done, preface, clauses, top, child)
    modifies Used({}, top)
    ensures Parsing(AddOfKind(p, Kind(letter, roman, p.tops != []), line, raw, r), done', preface', clauses', top',
                    child')
    ensures fresh(Used(done', top') - old(Used(done, top)))
  {
    preface', clauses', top', child', done' := preface, clauses, top, child, done;
    if roman.Some? && top != null {
      child' := ChildLine(roman.value, r, top, line, raw, preface, clauses, child, p, done);
    } else if letter.Some? {
      var node;
      node, done' := OpenTop(letter.value, raw, r, clauses, preface, top, child, p, done);
      top', child', clauses' := node, null, clauses + [node];
    } else if top == null {
      PrefaceLine(line, r, raw, preface, clauses, p, done);
      preface' := preface + [line];
    } else {
      PlainLine(line, r, top, child, raw, preface, clauses, p, done);
    }
  }

  /** Reads all lines; the clauses returned are the nodes of what the lines spell out. */
  method ParseRequirementClauses(lines: seq<string>, raw: string, r: Reading)
    returns (preface: seq<string>, clauses: seq<RequirementClause>, ghost heap: set<RequirementClause>)
    ensures preface == Accumulate(lines, raw, r).preface
    ensures DenoteAll(heap, clauses, Accumulate(lines, raw, r).tops) && Separate(heap, clauses) && fresh(heap)
  {
    preface, clauses := [], [];
    var currentTop: RequirementClause?, currentChild: RequirementClause? := null, null;
    ghost var done: set<RequirementClause> := {};
    for i := 0 to |lines|
      invariant fresh(Used(done, currentTop))
      invariant Parsing(Accumulate(lines[..i], raw, r), done, preface, clauses, currentTop, currentChild)
    {
      assert lines[..i + 1][..i] == lines[..i];
      var line := r.clean(lines[i]);
      if r.noise(line) {
        continue;
      }
      if line == "" {
        continue;
      }
      assert Used({}, currentTop) <= Used(done, currentTop);
      preface, clauses, currentTop, currentChild, done :=
        ParseLine(line, LetterClause(line), RomanClause(line), raw, r, preface, clauses, currentTop, currentChild,
                  Accumulate(lines[..i], raw, r), done);
    }
    assert lines[..|lines|] == lines;
    heap := Used(done, currentTop);
    if currentTop != null {
      CloseTop(Accumulate(lines, raw, r), done, preface, clauses, currentTop, currentChild);
    }
  }

  // ---------- leaves ----------

  /** Collects the leaves of a node; the codes come from the direct children, as `Leaves` says. */
  method ClauseLeaves(clause: RequirementClause, r: Reading, ghost heap: set<RequirementClause>, ghost t: Tree)
    returns (leaves: seq<Leaf>)
    requires Denotes(heap, clause, t)
    ensures leaves == Leaves(t, r)
    decreases t
  {
    if clause.children == [] {
      return [Leaf(clause.code, clause.text)];
    }
    leaves := [];
    for j := 0 to |clause.children|
      invariant leaves + LeavesFrom(t, j, r) == Leaves(t, r)
    {
      var child := clause.children[j];
      var below := ClauseLeaves(child, r, heap, t.children[j]);
      ghost var before := leaves;
      for i := 0 to |below|
        invariant leaves == before + Tagged(child.code, clause.text, below, r)[..i]
      {
        leaves := leaves + [Leaf(child.code, Combine(clause.text, below[i].text, r))];
      }
      ghost var tagged := Tagged(child.code, clause.text, below, r);
      assert tagged[..|below|] == tagged;
      Regroup(before, tagged, LeavesFrom(t, j + 1, r));
    }
  }
}
