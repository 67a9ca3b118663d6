/**
 The parser of GRI requirement clauses: lettered clauses, Roman-numbered clauses below them, and
 continuation lines; and the leaves that the importer takes from the result.
 */
module GriClauses {
  import opened Prelude
  import opened LineText

  // ---------- clause lines ----------

  /** `label.` followed by spaces and a text. */
  function LabelledText(line: string, tag: string): Option<string> {
    var n := |tag| + 1;
    if tag + "." <= line then TextAfterSpaces(line[n..]) else None
  }

  predicate IsLetter(c: char) {
    'a' <= c <= 'z'
  }

  datatype Match = Match(tag: string, text: string)

  function LetterClause(line: string): Option<Match> {
    if line == "" || !IsLetter(line[0]) then None
    else
      match LabelledText(line, [line[0]])
      case Some(text) => Some(Match([line[0]], text))
      case None => None
  }

  const ROMANS := ["i", "ii", "iii", "iv", "v", "vi", "vii", "viii", "ix", "x"]

  /** The label in front of the first '.', if there is one. */
  function FirstField(line: string): string {
    if line == "" || line[0] == '.' then "" else [line[0]] + FirstField(line[1..])
  }

  function RomanClause(line: string): Option<Match> {
    var tag := FirstField(line);
    if tag !in ROMANS then None
    else
      match LabelledText(line, tag)
      case Some(text) => Some(Match(tag, text))
      case None => None
  }

  lemma LabelledTextIff(line: string, tag: string, text: string)
    ensures LabelledText(line, tag) == Some(text) <==>
            Begins(text) && exists k: nat :: k > 0 && line == tag + "." + (Spaces(k) + text)
  {
    var n := |tag| + 1;
    if tag + "." <= line {
      TextAfterSpacesIff(line[n..], text);
      assert line == tag + "." + line[n..];
      forall k: nat ensures line == tag + "." + (Spaces(k) + text) <==> line[n..] == Spaces(k) + text {
        if line == tag + "." + (Spaces(k) + text) {
          assert (tag + "." + (Spaces(k) + text))[n..] == Spaces(k) + text;
        }
      }
    }
  }

  /** A line opens a lettered clause if and only if it is a small letter, a dot, at least one space and a text. */
  lemma LetterLineIff(line: string, tag: string, text: string)
    ensures LetterClause(line) == Some(Match(tag, text)) <==>
            && |tag| == 1 && 'a' <= tag[0] <= 'z' && Begins(text)
            && exists k: nat :: k > 0 && line == tag + "." + (Spaces(k) + text)
  {
    LabelledTextIff(line, tag, text);
    if |tag| == 1 {
      if k: nat :| k > 0 && line == tag + "." + (Spaces(k) + text) {
        assert line[0] == tag[0] && [line[0]] == tag;
      }
      assert line != "" && [line[0]] == tag ==> line[0] == tag[0];
    }
  }

  lemma {:induction false} FieldBefore(tag: string, rest: string)
    requires '.' !in tag
    ensures FirstField(tag + "." + rest) == tag
  {
    var line := tag + "." + rest;
    if tag != "" {
      assert line[1..] == tag[1..] + "." + rest;
      FieldBefore(tag[1..], rest);
    }
  }

  /** The same with one of the ten numerals for the letter. */
  lemma RomanLineIff(line: string, tag: string, text: string)
    ensures RomanClause(line) == Some(Match(tag, text)) <==>
            && tag in ["i", "ii", "iii", "iv", "v", "vi", "vii", "viii", "ix", "x"] && Begins(text)
            && exists k: nat :: k > 0 && line == tag + "." + (Spaces(k) + text)
  {
    LabelledTextIff(line, tag, text);
    if tag in ROMANS {
      if k: nat :| k > 0 && line == tag + "." + (Spaces(k) + text) {
        FieldBefore(tag, Spaces(k) + text);
      }
    }
  }

  // ---------- what a sequence of lines says ----------

  datatype Tree = Node(tag: string, code: string, text: string, children: seq<Tree>)

  datatype Parsed = Parsed(preface: seq<string>, tops: seq<Tree>)

  datatype Reading = Reading(clean: string -> string, noise: string -> bool, norm: string -> string,
                             space: char -> bool)

  datatype Line = Letter(m: Match) | Roman(m: Match) | Plain

  /** A Roman numeral counts only below an open lettered clause; "i.", "v." and "x." are letters otherwise. */
  function KindOf(line: string, topOpen: bool): Line {
    Kind(LetterClause(line), RomanClause(line), topOpen)
  }

  function Kind(letter: Option<Match>, roman: Option<Match>, topOpen: bool): Line {
    if topOpen && roman.Some? then Roman(roman.value) else if letter.Some? then Letter(letter.value) else Plain
  }

  function AddCleanLine(p: Parsed, line: string, raw: string, r: Reading): Parsed {
    AddOfKind(p, KindOf(line, p.tops != []), line, raw, r)
  }

  function AddOfKind(p: Parsed, kind: Line, line: string, raw: string, r: Reading): Parsed {
    match kind
    case Roman(m) => if p.tops == [] then p else p.(tops := OnLast(p.tops, WithChild(Last(p.tops), m, r)))
    case Letter(m) => p.(tops := p.tops + [Node(m.tag, raw + "-" + m.tag, r.norm(m.text), [])])
    case Plain =>
      if p.tops == [] then p.(preface := p.preface + [line])
      else p.(tops := OnLast(p.tops, Continued(Last(p.tops), line, r)))
  }

  function OnLast<T>(s: seq<T>, x: T): (t: seq<T>)
    requires s != []
    ensures |t| == |s| && Last(t) == x && t[..|s| - 1] == s[..|s| - 1]
  {
    s[|s| - 1 := x]
  }

  function WithChild(t: Tree, m: Match, r: Reading): Tree {
    t.(children := t.children + [Node(m.tag, t.code + "-" + m.tag, r.norm(m.text), [])])
  }

  /** More text for the last child, or for the clause itself while it has none. */
  function Continued(t: Tree, line: string, r: Reading): Tree {
    if t.children == [] then t.(text := r.norm(t.text + " " + line))
    else t.(children := OnLast(t.children, Last(t.children).(text := r.norm(Last(t.children).text + " " + line))))
  }

  function AddLine(p: Parsed, raw: string, rawLine: string, r: Reading): Parsed {
    var line := r.clean(rawLine);
    if r.noise(line) || line == "" then p else AddCleanLine(p, line, raw, r)
  }

  function Accumulate(lines: seq<string>, raw: string, r: Reading): Parsed {
    if lines == [] then Parsed([], [])
    else AddLine(Accumulate(lines[..|lines| - 1], raw, r), raw, lines[|lines| - 1], r)
  }

  // ---------- shape of the result ----------

  ghost predicate TwoLevels(t: Tree) {
    forall i :: 0 <= i < |t.children| ==> t.children[i].children == []
  }

  /** The codes of the children extend the code of the clause by their own labels, all the way down. */
  ghost predicate CodesExtend(t: Tree) {
    forall i :: 0 <= i < |t.children| ==>
      t.children[i].code == t.code + "-" + t.children[i].tag && CodesExtend(t.children[i])
  }

  ghost predicate WellShaped(tops: seq<Tree>, raw: string) {
    forall i :: 0 <= i < |tops| ==>
      TwoLevels(tops[i]) && CodesExtend(tops[i]) && tops[i].code == raw + "-" + tops[i].tag
  }

  lemma ChildKeepsShape(t: Tree, m: Match, r: Reading)
    requires TwoLevels(t) && CodesExtend(t)
    ensures TwoLevels(WithChild(t, m, r)) && CodesExtend(WithChild(t, m, r))
  {
    var longer := WithChild(t, m, r);
    forall i | 0 <= i < |longer.children|
      ensures longer.children[i].children == [] && CodesExtend(longer.children[i])
      ensures longer.children[i].code == longer.code + "-" + longer.children[i].tag
    {
      assert i < |t.children| ==> longer.children[i] == t.children[i];
    }
  }

  lemma TextKeepsShape(t: Tree, line: string, r: Reading)
    requires TwoLevels(t) && CodesExtend(t)
    ensures TwoLevels(Continued(t, line, r)) && CodesExtend(Continued(t, line, r))
  {
    var after := Continued(t, line, r);
    forall i | 0 <= i < |after.children|
      ensures after.children[i].children == [] && CodesExtend(after.children[i])
      ensures after.children[i].code == after.code + "-" + after.children[i].tag
    {
      assert t.children[i].children == [];
      assert i < |t.children| - 1 ==> after.children[i] == t.children[i];
    }
  }

  lemma LastKeepsShape(tops: seq<Tree>, t: Tree, raw: string)
    requires WellShaped(tops, raw) && tops != []
    requires TwoLevels(t) && CodesExtend(t) && t.code == Last(tops).code && t.tag == Last(tops).tag
    ensures WellShaped(OnLast(tops, t), raw)
  {
  }

  lemma LineKeepsShape(p: Parsed, kind: Line, line: string, raw: string, r: Reading)
    requires WellShaped(p.tops, raw)
    ensures WellShaped(AddOfKind(p, kind, line, raw, r).tops, raw)
  {
    if kind.Roman? && p.tops != [] {
      ChildKeepsShape(Last(p.tops), kind.m, r);
      LastKeepsShape(p.tops, WithChild(Last(p.tops), kind.m, r), raw);
    } else if kind.Plain? && p.tops != [] {
      TextKeepsShape(Last(p.tops), line, r);
      LastKeepsShape(p.tops, Continued(Last(p.tops), line, r), raw);
    }
  }

  /** No input makes the parser build a third level, and every code is its parent's code with the own label. */
  lemma {:induction false} NeverThreeLevels(lines: seq<string>, raw: string, r: Reading)
    ensures WellShaped(Accumulate(lines, raw, r).tops, raw)
  {
    if lines != [] {
      var n := |lines| - 1;
      NeverThreeLevels(lines[..n], raw, r);
      var p, line := Accumulate(lines[..n], raw, r), r.clean(lines[n]);
      LineKeepsShape(p, KindOf(line, p.tops != []), line, raw, r);
    }
  }

  predicate OpensTop(rawLine: string, r: Reading) {
    var line := r.clean(rawLine);
    !r.noise(line) && line != "" && LetterClause(line).Some?
  }

  /** A lettered clause is open exactly when some line so far reads as one, Roman or not. */
  lemma {:induction false} TopOpenIff(lines: seq<string>, raw: string, r: Reading)
    ensures Accumulate(lines, raw, r).tops != [] <==> exists i :: 0 <= i < |lines| && OpensTop(lines[i], r)
  {
    if lines != [] {
      var n := |lines| - 1;
      TopOpenIff(lines[..n], raw, r);
      assert forall i :: 0 <= i < n ==> lines[..n][i] == lines[i];
    }
  }

  function PreorderTags(tops: seq<Tree>): seq<string> {
    if tops == [] then [] else [tops[0].tag] + PreorderTags(tops[0].children) + PreorderTags(tops[1..])
  }

  /** The labels of the lines that are clauses, each judged by whether a lettered clause came before it. */
  ghost function ClauseTags(lines: seq<string>, r: Reading): seq<string> {
    if lines == [] then []
    else
      var n := |lines| - 1;
      var line := r.clean(lines[n]);
      var before := ClauseTags(lines[..n], r);
      if r.noise(line) || line == "" then before
      else
        match KindOf(line, exists i :: 0 <= i < n && OpensTop(lines[i], r))
        case Roman(m) => before + [m.tag]
        case Letter(m) => before + [m.tag]
        case Plain => before
  }

  lemma {:induction false} PreorderSnoc(a: seq<Tree>, t: Tree)
    ensures PreorderTags(a + [t]) == PreorderTags(a) + ([t.tag] + PreorderTags(t.children))
  {
    if a != [] {
      PreorderSnoc(a[1..], t);
      assert (a + [t])[1..] == a[1..] + [t];
    } else {
      assert (a + [t])[1..] == [];
    }
  }

  lemma {:induction false} PreorderOnLast(tops: seq<Tree>, t: Tree)
    requires tops != []
    ensures PreorderTags(tops) ==
            PreorderTags(tops[..|tops| - 1]) + ([Last(tops).tag] + PreorderTags(Last(tops).children))
    ensures PreorderTags(OnLast(tops, t)) == PreorderTags(tops[..|tops| - 1]) + ([t.tag] + PreorderTags(t.children))
  {
    var front := tops[..|tops| - 1];
    PreorderSnoc(front, Last(tops));
    PreorderSnoc(front, t);
    SplitLast(tops);
    SplitLast(OnLast(tops, t));
  }

  /** Reading the clauses off in preorder gives the labels in input order. */
  lemma {:induction false} TagsInOrder(lines: seq<string>, raw: string, r: Reading)
    ensures PreorderTags(Accumulate(lines, raw, r).tops) == ClauseTags(lines, r)
  {
    if lines != [] {
      var n := |lines| - 1;
      var p, line := Accumulate(lines[..n], raw, r), r.clean(lines[n]);
      TagsInOrder(lines[..n], raw, r);
      TopOpenIff(lines[..n], raw, r);
      assert forall i :: 0 <= i < n ==> lines[..n][i] == lines[i];
      if !r.noise(line) && line != "" {
        OneMoreTag(p, line, raw, r);
      }
    }
  }

  lemma OneMoreTag(p: Parsed, line: string, raw: string, r: Reading)
    ensures PreorderTags(AddCleanLine(p, line, raw, r).tops) ==
            PreorderTags(p.tops) +
            match KindOf(line, p.tops != [])
            case Roman(m) => [m.tag]
            case Letter(m) => [m.tag]
            case Plain => []
  {
    match KindOf(line, p.tops != [])
    case Roman(m) =>
      var t := WithChild(Last(p.tops), m, r);
      PreorderOnLast(p.tops, t);
      PreorderSnoc(Last(p.tops).children, Last(t.children));
      assert PreorderTags(Last(t.children).children) == [];
    case Letter(m) =>
      PreorderSnoc(p.tops, Node(m.tag, raw + "-" + m.tag, r.norm(m.text), []));
    case Plain =>
      if p.tops != [] {
        var t := Last(p.tops);
        PreorderOnLast(p.tops, Continued(t, line, r));
        if t.children != [] {
          PreorderOnLast(t.children, Last(Continued(t, line, r).children));
        }
      }
  }

  // ---------- leaves ----------

  function StripLeft(s: string, space: char -> bool): string {
    if s != "" && space(s[0]) then StripLeft(s[1..], space) else s
  }

  function Combine(parent: string, child: string, r: Reading): string {
    var head, tail := StripRight(parent, {':', ';', ' '}), StripLeft(child, r.space);
    if head == "" then tail else r.norm(head + " " + tail)
  }

  lemma {:induction false} StripsTo(s: string, drop: set<char>, kept: string, dropped: string)
    requires s == kept + dropped && (forall c :: c in dropped ==> c in drop)
    requires kept != "" ==> kept[|kept| - 1] !in drop
    ensures StripRight(s, drop) == kept
  {
    if dropped == "" {
      assert s == kept;
    } else {
      var n := |dropped| - 1;
      assert s[..|s| - 1] == kept + dropped[..n] && s[|s| - 1] == dropped[n];
      StripsTo(s[..|s| - 1], drop, kept, dropped[..n]);
    }
  }

  lemma {:induction false} StripsLeftTo(s: string, space: char -> bool, dropped: string, kept: string)
    requires s == dropped + kept && (forall c :: c in dropped ==> space(c))
    requires kept != "" ==> !space(kept[0])
    ensures StripLeft(s, space) == kept
  {
    if dropped == "" {
      assert s == kept;
    } else {
      assert s[1..] == dropped[1..] + kept;
      StripsLeftTo(s[1..], space, dropped[1..], kept);
    }
  }

  /**
   The parent's text comes first, without the colons, semicolons and spaces at its end, then a space, then the child's
   text without the space before it; of a parent that says nothing else only the child's text is left.
   */
  lemma ParentThenChild(head: string, end: string, gap: string, tail: string, r: Reading)
    requires forall c :: c in end ==> c == ':' || c == ';' || c == ' '
    requires head != "" ==> head[|head| - 1] != ':' && head[|head| - 1] != ';' && head[|head| - 1] != ' '
    requires (forall c :: c in gap ==> r.space(c)) && (tail != "" ==> !r.space(tail[0]))
    ensures Combine(head + end, gap + tail, r) == if head == "" then tail else r.norm(head + " " + tail)
  {
    StripsTo(head + end, {':', ';', ' '}, head, end);
    StripsLeftTo(gap + tail, r.space, gap, tail);
  }

  datatype Leaf = Leaf(code: string, text: string)

  /** The importer's leaves: what comes up from a child is tagged with that child's own code. */
  function Leaves(t: Tree, r: Reading): seq<Leaf>
    decreases t, |t.children| + 1
  {
    if t.children == [] then [Leaf(t.code, t.text)] else LeavesFrom(t, 0, r)
  }

  function LeavesFrom(t: Tree, j: nat, r: Reading): seq<Leaf>
    requires j <= |t.children|
    decreases t, |t.children| - j
  {
    if j == |t.children| then []
    else Tagged(t.children[j].code, t.text, Leaves(t.children[j], r), r) + LeavesFrom(t, j + 1, r)
  }

  function Tagged(code: string, parent: string, leaves: seq<Leaf>, r: Reading): (tagged: seq<Leaf>)
    ensures |tagged| == |leaves|
    ensures forall i :: 0 <= i < |leaves| ==> tagged[i] == Leaf(code, Combine(parent, leaves[i].text, r))
  {
    seq(|leaves|, i requires 0 <= i < |leaves| => Leaf(code, Combine(parent, leaves[i].text, r)))
  }

  /** The leaves as they are: each under its own code, its text combined along the path from the top. */
  function OwnLeaves(t: Tree, r: Reading): seq<Leaf>
    decreases t, |t.children| + 1
  {
    if t.children == [] then [Leaf(t.code, t.text)] else OwnLeavesFrom(t, 0, r)
  }

  function OwnLeavesFrom(t: Tree, j: nat, r: Reading): seq<Leaf>
    requires j <= |t.children|
    decreases t, |t.children| - j
  {
    if j == |t.children| then []
    else Prefixed(t.text, OwnLeaves(t.children[j], r), r) + OwnLeavesFrom(t, j + 1, r)
  }

  function Prefixed(parent: string, leaves: seq<Leaf>, r: Reading): (prefixed: seq<Leaf>)
    ensures |prefixed| == |leaves|
    ensures forall i :: 0 <= i < |leaves| ==> prefixed[i] == Leaf(leaves[i].code, Combine(parent, leaves[i].text, r))
  {
    seq(|leaves|, i requires 0 <= i < |leaves| => Leaf(leaves[i].code, Combine(parent, leaves[i].text, r)))
  }

  /** For a clause of any height the leaf texts are right: every leaf once, in order, combined along its path. */
  lemma {:induction false} TextsRight(t: Tree, r: Reading)
    ensures |Leaves(t, r)| == |OwnLeaves(t, r)| > 0
    ensures forall i :: 0 <= i < |Leaves(t, r)| ==> Leaves(t, r)[i].text == OwnLeaves(t, r)[i].text
    decreases t, |t.children| + 1
  {
    if t.children != [] {
      TextsRightFrom(t, 0, r);
    }
  }

  lemma {:induction false} TextsRightFrom(t: Tree, j: nat, r: Reading)
    requires j <= |t.children|
    ensures |LeavesFrom(t, j, r)| == |OwnLeavesFrom(t, j, r)|
    ensures j < |t.children| ==> LeavesFrom(t, j, r) != []
    ensures forall i :: 0 <= i < |LeavesFrom(t, j, r)| ==> LeavesFrom(t, j, r)[i].text == OwnLeavesFrom(t, j, r)[i].text
    decreases t, |t.children| - j
  {
    if j < |t.children| {
      TextsRight(t.children[j], r);
      TextsRightFrom(t, j + 1, r);
    }
  }

  /** Below the top every leaf's own code is longer than the top's. */
  lemma {:induction false} OwnCodesExtend(t: Tree, r: Reading)
    requires CodesExtend(t)
    ensures forall i :: 0 <= i < |OwnLeaves(t, r)| ==>
              |OwnLeaves(t, r)[i].code| >= |t.code| + if t.children == [] then 0 else 1
    decreases t, |t.children| + 1
  {
    if t.children != [] {
      OwnCodesExtendFrom(t, 0, r);
    }
  }

  lemma {:induction false} OwnCodesExtendFrom(t: Tree, j: nat, r: Reading)
    requires j <= |t.children| && CodesExtend(t)
    ensures forall i :: 0 <= i < |OwnLeavesFrom(t, j, r)| ==> |OwnLeavesFrom(t, j, r)[i].code| > |t.code|
    decreases t, |t.children| - j
  {
    if j < |t.children| {
      OwnCodesExtend(t.children[j], r);
      OwnCodesExtendFrom(t, j + 1, r);
    }
  }

  /** The leaves come out under their own codes exactly when the clause has no third level. */
  lemma OwnCodesIff(t: Tree, r: Reading)
    requires CodesExtend(t)
    ensures Leaves(t, r) == OwnLeaves(t, r) <==> TwoLevels(t)
  {
    if t.children != [] {
      OwnCodesFrom(t, 0, r);
    }
  }

  /** A clause with a third level, which the importer's walk would list under a wrong code; the parser builds none. */
  lemma ThirdLevelMiscoded(r: Reading)
    ensures var deep := Node("1", "305-1-a-i-1", "Carbon dioxide", []);
            var t := Node("a", "305-1-a", "Emissions", [Node("i", "305-1-a-i", "Gases", [deep])]);
            CodesExtend(t) && Leaves(t, r) != OwnLeaves(t, r)
  {
    var deep := Node("1", "305-1-a-i-1", "Carbon dioxide", []);
    var kid := Node("i", "305-1-a-i", "Gases", [deep]);
    var t := Node("a", "305-1-a", "Emissions", [kid]);
    assert CodesExtend(deep) && CodesExtend(kid);
    assert t.children[0].children != [];
    OwnCodesIff(t, r);
  }

  lemma {:induction false} OwnCodesFrom(t: Tree, j: nat, r: Reading)
    requires j <= |t.children| && CodesExtend(t)
    ensures LeavesFrom(t, j, r) == OwnLeavesFrom(t, j, r) <==>
            forall i :: j <= i < |t.children| ==> t.children[i].children == []
    decreases |t.children| - j
  {
    if j < |t.children| {
      OwnCodesFrom(t, j + 1, r);
      ChunkAgrees(t, t.children[j], r);
      SameHalves(Tagged(t.children[j].code, t.text, Leaves(t.children[j], r), r), LeavesFrom(t, j + 1, r),
                 Prefixed(t.text, OwnLeaves(t.children[j], r), r), OwnLeavesFrom(t, j + 1, r));
    }
  }

  lemma ChunkAgrees(t: Tree, k: Tree, r: Reading)
    requires CodesExtend(k)
    ensures |Leaves(k, r)| == |OwnLeaves(k, r)|
    ensures Tagged(k.code, t.text, Leaves(k, r), r) == Prefixed(t.text, OwnLeaves(k, r), r) <==> k.children == []
  {
    TextsRight(k, r);
    OwnCodesExtend(k, r);
    var a, b := Tagged(k.code, t.text, Leaves(k, r), r), Prefixed(t.text, OwnLeaves(k, r), r);
    if k.children != [] {
      assert |b[0].code| > |a[0].code|;
    }
  }

  lemma SameHalves<T>(a: seq<T>, x: seq<T>, b: seq<T>, y: seq<T>)
    requires |a| == |b|
    ensures a + x == b + y <==> a == b && x == y
  {
    if a + x == b + y {
      assert a == (a + x)[..|a|] && b == (b + y)[..|b|];
      assert x == (a + x)[|a|..] && y == (b + y)[|b|..];
    }
  }

  /** What the importer gets from any input: one leaf per clause without children, one per child otherwise. */
  lemma ParsedLeaves(lines: seq<string>, raw: string, r: Reading, i: nat)
    requires i < |Accumulate(lines, raw, r).tops|
    ensures var t := Accumulate(lines, raw, r).tops[i];
            && Leaves(t, r) == OwnLeaves(t, r)
            && |Leaves(t, r)| == (if t.children == [] then 1 else |t.children|)
            && forall j :: 0 <= j < |t.children| ==>
                 Leaves(t, r)[j] ==
                     Leaf(raw + "-" + t.tag + "-" + t.children[j].tag, Combine(t.text, t.children[j].text, r))
  {
    var t := Accumulate(lines, raw, r).tops[i];
    NeverThreeLevels(lines, raw, r);
    OwnCodesIff(t, r);
    if t.children != [] {
      LeavesOfKids(t, 0, r);
    }
  }

  lemma {:induction false} LeavesOfKids(t: Tree, j: nat, r: Reading)
    requires j <= |t.children| && TwoLevels(t)
    ensures |LeavesFrom(t, j, r)| == |t.children| - j
    ensures forall i :: j <= i < |t.children| ==>
              LeavesFrom(t, j, r)[i - j] == Leaf(t.children[i].code, Combine(t.text, t.children[i].text, r))
    decreases |t.children| - j
  {
    if j < |t.children| {
      LeavesOfKids(t, j + 1, r);
    }
  }
}
