/**
 Expansion of a leaf clause: in every round each splittable candidate is replaced by its numbered
 parts, until a round splits nothing; then the first occurrence of every distinct text is kept.
 The splitters are arbitrary; they must make some rank of the text smaller, such as its length.
 */
module ClauseExpansion {
  import opened Prelude
  import Decimal
  import opened LineText

  datatype Candidate = Candidate(code: string, text: string)

  type Splitter = string -> Option<seq<string>>

  function StripEnd(text: string): (t: string)
    ensures |t| <= |text|
  {
    StripRight(text, {' ', ';', '.'})
  }

  /** Exactly the spaces, semicolons and dots at the end go. */
  lemma StripEndIff(text: string, t: string)
    ensures t == StripEnd(text) <==>
            && t <= text && (t != "" ==> t[|t| - 1] != ' ' && t[|t| - 1] != ';' && t[|t| - 1] != '.')
            && forall i :: |t| <= i < |text| ==> text[i] == ' ' || text[i] == ';' || text[i] == '.'
  {
    var s := StripEnd(text);
    if t <= text && t != s && |t| < |s| {
      assert text[|s| - 1] == s[|s| - 1];
    }
  }

  lemma StripTwice(text: string)
    ensures StripEnd(StripEnd(text)) == StripEnd(text)
  {
  }

  /** What the first splitter that finds more than one part makes of the text. */
  function FirstSplit(text: string, splitters: seq<Splitter>): (parts: Option<seq<string>>)
    ensures parts.Some? ==> |parts.value| > 1
  {
    if splitters == [] then None
    else
      match splitters[0](text)
      case Some(parts) => if |parts| > 1 then Some(parts) else FirstSplit(text, splitters[1..])
      case None => FirstSplit(text, splitters[1..])
  }

  predicate Splits(splitters: seq<Splitter>, k: nat, text: string)
    requires k < |splitters|
  {
    splitters[k](text).Some? && |splitters[k](text).value| > 1
  }

  /** The first in order that splits the text decides; if none does, it stays whole. */
  lemma {:induction false} FirstSplitIff(text: string, splitters: seq<Splitter>, k: nat)
    requires k < |splitters| && Splits(splitters, k, text) && forall l: nat :: l < k ==> !Splits(splitters, l, text)
    ensures FirstSplit(text, splitters) == splitters[k](text)
  {
    if k > 0 {
      assert !Splits(splitters, 0, text);
      forall l: nat | l < k - 1 ensures !Splits(splitters[1..], l, text) {
        assert !Splits(splitters, l + 1, text);
      }
      FirstSplitIff(text, splitters[1..], k - 1);
    }
  }

  lemma {:induction false} NoneSplits(text: string, splitters: seq<Splitter>)
    requires forall l: nat :: l < |splitters| ==> !Splits(splitters, l, text)
    ensures FirstSplit(text, splitters) == None
  {
    if splitters != [] {
      assert !Splits(splitters, 0, text);
      forall l: nat | l < |splitters| - 1 ensures !Splits(splitters[1..], l, text) {
        assert !Splits(splitters, l + 1, text);
      }
      NoneSplits(text, splitters[1..]);
    }
  }

  function Parts(code: string, parts: seq<string>): (cs: seq<Candidate>)
    ensures |cs| == |parts|
    ensures forall i :: 0 <= i < |parts| ==> cs[i] == Candidate(code + "." + Decimal.OfNat(i + 1), StripEnd(parts[i]))
  {
    seq(|parts|, i requires 0 <= i < |parts| => Candidate(code + "." + Decimal.OfNat(i + 1), StripEnd(parts[i])))
  }

  // ---------- the split tree ----------

  /** Every split makes the rank of the stripped parts smaller than that of the text. */
  ghost predicate Terminating(splitters: seq<Splitter>, rank: string -> nat) {
    forall s: string :: FirstSplit(s, splitters).Some? ==>
      forall i :: 0 <= i < |FirstSplit(s, splitters).value| ==>
        rank(StripEnd(FirstSplit(s, splitters).value[i])) < rank(s)
  }

  /** Splitters whose parts are shorter than their input. */
  ghost predicate Shortening(splitters: seq<Splitter>) {
    forall k, s: string :: 0 <= k < |splitters| && splitters[k](s).Some? ==>
      forall i :: 0 <= i < |splitters[k](s).value| ==> |splitters[k](s).value[i]| < |s|
  }

  lemma {:induction false} ShorterTerminates(splitters: seq<Splitter>, s: string)
    requires Shortening(splitters)
    ensures FirstSplit(s, splitters).Some? ==>
              forall i :: 0 <= i < |FirstSplit(s, splitters).value| ==> |FirstSplit(s, splitters).value[i]| < |s|
  {
    if splitters != [] {
      assert forall k, t: string :: 0 <= k < |splitters[1..]| ==> splitters[1..][k](t) == splitters[k + 1](t);
      ShorterTerminates(splitters[1..], s);
    }
  }

  /** Shortening splitters always come to an end: the length is a rank. */
  lemma ShorteningIsTerminating(splitters: seq<Splitter>)
    requires Shortening(splitters)
    ensures Terminating(splitters, (s: string) => |s|)
  {
    forall s: string | FirstSplit(s, splitters).Some?
      ensures forall i :: 0 <= i < |FirstSplit(s, splitters).value| ==>
                |StripEnd(FirstSplit(s, splitters).value[i])| < |s|
    {
      ShorterTerminates(splitters, s);
    }
  }

  ghost function MaxRank(cs: seq<Candidate>, rank: string -> nat): (m: nat)
    ensures forall i :: 0 <= i < |cs| ==> rank(cs[i].text) <= m
    ensures cs != [] ==> exists i :: 0 <= i < |cs| && rank(cs[i].text) == m
  {
    if cs == [] then 0
    else
      var rest := MaxRank(cs[1..], rank);
      if cs[1..] != [] && rest >= rank(cs[0].text) then rest else rank(cs[0].text)
  }

  /** The leaves of the recursive split tree of a candidate, in order. */
  ghost function Expand(c: Candidate, splitters: seq<Splitter>, rank: string -> nat): seq<Candidate>
    requires Terminating(splitters, rank)
    decreases rank(c.text) + 1, 0
  {
    match FirstSplit(c.text, splitters)
    case None => [Candidate(c.code, StripEnd(c.text))]
    case Some(parts) => ExpandAll(Parts(c.code, parts), splitters, rank)
  }

  ghost function ExpandAll(cs: seq<Candidate>, splitters: seq<Splitter>, rank: string -> nat): seq<Candidate>
    requires Terminating(splitters, rank)
    decreases MaxRank(cs, rank) + 1, |cs|
  {
    if cs == [] then [] else Expand(cs[0], splitters, rank) + ExpandAll(cs[1..], splitters, rank)
  }

  lemma {:induction false} ExpandAllAppend(a: seq<Candidate>, b: seq<Candidate>, splitters: seq<Splitter>,
                                           rank: string -> nat)
    requires Terminating(splitters, rank)
    ensures ExpandAll(a + b, splitters, rank) == ExpandAll(a, splitters, rank) + ExpandAll(b, splitters, rank)
  {
    if a == [] {
      assert a + b == b;
    } else {
      assert (a + b)[1..] == a[1..] + b;
      ExpandAllAppend(a[1..], b, splitters, rank);
    }
  }

  // ---------- one round ----------

  function RoundOf(c: Candidate, splitters: seq<Splitter>): seq<Candidate> {
    match FirstSplit(c.text, splitters)
    case None => [Candidate(c.code, StripEnd(c.text))]
    case Some(parts) => Parts(c.code, parts)
  }

  predicate Stripped(cs: seq<Candidate>) {
    forall i :: 0 <= i < |cs| ==> StripEnd(cs[i].text) == cs[i].text
  }

  /** Candidates that can still be split rank below the bound. */
  ghost predicate SplitBelow(cs: seq<Candidate>, splitters: seq<Splitter>, rank: string -> nat, bound: nat) {
    forall i :: 0 <= i < |cs| && FirstSplit(cs[i].text, splitters).Some? ==> rank(cs[i].text) < bound
  }

  /** A round changes no leaf, and what it leaves splittable ranks lower. */
  lemma RoundKeepsLeaves(c: Candidate, splitters: seq<Splitter>, rank: string -> nat, bound: nat)
    requires Terminating(splitters, rank) && StripEnd(c.text) == c.text
    requires FirstSplit(c.text, splitters).Some? ==> rank(c.text) < bound
    ensures ExpandAll(RoundOf(c, splitters), splitters, rank) == Expand(c, splitters, rank)
    ensures Stripped(RoundOf(c, splitters)) &&
            SplitBelow(RoundOf(c, splitters), splitters, rank, if bound == 0 then 0 else bound - 1)
  {
    match FirstSplit(c.text, splitters)
    case None =>
      assert ExpandAll([c], splitters, rank) == Expand(c, splitters, rank) + ExpandAll([], splitters, rank);
    case Some(parts) =>
      forall i | 0 <= i < |parts| ensures StripEnd(Parts(c.code, parts)[i].text) == Parts(c.code, parts)[i].text {
        StripTwice(parts[i]);
      }
  }

  /** The inner loop over the splitters: the first that finds more than one part wins. */
  method TrySplitters(text: string, splitters: seq<Splitter>) returns (parts: Option<seq<string>>)
    ensures parts == FirstSplit(text, splitters)
  {
    for k := 0 to |splitters|
      invariant FirstSplit(text, splitters) == FirstSplit(text, splitters[k..])
    {
      var splitResult := splitters[k](text);
      if splitResult.Some? && |splitResult.value| > 1 {
        return splitResult;
      }
    }
    parts := None;
  }

  /** In the midst of a round: `next` is done, `rest` is to come, and no leaf is lost. */
  ghost predicate InRound(candidates: seq<Candidate>, next: seq<Candidate>, rest: seq<Candidate>,
                          splitters: seq<Splitter>, rank: string -> nat, bound: nat)
    requires Terminating(splitters, rank)
  {
    && ExpandAll(next + rest, splitters, rank) == ExpandAll(candidates, splitters, rank)
    && Stripped(next) && SplitBelow(next, splitters, rank, if bound == 0 then 0 else bound - 1)
  }

  lemma RoundStep(candidates: seq<Candidate>, next: seq<Candidate>, c: Candidate, rest: seq<Candidate>,
                  splitters: seq<Splitter>, rank: string -> nat, bound: nat)
    requires Terminating(splitters, rank) && StripEnd(c.text) == c.text
    requires FirstSplit(c.text, splitters).Some? ==> rank(c.text) < bound
    requires InRound(candidates, next, [c] + rest, splitters, rank, bound)
    ensures InRound(candidates, next + RoundOf(c, splitters), rest, splitters, rank, bound)
  {
    RoundKeepsLeaves(c, splitters, rank, bound);
    ReplaceHead(next, c, RoundOf(c, splitters), rest, splitters, rank);
  }

  /** The state of the loop over the candidates before number `i`. */
  ghost predicate Rounding(candidates: seq<Candidate>, next: seq<Candidate>, i: nat, splitters: seq<Splitter>,
                           rank: string -> nat, bound: nat, expanded: bool)
    requires Terminating(splitters, rank)
  {
    && i <= |candidates| && InRound(candidates, next, candidates[i..], splitters, rank, bound)
    && (expanded ==> bound > 0) && (!expanded ==> SplitBelow(next, splitters, rank, 0))
  }

  lemma OneMoreRounded(candidates: seq<Candidate>, next: seq<Candidate>, i: nat, splitters: seq<Splitter>,
                       rank: string -> nat, bound: nat, expanded: bool)
    requires Terminating(splitters, rank) && Stripped(candidates) && SplitBelow(candidates, splitters, rank, bound)
    requires i < |candidates| && Rounding(candidates, next, i, splitters, rank, bound, expanded)
    ensures Rounding(candidates, next + RoundOf(candidates[i], splitters), i + 1, splitters, rank, bound,
                     expanded || FirstSplit(candidates[i].text, splitters).Some?)
  {
    assert candidates[i..] == [candidates[i]] + candidates[i + 1..];
    RoundStep(candidates, next, candidates[i], candidates[i + 1..], splitters, rank, bound);
  }

  lemma RoundingStarts(candidates: seq<Candidate>, splitters: seq<Splitter>, rank: string -> nat, bound: nat)
    requires Terminating(splitters, rank)
    ensures Rounding(candidates, [], 0, splitters, rank, bound, false)
  {
    assert [] + candidates[0..] == candidates;
  }

  lemma RoundingEnds(candidates: seq<Candidate>, next: seq<Candidate>, splitters: seq<Splitter>, rank: string -> nat,
                     bound: nat, expanded: bool)
    requires Terminating(splitters, rank)
    requires Rounding(candidates, next, |candidates|, splitters, rank, bound, expanded)
    ensures ExpandAll(next, splitters, rank) == ExpandAll(candidates, splitters, rank)
    ensures Stripped(next) && SplitBelow(next, splitters, rank, if bound == 0 then 0 else bound - 1)
  {
    assert next + candidates[|candidates|..] == next;
  }

  /** The loop over the candidates of one round. */
  method ExpandRound(candidates: seq<Candidate>, splitters: seq<Splitter>, ghost rank: string -> nat, ghost bound: nat)
    returns (next: seq<Candidate>, expanded: bool)
    requires Terminating(splitters, rank) && Stripped(candidates) && SplitBelow(candidates, splitters, rank, bound)
    ensures ExpandAll(next, splitters, rank) == ExpandAll(candidates, splitters, rank)
    ensures Stripped(next) && SplitBelow(next, splitters, rank, if bound == 0 then 0 else bound - 1)
    ensures expanded ==> bound > 0
    ensures !expanded ==> SplitBelow(next, splitters, rank, 0)
  {
    next, expanded := [], false;
    RoundingStarts(candidates, splitters, rank, bound);
    for i := 0 to |candidates|
      invariant Rounding(candidates, next, i, splitters, rank, bound, expanded)
    {
      var c := candidates[i];
      OneMoreRounded(candidates, next, i, splitters, rank, bound, expanded);
      var parts := TrySplitters(c.text, splitters);
      if parts.Some? {
        next := next + Parts(c.code, parts.value);
        expanded := true;
      } else {
        next := next + [Candidate(c.code, StripEnd(c.text))];
      }
    }
    RoundingEnds(candidates, next, splitters, rank, bound, expanded);
  }

  lemma HeadLeaves(c: Candidate, rest: seq<Candidate>, splitters: seq<Splitter>, rank: string -> nat)
    requires Terminating(splitters, rank)
    ensures ExpandAll([c] + rest, splitters, rank) == Expand(c, splitters, rank) + ExpandAll(rest, splitters, rank)
  {
    assert ([c] + rest)[1..] == rest;
  }

  lemma ReplaceHead(done: seq<Candidate>, c: Candidate, parts: seq<Candidate>, rest: seq<Candidate>,
                    splitters: seq<Splitter>, rank: string -> nat)
    requires Terminating(splitters, rank)
    requires ExpandAll(parts, splitters, rank) == Expand(c, splitters, rank)
    ensures ExpandAll((done + parts) + rest, splitters, rank) == ExpandAll(done + ([c] + rest), splitters, rank)
  {
    ExpandAllAppend(done + parts, rest, splitters, rank);
    ExpandAllAppend(done, parts, splitters, rank);
    ExpandAllAppend(done, [c] + rest, splitters, rank);
    HeadLeaves(c, rest, splitters, rank);
    Regroup(ExpandAll(done, splitters, rank), Expand(c, splitters, rank), ExpandAll(rest, splitters, rank));
  }

  /** Candidates none of which can be split are their own leaves. */
  lemma {:induction false} NothingToSplit(cs: seq<Candidate>, splitters: seq<Splitter>, rank: string -> nat)
    requires Terminating(splitters, rank) && Stripped(cs) && SplitBelow(cs, splitters, rank, 0)
    ensures ExpandAll(cs, splitters, rank) == cs
  {
    if cs != [] {
      assert forall i :: 0 <= i < |cs[1..]| ==> cs[1..][i] == cs[i + 1];
      NothingToSplit(cs[1..], splitters, rank);
      assert FirstSplit(cs[0].text, splitters).None?;
    }
  }

  /** The rounds come to an end and yield the leaves of the recursive split tree, in order. */
  method ExpandInRounds(code: string, text: string, splitters: seq<Splitter>, ghost rank: string -> nat)
    returns (candidates: seq<Candidate>)
    requires Terminating(splitters, rank)
    ensures candidates == Expand(Candidate(code, StripEnd(text)), splitters, rank)
  {
    candidates := [Candidate(code, StripEnd(text))];
    StripTwice(text);
    ghost var bound: nat := rank(StripEnd(text)) + 1;
    var expanded := true;
    assert ExpandAll(candidates, splitters, rank) ==
           Expand(candidates[0], splitters, rank) + ExpandAll([], splitters, rank);
    while expanded
      invariant ExpandAll(candidates, splitters, rank) == Expand(Candidate(code, StripEnd(text)), splitters, rank)
      invariant Stripped(candidates) && SplitBelow(candidates, splitters, rank, bound)
      invariant !expanded ==> SplitBelow(candidates, splitters, rank, 0)
      decreases bound, expanded
    {
      candidates, expanded := ExpandRound(candidates, splitters, rank, bound);
      bound := if bound == 0 then 0 else bound - 1;
    }
    NothingToSplit(candidates, splitters, rank);
  }

  // ---------- codes ----------

  /** The code itself or a dotted extension of it. */
  predicate Under(code: string, base: string) {
    code == base || base + "." <= code
  }

  lemma UnderTransitive(a: string, b: string, c: string)
    requires Under(a, b) && Under(b, c)
    ensures Under(a, c)
  {
    if a != b && b != c {
      assert a[..|c| + 1] == b[..|c| + 1] == c + ".";
    }
  }

  /** A code lies under one numbered part of a base at most. */
  lemma OnePart(code: string, base: string, m: nat, n: nat)
    requires Under(code, base + "." + Decimal.OfNat(m)) && Under(code, base + "." + Decimal.OfNat(n))
    ensures m == n
  {
    SameField(code, base + ".", Decimal.OfNat(m), Decimal.OfNat(n));
    SameField(code, base + ".", Decimal.OfNat(n), Decimal.OfNat(m));
    Decimal.NatInjective(m, n);
  }

  lemma SameField(code: string, base: string, a: string, b: string)
    requires Under(code, base + a) && Under(code, base + b)
    requires Decimal.AllDigits(a) && Decimal.AllDigits(b)
    ensures a <= b
  {
    assert forall i :: 0 <= i < |a| ==> code[|base| + i] == a[i];
    assert forall i :: 0 <= i < |b| ==> code[|base| + i] == b[i];
    if |b| < |a| {
      FieldEndsAtDot(code, base, a, b);
    }
  }

  lemma FieldEndsAtDot(code: string, base: string, a: string, b: string)
    requires Under(code, base + b) && Decimal.AllDigits(a) && |b| < |a|
    ensures !Under(code, base + a)
  {
    DotAt(code, base, b);
    DigitAt(code, base, a, |b|);
  }

  lemma DotAt(code: string, base: string, b: string)
    requires Under(code, base + b)
    ensures |code| > |base| + |b| ==> code[|base| + |b|] == '.'
  {
    if |code| > |base| + |b| {
      assert code[|base| + |b|] == (base + b + ".")[|base| + |b|];
    }
  }

  lemma DigitAt(code: string, base: string, a: string, k: nat)
    requires k < |a| && Decimal.AllDigits(a)
    ensures Under(code, base + a) ==> |code| > |base| + k && code[|base| + k] != '.'
  {
    if Under(code, base + a) {
      assert code[|base| + k] == (base + a)[|base| + k] == a[k];
    }
  }

  ghost predicate AllUnder(cs: seq<Candidate>, base: string) {
    forall i :: 0 <= i < |cs| ==> Under(cs[i].code, base)
  }

  /** Codes pairwise distinct, none a dotted extension of another. */
  ghost predicate Apart(cs: seq<Candidate>) {
    forall i, j :: 0 <= i < |cs| && 0 <= j < |cs| && i != j ==> !Under(cs[i].code, cs[j].code)
  }

  /** Where expansion may stand: numbered parts of one base, each number once. */
  ghost predicate NumberedFrom(cs: seq<Candidate>, base: string, first: nat) {
    forall i :: 0 <= i < |cs| ==> cs[i].code == base + "." + Decimal.OfNat(first + i)
  }

  /** The leaves of a candidate lie under its code, and apart from each other. */
  lemma {:induction false} LeavesApart(c: Candidate, splitters: seq<Splitter>, rank: string -> nat)
    requires Terminating(splitters, rank)
    ensures AllUnder(Expand(c, splitters, rank), c.code) && Apart(Expand(c, splitters, rank))
    decreases rank(c.text) + 1, 0
  {
    match FirstSplit(c.text, splitters)
    case None =>
    case Some(parts) =>
      PartsApart(Parts(c.code, parts), c.code, 1, splitters, rank);
      var leaves := Expand(c, splitters, rank);
      forall i | 0 <= i < |leaves| ensures Under(leaves[i].code, c.code) {
        var n :| n >= 1 && Under(leaves[i].code, c.code + "." + Decimal.OfNat(n));
        UnderTransitive(leaves[i].code, c.code + "." + Decimal.OfNat(n), c.code);
      }
  }

  ghost predicate UnderPartFrom(code: string, base: string, first: nat) {
    exists n :: n >= first && Under(code, base + "." + Decimal.OfNat(n))
  }

  lemma {:induction false} PartsApart(cs: seq<Candidate>, base: string, first: nat, splitters: seq<Splitter>,
                                      rank: string -> nat)
    requires Terminating(splitters, rank) && NumberedFrom(cs, base, first)
    ensures Apart(ExpandAll(cs, splitters, rank))
    ensures forall i :: 0 <= i < |ExpandAll(cs, splitters, rank)| ==>
              UnderPartFrom(ExpandAll(cs, splitters, rank)[i].code, base, first)
    decreases MaxRank(cs, rank) + 1, |cs|
  {
    if cs != [] {
      assert forall i :: 0 <= i < |cs[1..]| ==> cs[1..][i] == cs[i + 1];
      LeavesApart(cs[0], splitters, rank);
      PartsApart(cs[1..], base, first + 1, splitters, rank);
      var a, b := Expand(cs[0], splitters, rank), ExpandAll(cs[1..], splitters, rank);
      assert cs[0].code == base + "." + Decimal.OfNat(first);
      JoinApart(a, b, base, first);
    }
  }

  lemma JoinApart(a: seq<Candidate>, b: seq<Candidate>, base: string, first: nat)
    requires Apart(a) && AllUnder(a, base + "." + Decimal.OfNat(first))
    requires Apart(b) && forall i :: 0 <= i < |b| ==> UnderPartFrom(b[i].code, base, first + 1)
    ensures Apart(a + b)
    ensures forall i :: 0 <= i < |a + b| ==> UnderPartFrom((a + b)[i].code, base, first)
  {
    forall x, y | x in a && y in b ensures !Under(x.code, y.code) && !Under(y.code, x.code) {
      var n :| n >= first + 1 && Under(y.code, base + "." + Decimal.OfNat(n));
      if Under(x.code, y.code) {
        UnderTransitive(x.code, y.code, base + "." + Decimal.OfNat(n));
        OnePart(x.code, base, first, n);
      }
      if Under(y.code, x.code) {
        UnderTransitive(y.code, x.code, base + "." + Decimal.OfNat(first));
        OnePart(y.code, base, first, n);
      }
    }
    forall i | 0 <= i < |a + b| ensures UnderPartFrom((a + b)[i].code, base, first) {
      if i < |a| {
        assert Under(a[i].code, base + "." + Decimal.OfNat(first));
      } else {
        assert UnderPartFrom(b[i - |a|].code, base, first + 1);
      }
    }
  }

  // ---------- first occurrences ----------

  function Normal(text: string, norm: string -> string): string {
    StripEnd(norm(text))
  }

  predicate IsFirst(cs: seq<Candidate>, i: nat, norm: string -> string)
    requires i < |cs|
  {
    forall j :: 0 <= j < i ==> Normal(cs[j].text, norm) != Normal(cs[i].text, norm)
  }

  /** The positions whose normalised text does not occur before, in order. */
  function Kept(cs: seq<Candidate>, norm: string -> string): (kept: seq<nat>)
    ensures forall k :: 0 <= k < |kept| ==> kept[k] < |cs| && IsFirst(cs, kept[k], norm)
    ensures forall k, l :: 0 <= k < l < |kept| ==> kept[k] < kept[l]
    ensures forall i :: 0 <= i < |cs| && IsFirst(cs, i, norm) ==> i in kept
  {
    if cs == [] then []
    else
      var n := |cs| - 1;
      var before := Kept(cs[..n], norm);
      assert forall i :: 0 <= i < n ==> IsFirst(cs[..n], i, norm) == IsFirst(cs, i, norm);
      if IsFirst(cs, n, norm) then before + [n] else before
  }

  function FirstOccurrences(cs: seq<Candidate>, norm: string -> string): (firsts: seq<Candidate>)
    ensures |firsts| == |Kept(cs, norm)|
    ensures forall k :: 0 <= k < |firsts| ==>
              firsts[k] == Candidate(cs[Kept(cs, norm)[k]].code, Normal(cs[Kept(cs, norm)[k]].text, norm))
  {
    seq(|Kept(cs, norm)|, k requires 0 <= k < |Kept(cs, norm)| =>
      Candidate(cs[Kept(cs, norm)[k]].code, Normal(cs[Kept(cs, norm)[k]].text, norm)))
  }

  lemma OneMoreCandidate(cs: seq<Candidate>, i: nat, norm: string -> string)
    requires i < |cs|
    ensures FirstOccurrences(cs[..i + 1], norm) ==
            FirstOccurrences(cs[..i], norm) +
            if IsFirst(cs, i, norm) then [Candidate(cs[i].code, Normal(cs[i].text, norm))] else []
  {
    var upTo := cs[..i + 1];
    assert upTo[..i] == cs[..i];
    assert IsFirst(upTo, i, norm) == IsFirst(cs, i, norm);
    assert Kept(upTo, norm) == Kept(cs[..i], norm) + if IsFirst(cs, i, norm) then [i] else [];
  }

  ghost function TextsSeen(cs: seq<Candidate>, i: nat, norm: string -> string): set<string>
    requires i <= |cs|
  {
    set j | 0 <= j < i :: Normal(cs[j].text, norm)
  }

  lemma SeenMeansNotFirst(cs: seq<Candidate>, i: nat, norm: string -> string)
    requires i < |cs|
    ensures Normal(cs[i].text, norm) in TextsSeen(cs, i, norm) <==> !IsFirst(cs, i, norm)
    ensures TextsSeen(cs, i + 1, norm) == TextsSeen(cs, i, norm) + {Normal(cs[i].text, norm)}
  {
  }

  ghost predicate FirstsKept(cs: seq<Candidate>, i: nat, norm: string -> string, seen: set<string>,
                             deduped: seq<Candidate>) {
    i <= |cs| && seen == TextsSeen(cs, i, norm) && deduped == FirstOccurrences(cs[..i], norm)
  }

  lemma OneMoreKept(cs: seq<Candidate>, i: nat, norm: string -> string, seen: set<string>, deduped: seq<Candidate>)
    requires i < |cs| && FirstsKept(cs, i, norm, seen, deduped)
    ensures var text := Normal(cs[i].text, norm);
            if text in seen then FirstsKept(cs, i + 1, norm, seen, deduped)
            else FirstsKept(cs, i + 1, norm, seen + {text}, deduped + [Candidate(cs[i].code, text)])
  {
    var text := Normal(cs[i].text, norm);
    OneMoreCandidate(cs, i, norm);
    SeenMeansNotFirst(cs, i, norm);
    if text in seen {
      assert seen + {text} == seen;
    }
  }

  method KeepFirst(candidates: seq<Candidate>, norm: string -> string) returns (deduped: seq<Candidate>)
    ensures deduped == FirstOccurrences(candidates, norm)
  {
    deduped := [];
    var seen: set<string> := {};
    for i := 0 to |candidates|
      invariant FirstsKept(candidates, i, norm, seen, deduped)
    {
      var text := Normal(candidates[i].text, norm);
      OneMoreKept(candidates, i, norm, seen, deduped);
      if text in seen {
        continue;
      }
      seen := seen + {text};
      deduped := deduped + [Candidate(candidates[i].code, text)];
    }
    assert candidates[..|candidates|] == candidates;
  }

  /** Every text of the input is kept exactly once. */
  lemma EachTextOnce(cs: seq<Candidate>, norm: string -> string, i: nat)
    requires i < |cs|
    ensures exists k :: 0 <= k < |FirstOccurrences(cs, norm)| &&
              FirstOccurrences(cs, norm)[k].text == Normal(cs[i].text, norm)
    ensures forall k, l :: 0 <= k < l < |FirstOccurrences(cs, norm)| ==>
              FirstOccurrences(cs, norm)[k].text != FirstOccurrences(cs, norm)[l].text
    decreases i
  {
    if IsFirst(cs, i, norm) {
      var k :| 0 <= k < |Kept(cs, norm)| && Kept(cs, norm)[k] == i;
      assert FirstOccurrences(cs, norm)[k].text == Normal(cs[i].text, norm);
    } else {
      var j :| 0 <= j < i && Normal(cs[j].text, norm) == Normal(cs[i].text, norm);
      EachTextOnce(cs, norm, j);
    }
  }

  /** The whole expansion: rounds, then the first occurrence of each text. */
  method ExpandLeafClause(code: string, text: string, splitters: seq<Splitter>, norm: string -> string,
                          ghost rank: string -> nat)
    returns (deduped: seq<Candidate>)
    requires Terminating(splitters, rank)
    ensures deduped == FirstOccurrences(Expand(Candidate(code, StripEnd(text)), splitters, rank), norm)
    ensures Apart(deduped) && AllUnder(deduped, code) && deduped != []
  {
    var candidates := ExpandInRounds(code, text, splitters, rank);
    LeavesApart(Candidate(code, StripEnd(text)), splitters, rank);
    SomeLeaf(Candidate(code, StripEnd(text)), splitters, rank);
    EachTextOnce(candidates, norm, 0);
    deduped := KeepFirst(candidates, norm);
  }

  lemma {:induction false} SomeLeaf(c: Candidate, splitters: seq<Splitter>, rank: string -> nat)
    requires Terminating(splitters, rank)
    ensures Expand(c, splitters, rank) != []
    decreases rank(c.text)
  {
    match FirstSplit(c.text, splitters)
    case None =>
    case Some(parts) => SomeLeaf(Parts(c.code, parts)[0], splitters, rank);
  }

  /** The leaves do not depend on the rank that shows termination. */
  lemma {:induction false} RankIrrelevant(c: Candidate, splitters: seq<Splitter>, rank: string -> nat,
                                          other: string -> nat)
    requires Terminating(splitters, rank) && Terminating(splitters, other)
    ensures Expand(c, splitters, rank) == Expand(c, splitters, other)
    decreases rank(c.text) + 1, 0
  {
    match FirstSplit(c.text, splitters)
    case None =>
    case Some(parts) => RankIrrelevantAll(Parts(c.code, parts), splitters, rank, other);
  }

  lemma {:induction false} RankIrrelevantAll(cs: seq<Candidate>, splitters: seq<Splitter>, rank: string -> nat,
                                             other: string -> nat)
    requires Terminating(splitters, rank) && Terminating(splitters, other)
    ensures ExpandAll(cs, splitters, rank) == ExpandAll(cs, splitters, other)
    decreases MaxRank(cs, rank) + 1, |cs|
  {
    if cs != [] {
      RankIrrelevant(cs[0], splitters, rank, other);
      RankIrrelevantAll(cs[1..], splitters, rank, other);
    }
  }

  lemma {:induction false} WholeOnes(cs: seq<Candidate>, splitters: seq<Splitter>, rank: string -> nat)
    requires Terminating(splitters, rank)
    requires forall i :: 0 <= i < |cs| ==> FirstSplit(cs[i].text, splitters) == None
    requires forall i :: 0 <= i < |cs| ==> cs[i].text == StripEnd(cs[i].text)
    ensures ExpandAll(cs, splitters, rank) == cs
  {
    if cs != [] {
      WholeOnes(cs[1..], splitters, rank);
    }
  }

  /** A clause whose parts split no further becomes these parts, numbered from 1 behind its code. */
  lemma PartsNumbered(c: Candidate, splitters: seq<Splitter>, rank: string -> nat, parts: seq<string>)
    requires Terminating(splitters, rank) && FirstSplit(c.text, splitters) == Some(parts)
    requires forall i :: 0 <= i < |parts| ==> FirstSplit(StripEnd(parts[i]), splitters) == None
    ensures |Expand(c, splitters, rank)| == |parts|
    ensures forall i :: 0 <= i < |parts| ==>
              Expand(c, splitters, rank)[i].code == c.code + "." + Decimal.OfNat(i + 1) &&
              Expand(c, splitters, rank)[i].text == StripEnd(parts[i])
  {
    forall i | 0 <= i < |parts| ensures StripEnd(StripEnd(parts[i])) == StripEnd(parts[i]) {
      StripTwice(parts[i]);
    }
    WholeOnes(Parts(c.code, parts), splitters, rank);
  }
}
