/**
 Disambiguation of BP metric codes: metrics are grouped by code, and in every group with more than
 one member the row number is appended. Exactly when the resulting codes are pairwise distinct is proved.
 */
module MetricCodes {
  import opened Prelude
  import Decimal

  datatype Metric = Metric(code: string, row: nat)

  function Suffixed(m: Metric): string {
    m.code + "_R" + Decimal.OfNat(m.row)
  }

  function If<T>(condition: bool, x: T): seq<T> {
    if condition then [x] else []
  }

  function InGroup(metrics: seq<Metric>, code: string): seq<Metric>
  {
    if metrics == [] then []
    else
      var n := |metrics| - 1;
      InGroup(metrics[..n], code) + If(metrics[n].code == code, metrics[n])
  }

  /** The final code of a metric: its own if no other metric has it, else with its row number. */
  function FinalCode(metrics: seq<Metric>, m: Metric): string {
    if |InGroup(metrics, m.code)| == 1 then m.code else Suffixed(m)
  }

  // ---------- the pass over the groups ----------

  function Rename(all: seq<Metric>, m: Metric): Metric {
    m.(code := FinalCode(all, m))
  }

  function RenameEach(all: seq<Metric>, ms: seq<Metric>): (renamed: seq<Metric>)
    ensures |renamed| == |ms| && forall i :: 0 <= i < |ms| ==> renamed[i] == Rename(all, ms[i])
  {
    seq(|ms|, i requires 0 <= i < |ms| => Rename(all, ms[i]))
  }

  /** The metrics of `ms` with one of the given codes, renamed. */
  function Part(all: seq<Metric>, ms: seq<Metric>, codes: set<string>): seq<Metric> {
    if ms == [] then []
    else
      var n := |ms| - 1;
      Part(all, ms[..n], codes) + If(ms[n].code in codes, Rename(all, ms[n]))
  }

  lemma {:induction false} PartAdds(all: seq<Metric>, ms: seq<Metric>, codes: set<string>, code: string)
    requires code !in codes
    ensures multiset(Part(all, ms, codes + {code})) ==
            multiset(Part(all, ms, codes)) + multiset(RenameEach(all, InGroup(ms, code)))
  {
    if ms != [] {
      var n := |ms| - 1;
      PartAdds(all, ms[..n], codes, code);
      RenameGrows(all, InGroup(ms[..n], code), ms[n], ms[n].code == code);
    }
  }

  lemma RenameGrows(all: seq<Metric>, ms: seq<Metric>, m: Metric, more: bool)
    ensures RenameEach(all, ms + If(more, m)) == RenameEach(all, ms) + If(more, Rename(all, m))
  {
  }

  lemma RenameSnoc(all: seq<Metric>, ms: seq<Metric>)
    requires ms != []
    ensures RenameEach(all, ms) == RenameEach(all, ms[..|ms| - 1]) + [Rename(all, ms[|ms| - 1])]
  {
  }

  lemma {:induction false} PartWhole(all: seq<Metric>, ms: seq<Metric>, codes: set<string>)
    requires forall i :: 0 <= i < |ms| ==> ms[i].code in codes
    ensures Part(all, ms, codes) == RenameEach(all, ms)
  {
    if ms != [] {
      var n := |ms| - 1;
      assert forall i :: 0 <= i < n ==> ms[..n][i] == ms[i];
      PartWhole(all, ms[..n], codes);
      RenameSnoc(all, ms);
      assert Part(all, ms, codes) == Part(all, ms[..n], codes) + [Rename(all, ms[n])];
    }
  }

  lemma {:induction false} PartNone(all: seq<Metric>, ms: seq<Metric>)
    ensures Part(all, ms, {}) == []
  {
    if ms != [] {
      PartNone(all, ms[..|ms| - 1]);
    }
  }

  ghost predicate Ordered(keys: set<string>, order: seq<string>) {
    Distinct(order) && keys == Elements(order)
  }

  /** The dictionary holds the group of every code that occurs. */
  ghost predicate Grouped(metrics: seq<Metric>, groups: map<string, seq<Metric>>) {
    && (forall c :: c in groups ==> groups[c] == InGroup(metrics, c))
    && (forall i :: 0 <= i < |metrics| ==> metrics[i].code in groups)
  }

  function Added(groups: map<string, seq<Metric>>, m: Metric): map<string, seq<Metric>> {
    groups[m.code := (if m.code in groups then groups[m.code] else []) + [m]]
  }

  lemma GroupedGrows(metrics: seq<Metric>, groups: map<string, seq<Metric>>, m: Metric)
    requires Grouped(metrics, groups)
    ensures Grouped(metrics + [m], Added(groups, m))
  {
    var longer := metrics + [m];
    assert longer[..|metrics|] == metrics;
    EmptyIff(metrics, m.code);
    forall c | c in Added(groups, m) ensures Added(groups, m)[c] == InGroup(longer, c) {
      assert InGroup(longer, c) == InGroup(metrics, c) + If(m.code == c, m);
    }
    forall i | 0 <= i < |longer| ensures longer[i].code in Added(groups, m) {
      assert i < |metrics| ==> longer[i] == metrics[i];
    }
  }

  /** Appends to the list of the metric's code, which starts empty. */
  method AppendToGroup(groups: map<string, seq<Metric>>, order: seq<string>, m: Metric)
    returns (groups': map<string, seq<Metric>>, order': seq<string>)
    requires Ordered(groups.Keys, order)
    ensures groups' == Added(groups, m) && Ordered(groups'.Keys, order')
  {
    groups', order' := groups, order;
    if m.code !in groups {
      groups' := groups[m.code := []];
      order' := order + [m.code];
    }
    groups' := groups'[m.code := groups'[m.code] + [m]];
    assert groups'.Keys == groups.Keys + {m.code};
  }

  method GroupByCode(metrics: seq<Metric>) returns (groups: map<string, seq<Metric>>, order: seq<string>)
    ensures Grouped(metrics, groups) && Ordered(groups.Keys, order)
  {
    groups, order := map[], [];
    for i := 0 to |metrics|
      invariant Grouped(metrics[..i], groups) && Ordered(groups.Keys, order)
    {
      assert metrics[..i + 1] == metrics[..i] + [metrics[i]];
      GroupedGrows(metrics[..i], groups, metrics[i]);
      groups, order := AppendToGroup(groups, order, metrics[i]);
    }
    assert metrics[..|metrics|] == metrics;
  }

  /** Each metric comes out once, under its final code. */
  method Disambiguate(metrics: seq<Metric>) returns (final: seq<Metric>)
    ensures multiset(final) == multiset(RenameEach(metrics, metrics))
  {
    var groups, order := GroupByCode(metrics);
    final := [];
    PartNone(metrics, metrics);
    assert Elements(order[..0]) == {};
    for k := 0 to |order|
      invariant multiset(final) == multiset(Part(metrics, metrics, Elements(order[..k])))
    {
      TakeOneMore(order, k);
      PartAdds(metrics, metrics, Elements(order[..k]), order[k]);
      var renamed := RenameGroup(groups[order[k]], metrics, order[k]);
      final := final + renamed;
    }
    assert order[..|order|] == order;
    PartWhole(metrics, metrics, Elements(order));
  }

  lemma {:induction false} GroupCodes(metrics: seq<Metric>, code: string)
    ensures forall k :: 0 <= k < |InGroup(metrics, code)| ==> InGroup(metrics, code)[k].code == code
  {
    if metrics != [] {
      GroupCodes(metrics[..|metrics| - 1], code);
    }
  }

  method RenameGroup(group: seq<Metric>, ghost all: seq<Metric>, ghost code: string) returns (renamed: seq<Metric>)
    requires group == InGroup(all, code)
    ensures renamed == RenameEach(all, group)
  {
    GroupCodes(all, code);
    if |group| == 1 {
      return group;
    }
    renamed := [];
    for i := 0 to |group|
      invariant renamed == RenameEach(all, group)[..i]
    {
      renamed := renamed + [group[i].(code := Suffixed(group[i]))];
    }
  }

  // ---------- when the codes come out distinct ----------

  lemma {:induction false} EmptyIff(metrics: seq<Metric>, code: string)
    ensures InGroup(metrics, code) == [] <==> forall j :: 0 <= j < |metrics| ==> metrics[j].code != code
  {
    if metrics != [] {
      var n := |metrics| - 1;
      EmptyIff(metrics[..n], code);
      assert forall j :: 0 <= j < n ==> metrics[..n][j] == metrics[j];
    }
  }

  ghost predicate OnlyAt(metrics: seq<Metric>, i: nat, code: string) {
    forall j :: 0 <= j < |metrics| && j != i ==> metrics[j].code != code
  }

  /** A group has one member exactly when no other position has its code. */
  lemma {:induction false} LoneIff(metrics: seq<Metric>, i: nat)
    requires i < |metrics|
    ensures |InGroup(metrics, metrics[i].code)| >= 1
    ensures |InGroup(metrics, metrics[i].code)| == 1 <==> OnlyAt(metrics, i, metrics[i].code)
  {
    var n := |metrics| - 1;
    var front := metrics[..n];
    var code := metrics[i].code;
    assert forall j :: 0 <= j < n ==> front[j] == metrics[j];
    assert |InGroup(metrics, code)| == |InGroup(front, code)| + if metrics[n].code == code then 1 else 0;
    if i < n {
      LoneIff(front, i);
      assert OnlyAt(metrics, i, code) <==> OnlyAt(front, i, code) && metrics[n].code != code;
    } else {
      EmptyIff(front, code);
    }
  }

  /** The suffix can be read off from the end, so it hides neither code nor row. */
  lemma {:induction false} SuffixInjective(a: Metric, b: Metric)
    requires Suffixed(a) == Suffixed(b)
    ensures a == b
  {
    var s, t := Decimal.OfNat(a.row), Decimal.OfNat(b.row);
    NotLonger(a.code, s, b.code, t);
    NotLonger(b.code, t, a.code, s);
    assert Suffixed(a)[|a.code| + 2..] == s && Suffixed(b)[|b.code| + 2..] == t;
    Decimal.NatInjective(a.row, b.row);
    assert Suffixed(a)[..|a.code|] == a.code && Suffixed(b)[..|b.code|] == b.code;
  }

  /** A longer run of digits would reach back to the 'R'. */
  lemma NotLonger(a: string, s: string, b: string, t: string)
    requires a + "_R" + s == b + "_R" + t && Decimal.AllDigits(t)
    ensures |s| >= |t|
  {
    var whole := a + "_R" + s;
    assert whole[|a| + 1] == 'R';
    if |s| < |t| {
    }
  }

  /** Metrics that share a code stand on different rows, and no lone code looks like a suffixed one. */
  ghost predicate Separable(metrics: seq<Metric>) {
    && (forall i, j :: 0 <= i < j < |metrics| && metrics[i].code == metrics[j].code ==>
         metrics[i].row != metrics[j].row)
    && (forall i, j :: 0 <= i < |metrics| && 0 <= j < |metrics| && i != j
          && |InGroup(metrics, metrics[i].code)| == 1 && |InGroup(metrics, metrics[j].code)| != 1
          ==> metrics[i].code != Suffixed(metrics[j]))
  }

  ghost predicate DistinctCodes(metrics: seq<Metric>) {
    forall i, j :: 0 <= i < j < |metrics| ==> metrics[i].code != metrics[j].code
  }

  /** The final codes are pairwise distinct exactly for separable metrics. */
  lemma DistinctIff(metrics: seq<Metric>)
    ensures DistinctCodes(RenameEach(metrics, metrics)) <==> Separable(metrics)
  {
    var r := RenameEach(metrics, metrics);
    if Separable(metrics) {
      forall i, j | 0 <= i < j < |metrics| ensures r[i].code != r[j].code {
        PairDistinct(metrics, i, j);
      }
    }
    if DistinctCodes(r) {
      forall i, j | 0 <= i < j < |metrics| && metrics[i].code == metrics[j].code
        ensures metrics[i].row != metrics[j].row {
        LoneIff(metrics, i);
        LoneIff(metrics, j);
      }
      forall i, j | 0 <= i < |metrics| && 0 <= j < |metrics| && i != j
          && |InGroup(metrics, metrics[i].code)| == 1 && |InGroup(metrics, metrics[j].code)| != 1
        ensures metrics[i].code != Suffixed(metrics[j])
      {
        assert r[i].code == metrics[i].code && r[j].code == Suffixed(metrics[j]);
      }
    }
  }

  lemma PairDistinct(metrics: seq<Metric>, i: nat, j: nat)
    requires i < j < |metrics| && Separable(metrics)
    ensures FinalCode(metrics, metrics[i]) != FinalCode(metrics, metrics[j])
  {
    LoneIff(metrics, i);
    LoneIff(metrics, j);
    if Suffixed(metrics[i]) == Suffixed(metrics[j]) {
      SuffixInjective(metrics[i], metrics[j]);
    }
  }

  /** What rows labelled "Total", "Total" and "Total R5" give. */
  const COLLIDING := [Metric("BPDS_E_G_TOTAL", 5), Metric("BPDS_E_G_TOTAL", 6), Metric("BPDS_E_G_TOTAL_R5", 7)]

  /** The disambiguation can fail: a lone code may be what another metric gets with its row number. */
  lemma SuffixCanCollide()
    ensures !DistinctCodes(RenameEach(COLLIDING, COLLIDING))
  {
    var metrics := COLLIDING;
    LoneIff(metrics, 0);
    LoneIff(metrics, 2);
    assert metrics[1].code == metrics[0].code;
    assert Decimal.OfNat(5) == "5" && "BPDS_E_G_TOTAL" + "_R" + "5" == "BPDS_E_G_TOTAL_R5";
    assert RenameEach(metrics, metrics)[0].code == RenameEach(metrics, metrics)[2].code;
  }
}
