/**
 The row loop over one sheet of the BP datasheet: headers set groups, a depth-indexed table holds the
 labels that may become parents, and every data row gets a path. The table is compared with a plain
 backward scan over the rows.
 */
module DatasheetRows {
  import opened Prelude

  datatype Row = Row(labelText: string, depth: nat, isHeader: bool, hasValues: bool)

  // ---------- backward scans ----------

  predicate TopHeader(row: Row) {
    row.isHeader && row.depth == 0
  }

  /** The latest row before `i`, since the last depth-0 header, whose depth is smaller than `d`. */
  function NearestShallower(rows: seq<Row>, i: nat, d: nat): (j: Option<nat>)
    requires i <= |rows|
    ensures j.Some? ==> j.value < i && rows[j.value].depth < d
  {
    if i == 0 || TopHeader(rows[i - 1]) then None
    else if rows[i - 1].depth < d then Some(i - 1)
    else NearestShallower(rows, i - 1, d)
  }

  /** Row `k` is shallower than `d`, and from it up to `i` there is no depth-0 header. */
  ghost predicate Eligible(rows: seq<Row>, i: nat, d: nat, k: nat) {
    && i <= |rows|
    && k < i && rows[k].depth < d && forall h :: k <= h < i ==> !TopHeader(rows[h])
  }

  /** The scan finds the last eligible row if there is any. */
  lemma {:induction false} NearestIsLast(rows: seq<Row>, i: nat, d: nat, k: nat)
    requires i <= |rows| && Eligible(rows, i, d, k)
    ensures NearestShallower(rows, i, d).Some?
    ensures k <= NearestShallower(rows, i, d).value && Eligible(rows, i, d, NearestShallower(rows, i, d).value)
  {
    assert !TopHeader(rows[i - 1]);
    if rows[i - 1].depth >= d {
      NearestIsLast(rows, i - 1, d, k);
    }
  }

  lemma {:induction false} NearestIsEligible(rows: seq<Row>, i: nat, d: nat)
    requires i <= |rows| && NearestShallower(rows, i, d).Some?
    ensures Eligible(rows, i, d, NearestShallower(rows, i, d).value)
  {
    if rows[i - 1].depth >= d {
      NearestIsEligible(rows, i - 1, d);
    }
  }

  /** The scan answers with the latest of the eligible rows, and with none exactly when there is none. */
  lemma ScanMeaning(rows: seq<Row>, i: nat, d: nat)
    requires i <= |rows|
    ensures match NearestShallower(rows, i, d)
            case Some(j) => Eligible(rows, i, d, j) && forall k: nat :: Eligible(rows, i, d, k) ==> k <= j
            case None => forall k: nat :: !Eligible(rows, i, d, k)
  {
    if NearestShallower(rows, i, d).Some? {
      NearestIsEligible(rows, i, d);
    }
    forall k: nat | Eligible(rows, i, d, k)
      ensures NearestShallower(rows, i, d).Some? && k <= NearestShallower(rows, i, d).value {
      NearestIsLast(rows, i, d, k);
    }
  }

  /** The latest row before `i` at depth `d`, unless a shallower row or a depth-0 header came after it. */
  function StillOpen(rows: seq<Row>, i: nat, d: nat): (j: Option<nat>)
    requires i <= |rows|
    ensures j.Some? ==> j.value < i && rows[j.value].depth == d
  {
    if i == 0 || TopHeader(rows[i - 1]) || rows[i - 1].depth < d then None
    else if rows[i - 1].depth == d then Some(i - 1)
    else StillOpen(rows, i - 1, d)
  }

  /** The nearest shallower row is still open at its own depth. */
  lemma {:induction false} NearestIsOpen(rows: seq<Row>, i: nat, d: nat)
    requires i <= |rows| && NearestShallower(rows, i, d).Some?
    ensures StillOpen(rows, i, rows[NearestShallower(rows, i, d).value].depth) == NearestShallower(rows, i, d)
  {
    if rows[i - 1].depth >= d {
      NearestIsOpen(rows, i - 1, d);
    }
  }

  /** No open row above depth `d` is deeper than the nearest shallower one. */
  lemma {:induction false} NearestIsDeepest(rows: seq<Row>, i: nat, d: nat, k: nat)
    requires i <= |rows| && k < d && StillOpen(rows, i, k).Some?
    ensures NearestShallower(rows, i, d).Some? && k <= rows[NearestShallower(rows, i, d).value].depth
  {
    if rows[i - 1].depth != k && rows[i - 1].depth >= d {
      NearestIsDeepest(rows, i - 1, d, k);
    }
  }

  /** The parent table after the rows before `i`. */
  ghost predicate TableHolds(rows: seq<Row>, i: nat, parents: map<nat, string>) {
    && i <= |rows|
    && (forall d: nat :: d in parents <==> StillOpen(rows, i, d).Some?)
    && (forall d: nat :: d in parents && StillOpen(rows, i, d).Some? ==>
         parents[d] == rows[StillOpen(rows, i, d).value].labelText)
  }

  /** Nothing in the table is deeper than the row just processed. */
  lemma NoDeeperKey(rows: seq<Row>, i: nat, parents: map<nat, string>)
    requires 0 < i <= |rows| && TableHolds(rows, i, parents)
    ensures forall d :: d in parents ==> d <= rows[i - 1].depth
    ensures TopHeader(rows[i - 1]) ==> parents == map[]
  {
  }

  // ---------- the table ----------

  function DropDeeper(parents: map<nat, string>, depth: nat): map<nat, string> {
    map d | d in parents && d <= depth :: parents[d]
  }

  /** Searches upwards from depth `d`. */
  method FindParent(parents: map<nat, string>, d: nat) returns (parent: Option<string>)
    ensures match parent
            case None => forall k :: 0 <= k < d ==> k !in parents
            case Some(l) =>
                exists k :: 0 <= k < d && k in parents && parents[k] == l && forall m :: k < m < d ==> m !in parents
  {
    var depth := d;
    while depth > 0
      invariant depth <= d && forall m :: depth <= m < d ==> m !in parents
    {
      depth := depth - 1;
      if depth in parents {
        return Some(parents[depth]);
      }
    }
    parent := None;
  }

  function ParentLabel(rows: seq<Row>, i: nat, d: nat): Option<string>
    requires i <= |rows|
  {
    match NearestShallower(rows, i, d)
    case Some(j) => Some(rows[j].labelText)
    case None => None
  }

  /** What the search finds in the table is what the backward scan finds in the rows. */
  lemma TableRefinesScan(rows: seq<Row>, i: nat, parents: map<nat, string>, d: nat, parent: Option<string>)
    requires i <= |rows| && TableHolds(rows, i, parents)
    requires match parent
             case None => forall k :: 0 <= k < d ==> k !in parents
             case Some(l) =>
                 exists k :: 0 <= k < d && k in parents && parents[k] == l && forall m :: k < m < d ==> m !in parents
    ensures parent == ParentLabel(rows, i, d)
  {
    var n := NearestShallower(rows, i, d);
    if n.Some? {
      NearestIsOpen(rows, i, d);
      assert rows[n.value].depth in parents;
    }
    if parent.Some? {
      var k :| 0 <= k < d && k in parents && parents[k] == parent.value && forall m :: k < m < d ==> m !in parents;
      NearestIsDeepest(rows, i, d, k);
    }
  }

  lemma TableAfter(rows: seq<Row>, i: nat, parents: map<nat, string>)
    requires i < |rows| && TableHolds(rows, i, parents)
    ensures TopHeader(rows[i]) ==> TableHolds(rows, i + 1, map[])
    ensures !TopHeader(rows[i]) ==>
            TableHolds(rows, i + 1, DropDeeper(parents[rows[i].depth := rows[i].labelText], rows[i].depth))
    ensures !TopHeader(rows[i]) && rows[i].depth == 0 ==> TableHolds(rows, i + 1, map[0 := rows[i].labelText])
  {
  }

  // ---------- groups ----------

  /** Depth of the first data row from `i` on, 0 if there is none. */
  function NextDataDepth(rows: seq<Row>, i: nat): nat
    requires i <= |rows|
    decreases |rows| - i
  {
    if i == |rows| then 0 else if rows[i].isHeader then NextDataDepth(rows, i + 1) else rows[i].depth
  }

  /** A depth-0 header names a subgroup when a group is set, deeper data follow, and it is not that group again. */
  predicate NamesSubgroup(rows: seq<Row>, i: nat, major: Option<string>)
    requires i < |rows|
  {
    TopHeader(rows[i]) && major.Some? && NextDataDepth(rows, i + 1) > 0 && rows[i].labelText != major.value
  }

  /** The group in force before row `i`. */
  function Major(rows: seq<Row>, i: nat): Option<string>
    requires i <= |rows|
  {
    if i == 0 then None
    else
      var before := Major(rows, i - 1);
      if TopHeader(rows[i - 1]) then if NamesSubgroup(rows, i - 1, before) then before else Some(rows[i - 1].labelText)
      else if !rows[i - 1].isHeader && before.None? then Some(rows[i - 1].labelText)
      else before
  }

  /** The latest depth-0 row before `i`. */
  function LatestTop(rows: seq<Row>, i: nat): (j: Option<nat>)
    requires i <= |rows|
    ensures j.Some? ==> j.value < i && rows[j.value].depth == 0
    ensures forall k :: (if j.Some? then j.value else -1) < k < i ==> rows[k].depth > 0
  {
    if i == 0 then None else if rows[i - 1].depth == 0 then Some(i - 1) else LatestTop(rows, i - 1)
  }

  /** The subgroup in force before row `i`: the latest depth-0 row, if that is a header naming one. */
  function Subgroup(rows: seq<Row>, i: nat): Option<string>
    requires i <= |rows|
  {
    match LatestTop(rows, i)
    case Some(j) => if NamesSubgroup(rows, j, Major(rows, j)) then Some(rows[j].labelText) else None
    case None => None
  }

  // ---------- paths ----------

  /** The path of a data row, from the groups in force and the nearest shallower row. */
  function PathOf(rows: seq<Row>, i: nat, section: string): seq<string>
    requires i < |rows| && !rows[i].isHeader
  {
    var row, sub := rows[i], Subgroup(rows, i);
    var major := match Major(rows, i) case Some(m) => m case None => row.labelText;
    var parent := ParentLabel(rows, i, row.depth);
    if row.depth == 0 then [section, major] + if major != row.labelText then [row.labelText] else []
    else
      [section, major]
      + (if sub.Some? && sub.value != "" then [sub.value] else [])
      + (if parent.Some? && parent.value != "" && parent.value != major && parent != sub then [parent.value] else [])
      + [row.labelText]
  }

  datatype Metric = Metric(row: nat, path: seq<string>)

  /** The rows that become metrics, in order, with their paths. */
  function Metrics(rows: seq<Row>, i: nat, section: string): seq<Metric>
    requires i <= |rows|
  {
    if i == 0 then []
    else
      Metrics(rows, i - 1, section) +
      if !rows[i - 1].isHeader && rows[i - 1].hasValues then [Metric(i - 1, PathOf(rows, i - 1, section))] else []
  }

  /** What the loop variables hold before row `i`. */
  ghost predicate AtRow(rows: seq<Row>, i: nat, major: Option<string>, sub: Option<string>, parents: map<nat, string>) {
    && i <= |rows|
    && major == Major(rows, i) && sub == Subgroup(rows, i) && TableHolds(rows, i, parents)
  }

  method HeaderRow(rows: seq<Row>, index: nat, majorGroup: Option<string>, subgroup: Option<string>,
                   parentLabels: map<nat, string>)
    returns (major: Option<string>, sub: Option<string>, parents: map<nat, string>)
    requires index < |rows| && rows[index].isHeader && AtRow(rows, index, majorGroup, subgroup, parentLabels)
    ensures AtRow(rows, index + 1, major, sub, parents)
  {
    var row := rows[index];
    major, sub := majorGroup, subgroup;
    TableAfter(rows, index, parentLabels);
    if row.depth == 0 {
      if majorGroup.Some? && NextDataDepth(rows, index + 1) > 0 && row.labelText != majorGroup.value {
        sub := Some(row.labelText);
      } else {
        major := Some(row.labelText);
        sub := None;
      }
      parents := map[];
    } else {
      parents := DropDeeper(parentLabels[row.depth := row.labelText], row.depth);
    }
  }

  method DataRow(rows: seq<Row>, index: nat, section: string,
                 majorGroup: Option<string>, subgroup: Option<string>, parentLabels: map<nat, string>)
    returns (major: Option<string>, sub: Option<string>, parents: map<nat, string>, path: seq<string>)
    requires index < |rows| && !rows[index].isHeader && AtRow(rows, index, majorGroup, subgroup, parentLabels)
    ensures AtRow(rows, index + 1, major, sub, parents)
    ensures path == PathOf(rows, index, section)
  {
    var row := rows[index];
    major, sub := majorGroup, subgroup;
    TableAfter(rows, index, parentLabels);
    if major.None? {
      major := Some(row.labelText);
    }
    path := [section, major.value];
    if row.depth == 0 {
      sub := None;
      parents := map[0 := row.labelText];
      if major.value != row.labelText {
        path := path + [row.labelText];
      }
    } else {
      var parent := FindParent(parentLabels, row.depth);
      TableRefinesScan(rows, index, parentLabels, row.depth, parent);
      if sub.Some? && sub.value != "" {
        path := path + [sub.value];
      }
      if parent.Some? && parent.value != "" && parent.value != major.value && parent != sub {
        path := path + [parent.value];
      }
      path := path + [row.labelText];
      parents := DropDeeper(parentLabels[row.depth := row.labelText], row.depth);
    }
  }

  method ParseRows(rows: seq<Row>, section: string) returns (metrics: seq<Metric>)
    ensures metrics == Metrics(rows, |rows|, section)
  {
    metrics := [];
    var majorGroup: Option<string>, subgroup: Option<string> := None, None;
    var parentLabels: map<nat, string> := map[];
    for index := 0 to |rows|
      invariant metrics == Metrics(rows, index, section)
      invariant AtRow(rows, index, majorGroup, subgroup, parentLabels)
    {
      if rows[index].isHeader {
        majorGroup, subgroup, parentLabels := HeaderRow(rows, index, majorGroup, subgroup, parentLabels);
        continue;
      }
      var path;
      majorGroup, subgroup, parentLabels, path := DataRow(rows, index, section, majorGroup, subgroup, parentLabels);
      if !rows[index].hasValues {
        continue;
      }
      metrics := metrics + [Metric(index, path)];
    }
  }

  // ---------- told by the rows ----------

  /** The row whose label a deeper row is placed under: the latest shallower one since the last depth-0 header. */
  ghost predicate IsParent(rows: seq<Row>, i: nat, k: nat) {
    && k < i < |rows| && rows[k].depth < rows[i].depth
    && (forall h :: k <= h < i ==> !(rows[h].isHeader && rows[h].depth == 0))
    && (forall h :: k < h < i ==> rows[h].depth >= rows[i].depth)
  }

  lemma ParentScanned(rows: seq<Row>, i: nat, k: nat)
    requires IsParent(rows, i, k)
    ensures NearestShallower(rows, i, rows[i].depth) == Some(k)
  {
    ScanMeaning(rows, i, rows[i].depth);
    assert Eligible(rows, i, rows[i].depth, k);
  }

  /** The parts of a path that come from groups. */
  function Groups(rows: seq<Row>, i: nat, section: string): seq<string>
    requires i < |rows|
  {
    [section, match Major(rows, i) case Some(m) => m case None => rows[i].labelText] +
    match Subgroup(rows, i) case Some(s) => if s == "" then [] else [s] case None => []
  }

  /**
   The path of a deeper row ends in its own label; before that comes the label of the row it stands under, unless that
   is empty or already stands for one of the groups.
   */
  lemma DeeperPath(rows: seq<Row>, i: nat, k: nat, section: string)
    requires IsParent(rows, i, k) && !rows[i].isHeader
    ensures var groups, parent := Groups(rows, i, section), rows[k].labelText;
            PathOf(rows, i, section) ==
            if parent == "" || parent in groups[1..] then groups + [rows[i].labelText]
            else groups + [parent, rows[i].labelText]
  {
    ParentScanned(rows, i, k);
    var major := match Major(rows, i) case Some(m) => m case None => rows[i].labelText;
    var sub := match Subgroup(rows, i) case Some(s) => if s == "" then [] else [s] case None => [];
    assert Groups(rows, i, section)[1..] == [major] + sub;
    assert Groups(rows, i, section) + [rows[k].labelText] + [rows[i].labelText] ==
           Groups(rows, i, section) + [rows[k].labelText, rows[i].labelText];
  }

  /** A row at depth 0 stands directly in its group, and is the group if none is set. */
  lemma TopPath(rows: seq<Row>, i: nat, section: string)
    requires i < |rows| && !rows[i].isHeader && rows[i].depth == 0
    ensures PathOf(rows, i, section) ==
            match Major(rows, i)
            case Some(m) => if m == rows[i].labelText then [section, m] else [section, m, rows[i].labelText]
            case None => [section, rows[i].labelText]
  {
  }

  /** The row that a group in force goes back to. */
  lemma {:induction false} MajorIsLabel(rows: seq<Row>, i: nat) returns (k: nat)
    requires i <= |rows| && Major(rows, i).Some?
    ensures k < i && rows[k].labelText == Major(rows, i).value
    ensures TopHeader(rows[k]) || (!rows[k].isHeader && Major(rows, k) == None)
    ensures forall h :: k < h < i && TopHeader(rows[h]) ==> NamesSubgroup(rows, h, Major(rows, i))
  {
    var before := Major(rows, i - 1);
    if TopHeader(rows[i - 1]) && !NamesSubgroup(rows, i - 1, before) {
      k := i - 1;
    } else if before == None {
      k := i - 1;
    } else {
      k := MajorIsLabel(rows, i - 1);
    }
  }

  lemma {:induction false} NextDataRow(rows: seq<Row>, i: nat, k: nat)
    requires i <= k < |rows| && !rows[k].isHeader && forall h :: i <= h < k ==> rows[h].isHeader
    ensures NextDataDepth(rows, i) == rows[k].depth
    decreases k - i
  {
    if i < k {
      NextDataRow(rows, i + 1, k);
    }
  }

  lemma {:induction false} NextDataExists(rows: seq<Row>, i: nat) returns (k: nat)
    requires i <= |rows| && NextDataDepth(rows, i) > 0
    ensures i <= k < |rows| && !rows[k].isHeader && rows[k].depth > 0 && forall h :: i <= h < k ==> rows[h].isHeader
    decreases |rows| - i
  {
    k := i;
    if rows[i].isHeader {
      k := NextDataExists(rows, i + 1);
    }
  }

  /** A depth-0 header names a subgroup if a group is set, with another label, and the next data row is deeper. */
  lemma NamesSubgroupIff(rows: seq<Row>, i: nat, major: Option<string>)
    requires i < |rows|
    ensures NamesSubgroup(rows, i, major) <==>
            && rows[i].isHeader && rows[i].depth == 0 && major.Some? && rows[i].labelText != major.value
            && exists k :: i < k < |rows| && !rows[k].isHeader && rows[k].depth > 0 &&
                           forall h :: i < h < k ==> rows[h].isHeader
  {
    if NextDataDepth(rows, i + 1) > 0 {
      var k := NextDataExists(rows, i + 1);
    }
    if k :| i < k < |rows| && !rows[k].isHeader && rows[k].depth > 0 && forall h :: i < h < k ==> rows[h].isHeader {
      NextDataRow(rows, i + 1, k);
    }
  }

  /** The subgroup in force is the label of the latest depth-0 row, if that is a header that names one. */
  lemma SubgroupIff(rows: seq<Row>, i: nat, sub: string)
    requires i <= |rows|
    ensures Subgroup(rows, i) == Some(sub) <==>
            exists j: nat :: j < i && rows[j].depth == 0 && (forall h :: j < h < i ==> rows[h].depth > 0) &&
                             NamesSubgroup(rows, j, Major(rows, j)) && rows[j].labelText == sub
  {
    if j: nat :| j < i && rows[j].depth == 0 && (forall h :: j < h < i ==> rows[h].depth > 0) &&
                 NamesSubgroup(rows, j, Major(rows, j)) && rows[j].labelText == sub {
      assert LatestTop(rows, i) == Some(j);
    }
  }

  /** The metric is a data row with values among the first `i`, with that row's path. */
  predicate IsMetric(rows: seq<Row>, i: nat, section: string, m: Metric)
    requires i <= |rows|
  {
    m.row < i && !rows[m.row].isHeader && rows[m.row].hasValues && m.path == PathOf(rows, m.row, section)
  }

  /** All of them are listed, and no other. */
  lemma {:induction false} MetricsAreDataRows(rows: seq<Row>, i: nat, section: string, m: Metric)
    requires i <= |rows|
    ensures m in Metrics(rows, i, section) <==> IsMetric(rows, i, section, m)
  {
    if i > 0 {
      MetricsAreDataRows(rows, i - 1, section, m);
    }
  }

  /** Each once, in the order of the rows. */
  lemma {:induction false} MetricsInOrder(rows: seq<Row>, i: nat, section: string, a: nat, b: nat)
    requires i <= |rows| && a < b < |Metrics(rows, i, section)|
    ensures Metrics(rows, i, section)[a].row < Metrics(rows, i, section)[b].row
  {
    var before := Metrics(rows, i - 1, section);
    if b < |before| {
      MetricsInOrder(rows, i - 1, section, a, b);
    } else {
      MetricsAreDataRows(rows, i - 1, section, before[a]);
    }
  }
}
