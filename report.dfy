/** The views the export endpoint computes from a session's groups and
    verdicts: the rows it removes, the de-duplicated rows, the rows of the
    "Duplicates" sheet and the "Statistics" sheet. Writing the workbook is
    not modelled; each sheet is a value. */
module Report {
  import opened Types
  import opened Grouping
  import Text

  /** A group is confirmed when a verdict for it exists and is true; a group
      without a verdict counts as not confirmed. */
  predicate Confirmed(reviewed: map<GroupId, bool>, id: GroupId)
  {
    id in reviewed && reviewed[id]
  }

  /** All groups are well formed for n rows. */
  predicate AllWellFormed(groups: seq<DuplicateGroup>, n: nat)
  {
    forall k :: 0 <= k < |groups| ==> WellFormed(groups[k], n)
  }

  /** `s[1:]`, which is empty for an empty list. */
  function Rest(s: seq<nat>): (r: seq<nat>)
    ensures |s| > 0 ==> r == s[1..]
    ensures |s| == 0 ==> r == []
  {
    if |s| == 0 then [] else s[1..]
  }

  // ---------------------------------------------------------------------
  // Removed rows

  /** The rows the export drops: of every confirmed group, all members but
      the first. */
  function RemovedRows(groups: seq<DuplicateGroup>, reviewed: map<GroupId, bool>): (r: set<nat>)
    ensures (forall k :: 0 <= k < |groups| ==> !Confirmed(reviewed, groups[k].id)) ==> r == {}
    decreases |groups|
  {
    if |groups| == 0 then {}
    else
      var last := groups[|groups| - 1];
      assert forall k :: 0 <= k < |groups| - 1 ==> groups[..|groups| - 1][k] == groups[k];
      RemovedRows(groups[..|groups| - 1], reviewed)
        + (if Confirmed(reviewed, last.id) then Elements(Rest(Indices(last))) else {})
  }

  /** A row is removed exactly when it is a non-first member of some
      confirmed group. */
  lemma {:induction false} RemovedRowsMembers(groups: seq<DuplicateGroup>, reviewed: map<GroupId, bool>, x: nat)
    ensures x in RemovedRows(groups, reviewed) <==>
      exists k :: 0 <= k < |groups| && Confirmed(reviewed, groups[k].id) && x in Rest(Indices(groups[k]))
  {
    if |groups| > 0 {
      var init := groups[..|groups| - 1];
      RemovedRowsMembers(init, reviewed, x);
      assert forall k :: 0 <= k < |init| ==> init[k] == groups[k];
    }
  }

  /** Removed rows are rows of the upload. */
  lemma {:induction false} RemovedRowsInRange(groups: seq<DuplicateGroup>, reviewed: map<GroupId, bool>, n: nat)
    requires AllWellFormed(groups, n)
    ensures forall x :: x in RemovedRows(groups, reviewed) ==> x < n
  {
    forall x | x in RemovedRows(groups, reviewed) ensures x < n {
      RemovedRowsMembers(groups, reviewed, x);
      var k :| 0 <= k < |groups| && Confirmed(reviewed, groups[k].id) && x in Rest(Indices(groups[k]));
      var m :| 0 <= m < |Rest(Indices(groups[k]))| && Rest(Indices(groups[k]))[m] == x;
      assert x == Indices(groups[k])[m + 1];
    }
  }

  /** The first loop of the export: the union, over confirmed groups, of all
      members but the first. */
  method CollectRemoved(groups: seq<DuplicateGroup>, reviewed: map<GroupId, bool>) returns (removed: set<nat>)
    ensures removed == RemovedRows(groups, reviewed)
  {
    removed := {};
    for k := 0 to |groups|
      invariant removed == RemovedRows(groups[..k], reviewed)
    {
      var group := groups[k];
      var isConfirmed := if group.id in reviewed then reviewed[group.id] else false;
      if isConfirmed {
        var indices := Indices(group);
        removed := removed + Elements(Rest(indices));
      }
      assert groups[..k + 1][..k] == groups[..k];
    }
    assert groups[..|groups|] == groups;
  }

  // ---------------------------------------------------------------------
  // De-duplicated rows

  /** The positions below n that are not removed, in ascending order. */
  function Kept(n: nat, removed: set<nat>): (r: seq<nat>)
    ensures forall x: nat :: x in r <==> x < n && x !in removed
    ensures StrictlyIncreasing(r)
  {
    if n == 0 then []
    else
      var init := Kept(n - 1, removed);
      if n - 1 in removed then init
      else
        assert forall k :: 0 <= k < |init| ==> init[k] in init;
        init + [n - 1]
  }

  /** The removed rows below n. */
  function Below(removed: set<nat>, n: nat): set<nat>
  {
    set x | x in removed && x < n
  }

  /** Every position below n is either kept or removed, never both. */
  lemma {:induction false} KeptCount(n: nat, removed: set<nat>)
    ensures |Kept(n, removed)| + |Below(removed, n)| == n
  {
    if n > 0 {
      KeptCount(n - 1, removed);
      if n - 1 in removed {
        assert Below(removed, n) == Below(removed, n - 1) + {n - 1};
        assert Below(removed, n - 1) * {n - 1} == {};
      } else {
        assert Below(removed, n) == Below(removed, n - 1);
      }
    }
  }

  /** The rows left after dropping the removed positions, in their original
      order, renumbered from zero. */
  function Deduplicated(rows: seq<Row>, removed: set<nat>): (r: seq<Row>)
    ensures |r| <= |rows|
    ensures |r| + |Below(removed, |rows|)| == |rows|
  {
    var kept := Kept(|rows|, removed);
    KeptCount(|rows|, removed);
    assert forall k :: 0 <= k < |kept| ==> kept[k] in kept;
    seq(|kept|, k requires 0 <= k < |kept| => rows[kept[k]])
  }

  /** The de-duplicated rows are the original rows at the positions that are
      not removed, in original order: the k-th one is the row at the k-th such
      position. */
  lemma DeduplicatedRows(rows: seq<Row>, removed: set<nat>, k: nat)
    requires k < |Deduplicated(rows, removed)|
    ensures var p := Kept(|rows|, removed)[k];
      p < |rows| && p !in removed && Deduplicated(rows, removed)[k] == rows[p]
  {
    assert Kept(|rows|, removed)[k] in Kept(|rows|, removed);
  }

  /** Every row that is not removed survives, exactly once. */
  lemma DeduplicatedKeepsOthers(rows: seq<Row>, removed: set<nat>, p: nat)
    requires p < |rows| && p !in removed
    ensures exists k :: 0 <= k < |Deduplicated(rows, removed)| && Kept(|rows|, removed)[k] == p
  {
    assert p in Kept(|rows|, removed);
  }

  /** When every removed position is a row of the upload, the de-duplicated
      sheet is shorter than the original by exactly the number of removed
      rows. */
  lemma DeduplicatedCount(rows: seq<Row>, removed: set<nat>)
    requires forall x :: x in removed ==> x < |rows|
    ensures |rows| - |Deduplicated(rows, removed)| == |removed|
  {
    KeptCount(|rows|, removed);
    assert Below(removed, |rows|) == removed;
  }

  // ---------------------------------------------------------------------
  // The "Duplicates" sheet

  /** One row of the "Duplicates" sheet: the original row, its position, the
      position of its group's first member, whether it is that member, and
      the group's id. */
  datatype DuplicateRecord = DuplicateRecord(
    cells: Row,
    originalIndex: nat,
    canonicalIndex: nat,
    isCanonical: bool,
    groupId: GroupId)

  /** The records of one group, in group order. */
  function GroupRecords(rows: seq<Row>, g: DuplicateGroup): (r: seq<DuplicateRecord>)
    requires |g.rows| >= 1 && InRange(Indices(g), |rows|)
    ensures |r| == |g.rows|
    ensures forall m :: 0 <= m < |r| ==>
              r[m].originalIndex == Indices(g)[m] && r[m].cells == rows[Indices(g)[m]] &&
              r[m].canonicalIndex == Indices(g)[0] && r[m].groupId == g.id
    ensures Distinct(Indices(g)) ==> forall m :: 0 <= m < |r| ==> (r[m].isCanonical <==> m == 0)
  {
    var indices := Indices(g);
    seq(|indices|, m requires 0 <= m < |indices| =>
      DuplicateRecord(rows[indices[m]], indices[m], indices[0], indices[m] == indices[0], g.id))
  }

  /** The records of all confirmed groups, in group order. */
  function DuplicateRecords(rows: seq<Row>, groups: seq<DuplicateGroup>, reviewed: map<GroupId, bool>): (r: seq<DuplicateRecord>)
    requires AllWellFormed(groups, |rows|)
    ensures r == [] <==> forall k :: 0 <= k < |groups| ==> !Confirmed(reviewed, groups[k].id)
    decreases |groups|
  {
    if |groups| == 0 then []
    else
      var init := groups[..|groups| - 1];
      var last := groups[|groups| - 1];
      assert forall k :: 0 <= k < |init| ==> init[k] == groups[k];
      DuplicateRecords(rows, init, reviewed)
        + (if Confirmed(reviewed, last.id) then GroupRecords(rows, last) else [])
  }

  /** Every record on the Duplicates sheet belongs to a confirmed group: it
      carries that group's id and the position of one of its members. */
  lemma {:induction false} DuplicateRecordsConfirmed(rows: seq<Row>, groups: seq<DuplicateGroup>,
                                                     reviewed: map<GroupId, bool>, d: DuplicateRecord)
    requires AllWellFormed(groups, |rows|)
    requires d in DuplicateRecords(rows, groups, reviewed)
    ensures exists k :: 0 <= k < |groups| && Confirmed(reviewed, groups[k].id) &&
              d.groupId == groups[k].id && d.originalIndex in Indices(groups[k])
  {
    var init := groups[..|groups| - 1];
    var last := groups[|groups| - 1];
    assert forall k :: 0 <= k < |init| ==> init[k] == groups[k];
    if d in DuplicateRecords(rows, init, reviewed) {
      DuplicateRecordsConfirmed(rows, init, reviewed, d);
    } else {
      var added := GroupRecords(rows, last);
      var m :| 0 <= m < |added| && added[m] == d;
      assert d.originalIndex == Indices(last)[m];
    }
  }

  /** Groups whose ids carry no verdict remove no row and put no record on
      the Duplicates sheet. */
  lemma FreshGroupsUnconfirmed(rows: seq<Row>, groups: seq<DuplicateGroup>, reviewed: map<GroupId, bool>)
    requires AllWellFormed(groups, |rows|)
    requires forall k :: 0 <= k < |groups| ==> groups[k].id !in reviewed
    ensures RemovedRows(groups, reviewed) == {} && DuplicateRecords(rows, groups, reviewed) == []
  {
  }

  /** Groups just found: their ids are distinct and carry no verdict yet, so
      they remove no row and put no record on the Duplicates sheet. */
  predicate FreshGroups(rows: seq<Row>, groups: seq<DuplicateGroup>, reviewed: map<GroupId, bool>)
    requires AllWellFormed(groups, |rows|)
  {
    (forall a, b :: 0 <= a < b < |groups| ==> groups[a].id != groups[b].id) &&
    (forall k :: 0 <= k < |groups| ==> groups[k].id !in reviewed) &&
    RemovedRows(groups, reviewed) == {} && DuplicateRecords(rows, groups, reviewed) == []
  }

  /** Groups stored under distinct fresh ids have distinct ids, none of which
      carries a verdict yet. */
  lemma MaterializedFresh(rows: seq<Row>, sim: seq<seq<real>>, gs: seq<seq<nat>>, ids: seq<GroupId>,
                          reviewed: map<GroupId, bool>)
    requires IsSquare(sim, |rows|) && |ids| >= |gs|
    requires forall k :: 0 <= k < |gs| ==> InRange(gs[k], |rows|)
    requires AllWellFormed(Materialize(rows, sim, gs, ids), |rows|)
    requires Distinct(ids) && forall k :: 0 <= k < |ids| ==> ids[k] !in reviewed
    ensures FreshGroups(rows, Materialize(rows, sim, gs, ids), reviewed)
  {
    FreshGroupsUnconfirmed(rows, Materialize(rows, sim, gs, ids), reviewed);
  }

  /** The second loop of the export. */
  method BuildDuplicateRecords(rows: seq<Row>, groups: seq<DuplicateGroup>, reviewed: map<GroupId, bool>)
    returns (records: seq<DuplicateRecord>)
    requires AllWellFormed(groups, |rows|)
    ensures records == DuplicateRecords(rows, groups, reviewed)
  {
    records := [];
    for k := 0 to |groups|
      invariant AllWellFormed(groups[..k], |rows|)
      invariant records == DuplicateRecords(rows, groups[..k], reviewed)
    {
      assert groups[..k + 1][..k] == groups[..k];
      var group := groups[k];
      var isConfirmed := if group.id in reviewed then reviewed[group.id] else false;
      if isConfirmed {
        var indices := Indices(group);
        var canonical := indices[0];
        for m := 0 to |indices|
          invariant records == DuplicateRecords(rows, groups[..k], reviewed) + GroupRecords(rows, group)[..m]
        {
          var idx := indices[m];
          records := records + [DuplicateRecord(rows[idx], idx, canonical, idx == canonical, group.id)];
          assert GroupRecords(rows, group)[..m + 1] == GroupRecords(rows, group)[..m] + [GroupRecords(rows, group)[m]];
        }
        assert GroupRecords(rows, group)[..|indices|] == GroupRecords(rows, group);
      }
    }
    assert groups[..|groups|] == groups;
  }

  /** Within one group, the records not marked canonical are exactly those
      of the members after the first. */
  lemma GroupNonCanonical(rows: seq<Row>, g: DuplicateGroup, x: nat)
    requires WellFormed(g, |rows|)
    ensures x in Rest(Indices(g)) <==>
      exists d :: d in GroupRecords(rows, g) && !d.isCanonical && d.originalIndex == x
  {
    var records := GroupRecords(rows, g);
    var indices := Indices(g);
    if x in Rest(indices) {
      var m :| 0 <= m < |Rest(indices)| && Rest(indices)[m] == x;
      assert records[m + 1] in records;
    }
    if exists d :: d in records && !d.isCanonical && d.originalIndex == x {
      var d :| d in records && !d.isCanonical && d.originalIndex == x;
      var m :| 0 <= m < |records| && records[m] == d;
      assert x == Rest(indices)[m - 1];
    }
  }

  /** The rows the "Duplicates" sheet marks as not canonical are exactly the
      removed rows. */
  lemma {:induction false} NonCanonicalAreRemoved(rows: seq<Row>, groups: seq<DuplicateGroup>, reviewed: map<GroupId, bool>, x: nat)
    requires AllWellFormed(groups, |rows|)
    ensures x in RemovedRows(groups, reviewed) <==>
      exists d :: d in DuplicateRecords(rows, groups, reviewed) && !d.isCanonical && d.originalIndex == x
  {
    if |groups| > 0 {
      var init := groups[..|groups| - 1];
      var last := groups[|groups| - 1];
      assert forall k :: 0 <= k < |init| ==> init[k] == groups[k];
      NonCanonicalAreRemoved(rows, init, reviewed, x);
      if Confirmed(reviewed, last.id) {
        GroupNonCanonical(rows, last, x);
        var before := DuplicateRecords(rows, init, reviewed);
        var added := GroupRecords(rows, last);
        assert DuplicateRecords(rows, groups, reviewed) == before + added;
        assert forall d :: d in before + added <==> d in before || d in added;
      }
    }
  }

  // ---------------------------------------------------------------------
  // With groups from the grouping loop

  /** With a symmetric similarity matrix, of every confirmed group exactly its
      first member survives the de-duplication: the first member is never
      removed, and every other member is. */
  lemma ConfirmedGroupKeepsOnlyCanonical(rows: seq<Row>, sim: seq<seq<real>>, t: real, ids: seq<GroupId>,
                                         reviewed: map<GroupId, bool>, k: nat, m: nat)
    requires IsSquare(sim, |rows|) && Symmetric(sim) && |ids| >= |rows|
    requires k < |SeedGroups(sim, t)|
    requires Confirmed(reviewed, ids[k])
    requires m < |SeedGroups(sim, t)[k]|
    ensures SeedGroups(sim, t)[k][m] in RemovedRows(Materialize(rows, sim, SeedGroups(sim, t), ids), reviewed) <==> m > 0
  {
    MaterializedWellFormed(rows, sim, t, ids);
    var gs := SeedGroups(sim, t);
    var groups := Materialize(rows, sim, gs, ids);
    var x := gs[k][m];
    RemovedRowsMembers(groups, reviewed, x);
    GroupShape(sim, t, k);
    if m > 0 {
      assert x == Rest(Indices(groups[k]))[m - 1];
    } else {
      forall l | 0 <= l < |groups| && Confirmed(reviewed, groups[l].id) ensures x !in Rest(Indices(groups[l])) {
        if l == k {
          assert Rest(Indices(groups[k])) == gs[k][1..];
        } else {
          SeedInOwnGroupOnly(sim, t, k, l);
          assert forall y :: y in gs[l][1..] ==> y in gs[l];
        }
      }
    }
  }

  // ---------------------------------------------------------------------
  // The "Statistics" sheet

  /** The number of verdicts equal to v. */
  function CountVerdicts(reviewed: map<GroupId, bool>, v: bool): (r: nat)
    ensures r <= |reviewed|
  {
    var ids := set id | id in reviewed && reviewed[id] == v;
    var others := set id | id in reviewed && reviewed[id] != v;
    assert ids + others == reviewed.Keys;
    assert ids * others == {};
    |ids|
  }

  /** Every verdict is either true or false. */
  lemma VerdictCounts(reviewed: map<GroupId, bool>)
    ensures CountVerdicts(reviewed, true) + CountVerdicts(reviewed, false) == |reviewed|
  {
    var yes := set id | id in reviewed && reviewed[id] == true;
    var no := set id | id in reviewed && reviewed[id] == false;
    assert yes + no == reviewed.Keys;
    assert yes * no == {};
  }

  /** The number of rows over all groups, counted once per group. */
  function TotalRows(groups: seq<DuplicateGroup>): (r: nat)
    ensures |groups| == 0 ==> r == 0
    ensures forall k :: 0 <= k < |groups| ==> |groups[k].rows| <= r
    decreases |groups|
  {
    if |groups| == 0 then 0
    else
      assert forall k :: 0 <= k < |groups| - 1 ==> groups[..|groups| - 1][k] == groups[k];
      TotalRows(groups[..|groups| - 1]) + |groups[|groups| - 1].rows|
  }

  /** Every group holds at least two rows. */
  lemma {:induction false} TotalRowsAtLeastTwice(groups: seq<DuplicateGroup>, n: nat)
    requires AllWellFormed(groups, n)
    ensures TotalRows(groups) >= 2 * |groups|
  {
    if |groups| > 0 {
      TotalRowsAtLeastTwice(groups[..|groups| - 1], n);
    }
  }

  /** Over the confirmed groups, the members that are not first. */
  function ConfirmedSurplus(groups: seq<DuplicateGroup>, reviewed: map<GroupId, bool>): nat
    decreases |groups|
  {
    if |groups| == 0 then 0
    else
      var last := groups[|groups| - 1];
      ConfirmedSurplus(groups[..|groups| - 1], reviewed)
        + (if Confirmed(reviewed, last.id) then |Rest(Indices(last))| else 0)
  }

  lemma {:induction false} ElementsAtMostLength(s: seq<nat>)
    ensures |Elements(s)| <= |s|
  {
    if |s| > 0 {
      ElementsAtMostLength(s[..|s| - 1]);
      assert Elements(s) == Elements(s[..|s| - 1]) + {s[|s| - 1]};
    }
  }

  /** Rows that several confirmed groups share are removed once, so the
      number of removed rows is at most the confirmed groups' sizes less one
      each. */
  lemma {:induction false} RemovedAtMostSurplus(groups: seq<DuplicateGroup>, reviewed: map<GroupId, bool>)
    ensures |RemovedRows(groups, reviewed)| <= ConfirmedSurplus(groups, reviewed)
  {
    if |groups| > 0 {
      var last := groups[|groups| - 1];
      RemovedAtMostSurplus(groups[..|groups| - 1], reviewed);
      ElementsAtMostLength(Rest(Indices(last)));
    }
  }

  /** The twelve figures of the "Statistics" sheet, in sheet order. */
  datatype Statistics = Statistics(
    originalRowCount: nat,
    deduplicatedRowCount: nat,
    rowsRemoved: nat,
    groupsIdentified: nat,
    groupsReviewed: nat,
    groupsConfirmed: nat,
    groupsRejected: nat,
    groupsPending: int,
    rowsInGroups: nat,
    confirmedRowsRemoved: nat,
    threshold: real,
    columnsAnalyzed: string)

  function ComputeStatistics(rows: seq<Row>, groups: seq<DuplicateGroup>, reviewed: map<GroupId, bool>,
                             threshold: real, columns: seq<string>): (s: Statistics)
    requires AllWellFormed(groups, |rows|)
    ensures s.originalRowCount == |rows|
    ensures s.rowsRemoved == |RemovedRows(groups, reviewed)| == s.confirmedRowsRemoved
    ensures s.originalRowCount - s.deduplicatedRowCount == s.rowsRemoved
    ensures s.rowsRemoved <= ConfirmedSurplus(groups, reviewed)
    ensures s.groupsIdentified == |groups| && s.groupsReviewed == |reviewed|
    ensures s.groupsConfirmed + s.groupsRejected == s.groupsReviewed
    ensures s.groupsPending == s.groupsIdentified - s.groupsReviewed
    ensures s.rowsInGroups >= 2 * s.groupsIdentified
  {
    var removed := RemovedRows(groups, reviewed);
    RemovedRowsInRange(groups, reviewed, |rows|);
    DeduplicatedCount(rows, removed);
    RemovedAtMostSurplus(groups, reviewed);
    VerdictCounts(reviewed);
    TotalRowsAtLeastTwice(groups, |rows|);
    Statistics(
      |rows|,
      |Deduplicated(rows, removed)|,
      |removed|,
      |groups|,
      |reviewed|,
      CountVerdicts(reviewed, true),
      CountVerdicts(reviewed, false),
      |groups| - |reviewed|,
      TotalRows(groups),
      |removed|,
      threshold,
      Text.Join(", ", columns))
  }

  // ---------------------------------------------------------------------
  // The workbook

  /** The "Duplicates" sheet: the records, or a placeholder sheet when no
      group is confirmed. */
  datatype DuplicatesSheet = Records(records: seq<DuplicateRecord>) | NoConfirmedDuplicates

  datatype Workbook = Workbook(
    fileName: string,
    original: seq<Row>,
    deduplicated: seq<Row>,
    duplicates: DuplicatesSheet,
    statistics: Statistics)

  /** The position of the last '.' in s, or -1 when there is none. */
  function LastDot(s: string): (r: int)
    ensures -1 <= r < |s|
    ensures r >= 0 ==> s[r] == '.'
    ensures forall p :: r < p < |s| ==> s[p] != '.'
  {
    if |s| == 0 then -1
    else if s[|s| - 1] == '.' then |s| - 1
    else
      var init := s[..|s| - 1];
      var r := LastDot(init);
      assert forall p :: r < p < |s| - 1 ==> s[p] == init[p];
      r
  }

  /** The file name without its last extension; a leading or trailing dot
      does not start an extension. */
  function Stem(name: string): (r: string)
    ensures |r| <= |name| && r == name[..|r|]
    ensures r != name ==> 0 < |r| < |name| - 1 && name[|r|] == '.' && '.' !in name[|r| + 1..]
  {
    var i := LastDot(name);
    if 0 < i < |name| - 1 then name[..i] else name
  }

  /** Stripping an extension from a name that has one gives back the name. */
  lemma StemDropsExtension(base: string, ext: string)
    requires |base| > 0 && |ext| > 0 && '.' !in ext
    ensures Stem(base + "." + ext) == base
  {
    var name := base + "." + ext;
    assert name[|base|] == '.';
    assert forall p :: |base| < p < |name| ==> name[p] == ext[p - |base| - 1];
    assert name[..|base|] == base;
  }

  /** The name of the exported workbook. */
  function ReportFileName(uploaded: string): (r: string)
    ensures |r| >= 22 && r[|r| - 22..] == "_duplicate_report.xlsx"
    ensures |r| - 22 <= |uploaded| && r[..|r| - 22] == uploaded[..|r| - 22]
  {
    Stem(uploaded) + "_duplicate_report.xlsx"
  }

  /** A report for an upload "x.csv" is named "x_duplicate_report.xlsx". */
  lemma ReportFileNameOfUpload(base: string, ext: string)
    requires |base| > 0 && |ext| > 0 && '.' !in ext
    ensures ReportFileName(base + "." + ext) == base + "_duplicate_report.xlsx"
  {
    StemDropsExtension(base, ext);
  }

  /** The workbook the export endpoint writes. */
  function ExportWorkbook(fileName: string, rows: seq<Row>, groups: seq<DuplicateGroup>, reviewed: map<GroupId, bool>,
                          threshold: real, columns: seq<string>): (w: Workbook)
    requires AllWellFormed(groups, |rows|)
    ensures w.original == rows
    ensures w.deduplicated == Deduplicated(rows, RemovedRows(groups, reviewed))
    ensures w.duplicates == NoConfirmedDuplicates <==>
              forall k :: 0 <= k < |groups| ==> !Confirmed(reviewed, groups[k].id)
    ensures w.statistics.deduplicatedRowCount == |w.deduplicated|
  {
    var removed := RemovedRows(groups, reviewed);
    var records := DuplicateRecords(rows, groups, reviewed);
    Workbook(
      ReportFileName(fileName),
      rows,
      Deduplicated(rows, removed),
      if |records| > 0 then Records(records) else NoConfirmedDuplicates,
      ComputeStatistics(rows, groups, reviewed, threshold, columns))
  }

  // ---------------------------------------------------------------------
  // Overlapping groups

  /** The chain example: rows 0 ~ 1 ~ 2 with 0 and 2 apart give the groups
      [0, 1] and [2, 1]. Confirming both removes row 1 only, so one row is
      removed although the groups' sizes less one add up to two. */
  lemma OverlapRemovesSharedRowOnce()
    ensures var groups := [
        DuplicateGroup(10, [GroupRow(map[], 0, map[]), GroupRow(map[], 1, map[])]),
        DuplicateGroup(11, [GroupRow(map[], 2, map[]), GroupRow(map[], 1, map[])])];
      var reviewed := map[10 := true, 11 := true];
      RemovedRows(groups, reviewed) == {1} && ConfirmedSurplus(groups, reviewed) == 2
  {
    var groups := [
      DuplicateGroup(10, [GroupRow(map[], 0, map[]), GroupRow(map[], 1, map[])]),
      DuplicateGroup(11, [GroupRow(map[], 2, map[]), GroupRow(map[], 1, map[])])];
    var reviewed := map[10 := true, 11 := true];
    assert Indices(groups[0]) == [0, 1];
    assert Indices(groups[1]) == [2, 1];
    assert groups[..1] == [groups[0]];
    assert groups[..1][..0] == [];
    assert Elements([1]) == {1};
  }
}
