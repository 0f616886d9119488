/** The grouping step of the analyze endpoint. Rows are visited in ascending
    order; a row not yet placed in a group that has at least one other row at
    or above the threshold becomes the seed of a new group made of itself
    followed by all those rows. Members other than the seed are not checked
    against the rows already placed, so groups may overlap. This is a greedy,
    seed-based grouping, not a connected-components clustering. */
module Grouping {
  import opened Types

  /** An n-by-n matrix of pairwise similarities (the cosine similarity of the
      rows' embeddings, computed outside this model). */
  predicate IsSquare(sim: seq<seq<real>>, n: nat)
  {
    |sim| == n && forall i :: 0 <= i < n ==> |sim[i]| == n
  }

  predicate Symmetric(sim: seq<seq<real>>)
    requires IsSquare(sim, |sim|)
  {
    forall i, j :: 0 <= i < |sim| && 0 <= j < |sim| ==> sim[i][j] == sim[j][i]
  }

  /** The positions j >= from of `row` other than i whose score reaches t, in
      ascending order. */
  function Matches(row: seq<real>, t: real, i: nat, from: nat): (r: seq<nat>)
    ensures forall x :: x in r <==> from <= x < |row| && x != i && row[x] >= t
    ensures StrictlyIncreasing(r)
    decreases |row| - from
  {
    if from >= |row| then []
    else
      var rest := Matches(row, t, i, from + 1);
      if from != i && row[from] >= t then
        assert forall k :: 0 <= k < |rest| ==> rest[k] in rest;
        [from] + rest
      else rest
  }

  /** The rows other than i at or above the threshold against row i. */
  function Similar(sim: seq<seq<real>>, t: real, i: nat): seq<nat>
    requires i < |sim|
  {
    Matches(sim[i], t, i, 0)
  }

  /** Row i has some other row at or above the threshold. */
  predicate HasMatch(sim: seq<seq<real>>, t: real, i: nat)
    requires IsSquare(sim, |sim|) && i < |sim|
  {
    exists j :: 0 <= j < |sim| && j != i && sim[i][j] >= t
  }

  /** The rows that occur in some group. */
  function Members(gs: seq<seq<nat>>): set<nat>
  {
    set g, x | g in gs && x in g :: x
  }

  /** The state of the grouping loop: the groups built so far, each listing
      its seed first, and the set of rows already placed in a group. */
  datatype LoopState = LoopState(groups: seq<seq<nat>>, processed: set<nat>)

  /** A group as the loop builds it: its seed, then every other row at or
      above the threshold against the seed, and at least one such row. */
  predicate IsSeedGroup(sim: seq<seq<real>>, t: real, g: seq<nat>)
    requires IsSquare(sim, |sim|)
  {
    |g| >= 2 && g[0] < |sim| && g[1..] == Similar(sim, t, g[0])
  }

  /** Every group is a seed group of rows of the matrix, seeded below i. */
  predicate SeedGroupsBelow(sim: seq<seq<real>>, t: real, gs: seq<seq<nat>>, i: nat)
    requires IsSquare(sim, |sim|)
  {
    forall k :: 0 <= k < |gs| ==> IsSeedGroup(sim, t, gs[k]) && gs[k][0] < i && InRange(gs[k], |sim|)
  }

  /** Row j with the rows similar to it, when there are any, is a seed group
      of rows of the matrix. */
  lemma NewSeedGroup(sim: seq<seq<real>>, t: real, j: nat)
    requires IsSquare(sim, |sim|) && j < |sim| && |Similar(sim, t, j)| > 0
    ensures IsSeedGroup(sim, t, [j] + Similar(sim, t, j)) && InRange([j] + Similar(sim, t, j), |sim|)
  {
    var similar := Similar(sim, t, j);
    var members := [j] + similar;
    assert members[1..] == similar;
    assert forall m :: 0 < m < |members| ==> members[m] == similar[m - 1] && similar[m - 1] in similar;
  }

  /** One iteration of the grouping loop, at row j: an unplaced row with
      similar rows seeds a new group, and all its members become placed. */
  function Step(sim: seq<seq<real>>, t: real, s: LoopState, j: nat): (r: LoopState)
    requires IsSquare(sim, |sim|) && j < |sim| && SeedGroupsBelow(sim, t, s.groups, j)
    ensures |r.groups| <= |s.groups| + 1
    ensures SeedGroupsBelow(sim, t, r.groups, j + 1)
  {
    if j in s.processed then s
    else
      var similar := Similar(sim, t, j);
      if |similar| > 0 then
        var members := [j] + similar;
        NewSeedGroup(sim, t, j);
        LoopState(s.groups + [members], s.processed + Elements(members))
      else s
  }

  /** The loop's state once rows 0 .. i-1 have been visited. */
  function Visit(sim: seq<seq<real>>, t: real, i: nat): (s: LoopState)
    requires IsSquare(sim, |sim|) && i <= |sim|
    ensures |s.groups| <= i
    ensures SeedGroupsBelow(sim, t, s.groups, i)
  {
    if i == 0 then LoopState([], {}) else Step(sim, t, Visit(sim, t, i - 1), i - 1)
  }

  /** The groups, as row indices, that one run of the grouping loop produces. */
  function SeedGroups(sim: seq<seq<real>>, t: real): (gs: seq<seq<nat>>)
    requires IsSquare(sim, |sim|)
    ensures |gs| <= |sim|
    ensures forall k :: 0 <= k < |gs| ==> IsSeedGroup(sim, t, gs[k]) && InRange(gs[k], |sim|)
  {
    Visit(sim, t, |sim|).groups
  }

  lemma MembersOfSnoc(gs: seq<seq<nat>>, g: seq<nat>)
    ensures Members(gs + [g]) == Members(gs) + Elements(g)
  {
    assert forall h :: h in gs + [g] <==> h in gs || h == g;
  }

  /** An iteration either changes nothing or appends the visited row's
      group and marks its members placed. */
  lemma StepCases(sim: seq<seq<real>>, t: real, s: LoopState, j: nat)
    requires IsSquare(sim, |sim|) && j < |sim| && SeedGroupsBelow(sim, t, s.groups, j)
    ensures var g := [j] + Similar(sim, t, j);
      var r := Step(sim, t, s, j);
      r == s ||
      (j !in s.processed && r.groups == s.groups + [g] && r.processed == s.processed + Elements(g))
  {
  }

  /** The processed set is always the union of the groups built so far. */
  lemma {:induction false} ProcessedIsUnion(sim: seq<seq<real>>, t: real, i: nat)
    requires IsSquare(sim, |sim|) && i <= |sim|
    ensures Visit(sim, t, i).processed == Members(Visit(sim, t, i).groups)
  {
    if i > 0 {
      ProcessedIsUnion(sim, t, i - 1);
      var s := Visit(sim, t, i - 1);
      StepCases(sim, t, s, i - 1);
      MembersOfSnoc(s.groups, [i - 1] + Similar(sim, t, i - 1));
    }
  }

  /** Seeds are visited in ascending order. */
  lemma {:induction false} VisitSeedsAscending(sim: seq<seq<real>>, t: real, i: nat)
    requires IsSquare(sim, |sim|) && i <= |sim|
    ensures forall a, b :: 0 <= a < b < |Visit(sim, t, i).groups| ==>
              Visit(sim, t, i).groups[a][0] < Visit(sim, t, i).groups[b][0]
  {
    if i > 0 {
      VisitSeedsAscending(sim, t, i - 1);
    }
  }

  /** A seed is never a member of an earlier group. */
  lemma {:induction false} VisitSeedFresh(sim: seq<seq<real>>, t: real, i: nat, a: nat, b: nat)
    requires IsSquare(sim, |sim|) && i <= |sim|
    requires a < b < |Visit(sim, t, i).groups|
    ensures Visit(sim, t, i).groups[b][0] !in Visit(sim, t, i).groups[a]
  {
    var s := Visit(sim, t, i - 1);
    var gs := Visit(sim, t, i).groups;
    StepCases(sim, t, s, i - 1);
    if b < |s.groups| {
      assert gs[a] == s.groups[a] && gs[b] == s.groups[b];
      VisitSeedFresh(sim, t, i - 1, a, b);
    } else {
      ProcessedIsUnion(sim, t, i - 1);
      assert gs[b][0] == i - 1 && i - 1 !in s.processed;
      assert gs[a] == s.groups[a] && gs[a] in s.groups;
    }
  }

  /** Every visited row that has a match has been placed. */
  lemma {:induction false} VisitCoverage(sim: seq<seq<real>>, t: real, i: nat, x: nat)
    requires IsSquare(sim, |sim|) && i <= |sim|
    requires x < i && HasMatch(sim, t, x)
    ensures x in Visit(sim, t, i).processed
  {
    var j := i - 1;
    if x < j {
      VisitCoverage(sim, t, j, x);
    } else {
      var y :| 0 <= y < |sim| && y != x && sim[x][y] >= t;
      assert y in Similar(sim, t, x);
    }
  }

  /** Every group has at least two members: its seed first, then exactly the
      other rows at or above the threshold against the seed, in ascending
      order. So a member is the seed or is similar enough to the seed. */
  lemma GroupShape(sim: seq<seq<real>>, t: real, k: nat)
    requires IsSquare(sim, |sim|)
    requires k < |SeedGroups(sim, t)|
    ensures var g := SeedGroups(sim, t)[k];
      |g| >= 2 && g[0] < |sim| &&
      (forall x :: x in g[1..] <==> 0 <= x < |sim| && x != g[0] && sim[g[0]][x] >= t) &&
      StrictlyIncreasing(g[1..]) && Distinct(g)
  {
    var g := SeedGroups(sim, t)[k];
    assert g[0] !in g[1..];
    forall a, b | 0 <= a < b < |g| ensures g[a] != g[b] {
      if a == 0 {
        assert g[b] == g[1..][b - 1];
      } else {
        assert g[a] == g[1..][a - 1] && g[b] == g[1..][b - 1];
      }
    }
  }

  /** Seeds are visited in ascending order, and a seed is never a row placed
      in an earlier group. */
  lemma SeedsAscendingAndFresh(sim: seq<seq<real>>, t: real, a: nat, b: nat)
    requires IsSquare(sim, |sim|)
    requires a < b < |SeedGroups(sim, t)|
    ensures SeedGroups(sim, t)[a][0] < SeedGroups(sim, t)[b][0]
    ensures SeedGroups(sim, t)[b][0] !in SeedGroups(sim, t)[a]
  {
    VisitSeedsAscending(sim, t, |sim|);
    VisitSeedFresh(sim, t, |sim|, a, b);
  }

  /** There are at most as many groups as rows, and none at all with fewer
      than two rows. */
  lemma GroupCount(sim: seq<seq<real>>, t: real)
    requires IsSquare(sim, |sim|)
    ensures |SeedGroups(sim, t)| <= |sim|
    ensures |sim| < 2 ==> SeedGroups(sim, t) == []
  {
    if SeedGroups(sim, t) != [] {
      GroupShape(sim, t, 0);
      var g := SeedGroups(sim, t)[0];
      assert g[1] in g[1..];
      assert |sim| >= 2;
    }
  }

  /** Every row that has some other row at or above the threshold is placed
      in at least one group. */
  lemma Coverage(sim: seq<seq<real>>, t: real, x: nat)
    requires IsSquare(sim, |sim|)
    requires x < |sim| && HasMatch(sim, t, x)
    ensures x in Members(SeedGroups(sim, t))
  {
    VisitCoverage(sim, t, |sim|, x);
    ProcessedIsUnion(sim, t, |sim|);
  }

  /** With a symmetric matrix every member of a group has a match: the seed
      matches its second member, and any other member matches the seed. */
  lemma MemberHasMatch(sim: seq<seq<real>>, t: real, k: nat, m: nat)
    requires IsSquare(sim, |sim|) && Symmetric(sim)
    requires k < |SeedGroups(sim, t)| && m < |SeedGroups(sim, t)[k]|
    ensures SeedGroups(sim, t)[k][m] < |sim| && HasMatch(sim, t, SeedGroups(sim, t)[k][m])
  {
    var g := SeedGroups(sim, t)[k];
    GroupShape(sim, t, k);
    var x := g[m];
    assert g[1] in g[1..];
    if m == 0 {
      assert g[1] < |sim| && g[1] != x && sim[x][g[1]] >= t;
    } else {
      assert x in g[1..];
      assert g[0] != x && sim[x][g[0]] >= t;
    }
  }

  /** With a symmetric matrix the placed rows are exactly the rows that have a
      match. */
  lemma MembersAreMatchedRows(sim: seq<seq<real>>, t: real)
    requires IsSquare(sim, |sim|) && Symmetric(sim)
    ensures forall x: nat :: x in Members(SeedGroups(sim, t)) <==> x < |sim| && HasMatch(sim, t, x)
  {
    var gs := SeedGroups(sim, t);
    forall x: nat | x in Members(gs) ensures x < |sim| && HasMatch(sim, t, x) {
      var g :| g in gs && x in g;
      var k :| 0 <= k < |gs| && gs[k] == g;
      var m :| 0 <= m < |g| && g[m] == x;
      MemberHasMatch(sim, t, k, m);
    }
    forall x: nat | x < |sim| && HasMatch(sim, t, x) ensures x in Members(gs) {
      Coverage(sim, t, x);
    }
  }

  /** With a symmetric matrix a seed belongs to its own group only, so the
      first member of a group is never a later member of another one. */
  lemma SeedInOwnGroupOnly(sim: seq<seq<real>>, t: real, k: nat, l: nat)
    requires IsSquare(sim, |sim|) && Symmetric(sim)
    requires k < |SeedGroups(sim, t)| && l < |SeedGroups(sim, t)| && k != l
    ensures SeedGroups(sim, t)[k][0] !in SeedGroups(sim, t)[l]
  {
    var gs := SeedGroups(sim, t);
    if l < k {
      SeedsAscendingAndFresh(sim, t, l, k);
    } else {
      SeedsAscendingAndFresh(sim, t, k, l);
      GroupShape(sim, t, k);
      GroupShape(sim, t, l);
      var s, s' := gs[k][0], gs[l][0];
      var tail, tail' := gs[k][1..], gs[l][1..];
      assert gs[k] == [s] + tail && gs[l] == [s'] + tail';
      assert sim[s][s'] == sim[s'][s];
      assert s in tail' ==> s' in tail;
    }
  }

  /** Groups can overlap, and a group's first member need not be its lowest
      row: a chain 0 ~ 1 ~ 2 with 0 and 2 apart yields [0, 1] and [2, 1]. */
  lemma ChainedRowsOverlap()
    ensures SeedGroups([[1.0, 0.9, 0.4], [0.9, 1.0, 0.9], [0.4, 0.9, 1.0]], 0.85) == [[0, 1], [2, 1]]
  {
    var sim := [[1.0, 0.9, 0.4], [0.9, 1.0, 0.9], [0.4, 0.9, 1.0]];
    assert IsSquare(sim, |sim|);
    assert Matches(sim[0], 0.85, 0, 2) == [];
    assert Matches(sim[0], 0.85, 0, 0) == [1];
    assert Matches(sim[2], 0.85, 2, 2) == [];
    assert Matches(sim[2], 0.85, 2, 0) == [1];
    assert [2] + [1] == [2, 1];
    assert [0] + [1] == [0, 1];
    assert {} + Elements([0, 1]) == {0, 1};
    assert Visit(sim, 0.85, 1) == LoopState([[0, 1]], {0, 1});
    assert Visit(sim, 0.85, 2) == LoopState([[0, 1]], {0, 1});
    assert [[0, 1]] + [[2, 1]] == [[0, 1], [2, 1]];
  }

  /** The worked example: only the first two rows are alike, and a stricter
      threshold leaves no group at all. */
  lemma TwoOfThreeAlike()
    ensures SeedGroups([[1.0, 0.95, 0.1], [0.95, 1.0, 0.12], [0.1, 0.12, 1.0]], 0.85) == [[0, 1]]
    ensures SeedGroups([[1.0, 0.95, 0.1], [0.95, 1.0, 0.12], [0.1, 0.12, 1.0]], 0.99) == []
  {
    var sim := [[1.0, 0.95, 0.1], [0.95, 1.0, 0.12], [0.1, 0.12, 1.0]];
    assert IsSquare(sim, |sim|);
    assert Matches(sim[0], 0.85, 0, 2) == [];
    assert Matches(sim[0], 0.85, 0, 0) == [1];
    assert Matches(sim[2], 0.85, 2, 1) == [];
    assert Matches(sim[2], 0.85, 2, 0) == [];
    assert [0] + [1] == [0, 1];
    assert {} + Elements([0, 1]) == {0, 1};
    assert Visit(sim, 0.85, 1) == LoopState([[0, 1]], {0, 1});
    assert Visit(sim, 0.85, 2) == LoopState([[0, 1]], {0, 1});
    assert Matches(sim[0], 0.99, 0, 0) == [];
    assert Matches(sim[1], 0.99, 1, 0) == [];
    assert Matches(sim[2], 0.99, 2, 0) == [];
    assert Visit(sim, 0.99, 1) == LoopState([], {});
    assert Visit(sim, 0.99, 2) == LoopState([], {});
  }

  // ---------------------------------------------------------------------
  // Groups as the endpoint returns them

  /** One member of a group: the row's cells, its position in the upload and
      its score against every other member of the group. */
  datatype GroupRow = GroupRow(cells: Row, originalIndex: nat, scores: map<nat, real>)

  datatype DuplicateGroup = DuplicateGroup(id: GroupId, rows: seq<GroupRow>)

  /** The members' positions, in group order. */
  function Indices(g: DuplicateGroup): (r: seq<nat>)
    ensures |r| == |g.rows|
  {
    seq(|g.rows|, k requires 0 <= k < |g.rows| => g.rows[k].originalIndex)
  }

  predicate InRange(members: seq<nat>, n: nat)
  {
    forall m :: 0 <= m < |members| ==> members[m] < n
  }

  lemma DistinctCardinality(s: seq<nat>)
    ensures Distinct(s) ==> |Elements(s)| == |s|
  {
    if |s| > 0 && Distinct(s) {
      var last := s[|s| - 1];
      var init := s[..|s| - 1];
      DistinctCardinality(init);
      assert Elements(s) == Elements(init) + {last};
      assert last !in Elements(init);
    }
  }

  /** A member's similarity scores: one entry per other member of its group,
      holding the matrix entry, whether or not it reaches the threshold. */
  function Scores(sim: seq<seq<real>>, members: seq<nat>, idx: nat): (r: map<nat, real>)
    requires IsSquare(sim, |sim|) && idx < |sim| && InRange(members, |sim|)
    ensures forall o :: o in r <==> o in members && o != idx
    ensures forall o :: o in r ==> r[o] == sim[idx][o]
    ensures Distinct(members) && idx in members ==> |r| == |members| - 1
  {
    var r := map o | o in members && o != idx :: sim[idx][o];
    DistinctCardinality(members);
    assert r.Keys == Elements(members) - {idx};
    r
  }

  function MemberRow(rows: seq<Row>, sim: seq<seq<real>>, members: seq<nat>, idx: nat): GroupRow
    requires IsSquare(sim, |rows|) && idx < |rows| && InRange(members, |rows|)
  {
    GroupRow(rows[idx], idx, Scores(sim, members, idx))
  }

  /** The members of one group, in group order. */
  function GroupRows(rows: seq<Row>, sim: seq<seq<real>>, members: seq<nat>): (r: seq<GroupRow>)
    requires IsSquare(sim, |rows|) && InRange(members, |rows|)
    ensures |r| == |members|
    ensures forall m :: 0 <= m < |members| ==> r[m].originalIndex == members[m]
  {
    seq(|members|, m requires 0 <= m < |members| => MemberRow(rows, sim, members, members[m]))
  }

  /** The groups the endpoint stores, the k-th one carrying the k-th fresh id. */
  function Materialize(rows: seq<Row>, sim: seq<seq<real>>, gs: seq<seq<nat>>, ids: seq<GroupId>): (r: seq<DuplicateGroup>)
    requires IsSquare(sim, |rows|) && |ids| >= |gs|
    requires forall k :: 0 <= k < |gs| ==> InRange(gs[k], |rows|)
    ensures |r| == |gs|
    ensures forall k :: 0 <= k < |gs| ==> r[k].id == ids[k] && Indices(r[k]) == gs[k]
  {
    seq(|gs|, k requires 0 <= k < |gs| => DuplicateGroup(ids[k], GroupRows(rows, sim, gs[k])))
  }

  lemma MaterializeSnoc(rows: seq<Row>, sim: seq<seq<real>>, gs: seq<seq<nat>>, g: seq<nat>, ids: seq<GroupId>)
    requires IsSquare(sim, |rows|) && |ids| > |gs|
    requires forall k :: 0 <= k < |gs| ==> InRange(gs[k], |rows|)
    requires InRange(g, |rows|)
    ensures Materialize(rows, sim, gs + [g], ids)
         == Materialize(rows, sim, gs, ids) + [DuplicateGroup(ids[|gs|], GroupRows(rows, sim, g))]
  {
    var gs' := gs + [g];
    assert forall k :: 0 <= k < |gs| ==> gs'[k] == gs[k];
  }

  /** A group as a session keeps it: at least two members, all of them rows
      of the upload, none of them twice. */
  predicate WellFormed(g: DuplicateGroup, n: nat)
  {
    |g.rows| >= 2 && InRange(Indices(g), n) && Distinct(Indices(g))
  }

  /** The groups the analyze endpoint stores are well formed. */
  lemma MaterializedWellFormed(rows: seq<Row>, sim: seq<seq<real>>, t: real, ids: seq<GroupId>)
    requires IsSquare(sim, |rows|) && |ids| >= |rows|
    ensures |SeedGroups(sim, t)| <= |rows|
    ensures forall k :: 0 <= k < |SeedGroups(sim, t)| ==> InRange(SeedGroups(sim, t)[k], |rows|)
    ensures forall k :: 0 <= k < |SeedGroups(sim, t)| ==>
              WellFormed(Materialize(rows, sim, SeedGroups(sim, t), ids)[k], |rows|)
  {
    GroupCount(sim, t);
    forall k | 0 <= k < |SeedGroups(sim, t)| {
      GroupShape(sim, t, k);
    }
  }

  /** Builds the members of one group, in group order. */
  method BuildGroupRows(rows: seq<Row>, sim: seq<seq<real>>, members: seq<nat>) returns (out: seq<GroupRow>)
    requires IsSquare(sim, |rows|) && InRange(members, |rows|)
    ensures out == GroupRows(rows, sim, members)
  {
    out := [];
    for k := 0 to |members|
      invariant |out| == k
      invariant forall m :: 0 <= m < k ==> out[m] == MemberRow(rows, sim, members, members[m])
    {
      var idx := members[k];
      out := out + [GroupRow(rows[idx], idx, Scores(sim, members, idx))];
    }
  }

  /** The groups stored once rows 0 .. i-1 have been visited. */
  function StoredAfter(rows: seq<Row>, sim: seq<seq<real>>, t: real, ids: seq<GroupId>, i: nat): seq<DuplicateGroup>
    requires IsSquare(sim, |rows|) && |ids| >= |rows| && i <= |sim|
  {
    Materialize(rows, sim, Visit(sim, t, i).groups, ids)
  }

  /** One iteration of the grouping loop, on the stored groups: a new group
      is appended with the next fresh id, or nothing changes. */
  lemma MaterializeStep(rows: seq<Row>, sim: seq<seq<real>>, t: real, ids: seq<GroupId>, i: nat)
    requires IsSquare(sim, |rows|) && |ids| >= |rows| && i < |sim|
    ensures var before := Visit(sim, t, i);
      var after := Visit(sim, t, i + 1);
      var members := [i] + Similar(sim, t, i);
      if i !in before.processed && |members| > 1 then
        InRange(members, |rows|) &&
        after.processed == before.processed + Elements(members) &&
        StoredAfter(rows, sim, t, ids, i + 1)
          == StoredAfter(rows, sim, t, ids, i) + [DuplicateGroup(ids[|before.groups|], GroupRows(rows, sim, members))]
      else after == before
  {
    var before := Visit(sim, t, i);
    var members := [i] + Similar(sim, t, i);
    if i !in before.processed && |members| > 1 {
      NewSeedGroup(sim, t, i);
      MaterializeSnoc(rows, sim, before.groups, members, ids);
    }
  }

  /** One iteration of the grouping loop, at row i: skips a placed row, and
      otherwise makes the row and the rows similar to it a new group when
      there are any. */
  method VisitRow(rows: seq<Row>, sim: seq<seq<real>>, t: real, ids: seq<GroupId>, i: nat,
                  groups: seq<DuplicateGroup>, processed: set<nat>)
    returns (groups': seq<DuplicateGroup>, processed': set<nat>)
    requires IsSquare(sim, |rows|) && |ids| >= |rows| && i < |sim|
    requires processed == Visit(sim, t, i).processed
    requires groups == StoredAfter(rows, sim, t, ids, i)
    ensures processed' == Visit(sim, t, i + 1).processed
    ensures groups' == StoredAfter(rows, sim, t, ids, i + 1)
  {
    MaterializeStep(rows, sim, t, ids, i);
    groups', processed' := groups, processed;
    if i in processed {
      return;
    }
    var similar := Similar(sim, t, i);
    if |similar| > 0 {
      var members: seq<nat> := [i] + similar;
      processed' := processed + Elements(members);
      var memberRows := BuildGroupRows(rows, sim, members);
      groups' := groups + [DuplicateGroup(ids[|groups|], memberRows)];
    }
  }

  /** The grouping loop of the analyze endpoint. Returns the groups, the k-th
      with id ids[k], and the set of rows placed in them. */
  method FindGroups(rows: seq<Row>, sim: seq<seq<real>>, t: real, ids: seq<GroupId>)
    returns (groups: seq<DuplicateGroup>, processed: set<nat>)
    requires IsSquare(sim, |rows|) && |ids| >= |rows|
    ensures groups == Materialize(rows, sim, SeedGroups(sim, t), ids)
    ensures processed == Members(SeedGroups(sim, t))
  {
    groups, processed := [], {};
    var i: nat := 0;
    while i < |sim|
      invariant i <= |sim|
      invariant processed == Visit(sim, t, i).processed
      invariant groups == StoredAfter(rows, sim, t, ids, i)
    {
      groups, processed := VisitRow(rows, sim, t, ids, i, groups, processed);
      i := i + 1;
    }
    ProcessedIsUnion(sim, t, |sim|);
  }
}
