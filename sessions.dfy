/** The in-memory session store of the backend and the endpoints that act on
    it. A session is created by an upload and then analysed, reviewed and
    exported any number of times, in any order. Every failure is reported as
    an `Error`; the HTTP status codes are not modelled. */
module Sessions {
  import opened Types
  import opened Text
  import opened Grouping
  import opened Report

  /** The threshold a session starts with. */
  const DefaultThreshold: real := 0.85

  /** How many rows the upload response shows. */
  const PreviewLength: nat := 5

  /** The first of `cols` that is not one of `available`, if any. */
  function FirstMissing(cols: seq<string>, available: seq<string>): (r: Option<string>)
    ensures r == None <==> forall k :: 0 <= k < |cols| ==> cols[k] in available
    ensures r.Some? ==> exists k :: 0 <= k < |cols| && cols[k] == r.value && r.value !in available &&
                          forall j :: 0 <= j < k ==> cols[j] in available
  {
    if |cols| == 0 then None
    else if cols[0] !in available then Some(cols[0])
    else
      var r := FirstMissing(cols[1..], available);
      assert forall k :: 0 < k < |cols| ==> cols[k] == cols[1..][k - 1];
      if r.Some? then
        var k :| 0 <= k < |cols[1..]| && cols[1..][k] == r.value && r.value !in available &&
                 forall j :: 0 <= j < k ==> cols[1..][j] in available;
        assert cols[k + 1] == r.value;
        r
      else r
  }

  /** The column check of the analyze endpoint: stops at the first selected
      column the upload does not have. */
  method CheckColumns(cols: seq<string>, available: seq<string>) returns (missing: Option<string>)
    ensures missing == FirstMissing(cols, available)
  {
    for k := 0 to |cols|
      invariant FirstMissing(cols, available) == FirstMissing(cols[k..], available)
    {
      assert cols[k..][1..] == cols[k + 1..];
      if cols[k] !in available {
        return Some(cols[k]);
      }
    }
    assert cols[|cols|..] == [];
    missing := None;
  }

  /** Every list of texts is mapped to a square matrix of its size. */
  ghost predicate SquareEncoder(encodeSim: seq<string> -> seq<seq<real>>)
  {
    forall texts: seq<string> :: IsSquare(encodeSim(texts), |texts|)
  }

  /** The similarity matrix the analyze endpoint compares the rows with. */
  function Similarities(encodeSim: seq<string> -> seq<seq<real>>, rows: seq<Row>, cols: seq<string>): (sim: seq<seq<real>>)
    requires SquareEncoder(encodeSim) && HasColumns(rows, cols)
    ensures IsSquare(sim, |rows|) && IsSquare(sim, |sim|)
  {
    var texts := CombinedTexts(rows, cols);
    assert IsSquare(encodeSim(texts), |texts|);
    encodeSim(texts)
  }

  /** One uploaded file and the state of its review. */
  class Session {
    const id: SessionId
    const fileName: string
    const columns: seq<string>
    const rows: seq<Row>
    var selectedColumns: seq<string>
    var threshold: real
    var groups: seq<DuplicateGroup>
    var reviewed: map<GroupId, bool>

    /** Every row holds exactly the upload's columns, and every group is a
        well-formed group of its rows. */
    predicate Valid()
      reads this
    {
      (forall i :: 0 <= i < |rows| ==> rows[i].Keys == Elements(columns)) &&
      AllWellFormed(groups, |rows|)
    }

    constructor(id: SessionId, fileName: string, columns: seq<string>, rows: seq<Row>)
      requires forall i :: 0 <= i < |rows| ==> rows[i].Keys == Elements(columns)
      ensures Valid()
      ensures this.id == id && this.fileName == fileName && this.columns == columns && this.rows == rows
      ensures selectedColumns == [] && threshold == DefaultThreshold && groups == [] && reviewed == map[]
    {
      this.id := id;
      this.fileName := fileName;
      this.columns := columns;
      this.rows := rows;
      selectedColumns := [];
      threshold := DefaultThreshold;
      groups := [];
      reviewed := map[];
    }

    /** The analyze endpoint once the session is found: it records the
        selection, checks the columns and replaces the groups. */
    method Analyze(cols: seq<string>, t: real, encodeSim: seq<string> -> seq<seq<real>>, ids: seq<GroupId>)
      returns (r: Result<AnalyzeResponse>)
      requires Valid() && SquareEncoder(encodeSim) && |ids| >= |rows|
      requires Distinct(ids) && forall k :: 0 <= k < |ids| ==> ids[k] !in reviewed
      modifies this
      ensures Valid()
      ensures selectedColumns == cols && threshold == t && reviewed == old(reviewed)
      ensures FirstMissing(cols, columns).Some? ==>
        r == Err(ColumnNotFound(FirstMissing(cols, columns).value)) && groups == old(groups)
      ensures FirstMissing(cols, columns) == None ==>
        HasColumns(rows, cols) &&
        var sim := Similarities(encodeSim, rows, cols);
        groups == Materialize(rows, sim, SeedGroups(sim, t), ids) &&
        r == Ok(AnalyzeResponse(id, |rows|, |groups|, TotalRows(groups), groups)) &&
        TotalRows(groups) >= 2 * |groups| && FreshGroups(rows, groups, reviewed)
    {
      selectedColumns := cols;
      threshold := t;
      var missing := CheckColumns(cols, columns);
      if missing.Some? {
        return Err(ColumnNotFound(missing.value));
      }
      ColumnsPresent(cols);
      var sim := Similarities(encodeSim, rows, cols);
      var found, processed := FindGroups(rows, sim, t, ids);
      MaterializedWellFormed(rows, sim, t, ids);
      TotalRowsAtLeastTwice(found, |rows|);
      MaterializedFresh(rows, sim, SeedGroups(sim, t), ids, reviewed);
      groups := found;
      r := Ok(AnalyzeResponse(id, |rows|, |found|, TotalRows(found), found));
    }

    /** Selected columns the upload has are present in every row. */
    lemma ColumnsPresent(cols: seq<string>)
      requires Valid() && FirstMissing(cols, columns) == None
      ensures HasColumns(rows, cols)
    {
      forall i, k | 0 <= i < |rows| && 0 <= k < |cols| ensures cols[k] in rows[i] {
        assert cols[k] in Elements(columns);
      }
    }
  }

  datatype UploadResponse = UploadResponse(
    sessionId: SessionId,
    fileName: string,
    rowCount: nat,
    columns: seq<string>,
    preview: seq<Row>)

  datatype AnalyzeResponse = AnalyzeResponse(
    sessionId: SessionId,
    totalRows: nat,
    groupCount: nat,
    totalPotentialDuplicates: nat,
    groups: seq<DuplicateGroup>)

  datatype ReviewResponse = ReviewResponse(
    sessionId: SessionId,
    groupId: GroupId,
    isDuplicate: bool,
    totalReviewed: nat,
    totalGroups: nat)

  datatype SessionStatus = SessionStatus(
    sessionId: SessionId,
    fileName: string,
    totalRows: nat,
    selectedColumns: seq<string>,
    groupCount: nat,
    reviewedCount: nat,
    pendingReview: int)

  /** All sessions, by id. */
  class SessionStore {
    var sessions: map<SessionId, Session>

    /** Each session is filed under its own id, so distinct ids hold distinct
        sessions. */
    predicate Valid()
      reads this, sessions.Values
    {
      forall k :: k in sessions ==> sessions[k].id == k && sessions[k].Valid()
    }

    constructor()
      ensures Valid() && sessions == map[]
    {
      sessions := map[];
    }

    /** The upload endpoint once the file is parsed into columns and rows: an
        empty table is refused, anything else becomes a new session under the
        fresh id. */
    method Upload(freshId: SessionId, fileName: string, columns: seq<string>, rows: seq<Row>)
      returns (r: Result<UploadResponse>)
      requires Valid() && freshId !in sessions
      requires forall i :: 0 <= i < |rows| ==> rows[i].Keys == Elements(columns)
      modifies this
      ensures Valid()
      ensures |rows| == 0 || |columns| == 0 ==> r == Err(EmptyFile) && sessions == old(sessions)
      ensures |rows| > 0 && |columns| > 0 ==>
        sessions.Keys == old(sessions).Keys + {freshId} &&
        (forall k :: k in old(sessions) ==> sessions[k] == old(sessions)[k]) &&
        fresh(sessions[freshId]) &&
        sessions[freshId].rows == rows && sessions[freshId].columns == columns &&
        sessions[freshId].fileName == fileName &&
        sessions[freshId].selectedColumns == [] && sessions[freshId].threshold == DefaultThreshold &&
        sessions[freshId].groups == [] && sessions[freshId].reviewed == map[] &&
        r == Ok(UploadResponse(freshId, fileName, |rows|, columns,
                               rows[..if |rows| < PreviewLength then |rows| else PreviewLength]))
    {
      if |rows| == 0 || |columns| == 0 {
        return Err(EmptyFile);
      }
      var session := new Session(freshId, fileName, columns, rows);
      sessions := sessions[freshId := session];
      var shown := if |rows| < PreviewLength then |rows| else PreviewLength;
      r := Ok(UploadResponse(freshId, fileName, |rows|, columns, rows[..shown]));
    }

    /** The analyze endpoint. `encodeSim` stands for embedding the texts and
        taking their pairwise cosine similarity; `ids` supplies the fresh
        group ids, the k-th group taking the k-th one. */
    method Analyze(modelLoaded: bool, sid: SessionId, cols: seq<string>, t: real,
                   encodeSim: seq<string> -> seq<seq<real>>, ids: seq<GroupId>)
      returns (r: Result<AnalyzeResponse>)
      requires Valid()
      requires SquareEncoder(encodeSim)
      requires sid in sessions ==> |ids| >= |sessions[sid].rows|
      requires Distinct(ids)
      requires sid in sessions ==> forall k :: 0 <= k < |ids| ==> ids[k] !in sessions[sid].reviewed
      modifies if sid in sessions then {sessions[sid]} else {}
      ensures Valid()
      ensures !modelLoaded ==> r == Err(ModelNotLoaded)
      ensures modelLoaded && sid !in sessions ==> r == Err(SessionNotFound)
      ensures !modelLoaded && sid in sessions ==> unchanged(sessions[sid])
      ensures modelLoaded && sid in sessions ==>
        sessions[sid].selectedColumns == cols && sessions[sid].threshold == t &&
        sessions[sid].reviewed == old(sessions[sid].reviewed)
      ensures modelLoaded && sid in sessions && FirstMissing(cols, sessions[sid].columns).Some? ==>
        r == Err(ColumnNotFound(FirstMissing(cols, sessions[sid].columns).value)) &&
        sessions[sid].groups == old(sessions[sid].groups)
      ensures modelLoaded && sid in sessions && FirstMissing(cols, sessions[sid].columns) == None ==>
        var s := sessions[sid];
        HasColumns(s.rows, cols) &&
        var sim := Similarities(encodeSim, s.rows, cols);
        s.groups == Materialize(s.rows, sim, SeedGroups(sim, t), ids) &&
        r == Ok(AnalyzeResponse(sid, |s.rows|, |s.groups|, TotalRows(s.groups), s.groups)) &&
        TotalRows(s.groups) >= 2 * |s.groups| && FreshGroups(s.rows, s.groups, s.reviewed)
    {
      if !modelLoaded {
        return Err(ModelNotLoaded);
      }
      if sid !in sessions {
        return Err(SessionNotFound);
      }
      r := sessions[sid].Analyze(cols, t, encodeSim, ids);
    }

    /** The status endpoint. "Pending" is the number of groups less the number
        of verdicts, which is negative once verdicts outnumber the current
        groups. */
    function Status(sid: SessionId): (r: Result<SessionStatus>)
      requires Valid()
      reads this, sessions.Values
      ensures sid !in sessions <==> r == Err(SessionNotFound)
      ensures sid in sessions ==> (r.Ok? &&
        var s := sessions[sid];
        r.value.totalRows == |s.rows| && r.value.groupCount == |s.groups| &&
        r.value.reviewedCount == |s.reviewed| &&
        r.value.pendingReview ==
          ExportWorkbook(s.fileName, s.rows, s.groups, s.reviewed, s.threshold, s.selectedColumns).statistics.groupsPending &&
        (r.value.pendingReview < 0 <==> |s.reviewed| > |s.groups|))
    {
      if sid !in sessions then Err(SessionNotFound)
      else
        var s := sessions[sid];
        Ok(SessionStatus(sid, s.fileName, |s.rows|, s.selectedColumns, |s.groups|, |s.reviewed|,
                         |s.groups| - |s.reviewed|))
    }

    /** The review endpoint: records the verdict for a group id, whether or
        not a current group carries that id. */
    method Review(sid: SessionId, gid: GroupId, isDuplicate: bool) returns (r: Result<ReviewResponse>)
      requires Valid()
      modifies if sid in sessions then {sessions[sid]} else {}
      ensures Valid()
      ensures sid !in sessions ==> r == Err(SessionNotFound)
      ensures sid in sessions ==>
        var s := sessions[sid];
        s.reviewed == old(s.reviewed)[gid := isDuplicate] &&
        s.groups == old(s.groups) && s.selectedColumns == old(s.selectedColumns) &&
        s.threshold == old(s.threshold) &&
        r == Ok(ReviewResponse(sid, gid, isDuplicate, |s.reviewed|, |s.groups|))
      ensures sid in sessions ==>
        |sessions[sid].reviewed| == |old(sessions[sid].reviewed)| + (if gid in old(sessions[sid].reviewed) then 0 else 1)
      ensures sid in sessions ==>
        Status(sid).value.pendingReview ==
          old(Status(sid)).value.pendingReview - (if gid in old(sessions[sid].reviewed) then 0 else 1)
      ensures sid in sessions && gid in old(sessions[sid].reviewed) && old(sessions[sid].reviewed)[gid] == isDuplicate ==>
        sessions[sid].reviewed == old(sessions[sid].reviewed)
    {
      if sid !in sessions {
        return Err(SessionNotFound);
      }
      var s := sessions[sid];
      ghost var pendingBefore := Status(sid).value.pendingReview;
      assert pendingBefore == |s.groups| - |s.reviewed|;
      s.reviewed := s.reviewed[gid := isDuplicate];
      assert Valid();
      assert Status(sid).value.pendingReview == |s.groups| - |s.reviewed|;
      r := Ok(ReviewResponse(sid, gid, isDuplicate, |s.reviewed|, |s.groups|));
    }

    /** The export endpoint: the workbook of the session as it stands. */
    method Export(sid: SessionId) returns (r: Result<Workbook>)
      requires Valid()
      ensures sid !in sessions ==> r == Err(SessionNotFound)
      ensures sid in sessions ==>
        var s := sessions[sid];
        r == Ok(ExportWorkbook(s.fileName, s.rows, s.groups, s.reviewed, s.threshold, s.selectedColumns))
    {
      if sid !in sessions {
        return Err(SessionNotFound);
      }
      var s := sessions[sid];
      var removed := CollectRemoved(s.groups, s.reviewed);
      var deduplicated := Deduplicated(s.rows, removed);
      var records := BuildDuplicateRecords(s.rows, s.groups, s.reviewed);
      var sheet := if |records| > 0 then Records(records) else NoConfirmedDuplicates;
      var statistics := ComputeStatistics(s.rows, s.groups, s.reviewed, s.threshold, s.selectedColumns);
      r := Ok(Workbook(ReportFileName(s.fileName), s.rows, deduplicated, sheet, statistics));
    }
  }
}
