/** What health, repair, migration v2 and recall find in a vector table, stated on its cells alone. */
module Maintenance {
  import opened Prelude
  import opened Floats
  import opened Codec
  import opened Cells
  import opened Tables
  import opened Scans

  // ----- one row -----

  /** The cell holds this vector: as its little-endian blob, or as text that parses to it. */
  ghost predicate Holds(p: Parsers, cell: VectorCell, v: seq<F32>) {
    || cell == Blob(Encode(v))
    || (cell.Text? && p.utf8(cell.bytes).Some? && p.json(p.utf8(cell.bytes).value) == Some(v))
  }

  lemma DecodesIff(p: Parsers, cell: VectorCell, v: seq<F32>)
    ensures DecodeVectorCell(p, cell) == Vector(v) <==> Holds(p, cell, v)
  {
    DecodeEncode(v);
    if cell.Blob? && Decode(cell.bytes).Some? {
      EncodeDecode(cell.bytes);
    }
  }

  /** A cell holds at most one vector, and why it holds none. */
  lemma DecodeReasons(p: Parsers, cell: VectorCell)
    ensures DecodeVectorCell(p, cell) == Bad(BadBlobSize) <==> cell.Blob? && |cell.bytes| % 4 != 0
    ensures DecodeVectorCell(p, cell) == Bad(BadUtf8) <==> cell.Text? && p.utf8(cell.bytes).None?
    ensures DecodeVectorCell(p, cell) == Bad(BadJson) <==>
              cell.Text? && p.utf8(cell.bytes).Some? && p.json(p.utf8(cell.bytes).value).None?
    ensures DecodeVectorCell(p, cell) == Bad(NullValue) <==> cell.Null?
    ensures DecodeVectorCell(p, cell) == Bad(UnsupportedType) <==> cell.Integer? || cell.Real?
    ensures (exists v :: Holds(p, cell, v)) <==> DecodeVectorCell(p, cell).Vector?
    ensures forall v, w | Holds(p, cell, v) && Holds(p, cell, w) :: v == w
  {
    forall v, w | Holds(p, cell, v) && Holds(p, cell, w)
      ensures v == w && DecodeVectorCell(p, cell).Vector?
    {
      DecodesIff(p, cell, v);
      DecodesIff(p, cell, w);
    }
    if DecodeVectorCell(p, cell).Vector? {
      DecodesIff(p, cell, DecodeVectorCell(p, cell).v);
    }
  }

  /** Healthy: the cell holds a finite vector of the stored dimension, which is positive. */
  lemma HealthyExactly(p: Parsers, row: VectorRow)
    ensures HealthProblem(p, row).None? <==>
              exists v :: Holds(p, row.cell, v) && |v| == row.dimension > 0 && AllFinite(v)
  {
    forall v
      ensures DecodeVectorCell(p, row.cell) == Vector(v) <==> Holds(p, row.cell, v)
    {
      DecodesIff(p, row.cell, v);
    }
  }

  /** Recall reads a vector exactly when the cell holds it, it is finite, and query, column and vector agree on the
      dimension. */
  lemma RecallReadsExactly(p: Parsers, row: VectorRow, d: nat, v: seq<F32>)
    ensures RecallVector(p, row, d) == Some(v) <==> Holds(p, row.cell, v) && d == row.dimension == |v| && AllFinite(v)
  {
    DecodesIff(p, row.cell, v);
  }

  /** Repair rewrites a row exactly when its dimension is positive and its cell holds a non-empty finite vector, as text
      or under a wrong dimension; and it is content exactly with the blob of such a vector under its dimension. */
  lemma RepairsExactly(p: Parsers, row: VectorRow, v: seq<F32>)
    ensures RepairVerdict(p, row) == Repairable(v) <==>
              && row.dimension > 0 && Holds(p, row.cell, v) && v != [] && AllFinite(v)
              && (row.cell.Text? || |v| != row.dimension)
    ensures RepairVerdict(p, row) == Repairable(v) ==> RepairRow(p, row) == VectorRow(|v|, Blob(Encode(v)))
    ensures !RepairVerdict(p, row).Repairable? ==> RepairRow(p, row) == row
    ensures RepairVerdict(p, row) == Unchanged <==>
              exists u :: row == VectorRow(|u|, Blob(Encode(u))) && u != [] && AllFinite(u)
  {
    DecodesIff(p, row.cell, v);
    if RepairVerdict(p, row) == Unchanged {
      var u := DecodeVectorCell(p, row.cell).v;
      DecodesIff(p, row.cell, u);
      assert row == VectorRow(|u|, Blob(Encode(u)));
    }
    if u :| row == VectorRow(|u|, Blob(Encode(u))) && u != [] && AllFinite(u) {
      DecodesIff(p, row.cell, u);
      assert Holds(p, row.cell, u);
    }
  }

  /** Migration v2 turns text that parses to a non-empty finite vector into its blob under its dimension, and leaves
      every other row alone. */
  lemma MigratesExactly(p: Parsers, row: VectorRow, v: seq<F32>)
    ensures row.cell.Text? && Holds(p, row.cell, v) && v != [] && AllFinite(v) ==>
              MigrateRow(p, row) == VectorRow(|v|, Blob(Encode(v)))
    ensures MigrateRow(p, row) != row ==>
              exists u :: row.cell.Text? && Holds(p, row.cell, u) && u != [] && AllFinite(u)
  {
    DecodesIff(p, row.cell, v);
    MigrationConverts(p, row);
    if MigrateRow(p, row) != row {
      DecodesIff(p, row.cell, DecodeVectorCell(p, row.cell).v);
    }
  }

  // ----- whole tables -----

  /** The ids of `order` that are in `keep`, in that order. */
  ghost function Kept(order: seq<string>, keep: set<string>): seq<string> {
    if order == [] then []
    else Kept(order[..|order| - 1], keep) + if order[|order| - 1] in keep then [order[|order| - 1]] else []
  }

  /** Each kept id once, in the order of the scan. */
  lemma {:induction false} KeptMeans(order: seq<string>, keep: set<string>)
    requires NoDuplicates(order)
    ensures forall id :: id in Kept(order, keep) <==> id in order && id in keep
    ensures NoDuplicates(Kept(order, keep))
    ensures forall a, b, i, j | 0 <= a < b < |Kept(order, keep)| && 0 <= i < |order| && 0 <= j < |order| ::
              order[i] == Kept(order, keep)[a] && order[j] == Kept(order, keep)[b] ==> i < j
  {
    if order != [] {
      var n := |order| - 1;
      KeptMeans(order[..n], keep);
      assert order == order[..n] + [order[n]];
      assert forall id | id in Kept(order[..n], keep) :: id in order[..n];
    }
  }

  lemma KeptCount(order: seq<string>, keep: set<string>, kept: set<string>)
    requires NoDuplicates(order) && forall id :: id in kept <==> id in order && id in keep
    ensures |Kept(order, keep)| == |kept|
  {
    KeptMeans(order, keep);
    DistinctCount(Kept(order, keep));
    assert (set id | id in Kept(order, keep)) == kept;
  }

  ghost function Unhealthy(p: Parsers, vectors: map<string, VectorRow>): set<string> {
    set id | id in vectors && HealthProblem(p, vectors[id]).Some?
  }

  ghost function Refused(p: Parsers, vectors: map<string, VectorRow>): set<string> {
    set id | id in vectors && RepairVerdict(p, vectors[id]).Rejected?
  }

  ghost function ToRepair(p: Parsers, vectors: map<string, VectorRow>): set<string> {
    set id | id in vectors && RepairVerdict(p, vectors[id]).Repairable?
  }

  ghost function OfType(vectors: map<string, VectorRow>, name: string): set<string> {
    set id | id in vectors && SqliteTypeName(vectors[id].cell) == name
  }

  /** An issue of a row, if it has a problem. */
  ghost function IssueOf(id: string, row: VectorRow, problem: Option<Reason>): seq<Issue> {
    if problem.None? then [] else [Issue(id, SqliteTypeName(row.cell), problem.value)]
  }

  lemma UnhealthyLast(p: Parsers, vectors: map<string, VectorRow>, order: seq<string>)
    requires order != [] && forall id | id in order :: id in vectors
    ensures var last := order[|order| - 1];
            UnhealthyRows(p, Snapshots(vectors, order)) == UnhealthyRows(p, Snapshots(vectors, order[..|order| - 1])) +
              IssueOf(last, vectors[last], HealthProblem(p, vectors[last]))
  {
  }

  function RefusalOf(p: Parsers, row: VectorRow): Option<Reason> {
    var verdict := RepairVerdict(p, row);
    if verdict.Rejected? then Some(verdict.reason) else None
  }

  lemma RefusedLast(p: Parsers, vectors: map<string, VectorRow>, order: seq<string>)
    requires order != [] && forall id | id in order :: id in vectors
    ensures var last := order[|order| - 1];
            RejectedRows(p, Snapshots(vectors, order)) == RejectedRows(p, Snapshots(vectors, order[..|order| - 1])) +
              IssueOf(last, vectors[last], RefusalOf(p, vectors[last]))
  {
  }

  /** Each issue is that of its row, with the name SQLite gives the type of the cell. */
  ghost predicate IssuesOf(vectors: map<string, VectorRow>, issues: seq<Issue>, why: VectorRow -> Option<Reason>) {
    forall issue | issue in issues ::
      && issue.id in vectors && why(vectors[issue.id]) == Some(issue.reason)
      && issue.sqliteType == TypeName(vectors[issue.id].cell)
  }

  function TypeName(cell: VectorCell): string {
    if cell.Blob? then "blob" else if cell.Text? then "text"
    else if cell.Null? then "null" else if cell.Integer? then "integer" else "real"
  }

  lemma MoreIssues(
    vectors: map<string, VectorRow>, issues: seq<Issue>, id: string, why: VectorRow -> Option<Reason>,
    order: seq<string>, keep: set<string>)
    requires id in vectors && IssuesOf(vectors, issues, why) && (id in keep <==> why(vectors[id]).Some?)
    requires Ids(issues) == Kept(order, keep)
    ensures IssuesOf(vectors, issues + IssueOf(id, vectors[id], why(vectors[id])), why)
    ensures Ids(issues + IssueOf(id, vectors[id], why(vectors[id])))
         == Kept(order, keep) + if id in keep then [id] else []
  {
    IdsAppend(issues, IssueOf(id, vectors[id], why(vectors[id])));
  }

  lemma {:induction false} UnhealthyAreKept(p: Parsers, vectors: map<string, VectorRow>, order: seq<string>)
    requires forall id | id in order :: id in vectors
    ensures Ids(UnhealthyRows(p, Snapshots(vectors, order))) == Kept(order, Unhealthy(p, vectors))
    ensures IssuesOf(vectors, UnhealthyRows(p, Snapshots(vectors, order)), row => HealthProblem(p, row))
  {
    if order != [] {
      var front, last := order[..|order| - 1], order[|order| - 1];
      UnhealthyAreKept(p, vectors, front);
      UnhealthyLast(p, vectors, order);
      MoreIssues(vectors, UnhealthyRows(p, Snapshots(vectors, front)), last, row => HealthProblem(p, row),
                 front, Unhealthy(p, vectors));
    }
  }

  lemma {:induction false} RefusedAreKept(p: Parsers, vectors: map<string, VectorRow>, order: seq<string>)
    requires forall id | id in order :: id in vectors
    ensures Ids(RejectedRows(p, Snapshots(vectors, order))) == Kept(order, Refused(p, vectors))
    ensures IssuesOf(vectors, RejectedRows(p, Snapshots(vectors, order)), row => RefusalOf(p, row))
  {
    if order != [] {
      var front, last := order[..|order| - 1], order[|order| - 1];
      RefusedAreKept(p, vectors, front);
      RefusedLast(p, vectors, order);
      MoreIssues(vectors, RejectedRows(p, Snapshots(vectors, front)), last, row => RefusalOf(p, row),
                 front, Refused(p, vectors));
    }
  }

  lemma {:induction false} PlannedAreKept(p: Parsers, vectors: map<string, VectorRow>, order: seq<string>)
    requires forall id | id in order :: id in vectors
    ensures |RepairEntries(p, Snapshots(vectors, order))| == |Kept(order, ToRepair(p, vectors))|
  {
    if order != [] {
      PlannedAreKept(p, vectors, order[..|order| - 1]);
      EntriesOfLast(p, vectors, order);
    }
  }

  lemma {:induction false} TypesAreKept(vectors: map<string, VectorRow>, order: seq<string>, name: string)
    requires forall id | id in order :: id in vectors
    ensures CountType(Snapshots(vectors, order), name) == |Kept(order, OfType(vectors, name))|
  {
    if order != [] {
      TypesAreKept(vectors, order[..|order| - 1], name);
    }
  }

  lemma {:induction false} SameKept(order: seq<string>, keep: set<string>, kept: set<string>)
    requires forall id | id in order :: id in keep <==> id in kept
    ensures Kept(order, keep) == Kept(order, kept)
  {
    if order != [] {
      SameKept(order[..|order| - 1], keep, kept);
    }
  }

  /** Issues of the kept rows, cut at the limit. */
  lemma CutIssues(
    vectors: map<string, VectorRow>, order: seq<string>, keep: set<string>, bad: set<string>, issues: seq<Issue>,
    why: VectorRow -> Option<Reason>, n: nat)
    requires NoDuplicates(order) && (forall id :: id in bad <==> id in order && id in keep)
    requires Ids(issues) == Kept(order, keep) && IssuesOf(vectors, issues, why)
    ensures |issues| == |bad| && Ids(Take(issues, n)) == Take(Kept(order, bad), n)
    ensures IssuesOf(vectors, Take(issues, n), why)
  {
    KeptCount(order, keep, bad);
    SameKept(order, keep, bad);
    IdsTake(issues, n);
    TakeMembers(issues, n);
    assert |Ids(issues)| == |issues|;
  }

  lemma TypeCount(vectors: map<string, VectorRow>, order: seq<string>, name: string, ids: set<string>)
    requires NoDuplicates(order) && forall id | id in order :: id in vectors
    requires forall id :: id in ids <==> id in order && SqliteTypeName(vectors[id].cell) == name
    ensures CountType(Snapshots(vectors, order), name) == |ids|
  {
    TypesAreKept(vectors, order, name);
    KeptCount(order, OfType(vectors, name), ids);
  }

  /**
   * The health report of a scan: its counts are the sizes of sets of scanned rows, and its samples are the first
   * unhealthy rows of the scan, never more than 2000, each with its problem.
   */
  lemma HealthCounts(p: Parsers, db: Db, order: seq<string>, limit: nat, bad: set<string>)
    requires NoDuplicates(order) && forall id | id in order :: id in db.vectors
    requires forall id :: id in bad <==> id in order && HealthProblem(p, db.vectors[id]).Some?
    ensures var h := HealthDb(p, db, order, limit);
            && h.totalRows == |order| && h.invalidRows == |bad| && h.validRows + h.invalidRows == h.totalRows
            && Ids(h.samples) == Take(Kept(order, bad), Min(limit, 2000))
            && IssuesOf(db.vectors, h.samples, row => HealthProblem(p, row))
  {
    var issues := UnhealthyRows(p, Snapshots(db.vectors, order));
    UnhealthyAreKept(p, db.vectors, order);
    CutIssues(db.vectors, order, Unhealthy(p, db.vectors), bad, issues, row => HealthProblem(p, row), Min(limit, 2000));
  }

  /** The health report counts blobs and texts among all scanned rows, whether valid or not. */
  lemma HealthTypes(p: Parsers, db: Db, order: seq<string>, limit: nat, blobs: set<string>, texts: set<string>)
    requires NoDuplicates(order) && forall id | id in order :: id in db.vectors
    requires forall id :: id in blobs <==> id in order && db.vectors[id].cell.Blob?
    requires forall id :: id in texts <==> id in order && db.vectors[id].cell.Text?
    ensures HealthDb(p, db, order, limit).blobRows == |blobs|
    ensures HealthDb(p, db, order, limit).textRows == |texts|
  {
    TypeCount(db.vectors, order, "blob", blobs);
    TypeCount(db.vectors, order, "text", texts);
  }

  /**
   * The report of a repair without a fault, dry or applied: every scanned row is counted under its verdict, the issues
   * are the first rejected rows of the scan, never more than 2000, and rows count as repaired only when the repair is
   * applied. A dry run changes nothing.
   */
  lemma RepairCounts(
    p: Parsers, db: Db, order: seq<string>, limit: nat, apply: bool, bad: set<string>, broken: set<string>)
    requires NoDuplicates(order) && forall id | id in order :: id in db.vectors
    requires forall id :: id in bad <==> id in order && RepairVerdict(p, db.vectors[id]).Rejected?
    requires forall id :: id in broken <==> id in order && RepairVerdict(p, db.vectors[id]).Repairable?
    ensures RepairDb(p, db, order, limit, apply, None).1.Ok?
    ensures var (db', r) := RepairDb(p, db, order, limit, apply, None);
            && r.value.apply == apply && r.value.totalRows == |order|
            && r.value.repairableRows == |broken| && r.value.invalidRows == |bad|
            && r.value.repairableRows + r.value.invalidRows + r.value.unchangedRows == |order|
            && r.value.repairedRows == (if apply then |broken| else 0)
            && Ids(r.value.issues) == Take(Kept(order, bad), Min(limit, 2000))
            && IssuesOf(db.vectors, r.value.issues, row => RefusalOf(p, row))
            && (!apply ==> db' == db)
  {
    var issues := RejectedRows(p, Snapshots(db.vectors, order));
    RefusedAreKept(p, db.vectors, order);
    CutIssues(db.vectors, order, Refused(p, db.vectors), bad, issues, row => RefusalOf(p, row), Min(limit, 2000));
    PlannedCount(p, db.vectors, order, broken);
    RepairWithoutFault(p, db, order, limit, apply);
    PlanCounts(p, Snapshots(db.vectors, order), apply, Min(limit, 2000));
  }

  lemma RepairWithoutFault(p: Parsers, db: Db, order: seq<string>, limit: nat, apply: bool)
    requires forall id | id in order :: id in db.vectors
    ensures var (db', r) := RepairDb(p, db, order, limit, apply, None);
            var rows := Snapshots(db.vectors, order);
            && r == Ok(PlanOf(p, rows, apply, Min(limit, 2000))
                       .(repairedRows := if apply then |RepairEntries(p, rows)| else 0))
            && (!apply ==> db' == db)
  {
  }

  lemma PlanCounts(p: Parsers, rows: seq<Snapshot>, apply: bool, limit: nat)
    ensures var n, bad := |RepairEntries(p, rows)|, RejectedRows(p, rows);
            var report := RepairReport(apply, |rows|, n, 0, |rows| - n - |bad|, |bad|, Take(bad, limit));
            PlanOf(p, rows, apply, limit) == report
  {
  }

  lemma PlannedCount(p: Parsers, vectors: map<string, VectorRow>, order: seq<string>, broken: set<string>)
    requires NoDuplicates(order) && forall id | id in order :: id in vectors
    requires forall id :: id in broken <==> id in order && RepairVerdict(p, vectors[id]).Repairable?
    ensures |RepairEntries(p, Snapshots(vectors, order))| == |broken|
  {
    PlannedAreKept(p, vectors, order);
    KeptCount(order, ToRepair(p, vectors), broken);
  }

  /** When a repair fails: its scan fails, or it is applied, has something to write, and meets a failing statement among
      its updates and the commit. It then changes nothing. */
  lemma RepairFailsIff(
    p: Parsers, db: Db, order: seq<string>, limit: nat, apply: bool, fault: Option<RepairFault>, broken: set<string>)
    requires NoDuplicates(order) && forall id | id in order :: id in db.vectors
    requires forall id :: id in broken <==> id in order && RepairVerdict(p, db.vectors[id]).Repairable?
    ensures var (db', r) := RepairDb(p, db, order, limit, apply, fault);
            && (r.Err? <==> || fault == Some(ScanFault)
                            || (apply && broken != {} && fault.Some? && fault.value.index <= |broken|))
            && (r.Err? ==> r == Err(Storage) && db' == db)
            && (r.Ok? ==> (db', r) == RepairDb(p, db, order, limit, apply, None))
  {
    PlannedCount(p, db.vectors, order, broken);
  }

  /** Migration v2 without a fault succeeds exactly when every text cell is UTF-8; it then rewrites each row as
      `MigratesExactly` says and nothing else, and otherwise changes nothing. */
  lemma MigrationSucceedsIff(p: Parsers, db: Db, order: seq<string>)
    ensures var (db', r) := MigrateDb(p, db, MigrationAborts(p, db.vectors, order, None));
            && (r.Ok? <==> forall id | id in db.vectors && db.vectors[id].cell.Text? ::
                             p.utf8(db.vectors[id].cell.bytes).Some?)
            && (r.Err? ==> r == Err(Storage) && db' == db)
            && (r.Ok? ==> db' == db.(vectors := db'.vectors) && db'.vectors.Keys == db.vectors.Keys &&
                          forall id | id in db.vectors :: db'.vectors[id] == MigrateRow(p, db.vectors[id]))
  {
    if SomeUnreadable(p, db.vectors) {
      var id :| id in db.vectors && Unreadable(p, db.vectors[id]);
      assert db.vectors[id].cell.Text? && p.utf8(db.vectors[id].cell.bytes).None?;
    } else {
      assert forall id | id in db.vectors :: !Unreadable(p, db.vectors[id]);
    }
  }
}
