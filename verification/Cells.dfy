/** Stored vector cells, and the three separate classifications of them: health, repair and recall. */
module Cells {
  import opened Prelude
  import opened Floats
  import opened Codec

  /** `str::from_utf8` and `serde_json::from_str::<Vec<f32>>`, both left uninterpreted. */
  datatype Parsers = Parsers(utf8: seq<Byte> -> Option<string>, json: string -> Option<seq<F32>>)

  datatype VectorCell = Blob(bytes: seq<Byte>) | Text(bytes: seq<Byte>) | Null | Integer(i: int) | Real(r: real)

  datatype VectorRow = VectorRow(dimension: int, cell: VectorCell)

  datatype Reason =
    | NegativeDimension(d: int) | ZeroDimension
    | BadBlobSize | BadUtf8 | BadJson | NullValue | UnsupportedType
    | EmptyOrNonFinite | DimensionMismatch(decoded: nat, expected: nat) | NonFinite

  datatype Decoded = Vector(v: seq<F32>) | Bad(reason: Reason)

  datatype Snapshot = Snapshot(id: string, row: VectorRow)

  datatype Issue = Issue(id: string, sqliteType: string, reason: Reason)

  datatype HealthReport = HealthReport(
    totalRows: nat, blobRows: nat, textRows: nat, validRows: nat, invalidRows: nat, samples: seq<Issue>)

  datatype RepairReport = RepairReport(
    apply: bool, totalRows: nat, repairableRows: nat, repairedRows: nat, unchangedRows: nat, invalidRows: nat,
    issues: seq<Issue>)

  datatype RepairEntry = RepairEntry(id: string, dimension: nat, blob: seq<Byte>)

  const SAMPLE_CAP: nat := 2000

  function SqliteTypeName(cell: VectorCell): string {
    match cell
    case Blob(_) => "blob"
    case Text(_) => "text"
    case Null => "null"
    case Integer(_) => "integer"
    case Real(_) => "real"
  }

  function DecodeVectorCell(p: Parsers, cell: VectorCell): Decoded {
    match cell
    case Blob(bytes) => (match Decode(bytes) case Some(v) => Vector(v) case None => Bad(BadBlobSize))
    case Text(bytes) => (
      match p.utf8(bytes)
      case None => Bad(BadUtf8)
      case Some(text) => match p.json(text) case Some(v) => Vector(v) case None => Bad(BadJson))
    case Null => Bad(NullValue)
    case Integer(_) => Bad(UnsupportedType)
    case Real(_) => Bad(UnsupportedType)
  }

  function DecodeVectorValue(p: Parsers, cell: VectorCell, expected: nat): Decoded {
    match DecodeVectorCell(p, cell)
    case Bad(reason) => Bad(reason)
    case Vector(v) =>
      if |v| != expected then Bad(DimensionMismatch(|v|, expected))
      else if !AllFinite(v) then Bad(NonFinite)
      else Vector(v)
  }

  // ----- health -----

  /** Why the health report counts a row as invalid, if it does. */
  function HealthProblem(p: Parsers, row: VectorRow): Option<Reason> {
    if row.dimension < 0 then Some(NegativeDimension(row.dimension))
    else if row.dimension == 0 then Some(ZeroDimension)
    else match DecodeVectorValue(p, row.cell, row.dimension)
         case Vector(_) => None
         case Bad(reason) => Some(reason)
  }

  function UnhealthyRows(p: Parsers, rows: seq<Snapshot>): (bad: seq<Issue>)
    ensures |bad| <= |rows|
  {
    if rows == [] then []
    else
      var last := rows[|rows| - 1];
      UnhealthyRows(p, rows[..|rows| - 1]) +
      match HealthProblem(p, last.row)
      case None => []
      case Some(reason) => [Issue(last.id, SqliteTypeName(last.row.cell), reason)]
  }

  function CountType(rows: seq<Snapshot>, name: string): (n: nat)
    ensures n <= |rows|
  {
    if rows == [] then 0
    else CountType(rows[..|rows| - 1], name) + if SqliteTypeName(rows[|rows| - 1].row.cell) == name then 1 else 0
  }

  function HealthOf(p: Parsers, rows: seq<Snapshot>, limit: nat): HealthReport {
    var bad := UnhealthyRows(p, rows);
    HealthReport(|rows|, CountType(rows, "blob"), CountType(rows, "text"), |rows| - |bad|, |bad|, Take(bad, limit))
  }

  /** `push_vector_issue_sample` and `push_vector_repair_issue`. */
  function PushIssue(issues: seq<Issue>, limit: nat, issue: Issue): seq<Issue> {
    if |issues| >= limit then issues else issues + [issue]
  }

  function HealthStep(p: Parsers, h: HealthReport, row: Snapshot, limit: nat): HealthReport {
    var name := SqliteTypeName(row.row.cell);
    var typed := h.(totalRows := h.totalRows + 1,
                    blobRows := h.blobRows + if name == "blob" then 1 else 0,
                    textRows := h.textRows + if name == "text" then 1 else 0);
    match HealthProblem(p, row.row)
    case None => typed.(validRows := h.validRows + 1)
    case Some(reason) =>
      typed.(invalidRows := h.invalidRows + 1, samples := PushIssue(h.samples, limit, Issue(row.id, name, reason)))
  }

  /** Counting one row at a time gives the totals over all rows. */
  lemma HealthOfAppend(p: Parsers, seen: seq<Snapshot>, row: Snapshot, limit: nat)
    ensures HealthOf(p, seen + [row], limit) == HealthStep(p, HealthOf(p, seen, limit), row, limit)
  {
    assert (seen + [row])[..|seen|] == seen;
  }

  method ApplyVectorHealthRow(p: Parsers, report: HealthReport, row: Snapshot, sampleLimit: nat)
    returns (r: HealthReport)
    ensures r == HealthStep(p, report, row, sampleLimit)
  {
    r := report.(totalRows := report.totalRows + 1);
    match row.row.cell {
      case Blob(_) => r := r.(blobRows := r.blobRows + 1);
      case Text(_) => r := r.(textRows := r.textRows + 1);
      case _ =>
    }
    var problem: Reason;
    if row.row.dimension < 0 {
      problem := NegativeDimension(row.row.dimension);
    } else if row.row.dimension == 0 {
      problem := ZeroDimension;
    } else {
      match DecodeVectorValue(p, row.row.cell, row.row.dimension) {
        case Vector(_) =>
          r := r.(validRows := r.validRows + 1);
          return;
        case Bad(reason) => problem := reason;
      }
    }
    var issue := Issue(row.id, SqliteTypeName(row.row.cell), problem);
    r := r.(invalidRows := r.invalidRows + 1, samples := PushIssue(r.samples, sampleLimit, issue));
  }

  /** The row loop of `vector_health_report`. */
  method ReportHealth(p: Parsers, rows: seq<Snapshot>, sampleLimit: nat) returns (report: HealthReport)
    ensures report == HealthOf(p, rows, sampleLimit)
  {
    report := HealthReport(0, 0, 0, 0, 0, []);
    for i := 0 to |rows|
      invariant report == HealthOf(p, rows[..i], sampleLimit)
    {
      assert rows[..i + 1] == rows[..i] + [rows[i]];
      HealthOfAppend(p, rows[..i], rows[i], sampleLimit);
      report := ApplyVectorHealthRow(p, report, rows[i], sampleLimit);
    }
    assert rows[..|rows|] == rows;
  }

  // ----- repair -----

  datatype Verdict = Rejected(reason: Reason) | Repairable(v: seq<F32>) | Unchanged

  function RepairVerdict(p: Parsers, row: VectorRow): Verdict {
    if row.dimension < 0 then Rejected(NegativeDimension(row.dimension))
    else if row.dimension == 0 then Rejected(ZeroDimension)
    else match DecodeVectorCell(p, row.cell)
         case Bad(reason) => Rejected(reason)
         case Vector(v) =>
           if |v| == 0 || !AllFinite(v) then Rejected(EmptyOrNonFinite)
           else if row.cell.Text? || (row.cell.Blob? && row.dimension != |v|) then Repairable(v)
           else Unchanged
  }

  function RejectedRows(p: Parsers, rows: seq<Snapshot>): (bad: seq<Issue>)
  {
    if rows == [] then []
    else
      var last := rows[|rows| - 1];
      RejectedRows(p, rows[..|rows| - 1]) +
      match RepairVerdict(p, last.row)
      case Rejected(reason) => [Issue(last.id, SqliteTypeName(last.row.cell), reason)]
      case _ => []
  }

  function RepairEntries(p: Parsers, rows: seq<Snapshot>): (entries: seq<RepairEntry>)
    ensures |entries| + |RejectedRows(p, rows)| <= |rows|
  {
    if rows == [] then []
    else
      var last := rows[|rows| - 1];
      RepairEntries(p, rows[..|rows| - 1]) +
      match RepairVerdict(p, last.row)
      case Repairable(v) => [RepairEntry(last.id, |v|, Encode(v))]
      case _ => []
  }

  /** The report of a dry run. */
  function PlanOf(p: Parsers, rows: seq<Snapshot>, apply: bool, limit: nat): RepairReport {
    var n := |RepairEntries(p, rows)|;
    var bad := RejectedRows(p, rows);
    RepairReport(apply, |rows|, n, 0, |rows| - n - |bad|, |bad|, Take(bad, limit))
  }

  function PlanStep(plan: RepairReport, row: Snapshot, verdict: Verdict, limit: nat): RepairReport {
    match verdict
    case Rejected(reason) =>
      plan.(invalidRows := plan.invalidRows + 1,
            issues := PushIssue(plan.issues, limit, Issue(row.id, SqliteTypeName(row.row.cell), reason)))
    case Repairable(_) => plan.(repairableRows := plan.repairableRows + 1)
    case Unchanged => plan.(unchangedRows := plan.unchangedRows + 1)
  }

  lemma PlanOfAppend(p: Parsers, seen: seq<Snapshot>, row: Snapshot, apply: bool, limit: nat, total: nat)
    ensures PlanOf(p, seen + [row], apply, limit).(totalRows := total)
         == PlanStep(PlanOf(p, seen, apply, limit).(totalRows := total), row, RepairVerdict(p, row.row), limit)
  {
    assert (seen + [row])[..|seen|] == seen;
  }

  lemma EntriesAppend(p: Parsers, seen: seq<Snapshot>, row: Snapshot)
    ensures RepairEntries(p, seen + [row]) == RepairEntries(p, seen) +
              match RepairVerdict(p, row.row)
              case Repairable(v) => [RepairEntry(row.id, |v|, Encode(v))]
              case _ => []
  {
    assert (seen + [row])[..|seen|] == seen;
  }

  /** The classification of one row in `vector_repair`'s loop. */
  method ClassifyForRepair(p: Parsers, row: VectorRow) returns (verdict: Verdict)
    ensures verdict == RepairVerdict(p, row)
  {
    if row.dimension < 0 {
      return Rejected(NegativeDimension(row.dimension));
    }
    if row.dimension == 0 {
      return Rejected(ZeroDimension);
    }
    var decoded := DecodeVectorCell(p, row.cell);
    if decoded.Bad? {
      return Rejected(decoded.reason);
    }
    if decoded.v == [] || !AllFinite(decoded.v) {
      return Rejected(EmptyOrNonFinite);
    }
    var needsRepair := match row.cell
      case Text(_) => true
      case Blob(_) => row.dimension != |decoded.v|
      case _ => false;
    verdict := if needsRepair then Repairable(decoded.v) else Unchanged;
  }

  lemma PlanLoopStep(p: Parsers, rows: seq<Snapshot>, i: nat, apply: bool, limit: nat)
    requires i < |rows|
    ensures PlanOf(p, rows[..i + 1], apply, limit).(totalRows := |rows|)
         == PlanStep(PlanOf(p, rows[..i], apply, limit).(totalRows := |rows|), rows[i],
                     RepairVerdict(p, rows[i].row), limit)
    ensures RepairEntries(p, rows[..i + 1]) == RepairEntries(p, rows[..i]) +
              match RepairVerdict(p, rows[i].row)
              case Repairable(v) => [RepairEntry(rows[i].id, |v|, Encode(v))]
              case _ => []
  {
    PlanOfAppend(p, rows[..i], rows[i], apply, limit, |rows|);
    EntriesAppend(p, rows[..i], rows[i]);
    assert rows[..i + 1] == rows[..i] + [rows[i]];
  }

  method CountVerdict(report: RepairReport, row: Snapshot, verdict: Verdict, sampleLimit: nat) returns (r: RepairReport)
    ensures r == PlanStep(report, row, verdict, sampleLimit)
  {
    match verdict {
      case Rejected(reason) =>
        var issue := Issue(row.id, SqliteTypeName(row.row.cell), reason);
        r := report.(invalidRows := report.invalidRows + 1, issues := PushIssue(report.issues, sampleLimit, issue));
      case Repairable(_) => r := report.(repairableRows := report.repairableRows + 1);
      case Unchanged => r := report.(unchangedRows := report.unchangedRows + 1);
    }
  }

  /** One round of the loop: count the verdict, and plan an entry for a repairable row. */
  method PlanRow(p: Parsers, report: RepairReport, entries: seq<RepairEntry>, row: Snapshot, sampleLimit: nat)
    returns (report': RepairReport, entries': seq<RepairEntry>)
    ensures report' == PlanStep(report, row, RepairVerdict(p, row.row), sampleLimit)
    ensures entries' == entries + match RepairVerdict(p, row.row)
                                  case Repairable(v) => [RepairEntry(row.id, |v|, Encode(v))]
                                  case _ => []
  {
    var verdict := ClassifyForRepair(p, row.row);
    report' := CountVerdict(report, row, verdict, sampleLimit);
    entries' := entries;
    if verdict.Repairable? {
      var blob := EncodeVectorBlob(verdict.v);
      entries' := entries + [RepairEntry(row.id, |verdict.v|, blob)];
    }
  }

  /** The row loop of `vector_repair`. */
  method PlanRepair(p: Parsers, rows: seq<Snapshot>, apply: bool, sampleLimit: nat)
    returns (report: RepairReport, entries: seq<RepairEntry>)
    ensures report == PlanOf(p, rows, apply, sampleLimit)
    ensures entries == RepairEntries(p, rows)
  {
    report := RepairReport(apply, |rows|, 0, 0, 0, 0, []);
    entries := [];
    for i := 0 to |rows|
      invariant entries == RepairEntries(p, rows[..i])
      invariant report == PlanOf(p, rows[..i], apply, sampleLimit).(totalRows := |rows|)
    {
      PlanLoopStep(p, rows, i, apply, sampleLimit);
      report, entries := PlanRow(p, report, entries, rows[i], sampleLimit);
    }
    assert rows[..|rows|] == rows;
  }

  /** What repair leaves in a row it scans. */
  function RepairRow(p: Parsers, row: VectorRow): VectorRow {
    match RepairVerdict(p, row)
    case Repairable(v) => VectorRow(|v|, Blob(Encode(v)))
    case _ => row
  }

  // ----- migration v2 -----

  /** A text cell that is not UTF-8: reading it as a `String` fails. */
  predicate Unreadable(p: Parsers, row: VectorRow) {
    row.cell.Text? && p.utf8(row.cell.bytes).None?
  }

  /** What migration v2 leaves in a row; it looks at text cells only and ignores the stored dimension. */
  function MigrateRow(p: Parsers, row: VectorRow): VectorRow {
    if !row.cell.Text? then row
    else match DecodeVectorCell(p, row.cell)
         case Bad(_) => row
         case Vector(v) => if |v| == 0 || !AllFinite(v) then row else VectorRow(|v|, Blob(Encode(v)))
  }

  // ----- recall -----

  /** The vector recall scores for a row, or None when it skips the row. */
  function RecallVector(p: Parsers, row: VectorRow, queryDimension: nat): Option<seq<F32>> {
    if row.dimension < 0 || row.dimension != queryDimension then None
    else match DecodeVectorValue(p, row.cell, row.dimension)
         case Bad(_) => None
         case Vector(v) => if AllFinite(v) then Some(v) else None
  }

  // ----- how the classifications fit together -----

  /** Health and recall agree: a row is healthy exactly when some query could score it. */
  lemma HealthyIffRecallable(p: Parsers, row: VectorRow)
    ensures HealthProblem(p, row).None? <==>
            exists d: nat :: d > 0 && RecallVector(p, row, d).Some?
    ensures forall d: nat | RecallVector(p, row, d).Some? :: row.dimension == d
  {
    if HealthProblem(p, row).None? {
      assert RecallVector(p, row, row.dimension).Some?;
    }
  }

  /** Health of a repaired row is repair's own verdict on the row. */
  lemma RepairThenHealth(p: Parsers, row: VectorRow)
    ensures HealthProblem(p, RepairRow(p, row)).Some? <==> RepairVerdict(p, row).Rejected?
    ensures RepairVerdict(p, row).Rejected? ==> RepairRow(p, row) == row
    ensures HealthProblem(p, row).None? ==> HealthProblem(p, RepairRow(p, row)).None?
  {
    match RepairVerdict(p, row)
    case Repairable(v) => DecodeEncode(v);
    case _ =>
  }

  /** A second repair changes nothing and finds nothing to do. */
  lemma RepairIdempotent(p: Parsers, row: VectorRow)
    ensures RepairRow(p, RepairRow(p, row)) == RepairRow(p, row)
    ensures !RepairVerdict(p, RepairRow(p, row)).Repairable?
    ensures RepairVerdict(p, RepairRow(p, row)).Unchanged? <==> !RepairVerdict(p, row).Rejected?
  {
    match RepairVerdict(p, row)
    case Repairable(v) => DecodeEncode(v);
    case _ =>
  }

  lemma MigrationIdempotent(p: Parsers, row: VectorRow)
    ensures MigrateRow(p, MigrateRow(p, row)) == MigrateRow(p, row)
  {
  }

  /** Migrating and repairing a row commute. */
  lemma MigrationRepairCommute(p: Parsers, row: VectorRow)
    ensures RepairRow(p, MigrateRow(p, row)) == MigrateRow(p, RepairRow(p, row))
  {
    if row.cell.Text? && DecodeVectorCell(p, row.cell).Vector? {
      DecodeEncode(DecodeVectorCell(p, row.cell).v);
    }
  }

  /** Whatever recall reads from a row, it reads from the migrated and from the repaired row. */
  lemma MaintenanceKeepsVector(p: Parsers, row: VectorRow, d: nat)
    requires RecallVector(p, row, d).Some?
    ensures RecallVector(p, RepairRow(p, row), d) == RecallVector(p, row, d)
    ensures RecallVector(p, MigrateRow(p, row), d) == RecallVector(p, row, d)
  {
    DecodeEncode(RecallVector(p, row, d).value);
  }

  /** Repairing a blob with a wrong dimension corrects the dimension and leaves its bytes as they are. */
  lemma RepairKeepsBlobBytes(p: Parsers, row: VectorRow)
    requires row.cell.Blob?
    ensures RepairRow(p, row).cell == row.cell
  {
    if Decode(row.cell.bytes).Some? {
      EncodeDecode(row.cell.bytes);
    }
  }

  /** A row that repair accepts ends up as a blob of the same vector under its true dimension. */
  lemma RepairedIsCompact(p: Parsers, row: VectorRow)
    requires !RepairVerdict(p, row).Rejected?
    ensures RepairRow(p, row).cell.Blob?
    ensures DecodeVectorCell(p, RepairRow(p, row).cell) == DecodeVectorCell(p, row.cell)
    ensures DecodeVectorCell(p, row.cell).Vector? && RepairRow(p, row).dimension == |DecodeVectorCell(p, row.cell).v|
  {
    DecodeEncode(DecodeVectorCell(p, row.cell).v);
  }

  /** Migration rewrites exactly the text cells that parse to a non-empty finite vector, and keeps the vector. */
  lemma MigrationConverts(p: Parsers, row: VectorRow)
    ensures var d := DecodeVectorCell(p, row.cell);
            MigrateRow(p, row) != row <==> row.cell.Text? && d.Vector? && |d.v| > 0 && AllFinite(d.v)
    ensures MigrateRow(p, row) != row ==>
              && MigrateRow(p, row).cell.Blob?
              && DecodeVectorCell(p, MigrateRow(p, row).cell) == DecodeVectorCell(p, row.cell)
              && MigrateRow(p, row).dimension == |DecodeVectorCell(p, row.cell).v|
  {
    if row.cell.Text? && DecodeVectorCell(p, row.cell).Vector? {
      DecodeEncode(DecodeVectorCell(p, row.cell).v);
    }
  }
}
