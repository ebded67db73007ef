/** Scans in `updated_at DESC` order, and vector maintenance over whole tables. */
module Scans {
  import opened Prelude
  import opened Codec
  import opened Cells
  import opened Timestamps
  import opened Tables

  // ----- what a scan may answer -----

  ghost predicate Newer(m: Memories, a: string, b: string)
    requires a in m && b in m
  {
    Before(m[b].updatedAt, m[a].updatedAt)
  }

  /** Every row is followed by one that is not newer. */
  ghost predicate NewestFirst(m: Memories, order: seq<string>) {
    |order| < 2 ||
    (order[0] in m && order[1] in m && !Newer(m, order[1], order[0]) && NewestFirst(m, order[1..]))
  }

  /** The ids once each, newest first; rows of one instant come in any order. */
  ghost predicate Scan(m: Memories, ids: set<string>, order: seq<string>) {
    && NoDuplicates(order)
    && (forall id :: id in order <==> id in ids)
    && (forall id | id in ids :: id in m)
    && NewestFirst(m, order)
  }

  /** The same with ORDER BY updated_at DESC read as SQLite reads it, on the stored text. */
  ghost predicate SqlScan(m: Memories, ids: set<string>, order: seq<string>) {
    && NoDuplicates(order)
    && (forall id :: id in order <==> id in ids)
    && (forall id | id in ids :: id in m)
    && (forall i, j | 0 <= i < j < |order| ::
          !LexLess(Rfc3339(m[order[i]].updatedAt), Rfc3339(m[order[j]].updatedAt)))
  }

  lemma NewerIsStrict(m: Memories, a: string, b: string, c: string)
    requires a in m && b in m && c in m
    ensures !(Newer(m, a, b) && Newer(m, b, a))
    ensures Newer(m, a, b) && Newer(m, b, c) ==> Newer(m, a, c)
    ensures Newer(m, a, c) ==> Newer(m, a, b) || Newer(m, b, c)
  {
    BeforeIsStrictOrder(m[c].updatedAt, m[b].updatedAt, m[a].updatedAt);
    BeforeIsStrictOrder(m[b].updatedAt, m[a].updatedAt, m[b].updatedAt);
    BeforeIsStrictOrder(m[c].updatedAt, m[a].updatedAt, m[b].updatedAt);
  }

  lemma {:induction false} NewestFirstPairs(m: Memories, order: seq<string>, j: nat)
    requires forall id | id in order :: id in m
    requires NewestFirst(m, order) && 0 < j < |order|
    ensures !Newer(m, order[j], order[0])
  {
    if j > 1 {
      NewestFirstPairs(m, order[1..], j - 1);
      NewerIsStrict(m, order[j], order[1], order[0]);
    }
  }

  lemma {:induction false} NewestFirstIff(m: Memories, order: seq<string>)
    requires forall id | id in order :: id in m
    ensures NewestFirst(m, order) <==> forall i, j | 0 <= i < j < |order| :: !Newer(m, order[j], order[i])
  {
    if |order| >= 2 {
      var rest := order[1..];
      NewestFirstIff(m, rest);
      if NewestFirst(m, order) {
        forall i, j | 0 <= i < j < |order|
          ensures !Newer(m, order[j], order[i])
        {
          if i == 0 {
            NewestFirstPairs(m, order, j);
          } else {
            assert rest[i - 1] == order[i] && rest[j - 1] == order[j];
          }
        }
      }
    }
  }

  /** Text order is time order, so SQLite's answers are the chronological ones. */
  lemma SqlScanIsScan(m: Memories, ids: set<string>, order: seq<string>)
    ensures SqlScan(m, ids, order) <==> Scan(m, ids, order)
  {
    forall i, j | 0 <= i < j < |order| && order[i] in m && order[j] in m
      ensures LexLess(Rfc3339(m[order[i]].updatedAt), Rfc3339(m[order[j]].updatedAt)) <==> Newer(m, order[j], order[i])
    {
      TextOrderIsTimeOrder(m[order[i]].updatedAt, m[order[j]].updatedAt);
    }
    if forall id | id in order :: id in m {
      NewestFirstIff(m, order);
    }
  }

  function NamespaceIds(m: Memories, ns: string): set<string> {
    set id | id in m && m[id].namespace == ns
  }

  /** `memory_vectors JOIN memories`, of one namespace or of all. */
  function VectorIds(db: Db, ns: Option<string>): set<string> {
    set id | id in db.vectors && id in db.memories && (ns.None? || db.memories[id].namespace == ns.value)
  }

  lemma {:induction false} NewestExists(m: Memories, ids: set<string>) returns (top: string)
    requires ids != {} && forall id | id in ids :: id in m
    ensures top in ids && forall id | id in ids :: !Newer(m, id, top)
    decreases |ids|
  {
    top :| top in ids;
    NewerIsStrict(m, top, top, top);
    if ids != {top} {
      var y := NewestExists(m, ids - {top});
      forall id | id in ids
        ensures Newer(m, top, y) ==> !Newer(m, id, top)
        ensures !Newer(m, top, y) ==> !Newer(m, id, y)
      {
        NewerIsStrict(m, id, top, y);
      }
      if !Newer(m, top, y) {
        top := y;
      }
    }
  }

  /** SQL always has an answer. */
  lemma {:induction false} ScanExists(m: Memories, ids: set<string>) returns (order: seq<string>)
    requires forall id | id in ids :: id in m
    ensures Scan(m, ids, order)
    decreases |ids|
  {
    if ids == {} {
      return [];
    }
    var top := NewestExists(m, ids);
    var rest := ScanExists(m, ids - {top});
    order := [top] + rest;
    assert order[1..] == rest;
    if rest != [] {
      assert rest[0] in rest;
    }
    assert forall id :: id in order <==> id == top || id in rest;
  }

  lemma ScanSize(m: Memories, ids: set<string>, order: seq<string>)
    requires Scan(m, ids, order)
    ensures |order| == |ids|
  {
    DistinctCount(order);
    assert (set x | x in order) == ids;
  }

  // ----- repair and health over tables -----

  function Snapshots(vectors: map<string, VectorRow>, order: seq<string>): (rows: seq<Snapshot>)
    requires forall id | id in order :: id in vectors
    ensures |rows| == |order|
    ensures forall i | 0 <= i < |order| :: rows[i] == Snapshot(order[i], vectors[order[i]])
  {
    if order == [] then []
    else
      var last := order[|order| - 1];
      Snapshots(vectors, order[..|order| - 1]) + [Snapshot(last, vectors[last])]
  }

  function RepairTable(p: Parsers, vectors: map<string, VectorRow>, ids: set<string>): map<string, VectorRow> {
    map id | id in vectors :: if id in ids then RepairRow(p, vectors[id]) else vectors[id]
  }

  function MigrateTable(p: Parsers, vectors: map<string, VectorRow>): map<string, VectorRow> {
    map id | id in vectors :: MigrateRow(p, vectors[id])
  }

  function EntryRow(e: RepairEntry): VectorRow { VectorRow(e.dimension, Blob(e.blob)) }

  /** `UPDATE memory_vectors SET ... WHERE memory_id = ?` */
  function UpdateVector(vectors: map<string, VectorRow>, e: RepairEntry): map<string, VectorRow> {
    if e.id in vectors then vectors[e.id := EntryRow(e)] else vectors
  }

  /** The update loop of a repair: one UPDATE an entry. */
  function ApplyEntries(vectors: map<string, VectorRow>, entries: seq<RepairEntry>): (r: map<string, VectorRow>)
    ensures r.Keys == vectors.Keys
  {
    if entries == [] then vectors
    else UpdateVector(ApplyEntries(vectors, entries[..|entries| - 1]), entries[|entries| - 1])
  }

  lemma RepairTableAdd(p: Parsers, vectors: map<string, VectorRow>, ids: set<string>, id: string)
    requires id in vectors && id !in ids
    ensures RepairTable(p, vectors, ids + {id}) == RepairTable(p, vectors, ids)[id := RepairRow(p, vectors[id])]
    ensures RepairTable(p, vectors, ids)[id] == vectors[id]
  {
  }

  function IdSet(order: seq<string>): set<string> { set id | id in order }

  lemma IdSetAdd(order: seq<string>)
    requires order != []
    ensures IdSet(order) == IdSet(order[..|order| - 1]) + {order[|order| - 1]}
  {
    assert order == order[..|order| - 1] + [order[|order| - 1]];
  }

  lemma EntriesOfLast(p: Parsers, vectors: map<string, VectorRow>, order: seq<string>)
    requires order != [] && forall id | id in order :: id in vectors
    ensures var front, last := order[..|order| - 1], order[|order| - 1];
            RepairEntries(p, Snapshots(vectors, order)) == RepairEntries(p, Snapshots(vectors, front)) +
              match RepairVerdict(p, vectors[last])
              case Repairable(v) => [RepairEntry(last, |v|, Encode(v))]
              case _ => []
  {
    var front, last := order[..|order| - 1], order[|order| - 1];
    EntriesAppend(p, Snapshots(vectors, front), Snapshot(last, vectors[last]));
  }

  /** The entries planned from a scan repair exactly the scanned rows. */
  lemma {:induction false} EntriesOfScan(p: Parsers, vectors: map<string, VectorRow>, order: seq<string>)
    requires NoDuplicates(order) && forall id | id in order :: id in vectors
    ensures ApplyEntries(vectors, RepairEntries(p, Snapshots(vectors, order))) == RepairTable(p, vectors, IdSet(order))
  {
    if order == [] {
      assert RepairTable(p, vectors, IdSet(order)) == vectors;
    } else {
      var front, last := order[..|order| - 1], order[|order| - 1];
      EntriesOfScan(p, vectors, front);
      EntriesOfLast(p, vectors, order);
      IdSetAdd(order);
      assert last !in front;
      RepairTableAdd(p, vectors, IdSet(front), last);
      LastEntry(p, vectors, RepairEntries(p, Snapshots(vectors, front)), last);
    }
  }

  lemma LastEntry(p: Parsers, vectors: map<string, VectorRow>, before: seq<RepairEntry>, id: string)
    requires id in vectors && ApplyEntries(vectors, before)[id] == vectors[id]
    ensures ApplyEntries(vectors, before + match RepairVerdict(p, vectors[id])
                                           case Repairable(v) => [RepairEntry(id, |v|, Encode(v))]
                                           case _ => [])
         == ApplyEntries(vectors, before)[id := RepairRow(p, vectors[id])]
  {
    match RepairVerdict(p, vectors[id])
    case Repairable(v) =>
      var e := RepairEntry(id, |v|, Encode(v));
      assert (before + [e])[..|before|] == before;
    case _ =>
      assert before + [] == before;
  }

  function Ids(issues: seq<Issue>): seq<string> {
    seq(|issues|, i requires 0 <= i < |issues| => issues[i].id)
  }

  /** The rows a repair with apply leaves behind, row by row. */
  function Repaired(p: Parsers, rows: seq<Snapshot>): (r: seq<Snapshot>)
    ensures |r| == |rows|
  {
    seq(|rows|, i requires 0 <= i < |rows| => Snapshot(rows[i].id, RepairRow(p, rows[i].row)))
  }

  lemma {:induction false} RepairedRowsHealth(p: Parsers, rows: seq<Snapshot>)
    ensures Ids(UnhealthyRows(p, Repaired(p, rows))) == Ids(RejectedRows(p, rows))
    ensures RepairEntries(p, Repaired(p, rows)) == []
    ensures |RejectedRows(p, Repaired(p, rows))| == |RejectedRows(p, rows)|
  {
    var after := Repaired(p, rows);
    if rows == [] {
      assert after == [];
    } else {
      var front, last := rows[..|rows| - 1], rows[|rows| - 1];
      RepairedRowsHealth(p, front);
      assert after[..|rows| - 1] == Repaired(p, front);
      RepairThenHealth(p, last.row);
      RepairIdempotent(p, last.row);
      var before := UnhealthyRows(p, Repaired(p, front));
      IdsAppend(before, UnhealthyRows(p, after)[|before|..]);
    }
  }

  lemma IdsAppend(a: seq<Issue>, b: seq<Issue>)
    ensures Ids(a + b) == Ids(a) + Ids(b)
  {
  }

  lemma IdsTake(a: seq<Issue>, n: nat)
    ensures Ids(Take(a, n)) == Take(Ids(a), n)
  {
  }

  lemma SnapshotsOfRepaired(p: Parsers, vectors: map<string, VectorRow>, order: seq<string>)
    requires forall id | id in order :: id in vectors
    ensures Snapshots(RepairTable(p, vectors, IdSet(order)), order) == Repaired(p, Snapshots(vectors, order))
  {
  }

  /** Health of the repaired table agrees with the plan, and planning again finds nothing to repair. */
  lemma RepairedTableReports(p: Parsers, vectors: map<string, VectorRow>, order: seq<string>, limit: nat)
    requires forall id | id in order :: id in vectors
    ensures var plan := PlanOf(p, Snapshots(vectors, order), true, limit);
            var after := Snapshots(RepairTable(p, vectors, IdSet(order)), order);
            var health := HealthOf(p, after, limit);
            var again := PlanOf(p, after, true, limit);
            && health.invalidRows == plan.invalidRows
            && health.validRows == plan.repairableRows + plan.unchangedRows
            && Ids(health.samples) == Ids(plan.issues)
            && RepairEntries(p, after) == [] && again.repairableRows == 0
            && again.unchangedRows == plan.repairableRows + plan.unchangedRows
            && again.invalidRows == plan.invalidRows
  {
    var rows := Snapshots(vectors, order);
    SnapshotsOfRepaired(p, vectors, order);
    RepairedRowsHealth(p, rows);
    IdsTake(UnhealthyRows(p, Repaired(p, rows)), limit);
    IdsTake(RejectedRows(p, rows), limit);
    assert |Ids(UnhealthyRows(p, Repaired(p, rows)))| == |UnhealthyRows(p, Repaired(p, rows))|;
    assert |Ids(RejectedRows(p, rows))| == |RejectedRows(p, rows)|;
  }

  /** Migration and global repair commute and are each idempotent, as transformations of the whole table. */
  lemma TableAlgebra(p: Parsers, vectors: map<string, VectorRow>, all: set<string>)
    requires vectors.Keys <= all
    ensures RepairTable(p, MigrateTable(p, vectors), all) == MigrateTable(p, RepairTable(p, vectors, all))
    ensures RepairTable(p, RepairTable(p, vectors, all), all) == RepairTable(p, vectors, all)
    ensures MigrateTable(p, MigrateTable(p, vectors)) == MigrateTable(p, vectors)
  {
    forall id | id in vectors
      ensures RepairRow(p, MigrateRow(p, vectors[id])) == MigrateRow(p, RepairRow(p, vectors[id]))
      ensures RepairRow(p, RepairRow(p, vectors[id])) == RepairRow(p, vectors[id])
      ensures MigrateRow(p, MigrateRow(p, vectors[id])) == MigrateRow(p, vectors[id])
    {
      MigrationRepairCommute(p, vectors[id]);
      RepairIdempotent(p, vectors[id]);
      MigrationIdempotent(p, vectors[id]);
    }
  }

  /** Once migrated, no row that repair accepts needs repair for being text: only wrong dimensions are left. */
  lemma MigrationLeavesOnlyDimensions(p: Parsers, row: VectorRow)
    requires RepairVerdict(p, MigrateRow(p, row)).Repairable?
    ensures row.cell.Blob? && row.dimension > 0 && Decode(row.cell.bytes).Some?
    ensures row.dimension != |Decode(row.cell.bytes).value|
  {
    if row.cell.Text? && DecodeVectorCell(p, row.cell).Vector? {
      DecodeEncode(DecodeVectorCell(p, row.cell).v);
    }
  }

  // ----- the maintenance calls on the database -----

  /** Some text cell cannot be read as a string. */
  ghost predicate SomeUnreadable(p: Parsers, vectors: map<string, VectorRow>) {
    exists id :: id in vectors && Unreadable(p, vectors[id])
  }

  /** Where migration v2 can fail besides a text cell that is not UTF-8: the query of the version, its scan, the update
      of a scanned row, or the recording of the version with the commit. */
  datatype MigrationFault =
    | MigrationVersionFault | MigrationScanFault | MigrationUpdateFault(row: nat) | MigrationCommitFault

  /** Whether the fault meets a statement that the migration executes: only convertible rows are updated. */
  predicate MigrationAborts(
    p: Parsers, vectors: map<string, VectorRow>, order: seq<string>, fault: Option<MigrationFault>)
  {
    match fault
    case None => false
    case Some(MigrationVersionFault) => true
    case Some(MigrationScanFault) => true
    case Some(MigrationUpdateFault(i)) =>
      i < |order| && order[i] in vectors && MigrateRow(p, vectors[order[i]]) != vectors[order[i]]
    case Some(MigrationCommitFault) => true
  }

  /** Migration v2 on the tables: every row migrated, or an error and no change when a statement fails or a text cell is
      not UTF-8. */
  ghost function MigrateDb(p: Parsers, db: Db, aborts: bool): (Db, Result<()>) {
    if aborts || SomeUnreadable(p, db.vectors) then (db, Err(Storage))
    else (db.(vectors := MigrateTable(p, db.vectors)), Ok(()))
  }

  /** Where a repair can fail: its scan, or a statement of its transaction by index, the commit coming last. */
  datatype RepairFault = ScanFault | StatementFault(index: nat)

  function RepairDb(p: Parsers, db: Db, order: seq<string>, limit: nat, apply: bool, fault: Option<RepairFault>)
    : (Db, Result<RepairReport>)
    requires forall id | id in order :: id in db.vectors
  {
    var rows := Snapshots(db.vectors, order);
    var plan, entries := PlanOf(p, rows, apply, Min(limit, SAMPLE_CAP)), RepairEntries(p, rows);
    if fault == Some(ScanFault) then (db, Err(Storage))
    else if !apply || entries == [] then (db, Ok(plan))
    else if fault.Some? && fault.value.index <= |entries| then (db, Err(Storage))
    else (db.(vectors := ApplyEntries(db.vectors, entries)), Ok(plan.(repairedRows := |entries|)))
  }

  /** A repair that is applied without a fault leaves exactly the repaired table, also when nothing needs repair. */
  lemma RepairDbTable(p: Parsers, db: Db, order: seq<string>, limit: nat)
    requires NoDuplicates(order) && forall id | id in order :: id in db.vectors
    ensures var (db', r) := RepairDb(p, db, order, limit, true, None);
            && db' == db.(vectors := RepairTable(p, db.vectors, IdSet(order)))
            && r == Ok(PlanOf(p, Snapshots(db.vectors, order), true, Min(limit, SAMPLE_CAP))
                       .(repairedRows := |RepairEntries(p, Snapshots(db.vectors, order))|))
  {
    EntriesOfScan(p, db.vectors, order);
    var entries := RepairEntries(p, Snapshots(db.vectors, order));
    if entries == [] {
      assert ApplyEntries(db.vectors, entries) == db.vectors;
    }
  }

  lemma SameRowsSameIds(db: Db, vectors: map<string, VectorRow>, ns: Option<string>)
    requires vectors.Keys == db.vectors.Keys
    ensures VectorIds(db.(vectors := vectors), ns) == VectorIds(db, ns)
  {
  }

  /**
   * After a repair with apply of a namespace or of all rows, the same scan is still legal, and health agrees with
   * the repair: it counts as invalid what repair rejected and as valid what repair repaired or left unchanged, and
   * samples the same ids in the same order. Repairing again changes nothing and finds nothing to repair.
   */
  lemma RepairThenReport(p: Parsers, db: Db, ns: Option<string>, order: seq<string>, limit: nat)
    requires Scan(db.memories, VectorIds(db, ns), order)
    ensures var (db', r) := RepairDb(p, db, order, limit, true, None);
            && r.Ok? && Scan(db'.memories, VectorIds(db', ns), order) && Agree(r.value, HealthDb(p, db', order, limit))
    ensures var (db', r) := RepairDb(p, db, order, limit, true, None);
            var (db'', again) := RepairDb(p, db', order, limit, true, None);
            db'' == db' && again.Ok? && NothingLeft(r.value, again.value)
  {
    SameRowsSameIds(db, RepairTable(p, db.vectors, IdSet(order)), ns);
    RepairDbTable(p, db, order, limit);
    RepairedDbReports(p, db, order, limit);
  }

  /** Health after a repair with apply tells the same story as the repair. */
  predicate Agree(repair: RepairReport, health: HealthReport) {
    && repair.repairedRows == repair.repairableRows
    && health.totalRows == repair.totalRows
    && health.invalidRows == repair.invalidRows
    && health.validRows == repair.repairableRows + repair.unchangedRows
    && Ids(health.samples) == Ids(repair.issues)
  }

  /** A second repair leaves alone what the first one repaired or left alone. */
  predicate NothingLeft(first: RepairReport, second: RepairReport) {
    && second.repairableRows == 0 && second.repairedRows == 0
    && second.unchangedRows == first.repairableRows + first.unchangedRows
    && second.invalidRows == first.invalidRows
  }

  lemma RepairedDbReports(p: Parsers, db: Db, order: seq<string>, limit: nat)
    requires NoDuplicates(order) && forall id | id in order :: id in db.vectors
    ensures var (db', r) := RepairDb(p, db, order, limit, true, None);
            var (db'', again) := RepairDb(p, db', order, limit, true, None);
            && r.Ok? && again.Ok? && db'' == db'
            && Agree(r.value, HealthDb(p, db', order, limit)) && NothingLeft(r.value, again.value)
  {
    RepairDbTable(p, db, order, limit);
    RepairedTableReports(p, db.vectors, order, Min(limit, SAMPLE_CAP));
    RepairWithNothing(p, db.(vectors := RepairTable(p, db.vectors, IdSet(order))), order, limit);
  }

  lemma RepairWithNothing(p: Parsers, db: Db, order: seq<string>, limit: nat)
    requires forall id | id in order :: id in db.vectors
    requires RepairEntries(p, Snapshots(db.vectors, order)) == []
    ensures RepairDb(p, db, order, limit, true, None)
         == (db, Ok(PlanOf(p, Snapshots(db.vectors, order), true, Min(limit, SAMPLE_CAP))))
  {
  }

  lemma MaintenanceKeepsText(p: Parsers, db: Db, all: set<string>)
    ensures SomeUnreadable(p, RepairTable(p, db.vectors, all)) <==> SomeUnreadable(p, db.vectors)
    ensures !SomeUnreadable(p, db.vectors) ==> !SomeUnreadable(p, MigrateTable(p, db.vectors))
  {
    var after := RepairTable(p, db.vectors, all);
    if id :| id in db.vectors && Unreadable(p, db.vectors[id]) {
      assert id in after && Unreadable(p, after[id]);
    }
  }

  /**
   * Migration v2 and global repair commute and are each idempotent, whatever the cells hold: either order leaves the
   * same tables, repair does not change whether migration succeeds, and migration does not change whether repair does.
   */
  lemma MaintenanceAlgebra(p: Parsers, db: Db, order: seq<string>, limit: nat)
    requires SchemaOk(db) && Scan(db.memories, VectorIds(db, None), order)
    ensures var repaired := RepairDb(p, db, order, limit, true, None).0;
            var (migrated, m) := MigrateDb(p, db, false);
            && RepairDb(p, migrated, order, limit, true, None).0 == MigrateDb(p, repaired, false).0
            && RepairDb(p, migrated, order, limit, true, None).1.Ok? && MigrateDb(p, repaired, false).1 == m
            && RepairDb(p, repaired, order, limit, true, None).0 == repaired
            && MigrateDb(p, migrated, false) == (migrated, m)
  {
    var all := IdSet(order);
    RepairDbTable(p, db, order, limit);
    var repaired, migrated := RepairDb(p, db, order, limit, true, None).0, MigrateDb(p, db, false).0;
    RepairDbTable(p, repaired, order, limit);
    RepairDbTable(p, migrated, order, limit);
    TableAlgebra(p, db.vectors, all);
    MaintenanceKeepsText(p, db, all);
  }

  /** A repair changes nothing, or runs its update loop to the end. */
  lemma RepairDbShape(
    p: Parsers, db: Db, order: seq<string>, limit: nat, apply: bool, fault: Option<RepairFault>)
    requires forall id | id in order :: id in db.vectors
    ensures var db' := RepairDb(p, db, order, limit, apply, fault).0;
            db' == db || db' == db.(vectors := ApplyEntries(db.vectors, RepairEntries(p, Snapshots(db.vectors, order))))
  {
  }

  function HealthDb(p: Parsers, db: Db, order: seq<string>, limit: nat): HealthReport
    requires forall id | id in order :: id in db.vectors
  {
    HealthOf(p, Snapshots(db.vectors, order), Min(limit, SAMPLE_CAP))
  }
}
