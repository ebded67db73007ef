/** Repair against other connections: its rows are read before its transaction, so writes may come in between. */
module Interleaving {
  import opened Prelude
  import opened Text
  import opened Floats
  import opened Codec
  import opened Cells
  import opened Timestamps
  import opened Tables
  import opened Scans
  import opened Refinement

  /** Puts and deletes, as other connections make them. */
  ghost predicate Writes(ops: seq<Op>) { forall i | 0 <= i < |ops| :: !ops[i].OpRepair? }

  /** What the repair's transaction leaves when it commits its entries on top of `db`. */
  function Commit(db: Db, entries: seq<RepairEntry>): Db { db.(vectors := ApplyEntries(db.vectors, entries)) }

  lemma {:induction false} EntriesAreHealthy(p: Parsers, rows: seq<Snapshot>)
    ensures forall e | e in RepairEntries(p, rows) :: HealthProblem(p, EntryRow(e)).None?
  {
    if rows != [] {
      EntriesAreHealthy(p, rows[..|rows| - 1]);
      RepairThenHealth(p, rows[|rows| - 1].row);
    }
  }

  /** After the update loop a row is its old self, or what some entry for it says. */
  lemma {:induction false} AppliedRow(vectors: map<string, VectorRow>, entries: seq<RepairEntry>, id: string)
    requires id in vectors
    ensures var row := ApplyEntries(vectors, entries)[id];
            if exists e :: e in entries && e.id == id then exists e :: e in entries && e.id == id && row == EntryRow(e)
            else row == vectors[id]
  {
    if entries != [] {
      var front, last := entries[..|entries| - 1], entries[|entries| - 1];
      AppliedRow(vectors, front, id);
      assert last in entries;
      assert forall e :: e in entries <==> e in front || e == last;
    }
  }

  lemma {:induction false} RunKeepsSchema(sv: Services, db: Db, ops: seq<Op>)
    requires SchemaOk(db) && LegalRun(sv, db, ops) && Writes(ops)
    ensures SchemaOk(Run(sv, db, ops))
    decreases |ops|
  {
    if ops != [] {
      match ops[0] {
        case OpPut(req, freshId, now, fault) => PutKeepsSchema(sv, db, req, freshId, now, fault);
        case OpDelete(req, fault) => DeleteKeepsSchema(db, req, fault);
      }
      RunKeepsSchema(sv, Step(sv, db, ops[0]), ops[1..]);
    }
  }

  /**
   * Whatever other connections put and delete between the snapshot and the transaction, the repair adds and
   * removes no row, leaves every row without an entry alone, writes only healthy rows, and never makes a healthy
   * row unhealthy; the constraints and the text index stay as the others left them.
   */
  lemma RepairUnderInterleaving(sv: Services, db: Db, order: seq<string>, others: seq<Op>)
    requires SchemaOk(db) && forall id | id in order :: id in db.vectors
    requires LegalRun(sv, db, others) && Writes(others)
    ensures var entries := RepairEntries(sv.parsers, Snapshots(db.vectors, order));
            var now := Run(sv, db, others);
            var after := Commit(now, entries);
            && SchemaOk(after) && after.memories == now.memories && after.fts == now.fts
            && after.vectors.Keys == now.vectors.Keys
            && (forall id | id in now.vectors ::
                  if exists e :: e in entries && e.id == id then HealthProblem(sv.parsers, after.vectors[id]).None?
                  else after.vectors[id] == now.vectors[id])
  {
    var entries := RepairEntries(sv.parsers, Snapshots(db.vectors, order));
    var now := Run(sv, db, others);
    RunKeepsSchema(sv, db, others);
    VectorUpdateKeepsSchema(now, ApplyEntries(now.vectors, entries));
    EntriesAreHealthy(sv.parsers, Snapshots(db.vectors, order));
    forall id | id in now.vectors
      ensures if exists e :: e in entries && e.id == id then
                HealthProblem(sv.parsers, Commit(now, entries).vectors[id]).None?
              else Commit(now, entries).vectors[id] == now.vectors[id]
    {
      AppliedRow(now.vectors, entries, id);
    }
  }

  /** A snapshot of an indexed store plans nothing, so then the repair is harmless under any interleaving. */
  lemma CleanSnapshotIsHarmless(sv: Services, dim: nat, db: Db, order: seq<string>, others: seq<Op>)
    requires FixedEmbedder(sv.embed, dim) && Indexed(sv, db) && LegalRun(sv, db, others)
    requires forall id | id in order :: id in db.vectors
    ensures Commit(Run(sv, db, others), RepairEntries(sv.parsers, Snapshots(db.vectors, order))) == Run(sv, db, others)
    ensures Indexed(sv, Run(sv, db, others))
  {
    IndexedPlansNothing(sv, dim, db, order);
    RunRefinesMap(sv, dim, db, others);
  }

  /** An entry carries what repair makes of the snapshot's row. */
  lemma {:induction false} EntriesCarryRepairs(p: Parsers, vectors: map<string, VectorRow>, order: seq<string>)
    requires forall id | id in order :: id in vectors
    ensures forall e | e in RepairEntries(p, Snapshots(vectors, order)) ::
              e.id in order && RepairVerdict(p, vectors[e.id]).Repairable? && EntryRow(e) == RepairRow(p, vectors[e.id])
    ensures forall id | id in order && RepairVerdict(p, vectors[id]).Repairable? ::
              exists e :: e in RepairEntries(p, Snapshots(vectors, order)) && e.id == id
  {
    if order != [] {
      var front, last := order[..|order| - 1], order[|order| - 1];
      EntriesCarryRepairs(p, vectors, front);
      EntriesOfLast(p, vectors, order);
      var before, all := RepairEntries(p, Snapshots(vectors, front)), RepairEntries(p, Snapshots(vectors, order));
      assert forall e :: e in before ==> e in all;
      assert forall id :: id in order <==> id in front || id == last;
      if RepairVerdict(p, vectors[last]).Repairable? {
        assert all[|before|].id == last && all[|before|] in all;
      }
    }
  }

  // ----- when a late commit is as good as an early one -----

  /** Whether the repair planned an entry for a row. */
  predicate Planned(p: Parsers, snapshot: map<string, VectorRow>, order: seq<string>, id: string) {
    id in order && id in snapshot && RepairVerdict(p, snapshot[id]).Repairable?
  }

  /** What the update loop leaves of every row it meets. */
  lemma LateRow(p: Parsers, snapshot: map<string, VectorRow>, order: seq<string>, vectors: map<string, VectorRow>,
                id: string)
    requires (forall k | k in order :: k in snapshot) && id in vectors
    ensures ApplyEntries(vectors, RepairEntries(p, Snapshots(snapshot, order)))[id]
         == if Planned(p, snapshot, order, id) then RepairRow(p, snapshot[id]) else vectors[id]
  {
    EntriesCarryRepairs(p, snapshot, order);
    AppliedRow(vectors, RepairEntries(p, Snapshots(snapshot, order)), id);
  }

  lemma {:induction false} WritesAreLegal(sv: Services, db: Db, ops: seq<Op>)
    requires Writes(ops)
    ensures LegalRun(sv, db, ops)
    decreases |ops|
  {
    if ops != [] {
      assert !ops[0].OpRepair?;
      WritesAreLegal(sv, Step(sv, db, ops[0]), ops[1..]);
    }
  }

  /** The record a call stores, whose vector row it rewrites. */
  ghost function StoredBy(sv: Services, db: Db, op: Op): set<string> {
    match op
    case OpPut(req, freshId, now, fault) =>
      var r := MapPut(sv, db.memories, req, freshId, now).1;
      if !PutAborts(req, fault) && r.Ok? then {r.value.id} else {}
    case _ => {}
  }

  /** The ids of the records that a run stores. */
  ghost function Rewritten(sv: Services, db: Db, ops: seq<Op>): set<string>
    requires LegalRun(sv, db, ops)
    decreases |ops|
  {
    if ops == [] then {} else StoredBy(sv, db, ops[0]) + Rewritten(sv, Step(sv, db, ops[0]), ops[1..])
  }

  /** The same tables up to the cells of the vector table. */
  predicate SameButCells(db: Db, other: Db) {
    other == db.(vectors := other.vectors) && other.vectors.Keys == db.vectors.Keys
  }

  /** A write does not look at vector cells: from tables that differ in cells alone it leaves such tables, equal in the
      row it stores and untouched in every other. */
  lemma WriteIgnoresCells(sv: Services, db: Db, other: Db, op: Op)
    requires SameButCells(db, other) && !op.OpRepair?
    ensures SameButCells(Step(sv, db, op), Step(sv, other, op)) && StoredBy(sv, db, op) == StoredBy(sv, other, op)
    ensures forall id | id in Step(sv, db, op).vectors ::
              var row, row' := Step(sv, db, op).vectors[id], Step(sv, other, op).vectors[id];
              if id in StoredBy(sv, db, op) then row' == row
              else id in db.vectors && row == db.vectors[id] && row' == other.vectors[id]
  {
    match op
    case OpPut(req, freshId, now, fault) => MapPutStoresOne(sv, db.memories, req, freshId, now);
    case OpDelete(req, fault) =>
  }

  lemma {:induction false} RunIgnoresCells(sv: Services, db: Db, other: Db, ops: seq<Op>)
    requires SameButCells(db, other) && Writes(ops) && LegalRun(sv, db, ops) && LegalRun(sv, other, ops)
    ensures SameButCells(Run(sv, db, ops), Run(sv, other, ops))
    ensures forall id | id in Run(sv, db, ops).vectors ::
              var row, row' := Run(sv, db, ops).vectors[id], Run(sv, other, ops).vectors[id];
              if id in Rewritten(sv, db, ops) then row' == row
              else id in db.vectors && row == db.vectors[id] && row' == other.vectors[id]
    decreases |ops|
  {
    if ops != [] {
      WriteIgnoresCells(sv, db, other, ops[0]);
      RunIgnoresCells(sv, Step(sv, db, ops[0]), Step(sv, other, ops[0]), ops[1..]);
    }
  }

  /** A planned row that others stored meanwhile and that does not hold what the repair will write. */
  ghost predicate Stale(sv: Services, db: Db, order: seq<string>, others: seq<Op>, id: string)
    requires LegalRun(sv, db, others) && id in Run(sv, db, others).vectors
  {
    && id in Rewritten(sv, db, others) && Planned(sv.parsers, db.vectors, order, id)
    && Run(sv, db, others).vectors[id] != RepairRow(sv.parsers, db.vectors[id])
  }

  /** Every planned row that still exists and that others stored meanwhile already holds what the repair will write. */
  ghost predicate NothingStale(sv: Services, db: Db, order: seq<string>, others: seq<Op>)
    requires LegalRun(sv, db, others)
  {
    forall id | id in Run(sv, db, others).vectors :: !Stale(sv, db, order, others, id)
  }

  /**
   * A repair whose transaction comes after the puts and deletes of other connections is equivalent to one that ran
   * before them, as if it had been serial, if and only if every planned row that they stored and left in place already
   * holds what the repair will write. Rows of any content count, legacy rows that nobody touched included.
   */
  lemma LateRepairIsSerialIff(sv: Services, db: Db, order: seq<string>, others: seq<Op>)
    requires (forall id | id in order :: id in db.vectors) && LegalRun(sv, db, others) && Writes(others)
    ensures var entries := RepairEntries(sv.parsers, Snapshots(db.vectors, order));
            && LegalRun(sv, Commit(db, entries), others)
            && (Commit(Run(sv, db, others), entries) == Run(sv, Commit(db, entries), others) <==>
                  NothingStale(sv, db, order, others))
  {
    var entries := RepairEntries(sv.parsers, Snapshots(db.vectors, order));
    var early, now := Commit(db, entries), Run(sv, db, others);
    WritesAreLegal(sv, early, others);
    RunIgnoresCells(sv, db, early, others);
    var serial, late := Run(sv, early, others), Commit(now, entries);
    forall id | id in now.vectors
      ensures late.vectors[id] == serial.vectors[id] <==>
                (id in Rewritten(sv, db, others) && Planned(sv.parsers, db.vectors, order, id) ==>
                   now.vectors[id] == RepairRow(sv.parsers, db.vectors[id]))
    {
      LateRow(sv.parsers, db.vectors, order, now.vectors, id);
      if id in db.vectors {
        LateRow(sv.parsers, db.vectors, order, db.vectors, id);
      }
    }
    SameCellsIff(late, serial);
  }

  lemma SameCellsIff(a: Db, b: Db)
    requires SameButCells(a, b)
    ensures a == b <==> forall id | id in a.vectors :: a.vectors[id] == b.vectors[id]
  {
  }

  /** The vector row of a record is the blob of its embedding. */
  ghost predicate RowExact(sv: Services, db: Db, id: string) {
    id in db.memories && id in db.vectors && db.vectors[id] == VectorRowFor(sv.embed(db.memories[id].content))
  }

  /** A write leaves the row it stores exact, and every other row with its record as it was. */
  lemma WriteKeepsRow(sv: Services, db: Db, op: Op, id: string)
    requires !op.OpRepair? && id in Step(sv, db, op).vectors
    ensures if id in StoredBy(sv, db, op) then RowExact(sv, Step(sv, db, op), id)
            else id in db.vectors && Step(sv, db, op).vectors[id] == db.vectors[id] &&
                 (id in db.memories ==>
                    id in Step(sv, db, op).memories && Step(sv, db, op).memories[id] == db.memories[id])
  {
    match op
    case OpPut(req, freshId, now, fault) => MapPutStoresOne(sv, db.memories, req, freshId, now);
    case OpDelete(req, fault) =>
  }

  lemma {:induction false} RunKeepsRow(sv: Services, db: Db, ops: seq<Op>, id: string)
    requires Writes(ops) && LegalRun(sv, db, ops) && id in Run(sv, db, ops).vectors
    ensures if id in Rewritten(sv, db, ops) then RowExact(sv, Run(sv, db, ops), id)
            else id in db.vectors && Run(sv, db, ops).vectors[id] == db.vectors[id] &&
                 (id in db.memories ==>
                    id in Run(sv, db, ops).memories && Run(sv, db, ops).memories[id] == db.memories[id])
    decreases |ops|
  {
    if ops != [] {
      var db1 := Step(sv, db, ops[0]);
      RunKeepsRow(sv, db1, ops[1..], id);
      if id in db1.vectors {
        WriteKeepsRow(sv, db, ops[0], id);
      }
    }
  }

  /** A planned row is never exact: an exact row needs no repair. */
  lemma PlannedIsNotExact(sv: Services, dim: nat, db: Db, id: string)
    requires FixedEmbedder(sv.embed, dim) && RowExact(sv, db, id)
    ensures RepairVerdict(sv.parsers, db.vectors[id]) == Unchanged
  {
    EmbeddedRow(sv.parsers, sv.embed(db.memories[id].content));
  }

  /**
   * The same condition without the history, as a compare-before-commit check would state it: every planned row that
   * still exists is as the snapshot saw it, or already holds what the repair will write.
   */
  lemma StaleIffChanged(sv: Services, dim: nat, db: Db, order: seq<string>, others: seq<Op>)
    requires FixedEmbedder(sv.embed, dim) && LegalRun(sv, db, others) && Writes(others)
    ensures var now := Run(sv, db, others);
            NothingStale(sv, db, order, others) <==>
              forall id | id in now.vectors && Planned(sv.parsers, db.vectors, order, id) ::
                now.vectors[id] == db.vectors[id] || now.vectors[id] == RepairRow(sv.parsers, db.vectors[id])
  {
    var now := Run(sv, db, others);
    forall id | id in now.vectors && Planned(sv.parsers, db.vectors, order, id)
      ensures id in Rewritten(sv, db, others) <==> now.vectors[id] != db.vectors[id]
    {
      RunKeepsRow(sv, db, others, id);
      if id in Rewritten(sv, db, others) {
        PlannedIsNotExact(sv, dim, now, id);
      }
    }
  }

  /** The rows from which a late commit takes "vector equals embedding" are exactly the stale ones. */
  lemma LateRepairHarmsStaleRows(sv: Services, dim: nat, db: Db, order: seq<string>, others: seq<Op>, id: string)
    requires FixedEmbedder(sv.embed, dim) && forall k | k in order :: k in db.vectors
    requires LegalRun(sv, db, others) && Writes(others) && id in Run(sv, db, others).vectors
    ensures var now := Run(sv, db, others);
            var late := Commit(now, RepairEntries(sv.parsers, Snapshots(db.vectors, order)));
            RowExact(sv, now, id) && !RowExact(sv, late, id) <==> Stale(sv, db, order, others, id)
  {
    var now := Run(sv, db, others);
    LateRow(sv.parsers, db.vectors, order, now.vectors, id);
    RunKeepsRow(sv, db, others, id);
    if RowExact(sv, now, id) {
      PlannedIsNotExact(sv, dim, now, id);
    }
  }

  /** "Vector equals embedding" under interleaving: a late commit takes it from no row if and only if nothing is
      stale. */
  lemma LateRepairKeepsExactIff(sv: Services, dim: nat, db: Db, order: seq<string>, others: seq<Op>)
    requires FixedEmbedder(sv.embed, dim) && forall id | id in order :: id in db.vectors
    requires LegalRun(sv, db, others) && Writes(others)
    ensures var now := Run(sv, db, others);
            var late := Commit(now, RepairEntries(sv.parsers, Snapshots(db.vectors, order)));
            (forall id | RowExact(sv, now, id) :: RowExact(sv, late, id)) <==> NothingStale(sv, db, order, others)
  {
    var now := Run(sv, db, others);
    var late := Commit(now, RepairEntries(sv.parsers, Snapshots(db.vectors, order)));
    if NothingStale(sv, db, order, others) {
      forall id | RowExact(sv, now, id)
        ensures RowExact(sv, late, id)
      {
        LateRepairHarmsStaleRows(sv, dim, db, order, others, id);
      }
    } else {
      var id :| id in now.vectors && Stale(sv, db, order, others, id);
      LateRepairHarmsStaleRows(sv, dim, db, order, others, id);
    }
  }

  /** The id, record and tables of the example below: one record whose vector cell is legacy text. */
  function LegacyDb(sv: Services, cell: seq<Byte>, past: DateTime): Db {
    var row := MemoryRow("n", Some("x"), "old", Metadata(true, ""), sv.hash("old"), past, past);
    Db(map["a" := row], map["a" := VectorRow(1, Text(cell))], map[0 := FtsRow("old", "n", "a")], 1)
  }

  /**
   * A snapshot with legacy rows can go stale: another connection overwrites the record, which rebuilds its vector,
   * and the repair then writes the vector of the old content over it. "Vector equals embedding" is an
   * invariant of serial runs only.
   */
  lemma StaleRepair(sv: Services, dim: nat, cell: seq<Byte>, v: seq<F32>, past: DateTime, now: DateTime)
    requires FixedEmbedder(sv.embed, dim)
    requires DecodeVectorCell(sv.parsers, Text(cell)) == Vector(v) && v != [] && AllFinite(v)
    requires v != sv.embed("new")
    ensures var db := LegacyDb(sv, cell, past);
            var op := OpPut(PutRequest("n", Some("x"), "new", Metadata(true, "")), "b", now, None);
            var entries := RepairEntries(sv.parsers, Snapshots(db.vectors, ["a"]));
            && SchemaOk(db) && Scan(db.memories, VectorIds(db, None), ["a"])
            && Indexed(sv, Step(sv, db, op))
            && !Indexed(sv, Commit(Step(sv, db, op), entries))
  {
    var db := LegacyDb(sv, cell, past);
    var op := OpPut(PutRequest("n", Some("x"), "new", Metadata(true, "")), "b", now, None);
    LegacyIsLegal(sv, cell, past);
    LegacyEntries(sv, cell, v, past);
    LegacyOverwritten(sv, cell, past, now);
    StaleEntry(sv, Step(sv, db, op), "a", v);
  }

  lemma ApplyOne(vectors: map<string, VectorRow>, e: RepairEntry)
    ensures ApplyEntries(vectors, [e]) == UpdateVector(vectors, e)
  {
    var none: seq<RepairEntry> := [];
    assert [e][..0] == none;
    assert ApplyEntries(vectors, none) == vectors;
  }

  /** Writing an entry whose vector is not the embedding of the record breaks the vector index. */
  lemma StaleEntry(sv: Services, db: Db, id: string, v: seq<F32>)
    requires id in db.vectors && id in db.memories && v != sv.embed(db.memories[id].content)
    ensures !VectorsExact(sv, db.memories, Commit(db, [RepairEntry(id, |v|, Encode(v))]).vectors)
  {
    ApplyOne(db.vectors, RepairEntry(id, |v|, Encode(v)));
    DifferentRows(v, sv.embed(db.memories[id].content));
  }

  lemma DifferentRows(v: seq<F32>, w: seq<F32>)
    requires v != w
    ensures VectorRowFor(v) != VectorRowFor(w)
  {
    if Encode(v) == Encode(w) {
      EncodeInjective(v, w);
    }
  }

  lemma LegacyIsLegal(sv: Services, cell: seq<Byte>, past: DateTime)
    ensures var db := LegacyDb(sv, cell, past);
            SchemaOk(db) && Scan(db.memories, VectorIds(db, None), ["a"]) && FtsExact(db.memories, db.fts)
  {
    var db := LegacyDb(sv, cell, past);
    assert VectorIds(db, None) == {"a"};
    assert db.fts[0].memoryId == "a" && HasFts(db.fts, "a");
  }

  lemma LegacyEntries(sv: Services, cell: seq<Byte>, v: seq<F32>, past: DateTime)
    requires DecodeVectorCell(sv.parsers, Text(cell)) == Vector(v) && v != [] && AllFinite(v)
    ensures RepairEntries(sv.parsers, Snapshots(LegacyDb(sv, cell, past).vectors, ["a"]))
         == [RepairEntry("a", |v|, Encode(v))]
  {
    var row := Snapshot("a", VectorRow(1, Text(cell)));
    assert Snapshots(LegacyDb(sv, cell, past).vectors, ["a"]) == [row];
    EntriesAppend(sv.parsers, [], row);
    assert [] + [row] == [row];
  }

  lemma LegacyPut(sv: Services, cell: seq<Byte>, past: DateTime, now: DateTime)
    ensures var db := LegacyDb(sv, cell, past);
            var req := PutRequest("n", Some("x"), "new", Metadata(true, ""));
            var rec := Record("a", UpdatedRow(sv, db.memories["a"], req, now));
            PutDb(sv, db, req, "b", now, None).0 == Reindexed(sv, db.(memories := db.memories["a" := rec.row]), rec)
  {
    var db := LegacyDb(sv, cell, past);
    var req := PutRequest("n", Some("x"), "new", Metadata(true, ""));
    assert ValidPut(req) by {
      assert TrimStart("n") == "n" && TrimEnd("n") == "n" && TrimStart("x") == "x" && TrimEnd("x") == "x";
    }
    assert HasExternal(db.memories, "a", "n", "x");
  }

  lemma OnlyVector(v: map<string, VectorRow>, id: string, row: VectorRow)
    requires v.Keys <= {id}
    ensures v[id := row] == map[id := row]
  {
  }

  /** Rebuilding the index rows of the only record gives an indexed store. */
  lemma OnlyRecordReindexed(sv: Services, db: Db, rec: Record)
    requires SchemaOk(db) && FtsExact(db.memories, db.fts) && db.memories.Keys == {rec.id}
    requires UniqueExternal(db.memories[rec.id := rec.row])
    ensures var db' := Reindexed(sv, db.(memories := db.memories[rec.id := rec.row]), rec);
            && Indexed(sv, db') && db'.vectors == map[rec.id := VectorRowFor(sv.embed(rec.row.content))]
  {
    ReindexedFts(sv, db, rec);
    ReindexedSchema(sv, db, rec);
    OnlyVector(db.vectors, rec.id, VectorRowFor(sv.embed(rec.row.content)));
    assert db.memories[rec.id := rec.row].Keys == {rec.id};
  }

  lemma OneKeyIsUnique(m: Memories, id: string)
    requires m.Keys == {id}
    ensures UniqueExternal(m)
  {
  }

  /** The overwriting put leaves an indexed store. */
  lemma LegacyOverwritten(sv: Services, cell: seq<Byte>, past: DateTime, now: DateTime)
    ensures var req := PutRequest("n", Some("x"), "new", Metadata(true, ""));
            var db' := PutDb(sv, LegacyDb(sv, cell, past), req, "b", now, None).0;
            && Indexed(sv, db') && db'.vectors == map["a" := VectorRowFor(sv.embed("new"))]
            && "a" in db'.memories && db'.memories["a"].content == "new"
  {
    var db := LegacyDb(sv, cell, past);
    var req := PutRequest("n", Some("x"), "new", Metadata(true, ""));
    var rec := Record("a", UpdatedRow(sv, db.memories["a"], req, now));
    LegacyPut(sv, cell, past, now);
    LegacyIsLegal(sv, cell, past);
    OneKeyIsUnique(db.memories["a" := rec.row], "a");
    OnlyRecordReindexed(sv, db, rec);
  }
}
