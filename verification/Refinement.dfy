/** Serial runs of the store: the three tables stay a function of one plain map of records. */
module Refinement {
  import opened Prelude
  import opened Text
  import opened Floats
  import opened Codec
  import opened Cells
  import opened Timestamps
  import opened Tables
  import opened Scans

  /** What is assumed of the embedder: one positive dimension and finite entries. */
  ghost predicate FixedEmbedder(embed: string -> seq<F32>, dim: nat) {
    dim > 0 && forall text :: |embed(text)| == dim && AllFinite(embed(text))
  }

  /** A call that may change the tables, with its fresh inputs and the statement that fails, if any. */
  datatype Op =
    | OpPut(put: PutRequest, freshId: string, now: DateTime, putFault: Option<PutStage>)
    | OpDelete(key: KeyRequest, deleteFault: Option<DeleteStage>)
    | OpRepair(ns: Option<string>, limit: nat, apply: bool, order: seq<string>, repairFault: Option<RepairFault>)

  ghost predicate LegalOp(db: Db, op: Op) {
    op.OpRepair? ==> Scan(db.memories, VectorIds(db, op.ns), op.order)
  }

  ghost function Step(sv: Services, db: Db, op: Op): Db
    requires LegalOp(db, op)
  {
    match op
    case OpPut(req, freshId, now, fault) => PutDb(sv, db, req, freshId, now, fault).0
    case OpDelete(req, fault) => DeleteDb(db, req, fault).0
    case OpRepair(_, limit, apply, order, fault) => RepairDb(sv.parsers, db, order, limit, apply, fault).0
  }

  ghost predicate LegalRun(sv: Services, db: Db, ops: seq<Op>)
    decreases |ops|
  {
    ops == [] || (LegalOp(db, ops[0]) && LegalRun(sv, Step(sv, db, ops[0]), ops[1..]))
  }

  ghost function Run(sv: Services, db: Db, ops: seq<Op>): Db
    requires LegalRun(sv, db, ops)
    decreases |ops|
  {
    if ops == [] then db else Run(sv, Step(sv, db, ops[0]), ops[1..])
  }

  const EMPTY: Db := Db(map[], map[], map[], 0)

  /** The state after a serial run from the empty store. */
  ghost predicate Reached(sv: Services, ops: seq<Op>, db: Db) {
    LegalRun(sv, EMPTY, ops) && db == Run(sv, EMPTY, ops)
  }

  // ----- the plain map machine -----

  ghost function MapStep(sv: Services, m: Memories, op: Op): Memories {
    match op
    case OpPut(req, freshId, now, fault) => if PutAborts(req, fault) then m else MapPut(sv, m, req, freshId, now).0
    case OpDelete(req, fault) => if fault.Some? then m else MapDelete(m, req).0
    case OpRepair(_, _, _, _, _) => m
  }

  ghost function MapRun(sv: Services, m: Memories, ops: seq<Op>): Memories
    decreases |ops|
  {
    if ops == [] then m else MapRun(sv, MapStep(sv, m, ops[0]), ops[1..])
  }

  lemma PutRefines(sv: Services, db: Db, req: PutRequest, freshId: string, now: DateTime, fault: Option<PutStage>)
    ensures PutDb(sv, db, req, freshId, now, fault).0.memories ==
            if PutAborts(req, fault) then db.memories else MapPut(sv, db.memories, req, freshId, now).0
  {
    MapPutStoresOne(sv, db.memories, req, freshId, now);
  }

  lemma DeleteRefines(db: Db, req: KeyRequest, fault: Option<DeleteStage>)
    ensures DeleteDb(db, req, fault).0.memories == if fault.Some? then db.memories else MapDelete(db.memories, req).0
  {
    if fault.Some? {
      match fault.value {
        case DeleteBegin => case DeleteLookup => case DeleteFts => case DeleteMemory => case DeleteCommit =>
      }
    }
  }

  lemma StepRefines(sv: Services, db: Db, op: Op)
    requires LegalOp(db, op)
    ensures Step(sv, db, op).memories == MapStep(sv, db.memories, op)
  {
    match op
    case OpPut(req, freshId, now, fault) => PutRefines(sv, db, req, freshId, now, fault);
    case OpDelete(req, fault) => DeleteRefines(db, req, fault);
    case OpRepair(_, _, _, _, _) =>
  }

  /** The row `put` writes is what repair leaves alone, health counts as valid, and recall can score. */
  lemma EmbeddedRow(p: Parsers, v: seq<F32>)
    requires v != [] && AllFinite(v)
    ensures RepairVerdict(p, VectorRowFor(v)) == Unchanged
    ensures HealthProblem(p, VectorRowFor(v)).None?
    ensures RecallVector(p, VectorRowFor(v), |v|) == Some(v)
  {
    DecodeEncode(v);
  }

  /** Every row of an indexed table is a blob of the right dimension, so repair plans nothing. */
  lemma {:induction false} IndexedPlansNothing(sv: Services, dim: nat, db: Db, order: seq<string>)
    requires FixedEmbedder(sv.embed, dim) && VectorsExact(sv, db.memories, db.vectors)
    requires forall id | id in order :: id in db.vectors
    ensures RepairEntries(sv.parsers, Snapshots(db.vectors, order)) == []
  {
    if order != [] {
      IndexedPlansNothing(sv, dim, db, order[..|order| - 1]);
      EntriesOfLast(sv.parsers, db.vectors, order);
      EmbeddedRow(sv.parsers, sv.embed(db.memories[order[|order| - 1]].content));
    }
  }

  lemma StepKeepsIndex(sv: Services, dim: nat, db: Db, op: Op)
    requires FixedEmbedder(sv.embed, dim) && Indexed(sv, db) && LegalOp(db, op)
    ensures Indexed(sv, Step(sv, db, op))
  {
    match op
    case OpPut(req, freshId, now, fault) => PutKeepsIndex(sv, db, req, freshId, now, fault);
    case OpDelete(req, fault) => DeleteKeepsIndex(sv, db, req, fault);
    case OpRepair(_, _, _, order, _) => IndexedPlansNothing(sv, dim, db, order);
  }

  /**
   * The three-table store refines a plain map of records: after any serial run, whatever statements fail, the
   * memory table is what the map machine holds, every record has exactly one current FTS row and exactly one
   * vector row with the blob of its embedding, no index row is an orphan, and external ids are unique.
   */
  lemma {:induction false} RunRefinesMap(sv: Services, dim: nat, db: Db, ops: seq<Op>)
    requires FixedEmbedder(sv.embed, dim) && Indexed(sv, db) && LegalRun(sv, db, ops)
    ensures Run(sv, db, ops).memories == MapRun(sv, db.memories, ops)
    ensures Indexed(sv, Run(sv, db, ops))
    decreases |ops|
  {
    if ops != [] {
      StepRefines(sv, db, ops[0]);
      StepKeepsIndex(sv, dim, db, ops[0]);
      RunRefinesMap(sv, dim, Step(sv, db, ops[0]), ops[1..]);
    }
  }

  lemma EmptyIsIndexed(sv: Services)
    ensures Indexed(sv, EMPTY)
  {
  }

  // ----- failures -----

  /**
   * When a put reports an error, the tables are unchanged, except in exactly one case: the record was committed
   * and reading it back failed.
   */
  lemma FailedPut(sv: Services, db: Db, req: PutRequest, freshId: string, now: DateTime, fault: Option<PutStage>)
    requires PutDb(sv, db, req, freshId, now, fault).1.Err?
    ensures PutDb(sv, db, req, freshId, now, fault).0 == db <==>
              fault != Some(PutFetch) || MapPut(sv, db.memories, req, freshId, now).1.Err?
  {
    MapPutStoresOne(sv, db.memories, req, freshId, now);
    assert fault == Some(PutFetch) && MapPut(sv, db.memories, req, freshId, now).1.Ok? ==>
        PutDb(sv, db, req, freshId, now, fault).0.nextRowid == db.nextRowid + 1;
  }

  /** The call reports an error. */
  ghost predicate Fails(sv: Services, db: Db, op: Op)
    requires LegalOp(db, op)
  {
    match op
    case OpPut(req, freshId, now, fault) => PutDb(sv, db, req, freshId, now, fault).1.Err?
    case OpDelete(req, fault) => DeleteDb(db, req, fault).1.Err?
    case OpRepair(_, limit, apply, order, fault) => RepairDb(sv.parsers, db, order, limit, apply, fault).1.Err?
  }

  /** A put whose record is committed and then cannot be read back. */
  ghost predicate CommittedUnread(sv: Services, db: Db, op: Op) {
    op.OpPut? && op.putFault == Some(PutFetch) && MapPut(sv, db.memories, op.put, op.freshId, op.now).1.Ok?
  }

  /** A call that reports an error left the tables unchanged, except exactly such a put. */
  lemma FailedStep(sv: Services, db: Db, op: Op)
    requires LegalOp(db, op) && Fails(sv, db, op)
    ensures Step(sv, db, op) == db <==> !CommittedUnread(sv, db, op)
  {
    match op
    case OpPut(req, freshId, now, fault) => FailedPut(sv, db, req, freshId, now, fault);
    case OpDelete(req, fault) => FailedDelete(db, req, fault);
    case OpRepair(_, _, _, _, _) =>
  }

  /** A delete that reports an error left the tables unchanged, and it succeeds exactly when the record exists. */
  lemma FailedDelete(db: Db, req: KeyRequest, fault: Option<DeleteStage>)
    ensures DeleteDb(db, req, fault).1.Err? ==> DeleteDb(db, req, fault).0 == db
    ensures DeleteDb(db, req, fault).1.Ok? <==> fault.None? && MapSelect(db.memories, req).Ok?
  {
    if fault.Some? {
      match fault.value {
        case DeleteBegin => case DeleteLookup => case DeleteFts => case DeleteMemory => case DeleteCommit =>
      }
    }
  }

  /** The calls of a run that report success, and the puts that were committed and not read back. */
  ghost function Effective(sv: Services, db: Db, ops: seq<Op>): seq<Op>
    requires LegalRun(sv, db, ops)
    decreases |ops|
  {
    if ops == [] then []
    else
      var rest := Effective(sv, Step(sv, db, ops[0]), ops[1..]);
      if Fails(sv, db, ops[0]) && !CommittedUnread(sv, db, ops[0]) then rest else [ops[0]] + rest
  }

  /** Failed calls leave no trace in a run: it ends in the tables of the run without them. */
  lemma {:induction false} FailuresLeaveNoTrace(sv: Services, db: Db, ops: seq<Op>)
    requires LegalRun(sv, db, ops)
    ensures LegalRun(sv, db, Effective(sv, db, ops))
    ensures Run(sv, db, Effective(sv, db, ops)) == Run(sv, db, ops)
    decreases |ops|
  {
    if ops != [] {
      var op, rest := ops[0], ops[1..];
      FailuresLeaveNoTrace(sv, Step(sv, db, op), rest);
      if Fails(sv, db, op) && !CommittedUnread(sv, db, op) {
        FailedStep(sv, db, op);
      } else {
        var kept := Effective(sv, Step(sv, db, op), rest);
        assert Effective(sv, db, ops) == [op] + kept && ([op] + kept)[1..] == kept;
      }
    }
  }

  // ----- round trips -----

  /** Whether a key request is malformed for the store. */
  predicate Malformed(req: KeyRequest) {
    Trim(req.namespace) == "" || (req.id.Some? <==> req.externalId.Some?) ||
    (req.externalId.Some? && Trim(req.externalId.value) == "")
  }

  /** A selector is invalid exactly when it is malformed, and finds exactly the record of its namespace that it
      names. */
  lemma SelectOutcome(m: Memories, req: KeyRequest, id: string)
    requires UniqueExternal(m)
    ensures MapSelect(m, req) == Err(Validation) <==> Malformed(req)
    ensures !Malformed(req) ==>
              (MapSelect(m, req) == Ok(id) <==>
                 id in m && m[id].namespace == req.namespace &&
                 (req.id == Some(id) || (req.externalId.Some? && m[id].externalId == req.externalId)))
    ensures MapSelect(m, req).Ok? || MapSelect(m, req) == Err(Validation) || MapSelect(m, req) == Err(NotFound)
  {
    if req.externalId.Some? {
      assert HasExternal(m, id, req.namespace, req.externalId.value) <==>
             id in m && m[id].namespace == req.namespace && m[id].externalId == req.externalId;
    }
  }

  /**
   * What was put is what get returns, by id and by external id: the request's content, metadata and hash at the
   * time of the call. An overwritten record keeps its id and creation time, a new one starts now under the fresh
   * id, and no other record changes.
   */
  lemma PutThenGet(sv: Services, m: Memories, req: PutRequest, freshId: string, now: DateTime)
    requires UniqueExternal(m) && MapPut(sv, m, req, freshId, now).1.Ok?
    ensures var (m', r) := MapPut(sv, m, req, freshId, now);
            var id, row := r.value.id, r.value.row;
            && MapGet(m', KeyRequest(req.namespace, Some(id), None)) == r
            && (req.externalId.Some? ==> MapGet(m', KeyRequest(req.namespace, None, req.externalId)) == r)
            && row.namespace == req.namespace && row.externalId == req.externalId && row.content == req.content
            && row.metadata == req.metadata && row.contentHash == sv.hash(req.content) && row.updatedAt == now
            && (if id in m then
                  req.externalId.Some? && row.createdAt == m[id].createdAt && m[id].externalId == req.externalId
                else id == freshId && row.createdAt == now)
            && m'.Keys == m.Keys + {id}
            && (forall k | k in m && k != id :: m'[k] == m[k])
  {
    var (m', r) := MapPut(sv, m, req, freshId, now);
    MapPutKeepsUnique(sv, m, req, freshId, now);
    if req.externalId.Some? {
      assert HasExternal(m', r.value.id, req.namespace, req.externalId.value);
    }
  }

  /** A deleted record is gone under both selectors, and every other record stays. */
  lemma DeleteThenGet(m: Memories, req: KeyRequest)
    requires UniqueExternal(m) && MapDelete(m, req).1.Ok?
    ensures var m' := MapDelete(m, req).0;
            var id := MapSelect(m, req).value;
            && MapGet(m', req) == Err(NotFound)
            && (forall k | k in m && k != id :: k in m' && m'[k] == m[k])
            && m'.Keys == m.Keys - {id}
  {
    var m' := MapDelete(m, req).0;
    if req.externalId.Some? {
      forall k
        ensures !HasExternal(m', k, req.namespace, req.externalId.value)
      {
        if HasExternal(m', k, req.namespace, req.externalId.value) {
          assert HasExternal(m, k, req.namespace, req.externalId.value);
        }
      }
    }
  }

  /** Removing what `update_aux_indexes` added for a new record leaves the tables as they were. */
  lemma RemoveInserted(sv: Services, db: Db, rec: Record)
    requires rec.id !in db.memories && rec.id !in db.vectors
    requires forall k | k in db.fts :: k < db.nextRowid && db.fts[k].memoryId != rec.id
    ensures var db' := Reindexed(sv, db.(memories := db.memories[rec.id := rec.row]), rec);
            && db'.memories - {rec.id} == db.memories
            && db'.vectors - {rec.id} == db.vectors
            && WithoutFts(db'.fts, rec.id) == db.fts
            && db'.nextRowid == db.nextRowid + 1
  {
  }

  lemma InsertOutcome(sv: Services, db: Db, req: PutRequest, freshId: string, now: DateTime)
    requires freshId !in db.memories && ValidPut(req)
    requires req.externalId.Some? ==> FindExternal(db.memories, req.namespace, req.externalId.value).None?
    ensures var rec := Record(freshId, NewRow(sv, req, now));
            PutDb(sv, db, req, freshId, now, None) ==
            (Reindexed(sv, db.(memories := db.memories[freshId := rec.row]), rec), Ok(rec))
  {
  }

  lemma DeleteOutcome(db: Db, ns: string, id: string)
    requires Trim(ns) != "" && id in db.memories && db.memories[id].namespace == ns
    ensures DeleteDb(db, KeyRequest(ns, Some(id), None), None)
         == (db.(memories := db.memories - {id}, vectors := db.vectors - {id}, fts := WithoutFts(db.fts, id)), Ok(()))
  {
  }

  /** Deleting a record that a put inserted restores all three tables. */
  lemma InsertThenDelete(sv: Services, db: Db, req: PutRequest, freshId: string, now: DateTime)
    requires Indexed(sv, db) && freshId !in db.memories && ValidPut(req)
    requires req.externalId.Some? ==> FindExternal(db.memories, req.namespace, req.externalId.value).None?
    ensures var (db', r) := PutDb(sv, db, req, freshId, now, None);
            var (db'', d) := DeleteDb(db', KeyRequest(req.namespace, Some(freshId), None), None);
            r.Ok? && d.Ok? && db'' == db.(nextRowid := db.nextRowid + 1)
  {
    var rec := Record(freshId, NewRow(sv, req, now));
    RemoveInserted(sv, db, rec);
    InsertOutcome(sv, db, req, freshId, now);
    DeleteOutcome(PutDb(sv, db, req, freshId, now, None).0, req.namespace, freshId);
  }
}
