/** The three tables, the plain map of records they stand for, and what every statement sequence leaves in them. */
module Tables {
  import opened Prelude
  import opened Text
  import opened Floats
  import opened Codec
  import opened Cells
  import opened Timestamps

  datatype Metadata = Metadata(isObject: bool, json: string)

  datatype MemoryRow = MemoryRow(
    namespace: string, externalId: Option<string>, content: string, metadata: Metadata,
    contentHash: string, createdAt: DateTime, updatedAt: DateTime)

  datatype FtsRow = FtsRow(content: string, namespace: string, memoryId: string)

  /** `memories` and `memory_vectors` by primary key; `memory_fts` by rowid, so duplicates are representable. */
  datatype Db = Db(
    memories: map<string, MemoryRow>, vectors: map<string, VectorRow>, fts: map<nat, FtsRow>, nextRowid: nat)

  datatype Record = Record(id: string, row: MemoryRow)

  datatype PutRequest = PutRequest(
    namespace: string, externalId: Option<string>, content: string, metadata: Metadata)

  /** `MemoryGetRequest` and `MemoryDeleteRequest`, which have the same fields. */
  datatype KeyRequest = KeyRequest(namespace: string, id: Option<string>, externalId: Option<string>)

  /** What the store calls but does not define: the embedder, the content hash and the two parsers. */
  datatype Services = Services(embed: string -> seq<F32>, hash: string -> string, parsers: Parsers)

  // ----- the plain map of records -----

  type Memories = map<string, MemoryRow>

  ghost predicate HasExternal(m: Memories, id: string, ns: string, ext: string) {
    id in m && m[id].namespace == ns && m[id].externalId == Some(ext)
  }

  ghost function FindExternal(m: Memories, ns: string, ext: string): (r: Option<string>)
    ensures r.Some? ==> HasExternal(m, r.value, ns, ext)
    ensures r.None? ==> forall id :: !HasExternal(m, id, ns, ext)
  {
    if exists id :: HasExternal(m, id, ns, ext) then
      var id :| HasExternal(m, id, ns, ext);
      Some(id)
    else None
  }

  predicate ValidPut(req: PutRequest) {
    Trim(req.namespace) != "" && (req.externalId.Some? ==> Trim(req.externalId.value) != "") && req.metadata.isObject
  }

  function NewRow(sv: Services, req: PutRequest, now: DateTime): MemoryRow {
    MemoryRow(req.namespace, req.externalId, req.content, req.metadata, sv.hash(req.content), now, now)
  }

  function UpdatedRow(sv: Services, row: MemoryRow, req: PutRequest, now: DateTime): MemoryRow {
    row.(content := req.content, metadata := req.metadata, contentHash := sv.hash(req.content), updatedAt := now)
  }

  /** Put on a plain map: insert under a new id, or overwrite the record with the same external id. */
  ghost function MapPut(sv: Services, m: Memories, req: PutRequest, freshId: string, now: DateTime)
    : (r: (Memories, Result<Record>))
  {
    if !ValidPut(req) then (m, Err(Validation))
    else
      var existing := if req.externalId.Some? then FindExternal(m, req.namespace, req.externalId.value) else None;
      if existing.Some? then
        var row := UpdatedRow(sv, m[existing.value], req, now);
        (m[existing.value := row], Ok(Record(existing.value, row)))
      else if freshId in m then (m, Err(Storage))
      else
        var row := NewRow(sv, req, now);
        (m[freshId := row], Ok(Record(freshId, row)))
  }

  /** `selector_from_request` followed by the lookup in the request's namespace. */
  ghost function MapSelect(m: Memories, req: KeyRequest): (r: Result<string>)
    ensures r.Ok? ==> r.value in m && m[r.value].namespace == req.namespace
  {
    if Trim(req.namespace) == "" then Err(Validation)
    else match (req.id, req.externalId)
         case (Some(_), Some(_)) => Err(Validation)
         case (None, None) => Err(Validation)
         case (Some(id), None) =>
           if id in m && m[id].namespace == req.namespace then Ok(id) else Err(NotFound)
         case (None, Some(ext)) =>
           if Trim(ext) == "" then Err(Validation)
           else match FindExternal(m, req.namespace, ext)
                case Some(id) => Ok(id)
                case None => Err(NotFound)
  }

  ghost function MapGet(m: Memories, req: KeyRequest): Result<Record> {
    match MapSelect(m, req)
    case Ok(id) => Ok(Record(id, m[id]))
    case Err(e) => Err(e)
  }

  /** Get when the read of the row may fail; the selector is checked before. */
  ghost function GetOutcome(m: Memories, req: KeyRequest, readFails: bool): Result<Record> {
    var r := MapGet(m, req);
    if readFails && r != Err(Validation) then Err(Storage) else r
  }

  ghost function MapDelete(m: Memories, req: KeyRequest): (Memories, Result<()>) {
    match MapSelect(m, req)
    case Ok(id) => (m - {id}, Ok(()))
    case Err(e) => (m, Err(e))
  }

  // ----- the three tables -----

  /** Where a put can fail, in order: the embedder, the metadata, then the statements. */
  datatype PutStage =
    | PutEmbed(error: Error) | PutSerialize
    | PutBegin | PutLookup | PutWrite | PutFtsDelete | PutFtsInsert | PutVector | PutCommit | PutFetch

  datatype DeleteStage = DeleteBegin | DeleteLookup | DeleteFts | DeleteMemory | DeleteCommit

  function WithoutFts(fts: map<nat, FtsRow>, id: string): map<nat, FtsRow> {
    map r | r in fts && fts[r].memoryId != id :: fts[r]
  }

  function VectorRowFor(v: seq<F32>): VectorRow { VectorRow(|v|, Blob(Encode(v))) }

  /** `update_aux_indexes` for a stored record. */
  function Reindexed(sv: Services, db: Db, rec: Record): Db {
    db.(fts := WithoutFts(db.fts, rec.id)[db.nextRowid := FtsRow(rec.row.content, rec.row.namespace, rec.id)],
        nextRowid := db.nextRowid + 1,
        vectors := db.vectors[rec.id := VectorRowFor(sv.embed(rec.row.content))])
  }

  /** Whether a statement of the transaction fails. */
  predicate PutAborts(req: PutRequest, fault: Option<PutStage>) {
    fault.Some? && fault != Some(PutFetch) && (fault == Some(PutLookup) ==> req.externalId.Some?)
  }

  /** An embedder reports its own error, everything else is an error of the storage. */
  function PutError(fault: Option<PutStage>): Error {
    match fault
    case Some(PutEmbed(error)) => error
    case _ => Storage
  }

  /** Put on the tables: the map operation and, when it stores a record, its index rows. */
  ghost function PutDb(sv: Services, db: Db, req: PutRequest, freshId: string, now: DateTime, fault: Option<PutStage>)
    : (Db, Result<Record>)
  {
    if !ValidPut(req) then (db, Err(Validation))
    else if PutAborts(req, fault) then (db, Err(PutError(fault)))
    else
      var (m, r) := MapPut(sv, db.memories, req, freshId, now);
      if r.Err? then (db, r)
      else (Reindexed(sv, db.(memories := m), r.value), if fault == Some(PutFetch) then Err(Storage) else r)
  }

  ghost function DeleteDb(db: Db, req: KeyRequest, fault: Option<DeleteStage>): (Db, Result<()>) {
    var (m, r) := MapDelete(db.memories, req);
    if r == Err(Validation) then (db, r)
    else if fault == Some(DeleteBegin) || fault == Some(DeleteLookup) then (db, Err(Storage))
    else if r.Err? then (db, r)
    else if fault.Some? then (db, Err(Storage))
    else
      var id := MapSelect(db.memories, req).value;
      (db.(memories := m, vectors := db.vectors - {id}, fts := WithoutFts(db.fts, id)), r)
  }

  // ----- constraints and the index invariant -----

  ghost predicate UniqueExternal(m: Memories) {
    forall i, j, ns, ext :: HasExternal(m, i, ns, ext) && HasExternal(m, j, ns, ext) ==> i == j
  }

  /** What SQLite itself enforces: the unique index, the foreign key and fresh rowids. */
  ghost predicate SchemaOk(db: Db) {
    && UniqueExternal(db.memories)
    && db.vectors.Keys <= db.memories.Keys
    && forall r | r in db.fts :: r < db.nextRowid
  }

  ghost predicate HasFts(fts: map<nat, FtsRow>, id: string) {
    exists r :: r in fts && fts[r].memoryId == id
  }

  /** Every memory has exactly one FTS row, with its current content and namespace; no FTS row is an orphan. */
  ghost predicate FtsExact(m: Memories, fts: map<nat, FtsRow>) {
    && (forall r | r in fts ::
          fts[r].memoryId in m && fts[r].content == m[fts[r].memoryId].content &&
          fts[r].namespace == m[fts[r].memoryId].namespace)
    && (forall r, q | r in fts && q in fts && fts[r].memoryId == fts[q].memoryId :: r == q)
    && (forall id | id in m :: HasFts(fts, id))
  }

  /** Every memory has exactly one vector row, the blob of its embedding; no vector row is an orphan. */
  ghost predicate VectorsExact(sv: Services, m: Memories, vectors: map<string, VectorRow>) {
    && vectors.Keys == m.Keys
    && forall id | id in m :: vectors[id] == VectorRowFor(sv.embed(m[id].content))
  }

  ghost predicate Indexed(sv: Services, db: Db) {
    SchemaOk(db) && FtsExact(db.memories, db.fts) && VectorsExact(sv, db.memories, db.vectors)
  }

  lemma VectorUpdateKeepsSchema(db: Db, vectors: map<string, VectorRow>)
    requires SchemaOk(db) && vectors.Keys == db.vectors.Keys
    ensures SchemaOk(db.(vectors := vectors))
  {
  }

  lemma MapPutKeepsUnique(sv: Services, m: Memories, req: PutRequest, freshId: string, now: DateTime)
    requires UniqueExternal(m)
    ensures UniqueExternal(MapPut(sv, m, req, freshId, now).0)
  {
    var (m', r) := MapPut(sv, m, req, freshId, now);
    forall i, j, ns, ext | HasExternal(m', i, ns, ext) && HasExternal(m', j, ns, ext)
      ensures i == j
    {
      assert i in m && m[i].namespace == ns && m[i].externalId == Some(ext) ==> HasExternal(m, i, ns, ext);
      assert j in m && m[j].namespace == ns && m[j].externalId == Some(ext) ==> HasExternal(m, j, ns, ext);
    }
  }

  /** A successful put stores exactly one row, under the id it returns. */
  lemma MapPutStoresOne(sv: Services, m: Memories, req: PutRequest, freshId: string, now: DateTime)
    ensures var (m', r) := MapPut(sv, m, req, freshId, now);
            if r.Ok? then m' == m[r.value.id := r.value.row] && r.value.row.namespace == req.namespace
            else m' == m
  {
  }

  lemma ReindexedVectors(sv: Services, db: Db, rec: Record)
    requires VectorsExact(sv, db.memories, db.vectors)
    ensures VectorsExact(sv, db.memories[rec.id := rec.row], Reindexed(sv, db, rec).vectors)
  {
  }

  lemma ReindexedHasFts(sv: Services, db: Db, rec: Record, id: string)
    requires id == rec.id || HasFts(db.fts, id)
    requires forall r | r in db.fts :: r < db.nextRowid
    ensures HasFts(Reindexed(sv, db, rec).fts, id)
  {
    var fts' := Reindexed(sv, db, rec).fts;
    if id == rec.id {
      assert db.nextRowid in fts' && fts'[db.nextRowid].memoryId == id;
    } else {
      var r :| r in db.fts && db.fts[r].memoryId == id;
      assert r in fts' && fts'[r].memoryId == id;
    }
  }

  lemma ReindexedFts(sv: Services, db: Db, rec: Record)
    requires SchemaOk(db) && FtsExact(db.memories, db.fts)
    ensures FtsExact(db.memories[rec.id := rec.row], Reindexed(sv, db, rec).fts)
  {
    forall id | id in db.memories[rec.id := rec.row]
      ensures HasFts(Reindexed(sv, db, rec).fts, id)
    {
      ReindexedHasFts(sv, db, rec, id);
    }
  }

  lemma ReindexedSchema(sv: Services, db: Db, rec: Record)
    requires SchemaOk(db) && UniqueExternal(db.memories[rec.id := rec.row])
    ensures SchemaOk(Reindexed(sv, db.(memories := db.memories[rec.id := rec.row]), rec))
  {
  }

  /** Put either leaves the database alone or stores one record and its index rows. */
  lemma PutDbShape(sv: Services, db: Db, req: PutRequest, freshId: string, now: DateTime, fault: Option<PutStage>)
    ensures var db' := PutDb(sv, db, req, freshId, now, fault).0;
            var r := MapPut(sv, db.memories, req, freshId, now).1;
            || db' == db
            || (r.Ok? && db' == Reindexed(sv, db.(memories := db.memories[r.value.id := r.value.row]), r.value))
  {
    MapPutStoresOne(sv, db.memories, req, freshId, now);
  }

  /** Put keeps the index invariant, whatever statement fails. */
  lemma PutKeepsIndex(sv: Services, db: Db, req: PutRequest, freshId: string, now: DateTime, fault: Option<PutStage>)
    requires Indexed(sv, db)
    ensures Indexed(sv, PutDb(sv, db, req, freshId, now, fault).0)
  {
    MapPutKeepsUnique(sv, db.memories, req, freshId, now);
    MapPutStoresOne(sv, db.memories, req, freshId, now);
    PutDbShape(sv, db, req, freshId, now, fault);
    var r := MapPut(sv, db.memories, req, freshId, now).1;
    if r.Ok? {
      ReindexedSchema(sv, db, r.value);
      ReindexedFts(sv, db, r.value);
      ReindexedVectors(sv, db, r.value);
    }
  }

  lemma DeleteKeepsIndex(sv: Services, db: Db, req: KeyRequest, fault: Option<DeleteStage>)
    requires Indexed(sv, db)
    ensures Indexed(sv, DeleteDb(db, req, fault).0)
  {
    var (db', r) := DeleteDb(db, req, fault);
    if r.Ok? {
      var id := MapSelect(db.memories, req).value;
      forall i, j, ns, ext | HasExternal(db'.memories, i, ns, ext) && HasExternal(db'.memories, j, ns, ext)
        ensures i == j
      {
        assert HasExternal(db.memories, i, ns, ext) && HasExternal(db.memories, j, ns, ext);
      }
      forall k | k in db'.memories
        ensures HasFts(db'.fts, k)
      {
        var q :| q in db.fts && db.fts[q].memoryId == k;
        assert q in db'.fts && db'.fts[q].memoryId == k;
      }
    }
  }

  /** The same for the constraints alone, which hold in every database the store opens. */
  lemma PutKeepsSchema(sv: Services, db: Db, req: PutRequest, freshId: string, now: DateTime, fault: Option<PutStage>)
    requires SchemaOk(db)
    ensures SchemaOk(PutDb(sv, db, req, freshId, now, fault).0)
  {
    MapPutKeepsUnique(sv, db.memories, req, freshId, now);
  }

  lemma DeleteKeepsSchema(db: Db, req: KeyRequest, fault: Option<DeleteStage>)
    requires SchemaOk(db)
    ensures SchemaOk(DeleteDb(db, req, fault).0)
  {
    var db' := DeleteDb(db, req, fault).0;
    forall i, j, ns, ext | HasExternal(db'.memories, i, ns, ext) && HasExternal(db'.memories, j, ns, ext)
      ensures i == j
    {
      assert HasExternal(db.memories, i, ns, ext) && HasExternal(db.memories, j, ns, ext);
    }
  }
}
