/** `SqliteStore`: the statement sequences of put, get, delete, recall, health, repair and migration v2. */
module Store {
  import opened Prelude
  import opened Text
  import opened FtsQuery
  import opened Floats
  import opened Codec
  import opened Cells
  import opened Timestamps
  import opened Tables
  import opened Scans
  import opened Recall
  import opened Ranking

  /** The answer FTS5 gives to a recall request whose MATCH string it can read. */
  ghost predicate LegalAnswer(s: Scoring, db: Db, req: RecallRequest, answer: seq<nat>) {
    && (forall r | r in answer :: r in db.fts)
    && (FtsQueryOf(s.lower, req.query).Some? && !MatchFails(s.lower, req.query) ==>
          LegalMatches(s.fts5, db.fts, req.namespace, FtsQueryOf(s.lower, req.query).value,
                       ScanLimit(req.limit), answer))
  }

  /** The answers SQLite gives to the three scans of one recall. */
  datatype Answers = Answers(vectorScan: seq<string>, memoryScan: seq<string>, matches: seq<nat>)

  ghost predicate Legal(s: Scoring, db: Db, req: RecallRequest, a: Answers) {
    && Scan(db.memories, VectorIds(db, Some(req.namespace)), a.vectorScan)
    && Scan(db.memories, NamespaceIds(db.memories, req.namespace), a.memoryScan)
    && LegalAnswer(s, db, req, a.matches)
  }

  predicate ValidRecall(req: RecallRequest) {
    Trim(req.namespace) != "" && Trim(req.query) != "" && req.limit > 0
  }

  /** The candidates of a recall. */
  ghost function Candidates(sv: Services, s: Scoring, db: Db, req: RecallRequest, a: Answers): set<Hit>
    requires Legal(s, db, req, a)
  {
    TakeMembers(a.vectorScan, ScanLimit(req.limit));
    HitSet(s, db.memories, req.namespace, req.weights,
           LexicalCandidates(s, db, a.matches, a.memoryScan, req.query, req.limit),
           VectorCandidates(s.arith, sv.parsers, db.vectors, Take(a.vectorScan, ScanLimit(req.limit)),
                            sv.embed(req.query)))
  }

  /** What recall promises when no read fails: a validation error, an error when FTS5 cannot read the MATCH string,
      or the top of its candidates. */
  ghost predicate RecallResult(
    sv: Services, s: Scoring, db: Db, req: RecallRequest, a: Answers, r: Result<seq<Hit>>)
    requires Legal(s, db, req, a)
  {
    if !ValidRecall(req) then r == Err(Validation)
    else if MatchFails(s.lower, req.query) then r == Err(Storage)
    else
      && r.Ok?
      && (forall h | h in r.value :: h in Candidates(sv, s, db, req, a))
      && |r.value| == Min(req.limit, |Candidates(sv, s, db, req, a)|)
      && (Comparable(Candidates(sv, s, db, req, a)) ==> IsTop(Candidates(sv, s, db, req, a), req.limit, r.value))
  }

  /** The same when the embedder or a read may fail, with the error that reports it. */
  ghost predicate RecallOutcome(
    sv: Services, s: Scoring, db: Db, req: RecallRequest, a: Answers, fault: Option<Error>, r: Result<seq<Hit>>)
    requires Legal(s, db, req, a)
  {
    if ValidRecall(req) && fault.Some? then r == Err(fault.value) else RecallResult(sv, s, db, req, a, r)
  }

  lemma PutStages(fault: Option<PutStage>)
    ensures (fault.Some? && fault.value.PutEmbed?) ||
            fault in {None, Some(PutSerialize), Some(PutBegin), Some(PutLookup), Some(PutWrite), Some(PutFtsDelete),
                      Some(PutFtsInsert), Some(PutVector), Some(PutCommit), Some(PutFetch)}
  {
    if fault.Some? {
      match fault.value {
        case PutEmbed(_) => case PutSerialize =>
        case PutBegin => case PutLookup => case PutWrite => case PutFtsDelete =>
        case PutFtsInsert => case PutVector => case PutCommit => case PutFetch =>
      }
    }
  }

  lemma DeleteStages(fault: Option<DeleteStage>)
    ensures fault in {None, Some(DeleteBegin), Some(DeleteLookup), Some(DeleteFts), Some(DeleteMemory),
                      Some(DeleteCommit)}
  {
    if fault.Some? {
      match fault.value {
        case DeleteBegin => case DeleteLookup => case DeleteFts => case DeleteMemory => case DeleteCommit =>
      }
    }
  }

  /** Sorting and truncating the merged candidates is what recall promises. */
  lemma MergedHits(sv: Services, s: Scoring, db: Db, req: RecallRequest, a: Answers, hits: seq<Hit>)
    requires Legal(s, db, req, a) && ValidRecall(req) && !MatchFails(s.lower, req.query)
    requires NoDuplicates(hits) && HitsOf(hits) == Candidates(sv, s, db, req, a)
    ensures RecallResult(sv, s, db, req, a, Ok(Take(SortHits(hits), req.limit)))
  {
    var sorted := SortHits(hits);
    SortPermutes(hits);
    SameMembers(sorted, hits);
    DistinctCount(hits);
    TakeMembers(sorted, req.limit);
    if Comparable(HitsOf(hits)) {
      TopOfSorted(hits, req.limit);
    }
  }

  class SqliteStore {
    const sv: Services
    var memories: Memories
    var vectors: map<string, VectorRow>
    var fts: map<nat, FtsRow>
    var nextRowid: nat
    var v2Applied: bool

    ghost function State(): Db
      reads this
    {
      Db(memories, vectors, fts, nextRowid)
    }

    ghost predicate Valid()
      reads this
    {
      SchemaOk(State())
    }

    /** Connects to a database file; `open` then runs the migration. */
    constructor (sv: Services, db: Db, v2Applied: bool)
      requires SchemaOk(db)
      ensures Valid() && State() == db && this.sv == sv && this.v2Applied == v2Applied
    {
      this.sv := sv;
      memories, vectors, fts, nextRowid := db.memories, db.vectors, db.fts, db.nextRowid;
      this.v2Applied := v2Applied;
    }

    /** `SELECT id FROM memories WHERE namespace = ? AND external_id = ? LIMIT 1` */
    method LookupExternal(ns: string, ext: string) returns (r: Option<string>)
      requires Valid()
      ensures r == FindExternal(memories, ns, ext)
    {
      r := None;
      var todo := memories.Keys;
      while todo != {}
        invariant todo <= memories.Keys
        invariant r.None?
        invariant forall id | id in memories && id !in todo :: !HasExternal(memories, id, ns, ext)
        decreases |todo|
      {
        var id :| id in todo;
        if memories[id].namespace == ns && memories[id].externalId == Some(ext) {
          assert HasExternal(memories, id, ns, ext);
          return Some(id);
        }
        todo := todo - {id};
      }
    }

    method UpdateAuxIndexes(memoryId: string, ns: string, content: string, vector: seq<F32>, fault: Option<PutStage>)
      returns (ok: bool)
      modifies this`fts, this`nextRowid, this`vectors
      ensures ok <==> fault != Some(PutFtsDelete) && fault != Some(PutFtsInsert) && fault != Some(PutVector)
      ensures ok ==> fts == WithoutFts(old(fts), memoryId)[old(nextRowid) := FtsRow(content, ns, memoryId)]
      ensures ok ==> nextRowid == old(nextRowid) + 1
      ensures ok ==> vectors == old(vectors)[memoryId := VectorRowFor(vector)]
    {
      if fault == Some(PutFtsDelete) {
        return false;
      }
      fts := map r | r in fts && fts[r].memoryId != memoryId :: fts[r];
      if fault == Some(PutFtsInsert) {
        return false;
      }
      fts := fts[nextRowid := FtsRow(content, ns, memoryId)];
      nextRowid := nextRowid + 1;
      var blob := EncodeVectorBlob(vector);
      if fault == Some(PutVector) {
        return false;
      }
      vectors := vectors[memoryId := VectorRow(|vector|, Blob(blob))];
      ok := true;
    }

    method Rollback(saved: Db)
      modifies this`memories, this`vectors, this`fts, this`nextRowid
      ensures State() == saved
    {
      memories, vectors, fts, nextRowid := saved.memories, saved.vectors, saved.fts, saved.nextRowid;
    }

    method Put(req: PutRequest, freshId: string, now: DateTime, fault: Option<PutStage>) returns (r: Result<Record>)
      requires Valid()
      modifies this
      ensures Valid() && v2Applied == old(v2Applied)
      ensures (State(), r) == PutDb(sv, old(State()), req, freshId, now, fault)
    {
      ghost var before := State();
      PutKeepsSchema(sv, before, req, freshId, now, fault);
      if Trim(req.namespace) == "" {
        return Err(Validation);
      }
      if req.externalId.Some? && Trim(req.externalId.value) == "" {
        return Err(Validation);
      }
      if !req.metadata.isObject {
        return Err(Validation);
      }
      if fault.Some? && fault.value.PutEmbed? {
        return Err(fault.value.error);
      }
      var vector := sv.embed(req.content);
      if fault == Some(PutSerialize) || fault == Some(PutBegin) {
        return Err(Storage);
      }
      var saved := Db(memories, vectors, fts, nextRowid);
      var existing := None;
      if req.externalId.Some? {
        if fault == Some(PutLookup) {
          return Err(Storage);
        }
        existing := LookupExternal(req.namespace, req.externalId.value);
      }
      var memoryId := if existing.Some? then existing.value else freshId;
      if fault == Some(PutWrite) {
        return Err(Storage);
      }
      var hash := sv.hash(req.content);
      if existing.Some? {
        memories := memories[memoryId := memories[memoryId].(
          content := req.content, metadata := req.metadata, contentHash := hash, updatedAt := now)];
      } else {
        if memoryId in memories {
          return Err(Storage);
        }
        memories := memories[memoryId := MemoryRow(
          req.namespace, req.externalId, req.content, req.metadata, hash, now, now)];
      }
      var ok := UpdateAuxIndexes(memoryId, req.namespace, req.content, vector, fault);
      if !ok || fault == Some(PutCommit) {
        Rollback(saved);
        return Err(Storage);
      }
      PutStages(fault);
      assert State() == PutDb(sv, before, req, freshId, now, fault).0;
      if fault == Some(PutFetch) {
        return Err(Storage);
      }
      r := FetchByIdAndNamespace(req.namespace, memoryId);
    }

    method FetchByIdAndNamespace(ns: string, id: string) returns (r: Result<Record>)
      ensures r == if id in memories && memories[id].namespace == ns then Ok(Record(id, memories[id]))
                   else Err(NotFound)
    {
      r := if id in memories && memories[id].namespace == ns then Ok(Record(id, memories[id])) else Err(NotFound);
    }

    /** `selector_from_request` and the lookup, shared by get and delete. */
    method Select(req: KeyRequest) returns (r: Result<string>)
      requires Valid()
      ensures r == MapSelect(memories, req)
    {
      if Trim(req.namespace) == "" || (req.id.Some? && req.externalId.Some?) || (req.id.None? && req.externalId.None?) {
        return Err(Validation);
      }
      if req.id.Some? {
        var id := req.id.value;
        return if id in memories && memories[id].namespace == req.namespace then Ok(id) else Err(NotFound);
      }
      if Trim(req.externalId.value) == "" {
        return Err(Validation);
      }
      var found := LookupExternal(req.namespace, req.externalId.value);
      r := if found.Some? then Ok(found.value) else Err(NotFound);
    }

    method Get(req: KeyRequest, readFails: bool) returns (r: Result<Record>)
      requires Valid()
      ensures r == GetOutcome(memories, req, readFails)
    {
      var id := Select(req);
      if id == Err(Validation) {
        return Err(Validation);
      }
      if readFails {
        return Err(Storage);
      }
      if id.Err? {
        return Err(id.error);
      }
      r := FetchByIdAndNamespace(req.namespace, id.value);
    }

    method Delete(req: KeyRequest, fault: Option<DeleteStage>) returns (r: Result<()>)
      requires Valid()
      modifies this
      ensures Valid() && v2Applied == old(v2Applied)
      ensures (State(), r) == DeleteDb(old(State()), req, fault)
    {
      DeleteKeepsSchema(State(), req, fault);
      var target := Select(req);
      if target == Err(Validation) {
        return Err(Validation);
      }
      if fault == Some(DeleteBegin) || fault == Some(DeleteLookup) {
        return Err(Storage);
      }
      if target.Err? {
        return Err(target.error);
      }
      var saved := Db(memories, vectors, fts, nextRowid);
      var id := target.value;
      if fault == Some(DeleteFts) {
        return Err(Storage);
      }
      fts := map r | r in fts && fts[r].memoryId != id :: fts[r];
      if fault == Some(DeleteMemory) {
        Rollback(saved);
        return Err(Storage);
      }
      memories := memories - {id};
      vectors := vectors - {id};  // ON DELETE CASCADE
      if fault == Some(DeleteCommit) {
        Rollback(saved);
        return Err(Storage);
      }
      DeleteStages(fault);
      assert State() == DeleteDb(old(State()), req, fault).0;
      r := Ok(());
    }

    method VectorHealthReport(ns: Option<string>, invalidSampleLimit: nat, order: seq<string>, readFails: bool)
      returns (r: Result<HealthReport>)
      requires Valid() && Scan(memories, VectorIds(State(), ns), order)
      ensures r == if readFails then Err(Storage) else Ok(HealthDb(sv.parsers, State(), order, invalidSampleLimit))
    {
      if readFails {
        return Err(Storage);
      }
      var report := ReportHealth(sv.parsers, Snapshots(vectors, order), Min(invalidSampleLimit, SAMPLE_CAP));
      r := Ok(report);
    }

    method VectorRepair(
      ns: Option<string>, issueSampleLimit: nat, apply: bool, order: seq<string>, fault: Option<RepairFault>)
      returns (r: Result<RepairReport>)
      requires Valid() && Scan(memories, VectorIds(State(), ns), order)
      modifies this`vectors
      ensures Valid()
      ensures (State(), r) == RepairDb(sv.parsers, old(State()), order, issueSampleLimit, apply, fault)
    {
      if fault == Some(ScanFault) {
        return Err(Storage);
      }
      var rows := Snapshots(vectors, order);
      var report, entries := PlanRepair(sv.parsers, rows, apply, Min(issueSampleLimit, SAMPLE_CAP));
      if !apply || entries == [] {
        return Ok(report);
      }
      ghost var before := State();
      var ok, repaired := ApplyRepair(entries, if fault.Some? then Some(fault.value.index) else None);
      assert State() == before.(vectors := vectors);
      VectorUpdateKeepsSchema(before, vectors);
      r := if ok then Ok(report.(repairedRows := repaired)) else Err(Storage);
    }

    /** The transaction of a repair. */
    method ApplyRepair(entries: seq<RepairEntry>, fault: Option<nat>) returns (ok: bool, repaired: nat)
      modifies this`vectors
      ensures ok <==> !(fault.Some? && fault.value <= |entries|)
      ensures vectors == if ok then ApplyEntries(old(vectors), entries) else old(vectors)
      ensures ok ==> repaired == |entries|
    {
      var saved := vectors;
      repaired := 0;
      for i := 0 to |entries|
        invariant vectors == ApplyEntries(saved, entries[..i])
        invariant repaired == i
        invariant fault.Some? ==> fault.value >= i
      {
        if fault == Some(i) {
          vectors := saved;
          return false, repaired;
        }
        assert entries[..i + 1][..i] == entries[..i];
        vectors := UpdateVector(vectors, entries[i]);
        repaired := repaired + 1;
      }
      assert entries[..|entries|] == entries;
      ok := fault != Some(|entries|);
      if !ok {
        vectors := saved;
      }
    }

    /** The scan of migration v2: the text cells as strings, or None when one is not UTF-8. */
    method CollectLegacyRows(order: seq<string>) returns (r: Option<seq<string>>)
      requires forall id | id in order :: id in vectors && vectors[id].cell.Text?
      ensures r.None? <==> exists id :: id in order && Unreadable(sv.parsers, vectors[id])
      ensures r.Some? ==> |r.value| == |order| &&
                          forall j | 0 <= j < |order| ::
                            sv.parsers.utf8(vectors[order[j]].cell.bytes) == Some(r.value[j])
    {
      var legacy: seq<string> := [];
      for i := 0 to |order|
        invariant |legacy| == i
        invariant forall j | 0 <= j < i :: sv.parsers.utf8(vectors[order[j]].cell.bytes) == Some(legacy[j])
      {
        var text := sv.parsers.utf8(vectors[order[i]].cell.bytes);
        if text.None? {
          assert order[i] in order && Unreadable(sv.parsers, vectors[order[i]]);
          return None;
        }
        legacy := legacy + [text.value];
      }
      r := Some(legacy);
    }

    /** Migration v2. `order` is the answer to its scan of the text cells. */
    method ApplySchemaMigrationV2(order: seq<string>, fault: Option<MigrationFault>) returns (r: Result<()>)
      requires Valid() && NoDuplicates(order)
      requires forall id :: id in order <==> id in vectors && vectors[id].cell.Text?
      modifies this`vectors, this`v2Applied
      ensures Valid()
      ensures old(v2Applied) ==>
                && v2Applied && State() == old(State())
                && r == if fault == Some(MigrationVersionFault) then Err(Storage) else Ok(())
      ensures !old(v2Applied) ==>
                && v2Applied == r.Ok?
                && (State(), r) == MigrateDb(sv.parsers, old(State()),
                                             MigrationAborts(sv.parsers, old(vectors), order, fault))
    {
      if fault == Some(MigrationVersionFault) {
        return Err(Storage);
      }
      if v2Applied {
        return Ok(());
      }
      if fault == Some(MigrationScanFault) {
        return Err(Storage);
      }
      var legacy := CollectLegacyRows(order);
      if legacy.None? {
        return Err(Storage);
      }
      var saved := vectors;
      var ok := UpdateLegacyRows(order, legacy.value, fault);
      if !ok || fault == Some(MigrationCommitFault) {
        vectors := saved;
        return Err(Storage);
      }
      v2Applied := true;
      r := Ok(());
    }

    /** The update loop of migration v2. */
    method UpdateLegacyRows(order: seq<string>, legacy: seq<string>, fault: Option<MigrationFault>) returns (ok: bool)
      requires NoDuplicates(order) && |legacy| == |order|
      requires forall id :: id in order <==> id in vectors && vectors[id].cell.Text?
      requires forall j | 0 <= j < |order| :: sv.parsers.utf8(vectors[order[j]].cell.bytes) == Some(legacy[j])
      modifies this`vectors
      ensures vectors.Keys == old(vectors).Keys
      ensures !ok <==> fault.Some? && fault.value.MigrationUpdateFault? &&
                       MigrationAborts(sv.parsers, old(vectors), order, fault)
      ensures ok ==> vectors == MigrateTable(sv.parsers, old(vectors))
    {
      ghost var before := vectors;
      for i := 0 to |order|
        invariant vectors.Keys == before.Keys
        invariant forall id | id in before ::
            vectors[id] == if id in order[..i] then MigrateRow(sv.parsers, before[id]) else before[id]
        invariant fault.Some? && fault.value.MigrationUpdateFault? && fault.value.row < i ==>
            !MigrationAborts(sv.parsers, before, order, fault)
      {
        var id := order[i];
        assert id !in order[..i];
        assert order[..i + 1] == order[..i] + [id];
        MigrationConverts(sv.parsers, before[id]);
        var vector := sv.parsers.json(legacy[i]);
        if vector.None? || vector.value == [] || !AllFinite(vector.value) {
          continue;
        }
        if fault == Some(MigrationUpdateFault(i)) {
          return false;
        }
        var blob := EncodeVectorBlob(vector.value);
        vectors := vectors[id := VectorRow(|vector.value|, Blob(blob))];
      }
      assert vectors == MigrateTable(sv.parsers, before) by {
        assert order[..|order|] == order;
        assert forall id | id in before && id !in order :: MigrateRow(sv.parsers, before[id]) == before[id];
      }
      ok := true;
    }

    method RecallHits(s: Scoring, req: RecallRequest, a: Answers, fault: Option<Error>) returns (r: Result<seq<Hit>>)
      requires Valid() && Legal(s, State(), req, a)
      ensures RecallOutcome(sv, s, State(), req, a, fault, r)
    {
      if Trim(req.namespace) == "" || Trim(req.query) == "" || req.limit == 0 {
        return Err(Validation);
      }
      if fault.Some? {
        return Err(fault.value);
      }
      var queryVector := sv.embed(req.query);
      var db := Db(memories, vectors, fts, nextRowid);
      var lexical := ReadLexicalCandidates(s, db, a.matches, a.memoryScan, req.query, req.limit);
      if lexical.Err? {
        return Err(lexical.error);
      }
      var vector := ReadVectorCandidates(s.arith, sv.parsers, vectors, a.vectorScan, queryVector, req.limit);
      var hits := MergeHits(s, memories, req.namespace, req.weights, lexical.value, vector,
                            lexical.value.Keys + vector.Keys);
      MergedHits(sv, s, db, req, a, hits);
      r := Ok(Take(SortHits(hits), req.limit));
    }
  }
}
