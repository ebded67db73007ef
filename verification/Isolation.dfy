/** Namespaces do not see each other, although the writes to the index tables filter by id alone. */
module Isolation {
  import opened Prelude
  import opened Floats
  import opened Similarity
  import opened Cells
  import opened Tables
  import opened Scans
  import opened Recall
  import opened Refinement

  function MemorySlice(m: Memories, ns: string): Memories {
    map id | id in m && m[id].namespace == ns :: m[id]
  }

  function VectorSlice(m: Memories, v: map<string, VectorRow>, ns: string): map<string, VectorRow> {
    map id | id in v && id in m && m[id].namespace == ns :: v[id]
  }

  function FtsSlice(fts: map<nat, FtsRow>, ns: string): map<nat, FtsRow> {
    map r | r in fts && fts[r].namespace == ns :: fts[r]
  }

  /** The part of the database that belongs to a namespace. */
  function Slice(db: Db, ns: string): Db {
    Db(MemorySlice(db.memories, ns), VectorSlice(db.memories, db.vectors, ns), FtsSlice(db.fts, ns), 0)
  }

  /** Constraints and a text index that is exact; the vector cells may be anything. */
  ghost predicate TextIndexed(db: Db) { SchemaOk(db) && FtsExact(db.memories, db.fts) }

  // ----- writes -----

  /** Writing an id that does not belong to a namespace leaves its memory and vector slices alone. */
  lemma ForeignRow(m: Memories, v: map<string, VectorRow>, id: string, row: MemoryRow, vector: VectorRow, ns: string)
    requires row.namespace != ns && (id in m ==> m[id].namespace != ns)
    ensures MemorySlice(m[id := row], ns) == MemorySlice(m, ns)
    ensures VectorSlice(m[id := row], v[id := vector], ns) == VectorSlice(m, v, ns)
  {
  }

  lemma ForeignRowGone(m: Memories, v: map<string, VectorRow>, id: string, ns: string)
    requires id in m && m[id].namespace != ns
    ensures MemorySlice(m - {id}, ns) == MemorySlice(m, ns)
    ensures VectorSlice(m - {id}, v - {id}, ns) == VectorSlice(m, v, ns)
  {
  }

  /** The FTS rows of an id are rows of its own namespace, so deleting them by id is safe. */
  lemma ForeignFts(m: Memories, fts: map<nat, FtsRow>, id: string, ns: string)
    requires FtsExact(m, fts) && (id in m ==> m[id].namespace != ns)
    ensures FtsSlice(WithoutFts(fts, id), ns) == FtsSlice(fts, ns)
  {
  }

  lemma ForeignFtsRow(fts: map<nat, FtsRow>, r: nat, row: FtsRow, ns: string)
    requires r !in fts && row.namespace != ns
    ensures FtsSlice(fts[r := row], ns) == FtsSlice(fts, ns)
  {
  }

  lemma ReindexedSlice(sv: Services, db: Db, rec: Record, other: string)
    requires TextIndexed(db) && rec.row.namespace != other
    requires rec.id in db.memories ==> db.memories[rec.id].namespace == rec.row.namespace
    ensures Slice(Reindexed(sv, db.(memories := db.memories[rec.id := rec.row]), rec), other) == Slice(db, other)
  {
    ForeignRow(db.memories, db.vectors, rec.id, rec.row, VectorRowFor(sv.embed(rec.row.content)), other);
    ForeignFts(db.memories, db.fts, rec.id, other);
    ForeignFtsRow(WithoutFts(db.fts, rec.id), db.nextRowid, FtsRow(rec.row.content, rec.row.namespace, rec.id), other);
  }

  lemma PutKeepsOwner(sv: Services, db: Db, req: PutRequest, freshId: string, now: Timestamps.DateTime)
    requires MapPut(sv, db.memories, req, freshId, now).1.Ok?
    ensures var rec := MapPut(sv, db.memories, req, freshId, now).1.value;
            && rec.row.namespace == req.namespace
            && (rec.id in db.memories ==> db.memories[rec.id].namespace == req.namespace)
  {
  }

  lemma PutFrame(
    sv: Services, db: Db, req: PutRequest, freshId: string, now: Timestamps.DateTime, fault: Option<PutStage>,
    other: string)
    requires TextIndexed(db) && other != req.namespace
    ensures Slice(PutDb(sv, db, req, freshId, now, fault).0, other) == Slice(db, other)
    ensures TextIndexed(PutDb(sv, db, req, freshId, now, fault).0)
  {
    MapPutKeepsUnique(sv, db.memories, req, freshId, now);
    MapPutStoresOne(sv, db.memories, req, freshId, now);
    PutDbShape(sv, db, req, freshId, now, fault);
    var r := MapPut(sv, db.memories, req, freshId, now).1;
    if r.Ok? {
      PutKeepsOwner(sv, db, req, freshId, now);
      ReindexedSchema(sv, db, r.value);
      ReindexedFts(sv, db, r.value);
      ReindexedSlice(sv, db, r.value, other);
    }
  }

  lemma DeleteFrame(db: Db, req: KeyRequest, fault: Option<DeleteStage>, other: string)
    requires TextIndexed(db) && other != req.namespace
    ensures Slice(DeleteDb(db, req, fault).0, other) == Slice(db, other)
    ensures TextIndexed(DeleteDb(db, req, fault).0)
  {
    DeleteKeepsSchema(db, req, fault);
    var (db', r) := DeleteDb(db, req, fault);
    if r.Ok? {
      DeleteKeepsFts(db, req, fault);
      var id := MapSelect(db.memories, req).value;
      ForeignRowGone(db.memories, db.vectors, id, other);
      ForeignFts(db.memories, db.fts, id, other);
    }
  }

  lemma DeleteKeepsFts(db: Db, req: KeyRequest, fault: Option<DeleteStage>)
    requires FtsExact(db.memories, db.fts)
    ensures FtsExact(DeleteDb(db, req, fault).0.memories, DeleteDb(db, req, fault).0.fts)
  {
    var db' := DeleteDb(db, req, fault).0;
    forall k | k in db'.memories
      ensures HasFts(db'.fts, k)
    {
      assert HasFts(db.fts, k);
      var q :| q in db.fts && db.fts[q].memoryId == k;
      assert q in db'.fts && db'.fts[q].memoryId == k;
    }
  }

  lemma {:induction false} ApplyEntriesFrame(vectors: map<string, VectorRow>, entries: seq<RepairEntry>, id: string)
    requires id in vectors && forall e | e in entries :: e.id != id
    ensures ApplyEntries(vectors, entries)[id] == vectors[id]
  {
    if entries != [] {
      ApplyEntriesFrame(vectors, entries[..|entries| - 1], id);
    }
  }

  lemma {:induction false} EntriesAreScanned(p: Parsers, rows: seq<Snapshot>)
    ensures forall e | e in RepairEntries(p, rows) :: exists r :: r in rows && r.id == e.id
  {
    if rows != [] {
      EntriesAreScanned(p, rows[..|rows| - 1]);
      assert rows[|rows| - 1] in rows;
    }
  }

  /** The update loop of a namespaced repair changes no vector of another namespace. */
  lemma EntriesFrame(p: Parsers, db: Db, ns: string, order: seq<string>, id: string)
    requires forall k | k in order :: k in db.vectors && k in db.memories && db.memories[k].namespace == ns
    requires id in db.vectors && id in db.memories && db.memories[id].namespace != ns
    ensures ApplyEntries(db.vectors, RepairEntries(p, Snapshots(db.vectors, order)))[id] == db.vectors[id]
  {
    var rows := Snapshots(db.vectors, order);
    EntriesAreScanned(p, rows);
    forall e | e in RepairEntries(p, rows)
      ensures e.id != id
    {
      var r :| r in rows && r.id == e.id;
      var i :| 0 <= i < |rows| && rows[i] == r;
      assert order[i] in order;
    }
    ApplyEntriesFrame(db.vectors, RepairEntries(p, rows), id);
  }

  lemma SameVectorSlice(m: Memories, v: map<string, VectorRow>, v': map<string, VectorRow>, ns: string)
    requires v.Keys == v'.Keys
    requires forall id | id in v && id in m && m[id].namespace == ns :: v'[id] == v[id]
    ensures VectorSlice(m, v, ns) == VectorSlice(m, v', ns)
  {
  }

  /** A namespaced repair touches no vector of another namespace, whatever the cells hold. */
  lemma RepairFrame(
    p: Parsers, db: Db, ns: string, order: seq<string>, limit: nat, apply: bool, fault: Option<RepairFault>,
    other: string)
    requires TextIndexed(db) && other != ns && Scan(db.memories, VectorIds(db, Some(ns)), order)
    ensures Slice(RepairDb(p, db, order, limit, apply, fault).0, other) == Slice(db, other)
    ensures TextIndexed(RepairDb(p, db, order, limit, apply, fault).0)
  {
    RepairDbShape(p, db, order, limit, apply, fault);
    var vectors := ApplyEntries(db.vectors, RepairEntries(p, Snapshots(db.vectors, order)));
    VectorUpdateKeepsSchema(db, vectors);
    forall id | id in db.vectors && id in db.memories && db.memories[id].namespace == other
      ensures vectors[id] == db.vectors[id]
    {
      EntriesFrame(p, db, ns, order, id);
    }
    SameVectorSlice(db.memories, db.vectors, vectors, other);
  }

  /** The operation names one namespace, and it is not `other`. */
  predicate Elsewhere(op: Op, other: string) {
    match op
    case OpPut(req, _, _, _) => req.namespace != other
    case OpDelete(req, _) => req.namespace != other
    case OpRepair(ns, _, _, _, _) => ns.Some? && ns.value != other
  }

  /** Runs in other namespaces leave a namespace's rows, vectors and FTS entries exactly as they are. */
  lemma {:induction false} RunFrame(sv: Services, db: Db, ops: seq<Op>, other: string)
    requires TextIndexed(db) && LegalRun(sv, db, ops)
    requires forall i | 0 <= i < |ops| :: Elsewhere(ops[i], other)
    ensures Slice(Run(sv, db, ops), other) == Slice(db, other)
    ensures TextIndexed(Run(sv, db, ops))
    decreases |ops|
  {
    if ops != [] {
      match ops[0] {
        case OpPut(req, freshId, now, fault) => PutFrame(sv, db, req, freshId, now, fault, other);
        case OpDelete(req, fault) => DeleteFrame(db, req, fault, other);
        case OpRepair(ns, limit, apply, order, fault) =>
          RepairFrame(sv.parsers, db, ns.value, order, limit, apply, fault, other);
      }
      RunFrame(sv, Step(sv, db, ops[0]), ops[1..], other);
    }
  }

  // ----- reads -----

  lemma SliceDecides(db: Db, db': Db, ns: string)
    requires Slice(db, ns) == Slice(db', ns)
    ensures NamespaceIds(db.memories, ns) == NamespaceIds(db'.memories, ns)
    ensures VectorIds(db, Some(ns)) == VectorIds(db', Some(ns))
    ensures forall id | id in NamespaceIds(db.memories, ns) :: id in db'.memories && db'.memories[id] == db.memories[id]
    ensures forall id | id in VectorIds(db, Some(ns)) :: id in db'.vectors && db'.vectors[id] == db.vectors[id]
  {
    var s, s' := Slice(db, ns), Slice(db', ns);
    assert s.memories.Keys == NamespaceIds(db.memories, ns) && s'.memories.Keys == NamespaceIds(db'.memories, ns);
    assert s.vectors.Keys == VectorIds(db, Some(ns)) && s'.vectors.Keys == VectorIds(db', Some(ns));
    forall id | id in NamespaceIds(db.memories, ns)
      ensures id in db'.memories && db'.memories[id] == db.memories[id]
    {
      assert s.memories[id] == s'.memories[id];
    }
    forall id | id in VectorIds(db, Some(ns))
      ensures id in db'.vectors && db'.vectors[id] == db.vectors[id]
    {
      assert s.vectors[id] == s'.vectors[id];
    }
  }

  lemma {:induction false} SnapshotsAgree(v: map<string, VectorRow>, v': map<string, VectorRow>, order: seq<string>)
    requires forall id | id in order :: id in v && id in v' && v[id] == v'[id]
    ensures Snapshots(v, order) == Snapshots(v', order)
  {
    if order != [] {
      SnapshotsAgree(v, v', order[..|order| - 1]);
    }
  }

  lemma {:induction false} CandidatesAgree(
    f: Arithmetic, p: Parsers, v: map<string, VectorRow>, v': map<string, VectorRow>,
    rows: seq<string>, query: seq<F32>)
    requires forall id | id in rows :: id in v && id in v' && v[id] == v'[id]
    ensures VectorCandidates(f, p, v, rows, query) == VectorCandidates(f, p, v', rows, query)
  {
    if rows != [] {
      CandidatesAgree(f, p, v, v', rows[..|rows| - 1], query);
    }
  }

  lemma {:induction false} FallbackAgrees(
    s: Scoring, m: Memories, m': Memories, rows: seq<string>, query: string)
    requires forall id | id in rows :: id in m && id in m' && m[id] == m'[id]
    ensures FallbackCandidates(s, m, rows, query) == FallbackCandidates(s, m', rows, query)
  {
    if rows != [] {
      FallbackAgrees(s, m, m', rows[..|rows| - 1], query);
    }
  }

  lemma {:induction false} NewestFirstAgrees(m: Memories, m': Memories, order: seq<string>)
    requires forall id | id in order :: id in m && id in m' && m[id] == m'[id]
    ensures NewestFirst(m, order) == NewestFirst(m', order)
  {
    if |order| >= 2 {
      NewestFirstAgrees(m, m', order[1..]);
    }
  }

  /** A legal scan of a namespace is legal for every database with the same slice. */
  lemma ScanIsLocal(db: Db, db': Db, ns: string, order: seq<string>)
    requires Slice(db, ns) == Slice(db', ns)
    ensures Scan(db.memories, NamespaceIds(db.memories, ns), order) ==>
              Scan(db'.memories, NamespaceIds(db'.memories, ns), order)
    ensures Scan(db.memories, VectorIds(db, Some(ns)), order) ==>
              Scan(db'.memories, VectorIds(db', Some(ns)), order)
  {
    SliceDecides(db, db', ns);
    if Scan(db.memories, NamespaceIds(db.memories, ns), order) || Scan(db.memories, VectorIds(db, Some(ns)), order) {
      assert forall id | id in order :: id in NamespaceIds(db.memories, ns);
      NewestFirstAgrees(db.memories, db'.memories, order);
    }
  }

  lemma GetIsLocal(db: Db, db': Db, req: KeyRequest)
    requires Slice(db, req.namespace) == Slice(db', req.namespace)
    requires UniqueExternal(db.memories) && UniqueExternal(db'.memories)
    ensures MapGet(db.memories, req) == MapGet(db'.memories, req)
  {
    SliceDecides(db, db', req.namespace);
    var ns := req.namespace;
    forall id
      ensures id in db.memories && db.memories[id].namespace == ns <==>
                id in db'.memories && db'.memories[id].namespace == ns
    {
      assert id in NamespaceIds(db.memories, ns) <==> id in NamespaceIds(db'.memories, ns);
    }
    if req.externalId.Some? {
      forall id
        ensures HasExternal(db.memories, id, ns, req.externalId.value) <==>
                  HasExternal(db'.memories, id, ns, req.externalId.value)
      {
        assert id in NamespaceIds(db.memories, ns) <==> id in NamespaceIds(db'.memories, ns);
      }
    }
  }

  lemma ReportsAgree(p: Parsers, db: Db, db': Db, order: seq<string>, limit: nat)
    requires forall id | id in order :: id in db.vectors && id in db'.vectors && db'.vectors[id] == db.vectors[id]
    ensures HealthDb(p, db, order, limit) == HealthDb(p, db', order, limit)
    ensures RepairDb(p, db, order, limit, false, None).1 == RepairDb(p, db', order, limit, false, None).1
  {
    SnapshotsAgree(db.vectors, db'.vectors, order);
  }

  /** A legal scan of a namespace is legal for every database with the same slice, and health, repair plans, and the
      vector candidates and fallback scores in the window of a recall depend on that slice alone. */
  lemma ReadsAreLocal(
    sv: Services, s: Scoring, db: Db, db': Db, ns: string, vectorScan: seq<string>, memoryScan: seq<string>,
    query: string, limit: nat)
    requires Slice(db, ns) == Slice(db', ns)
    requires Scan(db.memories, VectorIds(db, Some(ns)), vectorScan)
    requires Scan(db.memories, NamespaceIds(db.memories, ns), memoryScan)
    ensures Scan(db'.memories, VectorIds(db', Some(ns)), vectorScan)
    ensures Scan(db'.memories, NamespaceIds(db'.memories, ns), memoryScan)
    ensures HealthDb(sv.parsers, db, vectorScan, limit) == HealthDb(sv.parsers, db', vectorScan, limit)
    ensures RepairDb(sv.parsers, db, vectorScan, limit, false, None).1
         == RepairDb(sv.parsers, db', vectorScan, limit, false, None).1
    ensures VectorCandidates(s.arith, sv.parsers, db.vectors, Take(vectorScan, ScanLimit(limit)), sv.embed(query))
         == VectorCandidates(s.arith, sv.parsers, db'.vectors, Take(vectorScan, ScanLimit(limit)), sv.embed(query))
    ensures FallbackCandidates(s, db.memories, Take(memoryScan, ScanLimit(limit)), query)
         == FallbackCandidates(s, db'.memories, Take(memoryScan, ScanLimit(limit)), query)
  {
    ScanIsLocal(db, db', ns, vectorScan);
    ScanIsLocal(db, db', ns, memoryScan);
    SliceDecides(db, db', ns);
    ReportsAgree(sv.parsers, db, db', vectorScan, limit);
    TakeMembers(vectorScan, ScanLimit(limit));
    TakeMembers(memoryScan, ScanLimit(limit));
    CandidatesAgree(
      s.arith, sv.parsers, db.vectors, db'.vectors, Take(vectorScan, ScanLimit(limit)), sv.embed(query));
    FallbackAgrees(s, db.memories, db'.memories, Take(memoryScan, ScanLimit(limit)), query);
  }
}
