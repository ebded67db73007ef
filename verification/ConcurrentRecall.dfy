/** Recall against other connections: its reads are separate statements, so writes may come in between. */
module ConcurrentRecall {
  import opened Prelude
  import opened Similarity
  import opened Tables
  import opened Scans
  import opened Recall
  import opened Ranking
  import opened Store
  import opened Refinement
  import opened RecallTheorems
  import opened Interleaving

  /** The fetch of a record comes after some of the others' writes and sees the tables as they are then. */
  ghost predicate SeenAt(sv: Services, db: Db, others: seq<Op>, k: nat, id: string, seen: Memories)
    requires Writes(others)
  {
    && k <= |others| && LegalRun(sv, db, others[..k])
    && var m := Run(sv, db, others[..k]).memories;
    && (id in seen <==> id in m)
    && (id in seen ==> seen[id] == m[id])
  }

  /** Every candidate is fetched at some moment of its own. */
  ghost predicate FetchedFrom(sv: Services, db: Db, others: seq<Op>, ids: set<string>, seen: Memories)
    requires Writes(others)
  {
    forall id | id in ids :: exists k: nat :: SeenAt(sv, db, others, k, id, seen)
  }

  /** What the reads give: text scores, vector scores, and the records as they are fetched. */
  datatype Reads = Reads(lexical: map<string, real>, vector: map<string, real>, seen: Memories)

  /** The tables as the MATCH query, the fallback scan and the vector scan see them; each is a statement of its own. */
  datatype Moments = Moments(matching: Db, fallback: Db, scanning: Db)

  /** The text tables of the two lexical statements together: the FTS rows of the first, the records of the second. */
  function TextTables(t: Moments): Db { t.matching.(memories := t.fallback.memories) }

  /** SQLite's answers are legal, each for the tables of its own statement. */
  ghost predicate LegalReads(s: Scoring, t: Moments, req: RecallRequest, a: Answers) {
    && LegalAnswer(s, t.matching, req, a.matches)
    && Scan(t.fallback.memories, NamespaceIds(t.fallback.memories, req.namespace), a.memoryScan)
    && Scan(t.scanning.memories, VectorIds(t.scanning, Some(req.namespace)), a.vectorScan)
  }

  ghost predicate ReadsOf(sv: Services, s: Scoring, t: Moments, req: RecallRequest, a: Answers, r: Reads)
    requires LegalReads(s, t, req, a)
  {
    && r.lexical == LexicalCandidates(s, TextTables(t), a.matches, a.memoryScan, req.query, req.limit)
    && r.vector == Window(sv, s, t.scanning.vectors, req, a)
  }

  /** The candidates that are still records of the namespace when they are fetched. */
  function Found(r: Reads, ns: string): set<string> {
    (r.lexical.Keys + r.vector.Keys) * NamespaceIds(r.seen, ns)
  }

  /** Records of the namespace at the vector read that are gone when they are fetched. */
  function Gone(db: Db, r: Reads, ns: string): set<string> {
    NamespaceIds(db.memories, ns) - NamespaceIds(r.seen, ns)
  }

  lemma FoundHits(s: Scoring, ns: string, w: Weights, r: Reads)
    ensures |HitSet(s, r.seen, ns, w, r.lexical, r.vector)| == |Found(r, ns)|
  {
    HitsAtSize(s, r.seen, ns, w, r.lexical, r.vector, Found(r, ns));
    assert HitsAt(s, r.seen, ns, w, r.lexical, r.vector, Found(r, ns)) == HitSet(s, r.seen, ns, w, r.lexical, r.vector);
  }

  lemma ReadsAreUnit(sv: Services, s: Scoring, t: Moments, req: RecallRequest, a: Answers, r: Reads)
    requires LegalReads(s, t, req, a) && ReadsOf(sv, s, t, req, a, r)
    ensures UnitScores(r.lexical) && UnitScores(r.vector)
  {
    TakeMembers(a.vectorScan, ScanLimit(req.limit));
    LexicalCandidatesUnit(s, TextTables(t), a.matches, a.memoryScan, req.query, req.limit);
    VectorCandidatesUnit(
      s.arith, sv.parsers, t.scanning.vectors, Take(a.vectorScan, ScanLimit(req.limit)), sv.embed(req.query));
  }

  /** The vector read of an indexed store scores the rows of its window, all of them records of the namespace. */
  lemma VectorReadIsFull(sv: Services, s: Scoring, dim: nat, db: Db, req: RecallRequest, a: Answers)
    requires ScorableEmbedder(s.arith.round, sv.embed, dim) && Ieee(s.arith) && Indexed(sv, db)
    requires Scan(db.memories, VectorIds(db, Some(req.namespace)), a.vectorScan)
    ensures var ids := NamespaceIds(db.memories, req.namespace);
            var read := Window(sv, s, db.vectors, req, a).Keys;
            read <= ids && |read| == Min(ScanLimit(req.limit), |ids|)
  {
    var ids := NamespaceIds(db.memories, req.namespace);
    var rows := Take(a.vectorScan, ScanLimit(req.limit));
    TakeMembers(a.vectorScan, ScanLimit(req.limit));
    VectorIdsOfIndexed(sv, db, req.namespace);
    ScanSize(db.memories, ids, a.vectorScan);
    TakeDistinct(a.vectorScan, ScanLimit(req.limit));
    IndexedRowsScore(sv, s, dim, db, rows, req.query);
    DistinctCount(rows);
  }

  /** Counting a read of which some is gone. */
  lemma CountLeft(
    read: set<string>, ids: set<string>, window: nat, found: set<string>, gone: set<string>, limit: nat)
    requires read <= ids && |read| == Min(window, |ids|) && read - gone <= found
    ensures Min(limit, |found|) + |gone| >= Min(limit, Min(window, |ids|))
    ensures |ids| <= window ==> read == ids
  {
    SubsetCount(read - gone, found);
    SubsetCount(read * gone, gone);
    SubsetCount(read, ids);
    assert read == (read - gone) + (read * gone);
  }

  lemma SetCount(
    read: set<string>, lexical: set<string>, ids: set<string>, seen: set<string>, window: nat, limit: nat)
    requires read <= ids && |read| == Min(window, |ids|)
    ensures Min(limit, |(lexical + read) * seen|) + |ids - seen| >= Min(limit, Min(window, |ids|))
    ensures |ids| <= window ==> (lexical + read) * seen == (ids + lexical) * seen
  {
    CountLeft(read, ids, window, (lexical + read) * seen, ids - seen, limit);
  }

  lemma FoundCount(db: Db, r: Reads, ns: string, window: nat, limit: nat)
    requires r.vector.Keys <= NamespaceIds(db.memories, ns)
    requires |r.vector.Keys| == Min(window, |NamespaceIds(db.memories, ns)|)
    ensures Min(limit, |Found(r, ns)|) + |Gone(db, r, ns)| >= Min(limit, Min(window, |NamespaceIds(db.memories, ns)|))
    ensures |NamespaceIds(db.memories, ns)| <= window ==>
              Found(r, ns) == (NamespaceIds(db.memories, ns) + r.lexical.Keys) * NamespaceIds(r.seen, ns)
  {
    SetCount(r.vector.Keys, r.lexical.Keys, NamespaceIds(db.memories, ns), NamespaceIds(r.seen, ns), window, limit);
  }

  /** The record is in the tables after some of the others' writes. */
  ghost predicate CurrentAt(sv: Services, db: Db, others: seq<Op>, k: nat, rec: Record)
    requires Writes(others)
  {
    && k <= |others| && LegalRun(sv, db, others[..k])
    && rec.id in Run(sv, db, others[..k]).memories && Run(sv, db, others[..k]).memories[rec.id] == rec.row
  }

  /** Whatever the others do, the hits are ordered, distinct, and each a record as it was at its own fetch. */
  lemma InterleavedHits(
    sv: Services, s: Scoring, t: Moments, after: seq<Op>, req: RecallRequest, a: Answers, r: Reads, hits: seq<Hit>)
    requires Ieee(s.arith) && LegalReads(s, t, req, a) && ReadsOf(sv, s, t, req, a, r)
    requires Writes(after) && FetchedFrom(sv, t.scanning, after, r.lexical.Keys + r.vector.Keys, r.seen)
    requires IsTop(HitSet(s, r.seen, req.namespace, req.weights, r.lexical, r.vector), req.limit, hits)
    ensures DistinctRecords(r.seen, req.namespace, hits)
    ensures BestFirst(HitSet(s, r.seen, req.namespace, req.weights, r.lexical, r.vector), hits)
    ensures forall h | h in hits :: exists k: nat :: CurrentAt(sv, t.scanning, after, k, h.record)
  {
    var cands := HitSet(s, r.seen, req.namespace, req.weights, r.lexical, r.vector);
    ReadsAreUnit(sv, s, t, req, a, r);
    HitsAreComparable(s, r.seen, req.namespace, req.weights, r.lexical, r.vector);
    TopMeans(cands, req.limit, hits);
    TopIsDistinct(r.seen, req.namespace, cands, req.limit, hits);
    forall h | h in hits
      ensures exists k: nat :: CurrentAt(sv, t.scanning, after, k, h.record)
    {
      var k: nat :| SeenAt(sv, t.scanning, after, k, h.record.id, r.seen);
      assert CurrentAt(sv, t.scanning, after, k, h.record);
    }
  }

  /**
   * How many hits come back when puts and deletes of other connections fall between the reads of a recall: exactly
   * min(limit, candidates still found at their fetch). That is at least min(limit, window, records) for the records at
   * the vector read, less one for each of these that is gone at its fetch; and when the window holds all of them, the
   * candidates found are those of them, and of the lexical read, that are still there. The store at the vector read is
   * indexed, as every run leaves it.
   */
  lemma InterleavedCount(
    sv: Services, s: Scoring, dim: nat, db: Db, req: RecallRequest, a: Answers, r: Reads, hits: seq<Hit>)
    requires ScorableEmbedder(s.arith.round, sv.embed, dim) && Ieee(s.arith) && Indexed(sv, db)
    requires Scan(db.memories, VectorIds(db, Some(req.namespace)), a.vectorScan)
    requires r.vector == Window(sv, s, db.vectors, req, a)
    requires IsTop(HitSet(s, r.seen, req.namespace, req.weights, r.lexical, r.vector), req.limit, hits)
    ensures var ids := NamespaceIds(db.memories, req.namespace);
            && |hits| == Min(req.limit, |Found(r, req.namespace)|)
            && |hits| + |Gone(db, r, req.namespace)| >= Min(req.limit, Min(ScanLimit(req.limit), |ids|))
            && (|ids| <= ScanLimit(req.limit) ==>
                  Found(r, req.namespace) == (ids + r.lexical.Keys) * NamespaceIds(r.seen, req.namespace))
  {
    FoundHits(s, req.namespace, req.weights, r);
    VectorReadIsFull(sv, s, dim, db, req, a);
    FoundCount(db, r, req.namespace, ScanLimit(req.limit), req.limit);
  }

  /** A put loses no record and moves none to another namespace. */
  lemma {:induction false} PutsKeepRecords(sv: Services, db: Db, ops: seq<Op>, id: string)
    requires LegalRun(sv, db, ops) && (forall i | 0 <= i < |ops| :: ops[i].OpPut?) && id in db.memories
    ensures id in Run(sv, db, ops).memories
    ensures Run(sv, db, ops).memories[id].namespace == db.memories[id].namespace
    decreases |ops|
  {
    if ops != [] {
      var OpPut(req, freshId, now, fault) := ops[0];
      PutRefines(sv, db, req, freshId, now, fault);
      PutsKeepRecords(sv, Step(sv, db, ops[0]), ops[1..], id);
    }
  }

  /** So a recall misses a record that was there at its vector read only when another connection deletes it. */
  lemma NothingGoneWithoutDeletes(
    sv: Services, db: Db, others: seq<Op>, r: Reads, ns: string)
    requires (forall i | 0 <= i < |others| :: others[i].OpPut?) && Writes(others)
    requires NamespaceIds(db.memories, ns) <= r.lexical.Keys + r.vector.Keys
    requires FetchedFrom(sv, db, others, r.lexical.Keys + r.vector.Keys, r.seen)
    ensures Gone(db, r, ns) == {}
  {
    forall id | id in NamespaceIds(db.memories, ns)
      ensures id in NamespaceIds(r.seen, ns)
    {
      var k: nat :| SeenAt(sv, db, others, k, id, r.seen);
      PutsKeepRecords(sv, db, others[..k], id);
    }
  }
}
