/** What recall returns: how many hits, which ones, and what maintenance may change about them. */
module RecallTheorems {
  import opened Prelude
  import opened Text
  import opened Tokenizer
  import opened FtsQuery
  import opened Floats
  import opened Similarity
  import opened Embedder
  import opened Cells
  import opened Tables
  import opened Scans
  import opened Recall
  import opened Ranking
  import opened Store
  import opened Refinement

  // ----- every request has a legal answer -----

  function MatchingRows(e: Fts5, fts: map<nat, FtsRow>, ns: string, q: string): set<nat> {
    set r | r in fts && fts[r].namespace == ns && e.matches(fts, q, r)
  }

  /** Some listing of rows, best rank first. */
  ghost predicate RankedRows(e: Fts5, fts: map<nat, FtsRow>, q: string, rows: set<nat>, list: seq<nat>) {
    && NoDuplicates(list) && (forall r: nat :: r in list <==> r in rows)
    && forall i, j | 0 <= i < j < |list| :: e.bm25(fts, q, list[i]) <= e.bm25(fts, q, list[j])
  }

  lemma {:induction false} BestRow(e: Fts5, fts: map<nat, FtsRow>, q: string, rows: set<nat>) returns (best: nat)
    requires rows != {}
    ensures best in rows && forall r | r in rows :: e.bm25(fts, q, best) <= e.bm25(fts, q, r)
    decreases |rows|
  {
    best :| best in rows;
    if rows != {best} {
      var other := BestRow(e, fts, q, rows - {best});
      if e.bm25(fts, q, other) < e.bm25(fts, q, best) {
        best := other;
      }
    }
  }

  lemma {:induction false} RankedRowsExist(e: Fts5, fts: map<nat, FtsRow>, q: string, rows: set<nat>)
    returns (list: seq<nat>)
    ensures RankedRows(e, fts, q, rows, list)
    decreases |rows|
  {
    if rows == {} {
      return [];
    }
    var best := BestRow(e, fts, q, rows);
    var rest := RankedRowsExist(e, fts, q, rows - {best});
    list := [best] + rest;
    forall i, j | 0 <= i < j < |list|
      ensures list[i] != list[j] && e.bm25(fts, q, list[i]) <= e.bm25(fts, q, list[j])
    {
      assert list[j] == rest[j - 1] && rest[j - 1] in rest;
    }
    assert forall r: nat :: r in list <==> r == best || r in rest;
  }

  /** Cutting a ranked listing of all matches at the limit is a legal answer. */
  lemma CutIsLegal(e: Fts5, fts: map<nat, FtsRow>, ns: string, q: string, limit: nat, list: seq<nat>)
    requires RankedRows(e, fts, q, MatchingRows(e, fts, ns, q), list)
    ensures LegalMatches(e, fts, ns, q, limit, Take(list, limit))
  {
    var answer := Take(list, limit);
    TakeMembers(list, limit);
    forall r | r in fts && r !in answer && fts[r].namespace == ns && e.matches(fts, q, r)
      ensures |answer| == limit && forall a | a in answer :: e.bm25(fts, q, a) <= e.bm25(fts, q, r)
    {
      assert r in list;
      assert forall k | 0 <= k < |answer| :: list[k] in answer;
      var j :| 0 <= j < |list| && list[j] == r;
    }
  }

  /** Whatever the tables hold, SQLite has an answer to each scan of a recall, and to its MATCH query when FTS5 can
      read that: the theorems below are never vacuous. */
  lemma AnswersExist(s: Scoring, db: Db, req: RecallRequest) returns (a: Answers)
    ensures Legal(s, db, req, a)
  {
    var vectorScan := ScanExists(db.memories, VectorIds(db, Some(req.namespace)));
    var memoryScan := ScanExists(db.memories, NamespaceIds(db.memories, req.namespace));
    var matches: seq<nat> := [];
    var query := FtsQueryOf(s.lower, req.query);
    if query.Some? {
      var ns := req.namespace;
      var list := RankedRowsExist(s.fts5, db.fts, query.value, MatchingRows(s.fts5, db.fts, ns, query.value));
      CutIsLegal(s.fts5, db.fts, ns, query.value, ScanLimit(req.limit), list);
      matches := Take(list, ScanLimit(req.limit));
    }
    a := Answers(vectorScan, memoryScan, matches);
  }

  // ----- how many hits -----

  /** The scan window: at least 64 rows, eight per requested hit, never more than 512. The lower clamp to 32 never
      acts. */
  lemma ScanWindow(limit: nat)
    ensures ScanLimit(limit) == if limit <= 8 then 64 else if limit <= 64 then 8 * limit else 512
    ensures Min(limit, 512) <= ScanLimit(limit)
  {
  }

  /** An embedder whose squared norms are finite in f32, so that every pair of its vectors has a cosine. */
  ghost predicate ScorableEmbedder(round: real -> Float, embed: string -> seq<F32>, dim: nat) {
    && FixedEmbedder(embed, dim)
    && forall text :: FloatDot(round, FloatsOf(embed(text)), FloatsOf(embed(text)), |embed(text)|).Fin?
  }

  /** In an indexed store recall scores the embedding of the content, and skips the row exactly when the f32 cosine of
      the two embeddings is lost in an overflow. */
  lemma IndexedRowScore(sv: Services, s: Scoring, dim: nat, db: Db, id: string, query: string)
    requires FixedEmbedder(sv.embed, dim) && VectorsExact(sv, db.memories, db.vectors) && Ieee(s.arith)
    requires id in db.vectors
    ensures var q, v := sv.embed(query), sv.embed(db.memories[id].content);
            var score := RowScore(s.arith, sv.parsers, db.vectors[id], q);
            && score == VectorScore(s.arith, q, v)
            && (score.Some? <==> CosineSurvives(s.arith.round, FloatsOf(q), FloatsOf(v)))
  {
    var q, v := sv.embed(query), sv.embed(db.memories[id].content);
    EmbeddedRow(sv.parsers, v);
    CosineFiniteIff(s.arith, FloatsOf(q), FloatsOf(v));
  }

  /** Every scanned row of an indexed store gets a vector score when every norm is finite. */
  lemma IndexedRowsScore(sv: Services, s: Scoring, dim: nat, db: Db, rows: seq<string>, query: string)
    requires ScorableEmbedder(s.arith.round, sv.embed, dim) && Ieee(s.arith)
    requires VectorsExact(sv, db.memories, db.vectors) && forall id | id in rows :: id in db.vectors
    ensures VectorCandidates(s.arith, sv.parsers, db.vectors, rows, sv.embed(query)).Keys == IdSet(rows)
  {
    forall id | id in rows
      ensures RowScore(s.arith, sv.parsers, db.vectors[id], sv.embed(query)).Some?
    {
      IndexedRowScore(sv, s, dim, db, id, query);
    }
  }

  /** The patterns of 2^100 and 2^-100. */
  const LARGE: F32 := 0x7180_0000

  const SMALL: F32 := 0x0D80_0000

  const TWO_TO_100: real := 1267650600228229401496703205376.0

  lemma LargeValue()
    ensures FloatOf(LARGE) == Fin(TWO_TO_100)
  {
    Pow2At77();
  }

  lemma SmallValue()
    ensures FloatOf(SMALL) == Fin(1.0 / TWO_TO_100)
  {
    SmallPower();
    SmallPattern();
  }

  lemma SmallPattern()
    ensures FloatOf(SMALL) == Fin(8388608.0 * Pow2(-123))
  {
    assert (SMALL / 0x80_0000) % 256 == 27 && SMALL % 0x80_0000 == 0;
  }

  lemma SmallPower()
    ensures 8388608.0 * Pow2(-123) == 1.0 / TWO_TO_100
  {
    Pow2At123();
    Pow2Inverse(123);
    InverseOf(Pow2(-123), 10633823966279326983230456482242756608.0);
  }

  lemma InverseOf(x: real, y: real)
    requires y > 0.0 && x * y == 1.0
    ensures x == 1.0 / y
  {
  }

  lemma Pow2At77()
    ensures Pow2(77) == 151115727451828646838272.0
  {
    Pow2Values();
    Pow2Sum(64, 8);
    Pow2Sum(72, 4);
    Pow2Sum(76, 1);
  }

  lemma Pow2At123()
    ensures Pow2(123) == 10633823966279326983230456482242756608.0
  {
    Pow2Values();
    Pow2Sum(64, 32);
    Pow2Sum(96, 16);
    Pow2Sum(112, 8);
    Pow2Sum(120, 2);
    Pow2Sum(122, 1);
  }

  lemma LargeTimesSmall()
    ensures Product(TWO_TO_100, TWO_TO_100) >= OVERFLOW
    ensures 0.0 <= Product(1.0 / TWO_TO_100, 1.0 / TWO_TO_100) < TINY / 2.0
    ensures Product(TWO_TO_100, 1.0 / TWO_TO_100) == Whole(1)
  {
  }

  lemma OneEntryDot(round: real -> Float, x: real, y: real)
    requires Rounding(round)
    ensures FloatDot(round, [Fin(x)], [Fin(y)], 1) == Add(round, Fin(0.0), round(Product(x, y)))
  {
    assert FloatDot(round, [Fin(x)], [Fin(y)], 0) == Fin(0.0);
  }

  lemma LostDots(round: real -> Float)
    requires Rounding(round)
    ensures var a, b := [Fin(TWO_TO_100)], [Fin(1.0 / TWO_TO_100)];
            && FloatDot(round, a, a, 1) == PosInf && FloatDot(round, b, b, 1) == Fin(0.0)
            && FloatDot(round, a, b, 1) == Fin(1.0)
  {
    LargeTimesSmall();
    OneEntryDot(round, TWO_TO_100, TWO_TO_100);
    OneEntryDot(round, 1.0 / TWO_TO_100, 1.0 / TWO_TO_100);
    OneEntryDot(round, TWO_TO_100, 1.0 / TWO_TO_100);
    KeptWhole(round, 1);
    RoundsUp(round, 0.0);
  }

  /** 2^100 and 2^-100 as vectors of one entry have the dot product 1, but the square of one overflows and that of the
      other underflows to zero: their cosine is NaN. The cosine of 2^100 with itself is NaN too. */
  lemma LostCosines(f: Arithmetic)
    requires Ieee(f)
    ensures FloatDot(f.round, FloatsOf([LARGE]), FloatsOf([SMALL]), 1) == Fin(1.0)
    ensures !FloatCosine(f, FloatsOf([LARGE]), FloatsOf([SMALL])).Fin?
    ensures !FloatCosine(f, FloatsOf([LARGE]), FloatsOf([LARGE])).Fin?
  {
    LargeValue();
    SmallValue();
    var a, b := FloatsOf([LARGE]), FloatsOf([SMALL]);
    assert a == [Fin(TWO_TO_100)] && b == [Fin(1.0 / TWO_TO_100)];
    LostDots(f.round);
    CosineFiniteIff(f, a, b);
    CosineFiniteIff(f, a, a);
  }

  lemma LostRow(f: Arithmetic, p: Parsers, q: seq<F32>, v: seq<F32>)
    requires Ieee(f) && q == [LARGE] && (v == [LARGE] || v == [SMALL])
    ensures RowScore(f, p, VectorRowFor(v), q).None?
  {
    assert IsFinite(LARGE) && IsFinite(SMALL);
    EmbeddedRowScore(f, p, q, v);
    LostCosines(f);
  }

  /**
   * Without finite norms the count below fails, whether a square overflows alone or another one underflows with it: an
   * embedder of finite non-zero entries makes recall skip every row of an indexed store.
   */
  lemma LosingEmbedder(sv: Services, s: Scoring, db: Db, rows: seq<string>, query: string)
    requires Ieee(s.arith) && VectorsExact(sv, db.memories, db.vectors) && forall id | id in rows :: id in db.vectors
    requires sv.embed(query) == [LARGE] && forall text :: sv.embed(text) == [LARGE] || sv.embed(text) == [SMALL]
    ensures FixedEmbedder(sv.embed, 1)
    ensures VectorCandidates(s.arith, sv.parsers, db.vectors, rows, sv.embed(query)) == map[]
  {
    assert IsFinite(LARGE) && IsFinite(SMALL);
    forall id | id in rows
      ensures RowScore(s.arith, sv.parsers, db.vectors[id], sv.embed(query)).None?
    {
      LostRow(s.arith, sv.parsers, sv.embed(query), sv.embed(db.memories[id].content));
    }
    NoScores(s.arith, sv.parsers, db.vectors, rows, sv.embed(query));
  }

  lemma NoScores(f: Arithmetic, p: Parsers, vectors: map<string, VectorRow>, rows: seq<string>, query: seq<F32>)
    requires forall id | id in rows :: id in vectors && RowScore(f, p, vectors[id], query).None?
    ensures VectorCandidates(f, p, vectors, rows, query) == map[]
  {
    assert VectorCandidates(f, p, vectors, rows, query).Keys == {};
  }

  lemma VectorIdsOfIndexed(sv: Services, db: Db, ns: string)
    requires VectorsExact(sv, db.memories, db.vectors)
    ensures VectorIds(db, Some(ns)) == NamespaceIds(db.memories, ns)
  {
  }

  lemma TakeDistinct<T>(s: seq<T>, n: nat)
    requires NoDuplicates(s)
    ensures NoDuplicates(Take(s, n)) && |Take(s, n)| == Min(n, |s|)
  {
  }

  /** Lexical candidates of an indexed store are records of the namespace. */
  lemma LexicalInNamespace(sv: Services, s: Scoring, db: Db, req: RecallRequest, a: Answers)
    requires Indexed(sv, db) && Legal(s, db, req, a) && !MatchFails(s.lower, req.query)
    ensures LexicalCandidates(s, db, a.matches, a.memoryScan, req.query, req.limit).Keys
         <= NamespaceIds(db.memories, req.namespace)
  {
    TakeMembers(a.memoryScan, ScanLimit(req.limit));
  }

  /** Between the scanned rows and all rows of the namespace become candidates. */
  lemma CandidateCount(sv: Services, s: Scoring, dim: nat, db: Db, req: RecallRequest, a: Answers)
    requires ScorableEmbedder(s.arith.round, sv.embed, dim) && Indexed(sv, db) && Ieee(s.arith) && Legal(s, db, req, a)
    requires !MatchFails(s.lower, req.query)
    ensures var n := |NamespaceIds(db.memories, req.namespace)|;
            Min(ScanLimit(req.limit), n) <= |Candidates(sv, s, db, req, a)| <= n
  {
    var ids := NamespaceIds(db.memories, req.namespace);
    var rows := Take(a.vectorScan, ScanLimit(req.limit));
    var lexical := LexicalCandidates(s, db, a.matches, a.memoryScan, req.query, req.limit);
    TakeMembers(a.vectorScan, ScanLimit(req.limit));
    var vector := VectorCandidates(s.arith, sv.parsers, db.vectors, rows, sv.embed(req.query));
    LexicalInNamespace(sv, s, db, req, a);
    IndexedRowsScore(sv, s, dim, db, rows, req.query);
    VectorIdsOfIndexed(sv, db, req.namespace);
    ScanSize(db.memories, ids, a.vectorScan);
    TakeDistinct(a.vectorScan, ScanLimit(req.limit));
    DistinctCount(rows);
    assert vector.Keys <= ids;
    HitsAtSize(s, db.memories, req.namespace, req.weights, lexical, vector, lexical.Keys + vector.Keys);
    SubsetCount(lexical.Keys + vector.Keys, ids);
    SubsetCount(vector.Keys, lexical.Keys + vector.Keys);
  }

  lemma CandidatesAreComparable(sv: Services, s: Scoring, db: Db, req: RecallRequest, a: Answers)
    requires Rounding(s.arith.round) && Legal(s, db, req, a)
    ensures Comparable(Candidates(sv, s, db, req, a))
  {
    TakeMembers(a.vectorScan, ScanLimit(req.limit));
    LexicalCandidatesUnit(s, db, a.matches, a.memoryScan, req.query, req.limit);
    VectorCandidatesUnit(
      s.arith, sv.parsers, db.vectors, Take(a.vectorScan, ScanLimit(req.limit)), sv.embed(req.query));
    HitsAreComparable(s, db.memories, req.namespace, req.weights,
                      LexicalCandidates(s, db, a.matches, a.memoryScan, req.query, req.limit),
                      VectorCandidates(s.arith, sv.parsers, db.vectors,
                                       Take(a.vectorScan, ScanLimit(req.limit)), sv.embed(req.query)));
  }

  /** The ids of an answer are pairwise distinct records of the namespace. */
  ghost predicate DistinctRecords(m: Memories, ns: string, hits: seq<Hit>) {
    && (forall i, j | 0 <= i < j < |hits| :: hits[i].record.id != hits[j].record.id)
    && (forall h | h in hits :: h.record.id in m && h.record.row == m[h.record.id] && h.record.row.namespace == ns)
  }

  lemma TopIsDistinct(m: Memories, ns: string, cands: set<Hit>, limit: nat, hits: seq<Hit>)
    requires Comparable(cands) && IsTop(cands, limit, hits)
    requires forall h | h in cands :: h.record.id in m && h.record.row == m[h.record.id] && h.record.row.namespace == ns
    ensures DistinctRecords(m, ns, hits)
  {
    RankedDistinct(cands, hits);
  }

  lemma CandidatesAreRecords(sv: Services, s: Scoring, db: Db, req: RecallRequest, a: Answers)
    requires Legal(s, db, req, a)
    ensures forall h | h in Candidates(sv, s, db, req, a) ::
              h.record.id in db.memories && h.record.row == db.memories[h.record.id] &&
              h.record.row.namespace == req.namespace
  {
  }

  /**
   * On an indexed store, recall fails exactly when FTS5 cannot read its MATCH string; otherwise it returns exactly
   * min(limit, records of the namespace) hits for every limit up to 512, and never fewer than min(512, records).
   */
  lemma RecallCount(
    sv: Services, s: Scoring, dim: nat, db: Db, req: RecallRequest, a: Answers, r: Result<seq<Hit>>)
    requires ScorableEmbedder(s.arith.round, sv.embed, dim) && Indexed(sv, db) && Ieee(s.arith) && ValidRecall(req)
    requires Legal(s, db, req, a) && RecallResult(sv, s, db, req, a, r)
    ensures r.Err? <==> MatchFails(s.lower, req.query)
    ensures var n := |NamespaceIds(db.memories, req.namespace)|;
            r.Ok? ==> && Min(Min(req.limit, 512), n) <= |r.value| <= Min(req.limit, n)
                      && (req.limit <= 512 ==> |r.value| == Min(req.limit, n))
  {
    if r.Ok? {
      CandidateCount(sv, s, dim, db, req, a);
      ScanWindow(req.limit);
      CutCount(req.limit, ScanLimit(req.limit), |NamespaceIds(db.memories, req.namespace)|,
               |Candidates(sv, s, db, req, a)|);
    }
  }

  lemma CutCount(limit: nat, window: nat, n: nat, candidates: nat)
    requires Min(window, n) <= candidates <= n && Min(limit, 512) <= window
    ensures Min(Min(limit, 512), n) <= Min(limit, candidates) <= Min(limit, n)
    ensures limit <= 512 ==> Min(limit, candidates) == Min(limit, n)
  {
  }

  /** For all weights the hits come best first, and they are distinct records of the namespace. */
  lemma RecallIsRanked(sv: Services, s: Scoring, db: Db, req: RecallRequest, a: Answers, r: Result<seq<Hit>>)
    requires Rounding(s.arith.round) && Legal(s, db, req, a) && RecallResult(sv, s, db, req, a, r) && r.Ok?
    ensures IsTop(Candidates(sv, s, db, req, a), req.limit, r.value)
    ensures BestFirst(Candidates(sv, s, db, req, a), r.value)
    ensures DistinctRecords(db.memories, req.namespace, r.value)
  {
    CandidatesAreComparable(sv, s, db, req, a);
    CandidatesAreRecords(sv, s, db, req, a);
    TopMeans(Candidates(sv, s, db, req, a), req.limit, r.value);
    TopIsDistinct(db.memories, req.namespace, Candidates(sv, s, db, req, a), req.limit, r.value);
  }

  /**
   * Over every serial run from the empty store, a valid recall with a limit up to 512 fails exactly when FTS5 cannot
   * read its MATCH string, and otherwise returns exactly min(limit, records of the namespace) hits: distinct records
   * of the namespace, as the map machine holds them.
   */
  lemma RecallAfterRun(
    sv: Services, s: Scoring, dim: nat, ops: seq<Op>, db: Db, req: RecallRequest, a: Answers, r: Result<seq<Hit>>)
    requires ScorableEmbedder(s.arith.round, sv.embed, dim) && Reached(sv, ops, db)
    requires Ieee(s.arith) && ValidRecall(req) && req.limit <= 512
    requires Legal(s, db, req, a) && RecallResult(sv, s, db, req, a, r)
    ensures r.Err? <==> MatchFails(s.lower, req.query)
    ensures r.Ok? ==>
              && DistinctRecords(MapRun(sv, map[], ops), req.namespace, r.value)
              && |r.value| == Min(req.limit, |NamespaceIds(MapRun(sv, map[], ops), req.namespace)|)
  {
    EmptyIsIndexed(sv);
    RunRefinesMap(sv, dim, EMPTY, ops);
    RecallCount(sv, s, dim, db, req, a, r);
    if r.Ok? {
      RecallIsRanked(sv, s, db, req, a, r);
    }
  }

  /** The answer is determined, for all weights: two results for the same candidates are the same list. */
  lemma RecallIsDeterministic(
    sv: Services, s: Scoring, db: Db, req: RecallRequest, a: Answers, r: Result<seq<Hit>>, r': Result<seq<Hit>>)
    requires Rounding(s.arith.round) && Legal(s, db, req, a)
    requires RecallResult(sv, s, db, req, a, r) && RecallResult(sv, s, db, req, a, r')
    ensures r == r'
  {
    if r.Ok? {
      CandidatesAreComparable(sv, s, db, req, a);
      TopUnique(Candidates(sv, s, db, req, a), req.limit, r.value, r'.value);
    }
  }

  // ----- the hash embedder -----

  /** The store's embedder is the hash embedder. */
  ghost predicate UsesHashEmbedder(sv: Services, h: Platform, requested: nat) {
    WellBehaved(h) && forall text :: sv.embed(text) == EmbedBits(h, text, Dimension(requested))
  }

  /** The hash embedder meets what the theorems assume: one dimension, finite entries, finite norms. */
  lemma HashEmbedderIsFixed(sv: Services, h: Platform, requested: nat)
    requires UsesHashEmbedder(sv, h, requested)
    ensures ScorableEmbedder(h.arith.round, sv.embed, Dimension(requested))
  {
    forall text
      ensures |sv.embed(text)| == Dimension(requested) && AllFinite(sv.embed(text))
      ensures FloatDot(h.arith.round, FloatsOf(sv.embed(text)), FloatsOf(sv.embed(text)), |sv.embed(text)|).Fin?
    {
      StoredNorm(h, text, Dimension(requested));
    }
  }

  /** Two stored embeddings score in [0.5, 1], and equal ones of a text with a term at least 1 - 2^-21. */
  lemma HashVectorScore(h: Platform, text: string, other: string, dim: nat)
    requires WellBehaved(h) && dim > 0
    ensures var score := VectorScore(h.arith, EmbedBits(h, text, dim), EmbedBits(h, other, dim));
            && score.Some? && 0.5 <= score.value <= 1.0
            && (text == other && Trim(text) != "" ==> score.value >= 1.0 - 1.0 / 2097152.0)
  {
    var q, v := FloatsOf(EmbedBits(h, text, dim)), FloatsOf(EmbedBits(h, other, dim));
    StoredNorm(h, text, dim);
    StoredNorm(h, other, dim);
    NonNegativeCosine(h.arith, q, v);
    UpperHalf(h.arith.round, FloatCosine(h.arith, q, v).r);
    if text == other && Trim(text) != "" {
      StoredSelfScore(h, text, dim);
    }
  }

  lemma EmbeddedRowScore(f: Arithmetic, p: Parsers, q: seq<F32>, v: seq<F32>)
    requires v != [] && AllFinite(v) && |q| == |v|
    ensures RowScore(f, p, VectorRowFor(v), q) == VectorScore(f, q, v)
  {
    EmbeddedRow(p, v);
  }

  /** In an indexed store with the hash embedder every scanned row scores at least one half, and a row that stores the
      query itself, when that has a term, at least 1 - 2^-21. */
  lemma HashScoresAtLeastHalf(
    sv: Services, h: Platform, requested: nat, db: Db, rows: seq<string>, query: string)
    requires UsesHashEmbedder(sv, h, requested) && VectorsExact(sv, db.memories, db.vectors)
    requires forall id | id in rows :: id in db.vectors
    ensures var c := VectorCandidates(h.arith, sv.parsers, db.vectors, rows, sv.embed(query));
            forall id | id in rows ::
              && id in c && 0.5 <= c[id] <= 1.0
              && (db.memories[id].content == query && Trim(query) != "" ==> c[id] >= 1.0 - 1.0 / 2097152.0)
  {
    var dim := Dimension(requested);
    forall id | id in rows
      ensures var score := RowScore(h.arith, sv.parsers, db.vectors[id], sv.embed(query));
              && score.Some? && 0.5 <= score.value <= 1.0
              && (db.memories[id].content == query && Trim(query) != "" ==> score.value >= 1.0 - 1.0 / 2097152.0)
    {
      var content := db.memories[id].content;
      StoredNorm(h, content, dim);
      EmbeddedRowScore(h.arith, sv.parsers, EmbedBits(h, query, dim), EmbedBits(h, content, dim));
      HashVectorScore(h, query, content, dim);
    }
  }

  // ----- maintenance preserves recall -----

  /** A row that scored before maintenance scores the same after it. */
  lemma MaintenanceKeepsScore(f: Arithmetic, p: Parsers, row: VectorRow, query: seq<F32>)
    requires RowScore(f, p, row, query).Some?
    ensures RowScore(f, p, RepairRow(p, row), query) == RowScore(f, p, row, query)
    ensures RowScore(f, p, MigrateRow(p, row), query) == RowScore(f, p, row, query)
  {
    MaintenanceKeepsVector(p, row, |query|);
  }

  /** `small` is a part of `big`, and what `big` adds are ids of changed rows. */
  ghost predicate Extends(
    small: map<string, real>, big: map<string, real>,
    before: map<string, VectorRow>, after: map<string, VectorRow>)
  {
    && (forall id | id in small :: id in big && big[id] == small[id])
    && (forall id | id in big && id !in small :: id in before && id in after && before[id] != after[id])
  }

  /**
   * Migration and repair preserve recall: for every scan window and query vector, each id keeps its exact score,
   * and only rewritten rows can gain one. The window is the same because neither touches `memories`.
   */
  lemma MaintenanceKeepsCandidates(
    f: Arithmetic, p: Parsers, vectors: map<string, VectorRow>, ids: set<string>, rows: seq<string>,
    query: seq<F32>)
    requires forall id | id in rows :: id in vectors
    ensures Extends(VectorCandidates(f, p, vectors, rows, query),
                    VectorCandidates(f, p, RepairTable(p, vectors, ids), rows, query),
                    vectors, RepairTable(p, vectors, ids))
    ensures Extends(VectorCandidates(f, p, vectors, rows, query),
                    VectorCandidates(f, p, MigrateTable(p, vectors), rows, query),
                    vectors, MigrateTable(p, vectors))
  {
    forall id | id in rows && RowScore(f, p, vectors[id], query).Some?
      ensures RowScore(f, p, RepairRow(p, vectors[id]), query) == RowScore(f, p, vectors[id], query)
      ensures RowScore(f, p, MigrateRow(p, vectors[id]), query) == RowScore(f, p, vectors[id], query)
    {
      MaintenanceKeepsScore(f, p, vectors[id], query);
    }
  }

  /** The same answers are legal after maintenance: it changes cells only, never ids, times or FTS rows. */
  lemma MaintenanceKeepsAnswers(s: Scoring, db: Db, vectors: map<string, VectorRow>, req: RecallRequest, a: Answers)
    requires Legal(s, db, req, a) && vectors.Keys == db.vectors.Keys
    ensures Legal(s, db.(vectors := vectors), req, a)
  {
    assert VectorIds(db.(vectors := vectors), Some(req.namespace)) == VectorIds(db, Some(req.namespace));
  }

  /** A candidate before maintenance is one after it, with the same record and scores, unless its row had no vector
      score and was rewritten; then only the vector score, and with it the hybrid score, can have changed. */
  ghost predicate Survives(h: Hit, h': Hit, before: map<string, VectorRow>, after: map<string, VectorRow>) {
    && h'.record == h.record && h'.lexical == h.lexical
    && (h' == h || (h.vector == 0.0 && h.record.id in before && h.record.id in after &&
                    before[h.record.id] != after[h.record.id]))
  }

  lemma HitSurvives(
    s: Scoring, m: Memories, ns: string, w: Weights, lexical: map<string, real>,
    small: map<string, real>, big: map<string, real>,
    before: map<string, VectorRow>, after: map<string, VectorRow>, h: Hit)
    requires Extends(small, big, before, after) && h in HitSet(s, m, ns, w, lexical, small)
    ensures h.record.id in m && HitFor(s, m, w, lexical, big, h.record.id) in HitSet(s, m, ns, w, lexical, big)
    ensures Survives(h, HitFor(s, m, w, lexical, big, h.record.id), before, after)
  {
  }

  /** What a recall reads from the vector table: the window of its scan. */
  ghost function Window(sv: Services, s: Scoring, vectors: map<string, VectorRow>, req: RecallRequest, a: Answers)
    : map<string, real>
    requires forall id | id in a.vectorScan :: id in vectors
  {
    TakeMembers(a.vectorScan, ScanLimit(req.limit));
    VectorCandidates(s.arith, sv.parsers, vectors, Take(a.vectorScan, ScanLimit(req.limit)), sv.embed(req.query))
  }

  lemma MaintainedWindow(
    sv: Services, s: Scoring, before: map<string, VectorRow>, after: map<string, VectorRow>, ids: set<string>,
    req: RecallRequest, a: Answers)
    requires after == RepairTable(sv.parsers, before, ids) || after == MigrateTable(sv.parsers, before)
    requires forall id | id in a.vectorScan :: id in before
    ensures Extends(Window(sv, s, before, req, a), Window(sv, s, after, req, a), before, after)
  {
    TakeMembers(a.vectorScan, ScanLimit(req.limit));
    MaintenanceKeepsCandidates(
      s.arith, sv.parsers, before, ids, Take(a.vectorScan, ScanLimit(req.limit)), sv.embed(req.query));
  }

  lemma CandidatesWith(
    sv: Services, s: Scoring, db: Db, vectors: map<string, VectorRow>, req: RecallRequest, a: Answers)
    requires Legal(s, db, req, a) && Legal(s, db.(vectors := vectors), req, a)
    ensures Candidates(sv, s, db.(vectors := vectors), req, a)
         == HitSet(s, db.memories, req.namespace, req.weights,
                   LexicalCandidates(s, db, a.matches, a.memoryScan, req.query, req.limit),
                   Window(sv, s, vectors, req, a))
  {
  }

  lemma TableKeepsHits(
    sv: Services, s: Scoring, db: Db, vectors: map<string, VectorRow>, ids: set<string>,
    req: RecallRequest, a: Answers, h: Hit)
    returns (h': Hit)
    requires vectors == RepairTable(sv.parsers, db.vectors, ids) || vectors == MigrateTable(sv.parsers, db.vectors)
    requires Legal(s, db, req, a) && h in Candidates(sv, s, db, req, a)
    ensures Legal(s, db.(vectors := vectors), req, a)
    ensures h' in Candidates(sv, s, db.(vectors := vectors), req, a) && Survives(h, h', db.vectors, vectors)
  {
    MaintenanceKeepsAnswers(s, db, vectors, req, a);
    MaintainedWindow(sv, s, db.vectors, vectors, ids, req, a);
    CandidatesWith(sv, s, db, db.vectors, req, a);
    CandidatesWith(sv, s, db, vectors, req, a);
    var lexical := LexicalCandidates(s, db, a.matches, a.memoryScan, req.query, req.limit);
    var small, big := Window(sv, s, db.vectors, req, a), Window(sv, s, vectors, req, a);
    HitSurvives(s, db.memories, req.namespace, req.weights, lexical, small, big, db.vectors, vectors, h);
    h' := HitFor(s, db.memories, req.weights, lexical, big, h.record.id);
  }

  /** The tables after a repair with apply, or after migration v2. */
  ghost function Maintained(p: Parsers, db: Db, repair: bool, order: seq<string>, limit: nat): Db
    requires forall id | id in order :: id in db.vectors
  {
    if repair then RepairDb(p, db, order, limit, true, None).0 else MigrateDb(p, db, false).0
  }

  lemma MaintainedShape(p: Parsers, db: Db, repair: bool, order: seq<string>, limit: nat)
    requires NoDuplicates(order) && forall id | id in order :: id in db.vectors
    ensures var db' := Maintained(p, db, repair, order, limit);
            || db' == db
            || (db' == db.(vectors := db'.vectors) &&
                (db'.vectors == RepairTable(p, db.vectors, IdSet(order)) || db'.vectors == MigrateTable(p, db.vectors)))
  {
    RepairDbTable(p, db, order, limit);
  }

  /** Migration v2 and a repair with apply, of a namespace or of all rows, preserve recall: the same answers of SQLite
      are legal, and every candidate survives. */
  lemma MaintenanceKeepsHits(
    sv: Services, s: Scoring, db: Db, repair: bool, ns: Option<string>, order: seq<string>, limit: nat,
    req: RecallRequest, a: Answers, h: Hit)
    returns (h': Hit)
    requires Scan(db.memories, VectorIds(db, ns), order) && Legal(s, db, req, a)
    requires h in Candidates(sv, s, db, req, a)
    ensures var db' := Maintained(sv.parsers, db, repair, order, limit);
            && Legal(s, db', req, a)
            && h' in Candidates(sv, s, db', req, a) && Survives(h, h', db.vectors, db'.vectors)
  {
    var db' := Maintained(sv.parsers, db, repair, order, limit);
    MaintainedShape(sv.parsers, db, repair, order, limit);
    if db' == db {
      h' := h;
    } else {
      h' := TableKeepsHits(sv, s, db, db'.vectors, IdSet(order), req, a, h);
    }
  }

  // ----- the lexical score -----

  /** In f32 the score never rises with the magnitude of the rank. */
  lemma LexicalScoreFollowsMagnitude(round: real -> Float, a: real, b: real)
    requires Rounding(round) && Monotone(round) && Abs(a) <= Abs(b)
    ensures LexicalScore(round, a) >= LexicalScore(round, b)
  {
    var x, y := round(Abs(a)), round(Abs(b));
    assert !Less(y, x);
    RoundsUp(round, Abs(a));
    RoundsUp(round, Abs(b));
    LargerSum(round, x, y);
    ReciprocalFalls(round, Add(round, Fin(1.0), x), Add(round, Fin(1.0), y));
  }

  lemma LargerSum(round: real -> Float, x: Float, y: Float)
    requires Rounding(round) && Monotone(round) && !Less(y, x)
    requires (x.PosInf? || (x.Fin? && x.r >= 0.0)) && (y.PosInf? || (y.Fin? && y.r >= 0.0))
    ensures var s, t := Add(round, Fin(1.0), x), Add(round, Fin(1.0), y);
            && !Less(t, s) && (s.PosInf? || (s.Fin? && s.r >= 1.0)) && (t.PosInf? || (t.Fin? && t.r >= 1.0))
  {
    assert Keeps(round, Whole(1));
    if x.Fin? && y.Fin? {
      assert !Less(round(1.0 + y.r), round(1.0 + x.r));
    }
  }

  lemma ReciprocalFalls(round: real -> Float, x: Float, y: Float)
    requires Rounding(round) && Monotone(round) && !Less(y, x)
    requires (x.PosInf? || (x.Fin? && x.r >= 1.0)) && (y.PosInf? || (y.Fin? && y.r >= 1.0))
    ensures 0.0 <= FloatReciprocal(round, y) <= FloatReciprocal(round, x)
  {
    if x.Fin? {
      ReciprocalPositive(x.r);
      RoundsUp(round, 1.0 / x.r);
      if y.Fin? {
        ReciprocalPositive(y.r);
        RoundsUp(round, 1.0 / y.r);
        if x.r < y.r {
          ReciprocalOrder(x.r, y.r);
        }
        assert !Less(round(1.0 / x.r), round(1.0 / y.r));
      }
    }
  }

  lemma ReciprocalPositive(x: real)
    requires x >= 1.0
    ensures 0.0 <= 1.0 / x <= 1.0
  {
    QuotientBound(1.0, x);
    QuotientSign(1.0, x);
  }

  /**
   * FTS5 returns the best match first, under the smallest rank. Among non-positive ranks a better rank never scores
   * higher in f32, where rounding may make ties. Without rounding the score is higher exactly for the rank nearer to
   * zero: a better rank scores higher if and only if the two ranks add up to more than zero.
   */
  lemma LexicalScoreAgainstRank(round: real -> Float, better: real, worse: real)
    requires Rounding(round) && Monotone(round) && better < worse
    ensures better + worse <= 0.0 ==> LexicalScore(round, better) <= LexicalScore(round, worse)
    ensures better + worse >= 0.0 ==> LexicalScore(round, better) >= LexicalScore(round, worse)
    ensures LexicalScore(Exactly, better) > LexicalScore(Exactly, worse) <==> better + worse > 0.0
  {
    if better + worse <= 0.0 {
      LexicalScoreFollowsMagnitude(round, worse, better);
    }
    if better + worse >= 0.0 {
      LexicalScoreFollowsMagnitude(round, better, worse);
    }
    ExactScoreOrder(better, worse);
  }

  lemma ExactScoreOrder(a: real, b: real)
    ensures LexicalScore(Exactly, a) > LexicalScore(Exactly, b) <==> Abs(a) < Abs(b)
  {
    if Abs(a) < Abs(b) {
      ReciprocalOrder(1.0 + Abs(a), 1.0 + Abs(b));
    } else if Abs(b) < Abs(a) {
      ReciprocalOrder(1.0 + Abs(b), 1.0 + Abs(a));
    }
  }

  lemma ReciprocalOrder(x: real, y: real)
    requires 1.0 <= x < y
    ensures 0.0 < 1.0 / y < 1.0 / x <= 1.0
  {
    assert (1.0 / x) * x == 1.0 && (1.0 / y) * y == 1.0;
    QuotientBound(1.0, x);
  }

  // ----- the lexical fallback -----

  /** A row scores exactly when its first 128 terms meet the query's first 32, and at most 1. */
  lemma FallbackScoresIffOverlap(s: Scoring, query: string, content: string)
    requires Rounding(s.arith.round)
    ensures FallbackScore(s, query, content).Some? <==>
              exists t :: t in Terms(s.lower, query, FALLBACK_QUERY_TERMS) &&
                          t in Terms(s.lower, content, FALLBACK_CONTENT_TERMS)
    ensures FallbackScore(s, query, content).Some? ==> 0.0 < FallbackScore(s, query, content).value <= 1.0
  {
    var both := QueryTerms(s.lower, query) * ContentTerms(s.lower, content);
    if t :| t in Terms(s.lower, query, FALLBACK_QUERY_TERMS) && t in Terms(s.lower, content, FALLBACK_CONTENT_TERMS) {
      assert t in both;
    }
    if both != {} {
      var t :| t in both;
      assert t in Terms(s.lower, query, FALLBACK_QUERY_TERMS) && t in Terms(s.lower, content, FALLBACK_CONTENT_TERMS);
      FewQueryTerms(s.lower, query);
      SubsetCount(both, QueryTerms(s.lower, query));
      RatioPositive(s.arith.round, |both|, |QueryTerms(s.lower, query)|);
    }
  }

  lemma FewQueryTerms(lower: string -> string, query: string)
    ensures |QueryTerms(lower, query)| <= FALLBACK_QUERY_TERMS
  {
    TermsPrefixMonotone(lower, query, 0, FALLBACK_QUERY_TERMS);
    DistinctCount(Terms(lower, query, FALLBACK_QUERY_TERMS));
  }

  lemma RatioPositive(round: real -> Float, n: nat, d: nat)
    requires Rounding(round) && 0 < n <= d <= 32
    ensures Rounded(round, n as real / d as real) > 0.0
  {
    RatioRange(Whole(n), Whole(d));
  }

  lemma RatioRange(n: real, d: real)
    requires 1.0 <= n <= d <= 32.0
    ensures 1.0 / 32.0 <= n / d <= 1.0
  {
    assert (n / d) * d == n;
    AtMost(1.0 / 32.0, n / d, d, d / 32.0, n);
    AtMost(n / d, 1.0, d, n, d);
  }

  /** A row whose content is an accepted query scores exactly 1. */
  lemma FallbackSelfScore(s: Scoring, query: string)
    requires KeepsInk(s.lower) && Rounding(s.arith.round) && Trim(query) != ""
    ensures FallbackScore(s, query, query) == Some(1.0)
  {
    TermsEmptyIff(s.lower, query, FALLBACK_QUERY_TERMS);
    TermsPrefixMonotone(s.lower, query, FALLBACK_QUERY_TERMS, FALLBACK_CONTENT_TERMS);
    var q, c := Terms(s.lower, query, FALLBACK_QUERY_TERMS), Terms(s.lower, query, FALLBACK_CONTENT_TERMS);
    assert q[0] in QueryTerms(s.lower, query);
    assert QueryTerms(s.lower, query) <= ContentTerms(s.lower, query) by {
      forall t | t in q
        ensures t in c
      {
        var i :| 0 <= i < |q| && q[i] == t;
        assert c[i] == t;
      }
    }
    assert QueryTerms(s.lower, query) * ContentTerms(s.lower, query) == QueryTerms(s.lower, query);
    RatioOne(|QueryTerms(s.lower, query)|);
    KeptWhole(s.arith.round, 1);
  }

  lemma RatioOne(n: nat)
    requires n > 0
    ensures n as real / n as real == 1.0
  {
  }
}
