/** Hybrid recall: two bounded candidate readers, a weighted merge, a three-key order and a truncation. */
module Recall {
  import opened Prelude
  import opened Tokenizer
  import opened FtsQuery
  import opened Floats
  import opened Similarity
  import opened Cells
  import opened Timestamps
  import opened Tables

  /** FTS5 as the store uses it: whether a row matches, and its bm25 over the whole table. */
  datatype Fts5 = Fts5(
    matches: (map<nat, FtsRow>, string, nat) -> bool,
    bm25: (map<nat, FtsRow>, string, nat) -> real)

  /** Arithmetic and text functions recall calls. */
  datatype Scoring = Scoring(lower: string -> string, arith: Arithmetic, fts5: Fts5)

  datatype Weights = Weights(lexical: Weight, vector: Weight)

  datatype RecallRequest = RecallRequest(namespace: string, query: string, limit: nat, weights: Weights)

  datatype Hit = Hit(record: Record, lexical: real, vector: real, hybrid: Float)

  const FALLBACK_QUERY_TERMS: nat := 32

  const FALLBACK_CONTENT_TERMS: nat := 128

  /** `(limit.max(8) * 8).clamp(32, 512)` */
  function ScanLimit(limit: nat): nat {
    Min(Max(Max(limit, 8) * 8, 32), 512)
  }

  // ----- vector candidates -----

  /** The score of two vectors, or None when their cosine is not a number. */
  function VectorScore(f: Arithmetic, query: seq<F32>, v: seq<F32>): Option<real> {
    var cosine := FloatCosine(f, FloatsOf(query), FloatsOf(v));
    if cosine.Fin? then Some(FloatNormalise(f.round, cosine.r)) else None
  }

  /** The vector score of one row, or None when recall skips it. */
  function RowScore(f: Arithmetic, p: Parsers, row: VectorRow, query: seq<F32>): Option<real> {
    match RecallVector(p, row, |query|)
    case None => None
    case Some(v) => VectorScore(f, query, v)
  }

  /** Adds an id with its score, if it has one. */
  function WithScore(c: map<string, real>, id: string, score: Option<real>): map<string, real> {
    if score.None? then c else c[id := score.value]
  }

  /** The rows of a bounded scan that recall can score, with their scores. */
  function VectorCandidates(
    f: Arithmetic, p: Parsers, vectors: map<string, VectorRow>, rows: seq<string>, query: seq<F32>)
    : (c: map<string, real>)
    requires forall id | id in rows :: id in vectors
    ensures forall id :: id in c <==> id in rows && RowScore(f, p, vectors[id], query).Some?
    ensures forall id | id in c :: RowScore(f, p, vectors[id], query) == Some(c[id])
  {
    if rows == [] then map[]
    else
      var last := rows[|rows| - 1];
      WithScore(VectorCandidates(f, p, vectors, rows[..|rows| - 1], query), last,
                RowScore(f, p, vectors[last], query))
  }

  method ScoreRow(f: Arithmetic, p: Parsers, row: VectorRow, query: seq<F32>) returns (score: Option<real>)
    ensures score == RowScore(f, p, row, query)
  {
    if row.dimension < 0 || row.dimension != |query| {
      return None;
    }
    var decoded := DecodeVectorValue(p, row.cell, row.dimension);
    if decoded.Bad? || !AllFinite(decoded.v) {
      return None;
    }
    score := ScoreVectors(f, query, decoded.v);
  }

  method ScoreVectors(f: Arithmetic, query: seq<F32>, v: seq<F32>) returns (score: Option<real>)
    ensures score == VectorScore(f, query, v)
  {
    var cosine := CosineSimilarity(f, FloatsOf(query), FloatsOf(v));
    if !cosine.Fin? {
      return None;
    }
    score := Some(FloatNormalise(f.round, cosine.r));
  }

  method ReadVectorCandidates(
    f: Arithmetic, p: Parsers, vectors: map<string, VectorRow>, order: seq<string>, query: seq<F32>, limit: nat)
    returns (out: map<string, real>)
    requires forall id | id in order :: id in vectors
    ensures out == VectorCandidates(f, p, vectors, Take(order, ScanLimit(limit)), query)
  {
    TakeMembers(order, ScanLimit(limit));
    out := ScoreRows(f, p, vectors, Take(order, ScanLimit(limit)), query);
  }

  /** The row loop of the scan. */
  method ScoreRows(f: Arithmetic, p: Parsers, vectors: map<string, VectorRow>, rows: seq<string>, query: seq<F32>)
    returns (out: map<string, real>)
    requires forall id | id in rows :: id in vectors
    ensures out == VectorCandidates(f, p, vectors, rows, query)
  {
    out := map[];
    for i := 0 to |rows|
      invariant out == VectorCandidates(f, p, vectors, rows[..i], query)
    {
      VectorStep(f, p, vectors, rows, i, query);
      var score := ScoreRow(f, p, vectors[rows[i]], query);
      out := WithScore(out, rows[i], score);
    }
    assert rows[..|rows|] == rows;
  }

  lemma VectorStep(
    f: Arithmetic, p: Parsers, vectors: map<string, VectorRow>, rows: seq<string>, i: nat, query: seq<F32>)
    requires i < |rows| && forall id | id in rows :: id in vectors
    ensures VectorCandidates(f, p, vectors, rows[..i + 1], query)
         == WithScore(VectorCandidates(f, p, vectors, rows[..i], query), rows[i],
                      RowScore(f, p, vectors[rows[i]], query))
  {
    assert rows[..i + 1][..i] == rows[..i];
  }

  // ----- lexical candidates -----

  /** The rows FTS5 may return for a query in a namespace: the best `limit` matches, best rank first. */
  ghost predicate LegalMatches(e: Fts5, fts: map<nat, FtsRow>, ns: string, q: string, limit: nat, answer: seq<nat>) {
    && NoDuplicates(answer) && |answer| <= limit
    && (forall r | r in answer :: r in fts && fts[r].namespace == ns && e.matches(fts, q, r))
    && (forall i, j | 0 <= i < j < |answer| :: e.bm25(fts, q, answer[i]) <= e.bm25(fts, q, answer[j]))
    && (forall r | r in fts && r !in answer && fts[r].namespace == ns && e.matches(fts, q, r) ::
          |answer| == limit && forall a | a in answer :: e.bm25(fts, q, a) <= e.bm25(fts, q, r))
  }

  function Abs(x: real): real { if x < 0.0 then -x else x }

  /** `1.0 / x` for an f32 of at least 1. */
  function FloatReciprocal(round: real -> Float, x: Float): real {
    if x.Fin? && x.r > 0.0 then Rounded(round, 1.0 / x.r) else 0.0
  }

  /** `(1.0 / (1.0 + rank.abs() as f32)).clamp(0.0, 1.0)` */
  function LexicalScore(round: real -> Float, rank: real): (s: real)
    ensures 0.0 <= s <= 1.0
  {
    Clamp(FloatReciprocal(round, Add(round, Fin(1.0), round(Abs(rank)))), 0.0, 1.0)
  }

  function MatchScores(s: Scoring, fts: map<nat, FtsRow>, q: string, answer: seq<nat>): (m: map<string, real>)
    requires forall r | r in answer :: r in fts
    ensures forall id | id in m :: 0.0 <= m[id] <= 1.0 && exists r | r in answer :: fts[r].memoryId == id
    ensures answer != [] ==> m != map[]
  {
    if answer == [] then map[]
    else
      var last := answer[|answer| - 1];
      var score := LexicalScore(s.arith.round, s.fts5.bm25(fts, q, last));
      var m := MatchScores(s, fts, q, answer[..|answer| - 1])[fts[last].memoryId := score];
      assert fts[last].memoryId in m;
      m
  }

  function QueryTerms(lower: string -> string, query: string): set<string> {
    set t | t in Terms(lower, query, FALLBACK_QUERY_TERMS)
  }

  function ContentTerms(lower: string -> string, content: string): set<string> {
    set t | t in Terms(lower, content, FALLBACK_CONTENT_TERMS)
  }

  function Overlap(lower: string -> string, query: string, content: string): nat {
    |QueryTerms(lower, query) * ContentTerms(lower, content)|
  }

  /** Share of the query's terms that the content has, or None when it has none. */
  function FallbackScore(s: Scoring, query: string, content: string): Option<real> {
    var overlap := Overlap(s.lower, query, content);
    if QueryTerms(s.lower, query) == {} || overlap == 0 then None
    else Some(Clamp(Rounded(s.arith.round, overlap as real / |QueryTerms(s.lower, query)| as real), 0.0, 1.0))
  }

  /** The rows of a bounded scan that share a term with the query, with their scores. */
  function FallbackCandidates(s: Scoring, m: Memories, rows: seq<string>, query: string)
    : (c: map<string, real>)
    requires forall id | id in rows :: id in m
    ensures forall id :: id in c <==> id in rows && FallbackScore(s, query, m[id].content).Some?
    ensures forall id | id in c :: FallbackScore(s, query, m[id].content) == Some(c[id])
  {
    if rows == [] then map[]
    else
      var last := rows[|rows| - 1];
      WithScore(FallbackCandidates(s, m, rows[..|rows| - 1], query), last,
                FallbackScore(s, query, m[last].content))
  }

  method ScoreContent(s: Scoring, ghost query: string, queryTerms: set<string>, content: string)
    returns (score: Option<real>)
    requires queryTerms == QueryTerms(s.lower, query) && queryTerms != {}
    ensures score == FallbackScore(s, query, content)
  {
    var terms := TokenizeTerms(s.lower, content, FALLBACK_CONTENT_TERMS);
    var contentTerms := set t | t in terms;
    var overlap := |queryTerms * contentTerms|;
    if contentTerms == {} || overlap == 0 {
      return None;
    }
    score := Some(Clamp(Rounded(s.arith.round, overlap as real / |queryTerms| as real), 0.0, 1.0));
  }

  method ReadLexicalFallbackCandidates(
    s: Scoring, m: Memories, order: seq<string>, query: string, limit: nat)
    returns (out: map<string, real>)
    requires forall id | id in order :: id in m
    ensures out == FallbackCandidates(s, m, Take(order, limit), query)
  {
    var terms := TokenizeTerms(s.lower, query, FALLBACK_QUERY_TERMS);
    var queryTerms := set t | t in terms;
    var rows := Take(order, limit);
    out := map[];
    if queryTerms == {} {
      NoQueryTerms(s, m, rows, query);
      return;
    }
    for i := 0 to |rows|
      invariant out == FallbackCandidates(s, m, rows[..i], query)
    {
      FallbackStep(s, m, rows, i, query);
      var score := ScoreContent(s, query, queryTerms, m[rows[i]].content);
      out := WithScore(out, rows[i], score);
    }
    assert rows[..|rows|] == rows;
  }

  lemma NoQueryTerms(s: Scoring, m: Memories, rows: seq<string>, query: string)
    requires QueryTerms(s.lower, query) == {} && forall id | id in rows :: id in m
    ensures FallbackCandidates(s, m, rows, query) == map[]
  {
    assert FallbackCandidates(s, m, rows, query).Keys == {};
  }

  lemma FallbackStep(s: Scoring, m: Memories, rows: seq<string>, i: nat, query: string)
    requires i < |rows| && forall id | id in rows :: id in m
    ensures FallbackCandidates(s, m, rows[..i + 1], query)
         == WithScore(FallbackCandidates(s, m, rows[..i], query), rows[i],
                      FallbackScore(s, query, m[rows[i]].content))
  {
    assert rows[..i + 1][..i] == rows[..i];
  }

  /** Ids that recall scores by text, with their scores. */
  function LexicalCandidates(s: Scoring, db: Db, answer: seq<nat>, order: seq<string>, query: string, limit: nat)
    : map<string, real>
    requires forall id | id in order :: id in db.memories
    requires forall r | r in answer :: r in db.fts
  {
    match FtsQueryOf(s.lower, query)
    case None => map[]
    case Some(q) =>
      if answer == [] then FallbackCandidates(s, db.memories, Take(order, ScanLimit(limit)), query)
      else MatchScores(s, db.fts, q, answer)
  }

  method ReadLexicalCandidates(
    s: Scoring, db: Db, answer: seq<nat>, order: seq<string>, query: string, limit: nat)
    returns (r: Result<map<string, real>>)
    requires forall id | id in order :: id in db.memories
    requires forall r | r in answer :: r in db.fts
    ensures r == if MatchFails(s.lower, query) then Err(Storage)
                 else Ok(LexicalCandidates(s, db, answer, order, query, limit))
  {
    var q := BuildFtsQuery(s.lower, query);
    if q.None? {
      return Ok(map[]);
    }
    if ReadQuery(q.value).None? {
      return Err(Storage);
    }
    var out: map<string, real> := map[];
    for i := 0 to |answer|
      invariant out == MatchScores(s, db.fts, q.value, answer[..i])
    {
      assert answer[..i + 1][..i] == answer[..i];
      var rank := s.fts5.bm25(db.fts, q.value, answer[i]);
      out := out[db.fts[answer[i]].memoryId := LexicalScore(s.arith.round, rank)];
    }
    assert answer[..|answer|] == answer;
    if out == map[] {
      out := ReadLexicalFallbackCandidates(s, db.memories, order, query, ScanLimit(limit));
    }
    r := Ok(out);
  }

  // ----- merging -----

  function ScoreOf(scores: map<string, real>, id: string): real {
    if id in scores then scores[id] else 0.0
  }

  function Hybrid(round: real -> Float, w: Weights, lexical: real, vector: real): Float {
    Add(round, Mul(round, w.lexical, Fin(lexical)), Mul(round, w.vector, Fin(vector)))
  }

  function HitFor(
    s: Scoring, m: Memories, w: Weights, lexical: map<string, real>, vector: map<string, real>, id: string): Hit
    requires id in m
  {
    var l, v := ScoreOf(lexical, id), ScoreOf(vector, id);
    Hit(Record(id, m[id]), l, v, Hybrid(s.arith.round, w, l, v))
  }

  /** The hits of these ids: those that are records of the namespace. */
  function HitsAt(
    s: Scoring, m: Memories, ns: string, w: Weights, lexical: map<string, real>, vector: map<string, real>,
    ids: set<string>): set<Hit>
  {
    set id | id in ids && id in m && m[id].namespace == ns :: HitFor(s, m, w, lexical, vector, id)
  }

  /** Every scored candidate that is a record of the namespace. */
  function HitSet(
    s: Scoring, m: Memories, ns: string, w: Weights, lexical: map<string, real>, vector: map<string, real>): set<Hit>
  {
    HitsAt(s, m, ns, w, lexical, vector, lexical.Keys + vector.Keys)
  }

  // ----- order -----

  /** `a` sorts before `b`: hybrid score descending, then newest, then id. */
  predicate Ahead(a: Hit, b: Hit) {
    if Less(b.hybrid, a.hybrid) then true
    else if Less(a.hybrid, b.hybrid) then false
    else if Before(b.record.row.updatedAt, a.record.row.updatedAt) then true
    else if Before(a.record.row.updatedAt, b.record.row.updatedAt) then false
    else LexLess(a.record.id, b.record.id)
  }

  lemma LessIsStrict(a: Float, b: Float, c: Float)
    ensures !(Less(a, b) && Less(b, a))
    ensures Less(a, b) && Less(b, c) ==> Less(a, c)
    ensures !a.NaN? && !b.NaN? ==> Less(a, b) || Less(b, a) || a == b
  {
  }

  /** Hits the comparator orders strictly: one hit an id, and either no NaN score or no two scores that differ. */
  ghost predicate Comparable(cands: set<Hit>) {
    && (forall g, h | g in cands && h in cands && g.record.id == h.record.id :: g == h)
    && ((forall h | h in cands :: !h.hybrid.NaN?) || Tied(cands))
  }

  /** No score is less than another: NaN and one infinity, say, or NaN alone. */
  ghost predicate Tied(cands: set<Hit>) {
    forall g, h | g in cands && h in cands :: !Less(g.hybrid, h.hybrid)
  }

  /** Hits of comparable candidates are strictly and totally ordered, NaN scores included. */
  lemma AheadIsStrictTotal(cands: set<Hit>, a: Hit, b: Hit, c: Hit)
    requires Comparable(cands) && a in cands && b in cands && c in cands
    ensures !(Ahead(a, b) && Ahead(b, a))
    ensures Ahead(a, b) && Ahead(b, c) ==> Ahead(a, c)
    ensures a != b ==> Ahead(a, b) || Ahead(b, a)
  {
    LessIsStrict(a.hybrid, b.hybrid, c.hybrid);
    LessIsStrict(b.hybrid, c.hybrid, a.hybrid);
    BeforeIsStrictOrder(c.record.row.updatedAt, b.record.row.updatedAt, a.record.row.updatedAt);
    BeforeIsStrictOrder(a.record.row.updatedAt, b.record.row.updatedAt, a.record.row.updatedAt);
    LexTrichotomy(a.record.id, b.record.id);
    if LexLess(a.record.id, b.record.id) && LexLess(b.record.id, c.record.id) {
      LexTransitive(a.record.id, b.record.id, c.record.id);
    }
  }
}
