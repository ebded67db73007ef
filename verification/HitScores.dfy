/** What the three scores of a hit are, and which records become candidates, stated without the merge itself. */
module HitScores {
  import opened Prelude
  import opened Text
  import opened Tokenizer
  import opened FtsQuery
  import opened Floats
  import opened Similarity
  import opened Tables
  import opened Recall
  import opened Ranking
  import opened Store
  import opened RecallTheorems
  import opened Cells
  import opened Maintenance

  // ----- scores of FTS matches -----

  /** Every row of the answer becomes a scored id, and nothing else does. */
  lemma {:induction false} MatchKeys(s: Scoring, fts: map<nat, FtsRow>, q: string, answer: seq<nat>)
    requires forall r | r in answer :: r in fts
    ensures forall id :: id in MatchScores(s, fts, q, answer) <==> exists r :: r in answer && fts[r].memoryId == id
  {
    if answer != [] {
      var front, last := answer[..|answer| - 1], answer[|answer| - 1];
      MatchKeys(s, fts, q, front);
      assert forall r :: r in answer <==> r in front || r == last;
    }
  }

  /** With one FTS row an id, each id scores by the rank of its own row. */
  lemma {:induction false} MatchScoreOfRow(s: Scoring, fts: map<nat, FtsRow>, q: string, answer: seq<nat>, r: nat)
    requires (forall x | x in answer :: x in fts) && r in answer
    requires forall x | x in answer && fts[x].memoryId == fts[r].memoryId :: x == r
    ensures fts[r].memoryId in MatchScores(s, fts, q, answer)
    ensures MatchScores(s, fts, q, answer)[fts[r].memoryId] == LexicalScore(s.arith.round, s.fts5.bm25(fts, q, r))
  {
    var front, last := answer[..|answer| - 1], answer[|answer| - 1];
    assert forall x :: x in answer <==> x in front || x == last;
    if last != r {
      MatchScoreOfRow(s, fts, q, front, r);
    }
  }

  /** Without rounding a match scores 1 / (1 + |rank|). */
  lemma LexicalScoreMeans(round: real -> Float, rank: real)
    requires round == Exactly
    ensures LexicalScore(round, rank) == 1.0 / (1.0 + if rank < 0.0 then -rank else rank)
  {
    ReciprocalPositive(1.0 + Abs(rank));
  }

  /** The same in f32, up to four roundings, for a rank of a magnitude below 2^24. */
  lemma LexicalScoreNear(round: real -> Float, rank: real)
    requires Rounding(round) && Monotone(round) && -16777214.0 <= rank <= 16777214.0
    ensures var e, score := 1.0 / (1.0 + if rank < 0.0 then -rank else rank), LexicalScore(round, rank);
            e - e / 4194304.0 <= score <= e + e / 4194304.0
  {
    var n := 1.0 + Abs(rank);
    var y := RoundedDenominator(round, rank);
    ReciprocalNear(n, y);
    ReciprocalPositive(y);
    ReciprocalRange(n);
    RoundedNear(round, 1.0 / n, 1.0 / y);
  }

  lemma RoundedDenominator(round: real -> Float, rank: real) returns (y: real)
    requires Rounding(round) && Monotone(round) && -16777214.0 <= rank <= 16777214.0
    ensures var n := 1.0 + Abs(rank);
            1.0 <= y && n - 2.1 * n / 16777216.0 <= y <= n + 2.1 * n / 16777216.0
    ensures LexicalScore(round, rank) == Clamp(Rounded(round, 1.0 / y), 0.0, 1.0)
  {
    RoundedMagnitude(round, Abs(rank));
    var x := round(Abs(rank)).r;
    RoundedRange(round, 1.0 + x);
    y := round(1.0 + x).r;
    assert Keeps(round, Whole(1));
  }

  lemma ReciprocalRange(n: real)
    requires 1.0 <= n <= 16777215.0
    ensures 1.0 / 16777216.0 <= 1.0 / n <= 1.0
  {
    assert (1.0 / n) * n == 1.0;
    AtMost(1.0 / 16777216.0, 1.0 / n, n, n / 16777216.0, 1.0);
    AtMost(1.0 / n, 1.0, n, 1.0, n);
  }

  /** A magnitude is rounded to within 2^-24 of it, or within 2^-100 when it is tiny. */
  lemma RoundedMagnitude(round: real -> Float, a: real)
    requires Rounding(round) && Monotone(round) && 0.0 <= a <= 16777214.0
    ensures var x := round(a);
            x.Fin? && 0.0 <= x.r && a - (1.0 + a) / 16777200.0 <= x.r <= a + (1.0 + a) / 16777200.0
  {
    RoundsUp(round, a);
    if a < MIN_NORMAL {
      assert !Less(round(MIN_NORMAL), round(a));
    }
  }

  lemma ReciprocalNear(n: real, y: real)
    requires n >= 1.0 && n - 2.1 * n / 16777216.0 <= y <= n + 2.1 * n / 16777216.0
    ensures var e, s := 1.0 / n, 1.0 / y; e - 2.2 * e / 16777216.0 <= s <= e + 2.2 * e / 16777216.0
  {
    var e, s := 1.0 / n, 1.0 / y;
    assert e * n == 1.0 && s * y == 1.0;
    ShareBetween(e, n, y);
    var low, high := e - 2.2 * e / 16777216.0, e + 2.2 * e / 16777216.0;
    AtMost(low, s, y, e * y - 2.2 * (e * y) / 16777216.0, 1.0);
    AtMost(s, high, y, 1.0, e * y + 2.2 * (e * y) / 16777216.0);
  }

  lemma ShareBetween(e: real, n: real, y: real)
    requires n >= 1.0 && e * n == 1.0 && e >= 0.0
    requires n - 2.1 * n / 16777216.0 <= y <= n + 2.1 * n / 16777216.0
    ensures 1.0 - 2.1 / 16777216.0 <= e * y <= 1.0 + 2.1 / 16777216.0
  {
    ProductNonNegative(e, y - (n - 2.1 * n / 16777216.0));
    ProductNonNegative(e, (n + 2.1 * n / 16777216.0) - y);
    assert e * (n - 2.1 * n / 16777216.0) == 1.0 - 2.1 / 16777216.0;
    assert e * (n + 2.1 * n / 16777216.0) == 1.0 + 2.1 / 16777216.0;
  }

  lemma RoundedNear(round: real -> Float, e: real, s: real)
    requires Rounding(round) && 0.0 <= s <= 1.0 && 1.0 / 16777216.0 <= e <= 1.0
    requires e - 2.2 * e / 16777216.0 <= s <= e + 2.2 * e / 16777216.0
    ensures var r := Clamp(Rounded(round, s), 0.0, 1.0); e - e / 4194304.0 <= r <= e + e / 4194304.0
  {
    assert Keeps(round, Whole(1));
    assert round(s).Fin?;
  }

  // ----- scores of vectors -----

  /** Without rounding two finite vectors score (1 + cosine) / 2, which no clamp changes. */
  lemma VectorScoreMeans(sqrt: real -> real, q: seq<F32>, v: seq<F32>)
    requires SquareRoot(sqrt) && AllFinite(q) && AllFinite(v)
    ensures VectorScore(Arithmetic(Exactly, sqrt), q, v)
         == Some((1.0 + Cosine(sqrt, Values(q), Values(v))) / 2.0)
  {
    assert FloatsOf(q) == Fins(Values(q)) && FloatsOf(v) == Fins(Values(v));
    CosineOverReals(sqrt, Values(q), Values(v));
    ScoreMeans(sqrt, Values(q), Values(v));
  }

  /** Recall scores a row exactly when its cell holds a finite vector of the stored dimension, that is the query's, and
      the cosine is a number; it then scores that vector. */
  lemma RowScoreMeans(f: Arithmetic, p: Parsers, row: VectorRow, q: seq<F32>, score: real)
    ensures RowScore(f, p, row, q) == Some(score) <==>
              exists v :: Holds(p, row.cell, v) && |q| == row.dimension == |v| && AllFinite(v) &&
                          VectorScore(f, q, v) == Some(score)
  {
    if RowScore(f, p, row, q) == Some(score) {
      RecallReadsExactly(p, row, |q|, RecallVector(p, row, |q|).value);
    }
    if v :| && Holds(p, row.cell, v) && |q| == row.dimension == |v| && AllFinite(v)
            && VectorScore(f, q, v) == Some(score)
    {
      RecallReadsExactly(p, row, |q|, v);
    }
  }

  // ----- scores of the fallback -----

  /** A row scores the share of the query's first 32 terms that are among the first 128 of its content: without rounding
      exactly, and in f32 up to one rounding. */
  lemma FallbackScoreMeans(s: Scoring, query: string, content: string, shared: set<string>)
    requires forall t :: t in shared <==> t in Terms(s.lower, query, 32) && t in Terms(s.lower, content, 128)
    ensures FallbackScore(s, query, content).Some? <==> shared != {}
    ensures shared != {} && s.arith.round == Exactly ==>
              FallbackScore(s, query, content) == Some(|shared| as real / |Terms(s.lower, query, 32)| as real)
    ensures shared != {} && Rounding(s.arith.round) ==>
              var share := |shared| as real / |Terms(s.lower, query, 32)| as real;
              share - share / 16777216.0 <= FallbackScore(s, query, content).value <= share + share / 16777216.0
  {
    var q := Terms(s.lower, query, 32);
    assert QueryTerms(s.lower, query) * ContentTerms(s.lower, content) == shared;
    if shared != {} {
      TermsPrefixMonotone(s.lower, query, 0, 32);
      DistinctCount(q);
      SubsetCount(shared, QueryTerms(s.lower, query));
      FewQueryTerms(s.lower, query);
      RatioRange(Whole(|shared|), Whole(|q|));
      ShareRounded(s.arith.round, |shared| as real / |q| as real);
    }
  }

  lemma ShareRounded(round: real -> Float, share: real)
    requires 1.0 / 32.0 <= share <= 1.0
    ensures round == Exactly ==> Clamp(Rounded(round, share), 0.0, 1.0) == share
    ensures Rounding(round) ==>
              share - share / 16777216.0 <= Clamp(Rounded(round, share), 0.0, 1.0) <= share + share / 16777216.0
  {
    if Rounding(round) {
      assert round(share).Fin?;
    }
  }

  // ----- the scores of a hit -----

  /** `l` is the text score of a record: that of its FTS row when FTS5 answers with rows; otherwise that of the fallback
      when the record is in the scan window and shares a term with the query; and 0 without any of these. */
  ghost predicate TextScored(s: Scoring, db: Db, req: RecallRequest, a: Answers, id: string, l: real)
    requires Legal(s, db, req, a)
  {
    match FtsQueryOf(s.lower, req.query)
    case None => l == 0.0
    case Some(q) =>
      if a.matches == [] then
        l == if id in Take(a.memoryScan, ScanLimit(req.limit)) && id in db.memories &&
                FallbackScore(s, req.query, db.memories[id].content).Some?
             then FallbackScore(s, req.query, db.memories[id].content).value else 0.0
      else
        && (forall r | r in a.matches && db.fts[r].memoryId == id ::
              l == LexicalScore(s.arith.round, s.fts5.bm25(db.fts, q, r)))
        && ((forall r | r in a.matches :: db.fts[r].memoryId != id) ==> l == 0.0)
  }

  /** `v` is the vector score of a record: that of its row when the row is in the scan window and recall can score it,
      and 0 otherwise. */
  ghost predicate VectorScored(
    sv: Services, s: Scoring, db: Db, req: RecallRequest, a: Answers, id: string, v: real)
  {
    v == if id in Take(a.vectorScan, ScanLimit(req.limit)) && id in db.vectors &&
            RowScore(s.arith, sv.parsers, db.vectors[id], sv.embed(req.query)).Some?
         then RowScore(s.arith, sv.parsers, db.vectors[id], sv.embed(req.query)).value else 0.0
  }

  ghost function Lexical(s: Scoring, db: Db, req: RecallRequest, a: Answers): map<string, real>
    requires Legal(s, db, req, a)
  {
    LexicalCandidates(s, db, a.matches, a.memoryScan, req.query, req.limit)
  }

  lemma LexicalIsText(s: Scoring, db: Db, req: RecallRequest, a: Answers, id: string)
    requires Legal(s, db, req, a) && FtsExact(db.memories, db.fts)
    ensures TextScored(s, db, req, a, id, ScoreOf(Lexical(s, db, req, a), id))
  {
    var query := FtsQueryOf(s.lower, req.query);
    if query.Some? && a.matches != [] {
      MatchKeys(s, db.fts, query.value, a.matches);
      forall r | r in a.matches && db.fts[r].memoryId == id
        ensures id in Lexical(s, db, req, a)
        ensures Lexical(s, db, req, a)[id] == LexicalScore(s.arith.round, s.fts5.bm25(db.fts, query.value, r))
      {
        MatchScoreOfRow(s, db.fts, query.value, a.matches, r);
      }
    } else if query.Some? {
      TakeMembers(a.memoryScan, ScanLimit(req.limit));
    }
  }

  lemma WindowIsVector(sv: Services, s: Scoring, db: Db, req: RecallRequest, a: Answers, id: string)
    requires Legal(s, db, req, a)
    ensures VectorScored(sv, s, db, req, a, id, ScoreOf(Window(sv, s, db.vectors, req, a), id))
  {
    TakeMembers(a.vectorScan, ScanLimit(req.limit));
  }

  /** A hit is a record of the namespace with the scores its two readers gave it, or 0. */
  ghost predicate Explained(sv: Services, s: Scoring, db: Db, req: RecallRequest, a: Answers, h: Hit)
    requires Legal(s, db, req, a)
  {
    && h.record.id in db.memories && h.record.row == db.memories[h.record.id] && h.record.row.namespace == req.namespace
    && TextScored(s, db, req, a, h.record.id, h.lexical)
    && VectorScored(sv, s, db, req, a, h.record.id, h.vector)
  }

  lemma CandidateExplained(sv: Services, s: Scoring, db: Db, req: RecallRequest, a: Answers, h: Hit)
    requires Legal(s, db, req, a) && FtsExact(db.memories, db.fts) && h in Candidates(sv, s, db, req, a)
    ensures Explained(sv, s, db, req, a, h)
  {
    CandidatesWith(sv, s, db, db.vectors, req, a);
    LexicalIsText(s, db, req, a, h.record.id);
    WindowIsVector(sv, s, db, req, a, h.record.id);
  }

  /** Its hybrid score is the weighted sum of the two, with each operation rounded. */
  lemma CandidateSum(sv: Services, s: Scoring, db: Db, req: RecallRequest, a: Answers, h: Hit)
    requires Legal(s, db, req, a) && h in Candidates(sv, s, db, req, a)
    ensures var round, w := s.arith.round, req.weights;
            h.hybrid == Add(round, Mul(round, w.lexical, Fin(h.lexical)), Mul(round, w.vector, Fin(h.vector)))
  {
    CandidatesWith(sv, s, db, db.vectors, req, a);
  }

  /** Every hit that recall returns is explained by its own rows. */
  lemma RecallExplained(sv: Services, s: Scoring, db: Db, req: RecallRequest, a: Answers, r: Result<seq<Hit>>, h: Hit)
    requires Legal(s, db, req, a) && FtsExact(db.memories, db.fts)
    requires RecallResult(sv, s, db, req, a, r) && r.Ok? && h in r.value
    ensures Explained(sv, s, db, req, a, h)
  {
    CandidateExplained(sv, s, db, req, a, h);
  }

  /** A hit of the namespace under each id that one of the readers scores. */
  lemma ScoredIsCandidate(sv: Services, s: Scoring, db: Db, req: RecallRequest, a: Answers, id: string)
    returns (h: Hit)
    requires Legal(s, db, req, a) && id in db.memories && db.memories[id].namespace == req.namespace
    requires id in Lexical(s, db, req, a) || id in Window(sv, s, db.vectors, req, a)
    ensures h in Candidates(sv, s, db, req, a) && h.record == Record(id, db.memories[id])
  {
    CandidatesWith(sv, s, db, db.vectors, req, a);
    h := HitFor(s, db.memories, req.weights, Lexical(s, db, req, a), Window(sv, s, db.vectors, req, a), id);
  }

  /** Every row of the FTS answer becomes a candidate: its record, with the score of its own rank. */
  lemma MatchIsCandidate(sv: Services, s: Scoring, db: Db, req: RecallRequest, a: Answers, r: nat) returns (h: Hit)
    requires Legal(s, db, req, a) && FtsExact(db.memories, db.fts) && r in a.matches
    requires FtsQueryOf(s.lower, req.query).Some? && !MatchFails(s.lower, req.query)
    ensures h in Candidates(sv, s, db, req, a) && h.record.id == db.fts[r].memoryId
    ensures h.lexical == LexicalScore(s.arith.round, s.fts5.bm25(db.fts, FtsQueryOf(s.lower, req.query).value, r))
  {
    var q := FtsQueryOf(s.lower, req.query).value;
    MatchKeys(s, db.fts, q, a.matches);
    h := ScoredIsCandidate(sv, s, db, req, a, db.fts[r].memoryId);
    CandidateExplained(sv, s, db, req, a, h);
  }

  /** Without rounding that score is 1 / (1 + |rank|). */
  lemma ExactMatch(
    sv: Services, s: Scoring, db: Db, req: RecallRequest, a: Answers, r: nat, rank: real) returns (h: Hit)
    requires s.arith.round == Exactly && Legal(s, db, req, a) && FtsExact(db.memories, db.fts) && r in a.matches
    requires FtsQueryOf(s.lower, req.query).Some? && !MatchFails(s.lower, req.query)
    requires rank == s.fts5.bm25(db.fts, FtsQueryOf(s.lower, req.query).value, r)
    ensures h in Candidates(sv, s, db, req, a) && h.record.id == db.fts[r].memoryId
    ensures h.lexical == 1.0 / (1.0 + if rank < 0.0 then -rank else rank)
  {
    h := MatchIsCandidate(sv, s, db, req, a, r);
    LexicalScoreMeans(s.arith.round, rank);
  }

  /** So does every scanned row that recall can score, with its vector score; and, when FTS5 answers with no row, every
      scanned record that shares a term with the query, with its overlap. */
  lemma ScannedIsCandidate(sv: Services, s: Scoring, db: Db, req: RecallRequest, a: Answers, id: string)
    returns (h: Hit)
    requires Legal(s, db, req, a) && FtsExact(db.memories, db.fts)
    requires || (id in Take(a.vectorScan, ScanLimit(req.limit)) && id in db.vectors &&
                 RowScore(s.arith, sv.parsers, db.vectors[id], sv.embed(req.query)).Some?)
             || (id in Take(a.memoryScan, ScanLimit(req.limit)) && id in db.memories && a.matches == [] &&
                 FtsQueryOf(s.lower, req.query).Some? &&
                 FallbackScore(s, req.query, db.memories[id].content).Some?)
    ensures h in Candidates(sv, s, db, req, a) && h.record.id == id && Explained(sv, s, db, req, a, h)
  {
    TakeMembers(a.vectorScan, ScanLimit(req.limit));
    TakeMembers(a.memoryScan, ScanLimit(req.limit));
    h := ScoredIsCandidate(sv, s, db, req, a, id);
    CandidateExplained(sv, s, db, req, a, h);
  }

  /** And nothing else becomes one. */
  lemma CandidateIsScored(sv: Services, s: Scoring, db: Db, req: RecallRequest, a: Answers, h: Hit)
    requires Legal(s, db, req, a) && h in Candidates(sv, s, db, req, a)
    ensures var id := h.record.id;
            || (id in Take(a.vectorScan, ScanLimit(req.limit)) && id in db.vectors &&
                RowScore(s.arith, sv.parsers, db.vectors[id], sv.embed(req.query)).Some?)
            || (exists r :: r in a.matches && db.fts[r].memoryId == id)
            || (id in Take(a.memoryScan, ScanLimit(req.limit)) && id in db.memories && a.matches == [] &&
                FallbackScore(s, req.query, db.memories[id].content).Some?)
  {
    CandidatesWith(sv, s, db, db.vectors, req, a);
    TakeMembers(a.vectorScan, ScanLimit(req.limit));
    TakeMembers(a.memoryScan, ScanLimit(req.limit));
    var query := FtsQueryOf(s.lower, req.query);
    if query.Some? && a.matches != [] {
      MatchKeys(s, db.fts, query.value, a.matches);
    }
  }

  /** The error of a recall: validation first, then the fault of the embedder or of a read, then an unreadable MATCH
      string; without any of these there are hits, never more than asked for. */
  lemma RecallErrors(
    sv: Services, s: Scoring, db: Db, req: RecallRequest, a: Answers, fault: Option<Error>, r: Result<seq<Hit>>)
    requires Legal(s, db, req, a) && RecallOutcome(sv, s, db, req, a, fault, r)
    ensures if Trim(req.namespace) == "" || Trim(req.query) == "" || req.limit == 0 then r == Err(Validation)
            else if fault.Some? then r == Err(fault.value)
            else if FtsQueryOf(s.lower, req.query).Some? && ReadQuery(FtsQueryOf(s.lower, req.query).value).None?
            then r == Err(Storage)
            else r.Ok? && |r.value| <= req.limit
  {
  }

  // ----- the weighted sum -----

  ghost function WeightedSum(w: Weights, h: Hit): real
    requires w.lexical.Fin? && w.vector.Fin?
  {
    w.lexical.r * h.lexical + w.vector.r * h.vector
  }

  /** Without rounding and with finite weights the hybrid score is the weighted sum of the two scores. */
  lemma HybridMeans(round: real -> Float, w: Weights, h: Hit)
    requires round == Exactly && w.lexical.Fin? && w.vector.Fin?
    ensures Add(round, Mul(round, w.lexical, Fin(h.lexical)), Mul(round, w.vector, Fin(h.vector)))
         == Fin(WeightedSum(w, h))
  {
    assert Mul(round, w.lexical, Fin(h.lexical)) == Fin(Product(w.lexical.r, h.lexical));
    assert Mul(round, w.vector, Fin(h.vector)) == Fin(Product(w.vector.r, h.vector));
  }

  lemma ExactCandidate(sv: Services, s: Scoring, db: Db, req: RecallRequest, a: Answers, h: Hit)
    requires s.arith.round == Exactly && req.weights.lexical.Fin? && req.weights.vector.Fin?
    requires Legal(s, db, req, a) && h in Candidates(sv, s, db, req, a)
    ensures h.hybrid == Fin(WeightedSum(req.weights, h))
  {
    CandidateSum(sv, s, db, req, a, h);
    HybridMeans(s.arith.round, req.weights, h);
  }

  lemma ExactCandidates(sv: Services, s: Scoring, db: Db, req: RecallRequest, a: Answers)
    requires s.arith.round == Exactly && req.weights.lexical.Fin? && req.weights.vector.Fin? && Legal(s, db, req, a)
    ensures forall h | h in Candidates(sv, s, db, req, a) :: h.hybrid == Fin(WeightedSum(req.weights, h))
    ensures Comparable(Candidates(sv, s, db, req, a))
  {
    forall h | h in Candidates(sv, s, db, req, a)
      ensures h.hybrid == Fin(WeightedSum(req.weights, h))
    {
      ExactCandidate(sv, s, db, req, a, h);
    }
    OneHitAnId(sv, s, db, req, a);
  }

  /** What recall returns, without rounding and with finite weights: hits by falling weighted sum of their scores, and
      no dropped candidate has a higher one. */
  lemma ExactRecall(
    sv: Services, s: Scoring, db: Db, req: RecallRequest, a: Answers, r: Result<seq<Hit>>)
    requires s.arith.round == Exactly && req.weights.lexical.Fin? && req.weights.vector.Fin?
    requires Legal(s, db, req, a) && RecallResult(sv, s, db, req, a, r) && r.Ok?
    ensures forall h | h in r.value :: h.hybrid == Fin(WeightedSum(req.weights, h))
    ensures forall i, j | 0 <= i < j < |r.value| ::
              WeightedSum(req.weights, r.value[i]) >= WeightedSum(req.weights, r.value[j])
    ensures forall h, c | h in r.value && c in Candidates(sv, s, db, req, a) && c !in r.value ::
              WeightedSum(req.weights, h) >= WeightedSum(req.weights, c)
  {
    var cands := Candidates(sv, s, db, req, a);
    ExactCandidates(sv, s, db, req, a);
    SumsFall(cands, req.weights, req.limit, r.value);
  }

  lemma SumsFall(cands: set<Hit>, w: Weights, limit: nat, hits: seq<Hit>)
    requires w.lexical.Fin? && w.vector.Fin? && IsTop(cands, limit, hits)
    requires forall h | h in cands :: h.hybrid == Fin(WeightedSum(w, h))
    ensures forall i, j | 0 <= i < j < |hits| :: WeightedSum(w, hits[i]) >= WeightedSum(w, hits[j])
    ensures forall h, c | h in hits && c in cands && c !in hits :: WeightedSum(w, h) >= WeightedSum(w, c)
  {
    TopMeans(cands, limit, hits);
    forall h, c | h in cands && c in cands && NotBetter(c, h)
      ensures WeightedSum(w, h) >= WeightedSum(w, c)
    {
      assert h.hybrid == Fin(WeightedSum(w, h)) && c.hybrid == Fin(WeightedSum(w, c));
    }
  }

  lemma OneHitAnId(sv: Services, s: Scoring, db: Db, req: RecallRequest, a: Answers)
    requires Legal(s, db, req, a)
    ensures forall g, h | g in Candidates(sv, s, db, req, a) && h in Candidates(sv, s, db, req, a) ::
              g.record.id == h.record.id ==> g == h
  {
    CandidatesWith(sv, s, db, db.vectors, req, a);
  }

  /** In f32 a weight of zero leaves the other weighted score. */
  lemma ZeroWeight(round: real -> Float, w: Weights, l: real, v: real)
    requires Rounding(round)
    ensures w.vector == Fin(0.0) ==> Hybrid(round, w, l, v) == Mul(round, w.lexical, Fin(l))
    ensures w.lexical == Fin(0.0) ==> Hybrid(round, w, l, v) == Mul(round, w.vector, Fin(v))
  {
    RoundsUp(round, 0.0);
    assert Product(0.0, l) == 0.0 && Product(0.0, v) == 0.0;
  }

  /** With weights the engine accepts, a hit with both scores at least as high never has a lower hybrid score in f32. */
  lemma HybridMonotone(round: real -> Float, w: Weights, l: real, v: real, l': real, v': real)
    requires Rounding(round) && Monotone(round) && ValidWeights(round, w)
    requires 0.0 <= l <= l' <= 1.0 && 0.0 <= v <= v' <= 1.0
    ensures !Less(Hybrid(round, w, l', v'), Hybrid(round, w, l, v))
  {
    WeightedMonotone(round, w.lexical, l, l');
    WeightedMonotone(round, w.vector, v, v');
    var x, y := Mul(round, w.lexical, Fin(l)).r, Mul(round, w.vector, Fin(v)).r;
    var x', y' := Mul(round, w.lexical, Fin(l')).r, Mul(round, w.vector, Fin(v')).r;
    assert !Less(round(x' + y'), round(x + y));
  }

  lemma WeightedMonotone(round: real -> Float, weight: Weight, x: real, y: real)
    requires Rounding(round) && Monotone(round) && weight.Fin? && weight.r >= 0.0 && 0.0 <= x <= y <= 1.0
    ensures Mul(round, weight, Fin(x)).Fin? && Mul(round, weight, Fin(y)).Fin?
    ensures Mul(round, weight, Fin(x)).r <= Mul(round, weight, Fin(y)).r
  {
    WeightedScore(round, weight, x);
    WeightedScore(round, weight, y);
    ProductOrder(weight.r, x, y);
    assert !Less(round(Product(weight.r, y)), round(Product(weight.r, x)));
  }

  lemma ProductOrder(w: real, x: real, y: real)
    requires w >= 0.0 && x <= y
    ensures Product(w, x) <= Product(w, y)
  {
    ProductNonNegative(w, y - x);
    assert w * (y - x) == w * y - w * x;
  }

  /**
   * What recall returns in f32. With vector weight 0 no hit stands before one whose weighted lexical score is larger,
   * and the mirror holds for lexical weight 0. With weights the engine accepts, a hit never stands before one that is
   * at least as good in both scores, unless the two tie.
   */
  lemma RecallScores(
    sv: Services, s: Scoring, db: Db, req: RecallRequest, a: Answers, r: Result<seq<Hit>>, i: nat, j: nat)
    requires Ieee(s.arith) && Legal(s, db, req, a)
    requires RecallResult(sv, s, db, req, a, r) && r.Ok? && i < j < |r.value|
    ensures OrderedByScores(s.arith.round, req.weights, r.value[i], r.value[j])
  {
    var g, h := r.value[i], r.value[j];
    RecallIsRanked(sv, s, db, req, a, r);
    assert NotBetter(h, g);
    CandidateSum(sv, s, db, req, a, g);
    CandidateSum(sv, s, db, req, a, h);
    UnitHit(sv, s, db, req, a, g);
    UnitHit(sv, s, db, req, a, h);
    RankedByScores(s.arith, req.weights, g, h);
  }

  /** `g` stands before `h`. */
  ghost predicate OrderedByScores(round: real -> Float, w: Weights, g: Hit, h: Hit) {
    && (w.vector == Fin(0.0) ==>
          !Less(Mul(round, w.lexical, Fin(g.lexical)), Mul(round, w.lexical, Fin(h.lexical))))
    && (w.lexical == Fin(0.0) ==>
          !Less(Mul(round, w.vector, Fin(g.vector)), Mul(round, w.vector, Fin(h.vector))))
    && (ValidWeights(round, w) && g.lexical <= h.lexical && g.vector <= h.vector ==> g.hybrid == h.hybrid)
  }

  lemma RankedByScores(f: Arithmetic, w: Weights, g: Hit, h: Hit)
    requires Ieee(f) && !Less(g.hybrid, h.hybrid)
    requires g.hybrid == Add(f.round, Mul(f.round, w.lexical, Fin(g.lexical)), Mul(f.round, w.vector, Fin(g.vector)))
    requires h.hybrid == Add(f.round, Mul(f.round, w.lexical, Fin(h.lexical)), Mul(f.round, w.vector, Fin(h.vector)))
    requires 0.0 <= g.lexical <= 1.0 && 0.0 <= g.vector <= 1.0 && 0.0 <= h.lexical <= 1.0 && 0.0 <= h.vector <= 1.0
    ensures OrderedByScores(f.round, w, g, h)
  {
    ZeroWeight(f.round, w, g.lexical, g.vector);
    ZeroWeight(f.round, w, h.lexical, h.vector);
    if ValidWeights(f.round, w) && g.lexical <= h.lexical && g.vector <= h.vector {
      HybridMonotone(f.round, w, g.lexical, g.vector, h.lexical, h.vector);
      HybridNaNIff(f.round, w, g.lexical, g.vector);
      HybridNaNIff(f.round, w, h.lexical, h.vector);
      LessIsStrict(g.hybrid, h.hybrid, g.hybrid);
    }
  }

  lemma UnitHit(sv: Services, s: Scoring, db: Db, req: RecallRequest, a: Answers, h: Hit)
    requires Legal(s, db, req, a) && h in Candidates(sv, s, db, req, a)
    ensures 0.0 <= h.lexical <= 1.0 && 0.0 <= h.vector <= 1.0
  {
    CandidatesWith(sv, s, db, db.vectors, req, a);
    TakeMembers(a.vectorScan, ScanLimit(req.limit));
    LexicalCandidatesUnit(s, db, a.matches, a.memoryScan, req.query, req.limit);
    VectorCandidatesUnit(
      s.arith, sv.parsers, db.vectors, Take(a.vectorScan, ScanLimit(req.limit)), sv.embed(req.query));
  }
}
