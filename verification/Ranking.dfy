/** Sorting and truncating hits, and what recall's answer is. */
module Ranking {
  import opened Prelude
  import opened Floats
  import opened Similarity
  import opened Cells
  import opened Timestamps
  import opened Tables
  import opened Scans
  import opened Recall

  // ----- the sort -----

  /** `sort_by` with recall's comparator. */
  function SortHits(hits: seq<Hit>): seq<Hit> {
    if hits == [] then [] else Insert(hits[|hits| - 1], SortHits(hits[..|hits| - 1]))
  }

  function Insert(h: Hit, sorted: seq<Hit>): seq<Hit> {
    if sorted == [] then [h]
    else if Ahead(h, sorted[0]) then [h] + sorted
    else [sorted[0]] + Insert(h, sorted[1..])
  }

  ghost predicate Ranked(s: seq<Hit>) { forall i, j | 0 <= i < j < |s| :: Ahead(s[i], s[j]) }

  function HitsOf(s: seq<Hit>): set<Hit> { set h | h in s }

  lemma {:induction false} InsertKeeps(h: Hit, s: seq<Hit>)
    ensures multiset(Insert(h, s)) == multiset(s) + multiset{h}
  {
    if s != [] && !Ahead(h, s[0]) {
      InsertKeeps(h, s[1..]);
      assert s == [s[0]] + s[1..];
    }
  }

  /** Sorting permutes, whatever the scores are. */
  lemma {:induction false} SortPermutes(hits: seq<Hit>)
    ensures multiset(SortHits(hits)) == multiset(hits)
  {
    if hits != [] {
      SortPermutes(hits[..|hits| - 1]);
      InsertKeeps(hits[|hits| - 1], SortHits(hits[..|hits| - 1]));
      assert hits == hits[..|hits| - 1] + [hits[|hits| - 1]];
    }
  }

  lemma SameMembers(a: seq<Hit>, b: seq<Hit>)
    requires multiset(a) == multiset(b)
    ensures |a| == |b| && forall h :: h in a <==> h in b
  {
    assert |multiset(a)| == |a| && |multiset(b)| == |b|;
    assert forall h :: h in a <==> h in multiset(a);
    assert forall h :: h in b <==> h in multiset(b);
  }

  lemma {:induction false} InsertRanks(cands: set<Hit>, h: Hit, s: seq<Hit>)
    requires Comparable(cands) && h in cands && h !in s && forall g | g in s :: g in cands
    requires Ranked(s)
    ensures Ranked(Insert(h, s))
  {
    if s != [] {
      var first, rest := s[0], s[1..];
      if Ahead(h, first) {
        forall k | 0 <= k < |s|
          ensures Ahead(h, s[k])
        {
          AheadIsStrictTotal(cands, h, first, s[k]);
        }
      } else {
        AheadIsStrictTotal(cands, h, first, first);
        InsertRanks(cands, h, rest);
        InsertKeeps(h, rest);
        SameMembers(Insert(h, rest), rest + [h]);
        forall g | g in Insert(h, rest)
          ensures Ahead(first, g)
        {
          assert g in rest + [h];
        }
      }
    }
  }

  lemma {:induction false} SortRanks(cands: set<Hit>, hits: seq<Hit>)
    requires NoDuplicates(hits) && Comparable(cands) && forall h | h in hits :: h in cands
    ensures Ranked(SortHits(hits))
  {
    if hits != [] {
      var front, last := hits[..|hits| - 1], hits[|hits| - 1];
      assert hits == front + [last];
      SortRanks(cands, front);
      SortPermutes(front);
      SameMembers(SortHits(front), front);
      assert last !in front;
      InsertRanks(cands, last, SortHits(front));
    }
  }

  // ----- the answer -----

  /** The best `limit` candidates, best first. */
  ghost predicate IsTop(cands: set<Hit>, limit: nat, out: seq<Hit>) {
    && Ranked(out)
    && |out| == Min(limit, |cands|)
    && (forall h | h in out :: h in cands)
    && (forall c, h | c in cands && c !in out && h in out :: Ahead(h, c))
  }

  /** `c` does not deserve a place before `h`: no higher score, and among equal scores no later time or smaller id. */
  predicate NotBetter(c: Hit, h: Hit) {
    var tied := !Less(c.hybrid, h.hybrid);
    && !Less(h.hybrid, c.hybrid)
    && (tied ==> !Before(h.record.row.updatedAt, c.record.row.updatedAt))
    && (tied && c.record.row.updatedAt == h.record.row.updatedAt ==> LexLess(h.record.id, c.record.id))
  }

  /**
   * What the top means: scores never increase along it, equal scores come newest first and then by id, and no
   * dropped candidate has a higher score than a returned one, nor the same score and a later time.
   */
  ghost predicate BestFirst(cands: set<Hit>, out: seq<Hit>) {
    && (forall i, j | 0 <= i < j < |out| :: NotBetter(out[j], out[i]))
    && (forall c, h | c in cands && c !in out && h in out :: NotBetter(c, h))
  }

  lemma TopMeans(cands: set<Hit>, limit: nat, out: seq<Hit>)
    requires IsTop(cands, limit, out)
    ensures BestFirst(cands, out)
  {
  }

  lemma RankedDistinct(cands: set<Hit>, s: seq<Hit>)
    requires Ranked(s) && Comparable(cands) && forall h | h in s :: h in cands
    ensures NoDuplicates(s)
  {
    forall i, j | 0 <= i < j < |s|
      ensures s[i] != s[j]
    {
      AheadIsStrictTotal(cands, s[i], s[j], s[i]);
    }
  }

  /** Sorting and truncating gives the top of the candidates. */
  lemma TopOfSorted(hits: seq<Hit>, limit: nat)
    requires NoDuplicates(hits) && Comparable(HitsOf(hits))
    ensures IsTop(HitsOf(hits), limit, Take(SortHits(hits), limit))
  {
    var sorted := SortHits(hits);
    var out := Take(sorted, limit);
    SortRanks(HitsOf(hits), hits);
    SortPermutes(hits);
    SameMembers(sorted, hits);
    DistinctCount(hits);
    forall c, h | c in HitsOf(hits) && c !in out && h in out
      ensures Ahead(h, c)
    {
      DroppedIsBehind(sorted, limit, c, h);
    }
    TakeMembers(sorted, limit);
  }

  lemma DroppedIsBehind(sorted: seq<Hit>, limit: nat, c: Hit, h: Hit)
    requires Ranked(sorted) && c in sorted && c !in Take(sorted, limit) && h in Take(sorted, limit)
    ensures Ahead(h, c)
  {
    var out := Take(sorted, limit);
    var i :| 0 <= i < |out| && out[i] == h;
    var j :| 0 <= j < |sorted| && sorted[j] == c;
    assert forall k | 0 <= k < |out| :: sorted[k] in out;
  }

  /** There is only one top: recall's answer does not depend on the order in which hash maps yield candidates. */
  lemma {:induction false} TopUnique(cands: set<Hit>, limit: nat, a: seq<Hit>, b: seq<Hit>)
    requires Comparable(cands) && IsTop(cands, limit, a) && IsTop(cands, limit, b)
    ensures a == b
  {
    RankedDistinct(cands, a);
    RankedDistinct(cands, b);
    DistinctCount(a);
    DistinctCount(b);
    SameTopMembers(cands, limit, a, b);
    RankedUnique(cands, a, b);
  }

  lemma SameTopMembers(cands: set<Hit>, limit: nat, a: seq<Hit>, b: seq<Hit>)
    requires Comparable(cands) && IsTop(cands, limit, a) && IsTop(cands, limit, b)
    requires |HitsOf(a)| == |a| && |HitsOf(b)| == |b|
    ensures HitsOf(a) == HitsOf(b)
  {
    if x :| x in HitsOf(a) && x !in HitsOf(b) {
      if HitsOf(b) <= HitsOf(a) {
        SubsetCount(HitsOf(b), HitsOf(a));
      } else {
        var y :| y in HitsOf(b) && y !in HitsOf(a);
        AheadIsStrictTotal(cands, x, y, x);
      }
      assert false;
    }
    SubsetCount(HitsOf(a), HitsOf(b));
  }

  lemma TailOfRanked(a: seq<Hit>)
    requires a != [] && Ranked(a) && NoDuplicates(a)
    ensures Ranked(a[1..]) && NoDuplicates(a[1..]) && HitsOf(a[1..]) == HitsOf(a) - {a[0]}
    ensures forall h | h in a && h != a[0] :: Ahead(a[0], h)
  {
    assert a == [a[0]] + a[1..];
    assert a[0] !in a[1..];
  }

  lemma {:induction false} RankedUnique(cands: set<Hit>, a: seq<Hit>, b: seq<Hit>)
    requires Ranked(a) && Ranked(b) && NoDuplicates(a) && NoDuplicates(b)
    requires |a| == |b| && HitsOf(a) == HitsOf(b) && Comparable(cands) && HitsOf(a) <= cands
    ensures a == b
  {
    if a != [] {
      TailOfRanked(a);
      TailOfRanked(b);
      assert a[0] in HitsOf(b) && b[0] in HitsOf(a);
      AheadIsStrictTotal(cands, a[0], b[0], a[0]);
      RankedUnique(cands, a[1..], b[1..]);
      assert a == [a[0]] + a[1..] && b == [b[0]] + b[1..];
    }
  }

  /** The candidate loop of `recall`: the ids come in any order. */
  method MergeHits(
    s: Scoring, m: Memories, ns: string, w: Weights, lexical: map<string, real>, vector: map<string, real>,
    candidateIds: set<string>)
    returns (hits: seq<Hit>)
    ensures NoDuplicates(hits)
    ensures HitsOf(hits) == HitsAt(s, m, ns, w, lexical, vector, candidateIds)
  {
    var todo := candidateIds;
    ghost var done: set<string> := {};
    hits := [];
    while todo != {}
      invariant done !! todo && done + todo == candidateIds
      invariant NoDuplicates(hits)
      invariant HitsOf(hits) == HitsAt(s, m, ns, w, lexical, vector, done)
      decreases |todo|
    {
      var id :| id in todo;
      HitsAtAdd(s, m, ns, w, lexical, vector, done, id);
      StillTodo(done, todo, candidateIds, id);
      todo, done := todo - {id}, done + {id};
      if id in m && m[id].namespace == ns {
        var hit := HitFor(s, m, w, lexical, vector, id);
        HitsOfAppend(hits, hit);
        hits := hits + [hit];
      }
    }
    assert done == candidateIds;
  }

  lemma HitsOfAppend(hits: seq<Hit>, hit: Hit)
    requires NoDuplicates(hits) && hit !in HitsOf(hits)
    ensures HitsOf(hits + [hit]) == HitsOf(hits) + {hit}
    ensures NoDuplicates(hits + [hit])
  {
    assert hit !in hits;
  }

  lemma StillTodo(done: set<string>, todo: set<string>, all: set<string>, id: string)
    requires done !! todo && done + todo == all && id in todo
    ensures (done + {id}) !! (todo - {id}) && (done + {id}) + (todo - {id}) == all && |todo - {id}| < |todo|
  {
  }

  lemma HitsAtAdd(
    s: Scoring, m: Memories, ns: string, w: Weights, lexical: map<string, real>, vector: map<string, real>,
    ids: set<string>, id: string)
    requires id !in ids
    ensures HitsAt(s, m, ns, w, lexical, vector, ids + {id}) == HitsAt(s, m, ns, w, lexical, vector, ids) +
              if id in m && m[id].namespace == ns then {HitFor(s, m, w, lexical, vector, id)} else {}
    ensures id in m ==> HitFor(s, m, w, lexical, vector, id) !in HitsAt(s, m, ns, w, lexical, vector, ids)
  {
  }

  /** One hit an id. */
  lemma {:induction false} HitsAtSize(
    s: Scoring, m: Memories, ns: string, w: Weights, lexical: map<string, real>, vector: map<string, real>,
    ids: set<string>)
    requires ids <= NamespaceIds(m, ns)
    ensures |HitsAt(s, m, ns, w, lexical, vector, ids)| == |ids|
  {
    if ids != {} {
      var id :| id in ids;
      HitsAtSize(s, m, ns, w, lexical, vector, ids - {id});
      HitsAtAdd(s, m, ns, w, lexical, vector, ids - {id}, id);
      assert ids == ids - {id} + {id};
    } else {
      assert HitsAt(s, m, ns, w, lexical, vector, ids) == {};
    }
  }

  // ----- candidates are comparable, whatever the weights -----

  /** What the engine demands of weights. */
  predicate ValidWeights(round: real -> Float, w: Weights) {
    && w.lexical.Fin? && w.vector.Fin? && w.lexical.r >= 0.0 && w.vector.r >= 0.0
    && Less(Fin(EPSILON), Add(round, w.lexical, w.vector))
  }

  ghost predicate UnitScores(c: map<string, real>) { forall id | id in c :: 0.0 <= c[id] <= 1.0 }

  /** A weighted score in [0, 1]: a finite weight gives a number, an infinite one itself or, at score 0, NaN. */
  lemma WeightedScore(round: real -> Float, weight: Weight, score: real)
    requires Rounding(round) && 0.0 <= score <= 1.0
    ensures weight.Fin? ==> Mul(round, weight, Fin(score)).Fin?
    ensures weight.NaN? ==> Mul(round, weight, Fin(score)).NaN?
    ensures IsInfinite(weight) ==> Mul(round, weight, Fin(score)) == if score == 0.0 then NaN else weight
  {
    if weight.Fin? {
      ScaledDown(weight.r, score, MAX_F32);
    }
  }

  lemma ScaledDown(x: real, y: real, bound: real)
    requires -bound <= x <= bound && 0.0 <= y <= 1.0
    ensures -bound <= x * y <= bound
  {
    ProductNonNegative(bound - x, y);
    ProductNonNegative(bound + x, y);
    ProductNonNegative(bound, 1.0 - y);
    assert (bound - x) * y == bound * y - x * y && (bound + x) * y == bound * y + x * y;
    assert bound * (1.0 - y) == bound - bound * y;
  }

  /**
   * For all weights, the hybrid score is NaN exactly when a weight is NaN, an infinite weight meets a zero score, or
   * the weights are opposite infinities.
   */
  lemma HybridNaNIff(round: real -> Float, w: Weights, lexical: real, vector: real)
    requires Rounding(round) && 0.0 <= lexical <= 1.0 && 0.0 <= vector <= 1.0
    ensures Hybrid(round, w, lexical, vector).NaN? <==>
              || w.lexical.NaN? || w.vector.NaN?
              || (IsInfinite(w.lexical) && lexical == 0.0) || (IsInfinite(w.vector) && vector == 0.0)
              || (IsInfinite(w.lexical) && IsInfinite(w.vector) && w.lexical != w.vector)
  {
    WeightedScore(round, w.lexical, lexical);
    WeightedScore(round, w.vector, vector);
  }

  /** With a special weight, every hybrid score is NaN or that one infinity. */
  lemma SpecialHybrid(round: real -> Float, w: Weights, lexical: real, vector: real)
    requires Rounding(round) && 0.0 <= lexical <= 1.0 && 0.0 <= vector <= 1.0
    requires !w.lexical.Fin? || !w.vector.Fin?
    ensures var h := Hybrid(round, w, lexical, vector);
            h.NaN? || h == if w.lexical.Fin? then w.vector else w.lexical
  {
    WeightedScore(round, w.lexical, lexical);
    WeightedScore(round, w.vector, vector);
  }

  lemma VectorCandidatesUnit(
    f: Arithmetic, p: Parsers, vectors: map<string, VectorRow>, rows: seq<string>, query: seq<F32>)
    requires forall id | id in rows :: id in vectors
    ensures UnitScores(VectorCandidates(f, p, vectors, rows, query))
  {
    var c := VectorCandidates(f, p, vectors, rows, query);
    forall id | id in c
      ensures 0.0 <= c[id] <= 1.0
    {
      assert RowScore(f, p, vectors[id], query) == Some(c[id]);
    }
  }

  lemma LexicalCandidatesUnit(s: Scoring, db: Db, answer: seq<nat>, order: seq<string>, query: string, limit: nat)
    requires forall id | id in order :: id in db.memories
    requires forall r | r in answer :: r in db.fts
    ensures UnitScores(LexicalCandidates(s, db, answer, order, query, limit))
  {
    if answer == [] {
      TakeMembers(order, ScanLimit(limit));
      FallbackUnit(s, db.memories, Take(order, ScanLimit(limit)), query);
    }
  }

  lemma FallbackUnit(s: Scoring, m: Memories, rows: seq<string>, query: string)
    requires forall id | id in rows :: id in m
    ensures UnitScores(FallbackCandidates(s, m, rows, query))
  {
    var c := FallbackCandidates(s, m, rows, query);
    forall id | id in c
      ensures 0.0 <= c[id] <= 1.0
    {
      assert FallbackScore(s, query, m[id].content) == Some(c[id]);
    }
  }

  /**
   * For all weights the candidates of a recall are strictly and totally ordered; with the weights the engine accepts
   * no score is NaN.
   */
  lemma HitsAreComparable(
    s: Scoring, m: Memories, ns: string, w: Weights, lexical: map<string, real>, vector: map<string, real>)
    requires Rounding(s.arith.round) && UnitScores(lexical) && UnitScores(vector)
    ensures Comparable(HitSet(s, m, ns, w, lexical, vector))
    ensures ValidWeights(s.arith.round, w) ==> forall h | h in HitSet(s, m, ns, w, lexical, vector) :: !h.hybrid.NaN?
  {
    forall h | h in HitSet(s, m, ns, w, lexical, vector)
      ensures w.lexical.Fin? && w.vector.Fin? ==> !h.hybrid.NaN?
      ensures !w.lexical.Fin? || !w.vector.Fin? ==>
                h.hybrid.NaN? || h.hybrid == if w.lexical.Fin? then w.vector else w.lexical
    {
      HybridNaNIff(s.arith.round, w, h.lexical, h.vector);
      if !w.lexical.Fin? || !w.vector.Fin? {
        SpecialHybrid(s.arith.round, w, h.lexical, h.vector);
      }
    }
  }
}
