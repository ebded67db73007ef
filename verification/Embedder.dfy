/** The deterministic hash embedder: eight buckets a token, counted, then normalised. */
module Embedder {
  import opened Prelude
  import opened Text
  import opened Tokenizer
  import opened Floats
  import opened Similarity
  import opened Nearest
  import opened Codec

  type Digest = d: seq<Byte> | |d| == 32 witness seq(32, _ => 0)

  /** The platform: lower casing, SHA-256, f32 arithmetic, and the bit pattern of an f32 number. */
  datatype Platform = Platform(
    lower: string -> string,
    sha256: string -> Digest,
    arith: Arithmetic,
    bits: real -> F32)

  /** A rounded number has a finite pattern that stands for it. */
  ghost predicate Patterns(round: real -> Float, bits: real -> F32) {
    forall r: real | round(r).Fin? :: IsFinite(bits(round(r).r)) && ValueOf(bits(round(r).r)) == round(r).r
  }

  ghost predicate WellBehaved(h: Platform) {
    KeepsInk(h.lower) && Ieee(h.arith) && Patterns(h.arith.round, h.bits)
  }

  /** A platform that rounds to nearest with ties to even, and stores the patterns of its numbers, is well behaved. */
  lemma IeeePlatform(h: Platform)
    requires KeepsInk(h.lower) && SquareRoot(h.arith.sqrt)
    requires h.arith.round == NearestEven && h.bits == BitsOf
    ensures WellBehaved(h)
  {
    NearestIsRounding();
    forall r: real | NearestEven(r).Fin?
      ensures IsPatternOf(BitsOf(NearestEven(r).r), NearestEven(r).r)
    {
      BitsAreSound(r);
    }
  }

  const TOKEN_CAP: nat := 256

  const CHUNKS: nat := 8

  /** `u32::from_le_bytes(chunk) % dim` for chunk `k` of a digest. */
  function Bucket(d: Digest, k: nat, dim: nat): nat
    requires k < CHUNKS && dim > 0
  {
    (d[4 * k] + 256 * d[4 * k + 1] + 0x1_0000 * d[4 * k + 2] + 0x100_0000 * d[4 * k + 3]) % dim
  }

  function DigestBuckets(d: Digest, n: nat, dim: nat): (b: seq<nat>)
    requires n <= CHUNKS && dim > 0
    ensures |b| == n && forall j | 0 <= j < n :: b[j] < dim
  {
    if n == 0 then [] else DigestBuckets(d, n - 1, dim) + [Bucket(d, n - 1, dim)]
  }

  /** Every bucket hit by a term list, in the order of the hashing loop. */
  function Buckets(h: Platform, terms: seq<string>, dim: nat): (b: seq<nat>)
    requires dim > 0
    ensures |b| == CHUNKS * |terms| && forall j | 0 <= j < |b| :: b[j] < dim
  {
    if terms == [] then []
    else Buckets(h, terms[..|terms| - 1], dim) + DigestBuckets(h.sha256(terms[|terms| - 1]), CHUNKS, dim)
  }

  function TermsOf(h: Platform, text: string): seq<string> { Terms(h.lower, text, TOKEN_CAP) }

  function Count(hits: seq<nat>, j: nat): (n: nat)
    ensures n <= |hits|
  {
    if hits == [] then 0 else Count(hits[..|hits| - 1], j) + if hits[|hits| - 1] == j then 1 else 0
  }

  /** Entry `j` counts how often bucket `j` is hit. */
  ghost predicate Counted(out: seq<real>, hits: seq<nat>) {
    forall j | 0 <= j < |out| :: out[j] == Whole(Count(hits, j))
  }

  /** The count vector of a text. */
  function Counts(h: Platform, text: string, dim: nat): (c: seq<real>)
    requires dim > 0
    ensures |c| == dim && Counted(c, Buckets(h, TermsOf(h, text), dim))
  {
    var hits := Buckets(h, TermsOf(h, text), dim);
    seq(dim, j requires 0 <= j < dim => Whole(Count(hits, j)))
  }

  // ----- the two f32 loops -----

  method CountTokens(h: Platform, text: string, dim: nat) returns (out: seq<real>)
    requires dim > 0 && Rounding(h.arith.round)
    ensures |out| == dim && Counted(out, Buckets(h, TermsOf(h, text), dim))
  {
    var a := Zeros(dim);
    var tokens := TokenizeTerms(h.lower, text, TOKEN_CAP);
    for i := 0 to |tokens|
      invariant Counted(a[..], Buckets(h, tokens[..i], dim))
    {
      BucketsAppend(h, tokens, i, dim);
      AddDigest(h, a, h.sha256(tokens[i]), Buckets(h, tokens[..i], dim));
    }
    assert tokens[..|tokens|] == tokens;
    out := a[..];
  }

  /** `vec![0.0_f32; dim]` */
  method Zeros(dim: nat) returns (a: array<real>)
    ensures fresh(a) && a.Length == dim && Counted(a[..], [])
  {
    a := new real[dim](_ => 0.0);
  }

  lemma BucketsAppend(h: Platform, terms: seq<string>, i: nat, dim: nat)
    requires i < |terms| && dim > 0
    ensures Buckets(h, terms[..i + 1], dim) ==
            Buckets(h, terms[..i], dim) + DigestBuckets(h.sha256(terms[i]), CHUNKS, dim)
  {
    assert terms[..i + 1][..i] == terms[..i];
  }

  /** The chunk loop for one token. */
  method AddDigest(h: Platform, a: array<real>, bytes: Digest, ghost before: seq<nat>)
    requires Rounding(h.arith.round) && a.Length > 0
    requires |before| + CHUNKS <= CHUNKS * TOKEN_CAP && Counted(a[..], before)
    modifies a
    ensures Counted(a[..], before + DigestBuckets(bytes, CHUNKS, a.Length))
  {
    var dim := a.Length;
    ghost var hits := before;
    for k := 0 to CHUNKS
      invariant hits == before + DigestBuckets(bytes, k, dim)
      invariant Counted(a[..], hits)
    {
      var idx := Bucket(bytes, k, dim);
      ghost var was := a[..];
      BumpIsExact(h.arith.round, was, hits, idx);
      a[idx] := Rounded(h.arith.round, a[idx] + 1.0);
      assert a[..] == was[idx := Rounded(h.arith.round, was[idx] + 1.0)];
      hits := hits + [idx];
    }
  }

  /** One more hit keeps the vector counted, and the `f32` addition that records it is exact. */
  lemma BumpIsExact(round: real -> Float, out: seq<real>, hits: seq<nat>, idx: nat)
    requires Rounding(round) && Counted(out, hits) && idx < |out| && |hits| < CHUNKS * TOKEN_CAP
    ensures Counted(out[idx := Rounded(round, out[idx] + 1.0)], hits + [idx])
  {
    var n := Count(hits, idx);
    assert out[idx] + 1.0 == Whole(n + 1);
    KeptWhole(round, n + 1);
    assert (hits + [idx])[..|hits|] == hits;
  }

  /** `out.iter().map(|v| v * v).sum::<f32>()` */
  method SquaredNorm(h: Platform, out: seq<real>, ghost hits: seq<nat>) returns (sum: real)
    requires Rounding(h.arith.round) && Counted(out, hits) && |hits| <= CHUNKS * TOKEN_CAP
    ensures sum == SumSq(out, |out|)
  {
    sum := 0.0;
    for i := 0 to |out|
      invariant sum == SumSq(out, i) == Whole(CountSquares(hits, i))
    {
      SquareStep(h.arith.round, out, hits, i);
      var square := Rounded(h.arith.round, out[i] * out[i]);
      sum := Rounded(h.arith.round, sum + square);
    }
  }

  /** The product and the sum of one round are exact. */
  lemma SquareStep(round: real -> Float, out: seq<real>, hits: seq<nat>, i: nat)
    requires Rounding(round) && Counted(out, hits) && |hits| <= CHUNKS * TOKEN_CAP && i < |out|
    ensures Rounded(round, Whole(CountSquares(hits, i)) + Rounded(round, out[i] * out[i]))
         == Whole(CountSquares(hits, i)) + out[i] * out[i] == Whole(CountSquares(hits, i + 1))
  {
    var square := Count(hits, i) * Count(hits, i);
    SquareInRange(hits, i);
    SquareIsWhole(out, hits, i);
    WholeSum(CountSquares(hits, i), square);
    KeptWhole(round, square);
    KeptWhole(round, CountSquares(hits, i + 1));
  }

  function Normalised(sqrt: real -> real, c: seq<real>): (v: seq<real>)
    ensures |v| == |c|
  {
    var norm := sqrt(SumSq(c, |c|));
    if norm > 0.0 then seq(|c|, j requires 0 <= j < |c| => c[j] / norm) else c
  }

  /** The embedding over exact reals. */
  function Embedding(h: Platform, text: string, dim: nat): (v: seq<real>)
    requires dim > 0
    ensures |v| == dim
  {
    Normalised(h.arith.sqrt, Counts(h, text, dim))
  }

  /** The same with the root and every quotient rounded to f32. */
  function FloatNormalised(f: Arithmetic, c: seq<real>): (v: seq<real>)
    ensures |v| == |c|
  {
    var norm := Rounded(f.round, f.sqrt(SumSq(c, |c|)));
    if norm > 0.0 then seq(|c|, j requires 0 <= j < |c| => Rounded(f.round, c[j] / norm)) else c
  }

  /** `DeterministicHashEmbedder::new` */
  function Dimension(requested: nat): (dim: nat)
    ensures dim >= 8 && dim >= requested && (dim == requested || dim == 8)
  {
    Max(requested, 8)
  }

  method Embed(h: Platform, text: string, dim: nat) returns (out: seq<real>)
    requires dim > 0 && Rounding(h.arith.round)
    ensures out == FloatNormalised(h.arith, Counts(h, text, dim))
  {
    var counts := CountTokens(h, text, dim);
    assert counts == Counts(h, text, dim);
    var squared := SquaredNorm(h, counts, Buckets(h, TermsOf(h, text), dim));
    var norm := Rounded(h.arith.round, h.arith.sqrt(squared));
    out := counts;
    if norm > 0.0 {
      out := DivideAll(h.arith.round, counts, norm);
    }
  }

  /** `for v in &mut out { *v /= norm }` */
  method DivideAll(round: real -> Float, counts: seq<real>, norm: real) returns (out: seq<real>)
    requires norm > 0.0
    ensures |out| == |counts| && forall j | 0 <= j < |out| :: out[j] == Rounded(round, counts[j] / norm)
  {
    out := counts;
    for i := 0 to |counts|
      invariant |out| == |counts|
      invariant forall j | 0 <= j < i :: out[j] == Rounded(round, counts[j] / norm)
      invariant forall j | i <= j < |counts| :: out[j] == counts[j]
    {
      out := out[i := Rounded(round, out[i] / norm)];
    }
  }

  /** The stored patterns of an embedding. */
  function EmbedBits(h: Platform, text: string, dim: nat): (v: seq<F32>)
    requires dim > 0
    ensures |v| == dim
  {
    var e := FloatNormalised(h.arith, Counts(h, text, dim));
    seq(dim, j requires 0 <= j < dim => h.bits(e[j]))
  }

  // ----- exactness -----

  /** Hits counted in the first `n` buckets, and the sum of the squares of those counts. */
  function CountSum(hits: seq<nat>, n: nat): nat {
    if n == 0 then 0 else CountSum(hits, n - 1) + Count(hits, n - 1)
  }

  function CountSquares(hits: seq<nat>, n: nat): nat {
    if n == 0 then 0 else CountSquares(hits, n - 1) + Count(hits, n - 1) * Count(hits, n - 1)
  }

  lemma {:induction false} CountSumAppend(hits: seq<nat>, x: nat, n: nat)
    ensures CountSum(hits + [x], n) == CountSum(hits, n) + if x < n then 1 else 0
  {
    if n > 0 {
      CountSumAppend(hits, x, n - 1);
      assert (hits + [x])[..|hits|] == hits;
    }
  }

  /** Every hit lands in one bucket: the counts below `n` never exceed the hits, and reach them when all hits do. */
  lemma {:induction false} CountSumTotal(hits: seq<nat>, n: nat)
    ensures CountSum(hits, n) <= |hits|
    ensures (forall i | 0 <= i < |hits| :: hits[i] < n) ==> CountSum(hits, n) == |hits|
  {
    if hits == [] {
      EmptyCountSum(n);
    } else {
      var front, x := hits[..|hits| - 1], hits[|hits| - 1];
      CountSumTotal(front, n);
      CountSumAppend(front, x, n);
      assert hits == front + [x];
    }
  }

  lemma {:induction false} EmptyCountSum(n: nat)
    ensures CountSum([], n) == 0
  {
    if n > 0 {
      EmptyCountSum(n - 1);
    }
  }

  lemma {:induction false} SquaresBound(hits: seq<nat>, n: nat)
    ensures CountSquares(hits, n) <= CountSum(hits, n) * CountSum(hits, n)
    ensures CountSquares(hits, n) == 0 <==> CountSum(hits, n) == 0
  {
    if n > 0 {
      SquaresBound(hits, n - 1);
      var s, c := CountSum(hits, n - 1), Count(hits, n - 1);
      SquareOfSum(s, c);
      NatProduct(c, c);
    }
  }

  lemma SquareOfSum(s: nat, c: nat)
    ensures s * s + c * c <= (s + c) * (s + c)
  {
    assert (s + c) * (s + c) == s * s + 2 * (s * c) + c * c;
    NatProduct(s, c);
  }

  lemma NatProduct(x: nat, y: nat)
    ensures x * y >= 0
    ensures x == y && x > 0 ==> x * y > 0
  {
  }

  lemma MulBound(x: nat, y: nat)
    requires x <= y
    ensures x * x <= y * y
  {
  }

  /** With at most 256 tokens every partial sum of squares is at most 2^22. */
  lemma PartialSumBound(hits: seq<nat>, n: nat)
    requires |hits| <= CHUNKS * TOKEN_CAP
    ensures CountSquares(hits, n) <= 4_194_304
  {
    CountSumTotal(hits, n);
    SquaresBound(hits, n);
    MulBound(CountSum(hits, n), 2048);
  }

  /** The square of an entry and the running sum stay within 24 bits. */
  lemma SquareInRange(hits: seq<nat>, i: nat)
    requires |hits| <= CHUNKS * TOKEN_CAP
    ensures 0 <= Count(hits, i) * Count(hits, i) <= 4_194_304
    ensures CountSquares(hits, i + 1) <= 4_194_304
  {
    MulBound(Count(hits, i), 2048);
    NatProduct(Count(hits, i), Count(hits, i));
    PartialSumBound(hits, i + 1);
  }

  lemma SquareIsWhole(out: seq<real>, hits: seq<nat>, i: nat)
    requires Counted(out, hits) && i < |out|
    ensures out[i] * out[i] == Whole(Count(hits, i) * Count(hits, i))
  {
    WholeProduct(Count(hits, i));
  }

  lemma WholeSum(m: int, n: int)
    ensures Whole(m) + Whole(n) == Whole(m + n)
  {
  }

  lemma WholeProduct(c: nat)
    ensures Whole(c) * Whole(c) == Whole(c * c)
  {
  }

  lemma {:induction false} SumSqIsWhole(out: seq<real>, hits: seq<nat>, n: nat)
    requires Counted(out, hits) && n <= |out|
    ensures SumSq(out, n) == Whole(CountSquares(hits, n))
  {
    if n > 0 {
      SumSqIsWhole(out, hits, n - 1);
      WholeProduct(Count(hits, n - 1));
    }
  }

  /** The entries add up to eight hits a token, and the squared norm is positive exactly when there is a token. */
  lemma CountsTotal(h: Platform, text: string, dim: nat)
    requires dim > 0
    ensures CountSum(Buckets(h, TermsOf(h, text), dim), dim) == CHUNKS * |TermsOf(h, text)| <= 2048
    ensures SumSq(Counts(h, text, dim), dim) > 0.0 <==> TermsOf(h, text) != []
    ensures SumSq(Counts(h, text, dim), dim) <= 4_194_304.0
  {
    var hits := Buckets(h, TermsOf(h, text), dim);
    CountSumTotal(hits, dim);
    SquaresBound(hits, dim);
    PartialSumBound(hits, dim);
    SumSqIsWhole(Counts(h, text, dim), hits, dim);
  }

  // ----- which entries a text hits -----

  /** A bucket is a word of the digest, modulo the dimension. */
  lemma {:induction false} DigestBucketAt(d: Digest, n: nat, k: nat, dim: nat)
    requires k < n <= CHUNKS && dim > 0
    ensures DigestBuckets(d, n, dim)[k] == DecodeWords(d)[k] % dim
  {
    if k == n - 1 {
      WordAt(d, k);
    } else {
      DigestBucketAt(d, n - 1, k, dim);
    }
  }

  lemma {:induction false} BucketAt(h: Platform, terms: seq<string>, p: nat, dim: nat)
    requires p < 8 * |terms| && dim > 0
    ensures Buckets(h, terms, dim)[p] == DecodeWords(h.sha256(terms[p / 8]))[p % 8] % dim
  {
    var n := |terms| - 1;
    if p < 8 * n {
      BucketAt(h, terms[..n], p, dim);
    } else {
      DigestBucketAt(h.sha256(terms[n]), CHUNKS, p % 8, dim);
    }
  }

  ghost function Places(hits: seq<nat>, j: nat): set<nat> { set p: nat | p < |hits| && hits[p] == j }

  lemma {:induction false} CountIsCardinality(hits: seq<nat>, j: nat)
    ensures Count(hits, j) == |Places(hits, j)|
  {
    if hits != [] {
      CountIsCardinality(hits[..|hits| - 1], j);
      LastPlace(hits, j);
    }
  }

  lemma LastPlace(hits: seq<nat>, j: nat)
    requires hits != []
    ensures |Places(hits, j)| == |Places(hits[..|hits| - 1], j)| + if hits[|hits| - 1] == j then 1 else 0
  {
    var n := |hits| - 1;
    var before := Places(hits[..n], j);
    assert forall p: nat :: p in Places(hits, j) <==> p in before || (p == n && hits[n] == j);
    assert Places(hits, j) == if hits[n] == j then before + {n} else before;
  }

  /**
   * Entry `j` counts the hits that land in it: hit `p` belongs to term `p / 8`, and lands in the entry that word
   * `p % 8` of the digest of that term names, modulo the dimension.
   */
  lemma CountsAreHits(h: Platform, text: string, dim: nat, j: nat, places: set<nat>)
    requires j < dim
    requires var ts := Terms(h.lower, text, 256);
             forall p: nat :: p in places <==>
               p < 8 * |ts| && DecodeWords(h.sha256(ts[p / 8]))[p % 8] % dim == j
    ensures Counts(h, text, dim)[j] == |places| as real
  {
    var ts := TermsOf(h, text);
    var hits := Buckets(h, ts, dim);
    CountIsCardinality(hits, j);
    forall p: nat
      ensures p in Places(hits, j) <==> p in places
    {
      if p < 8 * |ts| {
        BucketAt(h, ts, p, dim);
      }
    }
    assert Places(hits, j) == places;
  }

  /** No digest word of a term of `text` has the residue of one of `other`. */
  ghost predicate Strangers(h: Platform, text: string, other: string, dim: nat)
    requires dim > 0
  {
    var ts, us := Terms(h.lower, text, 256), Terms(h.lower, other, 256);
    forall p: nat, q: nat | p < 8 * |ts| && q < 8 * |us| ::
      DecodeWords(h.sha256(ts[p / 8]))[p % 8] % dim != DecodeWords(h.sha256(us[q / 8]))[q % 8] % dim
  }

  lemma {:induction false} HitExists(hits: seq<nat>, j: nat) returns (p: nat)
    requires Count(hits, j) > 0
    ensures p < |hits| && hits[p] == j
  {
    if hits[|hits| - 1] == j {
      p := |hits| - 1;
    } else {
      p := HitExists(hits[..|hits| - 1], j);
    }
  }

  /** Strangers share no entry. */
  lemma StrangersShareNothing(h: Platform, text: string, other: string, dim: nat, j: nat)
    requires j < dim && Strangers(h, text, other, dim)
    ensures Count(Buckets(h, TermsOf(h, text), dim), j) == 0 || Count(Buckets(h, TermsOf(h, other), dim), j) == 0
  {
    var a, b := Buckets(h, TermsOf(h, text), dim), Buckets(h, TermsOf(h, other), dim);
    if Count(a, j) > 0 && Count(b, j) > 0 {
      var p := HitExists(a, j);
      var q := HitExists(b, j);
      BucketAt(h, TermsOf(h, text), p, dim);
      BucketAt(h, TermsOf(h, other), q, dim);
      assert false;
    }
  }

  // ----- normalisation -----

  lemma ScaledSquare(x: real, y: real, norm: real, squared: real)
    requires squared == norm * norm && x * norm == y
    ensures (x * x) * squared == y * y
  {
    assert (x * x) * squared == (x * x) * (norm * norm) == (x * norm) * (x * norm);
  }

  lemma {:induction false} ScaledSumSq(c: seq<real>, v: seq<real>, norm: real, squared: real, n: nat)
    requires |c| == |v| && n <= |c| && norm > 0.0 && squared == norm * norm
    requires forall j | 0 <= j < |c| :: v[j] == c[j] / norm
    ensures SumSq(v, n) * squared == SumSq(c, n)
  {
    if n > 0 {
      ScaledSumSq(c, v, norm, squared, n - 1);
      QuotientTimes(c[n - 1], norm);
      ScaledSquare(v[n - 1], c[n - 1], norm, squared);
      Distribute(SumSq(v, n - 1), v[n - 1] * v[n - 1], squared);
    }
  }

  lemma Distribute(x: real, y: real, z: real)
    ensures (x + y) * z == x * z + y * z
  {
  }

  /** Dividing by the norm gives squared norm 1, keeps the sign of every entry, and leaves a zero vector alone. */
  lemma NormalisedNorm(sqrt: real -> real, c: seq<real>)
    requires SquareRoot(sqrt) && NonNegative(c)
    ensures SumSq(Normalised(sqrt, c), |c|) == if SumSq(c, |c|) > 0.0 then 1.0 else 0.0
    ensures NonNegative(Normalised(sqrt, c))
  {
    var s := SumSq(c, |c|);
    SumSqNonNegative(c, |c|);
    var norm := sqrt(s);
    assert norm >= 0.0 && norm * norm == s;
    if norm > 0.0 {
      var v := Normalised(sqrt, c);
      ScaledSumSq(c, v, norm, s, |c|);
      PositiveResult(norm, norm, s);
      CancelFactor(SumSq(v, |c|), s);
      forall j | 0 <= j < |c|
        ensures v[j] >= 0.0
      {
        QuotientSign(c[j], norm);
      }
    }
  }

  lemma UnitEntries(v: seq<real>)
    requires SumSq(v, |v|) <= 1.0
    ensures forall j | 0 <= j < |v| :: v[j] <= 1.0
  {
    forall j | 0 <= j < |v|
      ensures v[j] <= 1.0
    {
      EntryBound(v, j, |v|);
      LessBySquares(v[j], 1.0);
    }
  }

  /** The embedding of a text has squared norm 1, or is the zero vector when the text has no term. */
  lemma EmbeddingNorm(h: Platform, text: string, dim: nat)
    requires WellBehaved(h) && dim > 0
    ensures SumSq(Embedding(h, text, dim), dim) == if Trim(text) == "" then 0.0 else 1.0
    ensures NonNegative(Embedding(h, text, dim))
    ensures forall j | 0 <= j < dim :: Embedding(h, text, dim)[j] <= 1.0
  {
    CountsTotal(h, text, dim);
    TermsEmptyIff(h.lower, text, TOKEN_CAP);
    assert NonNegative(Counts(h, text, dim));
    NormalisedNorm(h.arith.sqrt, Counts(h, text, dim));
    UnitEntries(Embedding(h, text, dim));
  }

  lemma CancelFactor(x: real, s: real)
    requires s > 0.0 && x * s == s
    ensures x == 1.0
  {
  }

  lemma {:induction false} EntryBound(v: seq<real>, j: nat, n: nat)
    requires j < n <= |v|
    ensures v[j] * v[j] <= SumSq(v, n)
  {
    if j == n - 1 {
      SumSqNonNegative(v, n - 1);
    } else {
      EntryBound(v, j, n - 1);
      SquareNonNegative(v[n - 1]);
    }
  }

  // ----- the stored embedding -----

  /** The norm of a count vector: at least 1, as some entry is, and exact up to one rounding. */
  lemma FloatNorm(f: Arithmetic, s: real)
    requires Ieee(f) && 1.0 <= s <= 4_194_304.0
    ensures var q, n := f.sqrt(s), Rounded(f.round, f.sqrt(s));
            1.0 <= q <= 2048.0 && q - q / 16777216.0 <= n <= q + q / 16777216.0
  {
    LessBySquares(1.0, f.sqrt(s));
    LessBySquares(f.sqrt(s), 2048.0);
    RoundedRange(f.round, f.sqrt(s));
  }

  /** An entry `v` in f32 is the exact entry `e` up to three roundings. */
  predicate Close(e: real, v: real) {
    e - 3.0 * e / 16777216.0 <= v <= e + 3.0 * e / 16777216.0
  }

  lemma FloatShare(round: real -> Float, c: real, q: real, n: real)
    requires Rounding(round) && (c == 0.0 || c >= 1.0) && c <= q <= 2048.0 && 1.0 <= q
    requires q - q / 16777216.0 <= n <= q + q / 16777216.0
    ensures n > 0.0
    ensures var v := Rounded(round, c / n);
            Close(c / q, v) && round(v) == Fin(v) && (if c == 0.0 then v == 0.0 else 1.0 / 4096.0 <= v <= 2.0)
  {
    if c == 0.0 {
      assert c / n == 0.0 && c / q == 0.0;
      RoundsUp(round, 0.0);
    } else {
      NearShare(c, q, n);
      RoundedClose(round, c / q, c / n);
    }
  }

  lemma RoundedClose(round: real -> Float, e: real, x: real)
    requires Rounding(round) && 1.0 / 2048.0 <= e <= 1.0
    requires e - 1.5 * e / 16777216.0 <= x <= e + 1.5 * e / 16777216.0
    ensures var v := Rounded(round, x); Close(e, v) && round(v) == Fin(v) && 1.0 / 4096.0 <= v <= 2.0
  {
    assert round(x).Fin?;
  }

  /** Dividing by a norm that is off by one rounding. */
  lemma NearShare(c: real, q: real, n: real)
    requires 1.0 <= c <= q <= 2048.0 && q - q / 16777216.0 <= n <= q + q / 16777216.0
    ensures var e, x := c / q, c / n;
            1.0 / 2048.0 <= e <= 1.0 && 1.0 / 4096.0 <= x <= 2.0
            && e - 1.5 * e / 16777216.0 <= x <= e + 1.5 * e / 16777216.0
  {
    var e, x := c / q, c / n;
    assert e * q == c && x * n == c;
    AtMost(1.0 / 2048.0, e, q, q / 2048.0, c);
    AtMost(e, 1.0, q, c, q);
    assert e * n >= c - c / 16777216.0 && e * n <= c + c / 16777216.0 by {
      ScaledBetween(e, q, n, c);
    }
    var lower, upper := e - 1.5 * e / 16777216.0, e + 1.5 * e / 16777216.0;
    AtMost(lower, x, n, e * n - 1.5 * (e * n) / 16777216.0, c);
    AtMost(x, upper, n, c, e * n + 1.5 * (e * n) / 16777216.0);
  }

  lemma ScaledBetween(e: real, q: real, n: real, c: real)
    requires e >= 0.0 && e * q == c && q - q / 16777216.0 <= n <= q + q / 16777216.0
    ensures c - c / 16777216.0 <= e * n <= c + c / 16777216.0
  {
    ProductNonNegative(e, n - (q - q / 16777216.0));
    ProductNonNegative(e, (q + q / 16777216.0) - n);
    assert e * (q - q / 16777216.0) == c - c / 16777216.0 && e * (q + q / 16777216.0) == c + c / 16777216.0;
  }

  lemma BelowRoot(sqrt: real -> real, x: real, s: real)
    requires SquareRoot(sqrt) && s >= 0.0 && x * x <= s
    ensures x <= sqrt(s)
  {
    LessBySquares(x, sqrt(s));
  }

  /** The entry of a normalised count vector in f32 against the one over exact reals. */
  lemma NormalisedEntry(f: Arithmetic, c: seq<real>, j: nat)
    requires Ieee(f) && j < |c| && 1.0 <= SumSq(c, |c|) <= 4_194_304.0 && (c[j] == 0.0 || c[j] >= 1.0)
    ensures var e, v := Normalised(f.sqrt, c)[j], FloatNormalised(f, c)[j];
            && Close(e, v) && f.round(v) == Fin(v)
            && (if c[j] == 0.0 then v == 0.0 else 1.0 / 4096.0 <= v <= 2.0)
  {
    var s := SumSq(c, |c|);
    FloatNorm(f, s);
    EntryBound(c, j, |c|);
    BelowRoot(f.sqrt, c[j], s);
    FloatShare(f.round, c[j], f.sqrt(s), Rounded(f.round, f.sqrt(s)));
  }

  /** Without tokens every entry is zero, and stays zero. */
  lemma ZeroEntry(f: Arithmetic, c: seq<real>, j: nat)
    requires Ieee(f) && j < |c| && SumSq(c, |c|) == 0.0 && c[j] >= 0.0
    ensures Normalised(f.sqrt, c)[j] == 0.0 && FloatNormalised(f, c)[j] == 0.0 && f.round(0.0) == Fin(0.0)
  {
    EntryBound(c, j, |c|);
    NoSquare(c[j], c[j] * c[j]);
    NoSquare(f.sqrt(0.0), 0.0);
    RoundsUp(f.round, 0.0);
  }

  lemma NoSquare(x: real, square: real)
    requires x >= 0.0 && x * x == square <= 0.0
    ensures x == 0.0
  {
    if x > 0.0 {
      PositiveResult(x, x, square);
    }
  }

  /** What one stored pattern stands for: the exact entry up to three roundings, zero exactly for a bucket without
      hits. */
  lemma StoredEntry(h: Platform, text: string, dim: nat, j: nat)
    requires WellBehaved(h) && j < dim
    ensures var e, x := Embedding(h, text, dim)[j], EmbedBits(h, text, dim)[j];
            && IsFinite(x) && Close(e, ValueOf(x))
            && (if Count(Buckets(h, TermsOf(h, text), dim), j) == 0 then ValueOf(x) == 0.0
                else 1.0 / 4096.0 <= ValueOf(x) <= 2.0)
  {
    var c, hits := Counts(h, text, dim), Buckets(h, TermsOf(h, text), dim);
    CountsTotal(h, text, dim);
    SumSqIsWhole(c, hits, dim);
    assert c[j] == Whole(Count(hits, j));
    if CountSquares(hits, dim) == 0 {
      ZeroEntry(h.arith, c, j);
    } else {
      NormalisedEntry(h.arith, c, j);
    }
    assert Patterns(h.arith.round, h.bits);
  }

  // ----- the norm of a stored embedding in f32 -----

  lemma RoundedSquare(round: real -> Float, v: real)
    requires Rounding(round) && 1.0 / 4096.0 <= v <= 2.0
    ensures var q := Mul(round, Fin(v), Fin(v));
            q.Fin? && v * v - v * v / 16777216.0 <= q.r <= 4.0 && 1.0 / 33554432.0 <= q.r
  {
    SquaresBetween(v);
    assert Keeps(round, Whole(4));
    assert Product(v, v) == v * v;
  }

  lemma SquaresBetween(v: real)
    requires 1.0 / 4096.0 <= v <= 2.0
    ensures 1.0 / 16777216.0 <= v * v <= 4.0
  {
    ProductNonNegative(v - 1.0 / 4096.0, v + 1.0 / 4096.0);
    ProductNonNegative(2.0 - v, 2.0 + v);
    assert (v - 1.0 / 4096.0) * (v + 1.0 / 4096.0) == v * v - 1.0 / 16777216.0;
    assert (2.0 - v) * (2.0 + v) == 4.0 - v * v;
  }

  lemma RoundedSum(round: real -> Float, sum: real, square: real, before: nat)
    requires Rounding(round) && 0.0 <= sum <= Whole(4 * before) && before < 2048
    requires 1.0 / 33554432.0 <= square <= 4.0
    ensures var next := round(sum + square);
            && next.Fin? && round(next.r) == next && 0.0 <= next.r <= Whole(4 * (before + 1))
            && sum + square - (sum + square) / 16777216.0 <= next.r
  {
    assert Keeps(round, Whole(4 * (before + 1)));
    assert Whole(4 * (before + 1)) == Whole(4 * before) + 4.0;
  }

  /** Adding one square: the sum stays below four for each hit, and a hit costs at most two roundings of a sum that is
      at most 4. */
  lemma SquareInFloat(round: real -> Float, sum: real, v: real, exact: real, before: nat, hits: nat)
    requires Rounding(round) && round(sum) == Fin(sum) && before + hits <= 2048
    requires if hits == 0 then v == 0.0 else 1.0 / 4096.0 <= v <= 2.0
    requires exact - Whole(before) / 2097152.0 <= sum <= Whole(4 * before) && 0.0 <= sum
    requires 0.0 <= exact && exact + Product(v, v) <= 4.0
    ensures var next := Add(round, Fin(sum), Mul(round, Fin(v), Fin(v)));
            && next.Fin? && round(next.r) == next && 0.0 <= next.r <= Whole(4 * (before + hits))
            && (exact + Product(v, v)) - Whole(before + hits) / 2097152.0 <= next.r
  {
    if hits == 0 {
      NothingAdded(round, sum);
    } else {
      RoundedSquare(round, v);
      var square := Mul(round, Fin(v), Fin(v)).r;
      RoundedSum(round, sum, square, before);
      SumLoss(exact, Product(v, v), sum, square, round(sum + square).r, before, hits);
    }
  }

  lemma NothingAdded(round: real -> Float, sum: real)
    requires Rounding(round) && round(sum) == Fin(sum)
    ensures Product(0.0, 0.0) == 0.0 && Add(round, Fin(sum), Mul(round, Fin(0.0), Fin(0.0))) == Fin(sum)
  {
    RoundsUp(round, 0.0);
  }

  lemma SumLoss(exact: real, product: real, sum: real, square: real, next: real, before: nat, hits: nat)
    requires 0.0 <= exact && exact + product <= 4.0 && hits > 0
    requires exact - Whole(before) / 2097152.0 <= sum && 0.0 <= sum
    requires product - product / 16777216.0 <= square && 0.0 <= product
    requires sum + square - (sum + square) / 16777216.0 <= next
    ensures exact + product - Whole(before + hits) / 2097152.0 <= next
  {
    assert Whole(before + hits) >= Whole(before) + 1.0;
  }

  /** The f32 squared norm of a vector that is zero exactly in buckets without hits. */
  lemma {:induction false} FloatNormBounds(round: real -> Float, a: seq<Float>, v: seq<real>, hits: seq<nat>, n: nat)
    requires Rounding(round) && n <= |a| == |v| && CountSum(hits, n) <= 2048 && SumSq(v, n) <= 4.0
    requires forall j | 0 <= j < |a| ::
               a[j] == Fin(v[j]) && if Count(hits, j) == 0 then v[j] == 0.0 else 1.0 / 4096.0 <= v[j] <= 2.0
    ensures var d := FloatDot(round, a, a, n);
            && d.Fin? && round(d.r) == d && 0.0 <= d.r <= Whole(4 * CountSum(hits, n))
            && SumSq(v, n) - Whole(CountSum(hits, n)) / 2097152.0 <= d.r
  {
    if n == 0 {
      RoundsUp(round, 0.0);
    } else {
      SumSqNonNegative(v, n - 1);
      SquareNonNegative(v[n - 1]);
      assert SumSq(v, n) == SumSq(v, n - 1) + Product(v[n - 1], v[n - 1]);
      FloatNormBounds(round, a, v, hits, n - 1);
      SquareInFloat(round, FloatDot(round, a, a, n - 1).r, v[n - 1], SumSq(v, n - 1),
                    CountSum(hits, n - 1), Count(hits, n - 1));
    }
  }

  /** Entries close to those of a unit vector give a squared norm close to 1. */
  lemma {:induction false} CloseNorms(e: seq<real>, v: seq<real>, n: nat)
    requires |e| == |v| && n <= |e| && forall j | 0 <= j < |e| :: 0.0 <= e[j] && Close(e[j], v[j])
    ensures SumSq(e, n) <= 2.0 * SumSq(v, n) && SumSq(v, n) <= 2.0 * SumSq(e, n)
  {
    if n > 0 {
      CloseNorms(e, v, n - 1);
      CloseSquares(e[n - 1], v[n - 1]);
    }
  }

  lemma CloseSquares(x: real, y: real)
    requires 0.0 <= x && Close(x, y)
    ensures x * x <= 2.0 * (y * y) && y * y <= 2.0 * (x * x)
  {
    SquareBelow(x, 1.25 * y);
    SquareBelow(y, 1.25 * x);
    assert (1.25 * y) * (1.25 * y) == 1.5625 * (y * y) && (1.25 * x) * (1.25 * x) == 1.5625 * (x * x);
    SquareNonNegative(x);
    SquareNonNegative(y);
  }

  /**
   * What the store relies on: the stored patterns of an embedding are finite and not negative, and their squared norm
   * in f32 is finite and moderate, or zero for a text that trims to nothing.
   */
  lemma StoredNorm(h: Platform, text: string, dim: nat)
    requires WellBehaved(h) && dim > 0
    ensures var a := FloatsOf(EmbedBits(h, text, dim));
            && AllFinite(EmbedBits(h, text, dim)) && NonNegativeFloats(a)
            && var d := FloatDot(h.arith.round, a, a, dim);
            d.Fin? && if Trim(text) == "" then d.r == 0.0 else 0.125 <= d.r <= 8192.0
  {
    var x, hits := EmbedBits(h, text, dim), Buckets(h, TermsOf(h, text), dim);
    var e, v := Embedding(h, text, dim), Values(x);
    forall j | 0 <= j < dim
      ensures IsFinite(x[j]) && Close(e[j], v[j])
      ensures if Count(hits, j) == 0 then v[j] == 0.0 else 1.0 / 4096.0 <= v[j] <= 2.0
    {
      StoredEntry(h, text, dim, j);
    }
    EmbeddingNorm(h, text, dim);
    CountsTotal(h, text, dim);
    TermsEmptyIff(h.lower, text, TOKEN_CAP);
    CloseNorms(e, v, dim);
    FloatNormBounds(h.arith.round, FloatsOf(x), v, hits, dim);
  }

  /** In f32 the stored embedding of a text with a term scores 1 against a stored copy of itself, up to 2^-21. */
  lemma StoredSelfScore(h: Platform, text: string, dim: nat)
    requires WellBehaved(h) && dim > 0 && Trim(text) != ""
    ensures var a := FloatsOf(EmbedBits(h, text, dim));
            var c := FloatCosine(h.arith, a, a);
            c.Fin? && 1.0 - 1.0 / 2097152.0 <= FloatNormalise(h.arith.round, c.r) <= 1.0
  {
    StoredNorm(h, text, dim);
    SelfScoreNearOne(h.arith, FloatsOf(EmbedBits(h, text, dim)));
  }

  /** Scores of two embedded texts: between one half and one, and exactly one for equal texts with a term. */
  lemma EmbeddingScore(h: Platform, text: string, other: string, dim: nat)
    requires WellBehaved(h) && dim > 0
    ensures 0.5 <= Score(h.arith.sqrt, Embedding(h, text, dim), Embedding(h, other, dim)) <= 1.0
    ensures Trim(text) != "" ==> Score(h.arith.sqrt, Embedding(h, text, dim), Embedding(h, text, dim)) == 1.0
  {
    EmbeddingNorm(h, text, dim);
    EmbeddingNorm(h, other, dim);
    NonNegativeScore(h.arith.sqrt, Embedding(h, text, dim), Embedding(h, other, dim));
    SelfScore(h.arith.sqrt, Embedding(h, text, dim));
  }

  // ----- texts that share no entry -----

  /** The direction of an embedding is that of the counts. */
  lemma EmbeddingDirection(h: Platform, text: string, dim: nat, j: nat)
    requires WellBehaved(h) && j < dim
    ensures var c, e := Counts(h, text, dim), Embedding(h, text, dim);
            Product(Product(e[j], e[j]), SumSq(c, dim)) == Product(c[j], c[j]) && e[j] >= 0.0
  {
    EmbeddingNorm(h, text, dim);
    NormalisedDirection(h.arith.sqrt, Counts(h, text, dim), j);
  }

  lemma NormalisedDirection(sqrt: real -> real, c: seq<real>, j: nat)
    requires SquareRoot(sqrt) && j < |c|
    ensures var e := Normalised(sqrt, c)[j]; Product(Product(e, e), SumSq(c, |c|)) == Product(c[j], c[j])
  {
    var s := SumSq(c, |c|);
    SumSqNonNegative(c, |c|);
    var norm := sqrt(s);
    if norm > 0.0 {
      QuotientTimes(c[j], norm);
      ScaledSquare(c[j] / norm, c[j], norm, s);
    } else {
      EntryBound(c, j, |c|);
      SquareNonNegative(c[j]);
      assert norm == 0.0 && s == 0.0;
    }
  }

  lemma {:induction false} DisjointDot(a: seq<real>, b: seq<real>, n: nat)
    requires n <= |a| && n <= |b| && forall j | 0 <= j < n :: a[j] == 0.0 || b[j] == 0.0
    ensures Dot(a, b, n) == 0.0
  {
    if n > 0 {
      DisjointDot(a, b, n - 1);
    }
  }

  lemma {:induction false} DisjointFloatDot(round: real -> Float, a: seq<Float>, b: seq<Float>, n: nat)
    requires Rounding(round) && n <= |a| && n <= |b|
    requires forall j | 0 <= j < n :: a[j].Fin? && b[j].Fin? && (a[j].r == 0.0 || b[j].r == 0.0)
    ensures FloatDot(round, a, b, n) == Fin(0.0)
  {
    if n > 0 {
      DisjointFloatDot(round, a, b, n - 1);
      NothingToAdd(round, a[n - 1].r, b[n - 1].r);
    }
  }

  lemma NothingToAdd(round: real -> Float, x: real, y: real)
    requires Rounding(round) && (x == 0.0 || y == 0.0)
    ensures Add(round, Fin(0.0), Mul(round, Fin(x), Fin(y))) == Fin(0.0)
  {
    RoundsUp(round, 0.0);
    assert Product(x, y) == 0.0;
  }

  lemma NoDotNoCosine(f: Arithmetic, a: seq<Float>, b: seq<Float>)
    requires Ieee(f) && FloatCosine(f, a, b).Fin?
    requires FloatDot(f.round, a, b, Min(|a|, |b|)) == Fin(0.0)
    ensures FloatCosine(f, a, b) == Fin(0.0) && FloatNormalise(f.round, 0.0) == 0.5
  {
    RoundsUp(f.round, 0.0);
    KeptWhole(f.round, 1);
    assert Keeps(f.round, 0.5);
    var denom := FloatDenominator(f, a, b);
    if denom.Fin? && denom.r > EPSILON {
      assert 0.0 / denom.r == 0.0;
    }
  }

  /** Two texts of which no digest words share a residue score exactly one half: over exact reals and in f32. */
  lemma StrangersScoreHalf(h: Platform, text: string, other: string, dim: nat)
    requires WellBehaved(h) && dim > 0 && Strangers(h, text, other, dim)
    ensures Cosine(h.arith.sqrt, Embedding(h, text, dim), Embedding(h, other, dim)) == 0.0
    ensures FloatCosine(h.arith, FloatsOf(EmbedBits(h, text, dim)), FloatsOf(EmbedBits(h, other, dim))) == Fin(0.0)
    ensures FloatNormalise(h.arith.round, 0.0) == 0.5 == Normalise(0.0)
  {
    var a, b := FloatsOf(EmbedBits(h, text, dim)), FloatsOf(EmbedBits(h, other, dim));
    forall j | 0 <= j < dim
      ensures a[j].Fin? && b[j].Fin? && (a[j].r == 0.0 || b[j].r == 0.0)
    {
      StrangersShareNothing(h, text, other, dim, j);
      StoredEntry(h, text, dim, j);
      StoredEntry(h, other, dim, j);
    }
    DisjointFloatDot(h.arith.round, a, b, dim);
    StoredNorm(h, text, dim);
    StoredNorm(h, other, dim);
    NonNegativeCosine(h.arith, a, b);
    NoDotNoCosine(h.arith, a, b);
    StrangersOverReals(h, text, other, dim);
  }

  lemma StrangersOverReals(h: Platform, text: string, other: string, dim: nat)
    requires WellBehaved(h) && dim > 0 && Strangers(h, text, other, dim)
    ensures Cosine(h.arith.sqrt, Embedding(h, text, dim), Embedding(h, other, dim)) == 0.0
  {
    var a, b := Embedding(h, text, dim), Embedding(h, other, dim);
    forall j | 0 <= j < dim
      ensures a[j] == 0.0 || b[j] == 0.0
    {
      StrangersShareNothing(h, text, other, dim, j);
      EntryWithoutHits(h, text, dim, j);
      EntryWithoutHits(h, other, dim, j);
    }
    DisjointDot(a, b, dim);
    var denom := Denominator(h.arith.sqrt, a, b);
    assert denom > EPSILON ==> 0.0 / denom == 0.0;
  }

  lemma EntryWithoutHits(h: Platform, text: string, dim: nat, j: nat)
    requires dim > 0 && j < dim
    ensures Count(Buckets(h, TermsOf(h, text), dim), j) == 0 ==> Embedding(h, text, dim)[j] == 0.0
  {
    var norm := h.arith.sqrt(SumSq(Counts(h, text, dim), dim));
    assert norm > 0.0 ==> 0.0 / norm == 0.0;
  }

  // ----- bag of terms -----

  lemma {:induction false} CountConcat(a: seq<nat>, b: seq<nat>, j: nat)
    ensures Count(a + b, j) == Count(a, j) + Count(b, j)
  {
    if b == [] {
      assert a + b == a;
    } else {
      CountConcat(a, b[..|b| - 1], j);
      assert (a + b)[..|a + b| - 1] == a + b[..|b| - 1];
    }
  }

  /** Hits of bucket `j` summed over a set of terms. */
  ghost function BagHits(h: Platform, terms: set<string>, dim: nat, j: nat): nat
    requires dim > 0
  {
    if terms == {} then 0
    else
      var t :| t in terms;
      Count(DigestBuckets(h.sha256(t), CHUNKS, dim), j) + BagHits(h, terms - {t}, dim, j)
  }

  lemma {:induction false} BagHitsRemove(h: Platform, terms: set<string>, t: string, dim: nat, j: nat)
    requires dim > 0 && t in terms
    ensures BagHits(h, terms, dim, j)
         == Count(DigestBuckets(h.sha256(t), CHUNKS, dim), j) + BagHits(h, terms - {t}, dim, j)
  {
    var u :| u in terms && BagHits(h, terms, dim, j)
                        == Count(DigestBuckets(h.sha256(u), CHUNKS, dim), j) + BagHits(h, terms - {u}, dim, j);
    if u != t {
      BagHitsRemove(h, terms - {u}, t, dim, j);
      BagHitsRemove(h, terms - {t}, u, dim, j);
      assert terms - {u} - {t} == terms - {t} - {u};
    }
  }

  lemma {:induction false} CountIsBagHits(h: Platform, terms: seq<string>, dim: nat, j: nat)
    requires dim > 0 && NoDuplicates(terms)
    ensures Count(Buckets(h, terms, dim), j) == BagHits(h, (set t | t in terms), dim, j)
  {
    if terms == [] {
      assert (set t | t in terms) == {};
    } else {
      var front, last := terms[..|terms| - 1], terms[|terms| - 1];
      CountIsBagHits(h, front, dim, j);
      CountConcat(Buckets(h, front, dim), DigestBuckets(h.sha256(last), CHUNKS, dim), j);
      assert (set t | t in front) == (set t | t in terms) - {last} by {
        assert forall t :: t in terms <==> t in front || t == last;
      }
      BagHitsRemove(h, (set t | t in terms), last, dim, j);
    }
  }

  /**
   * Word order and repetition never change an embedding: two texts with the same set of terms, each with
   * at most 256 of them, have the same embedding.
   */
  lemma BagOfTerms(h: Platform, text: string, other: string, dim: nat)
    requires dim > 0
    requires |Distinct(AllTokens(h.lower, text))| <= TOKEN_CAP
    requires forall t :: t in AllTokens(h.lower, text) <==> t in AllTokens(h.lower, other)
    ensures Embedding(h, text, dim) == Embedding(h, other, dim)
    ensures EmbedBits(h, text, dim) == EmbedBits(h, other, dim)
  {
    var a, b := Distinct(AllTokens(h.lower, text)), Distinct(AllTokens(h.lower, other));
    DistinctIsExact(AllTokens(h.lower, text));
    DistinctIsExact(AllTokens(h.lower, other));
    assert (set t | t in a) == (set t | t in b) by {
      assert forall t :: t in a <==> t in b;
    }
    DistinctCount(a);
    DistinctCount(b);
    var c, d := Counts(h, text, dim), Counts(h, other, dim);
    forall j | 0 <= j < dim
      ensures c[j] == d[j]
    {
      CountIsBagHits(h, a, dim, j);
      CountIsBagHits(h, b, dim, j);
    }
    assert c == d;
  }
}
