/** Cosine similarity: over exact reals, and as the loop computes it in f32. */
module Similarity {
  import opened Prelude
  import opened Floats

  /** What is assumed of `f32::sqrt`, over exact reals. */
  ghost predicate SquareRoot(sqrt: real -> real) {
    forall x: real :: x >= 0.0 ==> sqrt(x) >= 0.0 && sqrt(x) * sqrt(x) == x
  }

  /** `f32::EPSILON`, 2^-23. */
  const EPSILON: real := 1.0 / 8388608.0

  function Clamp(x: real, lo: real, hi: real): real
    requires lo <= hi
  {
    if x < lo then lo else if x > hi then hi else x
  }

  /** Sum of the first `n` products. */
  function Dot(a: seq<real>, b: seq<real>, n: nat): real
    requires n <= |a| && n <= |b|
  {
    if n == 0 then 0.0 else Dot(a, b, n - 1) + a[n - 1] * b[n - 1]
  }

  function SumSq(a: seq<real>, n: nat): real
    requires n <= |a|
  {
    Dot(a, a, n)
  }

  function Denominator(sqrt: real -> real, a: seq<real>, b: seq<real>): real {
    var dim := Min(|a|, |b|);
    sqrt(SumSq(a, dim)) * sqrt(SumSq(b, dim))
  }

  function Quotient(dot: real, denom: real): real {
    if denom <= EPSILON then 0.0 else Clamp(dot / denom, -1.0, 1.0)
  }

  function Cosine(sqrt: real -> real, a: seq<real>, b: seq<real>): real {
    if a == [] || b == [] then 0.0 else Quotient(Dot(a, b, Min(|a|, |b|)), Denominator(sqrt, a, b))
  }

  /** `((cosine + 1) / 2).clamp(0, 1)` */
  function Normalise(cosine: real): real { Clamp((cosine + 1.0) / 2.0, 0.0, 1.0) }

  /** The vector score of recall. */
  function Score(sqrt: real -> real, a: seq<real>, b: seq<real>): real { Normalise(Cosine(sqrt, a, b)) }

  // ----- the cosine in f32 -----

  /** The f32 operations of the machine: the rounding of an exact result, and the exact square root. */
  datatype Arithmetic = Arithmetic(round: real -> Float, sqrt: real -> real)

  ghost predicate Ieee(f: Arithmetic) { Rounding(f.round) && Monotone(f.round) && SquareRoot(f.sqrt) }

  /** The running dot product of the loop. */
  function FloatDot(round: real -> Float, a: seq<Float>, b: seq<Float>, n: nat): Float
    requires n <= |a| && n <= |b|
  {
    if n == 0 then Fin(0.0) else Add(round, FloatDot(round, a, b, n - 1), Mul(round, a[n - 1], b[n - 1]))
  }

  /** `f32::sqrt` */
  function FloatSqrt(f: Arithmetic, x: Float): Float {
    match x
    case Fin(r) => if r < 0.0 then NaN else f.round(f.sqrt(r))
    case PosInf => PosInf
    case _ => NaN
  }

  /** `clamp(-1.0, 1.0)`, which a NaN passes. */
  function FloatClamp(x: Float): Float {
    match x
    case Fin(r) => Fin(Clamp(r, -1.0, 1.0))
    case PosInf => Fin(1.0)
    case NegInf => Fin(-1.0)
    case NaN => NaN
  }

  /** `dot / denom` for a denominator above zero. */
  function FloatDiv(round: real -> Float, dot: Float, denom: Float): Float
    requires denom.Fin? ==> denom.r > 0.0
  {
    if dot.NaN? || denom.NaN? || (!dot.Fin? && !denom.Fin?) then NaN
    else if !denom.Fin? then Fin(0.0)
    else if !dot.Fin? then dot
    else round(dot.r / denom.r)
  }

  /** `if denom <= EPSILON { 0.0 } else { (dot / denom).clamp(-1.0, 1.0) }`; a NaN fails the comparison. */
  function FloatQuotient(round: real -> Float, dot: Float, denom: Float): Float {
    if denom.NegInf? || (denom.Fin? && denom.r <= EPSILON) then Fin(0.0)
    else FloatClamp(FloatDiv(round, dot, denom))
  }

  function FloatDenominator(f: Arithmetic, a: seq<Float>, b: seq<Float>): Float {
    var dim := Min(|a|, |b|);
    Mul(f.round, FloatSqrt(f, FloatDot(f.round, a, a, dim)), FloatSqrt(f, FloatDot(f.round, b, b, dim)))
  }

  function FloatCosine(f: Arithmetic, a: seq<Float>, b: seq<Float>): Float {
    if a == [] || b == [] then Fin(0.0)
    else FloatQuotient(f.round, FloatDot(f.round, a, b, Min(|a|, |b|)), FloatDenominator(f, a, b))
  }

  /** `((cosine + 1.0) / 2.0).clamp(0.0, 1.0)` of a finite cosine. */
  function FloatNormalise(round: real -> Float, cosine: real): real {
    Clamp(Finite(round(Finite(round(cosine + 1.0)) / 2.0)), 0.0, 1.0)
  }

  method CosineSimilarity(f: Arithmetic, a: seq<Float>, b: seq<Float>) returns (r: Float)
    ensures r == FloatCosine(f, a, b)
  {
    if a == [] || b == [] {
      return Fin(0.0);
    }
    var dim := Min(|a|, |b|);
    var dot, normA, normB := Fin(0.0), Fin(0.0), Fin(0.0);
    for idx := 0 to dim
      invariant dot == FloatDot(f.round, a, b, idx)
      invariant normA == FloatDot(f.round, a, a, idx) && normB == FloatDot(f.round, b, b, idx)
    {
      dot := Add(f.round, dot, Mul(f.round, a[idx], b[idx]));
      normA := Add(f.round, normA, Mul(f.round, a[idx], a[idx]));
      normB := Add(f.round, normB, Mul(f.round, b[idx], b[idx]));
    }
    var denom := Mul(f.round, FloatSqrt(f, normA), FloatSqrt(f, normB));
    r := FloatQuotient(f.round, dot, denom);
  }

  // ----- Cauchy-Schwarz -----

  lemma {:induction false} SumSqNonNegative(a: seq<real>, n: nat)
    requires n <= |a|
    ensures SumSq(a, n) >= 0.0
  {
    if n > 0 {
      SumSqNonNegative(a, n - 1);
      SquareNonNegative(a[n - 1]);
    }
  }

  lemma SquareNonNegative(x: real)
    ensures x * x >= 0.0
  {
  }

  lemma ProductNonNegative(x: real, y: real)
    requires x >= 0.0 && y >= 0.0
    ensures x * y >= 0.0
  {
  }

  lemma SquaresMonotone(x: real, y: real)
    requires x > y >= 0.0
    ensures x * x > y * y
  {
    assert x * x - y * y == (x - y) * (x + y);
    PositiveProduct(x - y, x + y);
  }

  lemma PositiveProduct(x: real, y: real)
    requires x > 0.0 && y > 0.0
    ensures x * y > 0.0
  {
  }

  lemma LessBySquares(x: real, y: real)
    requires y >= 0.0 && x * x <= y * y
    ensures x <= y
  {
    if x > y {
      SquaresMonotone(x, y);
    }
  }

  /** If `r * r <= p * q` for non-negative `p` and `q` then `2 r <= p + q`. */
  lemma MeanInequality(p: real, q: real, r: real)
    requires p >= 0.0 && q >= 0.0 && r * r <= p * q
    ensures 2.0 * r <= p + q
  {
    SquareNonNegative(p - q);
    assert (p - q) * (p - q) == (p + q) * (p + q) - 4.0 * (p * q);
    assert (2.0 * r) * (2.0 * r) == 4.0 * (r * r);
    LessBySquares(2.0 * r, p + q);
  }

  lemma CauchyStep(d: real, p: real, q: real, x: real, y: real)
    requires p >= 0.0 && q >= 0.0 && d * d <= p * q
    ensures (d + x * y) * (d + x * y) <= (p + x * x) * (q + y * y)
  {
    var u, v, r := p * (y * y), q * (x * x), d * (x * y);
    SquareNonNegative(x);
    SquareNonNegative(y);
    SquareNonNegative(x * y);
    ProductNonNegative(p, y * y);
    ProductNonNegative(q, x * x);
    assert r * r <= u * v by {
      assert r * r == (d * d) * ((x * y) * (x * y));
      assert u * v == (p * q) * ((x * y) * (x * y));
      ProductNonNegative(p * q - d * d, (x * y) * (x * y));
      assert (p * q - d * d) * ((x * y) * (x * y)) == u * v - r * r;
    }
    MeanInequality(u, v, r);
    assert (d + x * y) * (d + x * y) == d * d + 2.0 * r + (x * y) * (x * y);
    assert (p + x * x) * (q + y * y) == p * q + u + v + (x * x) * (y * y);
    assert (x * x) * (y * y) == (x * y) * (x * y);
  }

  /** The Cauchy-Schwarz inequality. */
  lemma {:induction false} CauchySchwarz(a: seq<real>, b: seq<real>, n: nat)
    requires n <= |a| && n <= |b|
    ensures Dot(a, b, n) * Dot(a, b, n) <= SumSq(a, n) * SumSq(b, n)
  {
    if n > 0 {
      CauchySchwarz(a, b, n - 1);
      SumSqNonNegative(a, n - 1);
      SumSqNonNegative(b, n - 1);
      CauchyStep(Dot(a, b, n - 1), SumSq(a, n - 1), SumSq(b, n - 1), a[n - 1], b[n - 1]);
    }
  }

  lemma SquareBound(d: real, e: real)
    requires e >= 0.0 && d * d <= e * e
    ensures -e <= d <= e
  {
    LessBySquares(d, e);
    assert (-d) * (-d) == d * d;
    LessBySquares(-d, e);
  }

  lemma QuotientBound(d: real, e: real)
    requires e > 0.0 && -e <= d <= e
    ensures -1.0 <= d / e <= 1.0
  {
    assert (d / e) * e == d;
  }

  /** The clamp of the cosine to [-1, 1] never acts. */
  lemma CosineNeedsNoClamp(sqrt: real -> real, a: seq<real>, b: seq<real>)
    requires SquareRoot(sqrt)
    ensures Denominator(sqrt, a, b) > EPSILON ==>
              -1.0 <= Dot(a, b, Min(|a|, |b|)) / Denominator(sqrt, a, b) <= 1.0
    ensures a != [] && b != [] && Denominator(sqrt, a, b) > EPSILON ==>
              Cosine(sqrt, a, b) == Dot(a, b, Min(|a|, |b|)) / Denominator(sqrt, a, b)
  {
    var n := Min(|a|, |b|);
    var p, q, d, e := SumSq(a, n), SumSq(b, n), Dot(a, b, n), Denominator(sqrt, a, b);
    if e > EPSILON {
      SumSqNonNegative(a, n);
      SumSqNonNegative(b, n);
      CauchySchwarz(a, b, n);
      SquareOfProduct(sqrt(p), sqrt(q));
      SquareBound(d, e);
      QuotientBound(d, e);
    }
  }

  lemma SquareOfProduct(x: real, y: real)
    ensures (x * y) * (x * y) == (x * x) * (y * y)
  {
  }

  // ----- what the cosine is -----

  /** The dot product is linear: with `UnitDot`, these two facts leave no other function. */
  lemma {:induction false} LinearDot(a: seq<real>, b: seq<real>, c: seq<real>, d: seq<real>, x: real, y: real, n: nat)
    requires n <= |a| == |b| == |c| && n <= |d|
    requires forall j | 0 <= j < |a| :: c[j] == x * a[j] + y * b[j]
    ensures Dot(c, d, n) == x * Dot(a, d, n) + y * Dot(b, d, n)
  {
    if n > 0 {
      LinearDot(a, b, c, d, x, y, n - 1);
      LinearTerm(x, a[n - 1], y, b[n - 1], d[n - 1]);
      LinearSum(x, Dot(a, d, n - 1), a[n - 1] * d[n - 1]);
      LinearSum(y, Dot(b, d, n - 1), b[n - 1] * d[n - 1]);
    }
  }

  lemma LinearTerm(x: real, a: real, y: real, b: real, d: real)
    ensures (x * a + y * b) * d == x * (a * d) + y * (b * d)
  {
  }

  lemma LinearSum(x: real, s: real, t: real)
    ensures x * (s + t) == x * s + x * t
  {
  }

  /** The dot product with a unit vector is the entry it points at. */
  lemma {:induction false} UnitDot(a: seq<real>, d: seq<real>, i: nat, n: nat)
    requires i < |a| && n <= |a| && n <= |d| && forall j | 0 <= j < |a| :: a[j] == if j == i then 1.0 else 0.0
    ensures Dot(a, d, n) == if i < n then d[i] else 0.0
  {
    if n > 0 {
      UnitDot(a, d, i, n - 1);
    }
  }

  /** The cosine without roots: its square against the squared norms, and its sign. */
  lemma CosineMeans(sqrt: real -> real, a: seq<real>, b: seq<real>)
    requires SquareRoot(sqrt)
    ensures var n, c := Min(|a|, |b|), Cosine(sqrt, a, b);
            if SumSq(a, n) * SumSq(b, n) > EPSILON * EPSILON
            then (c * c) * (SumSq(a, n) * SumSq(b, n)) == Dot(a, b, n) * Dot(a, b, n)
                 && (c >= 0.0 <==> Dot(a, b, n) >= 0.0)
            else c == 0.0
  {
    var n := Min(|a|, |b|);
    var p, q, d, e := SumSq(a, n), SumSq(b, n), Dot(a, b, n), Denominator(sqrt, a, b);
    SumSqNonNegative(a, n);
    SumSqNonNegative(b, n);
    SquareOfProduct(sqrt(p), sqrt(q));
    ProductNonNegative(sqrt(p), sqrt(q));
    CosineNeedsNoClamp(sqrt, a, b);
    AboveEpsilon(e, p * q);
    if e > EPSILON {
      CosineSquared(d, e, p * q);
    }
  }

  /** The score maps [-1, 1] onto [0, 1]; its clamp never acts. */
  lemma ScoreMeans(sqrt: real -> real, a: seq<real>, b: seq<real>)
    requires SquareRoot(sqrt)
    ensures Score(sqrt, a, b) == (1.0 + Cosine(sqrt, a, b)) / 2.0
  {
    CosineNeedsNoClamp(sqrt, a, b);
  }

  lemma AboveEpsilon(e: real, square: real)
    requires e >= 0.0 && e * e == square
    ensures e > EPSILON <==> square > EPSILON * EPSILON
  {
    if e > EPSILON {
      SquaresMonotone(e, EPSILON);
    } else {
      SquareBelow(e, EPSILON);
    }
  }

  lemma SquareBelow(x: real, y: real)
    requires 0.0 <= x <= y
    ensures x * x <= y * y
  {
    ProductNonNegative(y - x, y + x);
    assert (y - x) * (y + x) == y * y - x * x;
  }

  lemma CosineSquared(d: real, e: real, square: real)
    requires e > 0.0 && e * e == square
    ensures ((d / e) * (d / e)) * square == d * d
    ensures d / e >= 0.0 <==> d >= 0.0
  {
    var c := d / e;
    assert c * e == d;
    SquareOfProduct(c, e);
    if d < 0.0 && c >= 0.0 {
      ProductNonNegative(c, e);
      assert false;
    }
    if d >= 0.0 {
      QuotientSign(d, e);
    }
  }

  // ----- scores of embeddings -----

  ghost predicate NonNegative(a: seq<real>) { forall i | 0 <= i < |a| :: a[i] >= 0.0 }

  lemma {:induction false} DotNonNegative(a: seq<real>, b: seq<real>, n: nat)
    requires n <= |a| && n <= |b| && NonNegative(a) && NonNegative(b)
    ensures Dot(a, b, n) >= 0.0
  {
    if n > 0 {
      DotNonNegative(a, b, n - 1);
      ProductNonNegative(a[n - 1], b[n - 1]);
    }
  }

  lemma {:induction false} DotSymmetric(a: seq<real>, b: seq<real>, n: nat)
    requires n <= |a| && n <= |b|
    ensures Dot(a, b, n) == Dot(b, a, n)
  {
    if n > 0 {
      DotSymmetric(a, b, n - 1);
    }
  }

  lemma ScoreSymmetric(sqrt: real -> real, a: seq<real>, b: seq<real>)
    ensures Score(sqrt, a, b) == Score(sqrt, b, a)
    ensures 0.0 <= Score(sqrt, a, b) <= 1.0
  {
    DotSymmetric(a, b, Min(|a|, |b|));
    assert Min(|a|, |b|) == Min(|b|, |a|);
    assert Denominator(sqrt, a, b) == Denominator(sqrt, b, a);
  }

  /** Two vectors without negative entries score at least one half. */
  lemma NonNegativeScore(sqrt: real -> real, a: seq<real>, b: seq<real>)
    requires SquareRoot(sqrt) && NonNegative(a) && NonNegative(b)
    ensures 0.5 <= Score(sqrt, a, b) <= 1.0
  {
    CosineNeedsNoClamp(sqrt, a, b);
    var n := Min(|a|, |b|);
    DotNonNegative(a, b, n);
    if Denominator(sqrt, a, b) > EPSILON {
      QuotientSign(Dot(a, b, n), Denominator(sqrt, a, b));
    }
  }

  lemma QuotientSign(d: real, e: real)
    requires d >= 0.0 && e > 0.0
    ensures d / e >= 0.0
  {
  }

  /** A vector scores 1 against itself exactly when its squared norm exceeds `EPSILON`. */
  lemma SelfScore(sqrt: real -> real, a: seq<real>)
    requires SquareRoot(sqrt)
    ensures Score(sqrt, a, a) == if SumSq(a, |a|) > EPSILON then 1.0 else 0.5
  {
    SumSqNonNegative(a, |a|);
    var s := SumSq(a, |a|);
    assert Denominator(sqrt, a, a) == s;
    if s > EPSILON {
      assert s / s == 1.0;
    }
  }

  // ----- what the f32 loop computes -----

  lemma {:induction false} DotOverReals(a: seq<real>, b: seq<real>, n: nat)
    requires n <= |a| && n <= |b|
    ensures FloatDot(Exactly, Fins(a), Fins(b), n) == Fin(Dot(a, b, n))
  {
    if n > 0 {
      DotOverReals(a, b, n - 1);
    }
  }

  lemma DenominatorOverReals(sqrt: real -> real, a: seq<real>, b: seq<real>)
    requires SquareRoot(sqrt)
    ensures FloatDenominator(Arithmetic(Exactly, sqrt), Fins(a), Fins(b)) == Fin(Denominator(sqrt, a, b))
  {
    var n := Min(|a|, |b|);
    DotOverReals(a, a, n);
    DotOverReals(b, b, n);
    SumSqNonNegative(a, n);
    SumSqNonNegative(b, n);
  }

  /** Without rounding the loop computes the cosine over exact reals. */
  lemma CosineOverReals(sqrt: real -> real, a: seq<real>, b: seq<real>)
    requires SquareRoot(sqrt)
    ensures FloatCosine(Arithmetic(Exactly, sqrt), Fins(a), Fins(b)) == Fin(Cosine(sqrt, a, b))
  {
    DotOverReals(a, b, Min(|a|, |b|));
    DenominatorOverReals(sqrt, a, b);
    QuotientOverReals(Dot(a, b, Min(|a|, |b|)), Denominator(sqrt, a, b));
  }

  lemma QuotientOverReals(dot: real, denom: real)
    ensures FloatQuotient(Exactly, Fin(dot), Fin(denom)) == Fin(Quotient(dot, denom))
  {
  }

  /** A squared norm in f32: not negative, and zero, an f32 of at least `TINY`, infinite or NaN. */
  predicate IsNorm(x: Float) {
    x.NaN? || x.PosInf? || (x.Fin? && (x.r == 0.0 || TINY <= x.r <= MAX_F32))
  }

  lemma SquareIsNorm(round: real -> Float, x: Float)
    requires Rounding(round)
    ensures IsNorm(Mul(round, x, x))
  {
    if x.Fin? {
      SquareNonNegative(x.r);
      RoundsUp(round, x.r * x.r);
    }
  }

  lemma SumIsNorm(round: real -> Float, x: Float, y: Float)
    requires Rounding(round) && IsNorm(x) && IsNorm(y)
    ensures IsNorm(Add(round, x, y)) && (Add(round, x, y).Fin? ==> x.Fin? && y.Fin?)
  {
    if x.Fin? && y.Fin? {
      RoundsUp(round, x.r + y.r);
    }
  }

  lemma {:induction false} NormShape(round: real -> Float, a: seq<Float>, n: nat)
    requires Rounding(round) && n <= |a|
    ensures IsNorm(FloatDot(round, a, a, n))
    ensures FloatDot(round, a, a, n).Fin? ==> forall i | 0 <= i < n :: Mul(round, a[i], a[i]).Fin?
  {
    if n > 0 {
      NormShape(round, a, n - 1);
      SquareIsNorm(round, a[n - 1]);
      SumIsNorm(round, FloatDot(round, a, a, n - 1), Mul(round, a[n - 1], a[n - 1]));
    }
  }

  /** When the squares of two numbers do not overflow, neither does their product. */
  lemma SmallProduct(round: real -> Float, x: Float, y: Float)
    requires Rounding(round) && Mul(round, x, x).Fin? && Mul(round, y, y).Fin?
    ensures Mul(round, x, y).Fin?
  {
    ProductBetween(x.r, y.r);
  }

  lemma ProductBetween(x: real, y: real)
    requires x * x < OVERFLOW && y * y < OVERFLOW
    ensures -OVERFLOW < x * y < OVERFLOW
  {
    TwiceTheProduct(x, y, x * x, y * y, x * y);
  }

  lemma TwiceTheProduct(x: real, y: real, p: real, q: real, r: real)
    requires p == x * x && q == y * y && r == x * y
    ensures -(p + q) <= 2.0 * r <= p + q
  {
    Binomials(x, y, p, q, r);
    SquareNonNegative(x + y);
    SquareNonNegative(x - y);
  }

  lemma Binomials(x: real, y: real, p: real, q: real, r: real)
    requires p == x * x && q == y * y && r == x * y
    ensures (x + y) * (x + y) == p + 2.0 * r + q
    ensures (x - y) * (x - y) == p - 2.0 * r + q
  {
  }

  /** With finite norms every product is finite, so the dot product may overflow but is never NaN. */
  lemma {:induction false} DotIsNumber(round: real -> Float, a: seq<Float>, b: seq<Float>, n: nat)
    requires Rounding(round) && n <= |a| && n <= |b|
    requires FloatDot(round, a, a, n).Fin? && FloatDot(round, b, b, n).Fin?
    ensures !FloatDot(round, a, b, n).NaN?
  {
    if n > 0 {
      NormShape(round, a, n);
      NormShape(round, b, n);
      SmallProduct(round, a[n - 1], b[n - 1]);
      DotIsNumber(round, a, b, n - 1);
      AddIsNumber(round, FloatDot(round, a, b, n - 1), Mul(round, a[n - 1], b[n - 1]));
    }
  }

  lemma AddIsNumber(round: real -> Float, x: Float, y: Float)
    requires Rounding(round) && !x.NaN? && y.Fin?
    ensures !Add(round, x, y).NaN?
  {
  }

  /** The root of a squared norm: zero, positive, infinite or NaN with it, and at most `ROOT_MAX` when finite. */
  lemma RootOfNorm(f: Arithmetic, x: Float)
    requires Ieee(f) && IsNorm(x)
    ensures var r := FloatSqrt(f, x);
            if x.Fin? then r.Fin? && 0.0 <= r.r <= ROOT_MAX && (r.r == 0.0 <==> x.r == 0.0) else r == x
  {
    if x.Fin? {
      var r := f.sqrt(x.r);
      LessBySquares(r, ROOT_MID);
      RootBelow(r, x.r);
      RoundsUp(f.round, r);
    }
  }

  lemma RootBelow(r: real, x: real)
    requires r >= 0.0 && r * r == x && (x == 0.0 || x >= TINY)
    ensures if x == 0.0 then r == 0.0 else r >= TINY
  {
    if x == 0.0 && r > 0.0 {
      PositiveResult(r, r, x);
    }
    if x >= TINY && r < TINY {
      ProductBelow(r, r, TINY);
    }
  }

  /** The product of two finite roots never overflows. */
  lemma DenominatorFits(round: real -> Float, x: real, y: real)
    requires Rounding(round) && 0.0 <= x <= ROOT_MAX && 0.0 <= y <= ROOT_MAX
    ensures Mul(round, Fin(x), Fin(y)).Fin? && Mul(round, Fin(x), Fin(y)).r >= 0.0
  {
    ProductNonNegative(x, y);
    ProductNonNegative(ROOT_MAX - x, y);
    ProductNonNegative(ROOT_MAX, ROOT_MAX - y);
    assert (ROOT_MAX - x) * y + ROOT_MAX * (ROOT_MAX - y) == ROOT_MAX * ROOT_MAX - x * y;
    RoundsUp(round, x * y);
  }

  /** The denominator from the two squared norms. */
  lemma DenominatorShape(f: Arithmetic, x: Float, y: Float)
    requires Ieee(f) && IsNorm(x) && IsNorm(y)
    ensures var d := Mul(f.round, FloatSqrt(f, x), FloatSqrt(f, y));
            if x.Fin? && y.Fin? then d.Fin? && d.r >= 0.0
            else if x.NaN? || y.NaN? || x == Fin(0.0) || y == Fin(0.0) then d.NaN?
            else d.PosInf?
  {
    RootOfNorm(f, x);
    RootOfNorm(f, y);
    if x.Fin? && y.Fin? {
      DenominatorFits(f.round, FloatSqrt(f, x).r, FloatSqrt(f, y).r);
    }
  }

  lemma QuotientFiniteIff(round: real -> Float, dot: Float, denom: Float)
    requires Rounding(round) && !denom.NegInf?
    ensures denom.Fin? && !dot.NaN? ==> FloatQuotient(round, dot, denom).Fin?
    ensures denom.NaN? ==> FloatQuotient(round, dot, denom).NaN?
    ensures denom.PosInf? ==> FloatQuotient(round, dot, denom) == if dot.Fin? then Fin(0.0) else NaN
  {
  }

  /** Both squared norms are finite in f32, or one is infinite, neither is zero or NaN, and the dot product is
      finite. */
  predicate CosineSurvives(round: real -> Float, a: seq<Float>, b: seq<Float>) {
    var n := Min(|a|, |b|);
    var x, y := FloatDot(round, a, a, n), FloatDot(round, b, b, n);
    || (x.Fin? && y.Fin?)
    || (!x.NaN? && !y.NaN? && x != Fin(0.0) && y != Fin(0.0) && FloatDot(round, a, b, n).Fin?)
  }

  /** Exactly when the cosine is a number, whatever the entries are; after an overflow that number is 0. */
  lemma CosineFiniteIff(f: Arithmetic, a: seq<Float>, b: seq<Float>)
    requires Ieee(f) && a != [] && b != []
    ensures FloatCosine(f, a, b).Fin? <==> CosineSurvives(f.round, a, b)
    ensures var n := Min(|a|, |b|);
            FloatCosine(f, a, b).Fin? && !(FloatDot(f.round, a, a, n).Fin? && FloatDot(f.round, b, b, n).Fin?) ==>
              FloatCosine(f, a, b) == Fin(0.0)
  {
    var n := Min(|a|, |b|);
    var x, y := FloatDot(f.round, a, a, n), FloatDot(f.round, b, b, n);
    NormShape(f.round, a, n);
    NormShape(f.round, b, n);
    DenominatorShape(f, x, y);
    QuotientFiniteIff(f.round, FloatDot(f.round, a, b, n), FloatDenominator(f, a, b));
    if x.Fin? && y.Fin? {
      DotIsNumber(f.round, a, b, n);
    }
  }

  lemma {:induction false} FloatDotSymmetric(round: real -> Float, a: seq<Float>, b: seq<Float>, n: nat)
    requires n <= |a| && n <= |b|
    ensures FloatDot(round, a, b, n) == FloatDot(round, b, a, n)
  {
    if n > 0 {
      FloatDotSymmetric(round, a, b, n - 1);
      MulSymmetric(round, a[n - 1], b[n - 1]);
    }
  }

  lemma MulSymmetric(round: real -> Float, x: Float, y: Float)
    ensures Mul(round, x, y) == Mul(round, y, x)
  {
    if x.Fin? && y.Fin? {
      ProductSymmetric(x.r, y.r);
    }
  }

  lemma ProductSymmetric(x: real, y: real)
    ensures Product(x, y) == Product(y, x)
  {
  }

  /** The f32 cosine is symmetric bit for bit. */
  lemma FloatCosineSymmetric(f: Arithmetic, a: seq<Float>, b: seq<Float>)
    ensures FloatCosine(f, a, b) == FloatCosine(f, b, a)
  {
    var n := Min(|a|, |b|);
    assert n == Min(|b|, |a|);
    FloatDotSymmetric(f.round, a, b, n);
    MulSymmetric(f.round, FloatSqrt(f, FloatDot(f.round, a, a, n)), FloatSqrt(f, FloatDot(f.round, b, b, n)));
  }

  /** The normalised score of a cosine that is not negative is at least one half. */
  lemma UpperHalf(round: real -> Float, cosine: real)
    requires Rounding(round) && 0.0 <= cosine <= 1.0
    ensures 0.5 <= FloatNormalise(round, cosine) <= 1.0
  {
    assert Keeps(round, Whole(1));
    assert Keeps(round, Whole(2));
  }

  ghost predicate NonNegativeFloats(a: seq<Float>) { forall i | 0 <= i < |a| :: a[i].Fin? && a[i].r >= 0.0 }

  lemma {:induction false} FloatDotNonNegative(round: real -> Float, a: seq<Float>, b: seq<Float>, n: nat)
    requires Rounding(round) && n <= |a| && n <= |b| && NonNegativeFloats(a) && NonNegativeFloats(b)
    ensures var d := FloatDot(round, a, b, n); d.PosInf? || (d.Fin? && d.r >= 0.0)
  {
    if n > 0 {
      FloatDotNonNegative(round, a, b, n - 1);
      AddNonNegative(round, FloatDot(round, a, b, n - 1), a[n - 1].r, b[n - 1].r);
    }
  }

  lemma AddNonNegative(round: real -> Float, d: Float, x: real, y: real)
    requires Rounding(round) && (d.PosInf? || (d.Fin? && d.r >= 0.0)) && x >= 0.0 && y >= 0.0
    ensures var s := Add(round, d, Mul(round, Fin(x), Fin(y))); s.PosInf? || (s.Fin? && s.r >= 0.0)
  {
    ProductNonNegative(x, y);
    RoundsUp(round, x * y);
    if d.Fin? && round(x * y).Fin? {
      RoundsUp(round, d.r + round(x * y).r);
    }
  }

  /** Two vectors without negative entries and with finite norms have a cosine in [0, 1] in f32. */
  lemma NonNegativeCosine(f: Arithmetic, a: seq<Float>, b: seq<Float>)
    requires Ieee(f) && a != [] && b != [] && NonNegativeFloats(a) && NonNegativeFloats(b)
    requires var n := Min(|a|, |b|); FloatDot(f.round, a, a, n).Fin? && FloatDot(f.round, b, b, n).Fin?
    ensures FloatCosine(f, a, b).Fin? && 0.0 <= FloatCosine(f, a, b).r <= 1.0
  {
    var n := Min(|a|, |b|);
    NormShape(f.round, a, n);
    NormShape(f.round, b, n);
    DenominatorShape(f, FloatDot(f.round, a, a, n), FloatDot(f.round, b, b, n));
    FloatDotNonNegative(f.round, a, b, n);
    NonNegativeQuotient(f.round, FloatDot(f.round, a, b, n), FloatDenominator(f, a, b).r);
  }

  lemma NonNegativeQuotient(round: real -> Float, dot: Float, denom: real)
    requires Rounding(round) && (dot.PosInf? || (dot.Fin? && dot.r >= 0.0))
    ensures var c := FloatQuotient(round, dot, Fin(denom)); c.Fin? && 0.0 <= c.r <= 1.0
  {
    if denom > EPSILON && dot.Fin? {
      QuotientSign(dot.r, denom);
      RoundsUp(round, dot.r / denom);
    }
  }

  // ----- a vector against itself -----

  /** The rounded root of a moderate squared norm squares back to it up to three roundings. */
  lemma RoundedRoot(f: Arithmetic, s: real)
    requires Ieee(f) && 0.125 <= s <= 16384.0
    ensures FloatSqrt(f, Fin(s)).Fin?
    ensures var r := FloatSqrt(f, Fin(s)).r;
            s - 3.0 * s / 16777216.0 <= Product(r, r) <= s + 3.0 * s / 16777216.0
  {
    var q := f.sqrt(s);
    RootRange(q, s);
    RoundedRange(f.round, q);
    NearSquare(q, f.round(q).r, s);
  }

  lemma RootRange(q: real, s: real)
    requires q >= 0.0 && q * q == s && 0.125 <= s <= 16384.0
    ensures 0.25 <= q <= 128.0
  {
    LessBySquares(0.25, q);
    LessBySquares(q, 128.0);
  }

  lemma RoundedRange(round: real -> Float, x: real)
    requires Rounding(round) && 0.0625 <= x <= 16777216.0
    ensures round(x).Fin? && x - x / 16777216.0 <= round(x).r <= x + x / 16777216.0
  {
  }

  /** A moderate squared norm `s` gives the denominator `s` up to the roundings of the root and of the product. */
  lemma SelfDenominator(f: Arithmetic, s: real)
    requires Ieee(f) && 0.125 <= s <= 16384.0
    ensures var d := Mul(f.round, FloatSqrt(f, Fin(s)), FloatSqrt(f, Fin(s)));
            d.Fin? && s / 2.0 <= d.r <= s + 5.0 * s / 16777216.0
  {
    RoundedRoot(f, s);
    RoundedRange(f.round, Product(FloatSqrt(f, Fin(s)).r, FloatSqrt(f, Fin(s)).r));
  }

  lemma NearSquare(q: real, r: real, s: real)
    requires q > 0.0 && q * q == s && q - q / 16777216.0 <= r <= q + q / 16777216.0
    ensures s - 3.0 * s / 16777216.0 <= Product(r, r) <= s + 3.0 * s / 16777216.0
  {
    var d := r - q;
    var e := q / 16777216.0;
    assert r * r == s + 2.0 * (q * d) + d * d;
    ProductBounds(q, d, e);
    ProductBounds(e, d, e);
    SquareWithin(d, e);
    assert q * e == s / 16777216.0;
    assert e * e == (s / 16777216.0) / 16777216.0;
  }

  lemma ProductBounds(q: real, d: real, e: real)
    requires q >= 0.0 && -e <= d <= e
    ensures -(q * e) <= q * d <= q * e
  {
    ProductNonNegative(q, e - d);
    ProductNonNegative(q, e + d);
    assert q * (e - d) == q * e - q * d && q * (e + d) == q * e + q * d;
  }

  lemma SquareWithin(d: real, e: real)
    requires -e <= d <= e
    ensures 0.0 <= d * d <= e * e
  {
    SquareNonNegative(d);
    ProductNonNegative(e - d, e + d);
    assert (e - d) * (e + d) == e * e - d * d;
  }

  /** A finite squared norm that is neither small nor large divided by its denominator is 1 up to six roundings. */
  lemma SelfQuotient(round: real -> Float, s: real, d: real)
    requires Rounding(round) && 0.125 <= s <= 16384.0 && s / 2.0 <= d <= s + 5.0 * s / 16777216.0
    ensures var c := FloatQuotient(round, Fin(s), Fin(d)); c.Fin? && 1.0 - 6.0 / 16777216.0 <= c.r <= 1.0
  {
    ShareOf(s, d);
  }

  lemma ShareOf(s: real, d: real)
    requires s > 0.0 && s / 2.0 <= d <= s + 5.0 * s / 16777216.0
    ensures 1.0 - 5.0 / 16777216.0 <= s / d <= 2.0
  {
    assert (s / d) * d == s;
    AtMost(s / d, 2.0, d, s, 2.0 * d);
    AtMost(1.0 - 5.0 / 16777216.0, s / d, d, d - 5.0 * d / 16777216.0, s);
  }

  lemma AtMost(x: real, y: real, d: real, xd: real, yd: real)
    requires d > 0.0 && x * d == xd && y * d == yd && xd <= yd
    ensures x <= y
  {
    if x > y {
      PositiveResult(x - y, d, xd - yd);
    }
  }

  lemma NearOne(round: real -> Float, cosine: real)
    requires Rounding(round) && 1.0 - 6.0 / 16777216.0 <= cosine <= 1.0
    ensures 1.0 - 1.0 / 2097152.0 <= FloatNormalise(round, cosine) <= 1.0
  {
    var sum := round(cosine + 1.0).r;
    assert 2.0 - 9.0 / 16777216.0 <= sum;
    assert 1.0 - 6.0 / 16777216.0 <= round(sum / 2.0).r;
  }

  /** In f32 a vector of moderate norm scores 1 against itself up to 2^-21. */
  lemma SelfScoreNearOne(f: Arithmetic, a: seq<Float>)
    requires Ieee(f) && a != [] && FloatDot(f.round, a, a, |a|).Fin?
    requires 0.125 <= FloatDot(f.round, a, a, |a|).r <= 16384.0
    ensures FloatCosine(f, a, a).Fin?
    ensures 1.0 - 1.0 / 2097152.0 <= FloatNormalise(f.round, FloatCosine(f, a, a).r) <= 1.0
  {
    var s := FloatDot(f.round, a, a, |a|).r;
    SelfDenominator(f, s);
    SelfQuotient(f.round, s, FloatDenominator(f, a, a).r);
    NearOne(f.round, FloatCosine(f, a, a).r);
  }

  // ----- arithmetic -----

  lemma ProductBelow(p: real, q: real, bound: real)
    requires 0.0 <= p < bound && 0.0 <= q < bound
    ensures p * q < bound * bound
  {
    ProductNonNegative(bound - p, q);
    PositiveProduct(bound, bound - q);
    assert bound * bound - p * q == (bound - p) * q + bound * (bound - q);
  }

  lemma PositiveResult(x: real, y: real, product: real)
    requires x > 0.0 && y > 0.0 && x * y == product
    ensures product > 0.0
  {
  }
}
