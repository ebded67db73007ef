/** `f32` values: bit patterns for what is stored, extended reals for what is computed. */
module Floats {

  /** A binary32 bit pattern (section 3.4 of IEEE 754-2008). */
  type F32 = x: int | 0 <= x < 0x1_0000_0000

  predicate IsFinite(x: F32) { (x / 0x80_0000) % 256 != 255 }

  predicate AllFinite(v: seq<F32>) { forall i | 0 <= i < |v| :: IsFinite(v[i]) }

  function Pow2(e: int): real
    decreases if e < 0 then -e else e
  {
    if e == 0 then 1.0 else if e > 0 then 2.0 * Pow2(e - 1) else Pow2(e + 1) / 2.0
  }

  /** The real number a finite pattern stands for. */
  function ValueOf(x: F32): real {
    var exponent := (x / 0x80_0000) % 256;
    var fraction := x % 0x80_0000;
    var magnitude :=
      if exponent == 0 then fraction as real * Pow2(-149)
      else (fraction + 0x80_0000) as real * Pow2(exponent - 150);
    if x < 0x8000_0000 then magnitude else -magnitude
  }

  function Values(v: seq<F32>): (r: seq<real>)
    ensures |r| == |v|
  {
    seq(|v|, i requires 0 <= i < |v| => ValueOf(v[i]))
  }

  /** An f32 with its special values; the two zeros are one number. */
  datatype Float = Fin(r: real) | PosInf | NegInf | NaN

  function FloatOf(x: F32): Float {
    if IsFinite(x) then Fin(ValueOf(x))
    else if x % 0x80_0000 != 0 then NaN
    else if x < 0x8000_0000 then PosInf
    else NegInf
  }

  function FloatsOf(v: seq<F32>): (f: seq<Float>)
    ensures |f| == |v|
  {
    seq(|v|, i requires 0 <= i < |v| => FloatOf(v[i]))
  }

  /** A vector of numbers as f32 values. */
  function Fins(v: seq<real>): (f: seq<Float>)
    ensures |f| == |v|
  {
    seq(|v|, i requires 0 <= i < |v| => Fin(v[i]))
  }

  predicate IsInfinite(f: Float) { f.PosInf? || f.NegInf? }

  /** The number a finite value is. */
  function Finite(f: Float): real { if f.Fin? then f.r else 0.0 }

  function Whole(n: int): real { n as real }

  // ----- operations -----

  /** An f32 that a caller passes in: any special value, or a number of the finite range. */
  type Weight = f: Float | f.Fin? ==> -MAX_F32 <= f.r <= MAX_F32 witness NaN

  function Product(x: real, y: real): real { x * y }

  function Mul(round: real -> Float, a: Float, b: Float): Float {
    match (a, b)
    case (NaN, _) => NaN
    case (_, NaN) => NaN
    case (Fin(x), Fin(y)) => round(Product(x, y))
    case (_, _) =>
      if Sign(a) == 0 || Sign(b) == 0 then NaN
      else if Sign(a) == Sign(b) then PosInf else NegInf
  }

  function Sign(a: Float): int {
    match a
    case Fin(x) => if x > 0.0 then 1 else if x < 0.0 then -1 else 0
    case PosInf => 1
    case NegInf => -1
    case NaN => 0
  }

  function Add(round: real -> Float, a: Float, b: Float): Float {
    match (a, b)
    case (NaN, _) => NaN
    case (_, NaN) => NaN
    case (Fin(x), Fin(y)) => round(x + y)
    case (Fin(_), _) => b
    case (_, Fin(_)) => a
    case (_, _) => if a == b then a else NaN
  }

  /** `a < b` of `partial_cmp`; false whenever one side is NaN. */
  predicate Less(a: Float, b: Float) {
    match (a, b)
    case (Fin(x), Fin(y)) => x < y
    case (NegInf, Fin(_)) => true
    case (NegInf, PosInf) => true
    case (Fin(_), PosInf) => true
    case (_, _) => false
  }

  // ----- rounding -----

  function Rounded(round: real -> Float, r: real): real { Finite(round(r)) }

  /** The largest finite f32, and the magnitude from which rounding to nearest overflows. */
  const MAX_F32: real := 340282346638528859811704183484516925440.0

  const OVERFLOW: real := 340282356779733661637539395458142568448.0

  /** The smallest positive f32, 2^-149, and the smallest normal one, 2^-126. */
  const TINY: real := 1.0 / 713623846352979940529142984724747568191373312.0

  const MIN_NORMAL: real := 1.0 / 85070591730234615865843651857942052864.0

  /** The largest f32 below 2^64, and halfway to 2^64. */
  const ROOT_MAX: real := 18446742974197923840.0

  const ROOT_MID: real := 18446743523953737728.0

  /** Rounding never crosses `v`, as `v` is an f32 itself. */
  ghost predicate Keeps(round: real -> Float, v: real) {
    forall r: real | round(r).Fin? :: (r <= v ==> round(r).r <= v) && (r >= v ==> round(r).r >= v)
  }

  /** Integers of at most 24 bits are f32 values (section 3.3 of IEEE 754-2008). */
  ghost predicate KeepsIntegers(round: real -> Float) {
    forall n: int | -16_777_216 <= n <= 16_777_216 :: Keeps(round, Whole(n))
  }

  /** A result beyond the finite range is an infinity, every other one a finite number. */
  ghost predicate Overflows(round: real -> Float) {
    forall r: real ::
      && (r >= OVERFLOW ==> round(r) == PosInf)
      && (r <= -OVERFLOW ==> round(r) == NegInf)
      && (-OVERFLOW < r < OVERFLOW ==> round(r).Fin? && -MAX_F32 <= round(r).r <= MAX_F32)
  }

  /** No f32 lies between zero and `TINY`, and what is nearer to zero becomes zero. */
  ghost predicate Underflows(round: real -> Float) {
    forall r: real ::
      && (0.0 <= r < TINY / 2.0 ==> round(r) == Fin(0.0))
      && (round(r).Fin? && round(r).r > 0.0 ==> round(r).r >= TINY)
  }

  /** The relative error of a positive result in the normal range is at most 2^-24. */
  ghost predicate Accurate(round: real -> Float) {
    forall r: real | MIN_NORMAL <= r <= MAX_F32 ::
      round(r).Fin? && r - r / 16777216.0 <= round(r).r <= r + r / 16777216.0
  }

  /** What is assumed of rounding an exact result to the nearest f32 (sections 4.3.1 and 7.4 of IEEE 754-2008). */
  ghost predicate Rounding(round: real -> Float) {
    && Overflows(round) && Underflows(round) && Accurate(round)
    && Keeps(round, 0.0) && Keeps(round, TINY) && Keeps(round, 0.5) && KeepsIntegers(round)
    && (forall r: real | round(r).Fin? :: round(round(r).r) == round(r))
    && (forall r: real | 0.0 <= r < ROOT_MID :: Finite(round(r)) <= ROOT_MAX)
  }

  /** A larger exact result never gives a smaller f32. */
  ghost predicate Monotone(round: real -> Float) {
    forall x: real, y: real | x <= y :: !Less(round(y), round(x))
  }

  /** Computing without rounding. */
  function Exactly(r: real): Float { Fin(r) }

  lemma KeptWhole(round: real -> Float, n: int)
    requires Rounding(round) && -16_777_216 <= n <= 16_777_216
    ensures round(Whole(n)) == Fin(Whole(n))
  {
    assert Keeps(round, Whole(n));
  }

  /** The result of a non-negative operation: a non-negative number or an infinity. */
  lemma RoundsUp(round: real -> Float, r: real)
    requires Rounding(round) && r >= 0.0
    ensures round(r) == PosInf || (round(r).Fin? && round(r).r >= 0.0)
    ensures r == 0.0 ==> round(r) == Fin(0.0)
  {
  }

  // ----- powers of two -----

  lemma {:induction false} Pow2Positive(e: int)
    ensures Pow2(e) > 0.0
    decreases if e < 0 then -e else e
  {
    if e > 0 {
      Pow2Positive(e - 1);
    } else if e < 0 {
      Pow2Positive(e + 1);
    }
  }

  lemma Pow2Double(e: int)
    ensures Pow2(e + 1) == 2.0 * Pow2(e)
  {
  }

  lemma {:induction false} Pow2Sum(e: int, n: nat)
    ensures Pow2(e + n) == Pow2(e) * Pow2(n)
  {
    if n > 0 {
      Pow2Sum(e, n - 1);
      Pow2Double(e + n - 1);
    }
  }

  lemma {:induction false} Pow2Monotone(e: int, n: nat)
    ensures Pow2(e) <= Pow2(e + n)
  {
    if n > 0 {
      Pow2Monotone(e, n - 1);
      Pow2Double(e + n - 1);
      Pow2Positive(e + n - 1);
    }
  }

  lemma {:induction false} Pow2Inverse(n: nat)
    ensures Pow2(0 - n) * Pow2(n) == 1.0
  {
    if n > 0 {
      Pow2Inverse(n - 1);
    }
  }

  lemma Pow2Values()
    ensures Pow2(1) == 2.0 && Pow2(2) == 4.0 && Pow2(4) == 16.0 && Pow2(8) == 256.0 && Pow2(16) == 65536.0
    ensures Pow2(32) == 4294967296.0 && Pow2(64) == 18446744073709551616.0
  {
    Pow2Sum(1, 1);
    Pow2Sum(2, 2);
    Pow2Sum(4, 4);
    Pow2Sum(8, 8);
    Pow2Sum(16, 16);
    Pow2Sum(32, 32);
  }
}
