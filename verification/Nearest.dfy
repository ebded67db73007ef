/** Rounding to the nearest f32 with ties to even, and that it has every property the model assumes of rounding. */
module Nearest {
  import opened Floats

  // ----- to the nearest integer -----

  function NearestInteger(x: real): int {
    var n := x.Floor;
    if x < Whole(n) + 0.5 || (x == Whole(n) + 0.5 && n % 2 == 0) then n else n + 1
  }

  lemma NearestIntegerError(x: real)
    ensures x - 0.5 <= Whole(NearestInteger(x)) <= x + 0.5
  {
  }

  lemma NearestIntegerOrder(x: real, y: real)
    requires x <= y
    ensures NearestInteger(x) <= NearestInteger(y)
  {
  }

  lemma NearestIntegerExact(n: int)
    ensures NearestInteger(Whole(n)) == n
  {
  }

  // ----- to the nearest f32 -----

  /** The exponent of the last place of an f32 near `a`, searched from `e` down. */
  function LastPlace(a: real, e: int): (k: int)
    requires -149 <= e
    ensures -149 <= k <= e
    ensures k > -149 ==> a >= Pow2(k + 23)
    ensures k < e ==> a < Pow2(k + 24)
    decreases e + 149
  {
    if e > -149 && a < Pow2(e + 23) then LastPlace(a, e - 1) else e
  }

  /** `m` units of the last place `k`. */
  function Number(m: int, k: int): real { Times(m, Pow2(k)) }

  function Times(m: int, p: real): real { Whole(m) * p }

  function Units(a: real, k: int): int {
    Pow2Positive(k);
    NearestInteger(a / Pow2(k))
  }

  function NearestUp(a: real): Float {
    if a >= OVERFLOW then PosInf
    else
      var k := LastPlace(a, 104);
      Fin(Number(Units(a, k), k))
  }

  function Negated(f: Float): Float {
    match f
    case Fin(r) => Fin(-r)
    case PosInf => NegInf
    case NegInf => PosInf
    case NaN => NaN
  }

  /** A function on numbers that are not negative, mirrored at zero. */
  function Mirrored(up: real -> Float, r: real): Float {
    if r < 0.0 then Negated(up(-r)) else up(r)
  }

  /** roundTiesToEven to binary32 (section 4.3.1 of IEEE 754-2008). */
  function NearestEven(r: real): Float { Mirrored(NearestUp, r) }

  // ----- constants as powers -----

  lemma Powers()
    ensures Pow2(23) == 8388608.0 && Pow2(24) == 16777216.0 && Pow2(40) == 1099511627776.0
    ensures Pow2(104) == 20282409603651670423947251286016.0
    ensures Pow2(128) == 340282366920938463463374607431768211456.0
  {
    Pow2Values();
    Pow2Sum(16, 4);
    Pow2Sum(20, 2);
    Pow2Sum(22, 1);
    Pow2Sum(16, 8);
    Pow2Sum(32, 8);
    Pow2Sum(64, 40);
    Pow2Sum(64, 64);
  }

  lemma TinyPower()
    ensures Pow2(-149) == TINY && Number(8388608, -149) == MIN_NORMAL
  {
    Powers();
    Pow2Sum(128, 16);
    Pow2Sum(144, 4);
    Pow2Sum(148, 1);
    Pow2Sum(-149, 149);
  }

  // ----- the units of a number -----

  lemma Positive(x: real, y: real, product: real)
    requires x > 0.0 && y > 0.0 && x * y == product
    ensures product > 0.0
  {
  }

  /** Comparing quotients by comparing what they are quotients of. */
  lemma QuotientOrder(x: real, y: real, p: real, xp: real, yp: real)
    requires p > 0.0 && x * p == xp && y * p == yp
    ensures x <= y <==> xp <= yp
    ensures x < y <==> xp < yp
  {
    if x < y {
      Positive(y - x, p, yp - xp);
    } else if y < x {
      Positive(x - y, p, xp - yp);
    }
  }

  /** The last place lies 24 bits below the number, 23 above the smallest place. */
  lemma PlaceFacts(a: real)
    requires 0.0 <= a < OVERFLOW
    ensures var k := LastPlace(a, 104);
            var p := Pow2(k);
            && p > 0.0 && a < 16777216.0 * p && (k > -149 ==> 8388608.0 * p <= a)
            && (k == 104 ==> a < 16777215.5 * p)
  {
    var k := LastPlace(a, 104);
    Powers();
    Pow2Positive(k);
    Pow2Sum(k, 24);
    Pow2Sum(k, 23);
  }

  /** The units of a number: at most 2^24, 24 bits unless the place is the smallest, and off by half a unit at most. */
  lemma UnitsFacts(a: real)
    requires 0.0 <= a < OVERFLOW
    ensures UnitsFit(a, LastPlace(a, 104))
  {
    PlaceFacts(a);
    UnitsAt(a, LastPlace(a, 104));
  }

  predicate UnitsFit(a: real, k: int) {
    && 0 <= Units(a, k) <= 16777216 && (k > -149 ==> 8388608 <= Units(a, k)) && (k == 104 ==> Units(a, k) <= 16777215)
    && a - Pow2(k) / 2.0 <= Number(Units(a, k), k) <= a + Pow2(k) / 2.0
  }

  lemma UnitsAt(a: real, k: int)
    requires 0.0 <= a < 16777216.0 * Pow2(k)
    requires (k > -149 ==> 8388608.0 * Pow2(k) <= a) && (k == 104 ==> a < 16777215.5 * Pow2(k))
    ensures UnitsFit(a, k)
  {
    Pow2Positive(k);
    PlaceQuotient(a, Pow2(k), k > -149, k == 104);
    UnitsInRange(a / Pow2(k));
    UnitsError(a, Pow2(k));
  }

  lemma PlaceQuotient(a: real, p: real, narrow: bool, top: bool)
    requires p > 0.0 && 0.0 <= a < 16777216.0 * p
    requires (narrow ==> 8388608.0 * p <= a) && (top ==> a < 16777215.5 * p)
    ensures 0.0 <= a / p <= 16777216.0 && (narrow ==> 8388608.0 <= a / p) && (top ==> a / p < 16777215.5)
  {
    var x := a / p;
    assert x * p == a;
    QuotientOrder(0.0, x, p, 0.0, a);
    QuotientOrder(x, 16777216.0, p, a, 16777216.0 * p);
    QuotientOrder(8388608.0, x, p, 8388608.0 * p, a);
    QuotientOrder(x, 16777215.5, p, a, 16777215.5 * p);
  }

  lemma UnitsInRange(x: real)
    ensures 0.0 <= x <= 16777216.0 ==> 0 <= NearestInteger(x) <= 16777216
    ensures 8388608.0 <= x ==> 8388608 <= NearestInteger(x)
    ensures x < 16777215.5 ==> NearestInteger(x) <= 16777215
  {
  }

  lemma UnitsError(a: real, p: real)
    requires p > 0.0
    ensures a - p / 2.0 <= Whole(NearestInteger(a / p)) * p <= a + p / 2.0
  {
    var x := a / p;
    assert x * p == a;
    var m := Whole(NearestInteger(x));
    NearestIntegerError(x);
    assert (x - 0.5) * p == a - p / 2.0 && (x + 0.5) * p == a + p / 2.0;
    QuotientOrder(x - 0.5, m, p, a - p / 2.0, m * p);
    QuotientOrder(m, x + 0.5, p, m * p, a + p / 2.0);
  }

  // ----- one number at a time -----

  /** The numbers of at most 24 bits in a place from -149 to 104: the f32 values. */
  predicate IsNumber(m: int, k: int) { 0 <= m <= 16777216 && -149 <= k <= 104 && (k == 104 ==> m <= 16777215) }

  lemma ResultIsNumber(a: real)
    requires 0.0 <= a < OVERFLOW
    ensures var k := LastPlace(a, 104);
            IsNumber(Units(a, k), k) && NearestUp(a) == Fin(Number(Units(a, k), k))
  {
    UnitsFacts(a);
  }

  /** A wider place has larger numbers. */
  lemma NumberBelow(m: int, k: int, n: nat)
    requires 0 <= m <= 16777216
    ensures 0.0 <= Number(m, k) <= 16777216.0 * Pow2(k)
    ensures Number(m, k) <= 8388608.0 * Pow2(k + 1 + n)
  {
    Pow2Positive(k);
    Pow2Double(k);
    Pow2Monotone(k + 1, n);
    if m > 0 {
      Positive(Whole(m), Pow2(k), Number(m, k));
    }
    if m < 16777216 {
      Positive(16777216.0 - Whole(m), Pow2(k), 16777216.0 * Pow2(k) - Number(m, k));
    }
  }

  lemma NumberAtMostMax(m: int, k: int)
    requires IsNumber(m, k)
    ensures 0.0 <= Number(m, k) <= MAX_F32
  {
    Powers();
    if k == 104 {
      Pow2Positive(k);
      NumberBelow(m, k, 0);
    } else {
      NumberBelow(m, k, 104 - k - 1);
    }
  }

  /** f32 values are fixed. */
  lemma FixedNumber(m: int, j: int)
    requires IsNumber(m, j)
    ensures NearestUp(Number(m, j)) == Fin(Number(m, j))
  {
    NumberAtMostMax(m, j);
    PlaceFacts(Number(m, j));
    FixedAt(m, j, LastPlace(Number(m, j), 104));
  }

  lemma FixedAt(m: int, j: int, k: int)
    requires 0 <= m <= 16777216 && (k > j ==> 8388608.0 * Pow2(k) <= Number(m, j))
    ensures Number(Units(Number(m, j), k), k) == Number(m, j)
  {
    Pow2Positive(k);
    if k <= j {
      WholeUnits(m, j, k);
      var n: int :| Number(m, j) == Number(n, k);
      WholeQuotient(Number(m, j), Pow2(k), n);
    } else {
      NumberBelow(m, j, k - j - 1);
      assert Number(m, j) == Whole(8388608) * Pow2(k);
      WholeQuotient(Number(m, j), Pow2(k), 8388608);
    }
  }

  lemma WholeQuotient(a: real, p: real, m: int)
    requires p > 0.0 && a == Whole(m) * p
    ensures NearestInteger(a / p) == m
  {
    assert a / p == Whole(m);
    NearestIntegerExact(m);
  }

  /** Fewer, larger units are a whole number of smaller ones. */
  lemma {:induction false} WholeUnits(m: int, j: int, k: int)
    requires k <= j
    ensures exists n: int :: Number(m, j) == Number(n, k)
    decreases j - k
  {
    if j == k {
      assert Number(m, j) == Number(m, k);
    } else {
      WholeUnits(m, j, k + 1);
      var n: int :| Number(m, j) == Number(n, k + 1);
      Pow2Double(k);
      assert Whole(2 * n) == 2.0 * Whole(n);
      assert Number(n, k + 1) == Number(2 * n, k);
    }
  }

  // ----- no f32 is nearer -----

  function Distance(x: real, y: real): real { if x < y then y - x else x - y }

  lemma ClosestInteger(x: real, n: int)
    ensures Distance(Whole(NearestInteger(x)), x) <= Distance(Whole(n), x)
  {
    var f := x.Floor;
    NearerEnd(x, f);
    if n <= f {
      assert Whole(n) <= Whole(f);
    } else {
      assert Whole(n) >= Whole(f) + 1.0;
    }
  }

  lemma NearerEnd(x: real, f: int)
    requires f == x.Floor
    ensures Distance(Whole(NearestInteger(x)), x) <= x - Whole(f)
    ensures Distance(Whole(NearestInteger(x)), x) <= Whole(f) + 1.0 - x
  {
    assert Whole(f + 1) == Whole(f) + 1.0;
  }

  /** Distances scale. */
  lemma ScaledDistance(m: int, n: int, x: real, p: real, a: real)
    requires p > 0.0 && x * p == a && Distance(Whole(m), x) <= Distance(Whole(n), x)
    ensures Distance(Times(m, p), a) <= Distance(Times(n, p), a)
  {
    DistanceTimes(m, x, p, a);
    DistanceTimes(n, x, p, a);
    QuotientOrder(Distance(Whole(m), x), Distance(Whole(n), x), p, Distance(Times(m, p), a), Distance(Times(n, p), a));
  }

  lemma DistanceTimes(m: int, x: real, p: real, a: real)
    requires p > 0.0 && x * p == a
    ensures Distance(Whole(m), x) * p == Distance(Times(m, p), a)
  {
    QuotientOrder(Whole(m), x, p, Times(m, p), a);
  }

  lemma ClosestMultiple(a: real, p: real, n: int)
    requires p > 0.0
    ensures Distance(Times(NearestInteger(a / p), p), a) <= Distance(Times(n, p), a)
  {
    var x := a / p;
    assert x * p == a;
    ClosestInteger(x, n);
    ScaledDistance(NearestInteger(x), n, x, p, a);
  }

  /** Below the overflow, no f32 value is nearer to a number than the one it is rounded to. */
  lemma NearestIsClosest(a: real, n: int, j: int)
    requires 0.0 <= a < OVERFLOW && IsNumber(n, j)
    ensures NearestUp(a).Fin? && Distance(NearestUp(a).r, a) <= Distance(Number(n, j), a)
  {
    PlaceFacts(a);
    ClosestAt(a, LastPlace(a, 104), n, j);
  }

  lemma ClosestAt(a: real, k: int, n: int, j: int)
    requires k >= -149 && (k > -149 ==> 8388608.0 * Pow2(k) <= a) && IsNumber(n, j)
    ensures Distance(Number(Units(a, k), k), a) <= Distance(Number(n, j), a)
  {
    Pow2Positive(k);
    if j >= k {
      WholeUnits(n, j, k);
      var q: int :| Number(n, j) == Number(q, k);
      ClosestMultiple(a, Pow2(k), q);
    } else {
      NumberBelow(n, j, k - j - 1);
      ClosestMultiple(a, Pow2(k), 8388608);
    }
  }

  /** Ties go to even: the result is a number of 24 bits, and midway between two neighbours its last bit is zero. A
      negative number is rounded as its mirror image. */
  lemma TiesToEven(a: real) returns (m: int, k: int)
    requires 0.0 <= a < OVERFLOW
    ensures IsNumber(m, k) && (k > -149 ==> 8388608 <= m)
    ensures NearestEven(a) == Fin(Number(m, k)) && (a > 0.0 ==> NearestEven(-a) == Fin(-Number(m, k)))
    ensures Distance(Number(m, k), a) == 0.5 * Pow2(k) ==> m % 2 == 0
  {
    k := LastPlace(a, 104);
    m := Units(a, k);
    PlaceFacts(a);
    ResultIsNumber(a);
    UnitsAtLeast(a, k);
    if Distance(Number(m, k), a) == 0.5 * Pow2(k) {
      TieIsEven(a, k);
    }
  }

  lemma TieIsEven(a: real, k: int)
    requires Pow2(k) > 0.0 && Distance(Number(Units(a, k), k), a) == 0.5 * Pow2(k)
    ensures Units(a, k) % 2 == 0
  {
    var p := Pow2(k);
    QuotientTimes(a, p);
    ScaledTie(a / p, p, a);
  }

  lemma QuotientTimes(a: real, p: real)
    requires p > 0.0
    ensures (a / p) * p == a
  {
  }

  lemma ScaledTie(x: real, p: real, a: real)
    requires p > 0.0 && x * p == a && Distance(Times(NearestInteger(x), p), a) == 0.5 * p
    ensures NearestInteger(x) % 2 == 0
  {
    DistanceTimes(NearestInteger(x), x, p, a);
    HalfOf(Distance(Whole(NearestInteger(x)), x), p, 0.5 * p);
  }

  lemma UnitsAtLeast(a: real, k: int)
    requires Pow2(k) > 0.0 && (k > -149 ==> 8388608.0 * Pow2(k) <= a)
    ensures k > -149 ==> 8388608 <= Units(a, k)
  {
    if k > -149 {
      var x := a / Pow2(k);
      assert x * Pow2(k) == a;
      QuotientOrder(8388608.0, x, Pow2(k), 8388608.0 * Pow2(k), a);
      NearestIntegerOrder(8388608.0, x);
      NearestIntegerExact(8388608);
    }
  }

  lemma HalfOf(d: real, p: real, half: real)
    requires p > 0.0 && d * p == half == 0.5 * p
    ensures d == 0.5
  {
    QuotientOrder(d, 0.5, p, half, half);
  }

  // ----- two numbers -----

  /** The place of a smaller number is not larger. */
  lemma PlaceOrder(a: real, b: real, e: int)
    requires 0.0 <= a <= b && -149 <= e
    ensures LastPlace(a, e) <= LastPlace(b, e)
    decreases e + 149
  {
    if e > -149 && b < Pow2(e + 23) {
      PlaceOrder(a, b, e - 1);
    }
  }

  lemma UpIsMonotone(a: real, b: real)
    requires 0.0 <= a <= b
    ensures !Less(NearestUp(b), NearestUp(a))
  {
    if b < OVERFLOW {
      PlaceOrder(a, b, 104);
      UnitsFacts(a);
      UnitsFacts(b);
      UnitsOrder(a, b, LastPlace(a, 104), LastPlace(b, 104));
    }
  }

  lemma UnitsOrder(a: real, b: real, k: int, l: int)
    requires a <= b && -149 <= k <= l && UnitsFit(a, k) && UnitsFit(b, l)
    ensures Number(Units(a, k), k) <= Number(Units(b, l), l)
  {
    Pow2Positive(l);
    if k == l {
      SamePlaceOrder(a, b, Pow2(k));
    } else {
      NumberBelow(Units(a, k), k, l - k - 1);
      QuotientOrder(8388608.0, Whole(Units(b, l)), Pow2(l), 8388608.0 * Pow2(l), Number(Units(b, l), l));
    }
  }

  lemma SamePlaceOrder(a: real, b: real, p: real)
    requires a <= b && p > 0.0
    ensures Whole(NearestInteger(a / p)) * p <= Whole(NearestInteger(b / p)) * p
  {
    assert (a / p) * p == a && (b / p) * p == b;
    QuotientOrder(a / p, b / p, p, a, b);
    NearestIntegerOrder(a / p, b / p);
    var m, n := Whole(NearestInteger(a / p)), Whole(NearestInteger(b / p));
    QuotientOrder(m, n, p, m * p, n * p);
  }

  // ----- one result that is not negative -----

  lemma UpFacts(a: real)
    requires a >= 0.0
    ensures SoundAt(NearestUp, a)
  {
    if a < OVERFLOW {
      var k := LastPlace(a, 104);
      var m := Units(a, k);
      ResultIsNumber(a);
      NumberAtMostMax(m, k);
      FixedNumber(m, k);
      SmallResults(a);
      NormalError(a);
      if a < ROOT_MID {
        RootResult(a);
      }
    }
  }

  lemma SmallResults(a: real)
    requires 0.0 <= a < OVERFLOW
    ensures a < TINY / 2.0 ==> NearestUp(a) == Fin(0.0)
    ensures NearestUp(a).r > 0.0 ==> NearestUp(a).r >= TINY
  {
    UnitsFacts(a);
    SmallUnits(a, LastPlace(a, 104));
  }

  lemma SmallUnits(a: real, k: int)
    requires 0.0 <= a && k >= -149 && UnitsFit(a, k)
    ensures a < TINY / 2.0 ==> Number(Units(a, k), k) == 0.0
    ensures Number(Units(a, k), k) > 0.0 ==> Number(Units(a, k), k) >= TINY
  {
    var m, p := Units(a, k), Pow2(k);
    TinyPower();
    Pow2Positive(k);
    Pow2Monotone(-149, k + 149);
    if m >= 1 {
      QuotientOrder(1.0, Whole(m), p, p, Number(m, k));
    }
    if a < TINY / 2.0 {
      NearZero(a, p);
    }
  }

  lemma NearZero(a: real, p: real)
    requires p > 0.0 && 0.0 <= a < p / 2.0
    ensures NearestInteger(a / p) == 0
  {
    assert (a / p) * p == a;
    QuotientOrder(a / p, 0.5, p, a, p / 2.0);
    QuotientOrder(0.0, a / p, p, 0.0, a);
  }

  lemma NormalError(a: real)
    requires 0.0 <= a < OVERFLOW
    ensures MIN_NORMAL <= a ==> a - a / 16777216.0 <= NearestUp(a).r <= a + a / 16777216.0
  {
    PlaceFacts(a);
    UnitsFacts(a);
    NormalUnits(a, LastPlace(a, 104));
  }

  lemma NormalUnits(a: real, k: int)
    requires UnitsFit(a, k) && k >= -149 && (k > -149 ==> 8388608.0 * Pow2(k) <= a)
    ensures MIN_NORMAL <= a ==> a - a / 16777216.0 <= Number(Units(a, k), k) <= a + a / 16777216.0
  {
    TinyPower();
  }

  lemma RootResult(a: real)
    requires 0.0 <= a < ROOT_MID
    ensures NearestUp(a).r <= ROOT_MAX
  {
    var k := LastPlace(a, 104);
    Powers();
    Pow2Values();
    UnitsFacts(a);
    if k > 40 {
      Pow2Monotone(64, k + 23 - 64);
    } else if k == 40 {
      RootUnits(a);
    } else {
      NumberBelow(Units(a, k), k, 40 - k - 1);
    }
  }

  lemma RootUnits(a: real)
    requires 0.0 <= a < ROOT_MID
    ensures Number(Units(a, 40), 40) <= ROOT_MAX
  {
    Powers();
    var p := 1099511627776.0;
    assert (a / p) * p == a;
    QuotientOrder(a / p, 16777215.5, p, a, ROOT_MID);
    UnitsInRange(a / p);
  }

  // ----- what the model assumes -----

  /** The properties of one result that is not negative. */
  predicate SoundAt(up: real -> Float, a: real) {
    && (a >= OVERFLOW ==> up(a) == PosInf)
    && (a < OVERFLOW ==> up(a).Fin? && 0.0 <= up(a).r <= MAX_F32 && up(up(a).r) == up(a))
    && (a < TINY / 2.0 ==> up(a) == Fin(0.0))
    && (up(a).Fin? && up(a).r > 0.0 ==> up(a).r >= TINY)
    && (MIN_NORMAL <= a <= MAX_F32 ==> a - a / 16777216.0 <= up(a).r <= a + a / 16777216.0)
    && (a < ROOT_MID ==> up(a).r <= ROOT_MAX)
  }

  ghost predicate Sound(up: real -> Float) {
    && (forall a: real | a >= 0.0 :: SoundAt(up, a))
    && (forall a: real, b: real | 0.0 <= a <= b :: !Less(up(b), up(a)))
  }

  lemma UpIsSound()
    ensures Sound(NearestUp)
  {
    forall a: real | a >= 0.0
      ensures SoundAt(NearestUp, a)
    {
      UpFacts(a);
    }
    forall a: real, b: real | 0.0 <= a <= b
      ensures !Less(NearestUp(b), NearestUp(a))
    {
      UpIsMonotone(a, b);
    }
  }

  predicate NotNegative(f: Float) { f.PosInf? || (f.Fin? && f.r >= 0.0) }

  lemma MirroredOrder(up: real -> Float, x: real, y: real)
    requires x <= y && NotNegative(up(if x < 0.0 then -x else x)) && NotNegative(up(if y < 0.0 then -y else y))
    requires x >= 0.0 ==> !Less(up(y), up(x))
    requires y < 0.0 ==> !Less(up(-x), up(-y))
    ensures !Less(Mirrored(up, y), Mirrored(up, x))
  {
  }

  lemma SoundIsNotNegative(up: real -> Float, a: real)
    requires Sound(up) && a >= 0.0
    ensures NotNegative(up(a))
  {
    assert SoundAt(up, a);
  }

  lemma MirroredIsMonotone(up: real -> Float, x: real, y: real)
    requires Sound(up) && x <= y
    ensures !Less(Mirrored(up, y), Mirrored(up, x))
  {
    SoundIsNotNegative(up, if x < 0.0 then -x else x);
    SoundIsNotNegative(up, if y < 0.0 then -y else y);
    MirroredOrder(up, x, y);
  }

  lemma MirroredEnds(up: real -> Float, r: real)
    requires Sound(up)
    ensures r >= OVERFLOW ==> Mirrored(up, r) == PosInf
    ensures r <= -OVERFLOW ==> Mirrored(up, r) == NegInf
    ensures -OVERFLOW < r < OVERFLOW ==> Mirrored(up, r).Fin? && -MAX_F32 <= Mirrored(up, r).r <= MAX_F32
    ensures 0.0 <= r < TINY / 2.0 ==> Mirrored(up, r) == Fin(0.0)
    ensures Mirrored(up, r).Fin? && Mirrored(up, r).r > 0.0 ==> Mirrored(up, r).r >= TINY
    ensures 0.0 <= r < ROOT_MID ==> Finite(Mirrored(up, r)) <= ROOT_MAX
  {
    assert SoundAt(up, if r < 0.0 then -r else r);
  }

  lemma MirroredError(up: real -> Float, r: real)
    requires Sound(up)
    ensures MIN_NORMAL <= r <= MAX_F32 ==>
              Mirrored(up, r).Fin? && r - r / 16777216.0 <= Mirrored(up, r).r <= r + r / 16777216.0
    ensures Mirrored(up, r).Fin? ==> Mirrored(up, Mirrored(up, r).r) == Mirrored(up, r)
  {
    assert SoundAt(up, if r < 0.0 then -r else r) && SoundAt(up, 0.0);
  }

  /** A fixed number is never crossed, nor is its negative. */
  lemma FixedIsKept(up: real -> Float, v: real, r: real)
    requires Sound(up) && v >= 0.0 && up(v) == Fin(v) && Mirrored(up, r).Fin?
    ensures (r <= v ==> Mirrored(up, r).r <= v) && (r >= v ==> Mirrored(up, r).r >= v)
    ensures (r <= -v ==> Mirrored(up, r).r <= -v) && (r >= -v ==> Mirrored(up, r).r >= -v)
  {
    assert Mirrored(up, -v) == Fin(-v);
    MirroredIsMonotone(up, if r <= v then r else v, if r <= v then v else r);
    MirroredIsMonotone(up, if r <= -v then r else -v, if r <= -v then -v else r);
  }

  lemma KeepsNumber(m: int, k: int)
    requires IsNumber(m, k) && Sound(NearestUp)
    ensures Keeps(NearestEven, Number(m, k)) && Keeps(NearestEven, -Number(m, k))
  {
    var v := Number(m, k);
    FixedNumber(m, k);
    NumberAtMostMax(m, k);
    forall r: real | NearestEven(r).Fin?
      ensures (r <= v ==> NearestEven(r).r <= v) && (r >= v ==> NearestEven(r).r >= v)
      ensures (r <= -v ==> NearestEven(r).r <= -v) && (r >= -v ==> NearestEven(r).r >= -v)
    {
      FixedIsKept(NearestUp, v, r);
    }
  }

  lemma NearestKeeps()
    requires Sound(NearestUp)
    ensures Keeps(NearestEven, 0.0) && Keeps(NearestEven, TINY) && Keeps(NearestEven, 0.5)
    ensures KeepsIntegers(NearestEven)
  {
    TinyPower();
    assert Pow2(-1) == 0.5 && Pow2(0) == 1.0;
    KeepsNumber(0, 0);
    KeepsNumber(1, -149);
    KeepsNumber(1, -1);
    assert Number(0, 0) == 0.0 && Number(1, -149) == TINY && Number(1, -1) == 0.5;
    forall n: int | -16_777_216 <= n <= 16_777_216
      ensures Keeps(NearestEven, Whole(n))
    {
      KeepsNumber(if n < 0 then -n else n, 0);
      assert Whole(n) == if n < 0 then -Number(-n, 0) else Number(n, 0);
    }
  }

  /** Rounding to the nearest f32 with ties to even, as the code's machine does it, has every assumed property. */
  lemma NearestIsRounding()
    ensures Rounding(NearestEven) && Monotone(NearestEven)
  {
    UpIsSound();
    NearestKeeps();
    forall r: real
      ensures NearestEven(r).Fin? ==> NearestEven(NearestEven(r).r) == NearestEven(r)
      ensures 0.0 <= r < ROOT_MID ==> Finite(NearestEven(r)) <= ROOT_MAX
    {
      MirroredEnds(NearestUp, r);
      MirroredError(NearestUp, r);
    }
    NearestEnds();
    forall x: real, y: real | x <= y
      ensures !Less(NearestEven(y), NearestEven(x))
    {
      MirroredIsMonotone(NearestUp, x, y);
    }
  }

  lemma NearestEnds()
    requires Sound(NearestUp)
    ensures Overflows(NearestEven) && Underflows(NearestEven) && Accurate(NearestEven)
  {
    EndsOf(NearestEven, NearestUp);
  }

  lemma EndsOf(round: real -> Float, up: real -> Float)
    requires Sound(up) && forall r: real :: round(r) == Mirrored(up, r)
    ensures Overflows(round) && Underflows(round) && Accurate(round)
  {
    forall r: real
      ensures r >= OVERFLOW ==> round(r) == PosInf
      ensures r <= -OVERFLOW ==> round(r) == NegInf
      ensures -OVERFLOW < r < OVERFLOW ==> round(r).Fin? && -MAX_F32 <= round(r).r <= MAX_F32
      ensures 0.0 <= r < TINY / 2.0 ==> round(r) == Fin(0.0)
      ensures round(r).Fin? && round(r).r > 0.0 ==> round(r).r >= TINY
      ensures MIN_NORMAL <= r <= MAX_F32 ==>
                round(r).Fin? && r - r / 16777216.0 <= round(r).r <= r + r / 16777216.0
    {
      MirroredEnds(up, r);
      MirroredError(up, r);
    }
  }

  /** The tie below 2^64 goes to 2^64, whose significand is even. */
  lemma TieBelowRoot()
    ensures NearestEven(ROOT_MID) == Fin(18446744073709551616.0)
  {
    var k := LastPlace(ROOT_MID, 104);
    Powers();
    Pow2Values();
    PlaceFacts(ROOT_MID);
    if k > 40 {
      Pow2Monotone(41, k - 41);
      Pow2Double(40);
    } else if k < 40 {
      Pow2Monotone(k, 39 - k);
      Pow2Double(39);
    }
    assert ROOT_MID / Pow2(40) == 16777215.5;
  }

  // ----- patterns -----

  /** The pattern of `m` units in place `k`, sign aside. */
  function PatternUp(m: int, k: int): int {
    if k == -149 && m < 8388608 then m
    else if m < 16777216 then (k + 150) * 8388608 + (m - 8388608)
    else (k + 151) * 8388608
  }

  lemma PatternFields(field: int, fraction: int)
    requires 0 <= field <= 254 && 0 <= fraction < 8388608
    ensures var x := field * 8388608 + fraction;
            && 0 <= x < 0x7F80_0000 && (x / 0x80_0000) % 256 == field && x % 0x80_0000 == fraction
            && ((x + 0x8000_0000) / 0x80_0000) % 256 == field && (x + 0x8000_0000) % 0x80_0000 == fraction
  {
    var x := field * 8388608 + fraction;
    assert x / 0x80_0000 == field && (x + 0x8000_0000) / 0x80_0000 == field + 256;
  }

  lemma ValueOfFields(field: int, fraction: int)
    requires 0 <= field <= 254 && 0 <= fraction < 8388608
    ensures var x := field * 8388608 + fraction;
            && 0 <= x < 0x7F80_0000 && IsFinite(x) && IsFinite(x + 0x8000_0000)
            && ValueOf(x) == (if field == 0 then Number(fraction, -149) else Number(fraction + 8388608, field - 150))
            && ValueOf(x + 0x8000_0000) == -ValueOf(x)
  {
    PatternFields(field, fraction);
  }

  lemma PatternStandsFor(m: int, k: int)
    requires IsNumber(m, k) && (k > -149 ==> 8388608 <= m)
    ensures var x := PatternUp(m, k);
            && 0 <= x < 0x7F80_0000 && IsFinite(x) && ValueOf(x) == Number(m, k)
            && IsFinite(x + 0x8000_0000) && ValueOf(x + 0x8000_0000) == -Number(m, k)
  {
    if k == -149 && m < 8388608 {
      ValueOfFields(0, m);
    } else if m < 16777216 {
      ValueOfFields(k + 150, m - 8388608);
    } else {
      ValueOfFields(k + 151, 0);
      NextPlace(k);
    }
  }

  lemma NextPlace(k: int)
    ensures Number(8388608, k + 1) == Number(16777216, k)
  {
    Pow2Double(k);
  }

  ghost predicate IsPatternOf(x: F32, v: real) { IsFinite(x) && ValueOf(x) == v }

  /** Every rounded number has a pattern. */
  lemma ResultHasPattern(r: real)
    requires NearestEven(r).Fin?
    ensures exists x: F32 :: IsPatternOf(x, NearestEven(r).r)
  {
    var a := if r < 0.0 then -r else r;
    var k := LastPlace(a, 104);
    UnitsFacts(a);
    PatternStandsFor(Units(a, k), k);
    var x := PatternUp(Units(a, k), k);
    assert IsPatternOf(if r < 0.0 then x + 0x8000_0000 else x, NearestEven(r).r);
  }

  /** A pattern of a number, if it has one. */
  ghost function BitsOf(v: real): F32 {
    if exists x: F32 :: IsPatternOf(x, v) then
      var x: F32 :| IsPatternOf(x, v);
      x
    else 0
  }

  lemma BitsAreSound(r: real)
    requires NearestEven(r).Fin?
    ensures IsPatternOf(BitsOf(NearestEven(r).r), NearestEven(r).r)
  {
    ResultHasPattern(r);
  }
}
