/** UTC instants, the text chrono writes for them, and why SQL's text order is their order in time. */
module Timestamps {
  import opened Prelude

  datatype Utc = Utc(year: nat, month: nat, day: nat, hour: nat, minute: nat, second: nat, nanos: nat)

  /** Years of four digits, no leap second: what `Utc::now` gives until the year 9999. */
  predicate InRange(t: Utc) {
    t.year < 10_000 && 1 <= t.month <= 12 && 1 <= t.day <= 31 &&
    t.hour < 24 && t.minute < 60 && t.second < 60 && t.nanos < 1_000_000_000
  }

  type DateTime = t: Utc | InRange(t) witness Utc(1970, 1, 1, 0, 0, 0, 0)

  /** Chronological order: `DateTime`'s `Ord`. */
  predicate Before(a: Utc, b: Utc) {
    if a.year != b.year then a.year < b.year
    else if a.month != b.month then a.month < b.month
    else if a.day != b.day then a.day < b.day
    else if a.hour != b.hour then a.hour < b.hour
    else if a.minute != b.minute then a.minute < b.minute
    else if a.second != b.second then a.second < b.second
    else a.nanos < b.nanos
  }

  function Digit(n: nat): char
    requires n < 10
  {
    ('0' as int + n) as char
  }

  function Bound(w: nat): nat { if w == 0 then 1 else 10 * Bound(w - 1) }

  /** `n` in exactly `w` decimal digits. */
  function Pad(n: nat, w: nat): string {
    if w == 0 then "" else Pad(n / 10, w - 1) + [Digit(n % 10)]
  }

  /** Fraction and offset as chrono prints them: 0, 3, 6 or 9 digits, whichever is exact. */
  function Fraction(nanos: nat): string {
    if nanos == 0 then "+00:00"
    else if nanos % 1_000_000 == 0 then "." + (Pad(nanos / 1_000_000, 3) + "+00:00")
    else if nanos % 1_000 == 0 then "." + (Pad(nanos / 1_000, 6) + "+00:00")
    else "." + (Pad(nanos, 9) + "+00:00")
  }

  /** `to_rfc3339` */
  function Rfc3339(t: Utc): string {
    Pad(t.year, 4) + ("-" + (Pad(t.month, 2) + ("-" + (Pad(t.day, 2) + ("T" +
    (Pad(t.hour, 2) + (":" + (Pad(t.minute, 2) + (":" + (Pad(t.second, 2) + Fraction(t.nanos)))))))))))
  }

  /** Padded numbers compare as numbers, then by what follows. */
  lemma {:induction false} PadOrder(n: nat, m: nat, w: nat, x: string, y: string)
    requires n < Bound(w) && m < Bound(w)
    ensures LexLess(Pad(n, w) + x, Pad(m, w) + y) <==> n < m || (n == m && LexLess(x, y))
  {
    if w == 0 {
      assert Pad(n, w) + x == x && Pad(m, w) + y == y;
    } else {
      var x', y' := [Digit(n % 10)] + x, [Digit(m % 10)] + y;
      PadOrder(n / 10, m / 10, w - 1, x', y');
      assert Pad(n, w) + x == Pad(n / 10, w - 1) + x';
      assert Pad(m, w) + y == Pad(m / 10, w - 1) + y';
      assert x'[1..] == x && y'[1..] == y;
    }
  }

  // ----- the fraction: groups of three digits, trailing zero groups dropped -----

  predicate AllZero(gs: seq<nat>) { gs == [] || (gs[0] == 0 && AllZero(gs[1..])) }

  function Groups(gs: seq<nat>): string {
    if AllZero(gs) then "+00:00" else Pad(gs[0], 3) + Groups(gs[1..])
  }

  /** The number order of equally long group lists. */
  predicate GroupsLess(a: seq<nat>, b: seq<nat>)
    requires |a| == |b|
  {
    a != [] && (a[0] < b[0] || (a[0] == b[0] && GroupsLess(a[1..], b[1..])))
  }

  lemma {:induction false} GroupsOrder(a: seq<nat>, b: seq<nat>)
    requires |a| == |b|
    requires forall i | 0 <= i < |a| :: a[i] < 1000 && b[i] < 1000
    ensures LexLess(Groups(a), Groups(b)) <==> GroupsLess(a, b)
  {
    if AllZero(a) && AllZero(b) {
      ZeroGroups(a, b);
      LexTrichotomy("+00:00", "+00:00");
    } else {
      if AllZero(a) {
        ZeroGroups(a, b);
        DigitFirst(b[0]);
      } else if AllZero(b) {
        ZeroGroups(b, a);
        DigitFirst(a[0]);
        LexTrichotomy(Groups(a), Groups(b));
      } else {
        GroupsOrder(a[1..], b[1..]);
        assert Bound(3) == 1000;
        PadOrder(a[0], b[0], 3, Groups(a[1..]), Groups(b[1..]));
      }
    }
  }

  lemma {:induction false} ZeroGroups(a: seq<nat>, b: seq<nat>)
    requires |a| == |b| && AllZero(a)
    ensures !GroupsLess(b, a)
    ensures GroupsLess(a, b) <==> !AllZero(b)
  {
    if a != [] {
      ZeroGroups(a[1..], b[1..]);
    }
  }

  lemma DigitFirst(n: nat)
    ensures Pad(n, 3) != "" && Pad(n, 3)[0] >= '0'
  {
    assert Pad(n, 3) == Pad(n / 10, 2) + [Digit(n % 10)];
    assert Pad(n / 10, 2) == Pad(n / 10 / 10, 1) + [Digit(n / 10 % 10)];
    assert Pad(n / 10 / 10, 1) == Pad(n / 10 / 10 / 10, 0) + [Digit(n / 10 / 10 % 10)];
  }

  lemma LastThreeDigits(n: nat)
    ensures n / 10 / 10 / 10 == n / 1000
    ensures n % 1000 % 10 == n % 10
    ensures n % 1000 / 10 % 10 == n / 10 % 10
    ensures n % 1000 / 10 / 10 == n / 10 / 10 % 10
  {
    var a, n1 := n % 10, n / 10;
    var b, n2 := n1 % 10, n1 / 10;
    var c, q := n2 % 10, n2 / 10;
    assert n == 1000 * q + (100 * c + 10 * b + a);
    assert n / 1000 == q && n % 1000 == 100 * c + 10 * b + a;
  }

  lemma PadSplit(n: nat, w: nat)
    ensures Pad(n, w + 3) == Pad(n / 1000, w) + Pad(n % 1000, 3)
  {
    PadThree(n, w);
    PadThree(n % 1000, 0);
    LastThreeDigits(n);
    assert Pad(n % 1000, 0 + 3) == Pad(n % 1000, 3);
  }

  lemma PadThree(n: nat, w: nat)
    ensures Pad(n, w + 3) ==
            Pad(n / 10 / 10 / 10, w) + [Digit(n / 10 / 10 % 10), Digit(n / 10 % 10), Digit(n % 10)]
  {
    assert Pad(n, w + 3) == Pad(n / 10, w + 2) + [Digit(n % 10)];
    assert Pad(n / 10, w + 2) == Pad(n / 10 / 10, w + 1) + [Digit(n / 10 % 10)];
    assert Pad(n / 10 / 10, w + 1) == Pad(n / 10 / 10 / 10, w) + [Digit(n / 10 / 10 % 10)];
  }

  function Split(nanos: nat): seq<nat> {
    [nanos / 1_000_000, nanos / 1_000 % 1_000, nanos % 1_000]
  }

  lemma GroupsCons(g: nat, rest: seq<nat>)
    ensures AllZero([g] + rest) <==> g == 0 && AllZero(rest)
    ensures Groups([g] + rest) == if g == 0 && AllZero(rest) then "+00:00" else Pad(g, 3) + Groups(rest)
  {
    assert ([g] + rest)[1..] == rest;
  }

  lemma ThreeGroups(g1: nat, g2: nat, g3: nat)
    ensures Groups([g1, g2, g3]) ==
            if g3 != 0 then Pad(g1, 3) + (Pad(g2, 3) + (Pad(g3, 3) + "+00:00"))
            else if g2 != 0 then Pad(g1, 3) + (Pad(g2, 3) + "+00:00")
            else if g1 != 0 then Pad(g1, 3) + "+00:00"
            else "+00:00"
  {
    GroupsCons(g3, []);
    GroupsCons(g2, [g3]);
    GroupsCons(g1, [g2, g3]);
    assert [g3] == [g3] + [] && [g2, g3] == [g2] + [g3] && [g1, g2, g3] == [g1] + [g2, g3];
  }

  lemma Thirds(n: nat)
    ensures n / 1_000 / 1_000 == n / 1_000_000
    ensures n % 1_000_000 == 0 <==> n / 1_000 % 1_000 == 0 && n % 1_000 == 0
  {
  }

  lemma Regroup(a: string, b: string, c: string)
    ensures a + b + c == a + (b + c)
  {
  }

  lemma FractionIsGroups(n: nat)
    ensures Fraction(n) == if n == 0 then "+00:00" else "." + Groups(Split(n))
  {
    var g1, g2, g3 := n / 1_000_000, n / 1_000 % 1_000, n % 1_000;
    Thirds(n);
    ThreeGroups(g1, g2, g3);
    PadSplit(n, 6);
    PadSplit(n / 1_000, 3);
    Regroup(Pad(g1, 3), Pad(g2, 3), "+00:00");
    Regroup(Pad(g1, 3), Pad(g2, 3), Pad(g3, 3) + "+00:00");
    Regroup(Pad(n / 1_000, 6), Pad(g3, 3), "+00:00");
  }

  lemma FractionOrder(n: nat, m: nat)
    requires n < 1_000_000_000 && m < 1_000_000_000
    ensures LexLess(Fraction(n), Fraction(m)) <==> n < m
  {
    FractionIsGroups(n);
    FractionIsGroups(m);
    GroupsOrder(Split(n), Split(m));
    SplitOrder(n, m);
    LexCommonPrefix(".", Groups(Split(n)), Groups(Split(m)));
    LexTrichotomy("+00:00", "+00:00");
  }

  lemma SplitOrder(n: nat, m: nat)
    ensures GroupsLess(Split(n), Split(m)) <==> n < m
  {
    var a, b := Split(n), Split(m);
    assert GroupsLess(a, b) <==> a[0] < b[0] || (a[0] == b[0] && GroupsLess(a[1..], b[1..]));
    assert GroupsLess(a[1..], b[1..]) <==> a[1] < b[1] || (a[1] == b[1] && GroupsLess(a[2..], b[2..])) by {
      assert a[1..][1..] == a[2..] && b[1..][1..] == b[2..];
    }
    assert GroupsLess(a[2..], b[2..]) <==> a[2] < b[2];
    assert n == 1_000_000 * a[0] + 1_000 * a[1] + a[2] by { assert n / 1_000 / 1_000 == a[0]; }
    assert m == 1_000_000 * b[0] + 1_000 * b[1] + b[2] by { assert m / 1_000 / 1_000 == b[0]; }
  }

  /** SQL's order on the stored text is the order of the instants recall compares. */
  lemma TextOrderIsTimeOrder(a: DateTime, b: DateTime)
    ensures LexLess(Rfc3339(a), Rfc3339(b)) <==> Before(a, b)
    ensures Rfc3339(a) == Rfc3339(b) <==> a == b
  {
    TextOrderOneWay(a, b);
    TextOrderOneWay(b, a);
    LexTrichotomy(Rfc3339(a), Rfc3339(b));
  }

  lemma FieldOrder(n: nat, m: nat, w: nat, sep: string, x: string, y: string)
    requires n < Bound(w) && m < Bound(w)
    ensures LexLess(Pad(n, w) + (sep + x), Pad(m, w) + (sep + y)) <==> n < m || (n == m && LexLess(x, y))
  {
    PadOrder(n, m, w, sep + x, sep + y);
    LexCommonPrefix(sep, x, y);
  }

  lemma TextOrderOneWay(a: DateTime, b: DateTime)
    ensures LexLess(Rfc3339(a), Rfc3339(b)) <==> Before(a, b)
  {
    assert Bound(4) == 10_000 && Bound(2) == 100;
    FractionOrder(a.nanos, b.nanos);
    var s, s' := Pad(a.second, 2) + Fraction(a.nanos), Pad(b.second, 2) + Fraction(b.nanos);
    PadOrder(a.second, b.second, 2, Fraction(a.nanos), Fraction(b.nanos));
    var mi, mi' := Pad(a.minute, 2) + (":" + s), Pad(b.minute, 2) + (":" + s');
    FieldOrder(a.minute, b.minute, 2, ":", s, s');
    var h, h' := Pad(a.hour, 2) + (":" + mi), Pad(b.hour, 2) + (":" + mi');
    FieldOrder(a.hour, b.hour, 2, ":", mi, mi');
    var d, d' := Pad(a.day, 2) + ("T" + h), Pad(b.day, 2) + ("T" + h');
    FieldOrder(a.day, b.day, 2, "T", h, h');
    var mo, mo' := Pad(a.month, 2) + ("-" + d), Pad(b.month, 2) + ("-" + d');
    FieldOrder(a.month, b.month, 2, "-", d, d');
    FieldOrder(a.year, b.year, 4, "-", mo, mo');
  }

  lemma BeforeIsStrictOrder(a: Utc, b: Utc, c: Utc)
    ensures !(Before(a, b) && Before(b, a))
    ensures Before(a, b) || Before(b, a) || a == b
    ensures Before(a, b) && Before(b, c) ==> Before(a, c)
  {
  }
}
