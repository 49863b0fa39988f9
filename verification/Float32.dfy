/** Two-decimal chapter numbers through the 32-bit floats of a backup file
    (`backend/internal/backup/export.go`, `backend/internal/chapternum/chapternum.go`), with every
    rounding on the way. */
module Float32 {
  function Pow2(k: nat): (r: real)
    ensures r >= 1.0
  {
    if k == 0 then 1.0 else 2.0 * Pow2(k - 1)
  }

  /** An IEEE 754 binary format: significands of `bits` bits, and spacings 2^(k - low) for k up to top. */
  datatype Format = Format(bits: nat, low: nat, top: nat)

  const BINARY32 := Format(24, 149, 253)
  const BINARY64 := Format(53, 1074, 2045)

  // Products and quotients by name, so that proofs can leave them alone.
  function Times(a: real, b: real): real { a * b }

  function Over(a: real, b: real): real
    requires b > 0.0
  {
    a / b
  }

  function Ulp(f: Format, k: nat): (r: real)
    ensures r > 0.0
  {
    Positive(Pow2(k), Pow2(f.low));
    Over(Pow2(k), Pow2(f.low))
  }

  lemma Positive(a: real, b: real)
    requires a > 0.0 && b > 0.0
    ensures Over(a, b) > 0.0
  {
  }

  /** Where the significands of a spacing end. */
  function Reach(f: Format, k: nat): real { Times(Pow2(f.bits), Ulp(f, k)) }

  /** The finest spacing, from k on, that reaches x. */
  function Binade(f: Format, x: real, k: nat): (n: nat)
    requires k <= f.top
    ensures k <= n <= f.top
    decreases f.top - k
  {
    if k == f.top || x < Reach(f, k) then k else Binade(f, x, k + 1)
  }

  /** To the nearest whole number, a half to the even one. */
  function RoundEven(q: real): int {
    var f := q.Floor;
    if q - f as real < 0.5 || (q - f as real == 0.5 && f % 2 == 0) then f else f + 1
  }

  /** A number that is not negative and not too large, rounded to the format. */
  function Magnitude(f: Format, x: real): real {
    var u := Ulp(f, Binade(f, x, 0));
    Times(RoundEven(Over(x, u)) as real, u)
  }

  function Rounded(f: Format, x: real): real { if x < 0.0 then -Magnitude(f, -x) else Magnitude(f, x) }

  /** The float64 a chapter number of h hundredths is kept as. */
  function Stored(h: int): real { Rounded(BINARY64, h as real / 100.0) }

  /** `float32(x)`. */
  function F32(x: real): real { Rounded(BINARY32, x) }

  /** `math.Round`: halves away from zero. */
  function RoundAway(x: real): int { if x >= 0.0 then (x + 0.5).Floor else -((-x + 0.5).Floor) }

  /** `chapternum.Round` of a float, before its division by 100: the product is rounded to float64. */
  function Hundredths(x: real): int { RoundAway(Rounded(BINARY64, x * 100.0)) }

  /** A chapter number, in hundredths, as it comes out of a backup. */
  function Returned(h: int): int { Hundredths(F32(Stored(h))) }

  // ---------------------------------------------------------------- spacings

  lemma Pow2Sum(a: nat, b: nat)
    ensures Pow2(a + b) == Times(Pow2(a), Pow2(b))
  {
    if a == 0 {
    } else {
      Pow2Sum(a - 1, b);
    }
  }

  lemma SmallPowers()
    ensures Pow2(6) == 64.0 && Pow2(7) == 128.0 && Pow2(17) == 131072.0 && Pow2(18) == 262144.0
    ensures Pow2(20) == 1048576.0 && Pow2(24) == 16777216.0
  {
    assert Pow2(4) == 16.0 && Pow2(6) == 4.0 * Pow2(4);
    Pow2Sum(4, 4);
    assert Pow2(7) == 8.0 * Pow2(4);
    Pow2Sum(8, 8);
    assert Pow2(17) == 2.0 * Pow2(16) && Pow2(18) == 2.0 * Pow2(17);
    Pow2Sum(16, 4);
    Pow2Sum(16, 8);
  }

  lemma Pow2Monotone(j: nat, k: nat)
    requires j <= k
    ensures Pow2(j) <= Pow2(k)
    decreases k
  {
    if j >= k {
    } else {
      Pow2Monotone(j, k - 1);
    }
  }

  /** 2^k is whole. */
  lemma Pow2Whole(k: nat) returns (n: nat)
    ensures Pow2(k) == n as real
  {
    if k == 0 {
      n := 1;
    } else {
      var m := Pow2Whole(k - 1);
      n := 2 * m;
    }
  }

  lemma Quotient(a: real, b: real, c: real)
    requires a >= 1.0 && b >= 1.0 && c == Times(a, b)
    ensures Over(a, c) == Over(1.0, b)
  {
    assert a * b * (1.0 / b) == a;
  }

  /** The spacing 2^-j, and how far its significands reach. */
  lemma Spacing(f: Format, j: nat)
    requires j <= f.low && j <= f.bits
    ensures Ulp(f, f.low - j) == Over(1.0, Pow2(j)) && Reach(f, f.low - j) == Pow2(f.bits - j)
  {
    Pow2Sum(f.low - j, j);
    Pow2Sum(j, f.bits - j);
    hide Pow2, Over, Times;
    Quotient(Pow2(f.low - j), Pow2(j), Pow2(f.low));
    TimesUnit(Pow2(j), Pow2(f.bits - j), Pow2(f.bits));
  }

  lemma TimesUnit(a: real, b: real, c: real)
    requires a >= 1.0 && c == Times(a, b)
    ensures Times(c, Over(1.0, a)) == b
  {
    assert c * (1.0 / a) == b * (a * (1.0 / a));
  }

  lemma Grows(f: Format, k: nat)
    ensures Ulp(f, k) <= Ulp(f, k + 1)
  {
    DividedMonotone(Pow2(k), Pow2(k + 1), Pow2(f.low));
  }

  lemma DividedMonotone(a: real, b: real, c: real)
    requires a <= b && c > 0.0
    ensures Over(a, c) <= Over(b, c)
  {
  }

  lemma TimesMonotone(c: real, a: real, b: real)
    requires c > 0.0 && a <= b
    ensures Times(c, a) <= Times(c, b)
  {
  }

  lemma Monotone(f: Format, j: nat, k: nat)
    requires j <= k
    ensures Ulp(f, j) <= Ulp(f, k) && Reach(f, j) <= Reach(f, k)
    decreases k
  {
    if j >= k {
    } else {
      hide Pow2, Ulp, Times;
      Monotone(f, j, k - 1);
      Grows(f, k - 1);
      TimesMonotone(Pow2(f.bits), Ulp(f, k - 1), Ulp(f, k));
    }
  }

  /** The binade is the first that reaches x. */
  lemma {:induction false} BinadeLeast(f: Format, x: real, k: nat, n: nat)
    requires k <= n <= f.top
    ensures x < Reach(f, n) ==> Binade(f, x, k) <= n
    ensures n < f.top && x >= Reach(f, n) ==> Binade(f, x, k) > n
    decreases n - k
  {
    hide Reach, Ulp, Pow2;
    Monotone(f, k, n);
    if k >= n {
    } else {
      BinadeLeast(f, x, k + 1, n);
    }
  }

  // ---------------------------------------------------------------- how far a rounding moves

  lemma NearestWhole(q: real)
    ensures -0.5 <= RoundEven(q) as real - q <= 0.5
    ensures RoundEven(q) as real - q == 0.5 || RoundEven(q) as real - q == -0.5 ==> RoundEven(q) % 2 == 0
  {
  }

  /** `math.Round` gives the nearest whole number, the one further from 0 of two. */
  lemma NearestAway(x: real)
    ensures -0.5 <= RoundAway(x) as real - x <= 0.5
    ensures x >= 0.0 ==> RoundAway(x) as real - x > -0.5
    ensures x <= 0.0 ==> RoundAway(x) as real - x < 0.5
  {
  }

  lemma TimesMinus(n: real, q: real, u: real)
    ensures Times(n - q, u) == Times(n, u) - Times(q, u)
  {
  }

  lemma TimesOver(x: real, u: real)
    requires u > 0.0
    ensures Times(Over(x, u), u) == x
  {
  }

  lemma TimesHalf(d: real, u: real)
    requires -0.5 <= d <= 0.5 && u > 0.0
    ensures -0.5 * u <= Times(d, u) <= 0.5 * u
  {
    var low, high := d + 0.5, 0.5 - d;
    assert low * u >= 0.0 && high * u >= 0.0;
    assert low * u == d * u + 0.5 * u && high * u == 0.5 * u - d * u;
  }

  lemma Nearest(f: Format, x: real)
    ensures var u := Ulp(f, Binade(f, x, 0)); -0.5 * u <= Magnitude(f, x) - x <= 0.5 * u
  {
    hide Ulp, Binade, RoundEven, Times, Over;
    var u := Ulp(f, Binade(f, x, 0));
    var q := Over(x, u);
    var n := RoundEven(q) as real;
    NearestWhole(q);
    TimesHalf(n - q, u);
    TimesMinus(n, q, u);
    TimesOver(x, u);
  }

  /** Below where the spacing 2^-j ends, a rounding moves by half of it at most. */
  lemma Close(f: Format, x: real, j: nat)
    requires j <= f.low && j <= f.bits && f.low - j <= f.top && 0.0 <= x < Pow2(f.bits - j)
    ensures var u := Over(1.0, Pow2(j)); -0.5 * u <= Magnitude(f, x) - x <= 0.5 * u
  {
    hide Ulp, Reach, Binade, Magnitude, Pow2, Over;
    Spacing(f, j);
    BinadeLeast(f, x, 0, f.low - j);
    Monotone(f, Binade(f, x, 0), f.low - j);
    Nearest(f, x);
  }

  /** Within the binade of spacing 2^-j, what is less than half of it from a multiple goes there. */
  lemma RoundsTo(f: Format, x: real, j: nat, m: int)
    requires 0 < f.low - j && j < f.bits && f.low - j <= f.top
    requires Pow2(f.bits - j - 1) <= x < Pow2(f.bits - j)
    requires -0.5 < x * Pow2(j) - m as real < 0.5
    ensures Magnitude(f, x) == m as real / Pow2(j)
  {
    hide Ulp, Reach, Binade, Pow2, Magnitude, Over, RoundEven;
    Spacing(f, j);
    Spacing(f, j + 1);
    BinadeLeast(f, x, 0, f.low - j);
    BinadeLeast(f, x, 0, f.low - j - 1);
    assert Binade(f, x, 0) == f.low - j;
    RoundsToUnit(f, x, Pow2(j), m);
  }

  lemma RoundsToUnit(f: Format, x: real, p: real, m: int)
    requires p >= 1.0 && Ulp(f, Binade(f, x, 0)) == Over(1.0, p) && -0.5 < x * p - m as real < 0.5
    ensures Magnitude(f, x) == m as real / p
  {
    hide Ulp, Binade, Over, Times;
    Inverse(x, p);
    Inverse(m as real, p);
    Halfway(x * p, m);
  }

  lemma Halfway(q: real, m: int)
    requires -0.5 < q - m as real < 0.5
    ensures RoundEven(q) == m
  {
  }

  lemma Inverse(x: real, p: real)
    requires p >= 1.0
    ensures Over(1.0, p) > 0.0 && Over(x, Over(1.0, p)) == x * p && Times(x, Over(1.0, p)) == x / p
  {
    assert 1.0 / p > 0.0;
    assert x * p * (1.0 / p) == x;
  }

  // ---------------------------------------------------------------- the numbers of a format

  /** x is a significand of at most `bits` bits times a spacing. */
  ghost predicate NumberOf(f: Format, x: real) {
    exists k: nat, q: nat | k <= f.top && q as real < Pow2(f.bits) :: x == Multiple(f, k, q)
  }

  function Multiple(f: Format, k: nat, q: nat): real { Times(q as real, Ulp(f, k)) }

  /** A rounding leaves exactly the numbers of the format where they are. */
  lemma FixedExactly(f: Format, x: real)
    requires 0.0 <= x < Reach(f, f.top)
    ensures Magnitude(f, x) == x <==> NumberOf(f, x)
  {
    hide Ulp, Binade, Pow2, RoundEven, Times, Over;
    if Magnitude(f, x) == x { FixedIsNumber(f, x); }
    if NumberOf(f, x) {
      var k: nat, q: nat :| k <= f.top && q as real < Pow2(f.bits) && x == Multiple(f, k, q);
      NumberIsFixed(f, x, k, q);
    }
  }

  lemma FixedIsNumber(f: Format, x: real)
    requires 0.0 <= x < Reach(f, f.top) && Magnitude(f, x) == x
    ensures NumberOf(f, x)
  {
    hide Ulp, Pow2, Binade, RoundEven, Times, Over;
    var k := Binade(f, x, 0);
    BinadeReaches(f, x, 0);
    var q := RoundEven(Over(x, Ulp(f, k)));
    OverNotNegative(x, Ulp(f, k));
    assert q >= 0 by { WholeNotNegative(Over(x, Ulp(f, k))); }
    LessTimes(q as real, Pow2(f.bits), Ulp(f, k));
    assert x == Multiple(f, k, q) by { TimesOver(x, Ulp(f, k)); }
  }

  lemma WholeNotNegative(q: real)
    requires q >= 0.0
    ensures RoundEven(q) >= 0
  {
  }

  lemma LessTimes(a: real, b: real, c: real)
    requires c > 0.0
    ensures a < b <==> Times(a, c) < Times(b, c)
  {
    if a < b { assert (b - a) * c > 0.0; } else { assert (a - b) * c >= 0.0; }
  }

  lemma {:induction false} BinadeReaches(f: Format, x: real, k: nat)
    requires k <= f.top && x < Reach(f, f.top)
    ensures x < Reach(f, Binade(f, x, k))
    decreases f.top - k
  {
    hide Reach;
    if k == f.top || x < Reach(f, k) {
    } else {
      BinadeReaches(f, x, k + 1);
    }
  }

  lemma NumberIsFixed(f: Format, x: real, k: nat, q: nat)
    requires k <= f.top && q as real < Pow2(f.bits) && x == Multiple(f, k, q)
    ensures Magnitude(f, x) == x
  {
    hide Ulp, Pow2, Binade, RoundEven, Times, Over, ProductOf;
    LessTimes(q as real, Pow2(f.bits), Ulp(f, k));
    var n := Binade(f, x, 0);
    BinadeLeast(f, x, 0, k);
    var p := Pow2Whole(k - n);
    UlpSplit(f, n, k - n);
    var u := Ulp(f, n);
    Reassociate(q, p, u);
    WholeOver(ProductOf(q, p), u);
  }

  function ProductOf(a: nat, b: nat): nat { a * b }

  lemma UlpSplit(f: Format, n: nat, d: nat)
    ensures Ulp(f, n + d) == Times(Pow2(d), Ulp(f, n))
  {
    hide Pow2, Times, Over;
    Pow2Sum(n, d);
    Divided(Pow2(n), Pow2(d), Pow2(f.low));
  }

  lemma Divided(a: real, b: real, c: real)
    requires c > 0.0
    ensures Over(Times(a, b), c) == Times(b, Over(a, c))
  {
    assert a * b / c == b * (a / c);
  }

  lemma Reassociate(a: nat, b: nat, c: real)
    ensures Times(a as real, Times(b as real, c)) == Times(ProductOf(a, b) as real, c)
  {
    assert (a * b) as real == a as real * b as real;
  }

  lemma WholeOver(m: int, u: real)
    requires u > 0.0
    ensures RoundEven(Over(Times(m as real, u), u)) == m
  {
    assert Over(Times(m as real, u), u) == m as real;
  }

  /** x, of either sign, is a float32. */
  ghost predicate Single(x: real) { NumberOf(BINARY32, if x < 0.0 then -x else x) }

  /** x is below 2^128, so that it has a float32. */
  predicate Finite(x: real) { -Reach(BINARY32, BINARY32.top) < x < Reach(BINARY32, BINARY32.top) }

  /** A number is the same float32 exactly when its significand fits 24 bits. */
  lemma SingleExactly(x: real)
    requires Finite(x)
    ensures F32(x) == x <==> Single(x)
  {
    hide Magnitude, NumberOf, Reach;
    FixedExactly(BINARY32, if x < 0.0 then -x else x);
  }

  lemma WholeSingle(n: int)
    requires -16777216 < n < 16777216
    ensures Single(n as real)
  {
    SmallPowers();
    var q: nat := if n < 0 then -n else n;
    UnitSpacing();
    assert Multiple(BINARY32, 149, q) == q as real;
  }

  lemma UnitSpacing()
    ensures Ulp(BINARY32, 149) == 1.0
  {
    hide Pow2;
    assert Pow2(149) / Pow2(149) == 1.0;
  }

  /** A score of 7.3 is no float32: it is a little larger afterwards. */
  lemma ScoreLoss()
    ensures F32(Stored(730)) > Stored(730)
  {
    hide Pow2, Magnitude;
    ScorePowers();
    RoundsTo(BINARY64, 7.3, 50, 8219069319951155);
    var x := 8219069319951155 as real / Pow2(50);
    RoundsTo(BINARY32, x, 21, 15309210);
  }

  lemma ScorePowers()
    ensures Pow2(2) == 4.0 && Pow2(3) == 8.0 && Pow2(21) == 2097152.0 && Pow2(50) == 1125899906842624.0
  {
    assert Pow2(1) == 2.0;
    SmallPowers();
    assert Pow2(21) == 2.0 * Pow2(20);
    Pow2Sum(24, 24);
    assert Pow2(50) == 2.0 * Pow2(49) && Pow2(49) == 2.0 * Pow2(48);
  }

  // ---------------------------------------------------------------- binary64: below a millionth

  lemma Close64(x: real, j: nat)
    requires 20 <= j <= 53 && 0.0 <= x < Pow2(53 - j)
    ensures -0.000001 <= Magnitude(BINARY64, x) - x <= 0.000001
  {
    hide Magnitude, Pow2;
    Close(BINARY64, x, j);
    SmallPowers();
    Pow2Monotone(20, j);
    Millionth(Pow2(j));
  }

  lemma Millionth(p: real)
    requires p >= 1048576.0
    ensures 0.0 < Over(1.0, p) <= 0.000001
  {
    var i := 1.0 / p;
    assert i * p == 1.0 && i > 0.0;
    assert i * (p - 1048576.0) >= 0.0;
  }

  lemma NotNegative(f: Format, x: real)
    requires x >= 0.0
    ensures Magnitude(f, x) >= 0.0
  {
    var u := Ulp(f, Binade(f, x, 0));
    hide Ulp, Binade;
    OverNotNegative(x, u);
    TimesNotNegative(RoundEven(Over(x, u)) as real, u);
  }

  lemma OverNotNegative(x: real, u: real)
    requires x >= 0.0 && u > 0.0
    ensures Over(x, u) >= 0.0
  {
  }

  lemma TimesNotNegative(a: real, b: real)
    requires a >= 0.0 && b > 0.0
    ensures Times(a, b) >= 0.0
  {
  }

  // ---------------------------------------------------------------- what comes back

  /** What a number that is not negative goes through. */
  function Trip(h: nat): int {
    RoundAway(Magnitude(BINARY64, Magnitude(BINARY32, Magnitude(BINARY64, h as real / 100.0)) * 100.0))
  }

  lemma TripReturned(h: nat)
    ensures Returned(h) == Trip(h) >= 0 && Returned(-(h as int)) == -Trip(h)
  {
    hide Magnitude, Rounded, RoundAway;
    var x0 := h as real / 100.0;
    NegatedHundredths(h);
    RoundedSigns(BINARY64, x0);
    var x := Magnitude(BINARY64, x0);
    RoundedSigns(BINARY32, x);
    var y := Magnitude(BINARY32, x);
    RoundedSigns(BINARY64, y * 100.0);
    NegatedProduct(y);
    RoundAwayNegated(Magnitude(BINARY64, y * 100.0));
  }

  lemma NegatedHundredths(h: int)
    ensures (-h) as real / 100.0 == -(h as real / 100.0)
  {
  }

  lemma NegatedProduct(y: real)
    ensures (-y) * 100.0 == -(y * 100.0)
  {
  }

  lemma RoundedSigns(f: Format, x: real)
    requires x >= 0.0
    ensures Rounded(f, x) == Magnitude(f, x) >= 0.0 && Rounded(f, -x) == -Magnitude(f, x)
  {
    hide Magnitude;
    NotNegative(f, x);
    MagnitudeZero(f);
  }

  lemma MagnitudeZero(f: Format)
    ensures Magnitude(f, 0.0) == 0.0
  {
    var u := Ulp(f, Binade(f, 0.0, 0));
    hide Ulp, Binade;
    assert Over(0.0, u) == 0.0;
  }

  lemma RoundAwayNegated(x: real)
    requires x >= 0.0
    ensures RoundAway(-x) == -RoundAway(x) && RoundAway(x) >= 0
  {
  }

  lemma TripBelow(h: nat)
    requires h < 13107200
    ensures Trip(h) == h
  {
    hide Magnitude, RoundAway, Pow2, Over;
    SmallPowers();
    var x0 := h as real / 100.0;
    var x := Magnitude(BINARY64, x0);
    Close64(x0, 36);
    NotNegative(BINARY64, x0);
    var y := Magnitude(BINARY32, x);
    Close(BINARY32, x, 7);
    OverIs(128.0);
    NotNegative(BINARY32, x);
    Close64(y * 100.0, 29);
    RoundsBack(h, Magnitude(BINARY64, y * 100.0));
  }

  lemma OverIs(p: real)
    requires p == 128.0
    ensures Over(1.0, p) == 1.0 / 128.0
  {
  }

  lemma RoundsBack(h: nat, z: real)
    requires -0.5 < z - h as real < 0.5
    ensures RoundAway(z) == h
  {
  }

  /** 131072 itself is a number of both formats. */
  lemma TripAt()
    ensures Trip(13107200) == 13107200
  {
    hide Magnitude, RoundAway, Pow2;
    SmallPowers();
    var x0 := 13107200 as real / 100.0;
    var n := Pow2Whole(35);
    assert x0 == 131072.0;
    Exactly(131072, n, Pow2(35));
    RoundsTo(BINARY64, x0, 35, 131072 * n);
    RoundsTo(BINARY32, x0, 6, 8388608);
    Close64(x0 * 100.0, 29);
    RoundsBack(13107200, Magnitude(BINARY64, x0 * 100.0));
  }

  lemma Exactly(a: nat, n: nat, p: real)
    requires p == n as real && p >= 1.0
    ensures a as real * p == (a * n) as real && (a * n) as real / p == a as real
  {
    assert (a * n) as real == a as real * n as real;
  }

  lemma TripAbove()
    ensures Trip(13107201) == 13107202
  {
    hide Magnitude, RoundAway, Pow2;
    SmallPowers();
    var x0 := 13107201 as real / 100.0;
    var x := Magnitude(BINARY64, x0);
    Close64(x0, 35);
    RoundsTo(BINARY32, x, 6, 8388609);
    var y := 8388609 as real / 64.0;
    Close64(y * 100.0, 29);
    RoundsBack(13107202, Magnitude(BINARY64, y * 100.0));
  }

  /** Every two-decimal number up to 131072, either sign, comes back exactly: as the same hundredths,
      and so as the same float64. */
  lemma ReturnsExactly(h: int)
    requires -13107200 <= h <= 13107200
    ensures Returned(h) == h && Stored(Returned(h)) == Stored(h)
  {
    hide Trip, Returned;
    var m := if h < 0 then -h else h;
    TripReturned(m);
    if m == 13107200 { TripAt(); } else { TripBelow(m); }
  }

  /** The next one, 131072.01, does not: it comes back as 131072.02. */
  lemma FirstLoss()
    ensures Returned(13107201) == 13107202
  {
    hide Trip, Returned;
    TripReturned(13107201);
    TripAbove();
  }

  /** So 131072 is the exact limit up to which every number survives a backup. */
  lemma ExactLimit(limit: nat)
    ensures (forall h: nat | h <= limit :: Returned(h) == h) <==> limit <= 13107200
  {
    hide Returned;
    FirstLoss();
    if limit <= 13107200 {
      forall h: nat | h <= limit ensures Returned(h) == h { ReturnsExactly(h); }
    } else {
      assert Returned(13107201) != 13107201;
    }
  }
}
