/**
 The floating-point side of the rate interval: with every operation rounded to a nearest 64-bit double,
 the program computes exactly the interval the model uses.
 */
module Doubles {
  import opened LittleEndian
  import opened Engine
  import opened Timing
  import opened Wrappers

  // Whole numbers first.

  function Two(n: nat): (r: nat)
    ensures r >= 1
  {
    if n == 0 then 1 else 2 * Two(n - 1)
  }

  function Five(n: nat): (r: nat)
    ensures r >= 1
  {
    if n == 0 then 1 else 5 * Five(n - 1)
  }

  lemma Associates(a: int, b: int, c: int)
    ensures a * (b * c) == (a * b) * c
  {}

  lemma {:induction false} TwoMonotone(a: nat, b: nat)
    requires a <= b
    ensures Two(a) <= Two(b)
    decreases b
  {
    if a < b {
      TwoMonotone(a, b - 1);
    }
  }

  lemma {:induction false} TwoAdds(a: nat, b: nat)
    ensures Two(a + b) == Two(a) * Two(b)
    decreases a
  {
    if a > 0 {
      TwoAdds(a - 1, b);
      Associates(2, Two(a - 1), Two(b));
    }
  }

  lemma TwoDoubles(a: nat, b: nat)
    ensures a < b ==> 2 * Two(a) <= Two(b)
  {
    if a < b {
      TwoMonotone(a + 1, b);
    }
  }

  // The only power of two in [x, 2x).
  lemma PowerInRange(x: nat, a: nat, c: nat)
    requires 0 < x <= Two(a) < 2 * x && x <= Two(c) < 2 * x
    ensures a == c
  {
    TwoDoubles(a, c);
    TwoDoubles(c, a);
  }

  lemma PowerAbove(x: nat, b: nat, c: nat)
    requires x <= Two(b) && Two(c) < 2 * x
    ensures c <= b && Two(c) <= Two(b)
  {
    TwoDoubles(b, c);
    TwoMonotone(c, b);
  }

  // The factors of 2^a 5^b are products of the same kind.
  lemma {:induction false} Factors(x: nat, y: nat, a: nat, b: nat) returns (i: nat, j: nat)
    requires x * y == Two(a) * Five(b)
    ensures i <= a && j <= b
    ensures x == Two(i) * Five(j) && y == Two(a - i) * Five(b - j)
    decreases a + b
  {
    if a > 0 {
      Associates(2, Two(a - 1), Five(b));
      if x % 2 == 0 {
        HalfOf(x, y, Two(a - 1) * Five(b));
        i, j := Factors(x / 2, y, a - 1, b);
        Associates(2, Two(i), Five(j));
        i := i + 1;
      } else {
        OddTimes(x, y, Two(a - 1) * Five(b));
        i, j := Factors(x, y / 2, a - 1, b);
        Associates(2, Two(a - 1 - i), Five(b - j));
      }
    } else {
      j := FactorsOfFive(x, y, b);
      i := 0;
    }
  }

  lemma {:induction false} FactorsOfFive(x: nat, y: nat, b: nat) returns (j: nat)
    requires x * y == Five(b)
    ensures j <= b && x == Five(j) && y == Five(b - j)
  {
    if b == 0 {
      ProductOne(x, y);
      j := 0;
    } else if x % 5 == 0 {
      FifthOf(x, y, Five(b - 1));
      j := FactorsOfFive(x / 5, y, b - 1);
      j := j + 1;
    } else {
      NoFiveTimes(x, y, Five(b - 1));
      j := FactorsOfFive(x, y / 5, b - 1);
    }
  }

  lemma ProductOne(x: nat, y: nat)
    requires x * y == 1
    ensures x == 1 && y == 1
  {
    if x >= 2 && y >= 1 {
      MulMonotone(2, x, y);
    } else if y >= 2 && x >= 1 {
      MulMonotone(2, y, x);
    }
  }

  lemma HalfOf(x: nat, y: nat, p: nat)
    requires x * y == 2 * p && x % 2 == 0
    ensures x / 2 * y == p
  {
    var h := x / 2;
    assert x == 2 * h;
    assert (2 * h) * y == 2 * (h * y);
  }

  lemma OddTimes(x: nat, y: nat, p: nat)
    requires x * y == 2 * p && x % 2 == 1
    ensures y % 2 == 0 && x * (y / 2) == p
  {
    var (k, h) := (x / 2, y / 2);
    assert x == 2 * k + 1;
    assert (2 * k + 1) * y == 2 * (k * y) + y;
    assert y == 2 * h;
    assert x * (2 * h) == 2 * (x * h);
  }

  lemma FifthOf(x: nat, y: nat, p: nat)
    requires x * y == 5 * p && x % 5 == 0
    ensures x / 5 * y == p
  {
    var h := x / 5;
    assert x == 5 * h;
    assert (5 * h) * y == 5 * (h * y);
  }

  lemma NoFiveTimes(x: nat, y: nat, p: nat)
    requires x * y == 5 * p && x % 5 != 0
    ensures y % 5 == 0 && x * (y / 5) == p
  {
    var (k, r) := (x / 5, x % 5);
    var (h, v) := (y / 5, y % 5);
    SplitProduct(k, r, y);
    SplitProduct(h, v, r);
    ResiduesOfFive(r, v, p - k * y - h * r);
    SplitProduct(h, 0, x);
  }

  lemma SplitProduct(k: int, r: int, y: int)
    ensures (5 * k + r) * y == 5 * (k * y) + r * y
  {}

  lemma ResiduesOfFive(r: nat, v: nat, m: int)
    requires 1 <= r <= 4 && v <= 4 && v * r == 5 * m
    ensures v == 0
  {
    if r == 1 {
    } else if r == 2 {
      assert 2 * v == 5 * m;
    } else if r == 3 {
      assert 3 * v == 5 * m;
    } else {
      assert 4 * v == 5 * m;
    }
  }

  // Powers of five, and the powers of two that are next to them from above.

  const FIVES := [1, 5, 25, 125, 625, 3125, 15625, 78125, 390625, 1953125]
  const LOGS := [0, 3, 5, 7, 10, 12, 14, 17, 19, 21]
  const REMAINDERS := [0, 3, 22, 113, 404, 1616, 3339, 26712, 341223, 1364892]
  const CEILINGS := [1, 8, 32, 128, 1024, 4096, 16384, 131072, 524288, 2097152]

  const TWO_TO_52: nat := 4503599627370496

  lemma FivesAre(j: nat)
    requires j <= 9
    ensures Five(j) == FIVES[j] && Two(LOGS[j]) == CEILINGS[j] && FIVES[j] <= CEILINGS[j] < 2 * FIVES[j]
  {
    assert Five(2) == 25 && Five(3) == 125 && Five(4) == 625 && Five(5) == 3125 && Five(6) == 15625;
    assert Five(7) == 78125 && Five(8) == 390625 && Five(9) == 1953125;
    assert Two(3) == 8 && Two(5) == 32 && Two(7) == 128 && Two(10) == 1024 && Two(12) == 4096;
    assert Two(14) == 16384 && Two(17) == 131072 && Two(19) == 524288 && Two(21) == 2097152;
  }

  lemma RemaindersAre(j: nat)
    requires j <= 9
    ensures TWO_TO_52 * CEILINGS[j] % FIVES[j] == REMAINDERS[j]
  {
    assert TWO_TO_52 * 1 % 1 == 0 && TWO_TO_52 * 8 % 5 == 3 && TWO_TO_52 * 32 % 25 == 22;
    assert TWO_TO_52 * 128 % 125 == 113 && TWO_TO_52 * 1024 % 625 == 404 && TWO_TO_52 * 4096 % 3125 == 1616;
    assert TWO_TO_52 * 16384 % 15625 == 3339 && TWO_TO_52 * 131072 % 78125 == 26712;
    assert TWO_TO_52 * 524288 % 390625 == 341223 && TWO_TO_52 * 2097152 % 1953125 == 1364892;
  }

  lemma MultipleBelow(k: int, m: nat, v: int)
    requires k * m == v && 0 - m < v < m
    ensures k == 0
  {
    if k >= 1 {
      MulMonotone(1, k, m);
    } else if k <= -1 {
      MulMonotone(k, -1, m);
    }
  }

  lemma RemainderIs(x: nat, m: nat, n: nat, d: nat)
    requires n * m + d == x && d < m
    ensures x % m == d
  {
    var (q, r) := (x / m, x % m);
    assert x == q * m + r;
    assert (n - q) * m == n * m - q * m;
    MultipleBelow(n - q, m, r - d);
  }

  // The rounding error of the reciprocal of 5^j, the odd part of a rate that divides 10^9. Only at 5^6
  // and 5^7 is it rounded down, and there 10^9 times the error is less than half a step of the product.
  lemma ErrorOfReciprocal(j: nat, n: nat, d: nat)
    requires j <= 9
    requires n * FIVES[j] + d == TWO_TO_52 * CEILINGS[j] && 0 < 2 * d <= FIVES[j]
    ensures (j == 6 && d == 3339) || (j == 7 && d == 26712)
  {
    RemainderIs(TWO_TO_52 * CEILINGS[j], FIVES[j], n, d);
    RemaindersAre(j);
    assert d == REMAINDERS[j];
  }

  lemma OddPart(j: nat, a: nat, b: nat, n: nat, d: nat)
    requires j <= 9
    requires Five(j) <= Two(a) < 2 * Five(j) && Five(9 - j) <= Two(b)
    requires n * Five(j) + d == TWO_TO_52 * Two(a) && 0 < 2 * d <= Five(j)
    ensures 4 * (Five(9 - j) * d) < Two(a) * Two(b)
  {
    FivesAre(j);
    FivesAre(9 - j);
    PowerInRange(Five(j), a, LOGS[j]);
    PowerAbove(Five(9 - j), b, LOGS[9 - j]);
    ErrorOfReciprocal(j, n, d);
    MulMonotone(CEILINGS[9 - j], Two(b), CEILINGS[j]);
  }

  lemma CancelFactor(a: nat, x: int, y: int)
    requires a > 0
    ensures a * x < a * y ==> x < y
    ensures a * x <= a * y ==> x <= y
  {
    if y <= x {
      MulMonotone(y, x, a);
    }
    if y < x {
      MulMonotone(y + 1, x, a);
      assert a * (y + 1) == a * y + a;
    }
  }

  // The power of two above a product has the product's power of two as a factor.
  lemma SharedFactor(i: nat, x: nat, s: nat)
    requires x > 0 && Two(i) * x <= Two(s)
    ensures i <= s && Two(s) == Two(i) * Two(s - i) && x <= Two(s - i)
  {
    MulMonotone(1, x, Two(i));
    if s < i {
      TwoMonotone(s, i - 1);
    } else {
      TwoAdds(i, s - i);
      CancelFactor(Two(i), x, Two(s - i));
    }
  }

  lemma SharedError(a: nat, h: nat, p: nat, n: nat, d: nat)
    requires a > 0 && n * (a * h) + d == TWO_TO_52 * (a * p) && 0 < 2 * d <= a * h
    ensures var d' := TWO_TO_52 * p - n * h;
            d == a * d' && 0 < 2 * d' <= h
  {
    var d' := TWO_TO_52 * p - n * h;
    assert n * (a * h) == a * (n * h) && TWO_TO_52 * (a * p) == a * (TWO_TO_52 * p);
    assert a * (TWO_TO_52 * p) - a * (n * h) == a * d';
    assert a * (2 * d') == 2 * (a * d');
    CancelFactor(a, 0, d');
    CancelFactor(a, 2 * d', h);
  }

  lemma Regroup(a: int, x: int, b: int, y: int)
    ensures (a * x) * (b * y) == (a * b) * (x * y)
  {
    Associates(a * x, b, y);
    Associates(a, x, b);
    Associates(a, b, x);
    Associates(a * b, x, y);
  }

  lemma StrictlyScaled(k: nat, x: int, y: int)
    requires k >= 1 && x < y
    ensures k * x < k * y
  {
    MulMonotone(x + 1, y, k);
    assert k * (x + 1) == k * x + k;
  }

  lemma ScaledBack(a: nat, b: nat, g: nat, d: nat, p: nat, r: nat)
    requires a >= 1 && b >= 1 && 4 * (g * d) < p * r
    ensures 4 * ((b * g) * (a * d)) < (a * p) * (b * r)
  {
    Regroup(b, g, a, d);
    Regroup(a, p, b, r);
    MulMonotone(1, a, b);
    StrictlyScaled(a * b, 4 * (g * d), p * r);
    Associates(a * b, 4, g * d);
  }

  // For every rate that divides 10^9: where the reciprocal is rounded down, 10^9 times the error is less
  // than half a step of the product.
  lemma DivisorRounding(hz: nat, q: nat, s: nat, t: nat, n: nat, d: nat)
    requires hz * q == SECOND
    requires hz <= Two(s) < 2 * hz && q <= Two(t)
    requires n * hz + d == TWO_TO_52 * Two(s) && 0 < 2 * d <= hz
    ensures 4 * (q * d) < Two(s) * Two(t)
  {
    assert Two(9) == 512 && Five(9) == 1953125;
    var i, j := Factors(hz, q, 9, 9);
    FactoredRounding(i, j, s, t, n, d);
  }

  lemma FactoredRounding(i: nat, j: nat, s: nat, t: nat, n: nat, d: nat)
    requires i <= 9 && j <= 9
    requires Two(i) * Five(j) <= Two(s) < 2 * (Two(i) * Five(j)) && Two(9 - i) * Five(9 - j) <= Two(t)
    requires n * (Two(i) * Five(j)) + d == TWO_TO_52 * Two(s) && 0 < 2 * d <= Two(i) * Five(j)
    ensures 4 * ((Two(9 - i) * Five(9 - j)) * d) < Two(s) * Two(t)
  {
    SharedFactor(i, Five(j), s);
    SharedFactor(9 - i, Five(9 - j), t);
    UnreducedRounding(Two(i), Two(9 - i), j, s - i, t - (9 - i), n, d);
  }

  // The same with the powers of two in the rate and in the quotient taken out.
  lemma UnreducedRounding(a: nat, b: nat, j: nat, s: nat, t: nat, n: nat, d: nat)
    requires j <= 9 && a >= 1 && b >= 1
    requires Five(j) <= Two(s) && a * Two(s) < 2 * (a * Five(j)) && Five(9 - j) <= Two(t)
    requires n * (a * Five(j)) + d == TWO_TO_52 * (a * Two(s)) && 0 < 2 * d <= a * Five(j)
    ensures 4 * ((b * Five(9 - j)) * d) < (a * Two(s)) * (b * Two(t))
  {
    var d' := ReducedRounding(a, j, s, t, n, d);
    ScaledBack(a, b, Five(9 - j), d', Two(s), Two(t));
  }

  lemma ReducedRounding(a: nat, j: nat, s: nat, t: nat, n: nat, d: nat) returns (d': nat)
    requires j <= 9 && a >= 1
    requires Five(j) <= Two(s) && a * Two(s) < 2 * (a * Five(j)) && Five(9 - j) <= Two(t)
    requires n * (a * Five(j)) + d == TWO_TO_52 * (a * Two(s)) && 0 < 2 * d <= a * Five(j)
    ensures d == a * d' && 4 * (Five(9 - j) * d') < Two(s) * Two(t)
  {
    BelowTwice(a, Two(s), Five(j));
    SharedError(a, Five(j), Two(s), n, d);
    d' := TWO_TO_52 * Two(s) - n * Five(j);
    OddPart(j, s, t, n, d');
  }

  lemma BelowTwice(a: nat, p: nat, h: nat)
    requires a > 0 && a * p < 2 * (a * h)
    ensures p < 2 * h
  {
    assert 2 * (a * h) == a * (2 * h);
    CancelFactor(a, p, 2 * h);
  }

  // Rounding to a nearest double. A double in [2^e, 2^(e+1)) is a multiple of 2^(e-52). Ties may go
  // either way; the range of the exponent is never exceeded here.

  ghost function Pow2(e: int): (r: real)
    ensures r > 0.0
    decreases if e < 0 then -e else e
  {
    if e == 0 then 1.0 else if e > 0 then 2.0 * Pow2(e - 1) else Pow2(e + 1) / 2.0
  }

  ghost predicate NearestAt(y: real, x: real, e: int, m: int) {
    && Pow2(e) <= x < Pow2(e + 1)
    && y == m as real * Pow2(e - 52)
    && -Pow2(e - 53) <= y - x <= Pow2(e - 53)
  }

  ghost predicate Nearest(y: real, x: real) {
    if x == 0.0 then y == 0.0 else exists e, m :: NearestAt(y, x, e, m)
  }

  lemma Pow2Step(e: int)
    ensures Pow2(e) == 2.0 * Pow2(e - 1)
  {}

  lemma RealDoubling(t: real, x: real)
    ensures t * (2.0 * x) == (2.0 * t) * x
  {}

  // x doubled k times.
  ghost function Doubled(x: real, k: nat): real { if k == 0 then x else 2.0 * Doubled(x, k - 1) }

  lemma {:induction false} DoubledInside(x: real, k: nat)
    ensures Doubled(2.0 * x, k) == 2.0 * Doubled(x, k)
  {
    if k > 0 {
      DoubledInside(x, k - 1);
    }
  }

  lemma {:induction false} DoubledIsTimes(x: real, k: nat)
    ensures Doubled(x, k) == Two(k) as real * x
  {
    if k > 0 {
      DoubledIsTimes(x, k - 1);
      var t := Two(k - 1) as real;
      RealDoubling(t, x);
    }
  }

  lemma {:induction false} DownByDoubling(e: int, k: nat)
    ensures Pow2(e) == Doubled(Pow2(e - k), k)
  {
    if k > 0 {
      DownByDoubling(e, k - 1);
      Pow2Step(e - k + 1);
      DoubledInside(Pow2(e - k), k - 1);
    }
  }

  lemma Pow2Down(e: int, k: nat)
    ensures Pow2(e) == Two(k) as real * Pow2(e - k)
  {
    DownByDoubling(e, k);
    DoubledIsTimes(Pow2(e - k), k);
  }

  lemma TwoTo53()
    ensures Two(52) == TWO_TO_52 && Two(53) == 2 * TWO_TO_52
    ensures Two(30) == 1_073_741_824
  {
    assert Two(3) == 8 && Two(13) == 8192 && Two(17) == 131072;
    TwoAdds(13, 13);
    TwoAdds(26, 26);
    TwoAdds(13, 17);
  }

  lemma Pow2Down53(e: int)
    ensures Pow2(e) == 9_007_199_254_740_992.0 * Pow2(e - 53)
  {
    TwoTo53();
    Pow2Down(e, 53);
  }

  lemma WithinRoundoff(y: real, x: real, step: real)
    requires 9_007_199_254_740_992.0 * step <= x && -step <= y - x <= step
    ensures Rounded(y, x)
  {}

  // A nearest double is within the relative error the interval was bounded for.
  lemma NearestIsRounded(y: real, x: real)
    requires x > 0.0 && Nearest(y, x)
    ensures Rounded(y, x)
  {
    var e, m :| NearestAt(y, x, e, m);
    Pow2Down53(e);
    WithinRoundoff(y, x, Pow2(e - 53));
  }

  // The rounded reciprocal of a rate in whole numbers: it is n / (2^52 2^s) for the power of two above
  // the rate, and n is a nearest whole number.
  lemma RoundedReciprocal(hz: nat, secsf: real, e: int, n: int) returns (s: nat)
    requires hz >= 2 && NearestAt(secsf, 1.0 / hz as real, e, n)
    ensures hz <= Two(s) < 2 * hz
    ensures secsf * (TWO_TO_52 * Two(s)) as real == n as real
    ensures 0 - hz <= 2 * (n * hz - TWO_TO_52 * Two(s)) <= hz
  {
    var x := 1.0 / hz as real;
    assert x * hz as real == 1.0;
    ExponentOfReciprocal(x, hz as real, e);
    s := -e;
    var unit := Pow2(e - 53);
    GridOfReciprocal(s, e);
    Pow2Step(e + 1);
    Pow2Step(e - 52);
    PowerAboveRate(hz, Two(s), x, Pow2(e));
    WholeReciprocal(hz, TWO_TO_52 * Two(s), n, secsf, x, unit);
  }

  lemma GridOfReciprocal(s: nat, e: int)
    requires e + s == 0
    ensures Two(s) as real * Pow2(e) == 1.0
    ensures (2 * (TWO_TO_52 * Two(s))) as real * Pow2(e - 53) == 1.0
  {
    Pow2Down(0, s);
    Pow2Down53(e);
    UnitOfReciprocal(Two(s), Pow2(e - 53), Pow2(e));
  }

  lemma ExponentOfReciprocal(x: real, h: real, e: int)
    requires h >= 2.0 && x * h == 1.0 && Pow2(e) <= x
    ensures e < 0
  {
    if e >= 0 {
      Pow2Down(e, e);
      RealMulMonotone(1.0, Two(e) as real, 1.0);
      RealMulMonotone(Pow2(e), x, h);
      RealMulMonotone(1.0, Pow2(e), h);
    }
  }

  lemma PowerAboveRate(hz: nat, t: nat, x: real, p: real)
    requires hz > 0 && x * hz as real == 1.0 && t as real * p == 1.0 && p <= x < 2.0 * p && p > 0.0
    ensures hz <= t < 2 * hz
  {
    var (h, r) := (hz as real, t as real);
    RealMulMonotone(p, x, h);
    AtMostInverse(h, r, p);
    var h2 := 2.0 * h;
    AboveOne(x, p, h, h2);
    BelowInverse(r, h2, p);
  }

  lemma AboveOne(x: real, p: real, h: real, h2: real)
    requires x * h == 1.0 && x < 2.0 * p && h > 0.0 && h2 == 2.0 * h
    ensures 1.0 < h2 * p
  {
    var (p2, z) := (2.0 * p, p * h);
    RealMulStrict(x, p2, h);
    assert p2 * h == 2.0 * z;
    assert 1.0 < 2.0 * z;
    assert h2 * p == 2.0 * z;
  }

  lemma RealCancel(a: real, b: real, c: real)
    requires c > 0.0
    ensures a * c < b * c ==> a < b
  {
    if b <= a {
      RealMulMonotone(b, a, c);
    }
  }

  lemma AtMostInverse(h: real, r: real, p: real)
    requires p > 0.0 && p * h <= 1.0 && r * p == 1.0
    ensures h <= r
  {
    if h > r {
      RealMulStrict(r, h, p);
    }
  }

  lemma BelowInverse(r: real, h: real, p: real)
    requires p > 0.0 && r * p == 1.0 && 1.0 < h * p
    ensures r < h
  {
    var (rp, hp) := (r * p, h * p);
    assert rp < hp;
    RealCancel(r, h, p);
  }

  lemma UnitOfReciprocal(t: nat, unit: real, p: real)
    requires t as real * p == 1.0 && p == 9_007_199_254_740_992.0 * unit
    ensures (2 * (TWO_TO_52 * t)) as real * unit == 1.0
  {
    var r := t as real;
    assert (2 * (TWO_TO_52 * t)) as real == 9_007_199_254_740_992.0 * r;
    RealAssociates(r, 9_007_199_254_740_992.0, unit);
  }

  lemma RealAssociates(a: real, b: real, c: real)
    ensures a * (b * c) == (a * b) * c
  {}

  // The bounds on the error, multiplied out.
  lemma WholeReciprocal(hz: nat, grid: nat, n: int, secsf: real, x: real, unit: real)
    requires hz > 0 && x * hz as real == 1.0 && (2 * grid) as real * unit == 1.0
    requires secsf == n as real * (2.0 * unit) && -unit <= secsf - x <= unit
    ensures secsf * grid as real == n as real
    ensures 0 - hz <= 2 * (n * hz - grid) <= hz
  {
    var (h, g, r) := (hz as real, grid as real, n as real);
    assert (2 * grid) as real == 2.0 * g;
    assert 2.0 * g * unit == 1.0;
    assert secsf * g == r by {
      RealAssociates(r, 2.0 * unit, g);
    }
    var error := (secsf - x) * h;
    RealMulMonotone(-unit, secsf - x, h);
    RealMulMonotone(secsf - x, unit, h);
    assert error == secsf * h - 1.0;
    var scaled := error * (2.0 * g);
    RealMulMonotone(-unit * h, error, 2.0 * g);
    RealMulMonotone(error, unit * h, 2.0 * g);
    assert unit * h * (2.0 * g) == h;
    assert scaled == 2.0 * (r * h) - 2.0 * g;
    ProductAsReal(n, hz);
  }

  // The product of 10^9 and the rounded reciprocal falls below the whole quotient only if the error of the
  // reciprocal is large: with the quotient q, the reciprocal (N - d) / (N hz) and a grid of steps 1 / G.
  lemma ProductBelow(q: nat, d: int, grid: nat, steps: nat, m: int, x: real, y: real)
    requires grid > 0 && steps > 0
    requires x * grid as real == (q * grid - q * d) as real
    requires y * steps as real == m as real && (x - y) * (2 * steps) as real <= 1.0
    requires y < q as real
    ensures grid <= 2 * (steps * (q * d))
  {
    var (g, r) := (grid as real, steps as real);
    ProductAsReal(q, steps);
    RealMulStrict(y, q as real, r);
    assert m <= q * steps - 1;
    assert (2 * steps) as real == 2.0 * r;
    assert x * (2.0 * r) <= 2.0 * (y * r) + 1.0 by {
      assert (x - y) * (2.0 * r) == x * (2.0 * r) - 2.0 * (y * r);
    }
    assert x * (2.0 * r) <= (2 * (q * steps) - 1) as real;
    ScaledBound(x, 2 * steps, 2 * (q * steps) - 1, grid, q * grid - q * d);
    WholeBound(q, d, grid, steps);
  }

  lemma ScaledBound(x: real, a: nat, b: int, grid: nat, p: int)
    requires grid > 0 && x * a as real <= b as real && x * grid as real == p as real
    ensures p * a <= b * grid
  {
    var (g, r) := (grid as real, a as real);
    RealMulMonotone(x * r, b as real, g);
    assert (x * r) * g == (x * g) * r;
    ProductAsReal(p, a);
    ProductAsReal(b, grid);
  }

  lemma WholeBound(q: nat, d: int, grid: nat, steps: nat)
    requires (q * grid - q * d) * (2 * steps) <= (2 * (q * steps) - 1) * grid
    ensures grid <= 2 * (steps * (q * d))
  {
    var (a, b) := (q * grid, q * d);
    assert (a - b) * (2 * steps) == 2 * (a * steps) - 2 * (b * steps);
    assert (2 * (q * steps) - 1) * grid == 2 * ((q * steps) * grid) - grid;
    assert a * steps == (q * steps) * grid by {
      Associates(q, grid, steps);
      Associates(q, steps, grid);
    }
  }

  lemma ExponentBelow30(e: int, x: real)
    requires Pow2(e) <= x < 1_073_741_824.0
    ensures e < 30
  {
    if e >= 30 {
      Pow2Down(e, e);
      TwoMonotone(30, e);
      TwoTo53();
    }
  }

  // The grid of a product below 2^30, in whole numbers.
  lemma GridOfProduct(y: real, x: real, e: int, m: int) returns (steps: nat)
    requires NearestAt(y, x, e, m) && e < 30
    ensures steps == Two(52 - e)
    ensures y * steps as real == m as real && (x - y) * (2 * steps) as real <= 1.0
  {
    steps := Two(52 - e);
    var (r, unit) := (steps as real, Pow2(e - 53));
    Pow2Down(0, 52 - e);
    Pow2Step(e - 52);
    assert r * (2.0 * unit) == 1.0;
    RealAssociates(m as real, 2.0 * unit, r);
    RealMulMonotone(x - y, unit, 2.0 * r);
    assert unit * (2.0 * r) == r * (2.0 * unit);
    assert (2 * steps) as real == 2.0 * r;
  }

  // The product is within one half of the quotient, so the power of two above it is above that as well.
  lemma PowerAboveProduct(q: nat, x: real, e: int)
    requires q >= 1 && q as real - 0.5 < x < Pow2(e + 1)
    ensures e + 1 >= 0 && q <= Two(e + 1)
  {
    if e + 1 < 0 {
      var k := -(e + 1);
      Pow2Down(0, k);
      RealMulMonotone(2.0, Two(k) as real, Pow2(e + 1));
    } else {
      Pow2Down(e + 1, e + 1);
    }
  }

  lemma CloseBelow(q: nat, d: nat, hz: nat, grid: nat, x: real)
    requires hz * q == SECOND && 2 * d <= hz && grid >= TWO_TO_52
    requires x * grid as real == (q * grid - q * d) as real
    ensures q as real - 0.5 < x
  {
    MulMonotone(2 * d, hz, q);
    assert 2 * (q * d) <= SECOND < grid;
    var (g, r) := (grid as real, q as real);
    ProductAsReal(q, grid);
    assert x * g == r * g - (q * d) as real;
    var half := r - 0.5;
    assert half * g == r * g - 0.5 * g;
    RealCancel(half, x, g);
  }

  lemma ProductOfReciprocal(hz: nat, q: nat, grid: nat, n: int, d: int, secsf: real, x: real)
    requires hz * q == SECOND && secsf * grid as real == n as real
    requires d == grid - n * hz && x == 1_000_000_000.0 * secsf
    ensures x * grid as real == (q * grid - q * d) as real
  {
    var (g, z) := (grid as real, n as real);
    assert x * g == 1_000_000_000.0 * z;
    assert q * d == q * grid - q * (n * hz);
    Associates(q, n, hz);
    Associates(n, q, hz);
    assert q * grid - q * d == SECOND * n;
  }

  lemma ErrorIsSmall(grid: nat, p: nat, steps: nat, t: nat, qd: int)
    requires t > 0 && grid == TWO_TO_52 * p && 4 * qd < p * t && steps * t == 2 * TWO_TO_52
    ensures grid > 2 * (steps * qd)
  {
    assert t * (TWO_TO_52 * p) == TWO_TO_52 * (p * t);
    assert t * (2 * (steps * qd)) == 2 * ((steps * t) * qd);
    CancelFactor(t, 2 * (steps * qd), grid);
  }

  lemma ReciprocalTimesBillion(hz: nat, q: nat, secsf: real, x: real, e: int, n: int)
    returns (s: nat, grid: nat, d: int)
    requires hz >= 2 && hz * q == SECOND && x == 1_000_000_000.0 * secsf
    requires NearestAt(secsf, 1.0 / hz as real, e, n)
    ensures hz <= Two(s) < 2 * hz && grid == TWO_TO_52 * Two(s)
    ensures d == grid - n * hz && 2 * d <= hz
    ensures x * grid as real == (q * grid - q * d) as real
  {
    s := RoundedReciprocal(hz, secsf, e, n);
    grid := TWO_TO_52 * Two(s);
    d := grid - n * hz;
    ProductOfReciprocal(hz, q, grid, n, d, secsf, x);
  }

  lemma NotBelow(hz: nat, q: nat, s: nat, grid: nat, n: int, d: int, x: real, y: real, e: int, m: int)
    requires hz * q == SECOND && hz <= Two(s) < 2 * hz && grid == TWO_TO_52 * Two(s)
    requires d == grid - n * hz && 2 * d <= hz
    requires x * grid as real == (q * grid - q * d) as real
    requires x < 1_073_741_824.0 && NearestAt(y, x, e, m)
    ensures q as real <= y
  {
    ExponentBelow30(e, x);
    var steps := GridOfProduct(y, x, e, m);
    TooLow(hz, q, s, grid, n, d, x, e, steps);
    if y < q as real {
      ProductBelow(q, d, grid, steps, m, x, y);
    }
  }

  // At a rate that divides 10^9 the computed product is never below the whole quotient.
  lemma NeverBelow(hz: nat, q: nat, secsf: real, x: real, y: real)
    requires hz >= 2 && hz * q == SECOND && x == 1_000_000_000.0 * secsf
    requires Nearest(secsf, 1.0 / hz as real) && Nearest(y, x)
    requires 0.0 < x < 1_073_741_824.0
    ensures q as real <= y
  {
    var e1, n :| NearestAt(secsf, 1.0 / hz as real, e1, n);
    var e, m :| NearestAt(y, x, e, m);
    var s, grid, d := ReciprocalTimesBillion(hz, q, secsf, x, e1, n);
    NotBelow(hz, q, s, grid, n, d, x, y, e, m);
  }

  // An error as large as that is ruled out.
  lemma TooLow(hz: nat, q: nat, s: nat, grid: nat, n: int, d: int, x: real, e: int, steps: nat)
    requires hz * q == SECOND && hz <= Two(s) < 2 * hz && grid == TWO_TO_52 * Two(s)
    requires d == grid - n * hz && 2 * d <= hz
    requires x * grid as real == (q * grid - q * d) as real
    requires e < 30 && x < Pow2(e + 1) && steps == Two(52 - e)
    ensures grid > 2 * (steps * (q * d))
  {
    if d <= 0 {
      MulMonotone(d, 0, q);
      MulMonotone(q * d, 0, steps);
    } else {
      if n < 0 {
        MulMonotone(n, 0, hz);
      }
      CloseBelow(q, d, hz, grid, x);
      PowerAboveProduct(q, x, e);
      TwoAdds(52 - e, e + 1);
      TwoTo53();
      DivisorRounding(hz, q, s, e + 1, n, d);
      ErrorIsSmall(grid, Two(s), steps, Two(e + 1), q * d);
    }
  }

  // What the program computes: the reciprocal, its whole part, and 10^9 times the rest, each result
  // rounded. The subtraction in between is exact, as the whole part is zero but at 1 Hz, where the
  // reciprocal is one.
  ghost predicate Computes(hz: uint32, secsf: real, nanos: real)
    requires hz > 0
  {
    Nearest(secsf, 1.0 / hz as real) && Nearest(nanos, 1_000_000_000.0 * (secsf - secsf.Floor as real))
  }

  lemma NanosAreExact(hz: uint32, secsf: real, nanos: real)
    requires hz >= 2
    requires Nearest(secsf, 1.0 / hz as real) && Nearest(nanos, 1_000_000_000.0 * secsf)
    ensures 0.0 < secsf < 1.0 && nanos.Floor == SECOND / hz
  {
    var q := SECOND / hz;
    BelowOne(hz, secsf);
    RoundedWell(hz, secsf, nanos);
    RoundedInterval(hz, secsf, nanos);
    if SECOND % hz == 0 {
      assert hz * q == SECOND;
      NeverBelow(hz, q, secsf, 1_000_000_000.0 * secsf, nanos);
      assert nanos.Floor != q - 1;
    }
  }

  lemma RoundedWell(hz: uint32, secsf: real, nanos: real)
    requires hz >= 2 && 0.0 < secsf
    requires Nearest(secsf, 1.0 / hz as real) && Nearest(nanos, 1_000_000_000.0 * secsf)
    ensures Rounded(secsf, 1.0 / hz as real) && Rounded(nanos, 1_000_000_000.0 * secsf)
  {
    assert 1.0 / hz as real > 0.0;
    NearestIsRounded(secsf, 1.0 / hz as real);
    NearestIsRounded(nanos, 1_000_000_000.0 * secsf);
  }

  // At every rate the program's interval is the exact one.
  lemma IntervalAsComputed(hz: uint32, secsf: real, nanos: real)
    requires hz > 0 && Computes(hz, secsf, nanos)
    ensures RateInterval(hz) == Some(secsf.Floor * SECOND + nanos.Floor)
    ensures secsf.Floor == 0 || secsf == 1.0
  {
    IntervalIsFloor(hz);
    if hz == 1 {
      OneIsExact(secsf);
    } else {
      BelowOne(hz, secsf);
      assert secsf - secsf.Floor as real == secsf;
      NanosAreExact(hz, secsf, nanos);
    }
  }

  lemma BelowOne(hz: nat, secsf: real)
    requires hz >= 2 && Nearest(secsf, 1.0 / hz as real)
    ensures 0.0 < secsf < 1.0 && 1_000_000_000.0 * secsf < 1_073_741_824.0
  {
    var (h, x) := (hz as real, 1.0 / hz as real);
    assert x * h == 1.0;
    if x > 0.5 {
      RealMulStrict(0.5, x, h);
    }
    if x <= 0.0 {
      RealMulMonotone(x, 0.0, h);
    }
    NearestIsRounded(secsf, x);
  }

  lemma OneIsExact(y: real)
    requires Nearest(y, 1.0 / 1 as real)
    ensures y == 1.0
  {
    var e, m :| NearestAt(y, 1.0, e, m);
    ExponentOfOne(e);
    var unit := Pow2(-53);
    Pow2Down53(0);
    Pow2Step(-52);
    ClosestToOne(y, m, unit);
  }

  lemma ExponentOfOne(e: int)
    requires Pow2(e) <= 1.0 < Pow2(e + 1)
    ensures e == 0
  {
    if e >= 1 {
      Pow2Down(e, e);
    }
    if e + 1 <= 0 {
      Pow2Down(0, -(e + 1));
      RealMulMonotone(1.0, Two(-(e + 1)) as real, Pow2(e + 1));
    }
  }

  lemma ClosestToOne(y: real, m: int, unit: real)
    requires 9_007_199_254_740_992.0 * unit == 1.0
    requires y == m as real * (2.0 * unit) && -unit <= y - 1.0 <= unit
    ensures y == 1.0
  {
    var k := m - TWO_TO_52;
    var r := k as real;
    assert m as real == r + 4_503_599_627_370_496.0;
    assert y - 1.0 == r * (2.0 * unit);
    if k >= 1 {
      RealMulMonotone(1.0, r, 2.0 * unit);
    } else if k <= -1 {
      RealMulMonotone(r, -1.0, 2.0 * unit);
    }
  }
}
