/** Non-negative IEEE 754 binary64 numbers as the reals they stand for, and the rounding of a real to
    the nearest of them, ties to even. Values stay below 2^1023, so nothing overflows. */
module Binary64 {
  const MIN_EXPONENT := -1074
  const MAX_EXPONENT := 971

  // ----- products, named so that proofs can treat them as terms -----

  function Mul(a: real, b: real): real { a * b }

  function Ratio(x: real, u: real): (q: real)
    requires u > 0.0
    ensures Mul(q, u) == x
  {
    x / u
  }

  lemma MulOrder(a: real, b: real, u: real)
    requires u > 0.0
    ensures a <= b <==> Mul(a, u) <= Mul(b, u)
  {
    if a < b { assert (b - a) * u > 0.0; }
    if b < a { assert (a - b) * u > 0.0; }
  }

  lemma MulSum(a: real, b: real, u: real)
    ensures Mul(a + b, u) == Mul(a, u) + Mul(b, u)
    ensures Mul(a - b, u) == Mul(a, u) - Mul(b, u)
    ensures Mul(1.0, u) == u && Mul(0.5, u) == u / 2.0
  {
  }

  lemma MulAssociates(a: real, b: real, c: real)
    ensures Mul(Mul(a, b), c) == Mul(a, Mul(b, c))
    ensures Mul(a, b) == Mul(b, a)
  {
  }

  lemma MulWhole(m: int, n: int)
    ensures Mul(m as real, n as real) == (m * n) as real
  {
  }

  // ----- powers of two -----

  function Pow2(e: int): (p: real)
    ensures p > 0.0
    decreases if e < 0 then -e else e
  {
    if e == 0 then 1.0 else if e > 0 then 2.0 * Pow2(e - 1) else Pow2(e + 1) / 2.0
  }

  lemma Pow2Step(e: int)
    ensures Pow2(0) == 1.0
    ensures Pow2(e + 1) == 2.0 * Pow2(e)
  {
  }

  lemma {:induction false} Pow2Add(a: int, b: nat)
    ensures Pow2(a + b) == Mul(Pow2(a), Pow2(b))
  {
    hide Pow2, Mul;
    Pow2Step(0);
    if b == 0 {
      MulSum(0.0, 0.0, Pow2(a));
      MulAssociates(Pow2(a), 1.0, 1.0);
    } else {
      Pow2Add(a, b - 1);
      Pow2Step(a + b - 1);
      Pow2Step(b - 1);
      Doubled(Pow2(a), Pow2(b - 1));
    }
  }

  lemma Doubled(p: real, q: real)
    ensures 2.0 * Mul(p, q) == Mul(p, 2.0 * q)
  {
  }

  lemma {:induction false} Pow2Grows(a: int, b: int)
    requires a <= b
    ensures Pow2(a) <= Pow2(b) && (a < b ==> 2.0 * Pow2(a) <= Pow2(b))
    decreases b - a
  {
    hide Pow2;
    if a < b {
      Pow2Grows(a, b - 1);
      Pow2Step(b - 1);
    }
  }

  /** A power of two with a natural exponent is a whole number, even from the second on. */
  function Two(n: nat): (k: nat)
    ensures k as real == Pow2(n) && (n > 0 ==> k % 2 == 0)
  {
    if n == 0 then 1 else 2 * Two(n - 1)
  }

  lemma Thousandfold(e: int)
    ensures Pow2(e + 10) == 1024.0 * Pow2(e)
  {
    assert Two(4) == 16;
    assert Two(7) == 128;
    assert Two(10) == 1024;
    Pow2Add(e, 10);
  }

  // ----- rounding to whole numbers -----

  /** The nearest whole number, ties to even. */
  function Nearest(y: real): (n: int)
    ensures y - 0.5 <= n as real <= y + 0.5
  {
    var n := y.Floor;
    var d := y - n as real;
    if d < 0.5 || (d == 0.5 && n % 2 == 0) then n else n + 1
  }

  lemma NearestMonotone(y: real, z: real)
    requires y <= z
    ensures Nearest(y) <= Nearest(z)
  {
    if y.Floor < z.Floor { assert Nearest(y) <= y.Floor + 1 <= z.Floor; }
  }

  lemma NearestIs(y: real, n: int)
    requires n as real - 0.5 < y < n as real + 0.5
    ensures Nearest(y) == n
  {
  }

  lemma NearestShift(n: int, y: real)
    requires n % 2 == 0
    ensures Nearest(n as real + y) == n + Nearest(y)
  {
    assert (n as real + y).Floor == n + y.Floor;
  }

  function Distance(a: real, b: real): real { if a < b then b - a else a - b }

  /** No whole number is nearer. */
  lemma NearestIsNearest(y: real, n: int)
    ensures Distance(Nearest(y) as real, y) <= Distance(n as real, y)
  {
    var f := y.Floor;
    var d := y - f as real;
    assert Distance(Nearest(y) as real, y) == if d <= 0.5 then d else 1.0 - d;
    if n <= f {
      assert n as real <= f as real;
    } else {
      assert n as real >= f as real + 1.0;
    }
  }

  // ----- rounding to binary64 -----

  ghost predicate InRange(x: real) { 0.0 <= x < Pow2(1023) }

  /** The exponent of the last place of x: the least, from e on, whose 53 bits reach beyond x. */
  function Exponent(x: real, e: int): (r: int)
    requires e <= MAX_EXPONENT
    ensures e <= r <= MAX_EXPONENT
    ensures r < MAX_EXPONENT ==> x < Pow2(r + 53)
    ensures r > e ==> Pow2(r + 52) <= x
    decreases MAX_EXPONENT - e
  {
    if e == MAX_EXPONENT || x < Pow2(e + 53) then e else Exponent(x, e + 1)
  }

  function Place(x: real): int { Exponent(x, MIN_EXPONENT) }

  function Round(x: real): real
  {
    var u := Pow2(Place(x));
    Mul(Nearest(Ratio(x, u)) as real, u)
  }

  /** The last place of a number is small enough to resolve it and no smaller than 53 bits allow. */
  lemma PlaceBounds(x: real)
    requires InRange(x)
    ensures MIN_EXPONENT <= Place(x) && x < Pow2(Place(x) + 53)
    ensures Place(x) > MIN_EXPONENT ==> Pow2(Place(x) + 52) <= x
  {
    hide Pow2, Exponent;
    if Place(x) == MAX_EXPONENT { Pow2Grows(1023, Place(x) + 53); }
  }

  lemma PlaceAtMost(x: real, e: int)
    requires InRange(x) && x < Pow2(e + 53) && e >= MIN_EXPONENT
    ensures Place(x) <= e
  {
    hide Pow2, Exponent;
    PlaceBounds(x);
    if Place(x) > e { Pow2Grows(e + 53, Place(x) + 52); }
  }

  lemma PlaceAtLeast(x: real, e: int)
    requires InRange(x) && Pow2(e + 52) <= x
    ensures Place(x) >= e
  {
    hide Pow2, Exponent;
    PlaceBounds(x);
    if Place(x) < e { Pow2Grows(Place(x) + 53, e + 52); }
  }

  // ----- what rounding promises -----

  /** Rounding does not pass a multiple of the last place. */
  lemma RoundKeepsBound(x: real, n: int)
    ensures var b := Mul(n as real, Pow2(Place(x)));
            (x <= b ==> Round(x) <= b) && (x >= b ==> Round(x) >= b)
  {
    hide Pow2, Exponent, Mul, Ratio, Nearest;
    var u := Pow2(Place(x));
    var y := Ratio(x, u);
    NearestIs(n as real, n);
    MulOrder(y, n as real, u);
    MulOrder(n as real, y, u);
    MulOrder(Nearest(y) as real, n as real, u);
    MulOrder(n as real, Nearest(y) as real, u);
    if y <= n as real { NearestMonotone(y, n as real); }
    if y >= n as real { NearestMonotone(n as real, y); }
  }

  /** A number of a coarser place is a multiple of a finer one. */
  lemma Multiple(m: int, k: int, e: int) returns (n: int)
    requires e <= k
    ensures Mul(m as real, Pow2(k)) == Mul(n as real, Pow2(e))
  {
    hide Pow2, Two, Mul;
    var w := Two(k - e);
    Pow2Add(e, k - e);
    n := m * w;
    MulWhole(m, w);
    MulAssociates(m as real, w as real, Pow2(e));
    MulAssociates(Pow2(e), w as real, 0.0);
  }

  /** Rounding is monotone. */
  lemma RoundMonotone(x: real, y: real)
    requires InRange(x) && InRange(y) && x <= y
    ensures Round(x) <= Round(y)
  {
    hide Pow2, Exponent, Round, Mul;
    PlaceBounds(y);
    PlaceAtMost(x, Place(y));
    if Place(x) == Place(y) {
      SamePlaceMonotone(x, y);
    } else {
      PlaceBounds(x);
      var b := Place(y) + 52;
      Pow2Grows(Place(x) + 53, b);
      MulSum(0.0, 0.0, Pow2(b));
      var n := Multiple(1, b, Place(x));
      RoundKeepsBound(x, n);
      var n' := Multiple(1, b, Place(y));
      RoundKeepsBound(y, n');
    }
  }

  lemma SamePlaceMonotone(x: real, y: real)
    requires x <= y && Place(x) == Place(y)
    ensures Round(x) <= Round(y)
  {
    hide Pow2, Exponent, Nearest, Mul, Ratio;
    var u := Pow2(Place(x));
    MulOrder(Ratio(x, u), Ratio(y, u), u);
    NearestMonotone(Ratio(x, u), Ratio(y, u));
    MulOrder(Nearest(Ratio(x, u)) as real, Nearest(Ratio(y, u)) as real, u);
  }

  /** The finite binary64 numbers: 53 bits from some place on. */
  ghost predicate Representable(m: int, k: int)
  {
    0 <= m && m as real < Pow2(53) && MIN_EXPONENT <= k && InRange(Mul(m as real, Pow2(k)))
  }

  lemma ReachOf(m: int, k: int)
    requires Representable(m, k)
    ensures Mul(m as real, Pow2(k)) < Pow2(k + 53)
  {
    hide Pow2, Mul;
    Pow2Add(k, 53);
    MulAssociates(Pow2(k), Pow2(53), 0.0);
    MulOrder(Pow2(53), m as real, Pow2(k));
  }

  /** A binary64 number is rounded to itself. */
  lemma RoundExact(m: int, k: int)
    requires Representable(m, k)
    ensures Round(Mul(m as real, Pow2(k))) == Mul(m as real, Pow2(k))
  {
    hide Pow2, Exponent, Round, Mul;
    var x := Mul(m as real, Pow2(k));
    ReachOf(m, k);
    PlaceAtMost(x, k);
    var n := Multiple(m, k, Place(x));
    RoundKeepsBound(x, n);
  }

  /** What a number is rounded to is a binary64 number. */
  lemma RoundIsRepresentable(x: real) returns (m: int, k: int)
    requires 0.0 <= x <= Pow2(1022)
    ensures Representable(m, k) && Round(x) == Mul(m as real, Pow2(k))
  {
    hide Pow2, Two, Exponent, Nearest, Mul, Ratio;
    m, k := Nearest(Ratio(x, Pow2(Place(x)))), Place(x);
    Pow2Grows(1022, 1023);
    PlaceBounds(x);
    RoundAtMostPower(x, 1022);
    // 0 <= m <= 2^53
    MulAssociates(Pow2(k), Pow2(53), 0.0);
    MulSum(0.0, 0.0, Pow2(k));
    RoundKeepsBound(x, 0);
    MulOrder(0.0, m as real, Pow2(k));
    var w := Two(53);
    Pow2Add(k, 53);
    RoundKeepsBound(x, w);
    MulOrder(m as real, w as real, Pow2(k));
    if m == w {
      MulSum(0.0, 0.0, Pow2(k + 53));
      Pow2Step(0);
      Pow2Grows(0, 53);
      m, k := 1, k + 53;
    }
  }

  lemma RoundAtMostPower(x: real, n: int)
    requires 0.0 <= x <= Pow2(n) && 0 <= n < 1023
    ensures Round(x) <= Pow2(n)
  {
    hide Pow2, Exponent, Round, Mul;
    Pow2Grows(n, 1023);
    Pow2Step(0);
    Pow2Grows(0, 53);
    MulSum(0.0, 0.0, Pow2(n));
    RoundExact(1, n);
    RoundMonotone(x, Pow2(n));
  }

  /** No binary64 number is nearer than the rounded one. */
  lemma RoundIsNearest(x: real, m: int, k: int)
    requires InRange(x) && Representable(m, k)
    ensures Distance(Round(x), x) <= Distance(Mul(m as real, Pow2(k)), x)
  {
    hide Pow2, Exponent, Round, Distance, Mul;
    if Place(x) <= k {
      var n := Multiple(m, k, Place(x));
      NearestMultiple(x, n);
    } else {
      PlaceBounds(x);
      ReachOf(m, k);
      Pow2Grows(k + 53, Place(x) + 52);
      MulSum(0.0, 0.0, Pow2(Place(x) + 52));
      var n := Multiple(1, Place(x) + 52, Place(x));
      NearestMultiple(x, n);
      Nearer(Mul(m as real, Pow2(k)), Mul(n as real, Pow2(Place(x))), x);
    }
  }

  lemma Nearer(a: real, b: real, x: real)
    requires a <= b <= x
    ensures Distance(b, x) <= Distance(a, x)
  {
  }

  lemma NearestMultiple(x: real, n: int)
    ensures Distance(Round(x), x) <= Distance(Mul(n as real, Pow2(Place(x))), x)
  {
    hide Pow2, Exponent, Nearest, Distance, Mul, Ratio;
    var u := Pow2(Place(x));
    var y := Ratio(x, u);
    var a, b := Nearest(y) as real, n as real;
    NearestIsNearest(y, n);
    MulDistance(a, y, u);
    MulDistance(b, y, u);
    MulOrder(Distance(a, y), Distance(b, y), u);
  }

  lemma MulDistance(a: real, b: real, u: real)
    requires u > 0.0
    ensures Distance(Mul(a, u), Mul(b, u)) == Mul(Distance(a, b), u)
  {
    hide Mul;
    MulOrder(a, b, u);
    MulOrder(b, a, u);
    MulSum(a, b, u);
    MulSum(b, a, u);
  }

  /** A number within reach of 53 bits from place e on is rounded by at most half a unit there. */
  lemma RoundError(x: real, e: int)
    requires InRange(x) && x <= Pow2(e + 53) && MIN_EXPONENT <= e
    ensures Distance(Round(x), x) <= Pow2(e) / 2.0
  {
    hide Pow2, Exponent, Round, Mul;
    if x < Pow2(e + 53) {
      PlaceAtMost(x, e);
      Pow2Grows(Place(x), e);
      HalfPlace(x);
    } else {
      Pow2Step(52);
      Pow2Grows(0, 53);
      MulSum(0.0, 0.0, Pow2(e + 53));
      RoundExact(1, e + 53);
    }
  }

  lemma HalfPlace(x: real)
    ensures Distance(Round(x), x) <= Pow2(Place(x)) / 2.0
  {
    hide Pow2, Exponent, Nearest, Mul, Ratio;
    var u := Pow2(Place(x));
    var y := Ratio(x, u);
    var n := Nearest(y) as real;
    MulDistance(n, y, u);
    MulOrder(Distance(n, y), 0.5, u);
    MulSum(0.0, 0.0, u);
  }
}
