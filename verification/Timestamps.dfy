/** Capture timestamps: seconds and a fraction, added as binary64 numbers. When their order is the
    order of the times they stand for, and what becomes of it otherwise. */
module Timestamps {
  import opened Binary64

  const MICROSECONDS := 1_000_000
  const NANOSECONDS := 1_000_000_000

  /** A time as a capture file writes it. */
  datatype Time = Time(seconds: int, fraction: int, precision: int)
  {
    predicate Valid()
    {
      && 0 <= seconds < 0x1_0000_0000 && 0 <= fraction < precision
      && (precision == MICROSECONDS || precision == NANOSECONDS)
    }

    /** The time in units of its precision. */
    function Ticks(): int { seconds * precision + fraction }

    /** The fraction as the exact quotient. */
    function Part(): (q: real)
      requires Valid()
      ensures 0.0 <= q < 1.0
    {
      if precision == MICROSECONDS then fraction as real / 1000000.0 else fraction as real / 1000000000.0
    }

    /** The time in seconds as the source computes it: a rounded quotient, a rounded sum. */
    function Stamp(): real
      requires Valid()
    {
      Round(seconds as real + Round(Part()))
    }
  }

  // ----- sizes -----

  lemma Values()
    ensures Pow2(0) == 1.0 && Pow2(23) == 8388608.0 && Pow2(24) == 16777216.0 && Pow2(30) == 1073741824.0
    ensures Pow2(32) == 4294967296.0
    ensures Pow2(-20) == 1.0 / 1048576.0 && Pow2(-30) == 1.0 / 1073741824.0
    ensures Pow2(-22) == Pow2(-20) / 4.0 && Pow2(-28) == 4.0 * Pow2(-30) && Pow2(-29) == 2.0 * Pow2(-30)
    ensures Pow2(-31) == Pow2(-30) / 2.0 && 0.0 < Pow2(-54) <= Pow2(-50) == Pow2(-30) / 1048576.0
  {
    hide Pow2;
    Thousandfold(0); Thousandfold(10); Thousandfold(20);
    Thousandfold(-10); Thousandfold(-20); Thousandfold(-30); Thousandfold(-40); Thousandfold(-50);
    Pow2Step(20); Pow2Step(21); Pow2Step(22); Pow2Step(23); Pow2Step(30); Pow2Step(31);
    Pow2Step(-22); Pow2Step(-21); Pow2Step(-29); Pow2Step(-30); Pow2Step(-31);
    Pow2Grows(-54, -50);
  }

  lemma SmallInRange(x: real)
    requires 0.0 <= x <= 4294967296.0
    ensures InRange(x)
  {
    hide Pow2;
    Values();
    Pow2Grows(32, 1023);
  }

  /** The rounded fraction is within a tiny unit of the exact one, and below the next second. */
  lemma PartRounded(t: Time)
    requires t.Valid()
    ensures Distance(Round(t.Part()), t.Part()) <= Pow2(-54)
    ensures 0.0 <= Round(t.Part()) < 1.0
    ensures InRange(t.Part()) && InRange(t.seconds as real + Round(t.Part()))
  {
    hide Pow2, Round;
    Values();
    var q := t.Part();
    SmallInRange(q);
    RoundError(q, -53);
    Pow2Step(-54);
    assert q <= 1.0 - 1.0 / 1000000000.0;
    ZeroRounded();
    RoundMonotone(0.0, q);
    SmallInRange(t.seconds as real + Round(q));
  }

  lemma ZeroRounded()
    ensures InRange(0.0) && Round(0.0) == 0.0
  {
    hide Pow2, Round, Mul;
    SmallInRange(0.0);
    MulSum(0.0, 0.0, Pow2(0));
    Pow2Grows(0, 53);
    RoundExact(0, 0);
  }

  // ----- rounding keeps the order -----

  /** Times in order have timestamps in order. */
  lemma StampsKeepOrder(a: Time, b: Time)
    requires a.Valid() && b.Valid() && a.precision == b.precision && a.Ticks() <= b.Ticks()
    ensures a.Stamp() <= b.Stamp()
  {
    hide Pow2, Round;
    PartRounded(a);
    PartRounded(b);
    TicksCompare(a, b);
    if a.seconds == b.seconds { RoundMonotone(a.Part(), b.Part()); }
    RoundMonotone(a.seconds as real + Round(a.Part()), b.seconds as real + Round(b.Part()));
  }

  lemma NotNegative(t: Time)
    requires t.Valid()
    ensures 0.0 <= t.Stamp()
  {
    hide Pow2, Round;
    PartRounded(t);
    ZeroRounded();
    RoundMonotone(0.0, t.seconds as real + Round(t.Part()));
  }

  lemma TicksCompare(a: Time, b: Time)
    requires a.Valid() && b.Valid() && a.precision == b.precision
    ensures a.Ticks() <= b.Ticks() <==> a.seconds < b.seconds || (a.seconds == b.seconds && a.fraction <= b.fraction)
    ensures a.precision == MICROSECONDS ==> a.Ticks() as real == (a.seconds as real + a.Part()) * 1000000.0
    ensures a.precision == NANOSECONDS ==> a.Ticks() as real == (a.seconds as real + a.Part()) * 1000000000.0
  {
  }

  /** A timestamp below 2^k seconds is off by at most half a unit of 2^(k-53), and a little. */
  lemma StampError(t: Time, k: int)
    requires t.Valid() && 0 <= k <= 32 && (t.seconds + 1) as real <= Pow2(k)
    ensures Distance(t.Stamp(), t.seconds as real + t.Part()) <= Pow2(k - 54) + Pow2(-54)
  {
    hide Pow2, Round;
    PartRounded(t);
    RoundError(t.seconds as real + Round(t.Part()), k - 53);
    Pow2Step(k - 54);
  }

  // ----- when it is exactly the order of times -----

  /** Microseconds always, and nanoseconds in the first 2^23 seconds: timestamps are in order exactly
      when the times are. */
  lemma StampsOrderTicks(a: Time, b: Time)
    requires a.Valid() && b.Valid() && a.precision == b.precision
    requires a.precision == NANOSECONDS ==> a.seconds < 0x80_0000 && b.seconds < 0x80_0000
    ensures a.Stamp() <= b.Stamp() <==> a.Ticks() <= b.Ticks()
  {
    hide Pow2, Round;
    if a.Ticks() <= b.Ticks() {
      StampsKeepOrder(a, b);
    } else {
      var k := if a.precision == MICROSECONDS then 32 else 23;
      Values();
      StampError(a, k);
      StampError(b, k);
      TicksCompare(a, b);
      TicksCompare(b, a);
      assert a.Ticks() as real >= b.Ticks() as real + 1.0;
    }
  }

  /** At any time, nanosecond timestamps in order allow the times to go back by 476 ns at most. */
  lemma StampsAlmostOrder(a: Time, b: Time)
    requires a.Valid() && b.Valid() && a.precision == b.precision == NANOSECONDS
    ensures a.Stamp() <= b.Stamp() ==> b.Ticks() >= a.Ticks() - 476
  {
    hide Pow2, Round;
    Values();
    StampError(a, 32);
    StampError(b, 32);
    TicksCompare(a, b);
    TicksCompare(b, a);
  }

  // ----- when it is not -----

  /** A part nearest to c units of the sum's last place is rounded to them. */
  lemma OnGrid(seconds: int, d: real, e: int, c: int)
    requires e <= 0
    ensures Place(seconds as real + d) == e && Mul(c as real - 0.5, Pow2(e)) < d < Mul(c as real + 0.5, Pow2(e)) ==>
              Round(seconds as real + d) == seconds as real + Mul(c as real, Pow2(e))
  {
    hide Pow2, Exponent, Mul, Ratio, Nearest;
    var u := Pow2(e);
    var n := WholeSeconds(seconds, e);
    MulSum(n as real, c as real, u);
    MulSum(n as real, c as real - 0.5, u);
    MulSum(n as real, c as real + 0.5, u);
    var y := Ratio(seconds as real + d, u);
    MulOrder(y, (n + c) as real - 0.5, u);
    MulOrder((n + c) as real + 0.5, y, u);
    assert n as real + (c as real - 0.5) == (n + c) as real - 0.5;
    assert n as real + (c as real + 0.5) == (n + c) as real + 0.5;
    if (n + c) as real - 0.5 < y < (n + c) as real + 0.5 { NearestIs(y, n + c); }
    assert (n + c) as real == n as real + c as real;
  }

  lemma WholeSeconds(seconds: int, e: int) returns (n: int)
    requires e <= 0
    ensures Mul(n as real, Pow2(e)) == seconds as real
  {
    hide Pow2, Mul;
    n := Multiple(seconds, 0, e);
    Pow2Step(0);
    MulSum(0.0, 0.0, seconds as real);
    MulAssociates(seconds as real, 1.0, 0.0);
  }

  /** The last place of a timestamp between 2^k and 2^(k+1) seconds. */
  lemma StampPlace(t: Time, k: int)
    requires t.Valid() && 0 <= k <= 31 && Pow2(k) <= t.seconds as real
    ensures var x := t.seconds as real + Round(t.Part());
            InRange(x) && k - 52 <= Place(x) <= -21 && ((t.seconds + 1) as real <= Pow2(k + 1) ==> Place(x) == k - 52)
  {
    hide Pow2, Round, Exponent;
    var x := t.seconds as real + Round(t.Part());
    PartRounded(t);
    PlaceAtLeast(x, k - 52);
    Values();
    PlaceAtMost(x, -21);
    if (t.seconds + 1) as real <= Pow2(k + 1) { PlaceAtMost(x, k - 52); }
  }

  /** The beginning of a second has its timestamp, from 2^24 seconds on also its first nanosecond, and
      from 2^30 seconds on its first 118 nanoseconds. */
  lemma FirstNanoseconds(t: Time)
    requires t.Valid() && t.precision == NANOSECONDS
    requires || (t.seconds >= 0x80_0000 && t.fraction == 0) || (t.seconds >= 0x100_0000 && t.fraction <= 1)
             || (t.seconds >= 0x4000_0000 && t.fraction <= 118)
    ensures t.Stamp() == t.seconds as real
  {
    hide Pow2, Round, Exponent, Mul;
    var d := Round(t.Part());
    var x := t.seconds as real + d;
    var k := if t.seconds >= 0x4000_0000 then 30 else if t.seconds >= 0x100_0000 then 24 else 23;
    if t.fraction == 0 { ZeroRounded(); }
    Values();
    PartRounded(t);
    StampPlace(t, k);
    Pow2Grows(k - 52, Place(x));
    Halves(Pow2(Place(x)));
    OnGrid(t.seconds, d, Place(x), 0);
  }

  lemma Halves(u: real)
    ensures Mul(0.0, u) == 0.0 && Mul(1.0, u) == u && Mul(-0.5, u) == -0.5 * u && Mul(0.5, u) == 0.5 * u
    ensures Mul(1.5, u) == 1.5 * u
  {
  }

  /** Between 2^23 and 2^24 seconds the first and second nanosecond share a timestamp. */
  lemma SecondNanosecond(t: Time)
    requires t.Valid() && t.precision == NANOSECONDS && 0x80_0000 <= t.seconds < 0x100_0000 && 1 <= t.fraction <= 2
    ensures t.Stamp() == t.seconds as real + Pow2(-29)
  {
    hide Pow2, Round, Exponent, Mul;
    var d := Round(t.Part());
    Values();
    PartRounded(t);
    StampPlace(t, 23);
    Halves(Pow2(-29));
    OnGrid(t.seconds, d, -29, 1);
  }

  ghost predicate Distinguishes(seconds: int)
    requires 0 <= seconds < 0x1_0000_0000
  {
    forall f, g :: 0 <= f < g < NANOSECONDS ==>
      Time(seconds, f, NANOSECONDS).Stamp() < Time(seconds, g, NANOSECONDS).Stamp()
  }

  /** Timestamps tell the nanoseconds of a second apart in the first 2^23 seconds, and in no later one. */
  lemma NanosecondsDistinguished(seconds: int)
    requires 0 <= seconds < 0x1_0000_0000
    ensures Distinguishes(seconds) <==> seconds < 0x80_0000
  {
    hide Round;
    if seconds < 0x80_0000 {
      forall f, g | 0 <= f < g < NANOSECONDS
        ensures Time(seconds, f, NANOSECONDS).Stamp() < Time(seconds, g, NANOSECONDS).Stamp()
      {
        StampsOrderTicks(Time(seconds, g, NANOSECONDS), Time(seconds, f, NANOSECONDS));
      }
    } else {
      var (f, g) := Shared(seconds);
      SharedStamp(seconds);
    }
  }

  /** Two nanoseconds that share a timestamp. */
  function Shared(seconds: int): (int, int) { if seconds < 0x100_0000 then (1, 2) else (0, 1) }

  lemma SharedStamp(seconds: int)
    requires 0x80_0000 <= seconds < 0x1_0000_0000
    ensures var (f, g) := Shared(seconds);
            Time(seconds, f, NANOSECONDS).Stamp() == Time(seconds, g, NANOSECONDS).Stamp()
  {
    hide Round;
    var (f, g) := Shared(seconds);
    if seconds < 0x100_0000 {
      SecondNanosecond(Time(seconds, f, NANOSECONDS));
      SecondNanosecond(Time(seconds, g, NANOSECONDS));
    } else {
      FirstNanoseconds(Time(seconds, f, NANOSECONDS));
      FirstNanoseconds(Time(seconds, g, NANOSECONDS));
    }
  }

  /** The 476 ns are reached. */
  lemma AlmostOrderIsTight()
    ensures Time(0x8000_0000, 715, NANOSECONDS).Stamp() == Time(0x8000_0000, 239, NANOSECONDS).Stamp()
  {
    hide Pow2, Round, Exponent, Mul;
    Values();
    Pow2Step(-21);
    Pow2Step(30);
    Halves(Pow2(-21));
    var a, b := Time(0x8000_0000, 715, NANOSECONDS), Time(0x8000_0000, 239, NANOSECONDS);
    PartRounded(a);
    StampPlace(a, 31);
    OnGrid(a.seconds, Round(a.Part()), -21, 1);
    PartRounded(b);
    StampPlace(b, 31);
    OnGrid(b.seconds, Round(b.Part()), -21, 1);
  }

  // ----- the exact order of nanosecond timestamps -----

  /** A nanosecond time in units of 2^-n seconds, rounded to the nearest. */
  ghost function Units(t: Time, n: nat): int
    requires t.Valid() && t.precision == NANOSECONDS
  {
    t.seconds * Two(n) + Nearest(Mul(t.Part(), Two(n) as real))
  }

  /** A nanosecond fraction in units of 2^-n seconds is half-way between two whole numbers or well
      away from it. */
  lemma AwayFromTies(t: Time, n: nat, c: int)
    requires t.Valid() && t.precision == NANOSECONDS && n >= 9
    ensures var y := Mul(t.Part(), Two(n) as real);
            y == c as real + 0.5 || Distance(y, c as real + 0.5) >= 1.0 / 3906250.0
  {
    hide Pow2, Two, Mul;
    var w := Two(n - 9);
    assert Two(n) == 512 * w by { Pow2Add(n - 9, 9); NineBits(); MulAssociates(Pow2(n - 9), 512.0, 0.0); Times512(w); }
    var y := Mul(t.Part(), Two(n) as real);
    assert y * 1953125.0 == (t.fraction * w) as real by { Reduced(t.fraction, w); }
    var g := 2 * (t.fraction * w) - (2 * c + 1) * 1953125;
    assert (y - (c as real + 0.5)) * 3906250.0 == g as real;
  }

  lemma NineBits()
    ensures Pow2(9) == 512.0
  {
    assert Two(4) == 16;
    assert Two(7) == 128;
    assert Two(9) == 512;
  }

  lemma Times512(w: int)
    ensures Mul(w as real, 512.0) == (512 * w) as real
  {
  }

  lemma Reduced(f: int, w: int)
    ensures Mul(f as real / 1000000000.0, (512 * w) as real) * 1953125.0 == (f * w) as real
  {
    assert (f * w) as real == f as real * w as real;
  }

  lemma Reciprocal(n: nat)
    ensures Mul(Two(n) as real, Pow2(-(n as int))) == 1.0 == Mul(Pow2(-(n as int)), Two(n) as real)
  {
    hide Pow2, Two, Mul;
    Pow2Add(-(n as int), n);
    Pow2Step(0);
    MulAssociates(Pow2(-(n as int)), Two(n) as real, 0.0);
  }

  /** A fraction half-way between two units is a binary64 number. */
  lemma TieIsExact(t: Time, n: nat, m: int)
    requires t.Valid() && n <= 29 && Mul(t.Part(), Two(n) as real) == m as real / 2.0
    ensures Round(t.Part()) == t.Part()
  {
    hide Pow2, Two, Mul, Round;
    var q, w, u := t.Part(), Two(n) as real, Pow2(-(n as int) - 1);
    Reciprocal(n);
    Pow2Step(-(n as int) - 1);
    assert Mul(w, u) == 0.5 by { MulAssociates(w, u, 0.0); Doubled(w, u); }
    MulAssociates(q, w, u);
    assert Mul(q, 0.5) == q / 2.0 by { MulAssociates(q, 0.5, 0.0); MulSum(0.0, 0.0, q); }
    assert 2.0 * Mul(m as real / 2.0, u) == Mul(m as real, u) by { HalfOf(m as real, u); }
    assert q == Mul(m as real, u);
    SmallInRange(q);
    TieBounds(t, n, m);
    RoundExact(m, -(n as int) - 1);
  }

  lemma HalfOf(m: real, u: real)
    ensures 2.0 * Mul(m / 2.0, u) == Mul(m, u)
  {
  }

  lemma TieBounds(t: Time, n: nat, m: int)
    requires t.Valid() && n <= 29 && Mul(t.Part(), Two(n) as real) == m as real / 2.0
    ensures 0 <= m && m as real < Pow2(53)
  {
    hide Pow2, Two, Mul;
    var q, w := t.Part(), Two(n) as real;
    MulSum(0.0, 0.0, w);
    MulOrder(0.0, q, w);
    MulOrder(1.0, q, w);
    Pow2Step(n);
    Pow2Grows(n + 1, 53);
  }

  /** Rounding the fraction first does not change the nearest unit: nothing is rounded twice. */
  lemma RoundedOnce(t: Time, n: nat)
    requires t.Valid() && t.precision == NANOSECONDS && 9 <= n <= 29
    ensures Nearest(Mul(Round(t.Part()), Two(n) as real)) == Nearest(Mul(t.Part(), Two(n) as real))
  {
    hide Pow2, Two, Mul, Round, Nearest;
    var w := Two(n) as real;
    var y, z := Mul(t.Part(), w), Mul(Round(t.Part()), w);
    var c := Nearest(y);
    if y == c as real + 0.5 {
      TieIsExact(t, n, 2 * c + 1);
    } else if y == c as real - 0.5 {
      TieIsExact(t, n, 2 * c - 1);
    } else {
      AwayFromTies(t, n, c);
      AwayFromTies(t, n, c - 1);
      ScaledError(t, n);
      NearestIs(z, c);
    }
  }

  lemma ScaledError(t: Time, n: nat)
    requires t.Valid() && n <= 29
    ensures Distance(Mul(Round(t.Part()), Two(n) as real), Mul(t.Part(), Two(n) as real)) < 1.0 / 3906250.0
  {
    hide Pow2, Two, Mul, Round;
    var w := Two(n) as real;
    PartRounded(t);
    MulDistance(Round(t.Part()), t.Part(), w);
    MulOrder(Distance(Round(t.Part()), t.Part()), Pow2(-54), w);
    Pow2Add(-54, n);
    Pow2Grows(n - 54, -25);
    Values();
    Pow2Step(-25); Pow2Step(-24); Pow2Step(-23);
  }

  /** Between 2^k and 2^(k+1) seconds a nanosecond timestamp is the time in units of 2^(k-52) seconds,
      rounded once to the nearest, ties to even. */
  lemma StampInUnits(t: Time, k: nat)
    requires t.Valid() && t.precision == NANOSECONDS && 23 <= k <= 31
    requires Two(k) <= t.seconds < Two(k + 1)
    ensures Mul(t.Stamp(), Two(52 - k) as real) == Units(t, 52 - k) as real
  {
    hide Pow2, Two, Mul, Nearest, Ratio, Exponent;
    var n: nat := 52 - k;
    var w, u := Two(n) as real, Pow2(k - 52);
    var x := t.seconds as real + Round(t.Part());
    StampPlace(t, k);
    Reciprocal(n);
    InUnits(x, w, u);
    MulSum(t.seconds as real, Round(t.Part()), w);
    MulWhole(t.seconds, Two(n));
    EvenProduct(t.seconds, Two(n));
    NearestShift(t.seconds * Two(n), Mul(Round(t.Part()), w));
    RoundedOnce(t, n);
    var c := Nearest(Ratio(x, u)) as real;
    MulAssociates(c, u, w);
    MulAssociates(c, 1.0, 0.0);
    MulSum(0.0, 0.0, c);
  }

  lemma InUnits(x: real, w: real, u: real)
    requires u > 0.0 && Mul(w, u) == 1.0
    ensures Ratio(x, u) == Mul(x, w)
  {
    hide Mul, Ratio;
    MulAssociates(x, w, u);
    MulAssociates(x, 1.0, 0.0);
    MulSum(0.0, 0.0, x);
    MulOrder(Ratio(x, u), Mul(x, w), u);
    MulOrder(Mul(x, w), Ratio(x, u), u);
  }

  lemma EvenProduct(a: int, b: int)
    requires b % 2 == 0
    ensures a * b % 2 == 0
  {
    assert a * b == 2 * (a * (b / 2));
  }

  /** The number of whole doublings in the seconds. */
  ghost function Log(seconds: int, from: nat): (k: nat)
    requires from <= 31 && Two(from) <= seconds < 0x1_0000_0000
    ensures from <= k <= 31 && Two(k) <= seconds < Two(k + 1)
    decreases 31 - from
  {
    Values();
    if seconds < Two(from + 1) then from else Log(seconds, from + 1)
  }

  ghost predicate Late(t: Time) { t.Valid() && t.precision == NANOSECONDS && t.seconds >= 0x80_0000 }

  /** A late time in units of 2^-29 seconds, rounded to as many of them as its last place spans. */
  ghost function Quanta(t: Time): int
    requires Late(t)
  {
    Values();
    var k := Log(t.seconds, 23);
    Units(t, 52 - k) * Two(k - 23)
  }

  lemma StampInQuanta(t: Time)
    requires Late(t)
    ensures Mul(t.Stamp(), Two(29) as real) == Quanta(t) as real
  {
    hide Pow2, Two, Mul, Round, Units, Log;
    Values();
    var k := Log(t.seconds, 23);
    var a, b := Two(52 - k), Two(k - 23);
    StampInUnits(t, k);
    Pow2Add(52 - k, k - 23);
    MulAssociates(t.Stamp(), a as real, b as real);
    MulWhole(Units(t, 52 - k), b);
  }

  /** When a nanosecond time may follow another: in order of time in the first 2^23 seconds, from then
      on in order of the rounded times, and between the two in order of the seconds. */
  ghost predicate MayFollow(a: Time, b: Time)
    requires a.Valid() && b.Valid() && a.precision == b.precision == NANOSECONDS
  {
    if Late(a) && Late(b) then Quanta(a) <= Quanta(b)
    else if !Late(a) && !Late(b) then a.Ticks() <= b.Ticks()
    else a.seconds < b.seconds
  }

  /** The exact order of nanosecond timestamps. */
  lemma NanosecondOrder(a: Time, b: Time)
    requires a.Valid() && b.Valid() && a.precision == b.precision == NANOSECONDS
    ensures a.Stamp() <= b.Stamp() <==> MayFollow(a, b)
  {
    hide Pow2, Two, Mul, Round, Quanta, Time.Stamp;
    if Late(a) && Late(b) {
      StampInQuanta(a);
      StampInQuanta(b);
      MulOrder(a.Stamp(), b.Stamp(), Two(29) as real);
    } else if !Late(a) && !Late(b) {
      StampsOrderTicks(a, b);
    } else if Late(b) {
      EarlyBeforeLate(a, b);
    } else {
      EarlyBeforeLate(b, a);
    }
  }

  lemma EarlyBeforeLate(a: Time, b: Time)
    requires a.Valid() && a.precision == NANOSECONDS && !Late(a) && Late(b)
    ensures a.Stamp() < 8388608.0 <= b.Stamp()
  {
    hide Pow2, Round;
    Values();
    StampError(a, 23);
    var start := Time(0x80_0000, 0, NANOSECONDS);
    FirstNanoseconds(start);
    TicksCompare(start, b);
    StampsKeepOrder(start, b);
  }
}
