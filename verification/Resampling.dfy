/** What both audio converters compute: averages over windows of the microphone signal,
    quantised to signed 16-bit PCM and written little-endian. Amplitudes, rates and
    positions are exact reals. */
module Resampling {
  import opened Outcomes

  const TARGET_RATE := 16000
  const FRAME_SAMPLES := 320
  const MAX_SECONDS := 10

  datatype AudioError = UnsupportedRate | TooShort

  /** The signal whose pieces are `chunks`. */
  ghost function Flatten(chunks: seq<seq<real>>): seq<real>
  {
    if chunks == [] then [] else Flatten(chunks[..|chunks| - 1]) + chunks[|chunks| - 1]
  }

  /** The pieces of a recording follow each other. */
  lemma {:induction false} FlattenJoins(a: seq<seq<real>>, b: seq<seq<real>>)
    ensures Flatten(a + b) == Flatten(a) + Flatten(b)
    decreases |b|
  {
    if b == [] {
      assert a + b == a;
    } else {
      var n := |b| - 1;
      FlattenJoins(a, b[..n]);
      assert (a + b)[..|a + b| - 1] == a + b[..n];
    }
  }

  lemma FlattenOne(chunk: seq<real>)
    ensures Flatten([]) == [] && Flatten([chunk]) == chunk
  {
    assert [chunk][..0] == [];
  }

  // ----- windows -----

  /** The input position at which window k begins. */
  ghost function Edge(ratio: real, k: nat): real
  {
    if k == 0 then 0.0 else Edge(ratio, k - 1) + ratio
  }

  lemma {:induction false} EdgeIsProduct(ratio: real, k: nat)
    ensures Edge(ratio, k) == k as real * ratio
  {
    if k > 0 {
      EdgeIsProduct(ratio, k - 1);
      assert k as real * ratio == (k - 1) as real * ratio + ratio;
    }
  }

  lemma {:induction false} EdgeMonotone(ratio: real, i: nat, j: nat)
    requires ratio >= 1.0 && i <= j
    ensures Edge(ratio, i) <= Edge(ratio, j)
    decreases j
  {
    if i < j { EdgeMonotone(ratio, i, j - 1); }
  }

  /** How many whole windows n input samples hold. */
  ghost function Available(ratio: real, n: nat): (a: nat)
    requires ratio >= 1.0
    ensures Edge(ratio, a) <= n as real < Edge(ratio, a + 1)
  {
    CountFrom(ratio, n, 0)
  }

  ghost function CountFrom(ratio: real, n: nat, k: nat): (a: nat)
    requires ratio >= 1.0 && k as real <= Edge(ratio, k) <= n as real
    ensures Edge(ratio, a) <= n as real < Edge(ratio, a + 1)
    decreases n - k
  {
    if Edge(ratio, k + 1) <= n as real then CountFrom(ratio, n, k + 1) else k
  }

  lemma QuotientBounds(ratio: real, n: nat, a: int)
    requires ratio >= 1.0 && a == (n as real / ratio).Floor
    ensures 0 <= a && a as real * ratio <= n as real < (a + 1) as real * ratio
  {
    var q := n as real / ratio;
    assert q >= 0.0;
    assert q * ratio == n as real;
    assert q < a as real + 1.0 == (a + 1) as real;
    Scale(a as real, q, ratio);
    Scale(q, (a + 1) as real, ratio);
    assert q * ratio < (a + 1) as real * ratio;
  }

  /** The count is the integer part of n / ratio. */
  lemma AvailableIsQuotient(ratio: real, n: nat)
    requires ratio >= 1.0
    ensures Available(ratio, n) == (n as real / ratio).Floor
  {
    var a, b := (n as real / ratio).Floor, Available(ratio, n);
    QuotientBounds(ratio, n, a);
    EdgeIsProduct(ratio, a);
    EdgeIsProduct(ratio, a + 1);
    if b < a { EdgeMonotone(ratio, b + 1, a); }
    if a < b { EdgeMonotone(ratio, a + 1, b); }
  }

  lemma Scale(x: real, y: real, ratio: real)
    requires ratio >= 1.0
    ensures x <= y ==> x * ratio <= y * ratio
    ensures x < y ==> x * ratio < y * ratio
  {
    assert (y - x) * ratio == y * ratio - x * ratio;
    if x < y { assert (y - x) * ratio > 0.0; }
  }

  /** Window k is whole exactly when its end is inside the input. */
  lemma WindowWhole(ratio: real, n: nat, k: nat)
    requires ratio >= 1.0
    ensures k < Available(ratio, n) <==> Edge(ratio, k + 1) <= n as real
  {
    var a := Available(ratio, n);
    if k < a {
      EdgeMonotone(ratio, k + 1, a);
    } else {
      EdgeMonotone(ratio, a + 1, k + 1);
    }
  }

  lemma AvailableMonotone(ratio: real, m: nat, n: nat)
    requires ratio >= 1.0 && m <= n
    ensures Available(ratio, m) <= Available(ratio, n)
  {
    if Available(ratio, m) > 0 { WindowWhole(ratio, n, Available(ratio, m) - 1); }
  }

  ghost function Begin(ratio: real, k: nat): int { Edge(ratio, k).Floor }

  lemma BeginIsFloor(ratio: real, k: nat)
    ensures Begin(ratio, k) == (k as real * ratio).Floor
  {
    EdgeIsProduct(ratio, k);
  }

  /** Consecutive windows tile the input; none is empty because a window is at least one
      sample wide. */
  lemma WindowBounds(ratio: real, n: nat, k: nat)
    requires ratio >= 1.0 && k < Available(ratio, n)
    ensures 0 <= Begin(ratio, k) < Begin(ratio, k + 1) <= n
  {
    WindowWhole(ratio, n, k);
    EdgeMonotone(ratio, 0, k);
  }

  // ----- amplitudes -----

  ghost function Sum(s: seq<real>, lo: int, hi: int): real
    requires 0 <= lo <= hi <= |s|
    decreases hi - lo
  {
    if lo == hi then 0.0 else Sum(s, lo, hi - 1) + s[hi - 1]
  }

  /** Sums over neighbouring stretches add up, and a stretch of one sample is that sample. */
  lemma {:induction false} SumSplits(s: seq<real>, lo: int, mid: int, hi: int)
    requires 0 <= lo <= mid <= hi <= |s|
    ensures Sum(s, lo, hi) == Sum(s, lo, mid) + Sum(s, mid, hi)
    ensures lo < hi ==> Sum(s, lo, lo + 1) == s[lo]
    decreases hi - mid
  {
    if lo < hi { assert Sum(s, lo, lo) == 0.0; }
    if mid < hi { SumSplits(s, lo, mid, hi - 1); }
  }

  lemma {:induction false} SumConstant(s: seq<real>, lo: int, hi: int, v: real)
    requires 0 <= lo <= hi <= |s| && forall i :: lo <= i < hi ==> s[i] == v
    ensures Sum(s, lo, hi) == (hi - lo) as real * v
    decreases hi - lo
  {
    if lo < hi {
      SumConstant(s, lo, hi - 1, v);
      assert (hi - lo) as real * v == (hi - 1 - lo) as real * v + v;
    }
  }

  lemma {:induction false} SumShift(s: seq<real>, base: nat, lo: int, hi: int)
    requires base <= |s| && 0 <= lo <= hi <= |s| - base
    ensures Sum(s[base..], lo, hi) == Sum(s, lo + base, hi + base)
    decreases hi - lo
  {
    if lo < hi { SumShift(s, base, lo, hi - 1); }
  }

  lemma {:induction false} SumPrefix(s: seq<real>, t: seq<real>, lo: int, hi: int)
    requires 0 <= lo <= hi <= |s|
    ensures Sum(s + t, lo, hi) == Sum(s, lo, hi)
    decreases hi - lo
  {
    if lo < hi { SumPrefix(s, t, lo, hi - 1); }
  }

  function Clamp(x: real): (r: real)
    ensures -1.0 <= r <= 1.0
  {
    if x < -1.0 then -1.0 else if x > 1.0 then 1.0 else x
  }

  /** Amplitude scaled to the 16-bit range, before it becomes an integer. */
  function Scaled(level: real): (r: real)
    requires -1.0 <= level <= 1.0
    ensures -32768.0 <= r <= 32767.0
    ensures level < 0.0 <==> r < 0.0
  {
    if level < 0.0 then level * 32768.0 else level * 32767.0
  }

  /** The clamped mean of window k. */
  ghost function Level(ratio: real, s: seq<real>, k: nat): (r: real)
    requires ratio >= 1.0 && k < Available(ratio, |s|)
    ensures -1.0 <= r <= 1.0
  {
    WindowBounds(ratio, |s|, k);
    Clamp(Sum(s, Begin(ratio, k), Begin(ratio, k + 1)) / (Begin(ratio, k + 1) - Begin(ratio, k)) as real)
  }

  /** `level` is total / width, limited to the range from -1 to 1. */
  ghost predicate IsMean(level: real, total: real, width: real)
    requires width != 0.0
  {
    && (total >= width ==> level == 1.0) && (total <= -width ==> level == -1.0)
    && (-width <= total <= width ==> level == total / width)
  }

  /** The level of window k is the limited mean of its samples. */
  lemma LevelIsMean(ratio: real, s: seq<real>, k: nat)
    requires ratio >= 1.0 && k < Available(ratio, |s|)
    ensures var lo, hi := Begin(ratio, k), Begin(ratio, k + 1);
            0 <= lo < hi <= |s| && IsMean(Level(ratio, s, k), Sum(s, lo, hi), (hi - lo) as real)
  {
    hide Sum, Available, CountFrom, Edge, Begin, Clamp, IsMean;
    WindowBounds(ratio, |s|, k);
    var lo, hi := Begin(ratio, k), Begin(ratio, k + 1);
    ClampedQuotient(Sum(s, lo, hi), (hi - lo) as real);
  }

  lemma ClampedQuotient(total: real, width: real)
    requires width >= 1.0
    ensures IsMean(Clamp(total / width), total, width)
  {
    var q := total / width;
    assert q * width == total;
    if q < 1.0 { Scale(q, 1.0, width); }
    if q > 1.0 { Scale(1.0, q, width); }
    if q < -1.0 { Scale(q, -1.0, width); }
    if q > -1.0 { Scale(-1.0, q, width); }
  }

  lemma LevelPrefix(ratio: real, s: seq<real>, t: seq<real>, k: nat)
    requires ratio >= 1.0 && k < Available(ratio, |s|)
    ensures k < Available(ratio, |s + t|) && Level(ratio, s + t, k) == Level(ratio, s, k)
  {
    AvailableMonotone(ratio, |s|, |s + t|);
    WindowBounds(ratio, |s|, k);
    SumPrefix(s, t, Begin(ratio, k), Begin(ratio, k + 1));
  }

  // ----- quantisation -----

  /** Rounding to nearest, halves upwards, as JavaScript's Math.round does. */
  function RoundHalfUp(x: real): int { (x + 0.5).Floor }

  /** Dropping the fraction, as DataView.setInt16 does with a non-integer. */
  function Truncate(x: real): int { if x < 0.0 then -((-x).Floor) else x.Floor }

  predicate IsInt16(v: int) { -32768 <= v <= 32767 }

  ghost function StreamCode(ratio: real, s: seq<real>, k: nat): (v: int)
    requires ratio >= 1.0 && k < Available(ratio, |s|)
    ensures IsInt16(v)
  {
    RoundHalfUp(Scaled(Level(ratio, s, k)))
  }

  ghost function BatchCode(ratio: real, s: seq<real>, k: nat): (v: int)
    requires ratio >= 1.0 && k < Available(ratio, |s|)
    ensures IsInt16(v)
  {
    Truncate(Scaled(Level(ratio, s, k)))
  }

  /** Full scale is 32767 above zero and 32768 below. */
  function Amplitude(level: real): real { if level < 0.0 then level * 32768.0 else level * 32767.0 }

  /** The stream rounds to the nearest code, halves upwards, ... */
  ghost predicate RoundsTo(x: real, code: int) { code as real - 0.5 <= x < code as real + 0.5 }

  /** ... and the batch converter drops the fraction. */
  ghost predicate CutsTo(x: real, code: int)
  {
    if x < 0.0 then code as real - 1.0 < x <= code as real else code as real <= x < code as real + 1.0
  }

  lemma CodesOfLevel(ratio: real, s: seq<real>, k: nat)
    requires ratio >= 1.0 && k < Available(ratio, |s|)
    ensures RoundsTo(Amplitude(Level(ratio, s, k)), StreamCode(ratio, s, k))
    ensures CutsTo(Amplitude(Level(ratio, s, k)), BatchCode(ratio, s, k))
  {
    hide Level, Available;
  }

  /** The distance from a scaled amplitude to the integer that truncation keeps. */
  ghost function Dropped(x: real): (r: real)
    ensures 0.0 <= r < 1.0
  {
    if x < 0.0 then Truncate(x) as real - x else x - Truncate(x) as real
  }

  /** Rounding and truncation agree exactly when less than half a step is dropped (a half
      itself is rounded upwards, so it agrees only below zero); otherwise they are one apart,
      rounding being further from zero. */
  lemma RoundingAgainstTruncation(x: real)
    ensures RoundHalfUp(x) == Truncate(x) <==> Dropped(x) < 0.5 || (Dropped(x) == 0.5 && x < 0.0)
    ensures RoundHalfUp(x) != Truncate(x) ==> RoundHalfUp(x) == if x < 0.0 then Truncate(x) - 1 else Truncate(x) + 1
  {
  }

  // ----- the wire -----

  /** Two's complement, low byte first. */
  function Int16Bytes(v: int): (b: seq<byte>)
    requires IsInt16(v)
    ensures |b| == 2
  {
    [v % 256, v / 256 % 256]
  }

  /** The low byte comes first, and both carry eight bits of the two's complement. */
  lemma LittleEndian(v: int)
    requires IsInt16(v)
    ensures var b := Int16Bytes(v);
            b[0] as int + 256 * b[1] as int == if v >= 0 then v else v + 65536
  {
  }

  function Int16At(wire: seq<byte>, k: nat): int
    requires 2 * k + 1 < |wire|
  {
    var lo: int, hi: int := wire[2 * k], wire[2 * k + 1];
    var u := lo + 256 * hi;
    if u >= 32768 then u - 65536 else u
  }

  lemma Int16RoundTrip(wire: seq<byte>, k: nat, v: int)
    requires 2 * k + 1 < |wire| && IsInt16(v) && wire[2 * k..2 * k + 2] == Int16Bytes(v)
    ensures Int16At(wire, k) == v
  {
  }
}
