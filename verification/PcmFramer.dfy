/** The push-to-talk resampler: it accepts microphone chunks of any size and emits 20 ms
    frames of 16 kHz PCM. */
module PcmFramer {
  import opened Outcomes
  import opened Resampling

  /** The streamed 16-bit codes of windows lo..hi of the whole signal s. */
  ghost function Codes(ratio: real, s: seq<real>, lo: nat, hi: nat): (c: seq<int>)
    requires ratio >= 1.0 && lo <= hi <= Available(ratio, |s|)
    ensures |c| == hi - lo && AllInt16(c)
  {
    if lo == hi then [] else Codes(ratio, s, lo, hi - 1) + [StreamCode(ratio, s, hi - 1)]
  }

  lemma {:induction false} CodesAt(ratio: real, s: seq<real>, lo: nat, hi: nat, k: nat)
    requires ratio >= 1.0 && lo <= k < hi <= Available(ratio, |s|)
    ensures Codes(ratio, s, lo, hi)[k - lo] == StreamCode(ratio, s, k)
  {
    if k < hi - 1 { CodesAt(ratio, s, lo, hi - 1, k); }
  }

  ghost predicate AllInt16(codes: seq<int>) { forall i :: 0 <= i < |codes| ==> IsInt16(codes[i]) }

  ghost function Wire(codes: seq<int>): (w: seq<byte>)
    requires AllInt16(codes)
    ensures |w| == 2 * |codes|
  {
    if codes == [] then [] else Wire(codes[..|codes| - 1]) + Int16Bytes(codes[|codes| - 1])
  }

  lemma {:induction false} WireAt(codes: seq<int>, i: nat)
    requires AllInt16(codes) && i < |codes|
    ensures Int16At(Wire(codes), i) == codes[i]
  {
    var w, n := Wire(codes), |codes| - 1;
    if i == n {
      Int16RoundTrip(w, i, codes[i]);
    } else {
      WireAt(codes[..n], i);
      assert w[2 * i] == Wire(codes[..n])[2 * i] && w[2 * i + 1] == Wire(codes[..n])[2 * i + 1];
    }
  }

  /** Frames lo..hi of the stream for signal s. */
  ghost function FramesBetween(ratio: real, s: seq<real>, lo: nat, hi: nat): (f: seq<seq<byte>>)
    requires ratio >= 1.0 && lo <= hi && hi * FRAME_SAMPLES <= Available(ratio, |s|)
    ensures |f| == hi - lo
  {
    if lo == hi then [] else FramesBetween(ratio, s, lo, hi - 1) + [FrameOf(ratio, s, hi - 1)]
  }

  ghost function FrameOf(ratio: real, s: seq<real>, f: nat): seq<byte>
    requires ratio >= 1.0 && (f + 1) * FRAME_SAMPLES <= Available(ratio, |s|)
  {
    Wire(Codes(ratio, s, f * FRAME_SAMPLES, (f + 1) * FRAME_SAMPLES))
  }

  ghost function FrameCount(ratio: real, s: seq<real>): nat
    requires ratio >= 1.0
  {
    Available(ratio, |s|) / FRAME_SAMPLES
  }

  /** Every complete frame of the signal s. */
  ghost function Frames(ratio: real, s: seq<real>): seq<seq<byte>>
    requires ratio >= 1.0
  {
    FramesBetween(ratio, s, 0, FrameCount(ratio, s))
  }

  lemma {:induction false} CodesPrefix(ratio: real, s: seq<real>, t: seq<real>, lo: nat, hi: nat)
    requires ratio >= 1.0 && lo <= hi <= Available(ratio, |s|)
    ensures hi <= Available(ratio, |s + t|) && Codes(ratio, s + t, lo, hi) == Codes(ratio, s, lo, hi)
    decreases hi
  {
    AvailableMonotone(ratio, |s|, |s + t|);
    if lo < hi {
      LevelPrefix(ratio, s, t, hi - 1);
      CodesPrefix(ratio, s, t, lo, hi - 1);
    }
  }

  /** More input never changes a frame already emitted. */
  lemma {:induction false} FramesPrefix(ratio: real, s: seq<real>, t: seq<real>, hi: nat)
    requires ratio >= 1.0 && hi * FRAME_SAMPLES <= Available(ratio, |s|)
    ensures hi * FRAME_SAMPLES <= Available(ratio, |s + t|)
    ensures FramesBetween(ratio, s + t, 0, hi) == FramesBetween(ratio, s, 0, hi)
  {
    AvailableMonotone(ratio, |s|, |s + t|);
    if hi > 0 {
      CodesPrefix(ratio, s, t, (hi - 1) * FRAME_SAMPLES, hi * FRAME_SAMPLES);
      FramesPrefix(ratio, s, t, hi - 1);
    }
  }

  lemma {:induction false} FramesJoin(ratio: real, s: seq<real>, lo: nat, mid: nat, hi: nat)
    requires ratio >= 1.0 && lo <= mid <= hi && hi * FRAME_SAMPLES <= Available(ratio, |s|)
    ensures FramesBetween(ratio, s, lo, hi) == FramesBetween(ratio, s, lo, mid) + FramesBetween(ratio, s, mid, hi)
    decreases hi
  {
    if mid < hi { FramesJoin(ratio, s, lo, mid, hi - 1); }
  }

  lemma {:induction false} FrameAt(ratio: real, s: seq<real>, hi: nat, f: nat)
    requires ratio >= 1.0 && f < hi && hi * FRAME_SAMPLES <= Available(ratio, |s|)
    ensures FramesBetween(ratio, s, 0, hi)[f] == FrameOf(ratio, s, f)
  {
    if f < hi - 1 { FrameAt(ratio, s, hi - 1, f); }
  }

  /** A frame of 320 codes as the wire carries it. */
  method EncodeFrame(codes: seq<int>) returns (wire: seq<byte>)
    requires AllInt16(codes)
    ensures wire == Wire(codes)
  {
    wire := [];
    for i := 0 to |codes|
      invariant wire == Wire(codes[..i])
    {
      assert codes[..i + 1][..i] == codes[..i];
      wire := wire + Int16Bytes(codes[i]);
    }
    assert codes[..|codes|] == codes;
  }

  method AddUp(s: seq<real>, begin: nat, end: nat) returns (sum: real)
    requires begin <= end <= |s|
    ensures sum == Sum(s, begin, end)
  {
    sum := 0.0;
    for index := begin to end
      invariant sum == Sum(s, begin, index)
    {
      sum := sum + s[index];
    }
  }

  lemma FloorShift(x: real, n: int)
    ensures (x - n as real).Floor == x.Floor - n
  {
  }

  // ----- the framer's state as a function of what it was fed -----

  /** Part-way through a feed: `n` windows of `all` are done, `f` of them as full frames, and
      `base` samples were dropped by earlier feeds. */
  ghost predicate Draining(ratio: real, all: seq<real>, base: nat, n: nat, f: nat,
                           input: seq<real>, position: real, output: seq<int>)
  {
    && ratio >= 1.0 && base <= |all| && input == all[base..]
    && f * FRAME_SAMPLES <= n < (f + 1) * FRAME_SAMPLES && n <= Available(ratio, |all|)
    && position == Edge(ratio, n) - base as real >= 0.0
    && output == Codes(ratio, all, f * FRAME_SAMPLES, n)
  }

  /** Between feeds: what is left of `fed` once its whole windows were emitted. */
  ghost predicate Settled(ratio: real, fed: seq<real>, input: seq<real>, position: real, output: seq<int>)
  {
    ratio >= 1.0 &&
    var n := Available(ratio, |fed|);
    && 0 <= Begin(ratio, n) <= |fed|
    && Draining(ratio, fed, Begin(ratio, n), n, n / FRAME_SAMPLES, input, position, output)
  }

  lemma StartsSettled(ratio: real)
    requires ratio >= 1.0
    ensures Settled(ratio, [], [], 0.0, [])
  {
    hide CountFrom;
    WindowWhole(ratio, 0, 0);
    assert Edge(ratio, 0) == 0.0;
  }

  lemma AppendChunk(ratio: real, fed: seq<real>, input: seq<real>, position: real, output: seq<int>, chunk: seq<real>)
    returns (base: nat, n: nat, f: nat)
    requires Settled(ratio, fed, input, position, output)
    ensures Draining(ratio, fed + chunk, base, n, f, input + chunk, position, output)
    ensures FramesBetween(ratio, fed + chunk, 0, f) == Frames(ratio, fed)
  {
    n := Available(ratio, |fed|);
    base, f := Begin(ratio, n), n / FRAME_SAMPLES;
    CodesPrefix(ratio, fed, chunk, f * FRAME_SAMPLES, n);
    FramesPrefix(ratio, fed, chunk, f);
    assert (fed + chunk)[base..] == fed[base..] + chunk;
  }

  lemma LoopGuard(ratio: real, all: seq<real>, base: nat, n: nat, f: nat,
                  input: seq<real>, position: real, output: seq<int>)
    requires Draining(ratio, all, base, n, f, input, position, output)
    ensures position + ratio <= |input| as real <==> n < Available(ratio, |all|)
  {
    WindowWhole(ratio, |all|, n);
  }

  lemma DropConsumed(ratio: real, all: seq<real>, base: nat, n: nat, f: nat,
                     input: seq<real>, position: real, output: seq<int>)
    requires Draining(ratio, all, base, n, f, input, position, output) && n == Available(ratio, |all|)
    ensures var consumed := position.Floor;
            && 0 <= consumed <= |input|
            && Settled(ratio, all, input[consumed..], position - consumed as real, output)
            && 0.0 <= position - consumed as real < 1.0 && (|input| - consumed) as real < 1.0 + ratio
  {
    hide CountFrom, Codes;
    FloorShift(Edge(ratio, n), base);
  }

  class PcmFramer {
    const ratio: real
    var input: seq<real>
    var position: real
    var output: seq<int>
    /** All samples received so far. */
    ghost var fed: seq<real>

    ghost predicate Valid()
      reads this
    {
      Settled(ratio, fed, input, position, output)
    }

    constructor (inputRate: real)
      requires inputRate >= TARGET_RATE as real
      ensures Valid() && fed == [] && ratio == inputRate / TARGET_RATE as real
    {
      ratio := inputRate / TARGET_RATE as real;
      input, position, output, fed := [], 0.0, [], [];
      new;
      StartsSettled(ratio);
    }

    /** One turn of the feed loop. */
    method EmitWindow(ghost all: seq<real>, ghost base: nat, ghost n: nat, ghost f: nat)
      returns (frames: seq<seq<byte>>)
      requires Draining(ratio, all, base, n, f, input, position, output) && n < Available(ratio, |all|)
      modifies this`position, this`output
      ensures |frames| <= 1 && Draining(ratio, all, base, n + 1, f + |frames|, input, position, output)
      ensures frames == FramesBetween(ratio, all, f, f + |frames|)
    {
      var code := NextCode(all, base, n);
      output := output + [code];
      position := position + ratio;
      frames := [];
      if |output| == FRAME_SAMPLES {
        var wire := EncodeFrame(output);
        frames := [wire];
        output := [];
        assert FramesBetween(ratio, all, f, f + 1) == FramesBetween(ratio, all, f, f) + [FrameOf(ratio, all, f)];
      }
    }

    /** The code of window n of `all`, read at `position`. */
    method NextCode(ghost all: seq<real>, ghost base: nat, ghost n: nat) returns (code: int)
      requires ratio >= 1.0 && base <= |all| && input == all[base..]
      requires n < Available(ratio, |all|) && position == Edge(ratio, n) - base as real >= 0.0
      ensures code == StreamCode(ratio, all, n)
    {
      WindowBounds(ratio, |all|, n);
      FloorShift(Edge(ratio, n), base);
      FloorShift(Edge(ratio, n + 1), base);
      var begin := position.Floor;
      var end := if begin + 1 > (position + ratio).Floor then begin + 1 else (position + ratio).Floor;
      SumShift(all, base, begin, end);
      var sum := AddUp(input, begin, end);
      var sample := Clamp(sum / (end - begin) as real);
      code := RoundHalfUp(Scaled(sample));
    }

    /** The feed loop: every window that is now whole. */
    method Drain(ghost all: seq<real>, ghost base: nat, ghost start: nat, ghost first: nat)
      returns (frames: seq<seq<byte>>, ghost n: nat, ghost f: nat)
      requires Draining(ratio, all, base, start, first, input, position, output)
      modifies this`position, this`output
      ensures Draining(ratio, all, base, n, f, input, position, output) && n == Available(ratio, |all|)
      ensures first <= f && frames == FramesBetween(ratio, all, first, f)
    {
      hide Codes, Available, CountFrom, Edge;
      n, f, frames := start, first, [];
      LoopGuard(ratio, all, base, n, f, input, position, output);
      while position + ratio <= |input| as real
        invariant first <= f && Draining(ratio, all, base, n, f, input, position, output)
        invariant frames == FramesBetween(ratio, all, first, f)
        invariant position + ratio <= |input| as real <==> n < Available(ratio, |all|)
        decreases Available(ratio, |all|) - n
      {
        var more := EmitWindow(all, base, n, f);
        FramesJoin(ratio, all, first, f, f + |more|);
        frames, n, f := frames + more, n + 1, f + |more|;
        LoopGuard(ratio, all, base, n, f, input, position, output);
      }
    }

    method Feed(chunk: seq<real>) returns (frames: seq<seq<byte>>)
      requires Valid()
      modifies this
      ensures Valid() && fed == old(fed) + chunk
      ensures Frames(ratio, fed) == Frames(ratio, old(fed)) + frames
      ensures 0.0 <= position < 1.0 && |input| as real < 1.0 + ratio
    {
      ghost var base, start, first := AppendChunk(ratio, fed, input, position, output, chunk);
      input, fed := input + chunk, fed + chunk;
      ghost var n, f;
      frames, n, f := Drain(fed, base, start, first);
      FramesJoin(ratio, fed, 0, first, f);
      assert f == FrameCount(ratio, fed);
      Trim(base, n, f);
    }

    /** Drops the samples before the next window. */
    method Trim(ghost base: nat, ghost n: nat, ghost f: nat)
      requires Draining(ratio, fed, base, n, f, input, position, output) && n == Available(ratio, |fed|)
      modifies this`input, this`position
      ensures Valid()
      ensures 0.0 <= position < 1.0 && |input| as real < 1.0 + ratio
    {
      DropConsumed(ratio, fed, base, n, f, input, position, output);
      var consumed := position.Floor;
      if consumed != 0 {
        input := input[consumed..];
        position := position - consumed as real;
      } else {
        assert input[0..] == input;
      }
    }
  }

  lemma NothingYet(ratio: real)
    requires ratio >= 1.0
    ensures Available(ratio, 0) == 0 && Frames(ratio, []) == []
  {
    WindowWhole(ratio, 0, 0);
  }

  /** A whole recording session fed chunk by chunk: frames and final state are those of the
      joined signal, whatever the cuts were. */
  method Stream(inputRate: real, chunks: seq<seq<real>>)
    returns (frames: Result<seq<seq<byte>>, AudioError>, input: seq<real>, position: real, output: seq<int>)
    ensures frames.Err? <==> inputRate < 16000.0
    ensures frames.Err? ==> frames.error == UnsupportedRate
    ensures frames.Ok? ==>
              var ratio := inputRate / 16000.0;
              var all := Flatten(chunks);
              frames.value == Frames(ratio, all) && Settled(ratio, all, input, position, output)
  {
    input, position, output := [], 0.0, [];
    if inputRate < TARGET_RATE as real {
      frames := Err(UnsupportedRate);
      return;
    }
    var framer := new PcmFramer(inputRate);
    var emitted: seq<seq<byte>> := [];
    NothingYet(framer.ratio);
    for i := 0 to |chunks|
      invariant fresh(framer) && framer.Valid() && framer.fed == Flatten(chunks[..i])
      invariant emitted == Frames(framer.ratio, framer.fed)
    {
      assert chunks[..i + 1][..i] == chunks[..i];
      var more := framer.Feed(chunks[i]);
      emitted := emitted + more;
    }
    assert chunks[..|chunks|] == chunks;
    frames, input, position, output := Ok(emitted), framer.input, framer.position, framer.output;
  }
}
