/** The batch converter for recorded audio messages, and its agreement with the streaming
    framer. */
module AudioMessage {
  import opened Outcomes
  import opened Resampling
  import PcmFramer

  /** How many samples a message of n input samples becomes: whole frames, ten seconds at most. */
  ghost function Complete(ratio: real, n: nat): (c: nat)
    requires ratio >= 1.0
    ensures c <= Available(ratio, n) && c <= TARGET_RATE * MAX_SECONDS
  {
    Capped(Available(ratio, n)) / FRAME_SAMPLES * FRAME_SAMPLES
  }

  function Capped(n: nat): nat
  {
    if n < TARGET_RATE * MAX_SECONDS then n else TARGET_RATE * MAX_SECONDS
  }

  /** The first n batch codes on the wire. */
  ghost function BatchWire(ratio: real, s: seq<real>, n: nat): (w: seq<byte>)
    requires ratio >= 1.0 && n <= Available(ratio, |s|)
    ensures |w| == 2 * n
  {
    if n == 0 then [] else BatchWire(ratio, s, n - 1) + Int16Bytes(BatchCode(ratio, s, n - 1))
  }

  lemma {:induction false} BatchWireAt(ratio: real, s: seq<real>, n: nat, k: nat)
    requires ratio >= 1.0 && k < n <= Available(ratio, |s|)
    ensures Int16At(BatchWire(ratio, s, n), k) == BatchCode(ratio, s, k)
  {
    var w := BatchWire(ratio, s, n);
    if k == n - 1 {
      Int16RoundTrip(w, k, BatchCode(ratio, s, k));
    } else {
      BatchWireAt(ratio, s, n - 1, k);
      var shorter := BatchWire(ratio, s, n - 1);
      assert w[2 * k] == shorter[2 * k] && w[2 * k + 1] == shorter[2 * k + 1];
    }
  }

  method Concatenate(chunks: seq<seq<real>>) returns (output: seq<real>)
    ensures output == Flatten(chunks)
  {
    output := [];
    for i := 0 to |chunks|
      invariant output == Flatten(chunks[..i])
    {
      assert chunks[..i + 1][..i] == chunks[..i];
      output := output + chunks[i];
    }
    assert chunks[..|chunks|] == chunks;
  }

  /** Where a window begins and ends, computed from its index. */
  method Window(ratio: real, n: nat, index: nat) returns (begin: nat, end: nat)
    requires ratio >= 1.0 && index < Available(ratio, n)
    ensures begin == Begin(ratio, index) && end == Begin(ratio, index + 1) && begin < end <= n
  {
    hide Edge, Available, CountFrom;
    BeginIsFloor(ratio, index);
    BeginIsFloor(ratio, index + 1);
    WindowBounds(ratio, n, index);
    begin := (index as real * ratio).Floor;
    var upto := ((index + 1) as real * ratio).Floor;
    end := if begin + 1 > upto then begin + 1 else upto;
  }

  /** The batch code of one window, summed in place. */
  method Convert(input: seq<real>, ratio: real, index: nat) returns (code: int)
    requires ratio >= 1.0 && index < Available(ratio, |input|)
    ensures code == BatchCode(ratio, input, index)
  {
    hide Begin, Edge, Available, CountFrom;
    var begin, end := Window(ratio, |input|, index);
    var sum, cursor := 0.0, begin;
    while cursor < end && cursor < |input|
      invariant begin <= cursor <= end
      invariant sum == Sum(input, begin, cursor)
    {
      sum := sum + input[cursor];
      cursor := cursor + 1;
    }
    var sample := Clamp(sum / (if end - begin < 1 then 1 else end - begin) as real);
    code := Truncate(Scaled(sample));
  }

  method Fill(input: seq<real>, ratio: real, complete: nat) returns (pcm: seq<byte>)
    requires ratio >= 1.0 && complete <= Available(ratio, |input|)
    ensures pcm == BatchWire(ratio, input, complete)
  {
    hide Edge, Available, CountFrom;
    var view := new byte[complete * 2];
    for index := 0 to complete
      invariant view[..2 * index] == BatchWire(ratio, input, index)
    {
      var code := Convert(input, ratio, index);
      view[2 * index], view[2 * index + 1] := Int16Bytes(code)[0], Int16Bytes(code)[1];
      assert view[..2 * (index + 1)] == view[..2 * index] + Int16Bytes(code);
    }
    pcm := view[..];
    assert view[..2 * complete] == view[..];
  }

  /** Converts a recording, or refuses a rate below the target or a recording shorter than one
      frame. */
  method PcmForCamera(chunks: seq<seq<real>>, inputRate: real) returns (r: Result<seq<byte>, AudioError>)
    ensures inputRate < 16000.0 <==> r == Err(UnsupportedRate)
    ensures inputRate >= 16000.0 ==>
              var ratio, all := inputRate / 16000.0, Flatten(chunks);
              && (r == Err(TooShort) <==> Available(ratio, |all|) < 320)
              && (r.Ok? ==> r.value == BatchWire(ratio, all, Complete(ratio, |all|)))
  {
    hide Available, BatchWire, Complete, Flatten;
    if inputRate < TARGET_RATE as real { return Err(UnsupportedRate); }
    var input := Concatenate(chunks);
    r := ConvertAll(input, inputRate / TARGET_RATE as real);
  }

  method ConvertAll(input: seq<real>, ratio: real) returns (r: Result<seq<byte>, AudioError>)
    requires ratio >= 1.0
    ensures r == if Available(ratio, |input|) < 320 then Err(TooShort)
                 else Ok(BatchWire(ratio, input, Complete(ratio, |input|)))
  {
    hide Available, CountFrom, Edge, BatchWire;
    AvailableIsQuotient(ratio, |input|);
    var available := Capped((|input| as real / ratio).Floor);
    var complete := available / FRAME_SAMPLES * FRAME_SAMPLES;
    if complete == 0 { return Err(TooShort); }
    var pcm := Fill(input, ratio, complete);
    r := Ok(pcm);
  }

  const MOST_FRAMES := TARGET_RATE * MAX_SECONDS / FRAME_SAMPLES

  /** Both converters keep the same whole frames, the batch one at most ten seconds of them. */
  lemma SameFrameCount(ratio: real, s: seq<real>)
    requires ratio >= 1.0
    ensures var frames := |PcmFramer.Frames(ratio, s)|;
            Complete(ratio, |s|) == FRAME_SAMPLES * (if frames < MOST_FRAMES then frames else MOST_FRAMES)
  {
    hide PcmFramer.FramesBetween, Available;
    var a := Available(ratio, |s|);
    assert Capped(a) / FRAME_SAMPLES == if a / FRAME_SAMPLES < MOST_FRAMES then a / FRAME_SAMPLES else MOST_FRAMES;
  }

  /** Sample k of the streamed frames. */
  lemma StreamedSample(ratio: real, s: seq<real>, k: nat)
    requires ratio >= 1.0 && k < FRAME_SAMPLES * PcmFramer.FrameCount(ratio, s)
    ensures var frames := PcmFramer.Frames(ratio, s);
            && k < Available(ratio, |s|)
            && k / FRAME_SAMPLES < |frames| && |frames[k / FRAME_SAMPLES]| == 2 * FRAME_SAMPLES
            && Int16At(frames[k / FRAME_SAMPLES], k % FRAME_SAMPLES) == StreamCode(ratio, s, k)
  {
    hide Available, PcmFramer.FramesBetween, PcmFramer.Codes, PcmFramer.Wire, Int16At, StreamCode;
    var f := k / FRAME_SAMPLES;
    PcmFramer.FrameAt(ratio, s, PcmFramer.FrameCount(ratio, s), f);
    var lo, hi := f * FRAME_SAMPLES, (f + 1) * FRAME_SAMPLES;
    PcmFramer.CodesAt(ratio, s, lo, hi, k);
    PcmFramer.WireAt(PcmFramer.Codes(ratio, s, lo, hi), k - lo);
  }

  /** The streaming and batch converters agree: every 16-bit sample of a message is within one step
      of the streamed one. They differ by exactly one step, away from zero in the stream, where
      truncation drops half a step or more. */
  lemma StreamAgreesWithBatch(ratio: real, s: seq<real>, k: nat)
    requires ratio >= 1.0 && k < Complete(ratio, |s|)
    ensures k / FRAME_SAMPLES < |PcmFramer.Frames(ratio, s)|
            && |PcmFramer.Frames(ratio, s)[k / FRAME_SAMPLES]| == 2 * FRAME_SAMPLES
    ensures var streamed := Int16At(PcmFramer.Frames(ratio, s)[k / FRAME_SAMPLES], k % FRAME_SAMPLES);
            var batch := Int16At(BatchWire(ratio, s, Complete(ratio, |s|)), k);
            var x := Scaled(Level(ratio, s, k));
            && -1 <= streamed - batch <= 1
            && (streamed == batch <==> Dropped(x) < 0.5 || (Dropped(x) == 0.5 && x < 0.0))
            && (streamed != batch ==> (streamed < batch <==> x < 0.0))
  {
    hide Complete, Available, PcmFramer.FramesBetween, BatchWire, Int16At, Level, Scaled,
         Dropped, Truncate, RoundHalfUp;
    SameFrameCount(ratio, s);
    StreamedSample(ratio, s, k);
    BatchWireAt(ratio, s, Complete(ratio, |s|), k);
    RoundingAgainstTruncation(Scaled(Level(ratio, s, k)));
  }

  // ----- what the codes are -----

  /** The code is nearest to full scale times total / width, halves upwards; full scale is 32767 above
      zero and 32768 below, and reached at the limits. */
  ghost predicate Rounded(code: int, total: real, width: real)
    requires width > 0.0
  {
    if total >= width then code == 32767
    else if total <= -width then code == -32768
    else if total >= 0.0 then code as real - 0.5 <= 32767.0 * (total / width) < code as real + 0.5
    else code as real - 0.5 <= 32768.0 * (total / width) < code as real + 0.5
  }

  /** The same, with the fraction cut off towards zero. */
  ghost predicate Cut(code: int, total: real, width: real)
    requires width > 0.0
  {
    if total >= width then code == 32767
    else if total <= -width then code == -32768
    else if total >= 0.0 then code as real <= 32767.0 * (total / width) < code as real + 1.0
    else code as real - 1.0 < 32768.0 * (total / width) <= code as real
  }

  /** Every code on either wire, from the microphone samples of its window: the streamed one is their
      mean at full scale rounded to nearest, the batch one the same cut towards zero. */
  lemma CodesAreMeans(ratio: real, s: seq<real>, k: nat)
    requires ratio >= 1.0 && k < Available(ratio, |s|)
    ensures var lo, hi := Begin(ratio, k), Begin(ratio, k + 1);
            && 0 <= lo < hi <= |s|
            && Rounded(StreamCode(ratio, s, k), Sum(s, lo, hi), (hi - lo) as real)
            && Cut(BatchCode(ratio, s, k), Sum(s, lo, hi), (hi - lo) as real)
  {
    hide Sum, Available, Level, StreamCode, BatchCode, Begin, Rounded, Cut, IsMean, RoundsTo, CutsTo, Amplitude;
    LevelIsMean(ratio, s, k);
    CodesOfLevel(ratio, s, k);
    var lo, hi := Begin(ratio, k), Begin(ratio, k + 1);
    var level, total, width := Level(ratio, s, k), Sum(s, lo, hi), (hi - lo) as real;
    RoundedMean(StreamCode(ratio, s, k), level, total, width);
    CutMean(BatchCode(ratio, s, k), level, total, width);
  }

  lemma RoundedMean(code: int, level: real, total: real, width: real)
    requires width >= 1.0 && IsMean(level, total, width) && RoundsTo(Amplitude(level), code)
    ensures Rounded(code, total, width)
  {
    SignOfMean(total, width);
  }

  lemma CutMean(code: int, level: real, total: real, width: real)
    requires width >= 1.0 && IsMean(level, total, width) && CutsTo(Amplitude(level), code)
    ensures Cut(code, total, width)
  {
    SignOfMean(total, width);
  }

  lemma SignOfMean(total: real, width: real)
    requires width >= 1.0
    ensures total / width < 0.0 <==> total < 0.0
  {
    var q := total / width;
    assert q * width == total;
    if q < 0.0 { Scale(q, 0.0, width); } else { Scale(0.0, q, width); }
  }

  /** Every sample that output sample k is made of is v. */
  ghost predicate ConstantWindow(ratio: real, s: seq<real>, k: nat, v: real)
  {
    forall i :: Begin(ratio, k) <= i < Begin(ratio, k + 1) && 0 <= i < |s| ==> s[i] == v
  }

  /** A window of samples v becomes v at full scale: on the push-to-talk wire rounded, ... */
  lemma StreamedConstant(ratio: real, s: seq<real>, k: nat, v: real)
    requires ratio >= 1.0 && k < 320 * |PcmFramer.Frames(ratio, s)| && ConstantWindow(ratio, s, k, v)
    ensures |PcmFramer.Frames(ratio, s)[k / 320]| == 640
    ensures Int16At(PcmFramer.Frames(ratio, s)[k / 320], k % 320)
         == if v > 1.0 then 32767 else if v < -1.0 then -32768
            else if v >= 0.0 then (v * 32767.0 + 0.5).Floor else (v * 32768.0 + 0.5).Floor
  {
    StreamedSample(ratio, s, k);
    hide Available, PcmFramer.Frames, Int16At, StreamCode, ConstantWindow, Begin;
    ConstantCodes(ratio, s, k, v);
  }

  /** ... and in an audio message cut towards zero. */
  lemma MessageConstant(ratio: real, s: seq<real>, k: nat, v: real)
    requires ratio >= 1.0 && k < Complete(ratio, |s|) && ConstantWindow(ratio, s, k, v)
    ensures Int16At(BatchWire(ratio, s, Complete(ratio, |s|)), k)
         == if v > 1.0 then 32767 else if v < -1.0 then -32768
            else if v >= 0.0 then (v * 32767.0).Floor else -((-v * 32768.0).Floor)
  {
    BatchWireAt(ratio, s, Complete(ratio, |s|), k);
    hide Available, Complete, BatchWire, Int16At, BatchCode, ConstantWindow, Begin;
    ConstantCodes(ratio, s, k, v);
  }

  lemma ConstantCodes(ratio: real, s: seq<real>, k: nat, v: real)
    requires ratio >= 1.0 && k < Available(ratio, |s|) && ConstantWindow(ratio, s, k, v)
    ensures StreamCode(ratio, s, k)
         == if v > 1.0 then 32767 else if v < -1.0 then -32768
            else if v >= 0.0 then (v * 32767.0 + 0.5).Floor else (v * 32768.0 + 0.5).Floor
    ensures BatchCode(ratio, s, k)
         == if v > 1.0 then 32767 else if v < -1.0 then -32768
            else if v >= 0.0 then (v * 32767.0).Floor else -((-v * 32768.0).Floor)
  {
    hide Sum, Available, StreamCode, BatchCode, Begin, Level, IsMean, RoundsTo, CutsTo, Amplitude;
    LevelIsMean(ratio, s, k);
    CodesOfLevel(ratio, s, k);
    var lo, hi := Begin(ratio, k), Begin(ratio, k + 1);
    SumConstant(s, lo, hi, v);
    LevelOfConstant(Level(ratio, s, k), v, Sum(s, lo, hi), (hi - lo) as real);
    FloorCodes(Level(ratio, s, k), StreamCode(ratio, s, k), BatchCode(ratio, s, k));
  }

  lemma LevelOfConstant(level: real, v: real, total: real, width: real)
    requires width >= 1.0 && IsMean(level, total, width) && total == width * v
    ensures level == if v > 1.0 then 1.0 else if v < -1.0 then -1.0 else v
  {
    Scale(v, 1.0, width);
    Scale(1.0, v, width);
    Scale(v, -1.0, width);
    Scale(-1.0, v, width);
    var q := total / width;
    assert q * width == total;
    Scale(q, v, width);
    Scale(v, q, width);
  }

  lemma FloorCodes(level: real, stream: int, batch: int)
    requires RoundsTo(Amplitude(level), stream) && CutsTo(Amplitude(level), batch)
    ensures stream == if level >= 0.0 then (level * 32767.0 + 0.5).Floor else (level * 32768.0 + 0.5).Floor
    ensures batch == if level >= 0.0 then (level * 32767.0).Floor else -((-level * 32768.0).Floor)
  {
  }

  /** A message is cut to whole frames of 320 samples and to 500 of them. */
  lemma MessageLength(ratio: real, s: seq<real>)
    requires ratio >= 1.0
    ensures var frames := (|s| as real / ratio).Floor / 320;
            |BatchWire(ratio, s, Complete(ratio, |s|))| == 640 * (if frames < 500 then frames else 500)
  {
    hide Available, BatchWire;
    AvailableIsQuotient(ratio, |s|);
  }
}
