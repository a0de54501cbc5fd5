/** The live player's bounded queue in front of an asynchronous SourceBuffer, and the controller
    that keeps playback near the live edge.

    The environment is the SourceBuffer of section 3 of the W3C Media Source Extensions
    Recommendation: appendBuffer() and remove() set `updating`; when the work is done `updating`
    is cleared and an updateend event is queued, so other events can run in between. */
module MseBuffer {
  const MAX_QUEUE_BYTES := 16 * 1024 * 1024
  const RETAIN_SECONDS := 8.0
  const PRUNE_AFTER_SECONDS := 12.0
  const START_BUFFER_SECONDS := 3.0
  const LIVE_TARGET_SECONDS := 3.0
  const MAX_LIVE_GAP_SECONDS := 8.0
  const LOW_BUFFER_SECONDS := 2.0
  const CRITICAL_BUFFER_SECONDS := 0.75
  const CRITICAL_PLAYBACK_RATE := 0.85
  const LOW_PLAYBACK_RATE := 0.92
  const HIGH_BUFFER_SECONDS := 4.0
  const CATCHUP_PLAYBACK_RATE := 1.05

  datatype Fragment = Fragment(id: int, bytes: nat)

  datatype Range = Range(start: real, end: real)

  /** What the SourceBuffer is doing; `updating` is anything but Idle. */
  datatype Work = Idle | Appending(data: Fragment) | Removing(from: real, to: real)

  /** The closure's variables, the video element, and the SourceBuffer with its queued updateend
      events. `received` and `appended` record what arrived and what was handed over. */
  datatype Player = Player(queue: seq<Fragment>, queueBytes: int, failed: bool, liveStarted: bool,
                           currentTime: real, playbackRate: real,
                           work: Work, pendingEnds: nat, buffered: seq<Range>,
                           received: seq<Fragment>, appended: seq<Fragment>)
  {
    predicate Updating() { work != Idle }

    function End(): real
      requires buffered != []
    {
      buffered[|buffered| - 1].end
    }

    function LastStart(): real
      requires buffered != []
    {
      buffered[|buffered| - 1].start
    }

    function Gap(): real
      requires buffered != []
    {
      End() - currentTime
    }
  }

  /** Which of the calls made by a handler throw. */
  datatype Throws = Throws(append: bool, remove: bool, seekable: bool)

  datatype Event =
    | Data(data: Fragment, throws: Throws)
    | UpdateEnd(throws: Throws)
    | Failure
    | Completion(buffered: seq<Range>)
    | Playback(time: real)

  function Max(x: real, y: real): real { if x > y then x else y }

  function Total(queue: seq<Fragment>): nat
  {
    if queue == [] then 0 else Total(queue[..|queue| - 1]) + queue[|queue| - 1].bytes
  }

  /** Buffered ranges are non-empty, ordered and apart, and begin at or after zero. */
  ghost predicate Normal(ranges: seq<Range>)
  {
    && (forall i :: 0 <= i < |ranges| ==> 0.0 <= ranges[i].start < ranges[i].end)
    && forall i, j :: 0 <= i < j < |ranges| ==> ranges[i].end < ranges[j].start
  }

  // ----- handlers -----

  function Fail(s: Player): Player
  {
    if s.failed then s else s.(failed := true, queue := [], queueBytes := 0)
  }

  function AppendNext(s: Player, throws: bool): Player
  {
    if s.failed || s.Updating() || s.queue == [] then s else
      var data := s.queue[0];
      var t := s.(queue := s.queue[1..], queueBytes := s.queueBytes - data.bytes);
      if throws then Fail(t) else t.(work := Appending(data), appended := t.appended + [data])
  }

  function OnData(s: Player, data: Fragment, throws: bool): Player
  {
    if s.failed then s else
      var t := s.(received := s.received + [data]);
      if t.Updating() || t.queue != [] then
        if t.queueBytes + data.bytes > MAX_QUEUE_BYTES then Fail(t)
        else t.(queue := t.queue + [data], queueBytes := t.queueBytes + data.bytes)
      else if throws then Fail(t)
      else t.(work := Appending(data), appended := t.appended + [data])
  }

  predicate MustPrune(s: Player)
    requires s.buffered != []
  {
    s.End() - s.buffered[0].start > PRUNE_AFTER_SECONDS
  }

  function RetainFrom(s: Player): real
    requires s.buffered != []
  {
    Max(0.0, s.End() - RETAIN_SECONDS)
  }

  function Prune(s: Player, throws: Throws): Player
    requires s.buffered != []
  {
    if throws.remove then Fail(s) else
      var t := s.(work := Removing(s.buffered[0].start, RetainFrom(s)));
      if throws.seekable then Fail(t) else t
  }

  /** The start of playback, once the newest range is long enough. */
  function StartLive(s: Player): Player
    requires s.buffered != []
  {
    if s.End() - s.LastStart() >= START_BUFFER_SECONDS
    then s.(currentTime := Max(s.LastStart(), s.End() - LIVE_TARGET_SECONDS), liveStarted := true)
    else s
  }

  /** Underrun recovery, rate adaptation and the jump over stale media. */
  function Control(s: Player): Player
    requires s.buffered != []
  {
    var gap := s.Gap();
    if gap <= 0.0 then
      s.(currentTime := Max(s.LastStart(), s.End() - CRITICAL_BUFFER_SECONDS), playbackRate := CRITICAL_PLAYBACK_RATE)
    else if gap < CRITICAL_BUFFER_SECONDS then s.(playbackRate := CRITICAL_PLAYBACK_RATE)
    else if gap < LOW_BUFFER_SECONDS then s.(playbackRate := LOW_PLAYBACK_RATE)
    else if gap > HIGH_BUFFER_SECONDS && gap <= MAX_LIVE_GAP_SECONDS then s.(playbackRate := CATCHUP_PLAYBACK_RATE)
    else if gap > MAX_LIVE_GAP_SECONDS then
      s.(currentTime := Max(s.LastStart(), s.End() - LIVE_TARGET_SECONDS), playbackRate := 1.0)
    else s.(playbackRate := 1.0)
  }

  function OnUpdateEnd(s: Player, throws: Throws): Player
  {
    if s.failed || s.Updating() then s
    else if s.buffered == [] then AppendNext(s, throws.append)
    else if MustPrune(s) then Prune(s, throws)
    else AppendNext(if s.liveStarted then Control(s) else StartLive(s), throws.append)
  }

  ghost function Handle(s: Player, e: Event): Player
  {
    match e
    case Data(data, throws) => OnData(s, data, throws.append)
    case UpdateEnd(throws) =>
      if s.pendingEnds == 0 then s else OnUpdateEnd(s.(pendingEnds := s.pendingEnds - 1), throws)
    case Failure => Fail(s)
    case Completion(buffered) =>
      if !s.Updating() || !Normal(buffered) then s
      else s.(work := Idle, pendingEnds := s.pendingEnds + 1, buffered := buffered)
    case Playback(time) => s.(currentTime := time)
  }

  ghost function Run(s: Player, events: seq<Event>): Player
    decreases |events|
  {
    if events == [] then s else Run(Handle(s, events[0]), events[1..])
  }

  // ----- the queue, in every run -----

  /** Until failure nothing is lost, duplicated or reordered, the queue is within its budget, and a
      non-empty queue has work or a completion event outstanding. */
  ghost predicate Valid(s: Player)
  {
    && s.queueBytes == Total(s.queue) <= MAX_QUEUE_BYTES
    && (s.failed ==> s.queue == [])
    && (!s.failed ==> s.received == s.appended + s.queue)
    && (!s.failed && s.queue != [] ==> s.Updating() || s.pendingEnds > 0)
    && Normal(s.buffered)
  }

  lemma {:induction false} TotalTail(queue: seq<Fragment>)
    requires queue != []
    ensures Total(queue) == queue[0].bytes + Total(queue[1..])
  {
    var n := |queue| - 1;
    if n > 0 {
      TotalTail(queue[..n]);
      assert queue[1..][..n - 1] == queue[..n][1..];
    }
  }

  lemma AppendNextValid(s: Player, throws: bool)
    requires s.queueBytes == Total(s.queue) <= MAX_QUEUE_BYTES && Normal(s.buffered) && !s.failed
    requires s.received == s.appended + s.queue && !s.Updating()
    ensures Valid(AppendNext(s, throws))
  {
    if s.queue != [] {
      TotalTail(s.queue);
      assert s.received == s.appended + [s.queue[0]] + s.queue[1..];
    }
  }

  lemma HandleKeepsValid(s: Player, e: Event)
    requires Valid(s)
    ensures Valid(Handle(s, e))
  {
    hide Total, Control, StartLive;
    match e
    case Data(data, throws) =>
      OnDataValid(s, data, throws.append);
    case UpdateEnd(throws) =>
      if s.pendingEnds > 0 && !s.failed && !s.Updating() {
        var t := s.(pendingEnds := s.pendingEnds - 1);
        ControlTouchesOnlyPlayback(t);
        var u := if t.buffered == [] then t else if t.liveStarted then Control(t) else StartLive(t);
        AppendNextValid(u, throws.append);
      }
      Empty();
    case _ =>
      Empty();
  }

  lemma Empty()
    ensures Total([]) == 0
  {
  }

  lemma TotalAppend(queue: seq<Fragment>, data: Fragment)
    ensures Total(queue + [data]) == Total(queue) + data.bytes
  {
    assert (queue + [data])[..|queue|] == queue;
  }

  lemma OnDataValid(s: Player, data: Fragment, throws: bool)
    requires Valid(s)
    ensures Valid(OnData(s, data, throws))
  {
    hide Total, Normal;
    Empty();
    TotalAppend(s.queue, data);
    assert s.appended + s.queue + [data] == s.appended + (s.queue + [data]);
    assert s.appended + [] + [data] == s.appended + [data] + [];
  }

  lemma ControlTouchesOnlyPlayback(s: Player)
    ensures s.buffered != [] ==>
              && Control(s) == s.(currentTime := Control(s).currentTime, playbackRate := Control(s).playbackRate)
              && StartLive(s) == s.(currentTime := StartLive(s).currentTime, liveStarted := StartLive(s).liveStarted)
  {
  }

  lemma {:induction false} AlwaysValid(s: Player, events: seq<Event>)
    requires Valid(s)
    ensures Valid(Run(s, events))
    decreases |events|
  {
    if events != [] {
      HandleKeepsValid(s, events[0]);
      AlwaysValid(Handle(s, events[0]), events[1..]);
    }
  }

  // ----- failure -----

  /** A fragment that arrives while the SourceBuffer is busy or others wait is queued last, unless the
      queue would exceed 16 MiB; any other is handed over at once, unless that throws. Only those two
      cases fail the player. */
  lemma OnDataExactly(s: Player, data: Fragment, throws: bool)
    requires !s.failed
    ensures var busy := s.work != Idle || s.queue != [];
            var lost := if busy then s.queueBytes + data.bytes > 16 * 1024 * 1024 else throws;
            OnData(s, data, throws)
            == if lost then s.(received := s.received + [data], failed := true, queue := [], queueBytes := 0)
               else if busy then s.(received := s.received + [data], queue := s.queue + [data],
                                    queueBytes := s.queueBytes + data.bytes)
               else s.(received := s.received + [data], appended := s.appended + [data], work := Appending(data))
  {
  }

  /** What fails a player: too much queued, a call that throws, or the SourceBuffer's own failure. */
  ghost predicate Fatal(s: Player, e: Event)
  {
    match e
    case Data(data, throws) =>
      if s.work != Idle || s.queue != [] then s.queueBytes + data.bytes > 16 * 1024 * 1024 else throws.append
    case UpdateEnd(throws) =>
      && s.pendingEnds > 0 && s.work == Idle
      && (if s.buffered != [] && s.buffered[|s.buffered| - 1].end - s.buffered[0].start > 12.0
          then throws.remove || throws.seekable else s.queue != [] && throws.append)
    case Failure => true
    case Completion(_) => false
    case Playback(_) => false
  }

  lemma FailsExactly(s: Player, e: Event)
    requires !s.failed
    ensures Handle(s, e).failed <==> Fatal(s, e)
    ensures Handle(s, e).failed ==> Handle(s, e).queue == [] && Handle(s, e).queueBytes == 0
  {
    hide Max, Normal;
  }

  /** A run fails exactly if one of its events is fatal when it arrives, ... */
  lemma {:induction false} RunFailsExactly(s: Player, events: seq<Event>)
    requires !s.failed
    ensures Run(s, events).failed <==>
              exists i :: 0 <= i < |events| && !Run(s, events[..i]).failed && Fatal(Run(s, events[..i]), events[i])
    decreases |events|
  {
    hide Fatal, Handle;
    if events != [] {
      var t, rest := Handle(s, events[0]), events[1..];
      FailsExactly(s, events[0]);
      assert Run(s, events[..0]) == s;
      assert forall i :: 0 <= i < |rest| ==> events[..i + 1][1..] == rest[..i] && rest[i] == events[i + 1];
      assert forall i :: 0 <= i < |rest| ==> Run(s, events[..i + 1]) == Run(t, rest[..i]);
      if t.failed {
        FailedIsFinal(t, rest);
      } else {
        RunFailsExactly(t, rest);
        if Run(t, rest).failed {
          var i :| 0 <= i < |rest| && !Run(t, rest[..i]).failed && Fatal(Run(t, rest[..i]), rest[i]);
          assert Fatal(Run(s, events[..i + 1]), events[i + 1]);
        } else {
          forall i | 0 <= i < |events| && !Run(s, events[..i]).failed
            ensures !Fatal(Run(s, events[..i]), events[i])
          {
            if i > 0 { assert Run(s, events[..i]) == Run(t, rest[..i - 1]); }
          }
        }
      }
    }
  }

  /** ... and from then on nothing is received, queued or handed over. */
  lemma {:induction false} FailedIsFinal(s: Player, events: seq<Event>)
    requires s.failed
    ensures var t := Run(s, events);
            && t.failed && t.queue == s.queue && t.received == s.received && t.appended == s.appended
            && t.liveStarted == s.liveStarted && t.playbackRate == s.playbackRate
    decreases |events|
  {
    if events != [] { FailedIsFinal(Handle(s, events[0]), events[1..]); }
  }

  // ----- no stall -----

  /** The ranges that remain once everything before `to` is removed. */
  ghost function Trimmed(ranges: seq<Range>, to: real): seq<Range>
  {
    if ranges == [] then []
    else if ranges[0].end <= to then Trimmed(ranges[1..], to)
    else ranges[0 := Range(Max(ranges[0].start, to), ranges[0].end)]
  }

  lemma NormalTail(ranges: seq<Range>)
    requires Normal(ranges) && ranges != []
    ensures Normal(ranges[1..])
  {
    var rest := ranges[1..];
    assert forall i :: 0 <= i < |rest| ==> rest[i] == ranges[i + 1];
  }

  lemma {:induction false} TrimmedNormal(ranges: seq<Range>, to: real)
    requires Normal(ranges) && ranges != [] && 0.0 <= to < ranges[|ranges| - 1].end
    ensures var r := Trimmed(ranges, to);
            Normal(r) && r != [] && r[0].start >= to && r[|r| - 1].end == ranges[|ranges| - 1].end
    decreases |ranges|
  {
    if ranges[0].end <= to {
      NormalTail(ranges);
      TrimmedNormal(ranges[1..], to);
    }
  }

  /** A prune removes a non-empty old interval short of the live edge; if the removal is exact, its
      own completion does not ask for another prune. */
  lemma PruneOnce(s: Player)
    requires Valid(s) && !s.failed && !s.Updating() && s.buffered != []
    requires s.End() - s.buffered[0].start > 12.0
    ensures var t := OnUpdateEnd(s, Throws(false, false, false));
            && t == s.(work := Removing(s.buffered[0].start, RetainFrom(s)))
            && RetainFrom(s) == s.End() - 8.0 && s.buffered[0].start < RetainFrom(s) - 4.0
            && var after := Trimmed(s.buffered, RetainFrom(s));
               && Normal(after) && after != []
               && !MustPrune(t.(buffered := after)) && t.(buffered := after).End() == s.End()
  {
    TrimmedNormal(s.buffered, RetainFrom(s));
  }

  /** A queued fragment is handed over at the next idle updateend, or at the one after it if that
      one prunes. */
  lemma QueueDrains(s: Player)
    requires Valid(s) && !s.failed && !s.Updating() && s.queue != []
    ensures var none := Throws(false, false, false);
            var t := OnUpdateEnd(s, none);
            if s.buffered != [] && s.End() - s.buffered[0].start > 12.0 then
              var u := OnUpdateEnd(t.(work := Idle, buffered := Trimmed(s.buffered, RetainFrom(s))), none);
              u.appended == s.appended + [s.queue[0]] && u.queue == s.queue[1..]
            else t.appended == s.appended + [s.queue[0]] && t.queue == s.queue[1..]
  {
    if s.buffered != [] && MustPrune(s) { PruneOnce(s); }
  }

  // ----- the live edge -----

  /** The playback rate that suits a gap. */
  function RateFor(gap: real): real
  {
    if gap < 0.75 then 0.85
    else if gap < 2.0 then 0.92
    else if 4.0 < gap <= 8.0 then 1.05
    else 1.0
  }

  /** After every live updateend that does not prune, playback is inside the last eight seconds. Only an
      underrun or a stale gap seeks, to three quarters of a second or three seconds before the end, or
      to the start of a newest range that is shorter. */
  lemma LiveGapBounded(s: Player, throws: Throws)
    requires Valid(s) && !s.failed && !s.Updating() && s.liveStarted && s.buffered != []
    requires s.End() - s.buffered[0].start <= 12.0
    ensures var t := OnUpdateEnd(s, throws);
            && t.buffered == s.buffered && 0.0 < t.Gap() <= 8.0
            && (0.0 < s.Gap() <= 8.0 ==> t.currentTime == s.currentTime)
            && (s.Gap() <= 0.0 ==>
                  t.Gap() == if s.End() - s.LastStart() < 0.75 then s.End() - s.LastStart() else 0.75)
            && (s.Gap() > 8.0 ==>
                  t.Gap() == if s.End() - s.LastStart() < 3.0 then s.End() - s.LastStart() else 3.0)
            && t.playbackRate == RateFor(s.Gap()) && t.liveStarted
  {
  }

  /** Playback starts exactly when the newest range holds three seconds, three seconds behind its
      end and inside it. */
  lemma StartsInNewestRange(s: Player, throws: Throws)
    requires Valid(s) && !s.failed && !s.Updating() && !s.liveStarted && s.buffered != []
    requires s.End() - s.buffered[0].start <= 12.0
    ensures var t := OnUpdateEnd(s, throws);
            && t.buffered == s.buffered && t.playbackRate == s.playbackRate
            && (t.liveStarted <==> s.End() - s.LastStart() >= 3.0)
            && (t.liveStarted ==> s.LastStart() <= t.currentTime < s.End() && t.Gap() == 3.0)
            && (!t.liveStarted ==> t.currentTime == s.currentTime)
  {
  }

  // ----- the handlers as they update the closure -----

  class LiveBuffer {
    var queue: seq<Fragment>
    var queueBytes: int
    var failed: bool
    var liveStarted: bool
    var currentTime: real
    var playbackRate: real
    var work: Work
    var buffered: seq<Range>
    ghost var pendingEnds: nat
    ghost var received: seq<Fragment>
    ghost var appended: seq<Fragment>

    ghost function State(): Player
      reads this
    {
      Player(queue, queueBytes, failed, liveStarted, currentTime, playbackRate, work, pendingEnds, buffered,
             received, appended)
    }

    /** appendBuffer() must not be called while the SourceBuffer is updating. */
    method AppendBuffer(data: Fragment, throws: bool) returns (thrown: bool)
      requires work == Idle
      modifies this`work, this`appended
      ensures thrown == throws
      ensures work == (if throws then Idle else Appending(data))
      ensures appended == if throws then old(appended) else old(appended) + [data]
    {
      if !throws { work, appended := Appending(data), appended + [data]; }
      thrown := throws;
    }

    method OnFailure()
      modifies this
      ensures State() == Fail(old(State()))
    {
      if failed { return; }
      failed := true;
      queue, queueBytes := [], 0;
    }

    method TakeNext(throws: bool)
      modifies this
      ensures State() == AppendNext(old(State()), throws)
    {
      if failed || work != Idle || queue == [] { return; }
      var data := queue[0];
      queue := queue[1..];
      queueBytes := queueBytes - data.bytes;
      var thrown := AppendBuffer(data, throws);
      if thrown { OnFailure(); }
    }

    method OnDataArrived(data: Fragment, throws: bool)
      modifies this
      ensures State() == OnData(old(State()), data, throws)
    {
      if failed { return; }
      received := received + [data];
      if work != Idle || queue != [] {
        if queueBytes + data.bytes > MAX_QUEUE_BYTES { OnFailure(); return; }
        queue := queue + [data];
        queueBytes := queueBytes + data.bytes;
        return;
      }
      var thrown := AppendBuffer(data, throws);
      if thrown { OnFailure(); }
    }

    method OnUpdateEnded(throws: Throws)
      modifies this
      ensures State() == OnUpdateEnd(old(State()), throws)
    {
      hide Max;
      if failed || work != Idle { return; }
      if buffered != [] {
        var end, start0, lastStart := buffered[|buffered| - 1].end, buffered[0].start, buffered[|buffered| - 1].start;
        if end - start0 > PRUNE_AFTER_SECONDS {
          if throws.remove { OnFailure(); return; }
          work := Removing(start0, Max(0.0, end - RETAIN_SECONDS));
          if throws.seekable { OnFailure(); }
          return;
        }
        var gap := end - currentTime;
        if !liveStarted {
          if end - lastStart >= START_BUFFER_SECONDS {
            currentTime := Max(lastStart, end - LIVE_TARGET_SECONDS);
            liveStarted := true;
          }
          TakeNext(throws.append);
          return;
        }
        if gap <= 0.0 {
          currentTime := Max(lastStart, end - CRITICAL_BUFFER_SECONDS);
          playbackRate := CRITICAL_PLAYBACK_RATE;
        } else if gap < CRITICAL_BUFFER_SECONDS {
          playbackRate := CRITICAL_PLAYBACK_RATE;
        } else if gap < LOW_BUFFER_SECONDS {
          playbackRate := LOW_PLAYBACK_RATE;
        } else if gap > HIGH_BUFFER_SECONDS && gap <= MAX_LIVE_GAP_SECONDS {
          playbackRate := CATCHUP_PLAYBACK_RATE;
        } else if playbackRate != 1.0 {
          playbackRate := 1.0;
        }
        if gap > MAX_LIVE_GAP_SECONDS {
          currentTime := Max(lastStart, end - LIVE_TARGET_SECONDS);
          playbackRate := 1.0;
        }
      }
      TakeNext(throws.append);
    }
  }
}
