/** Push-to-talk: the event loop puts frames on a bounded queue, a worker thread takes them off for
    the camera driver. Every atomic action of either side is a step, so a run is any interleaving. */
module Intercom {
  const STREAM_QUEUE_FRAMES := 25
  const PCM_FRAME_BYTES := 640
  const MAX_PCM_BYTES := 320_000

  datatype Frame = Frame(id: int, bytes: nat)

  datatype Item = Audio(frame: Frame) | StopMarker

  datatype Ending = ByMarker | ByStop | ByIdle | ByDriver

  /** Where the generator is. */
  datatype Consumer =
    | NotStarted
    | AtLoop
    | Getting
    | Holding(frame: Frame)
    | Yielding(frame: Frame)
    | Finished(ending: Ending)

  /** Where the websocket coroutine is. */
  datatype Producer = Setup | Receiving | Finalizing | PuttingStop | Waiting

  /** `abandoned` says that the thread of a cancelled put may still deliver its marker. */
  datatype Stream = Stream(queue: seq<Item>, stop: bool, ready: bool, totalBytes: int, gracefulStop: bool,
                           producer: Producer, abandoned: bool, consumer: Consumer, workerDone: bool,
                           accepted: seq<Frame>, yielded: seq<Frame>, dropped: seq<Frame>)

  const OPENED := Stream([], false, false, 0, false, Setup, false, NotStarted, false, [], [], [])

  datatype Message = Binary(frame: Frame) | StopText | OtherText | Disconnect | NothingYet

  datatype Step =
    // the worker thread
    | StartIterator
    | CheckStop
    | Take
    | FindEmpty(idleExpired: bool)
    | Recheck
    | Yield
    | DriverGivesUp
    | WorkerEnds
    // the event loop
    | SetupDone
    | Receive(message: Message)
    | LeaveLoop
    | Raise(cancelled: bool)
    | Finalize
    | PutStop
    | PutTimesOut
    | PutAbandoned
    // the thread of an abandoned put
    | LatePut
    | LatePutTimesOut
    // anyone: the guard's cancellation hook
    | SetStop

  function WithStop(s: Stream): Stream { s.(stop := true) }

  predicate Running(s: Stream)
  {
    s.producer == Receiving && s.totalBytes < MAX_PCM_BYTES && !s.workerDone
  }

  /** One received message, as the loop body treats it. */
  function OnMessage(s: Stream, m: Message): Stream
  {
    match m
    case NothingYet => s
    case Disconnect => s.(producer := Finalizing)
    case OtherText => s.(producer := Finalizing)
    case StopText => s.(gracefulStop := true, producer := Finalizing)
    case Binary(frame) =>
      if frame.bytes != PCM_FRAME_BYTES || s.totalBytes + frame.bytes > MAX_PCM_BYTES
         || |s.queue| == STREAM_QUEUE_FRAMES
      then s.(producer := Finalizing)
      else s.(queue := s.queue + [Audio(frame)], accepted := s.accepted + [frame],
              totalBytes := s.totalBytes + frame.bytes,
              gracefulStop := s.gracefulStop || s.totalBytes + frame.bytes == MAX_PCM_BYTES)
  }

  /** One step; a step that is not enabled changes nothing. */
  function Do(s: Stream, step: Step): Stream
  {
    match step
    case StartIterator => if s.consumer == NotStarted && !s.workerDone then s.(ready := true, consumer := AtLoop) else s
    case CheckStop =>
      if s.consumer != AtLoop then s else s.(consumer := if s.stop then Finished(ByStop) else Getting)
    case Take =>
      if s.consumer != Getting || s.queue == [] then s else
        var t := s.(queue := s.queue[1..]);
        (match s.queue[0]
         case StopMarker => t.(consumer := Finished(ByMarker))
         case Audio(frame) => t.(consumer := Holding(frame)))
    case FindEmpty(idleExpired) =>
      if s.consumer != Getting || s.queue != [] then s
      else s.(consumer := if idleExpired then Finished(ByIdle) else AtLoop)
    case Recheck =>
      if !s.consumer.Holding? then s
      else if s.stop then s.(consumer := Finished(ByStop), dropped := [s.consumer.frame])
      else s.(consumer := Yielding(s.consumer.frame))
    case Yield =>
      if !s.consumer.Yielding? then s
      else s.(consumer := AtLoop, yielded := s.yielded + [s.consumer.frame])
    case DriverGivesUp => if s.consumer == AtLoop then s.(consumer := Finished(ByDriver)) else s
    case WorkerEnds => if s.consumer.Finished? || s.consumer == NotStarted then s.(workerDone := true) else s
    case SetupDone => if s.producer == Setup && s.ready then s.(producer := Receiving) else s
    case Receive(message) => if Running(s) then OnMessage(s, message) else s
    case LeaveLoop => if s.producer == Receiving && !Running(s) then s.(producer := Finalizing) else s
    case Raise(cancelled) =>
      if s.producer != Setup && s.producer != Receiving then s
      else s.(producer := Finalizing, gracefulStop := s.gracefulStop && !cancelled)
    case Finalize =>
      if s.producer != Finalizing then s
      else if s.gracefulStop then s.(producer := PuttingStop)
      else
        WithStop(s.(producer := Waiting,
                    queue := if |s.queue| < STREAM_QUEUE_FRAMES then s.queue + [StopMarker] else s.queue))
    case PutStop =>
      if s.producer != PuttingStop || |s.queue| == STREAM_QUEUE_FRAMES then s
      else s.(producer := Waiting, queue := s.queue + [StopMarker])
    case PutTimesOut => if s.producer == PuttingStop then WithStop(s.(producer := Waiting)) else s
    case PutAbandoned => if s.producer == PuttingStop then s.(producer := Waiting, abandoned := true) else s
    case LatePut =>
      if !s.abandoned || |s.queue| == STREAM_QUEUE_FRAMES then s
      else s.(abandoned := false, queue := s.queue + [StopMarker])
    case LatePutTimesOut => s.(abandoned := false)
    case SetStop => WithStop(s)
  }

  function Run(s: Stream, steps: seq<Step>): Stream
    decreases |steps|
  {
    if steps == [] then s else Run(Do(s, steps[0]), steps[1..])
  }

  // ----- what every step keeps -----

  function Frames(queue: seq<Item>): seq<Frame>
  {
    if queue == [] then []
    else (if queue[0].Audio? then [queue[0].frame] else []) + Frames(queue[1..])
  }

  function InHand(c: Consumer): seq<Frame>
  {
    match c
    case Holding(frame) => [frame]
    case Yielding(frame) => [frame]
    case _ => []
  }

  /** The stop marker can only be the last item, and only once the producer is done. */
  ghost predicate MarkerLast(s: Stream)
  {
    forall i :: 0 <= i < |s.queue| && s.queue[i].StopMarker? ==> i == |s.queue| - 1 && s.producer == Waiting
  }

  ghost predicate NoMarker(queue: seq<Item>) { forall i :: 0 <= i < |queue| ==> queue[i].Audio? }

  /** Bounds, and what the positions of the two sides say about each other. */
  ghost predicate Orderly(s: Stream)
  {
    && |s.queue| <= STREAM_QUEUE_FRAMES && MarkerLast(s)
    && s.totalBytes == PCM_FRAME_BYTES * |s.accepted| <= MAX_PCM_BYTES
    && (s.abandoned ==> s.producer == Waiting && NoMarker(s.queue) && s.consumer != Finished(ByMarker))
    && (s.dropped != [] ==> s.consumer == Finished(ByStop))
    && (s.consumer == Finished(ByMarker) ==> s.queue == [] && s.producer == Waiting)
  }

  /** Accepted frames that were not yielded: dropped at the stop, in hand, or queued. */
  function Outstanding(s: Stream): seq<Frame>
  {
    s.dropped + (InHand(s.consumer) + Frames(s.queue))
  }

  ghost predicate Valid(s: Stream)
  {
    Orderly(s) && Ledger(s)
  }

  lemma {:induction false} FramesAppend(queue: seq<Item>, item: Item)
    ensures Frames(queue + [item]) == Frames(queue) + if item.Audio? then [item.frame] else []
  {
    if queue == [] {
      assert [item][1..] == [];
    } else {
      FramesAppend(queue[1..], item);
      assert (queue + [item])[1..] == queue[1..] + [item];
    }
  }

  lemma TakeKeepsOrderly(s: Stream)
    requires Orderly(s)
    ensures Orderly(Do(s, Take))
  {
    var t := Do(s, Take);
    if t != s { assert forall i :: 0 <= i < |t.queue| ==> t.queue[i] == s.queue[i + 1]; }
  }

  predicate WorkerStep(step: Step)
  {
    step.StartIterator? || step.CheckStop? || step.FindEmpty? || step.Recheck? || step.Yield? || step.DriverGivesUp?
    || step.WorkerEnds?
  }

  /** The worker's other steps do not touch the queue. */
  lemma WorkerKeepsOrderly(s: Stream, step: Step)
    requires Orderly(s) && WorkerStep(step)
    ensures Orderly(Do(s, step))
  {
    hide MarkerLast, NoMarker;
    SameQueue(s, Do(s, step));
  }

  lemma SameQueue(s: Stream, t: Stream)
    requires MarkerLast(s) && t.queue == s.queue && (t.producer == s.producer || t.producer == Waiting)
    ensures MarkerLast(t)
  {
  }

  lemma ReceiveKeepsOrderly(s: Stream, m: Message)
    requires Orderly(s) && Running(s)
    ensures Orderly(OnMessage(s, m))
  {
    var t := OnMessage(s, m);
    assert forall i :: 0 <= i < |s.queue| ==> s.queue[i].Audio? && t.queue[i] == s.queue[i];
  }

  /** Until the producer is done there is no marker, so it may move on. */
  lemma NoMarkerYet(s: Stream, t: Stream)
    requires MarkerLast(s) && s.producer != Waiting && t.queue == s.queue
    ensures MarkerLast(t) && NoMarker(s.queue)
  {
  }

  lemma MarkerGoesLast(s: Stream, t: Stream)
    requires NoMarker(s.queue) && t.queue == s.queue + [StopMarker] && t.producer == Waiting
    ensures MarkerLast(t)
  {
  }

  predicate MarkerStep(step: Step) { step.Finalize? || step.PutStop? || step.LatePut? }

  lemma MarkerKeepsOrderly(s: Stream, step: Step)
    requires Orderly(s) && MarkerStep(step)
    ensures Orderly(Do(s, step))
  {
    hide MarkerLast, NoMarker;
    var t := Do(s, step);
    if s.producer != Waiting { NoMarkerYet(s, t.(queue := s.queue)); }
    if t.queue != s.queue {
      MarkerGoesLast(s, t);
    } else if s.producer == Waiting {
      SameQueue(s, t);
    } else {
      assert t == t.(queue := s.queue);
    }
  }

  /** The other steps of the event loop do not touch the queue. */
  lemma LoopKeepsOrderly(s: Stream, step: Step)
    requires Orderly(s) && !WorkerStep(step) && !MarkerStep(step) && !step.Take? && !step.Receive?
    ensures Orderly(Do(s, step))
  {
    hide MarkerLast, NoMarker;
    var t := Do(s, step);
    if s.producer == Waiting { SameQueue(s, t); } else { NoMarkerYet(s, t); }
  }

  lemma StepKeepsOrderly(s: Stream, step: Step)
    requires Orderly(s)
    ensures Orderly(Do(s, step))
  {
    if step.Take? {
      TakeKeepsOrderly(s);
    } else if step.Receive? {
      if Running(s) { ReceiveKeepsOrderly(s, step.message); }
    } else if WorkerStep(step) {
      WorkerKeepsOrderly(s, step);
    } else if MarkerStep(step) {
      MarkerKeepsOrderly(s, step);
    } else {
      LoopKeepsOrderly(s, step);
    }
  }

  /** Taking an item moves it from the queue into the hand. */
  lemma TakeMoves(s: Stream)
    requires Orderly(s) && s.consumer == Getting && s.queue != []
    ensures Outstanding(Do(s, Take)) == Outstanding(s)
  {
    var t := Do(s, Take);
    if s.queue[0].StopMarker? {
      assert t.queue == [];
    }
    assert InHand(t.consumer) + Frames(t.queue) == Frames(s.queue) == [] + Frames(s.queue);
  }

  ghost predicate Ledger(s: Stream) { s.accepted == s.yielded + Outstanding(s) }

  lemma ReceiveKeepsLedger(s: Stream, m: Message)
    requires Ledger(s) && Running(s)
    ensures Ledger(OnMessage(s, m))
  {
    if m.Binary? {
      FramesAppend(s.queue, Audio(m.frame));
      hide Frames;
      assert s.yielded + Outstanding(s) + [m.frame]
          == s.yielded + (s.dropped + (InHand(s.consumer) + (Frames(s.queue) + [m.frame])));
    }
  }

  lemma YieldKeepsLedger(s: Stream)
    requires Orderly(s) && Ledger(s) && s.consumer.Yielding?
    ensures Ledger(Do(s, Yield))
  {
    hide Frames, MarkerLast;
    assert s.yielded + ([] + ([s.consumer.frame] + Frames(s.queue)))
        == s.yielded + [s.consumer.frame] + ([] + ([] + Frames(s.queue)));
  }

  lemma RecheckKeepsLedger(s: Stream)
    requires Orderly(s) && Ledger(s) && s.consumer.Holding?
    ensures Ledger(Do(s, Recheck))
  {
    hide Frames, MarkerLast;
    assert [] + ([s.consumer.frame] + Frames(s.queue)) == [s.consumer.frame] + ([] + Frames(s.queue));
  }

  /** A step yields the first outstanding frame, accepts one at the end, or leaves the ledger. */
  lemma StepKeepsLedger(s: Stream, step: Step)
    requires Orderly(s) && Ledger(s)
    ensures Ledger(Do(s, step))
  {
    match step
    case Take => if s.consumer == Getting && s.queue != [] { TakeMoves(s); }
    case Receive(m) => if Running(s) { ReceiveKeepsLedger(s, m); }
    case Yield => if s.consumer.Yielding? { YieldKeepsLedger(s); }
    case Recheck => if s.consumer.Holding? { RecheckKeepsLedger(s); }
    case _ => QuietStep(s, step);
  }

  /** The steps that leave every part of the ledger alone. */
  ghost predicate SameLedger(s: Stream, t: Stream)
  {
    && t.accepted == s.accepted && t.yielded == s.yielded && t.dropped == s.dropped
    && InHand(t.consumer) == InHand(s.consumer) && Frames(t.queue) == Frames(s.queue)
  }

  lemma QuietStep(s: Stream, step: Step)
    requires !step.Take? && !step.Receive? && !step.Yield? && !step.Recheck?
    ensures SameLedger(s, Do(s, step))
  {
    hide SameLedger;
    if WorkerStep(step) {
      QuietWorker(s, step);
    } else if MarkerStep(step) {
      QuietMarker(s, step);
    } else {
      QuietLoop(s, step);
    }
  }

  lemma QuietWorker(s: Stream, step: Step)
    requires WorkerStep(step) && !step.Yield? && !step.Recheck?
    ensures SameLedger(s, Do(s, step))
  {
    hide Frames;
  }

  lemma QuietMarker(s: Stream, step: Step)
    requires MarkerStep(step)
    ensures SameLedger(s, Do(s, step))
  {
    hide Frames;
    MarkerAddsNothing(s);
  }

  lemma QuietLoop(s: Stream, step: Step)
    requires !WorkerStep(step) && !MarkerStep(step) && !step.Take? && !step.Receive?
    ensures SameLedger(s, Do(s, step))
  {
    hide Frames;
  }

  lemma MarkerAddsNothing(s: Stream)
    ensures Frames(s.queue + [StopMarker]) == Frames(s.queue)
  {
    FramesAppend(s.queue, StopMarker);
  }

  lemma StepKeepsValid(s: Stream, step: Step)
    requires Valid(s)
    ensures Valid(Do(s, step))
  {
    hide Do, Orderly, Ledger;
    StepKeepsOrderly(s, step);
    StepKeepsLedger(s, step);
  }

  lemma {:induction false} AlwaysValid(s: Stream, steps: seq<Step>)
    requires Valid(s)
    ensures Valid(Run(s, steps))
    decreases |steps|
  {
    if steps != [] {
      StepKeepsValid(s, steps[0]);
      AlwaysValid(Do(s, steps[0]), steps[1..]);
    }
  }

  /** In every interleaving: frames reach the driver in order and unaltered, at most 25 are queued
      and 500 accepted, and reaching the stop marker means all were yielded. */
  lemma EveryInterleaving(steps: seq<Step>)
    ensures var s := Run(OPENED, steps);
            && s.yielded <= s.accepted && |s.queue| <= 25 && |s.accepted| <= 500
            && (s.consumer == Finished(ByMarker) ==> s.yielded == s.accepted)
  {
    AlwaysValid(OPENED, steps);
  }

  /** Once the stop event is set, whatever follows, nothing is yielded but the frame that the generator
      is yielding right then, if any: no frame taken off the queue later ever gets out. */
  lemma {:induction false} StoppedYieldsNoMore(s: Stream, steps: seq<Step>)
    requires s.stop
    ensures var t := Run(s, steps);
            t.yielded == s.yielded || (s.consumer.Yielding? && t.yielded == s.yielded + [s.consumer.frame])
    decreases |steps|
  {
    if steps != [] {
      StoppedStep(s, steps[0]);
      hide Do;
      StoppedYieldsNoMore(Do(s, steps[0]), steps[1..]);
    }
  }

  lemma StoppedStep(s: Stream, step: Step)
    requires s.stop
    ensures var t := Do(s, step);
            && t.stop
            && (t.consumer.Yielding? ==> t.consumer == s.consumer)
            && if step.Yield? && s.consumer.Yielding? then
                 t.yielded == s.yielded + [s.consumer.frame] && !t.consumer.Yielding?
               else t.yielded == s.yielded
  {
    if step.Receive? {
    } else if WorkerStep(step) || step.Take? {
      StoppedWorker(s, step);
    } else {
      StoppedLoop(s, step);
    }
  }

  lemma StoppedWorker(s: Stream, step: Step)
    requires s.stop && (WorkerStep(step) || step.Take?)
    ensures var t := Do(s, step);
            && t.stop
            && (t.consumer.Yielding? ==> t.consumer == s.consumer)
            && if step.Yield? && s.consumer.Yielding? then
                 t.yielded == s.yielded + [s.consumer.frame] && !t.consumer.Yielding?
               else t.yielded == s.yielded
  {
  }

  lemma StoppedLoop(s: Stream, step: Step)
    requires s.stop && !WorkerStep(step) && !step.Take? && !step.Receive?
    ensures Do(s, step).stop && Do(s, step).consumer == s.consumer && Do(s, step).yielded == s.yielded
  {
  }

  /** Until the worker ends, accepted frames are exactly those yielded, in hand or queued. */
  lemma NothingLostWhileRunning(steps: seq<Step>)
    requires !Run(OPENED, steps).consumer.Finished?
    ensures var s := Run(OPENED, steps);
            s.accepted == s.yielded + InHand(s.consumer) + Frames(s.queue)
  {
    AlwaysValid(OPENED, steps);
    hide Run, Valid, Frames;
    NothingDropped(Run(OPENED, steps));
  }

  lemma NothingDropped(s: Stream)
    requires Valid(s) && !s.consumer.Finished?
    ensures s.accepted == s.yielded + InHand(s.consumer) + Frames(s.queue)
  {
    hide Frames, InHand, MarkerLast, NoMarker;
    assert s.dropped == [];
    assert s.yielded + ([] + (InHand(s.consumer) + Frames(s.queue)))
        == s.yielded + InHand(s.consumer) + Frames(s.queue);
  }

  // ----- one message -----

  /** A binary message is accepted exactly when it is one frame of 640 bytes, ten seconds of sound are
      not exceeded and the queue has room; it then goes last. The last frame of ten seconds and a stop
      text end the stream gracefully, every other message but silence ends it without. */
  lemma ReceiveExactly(s: Stream, m: Message)
    requires s.producer == Receiving && s.totalBytes < 320_000 && !s.workerDone
    ensures var t := Do(s, Receive(m));
            var fits := m.Binary? && m.frame.bytes == 640 && s.totalBytes <= 319_360 && |s.queue| != 25;
            && (fits ==>
                  t == s.(queue := s.queue + [Audio(m.frame)], accepted := s.accepted + [m.frame],
                          totalBytes := s.totalBytes + 640,
                          gracefulStop := s.gracefulStop || s.totalBytes == 319_360))
            && (m == NothingYet ==> t == s)
            && (m == StopText ==> t == s.(producer := Finalizing, gracefulStop := true))
            && (!fits && m != NothingYet && m != StopText ==> t == s.(producer := Finalizing))
  {
  }

  /** Nothing is received before the worker is ready, after ten seconds of sound or once it ended. */
  lemma ReceivesOnlyWhileRunning(s: Stream, m: Message)
    requires s.producer != Receiving || s.totalBytes >= 320_000 || s.workerDone
    ensures Do(s, Receive(m)) == s
    ensures s.producer == Receiving ==> Do(s, LeaveLoop) == s.(producer := Finalizing)
  {
  }

  /** Nothing is accepted before the worker asks for the first frame. */
  lemma NothingBeforeReady(steps: seq<Step>)
    requires StartIterator !in steps
    ensures Run(OPENED, steps).accepted == [] && !Run(OPENED, steps).ready
  {
    Unready(OPENED, steps);
  }

  lemma {:induction false} Unready(s: Stream, steps: seq<Step>)
    requires !s.ready && s.producer != Receiving && StartIterator !in steps
    ensures Run(s, steps).accepted == s.accepted && !Run(s, steps).ready
    decreases |steps|
  {
    if steps != [] {
      assert steps[0] in steps;
      UnreadyStep(s, steps[0]);
      hide Do;
      Unready(Do(s, steps[0]), steps[1..]);
    }
  }

  lemma UnreadyStep(s: Stream, step: Step)
    requires !s.ready && s.producer != Receiving && step != StartIterator
    ensures var t := Do(s, step);
            !t.ready && t.producer != Receiving && t.accepted == s.accepted
  {
    if WorkerStep(step) || step.Take? {
      UnreadyWorker(s, step);
    } else if !step.Receive? {
      UnreadyLoop(s, step);
    }
  }

  lemma UnreadyWorker(s: Stream, step: Step)
    requires !s.ready && (WorkerStep(step) || step.Take?) && step != StartIterator
    ensures var t := Do(s, step);
            !t.ready && t.producer == s.producer && t.accepted == s.accepted
  {
  }

  lemma UnreadyLoop(s: Stream, step: Step)
    requires !s.ready && s.producer != Receiving && !WorkerStep(step) && !step.Take? && !step.Receive?
    ensures var t := Do(s, step);
            !t.ready && t.producer != Receiving && t.accepted == s.accepted
  {
  }

  /** The driver starts and ends the generator: an empty queue ends it only after the idle time, and the
      worker ends with its generator, or without ever having started it. */
  lemma WorkerEndsExactly(s: Stream, idleExpired: bool)
    ensures s.consumer == Getting && s.queue == [] ==>
              Do(s, FindEmpty(idleExpired)) == s.(consumer := if idleExpired then Finished(ByIdle) else AtLoop)
    ensures s.queue != [] ==> Do(s, FindEmpty(idleExpired)) == s
    ensures s.consumer == AtLoop ==> Do(s, DriverGivesUp) == s.(consumer := Finished(ByDriver))
    ensures Do(s, WorkerEnds).workerDone <==> s.workerDone || s.consumer.Finished? || s.consumer == NotStarted
  {
  }

  /** The marker of a graceful end is put as soon as there is room; after a second without room the stop
      event is set instead. */
  lemma MarkerPut(s: Stream)
    requires s.producer == PuttingStop
    ensures |s.queue| < 25 ==> Do(s, PutStop) == s.(producer := Waiting, queue := s.queue + [StopMarker])
    ensures |s.queue| == 25 ==> Do(s, PutStop) == s
    ensures Do(s, PutTimesOut) == s.(producer := Waiting, stop := true)
  {
  }

  /** A cancelled coroutine leaves it to the thread, which may still put it. */
  lemma MarkerAbandoned(s: Stream)
    requires s.producer == PuttingStop
    ensures var t := Do(s, PutAbandoned);
            && t == s.(producer := Waiting, abandoned := true)
            && (|s.queue| < 25 ==> Do(t, LatePut) == s.(producer := Waiting, abandoned := false,
                                                         queue := s.queue + [StopMarker]))
            && Do(t, LatePutTimesOut) == s.(producer := Waiting, abandoned := false)
  {
  }

  // ----- graceful and abrupt stops -----

  /** Steps that end a stream against the wish of its client: cancellation, a full queue for a second
      after the end, and the cancellation hook. */
  predicate Forced(step: Step) { step == Raise(true) || step.PutTimesOut? || step.SetStop? }

  ghost predicate Unforced(steps: seq<Step>) { forall i :: 0 <= i < |steps| ==> !Forced(steps[i]) }

  /** The stop event is set only by a forced end or by an abrupt one. */
  ghost predicate StopHasCause(s: Stream)
  {
    && (s.stop ==> s.producer == Waiting && !s.gracefulStop)
    && (s.consumer == Finished(ByStop) ==> s.stop)
  }

  lemma {:induction false} UnforcedStop(s: Stream, steps: seq<Step>)
    requires StopHasCause(s) && Unforced(steps)
    ensures StopHasCause(Run(s, steps))
    ensures s.gracefulStop ==> Run(s, steps).gracefulStop
    decreases |steps|
  {
    if steps != [] {
      assert !Forced(steps[0]);
      UnforcedStep(s, steps[0]);
      hide Do, StopHasCause;
      UnforcedStop(Do(s, steps[0]), steps[1..]);
    }
  }

  lemma UnforcedStep(s: Stream, step: Step)
    requires StopHasCause(s) && !Forced(step)
    ensures StopHasCause(Do(s, step)) && (s.gracefulStop ==> Do(s, step).gracefulStop)
  {
    if WorkerStep(step) || step.Take? {
      hide Do;
      WorkerSide(s, step);
    } else if step.Receive? {
    } else {
      LoopSide(s, step);
    }
  }

  lemma LoopSide(s: Stream, step: Step)
    requires StopHasCause(s) && !Forced(step) && !WorkerStep(step) && !step.Take? && !step.Receive?
    ensures StopHasCause(Do(s, step)) && (s.gracefulStop ==> Do(s, step).gracefulStop)
  {
  }

  /** The worker moves frames and itself, and stops for the stop event only when it is set. */
  lemma WorkerSide(s: Stream, step: Step)
    requires WorkerStep(step) || step.Take?
    ensures var t := Do(s, step);
            && t.stop == s.stop && t.gracefulStop == s.gracefulStop && t.producer == s.producer
            && t.totalBytes == s.totalBytes
            && (t.consumer == Finished(ByStop) ==> s.consumer == Finished(ByStop) || s.stop)
  {
    match step
    case Take => TakeSide(s);
    case Recheck =>
    case Yield =>
    case CheckStop =>
    case _ => RestSide(s, step);
  }

  lemma TakeSide(s: Stream)
    ensures Do(s, Take) == s.(queue := Do(s, Take).queue, consumer := Do(s, Take).consumer)
    ensures Do(s, Take).consumer == Finished(ByStop) ==> s.consumer == Finished(ByStop)
  {
  }

  lemma RestSide(s: Stream, step: Step)
    requires step.StartIterator? || step.FindEmpty? || step.DriverGivesUp? || step.WorkerEnds?
    ensures var t := Do(s, step);
            && t == s.(ready := t.ready, consumer := t.consumer, workerDone := t.workerDone)
            && (t.consumer == Finished(ByStop) ==> s.consumer == Finished(ByStop))
  {
  }

  lemma {:induction false} RunAppend(s: Stream, a: seq<Step>, b: seq<Step>)
    ensures Run(s, a + b) == Run(Run(s, a), b)
    decreases |a|
  {
    if a == [] {
      assert a + b == b;
    } else {
      assert (a + b)[1..] == a[1..] + b;
      RunAppend(Do(s, a[0]), a[1..], b);
    }
  }

  /** What ends the generator other than the marker and the stop event. */
  ghost predicate Interrupted(s: Stream)
  {
    s.consumer == Finished(ByIdle) || s.consumer == Finished(ByDriver)
  }

  lemma {:induction false} Uninterrupted(s: Stream, steps: seq<Step>)
    requires !Interrupted(s) && DriverGivesUp !in steps && FindEmpty(true) !in steps
    ensures !Interrupted(Run(s, steps))
    decreases |steps|
  {
    if steps != [] {
      hide Do, Interrupted;
      assert steps[0] in steps;
      StepInterrupts(s, steps[0]);
      Uninterrupted(Do(s, steps[0]), steps[1..]);
    }
  }

  lemma StepInterrupts(s: Stream, step: Step)
    requires !Interrupted(s) && step != DriverGivesUp && step != FindEmpty(true)
    ensures !Interrupted(Do(s, step))
  {
  }

  /** A stream that its client stops, or that reaches ten seconds, is drained: unless it is forced to
      end the stop event is never set, and unless the driver gives up or the stream idles, the
      generator ends only after every accepted frame was yielded. */
  lemma GracefulStopDrains(before: seq<Step>, after: seq<Step>)
    requires Unforced(before + after)
    requires var s := Run(OPENED, before);
             s.totalBytes == 320_000 || (Running(s) && after != [] && after[0] == Receive(StopText))
    ensures var s := Run(OPENED, before + after);
            && !s.stop
            && (DriverGivesUp !in before + after && FindEmpty(true) !in before + after && s.consumer.Finished? ==>
                  s.consumer == Finished(ByMarker) && s.yielded == s.accepted)
  {
    hide Do, Unforced, Running, Run, StopHasCause;
    var all := before + after;
    GracefulEnd(before, after);
    NotStopped(Run(OPENED, all));
    EveryInterleaving(all);
    if DriverGivesUp !in all && FindEmpty(true) !in all && Run(OPENED, all).consumer.Finished? {
      Uninterrupted(OPENED, all);
      EndsAtMarker(Run(OPENED, all));
    }
  }

  lemma GracefulEnd(before: seq<Step>, after: seq<Step>)
    requires Unforced(before + after)
    requires var s := Run(OPENED, before);
             s.totalBytes == 320_000 || (Running(s) && after != [] && after[0] == Receive(StopText))
    ensures StopHasCause(Run(OPENED, before + after)) && Run(OPENED, before + after).gracefulStop
  {
    hide Do, Unforced, Running;
    var s := Run(OPENED, before);
    UnforcedParts(before, after);
    RunAppend(OPENED, before, after);
    UnforcedStop(OPENED, before);
    hide StopHasCause;
    if s.totalBytes == 320_000 {
      FullIsGraceful(OPENED, before);
      UnforcedStop(s, after);
    } else {
      StopTextIsGraceful(s);
      UnforcedStop(Do(s, after[0]), after[1..]);
    }
  }

  lemma NotStopped(s: Stream)
    requires StopHasCause(s) && s.gracefulStop
    ensures !s.stop
  {
  }

  lemma EndsAtMarker(s: Stream)
    requires StopHasCause(s) && !s.stop && !Interrupted(s) && s.consumer.Finished?
    ensures s.consumer == Finished(ByMarker)
  {
    var ending := s.consumer.ending;
    assert s.consumer == Finished(ending);
    assert ending == ByMarker || ending == ByStop || ending == ByIdle || ending == ByDriver;
  }

  lemma StopTextIsGraceful(s: Stream)
    requires StopHasCause(s) && Running(s)
    ensures StopHasCause(Do(s, Receive(StopText))) && Do(s, Receive(StopText)).gracefulStop
  {
  }

  lemma UnforcedParts(before: seq<Step>, after: seq<Step>)
    requires Unforced(before + after)
    ensures Unforced(before) && Unforced(after) && (after != [] ==> Unforced(after[1..]))
  {
    var all := before + after;
    assert forall i :: 0 <= i < |before| ==> all[i] == before[i];
    assert forall i :: 0 <= i < |after| ==> all[|before| + i] == after[i];
  }

  /** Ten seconds of sound are a graceful end. */
  lemma {:induction false} FullIsGraceful(s: Stream, steps: seq<Step>)
    requires Unforced(steps) && (s.totalBytes == 320_000 ==> s.gracefulStop)
    ensures Run(s, steps).totalBytes == 320_000 ==> Run(s, steps).gracefulStop
    decreases |steps|
  {
    if steps != [] {
      assert !Forced(steps[0]);
      FullStep(s, steps[0]);
      hide Do;
      FullIsGraceful(Do(s, steps[0]), steps[1..]);
    }
  }

  lemma FullStep(s: Stream, step: Step)
    requires !Forced(step) && (s.totalBytes == 320_000 ==> s.gracefulStop)
    ensures Do(s, step).totalBytes == 320_000 ==> Do(s, step).gracefulStop
  {
    if WorkerStep(step) || step.Take? {
      hide Do;
      WorkerSide(s, step);
    } else if !step.Receive? {
      FullLoopStep(s, step);
    }
  }

  lemma FullLoopStep(s: Stream, step: Step)
    requires !Forced(step) && !WorkerStep(step) && !step.Take? && !step.Receive?
    ensures Do(s, step).totalBytes == s.totalBytes && (s.gracefulStop ==> Do(s, step).gracefulStop)
  {
  }

  /** Any other end, and every cancellation, sets the stop event when the coroutine finalizes, whatever
      else happens: queued sound is not played after it. */
  lemma {:induction false} AbruptStop(s: Stream, steps: seq<Step>, k: nat)
    requires s.producer == Finalizing && !s.gracefulStop && k < |steps| && steps[k] == Finalize
    ensures Run(s, steps).stop
    decreases |steps|
  {
    if steps[0] == Finalize {
      StopStays(Do(s, Finalize), steps[1..]);
    } else {
      AbruptStop(Do(s, steps[0]), steps[1..], k - 1);
    }
  }

  lemma {:induction false} StopStays(s: Stream, steps: seq<Step>)
    requires s.stop
    ensures Run(s, steps).stop
    decreases |steps|
  {
    if steps != [] {
      StoppedStep(s, steps[0]);
      hide Do;
      StopStays(Do(s, steps[0]), steps[1..]);
    }
  }

  /** Before it is finalized a cancelled coroutine is no longer graceful, so that AbruptStop applies. */
  lemma CancelledIsAbrupt(s: Stream)
    requires s.producer == Setup || s.producer == Receiving
    ensures Do(s, Raise(true)) == s.(producer := Finalizing, gracefulStop := false)
    ensures Do(s, Raise(false)) == s.(producer := Finalizing)
    ensures var t := Do(s.(producer := Finalizing, gracefulStop := false), Finalize);
            && t.stop && t.producer == Waiting
            && t.queue == if |s.queue| < 25 then s.queue + [StopMarker] else s.queue
  {
  }

  // ----- a whole session -----

  /** A frame that is sent, taken and yielded. */
  ghost function Relay(f: Frame): seq<Step> { [Receive(Binary(f)), CheckStop, Take, Recheck, Yield] }

  ghost function RelayAll(frames: seq<Frame>): seq<Step>
  {
    if frames == [] then [] else RelayAll(frames[..|frames| - 1]) + Relay(frames[|frames| - 1])
  }

  ghost predicate Relayed(s: Stream, frames: seq<Frame>)
  {
    && s.queue == [] && !s.stop && s.producer == Receiving && s.consumer == AtLoop && !s.workerDone && !s.abandoned
    && s.accepted == s.yielded == frames && s.totalBytes == 640 * |frames| && s.gracefulStop == (|frames| == 500)
  }

  lemma RelayOne(s: Stream, frames: seq<Frame>, f: Frame)
    requires Relayed(s, frames) && |frames| < 500 && f.bytes == 640
    ensures Relayed(Run(s, Relay(f)), frames + [f])
  {
    var s1 := Do(s, Receive(Binary(f)));
    assert s1.queue == [Audio(f)];
    var s2 := Do(s1, CheckStop);
    var s3 := Do(s2, Take);
    assert s3.queue == [] && s3.consumer == Holding(f);
    var s4 := Do(s3, Recheck);
    var s5 := Do(s4, Yield);
    FiveSteps(s, Relay(f));
  }

  lemma FiveSteps(s: Stream, steps: seq<Step>)
    requires |steps| == 5
    ensures Run(s, steps) == Do(Do(Do(Do(Do(s, steps[0]), steps[1]), steps[2]), steps[3]), steps[4])
  {
    hide Do;
    assert steps == [steps[0], steps[1], steps[2], steps[3], steps[4]];
    RunAppend(s, [steps[0]], [steps[1], steps[2], steps[3], steps[4]]);
    RunAppend(Do(s, steps[0]), [steps[1]], [steps[2], steps[3], steps[4]]);
    RunAppend(Do(Do(s, steps[0]), steps[1]), [steps[2]], [steps[3], steps[4]]);
    RunAppend(Do(Do(Do(s, steps[0]), steps[1]), steps[2]), [steps[3]], [steps[4]]);
  }

  lemma {:induction false} RelayMany(s: Stream, frames: seq<Frame>)
    requires Relayed(s, []) && |frames| <= 500 && forall i :: 0 <= i < |frames| ==> frames[i].bytes == 640
    ensures Relayed(Run(s, RelayAll(frames)), frames)
    decreases |frames|
  {
    if frames != [] {
      var n := |frames| - 1;
      RelayMany(s, frames[..n]);
      RunAppend(s, RelayAll(frames[..n]), Relay(frames[n]));
      RelayOne(Run(s, RelayAll(frames[..n])), frames[..n], frames[n]);
      assert frames == frames[..n] + [frames[n]];
    }
  }

  /** The start of a session, and its end once every frame was relayed: at the client's stop or after ten
      seconds. */
  const OPENING := [StartIterator, SetupDone]

  function Closing(count: int): seq<Step>
  {
    [if count < 500 then Receive(StopText) else LeaveLoop, Finalize, PutStop, CheckStop, Take, WorkerEnds]
  }

  /** Whole sessions do succeed: for any list of up to 500 frames there is a run in which all of them are
      accepted and yielded and the worker ends at the marker. */
  lemma {:induction false} SessionDelivers(frames: seq<Frame>)
    requires |frames| <= 500 && forall i :: 0 <= i < |frames| ==> frames[i].bytes == 640
    ensures var s := Run(OPENED, OPENING + RelayAll(frames) + Closing(|frames|));
            && s.accepted == s.yielded == frames && s.consumer == Finished(ByMarker) && s.workerDone && !s.stop
  {
    var begun := Run(OPENED, OPENING);
    assert Relayed(begun, []) by { assert OPENING[1..] == [SetupDone] && [SetupDone][1..] == []; }
    RelayMany(begun, frames);
    RunAppend(OPENED, OPENING, RelayAll(frames));
    RunAppend(OPENED, OPENING + RelayAll(frames), Closing(|frames|));
    CloseSession(Run(begun, RelayAll(frames)), frames);
  }

  lemma CloseSession(s: Stream, frames: seq<Frame>)
    requires Relayed(s, frames) && |frames| <= 500
    ensures var t := Run(s, Closing(|frames|));
            t.accepted == t.yielded == frames && t.consumer == Finished(ByMarker) && t.workerDone && !t.stop
  {
    var steps := Closing(|frames|);
    var s1 := Do(s, steps[0]);
    var s2 := Do(s1, Finalize);
    assert s2.producer == PuttingStop;
    var s3 := Do(s2, PutStop);
    assert s3.queue == [StopMarker];
    var s4 := Do(s3, CheckStop);
    assert s4.consumer == Getting;
    assert steps == steps[..5] + [WorkerEnds];
    FiveSteps(s, steps[..5]);
    RunAppend(s, steps[..5], [WorkerEnds]);
    assert [WorkerEnds][1..] == [];
  }
}
