/** The archive player: one selection owns its requests, timers and the video source. Replies,
    play promises and timers may belong to a selection or attempt that has been superseded. */
module RecordingPlayback {
  import opened Outcomes

  const BUDGET := 650_000

  /** What the video element plays: a recording, transcoded or as recorded. */
  datatype Source = Source(path: string, original: bool)

  datatype Status = Status(key: string, loading: bool)

  datatype Kind = Poll | Native | Start | Buffer

  /** A scheduled callback, with the selection and attempt its closure captured. */
  datatype Task = Task(kind: Kind, item: nat, attempt: nat)

  /** One selection. Timer fields hold the handle of the timer last set, which may have fired or
      been cleared since; only the buffer handle is reset then. `request` says whether a preparation
      or status request is outstanding. */
  datatype Item = Item(id: nat, path: string, resume: real, deadline: int, attempt: nat,
                       ready: bool, started: bool, original: bool, fallback: bool, failed: bool, playPending: bool,
                       request: bool, timer: Option<nat>, nativeTimer: Option<nat>, startTimer: Option<nat>,
                       bufferTimer: Option<nat>, bufferPosition: real)
  {
    function Handle(kind: Kind): Option<nat>
    {
      match kind
      case Poll => timer
      case Native => nativeTimer
      case Start => startTimer
      case Buffer => bufferTimer
    }

    /** The handles cleared when the source goes away. */
    function SourceHandles(): set<nat>
    {
      (if nativeTimer.Some? then {nativeTimer.value} else {})
      + (if startTimer.Some? then {startTimer.value} else {})
      + (if bufferTimer.Some? then {bufferTimer.value} else {})
    }

    /** Handles were issued once each, so those of different kinds differ. */
    ghost predicate HandlesIssued(next: nat)
    {
      && (timer.Some? ==> timer.value < next) && (nativeTimer.Some? ==> nativeTimer.value < next)
      && (startTimer.Some? ==> startTimer.value < next) && (bufferTimer.Some? ==> bufferTimer.value < next)
      && (timer.Some? ==> timer != nativeTimer && timer != startTimer && timer != bufferTimer)
      && (nativeTimer.Some? ==> nativeTimer != startTimer && nativeTimer != bufferTimer)
      && (startTimer.Some? ==> startTimer != bufferTimer)
    }

    /** When a timer of this kind may be pending. */
    ghost predicate Allows(kind: Kind)
    {
      match kind
      case Poll => !ready && !failed && !request
      case Native => ready && original
      case Start => ready && !original
      case Buffer => ready && started
    }

    /** The new source-less state after a failure, a timeout or a fallback. */
    function Detached(): Item { this.(ready := false, attempt := attempt + 1, playPending := false) }
  }

  function NewItem(id: nat, path: string, resume: real, now: int): Item
  {
    Item(id, path, resume, now + BUDGET, 0, false, false, false, false, false, false, true, None, None, None, None, 0.0)
  }

  /** A new selection waits for its preparation, for at most 650 seconds; nothing of it is ready, failed
      or watched yet. */
  lemma NewSelection(id: nat, path: string, resume: real, now: int)
    ensures var item := NewItem(id, path, resume, now);
            && item.id == id && item.path == path && item.resume == resume && item.deadline == now + 650_000
            && item.attempt == 0 && item.request && !item.ready && !item.started && !item.original && !item.fallback
            && !item.failed && !item.playPending
            && (forall kind :: item.Handle(kind).None?) && item.SourceHandles() == {}
  {
  }

  /** Losing the source makes the selection unready under a new attempt, and changes nothing else of it. */
  lemma DetachedSelection(item: Item)
    ensures var next := item.Detached();
            && !next.ready && next.attempt == item.attempt + 1 && !next.playPending
            && next.(ready := item.ready, attempt := item.attempt, playPending := item.playPending) == item
  {
  }

  function OrElse(time: real, fallback: real): real { if time != 0.0 then time else fallback }

  /** Why a play promise was rejected. */
  datatype Rejection = NotSupported | NotAllowed | Aborted | OtherRejection

  datatype Event =
    | Select(path: string, now: int)
    | Dispose
    | CheckReply(item: nat, ready: bool, cached: bool, original: bool, transcoding: bool, now: int)
    | CheckFailed(item: nat, tooManyRequests: bool)
    | TimerFires(handle: nat, paused: bool, ended: bool, seeking: bool, time: real, now: int)
    | PlayRejected(item: nat, attempt: nat, why: Rejection, paused: bool, mediaError: bool, time: real, now: int)
    | PlayFulfilled(item: nat, attempt: nat)
    | Playing(noVideo: bool, time: real, now: int)
    | MediaError(decodeError: bool, time: real, now: int)
    | Metadata(duration: real)
    | PlayEvent
    | PauseEvent(paused: bool)
    | WaitingEvent(paused: bool, time: real)
    | CanPlay(paused: bool)
    | TimeUpdate(seeking: bool, paused: bool, ended: bool, time: real)

  /** Every pending timer is the one its kind's handle names, and belongs to this selection and its
      current attempt. */
  ghost predicate Owned(current: Option<Item>, pending: map<nat, Task>, handles: nat)
  {
    forall h :: h in pending ==>
      && h < handles && current.Some?
      && pending[h].item == current.value.id && pending[h].attempt == current.value.attempt
      && current.value.Handle(pending[h].kind) == Some(h) && current.value.Allows(pending[h].kind)
  }

  /** Clearing the source's timers leaves at most the poll timer. */
  lemma ClearedSource(item: Item, pending: map<nat, Task>, handles: nat)
    requires Owned(Some(item), pending, handles) && item.HandlesIssued(handles)
    ensures var rest := pending - item.SourceHandles();
            && Owned(Some(item.(bufferTimer := None)), rest, handles)
            && (forall h :: h in rest <==> h in pending && pending[h].kind == Poll)
            && (item.ready ==> rest == map[])
  {
    var rest := pending - item.SourceHandles();
    forall h | h in pending
      ensures h in rest <==> pending[h].kind == Poll
    {
      assert item.Handle(pending[h].kind) == Some(h);
    }
    if item.ready { assert rest.Keys == {} by { assert forall h :: h in rest ==> item.Allows(pending[h].kind); } }
  }

  /** Clearing one kind's handle leaves the other kinds' timers. */
  lemma ClearedOne(item: Item, pending: map<nat, Task>, handles: nat, kind: Kind)
    requires Owned(Some(item), pending, handles) && item.HandlesIssued(handles)
    ensures var handle := item.Handle(kind);
            var rest := if handle.Some? then pending - {handle.value} else pending;
            && Owned(Some(item), rest, handles)
            && (forall h :: h in pending && pending[h].kind != kind ==> h in rest)
            && (forall h :: h in rest ==> h in pending && rest[h].kind != kind)
            && (kind != Buffer && item.bufferTimer.Some? && item.bufferTimer.value in pending
                ==> item.bufferTimer.value in rest)
  {
    forall h | h in pending
      ensures pending[h].kind == kind <==> item.Handle(kind) == Some(h)
    {
      assert item.Handle(pending[h].kind) == Some(h);
    }
  }

  /** While a request is outstanding no timer is pending. */
  lemma NothingPending(item: Item, pending: map<nat, Task>, handles: nat)
    requires Owned(Some(item), pending, handles) && item.request && !item.ready
    ensures pending == map[]
  {
    assert forall h :: h in pending ==> item.Allows(pending[h].kind);
    assert pending.Keys == {};
  }

  lemma OwnedEmpty(current: Option<Item>, handles: nat)
    ensures Owned(current, map[], handles)
  {
  }

  lemma HandlesKept(a: Item, b: Item, handles: nat)
    requires a.HandlesIssued(handles)
    requires b.timer == a.timer && b.nativeTimer == a.nativeTimer && b.startTimer == a.startTimer
             && b.bufferTimer == a.bufferTimer
    ensures b.HandlesIssued(handles)
  {
  }

  /** Two versions of a selection that agree on everything its timers depend on. */
  ghost predicate SameTimers(a: Item, b: Item)
  {
    b == a.(path := b.path, resume := b.resume, deadline := b.deadline, fallback := b.fallback,
            playPending := b.playPending, bufferPosition := b.bufferPosition)
  }

  lemma OwnedSame(a: Item, b: Item, pending: map<nat, Task>, handles: nat)
    requires SameTimers(a, b) && Owned(Some(a), pending, handles) && a.HandlesIssued(handles)
    ensures Owned(Some(b), pending, handles) && b.HandlesIssued(handles)
  {
  }

  /** The current selection has a request outstanding exactly when it says so, and never two; a
      promise of its current attempt means that its source is still the one that was played. */
  ghost predicate Awaited(current: Option<Item>, requests: multiset<nat>, plays: set<(nat, nat)>, selections: nat)
  {
    && (forall i :: i in requests ==> i < selections) && (forall p :: p in plays ==> p.0 < selections)
    && (current.Some? ==>
          && requests[current.value.id] == (if current.value.request then 1 else 0)
          && forall p :: p in plays && p.0 == current.value.id ==>
               p.1 <= current.value.attempt && (p.1 == current.value.attempt ==> current.value.ready))
  }

  lemma AwaitedAgree(a: Item, b: Item, requests: multiset<nat>, plays: set<(nat, nat)>, selections: nat)
    requires Awaited(Some(a), requests, plays, selections)
    requires b.id == a.id && b.request == a.request && b.attempt == a.attempt && b.ready == a.ready
    ensures Awaited(Some(b), requests, plays, selections)
  {
  }

  /** A new attempt supersedes every promise made so far. */
  lemma AwaitedLater(a: Item, b: Item, requests: multiset<nat>, plays: set<(nat, nat)>, selections: nat)
    requires Awaited(Some(a), requests, plays, selections)
             && b.id == a.id && b.attempt > a.attempt && b.request == a.request
    ensures Awaited(Some(b), requests, plays, selections)
  {
  }

  lemma AwaitedRequest(a: Item, b: Item, requests: multiset<nat>, plays: set<(nat, nat)>, selections: nat)
    requires Awaited(Some(a), requests, plays, selections)
             && a.id < selections && !a.request && b == a.(request := true)
    ensures Awaited(Some(b), requests + multiset{a.id}, plays, selections)
  {
  }

  class Playback {
    var current: Option<Item>
    var disposed: bool
    var source: Option<Source>
    var status: Status
    /** Where the code last moved the video to. */
    var position: real
    var selections: nat
    /** The runtime's pending timers. */
    var pending: map<nat, Task>
    var handles: nat
    /** Outstanding preparation and status requests, by selection. */
    var requests: multiset<nat>
    /** Unsettled play promises, by selection and attempt. */
    var plays: set<(nat, nat)>
    /** How often each selection fell back to transcoding. */
    var fallbacks: map<nat, nat>

    predicate Active(item: nat)
      reads this
    {
      !disposed && current.Some? && current.value.id == item
    }

    /** The video has a source exactly when the current selection is ready, and it is that
        selection's recording; no selection fell back more than once. */
    ghost predicate Valid()
      reads this
    {
      && source == (if current.Some? && current.value.ready
                    then Some(Source(current.value.path, current.value.original)) else None)
      && (disposed ==> current.None?) && Owned(current, pending, handles)
      && (current.Some? ==>
            var item := current.value;
            && item.id < selections && (item.ready ==> !item.failed) && (item.request ==> !item.ready && !item.failed)
            && (item.playPending ==> item.ready)
            && item.HandlesIssued(handles) && (item.bufferTimer.Some? ==> item.bufferTimer.value in pending)
            && Fallbacks(item.id) == if item.fallback then 1 else 0)
      && (forall i :: i in fallbacks ==> i < selections && fallbacks[i] <= 1)
      && Awaited(current, requests, plays, selections)
    }

    function Fallbacks(item: nat): nat
      reads this
    {
      if item in fallbacks then fallbacks[item] else 0
    }

    /** Nothing the user can see changed, nor anything that could later change it. */
    twostate predicate Untouched()
      reads this
    {
      && current == old(current) && disposed == old(disposed) && source == old(source)
      && status == old(status) && position == old(position) && selections == old(selections)
      && pending == old(pending) && fallbacks == old(fallbacks)
    }

    /** The source is lost to a failure: the selection is failed at this position, nothing is pending. */
    twostate predicate LostSource(key: string, time: real)
      requires old(current).Some?
      reads this
    {
      var item := old(current).value;
      && current == Some(item.Detached().(failed := true, bufferTimer := None,
                                          resume := if time != 0.0 then time else item.resume))
      && source.None? && status == Status(key, false) && pending == map[] && fallbacks == old(fallbacks)
      && requests == old(requests)
    }

    /** The selection fell back to a transcoded recording: it asks for one, with a new time budget. */
    twostate predicate FellBack(time: real, now: int)
      requires old(current).Some?
      reads this
    {
      var item := old(current).value;
      && current == Some(item.Detached().(resume := time, fallback := true, deadline := now + 650_000,
                                          original := false, request := true, bufferTimer := None))
      && source.None? && status == Status("rec.preparingSeekable", true) && pending == map[]
      && fallbacks == old(fallbacks)[item.id := old(Fallbacks(item.id)) + 1]
      && requests == old(requests) + multiset{item.id}
    }

    /** The start of the current source is watched by a new timer `next`, unless it has started. */
    ghost predicate StartWatched(item: Item, before: map<nat, Task>, next: nat)
      reads this
    {
      if item.started then current == Some(item) && pending == before
      else
        && current == Some(if item.original then item.(nativeTimer := Some(next)) else item.(startTimer := Some(next)))
        && next in pending && pending[next] == Task(if item.original then Native else Start, item.id, item.attempt)
    }

    constructor ()
      ensures Valid() && current.None? && source.None? && !disposed
    {
      current, disposed, source, status, position, selections := None, false, None, Status("", false), 0.0, 0;
      pending, handles, requests, plays, fallbacks := map[], 0, multiset{}, {}, map[];
    }

    // ----- timers -----

    method SetTimer(kind: Kind) returns (handle: nat)
      requires current.Some?
      modifies this`pending, this`handles
      ensures handle == old(handles) && handles == handle + 1
      ensures pending == old(pending)[handle := Task(kind, current.value.id, current.value.attempt)]
    {
      handle := handles;
      pending, handles := pending[handle := Task(kind, current.value.id, current.value.attempt)], handles + 1;
    }

    method ClearTimer(handle: Option<nat>)
      modifies this`pending
      ensures pending == if handle.Some? then old(pending) - {handle.value} else old(pending)
    {
      if handle.Some? { pending := pending - {handle.value}; }
    }

    /** Clears the timers that watch the source; while it is ready there are no others. */
    method ClearSourceTimers()
      requires Owned(current, pending, handles) && current.Some? && current.value.HandlesIssued(handles)
      modifies this`pending, this`current
      ensures current == Some(old(current).value.(bufferTimer := None)) && Owned(current, pending, handles)
      ensures forall h :: h in pending <==> h in old(pending) && old(pending)[h].kind == Poll
      ensures old(current).value.ready ==> pending == map[]
    {
      ClearedSource(current.value, pending, handles);
      pending := pending - current.value.SourceHandles();
      current := Some(current.value.(bufferTimer := None));
    }

    /** Clears the timers that wait for playback to start. */
    method ClearStartTimers()
      requires Valid() && current.Some?
      modifies this`pending
      ensures Valid() && forall h :: h in pending <==>
                h in old(pending) && old(pending)[h].kind != Native && old(pending)[h].kind != Start
      ensures forall h :: h in pending ==> pending[h] == old(pending)[h]
    {
      hide Item.Allows, Item.HandlesIssued, Item.Handle;
      ClearedOne(current.value, pending, handles, Native);
      ClearTimer(current.value.Handle(Native));
      ClearedOne(current.value, pending, handles, Start);
      ClearTimer(current.value.Handle(Start));
    }

    /** Watches for playback that never starts. */
    method WatchStart()
      requires Valid() && current.Some? && current.value.ready
      modifies this`pending, this`handles, this`current
      ensures Valid() && StartWatched(old(current).value, old(pending), old(handles))
    {
      if current.value.original && !current.value.started { WatchNative(); }
      if !current.value.original && !current.value.started { WatchPrepared(); }
    }

    /** The twelve-second watch of an original recording. */
    method WatchNative()
      requires Valid() && current.Some? && current.value.ready && current.value.original
      modifies this`pending, this`handles, this`current
      ensures Valid() && current == Some(old(current).value.(nativeTimer := Some(old(handles))))
      ensures old(handles) in pending
      ensures pending[old(handles)] == Task(Native, old(current).value.id, old(current).value.attempt)
    {
      hide Awaited, Item.SourceHandles;
      var item := current.value;
      ClearedOne(item, pending, handles, Native);
      ClearTimer(item.nativeTimer);
      var handle := SetTimer(Native);
      AwaitedAgree(item, item.(nativeTimer := Some(handle)), requests, plays, selections);
      current := Some(item.(nativeTimer := Some(handle)));
    }

    /** The thirty-second watch of a prepared recording. */
    method WatchPrepared()
      requires Valid() && current.Some? && current.value.ready && !current.value.original
      modifies this`pending, this`handles, this`current
      ensures Valid() && current == Some(old(current).value.(startTimer := Some(old(handles))))
      ensures old(handles) in pending
      ensures pending[old(handles)] == Task(Start, old(current).value.id, old(current).value.attempt)
    {
      hide Awaited, Item.SourceHandles;
      var item := current.value;
      ClearedOne(item, pending, handles, Start);
      ClearTimer(item.startTimer);
      var handle := SetTimer(Start);
      AwaitedAgree(item, item.(startTimer := Some(handle)), requests, plays, selections);
      current := Some(item.(startTimer := Some(handle)));
    }

    /** Watches for playback that stops advancing. */
    method WatchBuffer(time: real)
      requires Valid() && current.Some? && current.value.ready
      modifies this`pending, this`handles, this`current
      ensures Valid()
      ensures BufferWatched(old(current).value, old(pending), old(handles), time)
    {
      var item := current.value;
      hide Awaited;
      if !item.started || item.bufferTimer.Some? { return; }
      var handle := SetTimer(Buffer);
      AwaitedAgree(item, item.(bufferTimer := Some(handle), bufferPosition := time), requests, plays, selections);
      current := Some(item.(bufferTimer := Some(handle), bufferPosition := time));
    }

    // ----- transitions -----

    /** Abandons the current selection: all its timers are cleared. */
    method Stop()
      requires Owned(current, pending, handles)
      modifies this`current, this`source, this`status, this`pending
      ensures current.None? && source.None? && status == Status("", false) && pending == map[]
    {
      if current.Some? {
        ClearTimer(current.value.timer);
        pending := pending - current.value.SourceHandles();
      }
      current, source, status := None, None, Status("", false);
    }

    /** play(): one pending promise per attempt. */
    method Play()
      requires Valid() && current.Some?
      modifies this`pending, this`handles, this`current, this`plays
      ensures Valid()
      ensures var item := old(current).value;
              if !item.ready || item.playPending then Untouched() && plays == old(plays)
              else && StartWatched(item.(playPending := true), old(pending), old(handles))
                   && plays == old(plays) + {(item.id, item.attempt)}
    {
      if !current.value.ready || current.value.playPending { return; }
      hide Owned, Item.HandlesIssued;
      OwnedSame(current.value, current.value.(playPending := true), pending, handles);
      current := Some(current.value.(playPending := true));
      plays := plays + {(current.value.id, current.value.attempt)};
      WatchStart();
    }

    /** Takes the source away and supersedes the attempt, with the given changes to the selection. */
    method Detach(changed: Item)
      requires Owned(current, pending, handles) && Awaited(current, requests, plays, selections)
      requires current.Some? && current.value.ready
               && current.value.HandlesIssued(handles) && current.value.id < selections
      requires !current.value.request && !disposed
      requires changed == current.value.(failed := changed.failed, resume := changed.resume,
                                         fallback := changed.fallback,
                                         deadline := changed.deadline, original := changed.original)
      requires Fallbacks(changed.id) == (if changed.fallback then 1 else 0)
      requires forall i :: i in fallbacks ==> i < selections && fallbacks[i] <= 1
      modifies this`current, this`source, this`pending
      ensures Valid() && source.None? && pending == map[] && current == Some(changed.Detached().(bufferTimer := None))
    {
      ClearSourceTimers();
      var next := changed.Detached().(bufferTimer := None);
      AwaitedLater(old(current.value), next, requests, plays, selections);
      hide Awaited;
      OwnedEmpty(Some(next), handles);
      current, source := Some(next), None;
    }

    /** Gives up the source after a media failure, keeping the position for a retry. */
    method Fail(key: string, time: real)
      requires Valid() && current.Some? && current.value.ready
      modifies this
      ensures Valid() && disposed == old(disposed) && selections == old(selections) && position == old(position)
      ensures LostSource(key, time) && plays == old(plays)
    {
      hide Owned, Awaited, Item.HandlesIssued;
      Detach(current.value.(failed := true, resume := OrElse(time, current.value.resume)));
      status := Status(key, false);
    }

    /** Switches from the original recording to a transcoded one, at most once per selection. */
    method Fallback(time: real, now: int)
      requires Valid() && current.Some? && current.value.ready && !disposed
      modifies this
      ensures Valid() && !disposed && selections == old(selections) && position == old(position)
      ensures var item := old(current).value;
              if !item.original || item.fallback then Untouched() && requests == old(requests)
              else FellBack(time, now)
      ensures plays == old(plays)
    {
      if current.value.original && !current.value.fallback { BeginFallback(time, now); }
    }

    method BeginFallback(time: real, now: int)
      requires Valid() && current.Some? && current.value.ready && !disposed
      requires current.value.original && !current.value.fallback
      modifies this`current, this`source, this`status, this`pending, this`requests, this`fallbacks
      ensures Valid() && FellBack(time, now)
    {
      hide Owned, Awaited, Item.HandlesIssued;
      var item := current.value;
      fallbacks := fallbacks[item.id := Fallbacks(item.id) + 1];
      Detach(item.(resume := time, fallback := true, deadline := now + BUDGET, original := false));
      status := Status("rec.preparingSeekable", true);
      CheckAgain();
    }

    /** Attaches the prepared recording and starts it. */
    method Ready(cached: bool, original: bool)
      requires Valid() && current.Some? && !disposed && !current.value.ready && !current.value.failed
      requires !current.value.request && pending == map[]
      modifies this
      ensures Valid() && !disposed && selections == old(selections)
              && fallbacks == old(fallbacks) && position == old(position) && requests == old(requests)
      ensures source == Some(Source(old(current).value.path, original))
      ensures status == Status(if cached then "rec.seekableReady" else "rec.startingPlayback", true)
      ensures var item := old(current).value;
              var attempt := item.attempt + 1;
              && StartWatched(item.(ready := true, started := false, original := original, attempt := attempt,
                                    playPending := true), old(pending), old(handles))
              && plays == old(plays) + {(item.id, attempt)}
    {
      var item := current.value.(ready := true, started := false,
                                 original := original, attempt := current.value.attempt + 1);
      current := Some(item);
      status := Status(if cached then "rec.seekableReady" else "rec.startingPlayback", true);
      source := Some(Source(item.path, original));
      Play();
    }

    // ----- calls by the page -----

    method OnSelect(path: string, now: int)
      requires Valid()
      modifies this
      ensures Valid() && disposed == old(disposed)
      ensures old(disposed) ==> Untouched()
      ensures !disposed && old(current).Some? && old(current).value.path == path && !old(current).value.failed ==>
                && source == old(source) && status == old(status) && selections == old(selections)
                && requests == old(requests) && fallbacks == old(fallbacks) && position == old(position)
                && var item := old(current).value;
                   if !item.ready || item.playPending then current == old(current) && plays == old(plays)
                   else && StartWatched(item.(playPending := true), old(pending), old(handles))
                        && plays == old(plays) + {(item.id, item.attempt)}
      ensures !disposed && !(old(current).Some? && old(current).value.path == path && !old(current).value.failed) ==>
                && source.None? && selections == old(selections) + 1 && pending == map[]
                && status == Status("rec.startingPlayback", true) && fallbacks == old(fallbacks)
                && requests == old(requests) + multiset{old(selections)}
                && current == Some(NewItem(old(selections), path,
                     if old(current).Some? && old(current).value.path == path
                       then old(current).value.resume else 0.0, now))
    {
      if disposed { return; }
      if current.Some? && current.value.path == path && !current.value.failed {
        if current.value.ready { Play(); }
        return;
      }
      var resume := if current.Some? && current.value.path == path && current.value.failed
                    then current.value.resume else 0.0;
      Begin(path, resume, now);
    }

    /** Replaces whatever was selected and asks for the new recording. */
    method Begin(path: string, resume: real, now: int)
      requires Valid() && !disposed
      modifies this
      ensures Valid() && !disposed && source.None? && selections == old(selections) + 1
      ensures current == Some(NewItem(old(selections), path, resume, now)) && pending == map[]
      ensures status == Status("rec.startingPlayback", true) && fallbacks == old(fallbacks)
      ensures requests == old(requests) + multiset{old(selections)}
    {
      Stop();
      current := Some(NewItem(selections, path, resume, now));
      requests := requests + multiset{selections};
      selections := selections + 1;
      status := Status("rec.startingPlayback", true);
    }

    method OnDispose()
      requires Valid()
      modifies this
      ensures Valid() && disposed && current.None? && source.None? && pending == map[]
      ensures old(disposed) ==> Untouched()
      ensures !old(disposed) ==> status == Status("", false)
    {
      if disposed { return; }
      disposed := true;
      Stop();
    }

    // ----- replies and promises, perhaps of a superseded selection or attempt -----

    /** The answer to a preparation or status request. */
    method OnCheckReply(item: nat, ready: bool, cached: bool, original: bool, transcoding: bool, now: int)
      requires Valid() && item in requests
      modifies this
      ensures Valid() && disposed == old(disposed)
      ensures !old(Active(item)) ==> Untouched()
      ensures old(Active(item)) ==>
                var was := old(current).value.(request := false);
                && fallbacks == old(fallbacks) && selections == old(selections) && position == old(position)
                && if ready then
                     && StartWatched(was.(ready := true, started := false, original := original,
                                          attempt := was.attempt + 1, playPending := true), old(pending), old(handles))
                     && source == Some(Source(was.path, original)) && plays == old(plays) + {(was.id, was.attempt + 1)}
                     && status == Status(if cached then "rec.seekableReady" else "rec.startingPlayback", true)
                   else if !transcoding || now >= was.deadline then
                     && current == Some(was.(failed := true)) && pending == map[] && source.None?
                     && status == Status("rec.playbackFailed", false)
                   else
                     && current == Some(was.(timer := Some(old(handles)))) && source.None?
                     && pending == map[old(handles) := Task(Poll, was.id, was.attempt)]
                     && status == Status("rec.preparingSeekable", true)
      ensures requests == old(requests) - multiset{item}
    {
      hide Owned, Item.HandlesIssued, Awaited, Item.Allows, Item.Handle;
      if !Active(item) { ForgetRequest(item); return; }
      var expired := !transcoding || now >= current.value.deadline;
      EndRequest(!ready && expired);
      if ready { Ready(cached, original); } else { NotReady(expired); }
    }

    /** The recording is not ready: it is given up or asked for again later. */
    method NotReady(expired: bool)
      requires Valid() && current.Some? && pending == map[] && !current.value.ready && !current.value.request
      requires current.value.failed == expired
      modifies this`current, this`pending, this`handles, this`status
      ensures Valid()
      ensures var was := old(current).value;
              if expired then
                current == old(current) && pending == map[] && status == Status("rec.playbackFailed", false)
              else && current == Some(was.(timer := Some(old(handles))))
                   && pending == map[old(handles) := Task(Poll, was.id, was.attempt)]
                   && status == Status("rec.preparingSeekable", true)
    {
      hide Owned, Awaited, Item.HandlesIssued;
      if expired { status := Status("rec.playbackFailed", false); } else { SchedulePoll(); }
    }

    /** The answer to a superseded selection's request. */
    method ForgetRequest(item: nat)
      requires Valid() && item in requests && !Active(item)
      modifies this`requests
      ensures Valid() && requests == old(requests) - multiset{item}
    {
      hide Owned;
      requests := requests - multiset{item};
    }

    /** The outstanding request is answered, and the selection given up if it failed. */
    method EndRequest(failed: bool)
      requires Valid() && current.Some? && current.value.id in requests
      modifies this`current, this`requests
      ensures Valid() && pending == map[] && !old(current).value.ready && !old(current).value.failed
      ensures current == Some(old(current).value.(request := false, failed := failed))
      ensures requests == old(requests) - multiset{old(current).value.id}
    {
      hide Owned, Item.HandlesIssued;
      NothingPending(current.value, pending, handles);
      HandlesKept(current.value, current.value.(request := false, failed := failed), handles);
      current := Some(current.value.(request := false, failed := failed));
      requests := requests - multiset{current.value.id};
      OwnedEmpty(current, handles);
    }

    method SchedulePoll()
      requires Valid() && current.Some? && pending == map[]
      requires !current.value.ready && !current.value.failed && !current.value.request
      modifies this`current, this`pending, this`handles, this`status
      ensures Valid() && status == Status("rec.preparingSeekable", true)
      ensures current == Some(old(current).value.(timer := Some(old(handles))))
      ensures pending == map[old(handles) := Task(Poll, old(current).value.id, old(current).value.attempt)]
    {
      status := Status("rec.preparingSeekable", true);
      var handle := SetTimer(Poll);
      current := Some(current.value.(timer := Some(handle)));
    }

    method OnCheckFailed(item: nat, tooManyRequests: bool)
      requires Valid() && item in requests
      modifies this
      ensures Valid() && disposed == old(disposed)
      ensures !old(Active(item)) ==> Untouched()
      ensures old(Active(item)) ==>
                && current == Some(old(current).value.(request := false, failed := true)) && source.None?
                && status == Status(if tooManyRequests then "rec.playbackBusy" else "rec.playbackFailed", false)
                && fallbacks == old(fallbacks) && pending == map[]
      ensures requests == old(requests) - multiset{item}
    {
      if !Active(item) { ForgetRequest(item); return; }
      EndRequest(true);
      status := Status(if tooManyRequests then "rec.playbackBusy" else "rec.playbackFailed", false);
    }

    method OnPlayRejected(item: nat, attempt: nat, why: Rejection, paused: bool, mediaError: bool, time: real, now: int)
      requires Valid() && (item, attempt) in plays
      modifies this
      ensures Valid() && disposed == old(disposed)
      ensures !(old(Active(item)) && old(current).value.attempt == attempt) ==> Untouched()
      ensures old(Active(item)) && old(current).value.attempt == attempt ==>
                var was := old(current).value;
                if why == NotSupported && was.original then
                  if was.fallback then current == Some(was.(playPending := false)) && status == old(status)
                                       && pending == old(pending) && source == old(source)
                  else FellBack(time, now)
                else if why == NotAllowed || (why == Aborted && paused && !mediaError) then
                  && current == Some(was.(playPending := false)) && source == old(source)
                  && status == Status(if why == NotAllowed then "rec.readyPressPlay" else "", false)
                  && forall h :: h in pending <==>
                       h in old(pending) && old(pending)[h].kind != Native && old(pending)[h].kind != Start
                else LostSource("rec.playbackFailed", time)
      ensures plays == old(plays) - {(item, attempt)}
    {
      hide Owned, Item.HandlesIssued;
      assert Active(item) && current.value.attempt == attempt ==> current.value.ready;
      ForgetPlay(item, attempt);
      if !Active(item) || current.value.attempt != attempt { return; }
      hide Awaited;
      if why == NotSupported && current.value.original {
        Fallback(time, now);
      } else {
        ReportRejection(why, paused, mediaError, time);
      }
      if current.value.attempt == attempt { SettlePlay(); }
    }

    /** A rejection that is not about the codec: a pause and a denied autoplay keep the source. */
    method ReportRejection(why: Rejection, paused: bool, mediaError: bool, time: real)
      requires Valid() && current.Some? && current.value.ready && !disposed
      modifies this
      ensures Valid() && disposed == old(disposed) && plays == old(plays)
      ensures if why == NotAllowed || (why == Aborted && paused && !mediaError) then
                && current == old(current) && source == old(source) && requests == old(requests)
                && status == Status(if why == NotAllowed then "rec.readyPressPlay" else "", false)
                && forall h :: h in pending <==>
                     h in old(pending) && old(pending)[h].kind != Native && old(pending)[h].kind != Start
              else LostSource("rec.playbackFailed", time)
    {
      hide Owned, Awaited, Item.HandlesIssued;
      ClearStartTimers();
      if why == Aborted && paused && !mediaError {
        status := Status("", false);
      } else if why == NotAllowed {
        status := Status("rec.readyPressPlay", false);
      } else {
        Fail("rec.playbackFailed", time);
      }
    }

    /** A play promise is settled once. */
    method ForgetPlay(item: nat, attempt: nat)
      requires Valid()
      modifies this`plays
      ensures Valid() && plays == old(plays) - {(item, attempt)}
    {
      hide Owned;
      plays := plays - {(item, attempt)};
    }

    method SettlePlay()
      requires Valid() && current.Some?
      modifies this`current
      ensures Valid() && current == Some(old(current).value.(playPending := false))
    {
      hide Owned, Item.HandlesIssued;
      OwnedSame(current.value, current.value.(playPending := false), pending, handles);
      current := Some(current.value.(playPending := false));
    }

    method OnPlayFulfilled(item: nat, attempt: nat)
      requires Valid() && (item, attempt) in plays
      modifies this`current, this`plays
      ensures Valid()
      ensures current == if old(Active(item)) && old(current).value.attempt == attempt
                         then Some(old(current).value.(playPending := false)) else old(current)
      ensures plays == old(plays) - {(item, attempt)}
    {
      ForgetPlay(item, attempt);
      if Active(item) && current.value.attempt == attempt { SettlePlay(); }
    }

    // ----- timers that fire -----

    /** What a firing timer of the current selection does to the source. */
    ghost predicate TimerEnds(item: Item, kind: Kind, paused: bool, ended: bool, seeking: bool, time: real)
    {
      match kind
      case Poll => true
      case Native => !item.fallback
      case Start => !item.started && !paused
      case Buffer => !paused && !ended && (seeking || time <= item.bufferPosition)
    }

    /** Any pending timer: it always belongs to the current selection and attempt, so superseded
        timers never act. */
    method OnTimer(handle: nat, paused: bool, ended: bool, seeking: bool, time: real, now: int)
      requires Valid() && handle in pending
      modifies this
      ensures Valid() && disposed == old(disposed)
      ensures old(current).Some? && old(pending)[handle].item == old(current).value.id
              && old(pending)[handle].attempt == old(current).value.attempt && !old(disposed)
      ensures source.None? <==> TimerEnds(old(current).value, old(pending)[handle].kind, paused, ended, seeking, time)
      ensures var was, kind := old(current).value, old(pending)[handle].kind;
              if !TimerEnds(was, kind, paused, ended, seeking, time) then
                && status == old(status)
                && var rest := old(pending) - {handle};
                   if kind != Buffer then current == Some(was) && pending == rest
                   else if paused || ended then current == Some(was.(bufferTimer := None)) && pending == rest
                   else BufferWatched(was.(bufferTimer := None), rest, old(handles), time)
              else match kind
                   case Poll => current == Some(was.(request := true)) && status == old(status)
                                && requests == old(requests) + multiset{was.id}
                   case Native => FellBack(time, now)
                   case Start => current == Some(was.Detached().(failed := true)) && pending == map[]
                                 && status == Status("rec.startTimedOut", false)
                   case Buffer => LostSource("rec.bufferTimedOut", time)
    {
      hide Owned, Awaited, Item.HandlesIssued, Item.Handle;
      var task := pending[handle];
      TakeTimer(handle);
      match task.kind
      case Poll => CheckAgain();
      case Native => Fallback(time, now);
      case Start => CheckStart(task, paused);
      case Buffer =>
        if Active(task.item) && current.value.attempt == task.attempt { CheckBuffer(paused, ended, seeking, time); }
    }

    method CheckStart(task: Task, paused: bool)
      requires Valid() && current.Some? && current.value.ready && !current.value.original && !disposed
      requires task.item == current.value.id && task.attempt == current.value.attempt
      requires forall h :: h in pending ==> pending[h].kind != Start
      modifies this`current, this`source, this`status
      ensures Valid()
      ensures if old(current).value.started || paused then Untouched()
              else && current == Some(old(current).value.Detached().(failed := true)) && pending == map[]
                   && source.None? && status == Status("rec.startTimedOut", false)
    {
      hide Owned, Awaited, Item.HandlesIssued, Item.Handle;
      if Active(task.item) && current.value.attempt == task.attempt && !current.value.started && !paused {
        TimeOutStart();
      }
    }

    /** The next status request of the current selection. */
    method CheckAgain()
      requires Valid() && current.Some? && current.value.Allows(Poll) && pending == map[]
      modifies this`current, this`requests
      ensures Valid() && current == Some(old(current).value.(request := true))
      ensures requests == old(requests) + multiset{old(current).value.id}
    {
      hide Owned, Awaited, Item.HandlesIssued;
      var next := current.value.(request := true);
      HandlesKept(current.value, next, handles);
      AwaitedRequest(current.value, next, requests, plays, selections);
      OwnedEmpty(Some(next), handles);
      current, requests := Some(next), requests + multiset{next.id};
    }

    /** A firing timer is no longer pending; the buffer timer also resets its handle. */
    method TakeTimer(handle: nat)
      requires Valid() && handle in pending
      modifies this`pending, this`current
      ensures Valid() && pending == old(pending) - {handle} && old(current).Some?
      ensures current == Some(if old(pending)[handle].kind == Buffer then old(current).value.(bufferTimer := None)
                              else old(current).value)
      ensures current.value.Allows(old(pending)[handle].kind)
      ensures forall h :: h in pending ==> pending[h].kind != old(pending)[handle].kind
      ensures old(pending)[handle].kind == Poll ==> pending == map[]
      ensures old(pending)[handle].item == old(current).value.id
              && old(pending)[handle].attempt == old(current).value.attempt
    {
      var kind := pending[handle].kind;
      ClearedOne(current.value, pending, handles, kind);
      pending := pending - {handle};
      if kind == Buffer { current := Some(current.value.(bufferTimer := None)); }
    }

    method CheckBuffer(paused: bool, ended: bool, seeking: bool, time: real)
      requires Valid() && current.Some? && current.value.ready && !disposed
      modifies this
      ensures Valid() && !disposed
      ensures var was := old(current).value;
              if paused || ended then Untouched() && plays == old(plays)
              else if seeking || time <= was.bufferPosition then LostSource("rec.bufferTimedOut", time)
              else
                && status == old(status) && source == old(source)
                && BufferWatched(was, old(pending), old(handles), time)
    {
      if paused || ended { return; }
      if !seeking && time > current.value.bufferPosition {
        WatchBuffer(time);
        return;
      }
      Fail("rec.bufferTimedOut", time);
    }

    /** Playback never started. Neither of the other source timers can be pending here. */
    method TimeOutStart()
      requires Valid() && current.Some? && current.value.ready && !current.value.original && !current.value.started
      requires forall h :: h in pending ==> pending[h].kind != Start
      modifies this`current, this`source, this`status
      ensures Valid() && source.None? && status == Status("rec.startTimedOut", false) && pending == map[]
      ensures current == Some(old(current).value.Detached().(failed := true))
    {
      current := Some(current.value.Detached().(failed := true));
      source, status := None, Status("rec.startTimedOut", false);
      assert pending == map[];
    }

    // ----- events of the video element -----

    method OnPlaying(noVideo: bool, time: real, now: int)
      requires Valid()
      modifies this
      ensures Valid() && disposed == old(disposed)
      ensures !(old(current).Some? && old(current).value.ready) ==> Untouched()
      ensures old(current).Some? && old(current).value.ready && !(old(current).value.original && noVideo) ==>
                && current == Some(old(current).value.(started := true, bufferTimer := None))
                && source == old(source) && status == Status("", false) && pending == map[]
      ensures old(current).Some? && old(current).value.ready && old(current).value.original && noVideo ==>
                if old(current).value.fallback then Untouched() else FellBack(time, now)
    {
      if current.None? || !current.value.ready || disposed { return; }
      if current.value.original && noVideo {
        Fallback(time, now);
        return;
      }
      hide Owned, Awaited;
      AwaitedAgree(current.value, current.value.(started := true, bufferTimer := None), requests, plays, selections);
      ClearSourceTimers();
      current := Some(current.value.(started := true));
      OwnedEmpty(current, handles);
      status := Status("", false);
    }

    method OnError(decodeError: bool, time: real, now: int)
      requires Valid()
      modifies this
      ensures Valid() && disposed == old(disposed)
      ensures !(old(current).Some? && old(current).value.ready) ==> Untouched()
      ensures old(current).Some? && old(current).value.ready && !(old(current).value.original && decodeError) ==>
                LostSource("rec.playbackFailed", time)
      ensures old(current).Some? && old(current).value.ready && old(current).value.original && decodeError ==>
                if old(current).value.fallback then Untouched() else FellBack(time, now)
    {
      if current.None? || !current.value.ready || disposed { return; }
      if current.value.original && decodeError {
        Fallback(time, now);
        return;
      }
      Fail("rec.playbackFailed", time);
    }

    /** Restores the saved position once the length is known. */
    method OnMetadata(duration: real)
      requires Valid()
      modifies this`current, this`position
      ensures Valid()
      ensures !(old(current).Some? && old(current).value.ready && old(current).value.resume != 0.0) ==> Untouched()
      ensures old(current).Some? && old(current).value.ready && old(current).value.resume != 0.0 ==>
                var resume := old(current).value.resume;
                && position == (if duration != 0.0 && duration < resume then duration else resume)
                && current == Some(old(current).value.(resume := 0.0))
    {
      if current.None? || !current.value.ready || current.value.resume == 0.0 || disposed { return; }
      hide Owned, Item.HandlesIssued;
      position := if duration != 0.0 && duration < current.value.resume then duration else current.value.resume;
      OwnedSame(current.value, current.value.(resume := 0.0), pending, handles);
      current := Some(current.value.(resume := 0.0));
    }

    method OnPlay()
      requires Valid()
      modifies this`current, this`pending, this`handles
      ensures Valid()
      ensures !(old(current).Some? && old(current).value.ready) ==> Untouched()
      ensures old(current).Some? && old(current).value.ready ==>
                StartWatched(old(current).value, old(pending), old(handles))
    {
      if current.Some? && current.value.ready && !disposed { WatchStart(); }
    }

    method OnPause(paused: bool)
      requires Valid()
      modifies this`current, this`status, this`pending
      ensures Valid()
      ensures current == if old(current).Some? then Some(old(current).value.(bufferTimer := None)) else None
      ensures forall h :: h in pending <==> h in old(pending) && old(pending)[h].kind == Poll
      ensures status == if old(current).Some? && old(current).value.ready && paused then Status("", false)
                        else old(status)
    {
      if current.None? { return; }
      hide Owned, Awaited;
      AwaitedAgree(current.value, current.value.(bufferTimer := None), requests, plays, selections);
      ClearSourceTimers();
      if current.value.ready && !disposed && paused { status := Status("", false); }
    }

    /** Playback that started is watched from this position, by the timer it has or by a new one. */
    ghost predicate BufferWatched(item: Item, before: map<nat, Task>, next: nat, time: real)
      reads this
    {
      if !item.started || item.bufferTimer.Some? then current == Some(item) && pending == before
      else && current == Some(item.(bufferTimer := Some(next), bufferPosition := time))
           && pending == before[next := Task(Buffer, item.id, item.attempt)]
    }

    method OnWaiting(paused: bool, time: real)
      requires Valid()
      modifies this`current, this`status, this`pending, this`handles
      ensures Valid()
      ensures if old(current).Some? && old(current).value.ready && !paused then
                && status == Status("rec.buffering", true)
                && BufferWatched(old(current).value, old(pending), old(handles), time)
              else status == old(status) && current == old(current) && pending == old(pending)
    {
      if current.Some? && current.value.ready && !current.value.failed && !disposed && !paused {
        status := Status("rec.buffering", true);
        WatchBuffer(time);
      }
    }

    method OnCanPlay(paused: bool)
      requires Valid()
      modifies this`status
      ensures Valid()
      ensures status == if current.Some? && current.value.ready && paused then Status("", false) else old(status)
    {
      if current.Some? && current.value.ready && !disposed && paused { status := Status("", false); }
    }

    method OnTimeUpdate(seeking: bool, paused: bool, ended: bool, time: real)
      requires Valid()
      modifies this`current, this`pending, this`handles
      ensures Valid()
      ensures if old(current).Some? && old(current).value.ready && old(current).value.bufferTimer.Some? && !seeking
                 && time > old(current).value.bufferPosition then
                var was := old(current).value;
                var rest := old(pending) - {was.bufferTimer.value};
                if paused || ended then current == Some(was.(bufferTimer := None)) && pending == rest
                else BufferWatched(was.(bufferTimer := None), rest, old(handles), time)
              else current == old(current) && pending == old(pending)
    {
      if current.None? || !current.value.ready || disposed || current.value.bufferTimer.None? || seeking { return; }
      if time > current.value.bufferPosition {
        hide Awaited;
        AwaitedAgree(current.value, current.value.(bufferTimer := None), requests, plays, selections);
        ClearTimer(current.value.bufferTimer);
        current := Some(current.value.(bufferTimer := None));
        if !paused && !ended { WatchBuffer(time); }
      }
    }

    // ----- every run -----

    /** What the runtime can deliver now: answers to outstanding requests, settlements of unsettled
        promises and pending timers, superseded ones included, and any event of the page or video. */
    predicate Deliverable(e: Event)
      reads this
    {
      match e
      case CheckReply(item, _, _, _, _, _) => item in requests
      case CheckFailed(item, _) => item in requests
      case TimerFires(handle, _, _, _, _, _) => handle in pending
      case PlayRejected(item, attempt, _, _, _, _, _) => (item, attempt) in plays
      case PlayFulfilled(item, attempt) => (item, attempt) in plays
      case _ => true
    }

    method Dispatch(e: Event)
      requires Valid() && Deliverable(e)
      modifies this
      ensures Valid()
      ensures old(disposed) ==> disposed && source.None? && status == old(status)
    {
      match e
      case Select(path, now) => OnSelect(path, now);
      case Dispose => OnDispose();
      case CheckReply(item, ready, cached, original, transcoding, now) =>
        OnCheckReply(item, ready, cached, original, transcoding, now);
      case CheckFailed(item, tooMany) => OnCheckFailed(item, tooMany);
      case TimerFires(handle, paused, ended, seeking, time, now) => OnTimer(handle, paused, ended, seeking, time, now);
      case PlayRejected(item, attempt, why, paused, mediaError, time, now) =>
        OnPlayRejected(item, attempt, why, paused, mediaError, time, now);
      case PlayFulfilled(item, attempt) => OnPlayFulfilled(item, attempt);
      case Playing(noVideo, time, now) => OnPlaying(noVideo, time, now);
      case MediaError(decodeError, time, now) => OnError(decodeError, time, now);
      case Metadata(duration) => OnMetadata(duration);
      case PlayEvent => OnPlay();
      case PauseEvent(paused) => OnPause(paused);
      case WaitingEvent(paused, time) => OnWaiting(paused, time);
      case CanPlay(paused) => OnCanPlay(paused);
      case TimeUpdate(seeking, paused, ended, time) => OnTimeUpdate(seeking, paused, ended, time);
    }
  }

  /** Any run of the player, from its creation, over any events the runtime delivers. */
  method Session(events: seq<Event>)
    returns (current: Option<Item>, source: Option<Source>, pending: map<nat, Task>, fallbacks: map<nat, nat>)
    ensures source == if current.Some? && current.value.ready
                      then Some(Source(current.value.path, current.value.original)) else None
    ensures forall h :: h in pending ==>
              current.Some? && pending[h].item == current.value.id && pending[h].attempt == current.value.attempt
    ensures forall i :: i in fallbacks ==> fallbacks[i] <= 1
  {
    var player := new Playback();
    for i := 0 to |events|
      invariant fresh(player) && player.Valid()
    {
      if player.Deliverable(events[i]) { player.Dispatch(events[i]); }
    }
    current, source, pending, fallbacks := player.current, player.source, player.pending, player.fallbacks;
  }
}
