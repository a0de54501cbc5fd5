/** Open channels are revalidated by a polling guard; when it ends, the channel's work is cancelled
    and both tasks are reaped. Times are those of a prompt event loop. */
module SessionChannels {
  import opened Outcomes
  import AccessKeys

  const CHECK_INTERVAL := 1.0
  const CHECK_TIMEOUT := 5.0

  /** One verification call: how long it takes, how far into it the stored state is read, and
      whether it raises. */
  datatype Check = Check(duration: real, readAt: real, raises: bool)
  {
    predicate Possible() { 0.0 <= readAt <= duration }
  }

  ghost predicate InvalidFrom(valid: real -> bool, invalid: real) { forall x :: x >= invalid ==> !valid(x) }

  /** The time at which wait_until_invalid() returns: it sleeps, verifies with a timeout, and goes
      on only after a positive answer. */
  ghost function GuardEnds(start: real, valid: real -> bool, invalid: real, checks: nat -> Check, k: nat): real
    requires InvalidFrom(valid, invalid) && forall i :: checks(i).Possible()
    decreases invalid - start
  {
    var began := start + CHECK_INTERVAL;
    var c := checks(k);
    if c.duration > CHECK_TIMEOUT then began + CHECK_TIMEOUT
    else if c.raises || !valid(began + c.readAt) then began + c.duration
    else GuardEnds(began + c.duration, valid, invalid, checks, k + 1)
  }

  /** The polling loop itself, in a world where the key becomes invalid at some time. */
  method WaitUntilInvalid(start: real, valid: real -> bool, ghost invalid: real, checks: nat -> Check)
    returns (ended: real)
    requires InvalidFrom(valid, invalid) && forall i :: checks(i).Possible()
    ensures ended == GuardEnds(start, valid, invalid, checks, 0)
    ensures start <= invalid ==> ended <= invalid + 2.0 * CHECK_TIMEOUT + CHECK_INTERVAL
  {
    var now, k: nat := start, 0;
    GuardEndsSoon(start, valid, invalid, checks, 0);
    while true
      invariant GuardEnds(now, valid, invalid, checks, k) == GuardEnds(start, valid, invalid, checks, 0)
      decreases invalid - now
    {
      now := now + CHECK_INTERVAL;
      var c := checks(k);
      assert c.Possible();
      if c.duration > CHECK_TIMEOUT { return now + CHECK_TIMEOUT; }
      if c.raises { return now + c.duration; }
      if !valid(now + c.readAt) { return now + c.duration; }
      now, k := now + c.duration, k + 1;
    }
  }

  /** The guard of a channel ends within 11 seconds of the moment its key became invalid. */
  lemma {:induction false} GuardEndsSoon(start: real, valid: real -> bool, invalid: real, checks: nat -> Check, k: nat)
    requires InvalidFrom(valid, invalid) && forall i :: checks(i).Possible()
    ensures start <= invalid ==>
              GuardEnds(start, valid, invalid, checks, k) <= invalid + 2.0 * CHECK_TIMEOUT + CHECK_INTERVAL
    ensures start > invalid ==> GuardEnds(start, valid, invalid, checks, k) <= start + CHECK_TIMEOUT + CHECK_INTERVAL
    decreases invalid - start
  {
    var c := checks(k);
    var began := start + CHECK_INTERVAL;
    assert c.Possible();
    if c.duration <= CHECK_TIMEOUT && !c.raises && valid(began + c.readAt) {
      assert began + c.readAt < invalid;
      GuardEndsSoon(began + c.duration, valid, invalid, checks, k + 1);
    }
  }

  /** It never ends a channel whose verifications all answer in time and positively. */
  lemma {:induction false} GuardEndsForCause(start: real, valid: real -> bool, invalid: real,
                                           checks: nat -> Check, k: nat)
    requires InvalidFrom(valid, invalid)
    requires forall i :: checks(i).Possible() && !checks(i).raises && checks(i).duration <= CHECK_TIMEOUT
    requires forall x :: x < invalid ==> valid(x)
    ensures GuardEnds(start, valid, invalid, checks, k) >= invalid
    decreases invalid - start
  {
    var c := checks(k);
    var began := start + CHECK_INTERVAL;
    assert c.Possible();
    if began + c.readAt < invalid { GuardEndsForCause(began + c.duration, valid, invalid, checks, k + 1); }
  }

  /** How long the first n verifications take together. */
  ghost function Durations(checks: nat -> Check, n: nat): real
  {
    if n == 0 then 0.0 else Durations(checks, n - 1) + checks(n - 1).duration
  }

  /** When verification k begins if none before it ended the guard: one second of sleep each. */
  ghost function Began(start: real, checks: nat -> Check, k: nat): real
  {
    start + (k + 1) as real * 1.0 + Durations(checks, k)
  }

  /** Verification k answers in time and positively. */
  ghost predicate Passes(start: real, valid: real -> bool, checks: nat -> Check, k: nat)
  {
    checks(k).duration <= 5.0 && !checks(k).raises && valid(Began(start, checks, k) + checks(k).readAt)
  }

  /** The guard ends at the first verification that does not pass: five seconds into one that takes
      longer, else at the end of one that raises or finds the key invalid. */
  lemma GuardEndsExactly(start: real, valid: real -> bool, invalid: real, checks: nat -> Check, k: nat)
    requires InvalidFrom(valid, invalid) && forall i :: checks(i).Possible()
    requires (forall i :: 0 <= i < k ==> Passes(start, valid, checks, i)) && !Passes(start, valid, checks, k)
    ensures GuardEnds(start, valid, invalid, checks, 0)
         == Began(start, checks, k) + if checks(k).duration > 5.0 then 5.0 else checks(k).duration
  {
    assert Began(start, checks, 0) - 1.0 == start;
    GuardFrom(start, valid, invalid, checks, 0, k);
  }

  lemma {:induction false} GuardFrom(start: real, valid: real -> bool, invalid: real, checks: nat -> Check,
                                     i: nat, k: nat)
    requires InvalidFrom(valid, invalid) && (forall j :: checks(j).Possible()) && i <= k
    requires (forall j :: i <= j < k ==> Passes(start, valid, checks, j)) && !Passes(start, valid, checks, k)
    ensures GuardEnds(Began(start, checks, i) - 1.0, valid, invalid, checks, i)
         == Began(start, checks, k) + if checks(k).duration > 5.0 then 5.0 else checks(k).duration
    decreases k - i
  {
    assert checks(i).Possible();
    if i < k {
      assert Passes(start, valid, checks, i);
      assert Began(start, checks, i + 1) - 1.0 == Began(start, checks, i) + checks(i).duration;
      GuardFrom(start, valid, invalid, checks, i + 1, k);
    }
  }

  /** Some verification does not pass, since the key becomes invalid. */
  lemma {:induction false} SomeCheckFails(start: real, valid: real -> bool, invalid: real, checks: nat -> Check, i: nat)
    returns (k: nat)
    requires InvalidFrom(valid, invalid) && (forall j :: checks(j).Possible())
    requires forall j :: 0 <= j < i ==> Passes(start, valid, checks, j)
    ensures (forall j :: 0 <= j < k ==> Passes(start, valid, checks, j)) && !Passes(start, valid, checks, k)
    decreases invalid - Began(start, checks, i)
  {
    assert checks(i).Possible();
    if Passes(start, valid, checks, i) {
      assert Began(start, checks, i) + checks(i).readAt < invalid;
      assert Began(start, checks, i + 1) == Began(start, checks, i) + checks(i).duration + 1.0;
      k := SomeCheckFails(start, valid, invalid, checks, i + 1);
    } else {
      k := i;
    }
  }

  /** Eleven seconds is the best bound: runs come as close to it as one likes. */
  lemma BoundIsTight(epsilon: real) returns (start: real, checks: nat -> Check)
    requires 0.0 < epsilon < 1.0
    ensures forall i :: checks(i).Possible()
    ensures start <= 100.0 && InvalidFrom(x => x < 100.0, 100.0)
    ensures GuardEnds(start, x => x < 100.0, 100.0, checks, 0)
         == 100.0 + 2.0 * CHECK_TIMEOUT + CHECK_INTERVAL - epsilon
  {
    start := 100.0 - epsilon - CHECK_INTERVAL;
    checks := _ => Check(CHECK_TIMEOUT, 0.0, false);
    var valid := (x: real) => x < 100.0;
    assert forall i :: checks(i).Possible();
    assert InvalidFrom(valid, 100.0);
    var next := 100.0 - epsilon + CHECK_TIMEOUT;
    assert GuardEnds(next, valid, 100.0, checks, 1) == next + CHECK_INTERVAL + CHECK_TIMEOUT;
    assert GuardEnds(start, valid, 100.0, checks, 0) == GuardEnds(next, valid, 100.0, checks, 1);
  }

  // ----- validity of a delegated key over time -----

  /** The operations committed by time x. */
  ghost function UpTo(ops: seq<AccessKeys.Op>, x: real): seq<AccessKeys.Op>
  {
    if ops == [] || ops[0].at > x then [] else [ops[0]] + UpTo(ops[1..], x)
  }

  ghost predicate Chronological(ops: seq<AccessKeys.Op>)
  {
    forall i, j :: 0 <= i <= j < |ops| ==> ops[i].at <= ops[j].at
  }

  ghost predicate ActiveAt(t: AccessKeys.Table, ops: seq<AccessKeys.Op>, id: string, x: real)
  {
    AccessKeys.ActiveKey(AccessKeys.Run(t, UpTo(ops, x)), id, x).Some?
  }

  lemma {:induction false} RevokedBy(ops: seq<AccessKeys.Op>, id: string, x: real)
    requires Chronological(ops)
    ensures var r := AccessKeys.FirstRevocation(ops, id);
            AccessKeys.FirstRevocation(UpTo(ops, x), id) == if r.Some? && r.value <= x then r else None
    ensures AccessKeys.FirstRevocation(ops, id).Some? && ops != []
            ==> ops[0].at <= AccessKeys.FirstRevocation(ops, id).value
  {
    if ops != [] {
      assert forall i :: 0 <= i < |ops[1..]| ==> ops[1..][i] == ops[i + 1];
      RevokedBy(ops[1..], id, x);
      if ops[0].at <= x { assert UpTo(ops, x)[1..] == UpTo(ops[1..], x); }
    }
  }

  /** A key that is revoked or expires at `invalid` is invalid from then on, so the guard of a channel
      opened with it ends within 11 seconds, whatever else happens to the key table. */
  lemma RevokedGuardEnds(t: AccessKeys.Table, ops: seq<AccessKeys.Op>, id: string, start: real, invalid: real,
                         checks: nat -> Check)
    requires id in t && AccessKeys.ValidKeyId(id) && Chronological(ops) && forall i :: checks(i).Possible()
    requires start <= invalid
    requires AccessKeys.FirstRevocation(ops, id) == Some(invalid) || t[id].expiresAt == Some(invalid)
    ensures var valid := (x: real) => ActiveAt(t, ops, id, x);
            && InvalidFrom(valid, invalid)
            && GuardEnds(start, valid, invalid, checks, 0) <= invalid + 11.0
  {
    var valid := (x: real) => ActiveAt(t, ops, id, x);
    forall x | x >= invalid
      ensures !valid(x)
    {
      AccessKeys.OnlyFirstRevocationCounts(t, UpTo(ops, x), id);
      RevokedBy(ops, id, x);
    }
    GuardEndsSoon(start, valid, invalid, checks, 0);
  }

  // ----- run_guarded -----

  datatype Task = Running | CancelRequested | Done

  datatype Point = Waiting | Closing | AwaitingWork | Gathering | Returned

  /** `stopped` says whether the cancellation hook ran. */
  datatype Guarded = Guarded(point: Point, work: Task, guard: Task, stopped: bool)

  datatype Event = WorkDone | GuardDone | WaitReturns(connected: bool) | CloseReturns
                 | WorkAwaited | OuterCancel | GatherReturns

  const STARTED := Guarded(Waiting, Running, Running, false)

  function Cancel(t: Task): Task { if t == Done then Done else CancelRequested }

  /** The finally block up to its await. */
  function EnterFinally(s: Guarded): Guarded
  {
    s.(point := Gathering, guard := Cancel(s.guard), stopped := s.stopped || s.work != Done, work := Cancel(s.work))
  }

  function Handle(s: Guarded, e: Event): Guarded
  {
    match e
    case WorkDone => s.(work := Done)
    case GuardDone => s.(guard := Done)
    case WaitReturns(connected) =>
      if s.point != Waiting || (s.work != Done && s.guard != Done) then s
      else if s.guard != Done then s.(point := AwaitingWork)
      else
        var t := s.(stopped := true, work := Cancel(s.work));
        if connected then t.(point := Closing) else EnterFinally(t)
    case CloseReturns => if s.point == Closing then EnterFinally(s) else s
    case WorkAwaited => if s.point == AwaitingWork then EnterFinally(s) else s
    case OuterCancel =>
      if s.point == Waiting || s.point == Closing || s.point == AwaitingWork then EnterFinally(s) else s
    case GatherReturns => if s.point == Gathering && s.work == Done && s.guard == Done then s.(point := Returned) else s
  }

  /** The first await returns once a task ended: the end of the guard runs the hook and cancels the work,
      then closes a socket that is still open; otherwise the work's own result is awaited. */
  lemma FirstAwaitReturns(work: Task, guard: Task, connected: bool)
    requires work == Done || guard == Done
    ensures Handle(Guarded(Waiting, work, guard, false), WaitReturns(connected))
         == if guard != Done then Guarded(AwaitingWork, work, guard, false)
            else Guarded(if connected then Closing else Gathering,
                         if work == Done then Done else CancelRequested, guard, true)
  {
  }

  /** Work that ends by itself is never cancelled: neither the hook nor a close takes place. */
  lemma WorkEndsItself(connected: bool)
    ensures Run(STARTED, [WorkDone, WaitReturns(connected)]) == Guarded(AwaitingWork, Done, Running, false)
    ensures Run(Guarded(AwaitingWork, Done, Running, false), [WorkAwaited, GuardDone, GatherReturns])
         == Guarded(Returned, Done, Done, false)
  {
    var first, last := [WorkDone, WaitReturns(connected)], [WorkAwaited, GuardDone, GatherReturns];
    var s1 := Handle(STARTED, WorkDone);
    var t1 := Handle(Guarded(AwaitingWork, Done, Running, false), WorkAwaited);
    var t2 := Handle(t1, GuardDone);
    assert first[1..] == [WaitReturns(connected)] && first[1..][1..] == [];
    assert last[1..] == [GuardDone, GatherReturns] && last[1..][1..] == [GatherReturns] && last[1..][1..][1..] == [];
    assert Run(s1, first[1..]) == Handle(s1, WaitReturns(connected));
    assert Run(t2, [GatherReturns]) == Handle(t2, GatherReturns) && Run(t1, last[1..]) == Run(t2, [GatherReturns]);
  }

  function Run(s: Guarded, events: seq<Event>): Guarded
    decreases |events|
  {
    if events == [] then s else Run(Handle(s, events[0]), events[1..])
  }

  ghost predicate Sound(s: Guarded)
  {
    && (s.work == CancelRequested ==> s.stopped)
    && (s.point == Closing ==> s.work != Running && s.guard == Done)
    && (s.point == AwaitingWork ==> s.work == Done)
    && (s.point == Gathering ==> s.work != Running && s.guard != Running)
    && (s.point == Returned ==> s.work == Done && s.guard == Done)
  }

  /** Whatever ends first and whenever the caller is cancelled: both tasks are finished when
      run_guarded returns, work is never asked to cancel before the hook ran, and the end of the
      guard cancels the work before the socket is closed. */
  lemma {:induction false} BothTasksReaped(s: Guarded, events: seq<Event>)
    requires Sound(s)
    ensures Sound(Run(s, events))
    decreases |events|
  {
    if events != [] { BothTasksReaped(Handle(s, events[0]), events[1..]); }
  }

  lemma {:induction false} RunAppend(s: Guarded, a: seq<Event>, b: seq<Event>)
    ensures Run(s, a + b) == Run(Run(s, a), b)
    decreases |a|
  {
    if a == [] {
      assert a + b == b;
    } else {
      assert (a + b)[1..] == a[1..] + b;
      RunAppend(Handle(s, a[0]), a[1..], b);
    }
  }

  /** How far the coroutine is. */
  function Rank(p: Point): nat
  {
    match p
    case Waiting => 0
    case Closing => 1
    case AwaitingWork => 1
    case Gathering => 2
    case Returned => 3
  }

  /** Finished tasks stay finished and the coroutine never goes back. */
  lemma {:induction false} NeverBack(s: Guarded, events: seq<Event>)
    ensures Rank(Run(s, events).point) >= Rank(s.point)
    ensures s.work == Done ==> Run(s, events).work == Done
    ensures s.guard == Done ==> Run(s, events).guard == Done
    decreases |events|
  {
    if events != [] { NeverBack(Handle(s, events[0]), events[1..]); }
  }

  /** Both tasks ended and the wait returned: the coroutine has left its first await for good. */
  lemma {:induction false} WaitIsOver(s: Guarded, events: seq<Event>, k: nat)
    requires s.guard == Done && k < |events| && events[k].WaitReturns?
    ensures Rank(Run(s, events).point) >= 1
    decreases |events|
  {
    if k == 0 {
      NeverBack(Handle(s, events[0]), events[1..]);
    } else {
      WaitIsOver(Handle(s, events[0]), events[1..], k - 1);
    }
  }

  lemma {:induction false} SecondAwaitIsOver(s: Guarded, events: seq<Event>, e: Event)
    requires s.point == (if e == CloseReturns then Closing else AwaitingWork) && (e == CloseReturns || e == WorkAwaited)
    requires e in events
    ensures Rank(Run(s, events).point) >= 2
    decreases |events|
  {
    var next := Handle(s, events[0]);
    if Rank(next.point) >= 2 {
      NeverBack(next, events[1..]);
    } else {
      SecondAwaitIsOver(next, events[1..], e);
    }
  }

  lemma {:induction false} GatherIsOver(s: Guarded, events: seq<Event>)
    requires s.point == Gathering && s.work == Done && s.guard == Done && GatherReturns in events
    ensures Run(s, events).point == Returned
    decreases |events|
  {
    var next := Handle(s, events[0]);
    if next.point == Returned {
      NeverBack(next, events[1..]);
    } else {
      GatherIsOver(next, events[1..]);
    }
  }

  lemma {:induction false} TaskEnds(s: Guarded, events: seq<Event>)
    ensures WorkDone in events ==> Run(s, events).work == Done
    ensures GuardDone in events ==> Run(s, events).guard == Done
    decreases |events|
  {
    if events != [] {
      TaskEnds(Handle(s, events[0]), events[1..]);
      NeverBack(Handle(s, events[0]), events[1..]);
    }
  }

  /** Whatever else happens, and whatever the state of the socket: once both tasks ended and each await
      the coroutine is then found in was delivered, run_guarded has returned. It waits for nothing
      else. */
  lemma AlwaysReturns(s: Guarded, ended: seq<Event>, waited: seq<Event>, k: nat,
                      closed: seq<Event>, gathered: seq<Event>)
    requires WorkDone in ended && GuardDone in ended
    requires Run(s, ended).point == Waiting ==> k < |waited| && waited[k].WaitReturns?
    requires Run(s, ended + waited).point == Closing ==> CloseReturns in closed
    requires Run(s, ended + waited).point == AwaitingWork ==> WorkAwaited in closed
    requires Run(s, ended + waited + closed).point == Gathering ==> GatherReturns in gathered
    ensures Run(s, ended + waited + closed + gathered).point == Returned
  {
    RunAppend(s, ended, waited);
    RunAppend(s, ended + waited, closed);
    RunAppend(s, ended + waited + closed, gathered);
    hide Handle, Run;
    var s1 := Run(s, ended);
    TaskEnds(s, ended);
    var s2 := Run(s1, waited);
    NeverBack(s1, waited);
    if s1.point == Waiting { WaitIsOver(s1, waited, k); }
    var s3 := Run(s2, closed);
    NeverBack(s2, closed);
    if s2.point == Closing { SecondAwaitIsOver(s2, closed, CloseReturns); }
    if s2.point == AwaitingWork { SecondAwaitIsOver(s2, closed, WorkAwaited); }
    NeverBack(s3, gathered);
    if s3.point == Gathering { GatherIsOver(s3, gathered); }
  }

  // ----- the two together, in time -----

  datatype Timed = Timed(event: Event, at: real)

  ghost predicate InOrder(events: seq<Timed>)
  {
    forall i, j :: 0 <= i <= j < |events| ==> events[i].at <= events[j].at
  }

  /** The state at time x, once every event up to then was handled. */
  ghost function StateAt(s: Guarded, events: seq<Timed>, x: real): Guarded
    decreases |events|
  {
    if events == [] || events[0].at > x then s else StateAt(Handle(s, events[0].event), events[1..], x)
  }

  /** The state once the first n events were handled. */
  ghost function After(s: Guarded, events: seq<Timed>, n: nat): Guarded
    decreases |events|
  {
    if events == [] || n == 0 then s else After(Handle(s, events[0].event), events[1..], n - 1)
  }

  /** A prompt event loop, for a guard that returns at `ends`: the first g events came by then, and if
      the coroutine still waits, event g is the end of the guard and event w resumes the coroutine at
      the same time. Before, between and after them anything may happen. */
  ghost predicate Prompt(s: Guarded, events: seq<Timed>, ends: real, g: nat, w: int)
  {
    && InOrder(events) && g <= |events|
    && (g > 0 ==> events[g - 1].at <= ends)
    && (After(s, events, g).point == Waiting ==>
          && g < w < |events|
          && events[g].event == GuardDone && events[g].at <= ends
          && events[w].event.WaitReturns? && events[w].at == events[g].at)
  }

  lemma {:induction false} SoundAt(s: Guarded, events: seq<Timed>, x: real)
    requires Sound(s)
    ensures Sound(StateAt(s, events, x)) && Rank(StateAt(s, events, x).point) >= Rank(s.point)
    decreases |events|
  {
    if events != [] && events[0].at <= x { SoundAt(Handle(s, events[0].event), events[1..], x); }
  }

  lemma Rest(events: seq<Timed>)
    requires InOrder(events) && events != []
    ensures InOrder(events[1..])
  {
    assert forall i :: 0 <= i < |events| - 1 ==> events[1..][i] == events[i + 1];
  }

  lemma {:induction false} WaitedBy(s: Guarded, events: seq<Timed>, x: real, w: nat)
    requires Sound(s) && InOrder(events) && s.guard == Done
    requires w < |events| && events[w].event.WaitReturns? && events[w].at <= x
    ensures StateAt(s, events, x).point != Waiting
    decreases |events|
  {
    assert events[0].at <= events[w].at;
    Rest(events);
    var next := Handle(s, events[0].event);
    if w == 0 { SoundAt(next, events[1..], x); } else { WaitedBy(next, events[1..], x, w - 1); }
  }

  lemma {:induction false} GuardedBy(s: Guarded, events: seq<Timed>, ends: real, x: real, g: nat, w: int)
    requires Sound(s) && Prompt(s, events, ends, g, w) && x >= ends
    ensures StateAt(s, events, x).point != Waiting
    decreases |events|
  {
    if g == 0 && s.point != Waiting {
      SoundAt(s, events, x);
    } else {
      Rest(events);
      var next := Handle(s, events[0].event);
      if g == 0 {
        WaitedBy(next, events[1..], x, w - 1);
      } else {
        assert events[0].at <= events[g - 1].at;
        GuardedBy(next, events[1..], ends, x, g - 1, w - 1);
      }
    }
  }

  /** From the time the guard returns, the channel's work has ended or was asked to cancel, after the
      cancellation hook ran, in every run of a prompt loop and whatever else happens in it. */
  lemma GuardEndCancelsWork(events: seq<Timed>, ends: real, g: nat, w: int, x: real)
    requires Prompt(STARTED, events, ends, g, w) && x >= ends
    ensures var s := StateAt(STARTED, events, x);
            s.work == Done || (s.work == CancelRequested && s.stopped)
  {
    GuardedBy(STARTED, events, ends, x, g, w);
    SoundAt(STARTED, events, x);
  }

  /** Cancellation of a guarded channel's work is requested within 11 seconds of the moment its key is
      revoked or expires, whatever else happens to the key table, to the verifications and to the
      channel. */
  lemma RevokedChannelEnds(t: AccessKeys.Table, ops: seq<AccessKeys.Op>, id: string, start: real, invalid: real,
                           checks: nat -> Check, events: seq<Timed>, g: nat, w: int, x: real)
    requires id in t && AccessKeys.ValidKeyId(id) && Chronological(ops) && forall i :: checks(i).Possible()
    requires start <= invalid
    requires AccessKeys.FirstRevocation(ops, id) == Some(invalid) || t[id].expiresAt == Some(invalid)
    requires var valid := (x: real) => ActiveAt(t, ops, id, x);
             InvalidFrom(valid, invalid) ==> Prompt(STARTED, events, GuardEnds(start, valid, invalid, checks, 0), g, w)
    requires x >= invalid + 11.0
    ensures var s := StateAt(STARTED, events, x);
            s.work == Done || (s.work == CancelRequested && s.stopped)
  {
    RevokedGuardEnds(t, ops, id, start, invalid, checks);
    var valid := (x: real) => ActiveAt(t, ops, id, x);
    GuardEndCancelsWork(events, GuardEnds(start, valid, invalid, checks, 0), g, w, x);
  }

  /** A verification that raises, times out or finds the key invalid costs the channel its work: it is
      done or asked to cancel from the end of that verification on, whether the key is valid or not. */
  lemma FailedCheckEndsChannel(start: real, valid: real -> bool, invalid: real, checks: nat -> Check, k: nat,
                               events: seq<Timed>, g: nat, w: int, x: real)
    requires InvalidFrom(valid, invalid) && forall i :: checks(i).Possible()
    requires (forall i :: 0 <= i < k ==> Passes(start, valid, checks, i)) && !Passes(start, valid, checks, k)
    requires Prompt(STARTED, events, GuardEnds(start, valid, invalid, checks, 0), g, w)
    requires x >= Began(start, checks, k) + if checks(k).duration > 5.0 then 5.0 else checks(k).duration
    ensures var s := StateAt(STARTED, events, x);
            s.work == Done || (s.work == CancelRequested && s.stopped)
  {
    GuardEndsExactly(start, valid, invalid, checks, k);
    GuardEndCancelsWork(events, GuardEnds(start, valid, invalid, checks, 0), g, w, x);
  }
}
