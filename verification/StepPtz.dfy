/** The finite pan/tilt gesture pad: presses send one step, held drags repeat, releases stop. */
module StepPtz {
  import opened Outcomes

  datatype Direction = Left | Up | Down | Right

  datatype Gesture = Gesture(pointer: int, x: real, y: real, direction: Option<Direction>, dragging: bool)

  /** Requests made to the server. */
  datatype Call = StepCall(direction: Direction) | StopCall

  /** The closure's variables; `repeat` and `safety` say whether that timer is armed, `listening`
      whether blur and visibility handlers are installed. `calls` and `unanswered` record the
      requests made and the steps not yet replied to. */
  datatype Pad = Pad(busy: bool, gesture: Option<Gesture>, safety: bool, repeat: bool, suppressClick: bool,
                     listening: bool, calls: seq<Call>, unanswered: int)
  {
    predicate Dragging() { gesture.Some? && gesture.value.dragging }
  }

  const IDLE := Pad(false, None, false, false, false, false, [], 0)

  datatype Event =
    | PointerDown(pointer: int, primary: bool, x: real, y: real, direction: Option<Direction>)
    | PointerMove(pointer: int, x: real, y: real, centerX: real, centerY: real, dead: real)
    | PointerEnd(pointer: int)
    | Click(button: Direction, fromKeyboard: bool)
    | Reply(ok: bool, connected: bool)
    | RepeatTimer(connected: bool)
    | SafetyTimer
    | Blur
    | Visibility(hidden: bool)

  /** Whether a move is at least eight pixels from where the press began. */
  predicate FarEnough(g: Gesture, x: real, y: real)
  {
    (x - g.x) * (x - g.x) + (y - g.y) * (y - g.y) >= 64.0
  }

  function Abs(x: real): real { if x < 0.0 then -x else x }

  function Heading(x: real, y: real, dead: real): Option<Direction>
  {
    if x * x + y * y < dead * dead then None
    else if Abs(x) > Abs(y) then Some(if x > 0.0 then Right else Left)
    else Some(if y > 0.0 then Down else Up)
  }

  /** How far the pointer is from the pad's centre in a direction. */
  function Along(d: Direction, x: real, y: real): real
  {
    match d
    case Left => -x
    case Right => x
    case Up => -y
    case Down => y
  }

  /** A drag heads where the pointer is furthest from the centre, and nowhere exactly inside the
      dead zone. */
  lemma HeadingIsFurthest(x: real, y: real, dead: real, d: Direction)
    ensures Heading(x, y, dead).None? <==> x * x + y * y < dead * dead
    ensures Heading(x, y, dead).Some? ==> Along(Heading(x, y, dead).value, x, y) >= Along(d, x, y)
    ensures Heading(x, y, dead).Some? && Abs(x) == Abs(y) ==> Heading(x, y, dead).value in {Up, Down}
    ensures Heading(0.0, 0.0, 0.0) == Some(Up)
  {
  }

  // ----- handlers -----

  function Send(s: Pad, d: Direction): Pad
  {
    if s.busy then s
    else s.(repeat := false, busy := true, calls := s.calls + [StepCall(d)], unanswered := s.unanswered + 1)
  }

  function Release(s: Pad): Pad
  {
    s.(gesture := None, safety := false, repeat := false, listening := false,
       calls := if s.Dragging() && s.busy then s.calls + [StopCall] else s.calls)
  }

  function Handle(s: Pad, e: Event): Pad
  {
    match e
    case PointerDown(pointer, primary, x, y, direction) =>
      if s.gesture.Some? || !primary then s else
        var t := s.(suppressClick := true, gesture := Some(Gesture(pointer, x, y, direction, false)),
                    safety := true, listening := true);
        if direction.Some? then Send(t, direction.value) else t
    case PointerMove(pointer, x, y, centerX, centerY, dead) =>
      if s.gesture.None? || s.gesture.value.pointer != pointer then s
      else if !s.gesture.value.dragging && !FarEnough(s.gesture.value, x, y) then s
      else
        var heading := Heading(x - centerX, y - centerY, dead);
        var t := s.(gesture := Some(s.gesture.value.(dragging := true, direction := heading)));
        if !t.busy && !t.repeat && heading.Some? then Send(t, heading.value) else t
    case PointerEnd(pointer) => if s.gesture.Some? && s.gesture.value.pointer == pointer then Release(s) else s
    case Click(direction, fromKeyboard) =>
      if s.suppressClick && !fromKeyboard then s.(suppressClick := false)
      else Send(s.(suppressClick := false), direction)
    case Reply(ok, connected) =>
      if s.unanswered == 0 then s else
        var t := (if ok then s else Release(s)).(busy := false, unanswered := s.unanswered - 1);
        if ok && t.Dragging() && t.gesture.value.direction.Some? && connected then t.(repeat := true) else t
    case RepeatTimer(connected) =>
      if !s.repeat then s else
        var t := s.(repeat := false);
        if t.Dragging() && t.gesture.value.direction.Some? && connected then Send(t, t.gesture.value.direction.value)
        else t
    case SafetyTimer => if s.safety then Release(s) else s
    case Blur => if s.listening then Release(s) else s
    case Visibility(hidden) => if s.listening && hidden then Release(s) else s
  }

  function Run(s: Pad, events: seq<Event>): Pad
    decreases |events|
  {
    if events == [] then s else Run(Handle(s, events[0]), events[1..])
  }

  // ----- every sequence of events -----

  /** At most one step is in flight, no repeat is armed meanwhile, and timers and listeners belong
      to a gesture. */
  ghost predicate Valid(s: Pad)
  {
    && s.unanswered == (if s.busy then 1 else 0)
    && (s.busy ==> !s.repeat)
    && (s.repeat ==> s.Dragging())
    && (s.safety <==> s.gesture.Some?) && (s.listening <==> s.gesture.Some?)
  }

  lemma {:induction false} AlwaysValid(s: Pad, events: seq<Event>)
    requires Valid(s)
    ensures Valid(Run(s, events))
    decreases |events|
  {
    hide Heading, FarEnough;
    if events != [] { AlwaysValid(Handle(s, events[0]), events[1..]); }
  }

  ghost function Steps(calls: seq<Call>): nat
  {
    if calls == [] then 0 else Steps(calls[..|calls| - 1]) + if calls[|calls| - 1].StepCall? then 1 else 0
  }

  ghost function Stops(calls: seq<Call>): nat
  {
    if calls == [] then 0 else Stops(calls[..|calls| - 1]) + if calls[|calls| - 1].StopCall? then 1 else 0
  }

  /** STOP is requested exactly when a dragging gesture ends with a step in flight; a failed reply
      is one of the ways it ends. An event makes at most one request. */
  lemma StopExactly(s: Pad, e: Event)
    requires Valid(s)
    ensures Stops(Handle(s, e).calls)
         == Stops(s.calls) + if s.Dragging() && s.busy && Handle(s, e).gesture.None? then 1 else 0
    ensures s.calls <= Handle(s, e).calls && |Handle(s, e).calls| <= |s.calls| + 1
  {
    hide Heading, FarEnough;
    var t := Handle(s, e);
    if t.calls != s.calls { assert t.calls[..|s.calls|] == s.calls; }
  }

  /** The direction in which an event may ask for a step. */
  ghost function Wanted(s: Pad, e: Event): Option<Direction>
  {
    match e
    case Click(button, _) => Some(button)
    case PointerDown(_, _, _, _, direction) => direction
    case PointerMove(_, x, y, centerX, centerY, dead) => Heading(x - centerX, y - centerY, dead)
    case RepeatTimer(_) => if s.Dragging() then s.gesture.value.direction else None
    case _ => None
  }

  /** A step is sent only while none is in flight, only by a press, click, move or repeat, and in
      the direction that event asks for. */
  lemma StepDirection(s: Pad, e: Event)
    requires Valid(s) && Steps(Handle(s, e).calls) > Steps(s.calls)
    ensures !s.busy && Handle(s, e).busy
    ensures Wanted(s, e).Some? && Handle(s, e).calls == s.calls + [StepCall(Wanted(s, e).value)]
  {
    hide Heading, FarEnough;
    StopExactly(s, e);
  }

  /** A click on a direction button sends its step if none is in flight, except the click that follows a
      press, which is the same one. */
  lemma ClickSends(s: Pad, direction: Direction, fromKeyboard: bool)
    ensures var t := Handle(s, Click(direction, fromKeyboard));
            && !t.suppressClick && t.gesture == s.gesture
            && t.calls == (if (s.suppressClick && !fromKeyboard) || s.busy then s.calls
                           else s.calls + [StepCall(direction)])
            && (t.calls != s.calls ==> t.busy && t.unanswered == s.unanswered + 1)
  {
  }

  /** A primary press opens a gesture with its safety timer and sends the step of the button it hit. */
  lemma PressOpens(s: Pad, pointer: int, x: real, y: real, direction: Option<Direction>)
    requires s.gesture.None?
    ensures var t := Handle(s, PointerDown(pointer, true, x, y, direction));
            && t.gesture == Some(Gesture(pointer, x, y, direction, false)) && t.safety && t.listening && t.suppressClick
            && t.calls == if direction.Some? && !s.busy then s.calls + [StepCall(direction.value)] else s.calls
  {
  }

  /** A move of at least eight pixels makes the gesture a drag, which follows the pad's heading and sends
      a step at once unless one is in flight or scheduled; smaller moves and other pointers do nothing. */
  lemma DragFollows(s: Pad, pointer: int, x: real, y: real, centerX: real, centerY: real, dead: real)
    ensures var t := Handle(s, PointerMove(pointer, x, y, centerX, centerY, dead));
            if s.gesture.Some? && s.gesture.value.pointer == pointer
               && (s.gesture.value.dragging
                   || (x - s.gesture.value.x) * (x - s.gesture.value.x)
                      + (y - s.gesture.value.y) * (y - s.gesture.value.y) >= 8.0 * 8.0) then
              var heading := Heading(x - centerX, y - centerY, dead);
              && t.gesture == Some(s.gesture.value.(dragging := true, direction := heading))
              && t.calls == (if heading.Some? && !s.busy && !s.repeat then s.calls + [StepCall(heading.value)]
                             else s.calls)
            else t == s
  {
  }

  /** A gesture ends with its pointer, after eight seconds, and when the page loses the focus or is
      hidden; its timers and listeners go with it. */
  lemma GestureEnds(s: Pad, e: Event)
    requires Valid(s) && s.gesture.Some?
    ensures var ends := || (e.PointerEnd? && e.pointer == s.gesture.value.pointer) || e.SafetyTimer? || e.Blur?
                        || (e.Visibility? && e.hidden) || (e.Reply? && s.unanswered > 0 && !e.ok);
            && (Handle(s, e).gesture.None? <==> ends)
            && (ends ==> !Handle(s, e).safety && !Handle(s, e).listening && !Handle(s, e).repeat)
  {
    hide Heading, FarEnough;
  }

  /** A confirmed step of a held drag is followed by another in the drag's current direction, unless
      the drag has no direction or the pad is gone by then. */
  lemma HeldDragRepeats(s: Pad, connected: bool)
    requires Valid(s) && s.busy && s.Dragging() && s.gesture.value.direction.Some?
    ensures var replied := Handle(s, Reply(true, true));
            && replied.repeat && !replied.busy && replied.calls == s.calls
            && !Handle(replied, RepeatTimer(connected)).repeat
            && Handle(replied, RepeatTimer(connected)).calls
               == if connected then s.calls + [StepCall(s.gesture.value.direction.value)] else s.calls
    ensures !Handle(s, Reply(true, false)).repeat && !Handle(s, Reply(false, connected)).repeat
  {
  }

  /** Events that no user action causes, and actions on a gesture that is over. */
  predicate Passive(e: Event) { !e.PointerDown? && !e.Click? }

  /** After a release nothing is sent until the user presses or clicks again. */
  lemma {:induction false} QuietAfterRelease(s: Pad, events: seq<Event>)
    requires Valid(s) && s.gesture.None?
    requires forall i :: 0 <= i < |events| ==> Passive(events[i])
    ensures Run(s, events).calls == s.calls && Run(s, events).gesture.None?
    decreases |events|
  {
    if events != [] {
      var t := Handle(s, events[0]);
      assert Passive(events[0]);
      assert Valid(t) && t.gesture.None? && t.calls == s.calls;
      QuietAfterRelease(t, events[1..]);
    }
  }

  /** What may happen during a press that never becomes a drag, and right after it: small moves,
      its release by any cause, replies, timers, the pointer's own click, and, while it is held or
      without the primary button, other presses. */
  predicate PressOnly(s: Pad, origin: Gesture, e: Event)
  {
    match e
    case PointerDown(_, primary, _, _, _) => s.gesture.Some? || !primary
    case PointerMove(pointer, x, y, _, _, _) => pointer != origin.pointer || !FarEnough(origin, x, y)
    case Click(_, fromKeyboard) => !fromKeyboard
    case _ => true
  }

  predicate OnlyPressed(s: Pad, origin: Gesture, events: seq<Event>)
    decreases |events|
  {
    events == [] || (PressOnly(s, origin, events[0]) && OnlyPressed(Handle(s, events[0]), origin, events[1..]))
  }

  predicate OneClick(events: seq<Event>)
  {
    forall i, j :: 0 <= i < j < |events| ==> !(events[i].Click? && events[j].Click?)
  }

  lemma {:induction false} PressedStaysQuiet(s: Pad, origin: Gesture, events: seq<Event>)
    requires Valid(s) && !s.repeat && (s.gesture.None? || s.gesture == Some(origin)) && !origin.dragging
    requires OnlyPressed(s, origin, events)
    requires OneClick(events) && (s.suppressClick || forall i :: 0 <= i < |events| ==> !events[i].Click?)
    ensures Run(s, events).calls == s.calls
    decreases |events|
  {
    if events != [] {
      hide FarEnough, Heading;
      var t := Handle(s, events[0]);
      assert t.calls == s.calls && Valid(t);
      PressedStaysQuiet(t, origin, events[1..]);
    }
  }

  /** A press that never becomes a drag sends at most one step: one if it hit a direction button
      while no step was in flight, none otherwise. Its click sends nothing more. */
  lemma PressSendsAtMostOne(s: Pad, press: Event, events: seq<Event>)
    requires Valid(s) && press.PointerDown? && press.primary && s.gesture.None?
    requires var origin := Gesture(press.pointer, press.x, press.y, press.direction, false);
             OnlyPressed(Handle(s, press), origin, events)
    requires OneClick(events)
    ensures Run(Handle(s, press), events).calls
         == if press.direction.Some? && !s.busy then s.calls + [StepCall(press.direction.value)] else s.calls
  {
    PressedStaysQuiet(Handle(s, press), Gesture(press.pointer, press.x, press.y, press.direction, false), events);
  }

  // ----- the handlers as they update the closure -----

  class Controls {
    var busy: bool
    var gesture: Option<Gesture>
    var safety: bool
    var repeat: bool
    var suppressClick: bool
    var listening: bool
    ghost var calls: seq<Call>
    ghost var unanswered: int

    ghost function State(): Pad
      reads this
    {
      Pad(busy, gesture, safety, repeat, suppressClick, listening, calls, unanswered)
    }

    constructor ()
      ensures State() == IDLE
    {
      busy, gesture, safety, repeat, suppressClick, listening := false, None, false, false, false, false;
      calls, unanswered := [], 0;
    }

    method SendStep(direction: Direction)
      modifies this
      ensures State() == Send(old(State()), direction)
    {
      if busy { return; }
      repeat := false;
      busy := true;
      calls, unanswered := calls + [StepCall(direction)], unanswered + 1;
    }

    method ReleaseGesture()
      modifies this
      ensures State() == Release(old(State()))
    {
      var cancel := gesture.Some? && gesture.value.dragging && busy;
      gesture := None;
      safety, repeat, listening := false, false, false;
      if cancel { calls := calls + [StopCall]; }
    }

    method OnPointerDown(pointer: int, primary: bool, x: real, y: real, direction: Option<Direction>)
      modifies this
      ensures State() == Handle(old(State()), PointerDown(pointer, primary, x, y, direction))
    {
      if gesture.Some? || !primary { return; }
      suppressClick := true;
      gesture := Some(Gesture(pointer, x, y, direction, false));
      safety, listening := true, true;
      if direction.Some? && !busy { SendStep(direction.value); }
    }

    method OnPointerMove(pointer: int, x: real, y: real, centerX: real, centerY: real, dead: real)
      modifies this
      ensures State() == Handle(old(State()), PointerMove(pointer, x, y, centerX, centerY, dead))
    {
      if gesture.None? || gesture.value.pointer != pointer { return; }
      if !gesture.value.dragging && !FarEnough(gesture.value, x, y) { return; }
      var heading := Heading(x - centerX, y - centerY, dead);
      gesture := Some(gesture.value.(dragging := true, direction := heading));
      if !busy && !repeat && heading.Some? { SendStep(heading.value); }
    }

    method OnPointerEnd(pointer: int)
      modifies this
      ensures State() == Handle(old(State()), PointerEnd(pointer))
    {
      if gesture.Some? && gesture.value.pointer == pointer { ReleaseGesture(); }
    }

    method OnClick(direction: Direction, fromKeyboard: bool)
      modifies this
      ensures State() == Handle(old(State()), Click(direction, fromKeyboard))
    {
      if suppressClick && !fromKeyboard { suppressClick := false; return; }
      suppressClick := false;
      if busy { return; }
      SendStep(direction);
    }

    method OnReply(ok: bool, connected: bool)
      requires Valid(State()) && busy
      modifies this
      ensures State() == Handle(old(State()), Reply(ok, connected))
    {
      if !ok { ReleaseGesture(); }
      busy, unanswered := false, unanswered - 1;
      if ok && gesture.Some? && gesture.value.dragging && gesture.value.direction.Some? && connected {
        repeat := true;
      }
    }

    method OnRepeatTimer(connected: bool)
      requires repeat
      modifies this
      ensures State() == Handle(old(State()), RepeatTimer(connected))
    {
      repeat := false;
      if gesture.Some? && gesture.value.dragging && gesture.value.direction.Some? && connected {
        SendStep(gesture.value.direction.value);
      }
    }
  }
}
