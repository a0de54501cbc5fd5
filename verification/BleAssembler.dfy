/** Reassembly of Bluetooth messages from frames that may be reordered, repeated, interleaved,
    malformed or conflicting. */
module BleAssembler {
  import opened Outcomes
  import opened BleFrames

  /** What frames of one message share; the source joins these fields into a text key. */
  datatype Key = Key(version: int, encrypted: bool, messageId: int, command: int, totalFrames: int)

  function KeyOf(f: Frame): Key
  {
    Key(f.version, f.encrypted, f.messageId, f.command, f.totalFrames)
  }

  type Parts = map<int, seq<byte>>

  datatype Assembly = Assembly(key: Option<Key>, parts: Parts)
  {
    /** Fragments are stored only under indices of the current message, and never all of them. */
    ghost predicate Valid()
    {
      if key.None? then parts == map[] else
        && (forall i :: i in parts ==> 0 <= i < key.value.totalFrames)
        && |parts| < key.value.totalFrames
    }
  }

  const EMPTY := Assembly(None, map[])

  /** What add() returns or throws. */
  datatype Answer = Rejected(error: BleError) | Waiting | Complete(message: Message)

  /** The first n parts in index order. */
  ghost function Join(parts: Parts, n: nat): seq<byte>
    requires forall i :: 0 <= i < n ==> i in parts
  {
    if n == 0 then [] else Join(parts, n - 1) + parts[n - 1]
  }

  /** One call of add(): the state it leaves and its answer. */
  ghost function Add(a: Assembly, value: seq<byte>): (r: (Assembly, Answer))
    requires a.Valid()
    ensures r.0.Valid()
  {
    match Parse(value)
    case Err(e) => (a, Rejected(e))
    case Ok(f) =>
      var kept := if a.key == Some(KeyOf(f)) then a.parts else map[];
      if f.frameIndex in kept && kept[f.frameIndex] != f.data then (a, Rejected(ConflictingDuplicate))
      else
        var parts := kept[f.frameIndex := f.data];
        Stored(kept, f);
        if |parts| != f.totalFrames then (Assembly(Some(KeyOf(f)), parts), Waiting)
        else (EMPTY, Complete(Message(f.version, f.encrypted, f.messageId, f.command, Join(parts, f.totalFrames))))
  }

  lemma Stored(kept: Parts, f: Frame)
    requires 0 <= f.frameIndex < f.totalFrames
    requires (forall i :: i in kept ==> 0 <= i < f.totalFrames) && |kept| < f.totalFrames
    ensures var parts := kept[f.frameIndex := f.data];
            && |parts| <= f.totalFrames
            && (forall i :: i in parts ==> 0 <= i < f.totalFrames)
            && (|parts| == f.totalFrames <==> forall i :: 0 <= i < f.totalFrames ==> i in parts)
  {
    var parts := kept[f.frameIndex := f.data];
    assert parts.Keys == kept.Keys + {f.frameIndex};
    AllIndices(parts.Keys, f.totalFrames);
  }

  /** A set of n indices below n is all of them. */
  lemma {:induction false} AllIndices(s: set<int>, n: nat)
    requires forall i :: i in s ==> 0 <= i < n
    ensures |s| <= n
    ensures |s| == n <==> forall i :: 0 <= i < n ==> i in s
  {
    if n == 0 {
      assert forall i :: i !in s;
      assert s == {};
    } else {
      var rest := s - {n - 1};
      AllIndices(rest, n - 1);
      assert n - 1 in s ==> s == rest + {n - 1};
      assert n - 1 !in s ==> s == rest;
    }
  }

  /** A refused frame, malformed or conflicting, leaves everything stored as it was; a conflict
      is exactly a different fragment for an index already held under the same key. */
  lemma RefusalKeepsState(a: Assembly, value: seq<byte>)
    requires a.Valid()
    ensures Add(a, value).1.Rejected? ==> Add(a, value).0 == a
    ensures Add(a, value).1.Rejected? <==>
              || Parse(value).Err?
              || var f := Parse(value).value;
                 a.key == Some(KeyOf(f)) && f.frameIndex in a.parts && a.parts[f.frameIndex] != f.data
  {
  }

  ghost function Kept(a: Assembly, f: Frame): Parts
  {
    if a.key == Some(KeyOf(f)) then a.parts else map[]
  }

  /** What an accepted frame leaves behind. */
  lemma Accepted(a: Assembly, value: seq<byte>)
    requires a.Valid() && !Add(a, value).1.Rejected?
    ensures Parse(value).Ok?
    ensures var f := Parse(value).value;
            var parts := Kept(a, f)[f.frameIndex := f.data];
            match Add(a, value).1
            case Waiting => Add(a, value).0 == Assembly(Some(KeyOf(f)), parts)
            case Complete(m) =>
              && Add(a, value).0 == EMPTY && f.totalFrames >= 1
              && (forall i :: 0 <= i < f.totalFrames ==> i in parts)
              && m == Message(f.version, f.encrypted, f.messageId, f.command, Join(parts, f.totalFrames))
  {
    EncodeParse(value);
    Stored(Kept(a, Parse(value).value), Parse(value).value);
  }

  class Assembler {
    var key: Option<Key>
    var parts: Parts

    ghost function State(): Assembly
      reads this
    {
      Assembly(key, parts)
    }

    constructor ()
      ensures State() == EMPTY
    {
      key, parts := None, map[];
    }

    method Reset()
      modifies this
      ensures State() == EMPTY
    {
      key, parts := None, map[];
    }

    method AddFrame(value: seq<byte>) returns (answer: Answer)
      requires State().Valid()
      modifies this
      ensures State().Valid()
      ensures (State(), answer) == Add(old(State()), value)
    {
      var parsed := Parse(value);
      if parsed.Err? { return Rejected(parsed.error); }
      var frame := parsed.value;
      var nextKey := KeyOf(frame);
      if key != Some(nextKey) {
        key, parts := Some(nextKey), map[];
      }
      if frame.frameIndex in parts && parts[frame.frameIndex] != frame.data {
        return Rejected(ConflictingDuplicate);
      }
      Stored(parts, frame);
      parts := parts[frame.frameIndex := frame.data];
      if |parts| != frame.totalFrames { return Waiting; }
      var data := [];
      for index := 0 to frame.totalFrames
        invariant data == Join(parts, index)
      {
        data := data + parts[index];
      }
      var message := Message(frame.version, frame.encrypted, frame.messageId, frame.command, data);
      Reset();
      answer := Complete(message);
    }
  }

  // ----- runs -----

  /** What a client does with an assembler. */
  datatype Input = Received(value: seq<byte>) | ResetCall

  /** The state after a stream of calls on a new assembler. */
  ghost function After(inputs: seq<Input>): (a: Assembly)
    ensures a.Valid()
  {
    if inputs == [] then EMPTY else
      match inputs[|inputs| - 1]
      case ResetCall => EMPTY
      case Received(value) => Add(After(inputs[..|inputs| - 1]), value).0
  }

  /** The answer to frame k of a stream. */
  ghost function AnswerAt(inputs: seq<Input>, k: nat): Answer
    requires k < |inputs| && inputs[k].Received?
  {
    Add(After(inputs[..k]), inputs[k].value).1
  }

  /** A reset forgets everything before it: what follows is answered as by a new assembler. */
  lemma {:induction false} ResetForgets(before: seq<Input>, inputs: seq<Input>)
    ensures After(before + [ResetCall] + inputs) == After(inputs)
    ensures inputs != [] && inputs[|inputs| - 1].Received? ==>
              AnswerAt(before + [ResetCall] + inputs, |before| + |inputs|) == AnswerAt(inputs, |inputs| - 1)
    decreases |inputs|
  {
    hide Add;
    var all := before + [ResetCall] + inputs;
    if inputs != [] {
      var n := |inputs| - 1;
      assert all[..|all| - 1] == before + [ResetCall] + inputs[..n];
      ResetForgets(before, inputs[..n]);
    }
  }

  // ----- one message, any order, any repetition -----

  ghost predicate Indices(order: seq<nat>, count: nat)
  {
    forall k :: 0 <= k < |order| ==> order[k] < count
  }

  /** The stream that carries fragments in the given order. */
  ghost function Sent(frames: seq<seq<byte>>, order: seq<nat>): (s: seq<Input>)
    requires Indices(order, |frames|)
    ensures |s| == |order| && forall k :: 0 <= k < |s| ==> s[k].Received?
  {
    if order == [] then [] else Sent(frames, order[..|order| - 1]) + [Received(frames[order[|order| - 1]])]
  }

  lemma {:induction false} SentPrefix(frames: seq<seq<byte>>, order: seq<nat>, k: nat)
    requires Indices(order, |frames|) && k <= |order|
    ensures Indices(order[..k], |frames|) && Sent(frames, order)[..k] == Sent(frames, order[..k])
    ensures k < |order| ==> Sent(frames, order)[k] == Received(frames[order[k]])
    decreases |order|
  {
    var n := |order| - 1;
    if k <= n {
      SentPrefix(frames, order[..n], k);
      assert order[..n][..k] == order[..k];
    } else {
      assert order[..k] == order;
    }
  }

  ghost function Seen(order: seq<nat>): set<int> { set k | 0 <= k < |order| :: order[k] as int }

  ghost predicate SawAll(order: seq<nat>, count: nat) { forall i :: 0 <= i < count ==> i in Seen(order) }

  /** What the assembler holds once the fragments `seen` of m have arrived. */
  ghost function Holding(m: Message, capacity: nat, seen: set<int>): Assembly
    requires capacity > 0 && forall i :: i in seen ==> 0 <= i
  {
    if seen == {} then EMPTY else
      Assembly(Some(Key(m.version, m.encrypted, m.messageId, m.command, FrameCount(|m.data|, capacity))),
               map i | i in seen :: Piece(m.data, capacity, i))
  }

  lemma {:induction false} JoinPieces(m: Message, capacity: nat, parts: Parts, n: nat)
    requires capacity > 0
    requires forall i :: 0 <= i < n ==> i in parts && parts[i] == Piece(m.data, capacity, i)
    ensures Join(parts, n) == Pieces(m.data, capacity, n)
  {
    if n > 0 { JoinPieces(m, capacity, parts, n - 1); }
  }

  lemma HoldingValid(m: Message, capacity: nat, seen: set<int>)
    requires capacity > 0
    requires forall i :: i in seen ==> 0 <= i < FrameCount(|m.data|, capacity)
    requires exists i :: 0 <= i < FrameCount(|m.data|, capacity) && i !in seen
    ensures Holding(m, capacity, seen).Valid()
  {
    var a := Holding(m, capacity, seen);
    if seen != {} {
      assert a.parts.Keys == seen;
      AllIndices(seen, FrameCount(|m.data|, capacity));
    }
  }

  lemma HoldingGrows(m: Message, capacity: nat, seen: set<int>, index: nat)
    requires capacity > 0 && forall i :: i in seen ==> 0 <= i
    ensures Holding(m, capacity, seen).parts[index as int := Piece(m.data, capacity, index)]
         == Holding(m, capacity, seen + {index as int}).parts
  {
  }

  /** A frame of a's own message that does not contradict what a holds. */
  lemma AddAgreeing(a: Assembly, value: seq<byte>, f: Frame)
    requires a.Valid() && Parse(value) == Ok(f)
    requires a == EMPTY || a.key == Some(KeyOf(f))
    requires f.frameIndex in a.parts ==> a.parts[f.frameIndex] == f.data
    ensures var parts := a.parts[f.frameIndex := f.data];
            && 0 <= f.frameIndex < f.totalFrames
            && (if forall i :: 0 <= i < f.totalFrames ==> i in parts
                then Add(a, value) == (EMPTY, Complete(Message(f.version, f.encrypted, f.messageId, f.command,
                                                               Join(parts, f.totalFrames))))
                else Add(a, value) == (Assembly(Some(KeyOf(f)), parts), Waiting))
  {
    EncodeParse(value);
    Stored(a.parts, f);
  }

  /** The arrival of one more fragment of m. */
  lemma OneMore(m: Message, mtu: int, seen: set<int>, index: nat)
    requires Fragment(m, mtu).Ok? && index < |Fragment(m, mtu).value|
    requires forall i :: i in seen ==> 0 <= i < |Fragment(m, mtu).value|
    requires exists i :: 0 <= i < |Fragment(m, mtu).value| && i !in seen
    ensures Holding(m, mtu - 4, seen).Valid()
    ensures var count := |Fragment(m, mtu).value|;
            var more := seen + {index as int};
            Add(Holding(m, mtu - 4, seen), Fragment(m, mtu).value[index])
            == if forall i :: 0 <= i < count ==> i in more then (EMPTY, Complete(m))
               else (Holding(m, mtu - 4, more), Waiting)
  {
    hide Add, FrameCount, Fragment, Piece, Parse;
    var capacity := mtu - 4;
    FragmentAccepts(m, mtu);
    FragmentParses(m, mtu, index);
    HoldingValid(m, capacity, seen);
    var count := FrameCount(|m.data|, capacity);
    var f := FrameFor(m, capacity, count, index);
    var a := Holding(m, capacity, seen);
    AddAgreeing(a, Fragment(m, mtu).value[index], f);
    HoldingGrows(m, capacity, seen, index);
    var more := seen + {index as int};
    var parts := Holding(m, capacity, more).parts;
    assert parts.Keys == more;
    if forall i :: 0 <= i < count ==> i in more {
      JoinPieces(m, capacity, parts, count);
      PiecesRestorePayload(m.data, capacity);
    }
  }

  /** While some index is still missing, the assembler holds exactly the fragments seen so far. */
  lemma {:induction false} HoldsWhatWasSeen(m: Message, mtu: int, order: seq<nat>)
    requires Fragment(m, mtu).Ok? && Indices(order, |Fragment(m, mtu).value|)
    requires !SawAll(order, |Fragment(m, mtu).value|)
    ensures mtu > 4 && After(Sent(Fragment(m, mtu).value, order)) == Holding(m, mtu - 4, Seen(order))
  {
    hide Fragment, Add, Holding;
    FragmentAccepts(m, mtu);
    var frames, n := Fragment(m, mtu).value, |order| - 1;
    if order == [] {
      NothingSeen(m, mtu - 4, order);
    } else {
      SeenLast(order);
      var before := order[..n];
      SentPrefix(frames, order, n);
      HoldsWhatWasSeen(m, mtu, before);
      OneMore(m, mtu, Seen(before), order[n]);
    }
  }

  lemma NothingSeen(m: Message, capacity: nat, order: seq<nat>)
    requires capacity > 0 && order == []
    ensures Seen(order) == {} && Holding(m, capacity, Seen(order)) == EMPTY
  {
  }

  lemma SeenLast(order: seq<nat>)
    requires order != []
    ensures Seen(order) == Seen(order[..|order| - 1]) + {order[|order| - 1] as int}
  {
  }

  /** Fragments of any valid message, sent in any order with any repetitions to a reset assembler:
      no answer before all indices were seen, and the original message at the first moment they
      were. */
  lemma AnyOrderReassembles(m: Message, mtu: int, order: seq<nat>, k: nat)
    requires Fragment(m, mtu).Ok? && Indices(order, |Fragment(m, mtu).value|)
    requires k < |order| && !SawAll(order[..k], |Fragment(m, mtu).value|)
    ensures AnswerAt(Sent(Fragment(m, mtu).value, order), k)
         == if SawAll(order[..k + 1], |Fragment(m, mtu).value|) then Complete(m) else Waiting
  {
    hide Fragment, Add, Holding;
    var frames := Fragment(m, mtu).value;
    SentPrefix(frames, order, k);
    HoldsWhatWasSeen(m, mtu, order[..k]);
    assert order[..k + 1][..k] == order[..k];
    SeenLast(order[..k + 1]);
    OneMore(m, mtu, Seen(order[..k]), order[k]);
  }

  // ----- arbitrary streams -----

  /** Frame j of a stream was accepted as fragment i of the message with the given key. */
  ghost predicate AcceptedAs(inputs: seq<Input>, j: nat, key: Key, i: int, data: seq<byte>)
    requires j < |inputs|
  {
    && inputs[j].Received? && !AnswerAt(inputs, j).Rejected?
    && Parse(inputs[j].value).Ok?
    && var f := Parse(inputs[j].value).value;
       KeyOf(f) == key && f.frameIndex == i && f.data == data
  }

  /** From input `start` up to input `end` there was no reset, no other key was accepted and nothing
      completed. */
  ghost predicate Unbroken(inputs: seq<Input>, start: nat, end: nat, key: Key)
    requires start <= end <= |inputs|
  {
    forall j :: start <= j < end ==>
      && inputs[j].Received? && !AnswerAt(inputs, j).Complete?
      && (Parse(inputs[j].value).Ok? ==> KeyOf(Parse(inputs[j].value).value) == key)
  }

  /** Each of `parts` is an accepted fragment with this key, frame from[i] being the source of
      part i, and all of them arrived within an unbroken stretch that ends before frame `end`. */
  ghost predicate Sourced(inputs: seq<Input>, end: nat, key: Key, parts: Parts, start: nat, from: map<int, nat>)
    requires end <= |inputs|
  {
    && start <= end && Unbroken(inputs, start, end, key) && from.Keys == parts.Keys
    && forall i :: i in from ==> start <= from[i] < end && AcceptedAs(inputs, from[i], key, i, parts[i])
  }

  /** Whatever was received, every stored part is an accepted fragment of the current key, received
      since the key last changed or the assembler was reset. */
  lemma {:induction false} StoredPartsHaveSources(inputs: seq<Input>) returns (start: nat, from: map<int, nat>)
    requires After(inputs).key.Some?
    ensures Sourced(inputs, |inputs|, After(inputs).key.value, After(inputs).parts, start, from)
    decreases |inputs|, 1
  {
    hide Add, Parse, Sourced, Unbroken, AcceptedAs;
    var n := |inputs| - 1;
    var a := After(inputs[..n]);
    RefusalKeepsState(a, inputs[n].value);
    if AnswerAt(inputs, n).Rejected? {
      start, from := StoredPartsHaveSources(inputs[..n]);
      Extend(inputs, n, n, a.key.value, a.parts, start, from);
      SkipRefused(inputs, n, a.key.value, a.parts, start, from);
    } else {
      Accepted(a, inputs[n].value);
      start, from := SourcesBefore(inputs, n);
      from := TakeAccepted(inputs, n, start, from);
    }
  }

  /** The sources of what frame n, if accepted, keeps from before it. */
  lemma SourcesBefore(inputs: seq<Input>, n: nat) returns (start: nat, from: map<int, nat>)
    requires n == |inputs| - 1 && inputs[n].Received? && Parse(inputs[n].value).Ok?
    ensures var f := Parse(inputs[n].value).value;
            Sourced(inputs, n, KeyOf(f), Kept(After(inputs[..n]), f), start, from)
    decreases |inputs|, 0
  {
    hide Add, Parse;
    var a, f := After(inputs[..n]), Parse(inputs[n].value).value;
    if a.key == Some(KeyOf(f)) {
      start, from := StoredPartsHaveSources(inputs[..n]);
      Extend(inputs, n, n, KeyOf(f), a.parts, start, from);
    } else {
      start, from := n, map[];
    }
  }

  /** Facts about a stream's prefix hold of the stream. */
  lemma Extend(inputs: seq<Input>, n: nat, end: nat, key: Key, parts: Parts, start: nat, from: map<int, nat>)
    requires end <= n <= |inputs| && Sourced(inputs[..n], end, key, parts, start, from)
    ensures Sourced(inputs, end, key, parts, start, from)
  {
    hide Add, Parse;
    forall j | 0 <= j < n
      ensures inputs[j] == inputs[..n][j] && (inputs[j].Received? ==> AnswerAt(inputs, j) == AnswerAt(inputs[..n], j))
    {
      assert inputs[..n][..j] == inputs[..j];
    }
  }

  /** A refused frame is malformed or of the current key, so it does not break the stretch. */
  lemma SkipRefused(inputs: seq<Input>, n: nat, key: Key, parts: Parts, start: nat, from: map<int, nat>)
    requires n < |inputs| && Sourced(inputs, n, key, parts, start, from)
    requires inputs[n].Received? && AnswerAt(inputs, n).Rejected?
    requires (Parse(inputs[n].value).Ok? ==> KeyOf(Parse(inputs[n].value).value) == key)
    ensures Sourced(inputs, n + 1, key, parts, start, from)
  {
    hide Add, Parse;
  }

  lemma TakeAccepted(inputs: seq<Input>, n: nat, start: nat, from: map<int, nat>) returns (more: map<int, nat>)
    requires n < |inputs| && inputs[n].Received? && AnswerAt(inputs, n).Waiting? && Parse(inputs[n].value).Ok?
    requires var f := Parse(inputs[n].value).value;
             Sourced(inputs, n, KeyOf(f), Kept(After(inputs[..n]), f), start, from)
    ensures var f := Parse(inputs[n].value).value;
            Sourced(inputs, n + 1, KeyOf(f), Kept(After(inputs[..n]), f)[f.frameIndex := f.data], start, more)
  {
    hide Add, Parse;
    more := from[Parse(inputs[n].value).value.frameIndex := n];
  }

  /** Every message returned, in any stream, is the index-order concatenation of accepted fragments
      that share its header key and arrived since the last key change, reset or completed message. */
  lemma MessagesHaveSources(inputs: seq<Input>, k: nat)
    returns (start: nat, key: Key, parts: Parts, from: map<int, nat>)
    requires k < |inputs| && inputs[k].Received? && AnswerAt(inputs, k).Complete?
    ensures start <= k && Unbroken(inputs, start, k, key)
    ensures forall i :: 0 <= i < key.totalFrames ==>
              && i in parts && i in from && start <= from[i] <= k
              && AcceptedAs(inputs, from[i], key, i, parts[i])
    ensures var m := AnswerAt(inputs, k).message;
            && key.totalFrames >= 1
            && m == Message(key.version, key.encrypted, key.messageId, key.command, Join(parts, key.totalFrames))
  {
    hide Add, Parse, Unbroken, AcceptedAs, Sourced;
    var upto := inputs[..k + 1];
    assert upto[..k] == inputs[..k];
    Accepted(After(inputs[..k]), inputs[k].value);
    var f := Parse(inputs[k].value).value;
    key := KeyOf(f);
    start, from := SourcesBefore(upto, k);
    var kept := Kept(After(inputs[..k]), f);
    parts := kept[f.frameIndex := f.data];
    Extend(inputs, k + 1, k, key, kept, start, from);
    from := TakeLast(inputs, k, kept, start, from);
  }

  lemma TakeLast(inputs: seq<Input>, k: nat, kept: Parts, start: nat, from: map<int, nat>) returns (more: map<int, nat>)
    requires k < |inputs| && inputs[k].Received? && !AnswerAt(inputs, k).Rejected? && Parse(inputs[k].value).Ok?
    requires Sourced(inputs, k, KeyOf(Parse(inputs[k].value).value), kept, start, from)
    ensures var f := Parse(inputs[k].value).value;
            var parts := kept[f.frameIndex := f.data];
            start <= k && Unbroken(inputs, start, k, KeyOf(f)) && forall i :: i in parts ==>
              i in more && start <= more[i] <= k && AcceptedAs(inputs, more[i], KeyOf(f), i, parts[i])
  {
    hide Add, Parse;
    more := from[Parse(inputs[k].value).value.frameIndex := k];
  }
}
