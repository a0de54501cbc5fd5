/** Bluetooth provisioning frames: the four-byte bit-packed header, its parser, and the
    fragmentation of one message into at most fifteen frames. */
module BleFrames {
  import opened Outcomes

  datatype BleError =
    | InvalidCommand | InvalidMessageId | InvalidVersion | InvalidMtu | TooManyFrames
    | ShortFrame | ReservedMessageId | NoFrames | IndexOutside | LengthMismatch
    | ConflictingDuplicate

  datatype Frame = Frame(version: int, encrypted: bool, messageId: int, command: int,
                         totalFrames: int, frameIndex: int, data: seq<byte>)
  {
    /** The field ranges that the header can carry. */
    predicate Fits()
    {
      && 0 <= version <= 7 && 1 <= messageId <= 15 && 0 <= command <= 255
      && 0 <= frameIndex < totalFrames <= 15 && |data| <= 255
    }
  }

  datatype Message = Message(version: int, encrypted: bool, messageId: int, command: int, data: seq<byte>)

  function Bit(b: bool): int { if b then 1 else 0 }

  /** The header fields occupy disjoint bits, so sums of shifted fields are their bitwise or
      (PackedBits). */
  function Encode(f: Frame): seq<byte>
    requires f.Fits()
  {
    [f.version * 32 + Bit(f.encrypted) * 16 + f.messageId, f.command, f.totalFrames * 16 + f.frameIndex, |f.data|]
    + f.data
  }

  function Parse(frame: seq<byte>): Result<Frame, BleError>
  {
    if |frame| < 4 then Err(ShortFrame) else
      var control: int, command: int, sequence: int, dataLength: int := frame[0], frame[1], frame[2], frame[3];
      var totalFrames, frameIndex, messageId := sequence / 16, sequence % 16, control % 16;
      if messageId == 0 then Err(ReservedMessageId)
      else if totalFrames == 0 then Err(NoFrames)
      else if frameIndex >= totalFrames then Err(IndexOutside)
      else if |frame| != 4 + dataLength then Err(LengthMismatch)
      else Ok(Frame(control / 32 % 8, control / 16 % 2 == 1, messageId, command, totalFrames, frameIndex, frame[4..]))
  }

  /** The bits of the byte whose value is x. */
  function Bits(x: int): (c: bv8)
    requires 0 <= x < 256
    ensures c as int == x
  {
    if x == 0 then 0 else
      Successor(Bits(x - 1));
      Bits(x - 1) + 1
  }

  lemma Successor(c: bv8)
    requires c != 255
    ensures (c + 1) as int == c as int + 1
  {
  }

  /** The parser's divisions and remainders are the source's shifts and masks of the byte. */
  lemma HeaderBits(b: byte)
    ensures ((Bits(b) >> 5) & 7) as int == b as int / 32 % 8
    ensures Bits(b) & 0x10 != 0 <==> b as int / 16 % 2 == 1
    ensures (Bits(b) & 0x0f) as int == b as int % 16
    ensures (Bits(b) >> 4) as int == b as int / 16
  {
    hide Bits;
    ShiftRight5(Bits(b));
    ShiftRight4(Bits(b));
    LowNibble(Bits(b));
    Flag(Bits(b));
  }

  lemma ShiftRight5(c: bv8)
    ensures ((c >> 5) & 7) as int == c as int / 32 % 8
  {
  }

  lemma ShiftRight4(c: bv8)
    ensures (c >> 4) as int == c as int / 16
  {
  }

  lemma LowNibble(c: bv8)
    ensures (c & 0x0f) as int == c as int % 16
  {
  }

  lemma Flag(c: bv8)
    ensures c & 0x10 != 0 <==> c as int / 16 % 2 == 1
  {
  }

  lemma ShiftLeft4(c: bv8)
    requires c <= 15
    ensures (c << 4) as int == c as int * 16
  {
  }

  lemma ShiftLeft5(c: bv8)
    requires c <= 7
    ensures (c << 5) as int == c as int * 32
  {
  }

  /** Fields in disjoint bits: the bitwise or is the sum. */
  lemma OrIsSum(high: bv8, low: bv8)
    requires high & 0x0f == 0 && low <= 15
    ensures (high | low) as int == high as int + low as int
  {
  }

  lemma OrFlagIsSum(high: bv8, flag: bv8)
    requires high & 0x1f == 0 && (flag == 0 || flag == 0x10)
    ensures (high | flag) as int == high as int + flag as int
  {
  }

  lemma ControlBits(version: bv8, flag: bv8, id: bv8)
    requires version <= 7 && flag <= 1 && id <= 15
    ensures ((version << 5) | (flag << 4) | id) as int == version as int * 32 + flag as int * 16 + id as int
  {
    ShiftLeft5(version);
    ShiftLeft4(flag);
    OrFlagIsSum(version << 5, flag << 4);
    OrIsSum((version << 5) | (flag << 4), id);
  }

  lemma SequenceBits(count: bv8, index: bv8)
    requires count <= 15 && index <= 15
    ensures ((count << 4) | index) as int == count as int * 16 + index as int
  {
    ShiftLeft4(count);
    OrIsSum(count << 4, index);
  }

  /** A small integer is a small byte. */
  lemma AtMost(c: bv8, n: bv8)
    requires c as int <= n as int
    ensures c <= n
  {
  }

  lemma ControlByte(version: int, flag: int, id: int)
    requires 0 <= version <= 7 && 0 <= flag <= 1 && 0 <= id <= 15
    ensures ((Bits(version) << 5) | (Bits(flag) << 4) | Bits(id)) as int == version * 32 + flag * 16 + id
  {
    hide Bits;
    AtMost(Bits(version), 7);
    AtMost(Bits(flag), 1);
    AtMost(Bits(id), 15);
    ControlBits(Bits(version), Bits(flag), Bits(id));
  }

  lemma SequenceByte(count: int, index: int)
    requires 0 <= count <= 15 && 0 <= index <= 15
    ensures ((Bits(count) << 4) | Bits(index)) as int == count * 16 + index
  {
    hide Bits;
    AtMost(Bits(count), 15);
    AtMost(Bits(index), 15);
    SequenceBits(Bits(count), Bits(index));
  }

  /** The header bytes of a frame are the source's shifted fields, or'ed together: version, flag and
      message id in the first, count and index in the third. */
  lemma PackedBits(f: Frame)
    requires f.Fits()
    ensures Encode(f)[0] as int
         == ((Bits(f.version) << 5) | (Bits(Bit(f.encrypted)) << 4) | Bits(f.messageId)) as int
    ensures Encode(f)[2] as int == ((Bits(f.totalFrames) << 4) | Bits(f.frameIndex)) as int
  {
    hide Bits;
    ControlByte(f.version, Bit(f.encrypted), f.messageId);
    SequenceByte(f.totalFrames, f.frameIndex);
  }

  lemma ParseEncode(f: Frame)
    requires f.Fits()
    ensures Parse(Encode(f)) == Ok(f)
  {
    var frame := Encode(f);
    assert frame[4..] == f.data;
    var sequence: int := frame[2];
    assert sequence / 16 == f.totalFrames && sequence % 16 == f.frameIndex;
  }

  /** The parser accepts nothing but encodings, so a frame has one reading. */
  lemma EncodeParse(frame: seq<byte>)
    requires Parse(frame).Ok?
    ensures Parse(frame).value.Fits() && Encode(Parse(frame).value) == frame
  {
    var f := Parse(frame).value;
    var control: int := frame[0];
    assert control == control / 32 * 32 + control / 16 % 2 * 16 + control % 16;
    assert frame == frame[..4] + frame[4..];
  }

  // ----- fragmentation -----

  function Min(x: int, y: int): int { if x < y then x else y }

  function FrameCount(length: nat, capacity: nat): (count: nat)
    requires capacity > 0
    ensures count >= 1
  {
    if length == 0 then 1 else (length + capacity - 1) / capacity
  }

  /** What slice(index * capacity, (index + 1) * capacity) yields, clipped at the end. */
  function Piece(payload: seq<byte>, capacity: nat, index: nat): seq<byte>
    requires capacity > 0
  {
    var lo, hi := Min(index * capacity, |payload|), Min((index + 1) * capacity, |payload|);
    Bounds(index, capacity);
    payload[lo..hi]
  }

  lemma Bounds(index: nat, capacity: nat)
    ensures 0 <= index * capacity <= (index + 1) * capacity == index * capacity + capacity
  {
  }

  /** Frame number `index` of a message. */
  function FrameFor(m: Message, capacity: nat, count: nat, index: nat): Frame
    requires capacity > 0
  {
    Frame(m.version, m.encrypted, m.messageId, m.command, count, index, Piece(m.data, capacity, index))
  }

  predicate ValidMessage(m: Message)
  {
    0 <= m.command <= 255 && 1 <= m.messageId <= 15 && 0 <= m.version <= 7
  }

  function Fragment(m: Message, mtu: int): Result<seq<seq<byte>>, BleError>
  {
    if m.command < 0 || m.command > 255 then Err(InvalidCommand)
    else if m.messageId < 1 || m.messageId > 15 then Err(InvalidMessageId)
    else if m.version < 0 || m.version > 7 then Err(InvalidVersion)
    else if mtu < 5 || mtu > 256 then Err(InvalidMtu)
    else
      var capacity := mtu - 4;
      var count := FrameCount(|m.data|, capacity);
      if count > 15 then Err(TooManyFrames)
      else
        Ok(seq(count, index requires 0 <= index < count =>
          FrameFits(m, capacity, count, index);
          Encode(FrameFor(m, capacity, count, index))))
  }

  lemma FrameFits(m: Message, capacity: nat, count: nat, index: nat)
    requires ValidMessage(m) && 0 < capacity <= 252 && index < count <= 15
    ensures FrameFor(m, capacity, count, index).Fits()
  {
    Bounds(index, capacity);
  }

  lemma CountAtMost(length: nat, capacity: nat, k: nat)
    requires capacity > 0 && k >= 1
    ensures FrameCount(length, capacity) <= k <==> length <= k * capacity
  {
    if length > 0 {
      var q := (length + capacity - 1) / capacity;
      assert q * capacity <= length + capacity - 1 < q * capacity + capacity;
      if q > k { Grow(k + 1, q, capacity); } else { Grow(q, k, capacity); }
    }
  }

  lemma Grow(x: nat, y: nat, capacity: nat)
    requires x <= y
    ensures x * capacity <= y * capacity
  {
  }

  /** A message fits exactly when fifteen full frames can hold it. */
  lemma FragmentAccepts(m: Message, mtu: int)
    ensures Fragment(m, mtu).Ok? <==> ValidMessage(m) && 5 <= mtu <= 256 && |m.data| <= 15 * (mtu - 4)
    ensures ValidMessage(m) && 5 <= mtu <= 256 && |m.data| > 15 * (mtu - 4) ==> Fragment(m, mtu) == Err(TooManyFrames)
  {
    hide FrameCount, FrameFor;
    if 5 <= mtu <= 256 { CountAtMost(|m.data|, mtu - 4, 15); }
  }

  /** Why a message is refused: the first of its fields that is out of range, else its length. */
  lemma FragmentRefuses(m: Message, mtu: int)
    requires Fragment(m, mtu).Err?
    ensures Fragment(m, mtu).error
         == if !(0 <= m.command < 256) then InvalidCommand
            else if !(0 < m.messageId < 16) then InvalidMessageId
            else if !(0 <= m.version < 8) then InvalidVersion
            else if !(5 <= mtu <= 256) then InvalidMtu
            else TooManyFrames
  {
  }

  /** Why a frame is refused, from the bits of its header. */
  lemma ParseRefuses(frame: seq<byte>)
    requires Parse(frame).Err?
    ensures Parse(frame).error == ShortFrame <==> |frame| < 4
    ensures |frame| >= 4 ==>
              Parse(frame).error
              == if Bits(frame[0]) & 0x0f == 0 then ReservedMessageId
                 else if Bits(frame[2]) >> 4 == 0 then NoFrames
                 else if (Bits(frame[2]) & 0x0f) as int >= (Bits(frame[2]) >> 4) as int then IndexOutside
                 else LengthMismatch
  {
    hide Bits;
    if |frame| >= 4 {
      HeaderBits(frame[0]);
      HeaderBits(frame[2]);
    }
  }

  /** Every fragment parses back to its own frame. */
  lemma FragmentParses(m: Message, mtu: int, index: nat)
    requires Fragment(m, mtu).Ok? && index < |Fragment(m, mtu).value|
    ensures var count := FrameCount(|m.data|, mtu - 4);
            && |Fragment(m, mtu).value| == count <= 15
            && Parse(Fragment(m, mtu).value[index]) == Ok(FrameFor(m, mtu - 4, count, index))
  {
    var count := FrameCount(|m.data|, mtu - 4);
    FrameFits(m, mtu - 4, count, index);
    ParseEncode(FrameFor(m, mtu - 4, count, index));
  }

  /** The first n pieces, joined in index order. */
  ghost function Pieces(payload: seq<byte>, capacity: nat, n: nat): seq<byte>
    requires capacity > 0
  {
    if n == 0 then [] else Pieces(payload, capacity, n - 1) + Piece(payload, capacity, n - 1)
  }

  lemma {:induction false} PiecesArePrefix(payload: seq<byte>, capacity: nat, n: nat)
    requires capacity > 0
    ensures Pieces(payload, capacity, n) == payload[..Min(n * capacity, |payload|)]
  {
    if n > 0 {
      PiecesArePrefix(payload, capacity, n - 1);
      Bounds(n - 1, capacity);
    }
  }

  lemma PiecesRestorePayload(payload: seq<byte>, capacity: nat)
    requires capacity > 0
    ensures Pieces(payload, capacity, FrameCount(|payload|, capacity)) == payload
  {
    hide FrameCount, Pieces, Piece;
    var count := FrameCount(|payload|, capacity);
    PiecesArePrefix(payload, capacity, count);
    CountAtMost(|payload|, capacity, count);
  }
}
