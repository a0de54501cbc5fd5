/** The bounded reader for classic raw-IPv4 captures: file format, record budget and the order of
    timestamps, which are binary64 numbers. */
module Pcap {
  import opened Outcomes
  import opened Timestamps

  const MAX_FILE := 64 * 1024 * 1024
  const MAX_PACKET := 65535
  const MAX_RECORDS := 100_000

  datatype PcapError = NotRegularOrTooLarge | BadHeader | UnsupportedFormat | TruncatedRecord
                     | OverBudget | TruncatedPacket | ClockBackwards

  // ----- integers on the wire -----

  predicate IsU16(v: int) { 0 <= v < 0x1_0000 }

  predicate IsU32(v: int) { 0 <= v < 0x1_0000_0000 }

  function U16(big: bool, b: seq<byte>): (v: int)
    requires |b| == 2
    ensures IsU16(v)
  {
    var x: int, y: int := b[0], b[1];
    if big then x * 256 + y else y * 256 + x
  }

  function U32(big: bool, b: seq<byte>): (v: int)
    requires |b| == 4
    ensures IsU32(v)
  {
    if big then U16(big, b[..2]) * 0x1_0000 + U16(big, b[2..]) else U16(big, b[2..]) * 0x1_0000 + U16(big, b[..2])
  }

  function Put16(big: bool, v: int): (b: seq<byte>)
    requires IsU16(v)
    ensures |b| == 2
  {
    if big then [v / 256, v % 256] else [v % 256, v / 256]
  }

  function Put32(big: bool, v: int): (b: seq<byte>)
    requires IsU32(v)
    ensures |b| == 4
  {
    if big then Put16(big, v / 0x1_0000) + Put16(big, v % 0x1_0000)
    else Put16(big, v % 0x1_0000) + Put16(big, v / 0x1_0000)
  }

  lemma Get16(big: bool, v: int)
    requires IsU16(v)
    ensures U16(big, Put16(big, v)) == v
  {
  }

  lemma Get32(big: bool, v: int)
    requires IsU32(v)
    ensures U32(big, Put32(big, v)) == v
  {
    var hi, lo := v / 0x1_0000, v % 0x1_0000;
    Get16(big, hi);
    Get16(big, lo);
    var b := Put32(big, v);
    assert b[..2] == Put16(big, if big then hi else lo) && b[2..] == Put16(big, if big then lo else hi);
  }

  lemma Same16(big: bool, b: seq<byte>)
    requires |b| == 2
    ensures Put16(big, U16(big, b)) == b
  {
  }

  lemma Same32(big: bool, b: seq<byte>)
    requires |b| == 4
    ensures Put32(big, U32(big, b)) == b
  {
    Same16(big, b[..2]);
    Same16(big, b[2..]);
    assert b == b[..2] + b[2..];
    var hi, lo := U16(big, if big then b[..2] else b[2..]), U16(big, if big then b[2..] else b[..2]);
    assert U32(big, b) / 0x1_0000 == hi && U32(big, b) % 0x1_0000 == lo;
  }

  // ----- file format -----

  /** Byte order and timestamp precision, as the magic number announces them. */
  datatype Layout = Layout(big: bool, precision: int)

  function Magic(l: Layout): seq<byte>
  {
    if l.precision == 1_000_000 then
      if l.big then [0xa1, 0xb2, 0xc3, 0xd4] else [0xd4, 0xc3, 0xb2, 0xa1]
    else
      if l.big then [0xa1, 0xb2, 0x3c, 0x4d] else [0x4d, 0x3c, 0xb2, 0xa1]
  }

  function LayoutOf(magic: seq<byte>): Option<Layout>
  {
    if magic == [0xd4, 0xc3, 0xb2, 0xa1] then Some(Layout(false, 1_000_000))
    else if magic == [0xa1, 0xb2, 0xc3, 0xd4] then Some(Layout(true, 1_000_000))
    else if magic == [0x4d, 0x3c, 0xb2, 0xa1] then Some(Layout(false, 1_000_000_000))
    else if magic == [0xa1, 0xb2, 0x3c, 0x4d] then Some(Layout(true, 1_000_000_000))
    else None
  }

  datatype Header = Header(layout: Layout, zone: int, sigfigs: int, snaplen: int, link: int)
  {
    predicate Supported()
    {
      && (layout.precision == 1_000_000 || layout.precision == 1_000_000_000)
      && IsU32(zone) && IsU32(sigfigs) && 1 <= snaplen <= 65535 && (link == 101 || link == 228)
    }
  }

  datatype Record = Record(seconds: int, fraction: int, original: int, body: seq<byte>)
  {
    predicate Fits(h: Header)
    {
      && IsU32(seconds) && 0 <= fraction < h.layout.precision && IsU32(original)
      && |body| <= h.snaplen && |body| <= original
    }

    function Time(l: Layout): Time { Timestamps.Time(seconds, fraction, l.precision) }

    /** The timestamp in units of the file's precision. */
    function Ticks(h: Header): int { Time(h.layout).Ticks() }

    /** The timestamp as it is compared and yielded. */
    function Stamp(h: Header): real
      requires h.Supported() && Fits(h)
    {
      Time(h.layout).Stamp()
    }
  }

  /** What the reader yields for a record. */
  datatype Stamped = Stamped(timestamp: real, body: seq<byte>)

  function PutHeader(h: Header): (b: seq<byte>)
    requires h.Supported()
    ensures |b| == 24
  {
    var big := h.layout.big;
    Magic(h.layout) + Put16(big, 2) + Put16(big, 4) + Put32(big, h.zone) + Put32(big, h.sigfigs)
    + Put32(big, h.snaplen) + Put32(big, h.link)
  }

  function PutFields(big: bool, seconds: int, fraction: int, captured: int, original: int): (b: seq<byte>)
    requires IsU32(seconds) && IsU32(fraction) && IsU32(captured) && IsU32(original)
    ensures |b| == 16
  {
    Put32(big, seconds) + Put32(big, fraction) + Put32(big, captured) + Put32(big, original)
  }

  function PutRecord(h: Header, r: Record): seq<byte>
    requires h.Supported() && r.Fits(h)
  {
    PutFields(h.layout.big, r.seconds, r.fraction, |r.body|, r.original) + r.body
  }

  ghost predicate AllFit(h: Header, rs: seq<Record>) { forall i :: 0 <= i < |rs| ==> rs[i].Fits(h) }

  ghost function PutRecords(h: Header, rs: seq<Record>): seq<byte>
    requires h.Supported() && AllFit(h, rs)
  {
    if rs == [] then [] else PutRecord(h, rs[0]) + PutRecords(h, rs[1..])
  }

  ghost function Yields(h: Header, rs: seq<Record>): (ps: seq<Stamped>)
    requires h.Supported() && AllFit(h, rs)
    ensures |ps| == |rs|
  {
    seq(|rs|, i requires 0 <= i < |rs| && h.Supported() && rs[i].Fits(h) => Stamped(rs[i].Stamp(h), rs[i].body))
  }

  /** The order that the reader checks: of timestamps. */
  ghost predicate Ordered(h: Header, rs: seq<Record>, previous: real)
    requires h.Supported() && AllFit(h, rs)
  {
    rs == [] || (previous <= rs[0].Stamp(h) && Ordered(h, rs[1..], rs[0].Stamp(h)))
  }

  /** The order of the times themselves. */
  ghost predicate TicksOrdered(h: Header, rs: seq<Record>)
  {
    forall i, j :: 0 <= i <= j < |rs| ==> rs[i].Ticks(h) <= rs[j].Ticks(h)
  }

  // ----- the reader -----

  function ReadHeader(file: seq<byte>): Result<Header, PcapError>
  {
    if |file| < 24 || LayoutOf(file[..4]).None? then Err(BadHeader) else
      var layout := LayoutOf(file[..4]).value;
      var big := layout.big;
      var h := Header(layout, U32(big, file[8..12]), U32(big, file[12..16]),
                     U32(big, file[16..20]), U32(big, file[20..24]));
      if (U16(big, file[4..6]), U16(big, file[6..8])) != (2, 4) || (h.link != 101 && h.link != 228)
         || !(1 <= h.snaplen <= MAX_PACKET)
      then Err(UnsupportedFormat)
      else Ok(h)
  }

  /** The next record of `rest`, given how many were read, how many bytes they took, and the last
      timestamp. */
  function ReadRecord(h: Header, rest: seq<byte>, records: nat, consumed: nat, previous: real)
    : (next: Result<Record, PcapError>)
    requires h.Supported()
    ensures next.Ok? ==> next.value.Fits(h) && 16 + |next.value.body| <= |rest|
  {
    if |rest| < 16 then Err(TruncatedRecord) else
      var big := h.layout.big;
      var seconds, fraction := U32(big, rest[..4]), U32(big, rest[4..8]);
      var captured, original := U32(big, rest[8..12]), U32(big, rest[12..16]);
      if captured > h.snaplen || captured > original || fraction >= h.layout.precision
         || records + 1 > MAX_RECORDS || consumed + 16 + captured > MAX_FILE
      then Err(OverBudget)
      else if |rest| < 16 + captured then Err(TruncatedPacket)
      else
        var r := Record(seconds, fraction, original, rest[16..16 + captured]);
        if r.Stamp(h) < previous then Err(ClockBackwards) else Ok(r)
  }

  /** The records that the generator reads from `rest`, and the error that ended it, if any. */
  ghost function ReadRecords(h: Header, rest: seq<byte>, records: nat, consumed: nat, previous: real)
    : (read: (seq<Record>, Option<PcapError>))
    requires h.Supported()
    ensures AllFit(h, read.0)
    decreases |rest|
  {
    hide ReadRecord, Time.Stamp;
    if rest == [] then ([], None) else
      var next := ReadRecord(h, rest, records, consumed, previous);
      if next.Err? then ([], Some(next.error)) else
        var r := next.value;
        var (more, error) :=
          ReadRecords(h, rest[16 + |r.body|..], records + 1, consumed + 16 + |r.body|, r.Stamp(h));
        ([r] + more, error)
  }

  /** One turn of the reader loop: a record read joins those yielded before it. */
  lemma YieldOne(h: Header, rest: seq<byte>, records: nat, consumed: nat, previous: real, yielded: seq<Stamped>)
    requires h.Supported() && rest != []
    ensures ReadRecord(h, rest, records, consumed, previous).Ok? ==>
              var r := ReadRecord(h, rest, records, consumed, previous).value;
              var now := ReadRecords(h, rest, records, consumed, previous);
              var next := ReadRecords(h, rest[16 + |r.body|..], records + 1, consumed + 16 + |r.body|, r.Stamp(h));
              && yielded + Yields(h, now.0) == yielded + [Stamped(r.Stamp(h), r.body)] + Yields(h, next.0)
              && now.1 == next.1
  {
    hide ReadRecord, Record.Fits, Record.Stamp, Yields, AllFit;
    if ReadRecord(h, rest, records, consumed, previous).Ok? {
      var r := ReadRecord(h, rest, records, consumed, previous).value;
      var next := ReadRecords(h, rest[16 + |r.body|..], records + 1, consumed + 16 + |r.body|, r.Stamp(h)).0;
      YieldsCons(h, r, next, yielded);
    }
  }

  lemma YieldsCons(h: Header, r: Record, more: seq<Record>, yielded: seq<Stamped>)
    requires h.Supported() && r.Fits(h) && AllFit(h, more)
    ensures AllFit(h, [r] + more)
    ensures yielded + Yields(h, [r] + more) == yielded + [Stamped(r.Stamp(h), r.body)] + Yields(h, more)
  {
    hide Record.Fits, Record.Stamp;
  }

  /** The reader: what it yields and how it ends is as specified for every file, and timestamps never
      decrease; a file it accepts is exactly its header followed by the records read, in budget. */
  method Packets(file: seq<byte>, regular: bool)
    returns (yielded: seq<Stamped>, error: Option<PcapError>)
    ensures !regular || |file| > 64 * 0x10_0000 ==> yielded == [] && error == Some(NotRegularOrTooLarge)
    ensures regular && |file| <= 64 * 0x10_0000 ==>
              match ReadHeader(file)
              case Err(e) => yielded == [] && error == Some(e)
              case Ok(h) =>
                && h.Supported()
                && var (records, ended) := ReadRecords(h, file[24..], 0, 24, 0.0);
                   yielded == Yields(h, records) && error == ended
    ensures forall i, j :: 0 <= i <= j < |yielded| ==> 0.0 <= yielded[i].timestamp <= yielded[j].timestamp
    ensures error.None? ==>
              && ReadHeader(file).Ok?
              && var h := ReadHeader(file).value;
                 && h.Supported() && |yielded| <= 100_000
                 && file == PutHeader(h) + PutRecords(h, ReadRecords(h, file[24..], 0, 24, 0.0).0)
  {
    hide ReadHeader, ReadRecord, ReadRecords, PutHeader, PutRecords, Ordered, AllFit, Time.Stamp;
    yielded := [];
    if !regular || |file| > MAX_FILE { error := Some(NotRegularOrTooLarge); return; }
    var header := ReadHeader(file);
    if header.Err? { error := Some(header.error); return; }
    var h := header.value;
    HeaderSupported(file);
    yielded, error := ReadAll(h, file[24..]);
    ghost var records := ReadRecords(h, file[24..], 0, 24, 0.0).0;
    YieldedExactly(h, file[24..], 0, 24, 0.0);
    OrderedThroughout(h, records, 0.0);
    if error.None? { AcceptedFile(file); }
  }

  /** The reader's loop over the records. */
  method ReadAll(h: Header, file: seq<byte>) returns (yielded: seq<Stamped>, error: Option<PcapError>)
    requires h.Supported()
    ensures var (records, ended) := ReadRecords(h, file, 0, 24, 0.0);
            yielded == Yields(h, records) && error == ended
  {
    hide ReadRecord, Time.Stamp;
    var rest, consumed: nat, records: nat, previous := file, 24, 0, 0.0;
    yielded, error := [], None;
    ghost var all := ReadRecords(h, file, 0, 24, 0.0);
    while rest != []
      invariant Yields(h, all.0) == yielded + Yields(h, ReadRecords(h, rest, records, consumed, previous).0)
      invariant all.1 == ReadRecords(h, rest, records, consumed, previous).1
      decreases |rest|
    {
      var next := ReadRecord(h, rest, records, consumed, previous);
      if next.Err? {
        assert yielded + [] == yielded;
        return yielded, Some(next.error);
      }
      var r := next.value;
      YieldOne(h, rest, records, consumed, previous, yielded);
      yielded := yielded + [Stamped(r.Stamp(h), r.body)];
      records, consumed, previous := records + 1, consumed + 16 + |r.body|, r.Stamp(h);
      rest := rest[16 + |r.body|..];
    }
    assert yielded + [] == yielded;
  }

  /** Ordered step by step is ordered throughout. */
  lemma {:induction false} OrderedThroughout(h: Header, rs: seq<Record>, previous: real)
    requires h.Supported() && AllFit(h, rs) && Ordered(h, rs, previous)
    ensures forall i, j :: 0 <= i <= j < |rs| ==> previous <= rs[i].Stamp(h) <= rs[j].Stamp(h)
    decreases |rs|
  {
    hide Time.Stamp;
    if rs != [] {
      var rest := rs[1..];
      OrderedThroughout(h, rest, rs[0].Stamp(h));
      assert forall i :: 1 <= i < |rs| ==> rs[i] == rest[i - 1];
    }
  }

  /** A file read without an error is its header and its records, and nothing else. */
  lemma AcceptedFile(file: seq<byte>)
    requires ReadHeader(file).Ok? && |file| >= 24 && ReadHeader(file).value.Supported()
    requires ReadRecords(ReadHeader(file).value, file[24..], 0, 24, 0.0).1.None?
    ensures var h := ReadHeader(file).value;
            var rs := ReadRecords(h, file[24..], 0, 24, 0.0).0;
            AllFit(h, rs) && |rs| <= MAX_RECORDS && file == PutHeader(h) + PutRecords(h, rs)
  {
    HeaderExact(file);
    YieldedExactly(ReadHeader(file).value, file[24..], 0, 24, 0.0);
    hide ReadHeader, PutHeader, ReadRecords, PutRecords;
    assert file == file[..24] + file[24..];
  }

  /** Why a file is refused at its header: no classic capture, or not version 2.4 of raw IPv4 with packets
      of at most 65535 bytes. */
  lemma HeaderRefused(file: seq<byte>)
    requires ReadHeader(file).Err?
    ensures ReadHeader(file).error
         == if |file| < 24 || file[..4] !in {[0xd4, 0xc3, 0xb2, 0xa1], [0xa1, 0xb2, 0xc3, 0xd4],
                                              [0x4d, 0x3c, 0xb2, 0xa1], [0xa1, 0xb2, 0x3c, 0x4d]}
            then BadHeader else UnsupportedFormat
  {
  }

  /** Why a record is refused, from what a writer put there: `captured` bytes of a packet of `original`
      bytes at some time, after so many records and bytes, followed by `rest`. */
  lemma RecordRefused(h: Header, seconds: int, fraction: int, captured: int, original: int, rest: seq<byte>,
                      records: nat, consumed: nat, previous: real)
    requires h.Supported() && IsU32(seconds) && IsU32(fraction) && IsU32(captured) && IsU32(original)
    ensures var b := PutFields(h.layout.big, seconds, fraction, captured, original) + rest;
            var next := ReadRecord(h, b, records, consumed, previous);
            var over := captured > h.snaplen || captured > original || fraction >= h.layout.precision
                        || records >= 100_000 || consumed + 16 + captured > 64 * 0x10_0000;
            && (next == Err(OverBudget) <==> over)
            && (next == Err(TruncatedPacket) <==> !over && |rest| < captured)
            && (next == Err(ClockBackwards) <==>
                  && !over && |rest| >= captured
                  && Timestamps.Time(seconds, fraction, h.layout.precision).Stamp() < previous)
            && next != Err(TruncatedRecord)
  {
    hide U32, Put32, PutFields, Time.Stamp;
    FieldsRoundTrip(h.layout.big, seconds, fraction, captured, original, rest);
  }

  lemma HeaderSupported(file: seq<byte>)
    requires ReadHeader(file).Ok?
    ensures |file| >= 24 && ReadHeader(file).value.Supported()
  {
  }

  // ----- both directions -----

  lemma HeaderRoundTrip(h: Header, rest: seq<byte>)
    requires h.Supported()
    ensures ReadHeader(PutHeader(h) + rest) == Ok(h)
  {
    hide Put16, Put32, U16, U32;
    var file, big := PutHeader(h) + rest, h.layout.big;
    assert file[..4] == Magic(h.layout) && LayoutOf(file[..4]) == Some(h.layout);
    assert file[4..6] == Put16(big, 2) && file[6..8] == Put16(big, 4);
    assert file[8..12] == Put32(big, h.zone) && file[12..16] == Put32(big, h.sigfigs);
    assert file[16..20] == Put32(big, h.snaplen) && file[20..24] == Put32(big, h.link);
    Get16(big, 2); Get16(big, 4);
    Get32(big, h.zone); Get32(big, h.sigfigs); Get32(big, h.snaplen); Get32(big, h.link);
  }

  /** An accepted header is the encoding of what was read from it. */
  lemma HeaderExact(file: seq<byte>)
    requires ReadHeader(file).Ok?
    ensures ReadHeader(file).value.Supported() && file[..24] == PutHeader(ReadHeader(file).value)
  {
    hide Put16, Put32, U16, U32;
    var h := ReadHeader(file).value;
    var big := h.layout.big;
    Same16(big, file[4..6]); Same16(big, file[6..8]);
    Same32(big, file[8..12]); Same32(big, file[12..16]); Same32(big, file[16..20]); Same32(big, file[20..24]);
    assert file[..24] == file[..4] + file[4..6] + file[6..8] + file[8..12] + file[12..16] + file[16..20] + file[20..24];
    assert Magic(h.layout) == file[..4];
  }

  lemma FieldsRoundTrip(big: bool, seconds: int, fraction: int, captured: int, original: int, rest: seq<byte>)
    requires IsU32(seconds) && IsU32(fraction) && IsU32(captured) && IsU32(original)
    ensures var b := PutFields(big, seconds, fraction, captured, original) + rest;
            && U32(big, b[..4]) == seconds && U32(big, b[4..8]) == fraction
            && U32(big, b[8..12]) == captured && U32(big, b[12..16]) == original
  {
    hide Put32, U32;
    var b := PutFields(big, seconds, fraction, captured, original) + rest;
    assert b[..4] == Put32(big, seconds) && b[4..8] == Put32(big, fraction);
    assert b[8..12] == Put32(big, captured) && b[12..16] == Put32(big, original);
    Get32(big, seconds); Get32(big, fraction); Get32(big, captured); Get32(big, original);
  }

  lemma RecordRoundTrip(h: Header, r: Record, rest: seq<byte>, records: nat, consumed: nat, previous: real)
    requires h.Supported() && r.Fits(h)
    requires records < MAX_RECORDS && consumed + 16 + |r.body| <= MAX_FILE
    ensures var b := PutRecord(h, r) + rest;
            && ReadRecord(h, b, records, consumed, previous)
               == (if r.Stamp(h) < previous then Err(ClockBackwards) else Ok(r))
            && b[16 + |r.body|..] == rest
  {
    hide U32, Put32, PutFields, Time.Stamp;
    var b := PutRecord(h, r) + rest;
    FieldsRoundTrip(h.layout.big, r.seconds, r.fraction, |r.body|, r.original, r.body + rest);
    assert b == PutFields(h.layout.big, r.seconds, r.fraction, |r.body|, r.original) + (r.body + rest);
    assert b[16..16 + |r.body|] == r.body;
  }

  lemma RecordExact(h: Header, rest: seq<byte>, records: nat, consumed: nat, previous: real)
    requires h.Supported()
    ensures ReadRecord(h, rest, records, consumed, previous).Ok? ==>
              var r := ReadRecord(h, rest, records, consumed, previous).value;
              && previous <= r.Stamp(h) && rest[..16 + |r.body|] == PutRecord(h, r)
              && records < MAX_RECORDS && consumed + 16 + |r.body| <= MAX_FILE
  {
    hide Put32, U32, Time.Stamp;
    if ReadRecord(h, rest, records, consumed, previous).Ok? {
      var big := h.layout.big;
      var r := ReadRecord(h, rest, records, consumed, previous).value;
      Same32(big, rest[..4]); Same32(big, rest[4..8]); Same32(big, rest[8..12]); Same32(big, rest[12..16]);
      assert rest[..16] == rest[..4] + rest[4..8] + rest[8..12] + rest[12..16];
      assert rest[..16 + |r.body|] == rest[..16] + r.body;
    }
  }

  lemma {:induction false} RecordsRoundTrip(h: Header, rs: seq<Record>, records: nat, consumed: nat, previous: real)
    requires h.Supported() && AllFit(h, rs) && Ordered(h, rs, previous)
    requires records + |rs| <= MAX_RECORDS && consumed + |PutRecords(h, rs)| <= MAX_FILE
    ensures ReadRecords(h, PutRecords(h, rs), records, consumed, previous) == (rs, None)
    decreases |rs|
  {
    hide ReadRecord, PutFields, Time.Stamp;
    if rs != [] {
      var r := rs[0];
      var rest := PutRecords(h, rs[1..]);
      RecordRoundTrip(h, r, rest, records, consumed, previous);
      RecordsRoundTrip(h, rs[1..], records + 1, consumed + 16 + |r.body|, r.Stamp(h));
      assert rs == [r] + rs[1..];
    }
  }

  ghost predicate InBudget(h: Header, rs: seq<Record>)
    requires h.Supported()
  {
    AllFit(h, rs) && |rs| <= 100_000 && 24 + |PutRecords(h, rs)| <= 64 * 0x10_0000
  }

  /** The reader reads exactly these records from their encoding, to its end. */
  ghost predicate Readable(h: Header, rs: seq<Record>)
    requires h.Supported()
  {
    && InBudget(h, rs)
    && var file := PutHeader(h) + PutRecords(h, rs);
       ReadHeader(file) == Ok(h) && ReadRecords(h, file[24..], 0, 24, 0.0) == (rs, None)
  }

  /** Decoding the encoding of an in-budget record list, in either byte order and precision, returns
      exactly that list, if and only if its timestamps are in order. */
  lemma ReadableExactly(h: Header, rs: seq<Record>)
    requires h.Supported() && InBudget(h, rs)
    ensures Readable(h, rs) <==> Ordered(h, rs, 0.0)
  {
    hide ReadHeader, PutHeader, Ordered, ReadRecords, PutRecords;
    HeaderRoundTrip(h, PutRecords(h, rs));
    var body := (PutHeader(h) + PutRecords(h, rs))[24..];
    assert body == PutRecords(h, rs);
    YieldedExactly(h, body, 0, 24, 0.0);
    if Ordered(h, rs, 0.0) { RecordsRoundTrip(h, rs, 0, 24, 0.0); }
  }

  /** In particular every list in order of time comes back. */
  lemma FileRoundTrip(h: Header, rs: seq<Record>)
    requires h.Supported() && InBudget(h, rs) && TicksOrdered(h, rs)
    ensures Readable(h, rs)
  {
    hide Readable, Time.Stamp;
    ReadableExactly(h, rs);
    forall i, j | 0 <= i <= j < |rs|
      ensures 0.0 <= rs[i].Stamp(h) <= rs[j].Stamp(h)
    {
      StampNotNegative(h, rs[i]);
      assert rs[i].Ticks(h) <= rs[j].Ticks(h);
      StampsKeepOrder(rs[i].Time(h.layout), rs[j].Time(h.layout));
    }
    OrderedStepwise(h, rs, 0.0);
  }

  lemma StampNotNegative(h: Header, r: Record)
    requires h.Supported() && r.Fits(h)
    ensures 0.0 <= r.Stamp(h)
  {
    NotNegative(r.Time(h.layout));
  }

  lemma {:induction false} OrderedStepwise(h: Header, rs: seq<Record>, previous: real)
    requires h.Supported() && AllFit(h, rs)
    requires forall i, j :: 0 <= i <= j < |rs| ==> previous <= rs[i].Stamp(h) <= rs[j].Stamp(h)
    ensures Ordered(h, rs, previous)
    decreases |rs|
  {
    hide Record.Stamp;
    if rs != [] {
      var rest := rs[1..];
      assert forall i :: 0 <= i < |rest| ==> rest[i] == rs[i + 1];
      OrderedStepwise(h, rest, rs[0].Stamp(h));
    }
  }

  /** Whatever the file, the records read before the end or the error are in budget, in order of
      timestamps, and are exactly the bytes they were read from; without an error they are the whole
      file. */
  lemma {:induction false} YieldedExactly(h: Header, rest: seq<byte>, records: nat, consumed: nat, previous: real)
    requires h.Supported()
    ensures var (rs, error) := ReadRecords(h, rest, records, consumed, previous);
            && Ordered(h, rs, previous)
            && PutRecords(h, rs) <= rest && (error.None? <==> PutRecords(h, rs) == rest)
            && (records <= MAX_RECORDS ==> records + |rs| <= MAX_RECORDS)
            && (consumed <= MAX_FILE ==> consumed + |PutRecords(h, rs)| <= MAX_FILE)
    decreases |rest|
  {
    hide ReadRecord, PutFields, Time.Stamp;
    if rest != [] && ReadRecord(h, rest, records, consumed, previous).Ok? {
      var r := ReadRecord(h, rest, records, consumed, previous).value;
      RecordExact(h, rest, records, consumed, previous);
      var after := rest[16 + |r.body|..];
      YieldedExactly(h, after, records + 1, consumed + 16 + |r.body|, r.Stamp(h));
      var rs := ReadRecords(h, rest, records, consumed, previous).0;
      assert rs[1..] == ReadRecords(h, after, records + 1, consumed + 16 + |r.body|, r.Stamp(h)).0;
      assert rest == PutRecord(h, r) + after;
    }
  }

  // ----- order of timestamps and order of times -----

  /** The records of an accepted file are in order of time if they are in microseconds; in nanoseconds
      no later record is more than 476 ns earlier than one before it. */
  lemma AcceptedAlmostInOrder(h: Header, rs: seq<Record>)
    requires h.Supported() && Readable(h, rs)
    ensures h.layout.precision == MICROSECONDS ==> TicksOrdered(h, rs)
    ensures forall i, j :: 0 <= i <= j < |rs| ==> rs[j].Ticks(h) >= rs[i].Ticks(h) - 476
  {
    hide Readable, Time.Stamp;
    assert InBudget(h, rs) by { InBudgetOf(h, rs); }
    ReadableExactly(h, rs);
    OrderedThroughout(h, rs, 0.0);
    forall i, j | 0 <= i <= j < |rs|
      ensures rs[j].Ticks(h) >= rs[i].Ticks(h) - 476
      ensures h.layout.precision == MICROSECONDS ==> rs[i].Ticks(h) <= rs[j].Ticks(h)
    {
      if h.layout.precision == MICROSECONDS {
        StampsOrderTicks(rs[i].Time(h.layout), rs[j].Time(h.layout));
      } else {
        StampsAlmostOrder(rs[i].Time(h.layout), rs[j].Time(h.layout));
      }
    }
  }

  lemma InBudgetOf(h: Header, rs: seq<Record>)
    requires h.Supported() && Readable(h, rs)
    ensures InBudget(h, rs)
  {
  }

  ghost predicate SameTimes(rs: seq<Record>, rs': seq<Record>)
  {
    && |rs| == |rs'|
    && forall i :: 0 <= i < |rs| ==>
         rs[i].seconds == rs'[i].seconds && rs[i].fraction == rs'[i].fraction && rs[i].body == rs'[i].body
  }

  /** What is yielded in microseconds, or in the first 2^23 seconds, still tells every time apart. */
  lemma YieldsIdentifyTimes(h: Header, rs: seq<Record>, rs': seq<Record>)
    requires h.Supported() && AllFit(h, rs) && AllFit(h, rs')
    requires h.layout.precision == MICROSECONDS || (Before(rs, 0x80_0000) && Before(rs', 0x80_0000))
    ensures Yields(h, rs) == Yields(h, rs') <==> SameTimes(rs, rs')
  {
    hide Time.Stamp;
    var ps, ps' := Yields(h, rs), Yields(h, rs');
    if ps == ps' {
      forall i | 0 <= i < |rs|
        ensures rs[i].seconds == rs'[i].seconds && rs[i].fraction == rs'[i].fraction && rs[i].body == rs'[i].body
      {
        assert ps[i] == ps'[i];
        var a, b := rs[i].Time(h.layout), rs'[i].Time(h.layout);
        StampsOrderTicks(a, b);
        StampsOrderTicks(b, a);
        TicksCompare(a, b);
        TicksCompare(b, a);
      }
    }
    if SameTimes(rs, rs') {
      assert forall i :: 0 <= i < |rs| ==> ps[i] == ps'[i];
    }
  }

  ghost predicate Before(rs: seq<Record>, bound: int) { forall i :: 0 <= i < |rs| ==> rs[i].seconds < bound }

  ghost predicate KeepsTime(h: Header, bound: int)
    requires h.Supported()
  {
    forall rs :: Readable(h, rs) && Before(rs, bound) ==> TicksOrdered(h, rs)
  }

  /** A file accepted in nanoseconds is in order of time for certain up to 2^23 seconds, and not beyond:
      whatever later bound is set on the seconds, some accepted file below it is out of order. */
  lemma NanosecondFilesKeepTime(h: Header, bound: int)
    requires h.Supported() && h.layout.precision == NANOSECONDS
    ensures KeepsTime(h, bound) <==> bound <= 0x80_0000
  {
    hide Readable, Time.Stamp;
    if bound <= 0x80_0000 {
      forall rs | Readable(h, rs) && Before(rs, bound)
        ensures TicksOrdered(h, rs)
      {
        EarlyFilesKeepTime(h, rs);
      }
    } else {
      var rs := Swapped(0x80_0000, 2, 1);
      SharedStamp(0x80_0000);
      SwappedIsReadable(h, 0x80_0000, 2, 1);
    }
  }

  /** A nanosecond file is accepted exactly when each of its times may follow those before it. */
  lemma NanosecondFilesExactly(h: Header, rs: seq<Record>)
    requires h.Supported() && h.layout.precision == NANOSECONDS && InBudget(h, rs)
    ensures Readable(h, rs) <==>
              forall i, j :: 0 <= i <= j < |rs| ==> MayFollow(rs[i].Time(h.layout), rs[j].Time(h.layout))
  {
    hide Readable, Ordered, Time.Stamp, MayFollow;
    ReadableExactly(h, rs);
    forall i, j | 0 <= i <= j < |rs|
      ensures 0.0 <= rs[i].Stamp(h)
      ensures rs[i].Stamp(h) <= rs[j].Stamp(h) <==> MayFollow(rs[i].Time(h.layout), rs[j].Time(h.layout))
    {
      StampNotNegative(h, rs[i]);
      NanosecondOrder(rs[i].Time(h.layout), rs[j].Time(h.layout));
    }
    if Ordered(h, rs, 0.0) { OrderedThroughout(h, rs, 0.0); }
    if forall i, j :: 0 <= i <= j < |rs| ==> 0.0 <= rs[i].Stamp(h) <= rs[j].Stamp(h) {
      OrderedStepwise(h, rs, 0.0);
    }
  }

  lemma EarlyFilesKeepTime(h: Header, rs: seq<Record>)
    requires h.Supported() && Readable(h, rs) && Before(rs, 0x80_0000)
    ensures TicksOrdered(h, rs)
  {
    hide Readable, Time.Stamp;
    InBudgetOf(h, rs);
    ReadableExactly(h, rs);
    OrderedThroughout(h, rs, 0.0);
    forall i, j | 0 <= i <= j < |rs|
      ensures rs[i].Ticks(h) <= rs[j].Ticks(h)
    {
      StampsOrderTicks(rs[i].Time(h.layout), rs[j].Time(h.layout));
    }
  }

  /** Two empty packets of one second, the second at an earlier fraction. */
  function Swapped(seconds: int, late: int, early: int): seq<Record>
  {
    [Record(seconds, late, 0, []), Record(seconds, early, 0, [])]
  }

  lemma SwappedIsReadable(h: Header, seconds: int, late: int, early: int)
    requires h.Supported() && h.layout.precision == NANOSECONDS && IsU32(seconds) && 0 <= early < late < NANOSECONDS
    ensures Time(seconds, late, NANOSECONDS).Stamp() == Time(seconds, early, NANOSECONDS).Stamp() ==>
              Readable(h, Swapped(seconds, late, early))
    ensures !TicksOrdered(h, Swapped(seconds, late, early))
  {
    hide Readable, Time.Stamp, PutFields;
    var rs := Swapped(seconds, late, early);
    assert AllFit(h, rs);
    assert rs[1..] == [rs[1]] && rs[1..][1..] == [];
    PairSize(h, rs[0], rs[1]);
    StampNotNegative(h, rs[0]);
    ReadableExactly(h, rs);
    if rs[0].Stamp(h) == rs[1].Stamp(h) { assert Ordered(h, rs[1..], rs[0].Stamp(h)); }
    assert rs[1].Ticks(h) < rs[0].Ticks(h);
  }

  lemma PairSize(h: Header, a: Record, b: Record)
    requires h.Supported() && a.Fits(h) && b.Fits(h)
    ensures |PutRecords(h, [a, b])| == 32 + |a.body| + |b.body|
  {
    hide PutFields;
    assert [a, b][1..] == [b] && [b][1..] == [];
    assert PutRecords(h, [b]) == PutRecord(h, b) + [];
    assert PutRecords(h, [a, b]) == PutRecord(h, a) + PutRecords(h, [b]);
  }

  /** For example two packets of a second in 2023, 100 and then 50 nanoseconds into it, are read
      without an error, both at the second itself. */
  lemma NanosecondsLoseOrder(h: Header)
    requires h.Supported() && h.layout.precision == NANOSECONDS
    ensures var rs := Swapped(1_700_000_000, 100, 50);
            && Readable(h, rs) && !TicksOrdered(h, rs)
            && Yields(h, rs) == [Stamped(1700000000.0, []), Stamped(1700000000.0, [])]
  {
    hide Readable, Time.Stamp;
    FirstNanoseconds(Time(1_700_000_000, 100, NANOSECONDS));
    FirstNanoseconds(Time(1_700_000_000, 50, NANOSECONDS));
    SwappedIsReadable(h, 1_700_000_000, 100, 50);
    InBudgetOf(h, Swapped(1_700_000_000, 100, 50));
  }
}
