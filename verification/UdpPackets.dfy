/** Extraction of a UDP datagram from an unfragmented IPv4 packet (section 3.1 of RFC 791, RFC 768). */
module UdpPackets {
  import opened Outcomes
  import opened Pcap

  datatype Endpoint = Endpoint(host: string, port: int)

  datatype Datagram = Datagram(source: Endpoint, destination: Endpoint, payload: seq<byte>)

  function Digit(n: int): char
    requires 0 <= n < 10
  {
    '0' + n as char
  }

  function Decimal(n: byte): (s: string)
    ensures forall i :: 0 <= i < |s| ==> '0' <= s[i] <= '9'
  {
    if n < 10 then [Digit(n)]
    else if n < 100 then [Digit(n / 10), Digit(n % 10)]
    else [Digit(n / 100), Digit(n / 10 % 10), Digit(n % 10)]
  }

  /** An address as dotted decimal text. */
  function Dotted(a: seq<byte>): string
    requires |a| == 4
  {
    Decimal(a[0]) + "." + (Decimal(a[1]) + "." + (Decimal(a[2]) + "." + Decimal(a[3])))
  }

  function Udp(packet: seq<byte>): Option<Datagram>
  {
    if |packet| < 20 || packet[0] as int / 16 != 4 || packet[9] != 17 then None else
      var ihl := packet[0] as int % 16 * 4;
      var total, fragment := U16(true, packet[2..4]), U16(true, packet[6..8]);
      if ihl < 20 || total > |packet| || total < ihl + 8 || fragment % 0x4000 != 0 then None else
        var sport, dport := U16(true, packet[ihl..ihl + 2]), U16(true, packet[ihl + 2..ihl + 4]);
        var length := U16(true, packet[ihl + 4..ihl + 6]);
        if length < 8 || ihl + length != total then None else
          Some(Datagram(Endpoint(Dotted(packet[12..16]), sport), Endpoint(Dotted(packet[16..20]), dport),
                        packet[ihl + 8..total]))
  }

  // ----- what a sender puts on the wire -----

  /** Every field of an IPv4 packet that carries UDP; `flags` are the reserved and don't-fragment
      bits, the rest of that word being zero when nothing is fragmented. */
  datatype Packet = Packet(tos: byte, id: int, flags: int, ttl: byte, ipChecksum: int, source: seq<byte>,
                           destination: seq<byte>, options: seq<byte>, sport: int, dport: int,
                           udpChecksum: int, payload: seq<byte>)
  {
    predicate WellFormed()
    {
      && IsU16(id) && 0 <= flags < 4 && IsU16(ipChecksum) && |source| == 4 && |destination| == 4
      && |options| <= 40 && |options| % 4 == 0 && IsU16(sport) && IsU16(dport) && IsU16(udpChecksum)
      && 28 + |options| + |payload| < 0x1_0000
    }

    function HeaderLength(): int { 20 + |options| }

    function IpHeader(): (b: seq<byte>)
      requires WellFormed()
      ensures |b| == 20
    {
      [64 + HeaderLength() / 4, tos] + Put16(true, HeaderLength() + 8 + |payload|) + Put16(true, id)
      + Put16(true, flags * 0x4000) + [ttl, 17] + Put16(true, ipChecksum) + source + destination
    }

    function UdpHeader(): (b: seq<byte>)
      requires WellFormed()
      ensures |b| == 8
    {
      Put16(true, sport) + Put16(true, dport) + Put16(true, 8 + |payload|) + Put16(true, udpChecksum)
    }

    function Bytes(): seq<byte>
      requires WellFormed()
    {
      IpHeader() + options + UdpHeader() + payload
    }
  }

  lemma IpFields(p: Packet, rest: seq<byte>)
    requires p.WellFormed()
    ensures var b := p.IpHeader() + rest;
            && b[0] as int == 64 + p.HeaderLength() / 4 && b[9] == 17
            && U16(true, b[2..4]) == p.HeaderLength() + 8 + |p.payload|
            && U16(true, b[6..8]) == p.flags * 0x4000
            && b[12..16] == p.source && b[16..20] == p.destination
  {
    hide U16, Put16;
    var b := p.IpHeader() + rest;
    assert b[2..4] == Put16(true, p.HeaderLength() + 8 + |p.payload|);
    assert b[6..8] == Put16(true, p.flags * 0x4000);
    Get16(true, p.HeaderLength() + 8 + |p.payload|);
    Get16(true, p.flags * 0x4000);
    assert b[12..16] == p.source && b[16..20] == p.destination;
  }

  lemma UdpFields(p: Packet, before: seq<byte>, rest: seq<byte>)
    requires p.WellFormed()
    ensures var b, n := before + p.UdpHeader() + rest, |before|;
            && U16(true, b[n..n + 2]) == p.sport && U16(true, b[n + 2..n + 4]) == p.dport
            && U16(true, b[n + 4..n + 6]) == 8 + |p.payload|
  {
    hide U16, Put16;
    var b, n := before + p.UdpHeader() + rest, |before|;
    assert b[n..n + 2] == Put16(true, p.sport) && b[n + 2..n + 4] == Put16(true, p.dport);
    assert b[n + 4..n + 6] == Put16(true, 8 + |p.payload|);
    Get16(true, p.sport); Get16(true, p.dport); Get16(true, 8 + |p.payload|);
  }

  /** An unfragmented packet, with any IP options and any trailing padding, parses back to its
      endpoints and payload. */
  lemma UdpRoundTrip(p: Packet, padding: seq<byte>)
    requires p.WellFormed()
    ensures Udp(p.Bytes() + padding)
         == Some(Datagram(Endpoint(Dotted(p.source), p.sport), Endpoint(Dotted(p.destination), p.dport), p.payload))
  {
    hide U16, Put16, Dotted;
    var b := p.Bytes() + padding;
    var ihl, total := p.HeaderLength(), p.HeaderLength() + 8 + |p.payload|;
    assert b == p.IpHeader() + (p.options + p.UdpHeader() + p.payload + padding);
    IpFields(p, p.options + p.UdpHeader() + p.payload + padding);
    assert b == (p.IpHeader() + p.options) + p.UdpHeader() + (p.payload + padding);
    UdpFields(p, p.IpHeader() + p.options, p.payload + padding);
    assert b[ihl + 8..total] == p.payload;
    assert (64 + ihl / 4) / 16 == 4 && (64 + ihl / 4) % 16 * 4 == ihl;
  }

  /** The packet an accepted capture consists of, without its padding. */
  ghost function Reading(b: seq<byte>): Packet
    requires Udp(b).Some?
  {
    var ihl := b[0] as int % 16 * 4;
    var total := U16(true, b[2..4]);
    Packet(b[1], U16(true, b[4..6]), U16(true, b[6..8]) / 0x4000, b[8], U16(true, b[10..12]), b[12..16], b[16..20],
           b[20..ihl], U16(true, b[ihl..ihl + 2]), U16(true, b[ihl + 2..ihl + 4]), U16(true, b[ihl + 6..ihl + 8]),
           b[ihl + 8..total])
  }

  /** Nothing else is accepted: an accepted capture is a well-formed packet followed by padding. */
  lemma UdpExact(b: seq<byte>)
    requires Udp(b).Some?
    ensures Reading(b).WellFormed() && Reading(b).Bytes() <= b
  {
    hide U16, Put16, Dotted;
    var p := Reading(b);
    var ihl, total := b[0] as int % 16 * 4, U16(true, b[2..4]);
    Same16(true, b[2..4]); Same16(true, b[4..6]); Same16(true, b[6..8]); Same16(true, b[10..12]);
    Same16(true, b[ihl..ihl + 2]); Same16(true, b[ihl + 2..ihl + 4]); Same16(true, b[ihl + 4..ihl + 6]);
    Same16(true, b[ihl + 6..ihl + 8]);
    assert U16(true, b[6..8]) / 0x4000 * 0x4000 == U16(true, b[6..8]);
    assert p.HeaderLength() == ihl;
    assert p.IpHeader() == b[..20] by {
      assert b[..20] == [b[0], b[1]] + b[2..4] + b[4..6] + b[6..8] + [b[8], b[9]] + b[10..12] + b[12..16] + b[16..20];
    }
    assert p.UdpHeader() == b[ihl..ihl + 8] by {
      assert b[ihl..ihl + 8] == b[ihl..ihl + 2] + b[ihl + 2..ihl + 4] + b[ihl + 4..ihl + 6] + b[ihl + 6..ihl + 8];
    }
    assert b[..total] == b[..20] + b[20..ihl] + b[ihl..ihl + 8] + b[ihl + 8..total];
  }

  // ----- dotted text identifies the address -----

  /** The number that a text of digits stands for. */
  function ValueOf(s: string): int
    requires forall i :: 0 <= i < |s| ==> '0' <= s[i] <= '9'
  {
    if s == [] then 0 else ValueOf(s[..|s| - 1]) * 10 + (s[|s| - 1] - '0') as int
  }

  lemma Digits(a: int, b: int, c: int)
    requires 0 <= a < 10 && 0 <= b < 10 && 0 <= c < 10
    ensures ValueOf([Digit(a)]) == a
    ensures ValueOf([Digit(a), Digit(b)]) == 10 * a + b
    ensures ValueOf([Digit(a), Digit(b), Digit(c)]) == 100 * a + 10 * b + c
    ensures a != 0 ==> Digit(a) != '0'
  {
    var s := [Digit(a), Digit(b), Digit(c)];
    assert s[..2] == [Digit(a), Digit(b)] && s[..2][..1] == [Digit(a)] && s[..2][..1][..0] == [];
    assert ValueOf([Digit(a)]) == ValueOf([Digit(a)][..0]) * 10 + a;
    assert ValueOf(s[..2]) == ValueOf(s[..2][..1]) * 10 + b;
    assert ValueOf(s) == ValueOf(s[..2]) * 10 + c;
  }

  /** A byte is written in decimal digits, without leading zeros. */
  lemma DecimalIsValue(n: byte)
    ensures ValueOf(Decimal(n)) == n as int
    ensures Decimal(n) != [] && (|Decimal(n)| > 1 ==> Decimal(n)[0] != '0')
  {
    hide ValueOf, Digit;
    var x: int := n;
    if x < 10 {
      Digits(x, 0, 0);
    } else if x < 100 {
      Digits(x / 10, x % 10, 0);
    } else {
      Digits(x / 100, x / 10 % 10, x % 10);
    }
  }

  lemma DecimalInjective(m: byte, n: byte)
    requires Decimal(m) == Decimal(n)
    ensures m == n
  {
    hide Decimal;
    DecimalIsValue(m);
    DecimalIsValue(n);
  }

  lemma SplitAtDot(x: string, u: string, y: string, v: string)
    requires forall i :: 0 <= i < |x| ==> '0' <= x[i] <= '9'
    requires forall i :: 0 <= i < |y| ==> '0' <= y[i] <= '9'
    requires x + "." + u == y + "." + v
    ensures x == y && u == v
  {
    var s, t := x + "." + u, y + "." + v;
    assert s[|x|] == '.' && t[|y|] == '.';
    assert (forall i :: 0 <= i < |x| ==> s[i] == x[i]) && forall i :: 0 <= i < |y| ==> t[i] == y[i];
    assert x == s[..|x|] && y == t[..|y|] && u == s[|x| + 1..] && v == t[|y| + 1..];
  }

  lemma DottedInjective(a: seq<byte>, b: seq<byte>)
    requires |a| == 4 == |b| && Dotted(a) == Dotted(b)
    ensures a == b
  {
    hide Decimal;
    var a2, b2 := Decimal(a[2]) + "." + Decimal(a[3]), Decimal(b[2]) + "." + Decimal(b[3]);
    var a1, b1 := Decimal(a[1]) + "." + a2, Decimal(b[1]) + "." + b2;
    SplitAtDot(Decimal(a[0]), a1, Decimal(b[0]), b1);
    SplitAtDot(Decimal(a[1]), a2, Decimal(b[1]), b2);
    SplitAtDot(Decimal(a[2]), Decimal(a[3]), Decimal(b[2]), Decimal(b[3]));
    DecimalInjective(a[0], b[0]); DecimalInjective(a[1], b[1]);
    DecimalInjective(a[2], b[2]); DecimalInjective(a[3], b[3]);
  }

  /** The dotted text is the four bytes in order, separated by dots. */
  lemma DottedParts(a: seq<byte>)
    requires |a| == 4
    ensures Dotted(a) == Decimal(a[0]) + "." + Decimal(a[1]) + "." + Decimal(a[2]) + "." + Decimal(a[3])
  {
  }
}
