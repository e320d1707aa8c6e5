/** Packet.c: the 7-byte header, its network-order fields, and the checksum that guards a datagram. */
module Codec {
  import opened Bytes
  import opened Checksum

  const HEADER_LEN := 7
  const MAX_DATA := 1400
  const MAX_PACKET := 1407

  const FLAG_DATA: Byte := 3
  const FLAG_RR: Byte := 5
  const FLAG_SREJ: Byte := 6
  const FLAG_FILENAME: Byte := 7
  const FLAG_FILENAME_RESP: Byte := 8
  const FLAG_EOF: Byte := 32
  const FLAG_EOF_ACK: Byte := 33
  const FLAG_DONE: Byte := 34

  /** What a datagram carries. */
  datatype Packet = Packet(seqNo: U32, flag: Byte, data: seq<Byte>)

  type Datagram = seq<Byte>

  /** A 16-bit value in network order. */
  function HalfBytes(w: Word16): (b: seq<Byte>)
    ensures |b| == 2 && HalfOf(b[0], b[1]) == w
  {
    [w / 256, w % 256]
  }

  function HalfOf(first: Byte, second: Byte): Word16 {
    Word(Big, first, second)
  }

  /** A 32-bit value in network order, most significant byte first. */
  function U32Bytes(v: U32): (b: seq<Byte>)
    ensures |b| == 4 && U32Of(b) == v
  {
    HalfBytes(v / 0x1_0000) + HalfBytes(v % 0x1_0000)
  }

  function U32Of(b: seq<Byte>): U32
    requires |b| >= 4
  {
    0x1_0000 * HalfOf(b[0], b[1]) + HalfOf(b[2], b[3])
  }

  /** The number with these digits to the base 256. */
  function Number(a: Byte, b: Byte, c: Byte, d: Byte): (v: U32) {
    0x100_0000 * (a as int) + 0x1_0000 * (b as int) + 0x100 * (c as int) + d as int
  }

  /** Where the bytes of a number stand: the most significant first, each place worth 256 of the next. */
  lemma NetworkOrder(v: U32, b: seq<Byte>)
    requires |b| >= 4
    ensures var n := U32Bytes(v);
            v == 0x100_0000 * (n[0] as int) + 0x1_0000 * (n[1] as int) + 0x100 * (n[2] as int) + n[3] as int
    ensures U32Of(b) == 0x100_0000 * (b[0] as int) + 0x1_0000 * (b[1] as int) + 0x100 * (b[2] as int) + b[3] as int
    ensures U32Of(b) == Number(b[0], b[1], b[2], b[3])
    ensures var n := U32Bytes(v); v == Number(n[0], n[1], n[2], n[3])
  {
  }

  lemma NumberOf(b: seq<Byte>)
    requires |b| >= 4
    ensures U32Of(b) == Number(b[0], b[1], b[2], b[3])
  {
  }

  /** `check_packet`: long enough, and the ones' complement sum over all of it is 0xFFFF. */
  predicate Intact(d: Datagram) {
    |d| >= HEADER_LEN && OnesSum(Big, d) == 0xFFFF
  }

  /** What a receiver of `d` reads out of it, if `d` passes the check. */
  function Decode(d: Datagram): Option<Packet> {
    if Intact(d) then Some(Packet(U32Of(d[..4]), d[6], d[7..])) else None
  }

  /** The datagram before its checksum is filled in. */
  function Unsummed(p: Packet): (d: Datagram)
    ensures |d| == HEADER_LEN + |p.data|
    ensures d[..4] == U32Bytes(p.seqNo) && d[4] == d[5] == 0 && d[6] == p.flag && d[7..] == p.data
  {
    U32Bytes(p.seqNo) + [0, 0, p.flag] + p.data
  }

  /** A datagram with the two bytes of its checksum field set. */
  function WithChecksum(u: Datagram, first: Byte, second: Byte): (d: Datagram)
    requires |u| >= HEADER_LEN
    ensures |d| == |u| && d[..4] == u[..4] && d[6..] == u[6..]
    ensures Total(Big, d) == Total(Big, u) + 256 * (first - u[4]) + (second - u[5])
  {
    TotalUpdate(u, 4, first);
    var d: Datagram := u[4 := first];
    TotalUpdate(d, 5, second);
    d[5 := second]
  }

  /** The datagram `make_packet` builds. Whatever the packet, every receiver accepts it and reads
      the same sequence number, flag and payload back. */
  function Encode(p: Packet): (d: Datagram)
    ensures |d| == HEADER_LEN + |p.data|
    ensures Decode(d) == Some(p)
  {
    var u := Unsummed(p);
    var c := 0xFFFF - OnesSum(Big, u);
    ChecksumFilledIn(u, c);
    WithChecksum(u, c / 256, c % 256)
  }

  /** Where everything stands in a datagram. */
  lemma Layout(p: Packet)
    ensures var d := Encode(p);
            && |d| == 7 + |p.data|
            && p.seqNo == Number(d[0], d[1], d[2], d[3])
            && d[6] == p.flag && d[7..] == p.data
            && OnesSum(Big, d) == 0xFFFF
  {
    var u := Unsummed(p);
    var d := Encode(p);
    assert d[..4] == u[..4] && d[6..] == u[6..];
    assert d[6] == d[6..][0] == u[6] && d[7..] == d[6..][1..] == u[7..];
    NetworkOrder(p.seqNo, d[..4]);
  }

  lemma ChecksumFilledIn(u: Datagram, c: Word16)
    requires |u| >= HEADER_LEN && u[4] == u[5] == 0
    requires c == 0xFFFF - OnesSum(Big, u)
    ensures Intact(WithChecksum(u, c / 256, c % 256))
  {
    var d := WithChecksum(u, c / 256, c % 256);
    OnesSumIsResidue(Big, u);
    OnesSumIsResidue(Big, d);
    var k := ResidueCongruent(Total(Big, u));
    ResidueUnique(Total(Big, d), 0xFFFF, k);
  }

  /** Complementing a byte inverts each of its eight bits, as `^= 0xFF` does: `weight` is that of one bit. */
  lemma ComplementInvertsBits(b: Byte, weight: nat)
    requires weight in {1, 2, 4, 8, 16, 32, 64, 128}
    ensures ((255 - b) / weight) % 2 == 1 - (b / weight) % 2
  {
    var places := if weight == 1 then 256 else if weight == 2 then 128 else if weight == 4 then 64
                  else if weight == 8 then 32 else if weight == 16 then 16 else if weight == 32 then 8
                  else if weight == 64 then 4 else 2;
    assert weight * places == 256;
    QuotientComplement(b, weight, places);
  }

  lemma QuotientComplement(b: Byte, weight: nat, places: nat)
    requires weight > 0 && weight * places == 256
    ensures (255 - b) / weight == places - 1 - b / weight
  {
    var q, r := b / weight, b % weight;
    assert 255 - b == weight * (places - 1 - q) + (weight - 1 - r);
    QuotientUnique(255 - b, weight, places - 1 - q, weight - 1 - r);
  }

  lemma QuotientUnique(x: int, d: int, q: int, r: int)
    requires 0 <= r < d && x == d * q + r
    ensures x / d == q
  {
    var k := x / d - q;
    assert d * k == r - x % d;
    assert k >= 1 ==> d * k >= d;
    assert k <= -1 ==> d * k <= -d;
  }

  /** The corruption the error injector applies: one byte is complemented. */
  function Complement(d: Datagram, i: nat): (r: Datagram)
    requires i < |d|
    ensures |r| == |d| && r != d
    ensures r[i] as int + d[i] as int == 255 && (forall k :: 0 <= k < |d| && k != i ==> r[k] == d[k])
  {
    d[i := 255 - d[i]]
  }

  /** Two different sums less than 65535 apart cannot both be multiples of it. */
  lemma NotBothComplete(t: nat, u: nat)
    requires Residue(t) == 0xFFFF && t != u && -0xFFFF < u - t < 0xFFFF
    ensures Residue(u) != 0xFFFF
  {
    var kt := ResidueCongruent(t);
    var ku := ResidueCongruent(u);
  }

  /** A datagram that passes the check never passes it again once any one of its bytes - header,
      checksum field or payload - is complemented. */
  lemma CorruptionDetected(d: Datagram, i: nat)
    requires i < |d| && Intact(d)
    ensures Decode(Complement(d, i)) == None
  {
    var e := Complement(d, i);
    TotalUpdate(d, i, 255 - d[i]);
    OnesSumIsResidue(Big, d);
    OnesSumIsResidue(Big, e);
    NotBothComplete(Total(Big, d), Total(Big, e));
  }

  /** The negative zero a checksum field can hold besides the one `make_packet` writes. */
  predicate NegativeZeroAlias(d: Datagram) {
    |d| >= HEADER_LEN && d[4] == d[5] == 0xFF && OnesSum(Big, WithChecksum(d, 0, 0)) == 0xFFFF
  }

  /** When the sum with the checksum field added in is 0xFFFF. */
  lemma CompletesExactly(t: nat, s: Word16, c: Word16, k: nat)
    requires t == s + c + 0xFFFF * k && (s == 0 ==> k == 0)
    ensures Residue(t) == 0xFFFF <==> s + c == 0xFFFF || s == c == 0xFFFF
  {
    if s + c <= 0xFFFF {
      ResidueUnique(t, s + c, k);
    } else {
      ResidueUnique(t, s + c - 0xFFFF, k + 1);
    }
  }

  /** What the check looks at: the sum without the checksum field, and the field. */
  lemma IntactByField(d: Datagram)
    requires |d| >= HEADER_LEN
    ensures var s: int, c: int := OnesSum(Big, WithChecksum(d, 0, 0)), HalfOf(d[4], d[5]);
            Intact(d) <==> s + c == 0xFFFF || s == c == 0xFFFF
  {
    hide OnesSum;
    var u := WithChecksum(d, 0, 0);
    OnesSumIsResidue(Big, u);
    OnesSumIsResidue(Big, d);
    var k := ResidueCongruent(Total(Big, u));
    hide Total;
    CompletesExactly(Total(Big, d), OnesSum(Big, u), HalfOf(d[4], d[5]), k);
  }

  /** Exactly which datagrams the check accepts: those `make_packet` builds and, because ones'
      complement has two zeros, those whose checksum field holds the other zero. */
  lemma AcceptedExactly(d: Datagram)
    requires |d| >= HEADER_LEN
    ensures Intact(d) <==>
            d == Encode(Packet(U32Of(d[..4]), d[6], d[7..])) || NegativeZeroAlias(d)
  {
    hide OnesSum, Total, Intact;
    var p := Packet(U32Of(d[..4]), d[6], d[7..]);
    var u := WithChecksum(d, 0, 0);
    U32BytesOf(d[..4]);
    assert u == Unsummed(p);
    IntactByField(d);
    if HalfOf(d[4], d[5]) == 0xFFFF - OnesSum(Big, u) {
      assert d == Encode(p);
    }
  }

  lemma Digits(a: Byte, b: Byte, c: Byte, d: Byte)
    ensures var v := Number(a, b, c, d);
            v / 0x100_0000 == a && v / 0x1_0000 % 256 == b && v / 0x100 % 256 == c && v % 256 == d
  {
    var v := Number(a, b, c, d);
    assert v / 0x1_0000 == 256 * (a as int) + b;
    assert v / 0x100 == 0x1_0000 * (a as int) + 256 * (b as int) + c;
  }

  /** The four bytes at which a host of the given order stores a 32-bit value. */
  function HostBytes(order: Order, v: U32): (b: seq<Byte>)
    ensures |b| == 4
  {
    match order
    case Big => [v / 0x100_0000, v / 0x1_0000 % 256, v / 0x100 % 256, v % 256]
    case Little => [v % 256, v / 0x100 % 256, v / 0x1_0000 % 256, v / 0x100_0000]
  }

  function HostValue(order: Order, b: seq<Byte>): U32
    requires |b| == 4
  {
    match order
    case Big => Number(b[0], b[1], b[2], b[3])
    case Little => Number(b[3], b[2], b[1], b[0])
  }

  /** `htonl` and `ntohl`, which are one function: the identity or the exchange of all four bytes. */
  function Htonl(order: Order, v: U32): U32 {
    match order
    case Big => v
    case Little => Number(v % 256, v / 0x100 % 256, v / 0x1_0000 % 256, v / 0x100_0000)
  }

  /** A host of either order that stores `htonl(v)` stores network order. */
  lemma HostStores(order: Order, v: U32)
    ensures HostBytes(order, Htonl(order, v)) == U32Bytes(v)
  {
    var b := U32Bytes(v);
    NumberOf(b);
    hide U32Bytes, U32Of;
    Digits(b[0], b[1], b[2], b[3]);
    Digits(b[3], b[2], b[1], b[0]);
    hide Number;
  }

  lemma HostLoads(order: Order, b: seq<Byte>)
    requires |b| == 4
    ensures Htonl(order, HostValue(order, b)) == U32Of(b)
  {
    if order == Big {
      NumberOf(b);
    } else {
      NumberOf(b);
      hide U32Of;
      Digits(b[3], b[2], b[1], b[0]);
      hide Number;
    }
  }

  lemma U32BytesOf(b: seq<Byte>)
    requires |b| == 4
    ensures U32Bytes(U32Of(b)) == b
  {
    var high, low := HalfOf(b[0], b[1]), HalfOf(b[2], b[3]);
    assert U32Of(b) / 0x1_0000 == high && U32Of(b) % 0x1_0000 == low;
  }

  /** `write_u32`: on a host of either byte order the bytes stored are in network order. */
  method WriteU32(order: Order, place: array<Byte>, at: nat, value: U32)
    requires at + 4 <= place.Length
    modifies place
    ensures place[at..at + 4] == U32Bytes(value)
    ensures value == Number(place[at], place[at + 1], place[at + 2], place[at + 3])
    ensures forall i :: 0 <= i < at || at + 4 <= i < place.Length ==> place[i] == old(place[i])
  {
    var netValue := Htonl(order, value);
    var b := HostBytes(order, netValue);
    HostStores(order, value);
    NumberOf(b);
    hide HostBytes, Htonl, U32Bytes, U32Of, Number;
    place[at], place[at + 1], place[at + 2], place[at + 3] := b[0], b[1], b[2], b[3];
  }

  /** `read_u32` undoes `write_u32` on a host of either byte order. */
  method ReadU32(order: Order, place: array<Byte>, at: nat) returns (value: U32)
    requires at + 4 <= place.Length
    ensures value == U32Of(place[at..at + 4])
    ensures value == Number(place[at], place[at + 1], place[at + 2], place[at + 3])
  {
    var b := place[at..at + 4];
    value := Htonl(order, HostValue(order, b));
    HostLoads(order, b);
    NumberOf(b);
  }

  /** A host's own checksum, stored in its own byte order, is the same two bytes on every host. */
  lemma ChecksumBytesPortable(u: Datagram)
    ensures var big := 0xFFFF - OnesSum(Big, u);
            var little := 0xFFFF - OnesSum(Little, u);
            little % 256 == big / 256 && little / 256 == big % 256
  {
    ByteOrderIndependent(u);
    var little := OnesSum(Little, u);
    SwapComplement(little / 256, little % 256);
  }

  lemma SwapComplement(high: Byte, low: Byte)
    ensures (0xFFFF - (256 * high + low)) / 256 == 255 - high
    ensures (0xFFFF - (256 * high + low)) % 256 == 255 - low
  {
  }

  /** The first half of `make_packet`: header with a zero checksum field, then the payload. */
  method FillPacket(order: Order, packet: array<Byte>, p: Packet)
    requires HEADER_LEN + |p.data| <= packet.Length
    modifies packet
    ensures packet[..HEADER_LEN + |p.data|] == Unsummed(p)
    ensures packet[HEADER_LEN + |p.data|..] == old(packet[HEADER_LEN + |p.data|..])
  {
    hide U32Bytes;
    WriteU32(order, packet, 0, p.seqNo);
    ghost var n := HEADER_LEN + |p.data|;
    assert packet[0..4] == packet[..4];
    packet[4], packet[5], packet[6] := 0, 0, p.flag;
    forall i | 0 <= i < |p.data| {
      packet[HEADER_LEN + i] := p.data[i];
    }
    assert packet[..4] == U32Bytes(p.seqNo);
    assert packet[HEADER_LEN..n] == p.data;
    assert packet[..n] == packet[..4] + [packet[4], packet[5], packet[6]] + packet[HEADER_LEN..n];
    assert forall i :: n <= i < packet.Length ==> packet[i] == old(packet[i]);
  }

  /** The second half: a host's own checksum, stored in its own order. */
  method StoreChecksum(order: Order, packet: array<Byte>, packetLen: nat, checksum: Word16)
    requires HEADER_LEN <= packetLen <= packet.Length
    requires checksum == 0xFFFF - OnesSum(order, packet[..packetLen])
    modifies packet
    ensures var u := old(packet[..packetLen]);
            var c := 0xFFFF - OnesSum(Big, u);
            packet[..packetLen] == WithChecksum(u, c / 256, c % 256)
    ensures packet[packetLen..] == old(packet[packetLen..])
  {
    hide OnesSum, Total;
    ghost var u, tail := packet[..packetLen], packet[packetLen..];
    ChecksumBytesPortable(u);
    if order == Big {
      packet[4], packet[5] := checksum / 256, checksum % 256;
    } else {
      packet[4], packet[5] := checksum % 256, checksum / 256;
    }
    assert packet[..packetLen] == WithChecksum(u, packet[4], packet[5]);
    assert packet[packetLen..] == tail;
  }

  /** `make_packet` fills the caller's buffer with the datagram of the packet; the bytes do not
      depend on the byte order of the host. */
  method MakePacket(order: Order, packet: array<Byte>, seqNo: U32, flag: Byte, data: seq<Byte>)
    returns (packetLen: nat)
    requires |data| <= MAX_DATA && HEADER_LEN + |data| <= packet.Length
    modifies packet
    ensures packetLen == HEADER_LEN + |data|
    ensures packet[..packetLen] == Encode(Packet(seqNo, flag, data))
    ensures packet[packetLen..] == old(packet[packetLen..])
  {
    packetLen := HEADER_LEN + |data|;
    FillPacket(order, packet, Packet(seqNo, flag, data));
    TotalBound(order, packet[..packetLen]);
    var checksum := InCksum(order, packet, packetLen);
    hide OnesSum, Total;
    StoreChecksum(order, packet, packetLen, checksum);
  }

  /** `check_packet` accepts the same buffers on a host of either byte order, and what it accepts can
      be read from its place in the buffer. */
  method CheckPacket(order: Order, packet: array<Byte>, packetLen: nat) returns (ok: bool)
    requires packetLen <= packet.Length && packetLen <= 0x1_0000
    ensures ok <==> Intact(packet[..packetLen])
    ensures ok ==> packetLen >= HEADER_LEN
    ensures Decode(packet[..packetLen])
            == if ok then Some(Packet(U32Of(packet[..4]), packet[6], packet[7..packetLen])) else None
  {
    if packetLen < HEADER_LEN {
      return false;
    }
    TotalBound(order, packet[..packetLen]);
    var sum := InCksum(order, packet, packetLen);
    ByteOrderIndependent(packet[..packetLen]);
    ok := sum == 0;
    hide OnesSum, Total;
    assert packet[..packetLen][..4] == packet[..4] && packet[..packetLen][7..] == packet[7..packetLen];
  }

  method GetSeq(order: Order, packet: array<Byte>) returns (seqNo: U32)
    requires packet.Length >= HEADER_LEN
    ensures seqNo == U32Of(packet[..4])
  {
    seqNo := ReadU32(order, packet, 0);
  }
}
