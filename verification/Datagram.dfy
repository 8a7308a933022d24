/**
A reading as components/imu/imu.h lays it out in the ring, and the packet that
components/apps/network.c makes of it and sends.
*/
module Datagram {
  import opened Bytes

  // ----- words of several bytes, low byte first -----

  type Number = n: nat | n < 0x1_0000_0000

  type Int32 = n: int | -0x8000_0000 <= n < 0x8000_0000

  function Zeros(n: nat): (s: seq<byte>)
    ensures |s| == n
  {
    seq(n, _ => 0)
  }

  type Bytes4 = s: seq<byte> | |s| == 4 witness Zeros(4)
  type Bytes8 = s: seq<byte> | |s| == 8 witness Zeros(8)
  type Bytes12 = s: seq<byte> | |s| == 12 witness Zeros(12)
  type Bytes16 = s: seq<byte> | |s| == 16 witness Zeros(16)

  function PutU4(v: Number): (s: Bytes4)
  {
    var a := v / 256;
    var b := a / 256;
    [(v % 256) as byte, (a % 256) as byte, (b % 256) as byte, (b / 256) as byte]
  }

  function U4(s: Bytes4): Number
  {
    s[0] as int + 256 * (s[1] as int + 256 * (s[2] as int + 256 * s[3] as int))
  }

  lemma U4Inverse(v: Number, s: Bytes4)
    ensures U4(PutU4(v)) == v && PutU4(U4(s)) == s
  {
    var c := s[2] as int + 256 * s[3] as int;
    var b := s[1] as int + 256 * c;
    var a := s[0] as int + 256 * b;
    assert a / 256 == b && a % 256 == s[0] as int;
    assert b / 256 == c && b % 256 == s[1] as int;
    assert c / 256 == s[3] as int && c % 256 == s[2] as int;
  }

  /** Conversion to int32_t keeps the low 32 bits. */
  function ToInt32(v: int): Int32
  {
    var u := v % 0x1_0000_0000;
    if u < 0x8000_0000 then u else u - 0x1_0000_0000
  }

  function PutI4(v: Int32): Bytes4
  {
    PutU4(if v < 0 then v + 0x1_0000_0000 else v)
  }

  /** Eight bytes as an int64_t. */
  function I8(s: Bytes8): int
  {
    U4(s[..4]) + 0x1_0000_0000 * ToInt32(U4(s[4..]))
  }

  /** The numbers that four and eight bytes stand for. */
  lemma LittleEndian(s: Bytes4, t: Bytes8)
    ensures U4(s) == s[0] as int + 0x100 * s[1] as int + 0x1_0000 * s[2] as int + 0x100_0000 * s[3] as int
    ensures -0x8000_0000_0000_0000 <= I8(t) < 0x8000_0000_0000_0000
    ensures (I8(t) - U4(t[..4]) - 0x1_0000_0000 * U4(t[4..])) % 0x1_0000_0000_0000_0000 == 0
  {
  }

  /** The conversion is the one number of that type with the same remainder modulo 2^32. */
  lemma ToInt32Is(v: int, w: Int32)
    requires (v - w) % 0x1_0000_0000 == 0
    ensures ToInt32(v) == w
  {
  }

  // ----- the record in the ring -----

  /** imu_dgram_t; floats and time stamps are kept as the bytes they are stored in. */
  datatype Reading = Reading(
    id: Bytes4, acc: Bytes12, gyr: Bytes12, mag: Bytes12, eul: Bytes12, quat: Bytes16, pressure: Bytes4,
    imuTs: Bytes4, padding: Bytes4, devTs: Bytes8, tsfTs: Bytes8, seqNo: Number, bufferDelay: Bytes4)

  /** The size of the record. */
  const WIDTH: nat := 104

  type Record = s: seq<byte> | |s| == WIDTH witness Zeros(WIDTH)

  function ToBytes(d: Reading): Record
  {
    d.id + d.acc + d.gyr + d.mag + d.eul + d.quat + d.pressure + d.imuTs + d.padding + d.devTs + d.tsfTs
    + PutU4(d.seqNo) + d.bufferDelay
  }

  function FromBytes(s: Record): Reading
  {
    Reading(s[0..4], s[4..16], s[16..28], s[28..40], s[40..52], s[52..68], s[68..72], s[72..76], s[76..80],
            s[80..88], s[88..96], U4(s[96..100]), s[100..104])
  }

  /** Where the record holds each field. */
  lemma RecordLayout(d: Reading)
    ensures var s := ToBytes(d);
            && s[0..4] == d.id && s[4..16] == d.acc && s[16..28] == d.gyr && s[28..40] == d.mag
            && s[40..52] == d.eul && s[52..68] == d.quat && s[68..72] == d.pressure && s[72..76] == d.imuTs
            && s[76..80] == d.padding && s[80..88] == d.devTs && s[88..96] == d.tsfTs
            && U4(s[96..100]) == d.seqNo && s[100..104] == d.bufferDelay
  {
    U4Inverse(d.seqNo, Zeros(4));
  }

  /** Reading the record back undoes writing it, and the other way round. */
  lemma BytesInverse(d: Reading, s: Record)
    ensures FromBytes(ToBytes(d)) == d
    ensures ToBytes(FromBytes(s)) == s
  {
    RecordLayout(d);
    U4Inverse(0, s[96..100]);
    assert s == s[0..4] + s[4..16] + s[16..28] + s[28..40] + s[40..52] + s[52..68] + s[68..72] + s[72..76]
                + s[76..80] + s[80..88] + s[88..96] + s[96..100] + s[100..104];
  }

  // ----- the packet on the network -----

  /** marker_packet_t; Euler angles, pressure and id are not sent. */
  datatype Packet = Packet(acc: Bytes12, gyr: Bytes12, mag: Bytes12, quat: Bytes16, imuTs: Bytes4,
                           devTs: Bytes8, tsfTs: Bytes8, seqNo: Number, devDelay: Int32)

  /** `now` is the clock in microseconds. */
  function TagPacket(d: Reading, now: int): Packet
  {
    Packet(d.acc, d.gyr, d.mag, d.quat, d.imuTs, d.devTs, d.tsfTs, d.seqNo, ToInt32(now - I8(d.devTs)))
  }

  /** The packet has the content of the reading, field by field, and the age of it at clock time `now`. */
  ghost predicate Reports(p: Packet, d: Reading, now: int)
  {
    && p.acc == d.acc && p.gyr == d.gyr && p.mag == d.mag && p.quat == d.quat
    && p.imuTs == d.imuTs && p.devTs == d.devTs && p.tsfTs == d.tsfTs && p.seqNo == d.seqNo
    && (now - I8(d.devTs) - p.devDelay) % 0x1_0000_0000 == 0
  }

  lemma ToInt32Congruent(v: int)
    ensures (v - ToInt32(v)) % 0x1_0000_0000 == 0
  {
  }

  lemma TagReports(d: Reading, now: int)
    ensures Reports(TagPacket(d, now), d, now)
  {
    ToInt32Congruent(now - I8(d.devTs));
  }

  lemma ReportsDetermines(p: Packet, q: Packet, d: Reading, now: int)
    requires Reports(p, d, now) && Reports(q, d, now)
    ensures p == q
  {
    ToInt32Is(now - I8(d.devTs), p.devDelay);
    ToInt32Is(now - I8(d.devTs), q.devDelay);
  }

  /** What is made of the record of a reading reports that reading, and nothing else does. */
  lemma TagPacketReports(d: Reading, now: int, p: Packet)
    ensures Reports(p, d, now) <==> p == TagPacket(FromBytes(ToBytes(d)), now)
  {
    assert FromBytes(ToBytes(d)) == d by {
      BytesInverse(d, Zeros(WIDTH));
    }
    TagReports(d, now);
    if Reports(p, d, now) {
      ReportsDetermines(p, TagPacket(d, now), d, now);
    }
  }

  /** The age sent is the true one exactly while it fits 32 bits, which is about 36 minutes. */
  lemma DelayIsTrueIff(d: Reading, now: int)
    ensures TagPacket(d, now).devDelay == now - I8(d.devTs)
            <==> -0x8000_0000 <= now - I8(d.devTs) < 0x8000_0000
  {
  }

  /** The bytes of the packet, which has no padding. */
  function Wire(p: Packet): (w: seq<byte>)
    ensures |w| == 80
  {
    p.acc + p.gyr + p.mag + p.quat + p.imuTs + p.devTs + p.tsfTs + PutU4(p.seqNo) + PutI4(p.devDelay)
  }

  /** The packet sent for a record consists of four parts of it, copied as they are, and the age. */
  lemma WireOfRecord(s: Record, now: int)
    ensures var w := Wire(TagPacket(FromBytes(s), now));
            && w[0..36] == s[4..40] && w[36..52] == s[52..68] && w[52..56] == s[72..76]
            && w[56..76] == s[80..100]
            && (now - I8(s[80..88]) - U4(w[76..80])) % 0x1_0000_0000 == 0
  {
    var p := TagPacket(FromBytes(s), now);
    U4Inverse(0, s[96..100]);
    U4Inverse(if p.devDelay < 0 then p.devDelay + 0x1_0000_0000 else p.devDelay, Zeros(4));
    var w := Wire(p);
    assert w[0..36] == s[4..16] + s[16..28] + s[28..40];
    assert w[56..76] == s[80..88] + s[88..96] + s[96..100];
    assert w[76..80] == PutI4(p.devDelay);
  }
}
