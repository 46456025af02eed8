/** UDP datagrams and the IP packets around them: what is built, what is accepted, and the port table. */
module Udp {
  import opened Bytes
  import opened Checksum

  const IP_PROTO_UDP: byte := 17
  const UDP_MAX_HANDLERS: nat := 16
  const UDP_MAX_PAYLOAD: nat := 1472

  // ----- layouts -----

  function Be16(v: Word16): (b: seq<byte>)
    ensures |b| == 2 && BeSum(b) == v
  {
    assert [v / 0x100, v % 0x100][2..] == [];
    [v / 0x100, v % 0x100]
  }

  function Be32(v: Word32): (b: seq<byte>)
    ensures |b| == 4
  {
    Be16(v / 0x1_0000) + Be16(v % 0x1_0000)
  }

  function PseudoHeader(src: Word32, dst: Word32, len: Word16): (b: seq<byte>)
    ensures |b| == 12
  {
    Be32(src) + Be32(dst) + [0, IP_PROTO_UDP] + Be16(len)
  }

  function UdpHeader(srcPort: Word16, dstPort: Word16, len: Word16, checksum: Word16): (b: seq<byte>)
    ensures |b| == 8
    ensures Read16(b, 0) == srcPort && Read16(b, 2) == dstPort && Read16(b, 4) == len && Read16(b, 6) == checksum
  {
    Be16(srcPort) + Be16(dstPort) + Be16(len) + Be16(checksum)
  }

  /** What a checksum is taken over. */
  function Covered(src: Word32, dst: Word32, udp: seq<byte>): nat
    requires |udp| < 0x1_0000
  {
    BeSum(PseudoHeader(src, dst, |udp|)) + BeSum(udp)
  }

  /** The datagram udp_send builds: a computed checksum of zero goes out as all ones. */
  function Datagram(src: Word32, dst: Word32, srcPort: Word16, dstPort: Word16, payload: seq<byte>): (udp: seq<byte>)
    requires |payload| <= UDP_MAX_PAYLOAD
    ensures |udp| == 8 + |payload|
  {
    var blank := UdpHeader(srcPort, dstPort, 8 + |payload|, 0) + payload;
    var c := Complement(Covered(src, dst, blank));
    UdpHeader(srcPort, dstPort, 8 + |payload|, if c == 0 then M else c) + payload
  }

  /** The pseudo header always sums to something. */
  lemma PseudoPositive(src: Word32, dst: Word32, len: Word16)
    ensures BeSum(PseudoHeader(src, dst, len)) >= 17
  {
    var a := Be32(src) + Be32(dst);
    BeSumConcat(a, [0, IP_PROTO_UDP] + Be16(len));
    assert a + ([0, IP_PROTO_UDP] + Be16(len)) == PseudoHeader(src, dst, len);
    BeSumConcat([0, IP_PROTO_UDP], Be16(len));
    assert [0, IP_PROTO_UDP][2..] == [];
    assert BeSum([0, IP_PROTO_UDP]) == 17;
  }

  /** Storing a checksum adds it to the sum. */
  lemma StoredAdds(srcPort: Word16, dstPort: Word16, len: Word16, c: Word16, payload: seq<byte>)
    ensures BeSum(UdpHeader(srcPort, dstPort, len, c) + payload)
            == BeSum(UdpHeader(srcPort, dstPort, len, 0) + payload) + c
  {
    var front := Be16(srcPort) + Be16(dstPort) + Be16(len);
    forall w: Word16 ensures BeSum(UdpHeader(srcPort, dstPort, len, w) + payload) == BeSum(front) + w + BeSum(payload) {
      BeSumConcat(front, Be16(w));
      BeSumConcat(UdpHeader(srcPort, dstPort, len, w), payload);
    }
  }

  /** Every datagram built passes the receiver's test, and its checksum says it has one. */
  lemma DatagramChecks(src: Word32, dst: Word32, srcPort: Word16, dstPort: Word16, payload: seq<byte>)
    requires |payload| <= UDP_MAX_PAYLOAD
    ensures var udp := Datagram(src, dst, srcPort, dstPort, payload);
            && Complement(Covered(src, dst, udp)) == 0 && Read16(udp, 6) != 0
            && Read16(udp, 0) == srcPort && Read16(udp, 2) == dstPort && Read16(udp, 4) == |udp| && udp[8..] == payload
  {
    var len := 8 + |payload|;
    var blank := UdpHeader(srcPort, dstPort, len, 0) + payload;
    var c := Complement(Covered(src, dst, blank));
    var stored := if c == 0 then M else c;
    PseudoPositive(src, dst, len);
    StoredAdds(srcPort, dstPort, len, stored, payload);
    ComplementSums(Covered(src, dst, blank), stored);
    HeaderFields(UdpHeader(srcPort, dstPort, len, stored), payload);
  }

  lemma HeaderFields(h: seq<byte>, payload: seq<byte>)
    requires |h| == 8
    ensures Read16(h + payload, 0) == Read16(h, 0) && Read16(h + payload, 2) == Read16(h, 2)
    ensures Read16(h + payload, 4) == Read16(h, 4) && Read16(h + payload, 6) == Read16(h, 6)
    ensures (h + payload)[8..] == payload
  {
  }

  /** A message that checks out no longer does when one word is changed, unless the two values are the
      two zeros of one's-complement arithmetic. */
  lemma WordErrorDetected(a: seq<byte>, b: seq<byte>, w: Word16, v: Word16, rest: nat)
    requires |a| % 2 == 0 && Complement(rest + BeSum(a + Be16(w) + b)) == 0
    requires w != v && !(w == 0 && v == M) && !(w == M && v == 0)
    ensures Complement(rest + BeSum(a + Be16(v) + b)) != 0
  {
    forall x: Word16 ensures BeSum(a + Be16(x) + b) == BeSum(a) + x + BeSum(b) {
      BeSumConcat(a, Be16(x));
      BeSumConcat(a + Be16(x), b);
    }
    ChecksWhen(rest + BeSum(a + Be16(w) + b));
    ChecksWhen(rest + BeSum(a + Be16(v) + b));
    ModApart(rest + BeSum(a) + BeSum(b), w, v);
  }

  lemma ModApart(s: nat, w: Word16, v: Word16)
    requires w != v && !(w == 0 && v == M) && !(w == M && v == 0)
    ensures !((s + w) % M == 0 && (s + v) % M == 0)
  {
    assert s + w == (s + w) / M * M + (s + w) % M && s + v == (s + v) / M * M + (s + v) % M;
  }

  // ----- IP -----

  /** The 20-byte header of ip_send; the checksum is stored as the little-endian machine holds it. */
  function IpHeader(src: Word32, dst: Word32, protocol: byte, len: nat, checksum: Word16): (b: seq<byte>)
    requires len + 20 < 0x1_0000
    ensures |b| == 20
  {
    [0x45, 0] + Be16(20 + len) + [0, 0, 0x40, 0, 64, protocol] + [checksum % 0x100, checksum / 0x100]
    + Be32(src) + Be32(dst)
  }

  function IpPacket(src: Word32, dst: Word32, protocol: byte, payload: seq<byte>): (b: seq<byte>)
    requires |payload| + 20 < 0x1_0000
  {
    IpHeader(src, dst, protocol, |payload|, Complement(LeSum(IpHeader(src, dst, protocol, |payload|, 0)))) + payload
  }

  lemma IpStoredAdds(src: Word32, dst: Word32, protocol: byte, len: nat, c: Word16)
    requires len + 20 < 0x1_0000
    ensures LeSum(IpHeader(src, dst, protocol, len, c)) == LeSum(IpHeader(src, dst, protocol, len, 0)) + c
  {
    var front := [0x45, 0] + Be16(20 + len) + [0, 0, 0x40, 0, 64, protocol];
    var back := Be32(src) + Be32(dst);
    forall w: Word16 ensures LeSum(IpHeader(src, dst, protocol, len, w)) == LeSum(front) + w + LeSum(back) {
      var mid: seq<byte> := [w % 0x100, w / 0x100];
      assert IpHeader(src, dst, protocol, len, w) == front + (mid + back);
      LeSumConcat(front, mid + back);
      LeSumConcat(mid, back);
      assert mid[2..] == [];
    }
  }

  /** Re-summing a header with its checksum stored gives zero, in either byte order. */
  lemma IpHeaderChecks(src: Word32, dst: Word32, protocol: byte, payload: seq<byte>)
    requires |payload| + 20 < 0x1_0000
    ensures var h := IpPacket(src, dst, protocol, payload)[..20];
            Complement(LeSum(h)) == 0 && Complement(BeSum(h)) == 0
  {
    var blank := IpHeader(src, dst, protocol, |payload|, 0);
    var c := Complement(LeSum(blank));
    var h := IpHeader(src, dst, protocol, |payload|, c);
    assert IpPacket(src, dst, protocol, payload)[..20] == h;
    IpStoredAdds(src, dst, protocol, |payload|, c);
    ComplementSums(LeSum(blank), c);
    SumsSwap(h);
    assert forall x: nat :: x <= M && Swap16(x) == M ==> x == M;
  }
}
