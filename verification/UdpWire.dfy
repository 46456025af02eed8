/**
 Packets byte by byte, as RFC 768 and RFC 791 lay them out, and the proof that what a host sends and accepts
 is exactly that.
 */
module UdpWire {
  import opened Options
  import opened Bytes
  import opened Checksum
  import opened Udp
  import opened UdpHost

  // ----- sums -----

  /** Word `i` of a message, a missing last byte taken for zero. */
  function WordAt(data: seq<byte>, i: nat): nat
    requires 2 * i < |data|
  {
    256 * data[2 * i] + if 2 * i + 1 < |data| then data[2 * i + 1] as nat else 0
  }

  /** The sum of the words from word `i` on. */
  function WordsFrom(data: seq<byte>, i: nat): nat
    decreases |data| - i
  {
    if 2 * i >= |data| then 0 else WordAt(data, i) + WordsFrom(data, i + 1)
  }

  lemma {:induction false} WordsAre(data: seq<byte>, i: nat)
    requires 2 * i <= |data|
    ensures WordsFrom(data, i) == BeSum(data[2 * i..])
    decreases |data| - i
  {
    if 2 * i + 1 < |data| {
      WordsAre(data, i + 1);
      assert data[2 * i..][2..] == data[2 * (i + 1)..];
    }
  }

  /** What RFC 768 sums: the halves of both addresses, the protocol, the length, and the datagram. */
  function UdpTotal(src: Word32, dst: Word32, udp: seq<byte>): nat {
    src / 0x1_0000 + src % 0x1_0000 + dst / 0x1_0000 + dst % 0x1_0000 + 17 + |udp| + WordsFrom(udp, 0)
  }

  lemma CoveredIs(src: Word32, dst: Word32, udp: seq<byte>)
    requires |udp| < 0x1_0000
    ensures Covered(src, dst, udp) == UdpTotal(src, dst, udp)
  {
    var a, b, c := Be32(src), Be32(dst), [0, IP_PROTO_UDP] + Be16(|udp|);
    assert PseudoHeader(src, dst, |udp|) == a + (b + c);
    AddressSum(src);
    AddressSum(dst);
    BeSumConcat(a, b + c);
    BeSumConcat(b, c);
    BeSumConcat([0, IP_PROTO_UDP], Be16(|udp|));
    assert BeSum([0, IP_PROTO_UDP]) == 17 by { assert [0, IP_PROTO_UDP][2..] == []; }
    WordsAre(udp, 0);
    assert udp[0..] == udp;
  }

  lemma AddressSum(a: Word32)
    ensures BeSum(Be32(a)) == a / 0x1_0000 + a % 0x1_0000
  {
    BeSumConcat(Be16(a / 0x1_0000), Be16(a % 0x1_0000));
  }

  /** A datagram verifies exactly when that sum is a multiple of 65535. */
  lemma VerifiesWhen(src: Word32, dst: Word32, udp: seq<byte>)
    requires |udp| < 0x1_0000
    ensures Complement(Covered(src, dst, udp)) == 0 <==> UdpTotal(src, dst, udp) % 0xFFFF == 0
  {
    CoveredIs(src, dst, udp);
    ChecksWhen(Covered(src, dst, udp));
  }

  /** The other half, and the two zeros of one's-complement arithmetic, aside. */
  predicate OneHalfDiffers(a: Word32, b: Word32) {
    var ah, al, bh, bl := a / 0x1_0000, a % 0x1_0000, b / 0x1_0000, b % 0x1_0000;
    || (ah == bh && al != bl && !(al == 0 && bl == 0xFFFF) && !(al == 0xFFFF && bl == 0))
    || (al == bl && ah != bh && !(ah == 0 && bh == 0xFFFF) && !(ah == 0xFFFF && bh == 0))
  }

  /** A datagram that verifies for one destination does not for another, nor from another source. */
  lemma AddressesCovered(src: Word32, dst: Word32, other: Word32, udp: seq<byte>)
    requires |udp| < 0x1_0000 && Complement(Covered(src, dst, udp)) == 0
    ensures OneHalfDiffers(dst, other) ==> Complement(Covered(src, other, udp)) != 0
    ensures OneHalfDiffers(src, other) ==> Complement(Covered(other, dst, udp)) != 0
  {
    VerifiesWhen(src, dst, udp);
    VerifiesWhen(src, other, udp);
    VerifiesWhen(other, dst, udp);
    hide Complement, Covered, WordsFrom;
    if OneHalfDiffers(dst, other) { HalvesApart(UdpTotal(src, dst, udp), dst, other); }
    if OneHalfDiffers(src, other) { HalvesApart(UdpTotal(src, dst, udp), src, other); }
  }

  lemma HalvesApart(sum: nat, a: Word32, b: Word32)
    requires OneHalfDiffers(a, b) && sum >= a / 0x1_0000 + a % 0x1_0000 && sum % 0xFFFF == 0
    ensures (sum - (a / 0x1_0000 + a % 0x1_0000) + (b / 0x1_0000 + b % 0x1_0000)) % 0xFFFF != 0
  {
    var ah, al, bh, bl := a / 0x1_0000, a % 0x1_0000, b / 0x1_0000, b % 0x1_0000;
    if ah == bh { ModApart(sum - al, al, bl); } else { ModApart(sum - ah, ah, bh); }
  }

  // ----- what is sent -----

  /** The four bytes of an address, highest first. */
  function AddressBytes(a: Word32): (b: seq<byte>)
    ensures |b| == 4
  {
    [a / 0x100_0000, a / 0x1_0000 % 0x100, a / 0x100 % 0x100, a % 0x100]
  }

  function WordBytes(w: Word16): (b: seq<byte>)
    ensures |b| == 2
  {
    [w / 0x100, w % 0x100]
  }

  /** Section 3.1 of RFC 791: version 4, five words of header, no service, total length, identification 0, not
      to be fragmented, 64 hops, the protocol, the checksum, source, destination. */
  function IpLayout(src: Word32, dst: Word32, protocol: byte, total: Word16, checksum: Word16): (b: seq<byte>)
    ensures |b| == 20
  {
    [0x45, 0x00] + WordBytes(total) + [0x00, 0x00, 0x40, 0x00, 64, protocol] + WordBytes(checksum)
    + AddressBytes(src) + AddressBytes(dst)
  }

  /** RFC 768: ports, length, checksum. */
  function UdpLayout(srcPort: Word16, dstPort: Word16, len: Word16, checksum: Word16): (b: seq<byte>)
    ensures |b| == 8
  {
    WordBytes(srcPort) + WordBytes(dstPort) + WordBytes(len) + WordBytes(checksum)
  }

  lemma BytesOf(a: Word32, w: Word16)
    ensures Be32(a) == AddressBytes(a) && Be16(w) == WordBytes(w)
  {
    assert a / 0x1_0000 / 0x100 == a / 0x100_0000 && a % 0x1_0000 / 0x100 == a / 0x100 % 0x100;
    assert a % 0x1_0000 % 0x100 == a % 0x100;
  }

  /** The UDP checksum of a datagram is never zero and makes its sum a multiple of 65535. */
  lemma DatagramBytes(src: Word32, dst: Word32, srcPort: Word16, dstPort: Word16, payload: seq<byte>)
      returns (c: Word16)
    requires |payload| <= UDP_MAX_PAYLOAD
    ensures Datagram(src, dst, srcPort, dstPort, payload) == UdpLayout(srcPort, dstPort, 8 + |payload|, c) + payload
    ensures c != 0 && UdpTotal(src, dst, UdpLayout(srcPort, dstPort, 8 + |payload|, c) + payload) % 0xFFFF == 0
  {
    var udp := Datagram(src, dst, srcPort, dstPort, payload);
    var blank := UdpHeader(srcPort, dstPort, 8 + |payload|, 0) + payload;
    var sum := Complement(Covered(src, dst, blank));
    c := if sum == 0 then M else sum;
    assert udp == UdpHeader(srcPort, dstPort, 8 + |payload|, c) + payload;
    DatagramChecks(src, dst, srcPort, dstPort, payload);
    hide Datagram, Covered, Complement, UdpTotal;
    VerifiesWhen(src, dst, udp);
    BytesOf(src, srcPort);
    BytesOf(src, dstPort);
    BytesOf(src, 8 + |payload|);
    BytesOf(src, c);
  }

  /** The header checksum of a packet makes the sum of its header's words a multiple of 65535. */
  lemma HeaderBytes(src: Word32, dst: Word32, protocol: byte, payload: seq<byte>) returns (c: Word16)
    requires |payload| + 20 < 0x1_0000
    ensures IpPacket(src, dst, protocol, payload) == IpLayout(src, dst, protocol, 20 + |payload|, c) + payload
    ensures WordsFrom(IpLayout(src, dst, protocol, 20 + |payload|, c), 0) % 0xFFFF == 0
  {
    var stored := Complement(LeSum(IpHeader(src, dst, protocol, |payload|, 0)));
    c := Swap16(stored);
    var h := IpHeader(src, dst, protocol, |payload|, stored);
    IpHeaderChecks(src, dst, protocol, payload);
    assert IpPacket(src, dst, protocol, payload)[..20] == h;
    ChecksWhen(BeSum(h));
    WordsAre(h, 0);
    assert h[0..] == h;
    BytesOf(src, 20 + |payload|);
    BytesOf(dst, 0);
    SwappedBytes(stored);
    hide Complement, LeSum, BeSum, Be16, Be32;
    assert h == IpLayout(src, dst, protocol, 20 + |payload|, c);
  }

  lemma SwappedBytes(w: Word16)
    ensures WordBytes(Swap16(w)) == [w % 0x100, w / 0x100]
  {
  }

  /** What udp_send puts on the wire, byte by byte. */
  lemma SentBytes(src: Word32, dst: Word32, srcPort: Word16, dstPort: Word16, payload: seq<byte>)
      returns (ipSum: Word16, udpSum: Word16)
    requires |payload| <= 1472
    ensures Sent(src, dst, srcPort, dstPort, payload)
         == IpLayout(src, dst, 17, 28 + |payload|, ipSum)
            + (UdpLayout(srcPort, dstPort, 8 + |payload|, udpSum) + payload)
    ensures WordsFrom(IpLayout(src, dst, 17, 28 + |payload|, ipSum), 0) % 0xFFFF == 0
    ensures udpSum != 0
    ensures UdpTotal(src, dst, UdpLayout(srcPort, dstPort, 8 + |payload|, udpSum) + payload) % 0xFFFF == 0
  {
    udpSum := DatagramBytes(src, dst, srcPort, dstPort, payload);
    ipSum := HeaderBytes(src, dst, IP_PROTO_UDP, Datagram(src, dst, srcPort, dstPort, payload));
    hide IpLayout, UdpLayout, WordsFrom, UdpTotal, IpPacket;
  }

  // ----- what is accepted -----

  /** A datagram is delivered exactly when its length is at least its header's and no more than what came, its
      checksum is absent or right, and its destination port is bound; the payload ends at that length. */
  lemma DeliversExactly(bs: seq<Binding>, src: Word32, dst: Word32, p: seq<byte>, d: Delivery)
    requires |p| < 0x1_0000
    ensures Receive(bs, src, dst, p) == Some(d) <==>
              && |p| >= 8
              && var len := 256 * (p[4] as nat) + p[5];
                 && 8 <= len <= |p|
                 && ((p[6] == 0 && p[7] == 0) || UdpTotal(src, dst, p[..len]) % 0xFFFF == 0)
                 && Bound(bs, 256 * (p[2] as nat) + p[3]) != NoHandler
                 && d == Delivery(Bound(bs, 256 * (p[2] as nat) + p[3]), src, 256 * (p[0] as nat) + p[1], p[8..len])
  {
    if |p| >= 8 {
      var len := Read16(p, 4);
      if 8 <= len <= |p| { VerifiesWhen(src, dst, p[..len]); }
      hide Complement, Covered, UdpTotal, Bound;
    }
  }

  /** A packet is taken exactly when it is of version 4 and for this host; its payload is what the header's
      length leaves behind the header it claims. */
  lemma TakesExactly(ip: Word32, m: seq<byte>, r: Inbound)
    requires |m| >= 20
    ensures IpReceive(ip, m) == Some(r) <==>
              && 0x40 <= m[0] < 0x50
              && AddressBytes(ip) == m[16..20]
              && AddressBytes(r.srcIp) == m[12..16] && r.dstIp == ip && r.protocol == m[9]
              && r.payloadLen == (256 * (m[2] as int) + m[3] - 4 * (m[0] as int - 0x40)) % 0x1_0000
  {
    AddressRead(m, 12, r.srcIp);
    AddressRead(m, 16, ip);
    hide AddressBytes, Read32;
    assert 0x40 <= m[0] < 0x50 ==> m[0] % 16 == m[0] - 0x40;
  }

  lemma AddressRead(m: seq<byte>, p: nat, a: Word32)
    requires p + 4 <= |m|
    ensures Read32(m, p) == a <==> AddressBytes(a) == m[p..p + 4]
  {
    var s := m[p..p + 4];
    assert s[0] == m[p] && s[1] == m[p + 1] && s[2] == m[p + 2] && s[3] == m[p + 3];
    FourBytes(s[0], s[1], s[2], s[3]);
    hide Read32;
    assert Read32(m, p) == Read32(s, 0) by { SameRead(m, s, p); }
    if AddressBytes(a) == s { FourBack(a); }
  }

  lemma SameRead(m: seq<byte>, s: seq<byte>, p: nat)
    requires p + 4 <= |m| && s == m[p..p + 4]
    ensures Read32(m, p) == Read32(s, 0)
  {
    assert s[0] == m[p] && s[1] == m[p + 1] && s[2] == m[p + 2] && s[3] == m[p + 3];
  }

  lemma FourBytes(a: byte, b: byte, c: byte, d: byte)
    ensures AddressBytes(Read32([a, b, c, d], 0)) == [a, b, c, d]
  {
    var hi, lo := 0x100 * (a as nat) + b, 0x100 * (c as nat) + d;
    assert Read32([a, b, c, d], 0) == 0x1_0000 * hi + lo;
    HalfBytes(hi, lo);
    assert hi / 0x100 == a && hi % 0x100 == b && lo / 0x100 == c && lo % 0x100 == d;
    hide AddressBytes, Read32;
  }

  lemma HalfBytes(hi: Word16, lo: Word16)
    ensures AddressBytes(0x1_0000 * hi + lo) == [hi / 0x100, hi % 0x100, lo / 0x100, lo % 0x100]
  {
    var v := 0x1_0000 * hi + lo;
    assert v / 0x1_0000 == hi && v % 0x1_0000 == lo;
    assert v / 0x100_0000 == v / 0x1_0000 / 0x100 && v / 0x100 % 0x100 == v % 0x1_0000 / 0x100;
    assert v % 0x100 == v % 0x1_0000 % 0x100;
  }

  lemma FourBack(a: Word32)
    ensures Read32(AddressBytes(a), 0) == a
  {
    var hi, lo := a / 0x1_0000, a % 0x1_0000;
    assert a == 0x1_0000 * hi + lo;
    HalfBytes(hi, lo);
    hide AddressBytes;
  }
}
