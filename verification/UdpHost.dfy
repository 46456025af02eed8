/** The receiving and sending side: port table, reply capture, and the way of a datagram through both. */
module UdpHost {
  import opened Options
  import opened Bytes
  import opened Checksum
  import opened Udp

  /** A receive handler: none, the reply capture of a request, or one of the kernel's own. */
  datatype Handler = NoHandler | Capture | Own(id: nat)

  datatype Binding = Binding(port: Word16, handler: Handler)

  datatype Delivery = Delivery(handler: Handler, srcIp: Word32, srcPort: Word16, payload: seq<byte>)

  datatype Reply = Reply(srcIp: Word32, srcPort: Word16, payload: seq<byte>)

  // ----- the port table as a map -----

  /** Free slots carry port 0 and no port is bound twice. */
  ghost predicate TableOk(bs: seq<Binding>) {
    && |bs| == UDP_MAX_HANDLERS
    && (forall i :: 0 <= i < |bs| && bs[i].handler == NoHandler ==> bs[i].port == 0)
    && (forall i, j :: 0 <= i < j < |bs| && bs[i].handler != NoHandler && bs[j].handler != NoHandler ==>
        bs[i].port != bs[j].port)
  }

  /** The handler bound to a port. */
  function Bound(bs: seq<Binding>, port: Word16): Handler {
    if bs == [] then NoHandler
    else if bs[0].handler != NoHandler && bs[0].port == port then bs[0].handler
    else Bound(bs[1..], port)
  }

  predicate Full(bs: seq<Binding>) {
    forall i :: 0 <= i < |bs| ==> bs[i].handler != NoHandler
  }

  lemma {:induction false} BoundAt(bs: seq<Binding>, i: nat)
    requires i < |bs| && bs[i].handler != NoHandler
    requires forall j :: 0 <= j < i ==> bs[j].handler == NoHandler || bs[j].port != bs[i].port
    ensures Bound(bs, bs[i].port) == bs[i].handler
  {
    if i > 0 {
      BoundAt(bs[1..], i - 1);
    }
  }

  lemma {:induction false} Unbound(bs: seq<Binding>, port: Word16)
    requires forall j :: 0 <= j < |bs| ==> bs[j].handler == NoHandler || bs[j].port != port
    ensures Bound(bs, port) == NoHandler
  {
    if bs != [] {
      Unbound(bs[1..], port);
    }
  }

  /** Rewriting a slot that another port's lookup passes over does not change that lookup. */
  lemma {:induction false} BoundElsewhere(bs: seq<Binding>, i: nat, b: Binding, port: Word16)
    requires i < |bs|
    requires bs[i].handler == NoHandler || bs[i].port != port
    requires b.handler == NoHandler || b.port != port
    ensures Bound(bs[i := b], port) == Bound(bs, port)
  {
    if i == 0 {
      assert bs[i := b][1..] == bs[1..];
    } else {
      assert bs[i := b][1..] == bs[1..][i - 1 := b];
      BoundElsewhere(bs[1..], i - 1, b, port);
    }
  }

  // ----- what a host accepts -----

  /** udp_handle: the handler a datagram goes to. */
  function Receive(bs: seq<Binding>, src: Word32, dst: Word32, packet: seq<byte>): Option<Delivery>
    requires |packet| < 0x1_0000
  {
    if |packet| < 8 then None
    else
      var len := Read16(packet, 4);
      if len < 8 || len > |packet| then None
      else if Read16(packet, 6) != 0 && Complement(Covered(src, dst, packet[..len])) != 0 then None
      else
        var h := Bound(bs, Read16(packet, 2));
        if h == NoHandler then None else Some(Delivery(h, src, Read16(packet, 0), packet[8..len]))
  }

  /** A datagram built by udp_send arrives whole at the handler bound to its port, whatever bytes the
      receive buffer holds behind it. */
  lemma Delivered(bs: seq<Binding>, src: Word32, dst: Word32, srcPort: Word16, dstPort: Word16, payload: seq<byte>,
                  behind: seq<byte>)
    requires |payload| <= UDP_MAX_PAYLOAD && |payload| + |behind| < 0xFFF0
    ensures Receive(bs, src, dst, Datagram(src, dst, srcPort, dstPort, payload) + behind)
         == if Bound(bs, dstPort) == NoHandler then None else Some(Delivery(Bound(bs, dstPort), src, srcPort, payload))
  {
    var udp := Datagram(src, dst, srcPort, dstPort, payload);
    DatagramChecks(src, dst, srcPort, dstPort, payload);
    hide Datagram, Covered, Complement, Bound;
    var packet := udp + behind;
    assert packet[..|udp|] == udp && packet[8..|udp|] == udp[8..];
    assert Read16(packet, 0) == Read16(udp, 0) && Read16(packet, 2) == Read16(udp, 2);
    assert Read16(packet, 4) == Read16(udp, 4) && Read16(packet, 6) == Read16(udp, 6);
  }

  datatype Inbound = Inbound(srcIp: Word32, dstIp: Word32, protocol: byte, payloadLen: Word16)

  /** What a packet read in place gives access to: itself and the memory behind it, which ip_handle trusts
      the header not to point into. */
  type Memory = m: seq<byte> | |m| >= 20 + 0xFFFF witness seq(20 + 0xFFFF, _ => 0)

  /** ip_handle's reading of a packet: version 4 and our address, the rest taken from the header. */
  function IpReceive(ip: Word32, data: seq<byte>): Option<Inbound>
    requires |data| >= 20
  {
    var hdr := data[0] % 16 * 4;
    if data[0] / 16 != 4 || Read32(data, 16) != ip then None
    else Some(Inbound(Read32(data, 12), Read32(data, 16), data[9], (Read16(data, 2) - hdr) % 0x1_0000))
  }

  /** Where a packet ends up. */
  function IpDeliver(bs: seq<Binding>, ip: Word32, data: Memory): Option<Delivery> {
    match IpReceive(ip, data)
    case None => None
    case Some(r) =>
      if r.protocol != IP_PROTO_UDP then None
      else Receive(bs, r.srcIp, r.dstIp, data[20..20 + r.payloadLen])
  }

  /** A packet of `n` bytes whose header claims no more than that is handled by those bytes alone. */
  lemma HonestPacket(bs: seq<Binding>, ip: Word32, a: Memory, b: Memory, n: nat)
    requires 20 <= n <= |a| && n <= |b| && a[..n] == b[..n]
    requires IpReceive(ip, a).Some? ==> 20 + IpReceive(ip, a).value.payloadLen <= n
    ensures IpDeliver(bs, ip, a) == IpDeliver(bs, ip, b)
  {
    HeaderOnly(ip, a, a[..n]);
    HeaderOnly(ip, b, b[..n]);
    hide Receive, IpReceive;
    if IpReceive(ip, a).Some? {
      var len: nat := IpReceive(ip, a).value.payloadLen;
      SliceFront(a, n, 20, 20 + len);
      SliceFront(b, n, 20, 20 + len);
    }
  }

  lemma SliceFront(m: seq<byte>, n: nat, i: nat, j: nat)
    requires i <= j <= n <= |m|
    ensures m[i..j] == m[..n][i..j]
  {
  }

  lemma HeaderOnly(ip: Word32, a: seq<byte>, b: seq<byte>)
    requires |b| >= 20 && b <= a
    ensures IpReceive(ip, a) == IpReceive(ip, b)
  {
  }

  lemma Reads32(v: Word32)
    ensures Read32(Be32(v), 0) == v
  {
  }

  /** ip_handle reads back what ip_send wrote. */
  lemma IpDelivered(src: Word32, dst: Word32, protocol: byte, payload: seq<byte>)
    requires |payload| + 20 < 0x1_0000
    ensures var data := IpPacket(src, dst, protocol, payload);
            |data| == 20 + |payload| && data[20..] == payload
            && IpReceive(dst, data) == Some(Inbound(src, dst, protocol, |payload|))
  {
    var c := Complement(LeSum(IpHeader(src, dst, protocol, |payload|, 0)));
    var h := IpHeader(src, dst, protocol, |payload|, c);
    var data := IpPacket(src, dst, protocol, payload);
    assert data == h + payload;
    var front: seq<byte> := [0x45, 0] + Be16(20 + |payload|) + [0, 0, 0x40, 0, 64, protocol] + [c % 0x100, c / 0x100];
    assert h == front + Be32(src) + Be32(dst);
    hide IpHeader, IpPacket, Complement, LeSum;
    assert data[12..16] == Be32(src) && data[16..20] == Be32(dst);
    Reads32(src);
    Reads32(dst);
    hide Be32;
    assert Read32(data, 12) == Read32(data[12..16], 0) && Read32(data, 16) == Read32(data[16..20], 0);
    assert data[0] == 0x45 && data[9] == protocol && Read16(data, 2) == 20 + |payload|;
  }

  /** The packet one host sends another. */
  function Sent(src: Word32, dst: Word32, srcPort: Word16, dstPort: Word16, payload: seq<byte>): seq<byte>
    requires |payload| <= UDP_MAX_PAYLOAD
  {
    IpPacket(src, dst, IP_PROTO_UDP, Datagram(src, dst, srcPort, dstPort, payload))
  }

  /** What one host sends to a port another has bound arrives there whole, whatever lies behind it. */
  lemma PacketArrives(bs: seq<Binding>, src: Word32, dst: Word32, srcPort: Word16, dstPort: Word16, payload: seq<byte>,
      data: Memory)
    requires |payload| <= UDP_MAX_PAYLOAD && Sent(src, dst, srcPort, dstPort, payload) <= data
    ensures IpDeliver(bs, dst, data)
         == if Bound(bs, dstPort) == NoHandler then None else Some(Delivery(Bound(bs, dstPort), src, srcPort, payload))
  {
    var udp := Datagram(src, dst, srcPort, dstPort, payload);
    var packet := Sent(src, dst, srcPort, dstPort, payload);
    IpDelivered(src, dst, IP_PROTO_UDP, udp);
    Delivered(bs, src, dst, srcPort, dstPort, payload, []);
    hide Datagram, IpPacket, Receive, IpReceive, Bound;
    HeaderOnly(dst, data, packet);
    assert udp + [] == udp;
    assert data[20..20 + |udp|] == packet[20..];
  }

  // ----- replies to a request -----

  /** What a packet leaves in the reply buffer. */
  function Captured(bs: seq<Binding>, ip: Word32, data: Memory): Option<Reply> {
    match IpDeliver(bs, ip, data)
    case None => None
    case Some(d) => if d.handler == Capture then Some(Reply(d.srcIp, d.srcPort, Cut(d.payload))) else None
  }

  /** Of the packets that arrive together the last one captured is kept. */
  function LastReply(bs: seq<Binding>, ip: Word32, packets: seq<Memory>): Option<Reply> {
    if packets == [] then None
    else
      var n := |packets| - 1;
      if Captured(bs, ip, packets[n]).Some? then Captured(bs, ip, packets[n]) else LastReply(bs, ip, packets[..n])
  }

  lemma NoPackets(bs: seq<Binding>, ip: Word32)
    ensures LastReply(bs, ip, []) == None
  {
  }

  lemma OnePacket(bs: seq<Binding>, ip: Word32, packets: seq<Memory>, i: nat)
    requires i < |packets|
    ensures LastReply(bs, ip, packets[..i + 1])
         == if Captured(bs, ip, packets[i]).Some? then Captured(bs, ip, packets[i]) else LastReply(bs, ip, packets[..i])
  {
    hide Captured;
    assert packets[..i + 1][..i] == packets[..i];
  }

  /** The first arrival that brings a reply ends the waiting. */
  function FirstReply(bs: seq<Binding>, ip: Word32, arrivals: seq<seq<Memory>>): Option<Reply> {
    if arrivals == [] then None
    else if LastReply(bs, ip, arrivals[0]).Some? then LastReply(bs, ip, arrivals[0])
    else FirstReply(bs, ip, arrivals[1..])
  }

  /** The answer of the host asked, sent to the port the request came from, is what a waiting request gets. */
  lemma AnswerCaptured(bs: seq<Binding>, ip: Word32, from: Word32, fromPort: Word16, port: Word16, payload: seq<byte>,
      data: Memory)
    requires |payload| <= UDP_MAX_PAYLOAD && Bound(bs, port) == Capture
    requires Sent(from, ip, fromPort, port, payload) <= data
    ensures Captured(bs, ip, data) == Some(Reply(from, fromPort, payload))
  {
    PacketArrives(bs, from, ip, fromPort, port, payload, data);
    hide IpDeliver, Bound, Sent;
  }

  class Host {
    const ip: Word32
    var bindings: seq<Binding>
    // the reply to the outstanding request
    var ready: bool
    var reply: Reply
    var listening: Word16

    ghost predicate Valid()
      reads this
    {
      TableOk(bindings) && |reply.payload| <= MAX_REPLY
    }

    constructor (ip: Word32)
      ensures Valid() && this.ip == ip && !ready && listening == 0
      ensures forall p :: Bound(bindings, p) == NoHandler
    {
      this.ip := ip;
      bindings := seq(UDP_MAX_HANDLERS, _ => Binding(0, NoHandler));
      ready, reply, listening := false, Reply(0, 0, []), 0;
      new;
      forall p ensures Bound(bindings, p) == NoHandler {
        Unbound(bindings, p);
      }
    }

    /** udp_bind: the port is bound afterwards unless it was not and the table is full. */
    method Bind(port: Word16, handler: Handler) returns (rc: int)
      requires Valid() && handler != NoHandler
      modifies `bindings
      ensures Valid() && (rc == 0 || rc == -1)
      ensures rc == 0 <==> Bound(old(bindings), port) != NoHandler || !Full(old(bindings))
      ensures forall p :: Bound(bindings, p) == if rc == 0 && p == port then handler else Bound(old(bindings), p)
      ensures rc != 0 ==> bindings == old(bindings)
      ensures rc == 0 && port == 0 ==>
              (ZeroFirst(bindings) <==> Bound(old(bindings), 0) == NoHandler || ZeroFirst(old(bindings)))
    {
      var i := 0;
      while i < UDP_MAX_HANDLERS
        invariant 0 <= i <= UDP_MAX_HANDLERS && bindings == old(bindings)
        invariant forall j :: 0 <= j < i ==> bindings[j].handler == NoHandler || bindings[j].port != port
      {
        if bindings[i].handler != NoHandler && bindings[i].port == port {
          BoundAt(bindings, i);
          ZeroAgain(bindings, i, handler);
          Install(i, port, handler);
          return 0;
        }
        i := i + 1;
      }
      Unbound(bindings, port);
      i := 0;
      while i < UDP_MAX_HANDLERS
        invariant 0 <= i <= UDP_MAX_HANDLERS && bindings == old(bindings)
        invariant forall j :: 0 <= j < i ==> bindings[j].handler != NoHandler
      {
        if bindings[i].handler == NoHandler {
          if port == 0 { ZeroNew(bindings, i, handler); }
          Install(i, port, handler);
          return 0;
        }
        i := i + 1;
      }
      rc := -1;
    }

    /** Writes slot `i`, which is free or already the port's. */
    method Install(i: nat, port: Word16, handler: Handler)
      requires Valid() && handler != NoHandler && i < UDP_MAX_HANDLERS
      requires bindings[i].handler == NoHandler || bindings[i].port == port
      requires forall j :: 0 <= j < |bindings| && j != i ==>
              bindings[j].handler == NoHandler || bindings[j].port != port
      modifies `bindings
      ensures Valid() && forall p :: Bound(bindings, p) == if p == port then handler else Bound(old(bindings), p)
      ensures bindings == old(bindings)[i := Binding(port, handler)]
    {
      bindings := bindings[i := Binding(port, handler)];
      forall p ensures Bound(bindings, p) == if p == port then handler else Bound(old(bindings), p) {
        if p == port {
          BoundAt(bindings, i);
        } else {
          BoundElsewhere(old(bindings), i, Binding(port, handler), p);
        }
      }
    }

    /** udp_unbind: the port is unbound afterwards; for port 0 only if no free slot stands before its
        own, because free slots carry port 0 too. */
    method Unbind(port: Word16)
      requires Valid()
      modifies `bindings
      ensures Valid()
      ensures forall p :: p != port ==> Bound(bindings, p) == Bound(old(bindings), p)
      ensures port != 0 ==> Bound(bindings, port) == NoHandler
      ensures port == 0 ==>
              (Bound(bindings, 0) == NoHandler <==> Bound(old(bindings), 0) == NoHandler || ZeroFirst(old(bindings)))
      ensures Bound(bindings, port) == NoHandler || Bound(bindings, port) == Bound(old(bindings), port)
    {
      var i := 0;
      while i < UDP_MAX_HANDLERS
        invariant 0 <= i <= UDP_MAX_HANDLERS && bindings == old(bindings)
        invariant forall j :: 0 <= j < i ==> bindings[j].port != port
      {
        if bindings[i].port == port {
          Clear(i, port);
          return;
        }
        i := i + 1;
      }
      Unbound(bindings, port);
    }

    method Clear(i: nat, port: Word16)
      requires Valid() && i < UDP_MAX_HANDLERS && bindings[i].port == port
      requires forall j :: 0 <= j < i ==> bindings[j].port != port
      modifies `bindings
      ensures Valid() && forall p :: p != port ==> Bound(bindings, p) == Bound(old(bindings), p)
      ensures port != 0 ==> Bound(bindings, port) == NoHandler
      ensures port == 0 ==>
              (Bound(bindings, 0) == NoHandler <==> Bound(old(bindings), 0) == NoHandler || ZeroFirst(old(bindings)))
      ensures Bound(bindings, port) == NoHandler || Bound(bindings, port) == Bound(old(bindings), port)
    {
      bindings := bindings[i := Binding(0, NoHandler)];
      forall p | p != port ensures Bound(bindings, p) == Bound(old(bindings), p) {
        BoundElsewhere(old(bindings), i, Binding(0, NoHandler), p);
      }
      if old(bindings)[i].handler != NoHandler {
        Unbound(bindings, port);
        assert port == 0 ==> ZeroAt(old(bindings), i);
      } else {
        assert bindings == old(bindings);
        FreeBefore(bindings, i);
      }
    }

    /** udp_handle; a captured reply replaces the one before it. */
    method Handle(src: Word32, dst: Word32, packet: seq<byte>) returns (d: Option<Delivery>)
      requires Valid() && |packet| < 0x1_0000
      modifies `ready, `reply
      ensures Valid() && d == Receive(bindings, src, dst, packet)
      ensures if d.Some? && d.value.handler == Capture
              then ready && reply == Reply(src, d.value.srcPort, Cut(d.value.payload))
              else ready == old(ready) && reply == old(reply)
    {
      if |packet| < 8 {
        return None;
      }
      var len := Read16(packet, 4);
      if len < 8 || len > |packet| {
        return None;
      }
      if Read16(packet, 6) != 0 {
        var c := UdpChecksum(src, dst, packet[..len]);
        if c != 0 {
          return None;
        }
      }
      var dstPort := Read16(packet, 2);
      var i := 0;
      while i < UDP_MAX_HANDLERS
        invariant 0 <= i <= UDP_MAX_HANDLERS
        invariant forall j :: 0 <= j < i ==> bindings[j].handler == NoHandler || bindings[j].port != dstPort
        invariant Valid() && ready == old(ready) && reply == old(reply)
      {
        if bindings[i].handler != NoHandler && bindings[i].port == dstPort {
          BoundAt(bindings, i);
          d := Some(Delivery(bindings[i].handler, src, Read16(packet, 0), packet[8..len]));
          if bindings[i].handler == Capture {
            ready, reply := true, Reply(src, Read16(packet, 0), Cut(packet[8..len]));
          }
          return;
        }
        i := i + 1;
      }
      Unbound(bindings, dstPort);
      d := None;
    }

    /** ip_handle, for the UDP protocol; the header's claim about the length is not checked there. */
    method IpHandle(data: Memory) returns (d: Option<Delivery>)
      requires Valid()
      modifies `ready, `reply
      ensures Valid() && d == IpDeliver(bindings, ip, data)
      ensures var c := Captured(bindings, ip, data);
              if c.Some? then ready && reply == c.value else ready == old(ready) && reply == old(reply)
    {
      hide Receive;
      var r := IpReceive(ip, data);
      if r.None? || r.value.protocol != IP_PROTO_UDP {
        return None;
      }
      d := Handle(r.value.srcIp, r.value.dstIp, data[20..20 + r.value.payloadLen]);
      if d.Some? { ReceiveFrom(bindings, r.value.srcIp, r.value.dstIp, data[20..20 + r.value.payloadLen]); }
    }

    /** udp_send and ip_send: the packet that goes out, if the payload fits. */
    method Send(dst: Word32, srcPort: Word16, dstPort: Word16, payload: seq<byte>) returns (rc: int, packet: seq<byte>)
      ensures rc == if |payload| > UDP_MAX_PAYLOAD then -1 else 0
      ensures rc == 0 ==> packet == Sent(ip, dst, srcPort, dstPort, payload)
    {
      if |payload| > UDP_MAX_PAYLOAD {
        return -1, [];
      }
      var len := 8 + |payload|;
      var udp := UdpHeader(srcPort, dstPort, len, 0) + payload;
      var checksum := UdpChecksum(ip, dst, udp);
      if checksum == 0 {
        checksum := M;
      }
      udp := UdpHeader(srcPort, dstPort, len, checksum) + payload;
      var header := IpHeader(ip, dst, IP_PROTO_UDP, |udp|, 0);
      var ipChecksum := IpChecksum(header);
      packet := IpHeader(ip, dst, IP_PROTO_UDP, |udp|, ipChecksum) + udp;
      rc := 0;
    }

    /** udp_request_start: a fresh capture on the source port, and the request on its way. */
    method RequestStart(dst: Word32, srcPort: Word16, dstPort: Word16, payload: seq<byte>) returns (rc: int,
                        packet: seq<byte>)
      requires Valid()
      modifies this
      ensures Valid() && !ready
      ensures rc == 0 <==>
              (Bound(old(bindings), srcPort) != NoHandler || !Full(old(bindings))) && |payload| <= UDP_MAX_PAYLOAD
      ensures rc == 0 ==> listening == srcPort && Bound(bindings, srcPort) == Capture
                          && packet == Sent(ip, dst, srcPort, dstPort, payload)
      ensures forall p :: p != srcPort ==> Bound(bindings, p) == Bound(old(bindings), p)
      ensures rc != 0 ==>
              listening == 0
              && Bound(bindings, srcPort) == if LeftBound(old(bindings), srcPort, payload) then Capture else NoHandler
    {
      ready, reply, listening := false, reply.(payload := []), srcPort;
      packet := [];
      rc := Bind(srcPort, Capture);
      if rc != 0 {
        listening := 0;
        return -1, [];
      }
      rc, packet := Send(dst, srcPort, dstPort, payload);
      if rc != 0 {
        Unbind(srcPort);
        listening := 0;
        rc := -1;
      }
    }

    /** udp_request_try_reply. */
    method TryReply() returns (rc: int, out: Option<Reply>)
      ensures rc == if listening == 0 then -2 else if !ready then -1 else 0
      ensures out == if rc == 0 then Some(reply) else None
    {
      if listening == 0 {
        return -2, None;
      }
      if !ready {
        return -1, None;
      }
      rc, out := 0, Some(reply);
    }

    /** udp_request_finish. */
    method RequestFinish()
      requires Valid()
      modifies this
      ensures Valid() && !ready && listening == 0
      ensures old(listening) != 0 ==> Bound(bindings, old(listening)) == NoHandler
      ensures forall p :: p != old(listening) || p == 0 ==> Bound(bindings, p) == Bound(old(bindings), p)
    {
      if listening != 0 {
        Unbind(listening);
        listening := 0;
      }
      ready, reply := false, reply.(payload := []);
    }

    /** process_rx_packets: the packets that have arrived are handled in order. */
    method Process(packets: seq<Memory>)
      requires Valid()
      modifies `ready, `reply
      ensures Valid()
      ensures var r := LastReply(bindings, ip, packets);
              if r.Some? then ready && reply == r.value else ready == old(ready) && reply == old(reply)
    {
      hide Captured, Valid, LastReply;
      NoPackets(bindings, ip);
      var i := 0;
      while i < |packets|
        invariant i <= |packets| && Valid()
        invariant var r := LastReply(bindings, ip, packets[..i]);
                  if r.Some? then ready && reply == r.value else ready == old(ready) && reply == old(reply)
      {
        OnePacket(bindings, ip, packets, i);
        var _ := IpHandle(packets[i]);
        i := i + 1;
      }
      assert packets[..i] == packets;
    }

    /**
     A request and the wait for its reply, as the pull command does it; each of `arrivals` is what has come
     in since the last look. The reply is the last one of the first arrival that brings any, and the port is
     given back; from port 0 no reply is ever seen, and the capture stays bound.
     */
    method RequestWait(dst: Word32, srcPort: Word16, dstPort: Word16, payload: seq<byte>, arrivals: seq<seq<Memory>>)
      returns (answer: Option<Reply>, packet: seq<byte>, ghost during: seq<Binding>)
      requires Valid()
      modifies this
      ensures Valid() && !ready && listening == 0
      ensures var started := (Bound(old(bindings), srcPort) != NoHandler || !Full(old(bindings)))
              && |payload| <= UDP_MAX_PAYLOAD;
              && (started ==> packet == Sent(ip, dst, srcPort, dstPort, payload))
              && (started ==> forall p :: Bound(during, p) == if p == srcPort then Capture else Bound(old(bindings), p))
              && answer == (if started && srcPort != 0 then FirstReply(during, ip, arrivals) else None)
              && (started ==> Bound(bindings, srcPort) == if srcPort == 0 then Capture else NoHandler)
      ensures forall p :: p != srcPort ==> Bound(bindings, p) == Bound(old(bindings), p)
    {
      hide Bound, Full, Valid, LastReply;
      var rc;
      rc, packet := RequestStart(dst, srcPort, dstPort, payload);
      during := bindings;
      answer := None;
      if rc == 0 {
        answer := Wait(arrivals);
      }
      RequestFinish();
    }

    method Wait(arrivals: seq<seq<Memory>>) returns (answer: Option<Reply>)
      requires Valid() && !ready
      modifies `ready, `reply
      ensures Valid() && answer == if listening == 0 then None else FirstReply(bindings, ip, arrivals)
    {
      hide Valid, LastReply;
      var i := 0;
      while i < |arrivals|
        invariant i <= |arrivals| && Valid() && (listening != 0 ==> !ready)
        invariant listening != 0 ==> FirstReply(bindings, ip, arrivals[i..]) == FirstReply(bindings, ip, arrivals)
      {
        assert arrivals[i..][1..] == arrivals[i + 1..];
        Process(arrivals[i]);
        var rc, r := TryReply();
        if rc == 0 {
          return r;
        }
        i := i + 1;
      }
      answer := None;
    }
  }

  /** The one case in which a request that fails leaves its capture bound: it was too long, and came from
      port 0, which was bound behind a free slot. */
  ghost predicate LeftBound(bs: seq<Binding>, port: Word16, payload: seq<byte>) {
    |payload| > UDP_MAX_PAYLOAD && port == 0 && Bound(bs, 0) != NoHandler && !ZeroFirst(bs)
  }

  lemma FreeBefore(bs: seq<Binding>, i: nat)
    requires i < |bs| && bs[i].handler == NoHandler && bs[i].port == 0 && forall j :: 0 <= j < i ==> bs[j].port != 0
    ensures !ZeroFirst(bs)
  {
    forall k ensures !ZeroAt(bs, k) {
    }
  }

  /** A handler replaced keeps its place. */
  lemma ZeroAgain(bs: seq<Binding>, i: nat, handler: Handler)
    requires i < |bs| && bs[i].handler != NoHandler && handler != NoHandler
    ensures ZeroFirst(bs[i := Binding(bs[i].port, handler)]) <==> ZeroFirst(bs)
  {
    var c := bs[i := Binding(bs[i].port, handler)];
    assert forall j :: 0 <= j < |bs| ==> bs[j].port == c[j].port;
    if ZeroFirst(bs) {
      var k :| ZeroAt(bs, k);
      assert ZeroAt(c, k);
    }
    if ZeroFirst(c) {
      var k :| ZeroAt(c, k);
      assert ZeroAt(bs, k);
    }
  }

  /** Port 0, newly bound, takes the first free slot. */
  lemma ZeroNew(bs: seq<Binding>, i: nat, handler: Handler)
    requires i < |bs| && bs[i].handler == NoHandler && handler != NoHandler
    requires forall j :: 0 <= j < i ==> bs[j].handler != NoHandler
    requires forall j :: 0 <= j < |bs| ==> bs[j].handler == NoHandler || bs[j].port != 0
    ensures ZeroFirst(bs[i := Binding(0, handler)])
  {
    assert ZeroAt(bs[i := Binding(0, handler)], i);
  }

  lemma ReceiveFrom(bs: seq<Binding>, src: Word32, dst: Word32, packet: seq<byte>)
    requires |packet| < 0x1_0000 && Receive(bs, src, dst, packet).Some?
    ensures Receive(bs, src, dst, packet).value.srcIp == src
  {
  }

  predicate ZeroAt(bs: seq<Binding>, i: int) {
    0 <= i < |bs| && bs[i].port == 0 && bs[i].handler != NoHandler && forall j :: 0 <= j < i ==> bs[j].port != 0
  }

  /** Port 0 has a slot of its own before every free slot. */
  ghost predicate ZeroFirst(bs: seq<Binding>) {
    exists i :: ZeroAt(bs, i)
  }

  /** What fits in the reply buffer. */
  function Cut(payload: seq<byte>): (r: seq<byte>)
    ensures |r| <= MAX_REPLY && r <= payload
  {
    if |payload| > MAX_REPLY then payload[..MAX_REPLY] else payload
  }

  /** udp_checksum. */
  method UdpChecksum(src: Word32, dst: Word32, udp: seq<byte>) returns (c: nat)
    requires |udp| < 0x1_0000
    ensures c == Complement(Covered(src, dst, udp))
  {
    var sum := ChecksumAdd(0, PseudoHeader(src, dst, |udp|));
    sum := ChecksumAdd(sum, udp);
    sum := Fold(sum);
    c := M - sum;
  }
}
