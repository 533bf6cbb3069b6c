/** From any host's tcp_tx to this host's tcp_recv: frames that are lost, repeated, reordered or damaged. */
module EndToEnd {
  import opened Bits
  import opened TcpSpec
  import opened TcpTable
  import opened TcpProgress
  import opened ChecksumSpec
  import Arp
  import Wire

  /** A segment as some host sends it, and what becomes of the frame on the way. */
  datatype Sent = Sent(host: Wire.Host, dstMac: Arp.Mac, local: Seq32, dst: Seq32, seg: Segment, window: Wire.Word16)

  datatype Transit = Intact | Damaged(k: nat, w: Wire.Word16)

  predicate ValidSent(s: Sent) {
    Wire.ValidSegment(s.seg) && |s.seg.payload| <= Wire.MAX_PAYLOAD
  }

  function PacketOf(s: Sent): (b: seq<Byte>)
    requires ValidSent(s)
    ensures |b| == Wire.IP_HEADER + Wire.TCP_HEADER + |s.seg.payload|
  {
    Wire.IpPacket(s.host.ip, s.dst, s.host.nextId, Wire.IP_P_TCP, Wire.TcpPacket(s.local, s.dst, s.seg, s.window))
  }

  /** One aligned word of the IP header, changed so that the checksum tells: any value in the check field itself. */
  predicate ValidTransit(s: Sent, t: Transit)
    requires ValidSent(s)
  {
    t.Damaged? ==> t.k % 2 == 0 && t.k + 1 < Wire.IP_HEADER && Wire.Noticed(t.k, GetWord(PacketOf(s), t.k), t.w)
  }

  function FrameOf(s: Sent, t: Transit): seq<Byte>
    requires ValidSent(s) && ValidTransit(s, t)
  {
    Wire.Frame(s.dstMac, s.host.mac, if t.Intact? then PacketOf(s) else SetWord(PacketOf(s), t.k, t.w))
  }

  /** What a frame does at the host with this address: an intact segment for it arrives, anything else is dropped. */
  lemma FrameArrives(localIp: Seq32, s: Sent, t: Transit)
    requires ValidSent(s) && ValidTransit(s, t)
    ensures Wire.NetworkRx(localIp, FrameOf(s, t)) ==
      if t.Intact? && (s.dst == localIp || s.dst == Wire.BROADCAST) then Wire.Tcp(s.seg) else Wire.Dropped
  {
    var data := Wire.TcpPacket(s.local, s.dst, s.seg, s.window);
    if t.Intact? {
      Wire.FrameIsTransparent(s.dstMac, s.host.mac, PacketOf(s), localIp);
      Wire.PacketIsAccepted(localIp, s.host.ip, s.dst, s.host.nextId, Wire.IP_P_TCP, data);
      Wire.TcpInReadsPacket(s.local, s.dst, s.seg, s.window);
    } else {
      Wire.FrameIsTransparent(s.dstMac, s.host.mac, SetWord(PacketOf(s), t.k, t.w), localIp);
      Wire.DamagedHeader(localIp, s.host.ip, s.dst, s.host.nextId, Wire.IP_P_TCP, data, t.k, t.w);
    }
  }

  /** Two hosts that use the same ports are one peer to the receiver: the sender's address reaches nobody. */
  lemma SendersAreNotTold(localIp: Seq32, s: Sent, other: Wire.Host, mac: Arp.Mac)
    requires ValidSent(s)
    ensures Wire.NetworkRx(localIp, FrameOf(s.(host := other, dstMac := mac), Intact)) == Wire.NetworkRx(localIp, FrameOf(s, Intact))
  {
    FrameArrives(localIp, s, Intact);
    FrameArrives(localIp, s.(host := other, dstMac := mac), Intact);
  }

  // ---- a host that receives frames ----

  /** A frame, with the buffer that kmalloc has for a new socket, or any other call on the socket list. */
  datatype HostEvent = FrameIn(frame: seq<Byte>, buf: Option<seq<Byte>>) | Call(e: TableEvent)

  /** What the socket list sees of the host's events: a segment for every frame that network_rx lets through. */
  function Seen(localIp: Seq32, events: seq<HostEvent>): seq<TableEvent> {
    if events == [] then [] else Seen(localIp, events[..|events| - 1]) + SeenOf(localIp, events[|events| - 1])
  }

  function SeenOf(localIp: Seq32, h: HostEvent): seq<TableEvent> {
    match h
    case FrameIn(frame, buf) =>
      var r := Wire.NetworkRx(localIp, frame);
      if r.Tcp? then [SegmentIn(r.seg, buf)] else []
    case Call(e) => [e]
  }

  /** A segment that this host takes for the pair's connection: tcp_rx compares ports only, whoever the sender is. */
  predicate ForPair(localIp: Seq32, s: Sent, local: nat, remote: nat) {
    (s.dst == localIp || s.dst == Wire.BROADCAST) && s.seg.dstPort == local && s.seg.srcPort == remote
  }

  /**
   * A frame that some host sent: a segment, whoever sent it and whatever happened to it on the way, or
   * anything that is no TCP. Only what this host takes for the pair has to carry bytes of the stream.
   */
  ghost predicate OnTheWire(localIp: Seq32, frame: seq<Byte>, local: nat, remote: nat, isn: Seq32, stream: seq<Byte>) {
    || !Wire.NetworkRx(localIp, frame).Tcp?
    || exists s, t :: ValidSent(s) && ValidTransit(s, t) && frame == FrameOf(s, t) && (ForPair(localIp, s, local, remote) ==> Genuine(s.seg, isn, stream))
  }

  ghost predicate AllOnTheWire(localIp: Seq32, events: seq<HostEvent>, local: nat, remote: nat, isn: Seq32, stream: seq<Byte>) {
    forall h <- events :: if h.FrameIn? then OnTheWire(localIp, h.frame, local, remote, isn, stream) else !h.e.SegmentIn?
  }

  lemma {:induction false} SeenIsGenuine(localIp: Seq32, events: seq<HostEvent>, local: nat, remote: nat, isn: Seq32, stream: seq<Byte>)
    requires AllOnTheWire(localIp, events, local, remote, isn, stream)
    ensures PairIsGenuine(Seen(localIp, events), local, remote, isn, stream)
  {
    if events != [] {
      var h := events[|events| - 1];
      assert h in events;
      SeenIsGenuine(localIp, events[..|events| - 1], local, remote, isn, stream);
      if h.FrameIn? && Wire.NetworkRx(localIp, h.frame).Tcp? {
        var s, t :| ValidSent(s) && ValidTransit(s, t) && h.frame == FrameOf(s, t) && (ForPair(localIp, s, local, remote) ==> Genuine(s.seg, isn, stream));
        FrameArrives(localIp, s, t);
      }
    }
  }

  /**
   * From the wire to the user, with any number of hosts and connections: frames may be lost, repeated,
   * reordered, damaged in a word of the IP header, or meant for others, and timers, cleanups, reads and
   * closes come in between. What tcp_recv returns on one connection is a prefix of its peer's stream.
   */
  lemma FramesDeliverPrefix(localIp: Seq32, slots: seq<Slot>, events: seq<HostEvent>, local: nat, remote: nat, c: Conn, isn: Seq32, stream: seq<Byte>)
    requires TableOk(slots) && ConnOf(slots, local, remote) == Some(c) && Spawned(c, isn)
    requires Survives(slots, Seen(localIp, events), local, remote)
    requires |stream| < TWO32 && AllOnTheWire(localIp, events, local, remote, isn, stream)
    ensures ReadFrom(slots, Seen(localIp, events), local, remote) <= stream
  {
    SeenIsGenuine(localIp, events, local, remote, isn, stream);
    StackDeliversPrefix(slots, Seen(localIp, events), local, remote, c, isn, stream);
  }

  /** The same from the peer's SYN on: its frame reaches a listener, which makes the connection that is then read. */
  lemma ConversationDeliversPrefix(localIp: Seq32, slots: seq<Slot>, syn: Sent, buf: seq<Byte>, events: seq<HostEvent>, stream: seq<Byte>)
    requires TableOk(slots) && ValidSent(syn) && Fits(syn.seg) && IsSyn(syn.seg.flags) && |buf| == RX_BUF_SIZE
    requires ForPair(localIp, syn, syn.seg.dstPort, syn.seg.srcPort)
    requires Find(slots, syn.seg) < |slots| && Listens(slots[Find(slots, syn.seg)])
    requires |stream| < TWO32 && AllOnTheWire(localIp, events, syn.seg.dstPort, syn.seg.srcPort, syn.seg.seqNo, stream)
    ensures SeenOf(localIp, FrameIn(FrameOf(syn, Intact), Some(buf))) == [SegmentIn(syn.seg, Some(buf))]
    ensures var spawned := NextTable(slots, SegmentIn(syn.seg, Some(buf)));
      Survives(spawned, Seen(localIp, events), syn.seg.dstPort, syn.seg.srcPort) ==>
        ReadFrom(spawned, Seen(localIp, events), syn.seg.dstPort, syn.seg.srcPort) <= stream
  {
    var spawned, local, remote := Deliver(slots, syn.seg, Some(buf)), syn.seg.dstPort, syn.seg.srcPort;
    FrameArrives(localIp, syn, Intact);
    SynSpawnsConnection(slots, syn.seg, buf);
    DeliverKeepsTable(slots, syn.seg, Some(buf));
    if Survives(spawned, Seen(localIp, events), local, remote) {
      FramesDeliverPrefix(localIp, spawned, events, local, remote, ConnOf(spawned, local, remote).value, syn.seg.seqNo, stream);
    }
  }

  /** Frames from which network_rx gets the segments of a conversation. */
  lemma ConversationIsSeen(localIp: Seq32, events: seq<HostEvent>, syn: Segment, buf: seq<Byte>, ack: Segment, data: Segment, len: nat)
    requires |events| == 4 && FrameOfSegment(localIp, events[0], Some(buf), syn)
    requires FrameOfSegment(localIp, events[1], None, ack) && FrameOfSegment(localIp, events[2], None, data) && events[3] == Call(ReadSocket(0, len))
    ensures Seen(localIp, events) == Conversation(syn, buf, ack, data, len)
  {
    ThreeSeen(localIp, events[..3], syn, buf, ack, data);
    CallSeen(localIp, events, events[..3], ReadSocket(0, len));
  }

  lemma ThreeSeen(localIp: Seq32, events: seq<HostEvent>, syn: Segment, buf: seq<Byte>, ack: Segment, data: Segment)
    requires |events| == 3 && FrameOfSegment(localIp, events[0], Some(buf), syn)
    requires FrameOfSegment(localIp, events[1], None, ack) && FrameOfSegment(localIp, events[2], None, data)
    ensures Seen(localIp, events) == [SegmentIn(syn, Some(buf)), SegmentIn(ack, None), SegmentIn(data, None)]
  {
    TwoSeen(localIp, events[..2], syn, buf, ack);
    SegmentSeen(localIp, events, events[..2], None, data, [SegmentIn(syn, Some(buf)), SegmentIn(ack, None)]);
  }

  lemma TwoSeen(localIp: Seq32, events: seq<HostEvent>, syn: Segment, buf: seq<Byte>, ack: Segment)
    requires |events| == 2 && FrameOfSegment(localIp, events[0], Some(buf), syn) && FrameOfSegment(localIp, events[1], None, ack)
    ensures Seen(localIp, events) == [SegmentIn(syn, Some(buf)), SegmentIn(ack, None)]
  {
    assert events[..1][..0] == events[..0] == [];
    SegmentSeen(localIp, events[..1], [], Some(buf), syn, []);
    SegmentSeen(localIp, events, events[..1], None, ack, [SegmentIn(syn, Some(buf))]);
  }

  ghost predicate FrameOfSegment(localIp: Seq32, h: HostEvent, buf: Option<seq<Byte>>, seg: Segment) {
    h.FrameIn? && h.buf == buf && Wire.NetworkRx(localIp, h.frame) == Wire.Tcp(seg)
  }

  lemma SegmentSeen(localIp: Seq32, events: seq<HostEvent>, before: seq<HostEvent>, buf: Option<seq<Byte>>, seg: Segment, seen: seq<TableEvent>)
    requires events != [] && events[..|events| - 1] == before && Seen(localIp, before) == seen
    requires FrameOfSegment(localIp, events[|events| - 1], buf, seg)
    ensures Seen(localIp, events) == seen + [SegmentIn(seg, buf)]
  {
  }

  lemma CallSeen(localIp: Seq32, events: seq<HostEvent>, before: seq<HostEvent>, e: TableEvent)
    requires events != [] && events[..|events| - 1] == before && events[|events| - 1] == Call(e)
    ensures Seen(localIp, events) == Seen(localIp, before) + [e]
  {
  }

  /**
   * The other way round, a conversation does get through: the frames of SYN, ACK and first data, from whatever
   * host, reach a listener intact, and the user of the socket that it makes reads the data.
   */
  lemma ConversationArrives(localIp: Seq32, slots: seq<Slot>, syn: Sent, buf: seq<Byte>, ack: Sent, data: Sent, len: nat, events: seq<HostEvent>)
    requires |events| == 4 && IntactFrame(localIp, syn, Some(buf), events[0])
    requires IntactFrame(localIp, ack, None, events[1]) && IntactFrame(localIp, data, None, events[2]) && events[3] == Call(ReadSocket(0, len))
    requires CanConverse(slots, syn.seg, buf, ack.seg, data.seg)
    ensures Seen(localIp, events) == Conversation(syn.seg, buf, ack.seg, data.seg, len)
    ensures ReadFrom(slots, Conversation(syn.seg, buf, ack.seg, data.seg, len), syn.seg.dstPort, syn.seg.srcPort)
         == data.seg.payload[..Min(|data.seg.payload|, len)]
  {
    IntactArrives(localIp, syn, Some(buf), events[0]);
    IntactArrives(localIp, ack, None, events[1]);
    IntactArrives(localIp, data, None, events[2]);
    ConversationIsSeen(localIp, events, syn.seg, buf, ack.seg, data.seg, len);
    ConversationWorks(slots, syn.seg, buf, ack.seg, data.seg, len);
  }

  /** The frame of a segment for this host, as it was sent. */
  ghost predicate IntactFrame(localIp: Seq32, s: Sent, buf: Option<seq<Byte>>, h: HostEvent) {
    ValidSent(s) && s.dst == localIp && h == FrameIn(FrameOf(s, Intact), buf)
  }

  lemma IntactArrives(localIp: Seq32, s: Sent, buf: Option<seq<Byte>>, h: HostEvent)
    requires IntactFrame(localIp, s, buf, h)
    ensures FrameOfSegment(localIp, h, buf, s.seg)
  {
    FrameArrives(localIp, s, Intact);
  }

  // ---- what the receiver does not check ----

  /** The IP checksum covers the header only, and tcp_rx looks at no checksum: any changed word of a segment is delivered. */
  lemma SegmentDamageIsUnnoticed(src: Seq32, dst: Seq32, id: Wire.Word16, data: seq<Byte>, k: nat, w: Wire.Word16)
    requires Wire.IP_HEADER + |data| <= ONES && WordAt(data, k)
    ensures WordAt(Wire.IpPacket(src, dst, id, Wire.IP_P_TCP, data), Wire.IP_HEADER + k)
    ensures Wire.IpRx(dst, SetWord(Wire.IpPacket(src, dst, id, Wire.IP_P_TCP, data), Wire.IP_HEADER + k, w))
         == Wire.TcpIn(SetWord(data, k, w))
  {
    var totalLen := Wire.IP_HEADER + |data|;
    var header := Wire.IpHeader(src, dst, id, Wire.IP_P_TCP, totalLen, Checksum(Wire.IpHeader(src, dst, id, Wire.IP_P_TCP, totalLen, 0)));
    WordOfTail(header, data, k, w);
    Wire.PacketIsAccepted(dst, src, dst, id, Wire.IP_P_TCP, SetWord(data, k, w));
  }

  /** Although the checksum that tcp_tx stored would have told. */
  lemma SegmentDamageShows(src: Seq32, dst: Seq32, seg: Segment, window: Wire.Word16, k: nat, w: Wire.Word16)
    requires Wire.ValidSegment(seg) && WordAt(Wire.TcpPacket(src, dst, seg, window), k)
    requires Wire.Distinguishable(GetWord(Wire.TcpPacket(src, dst, seg, window), k), w)
    ensures !Verifies(Wire.PseudoHeader(src, dst, Wire.TCP_HEADER + |seg.payload|) + SetWord(Wire.TcpPacket(src, dst, seg, window), k, w))
  {
    Wire.TcpPacketVerifies(src, dst, seg, window);
    TailDamageShows(Wire.PseudoHeader(src, dst, Wire.TCP_HEADER + |seg.payload|), Wire.TcpPacket(src, dst, seg, window), k, w);
  }

  lemma TailDamageShows(pseudo: seq<Byte>, data: seq<Byte>, k: nat, w: Wire.Word16)
    requires |pseudo| % 2 == 0 && WordAt(data, k) && Wire.Distinguishable(GetWord(data, k), w) && Verifies(pseudo + data)
    ensures !Verifies(pseudo + SetWord(data, k, w))
  {
    WordOfTail(pseudo, data, k, w);
    SingleWordErrors(pseudo + data, |pseudo| + k, w);
  }

  lemma WordOfTail(a: seq<Byte>, b: seq<Byte>, k: nat, w: Wire.Word16)
    requires |a| % 2 == 0 && WordAt(b, k)
    ensures WordAt(a + b, |a| + k) && GetWord(a + b, |a| + k) == GetWord(b, k)
    ensures SetWord(a + b, |a| + k, w) == a + SetWord(b, k, w)
  {
  }
}
