/** Encapsulation: what tcp_tx and ip_send put on the wire, and what network_rx makes of it. */
module Wire {
  import opened Bits
  import opened TcpSpec
  import opened ChecksumSpec
  import opened Arp

  const ETH_HEADER := 14
  const IP_HEADER := 20
  const TCP_HEADER := 20
  const ICMP_HEADER := 8
  const UDP_HEADER := 8
  const ETH_P_IP := 0x0800
  const ETH_P_ARP := 0x0806
  const ARP_PACKET := 28
  const ARP_OP_REPLY := 2
  const IP_P_ICMP := 1
  const IP_P_TCP := 6
  const IP_P_UDP := 17
  const BROADCAST := 0xFFFF_FFFF

  /** The longest payload whose frame length still fits in 16 bits. */
  const MAX_PAYLOAD := 0xFFFF - ETH_HEADER - IP_HEADER - TCP_HEADER

  type Word16 = n: nat | n <= ONES

  // ---- machine words in memory, least significant byte first ----

  function Store16(x: Word16): (b: seq<Byte>)
    ensures |b| == 2
  {
    var lo: nat := x % 0x100;
    var hi: nat := x / 0x100;
    [lo, hi]
  }

  function Store32(x: Seq32): (b: seq<Byte>)
    ensures |b| == 4
  {
    Store16(x % 0x1_0000) + Store16(x / 0x1_0000)
  }

  function Load32(b: seq<Byte>, at: nat): Seq32
    requires at % 2 == 0 && at + 4 <= |b|
  {
    GetWord(b, at) + 0x1_0000 * GetWord(b, at + 2)
  }

  /** bswap32: htonl and ntohl. (Swap16 is bswap16.) */
  function Swap32(x: Seq32): Seq32 {
    Swap16(x / 0x1_0000) + Swap16(x % 0x1_0000) * 0x1_0000
  }

  /** A field in network order. */
  function Net16(x: Word16): (b: seq<Byte>)
    ensures |b| == 2
  {
    SwapIsInvolution(x);
    Store16(Swap16(x))
  }

  function Net32(x: Seq32): (b: seq<Byte>)
    ensures |b| == 4
  {
    Store32(Swap32(x))
  }

  /** ntohs of a 16-bit field. */
  function GetNet16(b: seq<Byte>, at: nat): Word16
    requires WordAt(b, at)
  {
    var hi: nat, lo: nat := b[at], b[at + 1];
    0x100 * hi + lo
  }

  /** That is bswap16 of the word as it is loaded. */
  lemma GetNet16IsBswap(b: seq<Byte>, at: nat)
    requires WordAt(b, at)
    ensures Swap16(GetWord(b, at)) == GetNet16(b, at)
  {
    DivModUnique(GetWord(b, at), 0x100, b[at + 1], b[at]);
  }

  /** ntohl of a 32-bit field. */
  function GetNet32(b: seq<Byte>, at: nat): Seq32
    requires at % 2 == 0 && at + 4 <= |b|
  {
    GetNet16(b, at) * 0x1_0000 + GetNet16(b, at + 2)
  }

  /** That is bswap32 of the word as it is loaded. */
  lemma GetNet32IsBswap(b: seq<Byte>, at: nat, x: Seq32)
    requires at % 2 == 0 && at + 4 <= |b| && x == Load32(b, at)
    ensures Swap32(x) == GetNet32(b, at)
  {
    DivModUnique(x, 0x1_0000, GetWord(b, at + 2), GetWord(b, at));
    GetNet16IsBswap(b, at);
    GetNet16IsBswap(b, at + 2);
  }

  /** bswap32 as the shifts and masks of the source write it. */
  lemma Swap32IsShifts(x: Seq32)
    ensures Swap32(x) == x / 0x100_0000 + x / 0x1_0000 % 0x100 * 0x100 + x / 0x100 % 0x100 * 0x1_0000 + x % 0x100 * 0x100_0000
  {
    var hi, lo := x / 0x1_0000, x % 0x1_0000;
    var a, b, c, d := lo % 0x100, lo / 0x100, hi % 0x100, hi / 0x100;
    assert x == a + 0x100 * b + 0x1_0000 * c + 0x100_0000 * d;
    DivModUnique(x, 0x100_0000, d, a + 0x100 * b + 0x1_0000 * c);
    DivModUnique(x, 0x100, b + 0x100 * (c + 0x100 * d), a);
    DivModUnique(x / 0x100, 0x100, c + 0x100 * d, b);
  }

  /** `piece` occupies `b` from `at` on. */
  predicate Holds(b: seq<Byte>, at: nat, piece: seq<Byte>) {
    at + |piece| <= |b| && b[at..at + |piece|] == piece
  }

  lemma HoldsInside(a: seq<Byte>, piece: seq<Byte>, c: seq<Byte>)
    ensures Holds(a + piece + c, |a|, piece)
  {
  }

  lemma HoldsPrefix(a: seq<Byte>, at: nat, piece: seq<Byte>, b: seq<Byte>)
    requires Holds(a, at, piece)
    ensures Holds(a + b, at, piece)
  {
    assert (a + b)[at..at + |piece|] == a[at..at + |piece|];
  }

  lemma LoadStored(b: seq<Byte>, at: nat, x: Word16)
    requires at % 2 == 0 && Holds(b, at, Store16(x))
    ensures GetWord(b, at) == x
  {
    assert b[at] == b[at..at + 2][0] && b[at + 1] == b[at..at + 2][1];
  }

  /** A field written in network order, whatever surrounds it, is read back unchanged. */
  lemma Field16(b: seq<Byte>, at: nat, x: Word16)
    requires at % 2 == 0 && Holds(b, at, Net16(x))
    ensures GetNet16(b, at) == x
  {
    SwapIsInvolution(x);
    LoadStored(b, at, Swap16(x));
    GetNet16IsBswap(b, at);
  }

  lemma Swap32IsInvolution(x: Seq32)
    ensures Swap32(Swap32(x)) == x
  {
    SwapIsInvolution(x / 0x1_0000);
    SwapIsInvolution(x % 0x1_0000);
    DivModUnique(Swap32(x), 0x1_0000, Swap16(x % 0x1_0000), Swap16(x / 0x1_0000));
  }

  lemma HoldsParts(b: seq<Byte>, at: nat, p: seq<Byte>, q: seq<Byte>)
    requires Holds(b, at, p + q)
    ensures Holds(b, at, p) && Holds(b, at + |p|, q)
  {
    var s := b[at..at + |p + q|];
    assert b[at..at + |p|] == s[..|p|] == p;
    assert b[at + |p|..at + |p| + |q|] == s[|p|..] == q;
  }

  lemma Load32Stored(b: seq<Byte>, at: nat, x: Seq32)
    requires at % 2 == 0 && Holds(b, at, Store32(x))
    ensures Load32(b, at) == x
  {
    HoldsParts(b, at, Store16(x % 0x1_0000), Store16(x / 0x1_0000));
    LoadStored(b, at, x % 0x1_0000);
    LoadStored(b, at + 2, x / 0x1_0000);
  }

  lemma Field32(b: seq<Byte>, at: nat, x: Seq32)
    requires at % 2 == 0 && Holds(b, at, Net32(x))
    ensures GetNet32(b, at) == x
  {
    Load32Stored(b, at, Swap32(x));
    GetNet32IsBswap(b, at, Swap32(x));
    Swap32IsInvolution(x);
  }

  /** The word in the middle of two pieces of even length, and the effect of storing another there. */
  lemma WordInside(a: seq<Byte>, x: Word16, c: seq<Byte>, y: Word16)
    requires |a| % 2 == 0
    ensures GetWord(a + Store16(x) + c, |a|) == x
    ensures SetWord(a + Store16(x) + c, |a|, y) == a + Store16(y) + c
  {
    HoldsInside(a, Store16(x), c);
    LoadStored(a + Store16(x) + c, |a|, x);
    assert SetWord(a + Store16(x) + c, |a|, y) == a + Store16(y) + c;
  }

  // ---- tcp_tx ----

  predicate ValidSegment(seg: Segment) {
    seg.srcPort <= ONES && seg.dstPort <= ONES && seg.flags < 0x100 && TCP_HEADER + |seg.payload| <= ONES
  }

  /** The pseudo header of tcp_checksum. */
  function PseudoHeader(src: Seq32, dst: Seq32, tcpLen: Word16): (b: seq<Byte>)
    ensures |b| == 12
  {
    Net32(src) + Net32(dst) + [0, IP_P_TCP] + Net16(tcpLen)
  }

  /** The TCP header up to its checksum. The offset byte is 5, not shifted into the high nibble. */
  function TcpFront(seg: Segment, window: Word16): (b: seq<Byte>)
    requires ValidSegment(seg)
    ensures |b| == 16
  {
    Net16(seg.srcPort) + Net16(seg.dstPort) + Net32(seg.seqNo) + Net32(seg.ackNo) + [TCP_HEADER / 4, seg.flags] + Net16(window)
  }

  /** The whole header: front, checksum, urgent pointer. */
  function TcpHeader(seg: Segment, window: Word16, checksum: Word16): (b: seq<Byte>)
    requires ValidSegment(seg)
    ensures |b| == TCP_HEADER
  {
    TcpFront(seg, window) + Store16(checksum) + Store16(0)
  }

  /** tcp_checksum: pseudo header, header with a zero checksum field, data. */
  function TcpChecksum(src: Seq32, dst: Seq32, seg: Segment, window: Word16): (r: Word16)
    requires ValidSegment(seg)
  {
    Checksum(PseudoHeader(src, dst, TCP_HEADER + |seg.payload|) + TcpHeader(seg, window, 0) + seg.payload)
  }

  /** The packet that tcp_tx gives to ip_send. */
  function TcpPacket(src: Seq32, dst: Seq32, seg: Segment, window: Word16): (b: seq<Byte>)
    requires ValidSegment(seg)
    ensures |b| == TCP_HEADER + |seg.payload|
  {
    TcpHeader(seg, window, TcpChecksum(src, dst, seg, window)) + seg.payload
  }

  lemma PiecesRegroup(pseudo: seq<Byte>, front: seq<Byte>, word: seq<Byte>, rest: seq<Byte>, payload: seq<Byte>)
    ensures pseudo + (front + word + rest) + payload == (pseudo + front) + word + (rest + payload)
    ensures pseudo + ((front + word + rest) + payload) == (pseudo + front) + word + (rest + payload)
  {
  }

  /** A checksum computed with a zero word in its place, and then stored there. */
  lemma StoredInsideVerifies(a: seq<Byte>, b: seq<Byte>)
    requires |a| % 2 == 0
    ensures Verifies(a + Store16(Checksum(a + Store16(0) + b)) + b)
  {
    var c := Checksum(a + Store16(0) + b);
    WordInside(a, 0, b, c);
    StoredChecksumVerifies(a + Store16(0) + b, |a|);
  }

  lemma PartsVerify(pseudo: seq<Byte>, front: seq<Byte>, payload: seq<Byte>, c: Word16)
    requires |pseudo| % 2 == 0 && |front| % 2 == 0
    requires c == Checksum(pseudo + (front + Store16(0) + Store16(0)) + payload)
    ensures Verifies(pseudo + ((front + Store16(c) + Store16(0)) + payload))
  {
    PiecesRegroup(pseudo, front, Store16(0), Store16(0), payload);
    PiecesRegroup(pseudo, front, Store16(c), Store16(0), payload);
    StoredInsideVerifies(pseudo + front, Store16(0) + payload);
  }

  /** The checksum in the packet is valid: pseudo header and packet together sum to 0xFFFF. */
  lemma TcpPacketVerifies(src: Seq32, dst: Seq32, seg: Segment, window: Word16)
    requires ValidSegment(seg)
    ensures Verifies(PseudoHeader(src, dst, TCP_HEADER + |seg.payload|) + TcpPacket(src, dst, seg, window))
  {
    var pseudo := PseudoHeader(src, dst, TCP_HEADER + |seg.payload|);
    PartsVerify(pseudo, TcpFront(seg, window), seg.payload, TcpChecksum(src, dst, seg, window));
  }

  // ---- icmp_echo_reply, udp_tx ----

  /** An echo reply: type and code 0, checksum over the whole packet. */
  function EchoReply(id: Word16, seqNo: Word16, data: seq<Byte>): (b: seq<Byte>)
    ensures |b| == ICMP_HEADER + |data|
  {
    var rest := Net16(id) + Net16(seqNo) + data;
    [0, 0] + Store16(Checksum([0, 0] + Store16(0) + rest)) + rest
  }

  lemma EchoReplyVerifies(id: Word16, seqNo: Word16, data: seq<Byte>)
    ensures Verifies(EchoReply(id, seqNo, data))
  {
    StoredInsideVerifies([0, 0], Net16(id) + Net16(seqNo) + data);
  }

  /** A datagram; its checksum is left zero. */
  function UdpPacket(srcPort: Word16, dstPort: Word16, data: seq<Byte>): (b: seq<Byte>)
    requires UDP_HEADER + |data| <= ONES
    ensures |b| == UDP_HEADER + |data|
  {
    Net16(srcPort) + Net16(dstPort) + Net16(UDP_HEADER + |data|) + Store16(0) + data
  }

  // ---- ip_send ----

  /** The IP header up to its checksum. */
  function IpFront(id: Word16, proto: Byte, totalLen: Word16): (b: seq<Byte>)
    ensures |b| == 10
  {
    [0x45, 0] + Net16(totalLen) + Net16(id) + Store16(0) + [64, proto]
  }

  function IpHeader(src: Seq32, dst: Seq32, id: Word16, proto: Byte, totalLen: Word16, check: Word16): (b: seq<Byte>)
    ensures |b| == IP_HEADER
  {
    IpFront(id, proto, totalLen) + Store16(check) + (Net32(src) + Net32(dst))
  }

  function IpPacket(src: Seq32, dst: Seq32, id: Word16, proto: Byte, data: seq<Byte>): (b: seq<Byte>)
    requires IP_HEADER + |data| <= ONES
    ensures |b| == IP_HEADER + |data|
  {
    var totalLen := IP_HEADER + |data|;
    IpHeader(src, dst, id, proto, totalLen, Checksum(IpHeader(src, dst, id, proto, totalLen, 0))) + data
  }

  function Frame(dstMac: Mac, srcMac: Mac, packet: seq<Byte>): seq<Byte> {
    dstMac + srcMac + Net16(ETH_P_IP) + packet
  }

  /** What ip_send reads: the interface, the ARP cache, and the counter it advances. */
  datatype Host = Host(ip: Seq32, gateway: Seq32, mac: Mac, arp: seq<Entry>, nextId: Word16)

  /** Destinations outside the /24 network go through the gateway. */
  function NextHop(h: Host, dst: Seq32): Seq32 {
    if dst / 0x100 != h.ip / 0x100 then h.gateway else dst
  }

  /** The frame for a packet, if the ARP cache knows the next hop. */
  function FrameFor(h: Host, dst: Seq32, packet: seq<Byte>): Option<seq<Byte>> {
    var dstMac := Lookup(h.arp, NextHop(h, dst));
    if dstMac.None? then None else Some(Frame(dstMac.value, h.mac, packet))
  }

  /** ip_send with memory and a device at hand: no frame leaves without an ARP entry, but the counter moves. */
  function IpSend(h: Host, dst: Seq32, proto: Byte, data: seq<Byte>): (r: (Host, Option<seq<Byte>>))
    requires IP_HEADER + |data| <= ONES
  {
    var h' := h.(nextId := (h.nextId + 1) % 0x1_0000);
    (h', FrameFor(h', dst, IpPacket(h.ip, dst, h.nextId, proto, data)))
  }

  // ---- network_rx, ip_rx ----

  /** What becomes of a frame. `Short` is a frame that ends before the bytes that are read. */
  datatype Reception =
    | Dropped
    | Short
    | OtherProtocol(proto: Byte, data: seq<Byte>)
    | Tcp(seg: Segment)
    | ArpReply(e: Entry)

  /** ip_rx on the packet; the payload starts where the header length says and is as long as the header claims. */
  function IpRx(localIp: Seq32, ip: seq<Byte>): Reception {
    if |ip| < IP_HEADER then Short
    else
      // the check field is zeroed in place, and what follows sees the packet so
      var zeroed := SetWord(ip, 10, 0);
      if Checksum(zeroed[..IP_HEADER]) != GetWord(ip, 10) then Dropped else Dispatch(localIp, zeroed)
  }

  /** The rest of ip_rx: header length, destination, protocol. */
  function Dispatch(localIp: Seq32, ip: seq<Byte>): Reception
    requires |ip| >= IP_HEADER
  {
    if ip[0] % 16 * 4 < 20 then Dropped
    else if GetNet32(ip, 16) != localIp && GetNet32(ip, 16) != BROADCAST then Dropped
    else Handle(ip[9], Body(ip, ip[0] % 16 * 4))
  }

  /** `a - b` in 16-bit arithmetic. */
  function Sub16(a: Word16, b: Word16): Word16 {
    if b <= a then a - b else a + 0x1_0000 - b
  }

  /** The bytes from the end of the header to the end of the packet as the header states them, if they are there. */
  function Body(ip: seq<Byte>, ihl: nat): Option<seq<Byte>>
    requires ihl <= 60 && |ip| >= IP_HEADER
  {
    var dataLen := Sub16(GetNet16(ip, 2), ihl);
    if |ip| < ihl + dataLen then None else Some(ip[ihl..ihl + dataLen])
  }

  function Handle(proto: Byte, body: Option<seq<Byte>>): Reception {
    if body.None? then Short
    else if proto != IP_P_TCP then OtherProtocol(proto, body.value)
    else TcpIn(body.value)
  }

  /** The header fields that tcp_rx reads, and the payload that ip_rx points it at. */
  function TcpIn(b: seq<Byte>): Reception {
    if |b| < TCP_HEADER then Short
    else Tcp(Segment(GetNet16(b, 0), GetNet16(b, 2), GetNet32(b, 4), GetNet32(b, 8), b[13], b[TCP_HEADER..]))
  }

  /** arp_rx: a reply teaches the sender's addresses; a request is looked at and dropped. */
  function ArpRx(b: seq<Byte>): Reception {
    if |b| < ARP_PACKET then Short
    else if GetNet16(b, 6) == ARP_OP_REPLY then ArpReply(Entry(GetNet32(b, 14), b[8..14]))
    else Dropped
  }

  function NetworkRx(localIp: Seq32, frame: seq<Byte>): Reception {
    if |frame| < ETH_HEADER then Dropped
    else if GetNet16(frame, 12) == ETH_P_IP then IpRx(localIp, frame[ETH_HEADER..])
    else if GetNet16(frame, 12) == ETH_P_ARP then ArpRx(frame[ETH_HEADER..])
    else Dropped
  }

  // ---- the round trip ----

  lemma TcpFrontHolds(seg: Segment, window: Word16)
    requires ValidSegment(seg)
    ensures var b := TcpFront(seg, window);
      && Holds(b, 0, Net16(seg.srcPort)) && Holds(b, 2, Net16(seg.dstPort))
      && Holds(b, 4, Net32(seg.seqNo)) && Holds(b, 8, Net32(seg.ackNo)) && b[13] == seg.flags
  {
  }

  lemma TcpInReads(b: seq<Byte>, seg: Segment)
    requires ValidSegment(seg) && |b| >= TCP_HEADER && b[13] == seg.flags && b[TCP_HEADER..] == seg.payload
    requires Holds(b, 0, Net16(seg.srcPort)) && Holds(b, 2, Net16(seg.dstPort))
    requires Holds(b, 4, Net32(seg.seqNo)) && Holds(b, 8, Net32(seg.ackNo))
    ensures TcpIn(b) == Tcp(seg)
  {
    Field16(b, 0, seg.srcPort);
    Field16(b, 2, seg.dstPort);
    Field32(b, 4, seg.seqNo);
    Field32(b, 8, seg.ackNo);
  }

  lemma PacketParts(front: seq<Byte>, word: seq<Byte>, rest: seq<Byte>, payload: seq<Byte>)
    requires |front| == 16 && |word| == 2 && |rest| == 2
    ensures front + word + rest + payload == front + (word + (rest + payload))
    ensures (front + word + rest + payload)[TCP_HEADER..] == payload
  {
  }

  /** Reading the packet gives back the segment that was written, with every field and byte in place. */
  lemma TcpInReadsPacket(src: Seq32, dst: Seq32, seg: Segment, window: Word16)
    requires ValidSegment(seg)
    ensures TcpIn(TcpPacket(src, dst, seg, window)) == Tcp(seg)
  {
    var front, word := TcpFront(seg, window), Store16(TcpChecksum(src, dst, seg, window));
    var b, rest := TcpPacket(src, dst, seg, window), word + (Store16(0) + seg.payload);
    PacketParts(front, word, Store16(0), seg.payload);
    TcpFrontHolds(seg, window);
    HoldsPrefix(front, 0, Net16(seg.srcPort), rest);
    HoldsPrefix(front, 2, Net16(seg.dstPort), rest);
    HoldsPrefix(front, 4, Net32(seg.seqNo), rest);
    HoldsPrefix(front, 8, Net32(seg.ackNo), rest);
    TcpInReads(b, seg);
  }

  lemma IpFrontHolds(id: Word16, proto: Byte, totalLen: Word16)
    ensures var b := IpFront(id, proto, totalLen); b[0] == 0x45 && b[9] == proto && Holds(b, 2, Net16(totalLen))
  {
  }

  lemma IpHeaderParts(front: seq<Byte>, word: seq<Byte>, src: seq<Byte>, dst: seq<Byte>, data: seq<Byte>)
    requires |front| == 10 && |word| == 2 && |src| == 4 && |dst| == 4
    ensures var ip := front + word + (src + dst) + data;
      && ip == front + (word + (src + dst) + data)
      && Holds(ip, 10, word) && Holds(ip, 16, dst) && ip[..IP_HEADER] == front + word + (src + dst)
  {
    var ip := front + word + (src + dst) + data;
    assert ip[10..12] == word && ip[16..20] == dst;
  }

  /** The fields of a header, whatever its checksum and whatever follows. */
  lemma IpFields(src: Seq32, dst: Seq32, id: Word16, proto: Byte, totalLen: Word16, check: Word16, data: seq<Byte>)
    ensures var ip := IpHeader(src, dst, id, proto, totalLen, check) + data;
      && ip[0] == 0x45 && ip[9] == proto && GetWord(ip, 10) == check && ip[..IP_HEADER] == IpHeader(src, dst, id, proto, totalLen, check)
      && GetNet16(ip, 2) == totalLen && GetNet32(ip, 16) == dst
  {
    var front, word := IpFront(id, proto, totalLen), Store16(check);
    var ip := IpHeader(src, dst, id, proto, totalLen, check) + data;
    IpHeaderParts(front, word, Net32(src), Net32(dst), data);
    IpFrontHolds(id, proto, totalLen);
    HoldsPrefix(front, 2, Net16(totalLen), word + (Net32(src) + Net32(dst)) + data);
    LoadStored(ip, 10, check);
    Field16(ip, 2, totalLen);
    Field32(ip, 16, dst);
  }

  lemma RegroupTail(a: seq<Byte>, b: seq<Byte>, c: seq<Byte>, d: seq<Byte>)
    ensures a + b + c + d == a + b + (c + d)
  {
  }

  /** Storing another checksum into a packet: zeroing the field restores the header that was summed. */
  lemma CheckReplaced(src: Seq32, dst: Seq32, id: Word16, proto: Byte, totalLen: Word16, check: Word16, check': Word16, data: seq<Byte>)
    ensures SetWord(IpHeader(src, dst, id, proto, totalLen, check) + data, 10, check')
         == IpHeader(src, dst, id, proto, totalLen, check') + data
  {
    var front, ends := IpFront(id, proto, totalLen), Net32(src) + Net32(dst);
    WordInside(front, check, ends + data, check');
    RegroupTail(front, Store16(check), ends, data);
    RegroupTail(front, Store16(check'), ends, data);
  }

  /** A packet as ip_send builds it passes the checksum test. */
  lemma CheckPasses(localIp: Seq32, src: Seq32, dst: Seq32, id: Word16, proto: Byte, data: seq<Byte>)
    requires IP_HEADER + |data| <= ONES
    ensures IpRx(localIp, IpPacket(src, dst, id, proto, data)) ==
      Dispatch(localIp, IpHeader(src, dst, id, proto, IP_HEADER + |data|, 0) + data)
  {
    var totalLen := IP_HEADER + |data|;
    var check := Checksum(IpHeader(src, dst, id, proto, totalLen, 0));
    CheckReplaced(src, dst, id, proto, totalLen, check, 0, data);
    IpFields(src, dst, id, proto, totalLen, check, data);
    IpFields(src, dst, id, proto, totalLen, 0, data);
  }

  lemma DispatchReads(localIp: Seq32, ip: seq<Byte>, dst: Seq32, proto: Byte, data: seq<Byte>)
    requires |ip| == IP_HEADER + |data| <= ONES && ip[0] == 0x45 && ip[9] == proto && ip[IP_HEADER..] == data
    requires GetNet16(ip, 2) == |ip| && GetNet32(ip, 16) == dst
    ensures Dispatch(localIp, ip) ==
      if localIp != dst && dst != BROADCAST then Dropped else Handle(proto, Some(data))
  {
    BodyIsData(ip, data);
  }

  /** And the remaining ones at its destination, where its data comes out whole. */
  lemma PacketIsAccepted(localIp: Seq32, src: Seq32, dst: Seq32, id: Word16, proto: Byte, data: seq<Byte>)
    requires IP_HEADER + |data| <= ONES
    ensures IpRx(localIp, IpPacket(src, dst, id, proto, data)) ==
      if localIp != dst && dst != BROADCAST then Dropped else Handle(proto, Some(data))
  {
    var totalLen := IP_HEADER + |data|;
    CheckPasses(localIp, src, dst, id, proto, data);
    IpFields(src, dst, id, proto, totalLen, 0, data);
    DispatchReads(localIp, IpHeader(src, dst, id, proto, totalLen, 0) + data, dst, proto, data);
  }

  lemma BodyIsData(ip: seq<Byte>, data: seq<Byte>)
    requires |ip| == IP_HEADER + |data| <= ONES && GetNet16(ip, 2) == |ip| && ip[IP_HEADER..] == data
    ensures Body(ip, IP_HEADER) == Some(data)
  {
    assert ip[IP_HEADER..IP_HEADER + |data|] == ip[IP_HEADER..];
  }

  /** The frame header is transparent. */
  lemma FrameIsTransparent(dstMac: Mac, srcMac: Mac, packet: seq<Byte>, localIp: Seq32)
    ensures NetworkRx(localIp, Frame(dstMac, srcMac, packet)) == IpRx(localIp, packet)
  {
    var frame := Frame(dstMac, srcMac, packet);
    HoldsInside(dstMac + srcMac, Net16(ETH_P_IP), packet);
    Field16(frame, 12, ETH_P_IP);
    assert frame[ETH_HEADER..] == packet;
  }

  /**
   * What one host sends, the other receives: through three layers of headers the segment arrives with
   * its ports, numbers, flags and payload unchanged, for every payload that a frame can carry. It leaves
   * exactly when the next hop is known, and no host but the destination takes it.
   */
  lemma SentSegmentArrives(h: Host, local: Seq32, dst: Seq32, seg: Segment, window: Word16, receiver: Seq32)
    requires ValidSegment(seg) && |seg.payload| <= MAX_PAYLOAD
    ensures var sent := IpSend(h, dst, IP_P_TCP, TcpPacket(local, dst, seg, window)).1;
      && (sent.Some? <==> Lookup(h.arp, NextHop(h, dst)).Some?)
      && (sent.Some? ==> |sent.value| <= ONES)
      && (sent.Some? ==> NetworkRx(receiver, sent.value) == if receiver == dst || dst == BROADCAST then Tcp(seg) else Dropped)
  {
    var hop := Lookup(h.arp, NextHop(h, dst));
    if hop.Some? {
      var data := TcpPacket(local, dst, seg, window);
      FrameIsTransparent(hop.value, h.mac, IpPacket(h.ip, dst, h.nextId, IP_P_TCP, data), receiver);
      PacketIsAccepted(receiver, h.ip, dst, h.nextId, IP_P_TCP, data);
      TcpInReadsPacket(local, dst, seg, window);
    }
  }

  // ---- damage on the way ----

  lemma SetWordCommutes(b: seq<Byte>, j: nat, x: Word16, k: nat, y: Word16)
    requires WordAt(b, j) && WordAt(b, k) && j != k
    ensures SetWord(SetWord(b, j, x), k, y) == SetWord(SetWord(b, k, y), j, x)
    ensures GetWord(SetWord(b, j, x), k) == GetWord(b, k)
  {
  }

  lemma SetWordInPrefix(b: seq<Byte>, n: nat, k: nat, w: Word16)
    requires n <= |b| && k % 2 == 0 && k + 1 < n
    ensures SetWord(b, k, w)[..n] == SetWord(b[..n], k, w)
    ensures GetWord(b[..n], k) == GetWord(b, k)
  {
  }

  /** `w` differs from `v`, and the two are not the two zeros of one's complement arithmetic. */
  predicate Distinguishable(v: Word16, w: Word16) {
    v != w && !(v == 0 && w == ONES) && !(v == ONES && w == 0)
  }

  /** Whether ip_rx notices that word `k` of a header has changed from `v` to `w`: in the check field always. */
  predicate Noticed(k: nat, v: Word16, w: Word16) {
    v != w && (k == 10 || Distinguishable(v, w))
  }

  /**
   * A packet with one aligned word of its header replaced is dropped for its checksum exactly when the
   * change is noticed; if not, the replaced header is believed.
   */
  lemma DamagedHeader(localIp: Seq32, src: Seq32, dst: Seq32, id: Word16, proto: Byte, data: seq<Byte>, k: nat, w: Word16)
    requires IP_HEADER + |data| <= ONES && k % 2 == 0 && k + 1 < IP_HEADER
    ensures var ip := IpPacket(src, dst, id, proto, data);
      IpRx(localIp, SetWord(ip, k, w)) ==
        if Noticed(k, GetWord(ip, k), w) then Dropped else Dispatch(localIp, SetWord(SetWord(ip, k, w), 10, 0))
  {
    var ip, summed := IpPacket(src, dst, id, proto, data), IpHeader(src, dst, id, proto, IP_HEADER + |data|, 0);
    PacketCarriesChecksum(src, dst, id, proto, data);
    IpFrontHolds(id, proto, IP_HEADER + |data|);
    if k == 10 {
      CheckFieldDamage(localIp, ip, summed, w);
    } else {
      FirstWordIsFixed(src, dst, id, proto, IP_HEADER + |data|);
      OtherWordDamage(localIp, ip, summed, k, w);
    }
  }

  lemma FirstWordIsFixed(src: Seq32, dst: Seq32, id: Word16, proto: Byte, totalLen: Word16)
    ensures GetWord(IpHeader(src, dst, id, proto, totalLen, 0), 0) == 0x45
  {
  }

  lemma CheckFieldDamage(localIp: Seq32, ip: seq<Byte>, summed: seq<Byte>, w: Word16)
    requires |ip| >= IP_HEADER && SetWord(ip, 10, 0)[..IP_HEADER] == summed && GetWord(ip, 10) == Checksum(summed)
    ensures IpRx(localIp, SetWord(ip, 10, w)) ==
      if w != GetWord(ip, 10) then Dropped else Dispatch(localIp, SetWord(SetWord(ip, 10, w), 10, 0))
  {
    assert SetWord(SetWord(ip, 10, w), 10, 0) == SetWord(ip, 10, 0);
    assert GetWord(SetWord(ip, 10, w), 10) == w;
  }

  lemma OtherWordDamage(localIp: Seq32, ip: seq<Byte>, summed: seq<Byte>, k: nat, w: Word16)
    requires |ip| >= IP_HEADER && k % 2 == 0 && k + 1 < IP_HEADER && k != 10
    requires SetWord(ip, 10, 0)[..IP_HEADER] == summed && GetWord(ip, 10) == Checksum(summed) && GetWord(summed, 0) == 0x45
    ensures IpRx(localIp, SetWord(ip, k, w)) ==
      if Distinguishable(GetWord(ip, k), w) then Dropped else Dispatch(localIp, SetWord(SetWord(ip, k, w), 10, 0))
  {
    SetWordCommutes(ip, k, w, 10, 0);
    SetWordCommutes(ip, 10, 0, k, w);
    SetWordInPrefix(SetWord(ip, 10, 0), IP_HEADER, k, w);
    ChangedWordChangesChecksum(summed, k, w);
  }

  lemma PacketCarriesChecksum(src: Seq32, dst: Seq32, id: Word16, proto: Byte, data: seq<Byte>)
    requires IP_HEADER + |data| <= ONES
    ensures var ip := IpPacket(src, dst, id, proto, data); var summed := IpHeader(src, dst, id, proto, IP_HEADER + |data|, 0);
      SetWord(ip, 10, 0)[..IP_HEADER] == summed && GetWord(ip, 10) == Checksum(summed)
  {
    var totalLen := IP_HEADER + |data|;
    var check := Checksum(IpHeader(src, dst, id, proto, totalLen, 0));
    CheckReplaced(src, dst, id, proto, totalLen, check, 0, data);
    IpFields(src, dst, id, proto, totalLen, check, data);
    IpFields(src, dst, id, proto, totalLen, 0, data);
  }

  /** With a first word that is neither zero, one replaced word changes the checksum exactly when it can be told from the old one. */
  lemma ChangedWordChangesChecksum(data: seq<Byte>, k: nat, w: Word16)
    requires WordAt(data, k) && GetWord(data, 0) == 0x45
    ensures Checksum(SetWord(data, k, w)) != Checksum(data) <==> Distinguishable(GetWord(data, k), w)
  {
    var sum, sum', v := SumLE(data), SumLE(SetWord(data, k, w)), GetWord(data, k);
    SumLEWithWord(data, k, w);
    FoldIsOnesSum(sum);
    FoldIsOnesSum(sum');
    if k > 0 { assert GetWord(SetWord(data, k, w), 0) == 0x45; }
    SameOnesSum(sum, sum', v, w);
  }

  lemma SameOnesSum(sum: nat, sum': nat, v: Word16, w: Word16)
    requires sum' + v == sum + w
    requires Distinguishable(v, w) || v == w || (sum > 0 && sum' > 0)
    ensures OnesSum(sum') != OnesSum(sum) <==> Distinguishable(v, w)
  {
    var p := OnesSumSplit(sum);
    var q := OnesSumSplit(sum');
    if OnesSum(sum) == OnesSum(sum') {
      SameSumSameWord(p, q, v, w);
    } else if v == 0 && w == ONES {
      OnesSumUnique(sum', OnesSum(sum), p + 1);
    } else if v == ONES && w == 0 {
      OnesSumUnique(sum, OnesSum(sum'), q + 1);
    }
  }

  lemma SameSumSameWord(p: nat, q: nat, v: Word16, w: Word16)
    requires ONES * q + v == ONES * p + w
    ensures !Distinguishable(v, w)
  {
    if p < q { assert w - v == ONES * (q - p); } else if q < p { assert v - w == ONES * (p - q); }
  }

  // ---- ARP ----

  /** A reply as any host sends it, with the fields in the order of struct arp_packet. */
  function ArpReplyPacket(sender: Entry, target: Entry): (b: seq<Byte>)
    ensures |b| == ARP_PACKET
  {
    Net16(1) + Net16(ETH_P_IP) + [6, 4] + Net16(ARP_OP_REPLY) + sender.mac + Net32(sender.ip) + target.mac + Net32(target.ip)
  }

  /** A reply received in a frame teaches exactly its sender's addresses. */
  lemma ArpReplyTeaches(localIp: Seq32, dstMac: Mac, srcMac: Mac, sender: Entry, target: Entry)
    ensures NetworkRx(localIp, dstMac + srcMac + Net16(0x0806) + ArpReplyPacket(sender, target)) == ArpReply(sender)
  {
    var packet := ArpReplyPacket(sender, target);
    var frame := dstMac + srcMac + Net16(ETH_P_ARP) + packet;
    HoldsInside(dstMac + srcMac, Net16(ETH_P_ARP), packet);
    Field16(frame, 12, ETH_P_ARP);
    assert frame[ETH_HEADER..] == packet;
    ArpFields(sender, target);
  }

  lemma ArpFields(sender: Entry, target: Entry)
    ensures ArpRx(ArpReplyPacket(sender, target)) == ArpReply(sender)
  {
    var b := ArpReplyPacket(sender, target);
    assert b[6..8] == Net16(ARP_OP_REPLY) && b[8..14] == sender.mac && b[14..18] == Net32(sender.ip);
    Field16(b, 6, ARP_OP_REPLY);
    Field32(b, 14, sender.ip);
  }
}
