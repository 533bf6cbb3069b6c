/** The bytes on the wire by offset, most significant byte first: what the formats prescribe, apart from how they are built. */
module WireLayout {
  import opened Bits
  import opened TcpSpec
  import opened ChecksumSpec
  import opened Arp
  import opened Wire

  /** The number in the two or four bytes at an offset, in network order. */
  function Big16(b: seq<Byte>, at: nat): nat
    requires at + 2 <= |b|
  {
    var hi: nat, lo: nat := b[at], b[at + 1];
    0x100 * hi + lo
  }

  function Big32(b: seq<Byte>, at: nat): nat
    requires at + 4 <= |b|
  {
    var b0: nat, b1: nat, b2: nat, b3: nat := b[at], b[at + 1], b[at + 2], b[at + 3];
    b0 * 0x100_0000 + b1 * 0x1_0000 + b2 * 0x100 + b3
  }

  // ---- byte order ----

  lemma Net16IsBig(x: Word16)
    ensures Net16(x) == [x / 0x100, x % 0x100]
  {
    SwapIsInvolution(x);
    var s := Swap16(x);
    DivModUnique(s, 0x100, x % 0x100, x / 0x100);
  }

  lemma Net32IsBig(x: Seq32)
    ensures Net32(x) == [x / 0x100_0000, x / 0x1_0000 % 0x100, x / 0x100 % 0x100, x % 0x100]
  {
    var hi, lo := x / 0x1_0000, x % 0x1_0000;
    Net16IsBig(hi);
    Net16IsBig(lo);
    DivModUnique(Swap32(x), 0x1_0000, Swap16(lo), Swap16(hi));
    SwapIsInvolution(hi);
    SwapIsInvolution(lo);
    assert Net32(x) == Net16(hi) + Net16(lo);
    HighBytes(x);
  }

  lemma HighBytes(x: Seq32)
    ensures x / 0x1_0000 / 0x100 == x / 0x100_0000 && x % 0x1_0000 / 0x100 == x / 0x100 % 0x100 && x % 0x1_0000 % 0x100 == x % 0x100
  {
    SplitDigits(x, 0x1_0000, 0x100);
    SplitDigits(x, 0x100, 0x100);
  }

  /** A field that Holds says is there, as a number. */
  lemma Holds16(b: seq<Byte>, at: nat, x: Word16)
    requires Holds(b, at, Net16(x))
    ensures Big16(b, at) == x
  {
    Net16IsBig(x);
    assert b[at] == b[at..at + 2][0] && b[at + 1] == b[at..at + 2][1];
  }

  lemma Holds32(b: seq<Byte>, at: nat, x: Seq32)
    requires Holds(b, at, Net32(x))
    ensures Big32(b, at) == x
  {
    Net32IsBig(x);
    HighBytes(x);
    var piece := b[at..at + 4];
    assert b[at] == piece[0] && b[at + 1] == piece[1] && b[at + 2] == piece[2] && b[at + 3] == piece[3];
  }

  /** Equal numbers are equal bytes. */
  lemma Big16Determines(a: seq<Byte>, b: seq<Byte>, at: nat)
    requires at + 2 <= |a| && at + 2 <= |b| && Big16(a, at) == Big16(b, at)
    ensures a[at] == b[at] && a[at + 1] == b[at + 1]
  {
  }

  lemma Big32Determines(a: seq<Byte>, b: seq<Byte>, at: nat)
    requires at + 4 <= |a| && at + 4 <= |b| && Big32(a, at) == Big32(b, at)
    ensures a[at] == b[at] && a[at + 1] == b[at + 1] && a[at + 2] == b[at + 2] && a[at + 3] == b[at + 3]
  {
  }

  // ---- what is sent ----

  /** The pseudo header of section 3.1 of RFC 9293: addresses, zero, protocol, length. */
  predicate IsPseudoHeader(b: seq<Byte>, src: Seq32, dst: Seq32, length: nat) {
    |b| == 12 && Big32(b, 0) == src && Big32(b, 4) == dst && b[8] == 0 && b[9] == 6 && Big16(b, 10) == length
  }

  lemma PseudoHeaderLayout(src: Seq32, dst: Seq32, length: Word16)
    ensures IsPseudoHeader(PseudoHeader(src, dst, length), src, dst, length)
  {
    var b := PseudoHeader(src, dst, length);
    assert b[0..4] == Net32(src) && b[4..8] == Net32(dst) && b[10..12] == Net16(length);
    Holds32(b, 0, src);
    Holds32(b, 4, dst);
    Holds16(b, 10, length);
  }

  lemma PseudoHeaderIsUnique(a: seq<Byte>, b: seq<Byte>, src: Seq32, dst: Seq32, length: nat)
    requires IsPseudoHeader(a, src, dst, length) && IsPseudoHeader(b, src, dst, length)
    ensures a == b
  {
    Big32Determines(a, b, 0);
    Big32Determines(a, b, 4);
    Big16Determines(a, b, 10);
  }

  lemma TcpHeaderLayout(seg: Segment, window: Word16, check: Word16)
    requires ValidSegment(seg)
    ensures var b := TcpHeader(seg, window, check);
      && Big16(b, 0) == seg.srcPort && Big16(b, 2) == seg.dstPort && Big32(b, 4) == seg.seqNo && Big32(b, 8) == seg.ackNo
      && b[12] == 5 && b[13] == seg.flags && Big16(b, 14) == window && Big16(b, 16) == Swap16(check) && Big16(b, 18) == 0
  {
    var b := TcpHeader(seg, window, check);
    assert b[0..2] == Net16(seg.srcPort) && b[2..4] == Net16(seg.dstPort) && b[4..8] == Net32(seg.seqNo) && b[8..12] == Net32(seg.ackNo);
    assert b[14..16] == Net16(window) && b[12] == 5 && b[13] == seg.flags;
    Holds16(b, 0, seg.srcPort);
    Holds16(b, 2, seg.dstPort);
    Holds32(b, 4, seg.seqNo);
    Holds32(b, 8, seg.ackNo);
    Holds16(b, 14, window);
    assert b[16] == check % 0x100 && b[17] == check / 0x100 && b[18] == 0 && b[19] == 0;
  }

  lemma IpHeaderLayout(src: Seq32, dst: Seq32, id: Word16, proto: Byte, totalLen: Word16, check: Word16)
    ensures var b := IpHeader(src, dst, id, proto, totalLen, check);
      && b[0] == 0x45 && b[1] == 0 && Big16(b, 2) == totalLen && Big16(b, 4) == id && Big16(b, 6) == 0
      && b[8] == 64 && b[9] == proto && Big16(b, 10) == Swap16(check) && Big32(b, 12) == src && Big32(b, 16) == dst
  {
    var b := IpHeader(src, dst, id, proto, totalLen, check);
    assert b[2..4] == Net16(totalLen) && b[4..6] == Net16(id) && b[12..16] == Net32(src) && b[16..20] == Net32(dst);
    assert b[6] == 0 && b[7] == 0 && b[8] == 64 && b[9] == proto && b[10] == check % 0x100 && b[11] == check / 0x100;
    Holds16(b, 2, totalLen);
    Holds16(b, 4, id);
    Holds32(b, 12, src);
    Holds32(b, 16, dst);
  }

  lemma UdpLayout(srcPort: Word16, dstPort: Word16, data: seq<Byte>)
    requires 8 + |data| <= 0xFFFF
    ensures var b := UdpPacket(srcPort, dstPort, data);
      && Big16(b, 0) == srcPort && Big16(b, 2) == dstPort && Big16(b, 4) == 8 + |data| && Big16(b, 6) == 0 && b[8..] == data
  {
    var b := UdpPacket(srcPort, dstPort, data);
    assert b[0..2] == Net16(srcPort) && b[2..4] == Net16(dstPort) && b[4..6] == Net16(8 + |data|) && b[6] == 0 && b[7] == 0;
    Holds16(b, 0, srcPort);
    Holds16(b, 2, dstPort);
    Holds16(b, 4, 8 + |data|);
  }

  lemma EchoReplyLayout(id: Word16, seqNo: Word16, data: seq<Byte>)
    ensures var b := EchoReply(id, seqNo, data);
      && b[0] == 0 && b[1] == 0 && Big16(b, 4) == id && Big16(b, 6) == seqNo && b[8..] == data
      && Big16(b, 2) == InternetChecksum([0, 0, 0, 0] + b[4..])
  {
    var rest := Net16(id) + Net16(seqNo) + data;
    var summed := [0, 0] + Store16(0) + rest;
    EchoParts(EchoReply(id, seqNo, data), rest, Checksum(summed), id, seqNo, data);
    StoredChecksumIsInternetChecksum(summed);
    assert summed == [0, 0, 0, 0] + rest;
  }

  lemma EchoParts(b: seq<Byte>, rest: seq<Byte>, check: Word16, id: Word16, seqNo: Word16, data: seq<Byte>)
    requires rest == Net16(id) + Net16(seqNo) + data && b == [0, 0] + Store16(check) + rest
    ensures b[0] == 0 && b[1] == 0 && Big16(b, 2) == Swap16(check) && Big16(b, 4) == id && Big16(b, 6) == seqNo && b[4..] == rest && b[8..] == data
  {
    assert b[4..] == rest;
    assert b[4..6] == Net16(id) && b[6..8] == Net16(seqNo);
    Holds16(b, 4, id);
    Holds16(b, 6, seqNo);
    assert b[2] == check % 0x100 && b[3] == check / 0x100;
  }

  /** Destination, source, the type of IP, and the packet as it is. */
  lemma FrameLayout(dstMac: Mac, srcMac: Mac, packet: seq<Byte>)
    ensures var f := Frame(dstMac, srcMac, packet);
      |f| == 14 + |packet| && f[0..6] == dstMac && f[6..12] == srcMac && Big16(f, 12) == 0x0800 && f[14..] == packet
  {
    var f := Frame(dstMac, srcMac, packet);
    assert f[12..14] == Net16(0x0800);
    Holds16(f, 12, 0x0800);
  }

  // ---- checksum fields ----

  lemma FieldInside(b: seq<Byte>, front: seq<Byte>, check: Word16, rest: seq<Byte>)
    requires |front| == 16 && b == front + Store16(check) + rest
    ensures b[..16] == front && b[18..] == rest && Big16(b, 16) == Swap16(check)
  {
    assert b[16] == check % 0x100 && b[17] == check / 0x100;
  }

  lemma SummedParts(pseudo: seq<Byte>, front: seq<Byte>, payload: seq<Byte>)
    ensures pseudo + (front + Store16(0) + Store16(0)) + payload == pseudo + front + [0, 0] + (Store16(0) + payload)
  {
  }

  lemma TcpParts(src: Seq32, dst: Seq32, seg: Segment, window: Word16, pseudo: seq<Byte>, front: seq<Byte>, check: Word16)
    requires ValidSegment(seg) && pseudo == PseudoHeader(src, dst, 20 + |seg.payload|) && front == TcpFront(seg, window)
    requires check == TcpChecksum(src, dst, seg, window)
    ensures check == Checksum(pseudo + (front + Store16(0) + Store16(0)) + seg.payload)
    ensures TcpPacket(src, dst, seg, window) == front + Store16(check) + (Store16(0) + seg.payload)
  {
  }

  /**
   * The checksum field of a segment that tcp_tx builds holds the Internet checksum of pseudo header, header
   * with a zero field, and payload, whoever computes it.
   */
  lemma TcpChecksumField(src: Seq32, dst: Seq32, seg: Segment, window: Word16, pseudo: seq<Byte>)
    requires ValidSegment(seg) && IsPseudoHeader(pseudo, src, dst, 20 + |seg.payload|)
    ensures var b := TcpPacket(src, dst, seg, window);
      Big16(b, 16) == InternetChecksum(pseudo + b[..16] + [0, 0] + b[18..])
  {
    var b, front, check := TcpPacket(src, dst, seg, window), TcpFront(seg, window), TcpChecksum(src, dst, seg, window);
    PseudoHeaderLayout(src, dst, 20 + |seg.payload|);
    PseudoHeaderIsUnique(pseudo, PseudoHeader(src, dst, 20 + |seg.payload|), src, dst, 20 + |seg.payload|);
    TcpParts(src, dst, seg, window, pseudo, front, check);
    FieldInside(b, front, check, Store16(0) + seg.payload);
    SummedParts(pseudo, front, seg.payload);
    StoredChecksumIsInternetChecksum(pseudo + b[..16] + [0, 0] + b[18..]);
  }

  /** The field of an IP header likewise covers the twenty bytes of the header. */
  lemma IpChecksumField(src: Seq32, dst: Seq32, id: Word16, proto: Byte, data: seq<Byte>)
    requires 20 + |data| <= 0xFFFF
    ensures var b := IpPacket(src, dst, id, proto, data);
      Big16(b, 10) == InternetChecksum(b[..10] + [0, 0] + b[12..20]) && b[20..] == data
  {
    var b, totalLen := IpPacket(src, dst, id, proto, data), 20 + |data|;
    var front, ends := IpFront(id, proto, totalLen), Net32(src) + Net32(dst);
    var check := Checksum(IpHeader(src, dst, id, proto, totalLen, 0));
    assert b[..10] == front && b[12..20] == ends && b[10] == check % 0x100 && b[11] == check / 0x100;
    StoredChecksumIsInternetChecksum(front + Store16(0) + ends);
    assert front + Store16(0) + ends == b[..10] + [0, 0] + b[12..20];
  }

  // ---- where it is sent ----

  lemma {:induction false} AndOnes(a: nat, n: nat)
    requires a < Pow2(n)
    ensures And(a, Pow2(n) - 1) == a
  {
    if a > 0 {
      assert (Pow2(n) - 1) / 2 == Pow2(n - 1) - 1 && (Pow2(n) - 1) % 2 == 1;
      AndOnes(a / 2, n - 1);
    }
  }

  /** A mask of the high bits, as in `dst & subnet_mask`. */
  lemma {:induction false} AndHigh(a: nat, k: nat, n: nat, mask: nat)
    requires k <= n && a < Pow2(n) && mask + Pow2(k) == Pow2(n)
    ensures And(a, mask) == Shr(a, k) * Pow2(k)
  {
    if k == 0 {
      AndOnes(a, n);
    } else {
      assert mask == 2 * (Pow2(n - 1) - Pow2(k - 1));
      AndHigh(a / 2, k - 1, n - 1, mask / 2);
      var q := Shr(a, k);
      MulAssociates(Pow2(k - 1), q);
      assert q * Pow2(k) == 2 * (q * Pow2(k - 1));
      if a == 0 { ShrZero(k); }
    }
  }

  lemma {:induction false} ShrZero(k: nat)
    ensures Shr(0, k) == 0
  {
    if k > 0 { ShrZero(k - 1); }
  }

  /** `a & 0xFFFFFF00` */
  lemma SubnetOf(a: Seq32)
    ensures And(a, 0xFFFF_FF00) == a / 0x100 * 0x100
  {
    assert Pow2(8) == 0x100 && Pow2(16) == 0x1_0000 && Pow2(24) == 0x100_0000 && Pow2(32) == TWO32;
    AndHigh(a, 8, 32, 0xFFFF_FF00);
    ShrDivides(a, 8);
  }

  /** The same network, by the mask of ip.c. */
  predicate Local(h: Host, dst: Seq32) {
    And(dst, 0xFFFF_FF00) == And(h.ip, 0xFFFF_FF00)
  }

  /** A frame from `srcMac` to `dstMac` with an IP packet between these addresses. */
  predicate Carries(f: seq<Byte>, dstMac: Mac, srcMac: Mac, src: Seq32, dst: Seq32, id: Word16, proto: Byte, data: seq<Byte>) {
    && |f| == 34 + |data| && f[0..6] == dstMac && f[6..12] == srcMac && Big16(f, 12) == 0x0800
    && Big16(f, 18) == id && f[23] == proto && Big32(f, 26) == src && Big32(f, 30) == dst && f[34..] == data
  }

  /**
   * ip_send's routing: a packet for the local network goes to the hardware address of its destination, any
   * other to that of the gateway, and none leaves if the ARP cache does not have it. The identification
   * counter advances in any case, and wraps at 16 bits.
   */
  lemma Routing(h: Host, dst: Seq32, proto: Byte, data: seq<Byte>)
    requires 20 + |data| <= 0xFFFF
    ensures var (h', frame) := IpSend(h, dst, proto, data); var hop := Lookup(h.arp, if Local(h, dst) then dst else h.gateway);
      && (frame.Some? <==> hop.Some?)
      && (frame.Some? ==> Carries(frame.value, hop.value, h.mac, h.ip, dst, h.nextId, proto, data))
      && h' == h.(nextId := if h.nextId == 0xFFFF then 0 else h.nextId + 1)
  {
    var packet := IpPacket(h.ip, dst, h.nextId, proto, data);
    SendsPacket(h, dst, proto, data, packet);
    forall m: Mac ensures Carries(Frame(m, h.mac, packet), m, h.mac, h.ip, dst, h.nextId, proto, data) {
      SentFields(m, h.mac, h.ip, dst, h.nextId, proto, data);
    }
    RoutedFrame(h, dst, proto, data, packet);
  }

  lemma SendsPacket(h: Host, dst: Seq32, proto: Byte, data: seq<Byte>, packet: seq<Byte>)
    requires 20 + |data| <= 0xFFFF && packet == IpPacket(h.ip, dst, h.nextId, proto, data)
    ensures var h' := h.(nextId := (h.nextId + 1) % 0x1_0000); IpSend(h, dst, proto, data) == (h', FrameFor(h', dst, packet))
  {
  }

  lemma RoutedFrame(h: Host, dst: Seq32, proto: Byte, data: seq<Byte>, packet: seq<Byte>)
    requires forall m: Mac :: Carries(Frame(m, h.mac, packet), m, h.mac, h.ip, dst, h.nextId, proto, data)
    ensures var h' := h.(nextId := (h.nextId + 1) % 0x1_0000);
      var frame := FrameFor(h', dst, packet); var hop := Lookup(h.arp, if Local(h, dst) then dst else h.gateway);
      && (frame.Some? <==> hop.Some?)
      && (frame.Some? ==> Carries(frame.value, hop.value, h.mac, h.ip, dst, h.nextId, proto, data))
      && h' == h.(nextId := if h.nextId == 0xFFFF then 0 else h.nextId + 1)
  {
    LocalIs(h, dst);
  }

  lemma LocalIs(h: Host, dst: Seq32)
    ensures NextHop(h, dst) == if Local(h, dst) then dst else h.gateway
  {
    SubnetOf(dst);
    SubnetOf(h.ip);
  }

  lemma SentFields(dstMac: Mac, srcMac: Mac, src: Seq32, dst: Seq32, id: Word16, proto: Byte, data: seq<Byte>)
    requires 20 + |data| <= 0xFFFF
    ensures Carries(Frame(dstMac, srcMac, IpPacket(src, dst, id, proto, data)), dstMac, srcMac, src, dst, id, proto, data)
  {
    var totalLen := 20 + |data|;
    var check := Checksum(IpHeader(src, dst, id, proto, totalLen, 0));
    var header := IpHeader(src, dst, id, proto, totalLen, check);
    IpHeaderLayout(src, dst, id, proto, totalLen, check);
    FrameLayout(dstMac, srcMac, header + data);
    FieldsInFrame(Frame(dstMac, srcMac, header + data), header, dstMac, srcMac, src, dst, id, proto, data);
  }

  lemma FieldsInFrame(f: seq<Byte>, header: seq<Byte>, dstMac: Mac, srcMac: Mac, src: Seq32, dst: Seq32, id: Word16, proto: Byte, data: seq<Byte>)
    requires |header| == 20 && |f| == 34 + |data| && f[14..] == header + data
    requires f[0..6] == dstMac && f[6..12] == srcMac && Big16(f, 12) == 0x0800
    requires Big16(header, 4) == id && header[9] == proto && Big32(header, 12) == src && Big32(header, 16) == dst
    ensures Carries(f, dstMac, srcMac, src, dst, id, proto, data)
  {
    forall i | 0 <= i < 20 ensures f[14 + i] == header[i] { assert f[14..][i] == (header + data)[i]; }
    assert f[34..] == f[14..][20..] == data;
  }

  // ---- what is received ----

  /** An ARP reply by offset: hardware and protocol type, sizes, opcode, and the two pairs of addresses. */
  lemma ArpReplyLayout(sender: Entry, target: Entry)
    ensures var b := ArpReplyPacket(sender, target);
      && |b| == 28 && Big16(b, 0) == 1 && Big16(b, 2) == 0x0800 && b[4] == 6 && b[5] == 4 && Big16(b, 6) == 2
      && b[8..14] == sender.mac && Big32(b, 14) == sender.ip && b[18..24] == target.mac && Big32(b, 24) == target.ip
  {
    var b := ArpReplyPacket(sender, target);
    assert b[0..2] == Net16(1) && b[2..4] == Net16(0x0800) && b[6..8] == Net16(2) && b[14..18] == Net32(sender.ip) && b[24..28] == Net32(target.ip);
    Holds16(b, 0, 1);
    Holds16(b, 2, 0x0800);
    Holds16(b, 6, 2);
    Holds32(b, 14, sender.ip);
    Holds32(b, 24, target.ip);
  }

  /** Frames of other types, and ARP packets that are no replies, do nothing. */
  lemma OthersAreDropped(localIp: Seq32, frame: seq<Byte>)
    requires |frame| >= 42 && Big16(frame, 12) != 0x0800 && (Big16(frame, 12) != 0x0806 || Big16(frame, 20) != 2)
    ensures NetworkRx(localIp, frame) == Dropped
  {
    assert frame[14..][6] == frame[20] && frame[14..][7] == frame[21];
  }

  /** The bytes from the end of the header to the stated length, whose difference is cut to 16 bits, if they are there. */
  function DataOf(ip: seq<Byte>, ihl: nat): Option<seq<Byte>>
    requires |ip| >= 20 && ihl <= 60
  {
    var total := Big16(ip, 2);
    var length := if ihl <= total then total - ihl else total + 0x1_0000 - ihl;
    if |ip| < ihl + length then None else Some(ip[ihl..ihl + length])
  }

  /**
   * ip_rx on any packet: the checksum of the first twenty bytes, a header of at least twenty, an address that
   * is this host's or broadcast, and then the data, options skipped and padding cut off.
   */
  lemma IpRxByOffset(localIp: Seq32, ip: seq<Byte>)
    requires |ip| >= 20
    ensures var ihl := ip[0] % 16 * 4;
      IpRx(localIp, ip) ==
        if Big16(ip, 10) != InternetChecksum(ip[..10] + [0, 0] + ip[12..20]) then Dropped
        else if ihl < 20 || (Big32(ip, 16) != localIp && Big32(ip, 16) != 0xFFFF_FFFF) then Dropped
        else match DataOf(ip, ihl)
          case None => Short
          case Some(data) => if ip[9] == 6 then TcpIn(data) else OtherProtocol(ip[9], data)
  {
    HeaderVerified(ip);
    DispatchByOffset(localIp, ip, SetWord(ip, 10, 0), ip[0] % 16 * 4);
  }

  lemma HeaderVerified(ip: seq<Byte>)
    requires |ip| >= 20
    ensures Checksum(SetWord(ip, 10, 0)[..20]) == GetWord(ip, 10) <==> Big16(ip, 10) == InternetChecksum(ip[..10] + [0, 0] + ip[12..20])
  {
    var summed := ip[..10] + [0, 0] + ip[12..20];
    assert SetWord(ip, 10, 0)[..20] == summed;
    StoredChecksumIsInternetChecksum(summed);
    SwapIsInvolution(Checksum(summed));
    GetNet16IsBswap(ip, 10);
    SwapIsInvolution(GetWord(ip, 10));
  }

  lemma DispatchByOffset(localIp: Seq32, ip: seq<Byte>, zeroed: seq<Byte>, ihl: nat)
    requires |ip| >= 20 && zeroed == SetWord(ip, 10, 0) && ihl == ip[0] % 16 * 4
    ensures Dispatch(localIp, zeroed) ==
      if ihl < 20 || (Big32(ip, 16) != localIp && Big32(ip, 16) != 0xFFFF_FFFF) then Dropped else Handle(ip[9], DataOf(ip, ihl))
  {
    ZeroedReads(ip, zeroed);
    DispatchTests(localIp, zeroed);
    if ihl >= 20 { BodyIsDataOf(ip, zeroed, ihl); }
  }

  lemma DispatchTests(localIp: Seq32, zeroed: seq<Byte>)
    requires |zeroed| >= 20
    ensures var ihl := zeroed[0] % 16 * 4;
      Dispatch(localIp, zeroed) ==
        if ihl < 20 || (GetNet32(zeroed, 16) != localIp && GetNet32(zeroed, 16) != 0xFFFF_FFFF) then Dropped
        else Handle(zeroed[9], Body(zeroed, ihl))
  {
  }

  lemma BodyIsDataOf(ip: seq<Byte>, zeroed: seq<Byte>, ihl: nat)
    requires |ip| >= 20 && zeroed == SetWord(ip, 10, 0) && 20 <= ihl <= 60
    ensures Body(zeroed, ihl) == DataOf(ip, ihl)
  {
    ZeroedReads(ip, zeroed);
  }

  lemma ZeroedReads(ip: seq<Byte>, zeroed: seq<Byte>)
    requires |ip| >= 20 && zeroed == SetWord(ip, 10, 0)
    ensures Big16(zeroed, 2) == Big16(ip, 2) && Big32(zeroed, 16) == Big32(ip, 16) && zeroed[0] == ip[0] && zeroed[9] == ip[9]
    ensures forall i, j :: 20 <= i <= j <= |ip| ==> zeroed[i..j] == ip[i..j]
  {
  }
}
