/** The loops and buffers of ip.c, network.c and tcp_tx, each against the functions of Wire and ChecksumSpec. */
module Net {
  import opened Bits
  import opened TcpSpec
  import opened ChecksumSpec
  import opened Arp
  import Wire

  type Word16 = Wire.Word16

  /** The longest buffer whose words cannot overflow a 32-bit sum, whatever they are. */
  const MAX_SUMMED := 2 * 0x1_0001

  // ---- 32-bit sums ----

  lemma AppendByte(a: seq<Byte>, x: Byte)
    requires |a| % 2 == 0
    ensures SumLE(a + [x]) == SumLE(a) + x
  {
    SumLEConcat(a, [x]);
  }

  lemma AppendWord(a: seq<Byte>, x: Byte, y: Byte)
    requires |a| % 2 == 0
    ensures SumLE(a + [x, y]) == SumLE(a) + LoadLE(x, y)
  {
    SumLEConcat(a, [x, y]);
    assert [x, y][2..] == [];
  }

  /** One word further along the buffer. */
  lemma NextWord(s: seq<Byte>, n: nat)
    requires n % 2 == 0 && n + 2 <= |s|
    ensures SumLE(s[..n + 2]) == SumLE(s[..n]) + LoadLE(s[n], s[n + 1])
  {
    assert s[..n + 2] == s[..n] + [s[n], s[n + 1]];
    AppendWord(s[..n], s[n], s[n + 1]);
  }

  /** An odd last byte. */
  lemma LastByte(s: seq<Byte>)
    requires |s| % 2 == 1
    ensures SumLE(s) == SumLE(s[..|s| - 1]) + s[|s| - 1]
  {
    var a, x := s[..|s| - 1], s[|s| - 1];
    AppendByte(a, x);
    assert a + [x] == s;
  }

  /**
   * The summing loop `while (len > 1) { sum += *ptr++; len -= 2; }` and its odd last byte, on top of what
   * an earlier loop has summed. That `sum` is a Seq32 throughout says that no addition overflows.
   */
  method AddBuffer(buf: array<Byte>, from: nat, length: nat, start: Seq32) returns (sum: Seq32)
    requires from + length <= buf.Length
    requires start + (length + 1) / 2 * ONES < TWO32
    ensures sum == start + SumLE(buf[from..from + length])
  {
    ghost var s := buf[from..from + length];
    sum := start;
    var at: nat, rest: nat := 0, length;
    while rest > 1
      invariant at + rest == length && at % 2 == 0
      invariant sum == start + SumLE(s[..at])
      invariant sum + (rest + 1) / 2 * ONES < TWO32
    {
      NextWord(s, at);
      sum := sum + LoadLE(buf[from + at], buf[from + at + 1]);
      at, rest := at + 2, rest - 2;
    }
    if rest != 0 {
      LastByte(s);
      sum := sum + buf[from + at];
    } else {
      assert s[..at] == s;
    }
  }

  /** `while (sum >> 16) sum = (sum & 0xFFFF) + (sum >> 16)`; no 32-bit sum can overflow here. */
  method FoldSum(start: Seq32) returns (sum: Seq32)
    ensures sum == Fold(start)
  {
    sum := start;
    while sum / 0x1_0000 != 0
      invariant Fold(sum) == Fold(start)
      decreases sum
    {
      sum := sum % 0x1_0000 + sum / 0x1_0000;
    }
  }

  /** ip_checksum */
  method IpChecksum(buf: array<Byte>, from: nat, length: nat) returns (r: Word16)
    requires from + length <= buf.Length && length <= MAX_SUMMED
    ensures r == Checksum(buf[from..from + length])
  {
    var sum := AddBuffer(buf, from, length, 0);
    sum := FoldSum(sum);
    r := ONES - sum;
  }

  lemma {:induction false} SumOfOnes(data: seq<Byte>)
    requires |data| % 2 == 0 && forall i :: 0 <= i < |data| ==> data[i] == 0xFF
    ensures SumLE(data) == |data| / 2 * ONES
  {
    if data != [] { SumOfOnes(data[2..]); }
  }

  /** 0x10002 words of 0xFFFF: the sum of all is a multiple of 0xFFFF, what is left of it in 32 bits is not. */
  lemma WrappedSum(sum: nat)
    requires sum == 0x1_0002 * ONES
    ensures sum % TWO32 == 0xFFFE && Fold(sum % TWO32) == 0xFFFE && Fold(sum) == ONES
  {
    DivModUnique(sum, TWO32, 1, 0xFFFE);
    DivModUnique(sum, ONES, 0x1_0002, 0);
    FoldIsOnesSum(sum);
  }

  /** One word more, and a buffer of 0xFF bytes gets the wrong checksum: the bound is exact. */
  lemma LongerSumsWrap(data: seq<Byte>)
    requires |data| == MAX_SUMMED + 2 && forall i :: 0 <= i < |data| ==> data[i] == 0xFF
    ensures ONES - Fold(SumLE(data) % TWO32) != Checksum(data)
  {
    SumOfOnes(data);
    WrappedSum(SumLE(data));
  }

  // ---- building packets ----

  method Put16(buf: array<Byte>, at: nat, x: Word16)
    requires at % 2 == 0 && at + 1 < buf.Length
    modifies buf
    ensures buf[..] == SetWord(old(buf[..]), at, x)
    ensures buf[..at + 2] == old(buf[..at]) + Wire.Store16(x)
  {
    buf[at] := x % 0x100;
    buf[at + 1] := x / 0x100;
  }

  method Put32(buf: array<Byte>, at: nat, x: Seq32)
    requires at % 2 == 0 && at + 4 <= buf.Length
    modifies buf
    ensures buf[..at + 4] == old(buf[..at]) + Wire.Store32(x)
    ensures buf[at + 4..] == old(buf[at + 4..])
  {
    Put16(buf, at, x % 0x1_0000);
    Put16(buf, at + 2, x / 0x1_0000);
    assert Wire.Store32(x) == Wire.Store16(x % 0x1_0000) + Wire.Store16(x / 0x1_0000);
  }

  method PutByte(buf: array<Byte>, at: nat, x: Byte)
    requires at < buf.Length
    modifies buf
    ensures buf[..at + 1] == old(buf[..at]) + [x]
    ensures buf[at + 1..] == old(buf[at + 1..])
  {
    buf[at] := x;
  }

  /** memcpy into the tail of a buffer. */
  method PutTail(buf: array<Byte>, at: nat, data: seq<Byte>)
    requires at + |data| == buf.Length
    modifies buf
    ensures buf[..] == old(buf[..at]) + data
  {
    forall i | 0 <= i < |data| { buf[at + i] := data[i]; }
  }

  /** htons and htonl applied to a field before it is stored. */
  function Htons(x: Word16): Word16 {
    SwapIsInvolution(x);
    Swap16(x)
  }

  /** The header fields of ip_send, in the order in which it writes them, with a zero checksum. */
  method FillIpHeader(ip: array<Byte>, src: Seq32, dst: Seq32, id: Word16, proto: Byte, totalLen: Word16)
    requires ip.Length >= Wire.IP_HEADER
    modifies ip
    ensures ip[..Wire.IP_HEADER] == Wire.IpHeader(src, dst, id, proto, totalLen, 0)
  {
    PutByte(ip, 0, 0x45);
    PutByte(ip, 1, 0);
    Put16(ip, 2, Htons(totalLen));
    Put16(ip, 4, Htons(id));
    Put16(ip, 6, 0);
    PutByte(ip, 8, 64);
    PutByte(ip, 9, proto);
    assert ip[..10] == Wire.IpFront(id, proto, totalLen);
    Put16(ip, 10, 0);
    Put32(ip, 12, Wire.Swap32(src));
    Put32(ip, 16, Wire.Swap32(dst));
    assert ip[..20] == Wire.IpFront(id, proto, totalLen) + Wire.Store16(0) + Wire.Net32(src) + Wire.Net32(dst);
  }

  /** The first half of ip_send: header, data, then the checksum over the header. */
  method BuildIpPacket(src: Seq32, dst: Seq32, id: Word16, proto: Byte, data: seq<Byte>) returns (ip: array<Byte>)
    requires Wire.IP_HEADER + |data| <= ONES
    ensures fresh(ip) && ip[..] == Wire.IpPacket(src, dst, id, proto, data)
  {
    var totalLen := Wire.IP_HEADER + |data|;
    ip := new Byte[totalLen];
    FillIpHeader(ip, src, dst, id, proto, totalLen);
    PutTail(ip, Wire.IP_HEADER, data);
    ghost var zeroed := Wire.IpHeader(src, dst, id, proto, totalLen, 0);
    assert ip[0..0 + Wire.IP_HEADER] == zeroed;
    var check := IpChecksum(ip, 0, Wire.IP_HEADER);
    Put16(ip, 10, check);
    Wire.CheckReplaced(src, dst, id, proto, totalLen, 0, check, data);
  }

  /** The second half: the Ethernet frame around the packet. */
  method BuildFrame(dstMac: Mac, srcMac: Mac, packet: seq<Byte>) returns (eth: array<Byte>)
    ensures fresh(eth) && eth[..] == Wire.Frame(dstMac, srcMac, packet)
  {
    eth := new Byte[Wire.ETH_HEADER + |packet|];
    forall i | 0 <= i < ETH_ALEN { eth[i] := dstMac[i]; }
    forall i | 0 <= i < ETH_ALEN { eth[ETH_ALEN + i] := srcMac[i]; }
    assert eth[..12] == dstMac + srcMac;
    Put16(eth, 12, Htons(Wire.ETH_P_IP));
    PutTail(eth, Wire.ETH_HEADER, packet);
  }

  // ---- the sending host ----

  class IpLayer {
    const localIp: Seq32
    const gateway: Seq32
    const mac: Mac
    const arp: ArpCache
    var ipId: Word16

    constructor (localIp: Seq32, gateway: Seq32, mac: Mac, arp: ArpCache)
      ensures this.localIp == localIp && this.gateway == gateway && this.mac == mac && this.arp == arp && ipId == 0
    {
      this.localIp, this.gateway, this.mac, this.arp, ipId := localIp, gateway, mac, arp, 0;
    }

    ghost predicate Valid()
      reads this, arp
    {
      arp.Valid()
    }

    ghost function View(): Wire.Host
      requires Valid()
      reads this, arp, arp.ips, arp.macs
    {
      Wire.Host(localIp, gateway, mac, arp.Entries(), ipId)
    }

    /**
     * ip_send. `gotPacket` and `gotFrame` are the outcomes of its two kmalloc calls and `hasDevice` says
     * whether there is a device to transmit on; with all three it does what Wire.IpSend says.
     */
    method Send(dst: Seq32, proto: Byte, data: seq<Byte>, gotPacket: bool, gotFrame: bool, hasDevice: bool)
      returns (sent: Option<seq<Byte>>)
      requires Valid() && Wire.IP_HEADER + |data| <= ONES
      modifies this`ipId
      ensures Valid() && View() == if gotPacket then Wire.IpSend(old(View()), dst, proto, data).0 else old(View())
      ensures sent == if gotPacket && gotFrame && hasDevice then Wire.IpSend(old(View()), dst, proto, data).1 else None
    {
      if !gotPacket {
        return None;
      }
      sent := Emit(dst, proto, data);
      if !gotFrame || !hasDevice {
        sent := None;
      }
    }

    /** ip_send when nothing is missing. */
    method Emit(dst: Seq32, proto: Byte, data: seq<Byte>) returns (sent: Option<seq<Byte>>)
      requires Valid() && Wire.IP_HEADER + |data| <= ONES
      modifies this`ipId
      ensures Valid() && View() == Wire.IpSend(old(View()), dst, proto, data).0
      ensures sent == Wire.IpSend(old(View()), dst, proto, data).1
    {
      ghost var h := View();
      var ip := BuildIpPacket(localIp, dst, ipId, proto, data);
      var packet := ip[..];
      SendsPacket(h, dst, proto, data, packet);
      ipId := (ipId + 1) % 0x1_0000;
      sent := Transmit(dst, packet);
    }

    /** The rest of ip_send: next hop, ARP lookup, frame. */
    method Transmit(dst: Seq32, packet: seq<Byte>) returns (sent: Option<seq<Byte>>)
      requires Valid()
      ensures sent == Wire.FrameFor(View(), dst, packet)
    {
      var hop := dst;
      if dst / 0x100 != localIp / 0x100 {
        hop := gateway;
      }
      var dstMac := arp.Find(hop);
      if dstMac.None? {
        return None;
      }
      var eth := BuildFrame(dstMac.value, mac, packet);
      return Some(eth[..]);
    }

    /** tcp_tx: the header, its checksum, the packet, and ip_send. */
    method SendTcp(local: Seq32, dst: Seq32, seg: Segment, window: Word16, gotPacket: bool, gotFrame: bool, hasDevice: bool)
      returns (sent: Option<seq<Byte>>)
      requires Valid() && Wire.ValidSegment(seg) && Wire.IP_HEADER + Wire.TCP_HEADER + |seg.payload| <= ONES
      modifies this`ipId
      ensures sent == if gotPacket && gotFrame && hasDevice
                      then Wire.IpSend(old(View()), dst, 6, Wire.TcpPacket(local, dst, seg, window)).1 else None
    {
      var packet := BuildTcpPacket(local, dst, seg, window);
      sent := Send(dst, Wire.IP_P_TCP, packet, gotPacket, gotFrame, hasDevice);
    }

    /** icmp_echo_reply, once its packet buffer is allocated. */
    method SendEchoReply(dst: Seq32, id: Word16, seqNo: Word16, data: seq<Byte>, gotPacket: bool, gotFrame: bool, hasDevice: bool)
      returns (sent: Option<seq<Byte>>)
      requires Valid() && Wire.IP_HEADER + Wire.ICMP_HEADER + |data| <= ONES
      modifies this`ipId
      ensures sent == if gotPacket && gotFrame && hasDevice
                      then Wire.IpSend(old(View()), dst, 1, Wire.EchoReply(id, seqNo, data)).1 else None
    {
      var packet := BuildEchoReply(id, seqNo, data);
      sent := Send(dst, Wire.IP_P_ICMP, packet[..], gotPacket, gotFrame, hasDevice);
    }

    /** udp_tx, once its packet buffer is allocated. */
    method SendUdp(dst: Seq32, dstPort: Word16, srcPort: Word16, data: seq<Byte>, gotPacket: bool, gotFrame: bool, hasDevice: bool)
      returns (sent: Option<seq<Byte>>)
      requires Valid() && Wire.IP_HEADER + Wire.UDP_HEADER + |data| <= ONES
      modifies this`ipId
      ensures sent == if gotPacket && gotFrame && hasDevice
                      then Wire.IpSend(old(View()), dst, 17, Wire.UdpPacket(srcPort, dstPort, data)).1 else None
    {
      var packet := new Byte[Wire.UDP_HEADER + |data|];
      Put16(packet, 0, Htons(srcPort));
      Put16(packet, 2, Htons(dstPort));
      Put16(packet, 4, Htons(Wire.UDP_HEADER + |data|));
      Put16(packet, 6, 0);
      PutTail(packet, Wire.UDP_HEADER, data);
      assert packet[..] == Wire.UdpPacket(srcPort, dstPort, data);
      sent := Send(dst, Wire.IP_P_UDP, packet[..], gotPacket, gotFrame, hasDevice);
    }

    /** A frame that arrives at this interface: a reply to an ARP request fills the cache. */
    method Accept(frame: array<Byte>) returns (r: Wire.Reception)
      requires Valid()
      modifies frame, arp`count, arp.ips, arp.macs
      ensures Valid() && r == Wire.NetworkRx(localIp, old(frame[..]))
      ensures arp.Entries() == if r.ArpReply? then Add(old(arp.Entries()), r.e) else old(arp.Entries())
    {
      ghost var before := arp.Entries();
      r := Receive(localIp, frame);
      assert arp.Entries() == before;
      if r.ArpReply? {
        arp.Insert(r.e.ip, r.e.mac);
      }
    }
  }

  lemma SendsPacket(h: Wire.Host, dst: Seq32, proto: Byte, data: seq<Byte>, packet: seq<Byte>)
    requires Wire.IP_HEADER + |data| <= ONES && packet == Wire.IpPacket(h.ip, dst, h.nextId, proto, data)
    ensures var h' := h.(nextId := (h.nextId + 1) % 0x1_0000);
      Wire.IpSend(h, dst, proto, data) == (h', Wire.FrameFor(h', dst, packet))
  {
  }

  /** The packet that tcp_tx builds. */
  method BuildTcpPacket(local: Seq32, dst: Seq32, seg: Segment, window: Word16) returns (packet: seq<Byte>)
    requires Wire.ValidSegment(seg)
    ensures packet == Wire.TcpPacket(local, dst, seg, window)
  {
    var payload := new Byte[|seg.payload|](i requires 0 <= i < |seg.payload| => seg.payload[i]);
    assert payload[..] == seg.payload;
    var tcp := FillTcpHeader(seg, window);
    var pseudo := FillPseudoHeader(local, dst, Wire.TCP_HEADER + payload.Length);
    var checksum := TcpChecksum(pseudo, tcp, payload);
    StoreTcpChecksum(tcp, seg, window, checksum);
    packet := tcp[..] + payload[..];
    PacketOfParts(local, dst, seg, window, checksum);
  }

  lemma PacketOfParts(local: Seq32, dst: Seq32, seg: Segment, window: Word16, checksum: Word16)
    requires Wire.ValidSegment(seg)
    requires checksum == Checksum(Wire.PseudoHeader(local, dst, Wire.TCP_HEADER + |seg.payload|) + Wire.TcpHeader(seg, window, 0) + seg.payload)
    ensures Wire.TcpHeader(seg, window, checksum) + seg.payload == Wire.TcpPacket(local, dst, seg, window)
  {
  }

  method StoreTcpChecksum(tcp: array<Byte>, ghost seg: Segment, ghost window: Word16, checksum: Word16)
    requires Wire.ValidSegment(seg) && tcp.Length == Wire.TCP_HEADER && tcp[..] == Wire.TcpHeader(seg, window, 0)
    modifies tcp
    ensures tcp[..] == Wire.TcpHeader(seg, window, checksum)
  {
    Wire.WordInside(Wire.TcpFront(seg, window), 0, Wire.Store16(0), checksum);
    Put16(tcp, 16, checksum);
  }

  /** The header fields of tcp_tx, in its order: the urgent pointer before the zero checksum. */
  method FillTcpHeader(seg: Segment, window: Word16) returns (tcp: array<Byte>)
    requires Wire.ValidSegment(seg)
    ensures fresh(tcp) && tcp.Length == Wire.TCP_HEADER && tcp[..] == Wire.TcpHeader(seg, window, 0)
  {
    tcp := new Byte[Wire.TCP_HEADER];
    Put16(tcp, 0, Htons(seg.srcPort));
    Put16(tcp, 2, Htons(seg.dstPort));
    Put32(tcp, 4, Wire.Swap32(seg.seqNo));
    Put32(tcp, 8, Wire.Swap32(seg.ackNo));
    PutByte(tcp, 12, Wire.TCP_HEADER / 4);
    PutByte(tcp, 13, seg.flags);
    Put16(tcp, 14, Htons(window));
    assert tcp[..16] == Wire.TcpFront(seg, window);
    Put16(tcp, 18, 0);
    assert tcp[18..] == Wire.Store16(0);
    Put16(tcp, 16, 0);
    assert tcp[..] == tcp[..18] + tcp[18..];
  }

  /** tcp_checksum's pseudo header. */
  method FillPseudoHeader(src: Seq32, dst: Seq32, tcpLen: Word16) returns (pseudo: array<Byte>)
    ensures fresh(pseudo) && pseudo.Length == 12 && pseudo[..] == Wire.PseudoHeader(src, dst, tcpLen)
  {
    pseudo := new Byte[12];
    Put32(pseudo, 0, Wire.Swap32(src));
    Put32(pseudo, 4, Wire.Swap32(dst));
    PutByte(pseudo, 8, 0);
    PutByte(pseudo, 9, Wire.IP_P_TCP);
    Put16(pseudo, 10, Htons(tcpLen));
    assert pseudo[..12] == pseudo[..];
  }

  lemma ThreeParts(a: seq<Byte>, b: seq<Byte>, c: seq<Byte>)
    requires |a| % 2 == 0 && |b| % 2 == 0
    ensures SumLE(a + b + c) == SumLE(a) + SumLE(b) + SumLE(c)
  {
    SumLEConcat(a, b);
    SumLEConcat(a + b, c);
  }

  /** tcp_checksum: one running sum over pseudo header, header and data, none of which can overflow it. */
  method TcpChecksum(pseudo: array<Byte>, tcp: array<Byte>, data: array<Byte>) returns (r: Word16)
    requires pseudo.Length == 12 && tcp.Length == Wire.TCP_HEADER && data.Length <= ONES
    ensures r == Checksum(pseudo[..] + tcp[..] + data[..])
  {
    var sum := AddBuffer(pseudo, 0, 12, 0);
    SumLEBound(pseudo[0..12]);
    sum := AddBuffer(tcp, 0, 20, sum);
    SumLEBound(tcp[0..20]);
    sum := AddBuffer(data, 0, data.Length, sum);
    assert pseudo[0..12] == pseudo[..] && tcp[0..20] == tcp[..] && data[0..data.Length] == data[..];
    ThreeParts(pseudo[..], tcp[..], data[..]);
    sum := FoldSum(sum);
    r := ONES - sum;
  }

  method FillEchoReply(id: Word16, seqNo: Word16, data: seq<Byte>) returns (packet: array<Byte>)
    ensures fresh(packet) && packet[..] == [0, 0] + Wire.Store16(0) + Wire.Net16(id) + Wire.Net16(seqNo) + data
  {
    packet := new Byte[Wire.ICMP_HEADER + |data|];
    PutByte(packet, 0, 0);
    PutByte(packet, 1, 0);
    Put16(packet, 2, 0);
    Put16(packet, 4, Htons(id));
    Put16(packet, 6, Htons(seqNo));
    PutTail(packet, Wire.ICMP_HEADER, data);
  }

  /** The packet of icmp_echo_reply, whose checksum loop sums it in place. */
  method BuildEchoReply(id: Word16, seqNo: Word16, data: seq<Byte>) returns (packet: array<Byte>)
    requires Wire.ICMP_HEADER + |data| <= ONES
    ensures fresh(packet) && packet[..] == Wire.EchoReply(id, seqNo, data)
  {
    packet := FillEchoReply(id, seqNo, data);
    ghost var zeroed := packet[..];
    assert packet[0..packet.Length] == zeroed;
    var sum := AddBuffer(packet, 0, packet.Length, 0);
    sum := FoldSum(sum);
    Put16(packet, 2, ONES - sum);
    EchoIsZeroed(zeroed, id, seqNo, data, ONES - sum);
  }

  /** Storing the checksum of a reply with a zero checksum field completes it. */
  lemma EchoIsZeroed(packet: seq<Byte>, id: Word16, seqNo: Word16, data: seq<Byte>, check: Word16)
    requires check == Checksum(packet)
    requires packet == [0, 0] + Wire.Store16(0) + Wire.Net16(id) + Wire.Net16(seqNo) + data
    ensures WordAt(packet, 2) && SetWord(packet, 2, check) == Wire.EchoReply(id, seqNo, data)
  {
    var rest := Wire.Net16(id) + Wire.Net16(seqNo) + data;
    Tail4([0, 0] + Wire.Store16(0), Wire.Net16(id), Wire.Net16(seqNo), data);
    Wire.WordInside([0, 0], 0, rest, check);
  }

  lemma Tail4(a: seq<Byte>, b: seq<Byte>, c: seq<Byte>, d: seq<Byte>)
    ensures a + b + c + d == a + (b + c + d)
  {
  }

  // ---- the receiving host ----

  /**
   * network_rx and ip_rx on a received frame. The check field is zeroed in the buffer while the header is
   * summed. Where the model answers Short, the source has no check and reads past the frame.
   */
  method Receive(localIp: Seq32, frame: array<Byte>) returns (r: Wire.Reception)
    modifies frame
    ensures r == Wire.NetworkRx(localIp, old(frame[..]))
  {
    if frame.Length < Wire.ETH_HEADER {
      return Wire.Dropped;
    }
    var kind := Swap16(GetWord(frame[..], 12));
    Wire.GetNet16IsBswap(frame[..], 12);
    if kind == Wire.ETH_P_IP {
      r := ReceiveIp(localIp, frame, Wire.ETH_HEADER);
    } else if kind == Wire.ETH_P_ARP {
      r := Wire.ArpRx(frame[Wire.ETH_HEADER..]);
    } else {
      r := Wire.Dropped;
    }
  }

  /** `check = ip->check; ip->check = 0` */
  method TakeCheck(frame: array<Byte>, at: nat) returns (check: Word16)
    requires at % 2 == 0 && at + Wire.IP_HEADER <= frame.Length
    modifies frame
    ensures WordAt(old(frame[at..]), 10) && check == GetWord(old(frame[at..]), 10)
    ensures frame[at..] == SetWord(old(frame[at..]), 10, 0)
  {
    check := GetWord(frame[..], at + 10);
    Put16(frame, at + 10, 0);
  }

  method ReceiveIp(localIp: Seq32, frame: array<Byte>, at: nat) returns (r: Wire.Reception)
    requires at % 2 == 0 && at <= frame.Length
    modifies frame
    ensures r == Wire.IpRx(localIp, old(frame[at..]))
  {
    if frame.Length - at < Wire.IP_HEADER {
      return Wire.Short;
    }
    var check := TakeCheck(frame, at);
    assert frame[at..at + Wire.IP_HEADER] == frame[at..][..Wire.IP_HEADER];
    var sum := IpChecksum(frame, at, Wire.IP_HEADER);
    if sum != check {
      return Wire.Dropped;
    }
    r := Wire.Dispatch(localIp, frame[at..]);
  }
}
