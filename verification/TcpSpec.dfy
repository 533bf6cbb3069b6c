/** The receiving half of tcp.c on values: one connection, its ring buffer and its counters. */
module TcpSpec {
  import opened Bits

  type Byte = b: nat | b < 0x100

  /** A 32-bit sequence number or counter. */
  type Seq32 = n: nat | n < TWO32

  const RX_BUF_SIZE := 0x1_0000

  const TCP_FIN := 0x01
  const TCP_SYN := 0x02
  const TCP_ACK := 0x10

  datatype TcpState =
    | Closed | Listen | SynSent | SynRecv | Established | FinWait1 | FinWait2
    | CloseWait | Closing | LastAck | TimeWait

  datatype Segment = Segment(srcPort: nat, dstPort: nat, seqNo: Seq32, ackNo: Seq32, flags: nat, payload: seq<Byte>)

  predicate IsFin(flags: nat) { Bit(flags, 0) }
  predicate IsSyn(flags: nat) { Bit(flags, 1) }
  predicate IsAck(flags: nat) { Bit(flags, 4) }

  /** The fields of struct socket that the receive path reads or writes. */
  datatype Conn = Conn(
    state: TcpState, sndUna: Seq32, sndNxt: Seq32, rcvNxt: Seq32, rxHead: Seq32, rxTail: Seq32, rxBuf: seq<Byte>)

  function Add32(a: nat, b: nat): Seq32 {
    (a + b) % TWO32
  }

  /** `a - b` in 32-bit arithmetic. */
  function Sub32(a: Seq32, b: Seq32): Seq32 {
    (a + TWO32 - b) % TWO32
  }

  // ---- the ring buffer ----

  /** `data` written at offset `tail`, wrapping at the end of the buffer. */
  function RingWrite(buf: seq<Byte>, tail: nat, data: seq<Byte>): (r: seq<Byte>)
    requires |buf| == RX_BUF_SIZE && tail < RX_BUF_SIZE && |data| <= RX_BUF_SIZE
    ensures |r| == RX_BUF_SIZE
  {
    seq(RX_BUF_SIZE, i requires 0 <= i < RX_BUF_SIZE =>
      var d := if i >= tail then i - tail else i + RX_BUF_SIZE - tail;
      if d < |data| then data[d] else buf[i])
  }

  /** `n` bytes read from offset `head`, wrapping likewise. */
  function RingRead(buf: seq<Byte>, head: nat, n: nat): (r: seq<Byte>)
    requires |buf| == RX_BUF_SIZE && head < RX_BUF_SIZE && n <= RX_BUF_SIZE
    ensures |r| == n
  {
    seq(n, i requires 0 <= i < n => buf[if head + i < RX_BUF_SIZE then head + i else head + i - RX_BUF_SIZE])
  }

  // ---- tcp_rx and tcp_recv on one connection ----

  function Unread(c: Conn): Seq32 {
    Sub32(c.rxTail, c.rxHead)
  }

  /** TCP_RX_BUF_SIZE - (rx_tail - rx_head), in 32-bit arithmetic. */
  function Space(c: Conn): Seq32 {
    Sub32(RX_BUF_SIZE, Unread(c))
  }

  /** The part of the payload that an established connection takes: in order, and cut to the free space. */
  function Taken(c: Conn, seg: Segment): seq<Byte> {
    if c.state != Established || seg.payload == [] || seg.seqNo != c.rcvNxt then []
    else if |seg.payload| > Space(c) then seg.payload[..Space(c)]
    else seg.payload
  }

  predicate BufferOk(c: Conn) {
    |c.rxBuf| == RX_BUF_SIZE
  }

  /** A segment can carry at most 65535 bytes. */
  predicate Fits(seg: Segment) {
    |seg.payload| < 0x1_0000
  }

  function TakeData(c: Conn, seg: Segment): Conn
    requires BufferOk(c) && Fits(seg)
  {
    var data := Taken(c, seg);
    c.(rxBuf := RingWrite(c.rxBuf, c.rxTail % RX_BUF_SIZE, data),
       rxTail := Add32(c.rxTail, |data|),
       rcvNxt := Add32(c.rcvNxt, |data|))
  }

  /** The switch of tcp_rx for a socket that is not listening. The ACKs it sends do not move snd_nxt. */
  function Rx(c: Conn, seg: Segment): (c': Conn)
    requires BufferOk(c) && Fits(seg)
    ensures BufferOk(c')
  {
    match c.state
    case SynSent =>
      if IsSyn(seg.flags) && IsAck(seg.flags) && seg.ackNo == Add32(c.sndUna, 1)
      then c.(state := Established, rcvNxt := Add32(seg.seqNo, 1), sndUna := seg.ackNo) else c
    case SynRecv =>
      if IsAck(seg.flags) then c.(state := Established) else c
    case Established =>
      var c1 := if IsAck(seg.flags) then c.(sndUna := seg.ackNo) else c;
      var c2 := TakeData(c1, seg);
      if IsFin(seg.flags) then c2.(state := CloseWait, rcvNxt := Add32(c2.rcvNxt, 1)) else c2
    case CloseWait => if IsAck(seg.flags) then c.(state := Closed) else c
    case LastAck => if IsAck(seg.flags) then c.(state := Closed) else c
    case _ => c
  }

  // ---- what is answered ----

  /** The segment without data that tcp_tx makes of a socket's numbers. */
  function Reply(c: Conn, local: nat, remote: nat, flags: nat): Segment {
    Segment(local, remote, c.sndNxt, c.rcvNxt, flags, [])
  }

  /** What tcp_rx gives to tcp_tx on a socket that is not listening, in order. */
  function Replies(c: Conn, seg: Segment, local: nat, remote: nat): seq<Segment>
    requires BufferOk(c) && Fits(seg)
  {
    match c.state
    case SynSent => if Rx(c, seg).state == Established then [Reply(Rx(c, seg), local, remote, TCP_ACK)] else []
    case Established =>
      (if seg.payload != [] && seg.seqNo == c.rcvNxt then [Reply(TakeData(c, seg), local, remote, TCP_ACK)] else [])
      + (if IsFin(seg.flags) then [Reply(Rx(c, seg), local, remote, TCP_ACK)] else [])
    case _ => []
  }

  /** What tcp_close gives to it. */
  function Farewell(c: Conn, local: nat, remote: nat): seq<Segment> {
    if c.state == Established || c.state == CloseWait then [Reply(c, local, remote, TCP_FIN + TCP_ACK)] else []
  }

  predicate CanRead(c: Conn) {
    c.state == Established || c.state == CloseWait
  }

  function ReadLength(c: Conn, len: nat): nat {
    if !CanRead(c) then 0 else if len > Unread(c) then Unread(c) else len
  }

  /** tcp_recv: the bytes it copies out; the result is negative exactly when `CanRead` fails. */
  function Recv(c: Conn, len: nat): (Conn, seq<Byte>)
    requires BufferOk(c) && ReadLength(c, len) <= RX_BUF_SIZE
  {
    var n := ReadLength(c, len);
    (c.(rxHead := Add32(c.rxHead, n)), RingRead(c.rxBuf, c.rxHead % RX_BUF_SIZE, n))
  }

  /** tcp_tx as far as the connection goes: what it adds to snd_nxt, when it gets memory for the packet. */
  function Tx(c: Conn, flags: nat, len: nat): Conn {
    var syn := if IsSyn(flags) && !IsAck(flags) then 1 else 0;
    var fin := if IsFin(flags) then 1 else 0;
    c.(sndNxt := Add32(c.sndNxt, syn + fin + len))
  }

  function Close(c: Conn, sent: bool): Conn {
    match c.state
    case Established => var c1 := c.(state := FinWait1); if sent then Tx(c1, TCP_FIN + TCP_ACK, 0) else c1
    case CloseWait => var c1 := c.(state := LastAck); if sent then Tx(c1, TCP_FIN + TCP_ACK, 0) else c1
    case SynSent => c.(state := Closed)
    case SynRecv => c.(state := Closed)
    case _ => c
  }

  // ---- runs of one connection ----

  datatype Event = Arrive(seg: Segment) | Read(len: nat) | Shut(sent: bool)

  /** A connection with the history of what it took in, what it gave out, and the FINs it counted. */
  datatype Trace = Trace(c: Conn, taken: seq<Byte>, given: seq<Byte>, fins: nat)

  predicate Takes(c: Conn, e: Event) {
    match e
    case Arrive(seg) => Fits(seg)
    case Read(len) => ReadLength(c, len) <= RX_BUF_SIZE
    case Shut(_) => true
  }

  function Next(t: Trace, e: Event): Trace
    requires BufferOk(t.c) && Takes(t.c, e)
  {
    match e
    case Arrive(seg) =>
      Trace(Rx(t.c, seg), t.taken + Taken(t.c, seg), t.given,
        t.fins + if t.c.state == Established && IsFin(seg.flags) then 1 else 0)
    case Read(len) => Trace(Recv(t.c, len).0, t.taken, t.given + Recv(t.c, len).1, t.fins)
    case Shut(sent) => t.(c := Close(t.c, sent))
  }

  /** The socket that a listener spawns for a SYN: empty ring, and the peer's sequence number plus one. */
  predicate Spawned(c: Conn, isn: Seq32) {
    c.state == SynRecv && BufferOk(c) && c.rxHead == 0 && c.rxTail == 0 && c.rcvNxt == Add32(isn, 1)
  }

  /** The trace after the events; an event that cannot happen is skipped. */
  function Run(c: Conn, events: seq<Event>): (t: Trace)
    requires BufferOk(c)
    ensures BufferOk(t.c)
  {
    if events == [] then Trace(c, [], [], 0)
    else
      var t, e := Run(c, events[..|events| - 1]), events[|events| - 1];
      if Takes(t.c, e) then Next(t, e) else t
  }

  /**
   * The free-running counters are the stream positions modulo 2^32, and the ring holds exactly the
   * bytes between them.
   */
  ghost predicate RingOk(t: Trace) {
    && BufferOk(t.c)
    && |t.given| <= |t.taken| <= |t.given| + RX_BUF_SIZE
    && t.given == t.taken[..|t.given|]
    && t.c.rxHead == |t.given| % TWO32 && t.c.rxTail == |t.taken| % TWO32
    && forall i :: |t.given| <= i < |t.taken| ==> t.c.rxBuf[i % RX_BUF_SIZE] == t.taken[i]
  }

  /** rcv_nxt is the peer's next byte, plus one once its FIN has been counted. */
  ghost predicate RcvNxtOk(t: Trace, isn: Seq32) {
    && t.c.rcvNxt == (isn + 1 + |t.taken| + t.fins) % TWO32
    && t.fins <= 1
    && (t.c.state == SynRecv || t.c.state == Established ==> t.fins == 0)
    && t.c.state != SynSent && t.c.state != Listen
  }

  lemma CounterGap(a: nat, b: nat)
    requires a <= b <= a + RX_BUF_SIZE
    ensures Sub32(b % TWO32, a % TWO32) == b - a
  {
  }

  lemma RingAccounting(t: Trace)
    requires RingOk(t)
    ensures Unread(t.c) == |t.taken| - |t.given| && Space(t.c) == RX_BUF_SIZE - (|t.taken| - |t.given|)
  {
    CounterGap(|t.given|, |t.taken|);
  }

  lemma RingIndex(n: nat)
    ensures n % TWO32 % RX_BUF_SIZE == n % RX_BUF_SIZE
  {
    SplitDigits(n, RX_BUF_SIZE, 0x1_0000);
  }

  /** Distinct positions less than a buffer apart occupy distinct cells. */
  lemma CellOf(base: nat, d: nat)
    requires d < RX_BUF_SIZE
    ensures (base + d) % RX_BUF_SIZE ==
      if base % RX_BUF_SIZE + d < RX_BUF_SIZE then base % RX_BUF_SIZE + d else base % RX_BUF_SIZE + d - RX_BUF_SIZE
  {
  }

  /** The offset from the tail that RingWrite computes for the cell of stream position `i`. */
  lemma OffsetFromTail(n: nat, i: nat)
    requires n <= i + RX_BUF_SIZE && i < n + RX_BUF_SIZE
    ensures var tail, cell := n % RX_BUF_SIZE, i % RX_BUF_SIZE;
      (if cell >= tail then cell - tail else cell + RX_BUF_SIZE - tail) ==
        if i >= n then i - n else if i + RX_BUF_SIZE == n then 0 else i + RX_BUF_SIZE - n
  {
    if i >= n { CellOf(n, i - n); } else if i + RX_BUF_SIZE > n { CellOf(n, i + RX_BUF_SIZE - n); }
  }

  lemma AddMod(a: nat, b: nat)
    ensures (a % TWO32 + b) % TWO32 == (a + b) % TWO32
  {
  }

  /** One cell of the ring after a write at stream position `n`. */
  lemma WrittenCell(buf: seq<Byte>, n: nat, data: seq<Byte>, i: nat)
    requires |buf| == RX_BUF_SIZE && |data| <= RX_BUF_SIZE && i < n + |data| <= i + RX_BUF_SIZE
    ensures RingWrite(buf, n % RX_BUF_SIZE, data)[i % RX_BUF_SIZE] == if i >= n then data[i - n] else buf[i % RX_BUF_SIZE]
  {
    OffsetFromTail(n, i);
  }

  lemma ReadCell(buf: seq<Byte>, g: nat, n: nat, i: nat)
    requires |buf| == RX_BUF_SIZE && n <= RX_BUF_SIZE && i < n
    ensures RingRead(buf, g % RX_BUF_SIZE, n)[i] == buf[(g + i) % RX_BUF_SIZE]
  {
    CellOf(g, i);
  }

  lemma TakenFits(t: Trace, seg: Segment)
    requires RingOk(t) && Fits(seg)
    ensures |t.taken| + |Taken(t.c, seg)| <= |t.given| + RX_BUF_SIZE
  {
    RingAccounting(t);
  }

  lemma TakeKeepsRing(t: Trace, seg: Segment)
    requires RingOk(t) && Fits(seg)
    ensures RingOk(Trace(TakeData(t.c, seg), t.taken + Taken(t.c, seg), t.given, t.fins))
  {
    var data, n := Taken(t.c, seg), |t.taken|;
    var c', taken' := TakeData(t.c, seg), t.taken + data;
    TakenFits(t, seg);
    RingIndex(n);
    AddMod(n, |data|);
    assert c'.rxBuf == RingWrite(t.c.rxBuf, n % RX_BUF_SIZE, data);
    forall i | |t.given| <= i < |taken'| ensures c'.rxBuf[i % RX_BUF_SIZE] == taken'[i] {
      WrittenCell(t.c.rxBuf, n, data, i);
    }
  }

  lemma ReadLengthFits(t: Trace, len: nat)
    requires RingOk(t)
    ensures |t.given| + ReadLength(t.c, len) <= |t.taken|
  {
    RingAccounting(t);
  }

  lemma ReadIsNext(t: Trace, len: nat)
    requires RingOk(t)
    ensures ReadLength(t.c, len) <= RX_BUF_SIZE && |t.given| + ReadLength(t.c, len) <= |t.taken|
    ensures Recv(t.c, len).1 == t.taken[|t.given|..|t.given| + ReadLength(t.c, len)]
  {
    var g, n := |t.given|, ReadLength(t.c, len);
    ReadLengthFits(t, len);
    RingIndex(g);
    var bytes := Recv(t.c, len).1;
    assert bytes == RingRead(t.c.rxBuf, g % RX_BUF_SIZE, n);
    forall i | 0 <= i < n ensures bytes[i] == t.taken[g..g + n][i] {
      ReadCell(t.c.rxBuf, g, n, i);
    }
  }

  lemma ReadKeepsRing(t: Trace, len: nat)
    requires RingOk(t)
    ensures ReadLength(t.c, len) <= RX_BUF_SIZE
    ensures RingOk(Trace(Recv(t.c, len).0, t.taken, t.given + Recv(t.c, len).1, t.fins))
  {
    var g, n := |t.given|, ReadLength(t.c, len);
    ReadIsNext(t, len);
    AddMod(g, n);
    assert t.taken[..g] + t.taken[g..g + n] == t.taken[..g + n];
  }

  /** An arrival on an established connection. */
  lemma ArriveKeepsRing(t: Trace, seg: Segment, isn: Seq32)
    requires RingOk(t) && RcvNxtOk(t, isn) && t.c.state == Established && Fits(seg)
    ensures RingOk(Next(t, Arrive(seg))) && RcvNxtOk(Next(t, Arrive(seg)), isn)
  {
    var c1 := if IsAck(seg.flags) then t.c.(sndUna := seg.ackNo) else t.c;
    var data := Taken(t.c, seg);
    assert Taken(c1, seg) == data;
    TakeKeepsRing(t.(c := c1), seg);
    AddMod(isn + 1 + |t.taken|, |data|);
    AddMod(isn + 1 + |t.taken| + |data|, 1);
  }

  lemma NextKeepsRing(t: Trace, e: Event, isn: Seq32)
    requires RingOk(t) && RcvNxtOk(t, isn)
    ensures Takes(t.c, e) ==> RingOk(Next(t, e)) && RcvNxtOk(Next(t, e), isn)
    ensures e.Read? ==> Takes(t.c, e)
  {
    match e
    case Arrive(seg) =>
      if Fits(seg) {
        if t.c.state == Established {
          ArriveKeepsRing(t, seg, isn);
        } else {
          assert t.taken + Taken(t.c, seg) == t.taken;
        }
      }
    case Read(len) => ReadKeepsRing(t, len);
    case Shut(_) =>
  }

  /**
   * Over any arrivals, reads and closes on a spawned socket, whatever the segments contain and
   * however often the 32-bit counters wrap, the ring and rcv_nxt mean what they should.
   */
  lemma {:induction false} RunKeepsRing(c: Conn, isn: Seq32, events: seq<Event>)
    requires Spawned(c, isn)
    ensures RingOk(Run(c, events)) && RcvNxtOk(Run(c, events), isn)
  {
    if events != [] {
      RunKeepsRing(c, isn, events[..|events| - 1]);
      NextKeepsRing(Run(c, events[..|events| - 1]), events[|events| - 1], isn);
    }
  }

  /** The unread count and the free space that the code computes are the true ones. */
  lemma CountersAreExact(c: Conn, isn: Seq32, events: seq<Event>)
    requires Spawned(c, isn)
    ensures var t := Run(c, events);
      && |t.given| <= |t.taken| <= |t.given| + RX_BUF_SIZE
      && Unread(t.c) == |t.taken| - |t.given|
      && Space(t.c) == RX_BUF_SIZE - (|t.taken| - |t.given|)
      && t.c.rcvNxt == (isn + 1 + |t.taken| + t.fins) % TWO32 && t.fins <= 1
  {
    RunKeepsRing(c, isn, events);
    RingAccounting(Run(c, events));
  }

  // ---- the application sees a prefix of the peer's stream ----

  /** The payload is the stretch of the stream that its sequence number names. */
  predicate Genuine(seg: Segment, isn: Seq32, stream: seq<Byte>) {
    var at := Sub32(seg.seqNo, Add32(isn, 1));
    seg.payload != [] ==> at + |seg.payload| <= |stream| && seg.payload == stream[at..at + |seg.payload|]
  }

  predicate AllGenuine(events: seq<Event>, isn: Seq32, stream: seq<Byte>) {
    forall e :: e in events && e.Arrive? ==> Genuine(e.seg, isn, stream)
  }

  lemma StreamOffset(isn: Seq32, n: nat)
    requires n < TWO32
    ensures Sub32((isn + 1 + n) % TWO32, Add32(isn, 1)) == n
  {
  }

  lemma {:induction false} TakenIsPrefix(c: Conn, isn: Seq32, events: seq<Event>, stream: seq<Byte>)
    requires Spawned(c, isn) && |stream| < TWO32 && AllGenuine(events, isn, stream)
    ensures Run(c, events).taken <= stream
  {
    if events != [] {
      var init, e := events[..|events| - 1], events[|events| - 1];
      assert e in events && forall d :: d in init ==> d in events;
      TakenIsPrefix(c, isn, init, stream);
      RunKeepsRing(c, isn, init);
      var t := Run(c, init);
      if e.Arrive? {
        TakenStaysPrefix(t, e.seg, isn, stream);
      }
    }
  }

  lemma TakenStaysPrefix(t: Trace, seg: Segment, isn: Seq32, stream: seq<Byte>)
    requires RcvNxtOk(t, isn) && t.taken <= stream && |stream| < TWO32 && Genuine(seg, isn, stream)
    ensures t.taken + Taken(t.c, seg) <= stream
  {
    if Taken(t.c, seg) != [] {
      StreamOffset(isn, |t.taken|);
      NextBytes(stream, |t.taken|, seg.payload, Taken(t.c, seg));
    }
  }

  lemma NextBytes(stream: seq<Byte>, n: nat, payload: seq<Byte>, data: seq<Byte>)
    requires n + |payload| <= |stream| && payload == stream[n..n + |payload|] && data <= payload
    ensures stream[..n] + data <= stream
  {
    assert data == stream[n..n + |data|];
  }

  /**
   * Whatever segments arrive, lost, repeated, out of order, overlapping or too large for the
   * buffer, and wherever a FIN falls, the bytes handed to the application are a prefix of the stream.
   */
  lemma DeliveryIsPrefix(c: Conn, isn: Seq32, events: seq<Event>, stream: seq<Byte>)
    requires Spawned(c, isn) && |stream| < TWO32 && AllGenuine(events, isn, stream)
    ensures Run(c, events).given <= stream
  {
    TakenIsPrefix(c, isn, events, stream);
    RunKeepsRing(c, isn, events);
  }

  /** Progress: the next in-order segment is taken as far as there is room, and read back in full. */
  lemma InOrderSegmentIsDelivered(c: Conn, isn: Seq32, events: seq<Event>, seg: Segment, len: nat)
    requires Spawned(c, isn) && Run(c, events).c.state == Established && Fits(seg) && !IsFin(seg.flags)
    requires Run(c, events).given == Run(c, events).taken && seg.seqNo == Run(c, events).c.rcvNxt && |seg.payload| <= len
    ensures Run(c, events + [Arrive(seg), Read(len)]).given == Run(c, events).given + seg.payload
  {
    var t := Run(c, events);
    var more := events + [Arrive(seg)];
    assert more[..|more| - 1] == events;
    assert (more + [Read(len)])[..|more|] == more && more + [Read(len)] == events + [Arrive(seg), Read(len)];
    RunKeepsRing(c, isn, events);
    RingAccounting(t);
    RunKeepsRing(c, isn, more);
    RingAccounting(Run(c, more));
    ReadIsNext(Run(c, more), len);
    assert t.taken + seg.payload == Run(c, more).taken;
  }

  // ---- tcp_connect against a conforming peer ----

  /** tcp_connect with initial sequence number `iss`: snd_nxt is advanced before the SYN is sent, and again by tcp_tx. */
  function Connect(c: Conn, iss: Seq32): (Conn, Seq32) {
    var c1 := c.(state := SynSent, sndUna := iss, sndNxt := Add32(iss, 1));
    (Tx(c1, TCP_SYN, 0), c1.sndNxt)
  }

  /** The connection is established exactly by a SYN-ACK that acknowledges the SYN's own number, not the next one. */
  lemma ConnectAcceptsOnlyUnadvancedAck(c: Conn, iss: Seq32, seg: Segment)
    requires BufferOk(c) && Fits(seg)
    ensures var (c', synSeq) := Connect(c, iss);
      Rx(c', seg).state == Established <==> IsSyn(seg.flags) && IsAck(seg.flags) && seg.ackNo == synSeq
  {
  }

  /** So the reply that acknowledges the SYN as RFC 9293 prescribes is ignored. */
  lemma ConformingReplyIsIgnored(c: Conn, iss: Seq32, seg: Segment)
    requires BufferOk(c) && Fits(seg) && seg.ackNo == Add32(Connect(c, iss).1, 1)
    ensures Rx(Connect(c, iss).0, seg) == Connect(c, iss).0
  {
  }
}
