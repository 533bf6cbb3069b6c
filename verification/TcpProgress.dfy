/** The life of a connection: which events change its state, what each segment adds and each read returns, and a whole conversation. */
module TcpProgress {
  import opened Bits
  import opened TcpSpec
  import opened TcpTable

  // ---- flags ----

  predicate Fin(flags: nat) { flags % 2 == 1 }
  predicate Syn(flags: nat) { flags / 2 % 2 == 1 }
  predicate Ack(flags: nat) { flags / 16 % 2 == 1 }

  /** FIN, SYN and ACK are bits 0, 1 and 4 of the flags. */
  lemma FlagBits(flags: nat)
    ensures (IsFin(flags) <==> Fin(flags)) && (IsSyn(flags) <==> Syn(flags)) && (IsAck(flags) <==> Ack(flags))
  {
    BitStep(flags, 1);
    BitStep(flags, 4);
    BitStep(flags / 2, 3);
    BitStep(flags / 4, 2);
    BitStep(flags / 8, 1);
    assert flags / 2 / 2 == flags / 4 && flags / 4 / 2 == flags / 8 && flags / 8 / 2 == flags / 16;
  }

  lemma BitStep(a: nat, k: nat)
    requires k > 0
    ensures Bit(a, k) == Bit(a / 2, k - 1)
  {
  }

  // ---- transitions ----

  /** The SYN-ACK that a connecting socket accepts: it acknowledges `snd_una + 1`. */
  predicate Connects(c: Conn, seg: Segment) {
    c.state == SynSent && Syn(seg.flags) && Ack(seg.flags) && seg.ackNo == (c.sndUna + 1) % TWO32
  }

  /** When a segment leaves a connection in a state: all the ways there, the absence of a change included. */
  ghost predicate LeavesIn(c: Conn, seg: Segment, to: TcpState) {
    match to
    case Established =>
      || Connects(c, seg)
      || (c.state == SynRecv && Ack(seg.flags))
      || (c.state == Established && !Fin(seg.flags))
    case CloseWait => (c.state == Established && Fin(seg.flags)) || (c.state == CloseWait && !Ack(seg.flags))
    case Closed => c.state == Closed || ((c.state == CloseWait || c.state == LastAck) && Ack(seg.flags))
    case SynSent => c.state == SynSent && !Connects(c, seg)
    case SynRecv => c.state == SynRecv && !Ack(seg.flags)
    case LastAck => c.state == LastAck && !Ack(seg.flags)
    case _ => c.state == to
  }

  /** tcp_rx moves a socket to a state exactly in the ways listed. */
  lemma RxMoves(c: Conn, seg: Segment, to: TcpState)
    requires BufferOk(c) && Fits(seg)
    ensures Rx(c, seg).state == to <==> LeavesIn(c, seg, to)
  {
    FlagBits(seg.flags);
  }

  /** What tcp_rx does to the numbers of a socket, apart from the data it takes. */
  lemma RxNumbers(c: Conn, seg: Segment)
    requires BufferOk(c) && Fits(seg)
    ensures var c' := Rx(c, seg);
      && c'.sndNxt == c.sndNxt && c'.rxHead == c.rxHead
      && c'.sndUna == (if Ack(seg.flags) && (c.state == Established || Connects(c, seg)) then seg.ackNo else c.sndUna)
      && (c.state != Established ==> c'.rxTail == c.rxTail && c'.rxBuf == c.rxBuf)
      && (Connects(c, seg) ==> c'.rcvNxt == (seg.seqNo + 1) % TWO32)
      && (c.state != Established && !Connects(c, seg) ==> c'.rcvNxt == c.rcvNxt)
  {
    FlagBits(seg.flags);
  }

  /** tcp_close: an open connection sends a FIN, which takes one number if there was memory for it; a half-open one is dropped. */
  lemma CloseMoves(c: Conn, sent: bool)
    ensures var c' := Close(c, sent);
      && c'.state == (if c.state == Established then FinWait1 else if c.state == CloseWait then LastAck
                      else if c.state == SynSent || c.state == SynRecv then Closed else c.state)
      && c'.sndNxt == (if sent && (c.state == Established || c.state == CloseWait) then (c.sndNxt + 1) % TWO32 else c.sndNxt)
      && c' == c.(state := c'.state, sndNxt := c'.sndNxt)
  {
    FlagBits(TCP_FIN + TCP_ACK);
  }

  /** tcp_tx advances snd_nxt by one for a SYN without ACK, one for a FIN, and the length of the data. */
  lemma TxAdvances(c: Conn, flags: nat, len: nat)
    ensures Tx(c, flags, len) ==
      c.(sndNxt := (c.sndNxt + (if Syn(flags) && !Ack(flags) then 1 else 0) + (if Fin(flags) then 1 else 0) + len) % TWO32)
  {
    FlagBits(flags);
  }

  /** tcp_connect advances it twice: the SYN goes out with `iss + 1`, and `iss + 2` is next. */
  lemma ConnectNumbers(c: Conn, iss: Seq32)
    ensures var (c', synSeq) := Connect(c, iss);
      c'.state == SynSent && c'.sndUna == iss && synSeq == (iss + 1) % TWO32 && c'.sndNxt == (iss + 2) % TWO32
  {
    FlagBits(TCP_SYN);
  }

  // ---- data ----

  function Min(a: nat, b: nat): nat {
    if a < b then a else b
  }

  lemma OneMore(c: Conn, events: seq<Event>, e: Event)
    requires BufferOk(c)
    ensures Takes(Run(c, events).c, e) ==> Run(c, events + [e]) == Next(Run(c, events), e)
  {
    assert (events + [e])[..|events|] == events;
  }

  /** A state of a spawned connection, with its history. */
  ghost predicate Reached(t: Trace, isn: Seq32) {
    RingOk(t) && RcvNxtOk(t, isn)
  }

  /** What a segment adds: all that it has in order, cut to the room in the 64 KB ring, and otherwise nothing. */
  lemma SegmentAdds(t: Trace, isn: Seq32, seg: Segment)
    requires Reached(t, isn) && Fits(seg)
    ensures |t.taken| - |t.given| <= 0x1_0000
    ensures var t' := Next(t, Arrive(seg));
      t'.given == t.given && t'.taken == t.taken +
        if t.c.state == Established && seg.seqNo == t.c.rcvNxt
        then seg.payload[..Min(|seg.payload|, 0x1_0000 - (|t.taken| - |t.given|))] else []
  {
    RingAccounting(t);
  }

  /** What a read returns: the next bytes, as many as are asked for and there, in the two states that can be read. */
  lemma ReadGives(t: Trace, isn: Seq32, len: nat)
    requires Reached(t, isn)
    ensures |t.given| <= |t.taken| && Takes(t.c, Read(len))
    ensures var t' := Next(t, Read(len));
      t'.taken == t.taken && t'.c.state == t.c.state && t'.given == t.given +
        if t.c.state == Established || t.c.state == CloseWait
        then t.taken[|t.given|..|t.given| + Min(len, |t.taken| - |t.given|)] else []
  {
    RingAccounting(t);
    ReadIsNext(t, len);
  }

  lemma RunReaches(c: Conn, isn: Seq32, events: seq<Event>)
    requires Spawned(c, isn)
    ensures Reached(Run(c, events), isn)
  {
    RunKeepsRing(c, isn, events);
  }

  // ---- acknowledgements ----

  /** A bare ACK from these ports that acknowledges `n` bytes of the stream, FIN included. */
  predicate Acknowledges(r: Segment, c: Conn, isn: Seq32, n: nat, local: nat, remote: nat) {
    r == Segment(local, remote, c.sndNxt, (isn + 1 + n) % TWO32, 16, [])
  }

  /**
   * What tcp_rx answers on a spawned connection: one ACK for data in order, though the ring may have had no room
   * for it, and one for a FIN. Each acknowledges exactly what has been accepted at that point, over any run.
   */
  lemma AcksAreExact(t: Trace, isn: Seq32, seg: Segment, local: nat, remote: nat)
    requires Reached(t, isn) && Fits(seg)
    ensures var t', out := Next(t, Arrive(seg)), Replies(t.c, seg, local, remote);
      var data := t.c.state == Established && seg.payload != [] && seg.seqNo == t.c.rcvNxt;
      var fin := t.c.state == Established && Fin(seg.flags);
      && |out| == (if data then 1 else 0) + (if fin then 1 else 0)
      && (data ==> Acknowledges(out[0], t.c, isn, |t'.taken|, local, remote))
      && (fin ==> Acknowledges(out[|out| - 1], t.c, isn, |t'.taken| + 1, local, remote))
  {
    FlagBits(seg.flags);
    if t.c.state == Established {
      NumbersAfter(t, isn, seg);
      assert Acknowledges(Reply(TakeData(t.c, seg), local, remote, TCP_ACK), t.c, isn, |Next(t, Arrive(seg)).taken|, local, remote);
    }
  }

  /** rcv_nxt after the data of a segment, and after its FIN. */
  lemma NumbersAfter(t: Trace, isn: Seq32, seg: Segment)
    requires Reached(t, isn) && Fits(seg) && t.c.state == Established
    ensures var n := |Next(t, Arrive(seg)).taken|;
      && TakeData(t.c, seg).rcvNxt == (isn + 1 + n) % TWO32 && TakeData(t.c, seg).sndNxt == t.c.sndNxt
      && (Fin(seg.flags) ==> Rx(t.c, seg).rcvNxt == (isn + 1 + (n + 1)) % TWO32) && Rx(t.c, seg).sndNxt == t.c.sndNxt
  {
    FlagBits(seg.flags);
    var data := Taken(t.c, seg);
    AddMod(isn + 1 + |t.taken|, |data|);
    AddMod(isn + 1 + |t.taken| + |data|, 1);
  }

  /** tcp_close's FIN carries the connection's own numbers, the one that it then consumes included. */
  lemma FarewellIs(c: Conn, local: nat, remote: nat)
    ensures Farewell(c, local, remote) ==
      if c.state == Established || c.state == CloseWait then [Segment(local, remote, c.sndNxt, c.rcvNxt, 17, [])] else []
  {
  }

  /** tcp_rx answers only for the socket it has found: a SYN at a listener by a SYN-ACK, to the peer's port and number. */
  lemma AnswersAre(slots: seq<Slot>, seg: Segment, buf: Option<seq<Byte>>)
    requires BuffersOk(slots) && Fits(seg)
    ensures var i, out := Find(slots, seg), Answers(slots, seg, buf);
      && (i == |slots| ==> out == [])
      && (i < |slots| && slots[i].conn.state == Listen && Syn(seg.flags) && buf.Some? ==>
            out == [Segment(slots[i].localPort, seg.srcPort, slots[i].conn.sndNxt, (seg.seqNo + 1) % TWO32, 18, [])])
      && (i < |slots| && slots[i].conn.state == Listen && !(Syn(seg.flags) && buf.Some?) ==> out == [])
      && (i < |slots| && slots[i].conn.state != Listen ==> out == Replies(slots[i].conn, seg, slots[i].localPort, slots[i].remotePort))
  {
    FlagBits(seg.flags);
  }

  /** The answer to a SYN-ACK that is accepted. */
  lemma ConnectAnswers(c: Conn, seg: Segment, local: nat, remote: nat)
    requires BufferOk(c) && Fits(seg) && c.state == SynSent
    ensures Replies(c, seg, local, remote) ==
      if Connects(c, seg) then [Segment(local, remote, c.sndNxt, (seg.seqNo + 1) % TWO32, 16, [])] else []
  {
    FlagBits(seg.flags);
  }

  // ---- a conversation ----

  /** The handshake's third segment, an ACK, opens a spawned connection; nothing else that arrives does. */
  lemma HandshakeOpens(c: Conn, isn: Seq32, seg: Segment)
    requires Spawned(c, isn) && Fits(seg)
    ensures Run(c, [Arrive(seg)]).c.state == Established <==> Ack(seg.flags)
    ensures Run(c, [Arrive(seg)]).c == if Ack(seg.flags) then c.(state := Established) else c
  {
    FlagBits(seg.flags);
    assert [] + [Arrive(seg)] == [Arrive(seg)];
    OneMore(c, [], Arrive(seg));
  }

  /** After the ACK, a segment with the first bytes of the stream is read back, up to the length asked for. */
  lemma FirstDataIsRead(c: Conn, isn: Seq32, ack: Segment, data: Segment, len: nat)
    requires Spawned(c, isn) && Fits(ack) && Fits(data) && Ack(ack.flags) && data.seqNo == c.rcvNxt
    ensures Run(c, [Arrive(ack), Arrive(data), Read(len)]).given == data.payload[..Min(|data.payload|, len)]
  {
    var one, two := [Arrive(ack)], [Arrive(ack), Arrive(data)];
    assert [] + [Arrive(ack)] == one && one + [Arrive(data)] == two && two + [Read(len)] == [Arrive(ack), Arrive(data), Read(len)];
    HandshakeOpens(c, isn, ack);
    OneMore(c, [], Arrive(ack));
    OneMore(c, one, Arrive(data));
    OneMore(c, two, Read(len));
    RunReaches(c, isn, one);
    RunReaches(c, isn, two);
    DataThenRead(Run(c, one), isn, data, len);
  }

  lemma DataThenRead(t: Trace, isn: Seq32, data: Segment, len: nat)
    requires Reached(t, isn) && t.c.state == Established && t.taken == t.given == [] && Fits(data) && data.seqNo == t.c.rcvNxt
    requires Reached(Next(t, Arrive(data)), isn)
    ensures Takes(Next(t, Arrive(data)).c, Read(len))
    ensures Next(Next(t, Arrive(data)), Read(len)).given == data.payload[..Min(|data.payload|, len)]
  {
    SegmentAdds(t, isn, data);
    RxMoves(t.c, data, Established);
    RxMoves(t.c, data, CloseWait);
    ReadGives(Next(t, Arrive(data)), isn, len);
  }

  /** A FIN ends what is accepted, and what was accepted stays readable. */
  lemma FinEndsStream(t: Trace, isn: Seq32, fin: Segment, later: Segment, len: nat)
    requires Reached(t, isn) && t.c.state == Established && Fits(fin) && Fits(later) && Fin(fin.flags) && !Ack(later.flags)
    ensures var t1 := Next(t, Arrive(fin));
      && t1.c.state == CloseWait && Next(t1, Arrive(later)) == t1 && Takes(t1.c, Read(len))
      && |t1.given| <= |t1.taken|
      && Next(t1, Read(len)).given == t1.given + t1.taken[|t1.given|..|t1.given| + Min(len, |t1.taken| - |t1.given|)]
  {
    RxMoves(t.c, fin, CloseWait);
    FlagBits(later.flags);
    ArriveKeepsRing(t, fin, isn);
    ReadGives(Next(t, Arrive(fin)), isn, len);
  }

  // ---- a stream ----

  /** The payloads of the segments, one after the other. */
  function Payloads(segs: seq<Segment>): seq<Byte> {
    if segs == [] then [] else Payloads(segs[..|segs| - 1]) + segs[|segs| - 1].payload
  }

  /** A segment without FIN that begins `n` bytes into the stream. */
  predicate Follows(seg: Segment, isn: Seq32, n: nat) {
    Fits(seg) && !Fin(seg.flags) && seg.seqNo == (isn + 1 + n) % TWO32
  }

  /** Each segment begins where the payloads before it end, and none carries a FIN. */
  predicate InSequence(segs: seq<Segment>, isn: Seq32) {
    segs == [] || (InSequence(segs[..|segs| - 1], isn) && Follows(segs[|segs| - 1], isn, |Payloads(segs[..|segs| - 1])|))
  }

  /** The ACK, and then each segment followed by a read of all that can be there. */
  function Exchange(ack: Segment, segs: seq<Segment>): seq<Event> {
    if segs == [] then [Arrive(ack)]
    else Exchange(ack, segs[..|segs| - 1]) + [Arrive(segs[|segs| - 1])] + [Read(RX_BUF_SIZE)]
  }

  /**
   * Progress without end: when a peer sends its stream in sequence and the user reads after each segment, the
   * user gets the whole stream, whatever its length and however it is cut, past any number of 32-bit wraps.
   */
  lemma {:induction false} StreamArrives(c: Conn, isn: Seq32, ack: Segment, segs: seq<Segment>)
    requires Spawned(c, isn) && Fits(ack) && Ack(ack.flags) && InSequence(segs, isn)
    ensures var t := Run(c, Exchange(ack, segs));
      t.c.state == Established && t.given == t.taken == Payloads(segs)
  {
    if segs == [] {
      HandshakeOpens(c, isn, ack);
      assert [] + [Arrive(ack)] == [Arrive(ack)];
      OneMore(c, [], Arrive(ack));
    } else {
      var before, last := segs[..|segs| - 1], segs[|segs| - 1];
      var events := Exchange(ack, before);
      StreamArrives(c, isn, ack, before);
      PieceArrives(c, isn, events, last);
    }
  }

  lemma PieceArrives(c: Conn, isn: Seq32, events: seq<Event>, seg: Segment)
    requires Spawned(c, isn)
    requires var t := Run(c, events); t.c.state == Established && t.given == t.taken && Follows(seg, isn, |t.taken|)
    ensures var t, t' := Run(c, events), Run(c, events + [Arrive(seg)] + [Read(RX_BUF_SIZE)]);
      t'.c.state == Established && t'.given == t'.taken == t.taken + seg.payload
  {
    RunReaches(c, isn, events);
    NextPiece(Run(c, events), isn, seg);
    TwoMore(c, events, Arrive(seg), Read(RX_BUF_SIZE));
  }

  lemma TwoMore(c: Conn, events: seq<Event>, d: Event, e: Event)
    requires BufferOk(c) && Takes(Run(c, events).c, d) && Takes(Next(Run(c, events), d).c, e)
    ensures Run(c, events + [d] + [e]) == Next(Next(Run(c, events), d), e)
  {
    OneMore(c, events, d);
    OneMore(c, events + [d], e);
  }

  lemma NextPiece(t: Trace, isn: Seq32, seg: Segment)
    requires Reached(t, isn) && t.c.state == Established && t.given == t.taken && Follows(seg, isn, |t.taken|)
    ensures Takes(Next(t, Arrive(seg)).c, Read(RX_BUF_SIZE))
    ensures var t' := Next(Next(t, Arrive(seg)), Read(RX_BUF_SIZE));
      t'.c.state == Established && t'.given == t'.taken == t.taken + seg.payload
  {
    SegmentAdds(t, isn, seg);
    RxMoves(t.c, seg, Established);
    ArriveKeepsRing(t, seg, isn);
    var t1 := Next(t, Arrive(seg));
    ReadGives(t1, isn, RX_BUF_SIZE);
    assert t1.taken == t.taken + seg.payload;
    assert t.given + t1.taken[|t.given|..] == t1.taken;
  }

  // ---- the same on the list of sockets ----

  /** The socket for a SYN: ports of listener and peer, the listener's send numbers, one past the SYN expected, an empty ring. */
  function NewSlot(listener: Slot, seg: Segment, buf: seq<Byte>): Slot {
    Slot(listener.localPort, seg.srcPort, 0,
      Conn(SynRecv, listener.conn.sndNxt, listener.conn.sndNxt, (seg.seqNo + 1) % TWO32, 0, 0, buf))
  }

  /** tcp_rx on the list: only a SYN at a listener, with memory, adds a socket, and it adds it in front of all others. */
  lemma DeliverAdds(slots: seq<Slot>, seg: Segment, buf: Option<seq<Byte>>)
    requires BuffersOk(slots) && Fits(seg)
    ensures var i, r := Find(slots, seg), Deliver(slots, seg, buf);
      && (i == |slots| ==> r == slots)
      && (i < |slots| && slots[i].conn.state == Listen && Syn(seg.flags) && buf.Some? ==> r == [NewSlot(slots[i], seg, buf.value)] + slots)
      && (i < |slots| && slots[i].conn.state == Listen && !(Syn(seg.flags) && buf.Some?) ==> r == slots)
      && (i < |slots| && slots[i].conn.state != Listen ==> |r| == |slots| && forall j :: 0 <= j < |slots| && j != i ==> r[j] == slots[j])
  {
    FlagBits(seg.flags);
  }

  /** The socket found is the first whose ports are the segment's, or that listens on its destination port. */
  lemma FindIsFirst(slots: seq<Slot>, seg: Segment, i: nat)
    requires i < |slots|
    ensures Find(slots, seg) == i <==>
      && slots[i].localPort == seg.dstPort && (slots[i].remotePort == seg.srcPort || slots[i].conn.state == Listen)
      && forall j :: 0 <= j < i ==> slots[j].localPort != seg.dstPort || (slots[j].remotePort != seg.srcPort && slots[j].conn.state != Listen)
  {
  }

  /** TIME_WAIT lasts `timer` ticks and ends at the next one; no other socket is touched by the timer. */
  lemma {:induction false} TimeWaitExpires(slots: seq<Slot>, i: nat, n: nat)
    requires i < |slots|
    ensures |Ticks(slots, n)| == |slots|
    ensures slots[i].conn.state != TimeWait ==> Ticks(slots, n)[i] == slots[i]
    ensures slots[i].conn.state == TimeWait && n <= slots[i].timer ==> Ticks(slots, n)[i] == slots[i].(timer := slots[i].timer - n)
    ensures slots[i].conn.state == TimeWait && n > slots[i].timer ==>
      Ticks(slots, n)[i] == slots[i].(timer := 0, conn := slots[i].conn.(state := Closed))
  {
    if n > 0 { TimeWaitExpires(slots, i, n - 1); }
  }

  function Ticks(slots: seq<Slot>, n: nat): seq<Slot> {
    if n == 0 then slots else Tick(Ticks(slots, n - 1))
  }

  /** SYN, ACK and data reach the list, and then the socket at its front is read. */
  function Conversation(syn: Segment, buf: seq<Byte>, ack: Segment, data: Segment, len: nat): seq<TableEvent> {
    [SegmentIn(syn, Some(buf)), SegmentIn(ack, None), SegmentIn(data, None), ReadSocket(0, len)]
  }

  lemma TableStep(slots: seq<Slot>, events: seq<TableEvent>, e: TableEvent, local: nat, remote: nat)
    requires var r := RunTable(slots, events); BuffersOk(r) && Possible(r, e)
    ensures RunTable(slots, events + [e]) == NextTable(RunTable(slots, events), e)
    ensures !e.ReadSocket? ==> ReadFrom(slots, events + [e], local, remote) == ReadFrom(slots, events, local, remote)
    ensures var r := RunTable(slots, events); e.ReadSocket? && IsPair(r[e.i], local, remote) ==>
      ReadFrom(slots, events + [e], local, remote) == ReadFrom(slots, events, local, remote) + ReadAt(r, e.i, e.len)
  {
    assert (events + [e])[..|events|] == events;
  }

  /** A segment for the connection at the front of the list. */
  lemma FrontReceives(slots: seq<Slot>, seg: Segment, local: nat, remote: nat)
    requires TableOk(slots) && slots != [] && IsPair(slots[0], local, remote) && Fits(seg) && seg.dstPort == local && seg.srcPort == remote
    ensures BufferOk(slots[0].conn)
    ensures Deliver(slots, seg, None) == slots[0 := slots[0].(conn := Rx(slots[0].conn, seg))]
    ensures TableOk(Deliver(slots, seg, None)) && IsPair(Deliver(slots, seg, None)[0], local, remote)
  {
    assert slots[0] in slots;
    PairFindsItsSocket(slots, seg, 0);
    DeliverKeepsTable(slots, seg, None);
    RxNeverListens(slots[0].conn, seg);
  }

  /** A SYN that finds a listener and memory, and from the same peer an ACK and the first data. */
  ghost predicate CanConverse(slots: seq<Slot>, syn: Segment, buf: seq<Byte>, ack: Segment, data: Segment) {
    && TableOk(slots) && Find(slots, syn) < |slots| && Listens(slots[Find(slots, syn)])
    && Fits(syn) && Syn(syn.flags) && |buf| == RX_BUF_SIZE && Fits(ack) && Ack(ack.flags) && Fits(data)
    && ack.dstPort == data.dstPort == syn.dstPort && ack.srcPort == data.srcPort == syn.srcPort
    && data.seqNo == (syn.seqNo + 1) % TWO32
  }

  /**
   * A whole conversation on any list of sockets: a SYN reaches a listener, its peer's ACK and first data follow,
   * and the user of the new socket reads the data.
   */
  lemma ConversationWorks(slots: seq<Slot>, syn: Segment, buf: seq<Byte>, ack: Segment, data: Segment, len: nat)
    requires CanConverse(slots, syn, buf, ack, data)
    ensures ReadFrom(slots, Conversation(syn, buf, ack, data, len), syn.dstPort, syn.srcPort)
         == data.payload[..Min(|data.payload|, len)]
  {
    var local, remote := syn.dstPort, syn.srcPort;
    var s0 := Deliver(slots, syn, Some(buf));
    SynAtFront(slots, syn, buf);
    var c := s0[0].conn;
    FrontReceives(s0, ack, local, remote);
    var s1 := Deliver(s0, ack, None);
    FrontReceives(s1, data, local, remote);
    var s2 := Deliver(s1, data, None);
    TwoArrive(c, syn.seqNo, ack, data, len);
    FirstDataIsRead(c, syn.seqNo, ack, data, len);
    ThreeThenRead(slots, s0, s1, s2, syn, buf, ack, data, len, local, remote);
  }

  lemma SynAtFront(slots: seq<Slot>, syn: Segment, buf: seq<Byte>)
    requires TableOk(slots) && Find(slots, syn) < |slots| && Listens(slots[Find(slots, syn)])
    requires Fits(syn) && Syn(syn.flags) && |buf| == RX_BUF_SIZE
    ensures var s0 := Deliver(slots, syn, Some(buf));
      TableOk(s0) && s0 != [] && IsPair(s0[0], syn.dstPort, syn.srcPort) && Spawned(s0[0].conn, syn.seqNo)
  {
    FlagBits(syn.flags);
    DeliverKeepsTable(slots, syn, Some(buf));
  }

  lemma ThreeThenRead(slots: seq<Slot>, s0: seq<Slot>, s1: seq<Slot>, s2: seq<Slot>,
      syn: Segment, buf: seq<Byte>, ack: Segment, data: Segment, len: nat, local: nat, remote: nat)
    requires BuffersOk(slots) && BuffersOk(s0) && BuffersOk(s1) && BuffersOk(s2)
    requires Fits(syn) && |buf| == RX_BUF_SIZE && Fits(ack) && Fits(data)
    requires s0 == Deliver(slots, syn, Some(buf)) && s1 == Deliver(s0, ack, None) && s2 == Deliver(s1, data, None)
    requires s2 != [] && IsPair(s2[0], local, remote) && ReadLength(s2[0].conn, len) <= RX_BUF_SIZE
    ensures ReadFrom(slots, Conversation(syn, buf, ack, data, len), local, remote)
         == ReadAt(s2, 0, len)
  {
    var e0, e1, e2, e3 := SegmentIn(syn, Some(buf)), SegmentIn(ack, None), SegmentIn(data, None), ReadSocket(0, len);
    assert [] + [e0] == [e0] && [e0] + [e1] == [e0, e1] && [e0, e1] + [e2] == [e0, e1, e2] && [e0, e1, e2] + [e3] == [e0, e1, e2, e3];
    TableStep(slots, [], e0, local, remote);
    TableStep(slots, [e0], e1, local, remote);
    TableStep(slots, [e0, e1], e2, local, remote);
    TableStep(slots, [e0, e1, e2], e3, local, remote);
  }

  /** The two arrivals and the read, step by step. */
  lemma TwoArrive(c: Conn, isn: Seq32, ack: Segment, data: Segment, len: nat)
    requires Spawned(c, isn) && Fits(ack) && Fits(data)
    ensures var c2 := Rx(Rx(c, ack), data);
      && ReadLength(c2, len) <= RX_BUF_SIZE
      && Run(c, [Arrive(ack), Arrive(data), Read(len)]).given == Recv(c2, len).1
  {
    var one, two := [Arrive(ack)], [Arrive(ack), Arrive(data)];
    assert [] + [Arrive(ack)] == one && one + [Arrive(data)] == two && two + [Read(len)] == [Arrive(ack), Arrive(data), Read(len)];
    OneMore(c, [], Arrive(ack));
    OneMore(c, one, Arrive(data));
    OneMore(c, two, Read(len));
    RunReaches(c, isn, two);
    ReadGives(Run(c, two), isn, len);
  }
}
