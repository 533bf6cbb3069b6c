/** The socket list of tcp.c on values: demultiplexing, spawning and cleaning up. */
module TcpTable {
  import opened Bits
  import opened TcpSpec

  /** One element of the socket list. */
  datatype Slot = Slot(localPort: nat, remotePort: nat, timer: nat, conn: Conn)

  predicate Listens(slot: Slot) {
    slot.conn.state == Listen
  }

  /** The test of the search loop in tcp_rx. */
  predicate Matches(slot: Slot, seg: Segment) {
    || (slot.localPort == seg.dstPort && slot.remotePort == seg.srcPort)
    || (Listens(slot) && slot.localPort == seg.dstPort)
  }

  /** The first matching socket, or the length of the list. */
  function Find(slots: seq<Slot>, seg: Segment): (i: nat)
    ensures i <= |slots|
    ensures i < |slots| ==> Matches(slots[i], seg)
    ensures forall j :: 0 <= j < i ==> !Matches(slots[j], seg)
  {
    if slots == [] then 0 else if Matches(slots[0], seg) then 0 else 1 + Find(slots[1..], seg)
  }

  /** The socket made for a SYN. Its buffer comes from kmalloc with unknown contents. */
  function Spawn(listener: Slot, seg: Segment, buf: seq<Byte>): Slot {
    Slot(listener.localPort, seg.srcPort, 0,
      Conn(SynRecv, listener.conn.sndNxt, listener.conn.sndNxt, Add32(seg.seqNo, 1), 0, 0, buf))
  }

  predicate BuffersOk(slots: seq<Slot>) {
    forall slot :: slot in slots ==> BufferOk(slot.conn)
  }

  /** tcp_rx on the whole list. `buf` is the new socket's buffer, if there is memory for one. */
  function Deliver(slots: seq<Slot>, seg: Segment, buf: Option<seq<Byte>>): (r: seq<Slot>)
    requires BuffersOk(slots) && Fits(seg)
  {
    var i := Find(slots, seg);
    if i == |slots| then slots
    else if Listens(slots[i]) then
      if IsSyn(seg.flags) && buf.Some? then [Spawn(slots[i], seg, buf.value)] + slots else slots
    else slots[i := slots[i].(conn := Rx(slots[i].conn, seg))]
  }

  /** What tcp_rx gives to tcp_tx: a SYN-ACK from a new socket, or the replies of the socket found. */
  function Answers(slots: seq<Slot>, seg: Segment, buf: Option<seq<Byte>>): seq<Segment>
    requires BuffersOk(slots) && Fits(seg)
  {
    var i := Find(slots, seg);
    if i == |slots| then []
    else if Listens(slots[i]) then
      if IsSyn(seg.flags) && buf.Some? then
        var made := Spawn(slots[i], seg, buf.value);
        [Reply(made.conn, made.localPort, made.remotePort, TCP_SYN + TCP_ACK)]
      else []
    else Replies(slots[i].conn, seg, slots[i].localPort, slots[i].remotePort)
  }

  /** tcp_timer_tick on one socket. */
  function TickSlot(slot: Slot): Slot {
    if slot.conn.state != TimeWait then slot
    else if slot.timer > 0 then slot.(timer := slot.timer - 1)
    else slot.(conn := slot.conn.(state := Closed))
  }

  function Tick(slots: seq<Slot>): (r: seq<Slot>)
    ensures |r| == |slots| && forall i :: 0 <= i < |r| ==> r[i] == TickSlot(slots[i])
  {
    if slots == [] then [] else [TickSlot(slots[0])] + Tick(slots[1..])
  }

  /** tcp_cleanup: drop the closed sockets, keep the order of the others. */
  function Cleanup(slots: seq<Slot>): seq<Slot> {
    if slots == [] then []
    else if slots[0].conn.state == Closed then Cleanup(slots[1..])
    else [slots[0]] + Cleanup(slots[1..])
  }

  function CloseAt(slots: seq<Slot>, i: nat, sent: bool): seq<Slot>
    requires i < |slots|
  {
    slots[i := slots[i].(conn := Close(slots[i].conn, sent))]
  }

  // ---- the invariant ----

  predicate SamePair(a: Slot, b: Slot) {
    a.localPort == b.localPort && a.remotePort == b.remotePort
  }

  /** How two sockets of the list may stand to each other, the first being nearer to the head. */
  predicate InOrder(a: Slot, b: Slot) {
    && (!Listens(a) && !Listens(b) ==> !SamePair(a, b))
    && (Listens(a) ==> a.localPort != b.localPort)
  }

  /**
   * At most one connection socket per port pair, at most one listener per port, and no socket of a
   * port behind its listener.
   */
  ghost predicate TableOk(slots: seq<Slot>) {
    && BuffersOk(slots)
    && forall i, j :: 0 <= i < j < |slots| ==> InOrder(slots[i], slots[j])
  }

  /** A segment for an existing connection reaches that connection, never the listener. */
  lemma PairFindsItsSocket(slots: seq<Slot>, seg: Segment, i: nat)
    requires TableOk(slots) && i < |slots| && !Listens(slots[i])
    requires slots[i].localPort == seg.dstPort && slots[i].remotePort == seg.srcPort
    ensures Find(slots, seg) == i
  {
    var f := Find(slots, seg);
    if f < i {
      TableIsOrdered(slots, f, i);
    }
  }

  lemma TableIsOrdered(slots: seq<Slot>, i: nat, j: nat)
    requires TableOk(slots) && i < j < |slots|
    ensures InOrder(slots[i], slots[j])
  {
  }

  lemma DeliverKeepsTable(slots: seq<Slot>, seg: Segment, buf: Option<seq<Byte>>)
    requires TableOk(slots) && Fits(seg) && (buf.Some? ==> |buf.value| == RX_BUF_SIZE)
    ensures TableOk(Deliver(slots, seg, buf))
  {
    var i, r := Find(slots, seg), Deliver(slots, seg, buf);
    if i < |slots| {
      assert slots[i] in slots;
      if !Listens(slots[i]) {
        RxNeverListens(slots[i].conn, seg);
      } else if |r| > |slots| {
        forall j | 0 <= j < |slots| ensures InOrder(r[0], slots[j]) {
          if j < i { assert !Matches(slots[j], seg); } else if j > i { assert InOrder(slots[i], slots[j]); }
        }
      }
    }
  }

  lemma RxNeverListens(c: Conn, seg: Segment)
    requires BufferOk(c) && Fits(seg) && c.state != Listen
    ensures Rx(c, seg).state != Listen
  {
  }

  lemma {:induction false} CleanupIsFilter(slots: seq<Slot>)
    ensures multiset(Cleanup(slots)) <= multiset(slots)
    ensures forall slot :: slot in Cleanup(slots) <==> slot in slots && slot.conn.state != Closed
    ensures forall slot: Slot :: slot.conn.state != Closed ==> multiset(Cleanup(slots))[slot] == multiset(slots)[slot]
  {
    if slots != [] {
      assert slots == [slots[0]] + slots[1..];
      CleanupIsFilter(slots[1..]);
    }
  }

  lemma {:induction false} CleanupKeepsTable(slots: seq<Slot>)
    requires TableOk(slots)
    ensures TableOk(Cleanup(slots))
  {
    if slots != [] {
      TailIsTable(slots);
      CleanupKeepsTable(slots[1..]);
      CleanupIsFilter(slots[1..]);
      if slots[0].conn.state != Closed { ConsKeepsTable(slots[0], Cleanup(slots[1..]), slots[1..]); }
    }
  }

  lemma TailIsTable(slots: seq<Slot>)
    requires TableOk(slots) && slots != []
    ensures TableOk(slots[1..]) && BufferOk(slots[0].conn)
    ensures forall b :: b in slots[1..] ==> InOrder(slots[0], b)
  {
    assert slots[0] in slots;
    assert forall s :: s in slots[1..] ==> s in slots;
  }

  lemma ConsKeepsTable(a: Slot, kept: seq<Slot>, rest: seq<Slot>)
    requires TableOk(kept) && BufferOk(a.conn) && (forall b :: b in kept ==> b in rest) && (forall b :: b in rest ==> InOrder(a, b))
    ensures TableOk([a] + kept)
  {
    forall j | 0 <= j < |kept| ensures InOrder(a, kept[j]) {
      assert kept[j] in rest;
    }
  }

  lemma TickKeepsTable(slots: seq<Slot>)
    requires TableOk(slots)
    ensures TableOk(Tick(slots))
  {
    var r := Tick(slots);
    forall i | 0 <= i < |r| ensures BufferOk(r[i].conn) { assert slots[i] in slots; }
    forall i, j | 0 <= i < j < |r| ensures InOrder(r[i], r[j]) { assert InOrder(slots[i], slots[j]); }
  }

  // ---- runs ----

  /** The calls that touch the list: segments from the network, the timer, and the user's calls on socket `i`. */
  datatype TableEvent =
    | SegmentIn(seg: Segment, buf: Option<seq<Byte>>)
    | TimerTick
    | CleanUp
    | CloseSocket(i: nat, sent: bool)
    | ReadSocket(i: nat, len: nat)

  predicate Possible(slots: seq<Slot>, e: TableEvent) {
    match e
    case SegmentIn(seg, buf) => Fits(seg) && (buf.Some? ==> |buf.value| == RX_BUF_SIZE)
    case CloseSocket(i, _) => i < |slots|
    case ReadSocket(i, len) => i < |slots| && ReadLength(slots[i].conn, len) <= RX_BUF_SIZE
    case _ => true
  }

  function NextTable(slots: seq<Slot>, e: TableEvent): seq<Slot>
    requires BuffersOk(slots) && Possible(slots, e)
  {
    match e
    case SegmentIn(seg, buf) => Deliver(slots, seg, buf)
    case TimerTick => Tick(slots)
    case CleanUp => Cleanup(slots)
    case CloseSocket(i, sent) => CloseAt(slots, i, sent)
    case ReadSocket(i, len) =>
      assert slots[i] in slots;
      slots[i := slots[i].(conn := Recv(slots[i].conn, len).0)]
  }

  lemma NextKeepsTable(slots: seq<Slot>, e: TableEvent)
    requires TableOk(slots) && Possible(slots, e)
    ensures TableOk(NextTable(slots, e))
  {
    match e
    case SegmentIn(seg, buf) => DeliverKeepsTable(slots, seg, buf);
    case TimerTick => TickKeepsTable(slots);
    case CleanUp => CleanupKeepsTable(slots);
    case CloseSocket(i, sent) => assert slots[i] in slots;
    case ReadSocket(i, len) => assert slots[i] in slots;
  }

  function RunTable(slots: seq<Slot>, events: seq<TableEvent>): seq<Slot> {
    if events == [] then slots
    else
      var r, e := RunTable(slots, events[..|events| - 1]), events[|events| - 1];
      if BuffersOk(r) && Possible(r, e) then NextTable(r, e) else r
  }

  /** Over every run there is at most one connection per port pair, and it precedes its listener. */
  lemma {:induction false} RunKeepsTable(slots: seq<Slot>, events: seq<TableEvent>)
    requires TableOk(slots)
    ensures TableOk(RunTable(slots, events))
  {
    if events != [] {
      RunKeepsTable(slots, events[..|events| - 1]);
      var r, e := RunTable(slots, events[..|events| - 1]), events[|events| - 1];
      if Possible(r, e) { NextKeepsTable(r, e); }
    }
  }

  // ---- each connection sees only its own segments ----

  predicate IsPair(slot: Slot, local: nat, remote: nat) {
    !Listens(slot) && slot.localPort == local && slot.remotePort == remote
  }

  /** The connection of a port pair. */
  function ConnOf(slots: seq<Slot>, local: nat, remote: nat): Option<Conn> {
    if slots == [] then None
    else if IsPair(slots[0], local, remote) then Some(slots[0].conn)
    else ConnOf(slots[1..], local, remote)
  }

  lemma {:induction false} ConnOfAt(slots: seq<Slot>, local: nat, remote: nat, i: nat)
    requires i < |slots| && IsPair(slots[i], local, remote)
    requires forall j :: 0 <= j < |slots| && j != i ==> !IsPair(slots[j], local, remote)
    ensures ConnOf(slots, local, remote) == Some(slots[i].conn)
  {
    if i > 0 { ConnOfAt(slots[1..], local, remote, i - 1); }
  }

  lemma {:induction false} ConnOfNone(slots: seq<Slot>, local: nat, remote: nat)
    ensures ConnOf(slots, local, remote) == None <==> forall j :: 0 <= j < |slots| ==> !IsPair(slots[j], local, remote)
  {
    if slots != [] {
      ConnOfNone(slots[1..], local, remote);
      if exists j :: 0 <= j < |slots| && IsPair(slots[j], local, remote) {
        var j :| 0 <= j < |slots| && IsPair(slots[j], local, remote);
        if j > 0 { assert IsPair(slots[1..][j - 1], local, remote); }
      }
    }
  }

  lemma PairIsUnique(slots: seq<Slot>, local: nat, remote: nat, i: nat)
    requires TableOk(slots) && i < |slots| && IsPair(slots[i], local, remote)
    ensures forall j :: 0 <= j < |slots| && j != i ==> !IsPair(slots[j], local, remote)
  {
    forall j | 0 <= j < |slots| && j != i ensures !IsPair(slots[j], local, remote) {
      if j < i { assert InOrder(slots[j], slots[i]); } else { assert InOrder(slots[i], slots[j]); }
    }
  }

  /** tcp_rx hands a segment to the connection of its own port pair and to no other. */
  lemma DeliverIsDemultiplexed(slots: seq<Slot>, seg: Segment, buf: Option<seq<Byte>>, local: nat, remote: nat)
    requires TableOk(slots) && Fits(seg) && (buf.Some? ==> |buf.value| == RX_BUF_SIZE)
    requires ConnOf(slots, local, remote).Some?
    ensures BufferOk(ConnOf(slots, local, remote).value)
    ensures ConnOf(Deliver(slots, seg, buf), local, remote) ==
      if seg.dstPort == local && seg.srcPort == remote then Some(Rx(ConnOf(slots, local, remote).value, seg))
      else ConnOf(slots, local, remote)
  {
    ConnOfNone(slots, local, remote);
    var i :| 0 <= i < |slots| && IsPair(slots[i], local, remote);
    assert slots[i] in slots;
    PairIsUnique(slots, local, remote, i);
    ConnOfAt(slots, local, remote, i);
    var f, r := Find(slots, seg), Deliver(slots, seg, buf);
    DeliverKeepsTable(slots, seg, buf);
    if seg.dstPort == local && seg.srcPort == remote {
      PairFindsItsSocket(slots, seg, i);
      RxNeverListens(slots[i].conn, seg);
      PairIsUnique(r, local, remote, i);
      ConnOfAt(r, local, remote, i);
    } else {
      var at := if |r| > |slots| then i + 1 else i;
      assert r[at] == slots[i];
      PairIsUnique(r, local, remote, at);
      ConnOfAt(r, local, remote, at);
    }
  }

  // ---- a connection inside the list lives the life of a single connection ----

  /** What event `e` of the list means to the connection of the pair. */
  function Project(slots: seq<Slot>, e: TableEvent, local: nat, remote: nat): seq<Event>
    requires Possible(slots, e)
  {
    match e
    case SegmentIn(seg, _) => if seg.dstPort == local && seg.srcPort == remote then [Arrive(seg)] else []
    case CloseSocket(i, sent) => if IsPair(slots[i], local, remote) then [Shut(sent)] else []
    case ReadSocket(i, len) => if IsPair(slots[i], local, remote) then [Read(len)] else []
    case _ => []
  }

  /** The only sockets that the timer or the cleanup touch. */
  predicate Lasting(c: Conn, e: TableEvent) {
    c.state != TimeWait && (e.CleanUp? ==> c.state != Closed)
  }

  function StepConn(c: Conn, es: seq<Event>): Conn
    requires BufferOk(c) && |es| <= 1 && (es != [] ==> Takes(c, es[0]))
  {
    if es == [] then c else Next(Trace(c, [], [], 0), es[0]).c
  }

  lemma {:induction false} ConnOfCleanup(slots: seq<Slot>, local: nat, remote: nat)
    requires ConnOf(slots, local, remote).Some? && ConnOf(slots, local, remote).value.state != Closed
    ensures ConnOf(Cleanup(slots), local, remote) == ConnOf(slots, local, remote)
  {
    if !IsPair(slots[0], local, remote) { ConnOfCleanup(slots[1..], local, remote); }
  }

  lemma {:induction false} ConnOfTick(slots: seq<Slot>, local: nat, remote: nat)
    requires ConnOf(slots, local, remote).Some? && ConnOf(slots, local, remote).value.state != TimeWait
    ensures ConnOf(Tick(slots), local, remote) == ConnOf(slots, local, remote)
  {
    if !IsPair(slots[0], local, remote) { ConnOfTick(slots[1..], local, remote); }
  }

  /** A call on one socket of the list. */
  lemma ConnOfUpdate(slots: seq<Slot>, i: nat, c: Conn, local: nat, remote: nat)
    requires TableOk(slots) && i < |slots| && (c.state == Listen <==> Listens(slots[i])) && BufferOk(c)
    requires ConnOf(slots, local, remote).Some?
    ensures IsPair(slots[i], local, remote) ==> ConnOf(slots, local, remote) == Some(slots[i].conn)
    ensures ConnOf(slots[i := slots[i].(conn := c)], local, remote) ==
      if IsPair(slots[i], local, remote) then Some(c) else ConnOf(slots, local, remote)
  {
    ConnOfNone(slots, local, remote);
    var k :| 0 <= k < |slots| && IsPair(slots[k], local, remote);
    PairIsUnique(slots, local, remote, k);
    ConnOfAt(slots, local, remote, k);
    ConnOfAt(slots[i := slots[i].(conn := c)], local, remote, k);
  }

  lemma NextProjects(slots: seq<Slot>, e: TableEvent, local: nat, remote: nat)
    requires TableOk(slots) && Possible(slots, e) && ConnOf(slots, local, remote).Some?
    requires Lasting(ConnOf(slots, local, remote).value, e)
    ensures var c, es := ConnOf(slots, local, remote).value, Project(slots, e, local, remote);
      BufferOk(c) && (es != [] ==> Takes(c, es[0])) && ConnOf(NextTable(slots, e), local, remote) == Some(StepConn(c, es))
  {
    ConnIsInList(slots, local, remote);
    match e
    case SegmentIn(seg, buf) => DeliverIsDemultiplexed(slots, seg, buf, local, remote);
    case TimerTick => ConnOfTick(slots, local, remote);
    case CleanUp => ConnOfCleanup(slots, local, remote);
    case CloseSocket(i, sent) =>
      assert slots[i] in slots;
      ConnOfUpdate(slots, i, Close(slots[i].conn, sent), local, remote);
    case ReadSocket(i, len) =>
      assert slots[i] in slots;
      ConnOfUpdate(slots, i, Recv(slots[i].conn, len).0, local, remote);
  }

  lemma {:induction false} ConnIsInList(slots: seq<Slot>, local: nat, remote: nat)
    requires BuffersOk(slots) && ConnOf(slots, local, remote).Some?
    ensures BufferOk(ConnOf(slots, local, remote).value)
  {
    assert slots[0] in slots;
    if !IsPair(slots[0], local, remote) {
      assert forall s :: s in slots[1..] ==> s in slots;
      ConnIsInList(slots[1..], local, remote);
    }
  }

  /** The connection's own events, out of a run of the whole list. */
  function ProjectRun(slots: seq<Slot>, events: seq<TableEvent>, local: nat, remote: nat): seq<Event> {
    if events == [] then []
    else
      var init, e := events[..|events| - 1], events[|events| - 1];
      var r := RunTable(slots, init);
      ProjectRun(slots, init, local, remote)
        + if BuffersOk(r) && Possible(r, e) then Project(r, e, local, remote) else []
  }

  /** What the user reads from the socket of the pair, over the run. */
  function ReadFrom(slots: seq<Slot>, events: seq<TableEvent>, local: nat, remote: nat): seq<Byte> {
    if events == [] then []
    else
      var init, e := events[..|events| - 1], events[|events| - 1];
      var r := RunTable(slots, init);
      ReadFrom(slots, init, local, remote)
        + if BuffersOk(r) && Possible(r, e) && e.ReadSocket? && IsPair(r[e.i], local, remote)
          then ReadAt(r, e.i, e.len) else []
  }

  function ReadAt(slots: seq<Slot>, i: nat, len: nat): seq<Byte>
    requires BuffersOk(slots) && i < |slots| && ReadLength(slots[i].conn, len) <= RX_BUF_SIZE
  {
    assert slots[i] in slots;
    Recv(slots[i].conn, len).1
  }

  /** The pair's socket is not cleaned away during the run. */
  ghost predicate Survives(slots: seq<Slot>, events: seq<TableEvent>, local: nat, remote: nat) {
    forall n :: 0 <= n <= |events| ==> ConnOf(RunTable(slots, events[..n]), local, remote).Some?
  }

  predicate NeverWaits(t: Trace) {
    t.c.state in {SynRecv, Established, CloseWait, FinWait1, LastAck, Closed}
  }

  lemma {:induction false} RunNeverWaits(c: Conn, isn: Seq32, events: seq<Event>)
    requires Spawned(c, isn)
    ensures NeverWaits(Run(c, events))
  {
    if events != [] { RunNeverWaits(c, isn, events[..|events| - 1]); }
  }

  lemma {:induction false} RunAppend(c: Conn, events: seq<Event>, es: seq<Event>)
    requires BufferOk(c) && |es| <= 1
    ensures es != [] && Takes(Run(c, events).c, es[0]) ==> Run(c, events + es) == Next(Run(c, events), es[0])
    ensures es == [] ==> Run(c, events + es) == Run(c, events)
  {
    if es == [] {
      assert events + es == events;
    } else {
      assert (events + es)[..|events + es| - 1] == events;
    }
  }

  lemma SurvivesPrefix(slots: seq<Slot>, events: seq<TableEvent>, local: nat, remote: nat)
    requires Survives(slots, events, local, remote) && events != []
    ensures Survives(slots, events[..|events| - 1], local, remote)
    ensures ConnOf(RunTable(slots, events), local, remote).Some?
  {
    var init := events[..|events| - 1];
    forall n | 0 <= n <= |init| ensures ConnOf(RunTable(slots, init[..n]), local, remote).Some? {
      assert init[..n] == events[..n];
    }
    assert events[..|events|] == events;
  }

  /** Inside the list, the connection goes through exactly the run of its own events. */
  lemma {:induction false} ConnectionRunsAlone(slots: seq<Slot>, events: seq<TableEvent>, local: nat, remote: nat, c: Conn, isn: Seq32)
    requires TableOk(slots) && ConnOf(slots, local, remote) == Some(c) && Spawned(c, isn)
    requires Survives(slots, events, local, remote)
    ensures var t := Run(c, ProjectRun(slots, events, local, remote));
      ConnOf(RunTable(slots, events), local, remote) == Some(t.c) && t.given == ReadFrom(slots, events, local, remote)
  {
    if events != [] {
      var init, e := events[..|events| - 1], events[|events| - 1];
      var r, own := RunTable(slots, init), ProjectRun(slots, init, local, remote);
      SurvivesPrefix(slots, events, local, remote);
      ConnectionRunsAlone(slots, init, local, remote, c, isn);
      RunKeepsTable(slots, init);
      var read := ReadFrom(slots, init, local, remote);
      if Possible(r, e) {
        LastStep(r, e, local, remote, c, isn, own, ConnOf(RunTable(slots, events), local, remote));
        assert ProjectRun(slots, events, local, remote) == own + Project(r, e, local, remote);
        assert ReadFrom(slots, events, local, remote) ==
          read + if e.ReadSocket? && IsPair(r[e.i], local, remote) then ReadAt(r, e.i, e.len) else [];
      } else {
        assert ProjectRun(slots, events, local, remote) == own + [] == own;
        assert ReadFrom(slots, events, local, remote) == read + [] == read;
      }
    }
  }

  lemma LastStep(r: seq<Slot>, e: TableEvent, local: nat, remote: nat, c: Conn, isn: Seq32, own: seq<Event>, after: Option<Conn>)
    requires TableOk(r) && Possible(r, e) && Spawned(c, isn)
    requires ConnOf(r, local, remote) == Some(Run(c, own).c)
    requires after == ConnOf(NextTable(r, e), local, remote) && after.Some?
    ensures var t, t' := Run(c, own), Run(c, own + Project(r, e, local, remote));
      && after == Some(t'.c)
      && t'.given == t.given + (if e.ReadSocket? && IsPair(r[e.i], local, remote) then ReadAt(r, e.i, e.len) else [])
  {
    RunNeverWaits(c, isn, own);
    if e.CleanUp? && Run(c, own).c.state == Closed {
      CleanedIsGone(r, local, remote);
    } else {
      LiveStep(r, e, local, remote, Run(c, own));
      RunAppend(c, own, Project(r, e, local, remote));
    }
  }

  /** One event of the list as the connection's trace sees it. */
  lemma LiveStep(r: seq<Slot>, e: TableEvent, local: nat, remote: nat, t: Trace)
    requires TableOk(r) && Possible(r, e) && ConnOf(r, local, remote) == Some(t.c) && Lasting(t.c, e)
    ensures BufferOk(t.c)
    ensures var es := Project(r, e, local, remote);
      && |es| <= 1 && (es != [] ==> Takes(t.c, es[0]))
      && ConnOf(NextTable(r, e), local, remote) == Some(if es == [] then t.c else Next(t, es[0]).c)
      && (if es == [] then [] else Next(t, es[0]).given[|t.given|..])
           == (if e.ReadSocket? && IsPair(r[e.i], local, remote) then ReadAt(r, e.i, e.len) else [])
  {
    NextProjects(r, e, local, remote);
    if e.ReadSocket? && IsPair(r[e.i], local, remote) {
      PairIsAt(r, e.i, local, remote);
    }
  }

  /** The socket of a pair is the one that ConnOf finds. */
  lemma PairIsAt(slots: seq<Slot>, i: nat, local: nat, remote: nat)
    requires TableOk(slots) && i < |slots| && IsPair(slots[i], local, remote) && ConnOf(slots, local, remote).Some?
    ensures ConnOf(slots, local, remote) == Some(slots[i].conn)
  {
    assert slots[i] in slots;
    ConnOfUpdate(slots, i, slots[i].conn, local, remote);
  }

  /** A closed connection does not survive the cleanup. */
  lemma CleanedIsGone(slots: seq<Slot>, local: nat, remote: nat)
    requires TableOk(slots) && ConnOf(slots, local, remote).Some? && ConnOf(slots, local, remote).value.state == Closed
    ensures ConnOf(Cleanup(slots), local, remote) == None
  {
    CleanupIsFilter(slots);
    ConnOfNone(slots, local, remote);
    var i :| 0 <= i < |slots| && IsPair(slots[i], local, remote);
    PairIsUnique(slots, local, remote, i);
    ConnOfAt(slots, local, remote, i);
    ConnOfNone(Cleanup(slots), local, remote);
    var r := Cleanup(slots);
    forall j | 0 <= j < |r| ensures !IsPair(r[j], local, remote) {
      assert r[j] in slots;
    }
  }

  /** Every segment of the pair carries genuine bytes of its peer's stream; other peers may send anything. */
  predicate PairIsGenuine(events: seq<TableEvent>, local: nat, remote: nat, isn: Seq32, stream: seq<Byte>) {
    forall e :: e in events && e.SegmentIn? && e.seg.dstPort == local && e.seg.srcPort == remote ==>
      Genuine(e.seg, isn, stream)
  }

  lemma {:induction false} ProjectionIsGenuine(slots: seq<Slot>, events: seq<TableEvent>, local: nat, remote: nat, isn: Seq32, stream: seq<Byte>)
    requires PairIsGenuine(events, local, remote, isn, stream)
    ensures AllGenuine(ProjectRun(slots, events, local, remote), isn, stream)
  {
    if events != [] {
      var init := events[..|events| - 1];
      assert forall e :: e in init ==> e in events;
      assert events[|events| - 1] in events;
      ProjectionIsGenuine(slots, init, local, remote, isn, stream);
    }
  }

  /**
   * The whole list at work: many connections, listeners, timers and cleanups interleaved. What the
   * user reads from one connection is a prefix of what its own peer sent.
   */
  lemma StackDeliversPrefix(slots: seq<Slot>, events: seq<TableEvent>, local: nat, remote: nat, c: Conn, isn: Seq32, stream: seq<Byte>)
    requires TableOk(slots) && ConnOf(slots, local, remote) == Some(c) && Spawned(c, isn)
    requires Survives(slots, events, local, remote)
    requires |stream| < TWO32 && PairIsGenuine(events, local, remote, isn, stream)
    ensures ReadFrom(slots, events, local, remote) <= stream
  {
    ConnectionRunsAlone(slots, events, local, remote, c, isn);
    ProjectionIsGenuine(slots, events, local, remote, isn, stream);
    DeliveryIsPrefix(c, isn, ProjectRun(slots, events, local, remote), stream);
  }

  /** A SYN that reaches the listener creates the connection of its pair, ready for the peer's first byte. */
  lemma SynSpawnsConnection(slots: seq<Slot>, seg: Segment, buf: seq<Byte>)
    requires TableOk(slots) && Fits(seg) && IsSyn(seg.flags) && |buf| == RX_BUF_SIZE
    requires Find(slots, seg) < |slots| && Listens(slots[Find(slots, seg)])
    ensures ConnOf(slots, seg.dstPort, seg.srcPort) == None
    ensures ConnOf(Deliver(slots, seg, Some(buf)), seg.dstPort, seg.srcPort).Some?
    ensures Spawned(ConnOf(Deliver(slots, seg, Some(buf)), seg.dstPort, seg.srcPort).value, seg.seqNo)
  {
    ConnOfNone(slots, seg.dstPort, seg.srcPort);
    forall j | 0 <= j < |slots| ensures !IsPair(slots[j], seg.dstPort, seg.srcPort) {
      if IsPair(slots[j], seg.dstPort, seg.srcPort) { PairFindsItsSocket(slots, seg, j); }
    }
  }
}
