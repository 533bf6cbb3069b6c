/** tcp.c as it runs: sockets in a linked list, each with a ring buffer filled and drained in place. */
module Tcp {
  import opened Bits
  import Spec = TcpSpec
  import opened TcpSpec
  import Table = TcpTable

  /** memcpy into an array. */
  method CopyIn(dst: array<Byte>, at: nat, src: seq<Byte>)
    requires at + |src| <= dst.Length
    modifies dst
    ensures dst[..] == old(dst[..at]) + src + old(dst[at + |src|..])
  {
    for i := 0 to |src|
      invariant forall j :: 0 <= j < dst.Length ==>
        dst[j] == if at <= j < at + i then src[j - at] else old(dst[j])
    {
      dst[at + i] := src[i];
    }
  }

  /** memcpy between arrays. */
  method CopyOut(dst: array<Byte>, at: nat, src: array<Byte>, from: nat, n: nat)
    requires at + n <= dst.Length && from + n <= src.Length && dst != src
    modifies dst
    ensures dst[..] == old(dst[..at]) + src[from..from + n] + old(dst[at + n..])
  {
    for i := 0 to n
      invariant forall j :: 0 <= j < dst.Length ==>
        dst[j] == if at <= j < at + i then src[from + (j - at)] else old(dst[j])
    {
      dst[at + i] := src[from + i];
    }
  }

  /** struct socket */
  class Socket {
    var localPort: nat
    var remotePort: nat
    var timeWaitTimer: nat
    var state: TcpState
    var sndUna: Seq32
    var sndNxt: Seq32
    var rcvNxt: Seq32
    var rxHead: Seq32
    var rxTail: Seq32
    const rxBuf: array<Byte>
    var next: Socket?

    /** What tcp_rx fills in for the socket it spawns; the buffer contents are whatever kmalloc returns. */
    constructor (listener: Socket, seg: Segment, rxBuf: array<Byte>, next: Socket?)
      requires rxBuf.Length == RX_BUF_SIZE
      ensures Valid() && this.rxBuf == rxBuf && this.next == next
      ensures View() == Table.Spawn(listener.View(), seg, rxBuf[..])
    {
      localPort, remotePort, timeWaitTimer, state := listener.localPort, seg.srcPort, 0, SynRecv;
      sndUna, sndNxt, rcvNxt := listener.sndNxt, listener.sndNxt, Add32(seg.seqNo, 1);
      rxHead, rxTail := 0, 0;
      this.rxBuf := rxBuf;
      this.next := next;
    }

    ghost predicate Valid() {
      rxBuf.Length == RX_BUF_SIZE
    }

    ghost function Conn(): Spec.Conn
      reads this, rxBuf
    {
      Spec.Conn(state, sndUna, sndNxt, rcvNxt, rxHead, rxTail, rxBuf[..])
    }

    ghost function View(): Table.Slot
      reads this, rxBuf
    {
      Table.Slot(localPort, remotePort, timeWaitTimer, Conn())
    }

    /** The in-order branch of tcp_rx: cut to the free space, copy in one or two pieces, advance. */
    method TakeData(seg: Segment)
      requires Valid() && Fits(seg) && seg.payload != [] && state == Established && seg.seqNo == rcvNxt
      modifies this`rxTail, this`rcvNxt, rxBuf
      ensures Conn() == Spec.TakeData(old(Conn()), seg)
    {
      var space := Sub32(RX_BUF_SIZE, Sub32(rxTail, rxHead));
      var len := if |seg.payload| > space then space else |seg.payload|;
      var data := seg.payload[..len];
      WriteRing(rxTail % RX_BUF_SIZE, data);
      rxTail := Add32(rxTail, len);
      rcvNxt := Add32(rcvNxt, len);
      assert data == Taken(old(Conn()), seg);
    }

    /** The two memcpy cases of tcp_rx. */
    method WriteRing(tail: nat, data: seq<Byte>)
      requires Valid() && tail < RX_BUF_SIZE && |data| <= RX_BUF_SIZE
      modifies rxBuf
      ensures rxBuf[..] == RingWrite(old(rxBuf[..]), tail, data)
    {
      ghost var before := rxBuf[..];
      if tail + |data| > RX_BUF_SIZE {
        var first := RX_BUF_SIZE - tail;
        CopyIn(rxBuf, tail, data[..first]);
        assert rxBuf[..] == before[..tail] + data[..first];
        CopyIn(rxBuf, 0, data[first..]);
        assert rxBuf[..] == data[first..] + before[|data| - first..tail] + data[..first];
      } else {
        CopyIn(rxBuf, tail, data);
      }
      WrittenInPieces(before, tail, data);
    }

    /** The two memcpy cases of tcp_recv. */
    method ReadRing(buf: array<Byte>, head: nat, count: nat)
      requires Valid() && buf != rxBuf && head < RX_BUF_SIZE && count <= RX_BUF_SIZE && count <= buf.Length
      modifies buf
      ensures buf[..] == RingRead(rxBuf[..], head, count) + old(buf[count..])
    {
      ghost var rest := buf[count..];
      if head + count > RX_BUF_SIZE {
        var first := RX_BUF_SIZE - head;
        CopyOut(buf, 0, rxBuf, head, first);
        assert buf[..first] == rxBuf[head..] && buf[count..] == rest;
        CopyOut(buf, first, rxBuf, 0, count - first);
        assert buf[..] == rxBuf[head..] + rxBuf[..count - first] + rest;
      } else {
        CopyOut(buf, 0, rxBuf, head, count);
      }
      ReadInPieces(rxBuf[..], head, count);
    }

    /** The segment without data that tcp_tx builds from the socket. */
    method Answer(flags: nat) returns (r: Segment)
      ensures r == Reply(Conn(), localPort, remotePort, flags)
    {
      r := Segment(localPort, remotePort, sndNxt, rcvNxt, flags, []);
    }

    /** The switch of tcp_rx for a socket that is not listening; `sent` is what it gives to tcp_tx. */
    method Rx(seg: Segment) returns (sent: seq<Segment>)
      requires Valid() && Fits(seg)
      modifies this`state, this`sndUna, this`rcvNxt, this`rxTail, rxBuf
      ensures Conn() == Spec.Rx(old(Conn()), seg)
      ensures sent == Replies(old(Conn()), seg, localPort, remotePort)
    {
      sent := [];
      var r;
      match state
      case SynSent =>
        if IsSyn(seg.flags) && IsAck(seg.flags) && seg.ackNo == Add32(sndUna, 1) {
          state := Established;
          rcvNxt := Add32(seg.seqNo, 1);
          sndUna := seg.ackNo;
          r := Answer(TCP_ACK);
          sent := [r];
        }
      case SynRecv =>
        if IsAck(seg.flags) { state := Established; }
      case Established =>
        if IsAck(seg.flags) { sndUna := seg.ackNo; }
        ghost var c1 := Conn();
        if |seg.payload| > 0 && seg.seqNo == rcvNxt {
          TakeData(seg);
          r := Answer(TCP_ACK);
          sent := [r];
        } else {
          NothingTaken(c1, seg);
        }
        assert Conn() == Spec.TakeData(c1, seg);
        if IsFin(seg.flags) {
          state := CloseWait;
          rcvNxt := Add32(rcvNxt, 1);
          r := Answer(TCP_ACK);
          sent := sent + [r];
        }
      case CloseWait | LastAck =>
        if IsAck(seg.flags) { state := Closed; }
      case _ =>
    }

    /** tcp_recv into the caller's buffer. */
    method Recv(buf: array<Byte>, len: nat) returns (n: int)
      requires Valid() && buf != rxBuf && len <= buf.Length && ReadLength(Conn(), len) <= RX_BUF_SIZE
      modifies this`rxHead, buf
      ensures n < 0 <==> !CanRead(old(Conn()))
      ensures n >= 0 ==> n == |Spec.Recv(old(Conn()), len).1|
      ensures Conn() == Spec.Recv(old(Conn()), len).0
      ensures buf[..] == Spec.Recv(old(Conn()), len).1 + old(buf[ReadLength(Conn(), len)..])
    {
      if state != Established && state != CloseWait {
        EmptyRead(Conn(), len);
        return -1;
      }
      var available := Sub32(rxTail, rxHead);
      if available == 0 {
        EmptyRead(Conn(), len);
        return 0;
      }
      var count := if len > available then available else len;
      ReadRing(buf, rxHead % RX_BUF_SIZE, count);
      rxHead := Add32(rxHead, count);
      return count;
    }

    /** One socket's share of tcp_timer_tick. */
    method Tick()
      modifies this`state, this`timeWaitTimer
      ensures View() == Table.TickSlot(old(View()))
    {
      if state == TimeWait {
        if timeWaitTimer > 0 {
          timeWaitTimer := timeWaitTimer - 1;
        } else {
          state := Closed;
        }
      }
    }

    /** tcp_close; `gotPacket` says whether tcp_tx gets memory for its packet. */
    method Close(gotPacket: bool) returns (sent: seq<Segment>)
      modifies this`state, this`sndNxt
      ensures Conn() == Spec.Close(old(Conn()), gotPacket)
      ensures sent == if gotPacket then Farewell(old(Conn()), localPort, remotePort) else []
    {
      sent := [];
      match state
      case Established =>
        state := FinWait1;
        if gotPacket { sent := SendFin(); }
      case CloseWait =>
        state := LastAck;
        if gotPacket { sent := SendFin(); }
      case SynSent | SynRecv | Closed =>
        state := Closed;
      case _ =>
    }

    /** tcp_tx with FIN and ACK: the FIN occupies one sequence number. */
    method SendFin() returns (sent: seq<Segment>)
      modifies this`sndNxt
      ensures Conn() == Tx(old(Conn()), TCP_FIN + TCP_ACK, 0)
      ensures sent == [Reply(old(Conn()), localPort, remotePort, TCP_FIN + TCP_ACK)]
    {
      var r := Answer(TCP_FIN + TCP_ACK);
      sent := [r];
      assert !Bit(8, 0) && Bit(TCP_FIN + TCP_ACK, 1) == Bit(8, 0);
      sndNxt := Add32(sndNxt, 1);
    }
  }

  ghost predicate Linked(list: seq<Socket>, i: nat)
    requires i < |list|
    reads list[i]
  {
    list[i].next == if i + 1 < |list| then list[i + 1] else null
  }

  /** `list` is the chain of next pointers from `head`, in order. */
  ghost predicate Chain(head: Socket?, list: seq<Socket>)
    reads list
  {
    && (head == if list == [] then null else list[0])
    && (forall i :: 0 <= i < |list| ==> Linked(list, i))
    && (forall i, j :: 0 <= i < j < |list| ==> list[i] != list[j])
  }

  /** No two sockets share a receive buffer. */
  ghost predicate OwnBuffers(list: seq<Socket>) {
    && (forall i :: 0 <= i < |list| ==> list[i].Valid())
    && (forall i, j :: 0 <= i < j < |list| ==> list[i].rxBuf != list[j].rxBuf)
  }

  ghost function Buffers(list: seq<Socket>): set<object> {
    set s: Socket | s in list :: s.rxBuf as object
  }

  ghost predicate Shown(list: seq<Socket>, slots: seq<Table.Slot>, i: nat)
    requires i < |list| == |slots|
    reads list[i], list[i].rxBuf
  {
    slots[i] == list[i].View()
  }

  /** `slots` is what the sockets of the list hold. */
  ghost predicate Shows(list: seq<Socket>, slots: seq<Table.Slot>)
    reads list, Buffers(list)
  {
    |slots| == |list| && forall i :: 0 <= i < |list| ==> Shown(list, slots, i)
  }

  /** The static `sockets` pointer of tcp.c, with the list that hangs from it and its contents. */
  class SocketList {
    var head: Socket?
    ghost var list: seq<Socket>
    ghost var slots: seq<Table.Slot>

    ghost predicate Valid()
      reads this, list, Buffers(list)
    {
      Chain(head, list) && OwnBuffers(list) && Shows(list, slots)
    }

    constructor ()
      ensures Valid() && slots == []
    {
      head, list, slots := null, [], [];
    }

    /** The search loop of tcp_rx. */
    method Find(seg: Segment) returns (sock: Socket?, ghost i: nat)
      requires Valid()
      ensures i == Table.Find(slots, seg)
      ensures sock == if Table.Find(slots, seg) < |list| then list[Table.Find(slots, seg)] else null
    {
      sock, i := head, 0;
      while sock != null
        invariant i <= |list|
        invariant sock == if i < |list| then list[i] else null
        invariant Table.Find(slots, seg) == i + Table.Find(slots[i..], seg)
        decreases |list| - i
      {
        assert Shown(list, slots, i) && slots[i..][0] == sock.View();
        if sock.localPort == seg.dstPort && sock.remotePort == seg.srcPort {
          return;
        }
        if sock.state == Listen && sock.localPort == seg.dstPort {
          return;
        }
        assert slots[i..][1..] == slots[i + 1..];
        NextInChain(head, list, i);
        sock, i := sock.next, i + 1;
      }
    }

    /** tcp_rx. `mem` is the receive buffer that kmalloc has for a new socket, or null. */
    method Rx(seg: Segment, mem: array?<Byte>) returns (sent: seq<Segment>)
      requires Valid() && Fits(seg)
      requires mem != null ==> mem.Length == RX_BUF_SIZE && mem !in Buffers(list)
      modifies this, list, Buffers(list)
      ensures Valid() && Table.BuffersOk(old(slots))
      ensures slots == Table.Deliver(old(slots), seg, if mem == null then None else Some(old(mem[..])))
      ensures sent == Table.Answers(old(slots), seg, if mem == null then None else Some(old(mem[..])))
    {
      sent := [];
      BuffersAreOk(list, slots);
      ghost var i;
      var sock;
      sock, i := Find(seg);
      if sock == null {
        return;
      }
      assert Shown(list, slots, i);
      if sock.state == Listen {
        if IsSyn(seg.flags) && mem != null {
          sent := Push(sock, seg, mem);
        }
      } else {
        sent := Deliver(sock, i, seg);
      }
    }

    /** The new socket goes to the front of the list. */
    method Push(listener: Socket, seg: Segment, buf: array<Byte>) returns (sent: seq<Segment>)
      requires Valid() && buf.Length == RX_BUF_SIZE && buf !in Buffers(list)
      modifies this
      ensures Valid()
      ensures slots == [Table.Spawn(old(listener.View()), seg, buf[..])] + old(slots)
      ensures var made := Table.Spawn(old(listener.View()), seg, buf[..]);
        sent == [Reply(made.conn, made.localPort, made.remotePort, TCP_SYN + TCP_ACK)]
    {
      var sock := new Socket(listener, seg, buf, head);
      var r := sock.Answer(TCP_SYN + TCP_ACK);
      sent := [r];
      ChainCons(sock, list);
      OwnBuffersCons(sock, list);
      ghost var all, shown := [sock] + list, [sock.View()] + slots;
      forall i | 0 <= i < |all| ensures Shown(all, shown, i) {
        if i > 0 { assert Shown(list, slots, i - 1); }
      }
      head, list, slots := sock, all, shown;
    }

    /** The matched socket processes the segment; the others do not change. */
    method Deliver(sock: Socket, ghost i: nat, seg: Segment) returns (sent: seq<Segment>)
      requires Valid() && Fits(seg) && i < |list| && sock == list[i] && sock.state != Listen
      modifies this`slots, list, Buffers(list)
      ensures Valid()
      ensures BufferOk(old(slots)[i].conn)
      ensures slots == old(slots)[i := old(slots)[i].(conn := Spec.Rx(old(slots)[i].conn, seg))]
      ensures sent == Replies(old(slots)[i].conn, seg, old(slots)[i].localPort, old(slots)[i].remotePort)
    {
      assert Shown(list, slots, i);
      sent := sock.Rx(seg);
      slots := slots[i := sock.View()];
      forall j | 0 <= j < |list| ensures Shown(list, slots, j) {
        if j != i { assert old(Shown(list, slots, j)); }
      }
      assert forall j :: 0 <= j < |list| ==> old(Linked(list, j)) ==> Linked(list, j);
    }

    /** tcp_timer_tick */
    method TimerTick()
      requires Valid()
      modifies this`slots, list`state, list`timeWaitTimer
      ensures Valid() && slots == Table.Tick(old(slots))
    {
      ghost var before := slots;
      var sock := head;
      ghost var i := 0;
      while sock != null
        invariant i <= |list| && Valid()
        invariant sock == if i < |list| then list[i] else null
        invariant |slots| == |before|
        invariant forall j :: 0 <= j < |slots| ==> slots[j] == if j < i then Table.TickSlot(before[j]) else before[j]
        decreases |list| - i
      {
        TickOne(sock, i);
        NextInChain(head, list, i);
        sock, i := sock.next, i + 1;
      }
      TickedAll(before, slots);
    }

    /** The tick of socket `i` leaves the others alone. */
    method TickOne(sock: Socket, ghost i: nat)
      requires Valid() && i < |list| && sock == list[i]
      modifies this`slots, sock`state, sock`timeWaitTimer
      ensures Valid()
      ensures slots == old(slots)[i := Table.TickSlot(old(slots)[i])]
    {
      assert Shown(list, slots, i);
      sock.Tick();
      slots := slots[i := sock.View()];
      forall j | 0 <= j < |list| ensures Shown(list, slots, j) {
        if j != i { assert old(Shown(list, slots, j)); }
      }
      assert forall j :: 0 <= j < |list| ==> old(Linked(list, j)) ==> Linked(list, j);
    }

    /** `*prev = sock->next`, where a null `prev` is the list head itself; then `sock = *prev`. */
    method Unlink(prev: Socket?, sock: Socket, ghost k: nat) returns (after: Socket?)
      requires Valid() && k < |list| && list[k] == sock
      requires prev == if k == 0 then null else list[k - 1]
      modifies this, (if prev == null then {} else {prev})`next
      ensures Valid()
      ensures list == old(list[..k] + list[k + 1..])
      ensures slots == old(slots[..k] + slots[k + 1..])
      ensures after == if k < |list| then list[k] else null
    {
      ghost var before := list;
      NextInChain(head, list, k);
      after := sock.next;
      if prev == null {
        head := after;
      } else {
        prev.next := after;
      }
      list, slots := before[..k] + before[k + 1..], slots[..k] + slots[k + 1..];
      forall i | 0 <= i < |list| ensures Linked(list, i) && Shown(list, slots, i) {
        var j := if i < k then i else i + 1;
        assert list[i] == before[j] && old(Shown(list, slots, j));
        if i == k - 1 {
          assert list[i] == prev;
        } else {
          assert old(Linked(before, j)) && list[i].next == old(before[j].next);
        }
      }
    }

    /**
     * tcp_cleanup. `prev` stands for the pointer to the pointer: null is `&sockets`, otherwise it
     * is the next field of the last socket kept.
     */
    method Cleanup()
      requires Valid()
      modifies this, list`next
      ensures Valid()
      ensures slots == Table.Cleanup(old(slots))
    {
      ghost var before, all, k := slots, list, 0;
      var prev: Socket?, sock := null, head;
      while sock != null
        invariant k <= |list| && Valid()
        invariant forall s :: s in list ==> s in all
        invariant prev == if k == 0 then null else list[k - 1]
        invariant sock == if k < |list| then list[k] else null
        invariant CleanedTo(before, slots, k)
        decreases |list| - k
      {
        assert Shown(list, slots, k);
        assert k > 0 ==> list[k - 1] in list;
        if sock.state == Closed {
          CleanedDrop(before, slots, k);
          sock := Unlink(prev, sock, k);
        } else {
          CleanedKeep(before, slots, k);
          NextInChain(head, list, k);
          prev, sock, k := sock, sock.next, k + 1;
        }
      }
      CleanedAll(before, slots);
    }
  }

  /** The first `k` elements of `v` are kept, the rest is still to be filtered. */
  ghost predicate CleanedTo(slots: seq<Table.Slot>, v: seq<Table.Slot>, k: nat) {
    k <= |v| && Table.Cleanup(slots) == v[..k] + Table.Cleanup(v[k..])
  }

  lemma CleanedDrop(slots: seq<Table.Slot>, v: seq<Table.Slot>, k: nat)
    requires CleanedTo(slots, v, k) && k < |v| && v[k].conn.state == Closed
    ensures CleanedTo(slots, v[..k] + v[k + 1..], k)
  {
    var v' := v[..k] + v[k + 1..];
    assert v'[..k] == v[..k] && v'[k..] == v[k + 1..] == v[k..][1..];
  }

  lemma CleanedKeep(slots: seq<Table.Slot>, v: seq<Table.Slot>, k: nat)
    requires CleanedTo(slots, v, k) && k < |v| && v[k].conn.state != Closed
    ensures CleanedTo(slots, v, k + 1)
  {
    assert v[k..][1..] == v[k + 1..] && v[..k + 1] == v[..k] + [v[k]];
  }

  lemma CleanedAll(slots: seq<Table.Slot>, v: seq<Table.Slot>)
    requires CleanedTo(slots, v, |v|)
    ensures v == Table.Cleanup(slots)
  {
    assert v[..|v|] == v;
  }

  lemma TickedAll(slots: seq<Table.Slot>, v: seq<Table.Slot>)
    requires |v| == |slots| && forall j :: 0 <= j < |v| ==> v[j] == Table.TickSlot(slots[j])
    ensures v == Table.Tick(slots)
  {
  }

  lemma NextInChain(head: Socket?, list: seq<Socket>, i: nat)
    requires Chain(head, list) && i < |list|
    ensures list[i].next == if i + 1 < |list| then list[i + 1] else null
  {
    assert Linked(list, i);
  }

  lemma ChainCons(s: Socket, list: seq<Socket>)
    requires Chain(s.next, list) && s !in list
    ensures Chain(s, [s] + list)
  {
    var all := [s] + list;
    forall i | 0 <= i < |all| ensures Linked(all, i) {
      if i > 0 { assert Linked(list, i - 1); }
    }
  }

  lemma OwnBuffersCons(s: Socket, list: seq<Socket>)
    requires OwnBuffers(list) && s.Valid() && s.rxBuf !in Buffers(list)
    ensures OwnBuffers([s] + list)
  {
    forall j | 0 <= j < |list| ensures s.rxBuf != list[j].rxBuf {
      assert list[j] in list;
      assert list[j].rxBuf in Buffers(list);
    }
  }

  lemma BuffersAreOk(list: seq<Socket>, slots: seq<Table.Slot>)
    requires OwnBuffers(list) && Shows(list, slots)
    ensures Table.BuffersOk(slots)
  {
    forall slot | slot in slots ensures BufferOk(slot.conn) {
      var i :| 0 <= i < |slots| && slot == slots[i];
      assert Shown(list, slots, i);
    }
  }

  lemma WrittenInPieces(buf: seq<Byte>, tail: nat, data: seq<Byte>)
    requires |buf| == RX_BUF_SIZE && tail < RX_BUF_SIZE && |data| <= RX_BUF_SIZE
    ensures RingWrite(buf, tail, data) ==
      if tail + |data| <= RX_BUF_SIZE then buf[..tail] + data + buf[tail + |data|..]
      else data[RX_BUF_SIZE - tail..] + buf[tail + |data| - RX_BUF_SIZE..tail] + data[..RX_BUF_SIZE - tail]
  {
  }

  lemma ReadInPieces(buf: seq<Byte>, head: nat, n: nat)
    requires |buf| == RX_BUF_SIZE && head < RX_BUF_SIZE && n <= RX_BUF_SIZE
    ensures RingRead(buf, head, n) ==
      if head + n <= RX_BUF_SIZE then buf[head..head + n] else buf[head..] + buf[..head + n - RX_BUF_SIZE]
  {
  }

  lemma NothingTaken(c: Spec.Conn, seg: Segment)
    requires BufferOk(c) && Fits(seg) && Taken(c, seg) == []
    ensures Spec.TakeData(c, seg) == c
  {
    assert RingWrite(c.rxBuf, c.rxTail % RX_BUF_SIZE, []) == c.rxBuf;
  }

  lemma EmptyRead(c: Spec.Conn, len: nat)
    requires BufferOk(c) && ReadLength(c, len) == 0
    ensures Spec.Recv(c, len) == (c, [])
  {
  }
}
