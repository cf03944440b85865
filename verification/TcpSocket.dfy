/**
  The socket of net/tcp.c: mutable fields, two ring buffers and a linked list of outstanding
  segments. Each method is proved against TcpConnection.
 */
module TcpSockets {
  import opened CTypes
  import opened TcpBuffers
  import opened TcpConnection

  class OutstandingSegment {
    const seqNum: Word32
    const data: seq<Byte>
    var next: OutstandingSegment?

    constructor (seqNum: Word32, data: seq<Byte>, next: OutstandingSegment?)
      ensures this.seqNum == seqNum && this.data == data && this.next == next
    {
      this.seqNum, this.data, this.next := seqNum, data, next;
    }
  }

  function EntriesOf(nodes: seq<OutstandingSegment>): (entries: seq<Sent>)
    ensures |entries| == |nodes|
  {
    if nodes == [] then [] else [Sent(nodes[0].seqNum, nodes[0].data)] + EntriesOf(nodes[1..])
  }

  function NodeAt(nodes: seq<OutstandingSegment>, i: nat): OutstandingSegment? {
    if i < |nodes| then nodes[i] else null
  }

  /** From `head` the next fields lead through exactly these nodes. */
  ghost predicate Linked(head: OutstandingSegment?, nodes: seq<OutstandingSegment>)
    reads set n | n in nodes
  {
    && head == NodeAt(nodes, 0)
    && (forall i: nat :: i < |nodes| ==> nodes[i].next == NodeAt(nodes, i + 1))
    && (forall i, j :: 0 <= i < j < |nodes| ==> nodes[i] != nodes[j])
  }

  lemma AfterUnlink(kept: seq<OutstandingSegment>, rest: seq<OutstandingSegment>)
    requires rest != []
    ensures forall i: nat :: NodeAt(kept + rest[1..], i) == NodeAt(kept + rest, if i < |kept| then i else i + 1)
    ensures NodeAt(rest[1..], 0) == NodeAt(kept + rest, |kept| + 1)
  {
  }

  class TcpSocket {
    var state: State
    var sendSeq: Word32
    var recvSeq: Word32
    var sendAck: Word32
    var advertisedWindow: Word16
    const sendBuf: TcpBuffer
    const recvBuf: TcpBuffer
    var outstanding: OutstandingSegment?
    ghost var nodes: seq<OutstandingSegment>

    ghost predicate Valid()
      reads this, sendBuf, sendBuf.data, recvBuf, recvBuf.data, set n | n in nodes
    {
      && sendBuf.Valid() && recvBuf.Valid() && sendBuf != recvBuf && sendBuf.data != recvBuf.data
      && sendBuf.data.Length == recvBuf.data.Length == BUFFER_SIZE
      && Linked(outstanding, nodes)
    }

    ghost function View(): Sock
      requires Valid()
      reads this, sendBuf, sendBuf.data, recvBuf, recvBuf.data, set n | n in nodes
    {
      Sock(state, sendSeq, recvSeq, sendAck, advertisedWindow, sendBuf.Contents(), recvBuf.Contents(), EntriesOf(nodes))
    }

    /** tcp_socket */
    constructor ()
      ensures Valid() && fresh(sendBuf) && fresh(sendBuf.data) && fresh(recvBuf) && fresh(recvBuf.data)
      ensures View() == Sock(Closed, 0, 0, 0, 4096, [], [], [])
    {
      state := Closed;
      sendSeq, recvSeq, sendAck, advertisedWindow := 0, 0, 0, 4096;
      sendBuf := new TcpBuffer(BUFFER_SIZE);
      recvBuf := new TcpBuffer(BUFFER_SIZE);
      outstanding := null;
      nodes := [];
    }

    /** tcp_enqueue_segment: the new entry goes to the front of the list. */
    method EnqueueSegment(data: seq<Byte>, a: Alloc)
      requires Valid()
      modifies this`outstanding, this`nodes
      ensures Valid()
      ensures View() == if a.entry then old(View()).(store := [Sent(sendSeq, data)] + old(View().store))
                        else old(View())
      ensures fresh((set n | n in nodes) - old(set n | n in nodes))
    {
      if !a.entry {
        return;
      }
      var seg := new OutstandingSegment(sendSeq, data, outstanding);
      outstanding := seg;
      nodes := [seg] + nodes;
    }

    /** tcp_send_segment: -1 when there is no memory for the packet. */
    method SendSegment(flags: bv8, data: seq<Byte>, a: Alloc) returns (r: int)
      requires Valid()
      modifies this`outstanding, this`nodes
      ensures Valid()
      ensures (View(), r == 0) == Transmit(old(View()), flags, data, a)
      ensures r == 0 || r == -1
      ensures fresh((set n | n in nodes) - old(set n | n in nodes))
    {
      if !a.packet {
        return -1;
      }
      if Has(flags, PSH | SYN | FIN) {
        EnqueueSegment(data, a);
      }
      return 0;
    }

    /** Takes `current` out of the list: the link that leads to it now leads past it. */
    method Unlink(prev: OutstandingSegment?, current: OutstandingSegment, ghost kept: seq<OutstandingSegment>,
                  ghost rest: seq<OutstandingSegment>)
      requires Linked(outstanding, kept + rest) && rest != [] && current == rest[0]
      requires prev == (if kept == [] then null else kept[|kept| - 1])
      modifies this`outstanding, set n | n in kept
      ensures Linked(outstanding, kept + rest[1..])
      ensures current.next == old(current.next) == NodeAt(rest[1..], 0)
    {
      ghost var all, after := kept + rest, kept + rest[1..];
      AfterUnlink(kept, rest);
      assert NodeAt(all, |kept|) == current;
      assert current.next == NodeAt(all, |kept| + 1);
      if prev == null {
        outstanding := current.next;
      } else {
        assert prev == all[|kept| - 1];
        prev.next := current.next;
      }
      forall i: nat | i < |after|
        ensures after[i].next == NodeAt(after, i + 1)
      {
        var k := if i < |kept| then i else i + 1;
        assert after[i] == all[k];
        if i + 1 != |kept| {
          assert prev != null ==> all[k] != prev;
          assert all[k].next == old(all[k].next) == NodeAt(all, k + 1);
        }
      }
    }

    /** tcp_dequeue_segment: one pass that unlinks the acknowledged segments in place. */
    method DequeueSegment(ackNum: Word32) returns (r: int)
      requires Valid()
      modifies this`outstanding, this`nodes, set n | n in nodes
      ensures Valid()
      ensures View() == old(View()).(store := Kept(old(View().store), ackNum))
      ensures r == if old(View().store) == [] then -1 else 0
      ensures forall n :: n in nodes ==> n in old(nodes)
    {
      hide Linked, EntriesOf, Kept;
      NoEntries();
      EmptyList(outstanding, nodes);
      if outstanding == null {
        return -1;
      }
      var prev: OutstandingSegment? := null;
      var current := outstanding;
      ghost var kept, rest := [], nodes;
      assert kept + rest == nodes;
      HeadOf(outstanding, kept, rest);
      while current != null
        invariant Linked(outstanding, kept + rest)
        invariant forall n :: n in kept + rest ==> n in old(nodes)
        invariant prev == (if kept == [] then null else kept[|kept| - 1])
        invariant current == NodeAt(rest, 0)
        invariant EntriesOf(kept) + Kept(EntriesOf(rest), ackNum) == Kept(EntriesOf(old(nodes)), ackNum)
        decreases |rest|
      {
        KeptStep(rest, ackNum);
        HeadOf(outstanding, kept, rest);
        if current.seqNum + |current.data| <= ackNum {
          Unlink(prev, current, kept, rest);
          current := current.next;
          rest := rest[1..];
        } else {
          EntriesOfAppend(kept, rest[0]);
          assert kept + rest == (kept + [rest[0]]) + rest[1..];
          assert EntriesOf(kept) + ([Sent(rest[0].seqNum, rest[0].data)] + Kept(EntriesOf(rest[1..]), ackNum))
              == EntriesOf(kept + [rest[0]]) + Kept(EntriesOf(rest[1..]), ackNum);
          prev := current;
          current := current.next;
          kept, rest := kept + [rest[0]], rest[1..];
        }
      }
      assert rest == [] && kept + rest == kept;
      assert EntriesOf(kept) + Kept(EntriesOf(rest), ackNum) == EntriesOf(kept);
      nodes := kept;
      return 0;
    }

    /** tcp_connect */
    method Connect(isn: Word32, a: Alloc) returns (r: int)
      requires Valid()
      modifies this
      ensures Valid()
      ensures r == if old(state) == Closed && a.packet then 0 else -1
      ensures View() == if old(state) == Closed then TcpConnection.Connect(old(View()), isn, a) else old(View())
    {
      if state != Closed {
        return -1;
      }
      sendSeq := isn;
      recvSeq := 0;
      r := SendSegment(SYN, [], a);
      if r >= 0 {
        state := SynSent;
      }
    }

    /** tcp_send; `alloc(k)` is the memory the k-th segment of the call gets. */
    method Send(data: seq<Byte>, alloc: nat -> Alloc) returns (r: int)
      requires Valid()
      modifies this, sendBuf, sendBuf.data
      ensures Valid()
      ensures (View(), r) == UserSend(old(View()), data, alloc)
    {
      hide Linked, EntriesOf, Ring, Transmit, WindowFull, Has, Wrap32;
      if state != Established {
        return -1;
      }
      var q := sendBuf.Enqueue(data);
      if q < 0 {
        return -1;
      }
      var bytesSent := 0;
      var k := 0;
      while bytesSent < |data|
        invariant Valid() && bytesSent <= |data|
        invariant SendLoop(View(), data, bytesSent, alloc, k)
                  == SendLoop(old(View()).(sendQ := old(View().sendQ) + data), data, 0, alloc, 0)
        decreases |data| - bytesSent
      {
        var chunkSize := if |data| - bytesSent < MSS then |data| - bytesSent else MSS;
        var full := SendWindowFull();
        if full {
          break;
        }
        r := SendChunk(data[bytesSent..bytesSent + chunkSize], alloc(k));
        if r < 0 {
          break;
        }
        bytesSent := bytesSent + chunkSize;
        k := k + 1;
      }
      return bytesSent;
    }

    /** A segment, and send_seq moved past it. */
    method SendChunk(chunk: seq<Byte>, a: Alloc) returns (r: int)
      requires Valid()
      modifies this`outstanding, this`nodes, this`sendSeq
      ensures Valid() && (r == 0 || r == -1)
      ensures var (s, ok) := Transmit(old(View()), PSH | ACK, chunk, a);
              ok == (r == 0) && View() == if ok then s.(sendSeq := Wrap32(old(sendSeq) + |chunk|)) else s
      ensures fresh((set n | n in nodes) - old(set n | n in nodes))
    {
      hide Linked, EntriesOf, Ring, Transmit, Has, Wrap32;
      r := SendSegment(PSH | ACK, chunk, a);
      if r >= 0 {
        sendSeq := Wrap32(sendSeq + |chunk|);
      }
    }

    /** Whether the numbers in flight, a 32-bit difference, fill the advertised window. */
    method SendWindowFull() returns (full: bool)
      requires Valid()
      ensures full == WindowFull(View())
    {
      full := Wrap32(sendSeq - sendAck) >= advertisedWindow;
    }

    /** tcp_recv: moves up to len bytes to the front of dst. */
    method Recv(dst: array<Byte>, len: nat) returns (n: nat)
      requires Valid() && len <= dst.Length && dst != sendBuf.data && dst != recvBuf.data
      modifies recvBuf, dst
      ensures Valid()
      ensures n <= len && (View(), dst[..n]) == UserRecv(old(View()), len)
      ensures dst[n..] == old(dst[n..])
    {
      if recvBuf.used == 0 {
        return 0;
      }
      n := recvBuf.Dequeue(dst, len);
    }

    /** tcp_handle_packet for this socket; `checksumOk` is the outcome of its checksum gate. */
    method HandlePacket(checksumOk: bool, g: Segment, a: Alloc)
      requires Valid()
      modifies this, recvBuf, recvBuf.data, set n | n in nodes
      ensures Valid()
      ensures View() == if checksumOk then Handle(old(View()), g, a) else old(View())
    {
      if !checksumOk {
        return;
      }
      hide Switch;
      if state == SynSent || state == SynReceived {
        HandleOpening(g, a);
      } else if state == Established {
        HandleEstablished(g, a);
      } else {
        HandleClosing(g, a);
      }
      advertisedWindow := g.window;
    }

    /** The cases of the switch before the connection is established. */
    method HandleOpening(g: Segment, a: Alloc)
      requires Valid() && (state == SynSent || state == SynReceived)
      modifies this
      ensures Valid()
      ensures View() == Switch(old(View()), g, a)
      ensures fresh((set n | n in nodes) - old(set n | n in nodes))
    {
      WhatIsStored();
      hide Has, Wrap32, Linked, EntriesOf, Ring, DataLen, Payload, Kept;
      var ignored: int;
      if state == SynSent {
        if Has(g.flags, SYN) {
          if Has(g.flags, ACK) {
            recvSeq := Wrap32(g.seqNum + 1);
            sendSeq := g.ackNum;
            ignored := SendSegment(ACK, [], a);
            state := Established;
          } else {
            recvSeq := Wrap32(g.seqNum + 1);
            ignored := SendSegment(SYN | ACK, [], a);
            sendSeq := Wrap32(sendSeq + 1);
            state := SynReceived;
          }
        }
      } else if Has(g.flags, ACK) {
        state := Established;
      }
    }

    /** The cases of the switch in which the connection is being closed, or is closed. */
    method HandleClosing(g: Segment, a: Alloc)
      requires Valid() && state != SynSent && state != SynReceived && state != Established
      modifies this
      ensures Valid()
      ensures View() == Switch(old(View()), g, a)
      ensures fresh((set n | n in nodes) - old(set n | n in nodes))
    {
      WhatIsStored();
      hide Has, Wrap32, Linked, EntriesOf, Ring, DataLen, Payload, Kept;
      var ignored: int;
      match state {
        case FinWait1 =>
          if Has(g.flags, ACK) {
            state := FinWait2;
          } else if Has(g.flags, FIN) {
            recvSeq := Wrap32(g.seqNum + 1);
            ignored := SendSegment(ACK, [], a);
            state := Closing;
          }
        case FinWait2 =>
          if Has(g.flags, FIN) {
            recvSeq := Wrap32(g.seqNum + 1);
            ignored := SendSegment(ACK, [], a);
            state := TimeWait;
          }
        case Closing =>
          if Has(g.flags, ACK) {
            state := TimeWait;
          }
        case CloseWait =>
          if Has(g.flags, ACK) {
            state := Closed;
          }
        case LastAck =>
          if Has(g.flags, ACK) {
            state := Closed;
          }
        case TimeWait =>
        case Closed =>
      }
    }

    /** The TCP_ESTABLISHED case of the switch. */
    method HandleEstablished(g: Segment, a: Alloc)
      requires Valid() && state == Established
      modifies this, recvBuf, recvBuf.data, set n | n in nodes
      ensures Valid()
      ensures View() == Switch(old(View()), g, a)
    {
      WhatIsStored();
      hide Has, Wrap32, Linked, EntriesOf, Ring, Kept;
      var ignored: int;
      var dataLen := DataLen(g);
      if Has(g.flags, FIN) {
        recvSeq := Wrap32(g.seqNum + 1);
        ignored := SendSegment(ACK, [], a);
        state := CloseWait;
        ignored := SendSegment(FIN | ACK, [], a);
        state := LastAck;
      } else if Has(g.flags, RST) {
        state := Closed;
      } else if dataLen > 0 && g.seqNum == recvSeq {
        if recvBuf.data.Length - recvBuf.used >= dataLen {
          PayloadLength(g);
          ignored := recvBuf.Enqueue(g.bytes[DataOffset(g)..DataOffset(g) + dataLen]);
          recvSeq := Wrap32(recvSeq + dataLen);
          ignored := SendSegment(ACK, [], a);
        }
      } else if Has(g.flags, ACK) {
        ignored := DequeueSegment(g.ackNum);
        sendAck := g.ackNum;
      }
    }
  }

  lemma NoEntries()
    ensures EntriesOf([]) == [] && forall ack :: Kept([], ack) == []
  {
  }

  lemma EmptyList(head: OutstandingSegment?, nodes: seq<OutstandingSegment>)
    requires Linked(head, nodes)
    ensures head == null <==> EntriesOf(nodes) == []
  {
  }

  lemma HeadOf(head: OutstandingSegment?, kept: seq<OutstandingSegment>, rest: seq<OutstandingSegment>)
    requires Linked(head, kept + rest)
    ensures kept == [] ==> head == NodeAt(rest, 0)
    ensures rest != [] ==> rest[0].next == NodeAt(rest[1..], 0)
  {
    if rest != [] {
      assert (kept + rest)[|kept|] == rest[0];
    }
  }

  lemma KeptStep(rest: seq<OutstandingSegment>, ack: Word32)
    requires rest != []
    ensures Kept(EntriesOf(rest), ack) ==
            (if rest[0].seqNum + |rest[0].data| <= ack then [] else [Sent(rest[0].seqNum, rest[0].data)])
            + Kept(EntriesOf(rest[1..]), ack)
  {
    assert EntriesOf(rest)[1..] == EntriesOf(rest[1..]);
  }

  lemma EntriesOfAppend(nodes: seq<OutstandingSegment>, n: OutstandingSegment)
    ensures EntriesOf(nodes + [n]) == EntriesOf(nodes) + [Sent(n.seqNum, n.data)]
  {
    if nodes != [] {
      assert (nodes + [n])[1..] == nodes[1..] + [n];
      EntriesOfAppend(nodes[1..], n);
    }
  }
}
