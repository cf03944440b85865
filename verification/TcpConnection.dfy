/**
  The endpoint of net/tcp.c as a state machine over values: one socket opened with tcp_connect,
  the segments it is handed (past the checksum gate) and the calls of its user.
 */
module TcpConnection {
  import opened CTypes

  const BUFFER_SIZE := 8192
  const MSS := 1460

  const FIN: bv8 := 0x01
  const SYN: bv8 := 0x02
  const RST: bv8 := 0x04
  const PSH: bv8 := 0x08
  const ACK: bv8 := 0x10

  // TCP_LISTEN belongs to passive sockets and is not part of the model.
  datatype State =
    | Closed | SynSent | SynReceived | Established | CloseWait
    | LastAck | FinWait1 | FinWait2 | Closing | TimeWait

  /** An entry of the outstanding table: a segment sent and not yet acknowledged. */
  datatype Sent = Sent(seqNum: Word32, data: seq<Byte>)

  /** `store` lists the outstanding segments newest first, as the linked list does. */
  datatype Sock = Sock(state: State, sendSeq: Word32, recvSeq: Word32, sendAck: Word32, window: Word16,
                       sendQ: seq<Byte>, recvQ: seq<Byte>, store: seq<Sent>)

  /** A received segment: decoded header fields and all its bytes, header included. */
  datatype Segment = Segment(seqNum: Word32, ackNum: Word32, offsetByte: Byte, flags: bv8, window: Word16,
                             bytes: seq<Byte>)

  /** Whether kmalloc gives memory for a packet, and for its entry in the outstanding table. */
  datatype Alloc = Alloc(packet: bool, entry: bool)

  predicate Has(flags: bv8, mask: bv8) {
    flags & mask != 0
  }

  /** The header length in bytes: the upper four bits of its byte, in words of four. */
  function DataOffset(g: Segment): (n: nat)
    ensures n <= 60
  {
    g.offsetByte / 16 * 4
  }

  /** The segment length, kept in 16 bits; the data length is a 64-bit difference and can wrap. */
  function TcpLen(g: Segment): Word16 {
    |g.bytes| % TWO16
  }

  function DataLen(g: Segment): Word {
    Wrap64(TcpLen(g) - DataOffset(g))
  }

  function Payload(g: Segment): seq<Byte> {
    if DataOffset(g) <= TcpLen(g) then g.bytes[DataOffset(g)..TcpLen(g)] else []
  }

  // ---------------------------------------------------------------------------
  // Sending
  // ---------------------------------------------------------------------------

  /** tcp_send_segment: the new state, and false if there was no memory for the packet. */
  function Transmit(s: Sock, flags: bv8, data: seq<Byte>, a: Alloc): (r: (Sock, bool))
    ensures !r.1 ==> r.0 == s
  {
    if !a.packet then (s, false)
    else if Has(flags, PSH | SYN | FIN) && a.entry then (s.(store := [Sent(s.sendSeq, data)] + s.store), true)
    else (s, true)
  }

  predicate WindowFull(s: Sock) {
    Wrap32(s.sendSeq - s.sendAck) >= s.window
  }

  /** The loop of tcp_send from byte `sent` on; `alloc(k)` is the memory its k-th segment gets. */
  function SendLoop(s: Sock, data: seq<Byte>, sent: nat, alloc: nat -> Alloc, k: nat): (r: (Sock, nat))
    requires sent <= |data|
    ensures sent <= r.1 <= |data|
    decreases |data| - sent
  {
    if sent == |data| then (s, sent)
    else
      var chunk := if |data| - sent < MSS then |data| - sent else MSS;
      var (s', ok) := Transmit(s, PSH | ACK, data[sent..sent + chunk], alloc(k));
      if WindowFull(s) || !ok then (s, sent)
      else SendLoop(s'.(sendSeq := Wrap32(s.sendSeq + chunk)), data, sent + chunk, alloc, k + 1)
  }

  /** tcp_send: the new state and the count returned, or -1. */
  function UserSend(s: Sock, data: seq<Byte>, alloc: nat -> Alloc): (Sock, int) {
    if s.state != Established || |s.sendQ| + |data| > BUFFER_SIZE then (s, -1)
    else
      var (s', n) := SendLoop(s.(sendQ := s.sendQ + data), data, 0, alloc, 0);
      (s', n as int)
  }

  /** tcp_dequeue_segment: sequence numbers are added in 64 bits, so without wrapping. */
  function Kept(store: seq<Sent>, ack: Word32): seq<Sent> {
    if store == [] then []
    else if store[0].seqNum + |store[0].data| <= ack then Kept(store[1..], ack)
    else [store[0]] + Kept(store[1..], ack)
  }

  // ---------------------------------------------------------------------------
  // Receiving
  // ---------------------------------------------------------------------------

  /** The state switch of tcp_handle_packet. */
  function Switch(s: Sock, g: Segment, a: Alloc): Sock {
    match s.state
    case SynSent =>
      if !Has(g.flags, SYN) then s
      else if Has(g.flags, ACK) then
        s.(recvSeq := Wrap32(g.seqNum + 1), sendSeq := g.ackNum, state := Established)
      else
        var s1 := Transmit(s.(recvSeq := Wrap32(g.seqNum + 1)), SYN | ACK, [], a).0;
        s1.(sendSeq := Wrap32(s.sendSeq + 1), state := SynReceived)
    case SynReceived =>
      if Has(g.flags, ACK) then s.(state := Established) else s
    case Established =>
      if Has(g.flags, FIN) then
        Transmit(s.(recvSeq := Wrap32(g.seqNum + 1), state := CloseWait), FIN | ACK, [], a).0.(state := LastAck)
      else if Has(g.flags, RST) then s.(state := Closed)
      else if DataLen(g) > 0 && g.seqNum == s.recvSeq then
        if DataLen(g) <= BUFFER_SIZE - |s.recvQ| then
          s.(recvQ := s.recvQ + Payload(g), recvSeq := Wrap32(s.recvSeq + DataLen(g)))
        else s
      else if Has(g.flags, ACK) then
        s.(store := Kept(s.store, g.ackNum), sendAck := g.ackNum)
      else s
    case FinWait1 =>
      if Has(g.flags, ACK) then s.(state := FinWait2)
      else if Has(g.flags, FIN) then s.(recvSeq := Wrap32(g.seqNum + 1), state := Closing)
      else s
    case FinWait2 =>
      if Has(g.flags, FIN) then s.(recvSeq := Wrap32(g.seqNum + 1), state := TimeWait) else s
    case Closing => if Has(g.flags, ACK) then s.(state := TimeWait) else s
    case CloseWait => if Has(g.flags, ACK) then s.(state := Closed) else s
    case LastAck => if Has(g.flags, ACK) then s.(state := Closed) else s
    case TimeWait => s
    case Closed => s
  }

  /** tcp_handle_packet for a matching socket, after the checksum gate. */
  function Handle(s: Sock, g: Segment, a: Alloc): Sock {
    Switch(s, g, a).(window := g.window)
  }

  /** tcp_connect on a fresh socket. */
  function Connect(s: Sock, isn: Word32, a: Alloc): Sock {
    var (s1, ok) := Transmit(s.(sendSeq := isn, recvSeq := 0), SYN, [], a);
    if ok then s1.(state := SynSent) else s1
  }

  function UserRecv(s: Sock, len: nat): (Sock, seq<Byte>) {
    var n := if len < |s.recvQ| then len else |s.recvQ|;
    (s.(recvQ := s.recvQ[n..]), s.recvQ[..n])
  }

  // ---------------------------------------------------------------------------
  // Runs
  // ---------------------------------------------------------------------------

  datatype Event =
    | Arrive(g: Segment, a: Alloc)
    | Send(data: seq<Byte>, alloc: nat -> Alloc)
    | Recv(len: nat)

  /** A socket with its history: bytes given to the user, bytes put on the wire, highest ACK taken. */
  datatype Trace = Trace(s: Sock, received: seq<Byte>, sent: seq<Byte>, highAck: nat)

  /** The segment reaches the branch of the switch that processes an acknowledgement. */
  predicate TakesAck(s: Sock, g: Segment) {
    && s.state == Established && !Has(g.flags, FIN) && !Has(g.flags, RST)
    && !(DataLen(g) > 0 && g.seqNum == s.recvSeq) && Has(g.flags, ACK)
  }

  function Happen(t: Trace, e: Event): Trace {
    match e
    case Arrive(g, a) =>
      t.(s := Handle(t.s, g, a), highAck := if TakesAck(t.s, g) && g.ackNum > t.highAck then g.ackNum else t.highAck)
    case Send(data, alloc) =>
      var (s', r) := UserSend(t.s, data, alloc);
      t.(s := s', sent := if r >= 0 then t.sent + data[..r] else t.sent)
    case Recv(len) =>
      var (s', bytes) := UserRecv(t.s, len);
      t.(s := s', received := t.received + bytes)
  }

  function Run(t: Trace, events: seq<Event>): Trace {
    if |events| == 0 then t else Happen(Run(t, events[..|events| - 1]), events[|events| - 1])
  }

  // ---------------------------------------------------------------------------
  // In-order, exactly-once delivery
  // ---------------------------------------------------------------------------

  /**
    A segment of a peer whose stream is S and whose first data byte has number `start`: its SYN
    comes just before that byte, and its data are cut from S where its sequence number says.
   */
  ghost predicate FromPeer(S: seq<Byte>, start: Word32, g: Segment) {
    && (Has(g.flags, SYN) ==> Wrap32(g.seqNum + 1) == start)
    && (Payload(g) != [] ==> exists offset: nat :: CutAt(S, start, g, offset))
  }

  ghost predicate CutAt(S: seq<Byte>, start: Word32, g: Segment, offset: nat) {
    && offset + |Payload(g)| <= |S|
    && g.seqNum == Wrap32(start + offset)
    && Payload(g) == S[offset..offset + |Payload(g)|]
  }

  /** What the user got, followed by what is buffered for it. */
  function Delivered(t: Trace): seq<Byte> {
    t.received + t.s.recvQ
  }

  ghost predicate InOrder(S: seq<Byte>, start: Word32, t: Trace) {
    && Delivered(t) <= S
    && |t.s.recvQ| <= BUFFER_SIZE
    && (t.s.state == SynSent || t.s.state == SynReceived ==> Delivered(t) == [])
    && (t.s.state == SynReceived ==> t.s.recvSeq == start)
    && (t.s.state == Established ==> t.s.recvSeq == Wrap32(start + |Delivered(t)|))
  }

  /** A stream shorter than 2^32 bytes gives each of its bytes a number of its own. */
  lemma OffsetOfNumber(S: seq<Byte>, start: Word32, i: nat, j: nat)
    requires i <= |S| < TWO32 && j <= |S| && Wrap32(start + i) == Wrap32(start + j)
    ensures i == j
  {
    assert (start + i) - (start + j) == i - j;
    assert (start + i) / TWO32 * TWO32 + Wrap32(start + i) == start + i;
    assert (start + j) / TWO32 * TWO32 + Wrap32(start + j) == start + j;
  }

  lemma PayloadLength(g: Segment)
    requires DataLen(g) <= BUFFER_SIZE
    ensures DataOffset(g) <= TcpLen(g) <= |g.bytes| && |Payload(g)| == DataLen(g) == TcpLen(g) - DataOffset(g)
  {
    assert DataOffset(g) > TcpLen(g) ==> DataLen(g) == TWO64 + TcpLen(g) - DataOffset(g);
  }

  lemma AcceptInOrder(S: seq<Byte>, start: Word32, t: Trace, g: Segment, a: Alloc)
    requires |S| < TWO32 && InOrder(S, start, t) && FromPeer(S, start, g)
    requires t.s.state == Established && !Has(g.flags, FIN) && !Has(g.flags, RST)
    requires DataLen(g) > 0 && g.seqNum == t.s.recvSeq && DataLen(g) <= BUFFER_SIZE - |t.s.recvQ|
    ensures InOrder(S, start, Happen(t, Arrive(g, a)))
  {
    PayloadLength(g);
    hide Payload, DataLen, Wrap32, Has;
    var offset: nat :| CutAt(S, start, g, offset);
    OffsetOfNumber(S, start, offset, |Delivered(t)|);
    var t' := Happen(t, Arrive(g, a));
    assert Delivered(t') == Delivered(t) + Payload(g);
    assert S[..offset] + S[offset..offset + |Payload(g)|] == S[..offset + |Payload(g)|];
    WrapAdds(start + offset, DataLen(g));
  }

  lemma NumberIsWrapped(x: Word32)
    ensures Wrap32(x) == x && x + 0 == x
  {
  }

  lemma WrapAdds(x: int, y: int)
    ensures Wrap32(Wrap32(x) + y) == Wrap32(x + y)
  {
  }

  lemma SendLoopKeepsReceiver(s: Sock, data: seq<Byte>, sent: nat, alloc: nat -> Alloc, k: nat)
    requires sent <= |data|
    ensures var s' := SendLoop(s, data, sent, alloc, k).0;
            s'.state == s.state && s'.recvSeq == s.recvSeq && s'.recvQ == s.recvQ && s'.sendQ == s.sendQ
            && s'.sendAck == s.sendAck && s'.window == s.window
    decreases |data| - sent
  {
  }

  lemma SendKeepsInOrder(S: seq<Byte>, start: Word32, t: Trace, data: seq<Byte>, alloc: nat -> Alloc)
    requires |S| < TWO32 && InOrder(S, start, t)
    ensures InOrder(S, start, Happen(t, Send(data, alloc)))
  {
    hide Payload, DataLen, Wrap32, CutAt;
    if t.s.state == Established && |t.s.sendQ| + |data| <= BUFFER_SIZE {
      SendLoopKeepsReceiver(t.s.(sendQ := t.s.sendQ + data), data, 0, alloc, 0);
    }
    assert Delivered(Happen(t, Send(data, alloc))) == Delivered(t);
  }

  lemma RecvKeepsInOrder(S: seq<Byte>, start: Word32, t: Trace, len: nat)
    requires |S| < TWO32 && InOrder(S, start, t)
    ensures InOrder(S, start, Happen(t, Recv(len)))
  {
    hide Payload, DataLen, Wrap32, CutAt;
    var n := if len < |t.s.recvQ| then len else |t.s.recvQ|;
    assert t.s.recvQ == t.s.recvQ[..n] + t.s.recvQ[n..];
    assert Delivered(Happen(t, Recv(len))) == Delivered(t);
  }

  lemma EventKeepsInOrder(S: seq<Byte>, start: Word32, t: Trace, e: Event)
    requires |S| < TWO32 && InOrder(S, start, t)
    requires e.Arrive? ==> FromPeer(S, start, e.g)
    ensures InOrder(S, start, Happen(t, e))
  {
    hide Payload, DataLen, Wrap32, CutAt;
    match e
    case Arrive(g, a) =>
      NumberIsWrapped(start);
      if t.s.state == Established && !Has(g.flags, FIN) && !Has(g.flags, RST)
         && DataLen(g) > 0 && g.seqNum == t.s.recvSeq && DataLen(g) <= BUFFER_SIZE - |t.s.recvQ| {
        AcceptInOrder(S, start, t, g, a);
      } else {
        assert Delivered(Happen(t, e)) == Delivered(t);
      }
    case Send(data, alloc) => SendKeepsInOrder(S, start, t, data, alloc);
    case Recv(len) => RecvKeepsInOrder(S, start, t, len);
  }

  /**
    In any run after tcp_connect, whatever is lost, repeated or reordered on the way, the bytes
    the user received followed by the bytes buffered are a prefix of the peer's stream, and while
    the connection is established `recv_seq` is the number of the next byte of the stream.
   */
  lemma {:induction false} DeliveryIsInOrder(S: seq<Byte>, start: Word32, t: Trace, events: seq<Event>)
    requires |S| < TWO32
    requires t.s.state == SynSent && t.received == [] && t.s.recvQ == []
    requires forall i :: 0 <= i < |events| && events[i].Arrive? ==>
      FromPeer(S, start, events[i].g)
    ensures InOrder(S, start, Run(t, events))
  {
    if |events| > 0 {
      DeliveryIsInOrder(S, start, t, events[..|events| - 1]);
      EventKeepsInOrder(S, start, Run(t, events[..|events| - 1]), events[|events| - 1]);
    }
  }

  // ---------------------------------------------------------------------------
  // Retention of unacknowledged data
  // ---------------------------------------------------------------------------

  /** The data of the outstanding segments, oldest first. */
  function Retained(store: seq<Sent>): seq<Byte> {
    if store == [] then [] else Retained(store[1..]) + store[0].data
  }

  /**
    Read newest first, the data segments of the store lie back to back from `hi` down to `lo`,
    and each holds the bytes of `sent` (whose first byte has number `base`) at its place.
   */
  ghost predicate BackToBack(store: seq<Sent>, lo: nat, hi: nat, base: nat, sent: seq<Byte>)
    requires base <= hi <= base + |sent|
  {
    if store == [] then lo == hi
    else
      var e := store[0];
      if e.data == [] then BackToBack(store[1..], lo, hi, base, sent)
      else
        && base <= e.seqNum && e.seqNum + |e.data| == hi
        && e.data == sent[e.seqNum - base..hi - base]
        && BackToBack(store[1..], lo, e.seqNum, base, sent)
  }

  lemma {:induction false} BackToBackRetains(store: seq<Sent>, lo: nat, hi: nat, base: nat, sent: seq<Byte>)
    requires base <= hi <= base + |sent| && BackToBack(store, lo, hi, base, sent)
    ensures base <= lo <= hi ==> Retained(store) == sent[lo - base..hi - base]
    ensures lo <= hi
  {
    if store != [] {
      var e := store[0];
      if e.data == [] {
        BackToBackRetains(store[1..], lo, hi, base, sent);
        assert Retained(store) == Retained(store[1..]) + [];
      } else {
        BackToBackRetains(store[1..], lo, e.seqNum, base, sent);
        hide BackToBack;
        if base <= lo {
          assert sent[lo - base..e.seqNum - base] + sent[e.seqNum - base..hi - base] == sent[lo - base..hi - base];
        }
      }
    }
  }

  /** A new segment at the end keeps the chain, also when more has been sent since. */
  lemma {:induction false} BackToBackExtends(store: seq<Sent>, lo: nat, hi: nat, base: nat, sent: seq<Byte>,
                                             more: seq<Byte>)
    requires base <= hi <= base + |sent| && BackToBack(store, lo, hi, base, sent)
    ensures BackToBack(store, lo, hi, base, sent + more)
  {
    if store != [] {
      var e := store[0];
      if e.data == [] {
        BackToBackExtends(store[1..], lo, hi, base, sent, more);
      } else {
        BackToBackExtends(store[1..], lo, e.seqNum, base, sent, more);
        assert (sent + more)[e.seqNum - base..hi - base] == sent[e.seqNum - base..hi - base];
      }
    }
  }

  /** An acknowledgement at or above the end leaves only segments without data. */
  lemma {:induction false} AllAcknowledged(store: seq<Sent>, lo: nat, hi: nat, base: nat, sent: seq<Byte>, ack: Word32,
                                           top: nat)
    requires base <= hi <= top <= base + |sent| && BackToBack(store, lo, hi, base, sent) && hi <= ack
    ensures BackToBack(Kept(store, ack), top, top, base, sent)
  {
    if store != [] {
      var e := store[0];
      if e.data == [] {
        AllAcknowledged(store[1..], lo, hi, base, sent, ack, top);
        if e.seqNum > ack {
          assert Kept(store, ack)[1..] == Kept(store[1..], ack);
        }
      } else {
        AllAcknowledged(store[1..], lo, e.seqNum, base, sent, ack, top);
      }
    }
  }

  /** tcp_dequeue_segment removes acknowledged data from the old end, and nothing above the number acknowledged. */
  lemma {:induction false} KeptIsBackToBack(store: seq<Sent>, lo: nat, hi: nat, base: nat, sent: seq<Byte>, ack: Word32)
    returns (lo': nat)
    requires base <= hi <= base + |sent| && BackToBack(store, lo, hi, base, sent)
    ensures BackToBack(Kept(store, ack), lo', hi, base, sent)
    ensures lo <= lo' && (lo' == lo || lo' <= ack)
  {
    lo' := lo;
    BackToBackRetains(store, lo, hi, base, sent);
    if store != [] {
      var e := store[0];
      if e.data == [] {
        lo' := KeptIsBackToBack(store[1..], lo, hi, base, sent, ack);
        if e.seqNum > ack {
          assert Kept(store, ack)[1..] == Kept(store[1..], ack);
        }
      } else if hi <= ack {
        AllAcknowledged(store, lo, hi, base, sent, ack, hi);
        lo' := hi;
      } else {
        lo' := KeptIsBackToBack(store[1..], lo, e.seqNum, base, sent, ack);
        assert Kept(store, ack)[1..] == Kept(store[1..], ack);
      }
    }
  }

  /**
    What the endpoint keeps for retransmission: the bytes sent from some number `lo` on, where
    everything below `lo` has been acknowledged (or lies before the connection's first byte).
   */
  ghost predicate Retains(t: Trace, base: nat, lo: nat) {
    && base <= lo <= base + |t.sent|
    && (lo == base || lo <= t.highAck)
    && BackToBack(t.s.store, lo, base + |t.sent|, base, t.sent)
  }

  ghost predicate RetainsUnacked(t: Trace, base: nat) {
    && base + BUFFER_SIZE < TWO32
    && t.s.state != SynSent && t.s.state != SynReceived
    && t.s.sendSeq == base + |t.sent| && |t.sent| <= |t.s.sendQ| <= BUFFER_SIZE
    && exists lo: nat :: Retains(t, base, lo)
  }

  ghost predicate NoData(store: seq<Sent>) {
    forall i :: 0 <= i < |store| ==> store[i].data == []
  }

  ghost predicate EntriesAllocated(e: Event) {
    e.Send? ==> forall k: nat :: e.alloc(k).entry
  }

  /** Which of the segments sent enter the outstanding table. */
  lemma WhatIsStored()
    ensures Has(PSH | ACK, PSH | SYN | FIN) && Has(SYN | ACK, PSH | SYN | FIN)
    ensures Has(FIN | ACK, PSH | SYN | FIN) && !Has(ACK, PSH | SYN | FIN)
  {
  }

  lemma {:induction false} SendLoopRetains(t: Trace, base: nat, lo: nat, data: seq<Byte>, done: nat,
                                           alloc: nat -> Alloc, k: nat)
    requires done <= |data| && base + |t.sent| + |data| - done < TWO32
    requires Retains(t, base, lo) && t.s.sendSeq == base + |t.sent|
    requires forall k: nat :: alloc(k).entry
    ensures var (s', n) := SendLoop(t.s, data, done, alloc, k);
            var t' := t.(s := s', sent := t.sent + data[done..n]);
            Retains(t', base, lo) && s'.sendSeq == base + |t'.sent|
    decreases |data| - done
  {
    WhatIsStored();
    hide WindowFull, Has, Retains, Wrap32;
    assert t.sent + data[done..done] == t.sent;
    if done < |data| {
      var chunk := if |data| - done < MSS then |data| - done else MSS;
      var (s', ok) := Transmit(t.s, PSH | ACK, data[done..done + chunk], alloc(k));
      if !WindowFull(t.s) && ok {
        NumberIsWrapped(t.s.sendSeq + chunk);
        var t1 := t.(s := s'.(sendSeq := Wrap32(t.s.sendSeq + chunk)), sent := t.sent + data[done..done + chunk]);
        OneSegmentRetained(t, t1, base, lo, data[done..done + chunk]);
        SendLoopRetains(t1, base, lo, data, done + chunk, alloc, k + 1);
        var (s2, n) := SendLoop(t1.s, data, done + chunk, alloc, k + 1);
        assert SendLoop(t.s, data, done, alloc, k) == (s2, n);
        assert data[done..done + chunk] + data[done + chunk..n] == data[done..n];
        assert t1.sent + data[done + chunk..n] == t.sent + data[done..n];
      }
    }
  }

  lemma OneSegmentRetained(t: Trace, t1: Trace, base: nat, lo: nat, chunk: seq<Byte>)
    requires Retains(t, base, lo) && t.s.sendSeq == base + |t.sent| && chunk != []
    requires t1.s.store == [Sent(t.s.sendSeq, chunk)] + t.s.store && t1.sent == t.sent + chunk
        && t1.highAck == t.highAck
    ensures Retains(t1, base, lo)
  {
    BackToBackExtends(t.s.store, lo, base + |t.sent|, base, t.sent, chunk);
    assert t1.s.store[1..] == t.s.store;
    assert t1.sent[|t.sent|..] == chunk;
  }

  lemma AckRetains(t: Trace, base: nat, lo: nat, g: Segment, a: Alloc)
    requires RetainsUnacked(t, base) && Retains(t, base, lo) && TakesAck(t.s, g)
    ensures RetainsUnacked(Happen(t, Arrive(g, a)), base)
  {
    hide DataLen, Wrap32, Payload, Kept;
    var t' := Happen(t, Arrive(g, a));
    var lo' := KeptIsBackToBack(t.s.store, lo, base + |t.sent|, base, t.sent, g.ackNum);
    BackToBackRetains(t'.s.store, lo', base + |t.sent|, base, t.sent);
    assert Retains(t', base, lo');
  }

  lemma SendRetains(t: Trace, base: nat, lo: nat, data: seq<Byte>, alloc: nat -> Alloc)
    requires RetainsUnacked(t, base) && Retains(t, base, lo) && forall k: nat :: alloc(k).entry
    ensures RetainsUnacked(Happen(t, Send(data, alloc)), base)
  {
    hide SendLoop, Retains;
    var t' := Happen(t, Send(data, alloc));
    if t.s.state == Established && |t.s.sendQ| + |data| <= BUFFER_SIZE {
      var q := t.(s := t.s.(sendQ := t.s.sendQ + data));
      assert Retains(q, base, lo) by {
        QueueMayGrow(t, base, lo, data);
      }
      SendLoopKeepsReceiver(q.s, data, 0, alloc, 0);
      SendLoopRetains(q, base, lo, data, 0, alloc, 0);
      var (s', n) := SendLoop(q.s, data, 0, alloc, 0);
      assert t' == t.(s := s', sent := t.sent + data[0..n]);
      assert Retains(t', base, lo);
    }
  }

  lemma QueueMayGrow(t: Trace, base: nat, lo: nat, data: seq<Byte>)
    requires Retains(t, base, lo)
    ensures Retains(t.(s := t.s.(sendQ := t.s.sendQ + data)), base, lo)
  {
  }

  lemma EventRetains(t: Trace, base: nat, e: Event)
    requires RetainsUnacked(t, base) && EntriesAllocated(e)
    ensures RetainsUnacked(Happen(t, e), base)
  {
    var lo: nat :| Retains(t, base, lo);
    match e
    case Arrive(g, a) =>
      if TakesAck(t.s, g) {
        AckRetains(t, base, lo, g, a);
      } else {
        ArrivalRetains(t, base, lo, g, a);
      }
    case Send(data, alloc) =>
      SendRetains(t, base, lo, data, alloc);
    case Recv(len) =>
      assert Retains(Happen(t, e), base, lo);
  }

  /** Segments that carry no acknowledgement for this socket add at most an entry without data. */
  lemma ArrivalStoresNoData(s: Sock, g: Segment, a: Alloc)
    requires s.state != SynSent && s.state != SynReceived && !TakesAck(s, g)
    ensures var s' := Handle(s, g, a);
            && s'.state != SynSent && s'.state != SynReceived
            && s'.sendSeq == s.sendSeq && s'.sendQ == s.sendQ
            && (s'.store == s.store || exists n: Word32 :: s'.store == [Sent(n, [])] + s.store)
  {
    hide DataLen, Wrap32, Payload, Kept, Has;
  }

  lemma ArrivalRetains(t: Trace, base: nat, lo: nat, g: Segment, a: Alloc)
    requires RetainsUnacked(t, base) && Retains(t, base, lo) && !TakesAck(t.s, g)
    ensures RetainsUnacked(Happen(t, Arrive(g, a)), base)
  {
    hide Handle, TakesAck;
    ArrivalStoresNoData(t.s, g, a);
    var t' := Happen(t, Arrive(g, a));
    if t'.s.store != t.s.store {
      assert t'.s.store[1..] == t.s.store;
    }
    assert Retains(t', base, lo);
  }

  /**
    From the moment the connection is established, after any run of tcp_send calls and arriving
    segments in which the outstanding table gets its memory: the outstanding data, oldest first,
    are the bytes sent from some number on up to `send_seq`, and every byte before that number has
    been acknowledged. Numbers cannot wrap if the first leaves room for 8192 bytes, because
    send_buf is never drained and so bounds what a connection ever sends.
   */
  lemma UnackedDataIsRetained(t: Trace, base: nat, events: seq<Event>) returns (lo: nat)
    requires base + BUFFER_SIZE < TWO32
    requires t.s.state == Established && t.s.sendSeq == base
    requires t.s.sendQ == [] && t.sent == [] && NoData(t.s.store)
    requires forall i :: 0 <= i < |events| ==> EntriesAllocated(events[i])
    ensures var t' := Run(t, events);
            && base <= lo <= t'.s.sendSeq == base + |t'.sent|
            && (lo == base || lo <= t'.highAck)
            && Retained(t'.s.store) == t'.sent[lo - base..]
            && BackToBack(t'.s.store, lo, t'.s.sendSeq, base, t'.sent)
            && |t'.sent| <= BUFFER_SIZE
  {
    RunRetains(t, base, events);
    var t' := Run(t, events);
    lo :| Retains(t', base, lo);
    BackToBackRetains(t'.s.store, lo, base + |t'.sent|, base, t'.sent);
  }

  lemma {:induction false} NoDataIsBackToBack(store: seq<Sent>, base: nat, sent: seq<Byte>)
    requires NoData(store)
    ensures BackToBack(store, base, base, base, sent)
  {
    if store != [] {
      NoDataIsBackToBack(store[1..], base, sent);
    }
  }

  lemma {:induction false} RunRetains(t: Trace, base: nat, events: seq<Event>)
    requires base + BUFFER_SIZE < TWO32
    requires t.s.state == Established && t.s.sendSeq == base
    requires t.s.sendQ == [] && t.sent == [] && NoData(t.s.store)
    requires forall i :: 0 <= i < |events| ==> EntriesAllocated(events[i])
    ensures RetainsUnacked(Run(t, events), base)
  {
    if |events| == 0 {
      NoDataIsBackToBack(t.s.store, base, t.sent);
      assert Retains(t, base, base);
    } else {
      RunRetains(t, base, events[..|events| - 1]);
      EventRetains(Run(t, events[..|events| - 1]), base, events[|events| - 1]);
    }
  }

  // ---------------------------------------------------------------------------
  // Acknowledged data leave the store
  // ---------------------------------------------------------------------------

  /** Every acknowledgement taken in the run is for a number that had been sent by then. */
  ghost predicate AcksWereSent(t: Trace, events: seq<Event>) {
    |events| == 0 ||
    var before, e := Run(t, events[..|events| - 1]), events[|events| - 1];
    && AcksWereSent(t, events[..|events| - 1])
    && (e.Arrive? && TakesAck(before.s, e.g) ==> e.g.ackNum <= before.s.sendSeq)
  }

  /** No data segment of the store is acknowledged in full. */
  ghost predicate AllAbove(store: seq<Sent>, ack: nat) {
    forall i :: 0 <= i < |store| && store[i].data != [] ==> store[i].seqNum + |store[i].data| > ack
  }

  /** What tcp_dequeue_segment keeps lies above the number acknowledged, and was there before. */
  lemma {:induction false} KeptIsAbove(store: seq<Sent>, ack: Word32, low: nat)
    requires AllAbove(store, low)
    ensures AllAbove(Kept(store, ack), ack) && AllAbove(Kept(store, ack), low)
  {
    if store != [] {
      assert AllAbove(store[1..], low) by {
        assert forall i :: 0 <= i < |store[1..]| ==> store[1..][i] == store[i + 1];
      }
      KeptIsAbove(store[1..], ack, low);
      assert store[0].data != [] ==> store[0].seqNum + |store[0].data| > low;
    }
  }

  ghost predicate NothingStale(t: Trace) {
    AllAbove(t.s.store, t.highAck) && t.highAck <= t.s.sendSeq
  }

  lemma {:induction false} SendLoopAbove(s: Sock, data: seq<Byte>, done: nat, alloc: nat -> Alloc, k: nat, low: nat)
    requires done <= |data| && s.sendSeq as int + |data| - done < TWO32 && low <= s.sendSeq && AllAbove(s.store, low)
    ensures var s' := SendLoop(s, data, done, alloc, k).0; AllAbove(s'.store, low) && low <= s'.sendSeq
    decreases |data| - done
  {
    hide WindowFull, Has, Wrap32;
    if done < |data| {
      var chunk := if |data| - done < MSS then |data| - done else MSS;
      var (s', ok) := Transmit(s, PSH | ACK, data[done..done + chunk], alloc(k));
      if !WindowFull(s) && ok {
        NumberIsWrapped(s.sendSeq + chunk);
        var s1 := s'.(sendSeq := Wrap32(s.sendSeq + chunk));
        assert s1.store == s.store
            || (s1.store[0] == Sent(s.sendSeq, data[done..done + chunk]) && s1.store[1..] == s.store);
        assert forall i :: 1 <= i < |s1.store| ==> s1.store[i] == s1.store[1..][i - 1];
        SendLoopAbove(s1, data, done + chunk, alloc, k + 1, low);
      }
    }
  }

  lemma EventKeepsNothingStale(t: Trace, base: nat, e: Event)
    requires RetainsUnacked(t, base) && NothingStale(t)
    requires e.Arrive? && TakesAck(t.s, e.g) ==> e.g.ackNum <= t.s.sendSeq
    ensures NothingStale(Happen(t, e))
  {
    hide DataLen, Wrap32, Payload, Kept, SendLoop, WindowFull;
    var t' := Happen(t, e);
    match e
    case Arrive(g, a) =>
      if TakesAck(t.s, g) {
        KeptIsAbove(t.s.store, g.ackNum, t.highAck);
      } else {
        assert t'.s.store == t.s.store || (t'.s.store[0].data == [] && t'.s.store[1..] == t.s.store);
        assert forall i :: 1 <= i < |t'.s.store| ==> t'.s.store[i] == t'.s.store[1..][i - 1];
      }
    case Send(data, alloc) =>
      if t.s.state == Established && |t.s.sendQ| + |data| <= BUFFER_SIZE {
        SendLoopAbove(t.s.(sendQ := t.s.sendQ + data), data, 0, alloc, 0, t.highAck);
      }
    case Recv(len) =>
  }

  /**
    The other half: over every run from the moment the connection is established in which no
    acknowledgement is for numbers not yet sent, every data segment still in the store ends above
    the highest number acknowledged.
   */
  lemma {:induction false} AckedDataIsReleased(t: Trace, base: nat, events: seq<Event>)
    requires base + BUFFER_SIZE < TWO32
    requires t.s.state == Established && t.s.sendSeq == base && t.highAck <= base
    requires t.s.sendQ == [] && t.sent == [] && NoData(t.s.store)
    requires forall i :: 0 <= i < |events| ==> EntriesAllocated(events[i])
    requires AcksWereSent(t, events)
    ensures AllAbove(Run(t, events).s.store, Run(t, events).highAck)
    ensures NothingStale(Run(t, events))
  {
    if |events| > 0 {
      var before := events[..|events| - 1];
      AckedDataIsReleased(t, base, before);
      RunRetains(t, base, before);
      EventKeepsNothingStale(Run(t, before), base, events[|events| - 1]);
    }
  }

  // ---------------------------------------------------------------------------
  // From tcp_connect on
  // ---------------------------------------------------------------------------

  /** Nothing has been queued, sent or acknowledged, and the store holds at most segments without data. */
  ghost predicate Unused(t: Trace) {
    t.s.sendQ == [] && t.sent == [] && t.highAck == 0 && NoData(t.s.store)
  }

  /** The state after tcp_connect on a fresh socket, whatever memory it got. */
  lemma ConnectIsUnused(isn: Word32, window: Word16, a: Alloc)
    ensures var s := Connect(Sock(Closed, 0, 0, 0, window, [], [], []), isn, a);
            && Unused(Trace(s, [], [], 0)) && (s.state == SynSent || s.state == Closed)
  {
  }

  /** Until the connection is established no event puts data into the socket. */
  lemma OpeningStaysUnused(t: Trace, e: Event)
    requires Unused(t) && t.s.state != Established
    ensures Unused(Happen(t, e))
  {
    hide DataLen, Wrap32, Payload, Kept, SendLoop, Has;
    var s, s' := t.s.store, Happen(t, e).s.store;
    assert s' == s || (s'[0].data == [] && s'[1..] == s);
    assert forall i :: 1 <= i < |s'| ==> s'[i] == s'[1..][i - 1];
  }

  /** A run from tcp_connect that gets established with its last event, and not before, has stored no data yet. */
  lemma {:induction false} EstablishedIsUnused(t: Trace, events: seq<Event>)
    requires Unused(t)
    requires forall n :: 0 <= n < |events| ==> Run(t, events[..n]).s.state != Established
    ensures Unused(Run(t, events))
  {
    if |events| > 0 {
      var before := events[..|events| - 1];
      forall n | 0 <= n < |before| ensures Run(t, before[..n]).s.state != Established {
        assert before[..n] == events[..n];
      }
      EstablishedIsUnused(t, before);
      OpeningStaysUnused(Run(t, before), events[|events| - 1]);
    }
  }

  /**
    Together, for whole connections: whatever `opening` establishes the connection, after any further
    `events` the store holds exactly a tail of the bytes sent, from an acknowledged number or the first
    number on, and, when no acknowledgement was for numbers not yet sent, no segment acknowledged in full.
   */
  lemma StoreSinceConnect(isn: Word32, window: Word16, a: Alloc, opening: seq<Event>, events: seq<Event>)
      returns (lo: nat)
    requires var t := Trace(Connect(Sock(Closed, 0, 0, 0, window, [], [], []), isn, a), [], [], 0);
             && (forall n :: 0 <= n < |opening| ==> Run(t, opening[..n]).s.state != Established)
             && Run(t, opening).s.state == Established
             && Run(t, opening).s.sendSeq + BUFFER_SIZE < TWO32
    requires forall i :: 0 <= i < |events| ==> EntriesAllocated(events[i])
    ensures var t := Trace(Connect(Sock(Closed, 0, 0, 0, window, [], [], []), isn, a), [], [], 0);
            var first := Run(t, opening);
            var base, last := first.s.sendSeq, Run(first, events);
            && base <= lo <= last.s.sendSeq == base + |last.sent|
            && (lo == base || lo <= last.highAck)
            && Retained(last.s.store) == last.sent[lo - base..]
            && (AcksWereSent(first, events) ==> AllAbove(last.s.store, last.highAck))
  {
    var t := Trace(Connect(Sock(Closed, 0, 0, 0, window, [], [], []), isn, a), [], [], 0);
    var first := Run(t, opening);
    ConnectIsUnused(isn, window, a);
    EstablishedIsUnused(t, opening);
    lo := UnackedDataIsRetained(first, first.s.sendSeq, events);
    if AcksWereSent(first, events) {
      AckedDataIsReleased(first, first.s.sendSeq, events);
    }
  }

  // ---------------------------------------------------------------------------
  // Sequence numbers that wrap
  // ---------------------------------------------------------------------------

  /**
    tcp_dequeue_segment is a filter: an entry stays exactly when its end, added up without wrapping,
    exceeds the number.
   */
  lemma {:induction false} KeptIff(store: seq<Sent>, ack: Word32, e: Sent)
    ensures e in Kept(store, ack) <==> e in store && e.seqNum + |e.data| > ack
  {
    if store != [] {
      KeptIff(store[1..], ack, e);
      assert e in store <==> e == store[0] || e in store[1..];
    }
  }

  /**
    Count positions in the connection without wrapping: a segment runs from `first` to `end`, and all
    below `acked` is acknowledged, within 2^32 of the end. Then tcp_dequeue_segment removes the segment just
    when it is acknowledged if and only if first byte and acknowledgement lie between the same two wraps of
    the numbers, or the acknowledgement has wrapped but lies inside the segment.
   */
  lemma RemovalIsRightIff(store: seq<Sent>, first: nat, data: seq<Byte>, acked: nat)
    requires data != [] && Sent(Wrap32(first), data) in store
    requires -TWO32 <= acked - (first + |data|) < TWO32
    ensures var end := first + |data|;
            (Sent(Wrap32(first), data) !in Kept(store, Wrap32(acked)) <==> end <= acked)
            <==> first / TWO32 == acked / TWO32 || (first / TWO32 < acked / TWO32 && acked < end)
  {
    KeptIff(store, Wrap32(acked), Sent(Wrap32(first), data));
    var f, a := first / TWO32, acked / TWO32;
    assert first == f * TWO32 + Wrap32(first) && acked == a * TWO32 + Wrap32(acked);
    WrapsApart(f, a, first, acked);
  }

  lemma WrapsApart(f: nat, a: nat, first: nat, acked: nat)
    requires f == first / TWO32 && a == acked / TWO32
    ensures f < a ==> f * TWO32 + TWO32 <= a * TWO32
    ensures a < f ==> a * TWO32 + TWO32 <= f * TWO32
  {
  }

  /** An established connection at this number, with nothing in flight. */
  function Idle(sendSeq: Word32): Sock {
    Sock(Established, sendSeq, 0, sendSeq, 4096, [], [], [])
  }

  /** A segment that only acknowledges. */
  function BareAck(ack: Word32): Segment {
    Segment(0, ack, 0x50, ACK, 4096, seq(20, _ => 0))
  }

  /** What tcp_send and one arriving acknowledgement leave of it. */
  function SendThenAck(sendSeq: Word32, data: seq<Byte>, ack: Word32, alloc: nat -> Alloc): Trace {
    Happen(Happen(Trace(Idle(sendSeq), [], [], 0), Send(data, alloc)), Arrive(BareAck(ack), Alloc(true, true)))
  }

  lemma OneSegmentSent(sendSeq: Word32, data: seq<Byte>, alloc: nat -> Alloc)
    requires 0 < |data| <= MSS && alloc(0) == Alloc(true, true)
    ensures var (s, n) := UserSend(Idle(sendSeq), data, alloc);
            && s == Idle(sendSeq).(sendQ := data, store := [Sent(sendSeq, data)], sendSeq := Wrap32(sendSeq + |data|))
            && n == |data|
  {
    WhatIsStored();
    hide Has;
    var s := Idle(sendSeq).(sendQ := data);
    assert [] + data == data && data[0..0 + |data|] == data;
    assert [Sent(sendSeq, data)] + [] == [Sent(sendSeq, data)];
    assert Transmit(s, PSH | ACK, data, alloc(0)) == (s.(store := [Sent(sendSeq, data)]), true);
    var s1 := s.(store := [Sent(sendSeq, data)], sendSeq := Wrap32(sendSeq + |data|));
    assert SendLoop(s1, data, |data|, alloc, 1) == (s1, |data|);
    assert SendLoop(s, data, 0, alloc, 0) == (s1, |data|);
  }

  lemma AckIsTaken(sendSeq: Word32, data: seq<Byte>, ack: Word32, alloc: nat -> Alloc)
    requires 0 < |data| <= MSS && alloc(0) == Alloc(true, true)
    ensures SendThenAck(sendSeq, data, ack, alloc).s.store == Kept([Sent(sendSeq, data)], ack)
    ensures SendThenAck(sendSeq, data, ack, alloc).s.sendSeq == Wrap32(sendSeq + |data|)
  {
    AckOnly();
    OneSegmentSent(sendSeq, data, alloc);
    hide UserSend, Has, Kept;
    assert DataLen(BareAck(ack)) == 0;
  }

  lemma AckOnly()
    ensures Has(ACK, ACK) && !Has(ACK, FIN) && !Has(ACK, RST) && !Has(ACK, SYN)
  {
  }

  /** Ten bytes sent just after a wrap are dropped, unacknowledged, by an old acknowledgement from before it. */
  lemma WrappedDataIsDropped(data: seq<Byte>, alloc: nat -> Alloc)
    requires |data| == 10 && alloc(0) == Alloc(true, true)
    ensures SendThenAck(50, data, 0xFFFF_FF00, alloc).s.store == []
  {
    AckIsTaken(50, data, 0xFFFF_FF00, alloc);
  }

  /** A segment that runs across the wrap is never removed, not even by the number behind its last byte. */
  lemma WrappingDataStays(data: seq<Byte>, ack: Word32, alloc: nat -> Alloc)
    requires 256 <= |data| <= MSS && alloc(0) == Alloc(true, true)
    ensures SendThenAck(0xFFFF_FF00, data, ack, alloc).s.store == [Sent(0xFFFF_FF00, data)]
    ensures SendThenAck(0xFFFF_FF00, data, ack, alloc).s.sendSeq == |data| - 256
  {
    AckIsTaken(0xFFFF_FF00, data, ack, alloc);
  }
}
