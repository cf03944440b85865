/**
  What a connection of net/tcp.c receives: which segments are taken and what each adds, when the whole
  stream of the peer gets through, and how a connection opens and ends.
 */
module TcpDelivery {
  import opened CTypes
  import opened TcpConnection

  // ---------------------------------------------------------------------------
  // What one event delivers
  // ---------------------------------------------------------------------------

  /** A segment of `words` header words, then the data; the upper half of its offset byte counts the words. */
  ghost predicate Carries(g: Segment, words: nat, data: seq<Byte>) {
    && words < 16 && 16 * words <= g.offsetByte < 16 * words + 16
    && |g.bytes| == 4 * words + |data| < TWO16
    && g.bytes[4 * words..] == data
  }

  lemma CarriedData(g: Segment, words: nat, data: seq<Byte>)
    requires Carries(g, words, data)
    ensures Payload(g) == data && DataLen(g) == |data|
  {
    assert DataOffset(g) == 4 * words && TcpLen(g) == |g.bytes|;
  }

  /** A data segment whose bytes are the next ones of the stream, with room for them. */
  ghost predicate IsNext(S: seq<Byte>, start: Word32, t: Trace, g: Segment) {
    && t.s.state == Established && g.flags & (FIN | RST) == 0
    && Payload(g) != [] && CutAt(S, start, g, |Delivered(t)|)
    && |t.s.recvQ| + |Payload(g)| <= BUFFER_SIZE
  }

  lemma FlagsApart(flags: bv8)
    ensures flags & (FIN | RST) == 0 <==> !Has(flags, FIN) && !Has(flags, RST)
  {
  }

  lemma TooShortIsRefused(g: Segment)
    requires DataOffset(g) > TcpLen(g)
    ensures DataLen(g) > BUFFER_SIZE
  {
  }

  lemma DataLenIsPayload(g: Segment)
    ensures DataLen(g) <= BUFFER_SIZE <==> DataOffset(g) <= TcpLen(g) && |Payload(g)| <= BUFFER_SIZE
    ensures DataLen(g) <= BUFFER_SIZE ==> DataLen(g) == |Payload(g)|
    ensures DataOffset(g) > TcpLen(g) ==> Payload(g) == [] && DataLen(g) > BUFFER_SIZE
  {
    assert TcpLen(g) <= |g.bytes|;
    if DataOffset(g) <= TcpLen(g) {
      assert |Payload(g)| == TcpLen(g) - DataOffset(g) == DataLen(g);
    }
  }

  /** A segment in ESTABLISHED is buffered, all of its data, just when it is next and there is room. */
  lemma ArrivalDelivers(S: seq<Byte>, start: Word32, t: Trace, g: Segment, a: Alloc)
    requires |S| < TWO32 && InOrder(S, start, t) && FromPeer(S, start, g)
    ensures Delivered(Happen(t, Arrive(g, a))) == Delivered(t) + (if IsNext(S, start, t, g) then Payload(g) else [])
  {
    hide Payload, DataLen, Wrap32, DataOffset, TcpLen;
    DataLenIsPayload(g);
    FlagsApart(g.flags);
    var t' := Happen(t, Arrive(g, a));
    if t.s.state == Established && !Has(g.flags, FIN) && !Has(g.flags, RST) && Payload(g) != [] {
      var offset: nat :| CutAt(S, start, g, offset);
      if g.seqNum == t.s.recvSeq {
        OffsetOfNumber(S, start, offset, |Delivered(t)|);
      }
    }
    if IsNext(S, start, t, g) {
      assert t'.s.recvQ == t.s.recvQ + Payload(g);
      assert t'.received + t'.s.recvQ == (t.received + t.s.recvQ) + Payload(g);
    } else {
      assert t'.s.recvQ == t.s.recvQ && t'.received == t.received;
    }
  }

  /**
    In a run as in DeliveryIsInOrder, what the connection delivers grows by the data of a segment that
    is next and fits, and by nothing else.
   */
  lemma EventDelivers(S: seq<Byte>, start: Word32, t: Trace, e: Event)
    requires |S| < TWO32 && InOrder(S, start, t) && (e.Arrive? ==> FromPeer(S, start, e.g))
    ensures Delivered(Happen(t, e)) ==
            Delivered(t) + (if e.Arrive? && IsNext(S, start, t, e.g) then Payload(e.g) else [])
  {
    hide Payload, DataLen, Wrap32, IsNext, CutAt;
    match e
    case Arrive(g, a) => ArrivalDelivers(S, start, t, g, a);
    case Send(data, alloc) =>
      if t.s.state == Established && |t.s.sendQ| + |data| <= BUFFER_SIZE {
        SendLoopKeepsReceiver(t.s.(sendQ := t.s.sendQ + data), data, 0, alloc, 0);
      }
    case Recv(len) => RecvGives(t, len);
  }

  /** tcp_recv hands out the bytes buffered first, as many as were asked for if there are so many. */
  lemma RecvGives(t: Trace, len: nat)
    ensures var t' := Happen(t, Recv(len));
            && Delivered(t') == Delivered(t)
            && |t'.received| == |t.received| + if len < |t.s.recvQ| then len else |t.s.recvQ|
  {
    var n := if len < |t.s.recvQ| then len else |t.s.recvQ|;
    assert t.s.recvQ == t.s.recvQ[..n] + t.s.recvQ[n..];
  }

  // ---------------------------------------------------------------------------
  // The whole stream gets through
  // ---------------------------------------------------------------------------

  /** Where the peer cuts its stream S into pieces, each of at least one byte. */
  ghost predicate Cuts(S: seq<Byte>, cuts: seq<nat>) {
    && cuts != [] && cuts[0] == 0 && cuts[|cuts| - 1] == |S|
    && forall i, j :: 0 <= i < j < |cuts| ==> cuts[i] < cuts[j]
  }

  /** The segment carries piece i. */
  ghost predicate IsPiece(S: seq<Byte>, start: Word32, cuts: seq<nat>, g: Segment, i: nat)
    requires Cuts(S, cuts)
  {
    && i + 1 < |cuts|
    && g.seqNum == Wrap32(start + cuts[i]) && Payload(g) == S[cuts[i]..cuts[i + 1]]
  }

  /** No segment ends the connection, and those with data each carry a piece. */
  ghost predicate InPieces(S: seq<Byte>, start: Word32, cuts: seq<nat>, e: Event)
    requires Cuts(S, cuts)
  {
    e.Arrive? ==>
      && FromPeer(S, start, e.g) && e.g.flags & (FIN | RST) == 0
      && (Payload(e.g) != [] ==> exists i: nat :: IsPiece(S, start, cuts, e.g, i))
  }

  /** Delivered so far: the first i pieces, and no part of the next. */
  ghost predicate AtCut(S: seq<Byte>, start: Word32, cuts: seq<nat>, t: Trace, i: nat)
    requires Cuts(S, cuts)
  {
    && t.s.state == Established && InOrder(S, start, t)
    && i < |cuts| && |Delivered(t)| == cuts[i]
  }

  lemma StaysEstablished(t: Trace, e: Event)
    requires t.s.state == Established && (e.Arrive? ==> e.g.flags & (FIN | RST) == 0)
    ensures Happen(t, e).s.state == Established
  {
    hide DataLen, Payload, Wrap32, Kept;
    match e
    case Arrive(g, a) => FlagsApart(g.flags);
    case Send(data, alloc) =>
      if |t.s.sendQ| + |data| <= BUFFER_SIZE {
        SendLoopKeepsReceiver(t.s.(sendQ := t.s.sendQ + data), data, 0, alloc, 0);
      }
    case Recv(len) =>
  }

  lemma PieceLength(S: seq<Byte>, start: Word32, cuts: seq<nat>, g: Segment, i: nat)
    requires Cuts(S, cuts) && IsPiece(S, start, cuts, g, i)
    ensures cuts[i] < cuts[i + 1] <= |S| && |Payload(g)| == cuts[i + 1] - cuts[i]
  {
  }

  lemma NextIsPiece(S: seq<Byte>, start: Word32, cuts: seq<nat>, t: Trace, g: Segment, i: nat, k: nat)
    requires |S| < TWO32 && Cuts(S, cuts) && AtCut(S, start, cuts, t, i)
    requires IsNext(S, start, t, g) && IsPiece(S, start, cuts, g, k)
    ensures k == i
  {
    hide Payload, Wrap32, InOrder, Delivered;
    PieceLength(S, start, cuts, g, k);
    DeliveredIsPart(S, start, t);
    OffsetOfNumber(S, start, cuts[k], cuts[i]);
    assert cuts[k] == cuts[i];
  }

  lemma PieceIsNext(S: seq<Byte>, start: Word32, cuts: seq<nat>, t: Trace, g: Segment, i: nat)
    requires Cuts(S, cuts) && AtCut(S, start, cuts, t, i) && IsPiece(S, start, cuts, g, i)
    requires g.flags & (FIN | RST) == 0 && |t.s.recvQ| + |Payload(g)| <= BUFFER_SIZE
    ensures IsNext(S, start, t, g)
  {
    hide Payload, Wrap32, InOrder, Delivered;
    PieceLength(S, start, cuts, g, i);
    assert cuts[i] + |Payload(g)| == cuts[i + 1];
  }

  /** One event delivers the next piece in full or nothing; it is delivered if it arrives and fits. */
  lemma PieceStep(S: seq<Byte>, start: Word32, cuts: seq<nat>, t: Trace, e: Event, i: nat) returns (j: nat)
    requires |S| < TWO32 && Cuts(S, cuts) && AtCut(S, start, cuts, t, i) && InPieces(S, start, cuts, e)
    ensures i <= j <= i + 1 && AtCut(S, start, cuts, Happen(t, e), j)
    ensures e.Arrive? && IsPiece(S, start, cuts, e.g, i) && |t.s.recvQ| + |Payload(e.g)| <= BUFFER_SIZE ==> j == i + 1
  {
    hide Payload, Wrap32, InOrder, Happen, Delivered, IsNext, IsPiece, FromPeer, Cuts;
    j := i;
    EventKeepsInOrder(S, start, t, e);
    StaysEstablished(t, e);
    EventDelivers(S, start, t, e);
    if e.Arrive? && IsNext(S, start, t, e.g) {
      NextIsNotEmpty(S, start, t, e.g);
      var k: nat :| IsPiece(S, start, cuts, e.g, k);
      NextIsPiece(S, start, cuts, t, e.g, i, k);
      PieceLength(S, start, cuts, e.g, i);
      j := i + 1;
      PieceIndex(S, start, cuts, e.g, i);
    } else if e.Arrive? && IsPiece(S, start, cuts, e.g, i) && |t.s.recvQ| + |Payload(e.g)| <= BUFFER_SIZE {
      PieceIsNext(S, start, cuts, t, e.g, i);
    }
  }

  lemma NextIsNotEmpty(S: seq<Byte>, start: Word32, t: Trace, g: Segment)
    requires IsNext(S, start, t, g)
    ensures Payload(g) != []
  {
  }

  lemma PieceIndex(S: seq<Byte>, start: Word32, cuts: seq<nat>, g: Segment, i: nat)
    requires Cuts(S, cuts) && IsPiece(S, start, cuts, g, i)
    ensures i + 1 < |cuts|
  {
  }

  lemma DeliveredIsPart(S: seq<Byte>, start: Word32, t: Trace)
    requires InOrder(S, start, t)
    ensures |Delivered(t)| <= |S| && Delivered(t) == S[..|Delivered(t)|]
  {
  }

  /** Each piece arrives at some time, in the order of the stream and with room for it when it does. */
  ghost predicate AllArrive(S: seq<Byte>, start: Word32, cuts: seq<nat>, t: Trace, events: seq<Event>, at: seq<nat>)
    requires Cuts(S, cuts)
  {
    && |at| == |cuts| - 1
    && (forall i, j :: 0 <= i < j < |at| ==> at[i] < at[j])
    && (forall i :: 0 <= i < |at| ==>
          && at[i] < |events| && events[at[i]].Arrive? && IsPiece(S, start, cuts, events[at[i]].g, i)
          && |Run(t, events[..at[i]]).s.recvQ| + |Payload(events[at[i]].g)| <= BUFFER_SIZE)
  }

  lemma {:induction false} PiecesSoFar(S: seq<Byte>, start: Word32, cuts: seq<nat>, t: Trace, events: seq<Event>,
                                       at: seq<nat>, n: nat) returns (i: nat)
    requires |S| < TWO32 && Cuts(S, cuts) && AtCut(S, start, cuts, t, 0) && n <= |events|
    requires forall k :: 0 <= k < |events| ==> InPieces(S, start, cuts, events[k])
    requires AllArrive(S, start, cuts, t, events, at)
    ensures AtCut(S, start, cuts, Run(t, events[..n]), i)
    ensures forall k :: 0 <= k < |at| && at[k] < n ==> k < i
  {
    hide AtCut, InPieces, IsPiece, Payload, Happen;
    if n == 0 {
      i := 0;
    } else {
      var j := PiecesSoFar(S, start, cuts, t, events, at, n - 1);
      assert events[..n][..n - 1] == events[..n - 1];
      i := PieceStep(S, start, cuts, Run(t, events[..n - 1]), events[n - 1], j);
      forall k | 0 <= k < |at| && at[k] < n ensures k < i {
        if at[k] == n - 1 {
          assert k > 0 ==> at[k - 1] < n - 1;
        }
      }
    }
  }

  /**
    Whatever else arrives between, any number of times and in any order, once all pieces of the
    stream have arrived in order, each with room for it, the connection has delivered the whole stream;
    and a tcp_recv of 8192 bytes or more then leaves the user with all of it.
   */
  lemma StreamGetsThrough(S: seq<Byte>, start: Word32, cuts: seq<nat>, t: Trace, events: seq<Event>, at: seq<nat>,
                          len: nat)
    requires |S| < TWO32 && Cuts(S, cuts) && AtCut(S, start, cuts, t, 0)
    requires forall k :: 0 <= k < |events| ==> InPieces(S, start, cuts, events[k])
    requires AllArrive(S, start, cuts, t, events, at) && len >= BUFFER_SIZE
    ensures Delivered(Run(t, events)) == S
    ensures Run(t, events + [Recv(len)]).received == S
  {
    var i := PiecesSoFar(S, start, cuts, t, events, at, |events|);
    var u := Run(t, events);
    assert events[..|events|] == events;
    assert |at| > 0 ==> at[|at| - 1] < |events|;
    hide Run, Happen, AllArrive;
    DeliveredIsPart(S, start, u);
    RecvGives(u, len);
    assert Happen(u, Recv(len)).received == Delivered(Happen(u, Recv(len)))[..|Delivered(u)|];
    RunOneMore(t, events, Recv(len));
  }

  lemma RunOneMore(t: Trace, events: seq<Event>, e: Event)
    ensures Run(t, events + [e]) == Happen(Run(t, events), e)
  {
    assert (events + [e])[..|events|] == events;
  }

  // ---------------------------------------------------------------------------
  // Opening and ending
  // ---------------------------------------------------------------------------

  /** The flags one of which a segment has to carry to move the connection to another state. */
  function Expected(state: State): bv8 {
    match state
    case SynSent => SYN
    case Established => FIN | RST
    case FinWait1 => ACK | FIN
    case FinWait2 => FIN
    case SynReceived | Closing | CloseWait | LastAck => ACK
    case TimeWait | Closed => 0
  }

  /** The moves of the connection that segments can make. */
  const MOVES: set<(State, State)> := {
    (SynSent, Established), (SynSent, SynReceived), (SynReceived, Established), (Established, LastAck),
    (Established, Closed), (FinWait1, FinWait2), (FinWait1, Closing), (FinWait2, TimeWait), (Closing, TimeWait),
    (CloseWait, Closed), (LastAck, Closed)
  }

  /** The moves made by a SYN or a FIN, which takes a number of its own. */
  const COUNTED: set<(State, State)> := {
    (SynSent, Established), (SynSent, SynReceived), (Established, LastAck), (FinWait1, Closing), (FinWait2, TimeWait)
  }

  lemma FlagBits(flags: bv8)
    ensures Has(flags, FIN | RST) <==> Has(flags, FIN) || Has(flags, RST)
    ensures Has(flags, ACK | FIN) <==> Has(flags, ACK) || Has(flags, FIN)
    ensures !Has(flags, 0)
  {
  }

  /**
    A segment moves the connection if and only if it carries a flag that its state expects; where that is a SYN or
    a FIN the next number expected is the one after it.
   */
  lemma MovesIff(s: Sock, g: Segment, a: Alloc)
    ensures var s' := Handle(s, g, a);
            && (s'.state != s.state <==> Has(g.flags, Expected(s.state)))
            && (s'.state != s.state ==> (s.state, s'.state) in MOVES)
            && (s.state == SynSent ==> (s'.state == Established <==> Has(g.flags, SYN) && Has(g.flags, ACK)))
            && (s.state == Established ==> (s'.state == LastAck <==> Has(g.flags, FIN)))
            && (s.state == FinWait1 ==> (s'.state == FinWait2 <==> Has(g.flags, ACK)))
            && (s'.state != s.state
                ==> s'.recvSeq == if (s.state, s'.state) in COUNTED then (g.seqNum + 1) % TWO32 else s.recvSeq)
  {
    FlagBits(g.flags);
    hide Has, DataLen, Payload, Kept;
  }

  /**
    The answer to a tcp_connect opens the connection: the next byte to send has the number it acknowledges,
    the next to receive the number after its SYN, and the table holds the SYN until that is acknowledged.
   */
  lemma ConnectOpens(s: Sock, isn: Word32, g: Segment, a: Alloc, b: Alloc)
    requires s.state == Closed && s.store == [] && a == Alloc(true, true)
    requires g.flags & SYN != 0 && g.flags & ACK != 0
    ensures var s' := Handle(Connect(s, isn, a), g, b);
            && s'.state == Established && s'.sendSeq == g.ackNum && s'.recvSeq == (g.seqNum + 1) % TWO32
            && s'.window == g.window && s'.sendAck == s.sendAck && s'.recvQ == s.recvQ && s'.sendQ == s.sendQ
            && s'.store == [Sent(isn, [])] && Kept(s'.store, g.ackNum) == if isn <= g.ackNum then [] else s'.store
  {
    assert Has(SYN, PSH | SYN | FIN);
    hide DataLen, Payload;
    assert Kept([], g.ackNum) == [];
  }

  /** The segments of an endpoint in a simultaneous open: its SYN, and the answer to the other's SYN. */
  ghost predicate Opening(g: Segment, isn: Word32, flags: bv8) {
    g.seqNum == isn && g.flags == flags
  }

  lemma OpensOnSynThenAck(s: Sock, isn: Word32, syn: Segment, ack: Segment, a: Alloc)
    requires s.state == Closed && a.packet && syn.flags == SYN && ack.flags == SYN | ACK
    ensures var s' := Handle(Handle(Connect(s, isn, a), syn, a), ack, a);
            && s'.state == Established
            && s'.sendSeq == (isn + 1) % TWO32 && s'.recvSeq == (syn.seqNum + 1) % TWO32
  {
    assert Has(SYN, SYN) && !Has(SYN, ACK) && Has(SYN | ACK, ACK);
    hide DataLen, Payload, Has, Wrap32;
    var s1 := Connect(s, isn, a);
    assert s1.sendSeq == isn && s1.state == SynSent;
    var s2 := Handle(s1, syn, a);
    assert s2.state == SynReceived && s2.sendSeq == Wrap32(isn + 1);
  }

  /** Two endpoints that connect to each other at the same time end up with matching numbers. */
  lemma SimultaneousOpenAgrees(p: Sock, q: Sock, isnP: Word32, isnQ: Word32, synP: Segment, synQ: Segment,
                               ackP: Segment, ackQ: Segment, a: Alloc)
    requires p.state == q.state == Closed && a.packet
    requires Opening(synP, isnP, SYN) && Opening(synQ, isnQ, SYN)
    requires Opening(ackP, isnP, SYN | ACK) && Opening(ackQ, isnQ, SYN | ACK)
    ensures var p', q' := Handle(Handle(Connect(p, isnP, a), synQ, a), ackQ, a),
                          Handle(Handle(Connect(q, isnQ, a), synP, a), ackP, a);
            p'.state == q'.state == Established && p'.recvSeq == q'.sendSeq && q'.recvSeq == p'.sendSeq
  {
    OpensOnSynThenAck(p, isnP, synQ, ackQ, a);
    OpensOnSynThenAck(q, isnQ, synP, ackP, a);
  }

  /** The connection is being closed, or is closed. */
  predicate Ended(s: Sock) {
    s.state != SynSent && s.state != SynReceived && s.state != Established
  }

  lemma EndedStep(t: Trace, e: Event)
    requires Ended(t.s)
    ensures var t' := Happen(t, e);
            && Ended(t'.s) && t'.sent == t.sent && Delivered(t') == Delivered(t)
            && t'.s.sendSeq == t.s.sendSeq && t'.s.store == t.s.store
  {
    hide Has, DataLen, Payload, Wrap32, Kept;
    if e.Recv? {
      RecvGives(t, e.len);
    }
  }

  /** Whatever happens after the end, nothing more is sent or delivered; what was buffered can still be read. */
  lemma {:induction false} EndIsFinal(t: Trace, events: seq<Event>)
    requires Ended(t.s)
    ensures var t' := Run(t, events);
            && Ended(t'.s) && t'.sent == t.sent && Delivered(t') == Delivered(t)
            && t'.s.sendSeq == t.s.sendSeq && t'.s.store == t.s.store
  {
    if |events| > 0 {
      EndIsFinal(t, events[..|events| - 1]);
      EndedStep(Run(t, events[..|events| - 1]), events[|events| - 1]);
    }
  }

  /** A FIN, then an ACK: the connection is closed, and its `recv_seq` is past the FIN. */
  lemma FinThenAckCloses(s: Sock, fin: Segment, ack: Segment, a: Alloc, b: Alloc)
    requires s.state == Established && Has(fin.flags, FIN) && Has(ack.flags, ACK)
    ensures var s' := Handle(Handle(s, fin, a), ack, b);
            && s'.state == Closed && s'.recvSeq == (fin.seqNum + 1) % TWO32
            && s'.recvQ == s.recvQ && s'.sendSeq == s.sendSeq
            && s'.store == (if a.packet && a.entry then [Sent(s.sendSeq, [])] else []) + s.store
  {
    assert Has(FIN | ACK, PSH | SYN | FIN);
    hide DataLen, Payload, Has;
  }
}
