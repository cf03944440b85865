/**
  What tcp_send of net/tcp.c sends: which segments, up to where the window and the memory let it go, and
  how arriving segments move that window.
 */
module TcpSending {
  import opened CTypes
  import opened TcpConnection

  /**
    Segment k of a call may be sent: the number of its first byte, counted from the number last
    acknowledged, is below the window, and there is memory for the packet.
   */
  ghost predicate MayGo(s: Sock, alloc: nat -> Alloc, k: nat) {
    (s.sendSeq + k * 1460 - s.sendAck) % TWO32 < s.window && alloc(k).packet
  }

  /** Segment k of the first n bytes of a call. */
  function SegmentOf(s: Sock, data: seq<Byte>, n: nat, k: nat): Sent
    requires k * 1460 <= n <= |data|
  {
    Sent((s.sendSeq + k * 1460) % TWO32, data[k * 1460..if n < k * 1460 + 1460 then n else k * 1460 + 1460])
  }

  lemma DistanceMoves(base: int, sent: nat, chunk: nat, ack: int)
    ensures Wrap32(Wrap32(base + sent) - ack) == Wrap32(base + sent - ack)
    ensures Wrap32(Wrap32(base + sent) + chunk) == Wrap32(base + (sent + chunk))
  {
    WrapAdds(base + sent, -ack);
    WrapAdds(base + sent, chunk);
  }

  /** The state of tcp_send's loop before its k-th segment, in a call made in state s. */
  ghost predicate Sending(s: Sock, u: Sock, data: seq<Byte>, sent: nat, alloc: nat -> Alloc, k: nat) {
    && sent <= |data| && (sent == k * 1460 || sent == |data| <= k * 1460)
    && u.sendSeq == Wrap32(s.sendSeq + sent) && u.sendAck == s.sendAck && u.window == s.window
    && (forall j: nat :: j * 1460 < sent ==> MayGo(s, alloc, j))
    && (forall e :: e in u.store <==> e in s.store || InFlight(s, data, sent, alloc, e))
  }

  /** The entry of one of the segments sent, if there was memory for it. */
  ghost predicate InFlight(s: Sock, data: seq<Byte>, n: nat, alloc: nat -> Alloc, e: Sent)
    requires n <= |data|
  {
    exists k: nat :: k * 1460 < n && alloc(k).entry && e == SegmentOf(s, data, n, k)
  }

  function NextEnd(data: seq<Byte>, sent: nat): nat {
    if |data| - sent < 1460 then |data| else sent + 1460
  }

  lemma SegmentStays(s: Sock, data: seq<Byte>, k: nat, j: nat)
    requires j < k && k * 1460 < |data|
    ensures j * 1460 < k * 1460 <= NextEnd(data, k * 1460) <= |data|
    ensures SegmentOf(s, data, NextEnd(data, k * 1460), j) == SegmentOf(s, data, k * 1460, j)
  {
    assert j * 1460 + 1460 <= k * 1460;
  }

  lemma LastSegment(s: Sock, data: seq<Byte>, k: nat)
    requires k * 1460 < |data|
    ensures k * 1460 < NextEnd(data, k * 1460) <= |data|
    ensures SegmentOf(s, data, NextEnd(data, k * 1460), k)
            == Sent(Wrap32(s.sendSeq + k * 1460), data[k * 1460..NextEnd(data, k * 1460)])
  {
  }

  lemma InFlightOneMore(s: Sock, data: seq<Byte>, alloc: nat -> Alloc, k: nat, e: Sent)
    requires k * 1460 < |data|
    ensures InFlight(s, data, NextEnd(data, k * 1460), alloc, e) <==>
            InFlight(s, data, k * 1460, alloc, e)
            || (alloc(k).entry && e == Sent(Wrap32(s.sendSeq + k * 1460), data[k * 1460..NextEnd(data, k * 1460)]))
  {
    hide SegmentOf, Wrap32, NextEnd;
    var n := NextEnd(data, k * 1460);
    LastSegment(s, data, k);
    if InFlight(s, data, n, alloc, e) {
      var j: nat :| j * 1460 < n && alloc(j).entry && e == SegmentOf(s, data, n, j);
      SegmentIndex(data, k, j);
      if j < k {
        SegmentStays(s, data, k, j);
      }
    }
    if InFlight(s, data, k * 1460, alloc, e) {
      var j: nat :| j * 1460 < k * 1460 && alloc(j).entry && e == SegmentOf(s, data, k * 1460, j);
      SegmentStays(s, data, k, j);
    }
  }

  lemma SegmentIndex(data: seq<Byte>, k: nat, j: nat)
    requires k * 1460 < |data| && j * 1460 < NextEnd(data, k * 1460)
    ensures j <= k
  {
  }

  lemma WhatGoesOut()
    ensures Has(PSH | ACK, PSH | SYN | FIN)
  {
  }

  lemma SendingStarts(s: Sock, u: Sock, data: seq<Byte>, alloc: nat -> Alloc)
    requires u.sendSeq == s.sendSeq && u.sendAck == s.sendAck && u.window == s.window && u.store == s.store
    ensures Sending(s, u, data, 0, alloc, 0)
  {
  }

  lemma StoredOneMore(s: Sock, u: Sock, data: seq<Byte>, alloc: nat -> Alloc, k: nat, e: Sent)
    requires k * 1460 < |data| && alloc(k).packet
    requires e in u.store <==> e in s.store || InFlight(s, data, k * 1460, alloc, e)
    requires u.sendSeq == Wrap32(s.sendSeq + k * 1460)
    ensures var n := NextEnd(data, k * 1460);
            k * 1460 <= n <= |data|
            && (e in Transmit(u, PSH | ACK, data[k * 1460..n], alloc(k)).0.store <==>
                e in s.store || InFlight(s, data, n, alloc, e))
  {
    hide Has, Wrap32, InFlight;
    WhatGoesOut();
    LastSegment(s, data, k);
    InFlightOneMore(s, data, alloc, k, e);
  }

  lemma AllGo(s: Sock, data: seq<Byte>, alloc: nat -> Alloc, k: nat)
    requires k * 1460 < |data| && MayGo(s, alloc, k)
    requires forall j: nat :: j * 1460 < k * 1460 ==> MayGo(s, alloc, j)
    ensures forall j: nat :: j * 1460 < NextEnd(data, k * 1460) ==> MayGo(s, alloc, j)
  {
    hide MayGo;
    forall j: nat | j * 1460 < NextEnd(data, k * 1460) ensures MayGo(s, alloc, j) {
      SegmentIndex(data, k, j);
      assert j < k ==> j * 1460 < k * 1460;
    }
  }

  /** The state after the k-th segment of the loop. */
  function SentOn(u: Sock, data: seq<Byte>, alloc: nat -> Alloc, k: nat): Sock
    requires k * 1460 <= NextEnd(data, k * 1460) <= |data|
  {
    var n := NextEnd(data, k * 1460);
    Transmit(u, PSH | ACK, data[k * 1460..n], alloc(k)).0.(sendSeq := Wrap32(u.sendSeq + n - k * 1460))
  }

  lemma SendingOneMore(s: Sock, u: Sock, data: seq<Byte>, alloc: nat -> Alloc, k: nat)
    requires k * 1460 < |data| && Sending(s, u, data, k * 1460, alloc, k) && MayGo(s, alloc, k)
    ensures var n := NextEnd(data, k * 1460);
            k * 1460 <= n <= |data| && Sending(s, SentOn(u, data, alloc, k), data, n, alloc, k + 1)
  {
    var n := NextEnd(data, k * 1460);
    AllGo(s, data, alloc, k);
    assert alloc(k).packet;
    assert k * 1460 < n && (n == (k + 1) * 1460 || n == |data| <= (k + 1) * 1460);
    hide Has, Wrap32, InFlight, MayGo, Transmit, SegmentOf, NextEnd;
    DistanceMoves(s.sendSeq, k * 1460, n - k * 1460, 0);
    TransmitKeeps(u, PSH | ACK, data[k * 1460..n], alloc(k));
    forall e ensures e in SentOn(u, data, alloc, k).store <==> e in s.store || InFlight(s, data, n, alloc, e) {
      StoredOneMore(s, u, data, alloc, k, e);
    }
  }

  lemma TransmitKeeps(s: Sock, flags: bv8, data: seq<Byte>, a: Alloc)
    ensures var s' := Transmit(s, flags, data, a).0;
            s'.sendSeq == s.sendSeq && s'.sendAck == s.sendAck && s'.window == s.window
  {
  }

  /** Where the loop stops: at the end of the data, or at the first segment that may not go. */
  lemma {:induction false} LoopStopsAt(s: Sock, u: Sock, data: seq<Byte>, sent: nat, alloc: nat -> Alloc, k: nat)
      returns (m: nat)
    requires Sending(s, u, data, sent, alloc, k)
    ensures var (u', n) := SendLoop(u, data, sent, alloc, k);
            && Sending(s, u', data, n, alloc, m)
            && (n < |data| ==> n == m * 1460 && !MayGo(s, alloc, m))
    decreases |data| - sent
  {
    m := k;
    if sent < |data| {
      assert sent == k * 1460;
      if MayGo(s, alloc, k) {
        LoopGoesOn(s, u, data, alloc, k);
        SendingOneMore(s, u, data, alloc, k);
        hide SendLoop, Sending, MayGo, SentOn;
        assert NextEnd(data, sent) > sent;
        m := LoopStopsAt(s, SentOn(u, data, alloc, k), data, NextEnd(data, sent), alloc, k + 1);
      } else {
        LoopStopsHere(s, u, data, sent, alloc, k);
      }
    }
  }

  lemma LoopGoesOn(s: Sock, u: Sock, data: seq<Byte>, alloc: nat -> Alloc, k: nat)
    requires k * 1460 < |data| && Sending(s, u, data, k * 1460, alloc, k) && MayGo(s, alloc, k)
    ensures var n := NextEnd(data, k * 1460);
            k * 1460 <= n <= |data|
            && SendLoop(u, data, k * 1460, alloc, k) == SendLoop(SentOn(u, data, alloc, k), data, n, alloc, k + 1)
  {
    DistanceMoves(s.sendSeq, k * 1460, 0, s.sendAck);
    assert !WindowFull(u) && alloc(k).packet;
    hide Has, InFlight, Wrap32, MayGo, WindowFull;
  }

  lemma LoopStopsHere(s: Sock, u: Sock, data: seq<Byte>, sent: nat, alloc: nat -> Alloc, k: nat)
    requires sent < |data| && sent == k * 1460 && !MayGo(s, alloc, k)
    requires u.sendSeq == Wrap32(s.sendSeq + sent) && u.sendAck == s.sendAck && u.window == s.window
    ensures SendLoop(u, data, sent, alloc, k) == (u, sent)
  {
    DistanceMoves(s.sendSeq, sent, 0, s.sendAck);
    assert MayGo(s, alloc, k) <==> !WindowFull(u) && alloc(k).packet;
    hide Has, WindowFull, MayGo;
  }

  /**
    tcp_send refuses a call just when the connection is not established or 8192 bytes do not hold the data
    besides all accepted before. Otherwise it sends the data cut every 1460 bytes, up to the end or to the
    first segment that may not go, and counts the bytes: so it returns the whole length if and only if
    every segment may go. It records exactly the segments sent for which there is memory.
   */
  lemma SendCountIff(s: Sock, data: seq<Byte>, alloc: nat -> Alloc)
    ensures var (s', r) := UserSend(s, data, alloc);
            && (r == -1 <==> s.state != Established || |s.sendQ| + |data| > 8192)
            && (r == -1 ==> s' == s)
            && (r != -1 ==>
                  && 0 <= r <= |data| && s'.sendSeq == (s.sendSeq + r) % TWO32 && s'.sendQ == s.sendQ + data
                  && (forall k: nat :: k * 1460 < r ==> MayGo(s, alloc, k))
                  && (r < |data| ==> exists k: nat :: r == k * 1460 && !MayGo(s, alloc, k))
                  && (r == |data| <==> forall k: nat :: k * 1460 < |data| ==> MayGo(s, alloc, k))
                  && (forall e :: e in s'.store <==> e in s.store || InFlight(s, data, r, alloc, e)))
  {
    if s.state == Established && |s.sendQ| + |data| <= BUFFER_SIZE {
      var u := s.(sendQ := s.sendQ + data);
      SendingStarts(s, u, data, alloc);
      var m := LoopStopsAt(s, u, data, 0, alloc, 0);
      SendLoopKeepsReceiver(u, data, 0, alloc, 0);
      hide SendLoop, MayGo, InFlight;
      var (s', r) := UserSend(s, data, alloc);
      if r < |data| {
        assert m * 1460 < |data| && !MayGo(s, alloc, m);
      }
    }
  }

  // ---------------------------------------------------------------------------
  // How far it can go
  // ---------------------------------------------------------------------------

  /** What is in flight never passes the window by more than the segment that was begun below it. */
  lemma FlightIsBounded(s: Sock, data: seq<Byte>, alloc: nat -> Alloc)
    requires UserSend(s, data, alloc).1 > 0
    ensures (s.sendSeq - s.sendAck) % TWO32 < s.window
    ensures (UserSend(s, data, alloc).0.sendSeq - s.sendAck) % TWO32 < s.window + 1460
  {
    SendCountIff(s, data, alloc);
    var r := UserSend(s, data, alloc).1;
    hide UserSend, InFlight;
    var k := (r - 1) / 1460;
    assert k * 1460 < r <= k * 1460 + 1460;
    assert MayGo(s, alloc, 0) by {
      assert 0 * 1460 < r;
    }
    assert MayGo(s, alloc, k);
    FlightAfter(s.sendSeq - s.sendAck, k * 1460, r - k * 1460, s.window);
    DistanceMoves(s.sendSeq, r, 0, s.sendAck);
  }

  lemma FlightAfter(d: int, begun: nat, more: nat, window: Word16)
    requires (d + begun) % TWO32 < window && more <= 1460
    ensures (d + begun + more) % TWO32 < window + 1460
  {
    var x := (d + begun) % TWO32;
    WrapAdds(d + begun, more);
    assert Wrap32(x + more) == x + more;
  }

  /** With memory, an open window of w bytes takes whole segments until w is reached, or all the data. */
  lemma OpenWindowCount(s: Sock, data: seq<Byte>, alloc: nat -> Alloc)
    requires s.state == Established && |s.sendQ| + |data| <= 8192
    requires s.sendSeq == s.sendAck && forall k: nat :: alloc(k).packet
    ensures var r := UserSend(s, data, alloc).1;
            r == if |data| <= (s.window + 1459) / 1460 * 1460 then |data| else (s.window + 1459) / 1460 * 1460
  {
    SendCountIff(s, data, alloc);
    var r := UserSend(s, data, alloc).1;
    var w := (s.window + 1459) / 1460;
    hide UserSend, InFlight;
    forall k: nat | k * 1460 < |data| ensures MayGo(s, alloc, k) <==> k < w {
      assert (s.sendSeq + k * 1460 - s.sendAck) % TWO32 == k * 1460;
    }
    if |data| <= w * 1460 {
      assert forall k: nat :: k * 1460 < |data| ==> MayGo(s, alloc, k);
    } else {
      assert !MayGo(s, alloc, w) && w * 1460 < |data|;
      var k: nat :| r == k * 1460 && !MayGo(s, alloc, k);
      assert w < k ==> w * 1460 < k * 1460;
    }
  }

  // ---------------------------------------------------------------------------
  // What moves the window
  // ---------------------------------------------------------------------------

  lemma NotArrivedKeepsWindow(t: Trace, e: Event)
    ensures !e.Arrive? ==> Happen(t, e).s.window == t.s.window
    ensures !(e.Arrive? && TakesAck(t.s, e.g)) ==> Happen(t, e).s.sendAck == t.s.sendAck
  {
    hide Has, DataLen, Payload, Wrap32, Kept;
    if e.Send? && t.s.state == Established && |t.s.sendQ| + |e.data| <= BUFFER_SIZE {
      SendLoopKeepsReceiver(t.s.(sendQ := t.s.sendQ + e.data), e.data, 0, e.alloc, 0);
    }
  }

  /** The window is the one the last segment advertised, whatever that segment was. */
  lemma {:induction false} WindowIsLast(t: Trace, events: seq<Event>, i: nat)
    requires i < |events| && events[i].Arrive?
    requires forall j :: i < j < |events| ==> !events[j].Arrive?
    ensures Run(t, events).s.window == events[i].g.window
  {
    var last := |events| - 1;
    var before := Run(t, events[..last]);
    hide Has, DataLen, Payload, Wrap32, Switch;
    if i < last {
      WindowIsLast(t, events[..last], i);
      NotArrivedKeepsWindow(before, events[last]);
    }
  }

  lemma NumberIsTaken(t: Trace, e: Event)
    requires e.Arrive? && TakesAck(t.s, e.g)
    ensures Happen(t, e).s.sendAck == e.g.ackNum
  {
    hide Has, DataLen, Payload, Wrap32, Kept;
  }

  /**
    The number acknowledged is that of the last segment, in ESTABLISHED and without FIN or RST, that had
    ACK set and was not next in order: acknowledgements on data segments that are next do not count.
   */
  lemma {:induction false} AckIsLast(t: Trace, events: seq<Event>, i: nat)
    requires i < |events| && events[i].Arrive? && TakesAck(Run(t, events[..i]).s, events[i].g)
    requires forall j :: i < j < |events| && events[j].Arrive? ==> !TakesAck(Run(t, events[..j]).s, events[j].g)
    ensures Run(t, events).s.sendAck == events[i].g.ackNum
  {
    hide TakesAck, Happen;
    var last := |events| - 1;
    var before := Run(t, events[..last]);
    if i < last {
      assert events[..last][..i] == events[..i];
      forall j | i < j < last && events[j].Arrive? ensures !TakesAck(Run(t, events[..last][..j]).s, events[j].g) {
        assert events[..last][..j] == events[..j];
      }
      AckIsLast(t, events[..last], i);
      NotArrivedKeepsWindow(before, events[last]);
    } else {
      NumberIsTaken(before, events[last]);
    }
  }

  /**
    Nothing acknowledges the SYN of a connection in `send_ack` before the first acknowledgement in
    ESTABLISHED: until then it sends data if and only if their first number is below the window.
   */
  lemma FirstSendWaitsIff(s: Sock, data: seq<Byte>, alloc: nat -> Alloc)
    requires s.state == Established && s.sendAck == 0 && 0 < |data| <= 8192 - |s.sendQ| && alloc(0).packet
    ensures UserSend(s, data, alloc).1 == 0 <==> s.sendSeq >= s.window
  {
    SendCountIff(s, data, alloc);
    hide UserSend, InFlight;
    assert (s.sendSeq + 0 * 1460 - s.sendAck) % TWO32 == s.sendSeq;
    assert MayGo(s, alloc, 0) <==> s.sendSeq < s.window;
    var r := UserSend(s, data, alloc).1;
    if r > 0 {
      assert 0 * 1460 < r;
    }
  }
}
