/**
  The way of a datagram through net/udp.c: the packet udp_sendto builds, and the checks and
  extraction of udp_handle_packet.
 */
module UdpDatagram {
  import opened CTypes
  import opened CString
  import opened InternetChecksum

  const HEADER := 8
  const MAX_PACKET := 65535

  function Header(srcPort: Word16, dstPort: Word16, len: Word16, checksum: Word16): (h: seq<Byte>)
    ensures |h| == HEADER
  {
    NetworkWord(srcPort) + NetworkWord(dstPort) + NetworkWord(len) + RawWord(checksum)
  }

  /** The packet with checksum field 0, and the checksum udp_sendto computes over it. */
  function Unsummed(srcPort: Word16, dstPort: Word16, data: seq<Byte>): seq<Byte>
    requires |data| <= MAX_PACKET - HEADER
  {
    Header(srcPort, dstPort, HEADER + |data|, 0) + data
  }

  function ChecksumOf(packet: seq<Byte>, srcIp: Word32, dstIp: Word32): Word16
    requires |packet| < TWO16
  {
    65535 - OnesSum(UdpTotal(packet, srcIp, dstIp, |packet|))
  }

  function Datagram(srcPort: Word16, dstPort: Word16, data: seq<Byte>, srcIp: Word32, dstIp: Word32): seq<Byte>
    requires |data| <= MAX_PACKET - HEADER
  {
    Header(srcPort, dstPort, HEADER + |data|, ChecksumOf(Unsummed(srcPort, dstPort, data), srcIp, dstIp)) + data
  }

  datatype Received = Received(srcPort: Word16, dstPort: Word16, data: seq<Byte>)

  /** udp_handle_packet up to the search for a socket: None when the packet is dropped. */
  function Accept(payload: seq<Byte>, srcIp: Word32, dstIp: Word32): Option<Received> {
    if |payload| < HEADER then None
    else
      var udpLen := WordOf(Big, payload[4], payload[5]);
      var checksum := WordOf(Little, payload[6], payload[7]);
      if udpLen < HEADER || udpLen > |payload| then None
      else if checksum != 0 && ChecksumOf(payload[..udpLen], srcIp, dstIp) != 0 then None
      else Some(Received(WordOf(Big, payload[0], payload[1]), WordOf(Big, payload[2], payload[3]),
          payload[HEADER..udpLen]))
  }

  /** udp_sendto for a bound socket with a destination; None when the data are too long. */
  method BuildPacket(localPort: Word16, dstPort: Word16, data: seq<Byte>, localIp: Word32, dstIp: Word32)
    returns (packet: array?<Byte>)
    ensures packet == null <==> |data| > MAX_PACKET - HEADER
    ensures packet != null ==> fresh(packet) && packet[..] == Datagram(localPort, dstPort, data, localIp, dstIp)
  {
    if |data| > MAX_PACKET - HEADER {
      return null;
    }
    var totalLen: Word16 := HEADER + |data|;
    packet := new Byte[totalLen];
    packet[0], packet[1] := localPort / 256, localPort % 256;
    packet[2], packet[3] := dstPort / 256, dstPort % 256;
    packet[4], packet[5] := totalLen / 256, totalLen % 256;
    packet[6], packet[7] := 0, 0;
    Memcpy(packet, HEADER, data, 0, |data|);
    assert packet[..] == Unsummed(localPort, dstPort, data);
    var checksum := UdpChecksum(packet[..], localIp, dstIp, totalLen);
    packet[6], packet[7] := checksum % 256, checksum / 256;
  }

  method HandlePacket(payload: seq<Byte>, srcIp: Word32, dstIp: Word32) returns (r: Option<Received>)
    ensures r == Accept(payload, srcIp, dstIp)
  {
    if |payload| < HEADER {
      return None;
    }
    var srcPort, dstPort := WordOf(Big, payload[0], payload[1]), WordOf(Big, payload[2], payload[3]);
    var udpLen := WordOf(Big, payload[4], payload[5]);
    if udpLen < HEADER || udpLen > |payload| {
      return None;
    }
    if WordOf(Little, payload[6], payload[7]) != 0 {
      var computed := UdpChecksum(payload[..udpLen], srcIp, dstIp, udpLen);
      if computed != 0 {
        return None;
      }
    }
    return Some(Received(srcPort, dstPort, payload[HEADER..udpLen]));
  }

  lemma DatagramIsWithWord(srcPort: Word16, dstPort: Word16, data: seq<Byte>, c: Word16)
    requires |data| <= MAX_PACKET - HEADER
    ensures var m := Unsummed(srcPort, dstPort, data);
            m[6] == 0 && m[7] == 0 && Header(srcPort, dstPort, HEADER + |data|, c) + data == WithWord(Little, m, 6, c)
  {
  }

  lemma WordsRoundTrip(x: Word16)
    ensures WordOf(Big, x / 256, x % 256) == x && WordOf(Little, x % 256, x / 256) == x
  {
  }

  // ---------------------------------------------------------------------------
  // What arrives
  // ---------------------------------------------------------------------------

  /** The sum of the four 16-bit halves of the addresses. */
  function Halves(srcIp: Word32, dstIp: Word32): nat {
    srcIp % TWO16 + srcIp / TWO16 + dstIp % TWO16 + dstIp / TWO16
  }

  lemma TotalOfAddresses(data: seq<Byte>, s: Word32, d: Word32, s': Word32, d': Word32, len: Word16)
    ensures UdpTotal(data, s', d', len) - UdpTotal(data, s, d, len) == Halves(s', d') - Halves(s, d)
    ensures UdpTotal(data, s, d, len) > 0
  {
    SumOfPseudoWords(s, d, len);
    SumOfPseudoWords(s', d', len);
  }

  lemma SumOfPseudoWords(s: Word32, d: Word32, len: Word16)
    ensures SumOf(PseudoWords(s, d, len)) == Halves(s, d) + 17 * 256 + len
  {
    hide SumOf;
    var w := PseudoWords(s, d, len);
    SumOneMore(w, 0);
    SumOneMore(w, 1);
    SumOneMore(w, 2);
    SumOneMore(w, 3);
    SumOneMore(w, 4);
    SumOneMore(w, 5);
    assert w[..6] == w;
    NothingSummed([], w);
  }

  lemma AllOnesIff(t: nat)
    ensures OnesSum(t) == 65535 <==> t > 0 && t % 65535 == 0
  {
  }

  /**
    When the sender sums other addresses than the receiver finds in the IP header, the datagram is
    accepted if and only if the checksum field came out 0, which switches the check off, or the halves of
    the two address pairs have the same sum modulo 65535.
   */
  lemma AcceptedIff(srcPort: Word16, dstPort: Word16, data: seq<Byte>, s: Word32, d: Word32, s': Word32, d': Word32,
                    padding: seq<Byte>)
    requires |data| <= MAX_PACKET - HEADER
    ensures Accept(Datagram(srcPort, dstPort, data, s, d) + padding, s', d')
            == if ChecksumOf(Unsummed(srcPort, dstPort, data), s, d) == 0
                || (Halves(s', d') - Halves(s, d)) % 65535 == 0
               then Some(Received(srcPort, dstPort, data)) else None
  {
    var m := Unsummed(srcPort, dstPort, data);
    var c := ChecksumOf(m, s, d);
    var g := Datagram(srcPort, dstPort, data, s, d);
    DatagramIsWithWord(srcPort, dstPort, data, c);
    ChecksumVerifies(Little, SumOf(PseudoWords(s, d, |m|)), m, 6);
    WordsRoundTrip(srcPort);
    WordsRoundTrip(dstPort);
    WordsRoundTrip(|g|);
    WordsRoundTrip(c);
    assert (g + padding)[..|g|] == g;
    assert (g + padding)[HEADER..|g|] == data;
    ChecksumUnder(g, s, d, s', d');
  }

  lemma ChecksumUnder(g: seq<Byte>, s: Word32, d: Word32, s': Word32, d': Word32)
    requires |g| < TWO16 && ChecksumOf(g, s, d) == 0
    ensures ChecksumOf(g, s', d') == 0 <==> (Halves(s', d') - Halves(s, d)) % 65535 == 0
  {
    hide UdpTotal, OnesSum, Halves;
    TotalOfAddresses(g, s, d, s', d', |g|);
    TotalOfAddresses(g, s', d', s', d', |g|);
    AllOnesIff(UdpTotal(g, s, d, |g|));
    AllOnesIff(UdpTotal(g, s', d', |g|));
  }

  /** In particular a socket bound to 0.0.0.0 sums source address 0, whatever source address the IP header carries. */
  lemma AnyAddressAcceptedIff(srcPort: Word16, dstPort: Word16, data: seq<Byte>, srcIp: Word32, dstIp: Word32)
    requires |data| <= MAX_PACKET - HEADER
    ensures Accept(Datagram(srcPort, dstPort, data, 0, dstIp), srcIp, dstIp) != None
            <==> ChecksumOf(Unsummed(srcPort, dstPort, data), 0, dstIp) == 0
                 || srcIp % TWO16 + srcIp / TWO16 in {0, 65535, 131070}
  {
    var g := Datagram(srcPort, dstPort, data, 0, dstIp);
    AcceptedIff(srcPort, dstPort, data, 0, dstIp, srcIp, dstIp, []);
    assert g + [] == g;
  }

  /** An empty datagram from port 0 to port 0, from 192.168.1.2 bound to 0.0.0.0 to 192.168.1.1, is dropped. */
  lemma AnyAddressIsDropped()
    ensures Accept(Datagram(0, 0, [], 0, 0x0101A8C0), 0x0201A8C0, 0x0101A8C0) == None
  {
    var m := Unsummed(0, 0, []);
    assert m == [0, 0, 0, 0, 0, 8, 0, 0];
    assert m[2..] == [0, 0, 0, 8, 0, 0] && m[2..][2..] == [0, 8, 0, 0] && m[2..][2..][2..] == [0, 0];
    assert Total(Little, m) == 2048;
    SumOfPseudoWords(0, 0x0101A8C0, 8);
    AnyAddressAcceptedIff(0, 0, [], 0x0201A8C0, 0x0101A8C0);
  }

  /**
    Every datagram udp_sendto builds, with anything behind it in the IP payload, passes the checks of
    udp_handle_packet under the same two addresses, whatever the length, also when the checksum
    comes out 0; and the receiver gets exactly the ports and the data.
   */
  lemma DatagramIsAccepted(srcPort: Word16, dstPort: Word16, data: seq<Byte>, srcIp: Word32, dstIp: Word32,
                           padding: seq<Byte>)
    requires |data| <= MAX_PACKET - HEADER
    ensures Accept(Datagram(srcPort, dstPort, data, srcIp, dstIp) + padding, srcIp, dstIp)
            == Some(Received(srcPort, dstPort, data))
  {
    AcceptedIff(srcPort, dstPort, data, srcIp, dstIp, srcIp, dstIp, padding);
  }

  // ---------------------------------------------------------------------------
  // The bytes themselves
  // ---------------------------------------------------------------------------

  /** What stands where in a datagram: source port, destination port, length and, behind the checksum, the data. */
  lemma SentBytes(srcPort: Word16, dstPort: Word16, data: seq<Byte>, srcIp: Word32, dstIp: Word32)
    requires |data| <= MAX_PACKET - HEADER
    ensures var g := Datagram(srcPort, dstPort, data, srcIp, dstIp);
            && |g| == 8 + |data| && Two(g, 0) == srcPort && Two(g, 2) == dstPort && Two(g, 4) == |g| && g[8..] == data
  {
    hide ChecksumOf;
  }

  /** The 17 words besides the datagram, in memory order, and the datagram in that order: a multiple of 65535. */
  predicate SumsUp(payload: seq<Byte>, srcIp: Word32, dstIp: Word32)
  {
    (Halves(srcIp, dstIp) + 17 * 256 + |payload| + Total(Little, payload)) % 65535 == 0
  }

  /**
    Which datagrams udp_handle_packet takes: 8 bytes at least, a length field between 8 and what has come, and a
    checksum field of two zeros or a sum of all ones. It takes from them exactly the two ports and the
    bytes up to that length.
   */
  lemma AcceptIff(payload: seq<Byte>, srcIp: Word32, dstIp: Word32)
    ensures Accept(payload, srcIp, dstIp).Some? <==>
              && |payload| >= 8 && 8 <= Two(payload, 4) <= |payload|
              && (Two(payload, 6) == 0 || SumsUp(payload[..Two(payload, 4)], srcIp, dstIp))
    ensures Accept(payload, srcIp, dstIp).Some? ==>
              var r := Accept(payload, srcIp, dstIp).value;
              r.srcPort == Two(payload, 0) && r.dstPort == Two(payload, 2) && r.data == payload[8..Two(payload, 4)]
  {
    hide Halves, Total, OnesSum, UdpTotal;
    if |payload| >= 8 && 8 <= Two(payload, 4) <= |payload| {
      var g := payload[..Two(payload, 4)];
      ChecksumIsZeroIff(g, srcIp, dstIp);
    }
  }

  lemma ChecksumIsZeroIff(g: seq<Byte>, srcIp: Word32, dstIp: Word32)
    requires |g| < TWO16
    ensures ChecksumOf(g, srcIp, dstIp) == 0 <==> SumsUp(g, srcIp, dstIp)
  {
    hide Halves, Total, OnesSum;
    SumOfPseudoWords(srcIp, dstIp, |g|);
    TotalOfAddresses(g, srcIp, dstIp, srcIp, dstIp, |g|);
    AllOnesIff(UdpTotal(g, srcIp, dstIp, |g|));
  }
}
