/**
  The header of an IP packet in net/ip.c: the one ip_send_packet builds and the checks of
  ip_validate_header.
 */
module IpPacket {
  import opened CTypes
  import opened CString
  import opened InternetChecksum

  const HEADER := 20

  /** The first ten bytes, and the addresses behind the checksum. */
  function Front(totalLen: Word16, ident: Word16, protocol: Byte): (f: seq<Byte>)
    ensures |f| == 10
  {
    [0x45, 0] + NetworkWord(totalLen) + NetworkWord(ident) + [0, 0, 64, protocol]
  }

  function Header(totalLen: Word16, ident: Word16, protocol: Byte, field: seq<Byte>, srcIp: Word32,
                  dstIp: Word32): (h: seq<Byte>)
    requires |field| == 2
    ensures |h| == HEADER
  {
    Front(totalLen, ident, protocol) + field + NetworkLong(srcIp) + NetworkLong(dstIp)
  }

  /** The plain sum of the header's words before the checksum is stored, for a packet of n bytes. */
  function HeaderSum(n: nat, ident: Word16, protocol: Byte, srcIp: Word32, dstIp: Word32): nat {
    Total(Big, Header(n % TWO16, ident, protocol, [0, 0], srcIp, dstIp))
  }

  function HeaderChecksum(n: nat, ident: Word16, protocol: Byte, srcIp: Word32, dstIp: Word32): Word16 {
    65535 - OnesSum(HeaderSum(n, ident, protocol, srcIp, dstIp))
  }

  /** The whole packet. Its length is cut to 16 bits in the header, and the checksum is stored without htons. */
  function Packet(data: seq<Byte>, ident: Word16, protocol: Byte, srcIp: Word32, dstIp: Word32): seq<Byte> {
    var n := HEADER + |data|;
    Header(n % TWO16, ident, protocol, RawWord(HeaderChecksum(n, ident, protocol, srcIp, dstIp)), srcIp, dstIp) + data
  }

  /** What ip_send_packet hands to the Ethernet layer; null when there are no data. */
  method BuildPacket(data: seq<Byte>, ident: Word16, protocol: Byte, localIp: Word32, dstIp: Word32)
    returns (packet: array?<Byte>)
    ensures packet == null <==> data == []
    ensures packet != null ==> fresh(packet) && packet[..] == Packet(data, ident, protocol, localIp, dstIp)
  {
    if data == [] {
      return null;
    }
    var size := HEADER + |data|;
    packet := new Byte[size];
    var totalLen: Word16 := size % TWO16;
    PutFront(packet, totalLen, ident, protocol);
    PutRest(packet, Front(totalLen, ident, protocol) + [0, 0], NetworkLong(localIp) + NetworkLong(dstIp), data);
    assert packet[..HEADER] == Header(totalLen, ident, protocol, [0, 0], localIp, dstIp);
    var checksum := IpChecksum(packet[..HEADER]);
    ghost var before := packet[..];
    var low: Byte, high: Byte := checksum % 256, checksum / 256;
    packet[10], packet[11] := low, high;
    assert packet[..] == WithWord(Little, before, 10, checksum);
    hide Header, WithWord;
    HeaderWithField(totalLen, ident, protocol, checksum, localIp, dstIp);
    FieldInHeader(Header(totalLen, ident, protocol, [0, 0], localIp, dstIp), data, checksum);
  }

  lemma FieldInHeader(h: seq<Byte>, data: seq<Byte>, c: Word16)
    requires |h| == HEADER
    ensures WithWord(Little, h + data, 10, c) == WithWord(Little, h, 10, c) + data
  {
  }

  /** Everything before the addresses, the checksum field still 0. */
  method PutFront(packet: array<Byte>, totalLen: Word16, ident: Word16, protocol: Byte)
    requires packet.Length >= 12
    modifies packet
    ensures packet[..12] == Front(totalLen, ident, protocol) + [0, 0]
  {
    packet[0], packet[1] := 0x45, 0;
    packet[2], packet[3] := totalLen / 256, totalLen % 256;
    packet[4], packet[5] := ident / 256, ident % 256;
    packet[6], packet[7], packet[8], packet[9] := 0, 0, 64, protocol;
    packet[10], packet[11] := 0, 0;
  }

  /** The addresses and the payload. */
  method PutRest(packet: array<Byte>, front: seq<Byte>, addresses: seq<Byte>, data: seq<Byte>)
    requires |front| == 12 && |addresses| == 8 && packet.Length == HEADER + |data| && packet[..12] == front
    modifies packet
    ensures packet[..] == front + addresses + data && packet[..HEADER] == front + addresses
  {
    Memcpy(packet, 12, addresses, 0, 8);
    assert packet[..HEADER] == front + addresses;
    Memcpy(packet, HEADER, data, 0, |data|);
    assert packet[..] == front + addresses + data;
  }

  // ---------------------------------------------------------------------------
  // Validation
  // ---------------------------------------------------------------------------

  datatype Verdict = Fine | HeaderError | Discard | AddressError

  function LongAt(m: seq<Byte>, k: nat): Word32
    requires k + 4 <= |m|
  {
    Packed(m[k], m[k + 1], m[k + 2], m[k + 3])
  }

  /** What ip_validate_header reads: a header of 20 bytes, and as many as its IHL names. */
  predicate HoldsHeader(m: seq<Byte>) {
    |m| >= HEADER && |m| >= 4 * (m[0] as int % 16)
  }

  /**
    ip_validate_header over the memory that starts with the header. It sums as many bytes as the IHL
    names, up to 60, whatever the length of the packet.
   */
  function Judge(m: seq<Byte>, totalLen: nat): Verdict
    requires HoldsHeader(m)
  {
    var ihl := m[0] % 16;
    var pktLen := WordOf(Big, m[2], m[3]);
    if m[0] / 16 != 4 || ihl < 5 then HeaderError
    else if pktLen < HEADER || pktLen != totalLen then HeaderError
    else if 65535 - OnesSum(Total(Big, m[..4 * ihl])) != 0 then HeaderError
    else if m[8] == 0 then Discard
    else if LongAt(m, 12) == 0 || LongAt(m, 12) == 0xFFFF_FFFF then AddressError
    else Fine
  }

  class Statistics {
    var inHdrErrors: Word
    var inAddrErrors: Word
    var inDiscards: Word

    constructor ()
      ensures inHdrErrors == inAddrErrors == inDiscards == 0
    {
      inHdrErrors, inAddrErrors, inDiscards := 0, 0, 0;
    }

    method ValidateHeader(m: seq<Byte>, totalLen: nat) returns (ok: bool)
      requires HoldsHeader(m)
      modifies this
      ensures ok <==> Judge(m, totalLen) == Fine
      ensures inHdrErrors == Wrap64(old(inHdrErrors) as int + if Judge(m, totalLen) == HeaderError then 1 else 0)
      ensures inAddrErrors == Wrap64(old(inAddrErrors) as int + if Judge(m, totalLen) == AddressError then 1 else 0)
      ensures inDiscards == Wrap64(old(inDiscards) as int + if Judge(m, totalLen) == Discard then 1 else 0)
    {
      if m[0] / 16 != 4 {
        inHdrErrors := Wrap64(inHdrErrors as int + 1);
        return false;
      }
      var ihl := m[0] % 16;
      if ihl < 5 || ihl > 15 {
        inHdrErrors := Wrap64(inHdrErrors as int + 1);
        return false;
      }
      var pktLen := WordOf(Big, m[2], m[3]);
      if pktLen < 20 || pktLen > 65535 || pktLen != totalLen {
        inHdrErrors := Wrap64(inHdrErrors as int + 1);
        return false;
      }
      var computed := IpChecksum(m[..ihl * 4]);
      if computed != 0 {
        inHdrErrors := Wrap64(inHdrErrors as int + 1);
        return false;
      }
      if m[8] == 0 {
        inDiscards := Wrap64(inDiscards as int + 1);
        return false;
      }
      var src := LongAt(m, 12);
      if src == 0 || src == 0xFFFF_FFFF {
        inAddrErrors := Wrap64(inAddrErrors as int + 1);
        return false;
      }
      return true;
    }
  }

  // ---------------------------------------------------------------------------
  // What arrives
  // ---------------------------------------------------------------------------

  lemma HeaderFields(m: seq<Byte>, totalLen: Word16, ident: Word16, protocol: Byte, c: Word16, srcIp: Word32,
                     dstIp: Word32)
    requires |m| >= HEADER && m[..HEADER] == Header(totalLen, ident, protocol, RawWord(c), srcIp, dstIp)
    ensures HoldsHeader(m) && m[0] == 0x45 && m[8] == 64 && WordOf(Big, m[2], m[3]) == totalLen
        && LongAt(m, 12) == srcIp
  {
    var h := m[..HEADER];
    assert forall k :: 0 <= k < HEADER ==> m[k] == h[k];
    Pieces(srcIp);
    assert Front(totalLen, ident, protocol)[2] == totalLen / 256
        && Front(totalLen, ident, protocol)[3] == totalLen % 256;
    assert h[12..16] == NetworkLong(srcIp);
    assert forall k :: 0 <= k < 4 ==> m[12 + k] == h[12..16][k];
  }

  lemma Pieces(x: Word32)
    ensures x == x / 0x100_0000 * 0x100_0000 + x / 0x1_0000 % 256 * 0x1_0000 + x / 256 % 256 * 256 + x % 256
  {
    assert x / 0x1_0000 == x / 0x100_0000 * 256 + x / 0x1_0000 % 256;
    assert x / 256 == x / 0x1_0000 * 256 + x / 256 % 256;
  }

  lemma HeaderWithField(totalLen: Word16, ident: Word16, protocol: Byte, c: Word16, srcIp: Word32, dstIp: Word32)
    ensures var m := Header(totalLen, ident, protocol, [0, 0], srcIp, dstIp);
            m[10] == 0 && m[11] == 0
                && Header(totalLen, ident, protocol, RawWord(c), srcIp, dstIp) == WithWord(Little, m, 10, c)
  {
  }

  /**
    A packet that ip_send_packet builds passes ip_validate_header on arrival, in a frame of its own
    length, if and only if its length fits in 16 bits, the plain sum of its header is divisible by
    257 (then its checksum has two equal bytes), and the sender's address is neither 0.0.0.0 nor
    255.255.255.255.
   */
  lemma SentPacketIsValidIff(data: seq<Byte>, ident: Word16, protocol: Byte, srcIp: Word32, dstIp: Word32,
                             behind: seq<Byte>)
    ensures var m := Packet(data, ident, protocol, srcIp, dstIp) + behind;
            && HoldsHeader(m)
            && (Judge(m, HEADER + |data|) == Fine
                <==> && HEADER + |data| < TWO16
                     && HeaderSum(HEADER + |data|, ident, protocol, srcIp, dstIp) % 257 == 0
                     && srcIp != 0 && srcIp != 0xFFFF_FFFF)
  {
    hide Header, Total, OnesSum;
    var m := Packet(data, ident, protocol, srcIp, dstIp) + behind;
    var totalLen: Word16 := (HEADER + |data|) % TWO16;
    var c := HeaderChecksum(HEADER + |data|, ident, protocol, srcIp, dstIp);
    assert m[..HEADER] == Header(totalLen, ident, protocol, RawWord(c), srcIp, dstIp);
    HeaderFields(m, totalLen, ident, protocol, c, srcIp, dstIp);
    HeaderWithField(totalLen, ident, protocol, c, srcIp, dstIp);
    RawStoreVerifiesIff(Header(totalLen, ident, protocol, [0, 0], srcIp, dstIp), 10);
    EqualBytesIff(Total(Big, Header(totalLen, ident, protocol, [0, 0], srcIp, dstIp)));
  }

  /**
    The condition does fail: one byte of UDP from 192.168.1.2 to 192.168.1.1 has header sum 0x20879, not
    a multiple of 257.
   */
  lemma SomePacketIsRejected(x: Byte, behind: seq<Byte>)
    ensures var m := Packet([x], 0, 17, 0xC0A80102, 0xC0A80101) + behind; HoldsHeader(m) && Judge(m, 21) != Fine
  {
    hide Packet, Judge, HoldsHeader, HeaderSum;
    SomeHeaderSum();
    SentPacketIsValidIff([x], 0, 17, 0xC0A80102, 0xC0A80101, behind);
  }

  lemma SomeHeaderSum()
    ensures HeaderSum(21, 0, 17, 0xC0A80102, 0xC0A80101) == 0x20879
  {
    hide Total;
    assert Header(21, 0, 17, [0, 0], 0xC0A80102, 0xC0A80101)
        == [0x45, 0, 0, 21, 0, 0, 0, 0, 64, 17, 0, 0, 0xC0, 0xA8, 1, 2, 0xC0, 0xA8, 1, 1];
    SomeTotal([0x45, 0, 0, 21, 0, 0, 0, 0, 64, 17, 0, 0, 0xC0, 0xA8, 1, 2, 0xC0, 0xA8, 1, 1]);
  }

  lemma SomeTotal(h: seq<Byte>)
    requires |h| == 20
    requires h[0] == 0x45 && h[1] == 0 && h[2] == 0 && h[3] == 21
    requires h[4] == 0 && h[5] == 0 && h[6] == 0 && h[7] == 0
    requires h[8] == 64 && h[9] == 17 && h[10] == 0 && h[11] == 0
    requires h[12] == 0xC0 && h[13] == 0xA8 && h[14] == 1 && h[15] == 2
    requires h[16] == 0xC0 && h[17] == 0xA8 && h[18] == 1 && h[19] == 1
    ensures Total(Big, h) == 0x20879
  {
    hide Total;
    TotalFrom(h, 0);
    TotalFrom(h, 2);
    TotalFrom(h, 4);
    TotalFrom(h, 6);
    TotalFrom(h, 8);
    TotalFrom(h, 10);
    TotalFrom(h, 12);
    TotalFrom(h, 14);
    TotalFrom(h, 16);
    TotalFrom(h, 18);
    EmptyTail(h);
  }

  lemma EmptyTail(h: seq<Byte>)
    ensures h[0..] == h && Total(Big, h[|h|..]) == 0
  {
  }

  lemma TotalFrom(m: seq<Byte>, k: nat)
    requires k + 2 <= |m|
    ensures Total(Big, m[k..]) == WordOf(Big, m[k], m[k + 1]) + Total(Big, m[k + 2..])
  {
    assert m[k..][2..] == m[k + 2..];
  }

  // ---------------------------------------------------------------------------
  // The bytes themselves
  // ---------------------------------------------------------------------------

  lemma FourOf(m: seq<Byte>, k: nat, x: Word32)
    requires k + 4 <= |m| && m[k..k + 4] == NetworkLong(x)
    ensures Four(m, k) == x
  {
    LongIsItsBytes(x);
    var b := m[k..k + 4];
    assert b[0] == m[k] && b[1] == m[k + 1] && b[2] == m[k + 2] && b[3] == m[k + 3];
  }

  /**
    What stands where in a packet of ip_send_packet: version 4 and five words of header, the length modulo 2^16,
    the identification, no fragment, 64 hops, the protocol, both addresses, and the data behind.
   */
  lemma SentBytes(data: seq<Byte>, ident: Word16, protocol: Byte, srcIp: Word32, dstIp: Word32)
    ensures var m := Packet(data, ident, protocol, srcIp, dstIp);
            && |m| == 20 + |data| && m[0] == 0x45 && m[1] == 0
            && Two(m, 2) == (20 + |data|) % 0x1_0000 && Two(m, 4) == ident && Two(m, 6) == 0
            && m[8] == 64 && m[9] == protocol && Four(m, 12) == srcIp && Four(m, 16) == dstIp && m[20..] == data
  {
    hide HeaderChecksum;
    var m := Packet(data, ident, protocol, srcIp, dstIp);
    assert m[12..16] == NetworkLong(srcIp) && m[16..20] == NetworkLong(dstIp);
    hide NetworkLong;
    FourOf(m, 12, srcIp);
    FourOf(m, 16, dstIp);
    var front := Front((20 + |data|) % TWO16, ident, protocol);
    assert m[..10] == front;
    assert forall k :: 0 <= k < 10 ==> m[k] == front[k];
  }

  /** Its checksum field, read low byte first, takes the rest of the header to a multiple of 65535. */
  lemma SentChecksum(data: seq<Byte>, ident: Word16, protocol: Byte, srcIp: Word32, dstIp: Word32)
    ensures var m := Packet(data, ident, protocol, srcIp, dstIp);
            && |m| >= 20
            && (m[11] as int * 0x100 + m[10] + Number(m[..20][10 := 0][11 := 0])) % 65535 == 0
  {
    var n := HEADER + |data|;
    var c := HeaderChecksum(n, ident, protocol, srcIp, dstIp);
    var zeroed := Header(n % TWO16, ident, protocol, [0, 0], srcIp, dstIp);
    ChecksumIsResidue(zeroed, c);
    hide Number, NetworkLong, OnesSum, Total;
    var m := Packet(data, ident, protocol, srcIp, dstIp);
    assert m[..20] == Header(n % TWO16, ident, protocol, RawWord(c), srcIp, dstIp);
    assert m[..20][10 := 0][11 := 0] == zeroed;
    assert m[10] == m[..20][10] == c % 256 && m[11] == m[..20][11] == c / 256;
  }

  /** Version 4 with a header of 5 to 15 words, a length that is the received one, and a header sum of all ones. */
  predicate Sane(m: seq<Byte>, totalLen: nat)
    requires HoldsHeader(m)
  {
    && 0x45 <= m[0] <= 0x4F && 20 <= Two(m, 2) == totalLen
    && Number(m[..4 * (m[0] as int - 0x40)]) % 65535 == 0
  }

  /** The three refusals of ip_validate_header, and its acceptance, in terms of the bytes. */
  lemma VerdictIff(m: seq<Byte>, totalLen: nat)
    requires HoldsHeader(m)
    ensures Judge(m, totalLen) == HeaderError <==> !Sane(m, totalLen)
    ensures Judge(m, totalLen) == Discard <==> Sane(m, totalLen) && m[8] == 0
    ensures Judge(m, totalLen) == AddressError <==>
              Sane(m, totalLen) && m[8] != 0 && m[12..16] in {[0, 0, 0, 0], [255, 255, 255, 255]}
  {
    var ihl := m[0] as int % 16;
    if 0x45 <= m[0] <= 0x4F {
      var h := m[..4 * ihl];
      ChecksumIsResidue(h, 0);
      NumberIsPositive(h);
      hide Number, Total, OnesSum;
      AddressIsExtreme(m);
    }
  }

  lemma {:induction false} NumberIsPositive(m: seq<Byte>)
    requires m != [] && m[0] > 0
    ensures Number(m) > 0
  {
    if |m| > 1 {
      NumberIsPositive(m[..|m| - 1]);
    }
  }

  lemma AddressIsExtreme(m: seq<Byte>)
    requires |m| >= 16
    ensures LongAt(m, 12) == 0 <==> m[12..16] == [0, 0, 0, 0]
    ensures LongAt(m, 12) == 0xFFFF_FFFF <==> m[12..16] == [255, 255, 255, 255]
  {
    var a := m[12..16];
    assert a == [m[12], m[13], m[14], m[15]];
  }
}
