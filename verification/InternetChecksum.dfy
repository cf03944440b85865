/**
  The Internet checksum (RFC 1071) as net/ip.c and net/udp_checksum.c compute it: two word
  orders, two ways of folding carries, one one's-complement sum.
 */
module InternetChecksum {
  import opened CTypes
  import opened CString

  /** How a 16-bit word is read from two bytes: ntohs of a raw word, or the raw word itself. */
  datatype Order = Big | Little

  function WordOf(o: Order, a: Byte, b: Byte): Word16 {
    if o == Big then a * 256 + b else b * 256 + a
  }

  /** The plain sum of the words. A last odd byte counts as the high byte of a word in both functions. */
  function Total(o: Order, data: seq<Byte>): nat {
    if data == [] then 0
    else if |data| == 1 then data[0] * 256
    else WordOf(o, data[0], data[1]) + Total(o, data[2..])
  }

  /** The one's-complement sum of words whose plain sum is t. */
  function OnesSum(t: nat): Word16 {
    if t == 0 then 0 else 1 + (t - 1) % 65535
  }

  // ---------------------------------------------------------------------------
  // Arithmetic modulo 65535
  // ---------------------------------------------------------------------------

  ghost predicate Congruent(a: int, b: int) {
    exists k: int :: a - b == k * 65535
  }

  lemma OnesSumIsCongruent(t: nat)
    ensures Congruent(OnesSum(t), t)
    ensures OnesSum(t) == 0 <==> t == 0
  {
    if t > 0 {
      var q := (t - 1) / 65535;
      assert t - 1 == q * 65535 + (t - 1) % 65535;
      assert OnesSum(t) - t == (-q) * 65535;
    } else {
      assert 0 - 0 == 0 * 65535;
    }
  }

  /** A 16-bit number congruent to t, and 0 only if t is, is the one's-complement sum. */
  lemma OnesSumIsUnique(s: Word16, t: nat)
    requires Congruent(s, t) && (s == 0 <==> t == 0)
    ensures s == OnesSum(t)
  {
    OnesSumIsCongruent(t);
    var i: int :| s - t == i * 65535;
    var j: int :| OnesSum(t) - t == j * 65535;
    assert s - OnesSum(t) == (i - j) * 65535;
  }

  lemma CongruentAdds(a: int, b: int, c: int, d: int)
    requires Congruent(a, b) && Congruent(c, d)
    ensures Congruent(a + c, b + d)
  {
    var i: int :| a - b == i * 65535;
    var j: int :| c - d == j * 65535;
    assert (a + c) - (b + d) == (i + j) * 65535;
  }

  lemma CongruentSame(a: int)
    ensures Congruent(a, a)
  {
    assert a - a == 0 * 65535;
  }

  lemma CongruentSym(a: int, b: int)
    requires Congruent(a, b)
    ensures Congruent(b, a)
  {
    CongruentSame(b);
    CongruentTrans(a, b, b);
  }

  lemma CongruentTrans(a: int, b: int, c: int)
    requires Congruent(a, b) && Congruent(b, c)
    ensures Congruent(a, c) && Congruent(c, a)
  {
    var i: int :| a - b == i * 65535;
    var j: int :| b - c == j * 65535;
    assert a - c == (i + j) * 65535 && c - a == (-(i + j)) * 65535;
  }

  // ---------------------------------------------------------------------------
  // The two ways of folding
  // ---------------------------------------------------------------------------

  /** Adding the carries to the low 16 bits keeps the residue, and does not reach 0. */
  lemma FoldKeepsResidue(sum: Word32, t: nat)
    requires Congruent(sum, t) && (sum == 0 <==> t == 0)
    ensures var f := sum % TWO16 + sum / TWO16; Congruent(f, t) && (f == 0 <==> t == 0) && (sum >= TWO16 ==> f < sum)
  {
    var h := sum / TWO16;
    var f := sum % TWO16 + h;
    assert sum == h * TWO16 + sum % TWO16;
    assert f - sum == (-h) * 65535;
    assert Congruent(f, sum);
    CongruentTrans(f, sum, t);
  }

  /** Adding a word with one end-around carry. */
  function AddCarry(sum: Word16, w: Word16): Word16 {
    var s := sum as int + w;
    if s / TWO16 % 2 == 1 then s % TWO16 + 1 else s
  }

  lemma AddCarryIsOnesSum(t: nat, w: Word16)
    ensures AddCarry(OnesSum(t), w) == OnesSum(t + w)
  {
    var sum := OnesSum(t);
    var s := sum as int + w;
    var r := AddCarry(sum, w);
    assert r == s || r == s - 65535;
    assert r - s == 0 * 65535 || r - s == (-1) * 65535;
    assert Congruent(r, s);
    OnesSumIsCongruent(t);
    CongruentSame(w);
    CongruentAdds(sum, t, w, w);
    CongruentTrans(r, s, t + w);
    OnesSumIsUnique(r, t + w);
  }

  // ---------------------------------------------------------------------------
  // Sums of sequences
  // ---------------------------------------------------------------------------

  lemma {:induction false} TotalAppend(o: Order, a: seq<Byte>, b: seq<Byte>)
    requires |a| % 2 == 0
    ensures Total(o, a + b) == Total(o, a) + Total(o, b)
  {
    if a == [] {
      assert a + b == b;
    } else {
      assert (a + b)[2..] == a[2..] + b;
      TotalAppend(o, a[2..], b);
    }
  }

  lemma TotalPrefix(o: Order, data: seq<Byte>, i: nat)
    requires 2 * i + 2 <= |data|
    ensures Total(o, data[..2 * i + 2]) == Total(o, data[..2 * i]) + WordOf(o, data[2 * i], data[2 * i + 1])
  {
    var w := data[2 * i..2 * i + 2];
    assert data[..2 * i + 2] == data[..2 * i] + w;
    TotalAppend(o, data[..2 * i], w);
    assert w[2..] == [];
  }

  lemma TotalOdd(o: Order, data: seq<Byte>)
    requires |data| % 2 == 1
    ensures Total(o, data) == Total(o, data[..|data| - 1]) + (data[|data| - 1] as int) * 256
  {
    assert data == data[..|data| - 1] + [data[|data| - 1]];
    TotalAppend(o, data[..|data| - 1], [data[|data| - 1]]);
  }

  /** ip_checksum, with its folding loops inside and after the summing loop. */
  method IpChecksum(data: seq<Byte>) returns (c: Word16)
    ensures c == 65535 - OnesSum(Total(Big, data))
  {
    hide Total, OnesSum;
    var sum: Word32 := 0;
    ghost var t: nat := 0;
    CongruentSame(0);
    NothingToSum(data);
    for i := 0 to |data| / 2
      invariant t == Total(Big, data[..2 * i])
      invariant sum < TWO16 && Congruent(sum, t) && (sum == 0 <==> t == 0)
    {
      var w := WordOf(Big, data[2 * i], data[2 * i + 1]);
      TotalPrefix(Big, data, i);
      CongruentSame(w);
      CongruentAdds(sum, t, w, w);
      t := t + w;
      sum := FoldAll(sum + w, t);
    }
    assert data[..2 * (|data| / 2)] == if |data| % 2 == 1 then data[..|data| - 1] else data;
    if |data| % 2 == 1 {
      var w := data[|data| - 1] as int * 256;
      TotalOdd(Big, data);
      CongruentSame(w);
      CongruentAdds(sum, t, w, w);
      t := t + w;
      sum := sum + w;
    }
    sum := FoldAll(sum, t);
    OnesSumIsUnique(sum, t);
    return 65535 - sum;
  }

  lemma NothingToSum(data: seq<Byte>)
    ensures Total(Big, data[..0]) == 0
  {
  }

  /** Folds the carries above 16 bits back into the sum until none is left. */
  method FoldAll(sum0: Word32, ghost t: nat) returns (sum: Word32)
    requires Congruent(sum0, t) && (sum0 == 0 <==> t == 0)
    ensures sum < TWO16 && Congruent(sum, t) && (sum == 0 <==> t == 0)
  {
    sum := sum0;
    while sum / TWO16 != 0
      invariant Congruent(sum, t) && (sum == 0 <==> t == 0)
      decreases sum
    {
      FoldKeepsResidue(sum, t);
      sum := sum % TWO16 + sum / TWO16;
    }
  }

  /** The words of the pseudo-header as they lie in memory: addresses, zero and protocol 17, length. */
  function PseudoWords(srcIp: Word32, dstIp: Word32, udpLen: Word16): seq<Word16> {
    [srcIp % TWO16, srcIp / TWO16, dstIp % TWO16, dstIp / TWO16, 17 * 256, udpLen]
  }

  function SumOf(words: seq<Word16>): nat {
    if words == [] then 0 else SumOf(words[..|words| - 1]) + words[|words| - 1]
  }

  function UdpTotal(data: seq<Byte>, srcIp: Word32, dstIp: Word32, udpLen: Word16): nat {
    SumOf(PseudoWords(srcIp, dstIp, udpLen)) + Total(Little, data)
  }

  /** udp_checksum, which adds one end-around carry after each word. */
  method UdpChecksum(data: seq<Byte>, srcIp: Word32, dstIp: Word32, udpLen: Word16) returns (c: Word16)
    ensures c == 65535 - OnesSum(UdpTotal(data, srcIp, dstIp, udpLen))
  {
    hide OnesSum, AddCarry, Total, SumOf;
    var sum: Word16 := 0;
    var phdr := PseudoWords(srcIp, dstIp, udpLen);
    NothingSummed(data, phdr);
    for i := 0 to |phdr|
      invariant sum == OnesSum(SumOf(phdr[..i]))
    {
      SumOneMore(phdr, i);
      AddCarryIsOnesSum(SumOf(phdr[..i]), phdr[i]);
      sum := AddCarry(sum, phdr[i]);
    }
    assert phdr[..|phdr|] == phdr;
    ghost var base := SumOf(phdr);
    for i := 0 to |data| / 2
      invariant sum == OnesSum(base + Total(Little, data[..2 * i]))
    {
      TotalPrefix(Little, data, i);
      var w := WordOf(Little, data[2 * i], data[2 * i + 1]);
      AddCarryIsOnesSum(base + Total(Little, data[..2 * i]), w);
      sum := AddCarry(sum, w);
    }
    assert data[..2 * (|data| / 2)] == if |data| % 2 == 1 then data[..|data| - 1] else data;
    if |data| % 2 == 1 {
      TotalOdd(Little, data);
      var last: Word16 := data[|data| - 1] as int * 256;
      AddCarryIsOnesSum(base + Total(Little, data[..|data| - 1]), last);
      sum := AddCarry(sum, last);
    }
    return 65535 - sum;
  }

  lemma NothingSummed(data: seq<Byte>, words: seq<Word16>)
    ensures SumOf(words[..0]) == 0 && Total(Little, data[..0]) == 0 && OnesSum(0) == 0
  {
  }

  lemma SumOneMore(words: seq<Word16>, i: nat)
    requires i < |words|
    ensures SumOf(words[..i + 1]) == SumOf(words[..i]) + words[i]
  {
    assert words[..i + 1][..i] == words[..i];
  }

  // ---------------------------------------------------------------------------
  // The message as one number
  // ---------------------------------------------------------------------------

  /** All the bytes as one number, the first byte highest. */
  function Number(m: seq<Byte>): nat {
    if m == [] then 0 else Number(m[..|m| - 1]) * 256 + m[|m| - 1]
  }

  lemma NumberOneWord(m: seq<Byte>, i: nat)
    requires i + 2 <= |m|
    ensures Number(m[..i + 2]) == Number(m[..i]) * TWO16 + (m[i] as int * 256 + m[i + 1])
  {
    assert m[..i + 2][..i + 1] == m[..i + 1] && m[..i + 1][..i] == m[..i];
  }

  lemma {:induction false} EvenNumber(m: seq<Byte>, i: nat)
    requires 2 * i <= |m|
    ensures Congruent(Total(Big, m[..2 * i]), Number(m[..2 * i]))
    ensures Total(Big, m[..2 * i]) == 0 <==> Number(m[..2 * i]) == 0
  {
    hide Total;
    if i == 0 {
      NothingToSum(m);
      CongruentSame(0);
    } else {
      var k := 2 * (i - 1);
      EvenNumber(m, i - 1);
      TotalPrefix(Big, m, i - 1);
      NumberOneWord(m, k);
      NextWord(Total(Big, m[..k]), Number(m[..k]), m[k] as int * 256 + m[k + 1]);
    }
  }

  lemma NextWord(t: nat, n: nat, w: nat)
    requires Congruent(t, n) && (t == 0 <==> n == 0)
    ensures Congruent(t + w, n * TWO16 + w) && (t + w == 0 <==> n * TWO16 + w == 0)
  {
    var j: int :| t - n == j * 65535;
    assert (t + w) - (n * TWO16 + w) == (j - n) * 65535;
  }

  /**
    The sum of a message is, modulo 65535, the message read as one number, with a zero byte behind it
    where its length is odd; and it is 0 only if the number is.
   */
  lemma TotalIsNumber(m: seq<Byte>)
    ensures var n := Number(m) * if |m| % 2 == 0 then 1 else 256;
            Congruent(Total(Big, m), n) && (Total(Big, m) == 0 <==> n == 0)
  {
    hide Total, Congruent;
    EvenNumber(m, |m| / 2);
    var front := m[..2 * (|m| / 2)];
    if |m| % 2 == 0 {
      assert front == m;
    } else {
      assert front == m[..|m| - 1];
      TotalOdd(Big, m);
      NextWord(Total(Big, front), Number(front), m[|m| - 1] as int * 256);
    }
  }

  /**
    So ip_checksum is the number from 0 to 65535 that takes the message to a multiple of 65535; 65535
    for all zeros.
   */
  lemma ChecksumIsResidue(m: seq<Byte>, c: Word16)
    ensures var n := Number(m) * if |m| % 2 == 0 then 1 else 256;
            c == 65535 - OnesSum(Total(Big, m)) <==> (c + n) % 65535 == 0 && (c == 65535 <==> n == 0)
  {
    var n, s := Number(m) * (if |m| % 2 == 0 then 1 else 256), OnesSum(Total(Big, m));
    TotalIsNumber(m);
    OnesSumIsCongruent(Total(Big, m));
    hide Total, OnesSum;
    CongruentTrans(s, Total(Big, m), n);
    var j: int :| s - n == j * 65535;
    OneResidue(c, s, n, j);
  }

  lemma OneResidue(c: Word16, s: Word16, n: nat, j: int)
    requires s - n == j * 65535 && (s == 0 <==> n == 0)
    ensures c == 65535 - s <==> (c + n) % 65535 == 0 && (c == 65535 <==> n == 0)
  {
    var d := c - (65535 - s);
    assert c + n == d + (1 - j) * 65535;
    Residues(d, 1 - j);
    assert -65535 <= d <= 65535;
  }

  lemma Residues(d: int, k: int)
    ensures (d + k * 65535) % 65535 == d % 65535
  {
    assert d == d / 65535 * 65535 + d % 65535;
    assert d + k * 65535 == (d / 65535 + k) * 65535 + d % 65535;
  }

  // ---------------------------------------------------------------------------
  // A message that carries its own checksum
  // ---------------------------------------------------------------------------

  /** The message with the 16-bit field at k set to the word c, written in the given order. */
  function WithWord(o: Order, m: seq<Byte>, k: nat, c: Word16): (m': seq<Byte>)
    requires k + 2 <= |m|
    ensures |m'| == |m|
  {
    if o == Big then m[k := c / 256][k + 1 := c % 256] else m[k := c % 256][k + 1 := c / 256]
  }

  lemma TotalWithWord(o: Order, m: seq<Byte>, k: nat, c: Word16)
    requires k % 2 == 0 && k + 2 <= |m| && m[k] == 0 && m[k + 1] == 0
    ensures Total(o, WithWord(o, m, k, c)) == Total(o, m) + c
  {
    var m' := WithWord(o, m, k, c);
    var before, after := m[..k], m[k + 2..];
    var f, z := [m'[k], m'[k + 1]], [m[k], m[k + 1]];
    assert m == before + (z + after) && m' == before + (f + after);
    TotalAppend(o, before, z + after);
    TotalAppend(o, before, f + after);
    assert (f + after)[2..] == after && (z + after)[2..] == after;
  }

  /** Adding the complement of a one's-complement sum gives all ones. */
  lemma ComplementCancels(t: nat)
    ensures OnesSum(t + (65535 - OnesSum(t))) == 65535
  {
    OnesSumIsCongruent(t);
    var j: int :| OnesSum(t) - t == j * 65535;
    assert 65535 - (t + (65535 - OnesSum(t))) == j * 65535;
    OnesSumIsUnique(65535, t + (65535 - OnesSum(t)));
  }

  /**
    For every message, whatever its length and whatever else is summed with it: put the checksum
    in a zeroed field at an even offset and recomputation gives 0. This covers the case where the
    checksum itself comes out 0.
   */
  lemma ChecksumVerifies(o: Order, base: nat, m: seq<Byte>, k: nat)
    requires k % 2 == 0 && k + 2 <= |m| && m[k] == 0 && m[k + 1] == 0
    ensures var c: Word16 := 65535 - OnesSum(base + Total(o, m));
            65535 - OnesSum(base + Total(o, WithWord(o, m, k, c))) == 0
  {
    var c: Word16 := 65535 - OnesSum(base + Total(o, m));
    TotalWithWord(o, m, k, c);
    ComplementCancels(base + Total(o, m));
  }

  // ---------------------------------------------------------------------------
  // Byte order
  // ---------------------------------------------------------------------------

  lemma SwapIsTimes256(x: Word16)
    ensures Congruent(Swap16(x), 256 * x) && (Swap16(x) == 0 <==> x == 0)
  {
    var h, l := x / 256, x % 256;
    assert x == h * 256 + l;
    assert Swap16(x) - 256 * x == (-h) * 65535;
  }

  lemma CongruentTimes(a: int, b: int, c: int)
    requires Congruent(a, b)
    ensures Congruent(c * a, c * b)
  {
    var i: int :| a - b == i * 65535;
    assert c * a - c * b == c * (a - b) == (c * i) * 65535;
  }

  lemma {:induction false} LittleIsTimes256(m: seq<Byte>)
    requires |m| % 2 == 0
    ensures Congruent(Total(Little, m), 256 * Total(Big, m))
    ensures Total(Little, m) == 0 <==> Total(Big, m) == 0
  {
    if m == [] {
      CongruentSame(0);
    } else {
      LittleIsTimes256(m[2..]);
      var a: int, b: int := m[0], m[1];
      assert WordOf(Little, a, b) - 256 * WordOf(Big, a, b) == (-a) * 65535;
      assert Congruent(WordOf(Little, a, b), 256 * WordOf(Big, a, b));
      CongruentAdds(WordOf(Little, a, b), 256 * WordOf(Big, a, b), Total(Little, m[2..]), 256 * Total(Big, m[2..]));
      assert 256 * Total(Big, m) == 256 * WordOf(Big, a, b) + 256 * Total(Big, m[2..]);
    }
  }

  lemma SwappedSum(t: nat, u: nat)
    requires Congruent(u, 256 * t) && (u == 0 <==> t == 0)
    ensures OnesSum(u) == Swap16(OnesSum(t))
  {
    OnesSumIsCongruent(t);
    SwapIsTimes256(OnesSum(t));
    CongruentTimes(OnesSum(t), t, 256);
    CongruentTrans(Swap16(OnesSum(t)), 256 * OnesSum(t), 256 * t);
    CongruentSym(u, 256 * t);
    CongruentTrans(Swap16(OnesSum(t)), 256 * t, u);
    OnesSumIsUnique(Swap16(OnesSum(t)), u);
  }

  /** Bytes differing by less than 257 are equal modulo 257, and 255 * 257 = 65535. */
  lemma EqualBytes(a: int, b: int)
    requires -257 < a - b < 257 && Congruent(255 * a, 255 * b)
    ensures a == b
  {
    var k: int :| 255 * a - 255 * b == k * 65535;
    assert a - b == k * 257;
  }

  /**
    Byte-order independence, section 2(B) of RFC 1071: summing raw little-endian words gives the
    byte swap of the sum over ntohs words if and only if the length is even or the last byte is 0.
    For an odd length the RFC puts the last byte first in memory order, which for raw
    little-endian words is the low byte; udp_checksum makes it the high byte.
   */
  lemma ByteOrderIndependentIff(m: seq<Byte>)
    ensures OnesSum(Total(Little, m)) == Swap16(OnesSum(Total(Big, m))) <==> |m| % 2 == 0 || m[|m| - 1] == 0
  {
    hide Total, OnesSum, Swap16, Congruent;
    if |m| % 2 == 0 {
      LittleIsTimes256(m);
      SwappedSum(Total(Big, m), Total(Little, m));
    } else {
      var last: int := m[|m| - 1];
      var front := m[..|m| - 1];
      LittleIsTimes256(front);
      TotalOdd(Little, m);
      TotalOdd(Big, m);
      var t, u := Total(Big, m), Total(Little, front) + last;
      SwappedOdd(front, last);
      assert OnesSum(u) == Swap16(OnesSum(t));
      if last != 0 {
        DifferentSums(u, Total(Little, m), last);
      }
    }
  }

  /** The one byte 1 is a message of odd length that differs: its sums are 256 in both orders. */
  lemma ByteOrderMatters()
    ensures OnesSum(Total(Little, [1])) == 256 && Swap16(OnesSum(Total(Big, [1]))) == 1
  {
  }

  lemma SwappedOdd(front: seq<Byte>, last: int)
    requires |front| % 2 == 0 && 0 <= last < 256
    ensures OnesSum(Total(Little, front) + last) == Swap16(OnesSum(Total(Big, front) + last * 256))
  {
    LittleIsTimes256(front);
    var b, l := Total(Big, front), Total(Little, front);
    assert last - 256 * (last * 256) == (-last) * 65535;
    assert Congruent(last, 256 * (last * 256));
    CongruentAdds(l, 256 * b, last, 256 * (last * 256));
    assert 256 * (b + last * 256) == 256 * b + 256 * (last * 256);
    SwappedSum(b + last * 256, l + last);
  }

  lemma DifferentSums(u: nat, v: nat, last: int)
    requires 0 < last < 256 && v == u + 255 * last
    ensures OnesSum(u) != OnesSum(v)
  {
    if OnesSum(u) == OnesSum(v) {
      OnesSumIsCongruent(u);
      OnesSumIsCongruent(v);
      CongruentSym(OnesSum(v), v);
      CongruentTrans(v, OnesSum(v), u);
      var k: int :| v - u == k * 65535;
      assert 255 * last - 255 * 0 == k * 65535;
      EqualBytes(last, 0);
    }
  }

  /**
    ip_send_packet stores the result of ip_checksum without htons, so on a little-endian machine
    with its bytes exchanged. Recomputation then gives 0 if and only if the two bytes are equal.
   */
  lemma RawStoreVerifiesIff(m: seq<Byte>, k: nat)
    requires k % 2 == 0 && k + 2 <= |m| && m[k] == 0 && m[k + 1] == 0
    ensures var c: Word16 := 65535 - OnesSum(Total(Big, m));
            65535 - OnesSum(Total(Big, WithWord(Little, m, k, c))) == 0 <==> c / 256 == c % 256
  {
    hide Total, OnesSum;
    var t := Total(Big, m);
    var c: Word16 := 65535 - OnesSum(t);
    assert WithWord(Little, m, k, c) == WithWord(Big, m, k, Swap16(c));
    TotalWithWord(Big, m, k, Swap16(c));
    SwappedComplement(t);
  }

  /** The two bytes of a checksum are equal exactly when the plain sum is divisible by 257. */
  lemma EqualBytesIff(t: nat)
    ensures var c: Word16 := 65535 - OnesSum(t); c / 256 == c % 256 <==> t % 257 == 0
  {
    var c: Word16 := 65535 - OnesSum(t);
    OnesSumIsCongruent(t);
    hide OnesSum;
    var k: int :| OnesSum(t) - t == k * 65535;
    BothDivisible(c, t, 255 - k * 255);
    EqualHalvesIff(c / 256, c % 256);
  }

  lemma BothDivisible(c: int, t: int, q: int)
    requires c == q * 257 - t
    ensures c % 257 == 0 <==> t % 257 == 0
  {
    if t % 257 == 0 {
      assert c == (q - t / 257) * 257;
    }
    if c % 257 == 0 {
      assert t == (q - c / 257) * 257;
    }
  }

  lemma EqualHalvesIff(h: int, l: int)
    requires 0 <= h < 256 && 0 <= l < 256
    ensures (h * 256 + l) % 257 == 0 <==> h == l
  {
    var x := h * 256 + l;
    assert x == h * 257 + (l - h);
    if x % 257 == 0 {
      assert l - h == (x / 257 - h) * 257;
    }
  }

  lemma SwappedComplement(t: nat)
    ensures var c: Word16 := 65535 - OnesSum(t); OnesSum(t + Swap16(c)) == 65535 <==> c / 256 == c % 256
  {
    var c: Word16 := 65535 - OnesSum(t);
    ComplementCancels(t);
    if c / 256 == c % 256 {
      assert Swap16(c) == c;
    } else if OnesSum(t + Swap16(c)) == 65535 {
      OnesSumIsCongruent(t + Swap16(c));
      OnesSumIsCongruent(t + c);
      hide OnesSum;
      CongruentSym(65535, t + Swap16(c));
      CongruentTrans(t + Swap16(c), 65535, t + c);
      var j: int :| t + Swap16(c) - (t + c) == j * 65535;
      assert 255 * (c % 256) - 255 * (c / 256) == j * 65535;
      EqualBytes(c % 256, c / 256);
    }
  }
}
