/**
  lib/string.c: copying bytes, and the byte order of the network on a little-endian machine.
 */
module CString {
  import opened CTypes

  /** Copies n bytes of the source, from s on, to the target from d on. */
  method Memcpy(dst: array<Byte>, d: nat, src: seq<Byte>, s: nat, n: nat)
    requires d + n <= dst.Length && s + n <= |src|
    modifies dst
    ensures forall k :: 0 <= k < dst.Length ==> dst[k] == if d <= k < d + n then src[s + k - d] else old(dst[k])
  {
    for i := 0 to n
      invariant forall k :: 0 <= k < dst.Length ==> dst[k] == if d <= k < d + i then src[s + k - d] else old(dst[k])
    {
      dst[d + i] := src[s + i];
    }
  }

  /** htons and ntohs */
  function Swap16(x: Word16): Word16 {
    x % 256 * 256 + x / 256
  }

  /** htonl and ntohl */
  function Swap32(x: Word32): Word32 {
    x % 256 * 0x100_0000 + x / 256 % 256 * 0x1_0000 + x / 0x1_0000 % 256 * 256 + x / 0x100_0000
  }

  /** Four bytes as a word, the first byte highest. */
  function Packed(a: Byte, b: Byte, c: Byte, d: Byte): Word32 {
    a * 0x100_0000 + b * 0x1_0000 + c * 256 + d
  }

  /** A 16-bit field stored through htons, and one stored raw. */
  function NetworkWord(x: Word16): seq<Byte> {
    [x / 256, x % 256]
  }

  function RawWord(x: Word16): seq<Byte> {
    [x % 256, x / 256]
  }

  /** A 32-bit field stored through htonl. */
  function NetworkLong(x: Word32): seq<Byte> {
    [x / 0x100_0000, x / 0x1_0000 % 256, x / 256 % 256, x % 256]
  }

  /** Two bytes, or four, as a number with the first byte highest. */
  function Two(m: seq<Byte>, k: nat): nat
    requires k + 2 <= |m|
  {
    m[k] as int * 0x100 + m[k + 1]
  }

  function Four(m: seq<Byte>, k: nat): nat
    requires k + 4 <= |m|
  {
    Two(m, k) * 0x1_0000 + Two(m, k + 2)
  }

  lemma BytesOf(a: Byte, b: Byte, c: Byte, d: Byte)
    ensures var x := Packed(a, b, c, d);
            x % 256 == d && x / 256 % 256 == c && x / 0x1_0000 % 256 == b && x / 0x100_0000 == a
  {
    var x := Packed(a, b, c, d);
    assert x / 256 == a * 0x1_0000 + b * 256 + c;
    assert x / 0x1_0000 == a * 256 + b;
  }

  lemma Swap32IsInvolution(x: Word32)
    ensures Swap32(Swap32(x)) == x
  {
    var a, b, c, d := x / 0x100_0000, x / 0x1_0000 % 256, x / 256 % 256, x % 256;
    assert x / 256 == x / 0x1_0000 * 256 + c && x / 0x1_0000 == a * 256 + b;
    BytesOf(d, c, b, a);
  }

  /** Stored first byte highest, and so read back; on this machine htonl turns the bytes round. */
  lemma LongIsItsBytes(x: Word32)
    ensures var b := NetworkLong(x); x == b[0] as int * 0x100_0000 + b[1] as int * 0x1_0000 + b[2] as int * 0x100 + b[3]
    ensures var b, s := NetworkLong(x), NetworkLong(Swap32(x));
            s[0] == b[3] && s[1] == b[2] && s[2] == b[1] && s[3] == b[0]
  {
    var a, b, c, d := x / 0x100_0000, x / 0x1_0000 % 256, x / 256 % 256, x % 256;
    assert x / 256 == x / 0x1_0000 * 256 + c && x / 0x1_0000 == a * 256 + b;
    BytesOf(d, c, b, a);
  }
}
