/**
  The buffered key stream of net/crypto/chacha20.c. Every statement holds for any block function
  from 16 words to 64 bytes; the rounds themselves play no part. Bytes that are packed into words
  are numbers here, bytes that are XORed are bit vectors.
 */
module ChaCha20 {
  import opened CTypes
  import opened CString

  type State = s: seq<Word32> | |s| == 16 witness seq(16, _ => 0)
  type Block = b: seq<bv8> | |b| == 64 witness seq(64, _ => 0)
  type Key = k: seq<Byte> | |k| == 32 witness seq(32, _ => 0)
  type Nonce = n: seq<Byte> | |n| == 12 witness seq(12, _ => 0)

  // ---------------------------------------------------------------------------
  // The key stream
  // ---------------------------------------------------------------------------

  /** The state with its block counter, word 12, moved on by k. */
  function CountedBy(start: State, k: nat): State {
    start[12 := Wrap32(start[12] + k)]
  }

  function Keystream(block: State -> Block, start: State, n: nat): bv8 {
    block(CountedBy(start, n / 64))[n % 64]
  }

  /** The byte that b becomes at position n of the stream. */
  function Masked(block: State -> Block, start: State, b: bv8, n: nat): bv8 {
    b ^ Keystream(block, start, n)
  }

  /** What the bytes `data` become when they stand at position pos of the stream. */
  function Crypted(block: State -> Block, start: State, pos: nat, data: seq<bv8>): (r: seq<bv8>)
    ensures |r| == |data|
  {
    seq(|data|, i requires 0 <= i < |data| => Masked(block, start, data[i], pos + i))
  }

  function Flat(pieces: seq<seq<bv8>>): seq<bv8> {
    if pieces == [] then [] else pieces[0] + Flat(pieces[1..])
  }

  /** The outcome of one call for each piece, in order. */
  function CryptedPieces(block: State -> Block, start: State, pos: nat, pieces: seq<seq<bv8>>): seq<bv8>
    decreases |pieces|
  {
    if pieces == [] then []
    else Crypted(block, start, pos, pieces[0]) + CryptedPieces(block, start, pos + |pieces[0]|, pieces[1..])
  }

  /** However a message is cut into pieces, empty ones included, the calls together give what one call gives. */
  lemma {:induction false} CutsDoNotMatter(block: State -> Block, start: State, pos: nat, pieces: seq<seq<bv8>>)
    ensures CryptedPieces(block, start, pos, pieces) == Crypted(block, start, pos, Flat(pieces))
    decreases |pieces|
  {
    if pieces != [] {
      CutsDoNotMatter(block, start, pos + |pieces[0]|, pieces[1..]);
      CryptedAppend(block, start, pos, pieces[0], Flat(pieces[1..]));
    }
  }

  lemma CryptedAppend(block: State -> Block, start: State, pos: nat, a: seq<bv8>, b: seq<bv8>)
    ensures Crypted(block, start, pos, a + b) == Crypted(block, start, pos, a) + Crypted(block, start, pos + |a|, b)
  {
  }

  /** Another context with the same key and nonce takes the encryption back, each side cutting as it likes. */
  lemma DecryptionUndoesEncryption(block: State -> Block, start: State, pieces: seq<seq<bv8>>, others: seq<seq<bv8>>)
    requires Flat(others) == CryptedPieces(block, start, 0, pieces)
    ensures CryptedPieces(block, start, 0, others) == Flat(pieces)
  {
    CutsDoNotMatter(block, start, 0, pieces);
    CutsDoNotMatter(block, start, 0, others);
    var data := Flat(pieces);
    forall i | 0 <= i < |data| ensures Crypted(block, start, 0, Flat(others))[i] == data[i] {
      XorTwice(data[i], Keystream(block, start, i));
    }
  }

  lemma XorTwice(a: bv8, k: bv8)
    ensures (a ^ k) ^ k == a
  {
  }

  /** Two blocks have the same state, and so the same bytes, exactly when their numbers agree modulo 2^32. */
  lemma CountersRepeatIff(start: State, j: nat, k: nat)
    ensures CountedBy(start, j) == CountedBy(start, k) <==> (j - k) % TWO32 == 0
  {
    var x, y := CountedBy(start, j), CountedBy(start, k);
    assert x[12] == Wrap32(start[12] + j) && y[12] == Wrap32(start[12] + k);
    if x[12] == y[12] {
      assert x == y;
    }
  }

  /** So the stream has period 2^38 bytes: the counter wraps silently. */
  lemma StreamRepeats(block: State -> Block, start: State, n: nat)
    ensures Keystream(block, start, n + 64 * TWO32) == Keystream(block, start, n)
  {
    var m := n + 64 * TWO32;
    assert m / 64 == n / 64 + TWO32 && m % 64 == n % 64;
    CountersRepeatIff(start, m / 64, n / 64);
  }

  /** The bytes of n blocks, with the counter going up from its start, modulo 2^32. */
  function Blocks(block: State -> Block, start: State, n: nat): (r: seq<bv8>)
    ensures |r| == 64 * n
  {
    if n == 0 then [] else Blocks(block, start, n - 1) + block(start[12 := (start[12] + n - 1) % TWO32])
  }

  lemma {:induction false} BlockByte(block: State -> Block, start: State, n: nat, j: nat)
    requires j < 64 * n
    ensures Blocks(block, start, n)[j] == Keystream(block, start, j)
  {
    if j < 64 * (n - 1) {
      BlockByte(block, start, n - 1, j);
    } else {
      assert j / 64 == n - 1 && j % 64 == j - 64 * (n - 1);
    }
  }

  /** What encryption adds to a message, wherever it is in the stream, are the bytes of the blocks. */
  lemma EncryptionAddsBlocks(block: State -> Block, start: State, pos: nat, data: seq<bv8>, n: nat, i: nat)
    requires i < |data| && pos + |data| <= 64 * n
    ensures Crypted(block, start, pos, data)[i] ^ data[i] == Blocks(block, start, n)[pos + i]
  {
    BlockByte(block, start, n, pos + i);
    XorTwice(Keystream(block, start, pos + i), data[i]);
    XorSwaps(data[i], Keystream(block, start, pos + i));
  }

  lemma XorSwaps(a: bv8, k: bv8)
    ensures a ^ k == k ^ a
  {
  }

  // ---------------------------------------------------------------------------
  // The initial state
  // ---------------------------------------------------------------------------

  function WordAt(bytes: seq<Byte>, i: nat): Word32
    requires 4 * i + 4 <= |bytes|
  {
    Packed(bytes[4 * i], bytes[4 * i + 1], bytes[4 * i + 2], bytes[4 * i + 3])
  }

  // "expand 32-byte k"
  const SIGMA: seq<Byte> :=
    [0x65, 0x78, 0x70, 0x61, 0x6E, 0x64, 0x20, 0x33, 0x32, 0x2D, 0x62, 0x79, 0x74, 0x65, 0x20, 0x6B]

  function InitialState(key: Key, nonce: Nonce): State {
    seq(4, i requires 0 <= i < 4 => WordAt(SIGMA, i)) + seq(8, i requires 0 <= i < 8 => WordAt(key, i))
    + [0] + seq(3, i requires 0 <= i < 3 => WordAt(nonce, i))
  }

  lemma WordBytes(bytes: seq<Byte>, i: nat)
    requires 4 * i + 4 <= |bytes|
    ensures NetworkLong(WordAt(bytes, i)) == bytes[4 * i..4 * i + 4]
  {
    BytesOf(bytes[4 * i], bytes[4 * i + 1], bytes[4 * i + 2], bytes[4 * i + 3]);
  }

  lemma SigmaIsText()
    ensures |SIGMA| == |"expand 32-byte k"|
    ensures forall i :: 0 <= i < |SIGMA| ==> SIGMA[i] as char == "expand 32-byte k"[i]
  {
  }

  /**
    Word by word, first byte highest: the text "expand 32-byte k", the key, the counter 0 and the nonce
    can be read off the state.
   */
  lemma InitialStateBytes(key: Key, nonce: Nonce)
    ensures var s := InitialState(key, nonce);
            && (forall i :: 0 <= i < 4 ==> NetworkLong(s[i]) == SIGMA[4 * i..4 * i + 4])
            && (forall i :: 0 <= i < 8 ==> NetworkLong(s[4 + i]) == key[4 * i..4 * i + 4])
            && s[12] == 0
            && (forall i :: 0 <= i < 3 ==> NetworkLong(s[13 + i]) == nonce[4 * i..4 * i + 4])
  {
    hide NetworkLong;
    forall i | 0 <= i < 4 ensures NetworkLong(InitialState(key, nonce)[i]) == SIGMA[4 * i..4 * i + 4] {
      WordBytes(SIGMA, i);
    }
    forall i | 0 <= i < 8 ensures NetworkLong(InitialState(key, nonce)[4 + i]) == key[4 * i..4 * i + 4] {
      WordBytes(key, i);
    }
    forall i | 0 <= i < 3 ensures NetworkLong(InitialState(key, nonce)[13 + i]) == nonce[4 * i..4 * i + 4] {
      WordBytes(nonce, i);
    }
  }

  lemma WordsDetermineBytes(x: seq<Byte>, y: seq<Byte>, n: nat)
    requires |x| == |y| == 4 * n
    requires forall i :: 0 <= i < n ==> WordAt(x, i) == WordAt(y, i)
    ensures x == y
  {
    forall k | 0 <= k < |x| ensures x[k] == y[k] {
      var i := k / 4;
      assert WordAt(x, i) == WordAt(y, i);
      BytesOf(x[4 * i], x[4 * i + 1], x[4 * i + 2], x[4 * i + 3]);
      BytesOf(y[4 * i], y[4 * i + 1], y[4 * i + 2], y[4 * i + 3]);
      assert k == 4 * i || k == 4 * i + 1 || k == 4 * i + 2 || k == 4 * i + 3;
    }
  }

  /**
    Nothing of the key or the nonce is lost in packing: no state that one key and nonce ever
    hand to the block function, at any block, is handed to it under another key or nonce.
   */
  lemma StatesNeverShared(key: Key, nonce: Nonce, j: nat, key': Key, nonce': Nonce, k: nat)
    ensures CountedBy(InitialState(key, nonce), j) == CountedBy(InitialState(key', nonce'), k)
            <==> key == key' && nonce == nonce' && (j - k) % TWO32 == 0
  {
    var s, s' := InitialState(key, nonce), InitialState(key', nonce');
    var x, y := CountedBy(s, j), CountedBy(s', k);
    if x == y {
      forall i | 0 <= i < 8 ensures WordAt(key, i) == WordAt(key', i) {
        assert x[4 + i] == WordAt(key, i) && y[4 + i] == WordAt(key', i);
      }
      forall i | 0 <= i < 3 ensures WordAt(nonce, i) == WordAt(nonce', i) {
        assert x[13 + i] == WordAt(nonce, i) && y[13 + i] == WordAt(nonce', i);
      }
      WordsDetermineBytes(key, key', 8);
      WordsDetermineBytes(nonce, nonce', 3);
      CountersRepeatIff(s, j, k);
    } else if key == key' && nonce == nonce' {
      CountersRepeatIff(s, j, k);
    }
  }

  // ---------------------------------------------------------------------------
  // The context
  // ---------------------------------------------------------------------------

  /** The words that chacha20_init stores. */
  method PackedState(key: Key, nonce: Nonce) returns (state: State)
    ensures state == InitialState(key, nonce)
  {
    hide WordAt;
    var s := new Word32[16];
    for i := 0 to 4
      invariant forall k :: 0 <= k < i ==> s[k] == WordAt(SIGMA, k)
    {
      s[i] := WordAt(SIGMA, i);
    }
    for i := 0 to 8
      invariant forall k :: 0 <= k < 4 ==> s[k] == WordAt(SIGMA, k)
      invariant forall k :: 0 <= k < i ==> s[4 + k] == WordAt(key, k)
    {
      s[4 + i] := WordAt(key, i);
    }
    s[12] := 0;
    s[13], s[14], s[15] := WordAt(nonce, 0), WordAt(nonce, 1), WordAt(nonce, 2);
    assert s[..] == InitialState(key, nonce);
    return s[..];
  }

  lemma NotCounted(start: State)
    ensures CountedBy(start, 0) == start
  {
  }

  class Context {
    const block: State -> Block
    var state: State
    const buf: array<bv8>
    var bufUsed: nat
    // The state after initialisation, the blocks made since, and the bytes given out.
    ghost const start: State
    ghost var blocks: nat
    ghost var pos: nat

    ghost predicate Valid()
      reads this, buf
    {
      && buf.Length == 64 && bufUsed <= 64
      && state == CountedBy(start, blocks)
      && pos + 64 == 64 * blocks + bufUsed
      && (blocks > 0 ==> buf[..] == block(CountedBy(start, blocks - 1)))
    }

    /** chacha20_init */
    constructor (block: State -> Block, key: Key, nonce: Nonce)
      ensures Valid() && fresh(buf)
      ensures this.block == block && start == InitialState(key, nonce) && pos == 0
      ensures forall i :: 0 <= i < 4 ==> NetworkLong(start[i]) == SIGMA[4 * i..4 * i + 4]
      ensures forall i :: 0 <= i < 8 ==> NetworkLong(start[4 + i]) == key[4 * i..4 * i + 4]
      ensures start[12] == 0 && forall i :: 0 <= i < 3 ==> NetworkLong(start[13 + i]) == nonce[4 * i..4 * i + 4]
    {
      hide NetworkLong, InitialState, CountedBy;
      InitialStateBytes(key, nonce);
      var s := PackedState(key, nonce);
      this.block := block;
      state, buf, bufUsed := s, new bv8[64], 64;
      start, blocks, pos := s, 0, 0;
      NotCounted(s);
    }

    /** The next block, once the buffer is used up. */
    method Refill()
      requires Valid() && bufUsed == 64
      modifies this`bufUsed, this`blocks, this`state, buf
      ensures Valid() && bufUsed == 0 && blocks == old(blocks) + 1
    {
      var b := block(state);
      forall i | 0 <= i < 64 {
        buf[i] := b[i];
      }
      assert buf[..] == b;
      bufUsed := 0;
      NextState(start, blocks);
      state := state[12 := Wrap32(state[12] as int + 1)];
      blocks := blocks + 1;
    }

    lemma BufferIsStream(j: nat, b: bv8)
      requires Valid() && blocks > 0 && bufUsed + j < 64
      ensures b ^ buf[bufUsed + j] == Masked(block, start, b, pos + j)
    {
      var n := pos + j;
      assert n == 64 * (blocks - 1) + (bufUsed + j);
      assert n / 64 == blocks - 1 && n % 64 == bufUsed + j;
      assert buf[bufUsed + j] == buf[..][bufUsed + j];
    }

    /** Some bytes from what is left of the current block, one by one. */
    method XorFromBuffer(output: array<bv8>, o: nat, input: array<bv8>, i: nat, copy: nat)
      requires Valid() && bufUsed + copy <= 64 && blocks > 0
      requires o + copy <= output.Length && i + copy <= input.Length
      requires output != buf && input != buf
      modifies this`bufUsed, this`pos, output
      ensures Valid() && pos == old(pos) + copy && bufUsed == old(bufUsed) + copy
      ensures output[..] == Xored(block, start, old(pos), old(output[..]), o,
                                  if input == output then None else Some(old(input[..])), i, copy)
    {
      hide Masked, CountedBy;
      ghost var was, other := output[..], if input == output then None else Some(input[..]);
      for k := 0 to copy
        invariant Valid() && bufUsed == old(bufUsed) && pos == old(pos)
        invariant output[..] == Xored(block, start, pos, was, o, other, i, k)
        invariant input[..] == From(output[..], other)
      {
        BufferIsStream(k, input[i + k]);
        ghost var before := output[..];
        assert input[i + k] == From(before, other)[i + k];
        var x := input[i + k] ^ buf[bufUsed + k];
        output[o + k] := x;
        assert output[..] == before[o + k := x];
        assert output[..] == before[o + k := Masked(block, start, From(before, other)[i + k], pos + k)];
      }
      bufUsed, pos := bufUsed + copy, pos + copy;
    }

    /**
      chacha20_xor. The ranges may overlap: each byte is read just before it is overwritten. Unless the
      output range starts inside the input range, the input is read as it was before the call.
     */
    method Xor(output: array<bv8>, o: nat, input: array<bv8>, i: nat, len: nat)
      requires Valid()
      requires o + len <= output.Length && i + len <= input.Length
      requires output != buf && input != buf
      modifies this`bufUsed, this`blocks, this`pos, this`state, buf, output
      ensures Valid() && pos == old(pos) + len
      ensures output[..] == Xored(block, start, old(pos), old(output[..]), o,
                                  if input == output then None else Some(old(input[..])), i, len)
      ensures input != output || o <= i || i + len <= o ==>
                output[..] == Put(old(output[..]), o, Crypted(block, start, old(pos), old(input[i..i + len])))
    {
      hide Masked, CountedBy, Crypted, Put, Xored;
      ghost var was, other := output[..], if input == output then None else Some(input[..]);
      var done := 0;
      NothingXored(block, start, pos, was, o, other, i);
      while done < len
        invariant 0 <= done <= len && Valid() && pos == old(pos) + done
        invariant output[..] == Xored(block, start, old(pos), was, o, other, i, done)
        invariant input[..] == From(output[..], other)
      {
        if bufUsed == 64 {
          Refill();
        }
        var copy := if len - done < 64 - bufUsed then len - done else 64 - bufUsed;
        XoredAppend(block, start, old(pos), was, o, other, i, done, copy);
        XorFromBuffer(output, o + done, input, i + done, copy);
        done := done + copy;
      }
      if input != output || o <= i || i + len <= o {
        XoredIsCrypted(block, start, old(pos), was, o, other, i, len);
      }
    }
  }

  // ---------------------------------------------------------------------------
  // Memory written byte by byte
  // ---------------------------------------------------------------------------

  /** Where the input is read: in the output memory itself, or elsewhere. */
  function From(mem: seq<bv8>, other: Option<seq<bv8>>): seq<bv8> {
    match other
    case None => mem
    case Some(source) => source
  }

  /** The output memory after n bytes, from the position pos of the stream on. */
  function Xored(block: State -> Block, start: State, pos: nat, mem: seq<bv8>, o: nat,
                 other: Option<seq<bv8>>, i: nat, n: nat): (r: seq<bv8>)
    requires o + n <= |mem| && i + n <= |From(mem, other)|
    ensures |r| == |mem|
  {
    if n == 0 then mem
    else
      var m := Xored(block, start, pos, mem, o, other, i, n - 1);
      m[o + n - 1 := Masked(block, start, From(m, other)[i + n - 1], pos + n - 1)]
  }

  lemma NothingXored(block: State -> Block, start: State, pos: nat, mem: seq<bv8>, o: nat, other: Option<seq<bv8>>,
                     i: nat)
    requires o <= |mem| && i <= |From(mem, other)|
    ensures Xored(block, start, pos, mem, o, other, i, 0) == mem
  {
  }

  lemma OneMoreXored(block: State -> Block, start: State, pos: nat, mem: seq<bv8>, o: nat, other: Option<seq<bv8>>,
                     i: nat, n: nat)
    requires n > 0 && o + n <= |mem| && i + n <= |From(mem, other)|
    ensures var m := Xored(block, start, pos, mem, o, other, i, n - 1);
            Xored(block, start, pos, mem, o, other, i, n)
            == m[o + n - 1 := Masked(block, start, From(m, other)[i + n - 1], pos + n - 1)]
  {
  }

  /** Two stretches one after the other are one stretch. */
  lemma {:induction false} XoredAppend(block: State -> Block, start: State, pos: nat, mem: seq<bv8>, o: nat,
                                       other: Option<seq<bv8>>, i: nat, n: nat, more: nat)
    requires o + n + more <= |mem| && i + n + more <= |From(mem, other)|
    ensures var m := Xored(block, start, pos, mem, o, other, i, n);
            Xored(block, start, pos, mem, o, other, i, n + more)
            == Xored(block, start, pos + n, m, o + n, other, i + n, more)
  {
    hide Masked;
    if more > 0 {
      XoredAppend(block, start, pos, mem, o, other, i, n, more - 1);
    }
  }

  /** Read ahead of what is written, the input is what it was, and its encryption lands in the output range. */
  lemma {:induction false} XoredIsCrypted(block: State -> Block, start: State, pos: nat, mem: seq<bv8>, o: nat,
                                          other: Option<seq<bv8>>, i: nat, n: nat)
    requires o + n <= |mem| && i + n <= |From(mem, other)|
    requires other.Some? || o <= i || i + n <= o
    ensures Xored(block, start, pos, mem, o, other, i, n)
            == Put(mem, o, Crypted(block, start, pos, From(mem, other)[i..i + n]))
  {
    hide Masked, Crypted, Put, Xored;
    var src := From(mem, other)[i..i + n];
    if n == 0 {
      NothingXored(block, start, pos, mem, o, other, i);
      NothingCrypted(block, start, pos, src, mem, o);
      assert src[..0] == src;
    } else {
      XoredIsCrypted(block, start, pos, mem, o, other, i, n - 1);
      assert src[..n - 1] == From(mem, other)[i..i + n - 1];
      CryptedMore(block, start, pos, src, n - 1);
      assert src[..n] == src;
      var data := Crypted(block, start, pos, src[..n - 1]);
      assert src[n - 1] == From(mem, other)[i + n - 1];
      StillUnread(mem, o, data, i, other);
      OneMoreXored(block, start, pos, mem, o, other, i, n);
      hide From;
      PutMore(mem, o, data, Masked(block, start, src[n - 1], pos + n - 1));
    }
  }

  /** Output stored up to where the input has been read leaves the next byte of the input alone. */
  lemma StillUnread(mem: seq<bv8>, o: nat, data: seq<bv8>, i: nat, other: Option<seq<bv8>>)
    requires o + |data| <= |mem| && i + |data| < |From(mem, other)|
    requires other.Some? || o <= i || i + |data| < o
    ensures From(Put(mem, o, data), other)[i + |data|] == From(mem, other)[i + |data|]
  {
  }

  /** Byte j of the result: left alone, or made from the byte d places before, as it was or as it is by then. */
  ghost predicate FedByte(block: State -> Block, start: State, pos: nat, mem: seq<bv8>, r: seq<bv8>, i: nat, d: nat,
                          n: nat, j: nat)
    requires i + d + n <= |mem| == |r| && j < |mem|
  {
    if j < i + d || i + d + n <= j then r[j] == mem[j]
    else
      var before := if j < i + d + d then mem[j - d] else r[j - d];
      r[j] == Masked(block, start, before, pos + (j - i - d))
  }

  ghost predicate FedBack(block: State -> Block, start: State, pos: nat, mem: seq<bv8>, r: seq<bv8>, i: nat, d: nat,
                          n: nat)
    requires i + d + n <= |mem| == |r|
  {
    forall j: nat :: j < |mem| ==> FedByte(block, start, pos, mem, r, i, d, n, j)
  }

  lemma FedByteOnce(block: State -> Block, start: State, pos: nat, mem: seq<bv8>, m: seq<bv8>, i: nat, d: nat, n: nat,
                    j: nat)
    requires d > 0 && i + d + n < |mem| == |m| && j < |mem|
    requires FedByte(block, start, pos, mem, m, i, d, n, j) && FedByte(block, start, pos, mem, m, i, d, n, i + n)
    ensures FedByte(block, start, pos, mem, m[i + d + n := Masked(block, start, m[i + n], pos + n)], i, d, n + 1, j)
  {
    hide Masked;
    assert j == i + d + n ==> j - d == i + n && j - i - d == n;
  }

  lemma FedBackOnce(block: State -> Block, start: State, pos: nat, mem: seq<bv8>, m: seq<bv8>, i: nat, d: nat, n: nat)
    requires d > 0 && i + d + n < |mem| == |m| && FedBack(block, start, pos, mem, m, i, d, n)
    ensures FedBack(block, start, pos, mem, m[i + d + n := Masked(block, start, m[i + n], pos + n)], i, d, n + 1)
  {
    hide Masked, FedByte;
    var r := m[i + d + n := Masked(block, start, m[i + n], pos + n)];
    var n1 := n + 1;
    forall j: nat | j < |mem| ensures FedByte(block, start, pos, mem, r, i, d, n1, j) {
      FedByteOnce(block, start, pos, mem, m, i, d, n, j);
    }
  }

  /**
    Where the output range starts d bytes inside the input range, d > 0, only the first d bytes are
    encryptions of the input: from there on each byte is made from the output byte d places before.
   */
  lemma {:induction false} OverlapFeedsBack(block: State -> Block, start: State, pos: nat, mem: seq<bv8>, i: nat,
                                            d: nat, n: nat)
    requires d > 0 && i + d + n <= |mem|
    ensures FedBack(block, start, pos, mem, Xored(block, start, pos, mem, i + d, None, i, n), i, d, n)
  {
    hide Masked, Xored;
    if n == 0 {
      NothingXored(block, start, pos, mem, i + d, None, i);
    } else {
      OverlapFeedsBack(block, start, pos, mem, i, d, n - 1);
      OneMoreXored(block, start, pos, mem, i + d, None, i, n);
      FedBackOnce(block, start, pos, mem, Xored(block, start, pos, mem, i + d, None, i, n - 1), i, d, n - 1);
    }
  }

  lemma NextState(start: State, k: nat)
    ensures var s := CountedBy(start, k); s[12 := Wrap32(s[12] as int + 1)] == CountedBy(start, k + 1)
  {
  }

  /** A memory range holding `was` after `data` is stored at o. */
  function Put(was: seq<bv8>, o: nat, data: seq<bv8>): (r: seq<bv8>)
    requires o + |data| <= |was|
    ensures |r| == |was|
  {
    was[..o] + data + was[o + |data|..]
  }

  lemma PutNothing(was: seq<bv8>, o: nat)
    requires o <= |was|
    ensures Put(was, o, []) == was
  {
  }

  lemma PutMore(was: seq<bv8>, o: nat, data: seq<bv8>, x: bv8)
    requires o + |data| < |was|
    ensures Put(was, o, data)[o + |data| := x] == Put(was, o, data + [x])
  {
  }

  lemma PutPut(was: seq<bv8>, o: nat, a: seq<bv8>, b: seq<bv8>)
    requires o + |a| + |b| <= |was|
    ensures Put(Put(was, o, a), o + |a|, b) == Put(was, o, a + b)
  {
  }

  lemma NothingCrypted(block: State -> Block, start: State, pos: nat, src: seq<bv8>, was: seq<bv8>, o: nat)
    requires o <= |was|
    ensures Put(was, o, Crypted(block, start, pos, src[..0])) == was
  {
    assert Crypted(block, start, pos, src[..0]) == [];
    PutNothing(was, o);
  }

  lemma CryptedMore(block: State -> Block, start: State, pos: nat, src: seq<bv8>, k: nat)
    requires k < |src|
    ensures Crypted(block, start, pos, src[..k + 1])
            == Crypted(block, start, pos, src[..k]) + [Masked(block, start, src[k], pos + k)]
  {
    hide Masked;
  }

  /** A whole message through a fresh context, cut anywhere, each piece encrypted in place. */
  method CryptInPlace(block: State -> Block, key: Key, nonce: Nonce, data: array<bv8>, cuts: seq<nat>)
    requires forall k :: 0 <= k < |cuts| ==> cuts[k] <= data.Length
    requires forall j, k :: 0 <= j < k < |cuts| ==> cuts[j] <= cuts[k]
    modifies data
    ensures data[..] == Crypted(block, InitialState(key, nonce), 0, old(data[..]))
  {
    hide InitialState, Masked, Crypted, Put;
    var ctx := new Context(block, key, nonce);
    var done := 0;
    ghost var was := data[..];
    NothingCrypted(block, ctx.start, 0, was, was, 0);
    for k := 0 to |cuts| + 1
      invariant ctx.Valid() && fresh(ctx) && fresh(ctx.buf) && ctx.pos == done
      invariant 0 <= done <= data.Length
      invariant done == if k == 0 then 0 else if k <= |cuts| then cuts[k - 1] else data.Length
      invariant data[..] == Put(was, 0, Crypted(block, ctx.start, 0, was[..done]))
    {
      var next := if k < |cuts| then cuts[k] else data.Length;
      PutPiece(block, ctx.start, was, done, next);
      assert data[done..next] == data[..][done..next];
      ctx.Xor(data, done, data, done, next - done);
      done := next;
    }
    assert was[..data.Length] == was;
    PutAll(was, Crypted(block, ctx.start, 0, was));
  }

  lemma PutAll(was: seq<bv8>, data: seq<bv8>)
    requires |data| == |was|
    ensures Put(was, 0, data) == data
  {
  }

  lemma PutPiece(block: State -> Block, start: State, was: seq<bv8>, done: nat, next: nat)
    requires done <= next <= |was|
    ensures var now := Put(was, 0, Crypted(block, start, 0, was[..done]));
            Put(now, done, Crypted(block, start, done, now[done..next]))
            == Put(was, 0, Crypted(block, start, 0, was[..next]))
  {
    hide Crypted;
    var a, b := was[..done], was[done..next];
    CryptedAppend(block, start, 0, a, b);
    assert a + b == was[..next];
    assert Put(was, 0, Crypted(block, start, 0, a))[done..next] == b;
    PutPut(was, 0, Crypted(block, start, 0, a), Crypted(block, start, done, b));
  }
}
