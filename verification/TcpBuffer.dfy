/**
  The ring buffer of net/tcp.c: a byte array with a read position, a write position and a count.
 */
module TcpBuffers {
  import opened CTypes
  import opened CString

  /** x % n for x below 2n, as buffer positions are. */
  function Around(x: nat, n: nat): nat
    requires x < 2 * n
  {
    if x < n then x else x - n
  }

  lemma AroundIsMod(x: nat, n: nat)
    requires x < 2 * n
    ensures x % n == Around(x, n)
  {
    if x >= n {
      assert x == n + (x - n);
    }
  }

  /** The bytes held, oldest first: `used` of them from `head` on, wrapping at the end. */
  function Ring(data: seq<Byte>, head: nat, used: nat): (bytes: seq<Byte>)
    requires head < |data| && used <= |data|
    ensures |bytes| == used
  {
    if head + used <= |data| then data[head..head + used]
    else data[head..] + data[..head + used - |data|]
  }

  /** The array after bytes were copied in at `tail`, wrapping at the end. */
  function Written(data: seq<Byte>, tail: nat, bytes: seq<Byte>): (data': seq<Byte>)
    requires tail < |data| && |bytes| <= |data|
    ensures |data'| == |data|
  {
    var space := |data| - tail;
    if |bytes| <= space then data[..tail] + bytes + data[tail + |bytes|..]
    else bytes[space..] + data[|bytes| - space..tail] + bytes[..space]
  }

  lemma RingAt(data: seq<Byte>, head: nat, used: nat, i: nat)
    requires head < |data| && i < used <= |data|
    ensures Ring(data, head, used)[i] == data[Around(head + i, |data|)]
  {
  }

  lemma WrittenAt(data: seq<Byte>, tail: nat, bytes: seq<Byte>, p: nat)
    requires tail < |data| && |bytes| <= |data| && p < |data|
    ensures var k := if p >= tail then p - tail else p + |data| - tail;
            Written(data, tail, bytes)[p] == if k < |bytes| then bytes[k] else data[p]
  {
  }

  /** Copying in behind the bytes held appends to them. */
  lemma EnqueueAppends(data: seq<Byte>, head: nat, used: nat, bytes: seq<Byte>)
    requires head < |data| && used + |bytes| <= |data|
    ensures Ring(Written(data, Around(head + used, |data|), bytes), head, used + |bytes|)
            == Ring(data, head, used) + bytes
  {
    hide Ring, Written;
    var data' := Written(data, Around(head + used, |data|), bytes);
    forall i: nat | i < used + |bytes|
      ensures Ring(data', head, used + |bytes|)[i] == (Ring(data, head, used) + bytes)[i]
    {
      RingAt(data', head, used + |bytes|, i);
      WrittenAt(data, Around(head + used, |data|), bytes, Around(head + i, |data|));
      if i < used {
        RingAt(data, head, used, i);
      }
    }
  }

  /** Taking from the front leaves the rest. */
  lemma DequeueDrops(data: seq<Byte>, head: nat, used: nat, n: nat)
    requires head < |data| && n <= used <= |data|
    ensures Ring(data, head, n) == Ring(data, head, used)[..n]
    ensures Ring(data, Around(head + n, |data|), used - n) == Ring(data, head, used)[n..]
  {
    hide Ring;
    forall i: nat | i < used - n
      ensures Ring(data, Around(head + n, |data|), used - n)[i] == Ring(data, head, used)[n..][i]
    {
      RingAt(data, Around(head + n, |data|), used - n, i);
      RingAt(data, head, used, n + i);
    }
    forall i: nat | i < n ensures Ring(data, head, n)[i] == Ring(data, head, used)[..n][i] {
      RingAt(data, head, n, i);
      RingAt(data, head, used, i);
    }
  }

  class TcpBuffer {
    const data: array<Byte>
    var head: nat
    var tail: nat
    var used: nat

    ghost predicate Valid()
      reads this, data
    {
      && 0 < data.Length
      && head < data.Length && used <= data.Length
      && tail == (head + used) % data.Length
    }

    ghost function Contents(): (bytes: seq<Byte>)
      requires Valid()
      reads this, data
      ensures |bytes| == used
    {
      Ring(data[..], head, used)
    }

    constructor (size: nat)
      requires size > 0
      ensures Valid() && fresh(data) && data.Length == size && Contents() == []
    {
      data := new Byte[size];
      head, tail, used := 0, 0, 0;
    }

    /** 0 if the bytes fit, else -1. */
    method Enqueue(bytes: seq<Byte>) returns (r: int)
      requires Valid()
      modifies this, data
      ensures Valid()
      ensures r == if |old(Contents())| + |bytes| <= data.Length then 0 else -1
      ensures Contents() == if r == 0 then old(Contents()) + bytes else old(Contents())
    {
      hide Ring;
      if data.Length - used < |bytes| {
        return -1;
      }
      AroundIsMod(head + used, data.Length);
      AroundIsMod(tail + |bytes|, data.Length);
      AroundIsMod(head + (used + |bytes|), data.Length);
      EnqueueAppends(data[..], head, used, bytes);
      CopyIn(bytes);
      tail := (tail + |bytes|) % data.Length;
      used := used + |bytes|;
      return 0;
    }

    /** The one or two memcpy calls of an enqueue. */
    method CopyIn(bytes: seq<Byte>)
      requires tail < data.Length && |bytes| <= data.Length
      modifies data
      ensures data[..] == Written(old(data[..]), tail, bytes)
    {
      hide Written;
      ghost var before := data[..];
      var spaceToEnd := data.Length - tail;
      if spaceToEnd >= |bytes| {
        Memcpy(data, tail, bytes, 0, |bytes|);
      } else {
        Memcpy(data, tail, bytes, 0, spaceToEnd);
        Memcpy(data, 0, bytes, spaceToEnd, |bytes| - spaceToEnd);
      }
      forall p | 0 <= p < data.Length ensures data[p] == Written(before, tail, bytes)[p] {
        WrittenAt(before, tail, bytes, p);
      }
    }

    /** The one or two memcpy calls of a dequeue. */
    method CopyOut(dst: array<Byte>, n: nat)
      requires head < data.Length && n <= data.Length && n <= dst.Length && dst != data
      modifies dst
      ensures dst[..] == Ring(data[..], head, n) + old(dst[n..])
    {
      hide Ring;
      var spaceToEnd := data.Length - head;
      if spaceToEnd >= n {
        Memcpy(dst, 0, data[..], head, n);
      } else {
        Memcpy(dst, 0, data[..], head, spaceToEnd);
        Memcpy(dst, spaceToEnd, data[..], 0, n - spaceToEnd);
      }
      forall i: nat | i < n ensures dst[i] == Ring(data[..], head, n)[i] {
        RingAt(data[..], head, n, i);
      }
    }

    /** Moves up to len of the oldest bytes to the front of dst. */
    method Dequeue(dst: array<Byte>, len: nat) returns (n: nat)
      requires Valid() && dst != data && len <= dst.Length
      modifies this, dst
      ensures Valid()
      ensures n == if len < |old(Contents())| then len else |old(Contents())|
      ensures dst[..] == old(Contents())[..n] + old(dst[n..])
      ensures Contents() == old(Contents())[n..]
    {
      hide Ring;
      if used == 0 {
        return 0;
      }
      var bytesToCopy := if len < used then len else used;
      AroundIsMod(head + bytesToCopy, data.Length);
      AroundIsMod(head + used, data.Length);
      AroundIsMod(Around(head + bytesToCopy, data.Length) + (used - bytesToCopy), data.Length);
      DequeueDrops(data[..], head, used, bytesToCopy);
      CopyOut(dst, bytesToCopy);
      head := (head + bytesToCopy) % data.Length;
      used := used - bytesToCopy;
      return bytesToCopy;
    }
  }

  // ---------------------------------------------------------------------------
  // Whole runs of a buffer of a given size
  // ---------------------------------------------------------------------------

  datatype BufferOp = Put(bytes: seq<Byte>) | Take(len: nat)

  /** What the buffer holds, all bytes accepted so far and all bytes taken so far. */
  datatype BufferRun = BufferRun(held: seq<Byte>, accepted: seq<Byte>, taken: seq<Byte>)

  function BufferStep(size: nat, r: BufferRun, op: BufferOp): BufferRun {
    match op
    case Put(bytes) =>
      if |r.held| + |bytes| <= size then BufferRun(r.held + bytes, r.accepted + bytes, r.taken) else r
    case Take(len) =>
      var n := if len < |r.held| then len else |r.held|;
      BufferRun(r.held[n..], r.accepted, r.taken + r.held[..n])
  }

  function RunBuffer(size: nat, ops: seq<BufferOp>): BufferRun {
    if ops == [] then BufferRun([], [], [])
    else BufferStep(size, RunBuffer(size, ops[..|ops| - 1]), ops[|ops| - 1])
  }

  /** First in, first out, with nothing lost or made up, over every run; and never over capacity. */
  lemma {:induction false} BufferIsFifo(size: nat, ops: seq<BufferOp>)
    ensures var r := RunBuffer(size, ops); r.taken + r.held == r.accepted && |r.held| <= size
  {
    if ops != [] {
      var before := RunBuffer(size, ops[..|ops| - 1]);
      BufferIsFifo(size, ops[..|ops| - 1]);
      match ops[|ops| - 1]
      case Put(bytes) =>
        assert before.taken + (before.held + bytes) == before.accepted + bytes;
      case Take(len) =>
        var n := if len < |before.held| then len else |before.held|;
        assert before.held[..n] + before.held[n..] == before.held;
    }
  }
}
