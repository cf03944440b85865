/**
  The fixed-width integers of the kernel's C dialect, written out over unbounded integers.
  A `Word` is a `uint64_t`; `size_t`, `vaddr_t` and `paddr_t` are the same type.
 */
module CTypes {
  const TWO16 := 0x1_0000
  const TWO32 := 0x1_0000_0000
  const TWO64 := 0x1_0000_0000_0000_0000

  type Word = x: int | 0 <= x < TWO64
  type Word32 = x: int | 0 <= x < TWO32
  type Word16 = x: int | 0 <= x < TWO16
  type Byte = x: int | 0 <= x < 256

  // SIZE_MAX, and also (void*)-1 read as an address.
  const SIZE_MAX: Word := TWO64 - 1

  datatype Option<T> = None | Some(value: T)

  function Wrap64(x: int): Word {
    x % TWO64
  }

  function Wrap32(x: int): Word32 {
    x % TWO32
  }

  /** C's `/` truncates toward zero, unlike Dafny's Euclidean `/`. */
  function TruncDiv(a: int, b: int): int
    requires b > 0
  {
    if a >= 0 then a / b else -((-a) / b)
  }

  function Power2(k: nat): nat {
    if k == 0 then 1 else 2 * Power2(k - 1)
  }

  /** The bitwise or of two numbers. */
  function Or(a: nat, b: nat): nat {
    if a == 0 then b else (if a % 2 == 1 || b % 2 == 1 then 1 else 0) + 2 * Or(a / 2, b / 2)
  }

  lemma {:induction false} OrFits(a: nat, b: nat, k: nat)
    requires a < Power2(k) && b < Power2(k)
    ensures Or(a, b) < Power2(k)
  {
    if a > 0 {
      OrFits(a / 2, b / 2, k - 1);
    }
  }

  /** Where the bits of the two numbers lie apart, or is addition. */
  lemma {:induction false} OrApart(a: nat, b: nat, k: nat)
    requires b < Power2(k)
    ensures Or(a * Power2(k), b) == a * Power2(k) + b
  {
    if k == 0 {
      assert Or(a, 0) == a by { OrZero(a); }
    } else {
      var h := a * Power2(k - 1);
      assert a * Power2(k) == 2 * h;
      OrApart(a, b / 2, k - 1);
      assert 2 * h / 2 == h && 2 * h % 2 == 0;
    }
  }

  lemma {:induction false} OrZero(a: nat)
    ensures Or(a, 0) == a
  {
    if a > 0 {
      OrZero(a / 2);
    }
  }

  lemma {:induction false} Power2Twice(k: nat, n: nat)
    ensures Power2(k + n) == Power2(k) * Power2(n)
  {
    if n > 0 {
      Power2Twice(k, n - 1);
    }
  }

  lemma PowersOfTwo()
    ensures Power2(12) == 0x1000 && Power2(64) == TWO64
  {
    assert Power2(4) == 16;
    Power2Twice(4, 4);
    Power2Twice(8, 4);
    Power2Twice(8, 8);
    Power2Twice(16, 16);
    Power2Twice(32, 32);
  }
}
