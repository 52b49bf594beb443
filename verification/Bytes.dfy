/** Bytes, machine words as little-endian byte strings, and the two result types. */
module Bytes {
  type byte = b: int | 0 <= b < 256

  datatype Option<+T> = None | Some(value: T)

  datatype Result<+T, +E> = Ok(value: T) | Err(error: E)

  const TWO16: nat := 0x1_0000
  const TWO32: nat := 0x1_0000_0000
  const TWO64: nat := 0x1_0000_0000_0000_0000

  /** The number of values a word of `width` bytes can hold. */
  function Values(width: nat): (v: nat)
    ensures v > 0
  {
    if width == 0 then 1 else 256 * Values(width - 1)
  }

  /** The low `width` bytes of `n`, least significant first: a store of `n as uW`. */
  function LeBytes(n: nat, width: nat): (s: seq<byte>)
    ensures |s| == width
  {
    if width == 0 then [] else [n % 256] + LeBytes(n / 256, width - 1)
  }

  function LeNat(s: seq<byte>): nat {
    if s == [] then 0 else s[0] + 256 * LeNat(s[1..])
  }

  /** Loading what was stored gives the value truncated to the word. */
  lemma {:induction false} LeRoundTrip(n: nat, width: nat)
    ensures LeNat(LeBytes(n, width)) == n % Values(width)
  {
    if width != 0 {
      LeRoundTrip(n / 256, width - 1);
      assert LeBytes(n, width)[1..] == LeBytes(n / 256, width - 1);
      LowByteSplits(n, Values(width - 1));
    }
  }

  lemma LowByteSplits(n: nat, v: nat)
    requires v > 0
    ensures n % (256 * v) == 256 * (n / 256 % v) + n % 256
  {
    var high, low := n / 256, n % 256;
    var q, r := high / v, high % v;
    assert n == (256 * v) * q + (256 * r + low) by {
      assert high == v * q + r;
      assert 256 * (v * q) == (256 * v) * q;
    }
    DivModUnique(n, 256 * v, q, 256 * r + low);
  }

  lemma DivModUnique(x: int, n: int, q: int, r: int)
    requires n > 0 && x == n * q + r && 0 <= r < n
    ensures x / n == q && x % n == r
  {
    var d := q - x / n;
    assert n * d == x % n - r by {
      assert x == n * (x / n) + x % n;
      assert n * d == n * q - n * (x / n);
    }
    NoSmallMultiple(n, d);
  }

  /** A multiple of `n` strictly between `-n` and `n` is zero. */
  lemma NoSmallMultiple(n: int, d: int)
    requires n > 0 && -n < n * d < n
    ensures d == 0
  {
    assert n * -d == -(n * d);
    if d >= 1 {
      MulAtLeast(n, d);
    } else if d <= -1 {
      MulAtLeast(n, -d);
    }
  }

  lemma {:induction false} MulAtLeast(n: int, k: int)
    requires n > 0 && k >= 1
    ensures n * k >= n
    decreases k
  {
    if k > 1 {
      MulAtLeast(n, k - 1);
      assert n * k == n * (k - 1) + n;
    }
  }

  lemma WordSizes()
    ensures Values(1) == 256 && Values(2) == TWO16 && Values(4) == TWO32 && Values(8) == TWO64
  {
    assert Values(4) == 256 * (256 * (256 * Values(1)));
    assert Values(8) == 256 * (256 * (256 * (256 * Values(4))));
  }

  /** The bytes of a 16-bit, a 32-bit and a 64-bit word in memory, the low byte first. */
  function Word16(n: nat): (s: seq<byte>)
    ensures |s| == 2
  {
    [n % 0x100, n / 0x100 % 0x100]
  }

  function Word32(n: nat): (s: seq<byte>)
    ensures |s| == 4
  {
    [n % 0x100, n / 0x100 % 0x100, n / 0x1_0000 % 0x100, n / 0x100_0000 % 0x100]
  }

  function Word64(n: nat): (s: seq<byte>)
    ensures |s| == 8
  {
    Word32(n) + [n / 0x1_0000_0000 % 0x100, n / 0x100_0000_0000 % 0x100, n / 0x1_0000_0000_0000 % 0x100,
                 n / 0x100_0000_0000_0000 % 0x100]
  }

  /** The stores by width are these words. */
  lemma StoresWords(n: nat)
    ensures LeBytes(n, 2) == Word16(n) && LeBytes(n, 4) == Word32(n) && LeBytes(n, 8) == Word64(n)
  {
    LeUnfold(n, 2);
    LeUnfold(n, 4);
    LeUnfold(n, 8);
    LeUnfold(n / 0x1_0000, 2);
    LeUnfold(n / 0x1_0000, 6);
    LeUnfold(n / 0x1_0000_0000, 4);
    LeUnfold(n / 0x1_0000_0000_0000, 2);
    hide LeBytes;
    Shifts(n);
  }

  lemma LeUnfold(n: nat, width: nat)
    requires width >= 2
    ensures LeBytes(n, width) == [n % 0x100, n / 0x100 % 0x100] + LeBytes(n / 0x1_0000, width - 2)
    ensures LeBytes(n, 0) == []
  {
    assert n / 0x100 / 0x100 == n / 0x1_0000;
  }

  lemma Shifts(n: nat)
    ensures n / 0x1_0000 / 0x100 == n / 0x100_0000 && n / 0x1_0000 / 0x1_0000 == n / 0x1_0000_0000
    ensures n / 0x1_0000_0000 / 0x100 == n / 0x100_0000_0000
    ensures n / 0x1_0000_0000 / 0x1_0000 == n / 0x1_0000_0000_0000
    ensures n / 0x1_0000_0000_0000 / 0x100 == n / 0x100_0000_0000_0000
  {
  }

  /** A word that fits is read back exactly. */
  lemma LeExact(n: nat, width: nat)
    requires width in {1, 2, 4, 8} && n < Values(width)
    ensures LeNat(LeBytes(n, width)) == n
  {
    LeRoundTrip(n, width);
    DivModUnique(n, Values(width), 0, n);
  }
}

/** Positions in a ring: a position is never reduced, the slot it names is. */
module Modular {
  import Bytes

  lemma AddMultiple(x: int, k: int, n: int)
    requires n > 0
    ensures (x + k * n) % n == x % n
  {
    assert x + k * n == n * (x / n + k) + x % n by {
      assert n * (x / n + k) == n * (x / n) + k * n;
    }
    Bytes.DivModUnique(x + k * n, n, x / n + k, x % n);
  }

  lemma Small(x: int, n: int)
    requires 0 <= x < n
    ensures x % n == x
  {
    Bytes.DivModUnique(x, n, 0, x);
  }

  /** The distance from slot `at` to slot `pos` is the distance of the positions. */
  lemma SlotDistance(pos: int, at: int, n: int)
    requires n > 0
    ensures (pos % n - at) % n == (pos - at) % n
  {
    assert pos % n - at == (pos - at) + (-(pos / n)) * n;
    AddMultiple(pos - at, -(pos / n), n);
  }

  /** Positions less than a ring apart share a slot only when they are equal. */
  lemma SameSlot(a: int, b: int, n: int)
    requires n > 0 && -n < a - b < n && a % n == b % n
    ensures a == b
  {
    var k := a / n - b / n;
    assert a - b == n * k;
    Bytes.NoSmallMultiple(n, k);
  }
}
