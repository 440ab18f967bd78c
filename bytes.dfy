/**
  Little-endian integer readers and the bit-level vocabulary the block decoders
  are written in.

  Integers here are unbounded. C's `x >> n` is ShiftRight(x, n), `x << n` is
  ShiftLeft(x, n), and `x & ((1 << n) - 1)` is LowBits(x, n); all three are
  defined one bit at a time (halving or doubling), so that every proof about them
  stays in linear arithmetic. Where the decoder's own bitwise expression is the
  point, `&` and `|` themselves are modelled by BitAnd and BitOr, and AndLowMask
  and OrDisjoint say when they reduce to LowBits and to addition.
 */
module Bytes {

  /** An unsigned 8-bit value, C's uint8_t. */
  type byte = x: int | 0 <= x < 256

  /** 2 to the power n. */
  function Pow2(n: nat): (r: nat)
    ensures r >= 1
  {
    if n == 0 then 1 else 2 * Pow2(n - 1)
  }

  /** 256 to the power n: one more than the largest n-byte value. */
  function Pow256(n: nat): (r: nat)
    ensures r >= 1
  {
    if n == 0 then 1 else 256 * Pow256(n - 1)
  }

  // ---------------------------------------------------------------------------
  // Shifts and masks.

  /** `x >> n`. */
  function ShiftRight(x: nat, n: nat): nat
  {
    if n == 0 then x else ShiftRight(x / 2, n - 1)
  }

  /** `x << n`, which never overflows on unbounded integers. */
  function ShiftLeft(x: nat, n: nat): nat
  {
    if n == 0 then x else 2 * ShiftLeft(x, n - 1)
  }

  /** `x & ((1 << n) - 1)`: the n low bits of x. */
  function LowBits(x: nat, n: nat): (r: nat)
    ensures r < Pow2(n)
  {
    if n == 0 then 0 else 2 * LowBits(x / 2, n - 1) + x % 2
  }

  /** Bits [off, off + len) of x: `(x >> off) & ((1 << len) - 1)`. */
  function Bits(x: nat, off: nat, len: nat): (r: nat)
    ensures r < Pow2(len)
  {
    LowBits(ShiftRight(x, off), len)
  }

  /** The powers of two and the fixed shifts the block formats use. */
  lemma Pow2Values()
    ensures Pow2(2) == 4 && Pow2(3) == 8 && Pow2(4) == 16 && Pow2(5) == 32 && Pow2(6) == 64 && Pow2(8) == 256
    ensures Pow2(16) == 65536
  {
  }

  /** `1 << n` is 2 to the power n. */
  lemma {:induction false} ShiftLeftOne(n: nat)
    ensures ShiftLeft(1, n) == Pow2(n)
  {
    if n > 0 {
      ShiftLeftOne(n - 1);
    }
  }

  /** Shifting left by 4, 5, 6 and 8 bits multiplies by 16, 32, 64 and 256. */
  lemma ShiftLeftByte(x: nat)
    ensures ShiftLeft(x, 4) == 16 * x && ShiftLeft(x, 5) == 32 * x && ShiftLeft(x, 6) == 64 * x
    ensures ShiftLeft(x, 8) == 256 * x
  {
    assert ShiftLeft(x, 1) == 2 * x;
    assert ShiftLeft(x, 2) == 4 * x;
    assert ShiftLeft(x, 3) == 8 * x;
    assert ShiftLeft(x, 4) == 16 * x;
    assert ShiftLeft(x, 5) == 32 * x;
    assert ShiftLeft(x, 6) == 64 * x;
    assert ShiftLeft(x, 7) == 128 * x;
  }

  /** Shifting left by 16 bits multiplies by 65536. */
  lemma ShiftLeftTwoBytes(x: nat)
    ensures ShiftLeft(x, 8) == 256 * x && ShiftLeft(x, 16) == 65536 * x
  {
    ShiftLeftAdd(x, 8, 8);
    ShiftLeftByte(x);
    ShiftLeftByte(ShiftLeft(x, 8));
  }

  lemma {:induction false} ShiftLeftAdd(x: nat, a: nat, b: nat)
    ensures ShiftLeft(x, a + b) == ShiftLeft(ShiftLeft(x, a), b)
  {
    if b > 0 {
      ShiftLeftAdd(x, a, b - 1);
    }
  }

  lemma {:induction false} ShiftRightAdd(x: nat, a: nat, b: nat)
    ensures ShiftRight(x, a + b) == ShiftRight(ShiftRight(x, a), b)
  {
    if a > 0 {
      ShiftRightAdd(x / 2, a - 1, b);
    }
  }

  /** A value below 2^n shifted right by n is zero. */
  lemma {:induction false} ShiftRightSmall(x: nat, n: nat)
    requires x < Pow2(n)
    ensures ShiftRight(x, n) == 0
  {
    if n > 0 {
      ShiftRightSmall(x / 2, n - 1);
    }
  }

  /** A value below 2^(n+m) shifted right by n is below 2^m. */
  lemma {:induction false} ShiftRightBound(x: nat, n: nat, m: nat)
    requires x < Pow2(n + m)
    ensures ShiftRight(x, n) < Pow2(m)
  {
    if n > 0 {
      ShiftRightBound(x / 2, n - 1, m);
    }
  }

  /** A value shifted left by n is even, and halving it undoes one step. */
  lemma ShiftLeftStep(m: nat, n: nat)
    requires n > 0
    ensures ShiftLeft(m, n) == 2 * ShiftLeft(m, n - 1)
  {
  }

  /** Shifting right by r <= n moves m << n down to m << (n - r). */
  lemma {:induction false} ShiftRightAddHigh(a: nat, m: nat, n: nat, r: nat)
    requires r <= n
    ensures ShiftRight(a + ShiftLeft(m, n), r) == ShiftRight(a, r) + ShiftLeft(m, n - r)
  {
    if r > 0 {
      ShiftLeftStep(m, n);
      assert (a + ShiftLeft(m, n)) / 2 == a / 2 + ShiftLeft(m, n - 1);
      ShiftRightAddHigh(a / 2, m, n - 1, r - 1);
    }
  }

  /** m << n does not reach the k <= n low bits. */
  lemma {:induction false} LowBitsAddHigh(a: nat, m: nat, n: nat, k: nat)
    requires k <= n
    ensures LowBits(a + ShiftLeft(m, n), k) == LowBits(a, k)
  {
    if k > 0 {
      ShiftLeftStep(m, n);
      assert (a + ShiftLeft(m, n)) / 2 == a / 2 + ShiftLeft(m, n - 1);
      assert (a + ShiftLeft(m, n)) % 2 == a % 2;
      LowBitsAddHigh(a / 2, m, n - 1, k - 1);
    }
  }

  /** The k low bits of lo + (m << n), for lo below 2^n and n <= k: lo, and the k - n low bits of m above it. */
  lemma {:induction false} LowBitsSplit(lo: nat, m: nat, n: nat, k: nat)
    requires lo < Pow2(n) && n <= k
    ensures LowBits(lo + ShiftLeft(m, n), k) == lo + ShiftLeft(LowBits(m, k - n), n)
  {
    if n > 0 {
      ShiftLeftStep(m, n);
      ShiftLeftStep(LowBits(m, k - n), n);
      assert (lo + ShiftLeft(m, n)) / 2 == lo / 2 + ShiftLeft(m, n - 1);
      assert (lo + ShiftLeft(m, n)) % 2 == lo % 2;
      LowBitsSplit(lo / 2, m, n - 1, k - 1);
    }
  }

  /** A value below 2^k keeps all of its k low bits. */
  lemma {:induction false} LowBitsSmall(x: nat, k: nat)
    requires x < Pow2(k)
    ensures LowBits(x, k) == x
  {
    if k > 0 {
      LowBitsSmall(x / 2, k - 1);
    }
  }

  /** x is its n low bits plus what is left after shifting them out, shifted back. */
  lemma {:induction false} SplitAt(x: nat, n: nat)
    ensures x == LowBits(x, n) + ShiftLeft(ShiftRight(x, n), n)
  {
    if n > 0 {
      SplitAt(x / 2, n - 1);
      ShiftLeftStep(ShiftRight(x / 2, n - 1), n);
    }
  }

  // ---------------------------------------------------------------------------
  // Little-endian integers.

  /** The unsigned integer whose little-endian byte encoding is s. */
  function Le(s: seq<byte>): nat
  {
    if |s| == 0 then 0 else s[0] + 256 * Le(s[1..])
  }

  /** The len-byte little-endian encoding of n, keeping its len low bytes. */
  function LeBytes(n: nat, len: nat): (s: seq<byte>)
    ensures |s| == len
  {
    if len == 0 then [] else [n % 256] + LeBytes(n / 256, len - 1)
  }

  lemma {:induction false} LeBound(s: seq<byte>)
    ensures Le(s) < Pow256(|s|)
  {
    if |s| > 0 {
      LeBound(s[1..]);
    }
  }

  /** Every byte string is the encoding of its own value. */
  lemma {:induction false} LeBytesOfLe(s: seq<byte>)
    ensures LeBytes(Le(s), |s|) == s
  {
    if |s| > 0 {
      var rest := Le(s[1..]);
      LeBytesOfLe(s[1..]);
      assert Le(s) % 256 == s[0] && Le(s) / 256 == rest;
      assert LeBytes(Le(s), |s|) == [s[0]] + LeBytes(rest, |s| - 1);
      assert [s[0]] + s[1..] == s;
    }
  }

  /** Every value that fits in len bytes is the value of its encoding. */
  lemma {:induction false} LeOfLeBytes(n: nat, len: nat)
    requires n < Pow256(len)
    ensures Le(LeBytes(n, len)) == n
  {
    if len > 0 {
      LeOfLeBytes(n / 256, len - 1);
      assert LeBytes(n, len)[1..] == LeBytes(n / 256, len - 1);
    }
  }

  /** Shifting a little-endian integer right by whole bytes drops its low bytes. */
  lemma {:induction false} ShiftRightLe(s: seq<byte>, q: nat)
    requires q <= |s|
    ensures ShiftRight(Le(s), 8 * q) == Le(s[q..])
  {
    if q > 0 {
      Pow2Values();
      ShiftLeftByte(Le(s[1..]));
      ShiftRightAdd(Le(s), 8, 8 * (q - 1));
      ShiftRightAddHigh(s[0], Le(s[1..]), 8, 8);
      ShiftRightSmall(s[0], 8);
      assert ShiftRight(Le(s), 8) == Le(s[1..]);
      ShiftRightLe(s[1..], q - 1);
      assert s[1..][q - 1..] == s[q..];
    } else {
      assert s[0..] == s;
    }
  }

  /** The bytes at q and q + 1 (zero past the end), and everything above them. */
  lemma TwoBytes(s: seq<byte>, q: nat)
    requires q < |s|
    ensures Le(s[q..]) == s[q] + 256 * (if q + 1 < |s| then s[q + 1] else 0)
                         + 65536 * (if q + 1 < |s| then Le(s[q + 2..]) else 0)
  {
    assert s[q..][0] == s[q] && s[q..][1..] == s[q + 1..];
    if q + 1 < |s| {
      assert s[q + 1..][0] == s[q + 1] && s[q + 1..][1..] == s[q + 2..];
    } else {
      assert s[q + 1..] == [];
    }
  }

  // ---------------------------------------------------------------------------
  // Bit windows.

  /**
    The k-bit window at bit offset p (least significant bit first) of the byte
    string s, read from the byte that holds bit p and the byte after it when there
    is one: `((s[p/8] | s[p/8+1] << 8) >> (p % 8)) & ((1 << k) - 1)`.
   */
  function ByteWindow(s: seq<byte>, p: nat, k: nat): (r: nat)
    requires p / 8 < |s|
    ensures r < Pow2(k)
  {
    var next: nat := if p / 8 + 1 < |s| then s[p / 8 + 1] else 0;
    Bits(s[p / 8] + 256 * next, p % 8, k)
  }

  /** Bits above n do not reach a window [r, r + k) that ends at or below bit n. */
  lemma HighBitsInvisible(a: nat, m: nat, n: nat, r: nat, k: nat)
    requires r + k <= n
    ensures Bits(a + ShiftLeft(m, n), r, k) == Bits(a, r, k)
  {
    ShiftRightAddHigh(a, m, n, r);
    LowBitsAddHigh(ShiftRight(a, r), m, n - r, k);
  }

  /** Shifting a little-endian integer right by p bits starts it inside byte p / 8. */
  lemma ShiftRightLeBits(s: seq<byte>, p: nat)
    requires p / 8 <= |s|
    ensures ShiftRight(Le(s), p) == ShiftRight(Le(s[p / 8..]), p % 8)
  {
    assert p == 8 * (p / 8) + p % 8;
    ShiftRightAdd(Le(s), 8 * (p / 8), p % 8);
    ShiftRightLe(s, p / 8);
  }

  /** Reading a window of at most 8 bits from two adjacent bytes gives the same value
      as reading it from the whole little-endian integer. */
  lemma BitsOfLe(s: seq<byte>, p: nat, k: nat)
    requires p / 8 < |s| && k <= 8
    ensures Bits(Le(s), p, k) == ByteWindow(s, p, k)
  {
    var q, r := p / 8, p % 8;
    var next: nat := if q + 1 < |s| then s[q + 1] else 0;
    var hi: nat := if q + 1 < |s| then Le(s[q + 2..]) else 0;
    var w := s[q] + 256 * next;
    ShiftRightLeBits(s, p);
    assert Bits(Le(s), p, k) == Bits(Le(s[q..]), r, k);
    TwoBytes(s, q);
    ShiftLeftTwoBytes(hi);
    assert Le(s[q..]) == w + ShiftLeft(hi, 16);
    HighBitsInvisible(w, hi, 16, r, k);
    assert Bits(Le(s[q..]), r, k) == Bits(w, r, k);
    assert ByteWindow(s, p, k) == Bits(w, r, k);
  }

  /** A window that ends inside its first byte reads that byte alone. */
  lemma WindowInByte(s: seq<byte>, p: nat, k: nat)
    requires p / 8 < |s| && p % 8 + k <= 8
    ensures ByteWindow(s, p, k) == Bits(s[p / 8], p % 8, k)
  {
    var next: nat := if p / 8 + 1 < |s| then s[p / 8 + 1] else 0;
    ShiftLeftByte(next);
    HighBitsInvisible(s[p / 8], next, 8, p % 8, k);
  }

  // ---------------------------------------------------------------------------
  // C's & and | on non-negative integers, bit by bit.

  function BitAnd(a: nat, b: nat): nat
    decreases a
  {
    if a == 0 || b == 0 then 0
    else 2 * BitAnd(a / 2, b / 2) + (if a % 2 == 1 && b % 2 == 1 then 1 else 0)
  }

  function BitOr(a: nat, b: nat): nat
    decreases a + b
  {
    if a == 0 then b
    else if b == 0 then a
    else 2 * BitOr(a / 2, b / 2) + (if a % 2 == 1 || b % 2 == 1 then 1 else 0)
  }

  /** Masking with m one-bits keeps the m low bits: `x & ((1 << m) - 1)`. */
  lemma {:induction false} AndLowMask(x: nat, m: nat)
    ensures BitAnd(x, Pow2(m) - 1) == LowBits(x, m)
  {
    if x == 0 {
      LowBitsSmall(0, m);
    } else if m > 0 {
      var b := Pow2(m) - 1;
      assert b % 2 == 1 && b / 2 == Pow2(m - 1) - 1;
      AndLowMask(x / 2, m - 1);
    }
  }

  /** Or-ing a value below 2^s with m << s adds them: their set bits are disjoint. */
  lemma {:induction false} OrDisjoint(a: nat, m: nat, s: nat)
    requires a < Pow2(s)
    ensures BitOr(a, ShiftLeft(m, s)) == a + ShiftLeft(m, s)
  {
    var b := ShiftLeft(m, s);
    if a != 0 && b != 0 {
      assert b / 2 == ShiftLeft(m, s - 1) && b % 2 == 0;
      OrDisjoint(a / 2, m, s - 1);
    }
  }

  lemma {:induction false} OrCommutes(a: nat, b: nat)
    ensures BitOr(a, b) == BitOr(b, a)
    decreases a + b
  {
    if a != 0 && b != 0 {
      OrCommutes(a / 2, b / 2);
    }
  }
}
