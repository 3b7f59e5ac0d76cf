/** Shifts and masks on natural numbers, and bit strings read from a byte sequence padded with zero bytes at its end. */
module Bits {
  type Byte = x: int | 0 <= x < 256 witness 0

  // ---------- shifts and masks ----------

  /** 1 << n */
  function Pow2(n: nat): (r: nat)
    ensures r >= 1
  {
    if n == 0 then 1 else 2 * Pow2(n - 1)
  }

  /** x << n, in unbounded arithmetic */
  function Shl(x: nat, n: nat): nat {
    if n == 0 then x else 2 * Shl(x, n - 1)
  }

  /** v >> n */
  function Shr(v: nat, n: nat): nat {
    if n == 0 then v else Shr(v, n - 1) / 2
  }

  /** v & ((1 << n) - 1) */
  function Low(v: nat, n: nat): nat {
    if n == 0 then 0 else v % 2 + 2 * Low(v / 2, n - 1)
  }

  /** Bit i of v. */
  function BitOf(v: nat, i: nat): (b: nat)
    ensures b <= 1
  {
    Shr(v, i) % 2
  }

  /** The low n bits of v in the opposite order. */
  function RevBits(v: nat, n: nat): nat {
    if n == 0 then 0 else 2 * RevBits(v, n - 1) + BitOf(v, n - 1)
  }

  lemma Pow2Table()
    ensures Pow2(1) == 2 && Pow2(2) == 4 && Pow2(3) == 8 && Pow2(4) == 16
    ensures Pow2(5) == 32 && Pow2(6) == 64 && Pow2(7) == 128 && Pow2(8) == 256
    ensures Pow2(9) == 512 && Pow2(10) == 1024 && Pow2(11) == 2048 && Pow2(12) == 4096
    ensures Pow2(13) == 8192 && Pow2(14) == 16384 && Pow2(15) == 32768 && Pow2(16) == 65536
  {
    assert Pow2(4) == 16;
    assert Pow2(8) == 256;
    assert Pow2(12) == 4096;
  }

  lemma {:induction false} Pow2Mono(a: nat, b: nat)
    requires a <= b
    ensures Pow2(a) <= Pow2(b)
  {
    if a >= b {
    } else {
      Pow2Mono(a, b - 1);
    }
  }

  lemma {:induction false} ShlOne(n: nat)
    ensures Shl(1, n) == Pow2(n)
  {
    if n == 0 {
    } else {
      ShlOne(n - 1);
    }
  }

  lemma {:induction false} ShlZero(n: nat)
    ensures Shl(0, n) == 0
  {
    if n == 0 {
    } else {
      ShlZero(n - 1);
    }
  }

  lemma {:induction false} ShrZero(n: nat)
    ensures Shr(0, n) == 0
  {
    if n == 0 {
    } else {
      ShrZero(n - 1);
    }
  }

  lemma {:induction false} LowBound(v: nat, n: nat)
    ensures Low(v, n) < Pow2(n)
  {
    if n == 0 {
    } else {
      LowBound(v / 2, n - 1);
    }
  }

  lemma {:induction false} RevBound(v: nat, n: nat)
    ensures RevBits(v, n) < Pow2(n)
  {
    if n == 0 {
    } else {
      RevBound(v, n - 1);
    }
  }

  lemma {:induction false} ShrFront(v: nat, n: nat)
    requires n > 0
    ensures Shr(v, n) == Shr(v / 2, n - 1)
  {
    if n <= 1 {
    } else {
      ShrFront(v, n - 1);
    }
  }

  lemma {:induction false} ShrAdd(v: nat, m: nat, n: nat)
    ensures Shr(Shr(v, m), n) == Shr(v, m + n)
  {
    if n == 0 {
    } else {
      ShrAdd(v, m, n - 1);
    }
  }

  lemma {:induction false} ShrBound(v: nat, m: nat, n: nat)
    requires v < Pow2(m + n)
    ensures Shr(v, n) < Pow2(m)
    decreases n
  {
    if n == 0 {
    } else {
      assert m + n - 1 == m + (n - 1);
      ShrBound(v / 2, m, n - 1);
      ShrFront(v, n);
    }
  }

  lemma {:induction false} ShlAdd(x: nat, y: nat, n: nat)
    ensures Shl(x + y, n) == Shl(x, n) + Shl(y, n)
  {
    if n == 0 {
    } else {
      ShlAdd(x, y, n - 1);
    }
  }

  lemma {:induction false} ShlShl(x: nat, m: nat, n: nat)
    ensures Shl(Shl(x, m), n) == Shl(x, m + n)
  {
    if n == 0 {
    } else {
      ShlShl(x, m, n - 1);
    }
  }

  /** Bits below position n and bits from position n on do not disturb each other. */
  lemma {:induction false} JoinSplit(x: nat, n: nat, r: nat)
    requires r < Pow2(n)
    ensures Low(r + Shl(x, n), n) == r
    ensures Shr(r + Shl(x, n), n) == x
    decreases n
  {
    if n == 0 {
    } else {
      JoinSplit(x, n - 1, r / 2);
      var v := r + Shl(x, n);
      assert v / 2 == r / 2 + Shl(x, n - 1) && v % 2 == r % 2;
      ShrFront(v, n);
    }
  }

  lemma {:induction false} SplitJoin(v: nat, n: nat)
    ensures v == Low(v, n) + Shl(Shr(v, n), n)
    decreases n
  {
    if n == 0 {
    } else {
      SplitJoin(v / 2, n - 1);
      ShrFront(v, n);
    }
  }

  lemma LowOfSmall(r: nat, n: nat)
    requires r < Pow2(n)
    ensures Low(r, n) == r && Shr(r, n) == 0
  {
    ShlZero(n);
    JoinSplit(0, n, r);
  }

  // ---------- bit strings ----------

  /** Bit p of the input, numbering from the least significant bit of the first byte. */
  function BitAt(input: seq<Byte>, p: nat): (b: nat)
    ensures b <= 1
  {
    if p / 8 < |input| then BitOf(input[p / 8], p % 8) else 0
  }

  function ByteAt(input: seq<Byte>, k: nat): Byte {
    if k < |input| then input[k] else 0
  }

  /** The n bits from p on, the first bit being the least significant (RFC 1951, section 3.1.1). */
  function Lsb(input: seq<Byte>, p: nat, n: nat): nat
    decreases n, p
  {
    if n == 0 then 0 else BitAt(input, p) + 2 * Lsb(input, p + 1, n - 1)
  }

  /** The n bits from p on, the first bit being the most significant: how Huffman codes are packed. */
  function Msb(input: seq<Byte>, p: nat, n: nat): nat {
    if n == 0 then 0 else 2 * Msb(input, p, n - 1) + BitAt(input, p + n - 1)
  }

  lemma {:induction false} LsbBound(input: seq<Byte>, p: nat, n: nat)
    ensures Lsb(input, p, n) < Pow2(n)
    decreases n
  {
    if n == 0 {
    } else {
      LsbBound(input, p + 1, n - 1);
    }
  }

  lemma {:induction false} MsbBound(input: seq<Byte>, p: nat, n: nat)
    ensures Msb(input, p, n) < Pow2(n)
  {
    if n == 0 {
    } else {
      MsbBound(input, p, n - 1);
    }
  }

  lemma LsbUnfold(input: seq<Byte>, p: nat, n: nat)
    requires n > 0
    ensures Lsb(input, p, n) == BitAt(input, p) + 2 * Lsb(input, p + 1, n - 1)
    ensures Lsb(input, p, n) % 2 == BitAt(input, p)
    ensures Lsb(input, p, n) / 2 == Lsb(input, p + 1, n - 1)
  {
  }

  lemma ShlNone(x: nat)
    ensures Shl(x, 0) == x
  {
  }

  lemma ShlMore(x: nat, n: nat)
    requires n >= 1
    ensures Shl(x, n) == 2 * Shl(x, n - 1)
  {
  }

  lemma {:induction false} LsbSplit(input: seq<Byte>, p: nat, a: nat, b: nat)
    ensures Lsb(input, p, a + b) == Lsb(input, p, a) + Shl(Lsb(input, p + a, b), a)
    decreases a
  {
    hide Lsb, Shl, BitAt;
    if a == 0 {
      LsbEmpty(input, p);
      ShlNone(Lsb(input, p, b));
    } else {
      ShlMore(Lsb(input, p + a, b), a);
      calc {
        Lsb(input, p, a + b);
        { LsbUnfold(input, p, a + b); assert a + b - 1 == a - 1 + b; }
        BitAt(input, p) + 2 * Lsb(input, p + 1, a - 1 + b);
        { LsbSplit(input, p + 1, a - 1, b); assert p + 1 + (a - 1) == p + a; }
        BitAt(input, p) + 2 * (Lsb(input, p + 1, a - 1) + Shl(Lsb(input, p + a, b), a - 1));
        { LsbUnfold(input, p, a); }
        Lsb(input, p, a) + Shl(Lsb(input, p + a, b), a);
      }
    }
  }

  lemma {:induction false} MsbSplit(input: seq<Byte>, p: nat, a: nat, b: nat)
    ensures Msb(input, p, a + b) == Shl(Msb(input, p, a), b) + Msb(input, p + a, b)
  {
    if b == 0 {
    } else {
      MsbSplit(input, p, a, b - 1);
      assert a + b - 1 == a + (b - 1);
    }
  }

  /** Taking a bits out of a reservoir of a + b bits. */
  lemma LsbTake(input: seq<Byte>, p: nat, a: nat, b: nat)
    ensures Low(Lsb(input, p, a + b), a) == Lsb(input, p, a)
    ensures Shr(Lsb(input, p, a + b), a) == Lsb(input, p + a, b)
  {
    LsbSplit(input, p, a, b);
    LsbBound(input, p, a);
    JoinSplit(Lsb(input, p + a, b), a, Lsb(input, p, a));
  }

  /** Eight bits at a byte boundary are that byte. */
  lemma LsbByte(input: seq<Byte>, k: nat)
    ensures Lsb(input, 8 * k, 8) == ByteAt(input, k)
  {
    LsbOfByte(input, k, 0);
  }

  lemma {:induction false} LsbOfByte(input: seq<Byte>, k: nat, i: nat)
    requires i <= 8
    ensures Lsb(input, 8 * k + i, 8 - i) == Shr(ByteAt(input, k), i)
    decreases 8 - i
  {
    var v := ByteAt(input, k);
    if i == 8 {
      Pow2Table();
      LowOfSmall(v, 8);
    } else {
      LsbOfByte(input, k, i + 1);
      BitOfByte(input, k, i);
      LsbUnfold(input, 8 * k + i, 8 - i);
    }
  }

  lemma BitOfByte(input: seq<Byte>, k: nat, i: nat)
    requires i < 8
    ensures BitAt(input, 8 * k + i) == BitOf(ByteAt(input, k), i)
  {
    assert (8 * k + i) / 8 == k && (8 * k + i) % 8 == i;
    ShrZero(i);
  }

  /** Reversing the first n buffered bits gives the code they spell. */
  lemma {:induction false} RevLsb(input: seq<Byte>, p: nat, n: nat, m: nat)
    requires n <= m
    ensures RevBits(Lsb(input, p, m), n) == Msb(input, p, n)
  {
    if n == 0 {
    } else {
      RevLsb(input, p, n - 1, m);
      BitOfLsb(input, p, n - 1, m);
    }
  }

  lemma BitOfLsb(input: seq<Byte>, p: nat, i: nat, m: nat)
    requires i < m
    ensures BitOf(Lsb(input, p, m), i) == BitAt(input, p + i)
  {
    assert i + (m - i) == m;
    LsbTake(input, p, i, m - i);
    LsbUnfold(input, p + i, m - i);
  }

  lemma LsbEmpty(input: seq<Byte>, p: nat)
    ensures Lsb(input, p, 0) == 0
  {
  }

  lemma AppendByte(input: seq<Byte>, p: nat, n: nat, k: nat)
    requires p + n == 8 * k
    ensures Lsb(input, p, n + 8) == Lsb(input, p, n) + Shl(ByteAt(input, k), n)
  {
    LsbSplit(input, p, n, 8);
    LsbByte(input, k);
  }

  lemma TakeBits(input: seq<Byte>, p: nat, n: nat, m: nat)
    requires n <= m
    ensures Low(Lsb(input, p, m), n) == Lsb(input, p, n)
    ensures Shr(Lsb(input, p, m), n) == Lsb(input, p + n, m - n)
  {
    LsbTake(input, p, n, m - n);
    assert n + (m - n) == m;
  }

  lemma TakeByte(input: seq<Byte>, q: nat, m: nat)
    requires m >= 8
    ensures Low(Lsb(input, 8 * q, m), 8) == ByteAt(input, q)
    ensures Shr(Lsb(input, 8 * q, m), 8) == Lsb(input, 8 * (q + 1), m - 8)
  {
    TakeBits(input, 8 * q, 8, m);
    LsbByte(input, q);
  }

  // ---------- products and quotients ----------

  lemma ProductSign(m: int, d: int)
    requires m > 0
    ensures d >= 1 ==> m * d >= m
    ensures d <= -1 ==> m * d <= -m
  {
  }

  /** Comparing with a quotient is comparing the product. */
  lemma QuotientBound(x: nat, y: nat, c: nat)
    requires y >= 1
    ensures x <= c / y <==> x * y <= c
  {
    var q, r := c / y, c % y;
    assert c == y * q + r;
    assert (q - x) * y == y * q - x * y;
    ProductSign(y, q - x);
  }

  lemma {:induction false} ShlIs(x: nat, n: nat)
    ensures Shl(x, n) == Pow2(n) * x
  {
    if n == 0 {
    } else {
      ShlIs(x, n - 1);
    }
  }
}
