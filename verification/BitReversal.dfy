/** The bit reversal that turns codes, packed from their top bit, into indices read from their bottom bit. */
module BitReversal {
  import opened Bits

  /**
   Exchanges neighbouring groups of w bits, as one mask-and-shift step does: the masks 0xAAAA and 0x5555
   pick the odd and even groups of 1 bit, 0xCCCC and 0x3333 those of 2 bits, and so on.
   */
  function Exchange(n: nat, w: nat, pairs: nat): nat
    decreases pairs, n
  {
    if pairs == 0 then 0
    else Low(Shr(n, w), w) + Shl(Low(n, w) + Shl(Exchange(Shr(Shr(n, w), w), w, pairs - 1), w), w)
  }

  function BitReverse16(n: nat): nat {
    Exchange(Exchange(Exchange(Exchange(Low(n, 16), 1, 8), 2, 4), 4, 2), 8, 1)
  }

  function BitReverse(v: nat, bits: nat): nat
    requires bits <= 16
  {
    Shr(BitReverse16(v), 16 - bits)
  }

  // ---------- laws of bit reversal ----------

  lemma {:induction false} RevSplit(v: nat, a: nat, b: nat)
    ensures RevBits(v, a + b) == Shl(RevBits(v, a), b) + RevBits(Shr(v, a), b)
  {
    if b == 0 {
    } else {
      RevSplit(v, a, b - 1);
      assert a + b - 1 == a + (b - 1);
      ShrAdd(v, a, b - 1);
    }
  }

  lemma {:induction false} BitOfLow(v: nat, i: nat, m: nat)
    requires i < m
    ensures BitOf(Low(v, m), i) == BitOf(v, i)
  {
    var w := Low(v, m);
    assert w == v % 2 + 2 * Low(v / 2, m - 1);
    assert w / 2 == Low(v / 2, m - 1);
    if i > 0 {
      BitOfLow(v / 2, i - 1, m - 1);
      ShrFront(w, i);
      ShrFront(v, i);
    } else {
      assert Shr(w, 0) == w && Shr(v, 0) == v;
    }
  }

  lemma {:induction false} RevLow(v: nat, n: nat, m: nat)
    requires n <= m
    ensures RevBits(Low(v, m), n) == RevBits(v, n)
  {
    if n == 0 {
    } else {
      RevLow(v, n - 1, m);
      BitOfLow(v, n - 1, m);
    }
  }

  lemma RevFront(c: nat, n: nat)
    requires n > 0
    ensures RevBits(c, n) == Shl(c % 2, n - 1) + RevBits(c / 2, n - 1)
  {
    RevSplit(c, 1, n - 1);
    OneBit(c);
    assert Shr(c, 1) == c / 2 by { assert Shr(c, 0) == c; }
  }

  lemma OneBit(c: nat)
    ensures RevBits(c, 1) == c % 2
  {
    assert Shr(c, 0) == c;
    assert RevBits(c, 0) == 0;
  }

  lemma RevJoin(low: nat, b: nat, n: nat)
    requires low < Pow2(n) && b <= 1
    ensures RevBits(low + Shl(b, n), n + 1) == 2 * RevBits(low, n) + b
  {
    JoinSplit(b, n, low);
    RevLow(low + Shl(b, n), n, n);
  }

  lemma {:induction false} RevRev(c: nat, n: nat)
    requires c < Pow2(n)
    ensures RevBits(RevBits(c, n), n) == c
  {
    if n == 0 {
    } else {
      RevFront(c, n);
      RevBound(c / 2, n - 1);
      RevJoin(RevBits(c / 2, n - 1), c % 2, n - 1);
      RevRev(c / 2, n - 1);
    }
  }

  // ---------- the exchange steps reverse ----------

  /** Each of the first `blocks` groups of w bits reversed in place. */
  function BlockRev(n: nat, w: nat, blocks: nat): nat
    decreases blocks, n
  {
    if blocks == 0 then 0 else RevBits(n, w) + Shl(BlockRev(Shr(n, w), w, blocks - 1), w)
  }

  lemma ExchangePair(a: nat, b: nat, z: nat, w: nat, pairs: nat)
    requires a < Pow2(w) && b < Pow2(w) && pairs > 0
    ensures Exchange(a + Shl(b + Shl(z, w), w), w, pairs)
         == b + Shl(a + Shl(Exchange(z, w, pairs - 1), w), w)
  {
    JoinSplit(b + Shl(z, w), w, a);
    JoinSplit(z, w, b);
  }

  lemma RevPair(n: nat, w: nat, e: nat)
    ensures RevBits(Shr(n, w), w) + Shl(RevBits(n, w) + Shl(e, w), w) == RevBits(n, 2 * w) + Shl(e, 2 * w)
  {
    ShlAdd(RevBits(n, w), Shl(e, w), w);
    ShlShl(e, w, w);
    RevSplit(n, w, w);
    assert w + w == 2 * w;
  }

  lemma BlockPair(n: nat, w: nat, blocks: nat)
    requires blocks >= 2
    ensures BlockRev(n, w, blocks)
         == RevBits(n, w) + Shl(RevBits(Shr(n, w), w) + Shl(BlockRev(Shr(n, 2 * w), w, blocks - 2), w), w)
  {
    ShrAdd(n, w, w);
    assert w + w == 2 * w;
  }

  lemma {:induction false} ExchangeDoubles(n: nat, w: nat, pairs: nat)
    ensures Exchange(BlockRev(n, w, 2 * pairs), w, pairs) == BlockRev(n, 2 * w, pairs)
    decreases pairs
  {
    hide Low, Shr, Shl, RevBits;
    if pairs == 0 {
    } else {
      ExchangeDoubles(Shr(n, 2 * w), w, pairs - 1);
      ExchangeStep(n, w, pairs);
    }
  }

  lemma ExchangeStep(n: nat, w: nat, pairs: nat)
    requires pairs > 0
    ensures Exchange(BlockRev(n, w, 2 * pairs), w, pairs)
         == RevBits(n, 2 * w) + Shl(Exchange(BlockRev(Shr(n, 2 * w), w, 2 * (pairs - 1)), w, pairs - 1), 2 * w)
  {
    hide *;
    var z := BlockRev(Shr(n, 2 * w), w, 2 * (pairs - 1));
    assert 2 * pairs - 2 == 2 * (pairs - 1);
    BlockPair(n, w, 2 * pairs);
    RevBound(n, w);
    RevBound(Shr(n, w), w);
    ExchangePair(RevBits(n, w), RevBits(Shr(n, w), w), z, w, pairs);
    RevPair(n, w, Exchange(z, w, pairs - 1));
  }

  lemma {:induction false} SingleBits(n: nat, k: nat)
    ensures BlockRev(n, 1, k) == Low(n, k)
  {
    if k == 0 {
    } else {
      OneBit(n);
      assert Shr(n, 1) == n / 2 by { assert Shr(n, 0) == n; }
      SingleBits(n / 2, k - 1);
      ShlByOne(Low(n / 2, k - 1));
    }
  }

  lemma ShlByOne(x: nat)
    ensures Shl(x, 1) == 2 * x
  {
    assert Shl(x, 0) == x;
  }

  lemma Reverse16IsRev(v: nat)
    ensures BitReverse16(v) == RevBits(v, 16)
  {
    hide Low, Shr, Shl, RevBits, Exchange;
    SingleBits(v, 16);
    ExchangeDoubles(v, 1, 8);
    ExchangeDoubles(v, 2, 4);
    ExchangeDoubles(v, 4, 2);
    ExchangeDoubles(v, 8, 1);
    ShlZero(16);
    assert BlockRev(v, 16, 1) == RevBits(v, 16) + Shl(BlockRev(Shr(v, 16), 16, 0), 16);
  }

  /** A 16-bit reversal followed by a shift reverses any number of low bits. */
  lemma BitReverseIsRev(v: nat, bits: nat)
    requires bits <= 16
    ensures BitReverse(v, bits) == RevBits(v, bits)
  {
    Reverse16IsRev(v);
    RevSplit(v, bits, 16 - bits);
    RevBound(Shr(v, bits), 16 - bits);
    JoinSplit(RevBits(v, bits), 16 - bits, RevBits(Shr(v, bits), 16 - bits));
  }

  /** The table indices whose low n bits spell the code c are those whose low bits are its reversal. */
  lemma RevIffLow(v: nat, c: nat, n: nat)
    requires c < Pow2(n)
    ensures RevBits(v, n) == c <==> Low(v, n) == RevBits(c, n)
  {
    RevLow(v, n, n);
    LowBound(v, n);
    RevRev(Low(v, n), n);
    RevRev(c, n);
  }
}
