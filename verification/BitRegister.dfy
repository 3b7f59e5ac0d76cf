/** Bits read from the most significant end, and the register that buffers them in the JPEG decoder. */
module BitRegister {
  import opened Bits

  /** Bit p of the data, numbering from the most significant bit of the first byte; zero past the end. */
  function StreamBit(bytes: seq<Byte>, p: nat): (b: nat)
    ensures b <= 1
  {
    BitOf(ByteAt(bytes, p / 8), 7 - p % 8)
  }

  /** The n bits from p on as a number. */
  function Big(bytes: seq<Byte>, p: nat, n: nat): nat
    decreases n, p
  {
    if n == 0 then 0 else 2 * Big(bytes, p, n - 1) + StreamBit(bytes, p + n - 1)
  }

  lemma {:induction false} BigBound(bytes: seq<Byte>, p: nat, n: nat)
    ensures Big(bytes, p, n) < Pow2(n)
    decreases n
  {
    hide StreamBit;
    if n == 0 {
    } else {
      BigBound(bytes, p, n - 1);
    }
  }

  lemma {:induction false} BigSplit(bytes: seq<Byte>, p: nat, a: nat, b: nat)
    ensures Big(bytes, p, a + b) == Shl(Big(bytes, p, a), b) + Big(bytes, p + a, b)
    decreases b
  {
    hide StreamBit;
    if b == 0 {
    } else {
      BigSplit(bytes, p, a, b - 1);
      assert a + b - 1 == a + (b - 1);
    }
  }

  /** Eight bits at a byte boundary are that byte. */
  lemma BigByte(bytes: seq<Byte>, k: nat)
    ensures Big(bytes, 8 * k, 8) == ByteAt(bytes, k)
  {
    hide *;
    BigOfByte(bytes, k, 8);
    ByteShifted(ByteAt(bytes, k), 8);
  }

  lemma ByteShifted(b: nat, i: nat)
    requires i == 8
    ensures Shr(b, 8 - i) == b
  {
  }

  lemma {:induction false} BigOfByte(bytes: seq<Byte>, k: nat, i: nat)
    requires i <= 8
    ensures Big(bytes, 8 * k, i) == Shr(ByteAt(bytes, k), 8 - i)
    decreases i
  {
    hide StreamBit;
    var b := ByteAt(bytes, k);
    if i == 0 {
      BigEmpty(bytes, 8 * k);
      Pow2Table();
      ShrBound(b, 0, 8);
    } else {
      BigOfByte(bytes, k, i - 1);
      StreamBitOfByte(bytes, k, i - 1);
    }
  }

  lemma BigEmpty(bytes: seq<Byte>, p: nat)
    ensures Big(bytes, p, 0) == 0
  {
  }

  lemma StreamBitOfByte(bytes: seq<Byte>, k: nat, i: nat)
    requires i < 8
    ensures StreamBit(bytes, 8 * k + i) == Shr(ByteAt(bytes, k), 7 - i) % 2
  {
  }

  /** Past the end there are only zeros. */
  lemma {:induction false} BigPastEnd(bytes: seq<Byte>, p: nat, n: nat)
    requires p >= 8 * |bytes|
    ensures Big(bytes, p, n) == 0
    decreases n
  {
    if n == 0 {
    } else {
      BigPastEnd(bytes, p, n - 1);
      ShrZero(7 - (p + n - 1) % 8);
    }
  }

  // ---------- the register ----------

  /** n bits, at the top of a register of w bits. */
  function Register(bytes: seq<Byte>, p: nat, n: nat, w: nat): nat
    requires n <= w
  {
    Shl(Big(bytes, p, n), w - n)
  }

  lemma RegisterFull(bytes: seq<Byte>, p: nat, w: nat)
    ensures Register(bytes, p, w, w) == Big(bytes, p, w)
  {
  }

  lemma RegisterSplit(bytes: seq<Byte>, p: nat, n: nat, t: nat, w: nat)
    requires t <= n <= w
    ensures Register(bytes, p, n, w) == Shl(Big(bytes, p, t), w - t) + Shl(Big(bytes, p + t, n - t), w - n)
    ensures Shl(Big(bytes, p + t, n - t), w - n) < Pow2(w - t)
  {
    hide Big, Shl, Pow2;
    BigSplit(bytes, p, t, n - t);
    BigBound(bytes, p + t, n - t);
    ShlAdd(Shl(Big(bytes, p, t), n - t), Big(bytes, p + t, n - t), w - n);
    ShlShl(Big(bytes, p, t), n - t, w - n);
    ShlBelow(Big(bytes, p + t, n - t), n - t, w - n);
  }

  lemma {:induction false} ShlBelow(x: nat, a: nat, b: nat)
    requires x < Pow2(a)
    ensures Shl(x, b) < Pow2(a + b)
  {
    if b == 0 {
    } else {
      ShlBelow(x, a, b - 1);
      assert Pow2(a + b) == 2 * Pow2(a + (b - 1));
    }
  }

  /** Shifting the register right gives its first bits. */
  lemma RegisterTop(bytes: seq<Byte>, p: nat, n: nat, t: nat, w: nat)
    requires t <= n <= w
    ensures Shr(Register(bytes, p, n, w), w - t) == Big(bytes, p, t)
  {
    hide Big, Shl, Shr, Pow2, Register;
    RegisterSplit(bytes, p, n, t, w);
    JoinSplit(Big(bytes, p, t), w - t, Shl(Big(bytes, p + t, n - t), w - n));
  }

  /** Shifting the register left drops its first bits. */
  lemma RegisterDrop(bytes: seq<Byte>, p: nat, n: nat, t: nat, w: nat)
    requires t <= n <= w
    ensures Low(Shl(Register(bytes, p, n, w), t), w) == Register(bytes, p + t, n - t, w)
  {
    hide Big, Shl, Shr, Pow2, Low;
    var high, rest := Big(bytes, p, t), Shl(Big(bytes, p + t, n - t), w - n);
    RegisterSplit(bytes, p, n, t, w);
    ShlAdd(Shl(high, w - t), rest, t);
    ShlShl(high, w - t, t);
    ShlShl(Big(bytes, p + t, n - t), w - n, t);
    ShlBelow(rest, w - t, t);
    assert w - t + t == w;
    JoinSplit(high, w, Shl(rest, t));
    assert w - (n - t) == w - n + t;
  }

  /** When the data has ended, the empty part of the register reads as the zeros that follow. */
  lemma RegisterAtEnd(bytes: seq<Byte>, p: nat, n: nat, w: nat)
    requires n <= w && p + n >= 8 * |bytes|
    ensures Register(bytes, p, n, w) == Register(bytes, p, w, w)
  {
    hide Big, Shl, Pow2;
    BigSplit(bytes, p, n, w - n);
    BigPastEnd(bytes, p + n, w - n);
    ShlNone(Big(bytes, p, w));
  }

  /**
   The first t bits of the data are at the top of the register if that many are buffered, or if the data has ended.
   */
  lemma RegisterWindow(bytes: seq<Byte>, p: nat, n: nat, t: nat, w: nat)
    requires n <= w && t <= w && (t <= n || p + n >= 8 * |bytes|)
    ensures Shr(Register(bytes, p, n, w), w - t) == Big(bytes, p, t)
  {
    hide Big, Shr, Register;
    if t <= n {
      RegisterTop(bytes, p, n, t, w);
    } else {
      RegisterAtEnd(bytes, p, n, w);
      RegisterTop(bytes, p, w, t, w);
    }
  }

  /** Entering the next byte below the buffered bits. */
  lemma RegisterAppend(bytes: seq<Byte>, p: nat, n: nat, k: nat, w: nat)
    requires n + 8 <= w && p + n == 8 * k
    ensures Register(bytes, p, n + 8, w) == Register(bytes, p, n, w) + Shl(ByteAt(bytes, k), w - 8 - n)
  {
    hide Big, Shl, Pow2, ByteAt;
    BigSplit(bytes, p, n, 8);
    BigByte(bytes, k);
    ShlAdd(Shl(Big(bytes, p, n), 8), ByteAt(bytes, k), w - 8 - n);
    ShlShl(Big(bytes, p, n), 8, w - 8 - n);
    assert 8 + (w - 8 - n) == w - n;
  }

  lemma RegisterEmpty(bytes: seq<Byte>, p: nat, w: nat)
    ensures Register(bytes, p, 0, w) == 0
  {
    hide Shl;
    BigEmpty(bytes, p);
    ShlZero(w);
  }
}
