/** Why the two-level table lookup finds the canonical code at the cursor. */
module ZDecode {
  import opened Bits
  import opened BitReversal
  import opened Canonical
  import opened ZHuffmanTable
  import opened InflateSpec

  lemma {:induction false} PrefixOfMsb(input: seq<Byte>, p: nat, s: nat)
    requires s <= 16
    ensures Prefix(Msb(input, p, 16), s) == Msb(input, p, s)
    decreases 16 - s
  {
    if s >= 16 {
    } else {
      PrefixOfMsb(input, p, s + 1);
    }
  }

  lemma MatchIsHit(lens: seq<nat>, input: seq<Byte>, p: nat, i: nat)
    requires LengthsUpTo(lens, 15)
    ensures Matches(lens, input, p, i) <==> Hit(lens, Msb(input, p, 16), i)
  {
    hide Msb, Prefix;
    if i < |lens| {
      PrefixOfMsb(input, p, lens[i]);
    }
  }

  lemma FastIndex(input: seq<Byte>, p: nat, m: nat, s: nat)
    requires s <= FAST_BITS <= m
    ensures RevBits(Low(Lsb(input, p, m), FAST_BITS), s) == Msb(input, p, s)
    ensures Low(Lsb(input, p, m), FAST_BITS) < FAST_SIZE
  {
    RevLow(Lsb(input, p, m), s, FAST_BITS);
    RevLsb(input, p, s, m);
    LowBound(Lsb(input, p, m), FAST_BITS);
    Pow2Table();
  }

  lemma FastFound(lens: seq<nat>, fast: seq<nat>, input: seq<Byte>, p: nat, m: nat, v: nat)
    requires |fast| == FAST_SIZE && |lens| <= NSYMS && FastSound(fast, lens, |lens|)
    requires m >= 16 && v == Low(Lsb(input, p, m), FAST_BITS) && v < FAST_SIZE && fast[v] != 0
    ensures var s, i := fast[v] / 512, fast[v] % 512;
            Matches(lens, input, p, i) && lens[i] == s <= FAST_BITS
  {
    hide RevBits, Low, Lsb, Msb;
    var i: nat :| i < |lens| && FastHit(lens, i, v) && fast[v] == Entry(lens[i], i);
    assert fast[v] / 512 == lens[i] && fast[v] % 512 == i;
    FastIndex(input, p, m, lens[i]);
  }

  /** An empty fast entry means that no code of up to 9 bits starts the stream. */
  lemma FastMiss(lens: seq<nat>, fast: seq<nat>, input: seq<Byte>, p: nat, m: nat, v: nat)
    requires |fast| == FAST_SIZE && LengthsUpTo(lens, 15) && FastComplete(fast, lens, |lens|)
    requires m >= 16 && v == Low(Lsb(input, p, m), FAST_BITS) && v < FAST_SIZE
    ensures fast[v] == 0 ==> Msb(input, p, FAST_BITS) >= Limit(lens, FAST_BITS)
  {
    hide RevBits, Low, Lsb, Msb, Prefix, Limit;
    PrefixOfMsb(input, p, FAST_BITS);
    if Msb(input, p, FAST_BITS) < Limit(lens, FAST_BITS) {
      var i := HitBelow(lens, Msb(input, p, 16), FAST_BITS);
      PrefixOfMsb(input, p, lens[i]);
      FastIndex(input, p, m, lens[i]);
      assert FastHit(lens, i, v);
    }
  }

  lemma SlowCompare(lens: seq<nat>, input: seq<Byte>, p: nat, s: nat)
    requires 1 <= s <= 16
    ensures Msb(input, p, 16) < Shl(Limit(lens, s), 16 - s) <==> Msb(input, p, s) < Limit(lens, s)
  {
    PreshiftedCompare(Msb(input, p, 16), s, Limit(lens, s));
    PrefixOfMsb(input, p, s);
  }

  lemma SlowFound(lens: seq<nat>, input: seq<Byte>, p: nat, s: nat) returns (i: nat)
    requires LengthsUpTo(lens, 15) && 1 < s <= 15
    requires Msb(input, p, s) < Limit(lens, s) && Msb(input, p, s - 1) >= Limit(lens, s - 1)
    ensures Matches(lens, input, p, i) && lens[i] == s && First(lens, s) <= Msb(input, p, s)
    ensures Pos(lens, i) == Msb(input, p, s) - First(lens, s) + FirstPos(lens, s) < |lens|
  {
    PrefixOfMsb(input, p, s);
    PrefixOfMsb(input, p, s - 1);
    i := HitAt(lens, Msb(input, p, 16), s);
    PosBelow(lens, i);
  }

  lemma SlowMiss(lens: seq<nat>, input: seq<Byte>, p: nat)
    requires LengthsUpTo(lens, 15) && Msb(input, p, 15) >= Limit(lens, 15)
    ensures forall i: nat :: !Matches(lens, input, p, i)
  {
    PrefixOfMsb(input, p, 15);
    NoHitUpTo(lens, Msb(input, p, 16), 15);
    forall i: nat ensures !Matches(lens, input, p, i) {
      MatchIsHit(lens, input, p, i);
    }
  }
}
