/** A valid stream that the decoder refuses because its last code stands in the last 16 bits of the input. */
module RefusedStream {
  import opened Wrappers
  import opened Bits
  import opened Canonical
  import opened InflateSpec
  import opened InflateCases
  import opened Fetching
  import opened Zlib

  /** One final block with the fixed codes: twice the letter a, then the end of the block, in 26 of 32 bits. */
  const STREAM: seq<Byte> := [0x4B, 0x4C, 0x04, 0x00]

  // ---------- two of the fixed codes ----------

  lemma {:induction false} CountRun(lens: seq<nat>, s: nat, v: nat, i: nat, j: nat)
    requires i <= j <= |lens| && forall k :: i <= k < j ==> lens[k] == v
    ensures Count(lens[..j], s) == Count(lens[..i], s) + if v == s then j - i else 0
  {
    if i >= j {
    } else {
      CountRun(lens, s, v, i, j - 1);
      CountStep(lens, j - 1, s);
    }
  }

  lemma FixedCounts(s: nat)
    requires s <= 7
    ensures Count(FixedLengths(), s) == if s == 7 then 24 else 0
    ensures Count(FixedLengths()[..256], 7) == 0 && Count(FixedLengths()[..97], 8) == 97
  {
    hide Count;
    var l := FixedLengths();
    NoneCounted(l, s);
    NoneCounted(l, 7);
    NoneCounted(l, 8);
    CountRun(l, 8, 8, 0, 97);
    CountRun(l, 7, 8, 0, 144);
    CountRun(l, 7, 9, 144, 256);
    CountRun(l, s, 8, 0, 144);
    CountRun(l, s, 9, 144, 256);
    CountRun(l, s, 7, 256, 280);
    CountRun(l, s, 8, 280, 288);
    assert l[..288] == l;
  }

  lemma NoneCounted(lens: seq<nat>, s: nat)
    ensures Count(lens[..0], s) == 0
  {
  }

  lemma {:induction false} FirstOfFixed(s: nat)
    requires s <= 7
    ensures First(FixedLengths(), s) == 0
  {
    hide Count, FixedLengths;
    if s >= 2 {
      FirstOfFixed(s - 1);
      FixedCounts(s - 1);
      FirstIs(FixedLengths(), s);
    } else {
      FirstIs(FixedLengths(), s);
    }
  }

  lemma FirstIs(lens: seq<nat>, s: nat)
    ensures First(lens, s) == if s <= 1 then 0 else 2 * (First(lens, s - 1) + Count(lens, s - 1))
  {
  }

  lemma FixedCodes()
    ensures FixedLengths()[97] == 8 && CodeOf(FixedLengths(), 97) == 145
    ensures FixedLengths()[256] == 7 && CodeOf(FixedLengths(), 256) == 0
  {
    hide Count, First;
    FirstOfFixed(7);
    FixedCounts(7);
    FirstIs(FixedLengths(), 8);
  }

  // ---------- the bits of the stream ----------

  lemma BitsOfStream()
    ensures Lsb(STREAM, 0, 1) == 1 && Lsb(STREAM, 1, 2) == 1
    ensures Msb(STREAM, 3, 8) == 145 && Msb(STREAM, 11, 8) == 145 && Msb(STREAM, 19, 7) == 0
  {
    hide Shr;
    FirstByte();
    SecondByte();
    ThirdByte();
    assert Msb(STREAM, 3, 4) == 9;
    assert Msb(STREAM, 11, 4) == 9;
    assert Msb(STREAM, 19, 4) == 0;
  }

  lemma FirstByte()
    ensures BitOf(0x4B, 0) == 1 && BitOf(0x4B, 1) == 1 && BitOf(0x4B, 2) == 0 && BitOf(0x4B, 3) == 1
    ensures BitOf(0x4B, 4) == 0 && BitOf(0x4B, 5) == 0 && BitOf(0x4B, 6) == 1 && BitOf(0x4B, 7) == 0
  {
  }

  lemma SecondByte()
    ensures BitOf(0x4C, 0) == 0 && BitOf(0x4C, 1) == 0 && BitOf(0x4C, 2) == 1 && BitOf(0x4C, 3) == 1
    ensures BitOf(0x4C, 4) == 0 && BitOf(0x4C, 5) == 0 && BitOf(0x4C, 6) == 1 && BitOf(0x4C, 7) == 0
  {
  }

  lemma ThirdByte()
    ensures BitOf(4, 0) == 0 && BitOf(4, 1) == 0 && BitOf(4, 2) == 1 && BitOf(4, 3) == 0
    ensures BitOf(4, 4) == 0 && BitOf(4, 5) == 0 && BitOf(4, 6) == 0 && BitOf(4, 7) == 0
    ensures BitOf(0, 0) == 0 && BitOf(0, 1) == 0
  {
  }

  // ---------- accepted by the format, refused by the decoder ----------

  lemma SymbolsOfStream()
    ensures Symbol(FixedLengths(), STREAM, 3) == Some(97)
    ensures Symbol(FixedLengths(), STREAM, 11) == Some(97)
    ensures Symbol(FixedLengths(), STREAM, 19) == Some(256)
  {
    hide CodeOf, Msb;
    FixedCodes();
    BitsOfStream();
    SymbolIs(FixedLengths(), STREAM, 3, 97);
    SymbolIs(FixedLengths(), STREAM, 11, 97);
    SymbolIs(FixedLengths(), STREAM, 19, 256);
  }

  lemma StreamIsRefused()
    ensures ZlibInflate(STREAM, false) == Some(State(26, [97, 97])) && ZlibFetch(STREAM, false) == None
  {
    hide CodeOf, Msb, Lsb, Symbol, Tokens, TokensFetch, Inflate, InflateFetch, CopyAt, CopyFetch;
    FixedCodes();
    BitsOfStream();
    SymbolsOfStream();
    var lit, dist := FixedLengths(), FixedDistances();
    var s0, s1, s2 := State(3, []), State(11, [97]), State(19, [97, 97]);
    assert s0.out + [97] == s1.out && s1.out + [97] == s2.out;
    TokensCases(lit, dist, STREAM, s0);
    TokensCases(lit, dist, STREAM, s1);
    TokensCases(lit, dist, STREAM, s2);
    TokensFetchCases(lit, dist, STREAM, s0, 4);
    TokensFetchCases(lit, dist, STREAM, s1, 4);
    TokensFetchCases(lit, dist, STREAM, s2, 4);
    StreamCases(STREAM, State(0, []));
    StreamFetchCases(STREAM, State(0, []), 0);
  }
}
