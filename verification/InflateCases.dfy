/** The reference decoder unfolded case by case. */
module InflateCases {
  import opened Wrappers
  import opened Bits
  import opened Canonical
  import opened InflateSpec

  // ---------- the cases of the reference ----------

  lemma StreamCases(input: seq<Byte>, st: State)
    ensures var r := Inflate(input, st);
            match Block(Lsb(input, st.p + 1, 2), input, State(st.p + 3, st.out))
            case None => r == None
            case Some(s1) =>
              && st.p < 8 * |input|
              && r == (if Lsb(input, st.p, 1) == 1 then Some(s1) else Inflate(input, s1))
              && (r.Some? ==> r.value.p >= s1.p && |r.value.out| >= |s1.out|)
    ensures Lsb(input, st.p, 1) <= 1
  {
    hide Block;
    LsbUnfold(input, st.p, 1);
    LsbEmpty(input, st.p + 1);
    if st.p >= 8 * |input| {
      PastTheEnd(input, st);
    }
  }

  /** Past the end of the input the padding reads as a stored block with a bad header. */
  lemma PastTheEnd(input: seq<Byte>, st: State)
    requires st.p >= 8 * |input|
    ensures Block(Lsb(input, st.p + 1, 2), input, State(st.p + 3, st.out)) == None
  {
    hide BitAt, Tokens, DynamicTables, Lsb;
    ZeroBits(input, st.p + 1);
    ZeroHeader(input, State(st.p + 3, st.out));
  }

  lemma ZeroBits(input: seq<Byte>, p: nat)
    requires p >= 8 * |input|
    ensures Lsb(input, p, 2) == 0
  {
    LsbUnfold(input, p, 2);
    LsbUnfold(input, p + 1, 1);
    LsbEmpty(input, p + 2);
  }

  lemma ZeroHeader(input: seq<Byte>, st: State)
    requires st.p >= 8 * |input|
    ensures Stored(input, st) == None
  {
    var q := (st.p + 7) / 8;
    assert q >= |input|;
    assert ByteAt(input, q) == ByteAt(input, q + 1) == ByteAt(input, q + 2) == ByteAt(input, q + 3) == 0;
  }

  // ---------- the fixed codes ----------

  lemma FixedAreSubscribed()
    ensures Subscribed(FixedLengths()) && Subscribed(FixedDistances())
    ensures LengthsUpTo(FixedLengths(), 15) && LengthsUpTo(FixedDistances(), 15)
    ensures |FixedLengths()| == 288 && |FixedDistances()| == 32
  {
    hide Kraft, Pow2;
    FixedLengthsKraft();
    FixedDistancesKraft();
  }

  lemma FixedLengthsKraft()
    ensures Kraft(FixedLengths(), 15) == 0x8000 && Pow2(15) == 0x8000
  {
    hide Kraft, Pow2;
    var l := FixedLengths();
    KraftRun(l, 8, 0, 144);
    KraftRun(l, 9, 144, 256);
    KraftRun(l, 7, 256, 280);
    KraftRun(l, 8, 280, 288);
    assert l[..288] == l;
    KraftOfNone(l);
    Pow2Table();
  }

  lemma FixedDistancesKraft()
    ensures Kraft(FixedDistances(), 15) == 0x8000
  {
    hide Kraft, Pow2;
    var d := FixedDistances();
    KraftRun(d, 5, 0, 32);
    assert d[..32] == d;
    KraftOfNone(d);
    Pow2Table();
  }

  lemma KraftOfNone(lens: seq<nat>)
    ensures Kraft(lens[..0], 15) == 0
  {
  }

  lemma {:induction false} KraftRun(lens: seq<nat>, s: nat, i: nat, j: nat)
    requires i <= j <= |lens| && 1 <= s <= 15
    requires forall k :: i <= k < j ==> lens[k] == s
    ensures Kraft(lens[..j], 15) == Kraft(lens[..i], 15) + (j - i) * Pow2(15 - s)
  {
    hide Pow2, Kraft;
    if i >= j {
    } else {
      var w, n := Pow2(15 - s), j - 1 - i;
      assert Kraft(lens[..j], 15) == Kraft(lens[..j - 1], 15) + w by {
        KraftLast(lens[..j]);
        assert lens[..j][..j - 1] == lens[..j - 1];
      }
      KraftRun(lens, s, i, j - 1);
      OneMore(n, w);
    }
  }

  lemma KraftLast(lens: seq<nat>)
    requires lens != [] && 1 <= lens[|lens| - 1] <= 15
    ensures Kraft(lens, 15) == Kraft(lens[..|lens| - 1], 15) + Pow2(15 - lens[|lens| - 1])
  {
    hide Pow2;
  }

  lemma OneMore(n: int, w: int)
    ensures (n + 1) * w == n * w + w
  {
  }

  // ---------- the header of a dynamic block ----------

  ghost predicate HeaderIs(input: seq<Byte>, p: nat, hlit: nat, hdist: nat, q: nat) {
    && hlit == Lsb(input, p, 5) + 257
    && hdist == Lsb(input, p + 5, 5) + 1
    && q == p + 14 + 3 * (Lsb(input, p + 10, 4) + 4)
    && hlit <= 288 && hdist <= 32
  }

  ghost function HeaderLengths(input: seq<Byte>, p: nat): (r: seq<nat>)
    ensures |r| == 19 && LengthsUpTo(r, 15)
  {
    HeaderBounds(input, p);
    CodeLengthLengths(input, p + 14, Lsb(input, p + 10, 4) + 4)
  }

  lemma HeaderBounds(input: seq<Byte>, p: nat)
    ensures Lsb(input, p, 5) < 32 && Lsb(input, p + 5, 5) < 32 && Lsb(input, p + 10, 4) < 16
  {
    hide Lsb;
    Pow2Table();
    LsbBound(input, p, 5);
    LsbBound(input, p + 5, 5);
    LsbBound(input, p + 10, 4);
  }

  lemma DynamicCases(input: seq<Byte>, p: nat, hlit: nat, hdist: nat, q: nat)
    requires HeaderIs(input, p, hlit, hdist, q)
    ensures var r := DynamicTables(input, p);
            var cl := HeaderLengths(input, p);
            if !Subscribed(cl) then r == None
            else match Lengths(cl, input, q, [], hlit + hdist)
                 case None => r == None
                 case Some((q', lens)) =>
                   if Subscribed(lens[..hlit]) && Subscribed(lens[hlit..])
                   then r == Some(InflateSpec.Tables(q', lens[..hlit], lens[hlit..]))
                   else r == None
  {
    hide Lsb, Kraft, Lengths, CodeLengthLengths;
  }

  lemma LengthsCases(cl: seq<nat>, input: seq<Byte>, p: nat, acc: seq<nat>, total: nat)
    requires |acc| < total && LengthsUpTo(acc, 15)
    ensures var r := Lengths(cl, input, p, acc, total);
            match LengthRun(cl, input, p, acc)
            case None => r == None
            case Some((q, run)) =>
              && (|run| > total - |acc| ==> r == None)
              && (|run| <= total - |acc| ==> r == Lengths(cl, input, q, acc + run, total))
              && (r.Some? ==> r.value.0 >= p)
  {
    hide LengthRun;
  }

  lemma CodeLengthsStart(input: seq<Byte>, p: nat)
    ensures CodeLengthLengths(input, p, 0) == seq(19, _ => 0)
  {
  }

  lemma CodeLengthsStep(input: seq<Byte>, p: nat, n: nat)
    requires n < 19
    ensures DEZIGZAG[n] < 19
    ensures CodeLengthLengths(input, p, n + 1)
         == CodeLengthLengths(input, p, n)[DEZIGZAG[n] := Lsb(input, p + 3 * n, 3)]
  {
    hide Lsb;
  }

  lemma RepeatLength(x: nat, n: nat)
    ensures |Repeat(x, n)| == n
  {
  }

  lemma TokensCases(lit: seq<nat>, dist: seq<nat>, input: seq<Byte>, st: State)
    ensures var r := Tokens(lit, dist, input, st);
            match Symbol(lit, input, st.p)
            case None => r == None
            case Some(sym) =>
              var p := st.p + lit[sym];
              if sym == 256 then r == Some(State(p, st.out))
              else if sym < 256 then
                && (|st.out| < MAX_OUT ==> r == Tokens(lit, dist, input, State(p, st.out + [sym])))
                && (r.Some? ==> |r.value.out| > |st.out| && r.value.p > p)
              else
                match CopyAt(lit, dist, input, st)
                case None => r == None
                case Some(s1) =>
                  && (|s1.out| <= MAX_OUT ==> r == Tokens(lit, dist, input, s1))
                  && (r.Some? ==> |r.value.out| >= |s1.out| && r.value.p > s1.p)
    ensures Tokens(lit, dist, input, st).Some? ==> Tokens(lit, dist, input, st).value.p > st.p
  {
    hide Symbol, CopyAt;
  }

  lemma CopyOne(out: seq<Byte>, dist: nat, len: nat)
    requires 1 <= dist <= |out| && len > 0
    ensures CopyMatch(out, dist, len) == CopyMatch(out + [out[|out| - dist]], dist, len - 1)
  {
  }

  lemma CopyNone(out: seq<Byte>, dist: nat)
    requires 1 <= dist <= |out|
    ensures CopyMatch(out, dist, 0) == out
  {
  }

  lemma NotCoded(lens: seq<nat>, base: seq<nat>, extra: seq<nat>, first: nat, input: seq<Byte>, p: nat)
    requires |base| == |extra| && Positive(base)
    requires Symbol(lens, input, p).Some? ==> Symbol(lens, input, p).value >= first + |base|
    ensures Coded(lens, base, extra, first, input, p) == None
  {
  }

  lemma ExtraBitsAreFew()
    ensures forall i :: 0 <= i < |LENGTH_EXTRA| ==> LENGTH_EXTRA[i] <= 16
    ensures forall i :: 0 <= i < |DIST_EXTRA| ==> DIST_EXTRA[i] <= 16
  {
  }
}
