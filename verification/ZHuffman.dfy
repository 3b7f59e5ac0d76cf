/** The two-level Huffman decoding table of the zlib decoder (lib/stb_image.h, stbi__zbuild_huffman). */
module ZHuffmanTable {
  import opened Bits
  import opened BitReversal
  import opened Canonical

  const FAST_BITS: nat := 9
  const FAST_SIZE: nat := 512
  const NSYMS: nat := 288

  // ---------- what the fast table holds once the first n symbols are entered ----------

  /** A fast entry packs a code length above a 9-bit symbol. */
  function Entry(s: nat, i: nat): nat {
    512 * s + i
  }

  ghost predicate FastSound(fast: seq<nat>, lens: seq<nat>, n: nat)
    requires n <= |lens|
  {
    forall v :: 0 <= v < |fast| && fast[v] != 0 ==>
                  exists i: nat :: i < n && FastHit(lens, i, v) && fast[v] == Entry(lens[i], i)
  }

  ghost predicate FastComplete(fast: seq<nat>, lens: seq<nat>, n: nat)
    requires n <= |lens|
  {
    forall v: nat, i: nat :: v < |fast| && i < n && FastHit(lens, i, v) ==> fast[v] == Entry(lens[i], i)
  }

  /** The bits of index v, from the least significant on, start with the short code of symbol i. */
  ghost predicate FastHit(lens: seq<nat>, i: nat, v: nat) {
    i < |lens| && 1 <= lens[i] <= FAST_BITS && RevBits(v, lens[i]) == CodeOf(lens, i)
  }

  lemma FastHitUnique(lens: seq<nat>, i: nat, j: nat, v: nat)
    requires FastHit(lens, i, v) && FastHit(lens, j, v)
    ensures i == j
  {
    hide RevBits;
    var a, b := lens[i], lens[j];
    if a <= b {
      RevSplit(v, a, b - a);
      RevBound(Shr(v, a), b - a);
      PrefixFree(lens, i, j, RevBits(Shr(v, a), b - a));
    } else {
      RevSplit(v, b, a - b);
      RevBound(Shr(v, b), a - b);
      PrefixFree(lens, j, i, RevBits(Shr(v, b), a - b));
    }
  }

  lemma LowPeriod(v: nat, s: nat)
    ensures Low(v + Pow2(s), s) == Low(v, s)
  {
    SplitJoin(v, s);
    ShlAdd(Shr(v, s), 1, s);
    ShlOne(s);
    LowBound(v, s);
    JoinSplit(Shr(v, s) + 1, s, Low(v, s));
  }

  lemma LowSeparated(v: nat, w: nat, s: nat)
    requires v < w && Low(v, s) == Low(w, s)
    ensures v + Pow2(s) <= w
  {
    SplitJoin(v, s);
    SplitJoin(w, s);
    if Shr(w, s) < Shr(v, s) {
      ShlSucc(Shr(w, s), Shr(v, s), s);
    } else if Shr(v, s) < Shr(w, s) {
      ShlSucc(Shr(v, s), Shr(w, s), s);
    }
  }

  lemma LowSmaller(v: nat, s: nat)
    requires v < Pow2(s)
    ensures forall w: nat :: w < v ==> Low(w, s) != Low(v, s)
  {
    forall w: nat | w < v ensures Low(w, s) != Low(v, s) {
      if Low(w, s) == Low(v, s) {
        LowSeparated(w, v, s);
      }
    }
  }

  // ---------- the tables, as sequences ----------

  /** First code, preshifted limit and first position of every length below n. */
  ghost predicate LengthTables(fc: seq<nat>, mc: seq<nat>, fs: seq<nat>, lens: seq<nat>, n: nat)
    requires |fc| == 16 && |mc| == 17 && |fs| == 16 && n <= 16
  {
    forall s: nat :: 1 <= s < n ==>
                       fc[s] == First(lens, s) && mc[s] == Shl(Limit(lens, s), 16 - s) && fs[s] == FirstPos(lens, s)
  }

  /** The coded symbols among the first n, stored in code order. */
  ghost predicate SymbolTables(sz: seq<nat>, vl: seq<nat>, lens: seq<nat>, n: nat)
    requires |sz| == |vl| == NSYMS && n <= |lens|
  {
    forall i: nat :: i < n && lens[i] > 0 ==>
                       Pos(lens, i) < NSYMS && sz[Pos(lens, i)] == lens[i] && vl[Pos(lens, i)] == i
  }

  /** The next unused code of every length, after the first n symbols. */
  ghost predicate NextCodes(next: seq<nat>, lens: seq<nat>, n: nat)
    requires |next| == 16 && n <= |lens|
  {
    forall s: nat :: 1 <= s < 16 ==> next[s] == First(lens, s) + Count(lens[..n], s)
  }

  ghost predicate CountTable(sizes: seq<nat>, lens: seq<nat>)
    requires |sizes| == 17
  {
    forall s: nat :: 1 <= s < 16 ==> sizes[s] == Count(lens, s)
  }

  lemma SymbolStep(sz: seq<nat>, vl: seq<nat>, lens: seq<nat>, i: nat)
    requires |sz| == |vl| == NSYMS && i < |lens| <= NSYMS && lens[i] > 0
    requires SymbolTables(sz, vl, lens, i)
    ensures Pos(lens, i) < NSYMS
    ensures SymbolTables(sz[Pos(lens, i) := lens[i]], vl[Pos(lens, i) := i], lens, i + 1)
  {
    hide Pos;
    PosBelow(lens, i);
    forall j: nat | j < i && lens[j] > 0 ensures Pos(lens, j) != Pos(lens, i) {
      if Pos(lens, j) == Pos(lens, i) {
        PosInjective(lens, i, j);
      }
    }
  }

  lemma NextStep(next: seq<nat>, lens: seq<nat>, i: nat)
    requires |next| == 16 && i < |lens| && lens[i] < 16
    requires NextCodes(next, lens, i)
    ensures NextCodes(next[lens[i] := next[lens[i]] + 1], lens, i + 1)
  {
    hide First, Count;
    forall s: nat ensures Count(lens[..i + 1], s) == Count(lens[..i], s) + (if lens[i] == s then 1 else 0) {
      CountStep(lens, i, s);
    }
  }

  class ZHuffman {
    const fast: array<nat>
    const firstcode: array<nat>
    const maxcode: array<nat>
    const firstsymbol: array<nat>
    const size: array<nat>
    const value: array<nat>
    ghost var lens: seq<nat>
    ghost const Repr: set<object>

    ghost predicate Shape() {
      && fast.Length == FAST_SIZE && firstcode.Length == 16 && maxcode.Length == 17
      && firstsymbol.Length == 16 && size.Length == NSYMS && value.Length == NSYMS
      && fast != firstcode && fast != maxcode && fast != firstsymbol && fast != size && fast != value
      && firstcode != maxcode && firstcode != firstsymbol && firstcode != size && firstcode != value
      && maxcode != firstsymbol && maxcode != size && maxcode != value
      && firstsymbol != size && firstsymbol != value && size != value
      && Repr == {this, fast, firstcode, maxcode, firstsymbol, size, value}
    }

    constructor ()
      ensures Shape() && fresh(Repr)
    {
      var f, fc, mc := new nat[FAST_SIZE], new nat[16], new nat[17];
      var fs, sz, vl := new nat[16], new nat[NSYMS], new nat[NSYMS];
      fast, firstcode, maxcode, firstsymbol, size, value := f, fc, mc, fs, sz, vl;
      lens := [];
      Repr := {this, f, fc, mc, fs, sz, vl};
    }

    ghost predicate Valid()
      reads this, fast, firstcode, maxcode, firstsymbol, size, value
    {
      && Shape()
      && |lens| <= NSYMS && LengthsUpTo(lens, 15) && Fits(lens, 15)
      && LengthTables(firstcode[..], maxcode[..], firstsymbol[..], lens, 16) && maxcode[16] == 0x10000
      && SymbolTables(size[..], value[..], lens, |lens|)
      && FastSound(fast[..], lens, |lens|) && FastComplete(fast[..], lens, |lens|)
    }

    /**
     Builds the tables for a list of code lengths. Accepts exactly the lists that do not over-subscribe
     the code space.
     */
    method Build(sizelist: seq<nat>) returns (ok: bool)
      requires Shape() && |sizelist| <= NSYMS && LengthsUpTo(sizelist, 15)
      modifies Repr
      ensures ok <==> Kraft(sizelist, 15) <= Pow2(15)
      ensures ok ==> Valid() && lens == sizelist
    {
      hide Kraft, Fits, FastSound, FastComplete, LengthTables, SymbolTables, LengthsUpTo, NextCodes, CountTable, Pow2;
      FitsIffKraft(sizelist, 15);
      ClearFast();
      var sizes := CountSizes(sizelist);
      ok := CheckSizes(sizelist, sizes);
      if !ok {
        return;
      }
      var nextCode := new nat[16];
      ok := FirstCodes(sizelist, sizes, nextCode);
      if !ok {
        return;
      }
      EnterSymbols(sizelist, nextCode);
      lens := sizelist;
    }

    method ClearFast()
      requires Shape()
      modifies fast
      ensures forall v :: 0 <= v < FAST_SIZE ==> fast[v] == 0
    {
      var i := 0;
      while i < FAST_SIZE
        invariant i <= FAST_SIZE
        invariant forall v :: 0 <= v < i ==> fast[v] == 0
      {
        fast[i] := 0;
        i := i + 1;
      }
    }

    static method CountSizes(sizelist: seq<nat>) returns (sizes: array<nat>)
      requires LengthsUpTo(sizelist, 15)
      ensures fresh(sizes) && sizes.Length == 17 && CountTable(sizes[..], sizelist)
    {
      sizes := new nat[17](_ => 0);
      var i := 0;
      while i < |sizelist|
        invariant i <= |sizelist|
        invariant forall s: nat :: s < 17 ==> sizes[s] == Count(sizelist[..i], s)
      {
        forall s: nat
          ensures Count(sizelist[..i + 1], s) == Count(sizelist[..i], s) + (if sizelist[i] == s then 1 else 0)
        {
          CountStep(sizelist, i, s);
        }
        sizes[sizelist[i]] := sizes[sizelist[i]] + 1;
        i := i + 1;
      }
      assert sizelist[..i] == sizelist;
      sizes[0] := 0;
    }

    /** No length may have more symbols than it has codes. */
    static method CheckSizes(sizelist: seq<nat>, sizes: array<nat>) returns (ok: bool)
      requires sizes.Length == 17 && CountTable(sizes[..], sizelist)
      ensures Fits(sizelist, 15) ==> ok
    {
      var i := 1;
      while i < 16
        invariant 1 <= i <= 16
      {
        if sizes[i] > Pow2(i) {
          assert Limit(sizelist, i) > Pow2(i);
          return false;
        }
        i := i + 1;
      }
      ok := true;
    }

    /** The first code of each length; fails when some length has more codes than fit. */
    method FirstCodes(sizelist: seq<nat>, sizes: array<nat>, nextCode: array<nat>) returns (ok: bool)
      requires Shape() && |sizelist| <= NSYMS
      requires sizes.Length == 17 && nextCode.Length == 16 && sizes != nextCode
      requires sizes !in Repr && nextCode !in Repr
      requires CountTable(sizes[..], sizelist)
      modifies firstcode, maxcode, firstsymbol, nextCode
      ensures ok <==> Fits(sizelist, 15)
      ensures ok ==> LengthTables(firstcode[..], maxcode[..], firstsymbol[..], sizelist, 16)
      ensures ok ==> maxcode[16] == 0x10000 && NextCodes(nextCode[..], sizelist, 0)
    {
      hide First, Limit, FirstPos, Count, Shl, Pow2;
      var code, k := 0, 0;
      var i := 1;
      FirstOfOne(sizelist);
      while i < 16
        invariant 1 <= i <= 16
        invariant code == First(sizelist, i) <= Pow2(i) && k == FirstPos(sizelist, i)
        invariant LengthTables(firstcode[..], maxcode[..], firstsymbol[..], sizelist, i)
        invariant forall s: nat :: 1 <= s < i ==> nextCode[s] == First(sizelist, s)
        invariant forall s: nat :: 1 <= s < i ==> Limit(sizelist, s) <= Pow2(s)
        invariant CountTable(sizes[..], sizelist)
      {
        FirstStep(sizelist, i);
        nextCode[i] := code;
        firstcode[i] := code;
        firstsymbol[i] := k;
        code := code + sizes[i];
        if sizes[i] != 0 {
          if code - 1 >= Pow2(i) {
            assert Limit(sizelist, i) > Pow2(i);
            return false;
          }
        }
        maxcode[i] := Shl(code, 16 - i);
        code := 2 * code;
        k := k + sizes[i];
        i := i + 1;
      }
      maxcode[16] := 0x10000;
      ok := true;
      forall s ensures Count(sizelist[..0], s) == 0 {
        CountOfNone(sizelist, s);
      }
    }

    /** Enters every coded symbol into the sorted tables and, when its code is short, into the fast table. */
    method EnterSymbols(sizelist: seq<nat>, nextCode: array<nat>)
      requires Shape() && |sizelist| <= NSYMS && LengthsUpTo(sizelist, 15) && Fits(sizelist, 15)
      requires LengthTables(firstcode[..], maxcode[..], firstsymbol[..], sizelist, 16)
      requires nextCode.Length == 16 && nextCode !in Repr && NextCodes(nextCode[..], sizelist, 0)
      requires forall v :: 0 <= v < FAST_SIZE ==> fast[v] == 0
      modifies fast, size, value, nextCode
      ensures SymbolTables(size[..], value[..], sizelist, |sizelist|)
      ensures FastSound(fast[..], sizelist, |sizelist|) && FastComplete(fast[..], sizelist, |sizelist|)
    {
      var i := 0;
      while i < |sizelist|
        invariant i <= |sizelist|
        invariant NextCodes(nextCode[..], sizelist, i)
        invariant SymbolTables(size[..], value[..], sizelist, i)
        invariant FastSound(fast[..], sizelist, i) && FastComplete(fast[..], sizelist, i)
      {
        EnterSymbol(sizelist, nextCode, i);
        i := i + 1;
      }
    }

    /** One round of the loop over the symbols. */
    method EnterSymbol(sizelist: seq<nat>, nextCode: array<nat>, i: nat)
      requires Shape() && i < |sizelist| <= NSYMS && LengthsUpTo(sizelist, 15) && Fits(sizelist, 15)
      requires LengthTables(firstcode[..], maxcode[..], firstsymbol[..], sizelist, 16)
      requires nextCode.Length == 16 && nextCode !in Repr && NextCodes(nextCode[..], sizelist, i)
      requires SymbolTables(size[..], value[..], sizelist, i)
      requires FastSound(fast[..], sizelist, i) && FastComplete(fast[..], sizelist, i)
      modifies fast, size, value, nextCode
      ensures NextCodes(nextCode[..], sizelist, i + 1)
      ensures SymbolTables(size[..], value[..], sizelist, i + 1)
      ensures FastSound(fast[..], sizelist, i + 1) && FastComplete(fast[..], sizelist, i + 1)
    {
      hide First, Limit, FirstPos, Count, Shl, Pow2, FastSound, FastComplete, SymbolTables, Fits;
      var s := sizelist[i];
      NextStep(nextCode[..], sizelist, i);
      if s != 0 {
        var c := nextCode[s] - firstcode[s] + firstsymbol[s];
        assert c == Pos(sizelist, i);
        SymbolStep(size[..], value[..], sizelist, i);
        size[c] := s;
        value[c] := i;
        if s <= FAST_BITS {
          ghost var before := fast[..];
          var code := nextCode[s];
          assert code == CodeOf(sizelist, i);
          CodeInRange(sizelist, i);
          FillFast(code, s, 512 * s + i);
          FastStep(before, fast[..], sizelist, i);
        } else {
          FastSkip(fast[..], sizelist, i);
        }
        nextCode[s] := nextCode[s] + 1;
      } else {
        FastSkip(fast[..], sizelist, i);
        SymbolSkip(size[..], value[..], sizelist, i);
        NextSkip(nextCode[..], sizelist, i);
      }
    }

    /** Writes an entry at every index whose low s bits spell the code. */
    method FillFast(code: nat, s: nat, entry: nat)
      requires Shape() && 1 <= s <= FAST_BITS && code < Pow2(s)
      modifies fast
      ensures forall v: nat :: v < FAST_SIZE ==>
                fast[v] == if RevBits(v, s) == code then entry else old(fast[v])
    {
      hide BitReverse, Pow2, RevBits, Low;
      var rev := BitReverse(code, s);
      BitReverseIsRev(code, s);
      RevBound(code, s);
      forall v: nat ensures RevBits(v, s) == code <==> Low(v, s) == rev {
        RevIffLow(v, code, s);
      }
      LowOfSmall(rev, s);
      LowSmaller(rev, s);
      var j := rev;
      while j < FAST_SIZE
        invariant Low(j, s) == rev
        invariant forall v: nat :: v < FAST_SIZE ==>
                    fast[v] == if v < j && Low(v, s) == rev then entry else old(fast[v])
      {
        fast[j] := entry;
        forall v: nat | j < v < j + Pow2(s) ensures Low(v, s) != rev {
          if Low(v, s) == rev {
            LowSeparated(j, v, s);
          }
        }
        LowPeriod(j, s);
        j := j + Pow2(s);
      }
    }
  }

  lemma CountOfNone(lens: seq<nat>, s: nat)
    ensures Count(lens[..0], s) == 0
  {
  }

  lemma SymbolSkip(sz: seq<nat>, vl: seq<nat>, lens: seq<nat>, i: nat)
    requires |sz| == |vl| == NSYMS && i < |lens| && lens[i] == 0
    requires SymbolTables(sz, vl, lens, i)
    ensures SymbolTables(sz, vl, lens, i + 1)
  {
  }

  lemma NextSkip(next: seq<nat>, lens: seq<nat>, i: nat)
    requires |next| == 16 && i < |lens| && lens[i] == 0
    requires NextCodes(next, lens, i)
    ensures NextCodes(next, lens, i + 1)
  {
    forall s: nat ensures Count(lens[..i + 1], s) == Count(lens[..i], s) + (if lens[i] == s then 1 else 0) {
      CountStep(lens, i, s);
    }
  }

  lemma CodeInRange(lens: seq<nat>, i: nat)
    requires i < |lens| && 1 <= lens[i] <= 15 && Fits(lens, 15)
    ensures CodeOf(lens, i) < Pow2(lens[i])
  {
    RankBelow(lens, i);
  }

  lemma FastSkip(fast: seq<nat>, lens: seq<nat>, i: nat)
    requires i < |lens| && (lens[i] == 0 || lens[i] > FAST_BITS)
    requires FastSound(fast, lens, i) && FastComplete(fast, lens, i)
    ensures FastSound(fast, lens, i + 1) && FastComplete(fast, lens, i + 1)
  {
  }

  lemma FastStep(before: seq<nat>, after: seq<nat>, lens: seq<nat>, i: nat)
    requires i < |lens| && 1 <= lens[i] <= FAST_BITS && |before| == |after|
    requires FastSound(before, lens, i) && FastComplete(before, lens, i)
    requires forall v: nat :: v < |after| ==>
               after[v] == if RevBits(v, lens[i]) == CodeOf(lens, i) then Entry(lens[i], i) else before[v]
    ensures FastSound(after, lens, i + 1) && FastComplete(after, lens, i + 1)
  {
    hide RevBits, CodeOf, Entry;
    forall v | 0 <= v < |after| && after[v] != 0
      ensures exists j: nat :: j < i + 1 && FastHit(lens, j, v) && after[v] == Entry(lens[j], j)
    {
      if RevBits(v, lens[i]) == CodeOf(lens, i) {
        assert FastHit(lens, i, v);
      } else {
        var j: nat :| j < i && FastHit(lens, j, v) && before[v] == Entry(lens[j], j);
        assert after[v] == Entry(lens[j], j);
      }
    }
    forall v: nat, j: nat | v < |after| && j < i + 1 && FastHit(lens, j, v)
      ensures after[v] == Entry(lens[j], j)
    {
      if RevBits(v, lens[i]) == CodeOf(lens, i) {
        assert FastHit(lens, i, v);
        FastHitUnique(lens, i, j, v);
      } else {
        assert j != i;
        assert before[v] == Entry(lens[j], j);
      }
    }
  }
}
