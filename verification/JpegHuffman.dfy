/** Building the JPEG Huffman tables (lib/stb_image.h, stbi__build_huffman and stbi__build_fast_ac). */
module JpegHuffman {
  import opened Bits
  import opened Canonical
  import opened JpegTable

  /** Index v of the fast table stands for all windows that start with its nine bits. */
  ghost function FastIndexEntry(lens: seq<nat>, v: nat): nat {
    FastEntry(lens, Shl(v, 7))
  }

  /** The fast table once the first n symbols are entered. */
  ghost predicate FastTable(fast: seq<Byte>, lens: seq<nat>, n: nat)
    requires |fast| == FAST_SIZE && n <= |lens|
  {
    forall v: nat :: v < FAST_SIZE ==>
                       if exists i: nat :: i < n && IndexHit(lens, v, i)
                       then exists i: nat :: i < n && IndexHit(lens, v, i) && fast[v] == i
                       else fast[v] == NOT_FAST
  }

  /** The nine bits of v start with the short code of symbol i. */
  ghost predicate IndexHit(lens: seq<nat>, v: nat, i: nat) {
    i < |lens| && 1 <= lens[i] <= FAST_BITS && Shr(v, FAST_BITS - lens[i]) == CodeOf(lens, i)
  }

  lemma PrefixOfIndex(v: nat, k: nat, s: nat)
    requires s <= FAST_BITS && Shr(k, 7) == v
    ensures Prefix(k, s) == Shr(v, FAST_BITS - s)
  {
    PrefixIsShr(k, s);
    ShrAdd(k, 7, FAST_BITS - s);
    assert 7 + (FAST_BITS - s) == 16 - s;
  }

  lemma HitIsShort(lens: seq<nat>, k: nat, i: nat)
    ensures Hit(lens, k, i) && lens[i] <= FAST_BITS <==> IndexHit(lens, Shr(k, 7), i)
  {
    hide Shr, Prefix, CodeOf;
    if i < |lens| && lens[i] <= FAST_BITS {
      PrefixOfIndex(Shr(k, 7), k, lens[i]);
    }
  }

  /** The finished fast table answers for every window. */
  lemma FastAnswers(fast: seq<Byte>, lens: seq<nat>, k: nat)
    requires |fast| == FAST_SIZE && Listed(lens) && FastTable(fast, lens, |lens|) && k < Pow2(16)
    ensures Shr(k, 7) < FAST_SIZE && fast[Shr(k, 7)] == FastEntry(lens, k)
  {
    hide Shr, Hit, Pow2, Canon, IndexHit;
    Pow2Table();
    ShrBound(k, 9, 7);
    var v := Shr(k, 7);
    if i: nat :| i < |lens| && IndexHit(lens, v, i) && fast[v] == i {
      HitIsShort(lens, k, i);
      CanonIs(lens, k, i);
    } else {
      var c := Canon(lens, k);
      if c.Symbol? {
        HitIsShort(lens, k, c.index);
        HitInRange(lens, k, c.index);
      }
    }
  }

  /** No index starts with the short codes of two symbols, so no entry of the fast table is overwritten. */
  lemma ShortHitUnique(lens: seq<nat>, v: nat, i: nat, j: nat)
    requires IndexHit(lens, v, i) && IndexHit(lens, v, j)
    ensures i == j
  {
    hide Shr, Prefix, CodeOf;
    var k := Shl(v, 7);
    JoinSplit(v, 7, 0);
    HitIsShort(lens, k, i);
    HitIsShort(lens, k, j);
    HitUnique(lens, k, i, j);
  }

  lemma FastTableStep(before: seq<Byte>, after: seq<Byte>, lens: seq<nat>, i: nat)
    requires |before| == |after| == FAST_SIZE && i < |lens| <= 256
    requires FastTable(before, lens, i)
    requires forall v: nat :: v < FAST_SIZE ==> after[v] == if IndexHit(lens, v, i) then i else before[v]
    ensures FastTable(after, lens, i + 1)
  {
    hide IndexHit;
    forall v: nat | v < FAST_SIZE
      ensures if exists j: nat :: j < i + 1 && IndexHit(lens, v, j)
              then exists j: nat :: j < i + 1 && IndexHit(lens, v, j) && after[v] == j
              else after[v] == NOT_FAST
    {
      if IndexHit(lens, v, i) {
        assert i < i + 1 && IndexHit(lens, v, i) && after[v] == i;
      } else if exists j: nat :: j < i && IndexHit(lens, v, j) {
        var j: nat :| j < i && IndexHit(lens, v, j) && before[v] == j;
        assert j < i + 1 && IndexHit(lens, v, j) && after[v] == j;
      }
    }
  }

  lemma FastTableStart(fast: seq<Byte>, lens: seq<nat>)
    requires |fast| == FAST_SIZE && forall v: nat :: v < FAST_SIZE ==> fast[v] == NOT_FAST
    ensures FastTable(fast, lens, 0)
  {
  }

  // ---------- which indices a short code covers ----------

  lemma CoveredIndices(v: nat, c: nat, d: nat)
    ensures Shr(v, d) == c <==> Shl(c, d) <= v < Shl(c, d) + Pow2(d)
  {
    SplitJoin(v, d);
    LowBound(v, d);
    if Shr(v, d) < c {
      ShlSucc(Shr(v, d), c, d);
    } else if c < Shr(v, d) {
      ShlSucc(c, Shr(v, d), d);
    }
  }

  // ---------- the tables by length ----------

  ghost predicate LengthTables(maxcode: seq<nat>, delta: seq<int>, lens: seq<nat>, n: nat)
    requires |maxcode| == 18 && |delta| == 17 && n <= 17
  {
    forall s: nat :: 1 <= s < n ==>
                       maxcode[s] == Shl(Limit(lens, s), 16 - s) && delta[s] == FirstPos(lens, s) - First(lens, s)
  }

  ghost predicate CodeTable(code: seq<nat>, lens: seq<nat>, n: nat)
    requires |code| == 256 && n <= |lens| <= 256
  {
    forall i :: 0 <= i < n ==> code[i] == CodeOf(lens, i)
  }

  lemma TablesStart(code: seq<nat>, maxcode: seq<nat>, delta: seq<int>, lens: seq<nat>)
    requires |code| == 256 && |lens| <= 256 && |maxcode| == 18 && |delta| == 17
    ensures CodeTable(code, lens, 0) && LengthTables(maxcode, delta, lens, 1)
  {
  }

  lemma LengthTablesStep(maxcode: seq<nat>, maxcode': seq<nat>, delta: seq<int>, delta': seq<int>, lens: seq<nat>,
                         s: nat)
    requires |maxcode| == |maxcode'| == 18 && |delta| == |delta'| == 17 && 1 <= s <= 16
    requires LengthTables(maxcode, delta, lens, s)
    requires maxcode' == maxcode[s := Shl(Limit(lens, s), 16 - s)]
    requires delta' == delta[s := FirstPos(lens, s) - First(lens, s)]
    ensures LengthTables(maxcode', delta', lens, s + 1)
  {
    hide Shl, Limit, First, FirstPos;
  }

  lemma LengthTablesSame(maxcode: seq<nat>, maxcode': seq<nat>, delta: seq<int>, lens: seq<nat>)
    requires |maxcode| == |maxcode'| == 18 && |delta| == 17
    requires LengthTables(maxcode, delta, lens, 17) && maxcode'[..17] == maxcode[..17]
    ensures LengthTables(maxcode', delta, lens, 17)
  {
    assert forall s: nat :: 1 <= s < 17 ==> maxcode'[s] == maxcode'[..17][s];
  }

  class JHuffman {
    const fast: array<Byte>
    const code: array<nat>
    const values: array<Byte>
    const size: array<nat>
    const maxcode: array<nat>
    const delta: array<int>
    ghost var lens: seq<nat>
    ghost const Repr: set<object>

    ghost predicate Shape() {
      && fast.Length == FAST_SIZE && code.Length == 256 && values.Length == 256
      && size.Length == 257 && maxcode.Length == 18 && delta.Length == 17
      && fast != values && code != size && code != maxcode && size != maxcode
      && fast as object != code && fast as object != size && fast as object != maxcode && fast as object != delta
      && values as object != code && values as object != size && values as object != maxcode &&
        values as object != delta
      && delta as object != code && delta as object != size && delta as object != maxcode
      && Repr == {this, fast, code, size, maxcode, delta}
    }

    constructor ()
      ensures Shape() && fresh(Repr) && fresh(values)
    {
      var f, v := new Byte[FAST_SIZE], new Byte[256];
      var c, s, m := new nat[256], new nat[257], new nat[18];
      var d := new int[17];
      fast, values, code, size, maxcode, delta := f, v, c, s, m, d;
      lens := [];
      Repr := {this, f, c, s, m, d};
    }

    /** The tables are those of the code with lengths lens; the symbol values are read separately. */
    ghost predicate Valid()
      reads this, fast, code, size, maxcode, delta
    {
      && Shape() && Listed(lens) && Fits(lens, 16)
      && (forall i :: 0 <= i < |lens| ==> size[i] == lens[i])
      && LengthTables(maxcode[..], delta[..], lens, 17) && maxcode[17] == 0xFFFF_FFFF
      && CodeTable(code[..], lens, |lens|)
      && FastTable(fast[..], lens, |lens|)
    }

    /** Builds the tables for 16 counts of codes per length. */
    method Build(counts: seq<nat>) returns (ok: bool)
      requires Shape() && |counts| == 16
      modifies Repr
      ensures ok <==> |LengthList(counts, 16)| <= 256 && Kraft(LengthList(counts, 16), 16) <= Pow2(16)
      ensures ok ==> Valid() && lens == LengthList(counts, 16)
    {
      hide Kraft, Pow2, Fits, LengthList, FastTable, CodeTable, LengthTables;
      ghost var list := LengthList(counts, 16);
      FitsIffKraft(list, 16);
      var k;
      ok, k := ListSizes(counts);
      if !ok {
        return;
      }
      ok := AssignCodes(list);
      if !ok {
        return;
      }
      ClearFast();
      EnterAll(list, k);
      lens := list;
    }

    method EnterAll(ghost list: seq<nat>, k: nat)
      requires Shape() && Listed(list) && Fits(list, 16) && k == |list|
      requires (forall i :: 0 <= i < |list| ==> size[i] == list[i]) && CodeTable(code[..], list, |list|)
      requires forall v: nat :: v < FAST_SIZE ==> fast[v] == NOT_FAST
      modifies fast
      ensures FastTable(fast[..], list, |list|)
    {
      hide FastTable, CodeOf, Fits;
      FastTableStart(fast[..], list);
      var i := 0;
      while i < k
        invariant i <= k && FastTable(fast[..], list, i)
      {
        EnterFast(list, i);
        i := i + 1;
      }
    }

    /** The list of code lengths, ended by a zero; fails with more than 256 symbols. */
    method ListSizes(counts: seq<nat>) returns (ok: bool, k: nat)
      requires Shape() && |counts| == 16
      modifies size
      ensures ok <==> |LengthList(counts, 16)| <= 256
      ensures ok ==> k == |LengthList(counts, 16)| && size[k] == 0
      ensures ok ==> forall i :: 0 <= i < k ==> size[i] == LengthList(counts, 16)[i]
    {
      hide LengthList;
      k := 0;
      var i := 0;
      ListStart(counts);
      while i < 16
        invariant i <= 16 && k == |LengthList(counts, i)| <= 256
        invariant forall n :: 0 <= n < k ==> size[n] == LengthList(counts, i)[n]
      {
        ListStep(counts, i);
        ListMono(counts, i + 1, 16);
        var j := 0;
        while j < counts[i]
          invariant j <= counts[i] && k == |LengthList(counts, i)| + j <= 256
          invariant forall n :: 0 <= n < k ==> size[n] == LengthList(counts, i + 1)[n]
        {
          ListItem(counts, i, k);
          size[k] := i + 1;
          k := k + 1;
          if k >= 257 {
            return false, k;
          }
          j := j + 1;
        }
        i := i + 1;
      }
      size[k] := 0;
      ok := true;
    }

    /** Consecutive codes for each length; fails when some length has more codes than fit. */
    method AssignCodes(ghost list: seq<nat>) returns (ok: bool)
      requires Shape() && Listed(list) && (forall i :: 0 <= i < |list| ==> size[i] == list[i]) && size[|list|] == 0
      modifies code, maxcode, delta
      ensures ok <==> Fits(list, 16)
      ensures ok ==> CodeTable(code[..], list, |list|)
      ensures ok ==> LengthTables(maxcode[..], delta[..], list, 17) && maxcode[17] == 0xFFFF_FFFF
    {
      hide First, FirstPos, Limit, Count, Shl, Pow2, CodeTable, LengthTables;
      var c, k := 0, 0;
      var j := 1;
      TablesStart(code[..], maxcode[..], delta[..], list);
      FirstOfOne(list);
      Pow2Table();
      while j <= 16
        invariant 1 <= j <= 17 && c == First(list, j) <= Pow2(j) && k == FirstPos(list, j) <= |list|
        invariant CodeTable(code[..], list, k) && LengthTables(maxcode[..], delta[..], list, j)
        invariant forall s: nat :: 1 <= s < j ==> Limit(list, s) <= Pow2(s)
      {
        FirstStep(list, j);
        ghost var delta0 := delta[..];
        delta[j] := k as int - c;
        ok, c, k := NextLength(list, j, c, k);
        if !ok {
          return;
        }
        ghost var before := maxcode[..];
        maxcode[j] := Shl(c, 16 - j);
        LengthTablesStep(before, maxcode[..], delta0, delta[..], list, j);
        c := 2 * c;
        j := j + 1;
      }
      ghost var before := maxcode[..];
      maxcode[17] := 0xFFFF_FFFF;
      LengthTablesSame(before, maxcode[..], delta[..], list);
      AllListed(list);
      ok := true;
    }

    /** The codes of length j, if there are any and they fit. */
    method NextLength(ghost list: seq<nat>, j: nat, c0: nat, k0: nat) returns (ok: bool, c: nat, k: nat)
      requires Shape() && Listed(list) && (forall i :: 0 <= i < |list| ==> size[i] == list[i]) && size[|list|] == 0
      requires 1 <= j <= 16 && c0 == First(list, j) <= Pow2(j) && k0 == FirstPos(list, j) <= |list|
      requires CodeTable(code[..], list, k0)
      modifies code
      ensures ok <==> Limit(list, j) <= Pow2(j)
      ensures ok ==> c == Limit(list, j) && k == FirstPos(list, j + 1) <= |list| && CodeTable(code[..], list, k)
    {
      hide First, FirstPos, Limit, Count, Pow2, CodeTable;
      c, k := c0, k0;
      FirstStep(list, j);
      Pow2Mono(j, 16);
      Pow2Table();
      ok := true;
      if size[k] == j {
        c, k := CodesOfLength(list, j, c, k);
        if c - 1 >= Pow2(j) {
          ok := false;
        }
      } else {
        NoneOfLength(list, j);
      }
    }

    /** The codes of one length, starting at symbol k0 with code c0. */
    method CodesOfLength(ghost list: seq<nat>, j: nat, c0: nat, k0: nat) returns (c: nat, k: nat)
      requires Shape() && Listed(list) && (forall i :: 0 <= i < |list| ==> size[i] == list[i]) && size[|list|] == 0
      requires 1 <= j <= 16 && c0 == First(list, j) && k0 == FirstPos(list, j) <= |list|
      requires CodeTable(code[..], list, k0)
      modifies code
      ensures c == Limit(list, j) && k == FirstPos(list, j + 1) <= |list|
      ensures Limit(list, j) <= 0x10000 ==> CodeTable(code[..], list, k)
    {
      hide First, FirstPos, Count, Pow2;
      c, k := c0, k0;
      FirstStep(list, j);
      FirstPosBound(list, j + 1);
      while size[k] == j
        invariant k0 <= k <= FirstPos(list, j + 1) && c == c0 + (k - k0)
        invariant Limit(list, j) <= 0x10000 ==> CodeTable(code[..], list, k)
        decreases |list| - k
      {
        SortedAt(list, j, k);
        RankInSorted(list, j, k);
        code[k] := c % 0x10000;
        k, c := k + 1, c + 1;
      }
      if k < |list| {
        SortedAt(list, j, k);
      }
    }

    method ClearFast()
      requires Shape()
      modifies fast
      ensures forall v: nat :: v < FAST_SIZE ==> fast[v] == NOT_FAST
    {
      var i := 0;
      while i < FAST_SIZE
        invariant i <= FAST_SIZE
        invariant forall v :: 0 <= v < i ==> fast[v] == NOT_FAST
      {
        fast[i] := NOT_FAST;
        i := i + 1;
      }
    }

    /** Enters symbol i at every index that starts with its code, if the code is short. */
    method EnterFast(ghost list: seq<nat>, i: nat)
      requires Shape() && Listed(list) && Fits(list, 16) && i < |list|
      requires size[i] == list[i] && code[i] == CodeOf(list, i)
      requires FastTable(fast[..], list, i)
      modifies fast
      ensures FastTable(fast[..], list, i + 1)
    {
      hide FastTable, CodeOf, Shl, Shr, Pow2, Fits, IndexHit;
      ghost var before := fast[..];
      var s := size[i];
      if s <= FAST_BITS {
        ShortCodeRange(list, i);
        var c, m := Shl(code[i], FAST_BITS - s), Pow2(FAST_BITS - s);
        FillRange(c, m, i);
        forall v: nat | v < FAST_SIZE
          ensures fast[..][v] == if IndexHit(list, v, i) then i else before[v]
        {
          CoveredIndices(v, code[i], FAST_BITS - s);
          ShortHitIs(list, v, i);
        }
      } else {
        NotShort(list, i);
      }
      FastTableStep(before, fast[..], list, i);
    }

    method FillRange(c: nat, m: nat, i: Byte)
      requires Shape() && c + m <= FAST_SIZE
      modifies fast
      ensures forall v: nat :: v < FAST_SIZE ==> fast[v] == if c <= v < c + m then i else old(fast[v])
    {
      var j := 0;
      while j < m
        invariant j <= m
        invariant forall v: nat :: v < FAST_SIZE ==> fast[v] == if c <= v < c + j then i else old(fast[v])
      {
        fast[c + j] := i;
        j := j + 1;
      }
    }
  }

  lemma ShortCodeRange(lens: seq<nat>, i: nat)
    requires i < |lens| && 1 <= lens[i] <= FAST_BITS && Fits(lens, 16)
    ensures Shl(CodeOf(lens, i), FAST_BITS - lens[i]) + Pow2(FAST_BITS - lens[i]) <= FAST_SIZE
  {
    hide CodeOf, Shl, Pow2, Limit, First;
    var s, d := lens[i], FAST_BITS - lens[i];
    RankBelow(lens, i);
    assert CodeOf(lens, i) < Pow2(s);
    ShlSucc(CodeOf(lens, i), Pow2(s), d);
    ShlOne(s);
    ShlShl(1, s, d);
    ShlOne(FAST_BITS);
    Pow2Table();
  }

  lemma ShortHitIs(lens: seq<nat>, v: nat, i: nat)
    requires i < |lens| && 1 <= lens[i] <= FAST_BITS
    ensures IndexHit(lens, v, i) <==> Shr(v, FAST_BITS - lens[i]) == CodeOf(lens, i)
  {
  }

  lemma NotShort(lens: seq<nat>, i: nat)
    requires i < |lens| && lens[i] > FAST_BITS
    ensures forall v: nat :: !IndexHit(lens, v, i)
  {
  }

  // ---------- the list, length by length ----------

  lemma ListStart(counts: seq<nat>)
    ensures LengthList(counts, 0) == []
  {
  }

  lemma ListStep(counts: seq<nat>, i: nat)
    requires i < |counts|
    ensures |LengthList(counts, i + 1)| == |LengthList(counts, i)| + counts[i]
    ensures forall n :: 0 <= n < |LengthList(counts, i + 1)| ==>
              LengthList(counts, i + 1)[n] == if n < |LengthList(counts, i)| then LengthList(counts, i)[n] else i + 1
  {
  }

  lemma ListItem(counts: seq<nat>, i: nat, k: nat)
    requires i < |counts| && |LengthList(counts, i)| <= k < |LengthList(counts, i + 1)|
    ensures LengthList(counts, i + 1)[k] == i + 1
  {
  }

  lemma {:induction false} ListMono(counts: seq<nat>, i: nat, n: nat)
    requires i <= n <= |counts|
    ensures |LengthList(counts, i)| <= |LengthList(counts, n)|
  {
    if i >= n {
    } else {
      ListMono(counts, i, n - 1);
      ListStep(counts, n - 1);
    }
  }

  lemma NoneOfLength(lens: seq<nat>, j: nat)
    requires Listed(lens) && j >= 1
    requires FirstPos(lens, j) <= |lens|
    requires FirstPos(lens, j) < |lens| ==> lens[FirstPos(lens, j)] != j
    ensures Count(lens, j) == 0
  {
    hide FirstPos, Count;
    if FirstPos(lens, j) < |lens| {
      SortedAt(lens, j, FirstPos(lens, j));
    } else {
      FirstPosGrows(lens, j, j + 1);
      FirstPosBound(lens, j + 1);
    }
  }

  /** All symbols have been numbered once every length has been handled. */
  lemma AllListed(lens: seq<nat>)
    requires Listed(lens)
    ensures FirstPos(lens, 17) == |lens|
  {
    SortedSplit(lens, 17);
  }
}
