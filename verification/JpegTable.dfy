/** The Huffman decoding table of the JPEG decoder (lib/stb_image.h, stbi__build_huffman), and what looking up gives. */
module JpegTable {
  import opened Wrappers
  import opened Bits
  import opened Canonical

  const FAST_BITS: nat := 9
  const FAST_SIZE: nat := 512
  /** Marks a fast entry as not accelerated. */
  const NOT_FAST: nat := 255

  // ---------- the list of code lengths (T.81, annex C, HUFFSIZE) ----------

  /** counts[i] copies of i + 1, for the first n counts. */
  function LengthList(counts: seq<nat>, n: nat): (r: seq<nat>)
    requires n <= |counts|
    ensures forall i :: 0 <= i < |r| ==> 1 <= r[i] <= n
    ensures Sorted(r)
  {
    if n == 0 then [] else LengthList(counts, n - 1) + Repeat(n, counts[n - 1])
  }

  ghost predicate Sorted(lens: seq<nat>) {
    forall i, j :: 0 <= i < j < |lens| ==> lens[i] <= lens[j]
  }

  ghost predicate Listed(lens: seq<nat>) {
    |lens| <= 256 && Sorted(lens) && forall i :: 0 <= i < |lens| ==> 1 <= lens[i] <= 16
  }

  lemma {:induction false} AllBelow(lens: seq<nat>, s: nat)
    requires forall i :: 0 <= i < |lens| ==> 1 <= lens[i] < s
    ensures FirstPos(lens, s) == |lens|
  {
    hide FirstPos;
    if lens == [] {
      FirstPosEmpty(s);
    } else {
      AllBelow(lens[..|lens| - 1], s);
      FirstPosStep(lens, s);
    }
  }

  /** In a sorted list the lengths below s come first. */
  lemma {:induction false} SortedSplit(lens: seq<nat>, s: nat)
    requires Sorted(lens) && (forall i :: 0 <= i < |lens| ==> lens[i] >= 1)
    ensures FirstPos(lens, s) <= |lens|
    ensures forall i :: 0 <= i < FirstPos(lens, s) ==> lens[i] < s
    ensures forall i :: FirstPos(lens, s) <= i < |lens| ==> lens[i] >= s
  {
    hide FirstPos;
    if lens == [] {
      FirstPosEmpty(s);
    } else {
      var rest := lens[..|lens| - 1];
      SortedSplit(rest, s);
      FirstPosStep(lens, s);
      if lens[|lens| - 1] < s {
        AllBelow(rest, s);
      }
    }
  }

  /** The k-th length of a sorted list is s exactly between the first positions of s and s + 1. */
  lemma SortedAt(lens: seq<nat>, s: nat, k: nat)
    requires Listed(lens) && s >= 1 && k < |lens|
    ensures lens[k] == s <==> FirstPos(lens, s) <= k < FirstPos(lens, s) + Count(lens, s)
  {
    SortedSplit(lens, s);
    SortedSplit(lens, s + 1);
  }

  lemma {:induction false} RankInSorted(lens: seq<nat>, s: nat, k: nat)
    requires Listed(lens) && s >= 1 && FirstPos(lens, s) <= k <= FirstPos(lens, s) + Count(lens, s)
    ensures k <= |lens| && Count(lens[..k], s) == k - FirstPos(lens, s)
    decreases k
  {
    SortedSplit(lens, s);
    SortedSplit(lens, s + 1);
    if k == FirstPos(lens, s) {
      CountAbsent(lens[..k], s);
    } else {
      RankInSorted(lens, s, k - 1);
      SortedAt(lens, s, k - 1);
      CountStep(lens, k - 1, s);
    }
  }

  /** Symbols listed by length are numbered in code order. */
  lemma SortedPosition(lens: seq<nat>, k: nat)
    requires Listed(lens) && k < |lens|
    ensures Pos(lens, k) == k
  {
    SortedAt(lens, lens[k], k);
    RankInSorted(lens, lens[k], k);
  }

  // ---------- looking up ----------

  datatype Decoded = Invalid | Symbol(index: nat, length: nat)

  /** Canonical decoding of a 16-bit window (T.81, F.2.2.3): the symbol whose code it starts with. */
  ghost function Canon(lens: seq<nat>, k: nat): (r: Decoded)
    ensures r.Symbol? ==> Hit(lens, k, r.index) && r.length == lens[r.index]
    ensures r.Invalid? ==> forall i: nat :: !Hit(lens, k, i)
  {
    if exists i: nat :: Hit(lens, k, i) then
      var i: nat :| Hit(lens, k, i);
      Symbol(i, lens[i])
    else Invalid
  }

  lemma CanonIs(lens: seq<nat>, k: nat, i: nat)
    requires Hit(lens, k, i)
    ensures Canon(lens, k) == Symbol(i, lens[i])
  {
    hide Hit;
    HitUnique(lens, k, i, Canon(lens, k).index);
  }

  /** A fast entry: the number of the symbol with a short code, or 255. */
  ghost function FastEntry(lens: seq<nat>, k: nat): nat {
    match Canon(lens, k)
    case Invalid => NOT_FAST
    case Symbol(i, s) => if s <= FAST_BITS then i else NOT_FAST
  }

  /** The preshifted scan from length 10 on; the sentinel stops it at 17. */
  ghost function Scan(lens: seq<nat>, k: nat, s: nat): (r: nat)
    requires FAST_BITS < s <= 17
    ensures s <= r <= 17
    decreases 17 - s
  {
    if s == 17 || Prefix(k, s) < Limit(lens, s) then s else Scan(lens, k, s + 1)
  }

  /** The symbol number computed from a prefix of length s, if it is a table index. */
  ghost function BySlot(lens: seq<nat>, k: nat, s: nat): Decoded
    requires s <= 16
  {
    var c := Prefix(k, s) + FirstPos(lens, s) - First(lens, s);
    if 0 <= c < 256 then Symbol(c, s) else Invalid
  }

  /** What the two-level lookup computes. */
  ghost function Lookup(lens: seq<nat>, k: nat): Decoded {
    var f := FastEntry(lens, k);
    if f < NOT_FAST then Symbol(f, if f < |lens| then lens[f] else 0)
    else
      var s := Scan(lens, k, FAST_BITS + 1);
      if s == 17 then Invalid else BySlot(lens, k, s)
  }

  /** A table whose symbol number 255 has a code that belongs in the fast table, where 255 means "none". */
  predicate Ambiguous(lens: seq<nat>) {
    |lens| == 256 && lens[255] <= FAST_BITS
  }

  lemma {:induction false} ScanStops(lens: seq<nat>, k: nat, s: nat)
    requires FAST_BITS < s <= 17
    requires Prefix(k, s - 1) >= Limit(lens, s - 1)
    ensures var r := Scan(lens, k, s);
            && Prefix(k, r - 1) >= Limit(lens, r - 1)
            && (r < 17 ==> Prefix(k, r) < Limit(lens, r))
    decreases 17 - s
  {
    hide Prefix, Limit;
    if s < 17 && Prefix(k, s) >= Limit(lens, s) {
      ScanStops(lens, k, s + 1);
    }
  }

  /** A window without a short code is at or above all short codes. */
  lemma NoShortCode(lens: seq<nat>, k: nat)
    requires Canon(lens, k).Invalid? || Canon(lens, k).length > FAST_BITS
    ensures Prefix(k, FAST_BITS) >= Limit(lens, FAST_BITS)
  {
    hide Canon, Prefix, Limit, Hit;
    if Prefix(k, FAST_BITS) < Limit(lens, FAST_BITS) {
      var i := HitBelow(lens, k, FAST_BITS);
      CanonIs(lens, k, i);
    }
  }

  /** A window that the fast table passes on is decoded canonically by the scan. */
  lemma SlowIsCanonical(lens: seq<nat>, k: nat)
    requires Listed(lens)
    requires Prefix(k, FAST_BITS) >= Limit(lens, FAST_BITS)
    ensures var s := Scan(lens, k, FAST_BITS + 1);
            Canon(lens, k) == if s == 17 then Invalid else BySlot(lens, k, s)
  {
    hide Canon, Prefix, Limit, Hit, First, FirstPos, Pos;
    ScanStops(lens, k, FAST_BITS + 1);
    var s := Scan(lens, k, FAST_BITS + 1);
    if s == 17 {
      NoHitUpTo(lens, k, 16);
      NoHit(lens, k);
    } else {
      var i := HitAt(lens, k, s);
      CanonIs(lens, k, i);
      HitInRange(lens, k, i);
      SortedPosition(lens, i);
      PosUnfold(lens, i);
    }
  }

  /**
   In a table that is not ambiguous, the slot computed by the scan holds a symbol of that length whose code starts
   the window: what the decoder asserts before it consumes the code.
   */
  lemma ScanFindsItsCode(lens: seq<nat>, k: nat)
    requires Listed(lens) && !Ambiguous(lens) && FastEntry(lens, k) == NOT_FAST
    ensures var s := Scan(lens, k, FAST_BITS + 1);
            s < 17 ==>
              var c := Prefix(k, s) + FirstPos(lens, s) - First(lens, s);
              0 <= c < |lens| && lens[c] == s && Prefix(k, s) == CodeOf(lens, c)
  {
    hide Scan, Prefix, Limit, First, FirstPos, CodeOf;
    var c := Canon(lens, k);
    if c.Symbol? {
      HitInRange(lens, k, c.index);
    }
    NoShortCode(lens, k);
    SlowIsCanonical(lens, k);
    ScanStops(lens, k, FAST_BITS + 1);
    var s := Scan(lens, k, FAST_BITS + 1);
    if s < 17 {
      var i := HitAt(lens, k, s);
      CanonIs(lens, k, i);
    }
  }

  lemma NoHit(lens: seq<nat>, k: nat)
    requires forall i: nat :: Hit(lens, k, i) ==> lens[i] > 16
    ensures Canon(lens, k) == Invalid
  {
  }

  lemma HitInRange(lens: seq<nat>, k: nat, i: nat)
    requires Hit(lens, k, i)
    ensures i < |lens| && 1 <= lens[i] <= 16
  {
  }

  lemma PosUnfold(lens: seq<nat>, i: nat)
    requires i < |lens|
    ensures Pos(lens, i) == FirstPos(lens, lens[i]) + Count(lens[..i], lens[i])
  {
  }

  /** Unless the table is ambiguous, looking up is canonical decoding, for every window. */
  lemma LookupIsCanonical(lens: seq<nat>, k: nat)
    requires Listed(lens) && (!Ambiguous(lens) || Canon(lens, k).Invalid? || Canon(lens, k).index != 255)
    ensures Lookup(lens, k) == Canon(lens, k)
  {
    hide Scan, BySlot, Prefix, Limit, Hit;
    var c := Canon(lens, k);
    if c.Symbol? && c.length <= FAST_BITS {
      HitInRange(lens, k, c.index);
    } else {
      NoShortCode(lens, k);
      SlowIsCanonical(lens, k);
    }
  }

  // ---------- the ambiguous tables ----------

  /** Shifting a code to the top of the window gives a window that starts with it. */
  lemma {:induction false} PrefixOfShifted(c: nat, s: nat, t: nat)
    requires s <= t <= 16
    ensures Prefix(Shl(c, 16 - s), t) == Shl(c, t - s)
    decreases 16 - t
  {
    if t >= 16 {
    } else {
      PrefixOfShifted(c, s, t + 1);
      assert Shl(c, t + 1 - s) == 2 * Shl(c, t - s);
    }
  }

  lemma WindowOf(lens: seq<nat>, i: nat) returns (k: nat)
    requires i < |lens| && 1 <= lens[i] <= 16 && Fits(lens, 16)
    ensures k < Pow2(16) && Hit(lens, k, i)
  {
    var s := lens[i];
    k := Shl(CodeOf(lens, i), 16 - s);
    PrefixOfShifted(CodeOf(lens, i), s, s);
    RankBelow(lens, i);
    ShlSucc(CodeOf(lens, i), Pow2(s), 16 - s);
    ShlOne(s);
    ShlShl(1, s, 16 - s);
    ShlOne(16);
  }

  /** In an ambiguous table, a window starting with the last code is never given its own length. */
  lemma AmbiguousIsWrong(lens: seq<nat>, k: nat)
    requires Listed(lens) && Ambiguous(lens) && Hit(lens, k, 255)
    ensures Lookup(lens, k) != Canon(lens, k)
  {
    hide Scan, BySlot, Prefix, Limit, Hit;
    CanonIs(lens, k, 255);
    ScanLength(lens, k, FAST_BITS + 1);
  }

  lemma ScanLength(lens: seq<nat>, k: nat, s: nat)
    requires FAST_BITS < s <= 17
    ensures s <= Scan(lens, k, s) <= 17
    ensures Scan(lens, k, s) <= 16 ==>
              BySlot(lens, k, Scan(lens, k, s)).Symbol? ==> BySlot(lens, k, Scan(lens, k, s)).length >= s
  {
    hide Scan;
  }

  /**
   The lookup decodes every 16-bit window canonically exactly for the tables that do not have 256 symbols
   with the last code short enough for the fast table.
   */
  lemma LookupCorrectIff(lens: seq<nat>)
    requires Listed(lens) && Fits(lens, 16)
    ensures (forall k :: 0 <= k < Pow2(16) ==> Lookup(lens, k) == Canon(lens, k)) <==> !Ambiguous(lens)
  {
    hide Lookup, Canon, Hit, Prefix, Limit, Pow2;
    if Ambiguous(lens) {
      var k := WindowOf(lens, 255);
      AmbiguousIsWrong(lens, k);
    } else {
      forall k | 0 <= k < Pow2(16) ensures Lookup(lens, k) == Canon(lens, k) {
        LookupIsCanonical(lens, k);
      }
    }
  }

  /** The counts of one code of eight bits and 255 codes of nine; each count fits in the byte it is read from. */
  function AmbiguousCounts(): (counts: seq<nat>)
    ensures |counts| == 16 && forall i :: 0 <= i < 16 ==> counts[i] <= 255
  {
    [0, 0, 0, 0, 0, 0, 0, 1, 255, 0, 0, 0, 0, 0, 0, 0]
  }

  /** Counts of an ambiguous table that pass both tests of the builder, on the number of codes and on the Kraft sum. */
  lemma AmbiguousExists()
    ensures var lens := LengthList(AmbiguousCounts(), 16);
            |lens| <= 256 && Kraft(lens, 16) <= Pow2(16) && Listed(lens) && Fits(lens, 16) && Ambiguous(lens)
  {
    hide *;
    var lens := LengthList(AmbiguousCounts(), 16);
    AmbiguousLengths();
    TwoLengths(lens);
    KraftOfRun([], 8, 1);
    KraftOfRun(Repeat(8, 1), 9, 255);
    KraftEmpty(16);
    assert [] + Repeat(8, 1) == Repeat(8, 1);
    FitsIffKraft(lens, 16);
    Pow2Table();
  }

  lemma AmbiguousLengths()
    ensures LengthList(AmbiguousCounts(), 16) == Repeat(8, 1) + Repeat(9, 255)
  {
    hide LengthList;
    var counts := AmbiguousCounts();
    NoCodes(counts, 0, 7);
    NoCodes(counts, 9, 16);
    LengthListStep(counts, 0);
    LengthListStep(counts, 8);
    LengthListStep(counts, 9);
  }

  lemma TwoLengths(lens: seq<nat>)
    requires lens == Repeat(8, 1) + Repeat(9, 255)
    ensures Listed(lens) && Ambiguous(lens) && |lens| == 256
  {
  }

  lemma LengthListStep(counts: seq<nat>, n: nat)
    requires n <= |counts|
    ensures LengthList(counts, n) == if n == 0 then [] else LengthList(counts, n - 1) + Repeat(n, counts[n - 1])
  {
  }

  lemma {:induction false} NoCodes(counts: seq<nat>, m: nat, n: nat)
    requires m <= n <= |counts| && forall i :: m <= i < n ==> counts[i] == 0
    ensures LengthList(counts, n) == LengthList(counts, m)
  {
    if m == n {
    } else {
      NoCodes(counts, m, n - 1);
    }
  }

  lemma {:induction false} KraftOfRun(lens: seq<nat>, s: nat, n: nat)
    requires 1 <= s <= 16
    ensures Kraft(lens + Repeat(s, n), 16) == Kraft(lens, 16) + n * Pow2(16 - s)
  {
    hide Pow2;
    if n == 0 {
      assert lens + Repeat(s, 0) == lens;
    } else {
      var w, m, all := Pow2(16 - s), n - 1, lens + Repeat(s, n);
      KraftOfRun(lens, s, m);
      assert all[..|all| - 1] == lens + Repeat(s, m);
      assert (m + 1) * w == m * w + w;
    }
  }

  lemma KraftEmpty(max: nat)
    ensures Kraft([], max) == 0
  {
  }
}
