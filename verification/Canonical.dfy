/**
 Canonical Huffman codes, defined from a list of code lengths as in section 3.2.2 of RFC 1951
 (and, for lengths listed in increasing order, Annex C of ITU-T T.81).
 A length of 0 means that the symbol has no code.
 */
module Canonical {
  import opened Bits

  /** How many symbols have a code of length s. */
  function Count(lens: seq<nat>, s: nat): (n: nat)
    ensures n <= |lens|
  {
    if lens == [] then 0
    else Count(lens[..|lens| - 1], s) + (if lens[|lens| - 1] == s then 1 else 0)
  }

  /** The numerically smallest code of length s. */
  function First(lens: seq<nat>, s: nat): nat
    decreases s, 0
  {
    if s <= 1 then 0 else 2 * Limit(lens, s - 1)
  }

  /** One more than the largest code of length s. */
  function Limit(lens: seq<nat>, s: nat): nat
    decreases s, 1
  {
    First(lens, s) + Count(lens, s)
  }

  /** The code of symbol i: codes of one length are consecutive, in symbol order. */
  function CodeOf(lens: seq<nat>, i: nat): nat
    requires i < |lens|
  {
    First(lens, lens[i]) + Count(lens[..i], lens[i])
  }

  /** Every code of up to max bits is representable in its own length. */
  ghost predicate Fits(lens: seq<nat>, max: nat) {
    forall s :: 1 <= s <= max ==> Limit(lens, s) <= Pow2(s)
  }

  ghost predicate LengthsUpTo(lens: seq<nat>, max: nat) {
    forall i :: 0 <= i < |lens| ==> lens[i] <= max
  }

  // ---------- counting ----------

  lemma CountStep(lens: seq<nat>, i: nat, s: nat)
    requires i < |lens|
    ensures Count(lens[..i + 1], s) == Count(lens[..i], s) + (if lens[i] == s then 1 else 0)
  {
    assert lens[..i + 1][..i] == lens[..i];
  }

  lemma {:induction false} CountMono(lens: seq<nat>, i: nat, j: nat, s: nat)
    requires i <= j <= |lens|
    ensures Count(lens[..i], s) <= Count(lens[..j], s)
  {
    if i >= j {
    } else {
      CountMono(lens, i, j - 1, s);
      CountStep(lens, j - 1, s);
    }
  }

  lemma RankBelow(lens: seq<nat>, i: nat)
    requires i < |lens|
    ensures Count(lens[..i], lens[i]) < Count(lens, lens[i])
    ensures First(lens, lens[i]) <= CodeOf(lens, i) < Limit(lens, lens[i])
  {
    CountStep(lens, i, lens[i]);
    CountMono(lens, i + 1, |lens|, lens[i]);
    assert lens[..|lens|] == lens;
  }

  lemma RankInjective(lens: seq<nat>, i: nat, j: nat)
    requires i < |lens| && j < |lens| && lens[i] == lens[j]
    requires Count(lens[..i], lens[i]) == Count(lens[..j], lens[j])
    ensures i == j
  {
    var lo, hi := if i < j then i else j, if i < j then j else i;
    if lo < hi {
      CountStep(lens, lo, lens[i]);
      CountMono(lens, lo + 1, hi, lens[i]);
    }
  }

  /** The symbol of length s that has exactly r symbols of that length before it. */
  function Nth(lens: seq<nat>, s: nat, r: nat): (i: nat)
    requires r < Count(lens, s)
    ensures i < |lens| && lens[i] == s && Count(lens[..i], s) == r
  {
    var last := |lens| - 1;
    if r < Count(lens[..last], s) then
      var i := Nth(lens[..last], s, r);
      assert lens[..last][..i] == lens[..i];
      i
    else last
  }

  // ---------- the codes are prefix free ----------

  lemma {:induction false} FirstGrows(lens: seq<nat>, s: nat, d: nat)
    requires s >= 1 && d >= 1
    ensures First(lens, s + d) >= Shl(Limit(lens, s), d)
  {
    if d > 1 {
      FirstGrows(lens, s, d - 1);
    } else {
      assert Shl(Limit(lens, s), 1) == 2 * Shl(Limit(lens, s), 0);
    }
  }

  lemma {:induction false} ShlSucc(x: nat, y: nat, d: nat)
    requires x < y
    ensures Shl(x, d) + Pow2(d) <= Shl(y, d)
  {
    if d == 0 {
    } else {
      ShlSucc(x, y, d - 1);
    }
  }

  /** If the code of i followed by some bits r is the code of j, then i and j are the same symbol. */
  lemma PrefixFree(lens: seq<nat>, i: nat, j: nat, r: nat)
    requires i < |lens| && j < |lens| && 0 < lens[i] <= lens[j]
    requires r < Pow2(lens[j] - lens[i])
    requires CodeOf(lens, j) == Shl(CodeOf(lens, i), lens[j] - lens[i]) + r
    ensures i == j
  {
    if lens[i] == lens[j] {
      RankInjective(lens, i, j);
    } else {
      var d := lens[j] - lens[i];
      RankBelow(lens, i);
      RankBelow(lens, j);
      FirstGrows(lens, lens[i], d);
      ShlSucc(CodeOf(lens, i), Limit(lens, lens[i]), d);
    }
  }

  // ---------- decoding a 16-bit window ----------

  /** The first s bits of a 16-bit window. */
  function Prefix(k: nat, s: nat): nat
    requires s <= 16
    decreases 16 - s
  {
    if s == 16 then k else Prefix(k, s + 1) / 2
  }

  /** The window k starts with the code of symbol i. */
  ghost predicate Hit(lens: seq<nat>, k: nat, i: nat) {
    i < |lens| && 1 <= lens[i] <= 16 && Prefix(k, lens[i]) == CodeOf(lens, i)
  }

  lemma {:induction false} PrefixIsShr(k: nat, s: nat)
    requires s <= 16
    ensures Prefix(k, s) == Shr(k, 16 - s)
    decreases 16 - s
  {
    if s >= 16 {
    } else {
      PrefixIsShr(k, s + 1);
    }
  }

  lemma {:induction false} PrefixSplit(k: nat, a: nat, b: nat) returns (r: nat)
    requires a <= b <= 16
    ensures r < Pow2(b - a) && Prefix(k, b) == Shl(Prefix(k, a), b - a) + r
  {
    if a == b {
      r := 0;
    } else {
      r := PrefixSplit(k, a, b - 1);
      r := 2 * r + Prefix(k, b) % 2;
    }
  }

  /** Comparing a prefix with a code is comparing the window with the preshifted code. */
  lemma {:induction false} PreshiftedCompare(k: nat, s: nat, limit: nat)
    requires s <= 16
    ensures k < Shl(limit, 16 - s) <==> Prefix(k, s) < limit
    decreases 16 - s
  {
    PreshiftedCompareAt(k, s, 16, limit);
  }

  lemma {:induction false} PreshiftedCompareAt(k: nat, s: nat, t: nat, limit: nat)
    requires s <= t <= 16
    ensures Prefix(k, t) < Shl(limit, t - s) <==> Prefix(k, s) < limit
    decreases t - s
  {
    if s >= t {
    } else {
      PreshiftedCompareAt(k, s, t - 1, limit);
      assert Prefix(k, t - 1) == Prefix(k, t) / 2;
      assert Shl(limit, t - s) == 2 * Shl(limit, t - 1 - s);
    }
  }

  /** Two symbols whose codes both start the window are the same symbol. */
  lemma HitUnique(lens: seq<nat>, k: nat, i: nat, j: nat)
    requires Hit(lens, k, i) && Hit(lens, k, j)
    ensures i == j
  {
    if lens[i] <= lens[j] {
      var r := PrefixSplit(k, lens[i], lens[j]);
      PrefixFree(lens, i, j, r);
    } else {
      var r := PrefixSplit(k, lens[j], lens[i]);
      PrefixFree(lens, j, i, r);
    }
  }

  lemma {:induction false} BelowLimitGrows(lens: seq<nat>, k: nat, s: nat, t: nat)
    requires 1 <= s <= t <= 16
    requires Prefix(k, s) < Limit(lens, s)
    ensures Prefix(k, t) < Limit(lens, t)
  {
    if s >= t {
    } else {
      BelowLimitGrows(lens, k, s, t - 1);
      assert Prefix(k, t - 1) == Prefix(k, t) / 2;
      assert First(lens, t) == 2 * Limit(lens, t - 1);
    }
  }

  /** A prefix at or above the limit for s bits starts with no code of s or fewer bits. */
  lemma NoHitUpTo(lens: seq<nat>, k: nat, s: nat)
    requires 1 <= s <= 16
    requires Prefix(k, s) >= Limit(lens, s)
    ensures forall i: nat :: Hit(lens, k, i) ==> lens[i] > s
  {
    forall i: nat | Hit(lens, k, i) ensures lens[i] > s {
      RankBelow(lens, i);
      if lens[i] <= s {
        BelowLimitGrows(lens, k, lens[i], s);
      }
    }
  }

  /** The first length at which the prefix is below the limit is the length of the code it starts with. */
  lemma HitAt(lens: seq<nat>, k: nat, s: nat) returns (i: nat)
    requires 1 <= s <= 16
    requires Prefix(k, s) < Limit(lens, s)
    requires s == 1 || Prefix(k, s - 1) >= Limit(lens, s - 1)
    ensures Hit(lens, k, i) && lens[i] == s
    ensures First(lens, s) <= Prefix(k, s)
    ensures Count(lens[..i], s) == Prefix(k, s) - First(lens, s)
  {
    assert s > 1 ==> Prefix(k, s - 1) == Prefix(k, s) / 2;
    i := Nth(lens, s, Prefix(k, s) - First(lens, s));
  }

  /** A window below a limit starts with a code of at most that length. */
  lemma {:induction false} HitBelow(lens: seq<nat>, k: nat, s: nat) returns (i: nat)
    requires 1 <= s <= 16 && Prefix(k, s) < Limit(lens, s)
    ensures Hit(lens, k, i) && lens[i] <= s
  {
    hide Prefix, Limit;
    if s == 1 || Prefix(k, s - 1) >= Limit(lens, s - 1) {
      i := HitAt(lens, k, s);
    } else {
      i := HitBelow(lens, k, s - 1);
    }
  }

  // ---------- positions in the list of symbols sorted by code ----------

  /** How many symbols have codes shorter than s. */
  function FirstPos(lens: seq<nat>, s: nat): nat {
    if s <= 1 then 0 else FirstPos(lens, s - 1) + Count(lens, s - 1)
  }

  function Pos(lens: seq<nat>, i: nat): nat
    requires i < |lens|
  {
    FirstPos(lens, lens[i]) + Count(lens[..i], lens[i])
  }

  lemma {:induction false} FirstPosGrows(lens: seq<nat>, s: nat, t: nat)
    requires 1 <= s < t
    ensures FirstPos(lens, s) + Count(lens, s) <= FirstPos(lens, t)
  {
    if s >= t - 1 {
    } else {
      FirstPosGrows(lens, s, t - 1);
    }
  }

  lemma {:induction false} FirstPosBound(lens: seq<nat>, s: nat)
    ensures FirstPos(lens, s) <= |lens|
  {
    if lens == [] {
      FirstPosEmpty(s);
    } else {
      FirstPosBound(lens[..|lens| - 1], s);
      FirstPosStep(lens, s);
    }
  }

  lemma {:induction false} FirstPosEmpty(s: nat)
    ensures FirstPos([], s) == 0
  {
    if s <= 1 {
    } else {
      FirstPosEmpty(s - 1);
    }
  }

  lemma {:induction false} FirstPosStep(lens: seq<nat>, s: nat)
    requires lens != []
    ensures FirstPos(lens, s)
         == FirstPos(lens[..|lens| - 1], s) + (if 1 <= lens[|lens| - 1] < s then 1 else 0)
  {
    if s <= 1 {
    } else {
      FirstPosStep(lens, s - 1);
    }
  }

  lemma PosBelow(lens: seq<nat>, i: nat)
    requires i < |lens| && lens[i] > 0
    ensures Pos(lens, i) < |lens|
  {
    RankBelow(lens, i);
    FirstPosGrows(lens, lens[i], lens[i] + 1);
    FirstPosBound(lens, lens[i] + 1);
  }

  lemma PosInjective(lens: seq<nat>, i: nat, j: nat)
    requires i < |lens| && j < |lens| && lens[i] > 0 && lens[j] > 0
    requires Pos(lens, i) == Pos(lens, j)
    ensures i == j
  {
    RankBelow(lens, i);
    RankBelow(lens, j);
    if lens[i] < lens[j] {
      FirstPosGrows(lens, lens[i], lens[j]);
    } else if lens[j] < lens[i] {
      FirstPosGrows(lens, lens[j], lens[i]);
    } else {
      RankInjective(lens, i, j);
    }
  }

  lemma FirstOfOne(lens: seq<nat>)
    ensures First(lens, 1) == 0 && FirstPos(lens, 1) == 0
  {
  }

  lemma FirstStep(lens: seq<nat>, i: nat)
    requires i >= 1
    ensures Limit(lens, i) == First(lens, i) + Count(lens, i)
    ensures First(lens, i + 1) == 2 * Limit(lens, i)
    ensures FirstPos(lens, i + 1) == FirstPos(lens, i) + Count(lens, i)
    ensures Pow2(i + 1) == 2 * Pow2(i)
  {
  }

  // ---------- the Kraft inequality ----------

  /** The sum over all coded symbols of 2^(max - length): the share of the code space they take. */
  function Kraft(lens: seq<nat>, max: nat): nat {
    if lens == [] then 0
    else
      var last := lens[|lens| - 1];
      Kraft(lens[..|lens| - 1], max) + (if 1 <= last <= max then Pow2(max - last) else 0)
  }

  lemma {:induction false} KraftStep(lens: seq<nat>, max: nat)
    ensures Kraft(lens, max + 1) == 2 * Kraft(lens, max) + Count(lens, max + 1)
  {
    if lens == [] {
    } else {
      KraftStep(lens[..|lens| - 1], max);
    }
  }

  lemma {:induction false} KraftIsLimit(lens: seq<nat>, max: nat)
    requires max >= 1
    ensures Kraft(lens, max) == Limit(lens, max)
  {
    KraftStep(lens, max - 1);
    if max > 1 {
      KraftIsLimit(lens, max - 1);
    } else {
      KraftZero(lens);
    }
  }

  lemma {:induction false} KraftZero(lens: seq<nat>)
    ensures Kraft(lens, 0) == 0
  {
    if lens == [] {
    } else {
      KraftZero(lens[..|lens| - 1]);
    }
  }

  lemma {:induction false} OverflowPersists(lens: seq<nat>, s: nat, max: nat)
    requires 1 <= s <= max && Limit(lens, s) > Pow2(s)
    ensures Limit(lens, max) > Pow2(max)
  {
    if s >= max {
    } else {
      OverflowPersists(lens, s, max - 1);
      assert First(lens, max) == 2 * Limit(lens, max - 1);
    }
  }

  /** All codes fit in their lengths exactly when the code space is not over-subscribed. */
  lemma FitsIffKraft(lens: seq<nat>, max: nat)
    requires max >= 1
    ensures Fits(lens, max) <==> Kraft(lens, max) <= Pow2(max)
  {
    KraftIsLimit(lens, max);
    if !Fits(lens, max) {
      var s :| 1 <= s <= max && Limit(lens, s) > Pow2(s);
      OverflowPersists(lens, s, max);
    }
  }

  // ---------- the codes by their order ----------

  lemma {:induction false} CountAbsent(lens: seq<nat>, s: nat)
    requires forall i :: 0 <= i < |lens| ==> lens[i] != s
    ensures Count(lens, s) == 0
  {
    if lens == [] {
    } else {
      CountAbsent(lens[..|lens| - 1], s);
    }
  }

  lemma {:induction false} CountBetween(lens: seq<nat>, i: nat, j: nat, s: nat)
    requires i <= j <= |lens| && forall k :: i <= k < j ==> lens[k] != s
    ensures Count(lens[..j], s) == Count(lens[..i], s)
    decreases j
  {
    if i == j {
    } else {
      CountBetween(lens, i, j - 1, s);
      CountStep(lens, j - 1, s);
    }
  }

  /** Symbol i has a code, and comes before j: its code is shorter, or of the same length and i is smaller. */
  predicate Before(lens: seq<nat>, i: nat, j: nat)
    requires i < |lens| && j < |lens|
  {
    lens[i] > 0 && (lens[i] < lens[j] || (lens[i] == lens[j] && i < j))
  }

  /** The first of all codes is zero. */
  lemma FirstCode(lens: seq<nat>, i: nat)
    requires i < |lens| && lens[i] > 0 && forall k :: 0 <= k < |lens| ==> !Before(lens, k, i)
    ensures CodeOf(lens, i) == 0
  {
    forall k | 0 <= k < |lens| ensures (lens[k] == lens[i] ==> k >= i) && (lens[k] == 0 || lens[k] >= lens[i]) {
      assert !Before(lens, k, i);
    }
    CountBetween(lens, 0, i, lens[i]);
    LimitsBelow(lens, lens[i]);
  }

  lemma {:induction false} LimitsBelow(lens: seq<nat>, s: nat)
    requires forall k :: 0 <= k < |lens| ==> lens[k] == 0 || lens[k] >= s
    ensures First(lens, s) == 0
  {
    if s <= 1 {
    } else {
      CountAbsent(lens, s - 1);
      LimitsBelow(lens, s - 1);
    }
  }

  /**
   The two rules of RFC 1951, section 3.2.2, and the way to the next code: the code that comes right behind the one of
   symbol i is one more, with as many zeros behind it as it is longer.
   */
  lemma NextCode(lens: seq<nat>, i: nat, j: nat)
    requires i < |lens| && j < |lens| && Before(lens, i, j)
    requires forall k :: 0 <= k < |lens| ==> !(Before(lens, i, k) && Before(lens, k, j))
    ensures CodeOf(lens, j) == Shl(CodeOf(lens, i) + 1, lens[j] - lens[i])
  {
    var a, b := lens[i], lens[j];
    CountStep(lens, i, a);
    if a == b {
      forall k | i + 1 <= k < j ensures lens[k] != a {
        assert !(Before(lens, i, k) && Before(lens, k, j));
      }
      CountBetween(lens, i + 1, j, a);
    } else {
      forall k | i + 1 <= k < |lens| ensures lens[k] != a {
        assert !(Before(lens, i, k) && Before(lens, k, j));
      }
      CountBetween(lens, i + 1, |lens|, a);
      assert lens[..|lens|] == lens;
      forall k | 0 <= k < j ensures lens[k] != b {
        assert !(Before(lens, i, k) && Before(lens, k, j));
      }
      CountBetween(lens, 0, j, b);
      forall k | 0 <= k < |lens| ensures !(a < lens[k] < b) {
        assert !(Before(lens, i, k) && Before(lens, k, j));
      }
      LimitsBetween(lens, a, b);
    }
  }

  lemma {:induction false} LimitsBetween(lens: seq<nat>, a: nat, b: nat)
    requires 1 <= a < b && forall k :: 0 <= k < |lens| ==> !(a < lens[k] < b)
    ensures First(lens, b) == Shl(Limit(lens, a), b - a)
    decreases b
  {
    if b == a + 1 {
      assert Shl(Limit(lens, a), 1) == 2 * Limit(lens, a);
    } else {
      LimitsBetween(lens, a, b - 1);
      CountAbsent(lens, b - 1);
    }
  }
}
