/**
 What length and distance symbols and their extra bits stand for (RFC 1951, section 3.2.5), and what a match copies
 (section 3.2.3), said without the tables and the loop of the decoder.
 */
module DeflateValues {
  import opened Bits
  import opened InflateSpec

  // ---------- lengths and distances ----------

  /** Extra bits of the i-th length symbol: none for the first four, then one more for every four; none for the last. */
  function LengthBits(i: nat): nat {
    if i < 4 || i == 28 then 0 else i / 4 - 1
  }

  /** The shortest length of the i-th length symbol; the last one is for 258 alone. */
  function LengthFrom(i: nat): nat {
    if i == 28 then 258 else 3 + if i < 4 then i else (4 + i % 4) * Pow2(i / 4 - 1)
  }

  /** Extra bits of a distance symbol: none for the first two, then one more for every two. */
  function DistanceBits(i: nat): nat {
    if i < 2 then 0 else i / 2 - 1
  }

  function DistanceFrom(i: nat): nat {
    1 + if i < 2 then i else (2 + i % 2) * Pow2(i / 2 - 1)
  }

  function LengthExtras(): seq<nat> {
    seq(29, i requires 0 <= i => LengthBits(i))
  }

  function DistanceExtras(): seq<nat> {
    seq(30, i requires 0 <= i => DistanceBits(i))
  }

  /** The tables hold these numbers. */
  lemma TablesAreStandard()
    ensures LENGTH_EXTRA == LengthExtras() && DIST_EXTRA == DistanceExtras()
    ensures |LENGTH_BASE| == 29 && forall i :: 0 <= i < 29 ==> LENGTH_BASE[i] == LengthFrom(i)
    ensures |DIST_BASE| == 30 && forall i :: 0 <= i < 30 ==> DIST_BASE[i] == DistanceFrom(i)
  {
    Pow2Table();
    LengthTable();
    DistanceTable();
  }

  lemma LengthTable()
    ensures |LENGTH_BASE| == |LENGTH_EXTRA| == 29
    ensures forall i :: 0 <= i < 29 ==> LENGTH_BASE[i] == LengthFrom(i) && LENGTH_EXTRA[i] == LengthBits(i)
  {
    hide Pow2;
    Pow2Table();
    NoBits();
  }

  lemma DistanceTable()
    ensures |DIST_BASE| == |DIST_EXTRA| == 30
    ensures forall i :: 0 <= i < 30 ==> DIST_BASE[i] == DistanceFrom(i) && DIST_EXTRA[i] == DistanceBits(i)
  {
    hide Pow2;
    Pow2Table();
    NoBits();
  }

  lemma NoBits()
    ensures Pow2(0) == 1
  {
  }

  /** Each symbol takes up where the one before ends. */
  predicate Consecutive(from: seq<nat>, bits: seq<nat>, n: nat) {
    n <= |from| && n <= |bits| && forall i :: 0 <= i < n - 1 ==> from[i + 1] == from[i] + Pow2(bits[i])
  }

  lemma {:induction false} EndsBefore(from: seq<nat>, bits: seq<nat>, i: nat, j: nat)
    requires Consecutive(from, bits, j + 1) && i < j
    ensures from[i] + Pow2(bits[i]) <= from[j]
    decreases j
  {
    hide Pow2;
    if i == j - 1 {
    } else {
      EndsBefore(from, bits, i, j - 1);
    }
  }

  /** Every value in reach belongs to exactly one symbol. */
  lemma {:induction false} OneSymbol(from: seq<nat>, bits: seq<nat>, n: nat, v: nat) returns (i: nat)
    requires n >= 1 && Consecutive(from, bits, n) && from[0] <= v < from[n - 1] + Pow2(bits[n - 1])
    ensures i < n && from[i] <= v < from[i] + Pow2(bits[i])
    ensures forall j :: 0 <= j < n && from[j] <= v < from[j] + Pow2(bits[j]) ==> j == i
    decreases n
  {
    hide Pow2;
    if from[n - 1] <= v {
      i := n - 1;
      forall j: nat | j < n - 1 ensures !(from[j] <= v < from[j] + Pow2(bits[j])) {
        EndsBefore(from, bits, j, n - 1);
      }
    } else {
      i := OneSymbol(from, bits, n - 1, v);
    }
  }

  predicate IsLengthSymbol(sym: nat, x: nat) {
    257 <= sym < 286 && x < Pow2(LengthBits(sym - 257))
  }

  /** The length that a symbol and its extra bits stand for. */
  function Length(sym: nat, x: nat): nat
    requires 257 <= sym < 286
  {
    LengthFrom(sym - 257) + x
  }

  predicate IsDistanceSymbol(sym: nat, x: nat) {
    sym < 30 && x < Pow2(DistanceBits(sym))
  }

  function Distance(sym: nat, x: nat): nat {
    DistanceFrom(sym) + x
  }

  /**
   Every length from 3 to 258 is what exactly one symbol with extra bits stands for, 258 the last symbol without any;
   only that the decoder also takes symbol 284 with all its extra bits set for 258.
   */
  lemma EveryLengthOnce(len: nat) returns (sym: nat, x: nat)
    requires 3 <= len <= 258
    ensures IsLengthSymbol(sym, x) && Length(sym, x) == len && (len == 258 ==> sym == 285 && x == 0)
    ensures forall s: nat, y: nat :: IsLengthSymbol(s, y) && Length(s, y) == len ==>
                                       (s == sym && y == x) || (len == 258 && s == 284 && y == 31)
  {
    hide Pow2, LengthFrom, LengthBits;
    LengthsFollow();
    var from, bits := LENGTH_BASE[..28], LENGTH_EXTRA[..28];
    var i := OneSymbol(from, bits, 28, len);
    sym, x := if len == 258 then 285 else 257 + i, if len == 258 then 0 else len - from[i];
    forall s: nat, y: nat | IsLengthSymbol(s, y) && Length(s, y) == len
      ensures (s == sym && y == x) || (len == 258 && s == 284 && y == 31)
    {
      if s < 285 {
        assert from[s - 257] <= len < from[s - 257] + Pow2(bits[s - 257]);
      }
    }
  }

  lemma LengthsFollow()
    ensures Consecutive(LENGTH_BASE[..28], LENGTH_EXTRA[..28], 28)
    ensures LENGTH_BASE[0] == 3 && LENGTH_BASE[27] == 227 && LENGTH_EXTRA[27] == 5 && Pow2(5) == 32 && Pow2(0) == 1
    ensures |LENGTH_BASE| == |LENGTH_EXTRA| == 29
    ensures forall i :: 0 <= i < 29 ==> LengthFrom(i) == LENGTH_BASE[i] && LengthBits(i) == LENGTH_EXTRA[i]
    ensures LengthFrom(28) == 258 && LengthBits(28) == 0
  {
    hide Pow2;
    LengthTable();
    Pow2Table();
    NoBits();
  }

  /** Every distance from 1 to 32768 is what exactly one symbol with extra bits stands for. */
  lemma EveryDistanceOnce(d: nat) returns (sym: nat, x: nat)
    requires 1 <= d <= 32768
    ensures IsDistanceSymbol(sym, x) && Distance(sym, x) == d
    ensures forall s: nat, y: nat :: IsDistanceSymbol(s, y) && Distance(s, y) == d ==> s == sym && y == x
  {
    hide Pow2, DistanceFrom, DistanceBits;
    DistancesFollow();
    sym := OneSymbol(DIST_BASE, DIST_EXTRA, 30, d);
    x := d - DIST_BASE[sym];
    forall s: nat, y: nat | IsDistanceSymbol(s, y) && Distance(s, y) == d ensures s == sym && y == x {
      assert DIST_BASE[s] <= d < DIST_BASE[s] + Pow2(DIST_EXTRA[s]);
    }
  }

  lemma DistancesFollow()
    ensures Consecutive(DIST_BASE, DIST_EXTRA, 30)
    ensures DIST_BASE[0] == 1 && DIST_BASE[29] == 24577 && DIST_EXTRA[29] == 13 && Pow2(13) == 8192
    ensures |DIST_BASE| == |DIST_EXTRA| == 30
    ensures forall i :: 0 <= i < 30 ==> DistanceFrom(i) == DIST_BASE[i] && DistanceBits(i) == DIST_EXTRA[i]
  {
    hide Pow2, DistanceFrom, DistanceBits;
    DistancesJoin();
    DistanceTable();
    Pow2Table();
  }

  lemma DistancesJoin()
    ensures Consecutive(DIST_BASE, DIST_EXTRA, 30)
  {
    hide Pow2;
    Pow2Table();
    NoBits();
  }

  /** No symbol stands for anything outside these ranges. */
  lemma InRange(sym: nat, x: nat)
    ensures IsLengthSymbol(sym, x) ==> 3 <= Length(sym, x) <= 258
    ensures IsDistanceSymbol(sym, x) ==> 1 <= Distance(sym, x) <= 32768
  {
    hide Pow2, LengthFrom, LengthBits, DistanceFrom, DistanceBits;
    if IsLengthSymbol(sym, x) && sym < 285 {
      LengthsFollow();
      if sym < 284 {
        EndsBefore(LENGTH_BASE[..28], LENGTH_EXTRA[..28], sym - 257, 27);
      }
      if sym > 257 {
        EndsBefore(LENGTH_BASE[..28], LENGTH_EXTRA[..28], 0, sym - 257);
      }
    } else if IsLengthSymbol(sym, x) {
      LengthsFollow();
    }
    if IsDistanceSymbol(sym, x) {
      DistancesFollow();
      if sym < 29 {
        EndsBefore(DIST_BASE, DIST_EXTRA, sym, 29);
      }
      if sym > 0 {
        EndsBefore(DIST_BASE, DIST_EXTRA, 0, sym);
      }
    }
  }

  // ---------- copies ----------

  /** The last d bytes over and over, n bytes of that. */
  function Repeated(out: seq<Byte>, d: nat, n: nat): (r: seq<Byte>)
    requires 1 <= d <= |out|
    ensures |r| == |out| + n
  {
    out + seq(n, i requires 0 <= i => out[|out| - d + i % d])
  }

  lemma NextOf(i: nat, d: nat)
    requires d >= 1
    ensures (i + 1) % d == if i % d == d - 1 then 0 else i % d + 1
  {
    var q, r := i / d, i % d;
    assert i == d * q + r;
    if r == d - 1 {
      assert i + 1 == d * (q + 1);
      DivModIs(i + 1, d, q + 1, 0);
    } else {
      DivModIs(i + 1, d, q, r + 1);
    }
  }

  lemma DivModIs(v: nat, d: nat, q: nat, r: nat)
    requires d >= 1 && v == d * q + r && r < d
    ensures v % d == r
  {
    var e := v / d - q;
    assert v == d * (v / d) + v % d;
    assert d * e == d * (v / d) - d * q;
    ProductSign(d, e);
  }

  /** The byte by byte copy, which may read what it has just written, repeats the last bytes. */
  lemma {:induction false} CopyIsRepeated(out: seq<Byte>, d: nat, n: nat)
    requires 1 <= d <= |out|
    ensures CopyMatch(out, d, n) == Repeated(out, d, n)
    decreases n
  {
    if n == 0 {
      assert Repeated(out, d, 0) == out;
    } else {
      var o := out + [out[|out| - d]];
      CopyIsRepeated(o, d, n - 1);
      var a, b := Repeated(o, d, n - 1), Repeated(out, d, n);
      forall k: nat | k < |b| ensures a[k] == b[k] {
        if k > |out| {
          NextOf(k - |out| - 1, d);
        } else if k == |out| {
          DivModIs(0, d, 0, 0);
        }
      }
      assert a == b;
    }
  }
}
