/** Reference semantics of GIF image data: sub-blocks, LZW codes (GIF89a, appendix F) and row order (appendix E). */
module GifSpec {
  import opened Wrappers
  import opened Bits

  // ---------- sub-blocks ----------

  /** n input bytes from k on, zero past the end. */
  function Bytes(input: seq<Byte>, k: nat, n: nat): (r: seq<Byte>)
    ensures |r| == n
    decreases n, k
  {
    if n == 0 then [] else [ByteAt(input, k)] + Bytes(input, k + 1, n - 1)
  }

  /** The contents of the sub-blocks from k on, up to the empty one. */
  function SubBlocks(input: seq<Byte>, k: nat): seq<Byte>
    decreases |input| - k
  {
    if ByteAt(input, k) == 0 then []
    else Bytes(input, k + 1, ByteAt(input, k)) + SubBlocks(input, k + 1 + ByteAt(input, k))
  }

  // ---------- the code stream ----------

  /** The string table, the previous code, the code width, and whether a clear code has been seen. */
  datatype Lzw = Lzw(table: seq<seq<Byte>>, prev: Option<nat>, width: nat, started: bool)

  datatype Outcome = Stop | Fail | Emit(next: Lzw, chunk: seq<Byte>)

  const MAX_CODES: nat := 8192

  /** One-byte strings for the colours, then the clear and end-of-information codes. */
  function Roots(m: nat): (t: seq<seq<Byte>>)
    ensures |t| == Pow2(m) + 2
  {
    seq(Pow2(m) + 2, i requires 0 <= i => if i < Pow2(m) then [i % 256] else [])
  }

  /** The width after a code, when the table has n entries. */
  function NextWidth(width: nat, n: nat): nat {
    if Low(n, width) == 0 && n <= 0xFFF then width + 1 else width
  }

  predicate Special(m: nat, code: nat) {
    code == Pow2(m) || code == Pow2(m) + 1
  }

  /** The strings of ordinary codes are not empty, and the previous code is an ordinary one. */
  ghost predicate LzwOk(m: nat, s: Lzw) {
    && |s.table| >= Pow2(m) + 2
    && (forall i :: 0 <= i < |s.table| && !Special(m, i) ==> s.table[i] != [])
    && (s.prev.Some? ==> s.prev.value < |s.table| && !Special(m, s.prev.value))
  }

  /** The string for a code that may be the entry about to be made. */
  function CodeString(table: seq<seq<Byte>>, last: nat, code: nat): seq<Byte>
    requires last < |table| && code <= |table|
    requires table[last] != []
  {
    if code < |table| then table[code] else table[last] + [table[last][0]]
  }

  /** One code of the stream. */
  function Step(m: nat, s: Lzw, code: nat): (r: Outcome)
    requires LzwOk(m, s) && s.width >= 1
    ensures r.Emit? ==> LzwOk(m, r.next) && r.next.width >= 1
  {
    if code == Pow2(m) then Emit(Lzw(Roots(m), None, m + 1, true), [])
    else if code == Pow2(m) + 1 then Stop
    else if !s.started then Fail
    else
      match s.prev
      case None =>
        if code < |s.table| then
          Emit(s.(prev := Some(code), width := NextWidth(s.width, |s.table|)), s.table[code])
        else Fail
      case Some(last) =>
        if code > |s.table| || |s.table| == MAX_CODES then Fail
        else
          var chunk := CodeString(s.table, last, code);
          var table := s.table + [s.table[last] + [chunk[0]]];
          Emit(s.(table := table, prev := Some(code), width := NextWidth(s.width, |table|)), chunk)
  }

  /** All codes from bit p on; None if some code is illegal. */
  function Indices(m: nat, data: seq<Byte>, p: nat, s: Lzw): Option<seq<Byte>>
    requires LzwOk(m, s) && s.width >= 1
    decreases 8 * |data| - p
  {
    if p + s.width > 8 * |data| then Some([])
    else
      match Step(m, s, Lsb(data, p, s.width))
      case Stop => Some([])
      case Fail => None
      case Emit(next, chunk) =>
        match Indices(m, data, p + s.width, next)
        case None => None
        case Some(rest) => Some(chunk + rest)
  }

  function Start(m: nat): (s: Lzw)
    ensures LzwOk(m, s) && s.width >= 1
  {
    Lzw(Roots(m), None, m + 1, false)
  }

  // ---------- the order of rows ----------

  /** The rows y, y + step, ... below h. */
  function Progression(y: nat, step: nat, h: nat): seq<nat>
    requires step >= 1
    decreases h - y
  {
    if y >= h then [] else [y] + Progression(y + step, step, h)
  }

  /** Appendix E: every 8th row from 0, every 8th from 4, every 4th from 2, every 2nd from 1. */
  function RowOrder(h: nat, interlaced: bool): seq<nat> {
    if interlaced
    then Progression(0, 8, h) + Progression(4, 8, h) + Progression(2, 4, h) + Progression(1, 2, h)
    else Progression(0, 1, h)
  }

  lemma {:induction false} ProgressionMembers(y: nat, step: nat, h: nat, r: nat)
    requires step >= 1 && step <= 8
    ensures r in Progression(y, step, h) <==> y <= r < h && (r - y) % step == 0
    decreases h - y
  {
    if y >= h {
    } else {
      ProgressionMembers(y + step, step, h, r);
      if r != y && y <= r {
        ModShift(r - y, step);
      }
    }
  }

  lemma ModShift(d: nat, step: nat)
    requires 1 <= step <= 8 && d >= 1
    ensures d % step == 0 <==> d >= step && (d - step) % step == 0
  {
    if d >= step {
      assert (d - step) % step == d % step by {
        if step == 1 {} else if step == 2 {} else if step == 3 {} else if step == 4 {}
        else if step == 5 {} else if step == 6 {} else if step == 7 {} else {}
      }
    }
  }

  lemma {:induction false} ProgressionDistinct(y: nat, step: nat, h: nat, r: nat)
    requires 1 <= step <= 8
    ensures multiset(Progression(y, step, h))[r] <= 1
    decreases h - y
  {
    if y >= h {
    } else {
      var rest := Progression(y + step, step, h);
      ProgressionDistinct(y + step, step, h, r);
      ProgressionMembers(y + step, step, h, y);
      assert multiset([y] + rest) == multiset([y]) + multiset(rest);
      assert y !in rest;
    }
  }

  /** Either order visits every row below h exactly once, and no other row. */
  lemma RowOrderIsPermutation(h: nat, interlaced: bool, r: nat)
    ensures multiset(RowOrder(h, interlaced))[r] == (if r < h then 1 else 0)
  {
    hide Progression;
    if interlaced {
      var a, b, c, d := Progression(0, 8, h), Progression(4, 8, h), Progression(2, 4, h), Progression(1, 2, h);
      ProgressionMembers(0, 8, h, r);
      ProgressionMembers(4, 8, h, r);
      ProgressionMembers(2, 4, h, r);
      ProgressionMembers(1, 2, h, r);
      ProgressionDistinct(0, 8, h, r);
      ProgressionDistinct(4, 8, h, r);
      ProgressionDistinct(2, 4, h, r);
      ProgressionDistinct(1, 2, h, r);
      Residues(r);
      assert multiset(a + b + c + d) == multiset(a) + multiset(b) + multiset(c) + multiset(d);
    } else {
      ProgressionMembers(0, 1, h, r);
      ProgressionDistinct(0, 1, h, r);
    }
  }

  /** Every row number is in exactly one of the four interlace groups. */
  lemma Residues(r: nat)
    ensures (if r % 8 == 0 then 1 else 0) + (if r >= 4 && (r - 4) % 8 == 0 then 1 else 0)
            + (if r >= 2 && (r - 2) % 4 == 0 then 1 else 0) + (if r >= 1 && (r - 1) % 2 == 0 then 1 else 0) == 1
  {
  }

  /**
   Appendix E by numbers: the row that comes i-th. The four groups of rows have so many members that each begins where
   the one before ends.
   */
  function RowAt(h: nat, interlaced: bool, i: nat): int {
    var a, b, c := (h + 7) / 8, (h + 3) / 8, (h + 1) / 4;
    if !interlaced then i
    else if i < a then 8 * i
    else if i < a + b then 8 * (i - a) + 4
    else if i < a + b + c then 4 * (i - a - b) + 2
    else 2 * (i - a - b - c) + 1
  }

  lemma {:induction false} ProgressionAt(y: nat, step: nat, h: nat, i: nat)
    requires step >= 1
    ensures i < |Progression(y, step, h)| ==> Progression(y, step, h)[i] == y + i * step
    decreases h - y
  {
    if y >= h || i == 0 {
    } else {
      ProgressionAt(y + step, step, h, i - 1);
      assert step + (i - 1) * step == i * step;
    }
  }

  lemma {:induction false} ProgressionLength(y: nat, step: nat, h: nat)
    requires step >= 1
    ensures var n := |Progression(y, step, h)|;
            y + n * step >= h && (n > 0 ==> y + (n - 1) * step < h)
    decreases h - y
  {
    if y >= h {
    } else {
      ProgressionLength(y + step, step, h);
      var n := |Progression(y + step, step, h)|;
      assert step + n * step == (n + 1) * step;
      assert n > 0 ==> step + (n - 1) * step == n * step;
    }
  }

  lemma RowOrderAt(h: nat, interlaced: bool, i: nat)
    requires i < h
    ensures |RowOrder(h, interlaced)| == h && RowOrder(h, interlaced)[i] == RowAt(h, interlaced, i)
  {
    hide Progression;
    if interlaced {
      var a, b, c, d := Progression(0, 8, h), Progression(4, 8, h), Progression(2, 4, h), Progression(1, 2, h);
      GroupSizes(h);
      ProgressionAt(0, 8, h, i);
      if i >= |a| {
        ProgressionAt(4, 8, h, i - |a|);
        if i >= |a| + |b| {
          ProgressionAt(2, 4, h, i - |a| - |b|);
          if i >= |a| + |b| + |c| {
            ProgressionAt(1, 2, h, i - |a| - |b| - |c|);
          }
        }
      }
    } else {
      ProgressionLength(0, 1, h);
      ProgressionAt(0, 1, h, i);
    }
  }

  lemma GroupSizes(h: nat)
    requires h > 0
    ensures |Progression(0, 8, h)| == (h + 7) / 8 && |Progression(4, 8, h)| == (h + 3) / 8
    ensures |Progression(2, 4, h)| == (h + 1) / 4 && |Progression(1, 2, h)| == h / 2
    ensures (h + 7) / 8 + (h + 3) / 8 + (h + 1) / 4 + h / 2 == h
  {
    hide Progression;
    ProgressionLength(0, 8, h);
    ByEights(|Progression(0, 8, h)|, h);
    ProgressionLength(4, 8, h);
    ByEights(|Progression(4, 8, h)|, h - 4);
    ProgressionLength(2, 4, h);
    ByFours(|Progression(2, 4, h)|, h);
    ProgressionLength(1, 2, h);
    SizesAddUp(h);
  }

  lemma ByEights(n: nat, m: int)
    requires 8 * n >= m >= -7 && (n > 0 ==> 8 * (n - 1) < m)
    ensures n == (m + 7) / 8
  {
  }

  lemma ByFours(n: nat, h: nat)
    requires 2 + 4 * n >= h && (n > 0 ==> 2 + 4 * (n - 1) < h)
    ensures n == (h + 1) / 4
  {
  }

  lemma SizesAddUp(h: nat)
    ensures (h + 7) / 8 + (h + 3) / 8 + (h + 1) / 4 + h / 2 == h
  {
    var q, r := h / 8, h % 8;
    assert h == 8 * q + r;
    assert (h + 7) / 8 == q + (r + 7) / 8 && (h + 3) / 8 == q + (r + 3) / 8;
    assert (h + 1) / 4 == 2 * q + (r + 1) / 4 && h / 2 == 4 * q + r / 2;
  }

  // ---------- sub-blocks as they are written ----------

  /** Each part behind its size, and an empty one at the end. */
  function Written(parts: seq<seq<Byte>>): seq<Byte>
    requires forall i :: 0 <= i < |parts| ==> 1 <= |parts[i]| <= 255
  {
    if parts == [] then [0] else [|parts[0]|] + parts[0] + Written(parts[1..])
  }

  function Together(parts: seq<seq<Byte>>): seq<Byte> {
    if parts == [] then [] else parts[0] + Together(parts[1..])
  }

  lemma {:induction false} BytesAre(input: seq<Byte>, k: nat, n: nat)
    requires k + n <= |input|
    ensures Bytes(input, k, n) == input[k..k + n]
    decreases n
  {
    if n == 0 {
    } else {
      BytesAre(input, k + 1, n - 1);
      assert input[k..k + n] == [input[k]] + input[k + 1..k + n];
    }
  }

  /** Data cut into parts and written as sub-blocks is read back, whatever stands before and behind. */
  lemma {:induction false} SubBlocksAreRead(before: seq<Byte>, parts: seq<seq<Byte>>, behind: seq<Byte>)
    requires forall i :: 0 <= i < |parts| ==> 1 <= |parts[i]| <= 255
    ensures SubBlocks(before + Written(parts) + behind, |before|) == Together(parts)
    decreases |parts|
  {
    hide SubBlocks, Bytes;
    var input, k := before + Written(parts) + behind, |before|;
    SubBlocksStep(input, k);
    if parts == [] {
      assert input[k] == 0;
    } else {
      var one := [|parts[0]|] + parts[0];
      assert input == before + one + Written(parts[1..]) + behind;
      assert input[k] == |parts[0]| && input[k + 1..k + 1 + |parts[0]|] == parts[0];
      BytesAre(input, k + 1, |parts[0]|);
      SubBlocksAreRead(before + one, parts[1..], behind);
    }
  }

  lemma SubBlocksStep(input: seq<Byte>, k: nat)
    requires k < |input|
    ensures SubBlocks(input, k) == if input[k] == 0 then [] else
      Bytes(input, k + 1, input[k]) + SubBlocks(input, k + 1 + input[k])
  {
  }
}
