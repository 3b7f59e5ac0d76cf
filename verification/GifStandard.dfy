/**
 The 12-bit code table of the GIF standard: once it has 4096 entries nothing is added until a clear code.
 The decoder keeps adding entries that no 12-bit code can name, which changes no output.
 */
module GifStandard {
  import opened Wrappers
  import opened Bits
  import opened GifSpec

  /**
   The largest width of a code: 12 bits. With code size 12, which the standard does not foresee, the first code already
   has 13, and that is taken as the limit.
   */
  function Widest(m: nat): nat {
    if m < 12 then 12 else m + 1
  }

  /** The size of the full table: 4096 entries, as many as codes can name. */
  function Full(m: nat): nat {
    Pow2(Widest(m))
  }

  /** Codes grow by one bit when the table has filled the current width, up to the largest. */
  function StandardWidth(m: nat, width: nat, n: nat): nat {
    if n == Pow2(width) && width < Widest(m) then width + 1 else width
  }

  function StandardStep(m: nat, s: Lzw, code: nat): (r: Outcome)
    requires LzwOk(m, s) && s.width >= 1
    ensures r.Emit? ==> LzwOk(m, r.next) && r.next.width >= 1
  {
    if code == Pow2(m) then Emit(Lzw(Roots(m), None, m + 1, true), [])
    else if code == Pow2(m) + 1 then Stop
    else if !s.started then Fail
    else
      match s.prev
      case None =>
        if code < |s.table| then
          Emit(s.(prev := Some(code), width := StandardWidth(m, s.width, |s.table|)), s.table[code])
        else Fail
      case Some(last) =>
        if code > |s.table| || (code == |s.table| && code >= Full(m)) then Fail
        else
          var chunk := CodeString(s.table, last, code);
          var table := if |s.table| < Full(m) then s.table + [s.table[last] + [chunk[0]]] else s.table;
          Emit(s.(table := table, prev := Some(code), width := StandardWidth(m, s.width, |table|)), chunk)
  }

  function StandardIndices(m: nat, data: seq<Byte>, p: nat, s: Lzw): Option<seq<Byte>>
    requires LzwOk(m, s) && s.width >= 1
    decreases 8 * |data| - p
  {
    if p + s.width > 8 * |data| then Some([])
    else
      match StandardStep(m, s, Lsb(data, p, s.width))
      case Stop => Some([])
      case Fail => None
      case Emit(next, chunk) =>
        match StandardIndices(m, data, p + s.width, next)
        case None => None
        case Some(rest) => Some(chunk + rest)
  }

  /** The standard table is the decoder's, cut off at 4096 entries. */
  ghost predicate Related(m: nat, s: Lzw, t: Lzw) {
    && LzwOk(m, s) && LzwOk(m, t) && m + 1 <= s.width <= Widest(m)
    && t.width == s.width && t.prev == s.prev && t.started == s.started
    && t.table == (if |s.table| <= Full(m) then s.table else s.table[..Full(m)])
    && (|s.table| + (if s.prev.Some? then 1 else 0) <= Pow2(s.width) || s.width == Widest(m))
    && (s.prev.Some? ==> s.prev.value < Full(m))
  }

  lemma WidthsAgree(m: nat, width: nat, n: nat)
    requires m <= 12 && m + 1 <= width <= Widest(m) && n >= 1
    requires n <= Pow2(width) || width == Widest(m)
    ensures NextWidth(width, n) == StandardWidth(m, width, if n <= Full(m) then n else Full(m))
    ensures width <= NextWidth(width, n) <= Widest(m)
    ensures n < Pow2(NextWidth(width, n)) || NextWidth(width, n) == Widest(m)
  {
    Pow2Table();
    if n < Pow2(width) {
      LowOfSmall(n, width);
    } else if n == Pow2(width) {
      ShlOne(width);
      assert Low(0 + Shl(1, width), width) == 0 by { JoinSplit(1, width, 0); }
      if width < 12 {
        Pow2Mono(width, 11);
      }
    }
  }

  lemma StartRelated(m: nat, started: bool)
    requires 1 <= m <= 12
    ensures var s := Lzw(Roots(m), None, m + 1, started); Related(m, s, s)
    ensures Pow2(m) + 2 <= Full(m)
  {
    Pow2Mono(m, 12);
    Pow2Table();
    Pow2Mono(1, m);
  }

  /** One code keeps the two decoders together, unless the larger table overflows. */
  lemma StepRelated(m: nat, s: Lzw, t: Lzw, code: nat)
    requires 1 <= m <= 12 && Related(m, s, t) && code < Pow2(s.width)
    ensures Step(m, s, code).Stop? ==> StandardStep(m, t, code).Stop?
    ensures Step(m, s, code).Fail? && (|s.table| < MAX_CODES || !s.started) ==> StandardStep(m, t, code).Fail?
    ensures Step(m, s, code).Emit? ==>
              && StandardStep(m, t, code).Emit?
              && StandardStep(m, t, code).chunk == Step(m, s, code).chunk
              && Related(m, Step(m, s, code).next, StandardStep(m, t, code).next)
  {
    hide NextWidth, StandardWidth, Roots, Pow2;
    StartRelated(m, true);
    assert code < Full(m) by {
      Pow2Mono(s.width, Widest(m));
      Pow2Table();
    }
    WidthsAgree(m, s.width, |s.table|);
    if s.prev.Some? {
      WidthsAgree(m, s.width, |s.table| + 1);
    }
    if s.started && s.prev.Some? && code <= |s.table| < MAX_CODES {
      ChunkAgrees(m, s, t, code);
    }
  }

  lemma ChunkAgrees(m: nat, s: Lzw, t: Lzw, code: nat)
    requires Related(m, s, t) && s.prev.Some? && code <= |s.table| && code < Full(m)
    ensures code <= |t.table| && CodeString(t.table, t.prev.value, code) == CodeString(s.table, s.prev.value, code)
  {
    hide Pow2;
  }

  // ---------- the streams on which they differ ----------

  /** How many codes in a row, other than clear and end, fill the decoder's table: the first one makes no entry. */
  function MaxRun(m: nat): int {
    MAX_CODES - 1 - Pow2(m)
  }

  /** The entries of the table after n ordinary codes since a clear code. */
  function TableSize(m: nat, n: nat): nat {
    if n == 0 then Pow2(m) + 2 else Pow2(m) + 1 + n
  }

  /**
   More than MaxRun ordinary codes follow each other, before the end code and the end of the data, since a clear code.
   Of the decoder only the width of its codes matters, which depends on their number alone; n of them have been read.
   */
  predicate TooLong(m: nat, data: seq<Byte>, p: nat, width: nat, n: nat, started: bool)
    requires width >= 1
    decreases 8 * |data| - p
  {
    p + width <= 8 * |data|
    && var code := Lsb(data, p, width);
       if code == Pow2(m) then TooLong(m, data, p + width, m + 1, 0, true)
       else code != Pow2(m) + 1 && started
            && (n >= MaxRun(m) || TooLong(m, data, p + width, NextWidth(width, TableSize(m, n + 1)), n + 1, true))
  }

  /** n ordinary codes have been read since the last clear code. */
  ghost predicate Counted(m: nat, s: Lzw, n: nat) {
    |s.table| == TableSize(m, n) && (s.prev.None? <==> n == 0) && n <= MaxRun(m)
  }

  lemma StepCounts(m: nat, s: Lzw, code: nat, n: nat)
    requires 1 <= m <= 12 && LzwOk(m, s) && s.width >= 1 && Counted(m, s, n)
    ensures MaxRun(m) >= 1 && Counted(m, Start(m), 0)
    ensures code == Pow2(m) ==> Step(m, s, code) == Emit(Lzw(Roots(m), None, m + 1, true), [])
    ensures code == Pow2(m) + 1 <==> Step(m, s, code) == Stop
    ensures !Special(m, code) && !s.started ==> Step(m, s, code) == Fail
    ensures !Special(m, code) && s.started && n == MaxRun(m) ==> Step(m, s, code) == Fail && |s.table| == MAX_CODES
    ensures !Special(m, code) && s.started && n < MaxRun(m) ==> |s.table| < MAX_CODES
    ensures !Special(m, code) && Step(m, s, code).Emit? ==>
              var next := Step(m, s, code).next;
              n < MaxRun(m) && s.started && Counted(m, next, n + 1) && next.started
              && next.width == NextWidth(s.width, TableSize(m, n + 1))
  {
    hide NextWidth, Pow2;
    Pow2Mono(m, 12);
    Pow2Table();
  }

  /**
   The decoder accepts exactly the streams that the standard accepts and that are not too long, for every code size
   but zero, which leaves no codes to read, and then emits the same.
   */
  lemma {:induction false} IndicesAreStandard(m: nat, data: seq<Byte>, p: nat, s: Lzw, t: Lzw, n: nat)
    requires 1 <= m <= 12 && Related(m, s, t) && Counted(m, s, n)
    ensures Indices(m, data, p, s).Some? <==>
              StandardIndices(m, data, p, t).Some? && !TooLong(m, data, p, s.width, n, s.started)
    ensures Indices(m, data, p, s).Some? ==> Indices(m, data, p, s) == StandardIndices(m, data, p, t)
    decreases 8 * |data| - p
  {
    hide Step, StandardStep, Lsb, LzwOk, Pow2, Counted, MaxRun, NextWidth, Roots, TableSize;
    if p + s.width > 8 * |data| {
    } else {
      var code := Lsb(data, p, s.width);
      LsbBound(data, p, s.width);
      StepRelated(m, s, t, code);
      StepCounts(m, s, code, n);
      if Step(m, s, code).Emit? {
        var next := Step(m, s, code).next;
        ClearedCount(m, next);
        IndicesAreStandard(m, data, p + s.width, next, StandardStep(m, t, code).next,
          if code == Pow2(m) then 0 else n + 1);
      }
    }
  }

  lemma ClearedCount(m: nat, s: Lzw)
    requires 1 <= m <= 12
    ensures s.table == Roots(m) && s.prev == None ==> Counted(m, s, 0)
  {
    Pow2Mono(m, 12);
    Pow2Table();
  }

  /** The same for a whole raster: both decoders start alike. */
  lemma RasterIsStandard(m: nat, data: seq<Byte>)
    requires 1 <= m <= 12
    ensures var d, e := Indices(m, data, 0, Start(m)), StandardIndices(m, data, 0, Start(m));
            && (d.Some? <==> e.Some? && !TooLong(m, data, 0, m + 1, 0, false))
            && (d.Some? ==> d == e)
  {
    hide TooLong, Indices, StandardIndices, Roots, Pow2;
    StartRelated(m, false);
    ClearedCount(m, Start(m));
    IndicesAreStandard(m, data, 0, Start(m), Start(m), 0);
  }

  // ---------- a stream on which they differ ----------

  /** A clear code for code size 7, and then 12288 zero bytes: the first colour over and over. */
  function LongStream(): (data: seq<Byte>)
    ensures |data| == 12289 && data[0] == 0x80 && forall k :: 1 <= k < |data| ==> data[k] == 0
  {
    [0x80] + seq(12288, _ => 0)
  }

  predicate ZerosBehind(data: seq<Byte>) {
    forall k :: 1 <= k < |data| ==> data[k] == 0
  }

  lemma {:induction false} ZeroCode(data: seq<Byte>, p: nat, n: nat)
    requires ZerosBehind(data) && p >= 8
    ensures Lsb(data, p, n) == 0
    decreases n
  {
    if n == 0 {
    } else {
      ZeroCode(data, p + 1, n - 1);
      ShrZero(p % 8);
    }
  }

  lemma {:induction false} ZerosAreTooLong(data: seq<Byte>, p: nat, width: nat, n: nat)
    requires ZerosBehind(data) && p >= 8 && 1 <= width <= 12 && n <= MaxRun(7)
    requires TableSize(7, n) < Pow2(width) || width == 12
    requires 8 * |data| - p >= 12 * (MaxRun(7) - n + 1)
    ensures TooLong(7, data, p, width, n, true)
    decreases MaxRun(7) - n
  {
    hide Lsb, NextWidth, Pow2;
    Pow2Table();
    ZeroCode(data, p, width);
    if n >= MaxRun(7) {
    } else {
      WidthsAgree(7, width, TableSize(7, n + 1));
      ZerosAreTooLong(data, p + width, NextWidth(width, TableSize(7, n + 1)), n + 1);
    }
  }

  lemma {:induction false} ZerosAreAccepted(data: seq<Byte>, p: nat, t: Lzw)
    requires ZerosBehind(data) && p >= 8 && LzwOk(7, t) && t.width >= 1 && t.started &&
             (t.prev == None || t.prev == Some(0))
    ensures StandardIndices(7, data, p, t).Some?
    decreases 8 * |data| - p
  {
    hide Lsb, StandardWidth, Pow2;
    Pow2Table();
    ZeroCode(data, p, t.width);
    if p + t.width > 8 * |data| {
    } else {
      ZerosAreAccepted(data, p + t.width, StandardStep(7, t, 0).next);
    }
  }

  /** The standard accepts the long stream; the decoder rejects it. */
  lemma LongStreamIsRejected()
    ensures StandardIndices(7, LongStream(), 0, Start(7)).Some? && Indices(7, LongStream(), 0, Start(7)) == None
  {
    hide Lsb, TooLong, Indices, Roots, Pow2, LongStream, LzwOk;
    Pow2Table();
    var data, t := LongStream(), Start(7);
    LsbByte(data, 0);
    ClearedAccepted(t);
    ZerosAreAccepted(data, 8, StandardStep(7, t, 128).next);
    ZerosAreTooLong(data, 8, 8, 0);
    TooLongAfterClear(data);
    RasterIsStandard(7, data);
  }

  lemma ClearedAccepted(t: Lzw)
    requires LzwOk(7, t) && t.width >= 1
    ensures StandardStep(7, t, 128) == Emit(Lzw(Roots(7), None, 8, true), [])
    ensures LzwOk(7, Lzw(Roots(7), None, 8, true))
  {
    hide Pow2;
    Pow2Table();
  }

  lemma TooLongAfterClear(data: seq<Byte>)
    requires |data| >= 1 && Lsb(data, 0, 8) == 128
    ensures TooLong(7, data, 0, 8, 0, false) == TooLong(7, data, 8, 8, 0, true)
  {
    hide Lsb, Pow2;
    Pow2Table();
  }
}
