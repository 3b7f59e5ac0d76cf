/**
 The LZW codes of GIF image data as they are written (GIF89a, appendix F), said without a table: since the last clear
 code, the entry number j stands for the j-th string sent and the first byte of the string sent after it.
 */
module GifDictionary {
  import opened Wrappers
  import opened Bits
  import opened GifSpec
  import opened GifStandard

  // ---------- what a code says ----------

  /** Among the strings sent since the clear code, the k-th is the one that this code stands for. */
  predicate Says(m: nat, strings: seq<seq<Byte>>, code: nat, k: nat)
    requires k < |strings|
  {
    if code < Pow2(m) then strings[k] == [code % 256]
    else
      var j := code - Pow2(m) - 2;
      && 0 <= j < k && strings[j] != [] && strings[j + 1] != []
      && strings[k] == strings[j] + [strings[j + 1][0]]
  }

  /** The codes, none of them clear or end, stand for the strings. */
  predicate Sends(m: nat, codes: seq<nat>, strings: seq<seq<Byte>>) {
    |codes| == |strings| && forall k :: 0 <= k < |codes| ==> Says(m, strings, codes[k], k)
  }

  lemma SentNotEmpty(m: nat, codes: seq<nat>, strings: seq<seq<Byte>>, k: nat)
    requires Sends(m, codes, strings) && k < |codes|
    ensures strings[k] != [] && !Special(m, codes[k])
  {
    assert Says(m, strings, codes[k], k);
  }

  lemma SendsPrefix(m: nat, codes: seq<nat>, strings: seq<seq<Byte>>, n: nat)
    requires Sends(m, codes, strings) && n <= |codes|
    ensures Sends(m, codes[..n], strings[..n])
  {
    forall k: nat | k < n ensures Says(m, strings[..n], codes[..n][k], k) {
      assert Says(m, strings, codes[k], k);
    }
  }

  // ---------- the decoder's table ----------

  /** The entry number j of the table. */
  function EntryOf(strings: seq<seq<Byte>>, j: nat): seq<Byte>
    requires j + 1 < |strings|
  {
    strings[j] + strings[j + 1][..if strings[j + 1] == [] then 0 else 1]
  }

  /** The decoder's state when the codes have been read since a clear code. */
  ghost predicate After(m: nat, s: Lzw, codes: seq<nat>, strings: seq<seq<Byte>>) {
    var n := |codes|;
    && Sends(m, codes, strings) && s.started && s.width >= 1 && LzwOk(m, s)
    && |s.table| == TableSize(m, n)
    && (forall i :: 0 <= i < Pow2(m) ==> s.table[i] == [i % 256])
    && (forall j :: 0 <= j && j + 1 < n ==> TableHolds(m, s.table, strings, j))
    && s.prev == (if n == 0 then None else Some(codes[n - 1]))
    && (n > 0 ==> codes[n - 1] < |s.table| && s.table[codes[n - 1]] == strings[n - 1])
  }

  predicate TableHolds(m: nat, table: seq<seq<Byte>>, strings: seq<seq<Byte>>, j: nat)
    requires j + 1 < |strings|
  {
    Pow2(m) + 2 + j < |table| && table[Pow2(m) + 2 + j] == EntryOf(strings, j)
  }

  lemma ClearedIsAfter(m: nat, width: nat)
    requires width >= 1
    ensures After(m, Lzw(Roots(m), None, width, true), [], [])
  {
    hide Pow2;
  }

  /** What the decoder takes a code for, when it may be the entry about to be made. */
  lemma StringOfCode(m: nat, s: Lzw, codes: seq<nat>, strings: seq<seq<Byte>>, code: nat)
    requires After(m, s, codes, strings) && !Special(m, code) && |codes| >= 1 && code <= |s.table|
    ensures var last := codes[|codes| - 1];
            var x := CodeString(s.table, last, code);
            && last < |s.table| && s.table[last] != [] && x != []
            && Says(m, strings + [x], code, |strings|)
            && EntryOf(strings + [x], |strings| - 1) == s.table[last] + [x[0]]
  {
    hide Pow2;
    var n, last := |codes|, codes[|codes| - 1];
    SentNotEmpty(m, codes, strings, n - 1);
    var x := CodeString(s.table, last, code);
    var all := strings + [x];
    assert forall k :: 0 <= k < n ==> all[k] == strings[k];
    if code >= Pow2(m) {
      var j := code - Pow2(m) - 2;
      SentNotEmpty(m, codes, strings, j);
      if j + 1 < n {
        assert TableHolds(m, s.table, strings, j);
        SentNotEmpty(m, codes, strings, j + 1);
      }
    }
  }

  /**
   One more code: the decoder emits exactly the string the code stands for, and refuses exactly the codes that stand for
   none, or come when the table is full.
   */
  lemma CodeIsDecoded(m: nat, s: Lzw, codes: seq<nat>, strings: seq<seq<Byte>>, code: nat)
    requires 1 <= m <= 12 && After(m, s, codes, strings) && !Special(m, code) && |codes| <= MaxRun(m)
    ensures var r := Step(m, s, code);
            && (r.Emit? ==>
                  && After(m, r.next, codes + [code], strings + [r.chunk]) && |codes| < MaxRun(m)
                  && r.next.width == NextWidth(s.width, TableSize(m, |codes| + 1)))
            && (|codes| < MaxRun(m) && !r.Emit? ==> forall x :: !Sends(m, codes + [code], strings + [x]))
            && (forall x :: Sends(m, codes + [code], strings + [x]) && r.Emit? ==> x == r.chunk)
  {
    hide NextWidth, Pow2, MaxRun;
    StepCounts(m, s, code, |codes|);
    var r := Step(m, s, code);
    if r.Emit? {
      EmittedIsSaid(m, s, codes, strings, code);
    }
    forall x | Sends(m, codes + [code], strings + [x]) && |codes| < MaxRun(m) ensures r.Emit? && r.chunk == x {
      assert Says(m, strings + [x], (codes + [code])[|codes|], |codes|);
      SaidIsEmitted(m, s, codes, strings, code, x);
    }
  }

  lemma EmittedIsSaid(m: nat, s: Lzw, codes: seq<nat>, strings: seq<seq<Byte>>, code: nat)
    requires After(m, s, codes, strings) && !Special(m, code) && Step(m, s, code).Emit?
    ensures After(m, Step(m, s, code).next, codes + [code], strings + [Step(m, s, code).chunk])
  {
    hide NextWidth, Pow2;
    var n, r := |codes|, Step(m, s, code);
    var codes', all := codes + [code], strings + [r.chunk];
    if n > 0 {
      StringOfCode(m, s, codes, strings, code);
    }
    forall k: nat | k <= n ensures Says(m, all, codes'[k], k) {
      if k < n {
        assert Says(m, strings, codes[k], k);
      }
    }
    forall j: nat | j < n ensures TableHolds(m, r.next.table, all, j) {
      if j + 1 < n {
        assert TableHolds(m, s.table, strings, j);
      }
    }
  }

  lemma SaidIsEmitted(m: nat, s: Lzw, codes: seq<nat>, strings: seq<seq<Byte>>, code: nat, x: seq<Byte>)
    requires After(m, s, codes, strings) && !Special(m, code) && |s.table| < MAX_CODES
    requires Says(m, strings + [x], code, |strings|)
    ensures Step(m, s, code).Emit? && Step(m, s, code).chunk == x
  {
    hide NextWidth, Pow2;
    var n := |codes|;
    assert forall k :: 0 <= k < n ==> (strings + [x])[k] == strings[k];
    if n > 0 {
      StringOfCode(m, s, codes, strings, code);
      var y := Step(m, s, code).chunk;
      SameString(m, strings, code, x, y);
    }
  }

  lemma SameString(m: nat, strings: seq<seq<Byte>>, code: nat, x: seq<Byte>, y: seq<Byte>)
    requires Says(m, strings + [x], code, |strings|) && Says(m, strings + [y], code, |strings|)
    ensures x == y
  {
    hide Pow2;
    var n := |strings|;
    assert forall k :: 0 <= k < n ==> (strings + [x])[k] == strings[k] == (strings + [y])[k];
  }

  // ---------- the widths of the codes ----------

  /** The smallest width from w on in which a table of this size has no entry too many, up to the largest. */
  function Enough(m: nat, size: nat, w: nat): (r: nat)
    ensures r >= w
    decreases Widest(m) - w
  {
    if w >= Widest(m) || size < Pow2(w) then w else Enough(m, size, w + 1)
  }

  /** The width of the code that comes behind n others: at first one bit more than a colour has. */
  function CodeWidth(m: nat, n: nat): (w: nat)
    ensures w >= 1
  {
    if n == 0 then m + 1 else Enough(m, TableSize(m, n), m + 1)
  }

  lemma {:induction false} EnoughIs(m: nat, size: nat, w: nat)
    requires w <= Widest(m)
    ensures var r := Enough(m, size, w);
            && r <= Widest(m) && (size < Pow2(r) || r == Widest(m)) && (r == w || size >= Pow2(r - 1))
    decreases Widest(m) - w
  {
    hide Pow2;
    if w >= Widest(m) || size < Pow2(w) {
    } else {
      EnoughIs(m, size, w + 1);
    }
  }

  lemma EnoughUnique(m: nat, size: nat, w: nat, r: nat)
    requires w <= r <= Widest(m) && (size < Pow2(r) || r == Widest(m)) && (r == w || size >= Pow2(r - 1))
    ensures Enough(m, size, w) == r
  {
    hide Pow2, Enough;
    EnoughIs(m, size, w);
    var q := Enough(m, size, w);
    if q < r {
      Pow2Mono(q, r - 1);
    } else if r < q {
      Pow2Mono(r, q - 1);
    }
  }

  /** The decoder widens its codes just so that they have these widths. */
  lemma WidthsAreRight(m: nat, n: nat)
    requires 1 <= m <= 12 && n < MaxRun(m)
    ensures NextWidth(CodeWidth(m, n), TableSize(m, n + 1)) == CodeWidth(m, n + 1)
  {
    hide Pow2, NextWidth, Enough;
    var w, size := CodeWidth(m, n), TableSize(m, n + 1);
    StartRelated(m, true);
    RootsFit(m);
    EnoughIs(m, TableSize(m, n), m + 1);
    WidthsAgree(m, w, size);
    EnoughUnique(m, size, m + 1, NextWidth(w, size));
  }

  lemma RootsFit(m: nat)
    requires 1 <= m <= 12
    ensures Pow2(m) + 2 <= Pow2(m + 1) && m + 1 <= Widest(m)
  {
    Pow2Mono(1, m);
    Pow2Table();
  }

  // ---------- streams as they are written ----------

  /** The codes stand at bit p, behind n others since a clear code. */
  predicate CodesAt(m: nat, data: seq<Byte>, p: nat, codes: seq<nat>, n: nat)
    decreases |codes|
  {
    codes == []
    || (p + CodeWidth(m, n) <= 8 * |data| && Lsb(data, p, CodeWidth(m, n)) == codes[0]
        && CodesAt(m, data, p + CodeWidth(m, n), codes[1..], n + 1))
  }

  /** The bit behind count codes. */
  function CodesEnd(m: nat, p: nat, count: nat, n: nat): nat
    decreases count
  {
    if count == 0 then p else CodesEnd(m, p + CodeWidth(m, n), count - 1, n + 1)
  }

  /** A clear code, and the codes up to the next one. */
  datatype Segment = Segment(codes: seq<nat>, strings: seq<seq<Byte>>)

  predicate SegmentOk(m: nat, g: Segment) {
    Sends(m, g.codes, g.strings) && |g.codes| <= MaxRun(m)
  }

  /** The segments stand at bit p, the first clear code with this width, then the end code or the end of the data. */
  predicate SegmentsAt(m: nat, data: seq<Byte>, p: nat, width: nat, gs: seq<Segment>)
    decreases |gs|
  {
    if gs == [] then p + width > 8 * |data| || Lsb(data, p, width) == Pow2(m) + 1
    else
      var q, count := p + width, |gs[0].codes|;
      && q <= 8 * |data| && Lsb(data, p, width) == Pow2(m) && CodesAt(m, data, q, gs[0].codes, 0)
      && SegmentsAt(m, data, CodesEnd(m, q, count, 0), CodeWidth(m, count), gs[1..])
  }

  function Strings(strings: seq<seq<Byte>>): seq<Byte> {
    if strings == [] then [] else strings[0] + Strings(strings[1..])
  }

  function SegmentsSay(gs: seq<Segment>): seq<Byte> {
    if gs == [] then [] else Strings(gs[0].strings) + SegmentsSay(gs[1..])
  }

  /** Reading codes that stand somewhere leads behind them and emits their strings. */
  lemma {:induction false} CodesAreRead(m: nat, data: seq<Byte>, p: nat, s: Lzw, codes: seq<nat>,
                                        strings: seq<seq<Byte>>, more: seq<nat>, out: seq<seq<Byte>>)
    returns (t: Lzw)
    requires 1 <= m <= 12 && After(m, s, codes, strings) && s.width == CodeWidth(m, |codes|)
    requires Sends(m, codes + more, strings + out) && |more| == |out| && |codes + more| <= MaxRun(m)
    requires CodesAt(m, data, p, more, |codes|)
    ensures After(m, t, codes + more, strings + out) && t.width == CodeWidth(m, |codes + more|)
    ensures Indices(m, data, p, s) == Prefixed(Strings(out), Indices(m, data, CodesEnd(m, p, |more|, |codes|), t))
    decreases |more|
  {
    hide After, Step, Lsb, Pow2, MaxRun, CodeWidth, NextWidth, TableSize, LzwOk;
    AfterIsOk(m, s, codes, strings);
    if more == [] {
      t := s;
      assert codes + more == codes && strings + out == strings;
      PrefixedNone(Indices(m, data, p, s));
    } else {
      var c, x := more[0], out[0];
      var codes', strings' := codes + [c], strings + [x];
      assert codes' + more[1..] == codes + more && strings' + out[1..] == strings + out;
      SendsPrefix(m, codes + more, strings + out, |codes'|);
      assert (codes + more)[..|codes'|] == codes' && (strings + out)[..|codes'|] == strings';
      OneCodeIsRead(m, s, codes, strings, c, x);
      var next := Step(m, s, c).next;
      t := CodesAreRead(m, data, p + s.width, next, codes', strings', more[1..], out[1..]);
      AfterIsOk(m, t, codes + more, strings + out);
      PrefixedTwice(x, Strings(out[1..]), Indices(m, data, CodesEnd(m, p, |more|, |codes|), t));
    }
  }

  lemma AfterIsOk(m: nat, s: Lzw, codes: seq<nat>, strings: seq<seq<Byte>>)
    requires After(m, s, codes, strings)
    ensures LzwOk(m, s) && s.width >= 1 && s.started
  {
  }

  lemma OneCodeIsRead(m: nat, s: Lzw, codes: seq<nat>, strings: seq<seq<Byte>>, c: nat, x: seq<Byte>)
    requires 1 <= m <= 12 && After(m, s, codes, strings) && s.width == CodeWidth(m, |codes|)
    requires Sends(m, codes + [c], strings + [x]) && |codes| < MaxRun(m)
    ensures LzwOk(m, s) && s.width >= 1 && Step(m, s, c).Emit? && Step(m, s, c).chunk == x
    ensures After(m, Step(m, s, c).next, codes + [c], strings + [x])
    ensures Step(m, s, c).next.width == CodeWidth(m, |codes| + 1)
  {
    hide After, Step, Pow2, MaxRun, CodeWidth, NextWidth, TableSize, LzwOk;
    AfterIsOk(m, s, codes, strings);
    SentNotEmpty(m, codes + [c], strings + [x], |codes|);
    CodeIsDecoded(m, s, codes, strings, c);
    WidthsAreRight(m, |codes|);
  }

  function Prefixed(v: seq<Byte>, r: Option<seq<Byte>>): Option<seq<Byte>> {
    match r
    case None => None
    case Some(w) => Some(v + w)
  }

  lemma PrefixedNone(r: Option<seq<Byte>>)
    ensures Prefixed([], r) == r
  {
    if r.Some? {
      assert [] + r.value == r.value;
    }
  }

  lemma PrefixedTwice(v: seq<Byte>, w: seq<Byte>, r: Option<seq<Byte>>)
    ensures Prefixed(v, Prefixed(w, r)) == Prefixed(v + w, r)
  {
    if r.Some? {
      assert v + (w + r.value) == v + w + r.value;
    }
  }

  /** Whatever is written in this way is decoded to what it says. */
  lemma {:induction false} SegmentsAreRead(m: nat, data: seq<Byte>, p: nat, s: Lzw, gs: seq<Segment>)
    requires 1 <= m <= 12 && LzwOk(m, s) && s.width >= 1
    requires SegmentsAt(m, data, p, s.width, gs) && forall i :: 0 <= i < |gs| ==> SegmentOk(m, gs[i])
    ensures Indices(m, data, p, s) == Some(SegmentsSay(gs))
    decreases |gs|
  {
    hide After, Lsb, Pow2, MaxRun, CodeWidth, NextWidth, TableSize, LzwOk, Roots, CodesAt;
    EndsHere(m, data, p, s);
    if gs == [] {
    } else {
      var g, q := gs[0], p + s.width;
      var cleared := Lzw(Roots(m), None, m + 1, true);
      ClearsHere(m, data, p, s);
      ClearedIsAfter(m, m + 1);
      FirstWidth(m);
      assert SegmentOk(m, g) && [] + g.codes == g.codes && [] + g.strings == g.strings;
      var t := CodesAreRead(m, data, q, cleared, [], [], g.codes, g.strings);
      AfterIsOk(m, t, [] + g.codes, [] + g.strings);
      SegmentsAreRead(m, data, CodesEnd(m, q, |g.codes|, 0), t, gs[1..]);
    }
  }

  lemma FirstWidth(m: nat)
    ensures CodeWidth(m, 0) == m + 1
  {
  }

  lemma EndsHere(m: nat, data: seq<Byte>, p: nat, s: Lzw)
    requires LzwOk(m, s) && s.width >= 1
    ensures p + s.width > 8 * |data| || Lsb(data, p, s.width) == Pow2(m) + 1 ==> Indices(m, data, p, s) == Some([])
  {
    hide Lsb, LzwOk, Pow2;
  }

  lemma ClearsHere(m: nat, data: seq<Byte>, p: nat, s: Lzw)
    requires LzwOk(m, s) && s.width >= 1 && p + s.width <= 8 * |data| && Lsb(data, p, s.width) == Pow2(m)
    ensures var c := Lzw(Roots(m), None, m + 1, true);
            LzwOk(m, c) && Indices(m, data, p, s) == Prefixed([], Indices(m, data, p + s.width, c))
    ensures var c := Lzw(Roots(m), None, m + 1, true);
            Indices(m, data, p, s) == Indices(m, data, p + s.width, c)
  {
    hide Lsb, Pow2;
    ClearedIsAfter(m, m + 1);
    var c := Lzw(Roots(m), None, m + 1, true);
    AfterIsOk(m, c, [], []);
    PrefixedNone(Indices(m, data, p + s.width, c));
  }

  /** A raster written from its start. */
  lemma RasterIsRead(m: nat, data: seq<Byte>, gs: seq<Segment>)
    requires 1 <= m <= 12 && SegmentsAt(m, data, 0, m + 1, gs) && forall i :: 0 <= i < |gs| ==> SegmentOk(m, gs[i])
    ensures Indices(m, data, 0, Start(m)) == Some(SegmentsSay(gs))
  {
    hide SegmentsAt, Indices, Pow2;
    SegmentsAreRead(m, data, 0, Start(m), gs);
  }
}
