/** Expanding 1, 2 and 4 bit samples to bytes inside the output row (lib/stb_image.h, stbi__create_png_image_raw). */
module PngExpand {
  import opened Bits
  import opened BitRegister
  import opened PngFilters
  import opened PngRows

  predicate SmallDepth(depth: nat) {
    depth == 1 || depth == 2 || depth == 4
  }

  /** Gray samples are scaled to the range of a byte; palette indices are not. */
  function ScaleOf(depth: nat, gray: bool): nat {
    if !gray then 1 else if depth == 1 then 0xFF else if depth == 2 then 0x55 else 0x11
  }

  lemma ScaledFits(v: nat, depth: nat, gray: bool)
    requires SmallDepth(depth) && v < Pow2(depth)
    ensures ScaleOf(depth, gray) * v < 256
    ensures gray ==> ScaleOf(depth, gray) * v * (Pow2(depth) - 1) == v * 255
  {
    Pow2Table();
  }

  /**
   Sample k of a packed row: its bits follow those of the samples before it, high bits first (RFC 2083, section
   2.3).
   */
  function Sample(packed: seq<Byte>, depth: nat, gray: bool, k: nat): (r: Byte)
    requires SmallDepth(depth)
  {
    BigBound(packed, Times(k, depth), depth);
    ScaledFits(Big(packed, Times(k, depth), depth), depth, gray);
    ScaleOf(depth, gray) * Big(packed, Times(k, depth), depth)
  }

  function Samples(packed: seq<Byte>, depth: nat, gray: bool, n: nat): (r: seq<Byte>)
    requires SmallDepth(depth)
    ensures |r| == n && forall k :: 0 <= k < n ==> r[k] == Sample(packed, depth, gray, k)
  {
    seq(n, k requires 0 <= k < n => Sample(packed, depth, gray, k))
  }

  /** Shifting and masking a byte gives the sample at bit offset a. */
  lemma SampleOfByte(packed: seq<Byte>, depth: nat, t: nat, a: nat)
    requires a + depth <= 8
    ensures Low(Shr(ByteAt(packed, t), 8 - depth - a), depth) == Big(packed, 8 * t + a, depth)
  {
    hide Big, Shr, Low, Shl, Register;
    BigByte(packed, t);
    RegisterFull(packed, 8 * t, 8);
    RegisterTop(packed, 8 * t, 8, a + depth, 8);
    assert 8 - (a + depth) == 8 - depth - a;
    BigSplit(packed, 8 * t, a, depth);
    BigBound(packed, 8 * t + a, depth);
    JoinSplit(Big(packed, 8 * t, a), depth, Big(packed, 8 * t + a, depth));
  }

  /**
   Writing never overtakes reading: while sample k, at bit a of byte t, is still to be expanded, the place of sample k
   is at most that of byte t, and it is that of byte t only when nothing else is left in the byte.
   */
  lemma WriteBehindRead(n: nat, w: nat, s: nat, depth: nat, k: nat, t: nat, a: nat)
    requires SmallDepth(depth) && s <= n && k < s && IsOffset(a, depth)
    requires 8 * (w - 1) < Times(s, depth) <= 8 * w && 8 * t + a == Times(k, depth)
    ensures t < w && k <= n - w + t
    ensures k == n - w + t ==> a + depth == 8 || k + 1 == s
  {
    hide Times;
    TimesIs(k, depth);
    TimesIs(s, depth);
    if depth == 1 {
    } else if depth == 2 {
    }
  }

  /** A sample can start at bit a of a byte. */
  predicate IsOffset(a: nat, depth: nat)
    requires SmallDepth(depth)
  {
    a + depth <= 8 && a % depth == 0
  }

  lemma NextOffset(a: nat, depth: nat)
    requires SmallDepth(depth)
    ensures IsOffset(0, depth)
    ensures IsOffset(a, depth) ==> a + depth == 8 || (a + depth < 8 && IsOffset(a + depth, depth))
  {
  }

  /**
   Expands s samples, packed into the last w bytes of a row of n bytes, to the start of the row. The unrolled loops
   over the samples of a byte are one loop that moves on to the next byte when it has used one up.
   */
  method ExpandRow(out: array<Byte>, row: nat, n: nat, w: nat, s: nat, depth: nat, gray: bool, ghost packed: seq<Byte>)
    requires SmallDepth(depth) && w <= n && s <= n && row + n <= out.Length
    requires 8 * (w - 1) < Times(s, depth) <= 8 * w && packed == out[row + n - w..row + n]
    modifies out
    ensures OnlyIn(out, row, row + n)
    ensures out[row..row + s] == Samples(packed, depth, gray, s)
  {
    hide Sample, Shr, Low, Times, IsOffset, Samples, ScaleOf, Expansion.Reached;
    var scale := ScaleOf(depth, gray);
    var k, input, a: nat := 0, row + n - w, 0;
    ghost var x, t, before := Expansion(row, n, w, s, depth, gray, packed), 0, out[..];
    NextOffset(0, depth);
    TimesNone(depth);
    NoneExpanded(x, before);
    while k < s
      invariant k <= s && input == row + n - w + t && 8 * t + a == Times(k, depth) && IsOffset(a, depth)
      invariant x.Reached(before, out[..], k, t)
    {
      WriteBehindRead(n, w, s, depth, k, t, a);
      NextOffset(a, depth);
      ghost var o, k0, t0 := out[..], k, t;
      Unread(x, before, o, k, t);
      ExpandSample(out, row, input, scale, depth, gray, a, k, packed, t);
      TimesSucc(k, depth);
      k, a := k + 1, a + depth;
      if a == 8 {
        a, input, t := 0, input + 1, t + 1;
      }
      OneMore(x, before, o, out[..], k0, t0, t);
    }
    AllExpanded(x, before, out[..], t);
  }

  /** A row of n bytes at row, with s samples packed into its last w bytes. */
  datatype Expansion = Expansion(row: nat, n: nat, w: nat, s: nat, depth: nat, gray: bool, packed: seq<Byte>) {
    predicate Ok() {
      SmallDepth(depth) && s <= n && w <= n && |packed| == w
    }

    /** k samples are expanded, and those from byte t on are still to be read. */
    ghost predicate Reached(before: seq<Byte>, o: seq<Byte>, k: nat, t: nat)
      requires Ok()
    {
      && |o| == |before| && k <= s && t <= w && row + n <= |o|
      && (forall i :: 0 <= i < |o| && !(row <= i < row + n) ==> o[i] == before[i])
      && (k < s ==> o[row + n - w + t..row + n] == packed[t..])
      && o[row..row + k] == Samples(packed, depth, gray, k)
    }
  }

  lemma NoneExpanded(x: Expansion, o: seq<Byte>)
    requires x.Ok() && x.row + x.n <= |o| && x.packed == o[x.row + x.n - x.w..x.row + x.n]
    ensures x.Reached(o, o, 0, 0)
  {
  }

  lemma AllExpanded(x: Expansion, before: seq<Byte>, o: seq<Byte>, t: nat)
    requires x.Ok() && x.Reached(before, o, x.s, t)
    ensures |o| == |before| && x.row + x.n <= |o|
    ensures forall i :: 0 <= i < |o| && !(x.row <= i < x.row + x.n) ==> o[i] == before[i]
    ensures o[x.row..x.row + x.s] == Samples(x.packed, x.depth, x.gray, x.s)
  {
  }

  lemma Unread(x: Expansion, before: seq<Byte>, o: seq<Byte>, k: nat, t: nat)
    requires x.Ok() && x.Reached(before, o, k, t) && k < x.s && t < x.w
    ensures |o| == |before| && x.row + x.n <= |o| && o[x.row + x.n - x.w + t] == x.packed[t]
  {
    assert o[x.row + x.n - x.w + t..x.row + x.n][0] == x.packed[t..][0];
  }

  /** Writing sample k reads on to byte t' and destroys nothing from there on. */
  lemma OneMore(x: Expansion, before: seq<Byte>, o: seq<Byte>, o': seq<Byte>, k: nat, t: nat, t': nat)
    requires x.Ok() && x.Reached(before, o, k, t) && k < x.s && t <= t' <= t + 1 <= x.w
    requires x.row + k < |o| && o' == o[x.row + k := Sample(x.packed, x.depth, x.gray, k)]
    requires k <= x.n - x.w + t && (k + 1 < x.s && k == x.n - x.w + t ==> t' == t + 1)
    ensures x.Reached(before, o', k + 1, t')
  {
    hide Sample;
    assert o'[x.row..x.row + k] == o[x.row..x.row + k];
    assert o'[x.row..x.row + k + 1] == o'[x.row..x.row + k] + [o'[x.row + k]];
    if k + 1 < x.s {
      var a, b, e := x.row + x.n - x.w + t, x.row + x.n - x.w + t', x.row + x.n;
      assert o'[b..e] == o[b..e] == o[a..e][t' - t..] == x.packed[t..][t' - t..] == x.packed[t'..];
    }
  }

  /** Writes sample k, which starts at bit a of the byte at input. */
  method ExpandSample(out: array<Byte>, row: nat, input: nat, scale: nat, depth: nat, gray: bool, a: nat, k: nat,
                      ghost packed: seq<Byte>, ghost t: nat)
    requires SmallDepth(depth) && scale == ScaleOf(depth, gray) && row + k < out.Length && input < out.Length
    requires t < |packed| && out[input] == packed[t] && 8 * t + a == Times(k, depth) && IsOffset(a, depth)
    modifies out
    ensures out[..] == old(out[..])[row + k := Sample(packed, depth, gray, k)]
  {
    hide Sample, Shr, Low, Times, ScaleOf;
    SampleIs(packed, depth, gray, k, t, a);
    out[row + k] := scale * Low(Shr(out[input], 8 - depth - a), depth);
  }

  lemma SampleIs(packed: seq<Byte>, depth: nat, gray: bool, k: nat, t: nat, a: nat)
    requires SmallDepth(depth) && 8 * t + a == Times(k, depth) && IsOffset(a, depth) && t < |packed|
    ensures ScaleOf(depth, gray) * Low(Shr(packed[t], 8 - depth - a), depth) == Sample(packed, depth, gray, k)
    ensures 0 <= ScaleOf(depth, gray) * Low(Shr(packed[t], 8 - depth - a), depth) < 256
  {
    hide Big, Shr, Low, Times, ScaleOf;
    SampleOfByte(packed, depth, t, a);
  }

  // ---------- inserting alpha in place ----------

  predicate GrayPixel(o: seq<Byte>, row: nat, q: nat, s: seq<Byte>) {
    row + 2 * q + 1 < |o| && q < |s| && o[row + 2 * q] == s[q] && o[row + 2 * q + 1] == 255
  }

  predicate ColourPixel(o: seq<Byte>, row: nat, q: nat, s: seq<Byte>) {
    && row + 4 * q + 3 < |o| && 3 * q + 2 < |s| && o[row + 4 * q + 3] == 255
    && o[row + 4 * q] == s[3 * q] && o[row + 4 * q + 1] == s[3 * q + 1] && o[row + 4 * q + 2] == s[3 * q + 2]
  }

  /** Spreads x gray samples at the start of a row from its right end, with opaque alpha behind each. */
  method InsertAlphaGray(out: array<Byte>, row: nat, x: nat, ghost s: seq<Byte>)
    requires row + 2 * x <= out.Length && |s| == x && out[row..row + x] == s
    modifies out
    ensures OnlyIn(out, row, row + 2 * x)
    ensures forall q :: 0 <= q < x ==> GrayPixel(out[..], row, q, s)
  {
    hide GrayPixel, ColourPixel;
    var q: nat := x;
    while q > 0
      invariant q <= x && OnlyIn(out, row, row + 2 * x)
      invariant out[row..row + q] == s[..q]
      invariant forall p :: q <= p < x ==> GrayPixel(out[..], row, p, s)
    {
      q := q - 1;
      ghost var o := out[..];
      Front(o, row, q + 1, s, q);
      out[row + 2 * q + 1] := 255;
      out[row + 2 * q] := out[row + q];
      assert out[row..row + q] == o[row..row + q];
      Pixels(out[..], row, q, s);
      GrayKept(o, out[..], row, q, x, s);
    }
  }

  lemma Front(o: seq<Byte>, row: nat, n: nat, s: seq<Byte>, i: nat)
    requires i < n <= |s| && row + n <= |o| && o[row..row + n] == s[..n]
    ensures o[row + i] == s[i] && o[row..row + i] == s[..i]
  {
    assert o[row..row + n][i] == s[..n][i];
    assert o[row..row + n][..i] == s[..n][..i];
  }

  /** Spreads x samples of three channels likewise. */
  method InsertAlphaColour(out: array<Byte>, row: nat, x: nat, ghost s: seq<Byte>)
    requires row + 4 * x <= out.Length && |s| == 3 * x && out[row..row + 3 * x] == s
    modifies out
    ensures OnlyIn(out, row, row + 4 * x)
    ensures forall q :: 0 <= q < x ==> ColourPixel(out[..], row, q, s)
  {
    hide GrayPixel, ColourPixel;
    var q: nat := x;
    while q > 0
      invariant q <= x && OnlyIn(out, row, row + 4 * x)
      invariant out[row..row + 3 * q] == s[..3 * q]
      invariant forall p :: q <= p < x ==> ColourPixel(out[..], row, p, s)
    {
      q := q - 1;
      ghost var o := out[..];
      Front(o, row, 3 * q + 3, s, 3 * q + 2);
      Front(o, row, 3 * q + 3, s, 3 * q + 1);
      Front(o, row, 3 * q + 3, s, 3 * q);
      SpreadColours(out, row, q);
      assert out[row..row + 3 * q] == o[row..row + 3 * q];
      Pixels(out[..], row, q, s);
      ColourKept(o, out[..], row, q, x, s);
    }
  }

  /** One step of the loop: three samples move to the right and alpha follows them. */
  method SpreadColours(out: array<Byte>, row: nat, q: nat)
    requires row + 4 * q + 4 <= out.Length
    modifies out
    ensures OnlyIn(out, row + 4 * q, row + 4 * q + 4)
    ensures out[row + 4 * q] == old(out[row + 3 * q]) && out[row + 4 * q + 1] == old(out[row + 3 * q + 1])
    ensures out[row + 4 * q + 2] == old(out[row + 3 * q + 2]) && out[row + 4 * q + 3] == 255
  {
    out[row + 4 * q + 3] := 255;
    out[row + 4 * q + 2] := out[row + 3 * q + 2];
    out[row + 4 * q + 1] := out[row + 3 * q + 1];
    out[row + 4 * q] := out[row + 3 * q];
  }

  lemma GrayKept(o: seq<Byte>, o': seq<Byte>, row: nat, q: nat, x: nat, s: seq<Byte>)
    requires |o| == |o'| && forall i :: row + 2 * q + 1 < i < |o| ==> o'[i] == o[i]
    requires forall p :: q < p < x ==> GrayPixel(o, row, p, s)
    ensures forall p :: q < p < x ==> GrayPixel(o', row, p, s)
  {
    forall p | q < p < x ensures GrayPixel(o', row, p, s) {
      assert GrayPixel(o, row, p, s);
    }
  }

  lemma ColourKept(o: seq<Byte>, o': seq<Byte>, row: nat, q: nat, x: nat, s: seq<Byte>)
    requires |o| == |o'| && forall i :: row + 4 * q + 3 < i < |o| ==> o'[i] == o[i]
    requires forall p :: q < p < x ==> ColourPixel(o, row, p, s)
    ensures forall p :: q < p < x ==> ColourPixel(o', row, p, s)
  {
    forall p | q < p < x ensures ColourPixel(o', row, p, s) {
      assert ColourPixel(o, row, p, s);
    }
  }

  lemma Pixels(o: seq<Byte>, row: nat, q: nat, s: seq<Byte>)
    ensures row + 2 * q + 1 < |o| && q < |s| && o[row + 2 * q] == s[q] && o[row + 2 * q + 1] == 255 ==>
            GrayPixel(o, row, q, s)
    ensures row + 4 * q + 3 < |o| && 3 * q + 2 < |s| && o[row + 4 * q + 3] == 255
            && o[row + 4 * q] == s[3 * q] && o[row + 4 * q + 1] == s[3 * q + 1] && o[row + 4 * q + 2] == s[3 * q + 2]
            ==> ColourPixel(o, row, q, s)
  {
  }

  /** Makes room for alpha behind each pixel of n samples. */
  method InsertAlpha(out: array<Byte>, row: nat, n: nat, x: nat, ghost s: seq<Byte>)
    requires (n == 1 || n == 3) && row + Times(x, n + 1) <= out.Length && |s| == Times(x, n) <= Times(x, n + 1)
    requires out[row..row + |s|] == s
    modifies out
    ensures OnlyIn(out, row, row + Times(x, n + 1)) && RowIs(out[..], row, s, n, 1, x)
  {
    hide Times, RowIs;
    TimesIs(x, n);
    TimesIs(x, n + 1);
    if n == 1 {
      InsertAlphaGray(out, row, x, s);
      GrayRow(out[..], row, x, s);
    } else {
      InsertAlphaColour(out, row, x, s);
      ColourRow(out[..], row, x, s);
    }
  }

  lemma GrayRow(o: seq<Byte>, row: nat, x: nat, s: seq<Byte>)
    requires forall q :: 0 <= q < x ==> GrayPixel(o, row, q, s)
    ensures RowIs(o, row, s, 1, 1, x)
  {
    hide Times;
    forall q: nat | q < x ensures PixelByte(o, row, 2, q, 0) == PixelByte(s, 0, 1, q, 0) &&
      PixelByte(o, row, 2, q, 1) == 255 {
      TimesIs(q, 1);
      TimesIs(q, 2);
      assert GrayPixel(o, row, q, s);
    }
  }

  lemma ColourRow(o: seq<Byte>, row: nat, x: nat, s: seq<Byte>)
    requires forall q :: 0 <= q < x ==> ColourPixel(o, row, q, s)
    ensures RowIs(o, row, s, 3, 1, x)
  {
    hide Times;
    forall q: nat, k: nat | q < x && k < 3 ensures PixelByte(o, row, 4, q, k) == PixelByte(s, 0, 3, q, k) {
      TimesIs(q, 3);
      TimesIs(q, 4);
      assert ColourPixel(o, row, q, s);
    }
    forall q: nat | q < x ensures PixelByte(o, row, 4, q, 3) == 255 {
      TimesIs(q, 4);
      assert ColourPixel(o, row, q, s);
    }
  }
}
