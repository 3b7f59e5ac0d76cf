/** From filtered scanlines to an image (lib/stb_image.h, stbi__create_png_image_raw). */
module PngImage {
  import opened Bits
  import opened PngFilters
  import opened PngRows
  import opened PngExpand
  import opened PngBytes

  /** Channels in the file and in the output, bits per sample, and whether samples are gray levels. */
  datatype Format = Format(imgN: nat, outN: nat, depth: nat, gray: bool) {
    predicate Ok() {
      && 1 <= imgN <= 4 && (outN == imgN || outN == imgN + 1)
      && (SmallDepth(depth) || depth == 8 || depth == 16)
      && (depth < 8 && outN != imgN ==> imgN == 1 || imgN == 3)
    }

    /** Bytes of a pixel in the output: samples and alpha. */
    function N(): nat {
      if depth == 16 then 2 * imgN else imgN
    }

    function A(): nat
      requires Ok()
    {
      if depth == 16 then 2 * (outN - imgN) else outN - imgN
    }

    function Size(): nat
      requires Ok()
    {
      N() + A()
    }

    /** The distance to the byte that filters look at on the left. */
    function Bpp(): nat {
      if depth < 8 then 1 else N()
    }

    /** Bytes in a row of x pixels. */
    function Width(x: nat): nat {
      (Times(Times(x, imgN), depth) + 7) / 8
    }

    function Stride(x: nat): nat
      requires Ok()
    {
      Times(x, Size())
    }
  }

  lemma {:induction false} TimesGrows(x: nat, m: nat, n: nat)
    requires m <= n
    ensures Times(x, m) <= Times(x, n)
  {
    if x == 0 {
    } else {
      TimesGrows(x - 1, m, n);
    }
  }

  lemma WidthOf(f: Format, x: nat)
    requires f.Ok() && x >= 1
    ensures f.depth >= 8 ==> f.Width(x) == Times(x, f.N())
    ensures f.depth < 8 ==> Times(x, f.N()) == Times(x, f.imgN)
    ensures f.depth < 8 ==> 8 * (f.Width(x) - 1) < Times(Times(x, f.imgN), f.depth) <= 8 * f.Width(x)
    ensures Times(x, f.N()) <= f.Stride(x) && 1 <= f.Bpp() <= f.Width(x) <= f.Stride(x)
  {
    hide Times;
    var s := Times(x, f.imgN);
    TimesIs(s, f.depth);
    TimesGrows(x, f.N(), f.Size());
    TimesMono(0, x, f.imgN);
    TimesNone(f.imgN);
    if f.depth == 16 {
      TimesTwice(x, f.imgN);
    }
  }

  lemma {:induction false} TimesTwice(x: nat, n: nat)
    ensures Times(x, 2 * n) == 2 * Times(x, n)
  {
    if x == 0 {
    } else {
      TimesTwice(x - 1, n);
    }
  }

  /** A row after its filter is undone: still packed, at the right end, for small samples. */
  ghost predicate UnfilteredRow(o: seq<Byte>, row: nat, f: Format, x: nat, recon: seq<Byte>)
    requires f.Ok()
  {
    && row + f.Stride(x) <= |o| && |recon| == f.Width(x) <= f.Stride(x)
    && if f.depth < 8 then o[row + f.Stride(x) - f.Width(x)..row + f.Stride(x)] == recon
       else RowIs(o, row, recon, f.N(), f.A(), x)
  }

  /** The samples of a row as bytes. */
  function Content(f: Format, x: nat, recon: seq<Byte>): seq<Byte>
    requires f.Ok()
  {
    if f.depth < 8 then Samples(recon, f.depth, f.gray, Times(x, f.imgN)) else recon
  }

  /** A row of the image: its samples, with opaque alpha where alpha was asked for and is not in the file. */
  ghost predicate FinishedRow(o: seq<Byte>, row: nat, f: Format, x: nat, recon: seq<Byte>)
    requires f.Ok()
  {
    row + f.Stride(x) <= |o| && RowIs(o, row, Content(f, x, recon), f.N(), f.A(), x)
  }

  lemma PackedIsRow(o: seq<Byte>, row: nat, s: seq<Byte>, n: nat, x: nat)
    requires row + Times(x, n) <= |o| && |s| == Times(x, n) && o[row..row + |s|] == s
    ensures RowIs(o, row, s, n, 0, x)
  {
    hide Times;
    forall q: nat, k: nat | q < x && k < n ensures PixelByte(o, row, n, q, k) == PixelByte(s, 0, n, q, k) {
      TimesMono(q, x, n);
      assert o[row + (Times(q, n) + k)] == o[row..row + |s|][Times(q, n) + k];
    }
  }

  lemma RowIsPacked(o: seq<Byte>, row: nat, s: seq<Byte>, n: nat, x: nat)
    requires row + Times(x, n) <= |o| && |s| == Times(x, n) && RowIs(o, row, s, n, 0, x)
    ensures o[row..row + |s|] == s
  {
    hide Times;
    forall i | 0 <= i < |s| ensures o[row + i] == s[i] {
      var q, k := WhichPixel(x, n, i);
      assert PixelByte(o, row, n, q, k) == PixelByte(s, 0, n, q, k);
    }
  }

  lemma {:induction false} WhichPixel(x: nat, n: nat, i: nat) returns (q: nat, k: nat)
    requires i < Times(x, n)
    ensures q < x && k < n && i == Times(q, n) + k
  {
    if i >= Times(x - 1, n) {
      q, k := x - 1, i - Times(x - 1, n);
    } else {
      q, k := WhichPixel(x - 1, n, i);
    }
  }

  lemma RowIsFrame(o: seq<Byte>, o': seq<Byte>, row: nat, s: seq<Byte>, n: nat, a: nat, x: nat)
    requires |o| == |o'| && a <= 2 && row + Times(x, n + a) <= |o| && RowIs(o, row, s, n, a, x)
    requires forall i :: row <= i < row + Times(x, n + a) ==> o'[i] == o[i]
    ensures RowIs(o', row, s, n, a, x)
  {
    hide Times, ChannelsAre, PixelByte;
    var size := n + a;
    ChannelsFrame(o, o', row, size, s, n, x);
    forall q: nat, k: nat | q < x && k < size ensures PixelByte(o', row, size, q, k) == PixelByte(o, row, size, q, k) {
      PixelFrame(o, o', row, size, x, q, k);
    }
  }

  lemma PixelFrame(o: seq<Byte>, o': seq<Byte>, row: nat, size: nat, x: nat, q: nat, k: nat)
    requires |o| == |o'| && row + Times(x, size) <= |o| && q < x && k < size
    requires forall i :: row <= i < row + Times(x, size) ==> o'[i] == o[i]
    ensures PixelByte(o', row, size, q, k) == PixelByte(o, row, size, q, k)
  {
    hide Times;
    TimesMono(q, x, size);
  }

  lemma UnfilteredFrame(o: seq<Byte>, o': seq<Byte>, row: nat, f: Format, x: nat, recon: seq<Byte>)
    requires f.Ok() && |o| == |o'| && UnfilteredRow(o, row, f, x, recon)
    requires forall i :: row <= i < row + f.Stride(x) ==> o'[i] == o[i]
    ensures UnfilteredRow(o', row, f, x, recon)
  {
    hide Times, RowIs;
    if f.depth < 8 {
      var b, e := row + f.Stride(x) - f.Width(x), row + f.Stride(x);
      assert o'[b..e] == o[b..e];
    } else {
      RowIsFrame(o, o', row, recon, f.N(), f.A(), x);
    }
  }

  lemma FinishedFrame(o: seq<Byte>, o': seq<Byte>, row: nat, f: Format, x: nat, recon: seq<Byte>)
    requires f.Ok() && |o| == |o'| && FinishedRow(o, row, f, x, recon)
    requires forall i :: row <= i < row + f.Stride(x) ==> o'[i] == o[i]
    ensures FinishedRow(o', row, f, x, recon)
  {
    hide Times, RowIs, Content;
    RowIsFrame(o, o', row, Content(f, x, recon), f.N(), f.A(), x);
  }

  // ---------- one row ----------

  /** Undoes the filter t of one row. */
  method UnfilterRow(out: array<Byte>, row: nat, raw: seq<Byte>, t: nat, first: bool, f: Format, x: nat,
                     ghost above: seq<Byte>)
    requires f.Ok() && x >= 1 && t <= 4 && |raw| == |above| == f.Width(x) && row + f.Stride(x) <= out.Length
    requires first ==> above == Zeros(|raw|)
    requires !first ==> row >= f.Stride(x) && UnfilteredRow(out[..], row - f.Stride(x), f, x, above)
    modifies out
    ensures OnlyIn(out, row, row + f.Stride(x))
    ensures f.Bpp() >= 1 && UnfilteredRow(out[..], row, f, x, Recon(t, f.Bpp(), raw, above, |raw|))
  {
    hide Times, RowIs, Recon, Zeros;
    WidthOf(f, x);
    if f.depth < 8 {
      var cur := row + f.Stride(x) - f.Width(x);
      UnfilterPacked(out, cur, cur - f.Stride(x), raw, t, first, 1, above);
    } else {
      UnfilterWideRow(out, row, raw, t, first, f, x, above);
    }
  }

  method UnfilterWideRow(out: array<Byte>, row: nat, raw: seq<Byte>, t: nat, first: bool, f: Format, x: nat,
                         ghost above: seq<Byte>)
    requires f.Ok() && f.depth >= 8 && x >= 1 && t <= 4 && row + Times(x, f.Size()) <= out.Length
    requires |raw| == |above| == Times(x, f.N()) && f.N() <= |raw| <= Times(x, f.Size())
    requires first ==> above == Zeros(|raw|)
    requires !first ==> row >= Times(x, f.Size()) && RowIs(out[..], row - Times(x, f.Size()), above, f.N(), f.A(), x)
    modifies out
    ensures OnlyIn(out, row, row + Times(x, f.Size()))
    ensures RowIs(out[..], row, Recon(t, f.N(), raw, above, |raw|), f.N(), f.A(), x)
  {
    hide Times, RowIs, Recon, Zeros;
    var stride := Times(x, f.Size());
    if f.imgN == f.outN {
      if !first {
        RowIsPacked(out[..], row - stride, above, f.N(), x);
      }
      UnfilterPacked(out, row, row - stride, raw, t, first, f.N(), above);
      PackedIsRow(out[..], row, Recon(t, f.N(), raw, above, |raw|), f.N(), x);
    } else {
      if !first {
        RowChannels(out[..], row - stride, above, f.N(), f.A(), x);
      }
      UnfilterSpread(out, row, row - stride, raw, t, first, f.N(), f.A(), x, above);
    }
  }

  lemma RowChannels(o: seq<Byte>, row: nat, s: seq<Byte>, n: nat, a: nat, x: nat)
    requires a <= 2 && RowIs(o, row, s, n, a, x)
    ensures ChannelsAre(o, row, n + a, s, n, x)
  {
  }

  /** Expands the small samples of one row and inserts alpha. */
  method FinishRow(out: array<Byte>, row: nat, f: Format, x: nat, ghost recon: seq<Byte>)
    requires f.Ok() && f.depth < 8 && x >= 1 && UnfilteredRow(out[..], row, f, x, recon)
    modifies out
    ensures OnlyIn(out, row, row + f.Stride(x)) && FinishedRow(out[..], row, f, x, recon)
  {
    hide Times, RowIs, Sample;
    WidthOf(f, x);
    var s := Times(x, f.imgN);
    ExpandRow(out, row, f.Stride(x), f.Width(x), s, f.depth, f.gray, recon);
    if f.imgN != f.outN {
      InsertAlpha(out, row, f.imgN, x, Samples(recon, f.depth, f.gray, s));
    } else {
      PackedIsRow(out[..], row, Samples(recon, f.depth, f.gray, s), f.imgN, x);
    }
  }

  // ---------- the image ----------

  /** Whether a product of sizes, with something added, is an int (lib/stb_image.h, stbi__mad3sizes_valid). */
  predicate SizesValid(a: nat, b: nat, c: nat, add: nat) {
    && (b == 0 || a <= 0x7FFF_FFFF / b)
    && (c == 0 || a * b <= 0x7FFF_FFFF / c)
    && a * b * c <= 0x7FFF_FFFF - add
  }

  /** The divisions keep the product from overflowing, and decide whether it is an int with the rest added. */
  lemma SizesValidIff(a: nat, b: nat, c: nat, add: nat)
    requires b >= 1 && c >= 1
    ensures SizesValid(a, b, c, add) <==> a * b * c + add <= 0x7FFF_FFFF
  {
    QuotientBound(a, b, 0x7FFF_FFFF);
    QuotientBound(a * b, c, 0x7FFF_FFFF);
    if a * b * c + add <= 0x7FFF_FFFF && a * b > 0 {
      ProductSign(a * b, c);
    }
  }

  /** The output fits into one block of the allocator. */
  predicate Allocatable(f: Format, x: nat, y: nat, m: Machine)
    requires f.Ok()
  {
    Times(y, f.Stride(x)) <= m.heapLimit
  }

  /** Whether the machine swaps the bytes of a sample. */
  predicate Swaps(f: Format, m: Machine) {
    f.depth == 16 && m.littleEndian
  }

  predicate Representable(f: Format, x: nat, y: nat)
    requires f.Ok()
  {
    SizesValid(x, y, f.Size(), 0) && SizesValid(f.imgN, x, f.depth, 7)
  }

  /** There is data for every row, with a filter type that exists, and small samples fit beside their expansion. */
  predicate Decodable(f: Format, raw: seq<Byte>, x: nat, y: nat)
    requires f.Ok()
  {
    && Times(y, f.Width(x) + 1) <= |raw| && (f.depth < 8 ==> f.Width(x) <= x)
    && forall j :: 0 <= j < y ==> GoodFilter(raw, f.Width(x), j)
  }

  predicate GoodFilter(raw: seq<Byte>, w: nat, j: nat) {
    Times(j + 1, w + 1) <= |raw| ==> FilterOf(raw, w, j) <= 4
  }

  /** Row j of the reference, if there is data for it. */
  function RowOf(raw: seq<Byte>, f: Format, x: nat, j: nat): seq<Byte>
    requires f.Ok()
  {
    if Times(j + 1, f.Width(x) + 1) <= |raw| && f.Bpp() >= 1 then ReconRow(raw, f.Width(x), f.Bpp(), j) else []
  }

  ghost predicate RowsUnfiltered(o: seq<Byte>, raw: seq<Byte>, f: Format, x: nat, from: nat, to: nat)
    requires f.Ok()
  {
    forall j :: from <= j < to ==> UnfilteredRow(o, Times(j, f.Stride(x)), f, x, RowOf(raw, f, x, j))
  }

  ghost predicate RowsFinished(o: seq<Byte>, raw: seq<Byte>, f: Format, x: nat, n: nat)
    requires f.Ok()
  {
    forall j :: 0 <= j < n ==> FinishedRow(o, Times(j, f.Stride(x)), f, x, RowOf(raw, f, x, j))
  }

  lemma RowsUnfilteredFrame(o: seq<Byte>, o': seq<Byte>, raw: seq<Byte>, f: Format, x: nat, from: nat, to: nat, r: nat)
    requires f.Ok() && |o| == |o'| && RowsUnfiltered(o, raw, f, x, from, to) && (to <= r || r < from)
    requires forall i :: 0 <= i < |o| && !(Times(r, f.Stride(x)) <= i < Times(r, f.Stride(x)) + f.Stride(x)) ==>
             o'[i] == o[i]
    ensures RowsUnfiltered(o', raw, f, x, from, to)
  {
    hide Times, UnfilteredRow, RowOf;
    forall j: nat | from <= j < to ensures UnfilteredRow(o', Times(j, f.Stride(x)), f, x, RowOf(raw, f, x, j)) {
      Apart(j, r, f.Stride(x));
      UnfilteredFits(o, Times(j, f.Stride(x)), f, x, RowOf(raw, f, x, j));
      UnfilteredFrame(o, o', Times(j, f.Stride(x)), f, x, RowOf(raw, f, x, j));
    }
  }

  lemma UnfilteredFits(o: seq<Byte>, row: nat, f: Format, x: nat, recon: seq<Byte>)
    requires f.Ok() && UnfilteredRow(o, row, f, x, recon)
    ensures row + f.Stride(x) <= |o|
  {
  }

  lemma RowsFinishedFrame(o: seq<Byte>, o': seq<Byte>, raw: seq<Byte>, f: Format, x: nat, n: nat)
    requires f.Ok() && |o| == |o'| && RowsFinished(o, raw, f, x, n)
    requires forall i :: 0 <= i < Times(n, f.Stride(x)) && i < |o| ==> o'[i] == o[i]
    ensures RowsFinished(o', raw, f, x, n)
  {
    hide Times, RowIs, Content, RowOf;
    forall j: nat | j < n ensures FinishedRow(o', Times(j, f.Stride(x)), f, x, RowOf(raw, f, x, j)) {
      Apart(j, n, f.Stride(x));
      FinishedFrame(o, o', Times(j, f.Stride(x)), f, x, RowOf(raw, f, x, j));
    }
  }

  /** Rows of samples of a byte or two need no expansion. */
  lemma WideRowsFinished(o: seq<Byte>, raw: seq<Byte>, f: Format, x: nat, y: nat)
    requires f.Ok() && f.depth >= 8 && RowsUnfiltered(o, raw, f, x, 0, y)
    ensures RowsFinished(o, raw, f, x, y)
  {
    hide Times, RowIs, RowOf;
    forall j: nat | j < y ensures FinishedRow(o, Times(j, f.Stride(x)), f, x, RowOf(raw, f, x, j)) {
      assert UnfilteredRow(o, Times(j, f.Stride(x)), f, x, RowOf(raw, f, x, j));
    }
  }

  lemma RowOfUnfold(raw: seq<Byte>, f: Format, x: nat, j: nat, above: seq<Byte>)
    requires f.Ok() && x >= 1 && Times(j + 1, f.Width(x) + 1) <= |raw|
    requires above == if j == 0 then Zeros(f.Width(x)) else RowOf(raw, f, x, j - 1)
    ensures Times(j + 1, f.Width(x) + 1) == Times(j, f.Width(x) + 1) + f.Width(x) + 1
    ensures |above| == f.Width(x) && f.Bpp() >= 1
    ensures RowOf(raw, f, x, j)
            == Recon(FilterOf(raw, f.Width(x), j), f.Bpp(), RowBytes(raw, f.Width(x), j), above, f.Width(x))
  {
    hide Recon, Zeros;
    WidthOf(f, x);
    assert RowAbove(raw, f.Width(x), f.Bpp(), j) == above;
    assert ReconRow(raw, f.Width(x), f.Bpp(), j)
        == Recon(FilterOf(raw, f.Width(x), j), f.Bpp(), RowBytes(raw, f.Width(x), j), above, f.Width(x));
  }

  /** Undoes the filters of all rows. */
  method UnfilterRows(out: array<Byte>, raw: seq<Byte>, f: Format, x: nat, y: nat) returns (ok: bool)
    requires f.Ok() && x >= 1 && y >= 1 && out.Length == Times(y, f.Stride(x)) && Times(y, f.Width(x) + 1) <= |raw|
    modifies out
    ensures ok <==> Decodable(f, raw, x, y)
    ensures ok ==> RowsUnfiltered(out[..], raw, f, x, 0, y)
  {
    hide Times, UnfilteredRow, RowOf, Recon, Zeros, FilterOf, RowBytes, RowsUnfiltered;
    var w, stride := f.Width(x), f.Stride(x);
    WidthOf(f, x);
    TimesNone(w + 1);
    TimesNone(stride);
    NoRows(out[..], raw, f, x);
    var j, r, row := 0, 0, 0;
    while j < y
      invariant j <= y && r == Times(j, w + 1) && row == Times(j, stride)
      invariant forall i :: 0 <= i < j ==> GoodFilter(raw, w, i)
      invariant j > 0 && f.depth < 8 ==> w <= x
      invariant RowsUnfiltered(out[..], raw, f, x, 0, j)
    {
      TimesMono(j, y, w + 1);
      TimesMono(j, y, stride);
      TimesSucc(j, w + 1);
      TimesSucc(j, stride);
      var t := raw[r];
      FilterAt(raw, w, j);
      if t > 4 {
        assert !GoodFilter(raw, w, j);
        return false;
      }
      if f.depth < 8 && w > x {
        return false;
      }
      ghost var o, above := out[..], if j == 0 then Zeros(w) else RowOf(raw, f, x, j - 1);
      RowOfUnfold(raw, f, x, j, above);
      if j > 0 {
        LastRow(o, raw, f, x, j);
      }
      UnfilterRow(out, row, raw[r + 1..r + 1 + w], t, j == 0, f, x, above);
      RowsUnfilteredFrame(o, out[..], raw, f, x, 0, j, j);
      OneMoreRow(out[..], raw, f, x, 0, j);
      j, r, row := j + 1, r + 1 + w, row + stride;
    }
    ok := true;
  }

  lemma FilterAt(raw: seq<Byte>, w: nat, j: nat)
    requires Times(j + 1, w + 1) <= |raw| && Times(j + 1, w + 1) == Times(j, w + 1) + w + 1
    ensures FilterOf(raw, w, j) == raw[Times(j, w + 1)]
    ensures RowBytes(raw, w, j) == raw[Times(j, w + 1) + 1..Times(j, w + 1) + 1 + w]
  {
    hide Times;
  }

  lemma NoRows(o: seq<Byte>, raw: seq<Byte>, f: Format, x: nat)
    requires f.Ok()
    ensures RowsUnfiltered(o, raw, f, x, 0, 0)
  {
  }

  lemma LastRow(o: seq<Byte>, raw: seq<Byte>, f: Format, x: nat, j: nat)
    requires f.Ok() && j >= 1 && RowsUnfiltered(o, raw, f, x, 0, j)
    ensures Times(j, f.Stride(x)) >= f.Stride(x)
    ensures UnfilteredRow(o, Times(j, f.Stride(x)) - f.Stride(x), f, x, RowOf(raw, f, x, j - 1))
  {
    hide UnfilteredRow, RowOf;
    var i := j - 1;
    assert UnfilteredRow(o, Times(i, f.Stride(x)), f, x, RowOf(raw, f, x, i));
  }

  lemma OneMoreRow(o: seq<Byte>, raw: seq<Byte>, f: Format, x: nat, from: nat, j: nat)
    requires f.Ok() && RowsUnfiltered(o, raw, f, x, from, j)
    requires UnfilteredRow(o, Times(j, f.Stride(x)), f, x, RowOf(raw, f, x, j))
    ensures RowsUnfiltered(o, raw, f, x, from, j + 1)
  {
    hide UnfilteredRow, RowOf, Times;
  }

  lemma OneMoreFinished(o: seq<Byte>, raw: seq<Byte>, f: Format, x: nat, j: nat)
    requires f.Ok() && RowsFinished(o, raw, f, x, j)
    requires FinishedRow(o, Times(j, f.Stride(x)), f, x, RowOf(raw, f, x, j))
    ensures RowsFinished(o, raw, f, x, j + 1)
  {
    hide FinishedRow, RowOf, Times;
  }

  /** Expands all rows of small samples. */
  method FinishRows(out: array<Byte>, ghost raw: seq<Byte>, f: Format, x: nat, y: nat)
    requires f.Ok() && f.depth < 8 && x >= 1 && out.Length == Times(y, f.Stride(x)) &&
             RowsUnfiltered(out[..], raw, f, x, 0, y)
    modifies out
    ensures RowsFinished(out[..], raw, f, x, y)
  {
    hide Times, UnfilteredRow, FinishedRow, RowOf;
    var j, row := 0, 0;
    TimesNone(f.Stride(x));
    while j < y
      invariant j <= y && row == Times(j, f.Stride(x))
      invariant RowsFinished(out[..], raw, f, x, j) && RowsUnfiltered(out[..], raw, f, x, j, y)
    {
      ghost var o := out[..];
      FinishRow(out, row, f, x, RowOf(raw, f, x, j));
      RowsFinishedFrame(o, out[..], raw, f, x, j);
      OneMoreFinished(out[..], raw, f, x, j);
      RowsUnfilteredFrame(o, out[..], raw, f, x, j + 1, y, j);
      TimesSucc(j, f.Stride(x));
      j, row := j + 1, row + f.Stride(x);
    }
  }

  // ---------- what the filters make of the image ----------

  /** Byte i of row j obeys the filter of its row; beside the image there are zeros. */
  ghost predicate ByteObeys(raw: seq<Byte>, f: Format, x: nat, j: nat, i: nat)
    requires f.Ok()
  {
    var w, bpp := f.Width(x), f.Bpp();
    var at, row, above := Times(j, w + 1), RowOf(raw, f, x, j), if j == 0 then Zeros(w) else RowOf(raw, f, x, j - 1);
    && i < w && at + 1 + i < |raw| && |row| == |above| == w
    && Obeys(raw[at], raw[at + 1 + i], if i < bpp then 0 else row[i - bpp], above[i],
             if i < bpp then 0 else above[i - bpp], row[i])
  }

  lemma RowsObey(raw: seq<Byte>, f: Format, x: nat, y: nat, j: nat, i: nat)
    requires f.Ok() && x >= 1 && Decodable(f, raw, x, y) && j < y && i < f.Width(x)
    ensures ByteObeys(raw, f, x, j, i)
  {
    hide Recon, Obeys, FilterOf, RowBytes, Zeros;
    var w := f.Width(x);
    WidthOf(f, x);
    HasRow(raw, w, j, y);
    if j > 0 {
      HasRow(raw, w, j - 1, y);
    }
    var above := if j == 0 then Zeros(w) else RowOf(raw, f, x, j - 1);
    RowOfUnfold(raw, f, x, j, above);
    FilterAt(raw, w, j);
    assert GoodFilter(raw, w, j);
    ReconObeys(FilterOf(raw, w, j), f.Bpp(), RowBytes(raw, w, j), above, i);
  }

  lemma HasRow(raw: seq<Byte>, w: nat, j: nat, y: nat)
    requires j < y && Times(y, w + 1) <= |raw|
    ensures Times(j + 1, w + 1) == Times(j, w + 1) + w + 1 <= |raw|
  {
    TimesSucc(j, w + 1);
    TimesMono(j, y, w + 1);
  }

  /** Channel byte k of pixel q of row j of the output, zero beside the image. */
  function OutputByte(o: seq<Byte>, f: Format, x: nat, j: int, q: int, k: nat): Byte
    requires f.Ok()
  {
    if j < 0 || q < 0 then 0 else PixelByte(o, Times(j, f.Stride(x)), f.Size(), q, k)
  }

  /** Where samples are bytes or pairs of bytes: what the output shows obeys the filters of the file. */
  ghost predicate PixelObeys(o: seq<Byte>, raw: seq<Byte>, f: Format, x: nat, j: nat, q: nat, k: nat)
    requires f.Ok()
  {
    var at := Times(j, Times(x, f.N()) + 1);
    && at + 1 + Times(q, f.N()) + k < |raw|
    && Obeys(raw[at], raw[at + 1 + Times(q, f.N()) + k], OutputByte(o, f, x, j, q - 1, k),
             OutputByte(o, f, x, j - 1, q, k), OutputByte(o, f, x, j - 1, q - 1, k), OutputByte(o, f, x, j, q, k))
  }

  lemma PixelsObey(o: seq<Byte>, raw: seq<Byte>, f: Format, x: nat, y: nat, j: nat, q: nat, k: nat)
    requires f.Ok() && f.depth >= 8 && x >= 1 && Decodable(f, raw, x, y) && RowsFinished(o, raw, f, x, y)
    requires j < y && q < x && k < f.N()
    ensures PixelObeys(o, raw, f, x, j, q, k)
  {
    hide Times, RowOf, Obeys, GoodFilter, RowIs, Zeros;
    WidthOf(f, x);
    var i := Times(q, f.N()) + k;
    TimesMono(q, x, f.N());
    RowsObey(raw, f, x, y, j, i);
    OutputOfRow(o, raw, f, x, y, j, q, k);
    if q > 0 {
      TimesSucc(q - 1, f.N());
      OutputOfRow(o, raw, f, x, y, j, q - 1, k);
    } else {
      TimesNone(f.N());
    }
    if j > 0 {
      OutputOfRow(o, raw, f, x, y, j - 1, q, k);
      if q > 0 {
        OutputOfRow(o, raw, f, x, y, j - 1, q - 1, k);
      }
    } else {
      ZerosAre(f.Width(x));
    }
  }

  lemma ZerosAre(n: nat)
    ensures forall i :: 0 <= i < n ==> Zeros(n)[i] == 0
  {
  }

  lemma OutputOfRow(o: seq<Byte>, raw: seq<Byte>, f: Format, x: nat, y: nat, j: nat, q: nat, k: nat)
    requires f.Ok() && f.depth >= 8 && x >= 1 && RowsFinished(o, raw, f, x, y) && j < y && q < x && k < f.N()
    ensures OutputByte(o, f, x, j, q, k) == PixelByte(RowOf(raw, f, x, j), 0, f.N(), q, k)
  {
    hide Times, RowOf, PixelByte;
    assert FinishedRow(o, Times(j, f.Stride(x)), f, x, RowOf(raw, f, x, j));
  }

  /** Every byte of the rows, and where samples are whole bytes every byte of the output, obeys the filters. */
  ghost predicate ImageObeys(o: seq<Byte>, raw: seq<Byte>, f: Format, x: nat, y: nat)
    requires f.Ok()
  {
    && (forall j, i :: 0 <= j < y && 0 <= i < f.Width(x) ==> ByteObeys(raw, f, x, j, i))
    && (f.depth >= 8 ==>
          forall j, q, k :: 0 <= j < y && 0 <= q < x && 0 <= k < f.N() ==> PixelObeys(o, raw, f, x, j, q, k))
  }

  lemma AllObey(o: seq<Byte>, raw: seq<Byte>, f: Format, x: nat, y: nat)
    requires f.Ok() && x >= 1 && Decodable(f, raw, x, y) && RowsFinished(o, raw, f, x, y)
    ensures ImageObeys(o, raw, f, x, y)
  {
    hide Decodable, RowsFinished, ByteObeys, PixelObeys;
    forall j, i | 0 <= j < y && 0 <= i < f.Width(x) ensures ByteObeys(raw, f, x, j, i) {
      RowsObey(raw, f, x, y, j, i);
    }
    if f.depth >= 8 {
      forall j, q, k | 0 <= j < y && 0 <= q < x && 0 <= k < f.N() ensures PixelObeys(o, raw, f, x, j, q, k) {
        PixelsObey(o, raw, f, x, y, j, q, k);
      }
    }
  }

  // ---------- the decoder ----------

  /**
   Decodes the filtered rows of an x by y image. It fails exactly when a size is too large, memory or data is missing, a
   filter type does not exist or small samples do not fit; otherwise every row is the reference's, with samples of 16
   bits in the byte order of the machine.
   */
  method CreateImageRaw(raw: seq<Byte>, f: Format, x: nat, y: nat, m: Machine) returns (ok: bool, out: array<Byte>)
    requires f.Ok() && x >= 1 && y >= 1
    ensures fresh(out)
    ensures ok <==> Representable(f, x, y) && Allocatable(f, x, y, m) && Decodable(f, raw, x, y)
    ensures ok ==> out.Length == Times(y, f.Stride(x))
    ensures ok ==> RowsFinished(InFileOrder(out[..], Swaps(f, m)), raw, f, x, y)
    ensures ok ==> ImageObeys(InFileOrder(out[..], Swaps(f, m)), raw, f, x, y)
  {
    hide ImageObeys;
    hide Times, UnfilteredRow, FinishedRow, RowOf, SizesValid, RowsUnfiltered, RowsFinished, GoodFilter;
    if !SizesValid(x, y, f.Size(), 0) || Times(y, f.Stride(x)) > m.heapLimit {
      out := new Byte[0];
      return false, out;
    }
    out := new Byte[Times(y, f.Stride(x))];
    if !SizesValid(f.imgN, x, f.depth, 7) {
      return false, out;
    }
    if |raw| < Times(y, f.Width(x) + 1) {
      return false, out;
    }
    ok := UnfilterRows(out, raw, f, x, y);
    if ok {
      if f.depth < 8 {
        FinishRows(out, raw, f, x, y);
      } else {
        WideRowsFinished(out[..], raw, f, x, y);
        if f.depth == 16 {
          TimesEven(x, f.Size());
          TimesEven(y, f.Stride(x));
          ToNative(out, m.littleEndian);
        }
      }
      AllObey(InFileOrder(out[..], Swaps(f, m)), raw, f, x, y);
    }
  }

  /** An image filtered by any filters is decodable, and every row comes back. */
  lemma EncodedIsDecodable(f: Format, x: nat, rows: seq<seq<Byte>>, filters: seq<Byte>, raw: seq<Byte>)
    requires f.Ok() && x >= 1 && |rows| == |filters| && (forall j :: 0 <= j < |rows| ==> |rows[j]| == f.Width(x))
    requires (forall j :: 0 <= j < |rows| ==> filters[j] <= 4) && (f.depth < 8 ==> f.Width(x) <= x) && f.Bpp() >= 1
    requires Encoded(rows, filters, f.Width(x), f.Bpp(), |rows|) <= raw
    ensures Decodable(f, raw, x, |rows|)
    ensures forall j :: 0 <= j < |rows| ==> RowOf(raw, f, x, j) == rows[j]
  {
    hide Times, Encoded, FilterOf, ReconRow;
    forall j: nat | j < |rows| ensures GoodFilter(raw, f.Width(x), j) && RowOf(raw, f, x, j) == rows[j] {
      ReconOfEncoded(rows, filters, f.Width(x), f.Bpp(), j, raw);
    }
  }

  /** The length of the data that is asked for is never rounded by 32-bit arithmetic. */
  lemma LengthIsExact(f: Format, x: nat, y: nat)
    requires f.Ok() && x >= 1 && y >= 1 && Representable(f, x, y)
    ensures (f.Width(x) + 1) * y < 0x1_0000_0000 && (f.imgN * x * f.depth) + 7 < 0x1_0000_0000
  {
    hide Times;
    WidthOf(f, x);
    TimesIs(x, f.Size());
    Products(x, y, f.Size(), f.Width(x));
  }

  lemma Products(x: nat, y: nat, size: nat, w: nat)
    requires w <= x * size && x * y * size <= 0x7FFF_FFFF && x * size >= 1
    ensures (w + 1) * y < 0x1_0000_0000
  {
    assert w * y <= x * size * y;
    assert y <= x * size * y;
    assert x * size * y == x * y * size;
  }
}
