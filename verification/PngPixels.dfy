/**
 Images as pixels: how an encoder packs, splits, filters and joins them (RFC 2083, sections 2.3, 2.6 and 6), and that
 the decoder gives every pixel back.
 */
module PngPixels {
  import opened Bits
  import opened BitRegister
  import opened PngFilters
  import opened PngRows
  import opened PngExpand
  import opened PngImage
  import opened PngPasses
  import opened PngInterlace

  // ---------- packing ----------

  /** One after the other. */
  function Flat(parts: seq<seq<nat>>): seq<nat> {
    if parts == [] then [] else Flat(parts[..|parts| - 1]) + parts[|parts| - 1]
  }

  ghost predicate Equal(parts: seq<seq<nat>>, n: nat) {
    forall i :: 0 <= i < |parts| ==> |parts[i]| == n
  }

  lemma {:induction false} FlatLength(parts: seq<seq<nat>>, n: nat)
    requires Equal(parts, n)
    ensures |Flat(parts)| == Times(|parts|, n)
  {
    if parts == [] {
    } else {
      FlatLength(parts[..|parts| - 1], n);
    }
  }

  lemma {:induction false} FlatAt(parts: seq<seq<nat>>, n: nat, i: nat, k: nat)
    requires Equal(parts, n) && i < |parts| && k < n
    ensures |Flat(parts)| == Times(|parts|, n) && Times(i, n) + k < |Flat(parts)|
    ensures Flat(parts)[Times(i, n) + k] == parts[i][k]
  {
    hide Times;
    var m, rest := |parts| - 1, parts[..|parts| - 1];
    FlatLength(parts, n);
    FlatLength(rest, n);
    TimesMono(i, |parts|, n);
    if i >= m {
    } else {
      FlatAt(rest, n, i, k);
    }
  }

  /** The bits of a sample, high bits first. */
  function SampleBits(v: nat, depth: nat): (r: seq<nat>)
    ensures |r| == depth && forall m :: 0 <= m < depth ==> r[m] == BitOf(v, depth - 1 - m)
  {
    seq(depth, m requires 0 <= m < depth => BitOf(v, depth - 1 - m))
  }

  function BitsOf(samples: seq<nat>, depth: nat): seq<nat> {
    Flat(seq(|samples|, i requires 0 <= i < |samples| => SampleBits(samples[i], depth)))
  }

  /** Zero behind the last bit. */
  function BitIn(bits: seq<nat>, t: nat): (b: nat)
    ensures b <= 1
  {
    if t < |bits| then bits[t] % 2 else 0
  }

  /** n bits from t on as a number. */
  function Number(bits: seq<nat>, t: nat, n: nat): nat
    decreases n
  {
    if n == 0 then 0 else 2 * Number(bits, t, n - 1) + BitIn(bits, t + n - 1)
  }

  lemma {:induction false} NumberBound(bits: seq<nat>, t: nat, n: nat)
    ensures Number(bits, t, n) < Pow2(n)
    decreases n
  {
    hide BitIn;
    if n == 0 {
    } else {
      NumberBound(bits, t, n - 1);
    }
  }

  lemma {:induction false} BitOfNumber(bits: seq<nat>, t: nat, n: nat, k: nat)
    requires k < n
    ensures BitOf(Number(bits, t, n), n - 1 - k) == BitIn(bits, t + k)
    decreases n
  {
    hide BitIn;
    if k >= n - 1 {
    } else {
      ShrFront(Number(bits, t, n), n - 1 - k);
      BitOfNumber(bits, t, n - 1, k);
    }
  }

  function ByteOf(bits: seq<nat>, t: nat): Byte {
    NumberBound(bits, t, 8);
    Pow2Table();
    Number(bits, t, 8)
  }

  /** The bits as bytes, filled up with zeros. */
  function ToBytes(bits: seq<nat>): (r: seq<Byte>)
    ensures |r| == (|bits| + 7) / 8 && forall b :: 0 <= b < |r| ==> r[b] == ByteOf(bits, 8 * b)
  {
    seq((|bits| + 7) / 8, b requires 0 <= b < (|bits| + 7) / 8 => ByteOf(bits, 8 * b))
  }

  lemma StreamOfBytes(bits: seq<nat>, t: nat)
    requires t < |bits|
    ensures StreamBit(ToBytes(bits), t) == BitIn(bits, t)
  {
    hide BitIn, BitOf, Number;
    assert t == 8 * (t / 8) + t % 8;
    BitOfNumber(bits, 8 * (t / 8), 8, t % 8);
  }

  /** A row of samples, packed. */
  function Packed(samples: seq<nat>, depth: nat): seq<Byte> {
    ToBytes(BitsOf(samples, depth))
  }

  lemma PackedBit(samples: seq<nat>, depth: nat, i: nat, m: nat)
    requires i < |samples| && m < depth
    ensures StreamBit(Packed(samples, depth), Times(i, depth) + m) == BitOf(samples[i], depth - 1 - m)
  {
    hide StreamBit, ToBytes, BitOf, Times;
    var parts := seq(|samples|, i requires 0 <= i < |samples| => SampleBits(samples[i], depth));
    FlatAt(parts, depth, i, m);
    StreamOfBytes(BitsOf(samples, depth), Times(i, depth) + m);
  }

  lemma PackedLength(samples: seq<nat>, depth: nat)
    ensures |Packed(samples, depth)| == (Times(|samples|, depth) + 7) / 8
  {
    FlatLength(seq(|samples|, i requires 0 <= i < |samples| => SampleBits(samples[i], depth)), depth);
  }

  /** Reading a packed sample gives it back. */
  lemma PackedSample(samples: seq<nat>, depth: nat, i: nat)
    requires i < |samples| && samples[i] < Pow2(depth)
    ensures Big(Packed(samples, depth), Times(i, depth), depth) == samples[i]
  {
    hide Packed, Big, Times;
    ShrBound(samples[i], 0, depth);
    PackedTop(samples, depth, i, depth);
  }

  lemma {:induction false} PackedTop(samples: seq<nat>, depth: nat, i: nat, m: nat)
    requires i < |samples| && samples[i] < Pow2(depth) && m <= depth
    ensures Big(Packed(samples, depth), Times(i, depth), m) == Shr(samples[i], depth - m)
    decreases m
  {
    hide Packed, Times, StreamBit;
    if m == 0 {
      ShrBound(samples[i], 0, depth);
    } else {
      PackedTop(samples, depth, i, m - 1);
      PackedBit(samples, depth, i, m - 1);
    }
  }

  // ---------- a row of pixels ----------

  /** Each pixel has a sample for each channel. */
  ghost predicate PixelsOk(f: Format, pixels: seq<seq<nat>>) {
    && Equal(pixels, f.imgN)
    && forall i, k :: 0 <= i < |pixels| && 0 <= k < f.imgN ==> pixels[i][k] < Pow2(f.depth)
  }

  function PackedRow(f: Format, pixels: seq<seq<nat>>): seq<Byte> {
    Packed(Flat(pixels), f.depth)
  }

  function Channel(pixel: seq<nat>, c: nat): nat {
    if c < |pixel| then pixel[c] else 0
  }

  /** The largest sample of a depth below eight. */
  function Largest(depth: nat): (n: nat)
    ensures n >= 1
  {
    if depth == 1 then 1 else if depth == 2 then 3 else 15
  }

  lemma Scaling(v: nat, depth: nat)
    requires SmallDepth(depth)
    ensures ScaleOf(depth, true) * v == v * 255 / Largest(depth) && ScaleOf(depth, false) == 1
  {
  }

  /** Byte k of a pixel in the output: its samples, gray levels scaled and 16 bits high byte first, and opaque alpha. */
  function Shown(f: Format, pixel: seq<nat>, k: nat): int
    requires f.Ok()
  {
    if k >= f.N() then 255
    else if f.depth < 8 then
      if f.gray then Channel(pixel, k) * 255 / Largest(f.depth) else Channel(pixel, k)
    else if f.depth == 8 then Channel(pixel, k)
    else if k % 2 == 0 then Channel(pixel, k / 2) / 256 else Channel(pixel, k / 2) % 256
  }

  lemma RowLength(f: Format, pixels: seq<seq<nat>>)
    requires f.Ok() && PixelsOk(f, pixels)
    ensures |Flat(pixels)| == Times(|pixels|, f.imgN) && |PackedRow(f, pixels)| == f.Width(|pixels|)
  {
    hide Times;
    FlatLength(pixels, f.imgN);
    PackedLength(Flat(pixels), f.depth);
  }

  lemma RowSample(f: Format, pixels: seq<seq<nat>>, i: nat, c: nat)
    requires f.Ok() && PixelsOk(f, pixels) && i < |pixels| && c < f.imgN
    ensures var t := Times(i, f.imgN) + c;
            t < Times(|pixels|, f.imgN) && Big(PackedRow(f, pixels), Times(t, f.depth), f.depth) == pixels[i][c]
  {
    hide Times, Big, Packed, Pow2;
    FlatAt(pixels, f.imgN, i, c);
    PackedSample(Flat(pixels), f.depth, Times(i, f.imgN) + c);
  }

  /** Two bytes are a number of 16 bits. */
  lemma TwoBytesAre(bytes: seq<Byte>, t: nat)
    ensures Big(bytes, 16 * t, 16) == 256 * ByteAt(bytes, 2 * t) + ByteAt(bytes, 2 * t + 1)
  {
    hide Big, ByteAt;
    BigByte(bytes, 2 * t);
    BigByte(bytes, 2 * t + 1);
    BigSplit(bytes, 16 * t, 8, 8);
    ShlIs(Big(bytes, 16 * t, 8), 8);
    Pow2Table();
  }

  /** The decoded contents of a packed row are its pixels. */
  lemma ContentShows(f: Format, pixels: seq<seq<nat>>, i: nat, k: nat)
    requires f.Ok() && PixelsOk(f, pixels) && i < |pixels| && k < f.N()
    ensures PixelByte(Content(f, |pixels|, PackedRow(f, pixels)), 0, f.N(), i, k) == Shown(f, pixels[i], k)
  {
    hide Times, Big, PackedRow, Pow2, ScaleOf;
    RowLength(f, pixels);
    if f.depth == 16 {
      WideSample(f, pixels, i, k);
    } else {
      var t := Times(i, f.imgN) + k;
      RowSample(f, pixels, i, k);
      if f.depth < 8 {
        Scaling(Channel(pixels[i], k), f.depth);
      }
      if f.depth == 8 {
        TimesIs(t, 8);
        BigByte(PackedRow(f, pixels), t);
        TimesIs(Times(|pixels|, f.imgN), 8);
      }
    }
  }

  lemma WideSample(f: Format, pixels: seq<seq<nat>>, i: nat, k: nat)
    requires f.Ok() && f.depth == 16 && PixelsOk(f, pixels) && i < |pixels| && k < f.N()
    requires |PackedRow(f, pixels)| == f.Width(|pixels|)
    ensures PixelByte(PackedRow(f, pixels), 0, f.N(), i, k) == Shown(f, pixels[i], k)
  {
    hide Times, Big, PackedRow, Pow2;
    var c, t := k / 2, Times(i, f.imgN) + k / 2;
    RowSample(f, pixels, i, c);
    TimesIs(t, 16);
    TimesIs(Times(|pixels|, f.imgN), 16);
    TwoBytesAre(PackedRow(f, pixels), t);
    TimesTwice(i, f.imgN);
  }

  // ---------- an interlaced image ----------

  /** An image: rows of pixels of samples. */
  type Image = seq<seq<seq<nat>>>

  ghost predicate ImageOk(f: Format, w: nat, h: nat, img: Image) {
    |img| == h && forall y :: 0 <= y < h ==> |img[y]| == w && PixelsOk(f, img[y])
  }

  /** The pixels of row j of pass p. */
  function PassPixelRow(img: Image, w: nat, p: nat, j: nat): (r: seq<seq<nat>>)
    requires p < 7
    ensures |r| == PassWidth(w, p)
  {
    seq(PassWidth(w, p), i requires 0 <= i < PassWidth(w, p) =>
      PixelAt(img, i * XSPC[p] + XORIG[p], j * YSPC[p] + YORIG[p]))
  }

  function PixelAt(img: Image, x: nat, y: nat): seq<nat> {
    if y < |img| && x < |img[y]| then img[y][x] else []
  }

  /** Pass p: its rows, packed, to be filtered by the given filters. */
  function SplitPass(f: Format, img: Image, w: nat, h: nat, p: nat, filters: seq<Byte>): (r: Pass)
    requires p < 7
    ensures |r.rows| == PassHeight(h, p) && r.filters == filters
    ensures forall j :: 0 <= j < PassHeight(h, p) ==> r.rows[j] == PackedRow(f, PassPixelRow(img, w, p, j))
  {
    Pass(seq(PassHeight(h, p), j requires 0 <= j < PassHeight(h, p) => PackedRow(f, PassPixelRow(img, w, p, j))),
      filters)
  }

  ghost predicate FiltersOk(h: nat, filters: seq<seq<Byte>>) {
    && |filters| == 7
    && forall p :: 0 <= p < 7 ==>
                     |filters[p]| == PassHeight(h, p) && forall j :: 0 <= j < |filters[p]| ==> filters[p][j] <= 4
  }

  function Split(f: Format, img: Image, w: nat, h: nat, filters: seq<seq<Byte>>): (r: seq<Pass>)
    requires |filters| == 7
    ensures |r| == 7 && forall p :: 0 <= p < 7 ==> r[p] == SplitPass(f, img, w, h, p, filters[p])
  {
    seq(7, p requires 0 <= p < 7 => SplitPass(f, img, w, h, p, filters[p]))
  }

  /** Sizes that the decoder admits, and small samples that fit beside their expansion. */
  predicate Admitted(f: Format, w: nat, h: nat)
    requires f.Ok()
  {
    1 <= w < BIG && 1 <= h < BIG && Representable(f, w, h) && (f.depth < 8 ==> f.imgN * f.depth <= 8)
  }

  lemma PassRowOk(f: Format, w: nat, h: nat, img: Image, p: nat, j: nat)
    requires f.Ok() && ImageOk(f, w, h, img) && w < BIG && h < BIG && p < 7 && j < PassHeight(h, p)
    ensures PixelsOk(f, PassPixelRow(img, w, p, j))
  {
    hide PassSize, Pow2, PixelAt;
    var row := PassPixelRow(img, w, p, j);
    forall i: nat | i < |row| ensures |row[i]| == f.imgN && forall k :: 0 <= k < f.imgN ==> row[i][k] < Pow2(f.depth) {
      PixelOfPass(w, h, p, i, j);
      PixelOk(f, w, h, img, i * XSPC[p] + XORIG[p], j * YSPC[p] + YORIG[p]);
    }
  }

  lemma PixelOk(f: Format, w: nat, h: nat, img: Image, x: nat, y: nat)
    requires f.Ok() && ImageOk(f, w, h, img) && x < w && y < h
    ensures var v := PixelAt(img, x, y);
            v == img[y][x] && |v| == f.imgN && forall k :: 0 <= k < f.imgN ==> v[k] < Pow2(f.depth)
  {
    hide Pow2;
    assert PixelsOk(f, img[y]);
  }

  lemma SizesMono(a: nat, b: nat, c: nat, add: nat, a': nat, b': nat)
    requires SizesValid(a, b, c, add) && a' <= a && b' <= b
    ensures SizesValid(a', b', c, add)
  {
    if b' > 0 {
      QuotientMono(0x7FFF_FFFF, b', b);
    }
    assert a' * b' <= a * b by {
      assert a' * b' <= a * b' <= a * b;
    }
    assert a' * b' * c <= a * b * c;
  }

  lemma QuotientMono(n: nat, b: nat, b': nat)
    requires 1 <= b <= b'
    ensures n / b' <= n / b
  {
    var q := n / b';
    assert q * b <= q * b' <= n;
    QuotientBound(q, b, n);
  }

  /** Small samples of a pass fit beside their expansion. */
  lemma WidthFits(f: Format, x: nat)
    requires f.Ok() && f.imgN * f.depth <= 8
    ensures f.Width(x) <= x
  {
    TimesIs(x, f.imgN);
    TimesIs(Times(x, f.imgN), f.depth);
    AtMostEight(x, f.imgN, f.depth);
  }

  lemma AtMostEight(x: nat, a: nat, b: nat)
    requires a * b <= 8
    ensures x * a * b <= 8 * x
  {
    assert x * a * b == x * (a * b);
  }

  lemma PassAdmitted(f: Format, w: nat, h: nat, p: nat)
    requires f.Ok() && Admitted(f, w, h) && p < 7
    ensures Representable(f, PassWidth(w, p), PassHeight(h, p))
    ensures f.depth < 8 ==> f.Width(PassWidth(w, p)) <= PassWidth(w, p)
  {
    hide PassSize, SizesValid, Times;
    PassIsSmaller(w, p, XORIG[p], XSPC[p]);
    PassIsSmaller(h, p, YORIG[p], YSPC[p]);
    SizesMono(w, h, f.Size(), 0, PassWidth(w, p), PassHeight(h, p));
    SizesMono(f.imgN, w, f.depth, 7, f.imgN, PassWidth(w, p));
    if f.depth < 8 {
      WidthFits(f, PassWidth(w, p));
    }
  }

  lemma SplitFits(f: Format, img: Image, w: nat, h: nat, filters: seq<seq<Byte>>)
    requires f.Ok() && Admitted(f, w, h) && ImageOk(f, w, h, img) && FiltersOk(h, filters)
    ensures PassesFit(f, w, h, Split(f, img, w, h, filters))
  {
    hide PassSize, PackedRow, Representable, Times, ImageOk, PassPixelRow, PixelsOk;
    forall p: nat | p < 7
      ensures PassFits(f, PassWidth(w, p), PassHeight(h, p), Split(f, img, w, h, filters)[p])
    {
      PassAdmitted(f, w, h, p);
      forall j: nat | j < PassHeight(h, p)
        ensures |PackedRow(f, PassPixelRow(img, w, p, j))| == f.Width(PassWidth(w, p))
      {
        PassRowOk(f, w, h, img, p, j);
        RowLength(f, PassPixelRow(img, w, p, j));
      }
    }
  }

  /** The file data of an interlaced image. */
  ghost function Interlaced(f: Format, img: Image, w: nat, h: nat, filters: seq<seq<Byte>>): seq<Byte>
    requires f.Ok() && Admitted(f, w, h) && ImageOk(f, w, h, img) && FiltersOk(h, filters)
  {
    SplitFits(f, img, w, h, filters);
    EncodedPasses(f, w, h, Split(f, img, w, h, filters), 7)
  }

  /** The image in o shows the pixels of img. */
  ghost predicate Shows(o: seq<Byte>, f: Format, img: Image, w: nat, h: nat)
    requires f.Ok()
  {
    forall x, y, k :: 0 <= x < w && 0 <= y < h && 0 <= k < f.Size() ==>
                        PixelByte(o, Times(y, f.Stride(w)), f.Size(), x, k) == Shown(f, PixelAt(img, x, y), k)
  }

  /** Every byte of every pixel of a pass comes back. */
  lemma PassShows(f: Format, img: Image, w: nat, h: nat, filters: seq<seq<Byte>>, p: nat, i: nat, j: nat, x: nat,
                  y: nat, k: nat)
    requires f.Ok() && Admitted(f, w, h) && ImageOk(f, w, h, img) && FiltersOk(h, filters)
    requires p < 7 && Holds(w, h, p, i, j, x, y)
    ensures PassByte(Interlaced(f, img, w, h, filters), f, w, h, p, i, j, k) == Shown(f, PixelAt(img, x, y), k)
  {
    hide PassSize, PackedRow, Times, ImageOk, RowOf, PassData, Content, PixelsOk, EncodedPasses, PassesFit, PassOk,
      Admitted, Shown, PixelAt, PixelByte;
    InBounds(f, w, h);
    SplitFits(f, img, w, h, filters);
    InterlacedRoundTrip(f, w, h, Split(f, img, w, h, filters), p);
    PassRowOk(f, w, h, img, p, j);
    if k < f.N() {
      ContentShows(f, PassPixelRow(img, w, p, j), i, k);
    } else {
      ShownAlpha(f, PixelAt(img, x, y), k);
    }
  }

  lemma InBounds(f: Format, w: nat, h: nat)
    requires f.Ok() && Admitted(f, w, h)
    ensures w < BIG && h < BIG && SizesValid(w, h, f.Size(), 0)
  {
  }

  lemma ShownAlpha(f: Format, pixel: seq<nat>, k: nat)
    requires f.Ok() && k >= f.N()
    ensures Shown(f, pixel, k) == 255
  {
  }

  /**
   Split an image into passes, pack and filter their rows in any way, and put them one behind the other: the decoder has
   everything it asks of the data, and whatever memory it leaves, by its contract, shows every pixel of the image.
   */
  lemma InterlacedImageComesBack(f: Format, img: Image, w: nat, h: nat, filters: seq<seq<Byte>>, o: seq<Byte>)
    requires f.Ok() && Admitted(f, w, h) && ImageOk(f, w, h, img) && FiltersOk(h, filters)
    ensures var raw := Interlaced(f, img, w, h, filters);
            && SizesValid(w, h, f.Size(), 0) && (forall p :: 0 <= p < 7 ==> PassOk(raw, f, w, h, p))
            && ((forall x, y :: 0 <= x < w && 0 <= y < h ==> PixelDone(o, raw, f, w, h, x, y)) ==>
              Shows(o, f, img, w, h))
  {
    hide PassSize, Times, ImageOk, PassOf, PixelsOk, EncodedPasses, PassesFit, PassOk, Admitted, Shows, SizesValid;
    var raw := Interlaced(f, img, w, h, filters);
    InBounds(f, w, h);
    SplitFits(f, img, w, h, filters);
    forall p: nat | p < 7 ensures PassOk(raw, f, w, h, p) {
      InterlacedRoundTrip(f, w, h, Split(f, img, w, h, filters), p);
    }
    if forall x, y :: 0 <= x < w && 0 <= y < h ==> PixelDone(o, raw, f, w, h, x, y) {
      DoneShows(f, img, w, h, filters, o);
    }
  }

  lemma DoneShows(f: Format, img: Image, w: nat, h: nat, filters: seq<seq<Byte>>, o: seq<Byte>)
    requires f.Ok() && Admitted(f, w, h) && ImageOk(f, w, h, img) && FiltersOk(h, filters)
    requires forall x, y :: 0 <= x < w && 0 <= y < h ==>
                              PixelDone(o, Interlaced(f, img, w, h, filters), f, w, h, x, y)
    ensures Shows(o, f, img, w, h)
  {
    hide PassSize, Times, ImageOk, PassOf, PassByte, Interlaced, Admitted, FiltersOk, Shown, PixelByte, PixelAt;
    InBounds(f, w, h);
    forall x, y, k | 0 <= x < w && 0 <= y < h && 0 <= k < f.Size()
      ensures PixelByte(o, Times(y, f.Stride(w)), f.Size(), x, k) == Shown(f, PixelAt(img, x, y), k)
    {
      var p := PassOf(x, y);
      EveryPixelInOnePass(w, h, x, y);
      PassShows(f, img, w, h, filters, p, x / XSPC[p], y / YSPC[p], x, y, k);
      assert PixelDone(o, Interlaced(f, img, w, h, filters), f, w, h, x, y);
    }
  }

  // ---------- an image in one piece ----------

  function PackedRows(f: Format, img: Image): (r: seq<seq<Byte>>)
    ensures |r| == |img| && forall j :: 0 <= j < |r| ==> r[j] == PackedRow(f, img[j])
  {
    seq(|img|, j requires 0 <= j < |img| => PackedRow(f, img[j]))
  }

  lemma PackedRowsFit(f: Format, img: Image, w: nat, h: nat)
    requires f.Ok() && w >= 1 && ImageOk(f, w, h, img)
    ensures f.Bpp() >= 1 && forall j :: 0 <= j < h ==> |PackedRows(f, img)[j]| == f.Width(w)
  {
    hide PackedRow, PixelsOk;
    forall j: nat | j < h ensures |PackedRows(f, img)[j]| == f.Width(w) {
      RowLength(f, img[j]);
    }
  }

  /** The same for an image that is not interlaced. */
  lemma ImageComesBack(f: Format, img: Image, w: nat, h: nat, filters: seq<Byte>, o: seq<Byte>)
    requires f.Ok() && Admitted(f, w, h) && ImageOk(f, w, h, img)
    requires |filters| == h && forall j :: 0 <= j < h ==> filters[j] <= 4
    ensures f.Bpp() >= 1 && forall j :: 0 <= j < h ==> |PackedRows(f, img)[j]| == f.Width(w)
    ensures var raw := Encoded(PackedRows(f, img), filters, f.Width(w), f.Bpp(), h);
            Decodable(f, raw, w, h) && (RowsFinished(o, raw, f, w, h) ==> Shows(o, f, img, w, h))
  {
    hide Times, SizesValid, PackedRow, PixelsOk, Encoded, RowOf, Shows, RowsFinished, GoodFilter;
    PackedRowsFit(f, img, w, h);
    var raw := Encoded(PackedRows(f, img), filters, f.Width(w), f.Bpp(), h);
    if f.depth < 8 {
      WidthFits(f, w);
    }
    EncodedIsDecodable(f, w, PackedRows(f, img), filters, raw);
    if RowsFinished(o, raw, f, w, h) {
      FinishedShows(f, img, w, h, raw, o);
    }
  }

  lemma FinishedShows(f: Format, img: Image, w: nat, h: nat, raw: seq<Byte>, o: seq<Byte>)
    requires f.Ok() && ImageOk(f, w, h, img) && RowsFinished(o, raw, f, w, h)
    requires forall j :: 0 <= j < h ==> RowOf(raw, f, w, j) == PackedRow(f, img[j])
    ensures Shows(o, f, img, w, h)
  {
    hide Times, PackedRow, PixelsOk, RowOf, Shown, Content, RowIs, PixelByte;
    forall x, y, k | 0 <= x < w && 0 <= y < h && 0 <= k < f.Size()
      ensures PixelByte(o, Times(y, f.Stride(w)), f.Size(), x, k) == Shown(f, PixelAt(img, x, y), k)
    {
      assert FinishedRow(o, Times(y, f.Stride(w)), f, w, RowOf(raw, f, w, y));
      FinishedByte(o, Times(y, f.Stride(w)), Content(f, w, PackedRow(f, img[y])), f.N(), f.A(), w, x, k);
      if k < f.N() {
        ContentShows(f, img[y], x, k);
      } else {
        ShownAlpha(f, img[y][x], k);
      }
    }
  }
}
