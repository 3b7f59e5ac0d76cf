/** Putting the passes of an interlaced image together (lib/stb_image.h, stbi__create_png_image). */
module PngInterlace {
  import opened Bits
  import opened PngFilters
  import opened PngRows
  import opened PngImage
  import opened PngBytes
  import opened PngPasses

  const BIG: nat := 0xFFFF_FFF8

  function PassLength(f: Format, x: nat, y: nat): nat {
    if x == 0 || y == 0 then 0 else Times(y, f.Width(x) + 1)
  }

  /** Where the data of pass p starts. */
  function PassStart(f: Format, w: nat, h: nat, p: nat): nat
    requires p <= 7
  {
    if p == 0 then 0 else PassStart(f, w, h, p - 1) + PassLength(f, PassWidth(w, p - 1), PassHeight(h, p - 1))
  }

  function PassData(raw: seq<Byte>, f: Format, w: nat, h: nat, p: nat): seq<Byte>
    requires p <= 7
  {
    if PassStart(f, w, h, p) <= |raw| then raw[PassStart(f, w, h, p)..] else []
  }

  /** Pass p is empty or can be decoded. */
  predicate PassOk(raw: seq<Byte>, f: Format, w: nat, h: nat, p: nat)
    requires f.Ok() && p < 7
  {
    var x, y := PassWidth(w, p), PassHeight(h, p);
    x > 0 && y > 0 ==> Representable(f, x, y) && Decodable(f, PassData(raw, f, w, h, p), x, y)
  }

  /** Byte k of pixel i of row j of pass p, with opaque alpha where the file has none. */
  function PassByte(raw: seq<Byte>, f: Format, w: nat, h: nat, p: nat, i: nat, j: nat, k: nat): Byte
    requires f.Ok() && p < 7
  {
    var x := PassWidth(w, p);
    if k < f.N() then PixelByte(Content(f, x, RowOf(PassData(raw, f, w, h, p), f, x, j)), 0, f.N(), i, k) else 255
  }

  /** Pixel (x, y) of the image is the pixel of the pass that holds it. */
  ghost predicate PixelDone(o: seq<Byte>, raw: seq<Byte>, f: Format, w: nat, h: nat, x: nat, y: nat)
    requires f.Ok()
  {
    var p := PassOf(x, y);
    forall k :: 0 <= k < f.Size() ==>
                  PixelByte(o, Times(y, f.Stride(w)), f.Size(), x, k)
                  == PassByte(raw, f, w, h, p, x / XSPC[p], y / YSPC[p], k)
  }

  /** The pixel comes before pixel i of row j of pass p. */
  predicate Earlier(x: nat, y: nat, p: nat, j: nat, i: nat) {
    var q := PassOf(x, y);
    q < p || (q == p && (y / YSPC[q] < j || (y / YSPC[q] == j && x / XSPC[q] < i)))
  }

  ghost predicate DoneBefore(o: seq<Byte>, raw: seq<Byte>, f: Format, w: nat, h: nat, p: nat, j: nat, i: nat)
    requires f.Ok()
  {
    forall x, y :: 0 <= x < w && 0 <= y < h && Earlier(x, y, p, j, i) ==> PixelDone(o, raw, f, w, h, x, y)
  }

  // ---------- one pass ----------

  method CopyPixel(final: array<Byte>, at: nat, src: array<Byte>, from: nat, size: nat)
    requires final != src && at + size <= final.Length && from + size <= src.Length
    modifies final
    ensures OnlyIn(final, at, at + size)
    ensures final[at..at + size] == src[from..from + size]
  {
    var k := 0;
    while k < size
      invariant k <= size && OnlyIn(final, at, at + k)
      invariant final[at..at + k] == src[from..from + k]
    {
      final[at + k] := src[from + k];
      k := k + 1;
    }
  }

  /** Copies the pixels of a decoded pass to their places. */
  method CopyPass(final: array<Byte>, src: array<Byte>, ghost raw: seq<Byte>, f: Format, w: nat, h: nat, p: nat,
                  ghost swap: bool)
    requires f.Ok() && p < 7 && (swap ==> f.depth == 16) && w < BIG && h < BIG && final != src &&
             final.Length == Times(h, f.Stride(w)) && PassWidth(w, p) > 0
    requires var x, y := PassWidth(w, p), PassHeight(h, p);
             src.Length == Times(y, f.Stride(x)) &&
               RowsFinished(InFileOrder(src[..], swap), PassData(raw, f, w, h, p), f, x, y)
    requires DoneBefore(InFileOrder(final[..], swap), raw, f, w, h, p, 0, 0)
    modifies final
    ensures DoneBefore(InFileOrder(final[..], swap), raw, f, w, h, p + 1, 0, 0)
  {
    hide Times, PassSize, RowsFinished, DoneBefore, PassOf, PassStart, InFileOrder;
    var x, y := PassWidth(w, p), PassHeight(h, p);
    var j := 0;
    while j < y
      invariant j <= y && DoneBefore(InFileOrder(final[..], swap), raw, f, w, h, p, j, 0)
    {
      CopyPassRow(final, src, raw, f, w, h, p, j, swap);
      RowDone(InFileOrder(final[..], swap), raw, f, w, h, p, j);
      j := j + 1;
    }
    PassDone(InFileOrder(final[..], swap), raw, f, w, h, p);
  }

  method CopyPassRow(final: array<Byte>, src: array<Byte>, ghost raw: seq<Byte>, f: Format, w: nat, h: nat, p: nat,
                     j: nat, ghost swap: bool)
    requires f.Ok() && p < 7 && (swap ==> f.depth == 16) && w < BIG && h < BIG && final != src &&
             final.Length == Times(h, f.Stride(w))
    requires var x, y := PassWidth(w, p), PassHeight(h, p);
             j < y && src.Length == Times(y, f.Stride(x)) &&
               RowsFinished(InFileOrder(src[..], swap), PassData(raw, f, w, h, p), f, x, y)
    requires DoneBefore(InFileOrder(final[..], swap), raw, f, w, h, p, j, 0)
    modifies final
    ensures DoneBefore(InFileOrder(final[..], swap), raw, f, w, h, p, j, PassWidth(w, p))
  {
    hide Times, PassSize, RowsFinished, DoneBefore, PassOf, PassStart, PixelDone, InFileOrder;
    var x, size := PassWidth(w, p), f.Size();
    var i := 0;
    while i < x
      invariant i <= x && DoneBefore(InFileOrder(final[..], swap), raw, f, w, h, p, j, i)
    {
      var outY, outX := j * YSPC[p] + YORIG[p], i * XSPC[p] + XORIG[p];
      PixelOfPass(w, h, p, i, j);
      PixelFits(h, w, size, outY, outX);
      PixelFits(PassHeight(h, p), x, size, j, i);
      ghost var o := final[..];
      var at, from := Times(outY, f.Stride(w)) + Times(outX, size), Times(j, f.Stride(x)) + Times(i, size);
      CopyPixel(final, at, src, from, size);
      WholeSamples(f, w, h, outX, outY, swap);
      WholeSamples(f, x, PassHeight(h, p), i, j, swap);
      SameSamples(final[..], src[..], at, from, size, swap);
      OtherSamples(o, final[..], at, size, swap);
      CopiedPixel(InFileOrder(final[..], swap), InFileOrder(src[..], swap), raw, f, w, h, p, i, j, outX, outY, at,
        from);
      OneMorePixel(InFileOrder(o, swap), InFileOrder(final[..], swap), raw, f, w, h, p, j, i, outX, outY);
      i := i + 1;
    }
  }

  /** Pixels of 16-bit samples start at whole samples. */
  lemma WholeSamples(f: Format, w: nat, h: nat, x: nat, y: nat, swap: bool)
    requires f.Ok() && (swap ==> f.depth == 16)
    ensures swap ==> f.Size() % 2 == 0 && (Times(y, f.Stride(w)) + Times(x, f.Size())) % 2 == 0
    ensures swap ==> Times(h, f.Stride(w)) % 2 == 0
  {
    if swap {
      TimesEven(w, f.Size());
      TimesEven(x, f.Size());
      TimesEven(y, f.Stride(w));
      TimesEven(h, f.Stride(w));
    }
  }

  /** A pixel's bytes are inside the image. */
  lemma PixelFits(h: nat, w: nat, size: nat, y: nat, x: nat)
    requires x < w && y < h
    ensures Times(y, Times(w, size)) + Times(x, size) + size <= Times(y, Times(w, size)) + Times(w, size)
    ensures Times(y, Times(w, size)) + Times(w, size) <= Times(h, Times(w, size))
  {
    hide Times;
    TimesMono(y, h, Times(w, size));
    TimesMono(x, w, size);
  }

  lemma FinishedByte(o: seq<Byte>, row: nat, s: seq<Byte>, n: nat, a: nat, x: nat, i: nat, k: nat)
    requires a <= 2 && RowIs(o, row, s, n, a, x) && i < x && k < n + a
    ensures PixelByte(o, row, n + a, i, k) == if k < n then PixelByte(s, 0, n, i, k) else 255
  {
    hide PixelByte;
  }

  lemma CopiedPixel(o: seq<Byte>, src: seq<Byte>, raw: seq<Byte>, f: Format, w: nat, h: nat, p: nat, i: nat, j: nat,
                    x: nat, y: nat, at: nat, from: nat)
    requires f.Ok() && p < 7 && PassOf(x, y) == p && x / XSPC[p] == i && y / YSPC[p] == j
    requires i < PassWidth(w, p) && j < PassHeight(h, p)
    requires RowsFinished(src, PassData(raw, f, w, h, p), f, PassWidth(w, p), PassHeight(h, p))
    requires at == Times(y, f.Stride(w)) + Times(x, f.Size()) && at + f.Size() <= |o|
    requires from == Times(j, f.Stride(PassWidth(w, p))) + Times(i, f.Size()) && from + f.Size() <= |src|
    requires o[at..at + f.Size()] == src[from..from + f.Size()]
    ensures PixelDone(o, raw, f, w, h, x, y)
  {
    hide Times, PassSize, PassOf, Content, RowOf, PassStart, RowIs;
    var size, pw := f.Size(), PassWidth(w, p);
    var recon := RowOf(PassData(raw, f, w, h, p), f, pw, j);
    assert FinishedRow(src, Times(j, f.Stride(pw)), f, pw, recon);
    forall k | 0 <= k < size
      ensures PixelByte(o, Times(y, f.Stride(w)), size, x, k) == PassByte(raw, f, w, h, p, i, j, k)
    {
      FinishedByte(src, Times(j, f.Stride(pw)), Content(f, pw, recon), f.N(), f.A(), pw, i, k);
      assert o[at + k] == o[at..at + size][k] == src[from..from + size][k] == src[from + k];
    }
  }

  /** Writing another pixel leaves a pixel alone. */
  lemma OtherPixel(o: seq<Byte>, o': seq<Byte>, raw: seq<Byte>, f: Format, w: nat, h: nat, x: nat, y: nat, ox: nat,
                   oy: nat, at: nat)
    requires f.Ok() && |o| == |o'| == Times(h, f.Stride(w)) && x < w && y < h && ox < w && oy < h &&
             (x != ox || y != oy)
    requires at == Times(oy, f.Stride(w)) + Times(ox, f.Size())
    requires forall i :: 0 <= i < |o| && !(at <= i < at + f.Size()) ==> o'[i] == o[i]
    requires PixelDone(o, raw, f, w, h, x, y)
    ensures PixelDone(o', raw, f, w, h, x, y)
  {
    hide Times, PassByte, PassOf;
    var size, p := f.Size(), PassOf(x, y);
    PixelFits(h, w, size, y, x);
    PixelFits(h, w, size, oy, ox);
    Apart(y, oy, Times(w, size));
    Apart(x, ox, size);
    forall k | 0 <= k < size
      ensures PixelByte(o', Times(y, f.Stride(w)), size, x, k) == PassByte(raw, f, w, h, p, x / XSPC[p], y / YSPC[p], k)
    {
      assert PixelByte(o, Times(y, f.Stride(w)), size, x, k) == PassByte(raw, f, w, h, p, x / XSPC[p], y / YSPC[p], k);
    }
  }

  lemma OneMorePixel(o: seq<Byte>, o': seq<Byte>, raw: seq<Byte>, f: Format, w: nat, h: nat, p: nat, j: nat, i: nat,
                     ox: nat, oy: nat)
    requires f.Ok() && p < 7 && w < BIG && h < BIG && |o| == |o'| == Times(h, f.Stride(w)) && ox < w && oy < h
    requires ox == i * XSPC[p] + XORIG[p] && oy == j * YSPC[p] + YORIG[p]
    requires var at := Times(oy, f.Stride(w)) + Times(ox, f.Size());
             forall i :: 0 <= i < |o| && !(at <= i < at + f.Size()) ==> o'[i] == o[i]
    requires DoneBefore(o, raw, f, w, h, p, j, i) && PixelDone(o', raw, f, w, h, ox, oy)
    ensures DoneBefore(o', raw, f, w, h, p, j, i + 1)
  {
    hide Times, PassSize, PassOf, PixelDone;
    forall x, y | 0 <= x < w && 0 <= y < h && Earlier(x, y, p, j, i + 1) ensures PixelDone(o', raw, f, w, h, x, y) {
      EveryPixelInOnePass(w, h, x, y);
      if x != ox || y != oy {
        assert Earlier(x, y, p, j, i);
        OtherPixel(o, o', raw, f, w, h, x, y, ox, oy, Times(oy, f.Stride(w)) + Times(ox, f.Size()));
      }
    }
  }

  lemma RowDone(o: seq<Byte>, raw: seq<Byte>, f: Format, w: nat, h: nat, p: nat, j: nat)
    requires f.Ok() && p < 7 && w < BIG && h < BIG && DoneBefore(o, raw, f, w, h, p, j, PassWidth(w, p))
    ensures DoneBefore(o, raw, f, w, h, p, j + 1, 0)
  {
    hide Times, PassSize, PassOf, PixelDone;
    forall x, y | 0 <= x < w && 0 <= y < h && Earlier(x, y, p, j + 1, 0) ensures PixelDone(o, raw, f, w, h, x, y) {
      EveryPixelInOnePass(w, h, x, y);
      assert Earlier(x, y, p, j, PassWidth(w, p));
    }
  }

  /** A pass is done after its last row; at once, if it is empty. */
  lemma PassDone(o: seq<Byte>, raw: seq<Byte>, f: Format, w: nat, h: nat, p: nat)
    requires f.Ok() && p < 7 && w < BIG && h < BIG
    requires DoneBefore(o, raw, f, w, h, p, if PassWidth(w, p) == 0 then 0 else PassHeight(h, p), 0)
    ensures DoneBefore(o, raw, f, w, h, p + 1, 0, 0)
  {
    hide Times, PassSize, PassOf, PixelDone;
    forall x, y | 0 <= x < w && 0 <= y < h && Earlier(x, y, p + 1, 0, 0) ensures PixelDone(o, raw, f, w, h, x, y) {
      EveryPixelInOnePass(w, h, x, y);
      assert Earlier(x, y, p, if PassWidth(w, p) == 0 then 0 else PassHeight(h, p), 0);
    }
  }

  // ---------- the image ----------

  /**
   Decodes an image. An interlaced one fails exactly when it is too large or some pass fails; otherwise every pixel is
   the pixel of the pass that holds it, with samples of 16 bits in the byte order of the machine.
   */
  method CreateImage(raw: seq<Byte>, f: Format, w: nat, h: nat, interlaced: bool, m: Machine)
    returns (ok: bool, out: array<Byte>)
    requires f.Ok() && 1 <= w < BIG && 1 <= h < BIG
    ensures fresh(out)
    ensures !interlaced ==> (ok <==> Representable(f, w, h) && Allocatable(f, w, h, m) && Decodable(f, raw, w, h))
    ensures !interlaced && ok ==> RowsFinished(InFileOrder(out[..], Swaps(f, m)), raw, f, w, h)
    ensures interlaced ==>
              (ok <==> && SizesValid(w, h, f.Size(), 0) && Allocatable(f, w, h, m)
                       && forall p :: 0 <= p < 7 ==> PassOk(raw, f, w, h, p))
    ensures interlaced && ok ==>
              forall x, y :: 0 <= x < w && 0 <= y < h ==>
                               PixelDone(InFileOrder(out[..], Swaps(f, m)), raw, f, w, h, x, y)
    ensures ok ==> out.Length == Times(h, f.Stride(w))
  {
    hide Times, PassSize, RowsFinished, DoneBefore, PassOf, SizesValid, Decodable, Representable, PassStart;
    hide PixelDone, InFileOrder;
    if !interlaced {
      ok, out := CreateImageRaw(raw, f, w, h, m);
      return;
    }
    if !SizesValid(w, h, f.Size(), 0) || Times(h, f.Stride(w)) > m.heapLimit {
      out := new Byte[0];
      return false, out;
    }
    out := new Byte[Times(h, f.Stride(w))];
    ghost var swap := Swaps(f, m);
    StartEmpty(InFileOrder(out[..], swap), raw, f, w, h);
    var p, at := 0, 0;
    while p < 7
      invariant p <= 7 && at == PassStart(f, w, h, p) <= |raw|
      invariant forall q :: 0 <= q < p ==> PassOk(raw, f, w, h, q)
      invariant DoneBefore(InFileOrder(out[..], swap), raw, f, w, h, p, 0, 0)
    {
      var x, y := PassWidth(w, p), PassHeight(h, p);
      StartStep(f, w, h, p);
      if x > 0 && y > 0 {
        var good, image := CreateImageRaw(raw[at..], f, x, y, m);
        PassAllocatable(f, w, h, p, m);
        if !good {
          assert !PassOk(raw, f, w, h, p);
          return false, out;
        }
        DataLength(f, raw[at..], x, y);
        CopyPass(out, image, raw, f, w, h, p, swap);
        at := at + Times(y, f.Width(x) + 1);
      } else {
        PassDone(InFileOrder(out[..], swap), raw, f, w, h, p);
      }
      p := p + 1;
    }
    AllDone(InFileOrder(out[..], swap), raw, f, w, h);
    ok := true;
  }

  /** A pass is no larger than the image. */
  lemma PassAllocatable(f: Format, w: nat, h: nat, p: nat, m: Machine)
    requires f.Ok() && p < 7 && w < BIG && h < BIG && Allocatable(f, w, h, m)
    ensures Allocatable(f, PassWidth(w, p), PassHeight(h, p), m)
  {
    hide Times, PassSize;
    var x, y := PassWidth(w, p), PassHeight(h, p);
    PassIsSmaller(w, p, XORIG[p], XSPC[p]);
    PassIsSmaller(h, p, YORIG[p], YSPC[p]);
    FewerIsLess(x, w, f.Size());
    FewerIsLess(y, h, f.Stride(w));
    TimesGrows(y, f.Stride(x), f.Stride(w));
  }

  lemma PassIsSmaller(n: nat, p: nat, orig: nat, spc: nat)
    requires p < 7 && n < BIG && ((orig == XORIG[p] && spc == XSPC[p]) || (orig == YORIG[p] && spc == YSPC[p]))
    ensures spc > 0 && PassSize(n, orig, spc) <= n
  {
    hide PassSize;
    Passes(p);
    PassSizeIs(n, orig, spc);
  }

  lemma FewerIsLess(a: nat, b: nat, size: nat)
    requires a <= b
    ensures Times(a, size) <= Times(b, size)
  {
    if a < b {
      TimesMono(a, b, size);
    }
  }

  lemma StartEmpty(o: seq<Byte>, raw: seq<Byte>, f: Format, w: nat, h: nat)
    requires f.Ok()
    ensures DoneBefore(o, raw, f, w, h, 0, 0, 0) && PassStart(f, w, h, 0) == 0
  {
    hide PixelDone, PassOf;
  }

  lemma StartStep(f: Format, w: nat, h: nat, p: nat)
    requires p < 7
    ensures PassStart(f, w, h, p + 1) == PassStart(f, w, h, p) + PassLength(f, PassWidth(w, p), PassHeight(h, p))
  {
  }

  lemma DataLength(f: Format, raw: seq<Byte>, x: nat, y: nat)
    requires f.Ok() && Decodable(f, raw, x, y)
    ensures Times(y, f.Width(x) + 1) <= |raw|
  {
  }

  lemma AllDone(o: seq<Byte>, raw: seq<Byte>, f: Format, w: nat, h: nat)
    requires f.Ok() && DoneBefore(o, raw, f, w, h, 7, 0, 0)
    ensures forall x, y :: 0 <= x < w && 0 <= y < h ==> PixelDone(o, raw, f, w, h, x, y)
  {
    hide PixelDone;
    forall x, y | 0 <= x < w && 0 <= y < h ensures PixelDone(o, raw, f, w, h, x, y) {
      assert Earlier(x, y, 7, 0, 0);
    }
  }

  // ---------- round trip ----------

  /** Rows and filter types of a pass. */
  datatype Pass = Pass(rows: seq<seq<Byte>>, filters: seq<Byte>)

  predicate PassFits(f: Format, x: nat, y: nat, pass: Pass)
    requires f.Ok()
  {
    && |pass.rows| == |pass.filters| == y && (forall j :: 0 <= j < y ==> |pass.rows[j]| == f.Width(x))
    && (forall j :: 0 <= j < y ==> pass.filters[j] <= 4)
    && (x > 0 && y > 0 ==> Representable(f, x, y) && (f.depth < 8 ==> f.Width(x) <= x))
  }

  predicate PassesFit(f: Format, w: nat, h: nat, passes: seq<Pass>)
    requires f.Ok()
  {
    |passes| == 7 && forall p :: 0 <= p < 7 ==> PassFits(f, PassWidth(w, p), PassHeight(h, p), passes[p])
  }

  function EncodedPass(f: Format, x: nat, pass: Pass): seq<Byte>
    requires f.Ok() && PassFits(f, x, |pass.rows|, pass)
  {
    if x == 0 then [] else Encoded(pass.rows, pass.filters, f.Width(x), f.Bpp(), |pass.rows|)
  }

  /** The data of the first n passes. */
  function EncodedPasses(f: Format, w: nat, h: nat, passes: seq<Pass>, n: nat): (r: seq<Byte>)
    requires f.Ok() && PassesFit(f, w, h, passes) && n <= 7
  {
    if n == 0 then [] else EncodedPasses(f, w, h, passes, n - 1) + EncodedPass(f, PassWidth(w, n - 1), passes[n - 1])
  }

  lemma EncodedPassLength(f: Format, x: nat, y: nat, pass: Pass)
    requires f.Ok() && PassFits(f, x, y, pass)
    ensures |EncodedPass(f, x, pass)| == PassLength(f, x, y)
  {
    TimesNone(f.Width(x) + 1);
  }

  lemma {:induction false} EncodedPassesSplit(f: Format, w: nat, h: nat, passes: seq<Pass>, m: nat, n: nat)
    requires f.Ok() && PassesFit(f, w, h, passes) && m < n <= 7
    ensures var raw, at := EncodedPasses(f, w, h, passes, n), PassStart(f, w, h, m);
            && at == |EncodedPasses(f, w, h, passes, m)|
            && at <= |raw| && EncodedPass(f, PassWidth(w, m), passes[m]) <= raw[at..]
    decreases n, m
  {
    hide Times, PassSize, EncodedPass, PassLength, PassFits;
    if m > 0 {
      EncodedPassesSplit(f, w, h, passes, m - 1, m);
      EncodedPassLength(f, PassWidth(w, m - 1), PassHeight(h, m - 1), passes[m - 1]);
    }
    if m >= n - 1 {
    } else {
      EncodedPassesSplit(f, w, h, passes, m, n - 1);
    }
  }

  /**
   Seven passes, filtered and put one behind the other, are decodable, and every pass is decoded to its rows,
   whatever filters were chosen.
   */
  lemma InterlacedRoundTrip(f: Format, w: nat, h: nat, passes: seq<Pass>, p: nat)
    requires f.Ok() && PassesFit(f, w, h, passes) && p < 7
    ensures var raw := EncodedPasses(f, w, h, passes, 7);
            && PassOk(raw, f, w, h, p)
            && (PassWidth(w, p) > 0 ==>
                  forall j :: 0 <= j < PassHeight(h, p) ==>
                                RowOf(PassData(raw, f, w, h, p), f, PassWidth(w, p), j) == passes[p].rows[j])
  {
    hide Times, PassSize, EncodedPasses, PassStart, RowOf, Decodable, Representable, Encoded;
    EncodedPassesSplit(f, w, h, passes, p, 7);
    var x, y := PassWidth(w, p), PassHeight(h, p);
    if x > 0 && y > 0 {
      EncodedIsDecodable(f, x, passes[p].rows, passes[p].filters,
        PassData(EncodedPasses(f, w, h, passes, 7), f, w, h, p));
    }
  }
}
