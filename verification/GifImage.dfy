/**
 From a GIF file to pixels (lib/stb_image.h, stbi__gif_parse_colortable and stbi__gif_load_next): colour tables, the
 transparent index, and what the first image of a file shows, said by the bytes of the file.
 */
module GifImage {
  import opened Wrappers
  import opened Bits
  import opened GifSpec
  import opened GifCanvas
  import opened GifLoader
  import opened Contexts

  // ---------- colour tables ----------

  /** A colour table in the file: where it starts, its number of entries, and the transparent one if not negative. */
  datatype ColourTable = ColourTable(at: nat, n: nat, transparent: int)

  /** Entry i in memory: the three bytes of the file back to front, and how opaque it is. */
  predicate EntryIs(pal: seq<Byte>, input: seq<Byte>, t: ColourTable, i: nat) {
    && 4 * i + 4 <= |pal|
    && pal[4 * i + 2] == ByteAt(input, t.at + 3 * i) && pal[4 * i + 1] == ByteAt(input, t.at + 3 * i + 1)
    && pal[4 * i] == ByteAt(input, t.at + 3 * i + 2) && pal[4 * i + 3] == if t.transparent == i then 0 else 255
  }

  predicate Holds(pal: seq<Byte>, input: seq<Byte>, t: ColourTable) {
    |pal| == 1024 && t.n <= 256 && forall i: nat :: i < t.n ==> EntryIs(pal, input, t, i)
  }

  /** Reads a colour table of n entries. */
  method ParseColorTable(s: Context, pal: array<Byte>, n: nat, transp: int)
    requires s.Valid() && pal.Length == 1024 && n <= 256
    modifies s, pal
    ensures s.Valid() && s.At() == old(s.At()) + 3 * n
    ensures Holds(pal[..], s.input, ColourTable(old(s.At()), n, transp))
  {
    hide ByteAt;
    ghost var t := ColourTable(s.At(), n, transp);
    var i := 0;
    while i < n
      invariant i <= n && s.Valid() && s.At() == t.at + 3 * i
      invariant forall k: nat :: k < i ==> EntryIs(pal[..], s.input, t, k)
    {
      ghost var before := pal[..];
      var b := s.Get8();
      pal[4 * i + 2] := b;
      b := s.Get8();
      pal[4 * i + 1] := b;
      b := s.Get8();
      pal[4 * i] := b;
      pal[4 * i + 3] := if transp == i then 0 else 255;
      forall k: nat | k < i ensures EntryIs(pal[..], s.input, t, k) {
        assert EntryIs(before, s.input, t, k);
      }
      i := i + 1;
    }
  }

  /** Takes over the transparent index of a graphic control extension into the global table. */
  method SetTransparent(s: Context, pal: array<Byte>, old_: int, eflags: Byte, ghost t: ColourTable)
    returns (transparent: int)
    requires s.Valid() && -1 <= old_ < 256 && t.transparent == old_ && Holds(pal[..], s.input, t)
    modifies s, pal
    ensures s.Valid() && s.At() == old(s.At()) + 1 && -1 <= transparent < 256
    ensures transparent == if eflags % 2 == 1 then ByteAt(s.input, old(s.At())) else -1
    ensures Holds(pal[..], s.input, t.(transparent := transparent))
  {
    hide ByteAt;
    ghost var before := pal[..];
    if old_ >= 0 {
      pal[4 * old_ + 3] := 255;
    }
    if eflags % 2 == 1 {
      var b := s.Get8();
      transparent := b;
      pal[4 * transparent + 3] := 0;
    } else {
      s.Skip(1);
      transparent := -1;
    }
    forall i: nat | i < t.n ensures EntryIs(pal[..], s.input, t.(transparent := transparent), i) {
      assert EntryIs(before, s.input, t, i);
    }
  }

  /** Red, green and blue of an entry as they stand in the file, and full alpha. */
  function FileColour(input: seq<Byte>, t: ColourTable, i: nat): seq<Byte> {
    [ByteAt(input, t.at + 3 * i), ByteAt(input, t.at + 3 * i + 1), ByteAt(input, t.at + 3 * i + 2), 255]
  }

  lemma ColourIsFileColour(pal: seq<Byte>, input: seq<Byte>, t: ColourTable, i: Byte)
    requires Holds(pal, input, t) && i < t.n
    ensures Opaque(pal, i) <==> i != t.transparent
    ensures i != t.transparent ==> Colour(pal, i) == FileColour(input, t, i)
  {
    hide ByteAt;
    assert EntryIs(pal, input, t, i);
  }

  // ---------- what a frame shows ----------

  /** The number of the pixel that the k-th index is for: rows in the order of appendix E, each from left to right. */
  function PlaceOf(g: Geometry, interlaced: bool, k: nat): int
    requires g.fw > 0
  {
    (g.top + RowAt(g.fh, interlaced, k / g.fw)) * g.w + (g.left + k % g.fw)
  }

  /** The pixel of the k-th index shows the colour of the index, or what was there if that is the transparent one. */
  ghost predicate IndexShows(before: seq<Byte>, after: seq<Byte>, g: Geometry, interlaced: bool, index: Byte, k: nat,
                             input: seq<Byte>, t: ColourTable)
    requires g.fw > 0
  {
    var q := PlaceOf(g, interlaced, k);
    && 0 <= q && 4 * q + 4 <= |before| == |after|
    && PixelBytes(after, q) == if index == t.transparent then PixelBytes(before, q) else FileColour(input, t, index)
  }

  /** None of the first n indices is for pixel q. */
  predicate NotPainted(g: Geometry, interlaced: bool, n: nat, q: nat)
    requires g.fw > 0
  {
    forall k: nat :: k < n && k < g.fw * g.fh ==> PlaceOf(g, interlaced, k) != q
  }

  /** The image after a frame of indices: every index shows at its place, and no other pixel changes. */
  ghost predicate FrameShows(before: seq<Byte>, after: seq<Byte>, g: Geometry, interlaced: bool, px: seq<Byte>,
                             input: seq<Byte>, t: ColourTable) {
    && |before| == |after| == 4 * (g.w * g.h)
    && (g.fw == 0 ==> after == before)
    && (g.fw > 0 ==>
          && (forall k: nat :: k < |px| && k < g.fw * g.fh && px[k] < t.n ==>
                IndexShows(before, after, g, interlaced, px[k], k, input, t))
          && (forall q: nat :: q < g.w * g.h && NotPainted(g, interlaced, |px|, q) ==>
                PixelBytes(after, q) == PixelBytes(before, q)))
  }

  lemma InRows(k: nat, m: nat, n: nat)
    requires m > 0
    ensures k < m * n <==> k / m < n
  {
    var q, r := k / m, k % m;
    assert k == m * q + r;
    if q < n {
      MulMono(q + 1, n, m);
      assert (q + 1) * m == q * m + m;
    } else {
      MulMono(n, q, m);
    }
  }

  lemma TargetIsPlace(g: Geometry, img: seq<Byte>, hist: seq<Byte>, interlaced: bool, k: nat)
    requires g.Ok() && g.fw > 0
    ensures var c := FrameStart(g, img, hist, interlaced);
            && (Hits(g, c, k) <==> k < g.fw * g.fh)
            && (Hits(g, c, k) ==> Target(g, c, k) == PlaceOf(g, interlaced, k))
  {
    hide RowOrder, RowAt;
    RowOrderRows(g.fh, interlaced);
    InRows(k, g.fw, g.fh);
    if k / g.fw < g.fh {
      RowOrderAt(g.fh, interlaced, k / g.fw);
    }
  }

  lemma StartIsOk(g: Geometry, img: seq<Byte>, hist: seq<Byte>, interlaced: bool)
    requires g.Ok() && |img| == 4 * (g.w * g.h) && |hist| == g.w * g.h
    ensures CanvasOk(g, FrameStart(g, img, hist, interlaced)) && Distinct(FrameStart(g, img, hist, interlaced).rows)
  {
    hide RowOrder;
    RowOrderRows(g.fh, interlaced);
  }

  /** What painting by a table in memory means by the file. */
  lemma PaintedShows(g: Geometry, pal: seq<Byte>, img: seq<Byte>, hist: seq<Byte>, interlaced: bool, px: seq<Byte>,
                     input: seq<Byte>, t: ColourTable)
    requires g.Ok() && |img| == 4 * (g.w * g.h) && |hist| == g.w * g.h && |pal| == 1024 && Holds(pal, input, t)
    requires CanvasOk(g, FrameStart(g, img, hist, interlaced))
    ensures FrameShows(img, PutAll(g, pal, FrameStart(g, img, hist, interlaced), px).img, g, interlaced, px, input, t)
  {
    hide PutAll, Hits, Target, Opaque, Colour, PlaceOf, PixelBytes, FileColour, Holds, RowOrder;
    StartIsOk(g, img, hist, interlaced);
    var c := FrameStart(g, img, hist, interlaced);
    var after := PutAll(g, pal, c, px).img;
    if g.fw == 0 {
      NothingPainted(g, pal, c, px);
    } else {
      forall k: nat | k < |px| && k < g.fw * g.fh && px[k] < t.n
        ensures IndexShows(img, after, g, interlaced, px[k], k, input, t)
      {
        TargetIsPlace(g, img, hist, interlaced, k);
        TargetInside(g, c, k);
        Painted(g, pal, c, px, k);
        ColourIsFileColour(pal, input, t, px[k]);
      }
      forall q: nat | q < g.w * g.h && NotPainted(g, interlaced, |px|, q)
        ensures PixelBytes(after, q) == PixelBytes(img, q)
      {
        forall i: nat | i < |px| && Hits(g, c, i) ensures Target(g, c, i) != q {
          TargetIsPlace(g, img, hist, interlaced, i);
        }
        Untouched(g, pal, c, px, q);
      }
    }
  }

  lemma {:induction false} NothingPainted(g: Geometry, pal: seq<Byte>, c: Canvas, px: seq<Byte>)
    requires |pal| == 1024 && CanvasOk(g, c) && c.rows == []
    ensures PutAll(g, pal, c, px) == c
    decreases |px|
  {
    if px == [] {
    } else {
      NothingPainted(g, pal, c, px[1..]);
    }
  }

  // ---------- the first image ----------

  function Le16(input: seq<Byte>, k: nat): nat {
    ByteAt(input, k) + 256 * ByteAt(input, k + 1)
  }

  /** An image descriptor (section 20), which stands behind its separator. */
  datatype Descriptor = Descriptor(left: nat, top: nat, width: nat, height: nat, flags: nat) {
    predicate Local() {
      flags / 128 % 2 == 1
    }

    predicate Interlaced() {
      flags / 64 % 2 == 1
    }

    function TableSize(): nat {
      2 * Pow2(flags % 8)
    }

    function Frame(w: nat, h: nat): Geometry {
      Geometry(w, h, left, top, width, height)
    }
  }

  function DescriptorAt(input: seq<Byte>, at: nat): Descriptor {
    Descriptor(Le16(input, at), Le16(input, at + 2), Le16(input, at + 4), Le16(input, at + 6), ByteAt(input, at + 8))
  }

  /** The colour table of an image: its own, or else the global one. */
  function TableOf(input: seq<Byte>, at: nat, transparent: int, global: Option<ColourTable>): Option<ColourTable> {
    var d := DescriptorAt(input, at);
    if d.Local() then Some(ColourTable(at + 9, d.TableSize(), transparent)) else global
  }

  /** The colour indices of an image, behind its own colour table if it has one. */
  function IndicesAt(input: seq<Byte>, at: nat): Option<seq<Byte>> {
    var d := DescriptorAt(input, at);
    RasterIndices(input, at + 9 + if d.Local() then 3 * d.TableSize() else 0)
  }

  method Get16(s: Context) returns (v: nat)
    requires s.Valid()
    modifies s
    ensures s.Valid() && s.At() == old(s.At()) + 2 && v == Le16(s.input, old(s.At()))
  {
    var lo := s.Get8();
    var hi := s.Get8();
    v := lo + 256 * (hi as nat);
  }

  lemma TableIsSmall(b: Byte)
    ensures 2 * Pow2(b % 8) <= 256
  {
    Pow2Table();
    Pow2Mono(b % 8, 7);
  }

  method ReadDescriptor(s: Context) returns (d: Descriptor)
    requires s.Valid()
    modifies s
    ensures s.Valid() && s.At() == old(s.At()) + 9 && d == DescriptorAt(s.input, old(s.At())) && d.flags < 256
  {
    hide Le16, ByteAt;
    var x := Get16(s);
    var y := Get16(s);
    var fw := Get16(s);
    var fh := Get16(s);
    var lflags := s.Get8();
    d := Descriptor(x, y, fw, fh, lflags);
  }

  /** The image's own colour table, or else the global one if there is one. */
  method ReadTable(s: Context, d: Descriptor, pal: array<Byte>, transparent: int, ghost at: nat,
                   ghost global: Option<ColourTable>)
    returns (table: seq<Byte>)
    requires s.Valid() && pal.Length == 1024 && s.At() == at + 9 && d == DescriptorAt(s.input, at) && d.flags < 256
    requires global.Some? ==> Holds(pal[..], s.input, global.value)
    modifies s
    ensures s.Valid() && s.At() == at + 9 + (if d.Local() then 3 * d.TableSize() else 0) && |table| == 1024
    ensures var t := TableOf(s.input, at, transparent, global); t.Some? ==> Holds(table, s.input, t.value)
  {
    hide ByteAt, Le16, Holds, Pow2, DescriptorAt;
    table := pal[..];
    if d.Local() {
      TableIsSmall(d.flags);
      var lpal := new Byte[1024](_ => 0);
      ParseColorTable(s, lpal, d.TableSize(), transparent);
      table := lpal[..];
    }
  }

  // ---------- the background ----------

  /** The bytes of an entry as they stand in memory, made opaque. */
  function StoredColour(pal: seq<Byte>, i: Byte): seq<Byte>
    requires |pal| == 1024
  {
    [pal[4 * i], pal[4 * i + 1], pal[4 * i + 2], 255]
  }

  /** So the background of a picture has the colour of the file with red and blue exchanged. */
  lemma BackgroundIsExchanged(pal: seq<Byte>, input: seq<Byte>, t: ColourTable, i: Byte)
    requires Holds(pal, input, t) && i < t.n
    ensures var c := FileColour(input, t, i); StoredColour(pal, i) == [c[2], c[1], c[0], 255]
  {
    hide ByteAt;
    assert EntryIs(pal, input, t, i);
  }

  /** Gives every pixel that is not flagged the bytes of a colour table entry as they are stored. */
  method FillBackground(out: array<Byte>, history: array<Byte>, pal: array<Byte>, bgindex: Byte)
    requires pal.Length == 1024 && out.Length == 4 * history.Length && out != pal && history != pal && out != history
    modifies out, pal
    ensures forall q: nat :: q < history.Length ==>
              PixelBytes(out[..], q) == if history[q] == 0 then StoredColour(old(pal[..]), bgindex)
                                        else PixelBytes(old(out[..]), q)
  {
    ghost var o, c := out[..], StoredColour(pal[..], bgindex);
    var pi := 0;
    while pi < history.Length
      invariant pi <= history.Length && StoredColour(pal[..], bgindex) == c
      invariant forall q: nat :: q < pi ==> Filled(o, out[..], history[..], c, q)
      invariant forall k :: 4 * pi <= k < out.Length ==> out[k] == o[k]
    {
      ghost var before := out[..];
      if history[pi] == 0 {
        pal[4 * bgindex + 3] := 255;
        out[4 * pi] := pal[4 * bgindex];
        out[4 * pi + 1] := pal[4 * bgindex + 1];
        out[4 * pi + 2] := pal[4 * bgindex + 2];
        out[4 * pi + 3] := pal[4 * bgindex + 3];
      }
      forall q: nat | q <= pi ensures Filled(o, out[..], history[..], c, q) {
        if q < pi {
          assert Filled(o, before, history[..], c, q);
        }
      }
      pi := pi + 1;
    }
    forall q: nat | q < history.Length
      ensures PixelBytes(out[..], q) == if history[q] == 0 then c else PixelBytes(o, q)
    {
      assert Filled(o, out[..], history[..], c, q);
    }
  }

  /** Pixel q has been dealt with. */
  predicate Filled(before: seq<Byte>, after: seq<Byte>, history: seq<Byte>, c: seq<Byte>, q: nat) {
    && 4 * q + 4 <= |before| == |after| && q < |history|
    && PixelBytes(after, q) == if history[q] == 0 then c else PixelBytes(before, q)
  }

  /** A picture of one image: every index shows at its place, and all other pixels have the background. */
  ghost predicate PictureShows(out: seq<Byte>, g: Geometry, interlaced: bool, px: seq<Byte>, input: seq<Byte>,
                               t: ColourTable, background: seq<Byte>) {
    && |out| == 4 * (g.w * g.h)
    && (g.fw > 0 ==> forall k: nat :: k < |px| && k < g.fw * g.fh && px[k] < t.n ==>
          IndexShows(seq(4 * (g.w * g.h), _ => 0), out, g, interlaced, px[k], k, input, t))
    && (forall q: nat :: q < g.w * g.h && (g.fw == 0 || NotPainted(g, interlaced, |px|, q)) ==>
          PixelBytes(out, q) == background)
  }

  /** What the flags say of a frame. */
  ghost predicate FlagsAre(hist: seq<Byte>, g: Geometry, interlaced: bool, n: nat) {
    && |hist| == g.w * g.h
    && forall q: nat :: q < |hist| ==> (hist[q] == 0 <==> g.fw == 0 || NotPainted(g, interlaced, n, q))
  }

  lemma FlagsOfFrame(g: Geometry, pal: seq<Byte>, img: seq<Byte>, hist: seq<Byte>, interlaced: bool, px: seq<Byte>)
    requires g.Ok() && |img| == 4 * (g.w * g.h) && |hist| == g.w * g.h && |pal| == 1024
    requires CanvasOk(g, FrameStart(g, img, hist, interlaced)) && forall q :: 0 <= q < |hist| ==> hist[q] == 0
    ensures FlagsAre(PutAll(g, pal, FrameStart(g, img, hist, interlaced), px).hist, g, interlaced, |px|)
  {
    hide PutAll, Hits, Target, PlaceOf, RowOrder;
    var c := FrameStart(g, img, hist, interlaced);
    if g.fw == 0 {
      NothingPainted(g, pal, c, px);
    } else {
      forall q: nat | q < g.w * g.h
        ensures PutAll(g, pal, c, px).hist[q] == 0 <==> NotPainted(g, interlaced, |px|, q)
      {
        Flagged(g, pal, c, px, q);
        forall k: nat ensures Hits(g, c, k) <==> k < g.fw * g.fh
          ensures Hits(g, c, k) ==> Target(g, c, k) == PlaceOf(g, interlaced, k) {
          TargetIsPlace(g, img, hist, interlaced, k);
        }
      }
    }
  }

  /**
   Reads the first image of a file into a picture that is transparent so far, and fills in the background. It succeeds
   exactly if the rectangle lies inside, there is a colour table and the code stream is accepted; then every index shows
   the colour that the file says.
   */
  method LoadImage(s: Context, w: nat, h: nat, pal: array<Byte>, transparent: int, hasGlobal: bool, bgindex: Byte,
                   ghost global: Option<ColourTable>)
    returns (ok: bool, g: Gif)
    requires s.Valid() && pal.Length == 1024 && (hasGlobal <==> global.Some?)
    requires hasGlobal ==> Holds(pal[..], s.input, global.value)
    modifies s, pal
    ensures var at := old(s.At());
            var d, t := DescriptorAt(s.input, at), TableOf(s.input, at, transparent, global);
            var px := IndicesAt(s.input, at);
            && (ok <==> d.Frame(w, h).Ok() && t.Some? && px.Some?)
            && (ok ==> PictureShows(g.out[..], d.Frame(w, h), d.Interlaced(), px.value, s.input, t.value,
                                    if bgindex > 0 then StoredColour(old(pal[..]), bgindex) else [0, 0, 0, 0]))
  {
    hide Holds, DescriptorAt, FrameShows, FlagsAre, PictureShows, IndicesAt, TableOf;
    ghost var at, stored := s.At(), pal[..];
    ok, g := LoadFrame(s, w, h, pal, transparent, hasGlobal, global);
    if ok && bgindex > 0 {
      ghost var img := g.out[..];
      FillBackground(g.out, g.history, pal, bgindex);
      ghost var d := DescriptorAt(s.input, at);
      BackgroundFilled(img, g.out[..], g.history[..], d.Frame(w, h), d.Interlaced(), IndicesAt(s.input, at).value,
        s.input, TableOf(s.input, at, transparent, global).value, StoredColour(stored, bgindex));
    } else if ok {
      ghost var d := DescriptorAt(s.input, at);
      NoBackground(g.out[..], d.Frame(w, h), d.Interlaced(), IndicesAt(s.input, at).value, s.input,
        TableOf(s.input, at, transparent, global).value);
    }
  }

  lemma BackgroundFilled(img: seq<Byte>, out: seq<Byte>, hist: seq<Byte>, g: Geometry, interlaced: bool, px: seq<Byte>,
                         input: seq<Byte>, t: ColourTable, c: seq<Byte>)
    requires FrameShows(seq(4 * (g.w * g.h), _ => 0), img, g, interlaced, px, input, t)
    requires FlagsAre(hist, g, interlaced, |px|) && |out| == |img|
    requires forall q: nat :: q < |hist| ==> PixelBytes(out, q) == if hist[q] == 0 then c else PixelBytes(img, q)
    ensures PictureShows(out, g, interlaced, px, input, t, c)
  {
    hide PlaceOf, PixelBytes, FileColour;
    var zero := seq(4 * (g.w * g.h), _ => 0);
    if g.fw > 0 {
      forall k: nat | k < |px| && k < g.fw * g.fh && px[k] < t.n
        ensures IndexShows(zero, out, g, interlaced, px[k], k, input, t)
      {
        assert IndexShows(zero, img, g, interlaced, px[k], k, input, t);
        var q := PlaceOf(g, interlaced, k);
        assert !NotPainted(g, interlaced, |px|, q);
      }
    }
  }

  lemma NoBackground(out: seq<Byte>, g: Geometry, interlaced: bool, px: seq<Byte>, input: seq<Byte>, t: ColourTable)
    requires FrameShows(seq(4 * (g.w * g.h), _ => 0), out, g, interlaced, px, input, t)
    ensures PictureShows(out, g, interlaced, px, input, t, [0, 0, 0, 0])
  {
    hide PlaceOf, FileColour;
    var zero := seq(4 * (g.w * g.h), _ => 0);
    assert forall q: nat :: q < g.w * g.h ==> PixelBytes(zero, q) == [0, 0, 0, 0];
  }

  /** The image itself, without the background. */
  method LoadFrame(s: Context, w: nat, h: nat, pal: array<Byte>, transparent: int, hasGlobal: bool,
                   ghost global: Option<ColourTable>)
    returns (ok: bool, g: Gif)
    requires s.Valid() && pal.Length == 1024 && (hasGlobal <==> global.Some?)
    requires hasGlobal ==> Holds(pal[..], s.input, global.value)
    modifies s
    ensures fresh(g.out) && fresh(g.history) && g.out != g.history
    ensures g.out.Length == 4 * g.history.Length && g.history.Length == w * h
    ensures var at := old(s.At());
            var d, t := DescriptorAt(s.input, at), TableOf(s.input, at, transparent, global);
            var px := IndicesAt(s.input, at);
            && (ok <==> d.Frame(w, h).Ok() && t.Some? && px.Some?)
            && (ok ==> FrameShows(seq(4 * (w * h), _ => 0), g.out[..], d.Frame(w, h), d.Interlaced(), px.value,
                                  s.input, t.value))
            && (ok ==> FlagsAre(g.history[..], d.Frame(w, h), d.Interlaced(), |px.value|))
  {
    hide RasterIndices, Holds, FrameShows, FlagsAre, PutAll, FrameStart, CanvasOk, Pow2, DescriptorAt, RowOrder;
    hide RowsFrom;
    ghost var at := s.At();
    var d := ReadDescriptor(s);
    var table := ReadTable(s, d, pal, transparent, at, global);
    g := new Gif(w, h, table);
    ok := g.SetFrame(d.left, d.top, d.width, d.height, d.Interlaced());
    if !ok || (!d.Local() && !hasGlobal) {
      return false, g;
    }
    ghost var img, hist := g.out[..], g.history[..];
    assert img == seq(4 * (w * h), _ => 0);
    StartIsOk(g.geo, img, hist, d.Interlaced());
    ok := g.ProcessRaster(s);
    if ok {
      ghost var px, t := IndicesAt(s.input, at).value, TableOf(s.input, at, transparent, global).value;
      PaintedShows(d.Frame(w, h), table, img, hist, d.Interlaced(), px, s.input, t);
      FlagsOfFrame(d.Frame(w, h), table, img, hist, d.Interlaced(), px);
    }
  }
}
