/** Undoing the filters in the output buffer, with and without room for an alpha channel (lib/stb_image.h). */
module PngRows {
  import opened Bits
  import opened PngFilters

  /** Byte k of pixel q, where pixels of the given size start at row; zero outside. */
  function PixelByte(o: seq<Byte>, row: nat, size: nat, q: nat, k: nat): Byte {
    if row + Times(q, size) + k < |o| then o[row + Times(q, size) + k] else 0
  }

  /** The x pixels of the given size in o start with the n bytes of each pixel of s. */
  ghost predicate ChannelsAre(o: seq<Byte>, row: nat, size: nat, s: seq<Byte>, n: nat, x: nat) {
    forall q, k :: 0 <= q < x && 0 <= k < n ==> PixelByte(o, row, size, q, k) == PixelByte(s, 0, n, q, k)
  }

  /** The first n bytes of pixel i are those of pixel i of s. */
  ghost predicate PixelIs(o: seq<Byte>, row: nat, size: nat, s: seq<Byte>, n: nat, i: nat) {
    forall k :: 0 <= k < n ==> PixelByte(o, row, size, i, k) == PixelByte(s, 0, n, i, k)
  }

  /** Byte k of each pixel is 255. */
  ghost predicate AlphaIs(o: seq<Byte>, row: nat, size: nat, k: nat, x: nat) {
    forall q :: 0 <= q < x ==> PixelByte(o, row, size, q, k) == 255
  }

  /** A finished row: pixels of n bytes from s, with a bytes of opaque alpha behind each. */
  ghost predicate RowIs(o: seq<Byte>, row: nat, s: seq<Byte>, n: nat, a: nat, x: nat)
    requires a <= 2
  {
    && ChannelsAre(o, row, n + a, s, n, x)
    && (a >= 1 ==> AlphaIs(o, row, n + a, n, x))
    && (a >= 2 ==> AlphaIs(o, row, n + a, n + 1, x))
  }

  predicate ReadsAbove(f: nat) {
    f == UP || f == AVG || f == PAETH
  }

  function FilterFor(f: nat, first: bool): nat
    requires f <= 4
  {
    if first then FIRST_ROW[f] else f
  }

  /** The filter used, with what it reads, predicts as the filter of the format. */
  lemma UsedFilter(f: nat, first: bool, a: Byte, b: Byte, c: Byte)
    requires f <= 4
    ensures first ==> !ReadsAbove(FilterFor(f, first))
    ensures var g := FilterFor(f, first);
            && (ReadsAbove(g) ==> Added(g, a, b, c) == Predict(f, a, b, c) && AddedFirst(g, b) == Predict(f, 0, b, 0))
            && (first ==> Added(g, a, 0, 0) == Predict(f, a, 0, 0) && AddedFirst(g, 0) == Predict(f, 0, 0, 0))
            && (!first && !ReadsAbove(g) ==>
                  Added(g, a, 0, 0) == Predict(f, a, b, c) && AddedFirst(g, 0) == Predict(f, 0, b, 0))
  {
  }

  /** Outside from..to the buffer is as it was. */
  twostate predicate OnlyIn(out: array<Byte>, from: nat, to: nat)
    reads out
  {
    forall i :: 0 <= i < out.Length && !(from <= i < to) ==> out[i] == old(out[i])
  }

  /** The first pixel of a row: n bytes at cur. */
  method UnfilterFirst(out: array<Byte>, cur: nat, prior: int, raw: seq<Byte>, f: nat, n: nat)
    requires cur + n <= out.Length && n <= |raw|
    requires ReadsAbove(f) ==> 0 <= prior && prior + n <= cur
    modifies out
    ensures OnlyIn(out, cur, cur + n)
    ensures forall k :: 0 <= k < n ==>
                          out[cur + k] ==
                            (raw[k] + AddedFirst(f, if ReadsAbove(f) then old(out[prior + k]) else 0)) % 256
  {
    hide AddedFirst;
    var k := 0;
    while k < n
      invariant k <= n && OnlyIn(out, cur, cur + k)
      invariant forall i :: 0 <= i < k ==>
                              out[cur + i] ==
                                (raw[i] + AddedFirst(f, if ReadsAbove(f) then old(out[prior + i]) else 0)) % 256
    {
      var b := if ReadsAbove(f) then out[prior + k] else 0;
      out[cur + k] := (raw[k] + AddedFirst(f, b)) % 256;
      k := k + 1;
    }
  }

  // ---------- rows without inserted alpha ----------

  /** Undoes filter f of a row, written at cur; the row above is at prior unless this is the first row. */
  method UnfilterPacked(out: array<Byte>, cur: nat, prior: int, raw: seq<Byte>, f: nat, first: bool, bpp: nat,
                        ghost above: seq<Byte>)
    requires f <= 4 && 1 <= bpp <= |raw| == |above| && cur + |raw| <= out.Length
    requires first ==> above == Zeros(|raw|)
    requires !first ==> 0 <= prior && prior + |raw| <= cur && out[prior..prior + |raw|] == above
    modifies out
    ensures OnlyIn(out, cur, cur + |raw|)
    ensures out[cur..cur + |raw|] == Recon(f, bpp, raw, above, |raw|)
  {
    hide Added, AddedFirst, Predict, Recon, FilterFor;
    var g := FilterFor(f, first);
    UsedFilter(f, first, 0, 0, 0);
    UnfilterFirst(out, cur, prior, raw, g, bpp);
    FirstBytes(out[cur..cur + bpp], f, first, bpp, raw, above);
    var k := bpp;
    assert !first ==> out[prior..prior + |raw|] == above;
    while k < |raw|
      invariant bpp <= k <= |raw| && OnlyIn(out, cur, cur + k)
      invariant !first ==> out[prior..prior + |raw|] == above
      invariant out[cur..cur + k] == Recon(f, bpp, raw, above, k)
    {
      ghost var o := out[..];
      var a := out[cur + k - bpp];
      var b := if ReadsAbove(g) then out[prior + k] else 0;
      var c := if ReadsAbove(g) then out[prior + k - bpp] else 0;
      out[cur + k] := (raw[k] + Added(g, a, b, c)) % 256;
      assert out[cur..cur + k] == o[cur..cur + k];
      assert a == o[cur..cur + k][k - bpp];
      PackedStep(o[cur..cur + k], out[cur + k], f, first, bpp, raw, above, k, b, c);
      assert out[cur..cur + k + 1] == out[cur..cur + k] + [out[cur + k]];
      k := k + 1;
    }
  }

  lemma {:induction false} FirstBytes(s: seq<Byte>, f: nat, first: bool, bpp: nat, raw: seq<Byte>, above: seq<Byte>)
    requires f <= 4 && |s| <= bpp && bpp >= 1 && |s| <= |raw| == |above| && (first ==> above == Zeros(|raw|))
    requires var g := FilterFor(f, first);
             forall k :: 0 <= k < |s| ==> s[k] == (raw[k] + AddedFirst(g, if ReadsAbove(g) then above[k] else 0)) % 256
    ensures s == Recon(f, bpp, raw, above, |s|)
    decreases |s|
  {
    hide AddedFirst, Predict, FilterFor;
    if s == [] {
    } else {
      var n := |s| - 1;
      FirstBytes(s[..n], f, first, bpp, raw, above);
      UsedFilter(f, first, 0, above[n], 0);
    }
  }

  lemma PackedStep(s: seq<Byte>, v: Byte, f: nat, first: bool, bpp: nat, raw: seq<Byte>, above: seq<Byte>, k: nat,
                   b: Byte, c: Byte)
    requires f <= 4 && 1 <= bpp <= k < |raw| == |above| && (first ==> above == Zeros(|raw|))
    requires s == Recon(f, bpp, raw, above, k)
    requires var g := FilterFor(f, first);
             && b == (if ReadsAbove(g) then above[k] else 0) && c == (if ReadsAbove(g) then above[k - bpp] else 0)
             && v == (raw[k] + Added(g, s[k - bpp], b, c)) % 256
    ensures s + [v] == Recon(f, bpp, raw, above, k + 1)
  {
    hide Added, Predict, FilterFor;
    UsedFilter(f, first, s[k - bpp], above[k], above[k - bpp]);
  }

  // ---------- rows with room for alpha ----------

  /** What byte k of the pixel at cur becomes, given the filtered byte v. */
  function Unfiltered(o: seq<Byte>, cur: nat, prior: int, size: nat, v: Byte, g: nat, k: nat): Byte
    requires size <= cur && cur + k < |o| && (ReadsAbove(g) ==> size <= prior <= cur)
  {
    var a := o[cur + k - size];
    if ReadsAbove(g) then (v + Added(g, a, o[prior + k], o[prior + k - size])) % 256
    else (v + Added(g, a, 0, 0)) % 256
  }

  /** One pixel of n bytes at cur; its left neighbour and its neighbours above are size bytes apart. */
  method UnfilterPixel(out: array<Byte>, cur: nat, prior: int, size: nat, raw: seq<Byte>, g: nat, n: nat)
    requires n <= size <= cur && cur + n <= out.Length && n <= |raw|
    requires ReadsAbove(g) ==> size <= prior && prior + size <= cur
    modifies out
    ensures OnlyIn(out, cur, cur + n)
    ensures forall k :: 0 <= k < n ==> out[cur + k] == Unfiltered(old(out[..]), cur, prior, size, raw[k], g, k)
  {
    hide Added;
    var k := 0;
    while k < n
      invariant k <= n && OnlyIn(out, cur, cur + k)
      invariant forall i :: 0 <= i < k ==> out[cur + i] == Unfiltered(old(out[..]), cur, prior, size, raw[i], g, i)
    {
      var b := if ReadsAbove(g) then out[prior + k] else 0;
      var c := if ReadsAbove(g) then out[prior + k - size] else 0;
      out[cur + k] := (raw[k] + Added(g, out[cur + k - size], b, c)) % 256;
      k := k + 1;
    }
  }

  /**
   A row with room for alpha: where it and the row above it start, the size of an output pixel and the bytes of it in
   the file, the number of pixels, the filter, whether it is the first row, and its filtered bytes.
   */
  datatype Layout = Layout(row: nat, prior: int, size: nat, n: nat, x: nat, f: nat, first: bool, raw: seq<Byte>) {
    predicate Ok() {
      f <= 4 && 1 <= n < size && x >= 1 && |raw| == Times(x, n)
    }

    function Used(): nat
      requires f <= 4
    {
      FilterFor(f, first)
    }

    /** The buffer has the row, and holds the row above. */
    ghost predicate Above(o: seq<Byte>, above: seq<Byte>) {
      && |above| == |raw| && row + Times(x, size) <= |o|
      && (first ==> above == Zeros(|raw|))
      && (!first ==> 0 <= prior && prior + Times(x, size) <= row && ChannelsAre(o, prior, size, above, n, x))
    }

    /** The first i pixels are finished, but for a second byte of alpha. */
    ghost predicate Done(o: seq<Byte>, r: seq<Byte>, i: nat) {
      ChannelsAre(o, row, size, r, n, i) && AlphaIs(o, row, size, n, i)
    }
  }

  /** The reconstructed row. */
  ghost function Result(l: Layout, above: seq<Byte>): (r: seq<Byte>)
    requires l.Ok() && |above| == |l.raw|
    ensures |r| == |l.raw|
  {
    Recon(l.f, l.n, l.raw, above, |l.raw|)
  }

  /** Undoes the filter of a row of x pixels of n bytes, leaving a bytes of alpha behind each, set to 255. */
  method UnfilterSpread(out: array<Byte>, row: nat, prior: int, raw: seq<Byte>, f: nat, first: bool, n: nat, a: nat,
                        x: nat, ghost above: seq<Byte>)
    requires f <= 4 && n >= 1 && x >= 1 && 1 <= a <= 2 && |raw| == |above| == Times(x, n)
    requires row + Times(x, n + a) <= out.Length
    requires first ==> above == Zeros(|raw|)
    requires !first ==> 0 <= prior && prior + Times(x, n + a) <= row && ChannelsAre(out[..], prior, n + a, above, n, x)
    modifies out
    ensures OnlyIn(out, row, row + Times(x, n + a))
    ensures RowIs(out[..], row, Recon(f, n, raw, above, |raw|), n, a, x)
  {
    hide AddedFirst, Recon, FilterFor, ChannelsAre, AlphaIs, Times, Unfiltered, PixelByte, Zeros;
    var l := Layout(row, prior, n + a, n, x, f, first, raw);
    ghost var r := Result(l, above);
    UsedFilter(f, first, 0, 0, 0);
    OnePixel(x, n);
    OnePixel(x, l.size);
    ghost var o := out[..];
    UnfilterFirst(out, row, prior, raw, l.Used(), n);
    out[row + n] := 255;
    if a == 2 {
      out[row + n + 1] := 255;
    }
    FirstSpread(l, above, o, out[..], r);
    if !first {
      ChannelsFrame(o, out[..], prior, l.size, above, n, x);
    }
    SpreadRest(out, l, above);
    if a == 2 {
      o := out[..];
      FillAlpha(out, row, n + 1, l.size, x);
      SpreadKept(o, out[..], row, l.size, r, n, x);
    }
  }

  /** The pixels after the first. */
  method SpreadRest(out: array<Byte>, l: Layout, ghost above: seq<Byte>)
    requires l.Ok() && l.Above(out[..], above) && l.Done(out[..], Result(l, above), 1)
    modifies out
    ensures OnlyIn(out, l.row, l.row + Times(l.x, l.size))
    ensures l.Done(out[..], Result(l, above), l.x)
  {
    hide AddedFirst, Result, FilterFor, ChannelsAre, AlphaIs, Times, Unfiltered, PixelByte, Zeros;
    var n, size := l.n, l.size;
    ghost var r := Result(l, above);
    UsedFilter(l.f, l.first, 0, 0, 0);
    OnePixel(l.x, n);
    OnePixel(l.x, size);
    var i, cur, p, t := 1, l.row + size, l.prior + size, n;
    while i < l.x
      invariant 1 <= i <= l.x && cur == l.row + Times(i, size) && p == l.prior + Times(i, size) && t == Times(i, n)
      invariant cur <= l.row + Times(l.x, size) && OnlyIn(out, l.row, cur)
      invariant l.Above(out[..], above) && l.Done(out[..], r, i)
    {
      TimesMono(i, l.x, n);
      TimesMono(i, l.x, size);
      OnePixel(i, size);
      ghost var o := out[..];
      UnfilterPixel(out, cur, p, size, l.raw[t..], l.Used(), n);
      out[cur + n] := 255;
      assert out[cur + n] == 255;
      SpreadByte(l, above, o, out[..], i, r, Times(i, size), t);
      SpreadStep(o, out[..], l.row, size, r, n, i);
      if !l.first {
        ChannelsFrame(o, out[..], l.prior, size, above, n, l.x);
      }
      TimesSucc(i, n);
      TimesSucc(i, size);
      i, cur, p, t := i + 1, cur + size, p + size, t + n;
    }
  }

  /** Byte k of every pixel is set to 255. */
  method FillAlpha(out: array<Byte>, row: nat, k: nat, size: nat, x: nat)
    requires k < size && row + Times(x, size) <= out.Length
    modifies out
    ensures OnlyIn(out, row, row + Times(x, size)) && AlphaIs(out[..], row, size, k, x)
    ensures forall q, m :: 0 <= q < x && 0 <= m < size && m != k ==>
                             PixelByte(out[..], row, size, q, m) == PixelByte(old(out[..]), row, size, q, m)
  {
    hide Times;
    TimesNone(size);
    var i, cur := 0, row;
    while i < x
      invariant i <= x && cur == row + Times(i, size) <= row + Times(x, size) && OnlyIn(out, row, cur)
      invariant AlphaIs(out[..], row, size, k, i)
      invariant forall q, m :: 0 <= q < x && 0 <= m < size && m != k ==>
                                 PixelByte(out[..], row, size, q, m) == PixelByte(old(out[..]), row, size, q, m)
    {
      TimesMono(i, x, size);
      ghost var o := out[..];
      out[cur + k] := 255;
      forall q: nat, m: nat | 0 <= m < size && (q != i || m != k)
        ensures PixelByte(out[..], row, size, q, m) == PixelByte(o, row, size, q, m)
      {
        Apart(q, i, size);
      }
      TimesSucc(i, size);
      i, cur := i + 1, cur + size;
    }
  }

  // ---------- about pixels in a row ----------

  lemma TimesNone(size: nat)
    ensures Times(0, size) == 0
  {
  }

  lemma TimesSucc(i: nat, size: nat)
    ensures Times(i + 1, size) == Times(i, size) + size
  {
  }

  lemma OnePixel(x: nat, size: nat)
    requires x >= 1
    ensures Times(0, size) == 0 && Times(1, size) == size <= Times(x, size)
  {
    TimesMono(0, x, size);
  }

  /** Different pixels do not overlap. */
  lemma Apart(q: nat, i: nat, size: nat)
    ensures q < i ==> Times(q, size) + size <= Times(i, size)
    ensures q > i ==> Times(i, size) + size <= Times(q, size)
  {
    if q < i {
      TimesMono(q, i, size);
    } else if q > i {
      TimesMono(i, q, size);
    }
  }

  lemma ChannelsFrame(o: seq<Byte>, o': seq<Byte>, row: nat, size: nat, s: seq<Byte>, n: nat, x: nat)
    requires |o| == |o'| && n <= size && row + Times(x, size) <= |o|
    requires ChannelsAre(o, row, size, s, n, x)
    requires forall i :: row <= i < row + Times(x, size) ==> o'[i] == o[i]
    ensures ChannelsAre(o', row, size, s, n, x)
  {
    hide Times;
    forall q: nat, k: nat | q < x && k < n
      ensures PixelByte(o', row, size, q, k) == PixelByte(s, 0, n, q, k)
    {
      TimesMono(q, x, size);
      assert PixelByte(o, row, size, q, k) == PixelByte(s, 0, n, q, k);
    }
  }

  /** What is written is what the filter of the format reconstructs. */
  lemma UnfilteredIs(o: seq<Byte>, cur: nat, prior: int, size: nat, v: Byte, f: nat, first: bool, k: nat, b: Byte,
                     c: Byte)
    requires f <= 4 && size <= cur && cur + k < |o|
    requires first ==> b == c == 0
    requires !first ==> size <= prior <= cur && o[prior + k] == b && o[prior + k - size] == c
    ensures first ==> !ReadsAbove(FilterFor(f, first))
    ensures Unfiltered(o, cur, prior, size, v, FilterFor(f, first), k)
         == (v + Predict(f, o[cur + k - size], b, c)) % 256
  {
    hide Added, FilterFor, Predict;
    UsedFilter(f, first, o[cur + k - size], b, c);
  }

  /** Pixel i stands c bytes behind the start of the row, and its bytes t bytes behind the start of the data. */
  ghost predicate PixelAt(l: Layout, i: nat, c: nat, t: nat) {
    1 <= i < l.x && c == Times(i, l.size) >= l.size && t == Times(i, l.n) && c + l.size <= Times(l.x, l.size) &&
      t + l.n <= |l.raw|
  }

  /** The bytes of pixel i become those of the row. */
  lemma SpreadByte(l: Layout, above: seq<Byte>, o: seq<Byte>, o': seq<Byte>, i: nat, r: seq<Byte>, c: nat, t: nat)
    requires l.Ok() && l.Above(o, above) && |o| == |o'| && PixelAt(l, i, c, t)
    requires r == Result(l, above) && ChannelsAre(o, l.row, l.size, r, l.n, i)
    requires ReadsAbove(l.Used()) ==> !l.first
    requires forall k :: 0 <= k < l.n ==>
                           o'[l.row + c + k]
                           == Unfiltered(o, l.row + c, l.prior + c, l.size, l.raw[t..][k], l.Used(), k)
    ensures PixelIs(o', l.row, l.size, r, l.n, i)
  {
    hide Result, Added, FilterFor, Times, ChannelsAre, Predict, Zeros, LeftOf, Unfiltered, PixelByte;
    forall k | 0 <= k < l.n ensures PixelByte(o', l.row, l.size, i, k) == PixelByte(r, 0, l.n, i, k) {
      assert o'[l.row + c + k] == Unfiltered(o, l.row + c, l.prior + c, l.size, l.raw[t..][k], l.Used(), k);
      SpreadByteAt(l, above, o, i, k, r, c, t);
      PixelByteIs(o', l.row, l.size, i, k);
      PixelByteIs(r, 0, l.n, i, k);
    }
  }

  lemma PixelByteIs(o: seq<Byte>, row: nat, size: nat, q: nat, k: nat)
    requires row + Times(q, size) + k < |o|
    ensures PixelByte(o, row, size, q, k) == o[row + Times(q, size) + k]
  {
  }

  lemma SpreadByteAt(l: Layout, above: seq<Byte>, o: seq<Byte>, i: nat, k: nat, r: seq<Byte>, c: nat, t: nat)
    requires l.Ok() && l.Above(o, above) && PixelAt(l, i, c, t) && k < l.n
    requires r == Result(l, above) && ChannelsAre(o, l.row, l.size, r, l.n, i)
    ensures ReadsAbove(l.Used()) ==> !l.first
    ensures Unfiltered(o, l.row + c, l.prior + c, l.size, l.raw[t + k], l.Used(), k) == r[t + k]
  {
    hide Result, FilterFor, Times, ChannelsAre, Predict, Zeros, Unfiltered;
    TimesSucc(i - 1, l.size);
    TimesSucc(i - 1, l.n);
    LeftAbove(l, above, o, i, k, c, t);
    ChannelAt(o, l.row, l.size, r, l.n, i, i - 1, k);
    SpreadByteFrom(l, above, o, k, r, c, t);
  }

  lemma SpreadByteFrom(l: Layout, above: seq<Byte>, o: seq<Byte>, k: nat, r: seq<Byte>, c: nat, t: nat)
    requires l.Ok() && k < l.n <= t && l.size <= c && |l.raw| == |above| >= t + l.n && l.row + c + l.n <= |o|
    requires !l.first ==> 0 <= l.prior && l.prior + c + l.size <= l.row
    requires r == Result(l, above) && r[t - l.n + k] == o[l.row + c - l.size + k]
    requires l.first ==> above[t + k] == above[t + k - l.n] == 0
    requires !l.first ==> o[l.prior + c + k] == above[t + k] && o[l.prior + c + k - l.size] == above[t + k - l.n]
    ensures ReadsAbove(l.Used()) ==> !l.first
    ensures Unfiltered(o, l.row + c, l.prior + c, l.size, l.raw[t + k], l.Used(), k) == r[t + k]
  {
    hide Recon, FilterFor, Predict, Unfiltered, Times;
    UnfilteredIs(o, l.row + c, l.prior + c, l.size, l.raw[t + k], l.f, l.first, k, above[t + k], above[t + k - l.n]);
    ReconNext(l.f, l.n, l.raw, above, t + k);
  }

  lemma ReconNext(f: nat, n: nat, raw: seq<Byte>, above: seq<Byte>, i: nat)
    requires 1 <= n <= i < |raw| == |above|
    ensures var r := Recon(f, n, raw, above, |raw|);
            r[i] == (raw[i] + Predict(f, r[i - n], above[i], above[i - n])) % 256
  {
    hide Recon, Predict;
    ReconAt(f, n, raw, above, i);
  }

  /** The bytes above, and above to the left, as they stand in the buffer. */
  lemma LeftAbove(l: Layout, above: seq<Byte>, o: seq<Byte>, i: nat, k: nat, c: nat, t: nat)
    requires l.Ok() && l.Above(o, above) && PixelAt(l, i, c, t) && k < l.n
    requires c == Times(i - 1, l.size) + l.size && t == Times(i - 1, l.n) + l.n
    ensures l.first ==> above[t + k] == above[t + k - l.n] == 0
    ensures !l.first ==> o[l.prior + c + k] == above[t + k]
    ensures !l.first ==> o[l.prior + c + k - l.size] == above[t + k - l.n]
  {
    hide Times, ChannelsAre, Zeros;
    if l.first {
      ZerosAre(|above|, t + k);
      ZerosAre(|above|, t + k - l.n);
    } else {
      ChannelAt(o, l.prior, l.size, above, l.n, l.x, i, k);
      ChannelAt(o, l.prior, l.size, above, l.n, l.x, i - 1, k);
    }
  }

  lemma ZerosAre(n: nat, i: nat)
    requires i < n
    ensures Zeros(n)[i] == 0
  {
  }

  lemma ChannelAt(o: seq<Byte>, row: nat, size: nat, s: seq<Byte>, n: nat, x: nat, q: nat, k: nat)
    requires ChannelsAre(o, row, size, s, n, x) && q < x && k < n
    requires row + Times(q, size) + k < |o| && Times(q, n) + k < |s|
    ensures o[row + Times(q, size) + k] == s[Times(q, n) + k]
  {
    assert PixelByte(o, row, size, q, k) == PixelByte(s, 0, n, q, k);
  }

  lemma SpreadStep(o: seq<Byte>, o': seq<Byte>, row: nat, size: nat, s: seq<Byte>, n: nat, i: nat)
    requires n < size && |o| == |o'| && row + Times(i, size) + size <= |o| && Times(i, n) + n <= |s|
    requires ChannelsAre(o, row, size, s, n, i) && AlphaIs(o, row, size, n, i)
    requires PixelIs(o', row, size, s, n, i)
    requires o'[row + Times(i, size) + n] == 255
    requires forall m :: 0 <= m < row + Times(i, size) ==> o'[m] == o[m]
    ensures ChannelsAre(o', row, size, s, n, i + 1) && AlphaIs(o', row, size, n, i + 1)
  {
    hide Times;
    forall q: nat, k: nat | q < i + 1 && k < n
      ensures PixelByte(o', row, size, q, k) == PixelByte(s, 0, n, q, k)
    {
      Apart(q, i, size);
      if q < i {
        assert PixelByte(o, row, size, q, k) == PixelByte(s, 0, n, q, k);
        assert PixelByte(o', row, size, q, k) == PixelByte(o, row, size, q, k);
      }
    }
    forall q: nat | q < i + 1 ensures PixelByte(o', row, size, q, n) == 255 {
      Apart(q, i, size);
      if q < i {
        assert PixelByte(o, row, size, q, n) == 255;
      }
    }
  }

  lemma FirstSpread(l: Layout, above: seq<Byte>, o: seq<Byte>, o': seq<Byte>, r: seq<Byte>)
    requires l.Ok() && l.Above(o, above) && |o| == |o'| && l.size <= Times(l.x, l.size) && l.n <= |l.raw|
    requires Times(0, l.n) == 0 && Times(0, l.size) == 0
    requires ReadsAbove(l.Used()) ==> !l.first
    requires forall k :: 0 <= k < l.n ==>
                           o'[l.row + k] ==
                             (l.raw[k] + AddedFirst(l.Used(), if ReadsAbove(l.Used()) then o[l.prior + k] else 0)) % 256
    requires o'[l.row + l.n] == 255 && r == Result(l, above)
    ensures l.Done(o', r, 1)
  {
    hide Recon, AddedFirst, FilterFor, Times, ChannelsAre, AlphaIs, Predict, Zeros, LeftOf, PixelByte;
    forall k | 0 <= k < l.n ensures PixelByte(o', l.row, l.size, 0, k) == PixelByte(r, 0, l.n, 0, k) {
      if !l.first {
        ChannelAt(o, l.prior, l.size, above, l.n, l.x, 0, k);
      }
      FirstByte(o'[l.row + k], l.raw, l.f, l.first, l.n, above, k);
      PixelByteIs(o', l.row, l.size, 0, k);
      PixelByteIs(r, 0, l.n, 0, k);
    }
    NoPixels(o', l.row, l.size, r, l.n);
    SpreadStep(o', o', l.row, l.size, r, l.n, 0);
  }

  lemma FirstByte(v: Byte, raw: seq<Byte>, f: nat, first: bool, n: nat, above: seq<Byte>, k: nat)
    requires f <= 4 && k < n && k < |raw| == |above| && (first ==> above == Zeros(|raw|))
    requires var g := FilterFor(f, first); v == (raw[k] + AddedFirst(g, if ReadsAbove(g) then above[k] else 0)) % 256
    ensures v == Recon(f, n, raw, above, |raw|)[k]
  {
    hide Recon, AddedFirst, FilterFor, Predict, Zeros, LeftOf;
    ReconAt(f, n, raw, above, k);
    LeftOfFirst(Recon(f, n, raw, above, |raw|), k, n);
    LeftOfFirst(above, k, n);
    if first {
      ZerosAre(|raw|, k);
    }
    UsedFilter(f, first, 0, above[k], 0);
  }

  lemma LeftOfFirst(s: seq<Byte>, k: nat, n: nat)
    requires k < n
    ensures LeftOf(s, k, n) == 0
  {
  }

  lemma NoPixels(o: seq<Byte>, row: nat, size: nat, s: seq<Byte>, n: nat)
    ensures ChannelsAre(o, row, size, s, n, 0) && AlphaIs(o, row, size, n, 0)
  {
  }

  /** Setting the second alpha byte keeps the rest. */
  lemma SpreadKept(o: seq<Byte>, o': seq<Byte>, row: nat, size: nat, s: seq<Byte>, n: nat, x: nat)
    requires size == n + 2 && ChannelsAre(o, row, size, s, n, x) && AlphaIs(o, row, size, n, x)
    requires AlphaIs(o', row, size, n + 1, x)
    requires forall q, m :: 0 <= q < x && 0 <= m < size && m != n + 1 ==>
                              PixelByte(o', row, size, q, m) == PixelByte(o, row, size, q, m)
    ensures RowIs(o', row, s, n, 2, x)
  {
    hide PixelByte;
  }
}
