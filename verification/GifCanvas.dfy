/** What painting a sequence of colour indices into an image rectangle means. */
module GifCanvas {
  import opened Bits
  import opened GifSpec

  /** A w by h image and the rectangle of it that a frame covers. */
  datatype Geometry = Geometry(w: nat, h: nat, left: nat, top: nat, fw: nat, fh: nat) {
    predicate Ok() {
      left + fw <= w && top + fh <= h
    }

    /** The pixel number of column x of row r of the rectangle. */
    function Pixel(x: nat, r: nat): nat {
      (top + r) * w + (left + x)
    }
  }

  /** The image bytes (four per pixel), the touched-pixel flags, and the cursor: a column and the rows still to come. */
  datatype Canvas = Canvas(img: seq<Byte>, hist: seq<Byte>, x: nat, rows: seq<nat>)

  ghost predicate CanvasOk(g: Geometry, c: Canvas) {
    && g.Ok() && |c.img| == 4 * (g.w * g.h) && |c.hist| == g.w * g.h
    && (c.rows != [] ==> c.x < g.fw)
    && (forall i :: 0 <= i < |c.rows| ==> c.rows[i] < g.fh)
  }

  lemma PixelInside(g: Geometry, x: nat, r: nat)
    requires g.Ok() && x < g.fw && r < g.fh
    ensures g.Pixel(x, r) < g.w * g.h
  {
    var a, b := g.top + r, g.left + x;
    assert a + 1 <= g.h && b < g.w;
    MulMono(a + 1, g.h, g.w);
    assert (a + 1) * g.w == a * g.w + g.w;
  }

  lemma MulMono(a: nat, b: nat, m: nat)
    requires a <= b
    ensures a * m <= b * m
  {
  }

  /** Four bytes of an entry of the colour table, stored blue first. */
  function Colour(pal: seq<Byte>, index: Byte): (c: seq<Byte>)
    requires |pal| == 1024
    ensures |c| == 4
  {
    [pal[4 * index + 2], pal[4 * index + 1], pal[4 * index], pal[4 * index + 3]]
  }

  predicate Opaque(pal: seq<Byte>, index: Byte)
    requires |pal| == 1024
  {
    pal[4 * index + 3] > 128
  }

  function Render(img: seq<Byte>, pal: seq<Byte>, index: Byte, pixel: nat): (r: seq<Byte>)
    requires |pal| == 1024 && 4 * pixel + 4 <= |img|
    ensures |r| == |img|
  {
    if Opaque(pal, index) then img[..4 * pixel] + Colour(pal, index) + img[4 * pixel + 4..] else img
  }

  /** One index painted at the cursor; ignored when no row is left. */
  function Put(g: Geometry, pal: seq<Byte>, c: Canvas, index: Byte): (r: Canvas)
    requires |pal| == 1024 && CanvasOk(g, c)
    ensures CanvasOk(g, r)
  {
    if c.rows == [] then c
    else
      PixelInside(g, c.x, c.rows[0]);
      var p := g.Pixel(c.x, c.rows[0]);
      var wrap := c.x + 1 >= g.fw;
      Canvas(Render(c.img, pal, index, p), c.hist[p := 1],
             if wrap then 0 else c.x + 1, if wrap then c.rows[1..] else c.rows)
  }

  function PutAll(g: Geometry, pal: seq<Byte>, c: Canvas, px: seq<Byte>): (r: Canvas)
    requires |pal| == 1024 && CanvasOk(g, c)
    ensures CanvasOk(g, r)
    decreases |px|
  {
    if px == [] then c else PutAll(g, pal, Put(g, pal, c, px[0]), px[1..])
  }

  lemma {:induction false} PutAllConcat(g: Geometry, pal: seq<Byte>, c: Canvas, v: seq<Byte>, w: seq<Byte>)
    requires |pal| == 1024 && CanvasOk(g, c)
    ensures PutAll(g, pal, c, v + w) == PutAll(g, pal, PutAll(g, pal, c, v), w)
    decreases |v|
  {
    hide Put, CanvasOk;
    if v == [] {
      assert v + w == w;
    } else {
      PutAllConcat(g, pal, Put(g, pal, c, v[0]), v[1..], w);
      assert (v + w)[1..] == v[1..] + w;
    }
  }

  lemma PutOne(g: Geometry, pal: seq<Byte>, c: Canvas, index: Byte)
    requires |pal| == 1024 && CanvasOk(g, c)
    ensures PutAll(g, pal, c, [index]) == Put(g, pal, c, index)
  {
    hide Put, CanvasOk;
    assert [index][1..] == [];
    assert PutAll(g, pal, Put(g, pal, c, index), []) == Put(g, pal, c, index);
  }

  // ---------- which pixel each index lands on ----------

  ghost predicate Distinct(rows: seq<nat>) {
    forall i, j :: 0 <= i < j < |rows| ==> rows[i] != rows[j]
  }

  /** Whether the i-th index from here on is painted at all. */
  predicate Hits(g: Geometry, c: Canvas, i: nat) {
    g.fw > 0 && (c.x + i) / g.fw < |c.rows|
  }

  /** The pixel of the i-th index from here on: rows fill from left to right, one after the other. */
  function Target(g: Geometry, c: Canvas, i: nat): nat
    requires Hits(g, c, i)
  {
    g.Pixel((c.x + i) % g.fw, c.rows[(c.x + i) / g.fw])
  }

  lemma DivModOf(m: nat, q: nat, r: nat)
    requires r < m
    ensures (q * m + r) / m == q && (q * m + r) % m == r
  {
    var v := q * m + r;
    var d := v / m - q;
    assert v == m * (v / m) + v % m;
    assert m * d == r - v % m by {
      assert m * d == m * (v / m) - m * q;
    }
    ProductSign(m, d);
  }

  lemma PixelInjective(g: Geometry, x: nat, r: nat, x': nat, r': nat)
    requires g.Ok() && x < g.fw && x' < g.fw && g.Pixel(x, r) == g.Pixel(x', r')
    ensures x == x' && r == r'
  {
    DivModOf(g.w, g.top + r, g.left + x);
    DivModOf(g.w, g.top + r', g.left + x');
  }

  lemma StepColumn(n: nat, m: nat)
    requires m > 0 && n >= m
    ensures n / m == (n - m) / m + 1 && n % m == (n - m) % m
  {
    var q, r := (n - m) / m, (n - m) % m;
    assert n == (q + 1) * m + r;
    DivModOf(m, q + 1, r);
  }

  lemma SmallColumn(n: nat, m: nat)
    requires n < m
    ensures n / m == 0 && n % m == n
  {
    DivModOf(m, 0, n);
  }

  lemma TargetOfRest(g: Geometry, pal: seq<Byte>, c: Canvas, index: Byte, i: nat)
    requires |pal| == 1024 && CanvasOk(g, c) && i >= 1
    ensures Hits(g, Put(g, pal, c, index), i - 1) <==> Hits(g, c, i)
    ensures Hits(g, c, i) ==> Target(g, Put(g, pal, c, index), i - 1) == Target(g, c, i)
  {
    hide Render, Colour, Opaque;
    if c.rows != [] && c.x + 1 >= g.fw {
      StepColumn(c.x + i, g.fw);
    }
  }

  lemma TargetsDiffer(g: Geometry, c: Canvas, i: nat, j: nat)
    requires CanvasOk(g, c) && Distinct(c.rows) && Hits(g, c, i) && Hits(g, c, j) && i < j
    ensures Target(g, c, i) != Target(g, c, j)
  {
    hide Geometry.Pixel, CanvasOk, Distinct;
    DistinctAt(g, c, (c.x + i) / g.fw, (c.x + j) / g.fw);
    var a, b := c.x + i, c.x + j;
    if Target(g, c, i) == Target(g, c, j) {
      PixelInjective(g, a % g.fw, c.rows[a / g.fw], b % g.fw, c.rows[b / g.fw]);
      assert a / g.fw == b / g.fw;
      SameDivMod(a, b, g.fw);
    }
  }

  lemma DistinctAt(g: Geometry, c: Canvas, a: nat, b: nat)
    requires CanvasOk(g, c) && Distinct(c.rows) && a < |c.rows| && b < |c.rows|
    ensures g.Ok() && (c.rows[a] == c.rows[b] ==> a == b)
  {
  }

  lemma SameDivMod(a: nat, b: nat, m: nat)
    requires m > 0 && a / m == b / m && a % m == b % m
    ensures a == b
  {
    assert a == m * (a / m) + a % m && b == m * (b / m) + b % m;
  }

  /** The four bytes of a pixel. */
  function PixelBytes(img: seq<Byte>, pixel: nat): seq<Byte>
    requires 4 * pixel + 4 <= |img|
  {
    img[4 * pixel..4 * pixel + 4]
  }

  lemma RenderAt(img: seq<Byte>, pal: seq<Byte>, index: Byte, pixel: nat, q: nat)
    requires |pal| == 1024 && 4 * pixel + 4 <= |img| && 4 * q + 4 <= |img|
    ensures PixelBytes(Render(img, pal, index, pixel), q)
         == if q == pixel && Opaque(pal, index) then Colour(pal, index) else PixelBytes(img, q)
  {
    hide Colour, Opaque;
  }

  lemma PutAt(g: Geometry, pal: seq<Byte>, c: Canvas, index: Byte, q: nat)
    requires |pal| == 1024 && CanvasOk(g, c) && q < g.w * g.h
    ensures PixelBytes(Put(g, pal, c, index).img, q)
         == if Hits(g, c, 0) && q == Target(g, c, 0) && Opaque(pal, index) then Colour(pal, index)
            else PixelBytes(c.img, q)
    ensures c.rows != [] ==> Hits(g, c, 0)
  {
    hide Render, Colour, Opaque, PixelBytes;
    if c.rows != [] {
      SmallColumn(c.x, g.fw);
      PixelInside(g, c.x, c.rows[0]);
      RenderAt(c.img, pal, index, g.Pixel(c.x, c.rows[0]), q);
    }
  }

  /** A pixel that no index lands on keeps its bytes. */
  lemma {:induction false} Untouched(g: Geometry, pal: seq<Byte>, c: Canvas, px: seq<Byte>, q: nat)
    requires |pal| == 1024 && CanvasOk(g, c) && q < g.w * g.h
    requires forall i: nat :: i < |px| && Hits(g, c, i) ==> Target(g, c, i) != q
    ensures PixelBytes(PutAll(g, pal, c, px).img, q) == PixelBytes(c.img, q)
    decreases |px|
  {
    hide Put, Target, Hits, PixelBytes, Opaque, Colour;
    if px == [] {
    } else {
      var d := Put(g, pal, c, px[0]);
      PutAt(g, pal, c, px[0], q);
      forall i: nat | i < |px[1..]| && Hits(g, d, i) ensures Target(g, d, i) != q {
        TargetOfRest(g, pal, c, px[0], i + 1);
        assert Hits(g, c, i + 1);
      }
      Untouched(g, pal, d, px[1..], q);
    }
  }

  /** Every index that hits shows its colour, unless that is transparent; no later index paints over it. */
  lemma {:induction false} Painted(g: Geometry, pal: seq<Byte>, c: Canvas, px: seq<Byte>, i: nat)
    requires |pal| == 1024 && CanvasOk(g, c) && Distinct(c.rows)
    requires i < |px| && Hits(g, c, i)
    ensures Target(g, c, i) < g.w * g.h
    ensures PixelBytes(PutAll(g, pal, c, px).img, Target(g, c, i))
         == if Opaque(pal, px[i]) then Colour(pal, px[i]) else PixelBytes(c.img, Target(g, c, i))
    decreases |px|
  {
    hide Target, Hits, PixelBytes, Opaque, Colour;
    var q := Target(g, c, i);
    TargetInside(g, c, i);
    var d := Put(g, pal, c, px[0]);
    PutAt(g, pal, c, px[0], q);
    if i == 0 {
      forall j: nat | j < |px[1..]| && Hits(g, d, j) ensures Target(g, d, j) != q {
        TargetOfRest(g, pal, c, px[0], j + 1);
        TargetsDiffer(g, c, 0, j + 1);
      }
      Untouched(g, pal, d, px[1..], q);
    } else {
      TargetOfRest(g, pal, c, px[0], i);
      if Hits(g, c, 0) {
        TargetsDiffer(g, c, 0, i);
      }
      Painted(g, pal, d, px[1..], i - 1);
    }
  }

  lemma TargetInside(g: Geometry, c: Canvas, i: nat)
    requires CanvasOk(g, c) && Hits(g, c, i)
    ensures Target(g, c, i) < g.w * g.h
  {
    PixelInside(g, (c.x + i) % g.fw, c.rows[(c.x + i) / g.fw]);
  }

  /** A pixel is flagged exactly if it was before or some index lands on it. */
  lemma {:induction false} Flagged(g: Geometry, pal: seq<Byte>, c: Canvas, px: seq<Byte>, q: nat)
    requires |pal| == 1024 && CanvasOk(g, c) && q < g.w * g.h
    ensures PutAll(g, pal, c, px).hist[q] != 0 <==> c.hist[q] != 0 || Landed(g, c, |px|, q)
    decreases |px|
  {
    hide Put, Target, Hits;
    if px == [] {
    } else {
      var d := Put(g, pal, c, px[0]);
      FlaggedByOne(g, pal, c, px[0], q);
      Flagged(g, pal, d, px[1..], q);
      forall i: nat | i < |px| - 1
        ensures Hits(g, d, i) <==> Hits(g, c, i + 1)
        ensures Hits(g, d, i) ==> Target(g, d, i) == Target(g, c, i + 1)
      {
        TargetOfRest(g, pal, c, px[0], i + 1);
      }
      LandedLater(g, c, d, |px|, q);
    }
  }

  ghost predicate Landed(g: Geometry, c: Canvas, n: nat, q: nat) {
    exists i: nat :: i < n && Hits(g, c, i) && Target(g, c, i) == q
  }

  lemma LandedLater(g: Geometry, c: Canvas, d: Canvas, n: nat, q: nat)
    requires n >= 1
    requires forall i: nat :: i < n - 1 ==> (Hits(g, d, i) <==> Hits(g, c, i + 1))
    requires forall i: nat :: i < n - 1 && Hits(g, d, i) ==> Target(g, d, i) == Target(g, c, i + 1)
    ensures Landed(g, c, n, q) <==> Landed(g, d, n - 1, q) || (Hits(g, c, 0) && Target(g, c, 0) == q)
  {
    hide Target, Hits;
    if Landed(g, c, n, q) {
      var i: nat :| i < n && Hits(g, c, i) && Target(g, c, i) == q;
      if i > 0 {
        assert Hits(g, d, i - 1);
      }
    }
    if Landed(g, d, n - 1, q) {
      var i: nat :| i < n - 1 && Hits(g, d, i) && Target(g, d, i) == q;
      assert Hits(g, c, i + 1);
    }
  }

  lemma FlaggedByOne(g: Geometry, pal: seq<Byte>, c: Canvas, index: Byte, q: nat)
    requires |pal| == 1024 && CanvasOk(g, c) && q < g.w * g.h
    ensures Put(g, pal, c, index).hist[q] != 0 <==> c.hist[q] != 0 || (Hits(g, c, 0) && Target(g, c, 0) == q)
  {
    hide Render;
    if c.rows != [] {
      SmallColumn(c.x, g.fw);
      PixelInside(g, c.x, c.rows[0]);
    }
  }

  // ---------- a whole frame ----------

  lemma {:induction false} PlainOrder(y: nat, h: nat)
    requires y <= h
    ensures |Progression(y, 1, h)| == h - y
    decreases h - y
  {
    if y >= h {
    } else {
      PlainOrder(y + 1, h);
    }
  }

  lemma RowOrderRows(h: nat, interlaced: bool)
    ensures |RowOrder(h, interlaced)| == h && Distinct(RowOrder(h, interlaced))
    ensures forall i :: 0 <= i < h ==> RowOrder(h, interlaced)[i] < h
    ensures forall r :: 0 <= r < h ==> r in RowOrder(h, interlaced)
  {
    hide RowOrder;
    var a, b := RowOrder(h, interlaced), RowOrder(h, false);
    var ma: multiset<nat>, mb: multiset<nat> := multiset(a), multiset(b);
    forall r: nat ensures ma[r] == mb[r] && ma[r] == (if r < h then 1 else 0) {
      RowOrderIsPermutation(h, interlaced, r);
      RowOrderIsPermutation(h, false, r);
    }
    assert ma == mb;
    assert |a| == |ma| && |b| == |mb|;
    assert |b| == h by { PlainRows(h); }
    forall i, j | 0 <= i < j < |a| ensures a[i] != a[j] {
      TwiceInSeq(a, i, j);
    }
    forall i | 0 <= i < |a| ensures a[i] < h {
      assert a[i] in ma;
    }
    forall r | 0 <= r < h ensures r in a {
      assert r in ma;
    }
  }

  lemma PlainRows(h: nat)
    ensures |RowOrder(h, false)| == h
  {
    PlainOrder(0, h);
  }

  lemma TwiceInSeq(a: seq<nat>, i: nat, j: nat)
    requires i < j < |a|
    ensures a[i] == a[j] ==> multiset(a)[a[i]] >= 2
  {
    assert a == a[..j] + a[j..];
    assert a[..j][i] == a[i] && a[j..][0] == a[j];
    assert multiset(a) == multiset(a[..j]) + multiset(a[j..]);
    assert a[i] in multiset(a[..j]) && a[j] in multiset(a[j..]);
  }

  /** The canvas at the start of a frame. */
  function FrameStart(g: Geometry, img: seq<Byte>, hist: seq<Byte>, interlaced: bool): Canvas {
    Canvas(img, hist, 0, if g.fw == 0 then [] else RowOrder(g.fh, interlaced))
  }

  /** Every pixel of the rectangle is the target of exactly one of the first fw * fh indices. */
  lemma EveryPixelOnce(g: Geometry, img: seq<Byte>, hist: seq<Byte>, interlaced: bool, x: nat, r: nat) returns (i: nat)
    requires g.Ok() && x < g.fw && r < g.fh && |img| == 4 * (g.w * g.h) && |hist| == g.w * g.h
    ensures var c := FrameStart(g, img, hist, interlaced);
            && CanvasOk(g, c) && i < g.fw * g.fh
            && Hits(g, c, i) && Target(g, c, i) == g.Pixel(x, r)
            && forall j: nat :: Hits(g, c, j) && Target(g, c, j) == g.Pixel(x, r) ==> j == i
  {
    hide Target, RowOrder, Geometry.Pixel;
    var c := FrameStart(g, img, hist, interlaced);
    RowOrderRows(g.fh, interlaced);
    assert r in RowOrder(g.fh, interlaced);
    var k: nat :| k < |c.rows| && c.rows[k] == r;
    i := k * g.fw + x;
    DivModOf(g.fw, k, x);
    RowBound(k, g.fh, g.fw, x);
    TargetIs(g, c, i);
    forall j: nat | Hits(g, c, j) && Target(g, c, j) == g.Pixel(x, r) ensures j == i {
      if j < i {
        TargetsDiffer(g, c, j, i);
      } else if i < j {
        TargetsDiffer(g, c, i, j);
      }
    }
  }

  lemma TargetIs(g: Geometry, c: Canvas, i: nat)
    requires Hits(g, c, i)
    ensures Target(g, c, i) == g.Pixel((c.x + i) % g.fw, c.rows[(c.x + i) / g.fw])
  {
  }

  lemma RowBound(k: nat, n: nat, m: nat, x: nat)
    requires k < n && x < m
    ensures k * m + x < n * m
  {
    MulMono(k + 1, n, m);
    assert (k + 1) * m == k * m + m;
  }
}
