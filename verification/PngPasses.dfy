/** The seven passes of an interlaced PNG image (RFC 2083, section 2.6; lib/stb_image.h, stbi__create_png_image). */
module PngPasses {
  const XORIG: seq<nat> := [0, 4, 0, 2, 0, 1, 0]
  const YORIG: seq<nat> := [0, 0, 4, 0, 2, 0, 1]
  const XSPC: seq<nat> := [8, 8, 4, 4, 2, 2, 1]
  const YSPC: seq<nat> := [8, 8, 8, 4, 4, 2, 2]

  /** Arithmetic modulo 2^32. */
  function Wrap(x: int): (r: nat) {
    x % 0x1_0000_0000
  }

  /** The number of columns or rows of a pass, as computed with unsigned arithmetic. */
  function PassSize(n: nat, orig: nat, spc: nat): nat
    requires spc > 0
  {
    Quotient(Wrap(Wrap(Wrap(n - orig) + spc) - 1), spc)
  }

  function Quotient(a: nat, b: nat): nat
    requires b > 0
  {
    a / b
  }

  function PassWidth(x: nat, p: nat): nat
    requires p < 7
  {
    PassSize(x, XORIG[p], XSPC[p])
  }

  function PassHeight(y: nat, p: nat): nat
    requires p < 7
  {
    PassSize(y, YORIG[p], YSPC[p])
  }

  predicate IsPass(orig: nat, spc: nat) {
    (spc == 1 || spc == 2 || spc == 4 || spc == 8) && orig < spc
  }

  lemma Passes(p: nat)
    requires p < 7
    ensures IsPass(XORIG[p], XSPC[p]) && IsPass(YORIG[p], YSPC[p])
  {
  }

  /** Sizes below 2^32 - 8, even smaller than the origin of the pass, come out right. */
  lemma PassSizeIs(n: nat, orig: nat, spc: nat)
    requires IsPass(orig, spc) && n < 0xFFFF_FFF8
    ensures PassSize(n, orig, spc) == (n + spc - 1 - orig) / spc
  {
    hide Wrap;
    WrapIs(n - orig);
    WrapIs(Wrap(n - orig) + spc);
    WrapIs(n - orig + spc - 1);
  }

  lemma WrapIs(x: int)
    requires -8 <= x < 0x1_0000_0000 + 8
    ensures Wrap(x) == if x < 0 then x + 0x1_0000_0000 else if x < 0x1_0000_0000 then x else x - 0x1_0000_0000
  {
  }

  /** The pass counts exactly the columns, or rows, that are its own. */
  lemma InPass(n: nat, orig: nat, spc: nat, q: nat)
    requires IsPass(orig, spc) && n < 0xFFFF_FFF8
    ensures q % spc == orig && q < n <==> q == q / spc * spc + orig && q / spc < PassSize(n, orig, spc)
    ensures q < PassSize(n, orig, spc) ==>
              q * spc + orig < n && (q * spc + orig) / spc == q && (q * spc + orig) % spc == orig
  {
    hide PassSize;
    PassSizeIs(n, orig, spc);
    Multiples(n, orig, spc, q);
  }

  lemma Multiples(n: nat, orig: nat, spc: nat, q: nat)
    requires IsPass(orig, spc)
    ensures q % spc == orig && q < n <==> q == q / spc * spc + orig && q / spc < (n + spc - 1 - orig) / spc
    ensures q < (n + spc - 1 - orig) / spc ==> q * spc + orig < n
    ensures (q * spc + orig) / spc == q && (q * spc + orig) % spc == orig
  {
    if spc == 1 {
    } else if spc == 2 {
      MultiplesOf2(n, orig, q);
    } else if spc == 4 {
      MultiplesOf4(n, orig, q);
    } else {
      MultiplesOf8(n, orig, q);
    }
  }

  lemma MultiplesOf2(n: nat, orig: nat, q: nat)
    requires orig < 2
    ensures q % 2 == orig && q < n <==> q == q / 2 * 2 + orig && q / 2 < (n + 1 - orig) / 2
    ensures q < (n + 1 - orig) / 2 ==> q * 2 + orig < n
    ensures (q * 2 + orig) / 2 == q && (q * 2 + orig) % 2 == orig
  {
  }

  lemma MultiplesOf4(n: nat, orig: nat, q: nat)
    requires orig < 4
    ensures q % 4 == orig && q < n <==> q == q / 4 * 4 + orig && q / 4 < (n + 3 - orig) / 4
    ensures q < (n + 3 - orig) / 4 ==> q * 4 + orig < n
    ensures (q * 4 + orig) / 4 == q && (q * 4 + orig) % 4 == orig
  {
  }

  lemma MultiplesOf8(n: nat, orig: nat, q: nat)
    requires orig < 8
    ensures q % 8 == orig && q < n <==> q == q / 8 * 8 + orig && q / 8 < (n + 7 - orig) / 8
    ensures q < (n + 7 - orig) / 8 ==> q * 8 + orig < n
    ensures (q * 8 + orig) / 8 == q && (q * 8 + orig) % 8 == orig
  {
  }

  /** The pass that holds pixel (x, y). */
  function PassOf(x: nat, y: nat): (p: nat)
    ensures p < 7
  {
    if y % 2 == 1 then 6
    else if x % 2 == 1 then 5
    else if y % 4 == 2 then 4
    else if x % 4 == 2 then 3
    else if y % 8 == 4 then 2
    else if x % 8 == 4 then 1
    else 0
  }

  lemma PassOfIs(x: nat, y: nat, p: nat)
    requires p < 7
    ensures PassOf(x, y) == p <==> x % XSPC[p] == XORIG[p] && y % YSPC[p] == YORIG[p]
  {
    hide PassOf;
    Remainders(x);
    Remainders(y);
    PassOfSmall(x % 8, y % 8, p);
    PassOfRemainders(x, y);
  }

  lemma Remainders(n: nat)
    ensures n % 2 == n % 8 % 2 && n % 4 == n % 8 % 4 && n % 1 == 0
  {
  }

  lemma PassOfRemainders(x: nat, y: nat)
    requires x % 2 == x % 8 % 2 && x % 4 == x % 8 % 4 && y % 2 == y % 8 % 2 && y % 4 == y % 8 % 4
    ensures PassOf(x, y) == PassOf(x % 8, y % 8)
  {
  }

  lemma PassOfSmall(x: nat, y: nat, p: nat)
    requires x < 8 && y < 8 && p < 7
    ensures PassOf(x, y) == p <==> x % XSPC[p] == XORIG[p] && y % YSPC[p] == YORIG[p]
  {
    if p < 2 {
    } else if p < 4 {
    }
  }

  /** The passes of the pixels of every 8 by 8 square, numbered from 1 (RFC 2083, section 2.6). */
  const PATTERN: seq<seq<nat>> := [
    [1, 6, 4, 6, 2, 6, 4, 6],
    [7, 7, 7, 7, 7, 7, 7, 7],
    [5, 6, 5, 6, 5, 6, 5, 6],
    [7, 7, 7, 7, 7, 7, 7, 7],
    [3, 6, 4, 6, 3, 6, 4, 6],
    [7, 7, 7, 7, 7, 7, 7, 7],
    [5, 6, 5, 6, 5, 6, 5, 6],
    [7, 7, 7, 7, 7, 7, 7, 7]]

  lemma PassPattern(x: nat, y: nat)
    ensures PATTERN[y % 8][x % 8] == PassOf(x, y) + 1
  {
    hide PassOf;
    Remainders(x);
    Remainders(y);
    PassOfRemainders(x, y);
    SmallPattern(x % 8, y % 8);
  }

  lemma SmallPattern(x: nat, y: nat)
    requires x < 8 && y < 8
    ensures PATTERN[y][x] == PassOf(x, y) + 1
  {
  }

  predicate Holds(w: nat, h: nat, p: nat, i: nat, j: nat, x: nat, y: nat)
    requires p < 7
  {
    i < PassWidth(w, p) && j < PassHeight(h, p) && x == i * XSPC[p] + XORIG[p] && y == j * YSPC[p] + YORIG[p]
  }

  /** Every pixel of the image is one pixel of one pass, and no other. */
  lemma EveryPixelInOnePass(w: nat, h: nat, x: nat, y: nat)
    requires x < w < 0xFFFF_FFF8 && y < h < 0xFFFF_FFF8
    ensures var p := PassOf(x, y); Holds(w, h, p, x / XSPC[p], y / YSPC[p], x, y)
    ensures forall p: nat, i: nat, j: nat :: p < 7 && Holds(w, h, p, i, j, x, y) ==>
                                               p == PassOf(x, y) && i == x / XSPC[p] && j == y / YSPC[p]
  {
    hide PassOf, PassSize;
    var p := PassOf(x, y);
    PassOfIs(x, y, p);
    Passes(p);
    InPass(w, XORIG[p], XSPC[p], x);
    InPass(h, YORIG[p], YSPC[p], y);
    forall p: nat, i: nat, j: nat | p < 7 && Holds(w, h, p, i, j, x, y)
      ensures p == PassOf(x, y) && i == x / XSPC[p] && j == y / YSPC[p]
    {
      PassOfIs(x, y, p);
      PixelOfPass(w, h, p, i, j);
    }
  }

  /** Every pixel of a pass is inside the image. */
  lemma PixelOfPass(w: nat, h: nat, p: nat, i: nat, j: nat)
    requires w < 0xFFFF_FFF8 && h < 0xFFFF_FFF8 && p < 7 && i < PassWidth(w, p) && j < PassHeight(h, p)
    ensures var x, y := i * XSPC[p] + XORIG[p], j * YSPC[p] + YORIG[p];
            x < w && y < h && PassOf(x, y) == p && x / XSPC[p] == i && y / YSPC[p] == j
  {
    hide PassOf, PassSize;
    Passes(p);
    InPass(w, XORIG[p], XSPC[p], i);
    InPass(h, YORIG[p], YSPC[p], j);
    PassOfIs(i * XSPC[p] + XORIG[p], j * YSPC[p] + YORIG[p], p);
  }

  // ---------- counting ----------

  function PassPixels(w: nat, h: nat, p: nat): nat
    requires p < 7
  {
    PassWidth(w, p) * PassHeight(h, p)
  }

  /** Passes 0 to p - 1 together. */
  function PixelsBefore(w: nat, h: nat, p: nat): nat
    requires p <= 7
  {
    if p == 0 then 0 else PixelsBefore(w, h, p - 1) + PassPixels(w, h, p - 1)
  }

  /** The multiples of c are the multiples of 2 c and those that lie between them. */
  lemma Halves(n: nat)
    requires n < 0xFFFF_FFF8
    ensures PassSize(n, 0, 8) + PassSize(n, 4, 8) == PassSize(n, 0, 4)
    ensures PassSize(n, 0, 4) + PassSize(n, 2, 4) == PassSize(n, 0, 2)
    ensures PassSize(n, 0, 2) + PassSize(n, 1, 2) == PassSize(n, 0, 1) == n
  {
    hide PassSize;
    PassSizeIs(n, 0, 8);
    PassSizeIs(n, 4, 8);
    PassSizeIs(n, 0, 4);
    PassSizeIs(n, 2, 4);
    PassSizeIs(n, 0, 2);
    PassSizeIs(n, 1, 2);
    PassSizeIs(n, 0, 1);
    Eighths(n);
    Quarters(n);
  }

  lemma Eighths(n: nat)
    ensures (n + 7) / 8 + (n + 3) / 8 == (n + 3) / 4
  {
  }

  lemma Quarters(n: nat)
    ensures (n + 3) / 4 + (n + 1) / 4 == (n + 1) / 2 && (n + 1) / 2 + n / 2 == n
  {
  }

  lemma Distribute(a: nat, b: nat, c: nat)
    ensures a * c + b * c == (a + b) * c && c * a + c * b == c * (a + b)
  {
  }

  /** The seven passes together have as many pixels as the image. */
  lemma PassesAddUp(w: nat, h: nat)
    requires w < 0xFFFF_FFF8 && h < 0xFFFF_FFF8
    ensures PixelsBefore(w, h, 7) == w * h
  {
    hide PassSize, PixelsBefore;
    Halves(w);
    Halves(h);
    Distribute(PassSize(w, 0, 8), PassSize(w, 4, 8), PassSize(h, 0, 8));
    Distribute(PassSize(h, 0, 8), PassSize(h, 4, 8), PassSize(w, 0, 4));
    Distribute(PassSize(w, 0, 4), PassSize(w, 2, 4), PassSize(h, 0, 4));
    Distribute(PassSize(h, 0, 4), PassSize(h, 2, 4), PassSize(w, 0, 2));
    Distribute(PassSize(w, 0, 2), PassSize(w, 1, 2), PassSize(h, 0, 2));
    Distribute(PassSize(h, 0, 2), PassSize(h, 1, 2), w);
    PassesListed(w, h);
  }

  lemma PassesListed(w: nat, h: nat)
    ensures PixelsBefore(w, h, 7)
         == PassSize(w, 0, 8) * PassSize(h, 0, 8) + PassSize(w, 4, 8) * PassSize(h, 0, 8)
          + PassSize(w, 0, 4) * PassSize(h, 4, 8) + PassSize(w, 2, 4) * PassSize(h, 0, 4)
          + PassSize(w, 0, 2) * PassSize(h, 2, 4) + PassSize(w, 1, 2) * PassSize(h, 0, 2)
          + PassSize(w, 0, 1) * PassSize(h, 1, 2)
  {
    hide PassSize, PixelsBefore;
    BeforeStep(w, h, 1);
    BeforeStep(w, h, 2);
    BeforeStep(w, h, 3);
    BeforeStep(w, h, 4);
    BeforeStep(w, h, 5);
    BeforeStep(w, h, 6);
    BeforeStep(w, h, 7);
  }

  lemma BeforeStep(w: nat, h: nat, p: nat)
    requires 1 <= p <= 7
    ensures PixelsBefore(w, h, p) == PixelsBefore(w, h, p - 1) + PassPixels(w, h, p - 1) && PixelsBefore(w, h, 0) == 0
  {
  }
}
