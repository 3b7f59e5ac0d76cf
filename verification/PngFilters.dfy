/** The scanline filters of PNG (RFC 2083, section 6), and images of filtered rows. */
module PngFilters {
  import opened Bits

  const NONE: nat := 0
  const SUB: nat := 1
  const UP: nat := 2
  const AVG: nat := 3
  const PAETH: nat := 4

  function Abs(x: int): nat {
    if x < 0 then -x else x
  }

  /** The neighbour closest to a + b - c: a if it is, else b if it is, else c. */
  function Paeth(a: int, b: int, c: int): int {
    var p := a + b - c;
    var pa, pb, pc := Abs(p - a), Abs(p - b), Abs(p - c);
    if pa <= pb && pa <= pc then a else if pb <= pc then b else c
  }

  /** Of the three neighbours it is one closest to a + b - c; a wins ties, then b. */
  lemma PaethIsClosest(a: int, b: int, c: int)
    ensures var p, r := a + b - c, Paeth(a, b, c);
            && (r == a || r == b || r == c)
            && Abs(p - r) <= Abs(p - a) && Abs(p - r) <= Abs(p - b) && Abs(p - r) <= Abs(p - c)
            && (Abs(p - a) == Abs(p - r) ==> r == a)
            && (Abs(p - b) == Abs(p - r) && Abs(p - a) > Abs(p - r) ==> r == b)
  {
  }

  /** What filter f predicts from the bytes to the left, above, and above to the left. */
  function Predict(f: nat, a: Byte, b: Byte, c: Byte): (r: Byte) {
    if f == SUB then a
    else if f == UP then b
    else if f == AVG then (a + b) / 2
    else if f == PAETH then Paeth(a, b, c)
    else 0
  }

  /** The byte of row s that is one pixel to the left of position i: zero at the first pixel. */
  function LeftOf(s: seq<Byte>, i: nat, bpp: nat): Byte {
    if bpp <= i < |s| + bpp then s[i - bpp] else 0
  }

  /** Undoes the filter: the first n bytes of a row from its filtered bytes and the row above. */
  function Recon(f: nat, bpp: nat, filtered: seq<Byte>, prior: seq<Byte>, n: nat): (r: seq<Byte>)
    requires n <= |filtered| == |prior| && bpp >= 1
    ensures |r| == n
  {
    if n == 0 then []
    else
      var r := Recon(f, bpp, filtered, prior, n - 1);
      r + [(filtered[n - 1] + Predict(f, LeftOf(r, n - 1, bpp), prior[n - 1], LeftOf(prior, n - 1, bpp))) % 256]
  }

  /** Applies the filter. */
  function Filtered(f: nat, bpp: nat, row: seq<Byte>, prior: seq<Byte>): (r: seq<Byte>)
    requires |row| == |prior| && bpp >= 1
    ensures |r| == |row|
  {
    seq(|row|, i requires 0 <= i < |row| =>
      (row[i] - Predict(f, LeftOf(row, i, bpp), prior[i], LeftOf(prior, i, bpp))) % 256)
  }

  // ---------- filtering is undone ----------

  lemma LeftOfPrefix(s: seq<Byte>, n: nat, bpp: nat)
    requires n < |s| && bpp >= 1
    ensures LeftOf(s[..n], n, bpp) == LeftOf(s, n, bpp)
  {
  }

  lemma AddBack(x: Byte, y: Byte)
    ensures ((x - y) % 256 + y) % 256 == x
    ensures ((x + y) % 256 - y) % 256 == x
  {
  }

  lemma {:induction false} ReconPrefix(f: nat, bpp: nat, row: seq<Byte>, prior: seq<Byte>, n: nat)
    requires n <= |row| == |prior| && bpp >= 1
    ensures Recon(f, bpp, Filtered(f, bpp, row, prior), prior, n) == row[..n]
  {
    hide Predict, LeftOf;
    if n == 0 {
    } else {
      ReconPrefix(f, bpp, row, prior, n - 1);
      LeftOfPrefix(row, n - 1, bpp);
      AddBack(row[n - 1], Predict(f, LeftOf(row, n - 1, bpp), prior[n - 1], LeftOf(prior, n - 1, bpp)));
    }
  }

  /** Undoing a filter restores the row, whatever the filter, the pixel size and the row above. */
  lemma ReconOfFiltered(f: nat, bpp: nat, row: seq<Byte>, prior: seq<Byte>)
    requires |row| == |prior| && bpp >= 1
    ensures Recon(f, bpp, Filtered(f, bpp, row, prior), prior, |row|) == row
  {
    ReconPrefix(f, bpp, row, prior, |row|);
    assert row[..|row|] == row;
  }

  lemma {:induction false} ReconStable(f: nat, bpp: nat, filtered: seq<Byte>, prior: seq<Byte>, m: nat, n: nat)
    requires m <= n <= |filtered| == |prior| && bpp >= 1
    ensures Recon(f, bpp, filtered, prior, m) == Recon(f, bpp, filtered, prior, n)[..m]
  {
    if m >= n {
    } else {
      ReconStable(f, bpp, filtered, prior, m, n - 1);
    }
  }

  lemma ReconAt(f: nat, bpp: nat, filtered: seq<Byte>, prior: seq<Byte>, i: nat)
    requires i < |filtered| == |prior| && bpp >= 1
    ensures var r := Recon(f, bpp, filtered, prior, |filtered|);
            r[i] == (filtered[i] + Predict(f, LeftOf(r, i, bpp), prior[i], LeftOf(prior, i, bpp))) % 256
  {
    hide Predict, LeftOf;
    var r := Recon(f, bpp, filtered, prior, |filtered|);
    ReconStable(f, bpp, filtered, prior, i, |filtered|);
    ReconStable(f, bpp, filtered, prior, i + 1, |filtered|);
    LeftOfPrefix(r, i, bpp);
    assert r[i] == r[..i + 1][i];
  }

  /** Of the bytes a, b and c it is v that is nearest to a + b - c; a goes before b, and b before c. */
  predicate Nearest(v: int, a: int, b: int, c: int) {
    var p := a + b - c;
    || (v == a && Abs(p - a) <= Abs(p - b) && Abs(p - a) <= Abs(p - c))
    || (v == b && Abs(p - b) < Abs(p - a) && Abs(p - b) <= Abs(p - c))
    || (v == c && Abs(p - c) < Abs(p - a) && Abs(p - c) < Abs(p - b))
  }

  /**
   What filter types 0 to 4 say of a byte r of the image, its filtered byte, and the bytes to the left, above, and above
   to the left (sections 6.2 to 6.6).
   */
  ghost predicate Obeys(filter: int, filtered: int, left: int, above: int, corner: int, r: int) {
    if filter == 0 then r == filtered
    else if filter == 1 then r == (filtered + left) % 256
    else if filter == 2 then r == (filtered + above) % 256
    else if filter == 3 then r == (filtered + (left + above) / 2) % 256
    else filter == 4 && exists v :: Nearest(v, left, above, corner) && r == (filtered + v) % 256
  }

  /** Every byte of an undone row obeys its filter; to the left of the row there are zeros. */
  lemma ReconObeys(f: nat, bpp: nat, filtered: seq<Byte>, prior: seq<Byte>, i: nat)
    requires i < |filtered| == |prior| && bpp >= 1 && f <= 4
    ensures var r := Recon(f, bpp, filtered, prior, |filtered|);
            Obeys(f, filtered[i], if i < bpp then 0 else r[i - bpp], prior[i], if i < bpp then 0 else prior[i - bpp],
                  r[i])
  {
    hide Recon, Paeth;
    ReconAt(f, bpp, filtered, prior, i);
    var r := Recon(f, bpp, filtered, prior, |filtered|);
    PaethIsNearest(LeftOf(r, i, bpp), prior[i], LeftOf(prior, i, bpp));
  }

  lemma PaethIsNearest(a: int, b: int, c: int)
    ensures Nearest(Paeth(a, b, c), a, b, c)
  {
  }

  /** Every row of bytes is the filtered form of exactly one row. */
  lemma FilteredOfRecon(f: nat, bpp: nat, filtered: seq<Byte>, prior: seq<Byte>)
    requires |filtered| == |prior| && bpp >= 1
    ensures Filtered(f, bpp, Recon(f, bpp, filtered, prior, |filtered|), prior) == filtered
  {
    hide Predict, LeftOf, Recon;
    var r := Recon(f, bpp, filtered, prior, |filtered|);
    forall i | 0 <= i < |filtered| ensures Filtered(f, bpp, r, prior)[i] == filtered[i] {
      ReconAt(f, bpp, filtered, prior, i);
      AddBack(filtered[i], Predict(f, LeftOf(r, i, bpp), prior[i], LeftOf(prior, i, bpp)));
    }
  }

  // ---------- the substitutes used in the first row ----------

  const AVG_FIRST: nat := 5
  const PAETH_FIRST: nat := 6
  const FIRST_ROW: seq<nat> := [NONE, SUB, NONE, AVG_FIRST, PAETH_FIRST]

  /** What the decoder adds, for the filters of the format and the two that do not look at the row above. */
  function Added(f: nat, a: Byte, b: Byte, c: Byte): (r: Byte) {
    if f == AVG_FIRST then a / 2
    else if f == PAETH_FIRST then Paeth(a, 0, 0)
    else Predict(f, a, b, c)
  }

  /** What the decoder adds in the first pixel of a row. */
  function AddedFirst(f: nat, b: Byte): (r: Byte) {
    if f == UP then b
    else if f == AVG then b / 2
    else if f == PAETH then Paeth(0, b, 0)
    else 0
  }

  /** In the first row the substitutes act as the filters of the format do below a row of zeros. */
  lemma FirstRowSubstitutes(f: nat, a: Byte, b: Byte, c: Byte)
    requires f <= 4
    ensures Added(FIRST_ROW[f], a, b, c) == Predict(f, a, 0, 0)
    ensures AddedFirst(FIRST_ROW[f], b) == Predict(f, 0, 0, 0)
  {
  }

  /** In the first pixel of a row there is nothing to the left. */
  lemma FirstPixel(f: nat, b: Byte)
    requires f <= 4
    ensures AddedFirst(f, b) == Predict(f, 0, b, 0) && Added(f, 0, b, 0) == Predict(f, 0, b, 0)
  {
  }

  // ---------- images ----------

  /** n times size */
  function Times(n: nat, size: nat): nat {
    if n == 0 then 0 else Times(n - 1, size) + size
  }

  lemma {:induction false} TimesMono(m: nat, n: nat, size: nat)
    requires m < n
    ensures Times(m, size) + size <= Times(n, size)
    decreases n
  {
    if m >= n - 1 {
    } else {
      TimesMono(m, n - 1, size);
    }
  }

  lemma {:induction false} TimesIs(n: nat, size: nat)
    ensures Times(n, size) == n * size
  {
    if n == 0 {
    } else {
      TimesIs(n - 1, size);
    }
  }

  function Zeros(n: nat): (r: seq<Byte>)
    ensures |r| == n
  {
    seq(n, _ => 0)
  }

  /** The filter type of row j, where rows take w bytes each behind one byte of filter type. */
  function FilterOf(raw: seq<Byte>, w: nat, j: nat): Byte
    requires Times(j + 1, w + 1) <= |raw|
  {
    raw[Times(j, w + 1)]
  }

  function RowBytes(raw: seq<Byte>, w: nat, j: nat): (r: seq<Byte>)
    requires Times(j + 1, w + 1) <= |raw|
    ensures |r| == w
  {
    raw[Times(j, w + 1) + 1..Times(j, w + 1) + 1 + w]
  }

  /** Row j of the image that raw encodes. */
  function ReconRow(raw: seq<Byte>, w: nat, bpp: nat, j: nat): (r: seq<Byte>)
    requires Times(j + 1, w + 1) <= |raw| && bpp >= 1
    ensures |r| == w
    decreases j, 1
  {
    Recon(FilterOf(raw, w, j), bpp, RowBytes(raw, w, j), RowAbove(raw, w, bpp, j), w)
  }

  function RowAbove(raw: seq<Byte>, w: nat, bpp: nat, j: nat): (r: seq<Byte>)
    requires Times(j + 1, w + 1) <= |raw| && bpp >= 1
    ensures |r| == w
    decreases j, 0
  {
    if j == 0 then Zeros(w) else ReconRow(raw, w, bpp, j - 1)
  }

  /** The first n rows of an image, filtered by the given filters. */
  function Encoded(rows: seq<seq<Byte>>, filters: seq<Byte>, w: nat, bpp: nat, n: nat): (r: seq<Byte>)
    requires n <= |rows| == |filters| && (forall j :: 0 <= j < |rows| ==> |rows[j]| == w) && bpp >= 1
    ensures |r| == Times(n, w + 1)
  {
    if n == 0 then []
    else Encoded(rows, filters, w, bpp, n - 1) + [filters[n - 1]]
         + Filtered(filters[n - 1], bpp, rows[n - 1], if n == 1 then Zeros(w) else rows[n - 2])
  }

  lemma {:induction false} EncodedPrefix(rows: seq<seq<Byte>>, filters: seq<Byte>, w: nat, bpp: nat, m: nat, n: nat)
    requires m <= n <= |rows| == |filters| && (forall j :: 0 <= j < |rows| ==> |rows[j]| == w) && bpp >= 1
    ensures Times(m, w + 1) <= Times(n, w + 1)
    ensures Encoded(rows, filters, w, bpp, m) == Encoded(rows, filters, w, bpp, n)[..Times(m, w + 1)]
  {
    hide Filtered, Zeros;
    if m >= n {
    } else {
      EncodedPrefix(rows, filters, w, bpp, m, n - 1);
    }
  }

  /** Decoding what was encoded gives every row back, for every choice of filters and whatever follows. */
  lemma {:induction false} ReconOfEncoded(rows: seq<seq<Byte>>, filters: seq<Byte>, w: nat, bpp: nat, j: nat,
                                          raw: seq<Byte>)
    requires j < |rows| == |filters| && (forall i :: 0 <= i < |rows| ==> |rows[i]| == w) && bpp >= 1
    requires Encoded(rows, filters, w, bpp, |rows|) <= raw
    ensures Times(j + 1, w + 1) <= Times(|rows|, w + 1) <= |raw|
    ensures FilterOf(raw, w, j) == filters[j] && ReconRow(raw, w, bpp, j) == rows[j]
    decreases j
  {
    hide Filtered, Recon;
    var above := if j == 0 then Zeros(w) else rows[j - 1];
    EncodedPrefix(rows, filters, w, bpp, j + 1, |rows|);
    RowOfEncoded(rows, filters, w, bpp, j, raw);
    if j > 0 {
      ReconOfEncoded(rows, filters, w, bpp, j - 1, raw);
    }
    ReconOfFiltered(filters[j], bpp, rows[j], above);
  }

  lemma RowOfEncoded(rows: seq<seq<Byte>>, filters: seq<Byte>, w: nat, bpp: nat, j: nat, raw: seq<Byte>)
    requires j < |rows| == |filters| && (forall i :: 0 <= i < |rows| ==> |rows[i]| == w) && bpp >= 1
    requires Times(j + 1, w + 1) <= |raw| && raw[..Times(j + 1, w + 1)] == Encoded(rows, filters, w, bpp, j + 1)
    ensures FilterOf(raw, w, j) == filters[j]
    ensures RowBytes(raw, w, j) == Filtered(filters[j], bpp, rows[j], if j == 0 then Zeros(w) else rows[j - 1])
  {
    hide Filtered, Zeros;
    var t, n := Times(j, w + 1), Times(j + 1, w + 1);
    var head := Encoded(rows, filters, w, bpp, j);
    var row := Filtered(filters[j], bpp, rows[j], if j == 0 then Zeros(w) else rows[j - 1]);
    assert raw[..n] == head + [filters[j]] + row;
    assert raw[t] == raw[..n][t];
    assert raw[t + 1..n] == raw[..n][t + 1..];
  }
}
