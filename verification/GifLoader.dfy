/** The GIF raster decoder (lib/stb_image.h, stbi__gif): code table, bit accumulator, and pixel cursor. */
module GifLoader {
  import opened Wrappers
  import opened Bits
  import opened GifSpec
  import opened GifCanvas
  import opened Contexts

  // ---------- the rows the cursor still has to visit ----------

  /** From row y in steps of step; then, while passes remain, the next interlace pass. */
  function RowsFrom(y: nat, step: nat, parse: nat, h: nat): seq<nat>
    requires step >= 1
    decreases parse, h - y
  {
    if y < h then [y] + RowsFrom(y + step, step, parse, h)
    else if parse > 0 then RowsFrom(Pow2(parse - 1), Pow2(parse), parse - 1, h)
    else []
  }

  lemma {:induction false} RowsOfPass(y: nat, step: nat, parse: nat, h: nat)
    requires step >= 1
    ensures RowsFrom(y, step, parse, h)
         == Progression(y, step, h) + (if parse > 0 then RowsFrom(Pow2(parse - 1), Pow2(parse), parse - 1, h) else [])
    decreases h - y
  {
    if y >= h {
    } else {
      RowsOfPass(y + step, step, parse, h);
    }
  }

  lemma StartRows(h: nat, interlaced: bool)
    ensures RowsFrom(0, if interlaced then 8 else 1, if interlaced then 3 else 0, h) == RowOrder(h, interlaced)
  {
    hide Progression, RowsFrom;
    Pow2Table();
    if interlaced {
      RowsOfPass(0, 8, 3, h);
      RowsOfPass(4, 8, 2, h);
      RowsOfPass(2, 4, 1, h);
      RowsOfPass(1, 2, 0, h);
      assert Pow2(0) == 1;
      var a, b, c, d := Progression(0, 8, h), Progression(4, 8, h), Progression(2, 4, h), Progression(1, 2, h);
      assert a + (b + (c + (d + []))) == a + b + c + d;
    } else {
      RowsOfPass(0, 1, 0, h);
    }
  }

  lemma NoRows(interlaced: bool)
    ensures RowOrder(0, interlaced) == []
  {
  }

  lemma {:induction false} RowsBelow(y: nat, step: nat, parse: nat, h: nat)
    requires step >= 1
    ensures forall i :: 0 <= i < |RowsFrom(y, step, parse, h)| ==> RowsFrom(y, step, parse, h)[i] < h
    decreases parse, h - y
  {
    if y < h {
      RowsBelow(y + step, step, parse, h);
    } else if parse > 0 {
      RowsBelow(Pow2(parse - 1), Pow2(parse), parse - 1, h);
    }
  }

  // ---------- the code table ----------

  /** The arrays represent the table: each entry is its prefix entry's string and one more byte. */
  ghost predicate TableOk(prefix: seq<int>, first: seq<Byte>, suffix: seq<Byte>, m: nat, table: seq<seq<Byte>>) {
    && |prefix| == |first| == |suffix| == MAX_CODES
    && Pow2(m) + 2 <= |table| <= MAX_CODES
    && forall i :: 0 <= i < |table| && !Special(m, i) ==> EntryOk(prefix, first, suffix, m, table, i)
  }

  ghost predicate EntryOk(prefix: seq<int>, first: seq<Byte>, suffix: seq<Byte>, m: nat, table: seq<seq<Byte>>, i: nat)
    requires |prefix| == |first| == |suffix| == MAX_CODES && |table| <= MAX_CODES && i < |table|
  {
    var t := table[i];
    && t != [] && first[i] == t[0] && suffix[i] == t[|t| - 1]
    && if prefix[i] < 0 then |t| == 1
       else prefix[i] < i && !Special(m, prefix[i]) && table[prefix[i]] == t[..|t| - 1]
  }

  lemma TableSize(prefix: seq<int>, first: seq<Byte>, suffix: seq<Byte>, m: nat, table: seq<seq<Byte>>)
    requires TableOk(prefix, first, suffix, m, table)
    ensures Pow2(m) + 2 <= |table| <= MAX_CODES
  {
  }

  lemma EntryParts(prefix: seq<int>, first: seq<Byte>, suffix: seq<Byte>, m: nat, table: seq<seq<Byte>>, i: nat)
    returns (head: seq<Byte>)
    requires TableOk(prefix, first, suffix, m, table) && i < |table| && !Special(m, i)
    ensures table[i] == head + [suffix[i]] && first[i] == table[i][0]
    ensures if prefix[i] < 0 then head == []
            else prefix[i] < i && !Special(m, prefix[i]) && head == table[prefix[i]]
  {
    hide Special, Pow2;
    assert EntryOk(prefix, first, suffix, m, table, i);
    head := table[i][..|table[i]| - 1];
  }

  lemma EntryKept(prefix: seq<int>, first: seq<Byte>, suffix: seq<Byte>, m: nat, table: seq<seq<Byte>>,
                  entry: seq<Byte>, i: nat, k: nat, x: int, y: Byte, z: Byte)
    requires |prefix| == |first| == |suffix| == MAX_CODES && |table| < MAX_CODES && i < |table| <= k < MAX_CODES
    requires EntryOk(prefix, first, suffix, m, table, i)
    ensures EntryOk(prefix[k := x], first[k := y], suffix[k := z], m, table + [entry], i)
  {
  }

  /** Entering the string of `last` followed by the first byte of the string of `code`. */
  lemma TableGrows(prefix: seq<int>, first: seq<Byte>, suffix: seq<Byte>, m: nat, table: seq<seq<Byte>>,
                   last: nat, chunk: seq<Byte>)
    requires TableOk(prefix, first, suffix, m, table) && |table| < MAX_CODES
    requires last < |table| && !Special(m, last) && chunk != []
    ensures var k := |table|;
            table[last] != []
            && TableOk(prefix[k := last], first[k := table[last][0]], suffix[k := chunk[0]], m,
                       table + [table[last] + [chunk[0]]])
  {
    hide Special;
    var k := |table|;
    assert EntryOk(prefix, first, suffix, m, table, last);
    var entry := table[last] + [chunk[0]];
    forall i | 0 <= i < k && !Special(m, i)
      ensures EntryOk(prefix[k := last], first[k := table[last][0]], suffix[k := chunk[0]], m, table + [entry], i)
    {
      EntryKept(prefix, first, suffix, m, table, entry, i, k, last, table[last][0], chunk[0]);
    }
    assert entry[..|entry| - 1] == table[last];
  }

  // ---------- positions in bytes ----------

  lemma ScaledCompare(a: nat, b: nat, m: nat)
    requires m > 0
    ensures a * m >= b * m <==> a >= b
  {
    if a >= b {
      MulMono(b, a, m);
    } else {
      MulMono(a + 1, b, m);
      assert (a + 1) * m == a * m + m;
    }
  }

  /** The byte index of the cursor is four times its pixel number. */
  lemma ByteIndex(g: Geometry, x: nat, r: nat)
    ensures 4 * g.left + 4 * x + (g.top * (4 * g.w) + r * (4 * g.w)) == 4 * g.Pixel(x, r)
  {
    var a, b, m := g.top, r, g.w;
    assert a * (4 * m) == 4 * (a * m);
    assert b * (4 * m) == 4 * (b * m);
    assert (a + b) * m == a * m + b * m;
  }

  lemma HalfOfPower(n: nat, m: nat)
    requires n >= 1
    ensures Pow2(n) * m / 2 == Pow2(n - 1) * m
  {
    var a := Pow2(n - 1);
    assert Pow2(n) * m == 2 * (a * m) by {
      assert Pow2(n) == 2 * a;
      assert (2 * a) * m == 2 * (a * m);
    }
  }

  lemma UnitScale(m: nat)
    ensures 0 * m == 0 && 1 * m == m
  {
  }

  lemma AddScaled(a: nat, b: nat, m: nat)
    ensures a * m + b * m == (a + b) * m
  {
  }

  class Gif {
    const w: nat
    const h: nat
    const out: array<Byte>
    const history: array<Byte>
    const prefix: array<int>
    const first: array<Byte>
    const suffix: array<Byte>
    const colorTable: seq<Byte>

    var step: nat
    var parse: nat
    var startX: nat
    var startY: nat
    var maxX: nat
    var maxY: nat
    var curX: nat
    var curY: nat
    var lineSize: nat

    ghost var geo: Geometry
    /** The cursor in pixels: column and row of the rectangle, and the rows per step. */
    ghost var col: nat
    ghost var row: nat
    ghost var stride: nat

    /** A loader for a w by h image, whose pixels start out transparent. */
    constructor (w: nat, h: nat, colorTable: seq<Byte>)
      requires |colorTable| == 1024
      ensures this.w == w && this.h == h && this.colorTable == colorTable
      ensures Shape() && fresh(out) && fresh(history) && fresh(prefix) && fresh(first) && fresh(suffix)
      ensures forall i :: 0 <= i < out.Length ==> out[i] == 0
      ensures forall i :: 0 <= i < history.Length ==> history[i] == 0
    {
      this.w, this.h, this.colorTable := w, h, colorTable;
      var o, hi := new Byte[4 * (w * h)](_ => 0), new Byte[w * h](_ => 0);
      var p, f, s := new int[MAX_CODES], new Byte[MAX_CODES], new Byte[MAX_CODES];
      out, history, prefix, first, suffix := o, hi, p, f, s;
      step, parse, startX, startY, maxX, maxY, curX, curY, lineSize := 0, 0, 0, 0, 0, 0, 0, 0, 0;
      geo := Geometry(w, h, 0, 0, 0, 0);
      col, row, stride := 0, 0, 1;
    }

    /** Places the cursor at the start of a frame's rectangle; fails if the rectangle leaves the image. */
    method SetFrame(x: nat, y: nat, fw: nat, fh: nat, interlaced: bool) returns (ok: bool)
      requires Shape()
      modifies `step, `parse, `startX, `startY, `maxX, `maxY, `curX, `curY, `lineSize, `geo, `col, `row, `stride
      ensures Shape() && (ok <==> x + fw <= w && y + fh <= h)
      ensures ok ==> Cursor() && geo == Geometry(w, h, x, y, fw, fh)
      ensures ok ==> Abstract() == FrameStart(geo, out[..], history[..], interlaced)
    {
      hide RowsFrom, RowOrder, Pow2, Geometry.Pixel, Layout;
      if x + fw > w || y + fh > h {
        return false;
      }
      SetRectangle(x, y, fw, fh);
      col, row := 0, 0;
      if interlaced {
        step, stride := 8 * lineSize, 8;
        parse := 3;
      } else {
        step, stride := lineSize, 1;
        parse := 0;
      }
      UnitScale(lineSize);
      StartRows(fh, interlaced);
      NoRows(interlaced);
      ok := true;
    }

    /** The edges of the rectangle in bytes, and the cursor at its first pixel. */
    method SetRectangle(x: nat, y: nat, fw: nat, fh: nat)
      requires Shape() && x + fw <= w && y + fh <= h
      modifies `startX, `startY, `maxX, `maxY, `curX, `curY, `lineSize, `geo
      ensures Shape() && Layout() && geo == Geometry(w, h, x, y, fw, fh)
      ensures curX == startX && curY == if fw == 0 then maxY else startY
    {
      geo := Geometry(w, h, x, y, fw, fh);
      lineSize := w * 4;
      startX := x * 4;
      startY := y * lineSize;
      maxX := startX + fw * 4;
      maxY := startY + fh * lineSize;
      curX := startX;
      curY := startY;
      if fw == 0 {
        curY := maxY;
      }
    }

    // ---------- the pixel cursor ----------

    ghost predicate Shape()
      reads `geo
    {
      && geo.Ok() && geo.w == w && geo.h == h
      && out.Length == 4 * (w * h) && history.Length == w * h && |colorTable| == 1024
      && prefix.Length == first.Length == suffix.Length == MAX_CODES
      && out != history && out != first && out != suffix && history != first && history != suffix && first != suffix
    }

    ghost predicate Layout()
      reads `geo, `startX, `startY, `maxX, `maxY, `lineSize
    {
      && lineSize == 4 * w
      && startX == 4 * geo.left && maxX == startX + 4 * geo.fw
      && startY == geo.top * lineSize && maxY == startY + geo.fh * lineSize
    }

    ghost function Rows(): seq<nat>
      reads `geo, `row, `stride, `parse
      requires stride >= 1
    {
      if geo.fw == 0 then [] else RowsFrom(row, stride, parse, geo.fh)
    }

    ghost predicate RowCursor()
      reads `geo, `startX, `startY, `maxX, `maxY, `lineSize, `curY, `step, `parse, `row, `stride
    {
      && Layout() && stride >= 1
      && (geo.fw == 0 ==> curY == maxY)
      && (geo.fw > 0 ==>
            && curY == startY + row * lineSize && step == stride * lineSize
            && (row >= geo.fh ==> Rows() == []))
    }

    ghost predicate Cursor()
      reads `geo, `startX, `startY, `maxX, `maxY, `lineSize, `curX, `curY, `step, `parse, `col, `row, `stride
    {
      RowCursor() && (geo.fw > 0 ==> col < geo.fw && curX == startX + 4 * col)
    }

    ghost function Abstract(): Canvas
      reads `geo, `row, `stride, `parse, `col, out, history
      requires stride >= 1
    {
      Canvas(out[..], history[..], col, Rows())
    }

    /** The cursor tests against the lower edge tells whether rows are left. */
    lemma EdgeTest()
      requires Shape() && Cursor()
      ensures curY >= maxY <==> Rows() == []
      ensures CanvasOk(geo, Abstract())
    {
      hide RowsFrom;
      if geo.fw > 0 {
        ScaledCompare(row, geo.fh, lineSize);
        RowsBelow(row, stride, parse, geo.fh);
        RowsStep(row, stride, parse, geo.fh);
      }
    }

    /** To the start of the next row, or of the next pass that has one. */
    method NextRow()
      requires Shape() && RowCursor() && geo.fw > 0 && row < geo.fh
      modifies `curX, `curY, `step, `parse, `col, `row, `stride
      ensures Cursor() && col == 0 && Rows() == old(Rows())[1..]
    {
      hide RowsFrom, Pow2;
      RowsStep(row, stride, parse, geo.fh);
      AddScaled(row, stride, lineSize);
      curX := startX;
      col := 0;
      curY := curY + step;
      row := row + stride;
      NextPass();
    }

    /** Below the rectangle, to the first row of the next interlace pass, until one lies inside. */
    method NextPass()
      requires Shape() && Layout() && geo.fw > 0 && stride >= 1
      requires curY == startY + row * lineSize && step == stride * lineSize
      modifies `curY, `step, `parse, `row, `stride
      ensures RowCursor() && Rows() == old(Rows())
    {
      hide RowsFrom, Pow2;
      ghost var target := RowsFrom(row, stride, parse, geo.fh);
      ScaledCompare(row, geo.fh, lineSize);
      while curY >= maxY && parse > 0
        invariant Layout() && stride >= 1
        invariant curY == startY + row * lineSize && step == stride * lineSize
        invariant curY >= maxY <==> row >= geo.fh
        invariant RowsFrom(row, stride, parse, geo.fh) == target
        decreases parse
      {
        RowsStep(row, stride, parse, geo.fh);
        OpenPass();
        ScaledCompare(row, geo.fh, lineSize);
      }
      RowsStep(row, stride, parse, geo.fh);
    }

    /** Moves to the first row of the next interlace pass. */
    method OpenPass()
      requires parse > 0
      modifies `curY, `step, `parse, `row, `stride
      ensures parse == old(parse) - 1 && row == Pow2(parse) && stride == Pow2(parse + 1) >= 1
      ensures curY == startY + row * lineSize && step == stride * lineSize
    {
      HalfOfPower(parse, lineSize);
      step := Pow2(parse) * lineSize;
      stride := Pow2(parse);
      curY := startY + step / 2;
      row := Pow2(parse - 1);
      parse := parse - 1;
    }

    /** Stores a colour at byte index idx, unless it is transparent, and flags the pixel. */
    method Plot(idx: nat, index: Byte, ghost p: nat)
      requires Shape() && idx == 4 * p && p < w * h
      modifies out, history
      ensures out[..] == Render(old(out[..]), colorTable, index, p)
      ensures history[..] == old(history[..])[p := 1]
    {
      ghost var img, hist := out[..], history[..];
      history[idx / 4] := 1;
      if colorTable[4 * index + 3] > 128 {
        out[idx] := colorTable[4 * index + 2];
        out[idx + 1] := colorTable[4 * index + 1];
        out[idx + 2] := colorTable[4 * index];
        out[idx + 3] := colorTable[4 * index + 3];
      }
      assert out[..] == Render(img, colorTable, index, p);
      assert history[..] == hist[p := 1];
    }

    /** Paints one colour index at the cursor (the end of stbi__out_gif_code). */
    method PutPixel(index: Byte)
      requires Shape() && Cursor()
      modifies out, history, `curX, `curY, `step, `parse, `col, `row, `stride
      ensures Cursor() && CanvasOk(geo, old(Abstract()))
      ensures Abstract() == Put(geo, colorTable, old(Abstract()), index)
    {
      hide RowsFrom, Pow2, Geometry.Pixel, Render;
      EdgeTest();
      if curY >= maxY {
        return;
      }
      RowsHead(row, stride, parse, geo.fh);
      PixelInside(geo, col, row);
      ByteIndex(geo, col, row);
      Plot(curX + curY, index, geo.Pixel(col, row));
      curX := curX + 4;
      if curX >= maxX {
        NextRow();
      } else {
        col := col + 1;
      }
    }

    // ---------- strings ----------

    ghost predicate Codes(m: nat, table: seq<seq<Byte>>)
      reads prefix, first, suffix
    {
      TableOk(prefix[..], first[..], suffix[..], m, table)
    }

    /** Paints the string of a code, prefixes first. The recursion goes to ever smaller codes. */
    method OutCode(code: nat, ghost m: nat, ghost table: seq<seq<Byte>>)
      requires Shape() && Cursor() && Codes(m, table) && code < |table| && !Special(m, code)
      modifies out, history, `curX, `curY, `step, `parse, `col, `row, `stride
      ensures Cursor() && Codes(m, table) && CanvasOk(geo, old(Abstract()))
      ensures Abstract() == PutAll(geo, colorTable, old(Abstract()), table[code])
      decreases code
    {
      hide RowsFrom, Special, Put, PutAll, CanvasOk, Pow2;
      EdgeTest();
      ghost var c0 := Abstract();
      ghost var head := EntryParts(prefix[..], first[..], suffix[..], m, table, code);
      if prefix[code] >= 0 {
        OutCode(prefix[code], m, table);
      } else {
        PutNone(geo, colorTable, c0);
      }
      PutAppend(geo, colorTable, c0, head, suffix[code]);
      PutPixel(suffix[code]);
    }

    // ---------- the raster ----------

    method InitCodes(m: nat)
      requires Shape() && m <= 12
      modifies prefix, first, suffix
      ensures Codes(m, Roots(m))
    {
      hide Pow2;
      SmallPowers(m);
      var clear := Pow2(m);
      var code := 0;
      while code < clear
        invariant code <= clear
        invariant forall i :: 0 <= i < code ==> prefix[i] == -1 && first[i] == i % 256 && suffix[i] == i % 256
      {
        prefix[code] := -1;
        first[code] := code % 256;
        suffix[code] := code % 256;
        code := code + 1;
      }
    }

    /** Enters the string of the previous code extended by the first byte of the current one. */
    method AddEntry(m: nat, code: nat, p: nat, oldcode: nat, ghost st: Lzw)
      requires Shape() && Codes(m, st.table) && LzwOk(m, st) && st.prev == Some(oldcode)
      requires code <= p == |st.table| < MAX_CODES && !Special(m, code) && CodeChunk(st, code) != []
      modifies prefix, first, suffix
      ensures Codes(m, st.table + [NewEntry(st, code)])
    {
      hide Special, Pow2, TableOk, CodeChunk;
      ghost var table, chunk := st.table, CodeChunk(st, code);
      ghost var prefix0, first0, suffix0 := prefix[..], first[..], suffix[..];
      ghost var head := EntryParts(prefix0, first0, suffix0, m, table, oldcode);
      if code < p {
        head := EntryParts(prefix0, first0, suffix0, m, table, code);
      }
      ChunkIsEntry(st, code);
      TableGrows(prefix0, first0, suffix0, m, table, oldcode, chunk);
      var avail := p + 1;
      prefix[p] := oldcode;
      first[p] := first[oldcode];
      if code == avail {
        // The comparison comes after the increment, so it never succeeds; when code names the entry being
        // made, first[code] has just been set, and to the right byte.
        assert false;
      }
      suffix[p] := first[code];
      assert prefix[..] == prefix0[p := oldcode];
      assert first[..] == first0[p := table[oldcode][0]];
      assert suffix[..] == suffix0[p := chunk[0]];
    }

    /** A code other than clear and end-of-information, not above the next free one. */
    method OrdinaryCode(m: nat, code: nat, avail0: nat, oldcode: int, codesize0: nat, ghost st: Lzw)
      returns (ok: bool, avail: nat, codesize: nat, ghost next: Lzw)
      requires Shape() && Cursor() && Codes(m, st.table) && Rooted(m, st.table) && LzwOk(m, st)
      requires st.started && !Special(m, code) && code <= avail0 == |st.table|
      requires st.prev == (if oldcode < 0 then None else Some(oldcode)) && st.width == codesize0 >= 1
      modifies out, history, prefix, first, suffix, `curX, `curY, `step, `parse, `col, `row, `stride
      ensures Cursor() && CanvasOk(geo, old(Abstract()))
      ensures var r := Step(m, st, code);
              if ok then
                && r == Emit(next, CodeChunk(st, code)) && next.prev == Some(code) && next.started
                && avail == |next.table| && codesize == next.width
                && Codes(m, next.table) && Rooted(m, next.table)
                && Abstract() == PutAll(geo, colorTable, old(Abstract()), CodeChunk(st, code))
              else r.Fail?
    {
      hide RowsFrom, Special, Put, PutAll, CanvasOk, Pow2, TableOk, Low, Step, CodeChunk, Rooted;
      EdgeTest();
      StepOrdinary(m, st, code);
      ChunkIsEntry(st, code);
      TableSize(prefix[..], first[..], suffix[..], m, st.table);
      avail, codesize, next := avail0, codesize0, st;
      ghost var table := st.table;
      if oldcode >= 0 {
        avail := avail + 1;
        if avail > MAX_CODES {
          return false, avail, codesize, next;
        }
        AddEntry(m, code, avail0, oldcode, st);
        RootedGrows(m, table, NewEntry(st, code));
        table := table + [NewEntry(st, code)];
      } else if code == avail {
        return false, avail, codesize, next;
      }
      OutCode(code, m, table);
      if Low(avail, codesize) == 0 && avail <= 0xFFF {
        codesize := codesize + 1;
      }
      next := Lzw(table, Some(code), codesize, true);
      ok := true;
    }

    /** One more data byte into the accumulator, opening the next sub-block if needed; false at the terminator. */
    static method MoreBits(s: Context, len0: nat, bits0: nat, valid0: nat, ghost data: seq<Byte>, ghost n: nat)
      returns (more: bool, len: nat, bits: nat, valid: nat)
      requires s.Valid() && n <= |data| && Pending(s.input, s.At(), len0, data[n..])
      requires 8 * n >= valid0 && bits0 == Lsb(data, 8 * n - valid0, valid0)
      modifies s
      ensures s.Valid()
      ensures more <==> n < |data|
      ensures more ==> Pending(s.input, s.At(), len, data[n + 1..])
      ensures more ==> valid == valid0 + 8 && bits == Lsb(data, 8 * n - valid0, valid)
    {
      hide Lsb, Shl, SubBlocks, Bytes;
      len, bits, valid := len0, bits0, valid0;
      if len == 0 {
        PendingOpen(s.input, s.At(), data[n..]);
        var b := s.Get8();
        len := b;
        if len == 0 {
          return false, len, bits, valid;
        }
      }
      PendingTake(s.input, s.At(), len, data[n..]);
      assert data[n..][1..] == data[n + 1..];
      len := len - 1;
      var b := s.Get8();
      AppendByte(data, 8 * n - valid, valid, n);
      bits := bits + Shl(b, valid);
      valid := valid + 8;
      more := true;
    }

    /** The decoder's counters and arrays agree with the reference state. */
    ghost predicate Tracks(m: nat, st: Lzw, d: Counters)
      reads prefix, first, suffix
    {
      && Codes(m, st.table) && Rooted(m, st.table) && LzwOk(m, st)
      && st.width == d.codesize >= 1 && d.avail == |st.table| && st.started == d.started
      && st.prev == (if d.oldcode < 0 then None else Some(d.oldcode))
    }

    /** Handles one code of the stream. */
    method TakeCode(m: nat, code: nat, d0: Counters, ghost st: Lzw)
      returns (action: Action, d: Counters, ghost next: Lzw, ghost chunk: seq<Byte>)
      requires Shape() && Cursor() && Tracks(m, st, d0) && CanvasOk(geo, Abstract())
      modifies out, history, prefix, first, suffix, `curX, `curY, `step, `parse, `col, `row, `stride
      ensures Cursor()
      ensures match action
              case Finished => Step(m, st, code) == Stop && Abstract() == old(Abstract())
              case Rejected => Step(m, st, code) == Fail
              case Continue =>
                && Step(m, st, code) == Emit(next, chunk) && Tracks(m, next, d)
                && Abstract() == PutAll(geo, colorTable, old(Abstract()), chunk)
    {
      hide RowsFrom, Special, Put, PutAll, CanvasOk, Pow2, TableOk, Low, Step, CodeChunk, Rooted, LzwOk, Roots;
      d, next, chunk := d0, st, [];
      var clear := Pow2(m);
      SpecialCases(m, st, code);
      if code == clear {
        RootsAgain(prefix[..], first[..], suffix[..], m, st.table);
        PutNone(geo, colorTable, Abstract());
        d := Counters(true, m + 1, clear + 2, -1);
        next := Lzw(Roots(m), None, m + 1, true);
        action := Continue;
      } else if code == clear + 1 {
        action := Finished;
      } else if code <= d.avail {
        if !d.started {
          return Rejected, d, next, chunk;
        }
        chunk := CodeChunk(st, code);
        var ok, avail, codesize;
        ok, avail, codesize, next := OrdinaryCode(m, code, d.avail, d.oldcode, d.codesize, st);
        d := Counters(true, codesize, avail, code);
        action := if ok then Continue else Rejected;
      } else {
        action := Rejected;
      }
    }

    /**
     Decodes the image data of a frame and paints it. Succeeds exactly when the reference accepts the code
     stream, and then has painted the reference's indices.
     */
    method ProcessRaster(s: Context) returns (ok: bool)
      requires Shape() && Cursor() && s.Valid() && CanvasOk(geo, Abstract())
      modifies s, out, history, prefix, first, suffix, `curX, `curY, `step, `parse, `col, `row, `stride
      ensures Cursor()
      ensures var r := RasterIndices(s.input, old(s.At()));
              if ok then r.Some? && Abstract() == PutAll(geo, colorTable, old(Abstract()), r.value) else r == None
    {
      hide RowsFrom, PutAll, CanvasOk, Pow2, Roots, Indices, SubBlocks, Pending, TableOk, Rooted, LzwOk;
      var m := s.Get8();
      if m > 12 {
        return false;
      }
      ghost var data := SubBlocks(s.input, s.At());
      InitCodes(m);
      StartFacts(m, data, s.input, s.At());
      ok := ReadCodes(s, m, data);
    }

    /** Reads and paints the codes in the sub-blocks that hold data. */
    method ReadCodes(s: Context, m: nat, ghost data: seq<Byte>) returns (ok: bool)
      requires Shape() && Cursor() && s.Valid() && CanvasOk(geo, Abstract())
      requires Tracks(m, Start(m), Counters(false, m + 1, Pow2(m) + 2, -1)) && Pending(s.input, s.At(), 0, data)
      modifies s, out, history, prefix, first, suffix, `curX, `curY, `step, `parse, `col, `row, `stride
      ensures Cursor()
      ensures var r := Indices(m, data, 0, Start(m));
              if ok then r.Some? && Abstract() == PutAll(geo, colorTable, old(Abstract()), r.value) else r == None
    {
      hide RowsFrom, Put, PutAll, CanvasOk, Pow2, Step, Lsb, Roots, Indices, SubBlocks, Pending, TableOk, Rooted, LzwOk;
      ghost var c0 := Abstract();
      PutNone(geo, colorTable, c0);
      var d := Counters(false, m + 1, Pow2(m) + 2, -1);
      var bits: nat, valid: nat, len: nat := 0, 0, 0;
      ghost var n: nat, p: nat, st: Lzw, px: seq<Byte> := 0, 0, Start(m), [];
      ghost var all := Indices(m, data, 0, st);
      StartFacts(m, data, s.input, s.At());
      assert data[0..] == data;
      while true
        invariant Shape() && Cursor() && s.Valid() && Tracks(m, st, d)
        invariant n <= |data| && Pending(s.input, s.At(), len, data[n..])
        invariant p + valid == 8 * n && bits == Lsb(data, p, valid)
        invariant Joined(px, Indices(m, data, p, st)) == all
        invariant Abstract() == PutAll(geo, colorTable, c0, px)
        decreases 9 * |data| - n - p
      {
        hide Codes;
        IndicesCases(m, data, p, st);
        if valid < d.codesize {
          var more;
          more, len, bits, valid := MoreBits(s, len, bits, valid, data, n);
          if !more {
            assert px + [] == px;
            return true;
          }
          n := n + 1;
        } else {
          var code;
          code, bits, valid := FirstBits(bits, valid, d.codesize, data, p);
          var action: Action;
          ghost var next, chunk;
          ghost var width := st.width;
          action, d, next, chunk := TakeCode(m, code, d, st);
          if action == Rejected {
            return false;
          } else if action == Finished {
            SkipRest(s, len);
            assert px + [] == px;
            return true;
          }
          PutAllConcat(geo, colorTable, c0, px, chunk);
          JoinedMore(px, chunk, Indices(m, data, p + width, next));
          p, st, px := p + width, next, px + chunk;
        }
      }
    }

    /** The first n buffered bits, and the rest of them. */
    static method FirstBits(bits: nat, valid: nat, n: nat, ghost data: seq<Byte>, ghost p: nat)
      returns (code: nat, rest: nat, left: nat)
      requires n <= valid && bits == Lsb(data, p, valid)
      ensures code == Lsb(data, p, n) && left == valid - n && rest == Lsb(data, p + n, left)
    {
      hide Lsb, Low, Shr;
      TakeBits(data, p, n, valid);
      code := Low(bits, n);
      rest := Shr(bits, n);
      left := valid - n;
    }

    /** Skips the remaining sub-blocks. */
    static method SkipRest(s: Context, len: nat)
      requires s.Valid()
      modifies s
      ensures s.Valid()
    {
      s.Skip(len);
      var n := s.Get8();
      while n > 0
        invariant s.Valid() && n == ByteAt(s.input, s.At() - 1) && s.At() >= 1
        decreases |s.input| + 1 - s.At()
      {
        s.Skip(n);
        n := s.Get8();
      }
    }
  }

  /** What one code does to the decoder. */
  datatype Action = Continue | Finished | Rejected

  /** The decoder's local counters: clear code seen, code width, next free code, previous code or -1. */
  datatype Counters = Counters(started: bool, codesize: nat, avail: nat, oldcode: int)

  // ---------- the data stream ----------

  /** What is left to read: len bytes of the current sub-block, then the following ones. */
  ghost predicate Pending(input: seq<Byte>, at: nat, len: nat, rest: seq<Byte>) {
    rest == if len > 0 then Bytes(input, at, len) + SubBlocks(input, at + len) else SubBlocks(input, at)
  }

  lemma PendingOpen(input: seq<Byte>, at: nat, rest: seq<Byte>)
    requires Pending(input, at, 0, rest)
    ensures ByteAt(input, at) == 0 ==> rest == []
    ensures ByteAt(input, at) > 0 ==> Pending(input, at + 1, ByteAt(input, at), rest)
  {
    hide Bytes;
  }

  lemma PendingTake(input: seq<Byte>, at: nat, len: nat, rest: seq<Byte>)
    requires Pending(input, at, len, rest) && len > 0
    ensures rest != [] && rest[0] == ByteAt(input, at) && Pending(input, at + 1, len - 1, rest[1..])
  {
    hide SubBlocks;
    assert Bytes(input, at, len) == [ByteAt(input, at)] + Bytes(input, at + 1, len - 1);
    assert rest[1..] == Bytes(input, at + 1, len - 1) + SubBlocks(input, at + len);
    if len == 1 {
      assert Bytes(input, at + 1, 0) == [];
    }
  }

  /** The indices of the image data that starts at byte at: the minimum code size, then the sub-blocks. */
  function RasterIndices(input: seq<Byte>, at: nat): Option<seq<Byte>> {
    var m := ByteAt(input, at);
    if m > 12 then None else Indices(m, SubBlocks(input, at + 1), 0, Start(m))
  }

  function Joined(px: seq<Byte>, r: Option<seq<Byte>>): Option<seq<Byte>> {
    match r case None => None case Some(rest) => Some(px + rest)
  }

  lemma JoinedMore(px: seq<Byte>, chunk: seq<Byte>, r: Option<seq<Byte>>)
    ensures Joined(px, Joined(chunk, r)) == Joined(px + chunk, r)
  {
    if r.Some? {
      assert px + (chunk + r.value) == px + chunk + r.value;
    }
  }

  lemma IndicesCases(m: nat, data: seq<Byte>, p: nat, st: Lzw)
    requires LzwOk(m, st) && st.width >= 1
    ensures var r := Indices(m, data, p, st);
            if p + st.width > 8 * |data| then r == Some([])
            else match Step(m, st, Lsb(data, p, st.width))
                 case Stop => r == Some([])
                 case Fail => r == None
                 case Emit(next, chunk) => r == Joined(chunk, Indices(m, data, p + st.width, next))
  {
    hide Step, LzwOk, Lsb;
  }

  lemma SpecialCases(m: nat, st: Lzw, code: nat)
    requires LzwOk(m, st) && st.width >= 1
    ensures LzwOk(m, Lzw(Roots(m), None, m + 1, true))
    ensures code == Pow2(m) ==> Step(m, st, code) == Emit(Lzw(Roots(m), None, m + 1, true), [])
    ensures code == Pow2(m) + 1 ==> Step(m, st, code) == Stop
    ensures code != Pow2(m) && code != Pow2(m) + 1 ==> !Special(m, code)
    ensures !Special(m, code) && (!st.started || code > |st.table|) ==> Step(m, st, code) == Fail
    ensures |Roots(m)| == Pow2(m) + 2 && Rooted(m, Roots(m))
  {
    hide NextWidth, Pow2, CodeString;
  }

  /** The root entries are never overwritten, so a clear code only has to reset the counters. */
  lemma RootsAgain(prefix: seq<int>, first: seq<Byte>, suffix: seq<Byte>, m: nat, table: seq<seq<Byte>>)
    requires TableOk(prefix, first, suffix, m, table) && Rooted(m, table)
    ensures TableOk(prefix, first, suffix, m, Roots(m))
  {
    hide Pow2;
    forall i | 0 <= i < |Roots(m)| && !Special(m, i) ensures EntryOk(prefix, first, suffix, m, Roots(m), i) {
      assert EntryOk(prefix, first, suffix, m, table, i);
    }
  }

  lemma StartFacts(m: nat, data: seq<Byte>, input: seq<Byte>, at: nat)
    ensures Joined([], Indices(m, data, 0, Start(m))) == Indices(m, data, 0, Start(m))
    ensures Rooted(m, Roots(m)) && |Roots(m)| == Pow2(m) + 2
    ensures Pending(input, at, 0, SubBlocks(input, at))
    ensures Lsb(data, 0, 0) == 0
  {
    hide Pow2, Indices, SubBlocks;
    var r := Indices(m, data, 0, Start(m));
    if r.Some? {
      assert [] + r.value == r.value;
    }
  }

  /** What an accepted ordinary code emits. */
  ghost function CodeChunk(st: Lzw, code: nat): seq<Byte> {
    if code < |st.table| then st.table[code]
    else if st.prev.Some? && st.prev.value < |st.table| && st.table[st.prev.value] != [] then
      st.table[st.prev.value] + [st.table[st.prev.value][0]]
    else []
  }

  ghost function NewEntry(st: Lzw, code: nat): seq<Byte>
    requires st.prev.Some? && st.prev.value < |st.table| && CodeChunk(st, code) != []
  {
    st.table[st.prev.value] + [CodeChunk(st, code)[0]]
  }

  /** The emitted string is the table's entry for the code once the new entry is made. */
  lemma ChunkIsEntry(st: Lzw, code: nat)
    requires st.prev.Some? ==> st.prev.value < |st.table| && st.table[st.prev.value] != []
    ensures code < |st.table| ==> CodeChunk(st, code) == st.table[code]
    ensures code == |st.table| && st.prev.Some? ==>
              CodeChunk(st, code) != [] && CodeChunk(st, code)[0] == st.table[st.prev.value][0]
    ensures code <= |st.table| && st.prev.Some? && CodeChunk(st, code) != [] ==>
              (st.table + [NewEntry(st, code)])[code] == CodeChunk(st, code)
  {
  }

  lemma StepOrdinary(m: nat, st: Lzw, code: nat)
    requires LzwOk(m, st) && st.width >= 1 && st.started && !Special(m, code) && code <= |st.table|
    ensures var n, chunk, r := |st.table|, CodeChunk(st, code), Step(m, st, code);
            match st.prev
            case None =>
              if code == n then r.Fail?
              else chunk != [] && r == Emit(Lzw(st.table, Some(code), NextWidth(st.width, n), true), chunk)
            case Some(last) =>
              && last < n && st.table[last] != [] && chunk != []
              && if n == MAX_CODES then r.Fail?
                 else r == Emit(Lzw(st.table + [NewEntry(st, code)], Some(code),
                                    NextWidth(st.width, n + 1), true), chunk)
  {
    hide NextWidth, Pow2;
  }

  /** The first entries are still the one-byte strings. */
  ghost predicate Rooted(m: nat, table: seq<seq<Byte>>) {
    |table| >= Pow2(m) && forall i :: 0 <= i < Pow2(m) ==> table[i] == [i % 256]
  }

  lemma RootedGrows(m: nat, table: seq<seq<Byte>>, entry: seq<Byte>)
    requires Rooted(m, table)
    ensures Rooted(m, table + [entry])
  {
    hide Pow2;
  }

  lemma SmallPowers(m: nat)
    requires m <= 12
    ensures Pow2(m) <= 4096
  {
    Pow2Mono(m, 12);
    Pow2Table();
  }

  lemma PutNone(g: Geometry, pal: seq<Byte>, c: Canvas)
    requires |pal| == 1024 && CanvasOk(g, c)
    ensures PutAll(g, pal, c, []) == c
  {
  }

  lemma PutAppend(g: Geometry, pal: seq<Byte>, c: Canvas, head: seq<Byte>, last: Byte)
    requires |pal| == 1024 && CanvasOk(g, c)
    ensures PutAll(g, pal, c, head + [last]) == Put(g, pal, PutAll(g, pal, c, head), last)
  {
    hide Put, PutAll, CanvasOk;
    var d := PutAll(g, pal, c, head);
    PutAllConcat(g, pal, c, head, [last]);
    PutOne(g, pal, d, last);
  }

  lemma RowsStep(y: nat, step: nat, parse: nat, h: nat)
    requires step >= 1
    ensures y < h ==> RowsFrom(y, step, parse, h) == [y] + RowsFrom(y + step, step, parse, h)
    ensures y < h ==> RowsFrom(y, step, parse, h)[1..] == RowsFrom(y + step, step, parse, h)
    ensures y >= h && parse > 0 ==> RowsFrom(y, step, parse, h) == RowsFrom(Pow2(parse - 1), Pow2(parse), parse - 1, h)
    ensures y >= h && parse == 0 ==> RowsFrom(y, step, parse, h) == []
  {
  }

  lemma RowsHead(y: nat, step: nat, parse: nat, h: nat)
    requires step >= 1 && y < h
    ensures RowsFrom(y, step, parse, h) != [] && RowsFrom(y, step, parse, h)[0] == y
  {
  }
}
