/** Decoding one baseline block (lib/stb_image.h, stbi__jpeg_decode_block), with the fused table for short AC codes. */
module JpegBlock {
  import opened Wrappers
  import opened Bits
  import opened Canonical
  import opened JpegTable
  import opened BitRegister
  import opened JpegSpec
  import opened JpegHuffman
  import opened JpegFastAc
  import opened JpegSupply
  import opened JpegExact
  import opened JpegDecoder
  import opened JpegEncoding

  ghost predicate FusedTable(fac: array<int>, h: JHuffman)
    requires h.Shape()
    reads fac, h, h.values
  {
    fac.Length == FAST_SIZE && forall v: nat :: v < FAST_SIZE ==> fac[v] == Fused(h.lens, h.values[..], v)
  }

  datatype Step = Continue | Finish | Fail

  /** The turn x, as a step that leaves data and number k at a point. */
  ghost predicate Is(x: Turn, step: Step, data: seq<int>, k: nat, at: Point) {
    match step
    case Continue => x == More(data, k, at)
    case Finish => x == Done(data, at)
    case Fail => x == Failed
  }

  /**
   What a fused entry stands for. With 16 bits buffered, decoding a symbol and extending its value by the two functions
   gives the run, the value and the length of the entry, and leaves the register as dropping that many bits does.
   */
  method DecodeThenExtend(j: Jpeg, hac: JHuffman, fac: array<int>) returns (rs: int, v: int)
    requires j.Valid() && hac.Valid() && FusedTable(fac, hac) && j as object !in hac.Repr && j.s as object !in hac.Repr
    requires j.codeBits >= 16 && Shr(j.codeBuffer, 23) < FAST_SIZE && fac[Shr(j.codeBuffer, 23)] != 0
    modifies j`codeBuffer, j`codeBits, j`marker, j`nomore, j`loaded, j`cursor, j.s
    ensures j.Valid() && rs >= 0 && rs % 16 != 0
    ensures var r := old(fac[Shr(j.codeBuffer, 23)]);
            && rs / 16 == r / 16 % 16 && v == r / 256
            && j.cursor == old(j.cursor) + r % 16 && j.codeBits == old(j.codeBits) - r % 16
            && j.codeBuffer == Low(Shl(old(j.codeBuffer), r % 16), 32)
    ensures j.loaded == old(j.loaded) && j.nomore == old(j.nomore)
  {
    hide Register, Big, Unstuffed, Marked, Left, Shr, FastTable, LengthTables, CodeTable, Fits, Listed, Lookup, Fused;
    hide Canon, Extend, Low, Shl, FastIndexEntry;
    ghost var t, p, n := TableOf(hac), j.cursor, j.codeBits;
    RegisterWindow(j.bytes, p, n, FAST_BITS, 32);
    FusedIsDecodeThenExtend(t, j.bytes, p);
    FastIsLookedUp(t, Big(j.bytes, p, 16));
    RegisterDrop(j.bytes, p, n, fac[Shr(j.codeBuffer, 23)] % 16, 32);
    rs := j.HuffDecode(hac);
    v := j.ExtendReceive(rs % 16);
  }

  /** One turn of the loop over the AC coefficients. */
  method AcStep(j: Jpeg, data: array<int>, hac: JHuffman, fac: array<int>, dequant: seq<nat>, k: nat)
    returns (step: Step, k': nat)
    requires j.Valid() && hac.Valid() && FusedTable(fac, hac) && j as object !in hac.Repr && j.s as object !in hac.Repr
    requires data.Length == 64 && data != fac && data as object !in hac.Repr && |dequant| == 64 && 1 <= k < 64
    modifies j`codeBuffer, j`codeBits, j`marker, j`nomore, j`loaded, j`cursor, j.s, data
    ensures step != Fail ==> j.Valid()
    ensures Is(AcTurn(TableOf(hac), dequant, j.Source(), k, old(data[..]), old(j.Here())), step, data[..], k', j.Here())
  {
    hide Register, Big, Unstuffed, Marked, Left, Shr, FastTable, LengthTables, CodeTable, Fits, Listed, Lookup, Fused;
    hide TurnBySymbol, TurnByEntry, Enter, Pow2, Filled;
    j.Need(16);
    ghost var p := j.cursor;
    RegisterWindow(j.bytes, p, j.codeBits, FAST_BITS, 32);
    BigBound(j.bytes, p, FAST_BITS);
    Pow2Table();
    var c := Shr(j.codeBuffer, 23);
    var r := fac[c];
    if r != 0 {
      step, k' := FusedStep(j, data, r, dequant, k);
    } else {
      step, k' := DecodedStep(j, data, hac, dequant, k);
    }
  }

  /** A turn by a fused entry r. */
  method FusedStep(j: Jpeg, data: array<int>, r: int, dequant: seq<nat>, k0: nat) returns (step: Step, k: nat)
    requires j.Valid() && data.Length == 64 && |dequant| == 64 && 1 <= k0 < 64
    modifies j`codeBuffer, j`codeBits, j`cursor, data
    ensures step != Fail ==> j.Valid()
    ensures Is(TurnByEntry(dequant, k0, old(data[..]), r, old(j.Here())), step, data[..], k, j.Here())
  {
    hide Register, Big, Unstuffed, Marked, Left, Enter;
    k := k0 + r / 16 % 16;
    var s := r % 16;
    if s > j.codeBits {
      return Fail, k;
    }
    j.Drop(s);
    var zig := Place(k);
    k := k + 1;
    EnterAt(data, dequant, zig, k - 1, r / 256);
    step := Continue;
  }

  /** A turn by decoding a symbol and then its value. */
  method DecodedStep(j: Jpeg, data: array<int>, hac: JHuffman, dequant: seq<nat>, k0: nat) returns (step: Step, k: nat)
    requires j.Valid() && hac.Valid() && j as object !in hac.Repr && j.s as object !in hac.Repr
    requires data.Length == 64 && data as object !in hac.Repr && |dequant| == 64 && 1 <= k0 < 64
    modifies j`codeBuffer, j`codeBits, j`marker, j`nomore, j`loaded, j`cursor, j.s, data
    ensures step != Fail ==> j.Valid()
    ensures Is(TurnBySymbol(TableOf(hac), dequant, j.Source(), k0, old(data[..]), old(j.Here())), step, data[..], k,
               j.Here())
  {
    hide Register, Big, Unstuffed, Marked, Left, FastTable, LengthTables, CodeTable, Fits, Lookup, ReadBy;
    hide Extend, Enter, Place, SymbolFrom, ValueFrom, Asked, Listed;
    k := k0;
    var rs := j.HuffDecode(hac);
    if rs < 0 {
      return Fail, k;
    }
    var s, r := rs % 16, rs / 16;
    if s == 0 {
      if rs != 0xF0 {
        return Finish, k;
      }
      k := k + 16;
    } else {
      k := k + r;
      var zig := Place(k);
      k := k + 1;
      var v := j.ExtendReceive(s);
      EnterAt(data, dequant, zig, k - 1, v);
    }
    step := Continue;
  }

  /** Stores coefficient number k at its place. */
  method EnterAt(data: array<int>, dequant: seq<nat>, zig: nat, k: nat, v: int)
    requires data.Length == 64 && |dequant| == 64 && k < 79 && zig == Place(k)
    modifies data
    ensures data[..] == Enter(dequant, old(data[..]), k, v)
  {
    data[zig] := Int16(v * dequant[zig]);
  }

  /** The AC coefficients. */
  method DecodeAc(j: Jpeg, data: array<int>, hac: JHuffman, fac: array<int>, dequant: seq<nat>) returns (ok: bool)
    requires j.Valid() && hac.Valid() && FusedTable(fac, hac) && j as object !in hac.Repr && j.s as object !in hac.Repr
    requires data.Length == 64 && data != fac && data as object !in hac.Repr && |dequant| == 64
    modifies j`codeBuffer, j`codeBits, j`marker, j`nomore, j`loaded, j`cursor, j.s, data
    ensures ok ==> j.Valid()
    ensures var x := AcRun(TableOf(hac), dequant, j.Source(), 1, old(data[..]), old(j.Here()));
            x == if ok then Some((data[..], j.Here())) else None
  {
    hide AcTurn, Register, Big, Unstuffed, Marked, Left, FastTable, LengthTables, CodeTable, Fits, Lookup, Fused;
    hide Listed;
    var k := 1;
    ghost var t, d := TableOf(hac), j.Source();
    ghost var x := AcRun(t, dequant, d, 1, data[..], j.Here());
    while k < 64
      invariant k >= 1 && j.Valid() && hac.Valid() && FusedTable(fac, hac) && TableOf(hac) == t
      invariant x == AcRun(t, dequant, d, k, data[..], j.Here())
      decreases 64 - k as int
    {
      var step;
      step, k := AcStep(j, data, hac, fac, dequant, k);
      if step == Fail {
        return false;
      }
      if step == Finish {
        return true;
      }
    }
    ok := true;
  }

  /** Whether a sum of two ints is one. */
  method AddIntsValid(a: int, b: int) returns (r: bool)
    requires IsInt(a) && IsInt(b)
    ensures r <==> IsInt(a + b)
  {
    if (a >= 0) != (b >= 0) {
      return true;
    }
    if a < 0 && b < 0 {
      return a >= -0x8000_0000 - b;
    }
    r := a <= 0x7FFF_FFFF - b;
  }

  /** The difference of the DC coefficient. */
  method DecodeDifference(j: Jpeg, hdc: JHuffman) returns (ok: bool, diff: int)
    requires j.Valid() && hdc.Valid() && j as object !in hdc.Repr && j.s as object !in hdc.Repr
    modifies j`codeBuffer, j`codeBits, j`marker, j`nomore, j`loaded, j`cursor, j.s
    ensures ok ==> j.Valid() && IsInt(diff)
    ensures var x := DifferenceFrom(TableOf(hdc), j.Source(), old(j.Here()));
            x == if ok then Some((diff, j.Here())) else None
  {
    hide Register, Big, Unstuffed, Marked, Left, FastTable, LengthTables, CodeTable, Fits, Lookup, ReadBy, Extend;
    hide SymbolFrom, ValueFrom, Listed;
    j.Need(16);
    diff := 0;
    var t := j.HuffDecode(hdc);
    if t < 0 || t > 15 {
      return false, 0;
    }
    if t != 0 {
      diff := j.ExtendReceive(t);
    }
    ok := true;
  }

  /** The block ended as the reference says: with its coefficients, or with a failure on bad data. */
  ghost predicate Agrees(x: Read<Coefficients>, ok: bool, data: seq<int>, dc: int, cursor: nat) {
    && (x.Read? ==> ok && data == x.value.data && dc == x.value.dc && cursor == x.end)
    && (x.Bad? ==> !ok)
  }

  /**
   Decodes a block. For all data, also where it ends inside the block, the outcome is that of BlockRun. Data that
   contains all of the block gives exactly the coefficients, prediction and position of the reference, or fails exactly
   where the reference finds the data bad. The reference reads symbols as the tables look them up; for tables that are
   not ambiguous, that is canonically.
   */
  method DecodeBlock(j: Jpeg, data: array<int>, hdc: JHuffman, hac: JHuffman, fac: array<int>, b: nat,
                     dequant: seq<nat>)
    returns (ok: bool)
    requires j.Valid() && hdc.Valid() && j as object !in hdc.Repr && j.s as object !in hdc.Repr
    requires hac.Valid() && FusedTable(fac, hac) && j as object !in hac.Repr && j.s as object !in hac.Repr
    requires data.Length == 64 && data != fac && data as object !in hac.Repr + hdc.Repr && |dequant| == 64
    requires j.dcPred != fac && j.dcPred != data && j.dcPred as object !in hac.Repr + hdc.Repr
    requires b < 4 && IsInt(j.dcPred[b])
    modifies j`codeBuffer, j`codeBits, j`marker, j`nomore, j`loaded, j`cursor, j.s, data, j.dcPred
    ensures ok ==> j.Valid() && IsInt(j.dcPred[b])
    ensures var x := BlockRun(TableOf(hdc), TableOf(hac), dequant, old(j.dcPred[b]), j.Source(), old(j.Here()));
            x == if ok then Some((Coefficients(data[..], j.dcPred[b]), j.Here())) else None
    ensures var x := Block(TableOf(hdc), TableOf(hac), dequant, old(j.dcPred[b]), j.bytes, old(j.cursor));
            Agrees(x, ok, data[..], j.dcPred[b], j.cursor)
    ensures !Ambiguous(hdc.lens) && !Ambiguous(hac.lens) ==>
              var x := Block(Canonically(TableOf(hdc)), Canonically(TableOf(hac)), dequant, old(j.dcPred[b]), j.bytes,
                             old(j.cursor));
              Agrees(x, ok, data[..], j.dcPred[b], j.cursor)
    ensures !Ambiguous(hdc.lens) && !Ambiguous(hac.lens) ==>
              var s := Setting(Canonically(TableOf(hdc)), Canonically(TableOf(hac)), dequant, old(j.dcPred[b]));
              forall text :: BlockAt(s, text, j.bytes, old(j.cursor)) ==>
                && ok && Entered(s, text, Coefficients(data[..], j.dcPred[b]))
                && j.cursor == BlockEnd(s, text, old(j.cursor))
    ensures forall i :: 0 <= i < 4 && i != b ==> j.dcPred[i] == old(j.dcPred[i])
  {
    hide Block, AcRun, DifferenceFrom, Register, Big, Unstuffed, Marked, Left, FastTable, LengthTables, CodeTable, Fits;
    hide Lookup, Fused, Ambiguous, ProductAccepted, Listed;
    hide BlockAt, Entered, BlockEnd;
    BlockAgrees(j, hdc, hac, dequant, j.dcPred[b]);
    WrittenBlocks(Setting(Canonically(TableOf(hdc)), Canonically(TableOf(hac)), dequant, j.dcPred[b]), j.bytes,
                  j.cursor);
    var diff;
    ok, diff := DecodeDifference(j, hdc);
    if !ok {
      return;
    }
    ok := EnterDc(j.dcPred, data, b, diff, dequant[0]);
    if !ok {
      return;
    }
    ok := DecodeAc(j, data, hac, fac, dequant);
  }

  /** What the reference makes of the blocks that may be written at a place. */
  lemma WrittenBlocks(s: Setting, bytes: seq<Byte>, p: nat)
    requires s.Ok()
    ensures forall text :: BlockAt(s, text, bytes, p) ==>
              var x := Block(s.dc, s.ac, s.dequant, s.pred, bytes, p);
              x.Read? && Entered(s, text, x.value) && x.end == BlockEnd(s, text, p)
  {
    hide Block, BlockAt, Entered, BlockEnd, BlockMeaning;
    forall text | BlockAt(s, text, bytes, p)
      ensures var x := Block(s.dc, s.ac, s.dequant, s.pred, bytes, p);
              x.Read? && Entered(s, text, x.value) && x.end == BlockEnd(s, text, p)
    {
      BlockDecodes(s, text, bytes, p);
    }
  }

  /** Clears the block and enters the DC coefficient, if the sum and the product are accepted. */
  method EnterDc(dcPred: array<int>, data: array<int>, b: nat, diff: int, q: nat) returns (ok: bool)
    requires dcPred.Length == 4 && data.Length == 64 && dcPred != data && b < 4 && IsInt(dcPred[b]) && IsInt(diff)
    modifies data, dcPred
    ensures ok <==> IsInt(old(dcPred[b]) + diff) && ProductAccepted(Int16(old(dcPred[b]) + diff), Int16(q))
    ensures ok ==> dcPred[b] == old(dcPred[b]) + diff && data[..] == Nothing()[0 := Scaled(dcPred[b], q)]
    ensures forall i :: 0 <= i < 4 && i != b ==> dcPred[i] == old(dcPred[i])
  {
    hide ProductAccepted;
    ClearBlock(data);
    ok := AddIntsValid(dcPred[b], diff);
    if !ok {
      return;
    }
    var dc := dcPred[b] + diff;
    dcPred[b] := dc;
    ok := ProductAccepted(Int16(dc), Int16(q));
    if !ok {
      return;
    }
    data[0] := Int16(dc * q);
  }

  /** What the outcome of a block means by the reference. */
  lemma BlockAgrees(j: Jpeg, hdc: JHuffman, hac: JHuffman, dequant: seq<nat>, pred: int)
    requires j.Valid() && hdc.Valid() && hac.Valid() && |dequant| == 64
    ensures var r := BlockRun(TableOf(hdc), TableOf(hac), dequant, pred, j.Source(), j.Here());
            var x := Block(TableOf(hdc), TableOf(hac), dequant, pred, j.bytes, j.cursor);
            && (x.Bad? ==> r == None)
            && (x.Read? ==> r.Some? && r.value.0 == x.value && r.value.1.p == x.end)
    ensures !Ambiguous(hdc.lens) && !Ambiguous(hac.lens) ==>
              Block(TableOf(hdc), TableOf(hac), dequant, pred, j.bytes, j.cursor) ==
              Block(Canonically(TableOf(hdc)), Canonically(TableOf(hac)), dequant, pred, j.bytes, j.cursor)
  {
    hide Block, BlockRun, Register, Big, Unstuffed, Marked, Left, FastTable, LengthTables, CodeTable, Fits, Ambiguous;
    hide Reached, Listed;
    j.HereIsReached();
    BlockRefines(TableOf(hdc), TableOf(hac), dequant, pred, j.Source(), 0, j.Here());
    assert j.bytes + Zeros(0) == j.bytes;
    if !Ambiguous(hdc.lens) && !Ambiguous(hac.lens) {
      BlockIsCanonical(TableOf(hdc), TableOf(hac), dequant, pred, j.bytes, j.cursor);
    }
  }

  method ClearBlock(data: array<int>)
    requires data.Length == 64
    modifies data
    ensures data[..] == Nothing()
  {
    var i := 0;
    while i < 64
      invariant i <= 64 && forall n :: 0 <= n < i ==> data[n] == 0
    {
      data[i] := 0;
      i := i + 1;
    }
  }
}
