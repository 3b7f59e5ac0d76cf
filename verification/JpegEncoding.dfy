/**
 How the AC coefficients of a block are written (ITU-T T.81, sections F.1.2.2 and B.1.1.5), and that decoding them is
 the inverse: reading what was written gives it back, and nothing else is accepted.
 */
module JpegEncoding {
  import opened Wrappers
  import opened Bits
  import opened Canonical
  import opened JpegTable
  import opened BitRegister
  import opened JpegSpec
  import opened JpegDecoder

  // ---------- byte stuffing ----------

  /** A zero byte goes behind every 0xFF. */
  function Stuffed(bytes: seq<Byte>): seq<Byte> {
    if bytes == [] then [] else (if bytes[0] == 0xFF then [0xFF, 0] else [bytes[0]]) + Stuffed(bytes[1..])
  }

  /** The end of the input, or a marker. */
  predicate EndsScan(tail: seq<Byte>) {
    tail == [] || (|tail| >= 2 && tail[0] == 0xFF && tail[1] != 0 && tail[1] != 0xFF)
  }

  /** Removing what stuffing put in gives the bytes back, up to the marker if there is one. */
  lemma {:induction false} UnstuffedStuffed(before: seq<Byte>, bytes: seq<Byte>, tail: seq<Byte>)
    requires EndsScan(tail)
    ensures var data := before + Stuffed(bytes) + tail;
            Unstuffed(data, |before|) == bytes && (Marked(data, |before|) <==> tail != [])
    decreases |bytes|
  {
    hide Unstuffed, Marked, AfterFill, ByteAt;
    var data, q := before + Stuffed(bytes) + tail, |before|;
    UnstuffedCases(data, q);
    if bytes == [] {
      assert data == before + tail;
      MarkerAt(before, tail);
    } else {
      var one, rest := if bytes[0] == 0xFF then [0xFF, 0] else [bytes[0]], Stuffed(bytes[1..]);
      Regrouped(before, one, rest, tail);
      UnstuffedStuffed(before + one, bytes[1..], tail);
      ByteBehind(before, bytes[0], rest + tail);
    }
  }

  lemma Regrouped(a: seq<Byte>, b: seq<Byte>, c: seq<Byte>, d: seq<Byte>)
    ensures a + (b + c) + d == a + b + c + d == a + b + (c + d)
  {
  }

  lemma MarkerAt(before: seq<Byte>, tail: seq<Byte>)
    requires EndsScan(tail)
    ensures var data, q := before + tail, |before|;
            tail != [] ==> ByteAt(data, q) == 0xFF && q < |data| && ByteAt(data, AfterFill(data, q + 1)) != 0
  {
    if tail != [] {
      assert (before + tail)[|before|] == tail[0] && (before + tail)[|before| + 1] == tail[1];
    }
  }

  lemma ByteBehind(before: seq<Byte>, b: Byte, rest: seq<Byte>)
    ensures var one := if b == 0xFF then [0xFF, 0] else [b]; var data, q := before + one + rest, |before|;
            && ByteAt(data, q) == b && q < |data|
            && (b == 0xFF ==> AfterFill(data, q + 1) == q + 1 && ByteAt(data, q + 1) == 0)
  {
    var one := if b == 0xFF then [0xFF, 0] else [b];
    var data, q := before + one + rest, |before|;
    assert data[q] == one[0];
    if b == 0xFF {
      assert data[q + 1] == one[1];
    }
  }

  // ---------- signed values ----------

  /** The n bits written for a value of n bits: negative values count up from zero. */
  function ExtraBits(x: int, n: nat): int {
    if x > 0 then x else x + Pow2(n) - 1
  }

  predicate HasSize(x: int, n: nat) {
    n >= 1 && (Pow2(n - 1) <= x < Pow2(n) || Pow2(n - 1) <= -x < Pow2(n))
  }

  /** Extending the bits of a value gives the value, and every n bits are those of one value. */
  lemma ExtendIsInverse(x: int, v: nat, n: nat)
    requires n >= 1
    ensures HasSize(x, n) ==> 0 <= ExtraBits(x, n) < Pow2(n) && Extend(ExtraBits(x, n), n) == x
    ensures v < Pow2(n) ==> HasSize(Extend(v, n), n) && ExtraBits(Extend(v, n), n) == v
  {
  }

  // ---------- symbols ----------

  /** The code of symbol i stands at bit p. */
  ghost predicate SymbolAt(t: Table, bytes: seq<Byte>, p: nat, i: nat)
    requires IsTable(t) && t.canonical
  {
    i < |t.lens| && p + t.lens[i] <= 8 * |bytes| && Big(bytes, p, t.lens[i]) == CodeOf(t.lens, i)
  }

  lemma SymbolReads(t: Table, bytes: seq<Byte>, p: nat, i: nat)
    requires IsTable(t) && t.canonical && SymbolAt(t, bytes, p, i)
    ensures ReadSymbol(t, bytes, p) == Read(t.values[i], p + t.lens[i])
  {
    hide Big, Prefix, CodeOf, Canon;
    BigTake(bytes, p, t.lens[i]);
    CanonIs(t.lens, Big(bytes, p, 16), i);
  }

  lemma SymbolIsWritten(t: Table, bytes: seq<Byte>, p: nat) returns (i: nat)
    requires IsTable(t) && t.canonical && ReadSymbol(t, bytes, p).Read?
    ensures SymbolAt(t, bytes, p, i)
    ensures ReadSymbol(t, bytes, p) == Read(t.values[i], p + t.lens[i])
  {
    hide Big, Prefix, CodeOf, Canon;
    i := Canon(t.lens, Big(bytes, p, 16)).index;
    HitInRange(t.lens, Big(bytes, p, 16), i);
    BigTake(bytes, p, t.lens[i]);
  }

  // ---------- blocks ----------

  /** A coefficient behind a run of zeros, sixteen zeros, or the end of the block; each by the symbol used for it. */
  datatype Item = Coefficient(i: nat, x: int) | SixteenZeros(i: nat) | EndOfBlock(i: nat)

  /** The items stand at bit p, for the coefficients from number k on. */
  ghost predicate ItemsAt(t: Table, items: seq<Item>, bytes: seq<Byte>, p: nat, k: nat)
    requires IsTable(t) && t.canonical
    decreases |items|
  {
    if items == [] then k >= 64
    else
      && k < 64 && SymbolAt(t, bytes, p, items[0].i)
      && var rs, q := t.values[items[0].i], p + t.lens[items[0].i];
         match items[0]
         case EndOfBlock(_) => rs % 16 == 0 && rs != 0xF0 && |items| == 1
         case SixteenZeros(_) => rs == 0xF0 && ItemsAt(t, items[1..], bytes, q, k + 16)
         case Coefficient(_, x) =>
           && HasSize(x, rs % 16) && q + rs % 16 <= 8 * |bytes|
           && Big(bytes, q, rs % 16) == ExtraBits(x, rs % 16)
           && ItemsAt(t, items[1..], bytes, q + rs % 16, k + rs / 16 + 1)
  }

  ghost function ItemsEnd(t: Table, items: seq<Item>, p: nat): nat
    requires IsTable(t) && t.canonical
    decreases |items|
  {
    if items == [] || items[0].i >= |t.lens| then p
    else
      var q := p + t.lens[items[0].i];
      match items[0]
      case EndOfBlock(_) => q
      case SixteenZeros(_) => ItemsEnd(t, items[1..], q)
      case Coefficient(i, _) => ItemsEnd(t, items[1..], q + t.values[i] % 16)
  }

  /** The coefficients, dequantised and in their places. */
  ghost function ItemsMeaning(t: Table, dequant: seq<nat>, items: seq<Item>, k: nat, data: seq<int>): (r: seq<int>)
    requires IsTable(t) && t.canonical && |dequant| == 64 && |data| == 64
    ensures |r| == 64
    decreases |items|
  {
    if items == [] || items[0].i >= |t.lens| || k >= 64 then data
    else
      match items[0]
      case EndOfBlock(_) => data
      case SixteenZeros(_) => ItemsMeaning(t, dequant, items[1..], k + 16, data)
      case Coefficient(i, x) =>
        var r := t.values[i] / 16;
        ItemsMeaning(t, dequant, items[1..], k + r + 1, Enter(dequant, data, k + r, x))
  }

  /** Decoding written items gives their coefficients and ends right behind them. */
  lemma {:induction false} AcDecodes(t: Table, dequant: seq<nat>, items: seq<Item>, bytes: seq<Byte>, p: nat, k: nat,
                                     data: seq<int>)
    requires IsTable(t) && t.canonical && |dequant| == 64 && |data| == 64 && ItemsAt(t, items, bytes, p, k)
    ensures AcFrom(t, dequant, bytes, p, k, data)
         == Read(ItemsMeaning(t, dequant, items, k, data), ItemsEnd(t, items, p))
    decreases |items|
  {
    hide Big, SymbolAt, ReadSymbol, Enter, Pow2, Extend, ExtraBits, HasSize, AcFrom;
    AcCases(t, dequant, bytes, p, k, data);
    if items == [] {
    } else {
      var i := items[0].i;
      SymbolReads(t, bytes, p, i);
      SymbolInTable(t, bytes, p, i);
      var rs, q := t.values[i], p + t.lens[i];
      match items[0]
      case EndOfBlock(_) =>
      case SixteenZeros(_) => AcDecodes(t, dequant, items[1..], bytes, q, k + 16, data);
      case Coefficient(_, x) =>
        SizeIsPositive(x, rs % 16);
        ExtendIsInverse(x, 0, rs % 16);
        AcDecodes(t, dequant, items[1..], bytes, q + rs % 16, k + rs / 16 + 1, Enter(dequant, data, k + rs / 16, x));
    }
  }

  lemma SymbolInTable(t: Table, bytes: seq<Byte>, p: nat, i: nat)
    requires IsTable(t) && t.canonical && SymbolAt(t, bytes, p, i)
    ensures i < |t.lens|
  {
  }

  lemma SizeIsPositive(x: int, n: nat)
    requires HasSize(x, n)
    ensures n >= 1
  {
  }

  /** Whatever the reference accepts is written for some items. */
  lemma {:induction false} AcIsWritten(t: Table, dequant: seq<nat>, bytes: seq<Byte>, p: nat, k: nat, data: seq<int>)
    returns (items: seq<Item>)
    requires IsTable(t) && t.canonical && |dequant| == 64 && |data| == 64 && AcFrom(t, dequant, bytes, p, k, data).Read?
    ensures ItemsAt(t, items, bytes, p, k)
    ensures AcFrom(t, dequant, bytes, p, k, data)
         == Read(ItemsMeaning(t, dequant, items, k, data), ItemsEnd(t, items, p))
    decreases 79 - k
  {
    hide Big, SymbolAt, ReadSymbol, Enter, Pow2, Extend, ExtraBits, HasSize, AcFrom, ItemsMeaning, ItemsEnd;
    AcCases(t, dequant, bytes, p, k, data);
    items := [];
    if k < 64 {
      var i := SymbolIsWritten(t, bytes, p);
      SymbolInTable(t, bytes, p, i);
      var rs, q := t.values[i], p + t.lens[i];
      if rs % 16 == 0 && rs != 0xF0 {
        items := [EndOfBlock(i)];
      } else if rs % 16 == 0 {
        var rest := AcIsWritten(t, dequant, bytes, q, k + 16, data);
        items := [SixteenZeros(i)] + rest;
        assert items[1..] == rest;
      } else {
        var v := Big(bytes, q, rs % 16);
        BigBound(bytes, q, rs % 16);
        ExtendIsInverse(0, v, rs % 16);
        var x := Extend(v, rs % 16);
        var rest := AcIsWritten(t, dequant, bytes, q + rs % 16, k + rs / 16 + 1, Enter(dequant, data, k + rs / 16, x));
        items := [Coefficient(i, x)] + rest;
        assert items[1..] == rest;
      }
    }
    AcDecodes(t, dequant, items, bytes, p, k, data);
  }

  // ---------- the DC coefficient ----------

  /** The difference x, by symbol i, stands at bit p. */
  ghost predicate DifferenceAt(t: Table, bytes: seq<Byte>, p: nat, i: nat, x: int)
    requires IsTable(t) && t.canonical
  {
    && SymbolAt(t, bytes, p, i) && t.values[i] <= 15
    && var n, q := t.values[i], p + t.lens[i];
       if n == 0 then x == 0
       else HasSize(x, n) && q + n <= 8 * |bytes| && Big(bytes, q, n) == ExtraBits(x, n)
  }

  /** Reading a difference is the inverse of writing one. */
  lemma DifferenceDecodes(t: Table, bytes: seq<Byte>, p: nat, i: nat, x: int)
    requires IsTable(t) && t.canonical && DifferenceAt(t, bytes, p, i, x)
    ensures ReadDifference(t, bytes, p) == Read(x, p + t.lens[i] + t.values[i])
  {
    hide Big, SymbolAt, ReadSymbol, Pow2, Extend, ExtraBits, HasSize;
    SymbolReads(t, bytes, p, i);
    SymbolInTable(t, bytes, p, i);
    if t.values[i] > 0 {
      ExtendIsInverse(x, 0, t.values[i]);
    }
  }

  lemma DifferenceIsWritten(t: Table, bytes: seq<Byte>, p: nat) returns (i: nat, x: int)
    requires IsTable(t) && t.canonical && ReadDifference(t, bytes, p).Read?
    ensures DifferenceAt(t, bytes, p, i, x)
    ensures ReadDifference(t, bytes, p) == Read(x, p + t.lens[i] + t.values[i])
  {
    hide Big, SymbolAt, ReadSymbol, Pow2, Extend, ExtraBits, HasSize;
    i := SymbolIsWritten(t, bytes, p);
    SymbolInTable(t, bytes, p, i);
    x := 0;
    var n, q := t.values[i], p + t.lens[i];
    if n > 0 {
      x := Extend(Big(bytes, q, n), n);
      BigBound(bytes, q, n);
      ExtendIsInverse(0, Big(bytes, q, n), n);
    }
  }

  // ---------- whole blocks ----------

  /** A block as it is written: the DC difference, by a symbol, and the AC items. */
  datatype BlockText = BlockText(dcSymbol: nat, diff: int, items: seq<Item>)

  /** What is decoded with: the two tables, the quantisers, and the prediction. */
  datatype Setting = Setting(dc: Table, ac: Table, dequant: seq<nat>, pred: int) {
    ghost predicate Ok() {
      IsTable(dc) && IsTable(ac) && dc.canonical && ac.canonical && |dequant| == 64
    }

    /** The first coefficient can be kept. */
    predicate Keeps(diff: int)
      requires |dequant| == 64
    {
      IsInt(pred + diff) && ProductAccepted(Int16(pred + diff), Int16(dequant[0]))
    }

    ghost function Decode(bytes: seq<Byte>, p: nat): Read<Coefficients>
      requires Ok()
    {
      Block(dc, ac, dequant, pred, bytes, p)
    }
  }

  ghost predicate BlockAt(s: Setting, b: BlockText, bytes: seq<Byte>, p: nat)
    requires s.Ok()
  {
    && DifferenceAt(s.dc, bytes, p, b.dcSymbol, b.diff) && s.Keeps(b.diff)
    && ItemsAt(s.ac, b.items, bytes, AcStart(s, b, p), 1)
  }

  ghost function AcStart(s: Setting, b: BlockText, p: nat): nat
    requires s.Ok()
  {
    if b.dcSymbol < |s.dc.lens| then p + s.dc.lens[b.dcSymbol] + s.dc.values[b.dcSymbol] else p
  }

  ghost function BlockEnd(s: Setting, b: BlockText, p: nat): nat
    requires s.Ok()
  {
    ItemsEnd(s.ac, b.items, AcStart(s, b, p))
  }

  ghost function BlockMeaning(s: Setting, b: BlockText): Coefficients
    requires s.Ok()
  {
    var d := s.pred + b.diff;
    Coefficients(ItemsMeaning(s.ac, s.dequant, b.items, 1, Nothing()[0 := Scaled(d, s.dequant[0])]), d)
  }

  /** Decoding a written block gives its coefficients and ends right behind it. */
  lemma BlockDecodes(s: Setting, b: BlockText, bytes: seq<Byte>, p: nat)
    requires s.Ok() && BlockAt(s, b, bytes, p)
    ensures s.Decode(bytes, p) == Read(BlockMeaning(s, b), BlockEnd(s, b, p))
    ensures Entered(s, b, BlockMeaning(s, b))
  {
    BlockEntries(s, b, bytes, p);
    BlockDecodesTo(s, b, bytes, p);
  }

  lemma BlockDecodesTo(s: Setting, b: BlockText, bytes: seq<Byte>, p: nat)
    requires s.Ok() && BlockAt(s, b, bytes, p)
    ensures s.Decode(bytes, p) == Read(BlockMeaning(s, b), BlockEnd(s, b, p))
  {
    hide ItemsAt, ItemsMeaning, ItemsEnd, AcFrom, ReadDifference, SymbolAt, ProductAccepted;
    DifferenceDecodes(s.dc, bytes, p, b.dcSymbol, b.diff);
    SymbolInTable(s.dc, bytes, p, b.dcSymbol);
    var data := Nothing()[0 := Scaled(s.pred + b.diff, s.dequant[0])];
    AcDecodes(s.ac, s.dequant, b.items, bytes, AcStart(s, b, p), 1, data);
  }

  // ---------- which entries a block has ----------

  /**
   The value of the last item that stands at place i, where the items start at coefficient number k and a run skips as
   many numbers as it says.
   */
  ghost function LastValue(t: Table, items: seq<Item>, k: nat, i: nat): Option<int>
    requires IsTable(t)
    decreases |items|
  {
    if items == [] || items[0].i >= |t.lens| then None
    else
      match items[0]
      case EndOfBlock(_) => None
      case SixteenZeros(_) => LastValue(t, items[1..], k + 16, i)
      case Coefficient(c, x) =>
        var n := k + t.values[c] / 16;
        var later := LastValue(t, items[1..], n + 1, i);
        if later.Some? then later else if n < 79 && Place(n) == i then Some(x) else None
  }

  /** The number y, cut to sixteen bits as a signed value. */
  predicate IsCut(y: int, x: int) {
    -0x8000 <= y < 0x8000 && (y - x) % 0x1_0000 == 0
  }

  lemma {:induction false} ItemsEntry(t: Table, dequant: seq<nat>, items: seq<Item>, bytes: seq<Byte>, p: nat, k: nat,
                                      data: seq<int>, i: nat)
    requires IsTable(t) && t.canonical && |dequant| == 64 && |data| == 64 && i < 64
    requires ItemsAt(t, items, bytes, p, k)
    ensures match LastValue(t, items, k, i)
            case None => ItemsMeaning(t, dequant, items, k, data)[i] == data[i]
            case Some(x) => IsCut(ItemsMeaning(t, dequant, items, k, data)[i], x * dequant[i])
    decreases |items|
  {
    hide Big, Pow2, ExtraBits, HasSize, Place, SymbolAt;
    if items == [] {
    } else {
      SymbolInTable(t, bytes, p, items[0].i);
      var q := p + t.lens[items[0].i];
      match items[0]
      case EndOfBlock(_) =>
      case SixteenZeros(_) => ItemsEntry(t, dequant, items[1..], bytes, q, k + 16, data, i);
      case Coefficient(c, x) =>
        var n, rs := k + t.values[c] / 16, t.values[c];
        ItemsEntry(t, dequant, items[1..], bytes, q + rs % 16, n + 1, Enter(dequant, data, n, x), i);
        EnterEntry(dequant, data, n, x, i);
    }
  }

  lemma EnterEntry(dequant: seq<nat>, data: seq<int>, n: nat, x: int, i: nat)
    requires |dequant| == 64 && |data| == 64 && n < 79 && i < 64
    ensures if i == Place(n) then IsCut(Enter(dequant, data, n, x)[i], x * dequant[i])
            else Enter(dequant, data, n, x)[i] == data[i]
  {
    hide Place;
  }

  /**
   The coefficients of a block: each entry is the last value written for its place times the quantiser of that place,
   cut to sixteen bits; zero if there is none. The first entry is the prediction plus the difference, times its own.
   */
  ghost predicate Entered(s: Setting, b: BlockText, c: Coefficients)
    requires s.Ok()
  {
    && |c.data| == 64 && c.dc == s.pred + b.diff
    && forall i :: 0 <= i < 64 ==> EntryIs(s, b, c.data[i], i)
  }

  ghost predicate EntryIs(s: Setting, b: BlockText, y: int, i: nat)
    requires s.Ok() && i < 64
  {
    match LastValue(s.ac, b.items, 1, i)
    case Some(x) => IsCut(y, x * s.dequant[i])
    case None => if i == 0 then IsCut(y, (s.pred + b.diff) * s.dequant[0]) else y == 0
  }

  lemma BlockEntries(s: Setting, b: BlockText, bytes: seq<Byte>, p: nat)
    requires s.Ok() && BlockAt(s, b, bytes, p)
    ensures Entered(s, b, BlockMeaning(s, b))
  {
    hide ItemsAt, ItemsMeaning, SymbolAt, ProductAccepted, LastValue, IsCut;
    var c, d := BlockMeaning(s, b), s.pred + b.diff;
    var data := Nothing()[0 := Scaled(d, s.dequant[0])];
    ScaledIsCut(d, s.dequant[0]);
    forall i | 0 <= i < 64 ensures EntryIs(s, b, c.data[i], i) {
      ItemsEntry(s.ac, s.dequant, b.items, bytes, AcStart(s, b, p), 1, data, i);
    }
  }

  lemma ScaledIsCut(v: int, q: nat)
    ensures IsCut(Scaled(v, q), v * q)
  {
  }

  /** The first entry is never one of the values behind the difference. */
  lemma {:induction false} FirstIsAlone(t: Table, items: seq<Item>, k: nat)
    requires IsTable(t) && k >= 1
    ensures LastValue(t, items, k, 0) == None
    decreases |items|
  {
    hide Place;
    if items == [] || items[0].i >= |t.lens| {
    } else {
      match items[0]
      case EndOfBlock(_) =>
      case SixteenZeros(_) => FirstIsAlone(t, items[1..], k + 16);
      case Coefficient(c, _) =>
        FirstIsAlone(t, items[1..], k + t.values[c] / 16 + 1);
        NotFirst(k + t.values[c] / 16);
    }
  }

  lemma NotFirst(n: nat)
    requires n >= 1
    ensures n < 79 ==> Place(n) != 0
  {
    hide Place;
    if n < 63 {
      PlacesAreZigzag(n - 1);
      Onward(Place(n - 1));
    } else if n < 79 {
      PlacesAtEnds(n);
    }
  }

  lemma Onward(x: nat)
    requires x < 63
    ensures ZigzagNext(x) >= 1
  {
  }

  /** Every accepted block is a written one. */
  lemma BlockIsWritten(s: Setting, bytes: seq<Byte>, p: nat) returns (b: BlockText)
    requires s.Ok() && s.Decode(bytes, p).Read?
    ensures BlockAt(s, b, bytes, p)
    ensures s.Decode(bytes, p) == Read(BlockMeaning(s, b), BlockEnd(s, b, p))
  {
    hide ItemsAt, ItemsMeaning, ItemsEnd, AcFrom, ReadDifference, DifferenceAt, ProductAccepted;
    var i, x := DifferenceIsWritten(s.dc, bytes, p);
    DifferenceInTable(s.dc, bytes, p, i, x);
    var data := Nothing()[0 := Scaled(s.pred + x, s.dequant[0])];
    var items := AcIsWritten(s.ac, s.dequant, bytes, p + s.dc.lens[i] + s.dc.values[i], 1, data);
    b := BlockText(i, x, items);
  }

  lemma DifferenceInTable(t: Table, bytes: seq<Byte>, p: nat, i: nat, x: int)
    requires IsTable(t) && t.canonical && DifferenceAt(t, bytes, p, i, x)
    ensures i < |t.lens|
  {
  }

  /**
   Between what comes before it and the next marker, a scan is decoded from its stuffed bytes: a block that was written
   into the bytes gives its coefficients, and nothing is accepted that was not written.
   */
  lemma StuffedBlockDecodes(s: Setting, before: seq<Byte>, bytes: seq<Byte>, tail: seq<Byte>, p: nat)
    requires s.Ok() && EndsScan(tail)
    ensures var data := Unstuffed(before + Stuffed(bytes) + tail, |before|);
            && (forall b :: BlockAt(s, b, bytes, p) ==>
              s.Decode(data, p) == Read(BlockMeaning(s, b), BlockEnd(s, b, p)))
            && (s.Decode(data, p).Read? <==> exists b :: BlockAt(s, b, bytes, p))
  {
    hide Unstuffed, BlockAt, BlockMeaning, BlockEnd, Block;
    UnstuffedStuffed(before, bytes, tail);
    forall b | BlockAt(s, b, bytes, p) ensures s.Decode(bytes, p) == Read(BlockMeaning(s, b), BlockEnd(s, b, p)) {
      BlockDecodes(s, b, bytes, p);
    }
    if s.Decode(bytes, p).Read? {
      var b := BlockIsWritten(s, bytes, p);
    }
  }
}
