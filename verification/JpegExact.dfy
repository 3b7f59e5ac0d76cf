/**
 The outcome of decoding a baseline block for all data, also where the data ends inside the block: what
 stbi__jpeg_decode_block of lib/stb_image.h leaves, as a function of the bytes, the position and what has been loaded.
 */
module JpegExact {
  import opened Wrappers
  import opened Bits
  import opened Canonical
  import opened JpegTable
  import opened BitRegister
  import opened JpegSpec
  import opened JpegFastAc
  import opened JpegSupply

  datatype Turn = More(data: seq<int>, k: nat, at: Point) | Done(data: seq<int>, at: Point) | Failed

  /** One AC coefficient by decoding a symbol and then its value. */
  ghost function TurnBySymbol(t: Table, dequant: seq<nat>, d: Data, k: nat, data: seq<int>, a: Point): (r: Turn)
    requires IsTable(t) && |dequant| == 64 && |data| == 64 && k < 64
    ensures r.More? ==> r.k > k && |r.data| == 64
    ensures r.Done? ==> |r.data| == 64
  {
    match SymbolFrom(t, d, a)
    case None => Failed
    case Some((rs, b)) =>
      if rs % 16 == 0 then if rs != 0xF0 then Done(data, b) else More(data, k + 16, b)
      else
        var (v, c) := ValueFrom(d, rs % 16, b);
        More(Enter(dequant, data, k + rs / 16, v), k + rs / 16 + 1, c)
  }

  /** One AC coefficient by the fused entry r, which needs all bits of the code and the value. */
  function TurnByEntry(dequant: seq<nat>, k: nat, data: seq<int>, r: int, a: Point): (x: Turn)
    requires |dequant| == 64 && |data| == 64 && k < 64
    ensures x.More? ==> x.k > k && |x.data| == 64
    ensures !x.Done?
  {
    if !a.Has(r % 16) then Failed
    else More(Enter(dequant, data, k + r / 16 % 16, r / 256), k + r / 16 % 16 + 1, a.Behind(r % 16))
  }

  ghost function AcTurn(t: Table, dequant: seq<nat>, d: Data, k: nat, data: seq<int>, a: Point): (x: Turn)
    requires IsTable(t) && |dequant| == 64 && |data| == 64 && k < 64
    ensures x.More? ==> x.k > k && |x.data| == 64
    ensures x.Done? ==> |x.data| == 64
  {
    var r := Fused(t.lens, t.values, Big(d.bytes, a.p, FAST_BITS));
    if r != 0 then TurnByEntry(dequant, k, data, r, Asked(d, 16, a))
    else TurnBySymbol(t, dequant, d, k, data, Asked(d, 16, a))
  }

  /** All AC coefficients from number k on. */
  ghost function AcRun(t: Table, dequant: seq<nat>, d: Data, k: nat, data: seq<int>, a: Point)
    : Option<(seq<int>, Point)>
    requires IsTable(t) && |dequant| == 64 && |data| == 64
    decreases 79 - k
  {
    if k >= 64 then Some((data, a))
    else
      match AcTurn(t, dequant, d, k, data, a)
      case Failed => None
      case Done(x, b) => Some((x, b))
      case More(x, k', b) => AcRun(t, dequant, d, k', x, b)
  }

  ghost function DifferenceFrom(t: Table, d: Data, a: Point): Option<(int, Point)>
    requires IsTable(t)
  {
    match SymbolFrom(t, d, Asked(d, 16, a))
    case None => None
    case Some((n, b)) => if n > 15 then None else if n == 0 then Some((0, b)) else Some(ValueFrom(d, n, b))
  }

  /** A whole block: its coefficients and the new prediction, and where decoding stands. None is an error. */
  ghost function BlockRun(dc: Table, ac: Table, dequant: seq<nat>, pred: int, d: Data, a: Point)
    : Option<(Coefficients, Point)>
    requires IsTable(dc) && IsTable(ac) && |dequant| == 64
  {
    match DifferenceFrom(dc, d, a)
    case None => None
    case Some((diff, b)) =>
      var x := pred + diff;
      if !IsInt(x) || !ProductAccepted(Int16(x), Int16(dequant[0])) then None
      else
        match AcRun(ac, dequant, d, 1, Nothing()[0 := Scaled(x, dequant[0])], b)
        case None => None
        case Some((data, c)) => Some((Coefficients(data, x), c))
  }

  // ---------- fused entries ----------

  /** With 16 bits buffered, a fused entry is decoding its symbol and then its value, in all that comes of it. */
  lemma FusedIsUnfused(t: Table, dequant: seq<nat>, d: Data, k: nat, data: seq<int>, a: Point)
    requires IsTable(t) && |dequant| == 64 && |data| == 64 && k < 64 && a.Has(16)
    ensures AcTurn(t, dequant, d, k, data, a) == TurnBySymbol(t, dequant, d, k, data, a)
  {
    hide Fused, Canon, Lookup, Big, Extend, Enter;
    FusedIsDecodeThenExtend(t, d.bytes, a.p);
    FastIsLookedUp(t, Big(d.bytes, a.p, 16));
  }

  /**
   With fewer, after the marker has been met, a fused entry is an error exactly if bits of its code or its value are
   missing; decoding its symbol and then its value would not be one.
   */
  lemma ShortFused(t: Table, dequant: seq<nat>, d: Data, k: nat, data: seq<int>, a: Point)
    requires IsTable(t) && |dequant| == 64 && |data| == 64 && k < 64 && Reached(d, a)
    requires Fused(t.lens, t.values, Big(d.bytes, a.p, FAST_BITS)) != 0
    ensures var r := Fused(t.lens, t.values, Big(d.bytes, a.p, FAST_BITS));
            var x, y := AcTurn(t, dequant, d, k, data, a), TurnBySymbol(t, dequant, d, k, data, Asked(d, 16, a));
            && (x.Failed? <==> !Asked(d, 16, a).Has(r % 16))
            && y.More? && (x.More? ==> x.data == y.data && x.k == y.k && x.at.p == y.at.p)
  {
    hide Fused, Canon, Lookup, Big, Extend, Enter, Filled, Reached;
    FusedIsDecodeThenExtend(t, d.bytes, a.p);
    FastIsLookedUp(t, Big(d.bytes, a.p, 16));
    AskedIs(d, 16, a);
    AskedIs(d, 16, Asked(d, 16, a));
  }

  lemma {:induction false} BitsOfZero(p: nat, n: nat)
    ensures Big([0], p, n) == 0
    decreases n
  {
    if n == 0 {
    } else {
      BitsOfZero(p, n - 1);
      ShrZero(7 - (p + n - 1) % 8);
    }
  }

  /** A table with one code of one bit, for a value of four bits: its last four bits stand in front of a marker. */
  lemma ShortFusedExists(values: seq<Byte>, dequant: seq<nat>, data: seq<int>)
    returns (t: Table, d: Data, a: Point)
    requires |values| == 256 && values[0] == 0x04 && |dequant| == 64 && |data| == 64
    ensures t == Table([1], values, false) && d == Data([0], true) && a == Point(4, Supply(1, false))
    ensures IsTable(t) && Reached(d, a) && AcTurn(t, dequant, d, 1, data, a).Failed?
    ensures TurnBySymbol(t, dequant, d, 1, data, Asked(d, 16, a)).More?
  {
    hide Fused, Canon, Hit, Big, Extend, AcTurn, TurnBySymbol, Pow2;
    t, d, a := Table([1], values, false), Data([0], true), Point(4, Supply(1, false));
    OneCode();
    CanonIs([1], 0, 0);
    BitsOfZero(4, 16);
    BitsOfZero(4, FAST_BITS);
    BitsOfZero(5, 4);
    LeastValue();
    FusedUnless(t, [0], 4);
    FusedIsDecodeThenExtend(t, [0], 4);
    ShortFused(t, dequant, d, 1, data, a);
  }

  lemma OneCode()
    ensures Hit([1], 0, 0)
  {
    PrefixIsShr(0, 1);
    ShrZero(15);
    assert [1][..0] == [];
  }

  lemma LeastValue()
    ensures Extend(0, 4) == -15
  {
    Pow2Table();
  }

  // ---------- the reference ----------

  /** z zero bytes. */
  function Zeros(z: nat): (s: seq<Byte>)
    ensures |s| == z && forall i :: 0 <= i < z ==> s[i] == 0
  {
    seq(z, _ => 0)
  }

  /** Zeros may be read behind the data: the data is not ended by a marker, or the marker has been met. */
  predicate Zeroed(d: Data, z: nat, a: Point) {
    z == 0 || !d.marked || a.supply.over
  }

  lemma {:induction false} PaddedBits(bytes: seq<Byte>, z: nat, p: nat, n: nat)
    ensures Big(bytes + Zeros(z), p, n) == Big(bytes, p, n)
    decreases n
  {
    if n == 0 {
    } else {
      PaddedBits(bytes, z, p, n - 1);
      assert ByteAt(bytes + Zeros(z), (p + n - 1) / 8) == ByteAt(bytes, (p + n - 1) / 8);
    }
  }

  /** What the reference says of a symbol holds of the one decoded. */
  lemma SymbolRefines(t: Table, d: Data, z: nat, a: Point)
    requires IsTable(t) && !t.canonical && Reached(d, a) && Zeroed(d, z, a)
    ensures var b, x := Asked(d, 16, a), ReadSymbol(t, d.bytes + Zeros(z), a.p);
            var s := SymbolFrom(t, d, b);
            && Reached(d, b) && Zeroed(d, z, b)
            && (x.Bad? ==> s == None)
            && (x.Read? ==> s.Some? && s.value.0 == x.value && s.value.1.p == x.end)
            && (s.Some? ==> Reached(d, s.value.1) && Zeroed(d, z, s.value.1))
  {
    hide Lookup, Big, Filled;
    PaddedBits(d.bytes, z, a.p, 16);
    AskedIs(d, 16, a);
    AskedIs(d, 16, Asked(d, 16, a));
    LookupLength(t.lens, Big(d.bytes, a.p, 16));
  }

  lemma LookupLength(lens: seq<nat>, w: nat)
    requires Listed(lens)
    ensures Lookup(lens, w).Symbol? ==> Lookup(lens, w).length <= 16
  {
    hide Canon, Prefix;
  }

  lemma ValueRefines(d: Data, z: nat, n: nat, a: Point)
    requires 1 <= n <= 15 && Reached(d, a) && Zeroed(d, z, a)
    ensures var x, (v, b) := ReadValue(d.bytes + Zeros(z), a.p, n), ValueFrom(d, n, a);
            Reached(d, b) && Zeroed(d, z, b) && (x.Read? ==> v == x.value && b.p == x.end)
  {
    hide Big, Filled, Extend;
    PaddedBits(d.bytes, z, a.p, n);
    AskedIs(d, n, a);
  }

  /** A fused entry is one turn of the reference. */
  lemma FusedTurn(t: Table, dequant: seq<nat>, bytes: seq<Byte>, p: nat, k: nat, data: seq<int>)
    requires IsTable(t) && |dequant| == 64 && |data| == 64 && k < 64
    requires Fused(t.lens, t.values, Big(bytes, p, FAST_BITS)) != 0
    ensures var r := Fused(t.lens, t.values, Big(bytes, p, FAST_BITS));
            AcFrom(t, dequant, bytes, p, k, data) ==
            if p + r % 16 > 8 * |bytes| then Short
            else AcFrom(t, dequant, bytes, p + r % 16, k + r / 16 % 16 + 1,
              Enter(dequant, data, k + r / 16 % 16, r / 256))
  {
    hide AcFrom, Fused, Canon, Lookup, Big, Extend, Enter;
    FusedIsDecodeThenExtend(t, bytes, p);
    FastIsLookedUp(t, Big(bytes, p, 16));
    AcCases(t, dequant, bytes, p, k, data);
  }

  /** One turn does what the reference does, unless the reference runs out of data. */
  lemma TurnRefines(t: Table, dequant: seq<nat>, d: Data, z: nat, k: nat, data: seq<int>, a: Point)
    requires IsTable(t) && !t.canonical && |dequant| == 64 && |data| == 64 && k < 64
    requires Reached(d, a) && Zeroed(d, z, a)
    ensures var bytes := d.bytes + Zeros(z);
            var x := AcFrom(t, dequant, bytes, a.p, k, data);
            match AcTurn(t, dequant, d, k, data, a)
            case Failed => !x.Read?
            case Done(y, b) => Reached(d, b) && Zeroed(d, z, b) && (x.Short? || x == Read(y, b.p))
            case More(y, k', b) =>
              Reached(d, b) && Zeroed(d, z, b) && (x.Short? || x == AcFrom(t, dequant, bytes, b.p, k', y))
  {
    hide AcFrom, ReadSymbol, ReadValue, SymbolFrom, ValueFrom, Asked, Reached, Zeroed, Enter, Fused, Big, Zeros;
    AskedIs(d, 16, a);
    PaddedBits(d.bytes, z, a.p, FAST_BITS);
    var b := Asked(d, 16, a);
    if Fused(t.lens, t.values, Big(d.bytes, a.p, FAST_BITS)) != 0 {
      FusedTurn(t, dequant, d.bytes + Zeros(z), a.p, k, data);
      EntryRefines(d, z, a, Fused(t.lens, t.values, Big(d.bytes, a.p, FAST_BITS)) % 16);
    } else {
      AcCases(t, dequant, d.bytes + Zeros(z), a.p, k, data);
      SymbolRefines(t, d, z, a);
      match SymbolFrom(t, d, b)
      case None =>
      case Some((rs, c)) =>
        if rs % 16 != 0 {
          ValueRefines(d, z, rs % 16, c);
          ReadsSomething(d.bytes + Zeros(z), c.p, rs % 16);
        }
    }
  }

  lemma EntryRefines(d: Data, z: nat, a: Point, n: nat)
    requires n < 16 && Reached(d, a) && Zeroed(d, z, a)
    ensures var b := Asked(d, 16, a);
            && (!b.Has(n) ==> a.p + n > 8 * |d.bytes + Zeros(z)|)
            && (b.Has(n) ==> Reached(d, b.Behind(n)) && Zeroed(d, z, b.Behind(n)))
  {
    hide Filled;
    AskedIs(d, 16, a);
  }

  /** All AC coefficients: the decoder gives what the reference gives, and fails where the reference finds bad data. */
  lemma {:induction false} AcRefines(t: Table, dequant: seq<nat>, d: Data, z: nat, k: nat, data: seq<int>, a: Point)
    requires IsTable(t) && !t.canonical && |dequant| == 64 && |data| == 64 && Reached(d, a) && Zeroed(d, z, a)
    ensures var x, r := AcFrom(t, dequant, d.bytes + Zeros(z), a.p, k, data), AcRun(t, dequant, d, k, data, a);
            && (x.Bad? ==> r == None)
            && (x.Read? ==> r.Some? && r.value.0 == x.value && r.value.1.p == x.end)
    decreases 79 - k
  {
    hide AcFrom, AcTurn, Reached, Zeroed, Zeros;
    if k >= 64 {
      AcCases(t, dequant, d.bytes + Zeros(z), a.p, k, data);
    } else {
      TurnRefines(t, dequant, d, z, k, data, a);
      match AcTurn(t, dequant, d, k, data, a)
      case More(y, k', b) => AcRefines(t, dequant, d, z, k', y, b);
      case _ =>
    }
  }

  /**
   A whole block, whatever was loaded before and whether or not the data ends inside it: with the data as it is (z zero)
   or, where zeros may be read behind it, with any number of them.
   */
  lemma BlockRefines(dc: Table, ac: Table, dequant: seq<nat>, pred: int, d: Data, z: nat, a: Point)
    requires IsTable(dc) && IsTable(ac) && !dc.canonical && !ac.canonical && |dequant| == 64
    requires Reached(d, a) && Zeroed(d, z, a)
    ensures var x, r := Block(dc, ac, dequant, pred, d.bytes + Zeros(z), a.p), BlockRun(dc, ac, dequant, pred, d, a);
            && (x.Bad? ==> r == None)
            && (x.Read? ==> r.Some? && r.value.0 == x.value && r.value.1.p == x.end)
  {
    hide AcFrom, AcRun, ReadSymbol, ReadValue, SymbolFrom, ValueFrom, Asked, Reached, Zeroed, Zeros, ProductAccepted;
    SymbolRefines(dc, d, z, a);
    match SymbolFrom(dc, d, Asked(d, 16, a))
    case None =>
    case Some((n, b)) =>
      if 1 <= n <= 15 {
        ValueRefines(d, z, n, b);
        ReadsSomething(d.bytes + Zeros(z), b.p, n);
      }
      if n <= 15 {
        var (diff, c) := DifferenceFrom(dc, d, a).value;
        AcRefines(ac, dequant, d, z, 1, Nothing()[0 := Scaled(pred + diff, dequant[0])], c);
      }
  }

  /** No block has more bits: a symbol has at most 16, a value 15, and there are 64 of them. */
  const MAX_BITS: nat := 31 * 64

  lemma {:induction false} AcHasEnough(t: Table, dequant: seq<nat>, bytes: seq<Byte>, p: nat, k: nat, data: seq<int>)
    requires IsTable(t) && !t.canonical && |dequant| == 64 && |data| == 64
    requires k < 64 ==> p + 31 * (64 - k) <= 8 * |bytes|
    ensures !AcFrom(t, dequant, bytes, p, k, data).Short?
    decreases 79 - k
  {
    hide AcFrom, Lookup, Big, Enter, Extend;
    AcCases(t, dequant, bytes, p, k, data);
    LookupLength(t.lens, Big(bytes, p, 16));
    var x := ReadSymbol(t, bytes, p);
    if k < 64 && x.Read? {
      if x.value == 0xF0 {
        AcHasEnough(t, dequant, bytes, x.end, k + 16, data);
      } else if x.value % 16 != 0 {
        var v := ReadValue(bytes, x.end, x.value % 16);
        AcHasEnough(t, dequant, bytes, v.end, k + x.value / 16 + 1, Enter(dequant, data, k + x.value / 16, v.value));
      }
    }
  }

  lemma BlockHasEnough(dc: Table, ac: Table, dequant: seq<nat>, pred: int, bytes: seq<Byte>, p: nat)
    requires IsTable(dc) && IsTable(ac) && !dc.canonical && !ac.canonical && |dequant| == 64
    requires p + MAX_BITS <= 8 * |bytes|
    ensures !Block(dc, ac, dequant, pred, bytes, p).Short?
  {
    hide AcFrom, Lookup, Big, Extend, ProductAccepted;
    LookupLength(dc.lens, Big(bytes, p, 16));
    match ReadDifference(dc, bytes, p)
    case Read(diff, q) => AcHasEnough(ac, dequant, bytes, q, 1, Nothing()[0 := Scaled(pred + diff, dequant[0])]);
    case _ =>
  }

  /** Where no marker ends the data, or it has been met, a block is decoded as if zeros followed without end. */
  lemma CutBlockReadsZeros(dc: Table, ac: Table, dequant: seq<nat>, pred: int, d: Data, z: nat, a: Point)
    requires IsTable(dc) && IsTable(ac) && !dc.canonical && !ac.canonical && |dequant| == 64
    requires Reached(d, a) && (!d.marked || a.supply.over) && a.p + MAX_BITS <= 8 * (|d.bytes| + z)
    ensures var x, r := Block(dc, ac, dequant, pred, d.bytes + Zeros(z), a.p), BlockRun(dc, ac, dequant, pred, d, a);
            && (r == None <==> x == Bad)
            && (r.Some? ==> x == Read(r.value.0, r.value.1.p))
  {
    hide Block, BlockRun, Reached;
    BlockRefines(dc, ac, dequant, pred, d, z, a);
    BlockHasEnough(dc, ac, dequant, pred, d.bytes + Zeros(z), a.p);
  }
}
