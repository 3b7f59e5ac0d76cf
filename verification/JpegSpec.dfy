/** What a baseline JPEG block means (ITU-T T.81, annexes F.2.2 and B.1.1.5), over the entropy-coded bytes of a scan. */
module JpegSpec {
  import opened Bits
  import opened JpegTable
  import opened BitRegister

  // ---------- byte stuffing ----------

  /** The first position from q on that does not hold 0xFF. */
  function AfterFill(data: seq<Byte>, q: nat): (r: nat)
    ensures r >= q
    decreases |data| - q
  {
    if q < |data| && data[q] == 0xFF then AfterFill(data, q + 1) else q
  }

  /** The entropy-coded bytes from q on, up to the next marker or the end. */
  function Unstuffed(data: seq<Byte>, q: nat): seq<Byte>
    decreases |data| - q
  {
    if q >= |data| then []
    else if data[q] != 0xFF then [data[q]] + Unstuffed(data, q + 1)
    else
      var m := AfterFill(data, q + 1);
      if ByteAt(data, m) == 0 then [0xFF] + Unstuffed(data, m + 1) else []
  }

  /** Whether a marker ends the entropy-coded bytes from q on; otherwise the input does. */
  predicate Marked(data: seq<Byte>, q: nat)
    decreases |data| - q
  {
    if q >= |data| then false
    else if data[q] != 0xFF then Marked(data, q + 1)
    else
      var m := AfterFill(data, q + 1);
      ByteAt(data, m) != 0 || Marked(data, m + 1)
  }

  // ---------- reading symbols and values ----------

  /** Short: the data ends before the value does. */
  datatype Read<T> = Read(value: T, end: nat) | Bad | Short

  /** A Huffman table, and whether it is meant to be decoded canonically or as the decoder looks it up. */
  datatype Table = Table(lens: seq<nat>, values: seq<Byte>, canonical: bool)

  ghost predicate IsTable(t: Table) {
    Listed(t.lens) && |t.values| == 256
  }

  function ReadBy(d: Decoded, values: seq<Byte>, bytes: seq<Byte>, p: nat): Read<Byte>
    requires |values| == 256
  {
    match d
    case Invalid => Bad
    case Symbol(i, n) =>
      if i >= 256 then Bad
      else if p + n > 8 * |bytes| then Short
      else Read(values[i], p + n)
  }

  /** The symbol at the start of a 16-bit window. */
  ghost function Look(t: Table, w: nat): Decoded {
    if t.canonical then Canon(t.lens, w) else Lookup(t.lens, w)
  }

  /** DECODE (F.2.2.3). */
  ghost function ReadSymbol(t: Table, bytes: seq<Byte>, p: nat): Read<Byte>
    requires IsTable(t)
  {
    ReadBy(Look(t, Big(bytes, p, 16)), t.values, bytes, p)
  }

  /** EXTEND (F.2.2.1): n bits as a signed value. */
  function Extend(v: nat, n: nat): int
    requires n >= 1
  {
    if v < Pow2(n - 1) then v - Pow2(n) + 1 else v
  }

  /** RECEIVE, then EXTEND. */
  function ReadValue(bytes: seq<Byte>, p: nat, n: nat): Read<int>
    requires n >= 1
  {
    if p + n > 8 * |bytes| then Short else Read(Extend(Big(bytes, p, n), n), p + n)
  }

  // ---------- coefficients ----------

  const DEZIGZAG: seq<seq<nat>> := [
    [0, 1, 8, 16, 9, 2, 3, 10],
    [17, 24, 32, 25, 18, 11, 4, 5],
    [12, 19, 26, 33, 40, 48, 41, 34],
    [27, 20, 13, 6, 7, 14, 21, 28],
    [35, 42, 49, 56, 57, 50, 43, 36],
    [29, 22, 15, 23, 30, 37, 44, 51],
    [58, 59, 52, 45, 38, 31, 39, 46],
    [53, 60, 61, 54, 47, 55, 62, 63],
    [63, 63, 63, 63, 63, 63, 63, 63],
    [63, 63, 63, 63, 63, 63, 63]]

  /** Where the k-th coefficient of the zigzag order stands; beyond the last one, at the last one. */
  function Place(k: nat): (r: nat)
    requires k < 79
    ensures r < 64
  {
    DEZIGZAG[k / 8][k % 8]
  }

  /** Truncation to a signed 16-bit value. */
  function Int16(x: int): (r: int)
    ensures -0x8000 <= r < 0x8000
  {
    (x + 0x8000) % 0x10000 - 0x8000
  }

  function Scaled(v: int, q: nat): int {
    Int16(v * q)
  }

  /** The AC coefficients from number k on (F.2.2.2), entered into data. */
  ghost function AcFrom(t: Table, dequant: seq<nat>, bytes: seq<Byte>, p: nat, k: nat, data: seq<int>): Read<seq<int>>
    requires IsTable(t) && |dequant| == 64 && |data| == 64
    decreases 79 - k
  {
    if k >= 64 then Read(data, p)
    else
      match ReadSymbol(t, bytes, p)
      case Bad => Bad
      case Short => Short
      case Read(rs, q) =>
        if rs % 16 == 0 then
          if rs != 0xF0 then Read(data, q) else AcFrom(t, dequant, bytes, q, k + 16, data)
        else
          match ReadValue(bytes, q, rs % 16)
          case Bad => Bad
          case Short => Short
          case Read(v, e) =>
            AcFrom(t, dequant, bytes, e, k + rs / 16 + 1, Enter(dequant, data, k + rs / 16, v))
  }

  /** The cases of AcFrom. */
  lemma AcCases(t: Table, dequant: seq<nat>, bytes: seq<Byte>, p: nat, k: nat, data: seq<int>)
    requires IsTable(t) && |dequant| == 64 && |data| == 64
    ensures k >= 64 ==> AcFrom(t, dequant, bytes, p, k, data) == Read(data, p)
    ensures var x := ReadSymbol(t, bytes, p);
            k < 64 ==>
              && (x.Bad? ==> AcFrom(t, dequant, bytes, p, k, data) == Bad)
              && (x.Short? ==> AcFrom(t, dequant, bytes, p, k, data) == Short)
              && (x.Read? && x.value % 16 == 0 ==>
                    AcFrom(t, dequant, bytes, p, k, data) ==
                    if x.value != 0xF0 then Read(data, x.end) else AcFrom(t, dequant, bytes, x.end, k + 16, data))
              && (x.Read? && x.value % 16 != 0 ==>
                    var v := ReadValue(bytes, x.end, x.value % 16);
                    AcFrom(t, dequant, bytes, p, k, data) ==
                    if v.Short? then Short
                    else AcFrom(t, dequant, bytes, v.end, k + x.value / 16 + 1,
                      Enter(dequant, data, k + x.value / 16, v.value)))
  {
    hide ReadSymbol, Enter, Extend, Big;
  }

  function Enter(dequant: seq<nat>, data: seq<int>, k: nat, v: int): (r: seq<int>)
    requires k < 79 && |dequant| == 64 && |data| == 64
    ensures |r| == 64
  {
    data[Place(k) := Scaled(v, dequant[Place(k)])]
  }

  /** The difference of the DC coefficient from its prediction (F.2.2.1). */
  ghost function ReadDifference(t: Table, bytes: seq<Byte>, p: nat): Read<int>
    requires IsTable(t)
  {
    match ReadSymbol(t, bytes, p)
    case Bad => Bad
    case Short => Short
    case Read(n, q) => if n > 15 then Bad else if n == 0 then Read(0, q) else ReadValue(bytes, q, n)
  }

  /** Whether the product of two signed 16-bit values is taken to be one (lib/stb_image.h, stbi__mul2shorts_valid). */
  predicate ProductAccepted(a: int, b: int) {
    if b == 0 || b == -1 then true
    else if (a >= 0) == (b >= 0) then a <= Quotient(0x7FFF, b)
    else if b < 0 then a <= Quotient(-0x8000, b)
    else a >= Quotient(-0x8000, b)
  }

  /** Division that truncates towards zero. */
  function Quotient(a: int, b: int): int
    requires b != 0
  {
    if a >= 0 then a / b else -((-a) / b)
  }

  predicate IsInt16(x: int) {
    -0x8000 <= x < 0x8000
  }

  lemma NegativeQuotient(c: int, y: int)
    requires c >= 0 && y >= 1
    ensures Quotient(c, -y) == -(c / y) && (c > 0 ==> Quotient(-c, -y) == c / y) && Quotient(-c, y) == -(c / y)
  {
    assert c / -y == -(c / y);
  }

  lemma PositiveProduct(a: int, b: int)
    requires IsInt16(a) && IsInt16(b) && a >= 0 && b > 0
    ensures ProductAccepted(a, b) <==> IsInt16(a * b)
  {
    QuotientBound(a, b, 0x7FFF);
    ProductSign(a + 1, b);
    assert a * b >= 0;
  }

  lemma NegativeByPositive(a: int, b: int)
    requires IsInt16(a) && IsInt16(b) && a < 0 && b > 0
    ensures ProductAccepted(a, b) <==> IsInt16(a * b)
  {
    hide Quotient;
    QuotientBound(-a, b, 0x8000);
    NegativeQuotient(0x8000, b);
    Signs(a, b);
  }

  lemma PositiveByNegative(a: int, b: int)
    requires IsInt16(a) && IsInt16(b) && a >= 0 && b < -1
    ensures ProductAccepted(a, b) <==> IsInt16(a * b)
  {
    hide Quotient;
    QuotientBound(a, -b, 0x8000);
    NegativeQuotient(0x8000, -b);
    Signs(b, a);
    assert a * b == b * a;
  }

  lemma Signs(a: int, b: int)
    requires a < 0 && b >= 0
    ensures -a * b == -(a * b) == b * -a && a * b <= 0
  {
  }

  lemma NegativeProduct(a: int, b: int)
    requires IsInt16(a) && IsInt16(b) && a < 0 && b < -1
    ensures (ProductAccepted(a, b) <==> IsInt16(a * b)) <==> -a == 0x7FFF / -b
  {
    hide Quotient;
    var x, y := -a, -b;
    assert x * y == a * b;
    QuotientBound(x, y, 0x7FFF);
    NegativeQuotient(0x7FFF, y);
    ProductSign(y, x);
  }

  /**
   What the product test decides: unless both factors are negative, exactly whether the product is a signed 16-bit
   value. For two negative factors it is right only for a factor -1, and where the other factor is the largest that
   fits.
   */
  lemma ProductAcceptedIff(a: int, b: int)
    requires IsInt16(a) && IsInt16(b)
    ensures a >= 0 || b >= 0 ==> (ProductAccepted(a, b) <==> IsInt16(a * b))
    ensures a < 0 && b < 0 ==>
              ((ProductAccepted(a, b) <==> IsInt16(a * b)) <==> (if b == -1 then a != -0x8000 else -a == 0x7FFF / -b))
  {
    hide Quotient;
    if b > 0 && a >= 0 {
      PositiveProduct(a, b);
    } else if b > 0 {
      NegativeByPositive(a, b);
    } else if b < -1 && a >= 0 {
      PositiveByNegative(a, b);
    } else if b < -1 {
      NegativeProduct(a, b);
    }
  }

  /** A product that fits and is rejected, and one that does not fit and is accepted. */
  lemma ProductTestIsWrong()
    ensures !ProductAccepted(-1, -2) && IsInt16(-1 * -2)
    ensures ProductAccepted(-30000, -2) && !IsInt16(-30000 * -2)
  {
  }

  predicate IsInt(x: int) {
    -0x8000_0000 <= x < 0x8000_0000
  }

  function Nothing(): (r: seq<int>)
    ensures |r| == 64
  {
    seq(64, _ => 0)
  }

  datatype Coefficients = Coefficients(data: seq<int>, dc: int)

  /** One block: 64 coefficients, dequantised and in their places, and the new DC prediction. */
  ghost function Block(dc: Table, ac: Table, dequant: seq<nat>, pred: int, bytes: seq<Byte>, p: nat): Read<Coefficients>
    requires IsTable(dc) && IsTable(ac) && |dequant| == 64
  {
    match ReadDifference(dc, bytes, p)
    case Bad => Bad
    case Short => Short
    case Read(diff, q) =>
      var d := pred + diff;
      if !IsInt(d) || !ProductAccepted(Int16(d), Int16(dequant[0])) then Bad
      else
        match AcFrom(ac, dequant, bytes, q, 1, Nothing()[0 := Scaled(d, dequant[0])])
        case Bad => Bad
        case Short => Short
        case Read(data, e) => Read(Coefficients(data, d), e)
  }

  // ---------- decoding as looked up is canonical ----------

  /** The same table, decoded canonically. */
  function Canonically(t: Table): Table {
    t.(canonical := true)
  }

  /** For a table that is not ambiguous, looking up reads what canonical decoding reads. */
  lemma LookedUpIsCanonical(t: Table, bytes: seq<Byte>, p: nat)
    requires IsTable(t) && !Ambiguous(t.lens)
    ensures ReadSymbol(t, bytes, p) == ReadSymbol(Canonically(t), bytes, p)
  {
    hide Lookup, Canon, Big;
    LookupIsCanonical(t.lens, Big(bytes, p, 16));
  }

  /** A symbol below 255 is found alike by looking up and canonically. */
  lemma FastIsLookedUp(t: Table, w: nat)
    requires IsTable(t)
    ensures Canon(t.lens, w).Symbol? && Canon(t.lens, w).index < NOT_FAST ==>
              Lookup(t.lens, w) == Look(t, w) == Canon(t.lens, w)
  {
    hide Lookup, Canon;
    if Canon(t.lens, w).Symbol? && Canon(t.lens, w).index < NOT_FAST {
      LookupIsCanonical(t.lens, w);
    }
  }

  lemma {:induction false} AcIsCanonical(t: Table, dequant: seq<nat>, bytes: seq<Byte>, p: nat, k: nat, data: seq<int>)
    requires IsTable(t) && !Ambiguous(t.lens) && |dequant| == 64 && |data| == 64
    ensures AcFrom(t, dequant, bytes, p, k, data) == AcFrom(Canonically(t), dequant, bytes, p, k, data)
    decreases 79 - k
  {
    hide AcFrom, ReadSymbol, ReadValue, Enter;
    AcCases(t, dequant, bytes, p, k, data);
    AcCases(Canonically(t), dequant, bytes, p, k, data);
    LookedUpIsCanonical(t, bytes, p);
    var x := ReadSymbol(t, bytes, p);
    if k < 64 && x.Read? {
      if x.value == 0xF0 {
        AcIsCanonical(t, dequant, bytes, x.end, k + 16, data);
      } else if x.value % 16 != 0 && !ReadValue(bytes, x.end, x.value % 16).Short? {
        var v := ReadValue(bytes, x.end, x.value % 16);
        ReadsSomething(bytes, x.end, x.value % 16);
        AcIsCanonical(t, dequant, bytes, v.end, k + x.value / 16 + 1, Enter(dequant, data, k + x.value / 16, v.value));
      }
    }
  }

  lemma ReadsSomething(bytes: seq<Byte>, p: nat, n: nat)
    requires n >= 1
    ensures !ReadValue(bytes, p, n).Bad?
  {
  }

  /** With tables that are not ambiguous, a block means the same either way. */
  lemma BlockIsCanonical(dc: Table, ac: Table, dequant: seq<nat>, pred: int, bytes: seq<Byte>, p: nat)
    requires IsTable(dc) && IsTable(ac) && !Ambiguous(dc.lens) && !Ambiguous(ac.lens) && |dequant| == 64
    ensures Block(dc, ac, dequant, pred, bytes, p) == Block(Canonically(dc), Canonically(ac), dequant, pred, bytes, p)
  {
    hide AcFrom, ReadSymbol, Ambiguous;
    LookedUpIsCanonical(dc, bytes, p);
    var x := ReadDifference(dc, bytes, p);
    if x.Read? {
      AcIsCanonical(ac, dequant, bytes, x.end, 1, Nothing()[0 := Scaled(pred + x.value, dequant[0])]);
    }
  }

  // ---------- the zigzag order ----------

  /** One step along the diagonals of the 8 by 8 matrix (T.81, figure A.6), from row-major place x. */
  function ZigzagNext(x: nat): int
    requires x < 63
  {
    var row, col := x / 8, x % 8;
    if (row + col) % 2 == 0 then
      if col == 7 then x + 8 else if row == 0 then x + 1 else x - 7
    else
      if row == 7 then x + 1 else if col == 0 then x + 8 else x + 7
  }

  /** The table of places is the walk along the diagonals. */
  lemma PlacesAreZigzag(k: nat)
    requires k < 63
    ensures Place(k) < 63 && Place(k + 1) == ZigzagNext(Place(k))
  {
    hide Place;
    if k < 32 {
      FirstHalfIsZigzag(k);
    } else {
      SecondHalfIsZigzag(k);
    }
  }

  lemma FirstHalfIsZigzag(k: nat)
    requires k < 32
    ensures Place(k) < 63 && Place(k + 1) == ZigzagNext(Place(k))
  {
  }

  lemma SecondHalfIsZigzag(k: nat)
    requires 32 <= k < 63
    ensures Place(k) < 63 && Place(k + 1) == ZigzagNext(Place(k))
  {
  }

  lemma PlacesAtEnds(k: nat)
    requires 63 <= k < 79
    ensures Place(0) == 0 && Place(k) == 63
  {
  }
}
