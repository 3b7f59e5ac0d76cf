/** Entropy decoding of baseline JPEG blocks with a buffered bit register (lib/stb_image.h). */
module JpegDecoder {
  import opened Bits
  import opened Canonical
  import opened JpegTable
  import opened BitRegister
  import opened JpegSpec
  import opened JpegSupply
  import opened JpegHuffman
  import opened JpegFastAc
  import opened Contexts

  const NO_MARKER: Byte := 0xFF
  const BIAS: seq<int> := [0, -1, -3, -7, -15, -31, -63, -127, -255, -511, -1023, -2047, -4095, -8191, -16383, -32767]

  /** The table of the decoder, as it looks it up. */
  ghost function TableOf(h: JHuffman): Table
    requires h.Shape()
    reads h, h.values
  {
    Table(h.lens, h.values[..], false)
  }

  /** What is left of the entropy-coded bytes when n of them have been taken, counting the zeros after the end. */
  function Left(bytes: seq<Byte>, n: nat): seq<Byte> {
    if n <= |bytes| then bytes[n..] else []
  }

  lemma NothingTaken(bytes: seq<Byte>)
    ensures Left(bytes, 0) == bytes
  {
  }

  lemma TakeLeft(bytes: seq<Byte>, n: nat, b: Byte, rest: seq<Byte>)
    requires Left(bytes, n) == [b] + rest
    ensures n < |bytes| && ByteAt(bytes, n) == b && Left(bytes, n + 1) == rest
  {
    assert bytes[n] == Left(bytes, n)[0];
    assert bytes[n + 1..] == Left(bytes, n)[1..];
  }

  lemma TakePastEnd(bytes: seq<Byte>, n: nat)
    requires Left(bytes, n) == []
    ensures n >= |bytes| && ByteAt(bytes, n) == 0 && Left(bytes, n + 1) == []
  {
    assert n <= |bytes| ==> |bytes[n..]| == |bytes| - n;
  }

  lemma UnstuffedCases(data: seq<Byte>, q: nat)
    ensures q >= |data| ==> Unstuffed(data, q) == [] && ByteAt(data, q) == 0 && !Marked(data, q)
    ensures q < |data| && ByteAt(data, q) != 0xFF ==>
              Unstuffed(data, q) == [ByteAt(data, q)] + Unstuffed(data, q + 1) && Marked(data, q) == Marked(data, q + 1)
    ensures ByteAt(data, q) == 0xFF ==>
              var m := AfterFill(data, q + 1);
              && Unstuffed(data, q) == (if ByteAt(data, m) == 0 then [0xFF] + Unstuffed(data, m + 1) else [])
              && Marked(data, q) == (ByteAt(data, m) != 0 || Marked(data, m + 1))
  {
  }

  class Jpeg {
    const s: Context
    var codeBuffer: nat
    var codeBits: int
    var marker: Byte
    var nomore: bool
    /**
     Prediction of each component, blocks of the current end-of-band run, and blocks up to the next restart marker.
     */
    const dcPred: array<int>
    var eobRun: nat
    var todo: nat
    var restartInterval: nat
    /**
     The entropy-coded bytes of the current scan and whether a marker ends them, the bits of them consumed, and the
     bytes loaded.
     */
    ghost var bytes: seq<Byte>
    ghost var marked: bool
    ghost var cursor: nat
    ghost var loaded: nat

    constructor (s: Context)
      requires s.Valid()
      ensures this.s == s && Valid() && fresh(dcPred)
      ensures cursor == 0 && bytes == Unstuffed(s.input, s.At()) && marked == Marked(s.input, s.At())
    {
      hide Big, Marked;
      this.s := s;
      codeBuffer, codeBits, marker, nomore := 0, 0, NO_MARKER, false;
      dcPred, eobRun, todo, restartInterval := new int[4](_ => 0), 0, 0x7FFF_FFFF, 0;
      bytes, cursor, loaded := Unstuffed(s.input, s.At()), 0, 0;
      marked := Marked(s.input, s.At());
      new;
      RegisterEmpty(bytes, 0, 32);
      assert bytes[0..] == bytes;
    }

    ghost predicate Valid()
      reads this, s
    {
      && s.Valid() && dcPred.Length == 4 && 0 <= codeBits <= 32 && cursor + codeBits == 8 * loaded
      && codeBuffer == Register(bytes, cursor, codeBits, 32)
      && Left(bytes, loaded) == (if nomore then [] else Unstuffed(s.input, s.At()))
      && marked == (nomore || Marked(s.input, s.At())) && (marked && !nomore ==> loaded <= |bytes|)
    }

    /** What the decoder reads from, and how far it has come. */
    ghost function Source(): Data
      reads this
    {
      Data(bytes, marked)
    }

    ghost function Here(): Point
      reads this
    {
      Point(cursor, Supply(loaded, nomore))
    }

    lemma HereIsReached()
      requires Valid()
      ensures Reached(Source(), Here())
    {
      hide Register, Big, Unstuffed, Marked;
      if nomore {
        NothingLeft(bytes, loaded);
      }
    }

    /** All of the data is in the register. */
    ghost predicate Ended()
      reads this
    {
      nomore && loaded >= |bytes|
    }

    /** Starts over at the position of the byte source, at the start of a scan or behind a restart marker. */
    method Reset()
      requires s.Valid() && dcPred.Length == 4
      modifies this, dcPred
      ensures Valid() && cursor == 0 && bytes == Unstuffed(s.input, s.At()) && marked == Marked(s.input, s.At())
      ensures forall b :: 0 <= b < 4 ==> dcPred[b] == 0
      ensures marker == NO_MARKER && eobRun == 0 && restartInterval == old(restartInterval)
      ensures todo == if restartInterval != 0 then restartInterval else 0x7FFF_FFFF
    {
      hide Big, Register, Unstuffed, Marked, Left, Shl, Pow2, AfterFill, ByteAt;
      codeBits, codeBuffer, nomore := 0, 0, false;
      ClearPredictions();
      marker := NO_MARKER;
      todo := if restartInterval != 0 then restartInterval else 0x7FFF_FFFF;
      eobRun := 0;
      bytes, cursor, loaded := Unstuffed(s.input, s.At()), 0, 0;
      marked := Marked(s.input, s.At());
      RegisterEmpty(bytes, 0, 32);
      NothingTaken(bytes);
    }

    method ClearPredictions()
      requires dcPred.Length == 4
      modifies dcPred
      ensures forall b :: 0 <= b < 4 ==> dcPred[b] == 0
    {
      dcPred[0], dcPred[1], dcPred[2], dcPred[3] := 0, 0, 0, 0;
    }

    /** The next entropy-coded byte, zero past the last one; nothing at a marker found just now. */
    method NextByte() returns (b: Byte, found: bool)
      requires Valid()
      modifies s, this`marker, this`nomore
      ensures s.Valid() && (old(nomore) ==> nomore && !found)
      ensures found ==> nomore && marked && Left(bytes, loaded) == []
      ensures !found ==> nomore == old(nomore) && b == ByteAt(bytes, loaded)
      ensures !found ==> Left(bytes, loaded + 1) == if nomore then [] else Unstuffed(s.input, s.At())
      ensures !found && !nomore ==> marked == Marked(s.input, s.At()) && (marked ==> loaded < |bytes|)
    {
      hide Register, Big, Unstuffed, Marked, Left, ByteAt, AfterFill;
      found := false;
      if nomore {
        TakePastEnd(bytes, loaded);
        return 0, false;
      }
      ghost var q := s.At();
      UnstuffedCases(s.input, q);
      b := s.Get8();
      if b != 0xFF {
        if q < |s.input| {
          TakeLeft(bytes, loaded, b, Unstuffed(s.input, q + 1));
        } else {
          TakePastEnd(bytes, loaded);
          UnstuffedCases(s.input, q + 1);
        }
        return;
      }
      var c := SkipFill();
      if c != 0 {
        marker := c;
        nomore := true;
        found := true;
      } else {
        TakeLeft(bytes, loaded, b, Unstuffed(s.input, s.At()));
      }
    }

    /** The first byte that is not a fill byte. */
    method SkipFill() returns (c: Byte)
      requires s.Valid()
      modifies s
      ensures s.Valid() && s.At() == AfterFill(s.input, old(s.At())) + 1 && c == ByteAt(s.input, s.At() - 1) != 0xFF
    {
      c := s.Get8();
      while c == 0xFF
        invariant s.Valid() && s.At() > old(s.At()) && c == ByteAt(s.input, s.At() - 1)
        invariant AfterFill(s.input, old(s.At())) == AfterFill(s.input, s.At() - 1)
        decreases |s.input| + 1 - s.At()
      {
        c := s.Get8();
      }
    }

    /** Fills the register, with fewer than 25 bits only if that has met the marker. */
    method GrowBuffer()
      requires Valid() && codeBits <= 24
      modifies this`codeBuffer, this`codeBits, this`marker, this`nomore, this`loaded, s
      ensures Valid() && codeBits >= old(codeBits) && (codeBits > 24 || Ended())
      ensures Here() == Point(cursor, Filled(Source(), cursor, old(Here().supply)))
    {
      hide Register, Big, Unstuffed, Marked, Left;
      while true
        invariant Valid() && codeBits <= 24 && codeBits >= old(codeBits) && nomore == old(nomore)
        decreases 24 - codeBits
      {
        var b, found := NextByte();
        if found {
          NothingLeft(bytes, loaded);
          return;
        }
        RegisterAppend(bytes, cursor, codeBits, loaded, 32);
        codeBuffer := codeBuffer + Shl(b, 24 - codeBits);
        codeBits := codeBits + 8;
        loaded := loaded + 1;
        if codeBits > 24 {
          return;
        }
      }
    }

    /** Makes n bits available if there are as many. */
    method Need(n: nat)
      requires Valid() && n <= 16
      modifies this`codeBuffer, this`codeBits, this`marker, this`nomore, this`loaded, s
      ensures Valid() && codeBits >= old(codeBits) && (codeBits >= n || Ended())
      ensures Here() == Asked(Source(), n, old(Here()))
      ensures old(codeBits) >= n ==> codeBits == old(codeBits) && loaded == old(loaded)
    {
      hide Register, Big, Unstuffed, Marked, Left, Filled;
      if codeBits < n {
        GrowBuffer();
      }
    }

    /** Drops the first n buffered bits. */
    method Drop(n: nat)
      requires Valid() && n <= codeBits
      modifies this`codeBuffer, this`codeBits, this`cursor
      ensures Valid() && cursor == old(cursor) + n && codeBits == old(codeBits) - n
    {
      hide Register, Big, Unstuffed, Marked, Left;
      RegisterDrop(bytes, cursor, codeBits, n, 32);
      codeBuffer := Low(Shl(codeBuffer, n), 32);
      codeBits := codeBits - n;
      cursor := cursor + n;
    }

    /**
     Decodes a symbol. A negative result is an error: there is no symbol for the next 16 bits, or fewer bits than its
     code has are left once the register is filled. With 16 bits buffered nothing is loaded.
     */
    method HuffDecode(h: JHuffman) returns (r: int)
      requires Valid() && h.Valid() && this as object !in h.Repr && s as object !in h.Repr
      modifies this`codeBuffer, this`codeBits, this`marker, this`nomore, this`loaded, this`cursor, s
      ensures r >= 0 ==> Valid() && 0 <= r < 256
      ensures var x := ReadBy(Lookup(h.lens, Big(bytes, old(cursor), 16)), h.values[..], bytes, old(cursor));
              (x.Read? ==> r == x.value && cursor == x.end) && (x.Bad? ==> r < 0)
      ensures var x := SymbolFrom(TableOf(h), Source(), old(Here()));
              (r >= 0 <==> x.Some?) && (r >= 0 ==> x.value == (r, Here()))
      ensures Here().supply == Asked(Source(), 16, old(Here())).supply
      ensures old(codeBits) >= 16 ==> loaded == old(loaded)
      ensures loaded >= old(loaded) && (old(cursor) + 16 <= 8 * loaded || Ended())
    {
      hide Register, Big, Unstuffed, Marked, Left, Lookup, Shr, FastTable, LengthTables, CodeTable, Fits, Listed;
      hide FastEntry, Scan, BySlot, Pow2, Filled;
      Need(16);
      ghost var w := Big(bytes, cursor, 16);
      RegisterWindow(bytes, cursor, codeBits, 16, 32);
      BigBound(bytes, cursor, 16);
      ShrAdd(codeBuffer, 16, 7);
      var c := Shr(codeBuffer, 23);
      FastAnswers(h.fast[..], h.lens, w);
      var k := h.fast[c];
      LookupUnfold(h.lens, w);
      if k < NOT_FAST {
        FastSymbol(h.lens, w);
        r := TakeSymbol(h, k, h.size[k]);
      } else {
        r := SlowDecode(h, w);
      }
    }

    /** The symbol in slot i, if its n bits are buffered. */
    method TakeSymbol(h: JHuffman, i: nat, n: nat) returns (r: int)
      requires Valid() && (codeBits >= 16 || Ended()) && h.Shape() && i < 256 && n <= 16
      modifies this`codeBuffer, this`codeBits, this`cursor
      ensures Valid() && -1 <= r < 256
      ensures var x := ReadBy(Symbol(i, n), h.values[..], bytes, old(cursor));
              x.Read? ==> r == x.value && cursor == x.end
      ensures if old(cursor) + n <= 8 * loaded then r == h.values[i] && cursor == old(cursor) + n else r < 0
    {
      hide Register, Big, Unstuffed, Marked, Left;
      if n > codeBits {
        return -1;
      }
      Drop(n);
      r := h.values[i];
    }

    /** Decodes a symbol that the fast table does not know. */
    method SlowDecode(h: JHuffman, ghost w: nat) returns (r: int)
      requires Valid() && h.Valid() && (codeBits >= 16 || Ended())
      requires w == Big(bytes, cursor, 16) && Shr(codeBuffer, 16) == w < Pow2(16) && FastEntry(h.lens, w) == NOT_FAST
      modifies this`codeBuffer, this`codeBits, this`cursor
      ensures r >= 0 ==> Valid() && r < 256
      ensures var x := ReadBy(Lookup(h.lens, w), h.values[..], bytes, old(cursor));
              (x.Read? ==> r == x.value && cursor == x.end) && (x.Bad? ==> r < 0)
      ensures var d := Lookup(h.lens, w);
              && (r >= 0 <==> d.Symbol? && old(cursor) + d.length <= 8 * loaded)
              && (r >= 0 ==> d.index < 256 && r == h.values[d.index] && cursor == old(cursor) + d.length)
    {
      hide Register, Big, Unstuffed, Marked, Left, Lookup, Shr, FastTable, LengthTables, CodeTable, Fits, Listed;
      hide FastEntry, Pow2, Scan, First, FirstPos;
      LookupUnfold(h.lens, w);
      var n := ScanCodes(h, w);
      if n == 17 {
        codeBits := codeBits - 16;
        return -1;
      }
      if n > codeBits {
        return -1;
      }
      RegisterWindow(bytes, cursor, codeBits, n, 32);
      BigTake(bytes, cursor, n);
      BigBound(bytes, cursor, n);
      LowOfSmall(Big(bytes, cursor, n), n);
      DeltaAt(h.maxcode[..], h.delta[..], h.lens, n);
      var i := Low(Shr(codeBuffer, 32 - n), n) + h.delta[n];
      if i < 0 || i >= 256 {
        return -1;
      }
      r := TakeSymbol(h, i, n);
    }

    /** The length of the code at the start of the buffer, at least 10, or 17. */
    method ScanCodes(h: JHuffman, ghost w: nat) returns (k: nat)
      requires h.Valid() && Shr(codeBuffer, 16) == w < Pow2(16)
      ensures FAST_BITS < k <= 17 && k == Scan(h.lens, w, FAST_BITS + 1)
    {
      hide Shr, FastTable, CodeTable, Fits, Listed, Limit, Prefix, Shl, Scan, Pow2;
      var temp := Shr(codeBuffer, 16);
      k := FAST_BITS + 1;
      Pow2Table();
      while true
        invariant FAST_BITS < k <= 17 && Scan(h.lens, w, FAST_BITS + 1) == Scan(h.lens, w, k)
        decreases 17 - k
      {
        ScanCases(h.lens, w, k);
        if k < 17 {
          PreshiftedCompare(w, k, Limit(h.lens, k));
        }
        if temp < h.maxcode[k] {
          return;
        }
        k := k + 1;
      }
    }

    /** Reads n bits as a signed value; zero if fewer are left once the register is filled. */
    method ExtendReceive(n: nat) returns (v: int)
      requires Valid() && 1 <= n <= 15
      modifies this`codeBuffer, this`codeBits, this`marker, this`nomore, this`loaded, this`cursor, s
      ensures Valid() && -0x8000 < v < 0x8000
      ensures ReadValue(bytes, old(cursor), n).Read? ==> ReadValue(bytes, old(cursor), n) == Read(v, cursor)
      ensures if old(cursor) + n <= 8 * loaded
              then v == Extend(Big(bytes, old(cursor), n), n) && cursor == old(cursor) + n
              else v == 0 && cursor == old(cursor)
      ensures (v, Here()) == ValueFrom(Source(), n, old(Here()))
      ensures old(codeBits) >= n ==> loaded == old(loaded)
      ensures loaded >= old(loaded) && (old(cursor) + n <= 8 * loaded || Ended())
    {
      hide Register, Big, Unstuffed, Marked, Left, Shr, Pow2, Filled;
      Need(n);
      if codeBits < n {
        return 0;
      }
      RegisterTop(bytes, cursor, codeBits, n, 32);
      RegisterTop(bytes, cursor, codeBits, 1, 32);
      var sgn := Shr(codeBuffer, 31);
      var k := Shr(codeBuffer, 32 - n);
      SignBit(bytes, cursor, n);
      BiasIs(n);
      BigBound(bytes, cursor, n);
      Pow2Mono(n, 15);
      Pow2Table();
      Drop(n);
      v := if sgn == 0 then k + BIAS[n] else k;
    }
  }

  lemma ScanCases(lens: seq<nat>, k: nat, s: nat)
    requires FAST_BITS < s <= 17
    ensures Scan(lens, k, s) == if s == 17 || Prefix(k, s) < Limit(lens, s) then s else Scan(lens, k, s + 1)
  {
    hide Prefix, Limit;
  }

  lemma NothingLeft(bytes: seq<Byte>, n: nat)
    requires Left(bytes, n) == []
    ensures n >= |bytes|
  {
    TakePastEnd(bytes, n);
  }

  lemma LookupUnfold(lens: seq<nat>, k: nat)
    ensures FastEntry(lens, k) < NOT_FAST ==>
              Lookup(lens, k) == Symbol(FastEntry(lens, k),
                if FastEntry(lens, k) < |lens| then lens[FastEntry(lens, k)] else 0)
    ensures FastEntry(lens, k) >= NOT_FAST ==>
              var s := Scan(lens, k, FAST_BITS + 1);
              Lookup(lens, k) == if s == 17 then Invalid else BySlot(lens, k, s)
  {
    hide FastEntry, Scan, BySlot;
  }

  lemma FastSymbol(lens: seq<nat>, k: nat)
    requires FastEntry(lens, k) < NOT_FAST
    ensures FastEntry(lens, k) < |lens| && lens[FastEntry(lens, k)] <= 16
  {
    hide Canon, Hit;
    HitInRange(lens, k, Canon(lens, k).index);
  }

  lemma BigTake(bytes: seq<Byte>, p: nat, n: nat)
    requires n <= 16
    ensures Prefix(Big(bytes, p, 16), n) == Big(bytes, p, n)
  {
    hide Big, Prefix, Shr, Register;
    PrefixIsShr(Big(bytes, p, 16), n);
    RegisterFull(bytes, p, 16);
    RegisterTop(bytes, p, 16, n, 16);
  }

  lemma DeltaAt(maxcode: seq<nat>, delta: seq<int>, lens: seq<nat>, n: nat)
    requires |maxcode| == 18 && |delta| == 17 && LengthTables(maxcode, delta, lens, 17) && 1 <= n <= 16
    ensures delta[n] == FirstPos(lens, n) - First(lens, n)
  {
    hide FirstPos, First, Limit, Shl;
  }

  /** The first of n bits decides on which side of the middle the number is. */
  lemma SignBit(bytes: seq<Byte>, p: nat, n: nat)
    requires n >= 1
    ensures Big(bytes, p, 1) == 0 <==> Big(bytes, p, n) < Pow2(n - 1)
    ensures Pow2(n) == 2 * Pow2(n - 1)
  {
    hide Big, Shl;
    BigSplit(bytes, p, 1, n - 1);
    BigBound(bytes, p, 1);
    BigBound(bytes, p + 1, n - 1);
    ShlZero(n - 1);
    ShlOne(n - 1);
    assert Pow2(1) == 2;
  }

  lemma BiasIs(n: nat)
    requires n < 16
    ensures BIAS[n] == 1 - Pow2(n)
  {
    Pow2Table();
  }
}
