/**
 The fused table of the JPEG decoder (lib/stb_image.h, stbi__build_fast_ac): a short code and its value in one
 entry.
 */
module JpegFastAc {
  import opened Bits
  import opened Canonical
  import opened JpegTable
  import opened BitRegister
  import opened JpegSpec
  import opened JpegHuffman

  /** The value bits of a code of n bits followed by s value bits, at the start of the nine bits v. */
  function ValueBits(v: nat, n: nat, s: nat): nat
    requires n + s <= FAST_BITS
  {
    Shr(Low(Shl(v, n), FAST_BITS), FAST_BITS - s)
  }

  /** The entry for nine bits v that start with a code of n bits for the value rs: zero if there is no fused entry. */
  function FusedEntry(v: nat, n: nat, rs: Byte): int {
    var s := rs % 16;
    if s == 0 || n + s > FAST_BITS then 0
    else
      var x := Extend(ValueBits(v, n, s), s);
      if -128 <= x <= 127 then 256 * x + 16 * (rs / 16) + (n + s) else 0
  }

  ghost function Fused(lens: seq<nat>, values: seq<Byte>, v: nat): int
    requires |values| == 256
  {
    var f := FastIndexEntry(lens, v);
    if f < NOT_FAST then FusedEntry(v, if f < |lens| then lens[f] else 0, values[f]) else 0
  }

  lemma ValueBitsAreNext(bytes: seq<Byte>, p: nat, n: nat, s: nat)
    requires n + s <= FAST_BITS
    ensures ValueBits(Big(bytes, p, FAST_BITS), n, s) == Big(bytes, p + n, s)
  {
    hide Big, Shl, Shr, Low, Register;
    RegisterFull(bytes, p, FAST_BITS);
    RegisterDrop(bytes, p, FAST_BITS, n, FAST_BITS);
    RegisterTop(bytes, p + n, FAST_BITS - n, s, FAST_BITS);
  }

  /** The fast table answers alike for all windows with the same nine first bits. */
  lemma FastEntryOfIndex(lens: seq<nat>, k: nat)
    requires k < Pow2(16)
    ensures FastIndexEntry(lens, Shr(k, 7)) == FastEntry(lens, k)
  {
    hide Shr, Shl, Pow2, Hit;
    var k' := Shl(Shr(k, 7), 7);
    JoinSplit(Shr(k, 7), 7, 0);
    var a, b := Canon(lens, k), Canon(lens, k');
    if a.Symbol? && a.length <= FAST_BITS {
      HitIsShort(lens, k, a.index);
      HitIsShort(lens, k', a.index);
      CanonIs(lens, k', a.index);
    }
    if b.Symbol? && b.length <= FAST_BITS {
      HitIsShort(lens, k, b.index);
      HitIsShort(lens, k', b.index);
      CanonIs(lens, k, b.index);
    }
  }

  /** Where the fused table has an entry, its parts are what DECODE followed by RECEIVE and EXTEND give. */
  lemma FusedIsDecodeThenExtend(t: Table, bytes: seq<Byte>, p: nat)
    requires IsTable(t)
    ensures var r := Fused(t.lens, t.values, Big(bytes, p, FAST_BITS));
            var c := Canon(t.lens, Big(bytes, p, 16));
            r != 0 ==>
              && c.Symbol? && c.index < NOT_FAST
              && var rs := t.values[c.index];
                 && rs % 16 != 0
                 && r % 16 == c.length + rs % 16 <= FAST_BITS
                 && r / 16 % 16 == rs / 16
                 && r / 256 == Extend(Big(bytes, p + c.length, rs % 16), rs % 16)
  {
    hide Big, Canon, Shl, Shr, Low, Hit, Extend, ValueBits;
    var k := Big(bytes, p, 16);
    BigBound(bytes, p, 16);
    BigTop(bytes, p);
    FastEntryOfIndex(t.lens, k);
    var c := Canon(t.lens, k);
    if Fused(t.lens, t.values, Big(bytes, p, FAST_BITS)) != 0 {
      var rs := t.values[c.index];
      HitInRange(t.lens, k, c.index);
      ValueBitsAreNext(bytes, p, c.length, rs % 16);
      EntryParts(Big(bytes, p, FAST_BITS), c.length, rs);
    }
  }

  lemma EntryParts(v: nat, n: nat, rs: Byte)
    requires FusedEntry(v, n, rs) != 0
    ensures var r, s := FusedEntry(v, n, rs), rs % 16;
            && s != 0 && n + s <= FAST_BITS && r % 16 == n + s && r / 16 % 16 == rs / 16
            && r / 256 == Extend(ValueBits(v, n, s), s)
  {
    hide Extend, ValueBits;
  }

  lemma EntryIsThere(v: nat, n: nat, rs: Byte)
    ensures FusedEntry(v, n, rs) != 0 <==>
              && rs % 16 != 0 && n + rs % 16 <= FAST_BITS
              && -128 <= Extend(ValueBits(v, n, rs % 16), rs % 16) <= 127
  {
    hide Extend, ValueBits;
  }

  lemma BigTop(bytes: seq<Byte>, p: nat)
    ensures Shr(Big(bytes, p, 16), 7) == Big(bytes, p, FAST_BITS)
  {
    hide Big, Shr, Register;
    RegisterFull(bytes, p, 16);
    RegisterTop(bytes, p, 16, FAST_BITS, 16);
  }

  /** The fused table misses a symbol exactly when its code is long, it has no value, or the value does not fit. */
  lemma FusedUnless(t: Table, bytes: seq<Byte>, p: nat)
    requires IsTable(t)
    ensures var c := Canon(t.lens, Big(bytes, p, 16));
            Fused(t.lens, t.values, Big(bytes, p, FAST_BITS)) != 0 <==>
              && c.Symbol? && c.index < NOT_FAST && c.length + t.values[c.index] % 16 <= FAST_BITS
              && t.values[c.index] % 16 != 0
              && -128 <= Extend(Big(bytes, p + c.length, t.values[c.index] % 16), t.values[c.index] % 16) <= 127
  {
    hide Big, Canon, Shl, Shr, Low, Hit, Extend, ValueBits, FusedEntry;
    var k := Big(bytes, p, 16);
    BigBound(bytes, p, 16);
    BigTop(bytes, p);
    FastEntryOfIndex(t.lens, k);
    var c := Canon(t.lens, k);
    if c.Symbol? && c.index < NOT_FAST {
      HitInRange(t.lens, k, c.index);
      EntryIsThere(Big(bytes, p, FAST_BITS), c.length, t.values[c.index]);
      if c.length + t.values[c.index] % 16 <= FAST_BITS {
        ValueBitsAreNext(bytes, p, c.length, t.values[c.index] % 16);
      }
    }
  }

  /** Fills the fused table. */
  method BuildFastAc(fac: array<int>, h: JHuffman)
    requires fac.Length == FAST_SIZE && h.Valid() && fac != h.delta
    modifies fac
    ensures forall v: nat :: v < FAST_SIZE ==> fac[v] == Fused(h.lens, h.values[..], v)
  {
    hide FastTable, FusedEntry, FastIndexEntry, LengthTables, CodeTable;
    var i := 0;
    while i < FAST_SIZE
      invariant i <= FAST_SIZE && h.Valid()
      invariant forall v: nat :: v < i ==> fac[v] == Fused(h.lens, h.values[..], v)
    {
      var f := h.fast[i];
      IndexAnswers(h.fast[..], h.lens, i);
      fac[i] := 0;
      if f < NOT_FAST {
        var r := FuseEntry(i, h.size[f], h.values[f]);
        fac[i] := r;
      }
      i := i + 1;
    }
  }

  method FuseEntry(i: nat, len: nat, rs: Byte) returns (r: int)
    ensures r == FusedEntry(i, len, rs)
  {
    hide Pow2, Shl, Low, Shr;
    var run, magbits := rs / 16, rs % 16;
    r := 0;
    if magbits != 0 && len + magbits <= FAST_BITS {
      var k: int := Shr(Low(Shl(i, len), FAST_BITS), FAST_BITS - magbits);
      var m := Pow2(magbits - 1);
      if k < m {
        k := k + (1 - Pow2(magbits));
      }
      if -128 <= k <= 127 {
        r := k * 256 + run * 16 + (len + magbits);
      }
    }
  }

  /** The fast table holds the number of a symbol, or says that there is none. */
  lemma IndexAnswers(fast: seq<Byte>, lens: seq<nat>, v: nat)
    requires |fast| == FAST_SIZE && Listed(lens) && FastTable(fast, lens, |lens|) && v < FAST_SIZE
    ensures fast[v] == FastIndexEntry(lens, v)
    ensures fast[v] < NOT_FAST ==> fast[v] < |lens|
  {
    hide Shl, Shr, Pow2, FastTable, Hit;
    JoinSplit(v, 7, 0);
    Pow2Table();
    ShlBelow(v, 9, 7);
    FastAnswers(fast, lens, Shl(v, 7));
    var c := Canon(lens, Shl(v, 7));
    if c.Symbol? {
      HitInRange(lens, Shl(v, 7), c.index);
    }
  }
}
