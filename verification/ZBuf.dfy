/** The zlib decoder state (lib/stb_image.h, stbi__zbuf): bit reservoir, growing output, two Huffman tables. */
module Zlib {
  import opened Wrappers
  import opened Bits
  import opened BitReversal
  import opened Canonical
  import opened ZHuffmanTable
  import opened InflateSpec
  import opened InflateCases
  import opened Fetching
  import opened ZDecode

  /** What decoding the input means: after the zlib header if there is one, else from the first bit. */
  ghost function ZlibInflate(input: seq<Byte>, parseHeader: bool): Option<State> {
    if !parseHeader then Inflate(input, State(0, []))
    else if ZlibHeader(input) then Inflate(input, State(16, []))
    else None
  }

  /** The bytes fetched when the stream has been decoded; None if the decoder refuses a code at the end of the input. */
  ghost function ZlibFetch(input: seq<Byte>, parseHeader: bool): Option<nat> {
    if !parseHeader then InflateFetch(input, State(0, []), 0) else InflateFetch(input, State(16, []), 2)
  }

  const UINT_MAX: nat := 0xFFFF_FFFF

  /** The capacity after doubling until it holds need bytes. */
  function Grow(capacity: nat, need: nat): nat
    requires capacity >= 1
    decreases need - capacity
  {
    if need <= capacity then capacity else Grow(2 * capacity, need)
  }

  lemma {:induction false} GrowHolds(capacity: nat, need: nat)
    requires capacity >= 1
    ensures Grow(capacity, need) >= need && Grow(capacity, need) >= capacity
    decreases need - capacity
  {
    if need <= capacity {
    } else {
      GrowHolds(2 * capacity, need);
    }
  }

  /** The capacity reached is the initial one doubled k times, and k - 1 times were too few. */
  lemma {:induction false} GrowDoubles(capacity: nat, need: nat) returns (k: nat)
    requires capacity >= 1
    ensures Grow(capacity, need) == Shl(capacity, k) >= need && (k > 0 ==> Shl(capacity, k - 1) < need)
    decreases need - capacity
  {
    if need <= capacity {
      k := 0;
      ShlNone(capacity);
    } else {
      var n := GrowDoubles(2 * capacity, need);
      k := n + 1;
      ShlDouble(capacity, n);
      if n > 0 {
        ShlDouble(capacity, n - 1);
      } else {
        ShlNone(capacity);
      }
    }
  }

  lemma {:induction false} ShlDouble(x: nat, n: nat)
    ensures Shl(2 * x, n) == Shl(x, n + 1)
  {
    if n == 0 {
      ShlNone(x);
    } else {
      ShlDouble(x, n - 1);
    }
  }

  /** Growing in two steps reaches the capacity that one step reaches. */
  lemma {:induction false} GrowAgain(capacity: nat, need: nat, more: nat)
    requires capacity >= 1 && more > Grow(capacity, need)
    ensures Grow(capacity, need) >= 1
    ensures Grow(Grow(capacity, need), more) == Grow(capacity, more)
    decreases need - capacity
  {
    GrowHolds(capacity, need);
    if need <= capacity {
    } else {
      GrowHolds(2 * capacity, need);
      GrowAgain(2 * capacity, need, more);
    }
  }

  lemma {:induction false} GrowMono(capacity: nat, need: nat, more: nat)
    requires capacity >= 1 && need <= more
    ensures Grow(capacity, need) <= Grow(capacity, more)
    decreases need - capacity
  {
    if need > capacity {
      GrowMono(2 * capacity, need, more);
    } else {
      GrowHolds(capacity, more);
    }
  }

  /** A capacity reached by doubling is large enough for itself. */
  lemma {:induction false} GrowSelf(capacity: nat, need: nat)
    requires capacity >= 1
    ensures Grow(capacity, Grow(capacity, need)) == Grow(capacity, need)
    decreases need - capacity
  {
    if need <= capacity {
    } else {
      GrowSelf(2 * capacity, need);
      GrowHolds(2 * capacity, need);
    }
  }

  /** Doubling from the initial capacity passes through this one. */
  ghost predicate Doubled(initial: nat, capacity: nat) {
    && 1 <= initial <= capacity && Grow(initial, capacity) == capacity
    && forall need: nat :: need > capacity ==> Grow(initial, need) == Grow(capacity, need)
  }

  /** The initial buffer, or the capacity that doubling reaches, has room for total bytes. */
  ghost predicate Room(initial: nat, expandable: bool, heapLimit: nat, total: nat) {
    total <= initial
    || (initial >= 1 && expandable && Grow(initial, total) <= UINT_MAX && Grow(initial, total) <= heapLimit)
  }

  lemma RoomMono(initial: nat, expandable: bool, heapLimit: nat, m: nat, n: nat)
    requires m <= n && Room(initial, expandable, heapLimit, n)
    ensures Room(initial, expandable, heapLimit, m)
  {
    if initial >= 1 {
      GrowMono(initial, m, n);
    }
  }

  lemma DoubledAgain(initial: nat, capacity: nat, need: nat)
    requires Doubled(initial, capacity)
    ensures Doubled(initial, Grow(capacity, need))
    ensures need > capacity ==> Grow(initial, need) == Grow(capacity, need)
  {
    GrowHolds(capacity, need);
    GrowSelf(initial, need);
    if need <= capacity {
      return;
    }
    assert Grow(initial, need) == Grow(capacity, need);
    forall more: nat | more > Grow(capacity, need)
      ensures Grow(initial, more) == Grow(Grow(capacity, need), more)
    {
      GrowAgain(capacity, need, more);
    }
  }

  class ZBuf {
    const input: seq<Byte>
    var pos: nat
    var numBits: nat
    var codeBuffer: nat
    /** Zero bytes fetched past the end of the input. */
    ghost var phantom: nat

    var buf: array<Byte>
    var zout: nat
    const expandable: bool
    /** The largest block the allocator can provide. */
    const heapLimit: nat
    ghost const initial: nat

    const zLength: ZHuffman
    const zDistance: ZHuffman

    constructor (input: seq<Byte>, obuf: array<Byte>, expandable: bool, heapLimit: nat)
      requires obuf.Length <= UINT_MAX
      ensures Reservoir() && Cursor() == 0 && pos == 0 && numBits == 0
      ensures this.input == input && this.expandable == expandable && this.heapLimit == heapLimit
      ensures buf == obuf && zout == 0 && initial == obuf.Length
      ensures zLength.Shape() && zDistance.Shape() && zLength.Repr !! zDistance.Repr
      ensures fresh(zLength.Repr) && fresh(zDistance.Repr)
    {
      this.input, this.expandable, this.heapLimit := input, expandable, heapLimit;
      pos, numBits, codeBuffer, phantom := 0, 0, 0, 0;
      buf, zout, initial := obuf, 0, obuf.Length;
      var l := new ZHuffman();
      var d := new ZHuffman();
      zLength, zDistance := l, d;
    }

    // ---------- the bit reservoir ----------

    /** The bit position of the next unread bit. */
    ghost function Cursor(): int
      reads `pos, `phantom, `numBits
    {
      8 * (pos + phantom) - numBits
    }

    /** How many bytes have been fetched, counting the zeros past the end. */
    ghost function Fetched(): nat
      reads `pos, `phantom
    {
      pos + phantom
    }

    /** The reservoir holds exactly the bits between the cursor and the next byte to fetch. */
    ghost predicate Reservoir()
      reads `pos, `phantom, `numBits, `codeBuffer
    {
      && pos <= |input| && (phantom > 0 ==> pos == |input|)
      && numBits <= 32 && Cursor() >= 0
      && codeBuffer == Lsb(input, Cursor(), numBits)
    }

    predicate Eof()
      reads `pos
    {
      pos >= |input|
    }

    /** The next byte, or zero past the end. */
    method Get8() returns (b: Byte)
      requires pos <= |input| && (phantom > 0 ==> pos == |input|)
      modifies `pos, `phantom
      ensures pos <= |input| && (phantom > 0 ==> pos == |input|)
      ensures pos + phantom == old(pos + phantom) + 1
      ensures b == ByteAt(input, old(pos + phantom))
    {
      if Eof() {
        b := 0;
        phantom := phantom + 1;
      } else {
        b := input[pos];
        pos := pos + 1;
      }
    }

    method FillBits()
      requires Reservoir() && numBits <= 24
      modifies `pos, `phantom, `numBits, `codeBuffer
      ensures Reservoir() && 25 <= numBits && Cursor() == old(Cursor())
      ensures Fetched() == (old(Cursor()) + 32) / 8
    {
      hide Lsb, Shl, Pow2, ByteAt;
      while true
        invariant Reservoir() && numBits <= 24 && Cursor() == old(Cursor())
        decreases 24 - numBits
      {
        LsbBound(input, Cursor(), numBits);
        if codeBuffer >= Pow2(numBits) {
          assert false;
        }
        AppendByte(input, Cursor(), numBits, pos + phantom);
        var b := Get8();
        codeBuffer := codeBuffer + Shl(b, numBits);
        numBits := numBits + 8;
        if numBits > 24 {
          break;
        }
      }
      FilledUp(Cursor(), Fetched());
    }

    /** The next n bits as a number. */
    method Receive(n: nat) returns (k: nat)
      requires Reservoir() && n <= 16
      modifies `pos, `phantom, `numBits, `codeBuffer
      ensures Reservoir() && numBits <= 32 - n && Cursor() == old(Cursor()) + n
      ensures k == Lsb(input, old(Cursor()), n)
      ensures Fetched() == BitsFetch(old(Cursor()), n, old(Fetched()))
    {
      if numBits < n {
        FillBits();
      }
      TakeBits(input, Cursor(), n, numBits);
      k := Low(codeBuffer, n);
      codeBuffer := Shr(codeBuffer, n);
      numBits := numBits - n;
    }

    // ---------- Huffman symbols ----------

    /**
     The symbol whose canonical code the bits spell, or -1, exactly if no code matches, or the input is exhausted
     and fewer than 16 bits are buffered.
     */
    method HuffmanDecode(z: ZHuffman) returns (r: int)
      requires Reservoir() && z.Valid()
      modifies `pos, `phantom, `numBits, `codeBuffer
      ensures Reservoir()
      ensures r == -1 || (r >= 0 && Symbol(z.lens, input, old(Cursor())) == Some(r))
      ensures r >= 0 ==> Cursor() == old(Cursor()) + z.lens[r] && numBits <= 31
      ensures r == -1 <==> Symbol(z.lens, input, old(Cursor())) == None || (old(numBits) < 16 && old(pos) >= |input|)
      ensures CodeFetch(input, old(Cursor()), old(Fetched())) == None <==> old(numBits) < 16 && old(pos) >= |input|
      ensures r >= 0 ==> CodeFetch(input, old(Cursor()), old(Fetched())) == Some(Fetched())
    {
      hide Msb, Lsb, Limit, Low, Shr, CodeOf, FastSound, FastComplete, LengthTables, SymbolTables, Fits, LengthsUpTo;
      if numBits < 16 {
        if Eof() {
          return -1;
        }
        FillBits();
      }
      ghost var p, m := Cursor(), numBits;
      FastIndex(input, p, m, 0);
      var b := z.fast[Low(codeBuffer, FAST_BITS)];
      if b != 0 {
        FastFound(z.lens, z.fast[..], input, p, m, Low(codeBuffer, FAST_BITS));
        var s := b / 512;
        SymbolIs(z.lens, input, p, b % 512);
        TakeBits(input, p, s, m);
        codeBuffer := Shr(codeBuffer, s);
        numBits := numBits - s;
        return b % 512;
      }
      FastMiss(z.lens, z.fast[..], input, p, m, Low(codeBuffer, FAST_BITS));
      r := DecodeSlow(z);
    }

    /** The first length above 9 whose preshifted limit exceeds the window k; 16 if there is none. */
    method FindLength(z: ZHuffman, k: nat, ghost p: nat) returns (s: nat)
      requires z.Valid() && k == Msb(input, p, 16)
      requires Msb(input, p, FAST_BITS) >= Limit(z.lens, FAST_BITS)
      ensures FAST_BITS < s <= 16 && Msb(input, p, s - 1) >= Limit(z.lens, s - 1)
      ensures s < 16 ==> Msb(input, p, s) < Limit(z.lens, s)
    {
      hide Msb, Limit, Shl, Pow2;
      MsbBound(input, p, 16);
      Pow2Table();
      s := FAST_BITS + 1;
      while k >= z.maxcode[s]
        invariant FAST_BITS < s <= 16
        invariant Msb(input, p, s - 1) >= Limit(z.lens, s - 1)
        decreases 16 - s
      {
        SlowCompare(z.lens, input, p, s);
        s := s + 1;
      }
      SlowCompare(z.lens, input, p, s);
    }

    method DecodeSlow(z: ZHuffman) returns (r: int)
      requires Reservoir() && z.Valid() && numBits >= 16
      requires Msb(input, Cursor(), FAST_BITS) >= Limit(z.lens, FAST_BITS)
      modifies `pos, `phantom, `numBits, `codeBuffer
      ensures Reservoir()
      ensures r == -1 || (r >= 0 && Symbol(z.lens, input, old(Cursor())) == Some(r))
      ensures r >= 0 ==> Cursor() == old(Cursor()) + z.lens[r] && numBits <= 31
      ensures r == -1 <==> Symbol(z.lens, input, old(Cursor())) == None
      ensures Fetched() == old(Fetched())
    {
      hide Msb, Lsb, Low, Limit, First, FirstPos, Shl, Shr, Pow2, FastSound, FastComplete, Pos, BitReverse, RevBits;
      hide CodeOf, Prefix, Fits;
      ghost var p, m := Cursor(), numBits;
      var k := BitReverse(codeBuffer, 16);
      BitReverseIsRev(codeBuffer, 16);
      RevLsb(input, p, 16, m);
      assert k == Msb(input, p, 16);
      var s := FindLength(z, k, p);
      if s >= 16 {
        SlowMiss(z.lens, input, p);
        return -1;
      }
      ghost var i := SlowFound(z.lens, input, p, s);
      PrefixOfMsb(input, p, s);
      PrefixIsShr(k, s);
      var b := Shr(k, 16 - s) - z.firstcode[s] + z.firstsymbol[s];
      assert b == Pos(z.lens, i);
      if b >= NSYMS {
        assert false;
      }
      if z.size[b] != s {
        assert false;
      }
      SymbolIs(z.lens, input, p, i);
      TakeBits(input, p, s, m);
      codeBuffer := Shr(codeBuffer, s);
      numBits := numBits - s;
      r := z.value[b];
    }

    // ---------- the growing output ----------

    ghost predicate OutputBuffer()
      reads `buf, `zout
    {
      && zout <= buf.Length <= UINT_MAX && CanHold(buf.Length)
      && if expandable && initial >= 1 then Doubled(initial, buf.Length) else buf.Length == initial
    }

    ghost function Output(): seq<Byte>
      reads `buf, `zout, buf
      requires zout <= buf.Length
    {
      buf[..zout]
    }

    ghost predicate CanHold(total: nat) {
      Room(initial, expandable, heapLimit, total)
    }

    /** Makes room for n bytes at position zo; fails only if the total cannot be held. */
    method Expand(zo: nat, n: nat) returns (ok: bool)
      requires OutputBuffer() && zo <= buf.Length < zo + n
      modifies `buf, `zout
      ensures OutputBuffer() && zout == zo
      ensures ok ==> fresh(buf) && zo + n <= buf.Length && buf[..zo] == old(buf[..zo])
      ensures !ok ==> buf == old(buf) && !CanHold(zo + n)
    {
      zout := zo;
      if !expandable {
        return false;
      }
      // The source doubles zero without end.
      if buf.Length == 0 {
        return false;
      }
      GrowHolds(buf.Length, zo + n);
      if UINT_MAX - zo < n {
        return false;
      }
      var fits, limit := GrowLimit(buf.Length, zo + n);
      if !fits || limit > heapLimit {
        return false;
      }
      DoubledAgain(initial, buf.Length, zo + n);
      ghost var before := buf[..zo];
      buf := Realloc(buf, limit);
      assert buf[..zo] == before;
      ok := true;
    }

    /** Doubles until need fits, unless that leaves 32 bits. */
    static method GrowLimit(capacity: nat, need: nat) returns (ok: bool, limit: nat)
      requires 1 <= capacity <= UINT_MAX
      ensures ok <==> Grow(capacity, need) <= UINT_MAX
      ensures ok ==> limit == Grow(capacity, need)
    {
      limit := capacity;
      while need > limit
        invariant 1 <= limit <= UINT_MAX && Grow(limit, need) == Grow(capacity, need)
        decreases need - limit
      {
        GrowHolds(2 * limit, need);
        if limit > UINT_MAX / 2 {
          return false, limit;
        }
        limit := 2 * limit;
      }
      ok := true;
    }

    static method Realloc(a: array<Byte>, limit: nat) returns (q: array<Byte>)
      requires limit >= a.Length
      ensures fresh(q) && q.Length == limit && q[..a.Length] == a[..]
      ensures forall n :: 0 <= n <= a.Length ==> q[..n] == a[..n]
    {
      q := new Byte[limit];
      var i := 0;
      while i < a.Length
        invariant i <= a.Length && q[..i] == a[..i]
      {
        q[i] := a[i];
        i := i + 1;
      }
      forall n | 0 <= n <= a.Length ensures q[..n] == a[..n] {
        assert q[..n] == q[..a.Length][..n];
        assert a[..n] == a[..a.Length][..n];
      }
    }

    /** Copies len bytes from dist bytes back, as a run of one byte when dist is 1. */
    method CopyBytes(zo: nat, dist: nat, len: nat)
      requires zo + len <= buf.Length && 1 <= dist <= zo
      modifies buf
      ensures buf[..zo + len] == CopyMatch(old(buf[..zo]), dist, len)
    {
      if dist == 1 {
        RunOfByte(zo, len);
      } else {
        CopyForward(zo, dist, len);
      }
    }

    method RunOfByte(zo: nat, len: nat)
      requires zo + len <= buf.Length && 1 <= zo
      modifies buf
      ensures buf[..zo + len] == CopyMatch(old(buf[..zo]), 1, len)
    {
      var v := buf[zo - 1];
      ghost var target := CopyMatch(buf[..zo], 1, len);
      var k := 0;
      while k < len
        invariant k <= len && zo + k >= 1 && buf[zo + k - 1] == v
        invariant CopyMatch(buf[..zo + k], 1, len - k) == target
      {
        ghost var next := buf[..zo + k] + [v];
        assert buf[..zo + k][zo + k - 1] == v;
        buf[zo + k] := v;
        assert buf[..zo + k + 1] == next;
        k := k + 1;
      }
    }

    method CopyForward(zo: nat, dist: nat, len: nat)
      requires zo + len <= buf.Length && 1 <= dist <= zo
      modifies buf
      ensures buf[..zo + len] == CopyMatch(old(buf[..zo]), dist, len)
    {
      hide CopyMatch;
      var p := zo - dist;
      ghost var target := CopyMatch(buf[..zo], dist, len);
      var k := 0;
      while k < len
        invariant k <= len && CopyMatch(buf[..zo + k], dist, len - k) == target
      {
        CopyOne(buf[..zo + k], dist, len - k);
        ghost var next := buf[..zo + k] + [buf[p + k]];
        assert buf[..zo + k][zo + k - dist] == buf[p + k];
        buf[zo + k] := buf[p + k];
        assert buf[..zo + k + 1] == next;
        k := k + 1;
      }
      CopyNone(buf[..zo + len], dist);
    }

    /** Appends a match at position zo, growing the buffer if needed. */
    method WriteMatch(zo: nat, dist: nat, len: nat) returns (ok: bool)
      requires OutputBuffer() && 1 <= dist <= zo <= buf.Length
      modifies `buf, `zout, buf
      ensures OutputBuffer() && (buf == old(buf) || fresh(buf))
      ensures ok ==> zo + len <= buf.Length && buf[..zo + len] == CopyMatch(old(buf[..zo]), dist, len)
      ensures !ok ==> !CanHold(zo + len)
    {
      hide CopyMatch, Doubled, CanHold;
      ghost var before := buf[..zo];
      if zo + len > buf.Length {
        ok := Expand(zo, len);
        if !ok {
          return;
        }
      }
      assert buf[..zo] == before;
      CopyBytes(zo, dist, len);
      ok := true;
    }

    // ---------- compressed blocks ----------

    ghost predicate Apart()
      reads `buf
    {
      && zLength.Repr !! zDistance.Repr
      && this !in zLength.Repr + zDistance.Repr
      && buf !in zLength.Repr + zDistance.Repr
    }

    ghost predicate Tables()
      reads zLength, zLength.fast, zLength.firstcode, zLength.maxcode, zLength.firstsymbol, zLength.size, zLength.value
      reads zDistance, zDistance.fast, zDistance.firstcode, zDistance.maxcode
      reads zDistance.firstsymbol, zDistance.size, zDistance.value
    {
      zLength.Valid() && zDistance.Valid()
    }

    /** The reference has a result, no code on the way is refused, and there is room for the output. */
    ghost predicate Accepts(r: Option<State>, f: Option<nat>) {
      r.Some? && f.Some? && CanHold(|r.value.out|)
    }

    /** The value of a length or distance symbol just decoded: its base plus its extra bits. */
    method CodedValue(ghost lens: seq<nat>, base: seq<nat>, extra: seq<nat>, first: nat, sym: nat, ghost p: nat)
      returns (v: nat)
      requires Reservoir() && |base| == |extra| && Positive(base)
      requires forall i :: 0 <= i < |extra| ==> extra[i] <= 16
      requires Symbol(lens, input, p) == Some(sym) && first <= sym < first + |base|
      requires Cursor() == p + lens[sym]
      modifies `pos, `phantom, `numBits, `codeBuffer
      ensures Reservoir() && Coded(lens, base, extra, first, input, p) == Some((v, Cursor()))
      ensures Fetched() == BitsFetch(old(Cursor()), extra[sym - first], old(Fetched()))
    {
      hide Lsb, Matches;
      v := base[sym - first];
      if extra[sym - first] != 0 {
        var x := Receive(extra[sym - first]);
        v := v + x;
      } else {
        assert Lsb(input, Cursor(), 0) == 0 by {
          LsbEmpty(input, Cursor());
        }
      }
    }

    /** The length or distance of a symbol just decoded, with the bytes fetched for it. */
    method ValueOfSymbol(ghost lens: seq<nat>, base: seq<nat>, extra: seq<nat>, first: nat, sym: nat, ghost p: nat,
                         ghost f: nat)
      returns (v: nat)
      requires Reservoir() && |base| == |extra| && Positive(base)
      requires forall i :: 0 <= i < |extra| ==> extra[i] <= 16
      requires Symbol(lens, input, p) == Some(sym) && first <= sym < first + |base|
      requires Cursor() == p + lens[sym] && CodeFetch(input, p, f) == Some(Fetched())
      modifies `pos, `phantom, `numBits, `codeBuffer
      ensures Reservoir() && Coded(lens, base, extra, first, input, p) == Some((v, Cursor()))
      ensures CodedFetch(lens, extra, first, input, p, f) == Some(Fetched())
    {
      hide Symbol, Coded, CodedFetch, CodeFetch, BitsFetch;
      CodedFetchIs(lens, extra, first, input, p, f, sym);
      v := CodedValue(lens, base, extra, first, sym, p);
    }

    /** The distance of a match. */
    method Distance() returns (ok: bool, dist: nat)
      requires Reservoir() && Tables()
      modifies `pos, `phantom, `numBits, `codeBuffer
      ensures Reservoir() && Positive(DIST_BASE) && |DIST_BASE| == |DIST_EXTRA|
      ensures var c := Coded(zDistance.lens, DIST_BASE, DIST_EXTRA, 0, input, old(Cursor()));
              var g := CodedFetch(zDistance.lens, DIST_EXTRA, 0, input, old(Cursor()), old(Fetched()));
              if ok then c == Some((dist, Cursor())) && g == Some(Fetched()) else c == None || g == None
    {
      hide Lsb, Matches, Coded, Symbol, BitsFetch;
      TablesArePositive();
      ExtraBitsAreFew();
      ghost var p, f := Cursor(), Fetched();
      var dsym := HuffmanDecode(zDistance);
      if dsym < 0 || dsym >= 30 {
        if CodeFetch(input, p, f).Some? {
          NotCoded(zDistance.lens, DIST_BASE, DIST_EXTRA, 0, input, p);
        }
        return false, 0;
      }
      dist := ValueOfSymbol(zDistance.lens, DIST_BASE, DIST_EXTRA, 0, dsym, p, f);
      ok := true;
    }

    /** A length/distance pair whose length symbol has just been decoded. */
    method CopySymbol(sym: nat, zo: nat, ghost p0: nat, ghost f0: nat) returns (ok: bool, zo': nat)
      requires Reservoir() && OutputBuffer() && Tables() && Apart() && zo <= buf.Length
      requires Symbol(zLength.lens, input, p0) == Some(sym) && 256 < sym && Cursor() == p0 + zLength.lens[sym]
      requires CodeFetch(input, p0, f0) == Some(Fetched())
      modifies this, buf
      ensures Reservoir() && OutputBuffer() && Apart() && (buf == old(buf) || fresh(buf))
      ensures var r := CopyAt(zLength.lens, zDistance.lens, input, State(p0, old(buf[..zo])));
              var g := CopyFetch(zLength.lens, zDistance.lens, input, p0, f0);
              if ok then zo' <= buf.Length && r == Some(State(Cursor(), buf[..zo'])) && g == Some(Fetched())
              else !Accepts(r, g)
    {
      hide Lsb, Matches, CopyMatch, Doubled, CanHold, Coded, Symbol, Grow, CodedFetch, CodeFetch, CopyFetch, BitsFetch;
      TablesArePositive();
      ExtraBitsAreFew();
      if sym >= 286 {
        NotCoded(zLength.lens, LENGTH_BASE, LENGTH_EXTRA, 257, input, p0);
        return false, zo;
      }
      var len := ValueOfSymbol(zLength.lens, LENGTH_BASE, LENGTH_EXTRA, 257, sym, p0, f0);
      CopyFetchIs(zLength.lens, zDistance.lens, input, p0, f0, Cursor(), Fetched());
      var dist;
      ok, dist := Distance();
      if !ok || zo < dist {
        return false, zo;
      }
      ok := WriteMatch(zo, dist, len);
      zo' := if ok then zo + len else zo;
    }

    /** One round of the symbol loop. */
    method TokenStep(zo: nat) returns (ok: bool, done: bool, zo': nat)
      requires Reservoir() && OutputBuffer() && Tables() && Apart() && zo <= buf.Length
      modifies this, buf
      ensures Reservoir() && OutputBuffer() && Apart() && (buf == old(buf) || fresh(buf))
      ensures ok && !done ==> zo < zo'
      ensures var r := Tokens(zLength.lens, zDistance.lens, input, State(old(Cursor()), old(buf[..zo])));
              var g := TokensFetch(zLength.lens, zDistance.lens, input, State(old(Cursor()), old(buf[..zo])),
                                   old(Fetched()));
              if !ok then !Accepts(r, g)
              else zo' <= buf.Length
                   && (done ==> r == Some(State(Cursor(), buf[..zo'])) && g == Some(Fetched()))
                   && (!done ==>
                         && r == Tokens(zLength.lens, zDistance.lens, input, State(Cursor(), buf[..zo']))
                         && g == TokensFetch(zLength.lens, zDistance.lens, input, State(Cursor(), buf[..zo']),
                                          Fetched()))
    {
      hide Symbol, Matches, CopyAt, CanHold, Doubled, Tokens, TokensFetch, CopyFetch, CodeFetch, Cursor;
      ghost var lit, dist, st, f := zLength.lens, zDistance.lens, State(Cursor(), buf[..zo]), Fetched();
      done, zo' := false, zo;
      var z := HuffmanDecode(zLength);
      TokensCases(lit, dist, input, st);
      TokensFetchCases(lit, dist, input, st, f);
      if Tokens(lit, dist, input, st).Some? {
        OutputBound(lit, dist, input, st);
      }
      if z < 256 {
        if z < 0 {
          return false, false, zo;
        }
        ok := WriteLiteral(zo, z);
        zo' := if ok then zo + 1 else zo;
      } else if z == 256 {
        return true, true, zo;
      } else {
        ok, zo' := CopySymbol(z, zo, st.p, f);
      }
      CanHoldMono();
    }

    method WriteLiteral(zo: nat, b: Byte) returns (ok: bool)
      requires OutputBuffer() && zo <= buf.Length
      modifies `buf, `zout, buf
      ensures OutputBuffer() && (buf == old(buf) || fresh(buf))
      ensures ok ==> zo + 1 <= buf.Length && buf[..zo + 1] == old(buf[..zo]) + [b]
      ensures !ok ==> !CanHold(zo + 1)
    {
      hide Doubled, CanHold;
      ghost var before := buf[..zo];
      if zo >= buf.Length {
        ok := Expand(zo, 1);
        if !ok {
          return;
        }
      }
      assert buf[..zo] == before;
      buf[zo] := b;
      ok := true;
    }

    lemma CanHoldMono()
      ensures forall m: nat, n: nat :: m <= n && CanHold(n) ==> CanHold(m)
    {
      forall m: nat, n: nat | m <= n && CanHold(n) ensures CanHold(m) {
        RoomMono(initial, expandable, heapLimit, m, n);
      }
    }

    method ParseHuffmanBlock() returns (ok: bool)
      requires Reservoir() && OutputBuffer() && Tables() && Apart()
      modifies this, buf
      ensures Reservoir() && OutputBuffer() && Apart() && (buf == old(buf) || fresh(buf))
      ensures var r := Tokens(zLength.lens, zDistance.lens, input, State(old(Cursor()), old(Output())));
              var g := TokensFetch(zLength.lens, zDistance.lens, input, State(old(Cursor()), old(Output())),
                                   old(Fetched()));
              && (ok <==> Accepts(r, g))
              && (ok ==> r == Some(State(Cursor(), Output())) && g == Some(Fetched()))
    {
      hide Tokens, TokensFetch, Lsb, Doubled, Cursor, CanHold;
      ghost var lit, dist, st := zLength.lens, zDistance.lens, State(Cursor(), Output());
      ghost var r, g := Tokens(lit, dist, input, st), TokensFetch(lit, dist, input, st, Fetched());
      var zo, done := zout, false;
      while !done
        invariant Reservoir() && OutputBuffer() && Tables() && Apart() && (buf == old(buf) || fresh(buf))
        invariant zo <= buf.Length && lit == zLength.lens && dist == zDistance.lens
        invariant r == if done then Some(State(Cursor(), buf[..zo]))
                       else Tokens(lit, dist, input, State(Cursor(), buf[..zo]))
        invariant g == if done then Some(Fetched())
                       else TokensFetch(lit, dist, input, State(Cursor(), buf[..zo]), Fetched())
        decreases UINT_MAX - zo, !done
      {
        ok, done, zo := TokenStep(zo);
        if !ok {
          return;
        }
      }
      CanHoldMono();
      zout := zo;
      ok := true;
    }

    // ---------- dynamic tables ----------

    method ReadCodeLengthLengths(hclen: nat) returns (sizes: seq<nat>)
      requires Reservoir() && hclen <= 19
      modifies `pos, `phantom, `numBits, `codeBuffer
      ensures Reservoir() && Cursor() == old(Cursor()) + 3 * hclen
      ensures sizes == CodeLengthLengths(input, old(Cursor()), hclen)
      ensures Fetched() == CodeLengthsFetch(old(Cursor()), hclen, old(Fetched()))
    {
      hide Lsb, CodeLengthLengths, Pow2;
      ghost var p, f := Cursor(), Fetched();
      var a := new nat[19](_ => 0);
      CodeLengthsStart(input, p);
      var i := 0;
      while i < hclen
        invariant Reservoir() && i <= hclen && Cursor() == p + 3 * i
        invariant a[..] == CodeLengthLengths(input, p, i) && Fetched() == CodeLengthsFetch(p, i, f)
      {
        CodeLengthsStep(input, p, i);
        var s := Receive(3);
        a[DEZIGZAG[i]] := s;
        i := i + 1;
      }
      sizes := a[..];
    }

    /** One symbol of the code length code: `count` copies of `fill`. */
    method ReadRun(z: ZHuffman, ghost acc: seq<nat>, prev: nat, n: nat) returns (ok: bool, fill: nat, count: nat)
      requires Reservoir() && z.Valid() && LengthsUpTo(acc, 15)
      requires n == |acc| && (n > 0 ==> prev == acc[n - 1])
      modifies `pos, `phantom, `numBits, `codeBuffer
      ensures Reservoir()
      ensures var r := LengthRun(z.lens, input, old(Cursor()), acc);
              var g := RunFetch(z.lens, input, old(Cursor()), old(Fetched()));
              if ok then r == Some((Cursor(), Repeat(fill, count))) && 1 <= count && fill <= 15 && g == Some(Fetched())
              else r == None || g == None
    {
      hide Lsb, Symbol, Matches, Pow2, ZHuffman.Valid;
      fill, count := 0, 1;
      var c := HuffmanDecode(z);
      if c < 0 || c >= 19 {
        return false, 0, 0;
      }
      if c < 16 {
        assert [c] == Repeat(c, 1);
        return true, c, 1;
      } else if c == 16 {
        var k := Receive(2);
        if n == 0 {
          return false, 0, 0;
        }
        return true, prev, k + 3;
      } else if c == 17 {
        var k := Receive(3);
        return true, 0, k + 3;
      } else {
        var k := Receive(7);
        return true, 0, k + 11;
      }
    }

    /** The run-length coded code lengths of both codes. */
    method ReadLengths(z: ZHuffman, ntot: nat) returns (ok: bool, lens: seq<nat>)
      requires Reservoir() && z.Valid() && ntot <= 320
      modifies `pos, `phantom, `numBits, `codeBuffer
      ensures Reservoir()
      ensures var r := Lengths(z.lens, input, old(Cursor()), [], ntot);
              var g := LengthsFetch(z.lens, input, old(Cursor()), [], ntot, old(Fetched()));
              if ok then r == Some((Cursor(), lens)) && g == Some(Fetched()) else r == None || g == None
    {
      hide Lsb, Symbol, LengthRun, Repeat, RunFetch;
      ghost var p, cl := Cursor(), z.lens;
      ghost var r, g := Lengths(cl, input, p, [], ntot), LengthsFetch(cl, input, p, [], ntot, Fetched());
      var lencodes := new nat[286 + 32 + 137];
      var n := 0;
      assert lencodes[..0] == [];
      while n < ntot
        invariant Reservoir() && n <= ntot && z.Valid() && z.lens == cl
        invariant LengthsUpTo(lencodes[..n], 15)
        invariant r == Lengths(cl, input, Cursor(), lencodes[..n], ntot)
        invariant g == LengthsFetch(cl, input, Cursor(), lencodes[..n], ntot, Fetched())
      {
        ghost var acc, q := lencodes[..n], Cursor();
        LengthsCases(cl, input, q, acc, ntot);
        var done, fill, count := ReadRun(z, acc, if n > 0 then lencodes[n - 1] else 0, n);
        if !done {
          return false, [];
        }
        RepeatLength(fill, count);
        if ntot - n < count {
          return false, [];
        }
        Fill(lencodes, n, fill, count);
        n := n + count;
      }
      ok, lens := true, lencodes[..ntot];
    }

    static method Fill(a: array<nat>, n: nat, fill: nat, count: nat)
      requires n + count <= a.Length
      modifies a
      ensures a[..n + count] == old(a[..n]) + Repeat(fill, count)
    {
      ghost var before := a[..n];
      var i := 0;
      while i < count
        invariant i <= count && a[..n] == before
        invariant forall k :: n <= k < n + i ==> a[k] == fill
      {
        a[n + i] := fill;
        i := i + 1;
      }
    }

    method ReadCounts() returns (hlit: nat, hdist: nat, hclen: nat)
      requires Reservoir()
      modifies `pos, `phantom, `numBits, `codeBuffer
      ensures Reservoir() && Cursor() == old(Cursor()) + 14 && Fetched() == CountsFetch(old(Cursor()), old(Fetched()))
      ensures hlit == Lsb(input, old(Cursor()), 5) + 257 && hdist == Lsb(input, old(Cursor()) + 5, 5) + 1
      ensures hclen == Lsb(input, old(Cursor()) + 10, 4) + 4
    {
      hide Lsb, BitsFetch;
      hlit := Receive(5);
      hdist := Receive(5);
      hclen := Receive(4);
      hlit, hdist, hclen := hlit + 257, hdist + 1, hclen + 4;
    }

    /** The three counts, and the table of the code length code. */
    method ReadCodeLengthCode() returns (ok: bool, hlit: nat, hdist: nat, z: ZHuffman)
      requires Reservoir()
      modifies `pos, `phantom, `numBits, `codeBuffer
      ensures Reservoir() && fresh(z.Repr)
      ensures HeaderIs(input, old(Cursor()), hlit, hdist, Cursor()) && hlit <= 288 && hdist <= 32
      ensures Fetched() == CodeLengthsFetch(old(Cursor()) + 14, Lsb(input, old(Cursor()) + 10, 4) + 4,
                                            CountsFetch(old(Cursor()), old(Fetched())))
      ensures ok <==> Subscribed(HeaderLengths(input, old(Cursor())))
      ensures ok ==> z.Valid() && z.lens == HeaderLengths(input, old(Cursor()))
    {
      hide Lsb, CodeLengthLengths, Kraft, Pow2, Fits, FastSound, FastComplete, LengthTables, SymbolTables;
      hide Cursor;
      HeaderBounds(input, Cursor());
      var hclen;
      hlit, hdist, hclen := ReadCounts();
      var sizes := ReadCodeLengthLengths(hclen);
      z := new ZHuffman();
      ok := z.Build(sizes);
    }

    method ComputeHuffmanCodes() returns (ok: bool)
      requires Reservoir() && Apart() && zLength.Shape() && zDistance.Shape()
      modifies `pos, `phantom, `numBits, `codeBuffer, zLength.Repr, zDistance.Repr
      ensures Reservoir()
      ensures var r := DynamicTables(input, old(Cursor()));
              var g := DynamicFetch(input, old(Cursor()), old(Fetched()));
              if ok then Tables() && r == Some(InflateSpec.Tables(Cursor(), zLength.lens, zDistance.lens)) &&
                g == Some(Fetched())
              else r == None || g == None
    {
      hide Lsb, Lengths, CodeLengthLengths, Subscribed, HeaderIs, HeaderLengths, DynamicTables, Cursor, Repeat;
      hide LengthsFetch, CodeLengthsFetch, CountsFetch, DynamicFetch;
      hide Fits, FastSound, FastComplete, LengthTables, SymbolTables;
      ghost var p, f := Cursor(), Fetched();
      HeaderBounds(input, p);
      var hlit: nat, hdist: nat, z: ZHuffman;
      ok, hlit, hdist, z := ReadCodeLengthCode();
      DynamicCases(input, p, hlit, hdist, Cursor());
      DynamicFetchIs(input, p, f, hlit, hdist, Cursor());
      if !ok {
        return;
      }
      var lens: seq<nat>;
      ok, lens := ReadLengths(z, hlit + hdist);
      if !ok {
        return;
      }
      ok := BuildBoth(lens[..hlit], lens[hlit..]);
    }

    method BuildBoth(lit: seq<nat>, dist: seq<nat>) returns (ok: bool)
      requires Apart() && zLength.Shape() && zDistance.Shape()
      requires |lit| <= NSYMS && |dist| <= NSYMS && LengthsUpTo(lit, 15) && LengthsUpTo(dist, 15)
      modifies zLength.Repr, zDistance.Repr
      ensures ok <==> Subscribed(lit) && Subscribed(dist)
      ensures ok ==> Tables() && zLength.lens == lit && zDistance.lens == dist
    {
      hide Kraft, Fits, FastSound, FastComplete, LengthTables, SymbolTables, LengthsUpTo;
      ok := zLength.Build(lit);
      if !ok {
        return;
      }
      ok := zDistance.Build(dist);
    }

    // ---------- stored blocks ----------

    /** Discards the bits up to the next byte boundary; at most three whole bytes stay buffered. */
    method Align()
      requires Reservoir() && numBits <= 30
      modifies `pos, `phantom, `numBits, `codeBuffer
      ensures Reservoir() && numBits % 8 == 0 && numBits <= 24
      ensures Cursor() == 8 * ((old(Cursor()) + 7) / 8)
    {
      hide Lsb, Low, Shr;
      var extra := numBits % 8;
      if extra != 0 {
        var discarded := Receive(extra);
      }
    }

    /** Drains the buffered bytes into the header. */
    method Drain(header: array<Byte>, ghost q: nat) returns (k: nat)
      requires Reservoir() && numBits % 8 == 0 && numBits <= 24 && Cursor() == 8 * q && header.Length == 4
      modifies `pos, `phantom, `numBits, `codeBuffer, header
      ensures Reservoir() && numBits == 0 && k <= 3 && Cursor() == 8 * (q + k)
      ensures forall i :: 0 <= i < k ==> header[i] == ByteAt(input, q + i)
    {
      hide Lsb, Low, Shr, ByteAt;
      k := 0;
      while numBits > 0
        invariant Reservoir() && numBits % 8 == 0 && numBits + 8 * k <= 24
        invariant Cursor() == 8 * (q + k)
        invariant forall i :: 0 <= i < k ==> header[i] == ByteAt(input, q + i)
      {
        TakeByte(input, q + k, numBits);
        header[k] := Low(codeBuffer, 8);
        k := k + 1;
        codeBuffer := Shr(codeBuffer, 8);
        numBits := numBits - 8;
      }
    }

    /** Fetches the header bytes from position k on. */
    method Fetch(header: array<Byte>, k0: nat, ghost q: nat)
      requires Reservoir() && numBits == 0 && k0 <= 3 && Cursor() == 8 * (q + k0) && header.Length == 4
      requires forall i :: 0 <= i < k0 ==> header[i] == ByteAt(input, q + i)
      modifies `pos, `phantom, header
      ensures Reservoir() && Cursor() == 8 * (q + 4)
      ensures forall i :: 0 <= i < 4 ==> header[i] == ByteAt(input, q + i)
    {
      hide Lsb, ByteAt;
      var k := k0;
      while k < 4
        invariant Reservoir() && k <= 4 && Cursor() == 8 * (q + k)
        invariant forall i :: 0 <= i < k ==> header[i] == ByteAt(input, q + i)
      {
        LsbEmpty(input, Cursor());
        LsbEmpty(input, Cursor() + 8);
        var b := Get8();
        header[k] := b;
        k := k + 1;
      }
    }

    /** The length of a stored block and its complement. */
    method ReadStoredHeader() returns (len: nat, nlen: nat)
      requires Reservoir() && numBits <= 30
      modifies `pos, `phantom, `numBits, `codeBuffer
      ensures Reservoir() && numBits == 0 && (phantom > 0 ==> pos == |input| && nlen < 0x100)
      ensures var q := (old(Cursor()) + 7) / 8;
              && Cursor() == 8 * (q + 4) && len == ByteAt(input, q) + 256 * ByteAt(input, q + 1)
              && nlen == ByteAt(input, q + 2) + 256 * ByteAt(input, q + 3)
    {
      hide Lsb;
      Align();
      ghost var q := Cursor() / 8;
      var header := new Byte[4];
      var k := Drain(header, q);
      Fetch(header, k, q);
      len := 256 * (header[1] as nat) + header[0];
      nlen := 256 * (header[3] as nat) + header[2];
    }

    method ParseUncompressedBlock() returns (ok: bool)
      requires Reservoir() && OutputBuffer() && Apart() && numBits <= 30
      modifies this, buf
      ensures Reservoir() && OutputBuffer() && Apart() && (buf == old(buf) || fresh(buf))
      ensures var r := Stored(input, State(old(Cursor()), old(Output())));
              && (ok <==> r.Some? && CanHold(|r.value.out|))
              && (ok ==> r == Some(State(Cursor(), Output())) && 8 * Fetched() == Cursor())
    {
      hide Lsb, Doubled, CanHold, ByteAt;
      var len, nlen := ReadStoredHeader();
      if nlen != 0xFFFF - len {
        return false;
      }
      if pos + len > |input| {
        return false;
      }
      assert phantom == 0;
      ok := CopyInput(len);
      CanHoldMono();
    }

    /** Copies len input bytes to the output. */
    method CopyInput(len: nat) returns (ok: bool)
      requires Reservoir() && OutputBuffer() && numBits == 0 && phantom == 0 && pos + len <= |input|
      requires buf as object != this
      modifies this, buf
      ensures Reservoir() && OutputBuffer() && (buf == old(buf) || fresh(buf))
      ensures ok ==> Cursor() == old(Cursor()) + 8 * len && 8 * Fetched() == Cursor()
      ensures ok ==> Output() == old(Output()) + input[old(pos)..old(pos) + len]
      ensures !ok ==> !CanHold(old(zout) + len)
    {
      hide Lsb, Doubled, CanHold;
      ghost var before, p := Output(), Cursor();
      if zout + len > buf.Length {
        ok := Expand(zout, len);
        if !ok {
          return;
        }
      }
      assert buf[..zout] == before;
      CopyFrom(buf, zout, input, pos, len);
      pos := pos + len;
      zout := zout + len;
      LsbEmpty(input, p);
      LsbEmpty(input, p + 8 * len);
      ok := true;
    }

    static method CopyFrom(a: array<Byte>, at: nat, src: seq<Byte>, from: nat, len: nat)
      requires at + len <= a.Length && from + len <= |src|
      modifies a
      ensures a[..at + len] == old(a[..at]) + src[from..from + len]
    {
      ghost var before := a[..at];
      var i := 0;
      while i < len
        invariant i <= len && a[..at] == before && a[at..at + i] == src[from..from + i]
      {
        a[at + i] := src[from + i];
        i := i + 1;
      }
    }

    // ---------- the stream ----------

    ghost predicate Ready()
      reads `buf, `zout
    {
      OutputBuffer() && Apart() && zLength.Shape() && zDistance.Shape()
    }

    method ParseBlock(kind: nat) returns (ok: bool)
      requires Reservoir() && Ready() && numBits <= 30
      modifies this, buf, zLength.Repr, zDistance.Repr
      ensures Reservoir() && Ready() && (buf == old(buf) || fresh(buf))
      ensures var r := Block(kind, input, State(old(Cursor()), old(Output())));
              var g := BlockFetch(kind, input, State(old(Cursor()), old(Output())), old(Fetched()));
              && (ok <==> Accepts(r, g))
              && (ok ==> r == Some(State(Cursor(), Output())) && g == Some(Fetched()))
    {
      hide Lsb, Tokens, TokensFetch, DynamicFetch, Stored, DynamicTables, CanHold, Kraft, Fits, FixedLengths;
      hide FixedDistances, Cursor;
      hide FastSound, FastComplete, LengthTables, SymbolTables, LengthsUpTo, Doubled;
      if kind == 0 {
        ok := ParseUncompressedBlock();
        return;
      }
      ghost var before := Output();
      if kind == 1 {
        FixedAreSubscribed();
        ok := BuildBoth(FixedLengths(), FixedDistances());
      } else if kind == 2 {
        ok := ComputeHuffmanCodes();
      } else {
        ok := false;
      }
      if !ok {
        return;
      }
      assert Output() == before;
      ok := ParseHuffmanBlock();
    }

    /**
     Decodes the blocks of a raw deflate stream, starting at a byte boundary.
     It succeeds exactly if the reference accepts the zero-padded input, no code is refused at the end of the input, and
     there is room for the output; output and end position are then the reference's.
     */
    method ParseBlocks() returns (ok: bool)
      requires Reservoir() && Ready() && numBits == 0
      modifies this, buf, zLength.Repr, zDistance.Repr
      ensures Reservoir() && Ready() && (buf == old(buf) || fresh(buf))
      ensures var r := Inflate(input, State(old(Cursor()), old(Output())));
              var g := InflateFetch(input, State(old(Cursor()), old(Output())), old(Fetched()));
              && (ok <==> Accepts(r, g))
              && (ok ==> r == Some(State(Cursor(), Output())))
    {
      hide Lsb, Block, BlockFetch, CanHold, Inflate, InflateFetch, Doubled, BitsFetch, Grow, Room, Apart;
      ghost var st0 := State(Cursor(), Output());
      ghost var r, g := Inflate(input, st0), InflateFetch(input, st0, Fetched());
      var final := 0;
      while true
        invariant Reservoir() && Ready() && (buf == old(buf) || fresh(buf))
        invariant r == Inflate(input, State(Cursor(), Output()))
        invariant g == InflateFetch(input, State(Cursor(), Output()), Fetched())
        decreases 8 * |input| - Cursor()
      {
        ghost var st, f := State(Cursor(), Output()), Fetched();
        final := Receive(1);
        var kind := Receive(2);
        StreamCases(input, st);
        if st.p < 8 * |input| {
          StreamFetchCases(input, st, f);
        }
        assert State(Cursor(), Output()) == State(st.p + 3, st.out);
        ok := ParseBlock(kind);
        if !ok {
          CanHoldMono();
          return;
        }
        if final != 0 {
          break;
        }
      }
    }

    method ParseZlibHeader() returns (ok: bool)
      requires Reservoir() && pos == 0 && phantom == 0 && numBits == 0
      modifies `pos, `phantom
      ensures ok <==> ZlibHeader(input)
      ensures ok ==> Reservoir() && Cursor() == 16 && Fetched() == 2
    {
      var b := Get8();
      var cmf: nat := b;
      b := Get8();
      var flg: nat := b;
      if Eof() {
        return false;
      }
      if (cmf * 256 + flg) % 31 != 0 {
        return false;
      }
      if flg / 32 % 2 == 1 {
        return false;
      }
      if cmf % 16 != 8 {
        return false;
      }
      LsbEmpty(input, 16);
      ok := true;
    }

    /** Decodes a whole stream, with or without the two-byte zlib header. */
    method ParseZlib(parseHeader: bool) returns (ok: bool)
      requires Reservoir() && Ready() && pos == 0 && phantom == 0 && numBits == 0 && zout == 0
      modifies this, buf, zLength.Repr, zDistance.Repr
      ensures OutputBuffer()
      ensures var r := ZlibInflate(input, parseHeader);
              && (ok <==> Accepts(r, ZlibFetch(input, parseHeader)))
              && (ok ==> Cursor() >= 0 && r == Some(State(Cursor(), Output())))
    {
      hide Inflate, InflateFetch, Lsb, ZlibHeader, CanHold, Doubled;
      if parseHeader {
        ok := ParseZlibHeader();
        if !ok {
          return;
        }
      }
      assert Output() == [];
      ok := ParseBlocks();
    }
  }

  /**
   The decoder's entry points: into a fixed buffer, or into an allocated one that grows. There is a result exactly if
   the reference has one, no code is refused at the end of the input, and there is room; it is then the reference's. In
   an expandable buffer of zero bytes there is room for nothing: None stands for doubling that never ends as well.
   */
  method Decode(input: seq<Byte>, capacity: nat, expandable: bool, heapLimit: nat, parseHeader: bool)
    returns (r: Option<seq<Byte>>)
    requires capacity <= UINT_MAX
    ensures var s := ZlibInflate(input, parseHeader);
            && (r.Some? <==>
                  && s.Some? && ZlibFetch(input, parseHeader).Some?
                  && Room(capacity, expandable, heapLimit, |s.value.out|))
            && (r.Some? ==> r.value == s.value.out)
  {
    hide ZlibInflate, ZlibFetch, Room, Doubled, Lsb;
    var obuf := new Byte[capacity];
    RoomForInitial(capacity, expandable, heapLimit);
    var a := new ZBuf(input, obuf, expandable, heapLimit);
    var ok := a.ParseZlib(parseHeader);
    r := if ok then Some(a.buf[..a.zout]) else None;
  }

  /** A stream that ends at least 16 bits before the end of the input, as in front of a checksum, is not refused. */
  lemma EarlyEndIsDecoded(input: seq<Byte>, parseHeader: bool)
    requires var s := ZlibInflate(input, parseHeader); s.Some? && s.value.p <= 8 * |input| - 16
    ensures ZlibFetch(input, parseHeader).Some?
  {
    hide Inflate, InflateFetch;
    if parseHeader {
      EarlyEndIsNotRefused(input, State(16, []), 2);
    } else {
      EarlyEndIsNotRefused(input, State(0, []), 0);
    }
  }

  lemma RoomForInitial(capacity: nat, expandable: bool, heapLimit: nat)
    ensures Room(capacity, expandable, heapLimit, capacity)
    ensures capacity >= 1 ==> Doubled(capacity, capacity)
  {
  }
}
