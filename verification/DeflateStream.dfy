/**
 Whole DEFLATE streams as syntax: dynamic headers, blocks and streams, where each stands in the input and what
 it means; and that the reference decoder accepts exactly these.
 */
module DeflateStream {
  import opened Wrappers
  import opened Bits
  import opened Canonical
  import opened InflateSpec
  import opened InflateCases
  import opened DeflateEncoding

  // ---------- the fixed codes (RFC 1951, section 3.2.6) ----------

  /** The code of a literal or length symbol in a fixed block, as the standard lists them. */
  function FixedCode(i: nat): nat
    requires i < 288
  {
    if i < 144 then 0x30 + i else if i < 256 then 0x190 + (i - 144) else if i < 280 then i - 256 else 0xC0 + (i - 280)
  }

  /** The fixed codes by length and value: the number of those that come before. */
  function FixedRank(i: nat): nat
    requires i < 288
  {
    if i < 144 then 24 + i else if i < 256 then 176 + (i - 144) else if i < 280 then i - 256 else 168 + (i - 280)
  }

  /** The symbol whose code comes right before. */
  function FixedBefore(i: nat): nat
    requires i < 288 && i != 256
  {
    if i == 0 then 279 else if i == 280 then 143 else if i == 144 then 287 else i - 1
  }

  lemma {:induction false} FixedCodes(i: nat)
    requires i < 288
    ensures CodeOf(FixedLengths(), i) == FixedCode(i) && FixedLengths()[i] == FixedLength(i)
    decreases FixedRank(i)
  {
    hide CodeOf, Shl;
    var lens := FixedLengths();
    if i == 256 {
      FirstCode(lens, 256);
    } else {
      var j := FixedBefore(i);
      FixedCodes(j);
      NextCode(lens, j, i);
      ShlFew(CodeOf(lens, j) + 1);
    }
  }

  lemma ShlFew(x: nat)
    ensures Shl(x, 0) == x && Shl(x, 1) == 2 * x
  {
  }

  lemma {:induction false} FixedDistanceCodes(i: nat)
    requires i < 32
    ensures CodeOf(FixedDistances(), i) == i && FixedDistances()[i] == 5
  {
    hide CodeOf, Shl;
    var lens := FixedDistances();
    if i == 0 {
      FirstCode(lens, 0);
    } else {
      FixedDistanceCodes(i - 1);
      NextCode(lens, i - 1, i);
      ShlFew(CodeOf(lens, i - 1) + 1);
    }
  }

  // ---------- run-length coded code lengths ----------

  /** One symbol of the code length alphabet: a length, a repetition of the last one, or a run of zeros. */
  datatype Run = One(c: nat) | Again(x: nat) | Zeros(x: nat) | ManyZeros(x: nat)

  ghost predicate RunOk(cl: seq<nat>, r: Run) {
    match r
    case One(c) => c < 16 && HasCode(cl, c)
    case Again(x) => HasCode(cl, 16) && x < Pow2(2)
    case Zeros(x) => HasCode(cl, 17) && x < Pow2(3)
    case ManyZeros(x) => HasCode(cl, 18) && x < Pow2(7)
  }

  ghost function RunBits(cl: seq<nat>, r: Run): seq<nat>
    requires RunOk(cl, r)
  {
    match r
    case One(c) => CodeWord(cl, c)
    case Again(x) => CodeWord(cl, 16) + LsbBits(x, 2)
    case Zeros(x) => CodeWord(cl, 17) + LsbBits(x, 3)
    case ManyZeros(x) => CodeWord(cl, 18) + LsbBits(x, 7)
  }

  function RunValue(acc: seq<nat>, r: Run): Option<seq<nat>> {
    match r
    case One(c) => Some([c])
    case Again(x) => if acc == [] then None else Some(Repeat(acc[|acc| - 1], x + 3))
    case Zeros(x) => Some(Repeat(0, x + 3))
    case ManyZeros(x) => Some(Repeat(0, x + 11))
  }

  ghost function RunsBits(cl: seq<nat>, rs: seq<Run>): seq<nat>
    requires forall r :: r in rs ==> RunOk(cl, r)
  {
    if rs == [] then [] else RunBits(cl, rs[0]) + RunsBits(cl, rs[1..])
  }

  /** The list of lengths the runs spell, after acc. */
  function Spelled(acc: seq<nat>, rs: seq<Run>): (r: Option<seq<nat>>)
    ensures r.Some? ==> |r.value| >= |acc| + |rs|
    decreases |rs|
  {
    if rs == [] then Some(acc)
    else
      match RunValue(acc, rs[0])
      case None => None
      case Some(v) => Spelled(acc + v, rs[1..])
  }

  lemma RunDecodes(cl: seq<nat>, r: Run, input: seq<Byte>, p: nat, acc: seq<nat>)
    requires Usable(cl) && RunOk(cl, r) && LengthsUpTo(acc, 15)
    requires Reads(input, p, RunBits(cl, r))
    ensures match RunValue(acc, r)
            case None => LengthRun(cl, input, p, acc) == None
            case Some(v) => LengthRun(cl, input, p, acc) == Some((p + |RunBits(cl, r)|, v))
  {
    hide Symbol, Reads, Usable, CodeWord, Lsb, Pow2, LsbBits, Repeat, LengthsUpTo;
    match r
    case One(c) =>
      ReadsCodeWord(cl, input, p, c);
    case Again(x) =>
      ReadsSymbolThen(cl, 16, x, 2, input, p);
    case Zeros(x) =>
      ReadsSymbolThen(cl, 17, x, 3, input, p);
    case ManyZeros(x) =>
      ReadsSymbolThen(cl, 18, x, 7, input, p);
  }

  lemma ReadsSymbolThen(lens: seq<nat>, sym: nat, x: nat, n: nat, input: seq<Byte>, p: nat)
    requires Usable(lens) && HasCode(lens, sym) && x < Pow2(n)
    ensures Reads(input, p, CodeWord(lens, sym) + LsbBits(x, n))
       <==> Symbol(lens, input, p) == Some(sym) && Lsb(input, p + lens[sym], n) == x
    ensures |CodeWord(lens, sym) + LsbBits(x, n)| == lens[sym] + n
  {
    hide Symbol, Reads, Usable, Lsb, Pow2;
    ReadsConcat(input, p, CodeWord(lens, sym), LsbBits(x, n));
    ReadsCodeWord(lens, input, p, sym);
    ReadsLsb(input, p + lens[sym], x, n);
  }

  lemma RunIsWritten(cl: seq<nat>, input: seq<Byte>, p: nat, acc: seq<nat>) returns (r: Run)
    requires Usable(cl) && |cl| <= 19 && LengthsUpTo(acc, 15) && LengthRun(cl, input, p, acc).Some?
    ensures RunOk(cl, r) && Reads(input, p, RunBits(cl, r))
    ensures LengthRun(cl, input, p, acc).value.0 == p + |RunBits(cl, r)|
    ensures RunValue(acc, r) == Some(LengthRun(cl, input, p, acc).value.1)
  {
    hide Reads, Usable, CodeWord, Lsb, Pow2, Matches;
    var c := Symbol(cl, input, p).value;
    SymbolHasCode(cl, input, p);
    var q := p + cl[c];
    if c < 16 {
      r := One(c);
      ReadsCodeWord(cl, input, p, c);
    } else if c == 16 {
      r := Again(Lsb(input, q, 2));
      LsbBound(input, q, 2);
      ReadsSymbolThen(cl, 16, r.x, 2, input, p);
    } else if c == 17 {
      r := Zeros(Lsb(input, q, 3));
      LsbBound(input, q, 3);
      ReadsSymbolThen(cl, 17, r.x, 3, input, p);
    } else {
      r := ManyZeros(Lsb(input, q, 7));
      LsbBound(input, q, 7);
      ReadsSymbolThen(cl, 18, r.x, 7, input, p);
    }
  }

  lemma {:induction false} RunsDecode(cl: seq<nat>, rs: seq<Run>, input: seq<Byte>, p: nat, acc: seq<nat>, total: nat)
    requires Usable(cl) && LengthsUpTo(acc, 15) && |acc| <= total
    requires forall r :: r in rs ==> RunOk(cl, r)
    requires Reads(input, p, RunsBits(cl, rs))
    requires Spelled(acc, rs).Some? && |Spelled(acc, rs).value| == total
    ensures Lengths(cl, input, p, acc, total) == Some((p + |RunsBits(cl, rs)|, Spelled(acc, rs).value))
    decreases |rs|
  {
    hide Reads, Usable, RunBits, RunValue, LengthRun, RunOk;
    if rs == [] {
    } else {
      var w := RunBits(cl, rs[0]);
      ReadsConcat(input, p, w, RunsBits(cl, rs[1..]));
      RunDecodes(cl, rs[0], input, p, acc);
      RunsDecode(cl, rs[1..], input, p + |w|, acc + RunValue(acc, rs[0]).value, total);
    }
  }

  lemma {:induction false} LengthsAreWritten(cl: seq<nat>, input: seq<Byte>, p: nat, acc: seq<nat>, total: nat)
    returns (rs: seq<Run>)
    requires Usable(cl) && |cl| <= 19 && LengthsUpTo(acc, 15) && |acc| <= total
    requires Lengths(cl, input, p, acc, total).Some?
    ensures forall r :: r in rs ==> RunOk(cl, r)
    ensures Reads(input, p, RunsBits(cl, rs))
    ensures Lengths(cl, input, p, acc, total)
         == Some((p + |RunsBits(cl, rs)|, Lengths(cl, input, p, acc, total).value.1))
    ensures Spelled(acc, rs) == Some(Lengths(cl, input, p, acc, total).value.1)
    decreases total - |acc|
  {
    hide Reads, Usable, RunBits, RunValue, LengthRun, RunOk;
    if |acc| == total {
      rs := [];
      ReadsNone(input, p);
    } else {
      var r := RunIsWritten(cl, input, p, acc);
      var v := RunValue(acc, r).value;
      var rest := LengthsAreWritten(cl, input, p + |RunBits(cl, r)|, acc + v, total);
      rs := [r] + rest;
      assert rs[1..] == rest;
      ReadsConcat(input, p, RunBits(cl, r), RunsBits(cl, rest));
    }
  }

  // ---------- dynamic headers ----------

  datatype Header = Header(hlit: nat, hdist: nat, hclen: nat, cl: seq<nat>, runs: seq<Run>)

  ghost predicate HeaderOk(h: Header) {
    && 257 <= h.hlit <= 288 && 1 <= h.hdist <= 32 && 4 <= h.hclen <= 19
    && |h.cl| == 19 && LengthsUpTo(h.cl, 7) && Usable(h.cl)
    && (forall i :: h.hclen <= i < 19 ==> h.cl[Order(i)] == 0)
    && (forall r :: r in h.runs ==> RunOk(h.cl, r))
    && Spelled([], h.runs).Some? && |Spelled([], h.runs).value| == h.hlit + h.hdist
    && LengthsUpTo(Spelled([], h.runs).value, 15)
    && Subscribed(LitLens(h)) && Subscribed(DistLens(h))
  }

  ghost function LitLens(h: Header): seq<nat>
    requires Spelled([], h.runs).Some? && |Spelled([], h.runs).value| == h.hlit + h.hdist
  {
    Spelled([], h.runs).value[..h.hlit]
  }

  ghost function DistLens(h: Header): seq<nat>
    requires Spelled([], h.runs).Some? && |Spelled([], h.runs).value| == h.hlit + h.hdist
  {
    Spelled([], h.runs).value[h.hlit..]
  }

  /**
   The i-th transmitted symbol of the code length alphabet: the three run symbols, no code, and then the lengths from 8
   up and from 7 down in turn.
   */
  function Order(i: nat): (k: nat)
    requires i < 19
    ensures k < 19
  {
    if i < 3 then 16 + i else if i == 3 then 0 else if i % 2 == 0 then 8 + (i - 4) / 2 else 7 - (i - 5) / 2
  }

  lemma OrderIsTable(i: nat)
    requires i < 19
    ensures |DEZIGZAG| == 19 && DEZIGZAG[i] == Order(i)
  {
  }

  /** The first n lengths of the code length code, in transmission order, three bits each. */
  function Triples(cl: seq<nat>, n: nat): (w: seq<nat>)
    requires |cl| == 19 && n <= 19
    ensures |w| == 3 * n
  {
    if n == 0 then [] else Triples(cl, n - 1) + LsbBits(cl[Order(n - 1)], 3)
  }

  function CountBits(h: Header): seq<nat>
    requires 257 <= h.hlit && 1 <= h.hdist && 4 <= h.hclen
  {
    LsbBits(h.hlit - 257, 5) + (LsbBits(h.hdist - 1, 5) + LsbBits(h.hclen - 4, 4))
  }

  ghost function HeaderBits(h: Header): seq<nat>
    requires HeaderOk(h)
  {
    CountBits(h) + (Triples(h.cl, h.hclen) + RunsBits(h.cl, h.runs))
  }

  /** The inverse of Order. */
  const ZIGZAG: seq<nat> := [3, 17, 15, 13, 11, 9, 7, 5, 4, 6, 8, 10, 12, 14, 16, 18, 0, 1, 2]

  lemma DezigzagIsPermutation()
    ensures forall k :: 0 <= k < 19 ==> ZIGZAG[k] < 19 && Order(ZIGZAG[k]) == k
    ensures forall i :: 0 <= i < 19 ==> ZIGZAG[Order(i)] == i
  {
  }

  lemma {:induction false} CodeLengthEntries(input: seq<Byte>, p: nat, n: nat, i: nat)
    requires n <= 19 && i < 19
    ensures CodeLengthLengths(input, p, n)[Order(i)] == if i < n then Lsb(input, p + 3 * i, 3) else 0
  {
    hide Lsb;
    DezigzagIsPermutation();
    if n == 0 {
    } else {
      OrderIsTable(n - 1);
      CodeLengthEntries(input, p, n - 1, i);
      assert Order(i) == Order(n - 1) ==> i == n - 1;
    }
  }

  lemma {:induction false} ReadsTriples(input: seq<Byte>, p: nat, cl: seq<nat>, n: nat)
    requires |cl| == 19 && n <= 19 && LengthsUpTo(cl, 7)
    ensures Reads(input, p, Triples(cl, n))
       <==> forall i :: 0 <= i < n ==> Lsb(input, p + 3 * i, 3) == cl[Order(i)]
  {
    hide Reads, Lsb, Order, LsbBits;
    if n > 0 {
      ReadsTriples(input, p, cl, n - 1);
      ReadsConcat(input, p, Triples(cl, n - 1), LsbBits(cl[Order(n - 1)], 3));
      assert Pow2(3) == 8;
      ReadsLsb(input, p + 3 * (n - 1), cl[Order(n - 1)], 3);
    } else {
      ReadsNone(input, p);
    }
  }

  lemma TriplesDecode(input: seq<Byte>, p: nat, cl: seq<nat>, n: nat)
    requires |cl| == 19 && n <= 19 && LengthsUpTo(cl, 7)
    ensures Reads(input, p, Triples(cl, n)) && (forall i :: n <= i < 19 ==> cl[Order(i)] == 0)
       <==> CodeLengthLengths(input, p, n) == cl
  {
    hide Reads, Lsb, CodeLengthLengths, LengthsUpTo, Order;
    DezigzagIsPermutation();
    ReadsTriples(input, p, cl, n);
    var r := CodeLengthLengths(input, p, n);
    forall i | 0 <= i < 19
      ensures r[Order(i)] == if i < n then Lsb(input, p + 3 * i, 3) else 0
    {
      CodeLengthEntries(input, p, n, i);
    }
    if Reads(input, p, Triples(cl, n)) && (forall i :: n <= i < 19 ==> cl[Order(i)] == 0) {
      forall k | 0 <= k < 19 ensures r[k] == cl[k] {
        assert Order(ZIGZAG[k]) == k;
      }
    }
  }

  lemma ReadsCounts(h: Header, input: seq<Byte>, p: nat)
    requires 257 <= h.hlit <= 288 && 1 <= h.hdist <= 32 && 4 <= h.hclen <= 19
    ensures Reads(input, p, CountBits(h))
       <==> && Lsb(input, p, 5) == h.hlit - 257 && Lsb(input, p + 5, 5) == h.hdist - 1
            && Lsb(input, p + 10, 4) == h.hclen - 4
    ensures |CountBits(h)| == 14
  {
    hide Reads, Lsb, Pow2;
    Pow2Table();
    ReadsConcat(input, p, LsbBits(h.hlit - 257, 5), LsbBits(h.hdist - 1, 5) + LsbBits(h.hclen - 4, 4));
    ReadsConcat(input, p + 5, LsbBits(h.hdist - 1, 5), LsbBits(h.hclen - 4, 4));
    ReadsLsb(input, p, h.hlit - 257, 5);
    ReadsLsb(input, p + 5, h.hdist - 1, 5);
    ReadsLsb(input, p + 10, h.hclen - 4, 4);
  }

  lemma HeaderDecodes(h: Header, input: seq<Byte>, p: nat)
    requires HeaderOk(h) && Reads(input, p, HeaderBits(h))
    ensures DynamicTables(input, p) == Some(Tables(p + |HeaderBits(h)|, LitLens(h), DistLens(h)))
  {
    hide Reads, Lsb, CodeLengthLengths, Lengths, RunsBits, Spelled, Triples, CountBits, DynamicTables, Kraft, RunOk;
    ReadsConcat(input, p, CountBits(h), Triples(h.cl, h.hclen) + RunsBits(h.cl, h.runs));
    ReadsCounts(h, input, p);
    ReadsConcat(input, p + 14, Triples(h.cl, h.hclen), RunsBits(h.cl, h.runs));
    TriplesDecode(input, p + 14, h.cl, h.hclen);
    RunsDecode(h.cl, h.runs, input, p + 14 + 3 * h.hclen, [], h.hlit + h.hdist);
    DynamicCases(input, p, h.hlit, h.hdist, p + 14 + 3 * h.hclen);
  }

  lemma HeaderIsWritten(input: seq<Byte>, p: nat) returns (h: Header)
    requires DynamicTables(input, p).Some?
    ensures HeaderOk(h) && Reads(input, p, HeaderBits(h))
    ensures DynamicTables(input, p) == Some(Tables(p + |HeaderBits(h)|, LitLens(h), DistLens(h)))
  {
    hide Reads, Lsb, CodeLengthLengths, Lengths, RunsBits, Spelled, Triples, CountBits, DynamicTables, Kraft, RunOk;
    HeaderBounds(input, p);
    var hlit, hdist, hclen := Lsb(input, p, 5) + 257, Lsb(input, p + 5, 5) + 1, Lsb(input, p + 10, 4) + 4;
    var cl := HeaderLengths(input, p);
    var q := p + 14 + 3 * hclen;
    DynamicCases(input, p, hlit, hdist, q);
    var runs := LengthsAreWritten(cl, input, q, [], hlit + hdist);
    h := Header(hlit, hdist, hclen, cl, runs);
    ReadsCounts(h, input, p);
    TriplesDecode(input, p + 14, cl, hclen);
    ReadsConcat(input, p, CountBits(h), Triples(cl, hclen) + RunsBits(cl, runs));
    ReadsConcat(input, p + 14, Triples(cl, hclen), RunsBits(cl, runs));
  }

  // ---------- blocks and streams ----------

  datatype BlockText = StoredText(data: seq<Byte>) | FixedText(ts: seq<Token>) | DynamicText(h: Header, ts: seq<Token>)

  function Kind(b: BlockText): nat {
    match b case StoredText(_) => 0 case FixedText(_) => 1 case DynamicText(_, _) => 2
  }

  /** The first byte at or after bit p. */
  function NextByte(p: nat): nat {
    (p + 7) / 8
  }

  ghost predicate TextOk(b: BlockText) {
    match b
    case StoredText(data) => |data| <= 0xFFFF
    case FixedText(ts) => AllOk(FixedLengths(), FixedDistances(), ts)
    case DynamicText(h, ts) => HeaderOk(h) && AllOk(LitLens(h), DistLens(h), ts)
  }

  /** The block, without its three header bits, stands at bit p. */
  ghost predicate TextAt(b: BlockText, input: seq<Byte>, p: nat)
    requires TextOk(b)
  {
    match b
    case StoredText(data) =>
      var q := NextByte(p);
      && q + 4 + |data| <= |input|
      && Lsb(input, 8 * q, 16) == |data| && Lsb(input, 8 * q + 16, 16) == 0xFFFF - |data|
      && input[q + 4..q + 4 + |data|] == data
    case FixedText(ts) => Reads(input, p, BlockBits(FixedLengths(), FixedDistances(), ts))
    case DynamicText(h, ts) =>
      && Reads(input, p, HeaderBits(h))
      && Reads(input, p + |HeaderBits(h)|, BlockBits(LitLens(h), DistLens(h), ts))
  }

  /** A number of sixteen bits takes two bytes, the low one first. */
  lemma SixteenBits(input: seq<Byte>, q: nat)
    ensures Lsb(input, 8 * q, 16) == ByteAt(input, q) + 256 * ByteAt(input, q + 1)
  {
    hide Lsb, ByteAt;
    LsbByte(input, q);
    LsbByte(input, q + 1);
    LsbSplit(input, 8 * q, 8, 8);
    ShlIs(Lsb(input, 8 * q + 8, 8), 8);
    Pow2Table();
  }

  ghost function TextEnd(b: BlockText, p: nat): nat
    requires TextOk(b)
  {
    match b
    case StoredText(data) => 8 * (NextByte(p) + 4 + |data|)
    case FixedText(ts) => p + |BlockBits(FixedLengths(), FixedDistances(), ts)|
    case DynamicText(h, ts) => p + |HeaderBits(h)| + |BlockBits(LitLens(h), DistLens(h), ts)|
  }

  ghost function TextMeaning(out: seq<Byte>, b: BlockText): (r: Option<seq<Byte>>)
    requires TextOk(b)
    ensures r.Some? ==> |r.value| >= |out|
  {
    match b
    case StoredText(data) => Some(out + data)
    case FixedText(ts) => CopiesInRange(FixedLengths(), FixedDistances(), ts); Meaning(out, ts)
    case DynamicText(h, ts) => CopiesInRange(LitLens(h), DistLens(h), ts); Meaning(out, ts)
  }

  lemma CopiesInRange(lit: seq<nat>, dist: seq<nat>, ts: seq<Token>)
    requires AllOk(lit, dist, ts)
    ensures forall t :: t in ts && t.Copy? ==> 257 <= t.lsym < 286 && t.dsym < 30
  {
    hide TokenOk;
    forall t | t in ts && t.Copy? ensures 257 <= t.lsym < 286 && t.dsym < 30 {
      CopySymbolRange(lit, dist, t);
    }
  }

  lemma FixedAreUsable()
    ensures Usable(FixedLengths()) && Usable(FixedDistances())
  {
    hide FixedLengths, FixedDistances, Kraft;
    FixedAreSubscribed();
  }

  lemma HeaderIsUsable(h: Header)
    requires HeaderOk(h)
    ensures Spelled([], h.runs).Some? && |Spelled([], h.runs).value| == h.hlit + h.hdist
    ensures Usable(LitLens(h)) && Usable(DistLens(h))
  {
    hide Kraft, RunOk, Spelled;
  }

  lemma TextDecodes(b: BlockText, input: seq<Byte>, p: nat, out: seq<Byte>)
    requires TextOk(b) && TextAt(b, input, p)
    requires TextMeaning(out, b).Some? && |TextMeaning(out, b).value| <= MAX_OUT
    ensures Block(Kind(b), input, State(p, out)) == Some(State(TextEnd(b, p), TextMeaning(out, b).value))
  {
    hide Reads, Usable, HeaderOk, AllOk, BlockBits, HeaderBits, Tokens, DynamicTables, Meaning, ByteAt, FixedLengths;
    hide FixedDistances, Lsb;
    match b
    case StoredText(data) =>
      SixteenBits(input, NextByte(p));
      SixteenBits(input, NextByte(p) + 2);
    case FixedText(ts) =>
      FixedAreUsable();
      BlockDecodes(FixedLengths(), FixedDistances(), ts, input, State(p, out));
    case DynamicText(h, ts) =>
      HeaderIsUsable(h);
      HeaderDecodes(h, input, p);
      BlockDecodes(LitLens(h), DistLens(h), ts, input, State(p + |HeaderBits(h)|, out));
  }

  lemma BlockIsWritten(kind: nat, input: seq<Byte>, p: nat, out: seq<Byte>) returns (b: BlockText)
    requires Block(kind, input, State(p, out)).Some?
    ensures TextOk(b) && Kind(b) == kind && TextAt(b, input, p)
    ensures TextMeaning(out, b).Some?
    ensures Block(kind, input, State(p, out)) == Some(State(TextEnd(b, p), TextMeaning(out, b).value))
  {
    hide Reads, Usable, HeaderOk, AllOk, BlockBits, HeaderBits, Tokens, DynamicTables, Meaning, FixedLengths;
    hide FixedDistances, Lsb;
    if kind == 0 {
      var q := NextByte(p);
      SixteenBits(input, q);
      SixteenBits(input, q + 2);
      var len := ByteAt(input, q) + 256 * ByteAt(input, q + 1);
      b := StoredText(input[q + 4..q + 4 + len]);
    } else if kind == 1 {
      FixedAreUsable();
      var ts := DecodedIsWritten(FixedLengths(), FixedDistances(), input, State(p, out));
      b := FixedText(ts);
    } else {
      var h := HeaderIsWritten(input, p);
      HeaderIsUsable(h);
      var ts := DecodedIsWritten(LitLens(h), DistLens(h), input, State(p + |HeaderBits(h)|, out));
      b := DynamicText(h, ts);
    }
  }

  ghost predicate AllTextsOk(bs: seq<BlockText>) {
    forall b :: b in bs ==> TextOk(b)
  }

  /** A non-empty list of blocks stands at bit p, the last one marked final. */
  ghost predicate StreamAt(bs: seq<BlockText>, input: seq<Byte>, p: nat)
    requires AllTextsOk(bs)
    decreases |bs|
  {
    && bs != []
    && Lsb(input, p, 1) == (if |bs| == 1 then 1 else 0)
    && Lsb(input, p + 1, 2) == Kind(bs[0])
    && TextAt(bs[0], input, p + 3)
    && (|bs| > 1 ==> StreamAt(bs[1..], input, TextEnd(bs[0], p + 3)))
  }

  ghost function StreamEnd(bs: seq<BlockText>, p: nat): nat
    requires AllTextsOk(bs)
    decreases |bs|
  {
    if bs == [] then p else StreamEnd(bs[1..], TextEnd(bs[0], p + 3))
  }

  ghost function StreamMeaning(out: seq<Byte>, bs: seq<BlockText>): (r: Option<seq<Byte>>)
    requires AllTextsOk(bs)
    ensures r.Some? ==> |r.value| >= |out|
    decreases |bs|
  {
    if bs == [] then Some(out)
    else
      match TextMeaning(out, bs[0])
      case None => None
      case Some(o) => StreamMeaning(o, bs[1..])
  }

  /** A written stream decodes to its meaning and ends where it was written to end. */
  lemma {:induction false} StreamDecodes(bs: seq<BlockText>, input: seq<Byte>, st: State)
    requires AllTextsOk(bs) && StreamAt(bs, input, st.p)
    requires StreamMeaning(st.out, bs).Some? && |StreamMeaning(st.out, bs).value| <= MAX_OUT
    ensures Inflate(input, st) == Some(State(StreamEnd(bs, st.p), StreamMeaning(st.out, bs).value))
    decreases |bs|
  {
    hide Lsb, TextOk, TextAt, TextEnd, TextMeaning, Block, Kind, Inflate;
    var b := bs[0];
    StreamCases(input, st);
    TextDecodes(b, input, st.p + 3, st.out);
    if |bs| > 1 {
      StreamDecodes(bs[1..], input, State(TextEnd(b, st.p + 3), TextMeaning(st.out, b).value));
    } else {
      assert bs[1..] == [];
    }
  }

  /** Whatever the reference accepts is a written stream. */
  lemma {:induction false} InflatedIsWritten(input: seq<Byte>, st: State) returns (bs: seq<BlockText>)
    requires Inflate(input, st).Some?
    ensures AllTextsOk(bs) && StreamAt(bs, input, st.p)
    ensures StreamMeaning(st.out, bs).Some?
    ensures Inflate(input, st) == Some(State(StreamEnd(bs, st.p), StreamMeaning(st.out, bs).value))
    decreases 8 * |input| - st.p
  {
    hide Lsb, TextOk, TextAt, TextEnd, TextMeaning, Block, Kind, Inflate;
    StreamCases(input, st);
    var kind := Lsb(input, st.p + 1, 2);
    var s1 := Block(kind, input, State(st.p + 3, st.out)).value;
    var b := BlockIsWritten(kind, input, st.p + 3, st.out);
    if Lsb(input, st.p, 1) == 1 {
      bs := [b];
      assert bs[1..] == [];
    } else {
      var rest := InflatedIsWritten(input, s1);
      bs := [b] + rest;
      assert bs[1..] == rest;
    }
  }

  // ---------- the zlib header ----------

  /** The fields of a zlib header (RFC 1950, section 2.2): CM, CINFO, FCHECK, FDICT and FLEVEL. */
  datatype ZlibFields = ZlibFields(cm: nat, info: nat, check: nat, dictionary: nat, level: nat) {
    predicate Ok() {
      cm < 16 && info < 16 && check < 32 && dictionary < 2 && level < 4
    }

    function Cmf(): nat {
      16 * info + cm
    }

    function Flg(): nat {
      64 * level + 32 * dictionary + check
    }

    /** The fields stand at the start of the input, with something behind them. */
    predicate StartOf(input: seq<Byte>) {
      Ok() && |input| > 2 && input[0] == Cmf() && input[1] == Flg()
    }

    /** Nothing is wrong, unless it is the window size: deflate, no preset dictionary, and a check that holds. */
    predicate StandardButForWindow() {
      cm == 8 && dictionary == 0 && (256 * Cmf() + Flg()) % 31 == 0
    }

    /** A header that the standard allows: also, the window has at most 32K. */
    predicate Standard() {
      StandardButForWindow() && info <= 7
    }
  }

  /** The decoder accepts the standard headers, and those that have nothing wrong but a window that is too large. */
  lemma HeaderAcceptedIff(input: seq<Byte>)
    ensures ZlibHeader(input) <==>
              exists f: ZlibFields :: f.StartOf(input) && (f.Standard() || (f.StandardButForWindow() && f.info > 7))
  {
    hide ZlibFields.Cmf, ZlibFields.Flg;
    if ZlibHeader(input) {
      var f := FieldsAre(input[0], input[1]);
      FieldsOf(f);
      assert f.StartOf(input) && f.StandardButForWindow();
    }
    forall f: ZlibFields | f.StartOf(input) && f.StandardButForWindow() ensures ZlibHeader(input) {
      FieldsOf(f);
    }
  }

  lemma FieldsAre(cmf: nat, flg: nat) returns (f: ZlibFields)
    requires cmf < 256 && flg < 256
    ensures f.Ok() && f.Cmf() == cmf && f.Flg() == flg
  {
    f := ZlibFields(cmf % 16, cmf / 16, flg % 32, flg / 32 % 2, flg / 64);
  }

  lemma FieldsOf(f: ZlibFields)
    requires f.Ok()
    ensures f.Cmf() % 16 == f.cm && f.Cmf() / 16 == f.info && f.Flg() / 32 % 2 == f.dictionary
  {
  }

  /** Such a header: for a window of 64K, which is more than the standard allows. */
  lemma LargeWindowIsAccepted()
    ensures var f, input := ZlibFields(8, 8, 28, 0, 0), [0x88, 0x1C, 0];
            f.StartOf(input) && ZlibHeader(input) && f.StandardButForWindow() && !f.Standard()
  {
  }
}
