/**
 How many input bytes the decoder has fetched at each point of a stream, as a function of the bit positions at which it
 reads. It asks for more bytes only when too few bits are buffered, and then fills up to at least 25 bits. In front of a
 Huffman code it wants 16 bits; when it has fewer and no input is left, it refuses. None stands for a refusal.
 */
module Fetching {
  import opened Wrappers
  import opened Bits
  import opened InflateSpec
  import opened InflateCases
  import opened Canonical

  // ---------- single reads ----------

  /** Bytes fetched after reading n bits at p, when f were fetched before. */
  function BitsFetch(p: nat, n: nat, f: nat): nat {
    if 8 * f < p + n then (p + 32) / 8 else f
  }

  /** Bytes fetched when the code at p is looked up: None if fewer than 16 bits are buffered and no input is left. */
  function CodeFetch(input: seq<Byte>, p: nat, f: nat): Option<nat> {
    if p + 16 <= 8 * f then Some(f) else if f >= |input| then None else Some((p + 32) / 8)
  }

  /** Filling up stops at the one number of bytes that leaves 25 to 32 bits buffered. */
  lemma FilledUp(p: nat, f: nat)
    ensures 25 <= 8 * f - p <= 32 <==> f == (p + 32) / 8
  {
  }

  /** A refusal happens in the last 16 bits of the input, or behind it. */
  lemma RefusalIsLate(input: seq<Byte>, p: nat, f: nat)
    requires CodeFetch(input, p, f) == None
    ensures p > 8 * |input| - 16
  {
  }

  // ---------- literals and matches ----------

  ghost function CodedFetch(lens: seq<nat>, extra: seq<nat>, first: nat, input: seq<Byte>, p: nat,
                            f: nat): Option<nat> {
    match CodeFetch(input, p, f)
    case None => None
    case Some(g) =>
      match Symbol(lens, input, p)
      case None => Some(g)
      case Some(i) =>
        if i < first || i - first >= |extra| then Some(g) else Some(BitsFetch(p + lens[i], extra[i - first], g))
  }

  ghost function CopyFetch(lit: seq<nat>, dist: seq<nat>, input: seq<Byte>, p: nat, f: nat): Option<nat> {
    TablesArePositive();
    match CodedFetch(lit, LENGTH_EXTRA, 257, input, p, f)
    case None => None
    case Some(g) =>
      match Coded(lit, LENGTH_BASE, LENGTH_EXTRA, 257, input, p)
      case None => Some(g)
      case Some((_, q)) => CodedFetch(dist, DIST_EXTRA, 0, input, q, g)
  }

  lemma CodedFetchIs(lens: seq<nat>, extra: seq<nat>, first: nat, input: seq<Byte>, p: nat, f: nat, sym: nat)
    requires Symbol(lens, input, p) == Some(sym) && first <= sym < first + |extra| && CodeFetch(input, p, f).Some?
    ensures CodedFetch(lens, extra, first, input, p, f)
         == Some(BitsFetch(p + lens[sym], extra[sym - first], CodeFetch(input, p, f).value))
  {
    hide CodeFetch, BitsFetch;
  }

  lemma CopyFetchIs(lit: seq<nat>, dist: seq<nat>, input: seq<Byte>, p: nat, f: nat, q: nat, g: nat)
    requires CodedFetch(lit, LENGTH_EXTRA, 257, input, p, f) == Some(g)
    requires |LENGTH_BASE| == |LENGTH_EXTRA| && Positive(LENGTH_BASE)
    requires var c := Coded(lit, LENGTH_BASE, LENGTH_EXTRA, 257, input, p); c.Some? && c.value.1 == q
    ensures CopyFetch(lit, dist, input, p, f) == CodedFetch(dist, DIST_EXTRA, 0, input, q, g)
    ensures CodeFetch(input, q, g) == None ==> CopyFetch(lit, dist, input, p, f) == None
  {
    hide CodeFetch, Symbol, Lsb;
  }

  ghost function TokensFetch(lit: seq<nat>, dist: seq<nat>, input: seq<Byte>, st: State, f: nat): Option<nat>
    decreases MAX_OUT - |st.out|
  {
    match CodeFetch(input, st.p, f)
    case None => None
    case Some(g) =>
      match Symbol(lit, input, st.p)
      case None => Some(g)
      case Some(sym) =>
        if sym == 256 || |st.out| >= MAX_OUT then Some(g)
        else if sym < 256 then TokensFetch(lit, dist, input, State(st.p + lit[sym], st.out + [sym]), g)
        else
          match CopyFetch(lit, dist, input, st.p, f)
          case None => None
          case Some(h) =>
            match CopyAt(lit, dist, input, st)
            case None => Some(h)
            case Some(s1) => if |s1.out| > MAX_OUT then Some(h) else TokensFetch(lit, dist, input, s1, h)
  }

  lemma TokensFetchCases(lit: seq<nat>, dist: seq<nat>, input: seq<Byte>, st: State, f: nat)
    ensures var r := TokensFetch(lit, dist, input, st, f);
            match CodeFetch(input, st.p, f)
            case None => r == None
            case Some(g) =>
              match Symbol(lit, input, st.p)
              case None => true
              case Some(sym) =>
                if sym == 256 then r == Some(g)
                else if sym < 256 then
                  |st.out| < MAX_OUT ==>
                    r == TokensFetch(lit, dist, input, State(st.p + lit[sym], st.out + [sym]), g)
                else
                  |st.out| < MAX_OUT ==>
                    match CopyFetch(lit, dist, input, st.p, f)
                    case None => r == None
                    case Some(h) =>
                      match CopyAt(lit, dist, input, st)
                      case None => true
                      case Some(s1) => |s1.out| <= MAX_OUT ==> r == TokensFetch(lit, dist, input, s1, h)
  {
    hide Symbol, CopyAt, CopyFetch, CodeFetch;
  }

  // ---------- dynamic headers ----------

  function CodeLengthsFetch(p: nat, n: nat, f: nat): nat {
    if n == 0 then f else BitsFetch(p + 3 * (n - 1), 3, CodeLengthsFetch(p, n - 1, f))
  }

  /** The extra bits of a symbol of the code length code. */
  function RunExtra(c: nat): nat {
    if c == 16 then 2 else if c == 17 then 3 else if c == 18 then 7 else 0
  }

  ghost function RunFetch(cl: seq<nat>, input: seq<Byte>, p: nat, f: nat): Option<nat> {
    match CodeFetch(input, p, f)
    case None => None
    case Some(g) =>
      match Symbol(cl, input, p)
      case None => Some(g)
      case Some(c) => Some(BitsFetch(p + cl[c], RunExtra(c), g))
  }

  ghost function LengthsFetch(cl: seq<nat>, input: seq<Byte>, p: nat, acc: seq<nat>, total: nat, f: nat): Option<nat>
    requires |acc| <= total && LengthsUpTo(acc, 15)
    decreases total - |acc|
  {
    if |acc| == total then Some(f)
    else
      match RunFetch(cl, input, p, f)
      case None => None
      case Some(g) =>
        match LengthRun(cl, input, p, acc)
        case None => Some(g)
        case Some((q, run)) =>
          if |run| > total - |acc| then Some(g) else LengthsFetch(cl, input, q, acc + run, total, g)
  }

  function CountsFetch(p: nat, f: nat): nat {
    BitsFetch(p + 10, 4, BitsFetch(p + 5, 5, BitsFetch(p, 5, f)))
  }

  ghost function DynamicFetch(input: seq<Byte>, p: nat, f: nat): Option<nat> {
    HeaderBounds(input, p);
    var hclen := Lsb(input, p + 10, 4) + 4;
    var g := CodeLengthsFetch(p + 14, hclen, CountsFetch(p, f));
    LengthsFetch(HeaderLengths(input, p), input, p + 14 + 3 * hclen, [],
      Lsb(input, p, 5) + Lsb(input, p + 5, 5) + 258, g)
  }

  lemma DynamicFetchIs(input: seq<Byte>, p: nat, f: nat, hlit: nat, hdist: nat, q: nat)
    requires HeaderIs(input, p, hlit, hdist, q)
    ensures DynamicFetch(input, p, f)
         == LengthsFetch(HeaderLengths(input, p), input, q, [], hlit + hdist,
                         CodeLengthsFetch(p + 14, Lsb(input, p + 10, 4) + 4, CountsFetch(p, f)))
  {
    hide Lsb, LengthsFetch, CodeLengthsFetch, CountsFetch, HeaderLengths;
  }

  // ---------- blocks and streams ----------

  ghost function BlockFetch(kind: nat, input: seq<Byte>, st: State, f: nat): Option<nat> {
    if kind == 0 then
      match Stored(input, st)
      case None => Some(f)
      case Some(s1) => Some(s1.p / 8)
    else if kind == 1 then TokensFetch(FixedLengths(), FixedDistances(), input, st, f)
    else
      match DynamicFetch(input, st.p, f)
      case None => None
      case Some(g) =>
        match DynamicTables(input, st.p)
        case None => Some(g)
        case Some(t) => TokensFetch(t.lit, t.dist, input, State(t.p, st.out), g)
  }

  ghost function InflateFetch(input: seq<Byte>, st: State, f: nat): Option<nat>
    decreases 8 * |input| - st.p
  {
    if st.p >= 8 * |input| then Some(f)
    else
      var g := BitsFetch(st.p + 1, 2, BitsFetch(st.p, 1, f));
      var kind, s0 := Lsb(input, st.p + 1, 2), State(st.p + 3, st.out);
      match BlockFetch(kind, input, s0, g)
      case None => None
      case Some(h) =>
        match Block(kind, input, s0)
        case None => Some(h)
        case Some(s1) => if BitAt(input, st.p) == 1 then Some(h) else InflateFetch(input, s1, h)
  }

  lemma StreamFetchCases(input: seq<Byte>, st: State, f: nat)
    requires st.p < 8 * |input|
    ensures var r := InflateFetch(input, st, f);
            var g := BitsFetch(st.p + 1, 2, BitsFetch(st.p, 1, f));
            var kind, s0 := Lsb(input, st.p + 1, 2), State(st.p + 3, st.out);
            match BlockFetch(kind, input, s0, g)
            case None => r == None
            case Some(h) =>
              match Block(kind, input, s0)
              case None => true
              case Some(s1) => r == if Lsb(input, st.p, 1) == 1 then Some(h) else InflateFetch(input, s1, h)
  {
    hide Block, BlockFetch, BitsFetch;
    LsbUnfold(input, st.p, 1);
    LsbEmpty(input, st.p + 1);
  }

  // ---------- a stream that ends early enough is never refused ----------

  lemma CodedRefusal(lens: seq<nat>, extra: seq<nat>, first: nat, input: seq<Byte>, p: nat, f: nat)
    requires CodedFetch(lens, extra, first, input, p, f) == None
    ensures p > 8 * |input| - 16
  {
  }

  lemma CopyRefusal(lit: seq<nat>, dist: seq<nat>, input: seq<Byte>, st: State, f: nat)
    requires CopyFetch(lit, dist, input, st.p, f) == None && CopyAt(lit, dist, input, st).Some?
    ensures CopyAt(lit, dist, input, st).value.p > 8 * |input| - 16
  {
    hide CodedFetch, Symbol, Lsb;
    TablesArePositive();
    if CodedFetch(lit, LENGTH_EXTRA, 257, input, st.p, f) == None {
      CodedRefusal(lit, LENGTH_EXTRA, 257, input, st.p, f);
    } else {
      var q := Coded(lit, LENGTH_BASE, LENGTH_EXTRA, 257, input, st.p).value.1;
      CodedRefusal(dist, DIST_EXTRA, 0, input, q, CodedFetch(lit, LENGTH_EXTRA, 257, input, st.p, f).value);
    }
  }

  lemma {:induction false} TokensRefusal(lit: seq<nat>, dist: seq<nat>, input: seq<Byte>, st: State, f: nat)
    requires TokensFetch(lit, dist, input, st, f) == None && Tokens(lit, dist, input, st).Some?
    ensures Tokens(lit, dist, input, st).value.p > 8 * |input| - 16
    decreases MAX_OUT - |st.out|
  {
    hide Symbol, CopyAt, CopyFetch, CodeFetch, Tokens, TokensFetch;
    TokensCases(lit, dist, input, st);
    TokensFetchCases(lit, dist, input, st, f);
    if CodeFetch(input, st.p, f) == None {
      RefusalIsLate(input, st.p, f);
    } else {
      OutputBound(lit, dist, input, st);
      var sym := Symbol(lit, input, st.p).value;
      if sym < 256 {
        TokensRefusal(lit, dist, input, State(st.p + lit[sym], st.out + [sym]), CodeFetch(input, st.p, f).value);
      } else if sym > 256 {
        if CopyFetch(lit, dist, input, st.p, f) == None {
          CopyRefusal(lit, dist, input, st, f);
        } else {
          TokensRefusal(lit, dist, input, CopyAt(lit, dist, input, st).value,
            CopyFetch(lit, dist, input, st.p, f).value);
        }
      }
    }
  }

  /** What is decoded completely has at most as many bytes as the decoder can hold. */
  lemma OutputBound(lit: seq<nat>, dist: seq<nat>, input: seq<Byte>, st: State)
    requires Tokens(lit, dist, input, st).Some?
    ensures match Symbol(lit, input, st.p)
            case None => false
            case Some(sym) =>
              && (sym != 256 ==> |st.out| < MAX_OUT)
              && (sym > 256 ==>
                    CopyAt(lit, dist, input, st).Some? && |CopyAt(lit, dist, input, st).value.out| <= MAX_OUT)
  {
    hide Symbol, CopyAt;
  }

  lemma {:induction false} LengthsRefusal(cl: seq<nat>, input: seq<Byte>, p: nat, acc: seq<nat>, total: nat, f: nat)
    requires |acc| <= total && LengthsUpTo(acc, 15)
    requires LengthsFetch(cl, input, p, acc, total, f) == None && Lengths(cl, input, p, acc, total).Some?
    ensures Lengths(cl, input, p, acc, total).value.0 > 8 * |input| - 16
    decreases total - |acc|
  {
    hide LengthRun, RunFetch;
    LengthsCases(cl, input, p, acc, total);
    if RunFetch(cl, input, p, f) == None {
      RunRefusal(cl, input, p, f);
    } else {
      var (q, run) := LengthRun(cl, input, p, acc).value;
      LengthsRefusal(cl, input, q, acc + run, total, RunFetch(cl, input, p, f).value);
    }
  }

  lemma RunRefusal(cl: seq<nat>, input: seq<Byte>, p: nat, f: nat)
    requires RunFetch(cl, input, p, f) == None
    ensures p > 8 * |input| - 16
  {
    RefusalIsLate(input, p, f);
  }

  lemma DynamicRefusal(input: seq<Byte>, p: nat, f: nat)
    requires DynamicFetch(input, p, f) == None && DynamicTables(input, p).Some?
    ensures DynamicTables(input, p).value.p > 8 * |input| - 16
  {
    hide Lsb, Lengths, LengthsFetch, CodeLengthLengths, Kraft, CodeLengthsFetch, CountsFetch, HeaderLengths;
    HeaderBounds(input, p);
    var hlit, hdist := Lsb(input, p, 5) + 257, Lsb(input, p + 5, 5) + 1;
    var hclen := Lsb(input, p + 10, 4) + 4;
    var q := p + 14 + 3 * hclen;
    DynamicCases(input, p, hlit, hdist, q);
    LengthsRefusal(HeaderLengths(input, p), input, q, [], hlit + hdist,
      CodeLengthsFetch(p + 14, hclen, CountsFetch(p, f)));
  }

  lemma BlockRefusal(kind: nat, input: seq<Byte>, st: State, f: nat)
    requires BlockFetch(kind, input, st, f) == None && Block(kind, input, st).Some?
    ensures Block(kind, input, st).value.p > 8 * |input| - 16
  {
    hide Tokens, TokensFetch, DynamicTables, DynamicFetch, Stored, FixedLengths, FixedDistances;
    if kind == 1 {
      TokensRefusal(FixedLengths(), FixedDistances(), input, st, f);
    } else if DynamicFetch(input, st.p, f) == None {
      DynamicRefusal(input, st.p, f);
    } else {
      var t := DynamicTables(input, st.p).value;
      TokensRefusal(t.lit, t.dist, input, State(t.p, st.out), DynamicFetch(input, st.p, f).value);
    }
  }

  /** A stream that ends at least 16 bits before the end of the input is never refused. */
  lemma {:induction false} EarlyEndIsNotRefused(input: seq<Byte>, st: State, f: nat)
    requires Inflate(input, st).Some? && Inflate(input, st).value.p <= 8 * |input| - 16
    ensures InflateFetch(input, st, f).Some?
    decreases 8 * |input| - st.p
  {
    hide Block, BlockFetch, BitsFetch, Inflate, InflateFetch, Lsb;
    StreamCases(input, st);
    StreamFetchCases(input, st, f);
    var g := BitsFetch(st.p + 1, 2, BitsFetch(st.p, 1, f));
    var kind, s0 := Lsb(input, st.p + 1, 2), State(st.p + 3, st.out);
    if BlockFetch(kind, input, s0, g) == None {
      BlockRefusal(kind, input, s0, g);
    } else if Lsb(input, st.p, 1) != 1 {
      EarlyEndIsNotRefused(input, Block(kind, input, s0).value, BlockFetch(kind, input, s0, g).value);
    }
  }
}
