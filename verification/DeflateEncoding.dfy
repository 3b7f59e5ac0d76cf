/**
 The other direction of the DEFLATE reference: how a block of literals and matches is written down as bits,
 and that decoding is the inverse of writing, in both directions.
 */
module DeflateEncoding {
  import opened Wrappers
  import opened Bits
  import opened Canonical
  import opened InflateSpec
  import opened InflateCases
  import opened DeflateValues

  /** A literal byte, or a match given by its two symbols and their extra bits. */
  datatype Token = Literal(b: Byte) | Copy(lsym: nat, lx: nat, dsym: nat, dx: nat)

  // ---------- bit strings ----------

  /** The bits of v from the most significant of n on. */
  function MsbBits(v: nat, n: nat): (w: seq<nat>)
    ensures |w| == n
  {
    if n == 0 then [] else MsbBits(v / 2, n - 1) + [v % 2]
  }

  /** The low n bits of v from the least significant on. */
  function LsbBits(v: nat, n: nat): (w: seq<nat>)
    ensures |w| == n
    decreases n, v
  {
    if n == 0 then [] else [v % 2] + LsbBits(v / 2, n - 1)
  }

  /** The input contains the bit string w at position p. */
  ghost predicate Reads(input: seq<Byte>, p: nat, w: seq<nat>) {
    forall i :: 0 <= i < |w| ==> BitAt(input, p + i) == w[i]
  }

  lemma ReadsConcat(input: seq<Byte>, p: nat, v: seq<nat>, w: seq<nat>)
    ensures Reads(input, p, v + w) <==> Reads(input, p, v) && Reads(input, p + |v|, w)
  {
    hide BitAt;
    if Reads(input, p, v + w) {
      forall i | 0 <= i < |v| ensures BitAt(input, p + i) == v[i] {
        assert (v + w)[i] == v[i];
      }
      forall i | 0 <= i < |w| ensures BitAt(input, p + |v| + i) == w[i] {
        assert (v + w)[|v| + i] == w[i];
      }
    }
    if Reads(input, p, v) && Reads(input, p + |v|, w) {
      forall i | 0 <= i < |v + w| ensures BitAt(input, p + i) == (v + w)[i] {
        if i >= |v| {
          assert BitAt(input, p + |v| + (i - |v|)) == w[i - |v|];
        }
      }
    }
  }

  lemma {:induction false} ReadsMsb(input: seq<Byte>, p: nat, v: nat, n: nat)
    requires v < Pow2(n)
    ensures Reads(input, p, MsbBits(v, n)) <==> Msb(input, p, n) == v
  {
    hide BitAt, Reads;
    if n > 0 {
      ReadsMsb(input, p, v / 2, n - 1);
      ReadsConcat(input, p, MsbBits(v / 2, n - 1), [v % 2]);
      ReadsOne(input, p + n - 1, v % 2);
    } else {
      ReadsNone(input, p);
    }
  }

  lemma {:induction false} ReadsLsb(input: seq<Byte>, p: nat, v: nat, n: nat)
    requires v < Pow2(n)
    ensures Reads(input, p, LsbBits(v, n)) <==> Lsb(input, p, n) == v
    decreases n
  {
    hide BitAt, Reads;
    if n > 0 {
      ReadsLsb(input, p + 1, v / 2, n - 1);
      ReadsConcat(input, p, [v % 2], LsbBits(v / 2, n - 1));
      ReadsOne(input, p, v % 2);
      LsbUnfold(input, p, n);
    } else {
      ReadsNone(input, p);
    }
  }

  lemma ReadsOne(input: seq<Byte>, p: nat, b: nat)
    ensures Reads(input, p, [b]) <==> BitAt(input, p) == b
  {
    hide BitAt;
    if Reads(input, p, [b]) {
      assert BitAt(input, p + 0) == [b][0];
    }
  }

  lemma ReadsNone(input: seq<Byte>, p: nat)
    ensures Reads(input, p, [])
  {
  }

  // ---------- writing tokens ----------

  ghost predicate Usable(lens: seq<nat>) {
    LengthsUpTo(lens, 15) && Subscribed(lens)
  }

  predicate HasCode(lens: seq<nat>, i: nat) {
    i < |lens| && lens[i] > 0
  }

  function CodeWord(lens: seq<nat>, i: nat): seq<nat>
    requires HasCode(lens, i)
  {
    MsbBits(CodeOf(lens, i), lens[i])
  }

  /** The bits of a coded value: its symbol, then its extra bits. */
  function ValueBits(lens: seq<nat>, extra: seq<nat>, first: nat, sym: nat, x: nat): seq<nat>
    requires HasCode(lens, sym) && first <= sym < first + |extra|
  {
    CodeWord(lens, sym) + LsbBits(x, extra[sym - first])
  }

  ghost predicate ValueOk(lens: seq<nat>, extra: seq<nat>, first: nat, sym: nat, x: nat) {
    HasCode(lens, sym) && first <= sym < first + |extra| && x < Pow2(extra[sym - first])
  }

  /** Both symbols of the token have codes and its extra bits fit. */
  ghost predicate TokenOk(lit: seq<nat>, dist: seq<nat>, t: Token) {
    match t
    case Literal(b) => HasCode(lit, b)
    case Copy(lsym, lx, dsym, dx) =>
      ValueOk(lit, LengthExtras(), 257, lsym, lx) && ValueOk(dist, DistanceExtras(), 0, dsym, dx)
  }

  ghost function TokenBits(lit: seq<nat>, dist: seq<nat>, t: Token): seq<nat>
    requires TokenOk(lit, dist, t)
  {
    match t
    case Literal(b) => CodeWord(lit, b)
    case Copy(lsym, lx, dsym, dx) =>
      ValueBits(lit, LengthExtras(), 257, lsym, lx) + ValueBits(dist, DistanceExtras(), 0, dsym, dx)
  }

  ghost predicate AllOk(lit: seq<nat>, dist: seq<nat>, ts: seq<Token>) {
    HasCode(lit, 256) && forall t :: t in ts ==> TokenOk(lit, dist, t)
  }

  /** The tokens, then the end-of-block code. */
  ghost function BlockBits(lit: seq<nat>, dist: seq<nat>, ts: seq<Token>): seq<nat>
    requires AllOk(lit, dist, ts)
  {
    if ts == [] then CodeWord(lit, 256)
    else TokenBits(lit, dist, ts[0]) + BlockBits(lit, dist, ts[1..])
  }

  // ---------- what tokens mean ----------

  /** A piece of the data: a byte, or so many bytes from so far back. */
  datatype Piece = Single(b: Byte) | Match(len: nat, dist: nat)

  /** What a token stands for. */
  function PieceOf(t: Token): Piece
    requires t.Copy? ==> 257 <= t.lsym < 286
  {
    match t
    case Literal(b) => Single(b)
    case Copy(lsym, lx, dsym, dx) => Match(Length(lsym, lx), Distance(dsym, dx))
  }

  /** The output behind a piece: None if it reaches back before the output. */
  function Extended(out: seq<Byte>, p: Piece): (r: Option<seq<Byte>>)
    ensures r.Some? ==> |r.value| >= |out|
  {
    match p
    case Single(b) => Some(out + [b])
    case Match(len, dist) => if 1 <= dist <= |out| then Some(Repeated(out, dist, len)) else None
  }

  ghost function Apply(out: seq<Byte>, t: Token): (r: Option<seq<Byte>>)
    requires t.Copy? ==> 257 <= t.lsym < 286 && t.dsym < 30
    ensures r.Some? ==> |r.value| > |out|
  {
    Extended(out, PieceOf(t))
  }

  /** The output after all tokens, or None if some match reaches back before the output. */
  ghost function Meaning(out: seq<Byte>, ts: seq<Token>): (r: Option<seq<Byte>>)
    requires forall t :: t in ts && t.Copy? ==> 257 <= t.lsym < 286 && t.dsym < 30
    ensures r.Some? ==> |r.value| >= |out|
    decreases |ts|
  {
    if ts == [] then Some(out)
    else
      match Apply(out, ts[0])
      case None => None
      case Some(o) => Meaning(o, ts[1..])
  }

  // ---------- decoding what was written ----------

  lemma ReadsCodeWord(lens: seq<nat>, input: seq<Byte>, p: nat, i: nat)
    requires Usable(lens) && HasCode(lens, i)
    ensures Reads(input, p, CodeWord(lens, i)) <==> Symbol(lens, input, p) == Some(i)
    ensures |CodeWord(lens, i)| == lens[i]
  {
    hide Msb, CodeOf, Reads, Kraft;
    FitsIffKraft(lens, 15);
    RankBelow(lens, i);
    ReadsMsb(input, p, CodeOf(lens, i), lens[i]);
    if Matches(lens, input, p, i) {
      SymbolIs(lens, input, p, i);
    }
  }

  lemma ReadsValue(lens: seq<nat>, base: seq<nat>, extra: seq<nat>, first: nat, sym: nat, x: nat, input: seq<Byte>,
                   p: nat)
    requires Usable(lens) && |base| == |extra| && Positive(base) && ValueOk(lens, extra, first, sym, x)
    requires Reads(input, p, ValueBits(lens, extra, first, sym, x))
    ensures Coded(lens, base, extra, first, input, p)
         == Some((base[sym - first] + x, p + |ValueBits(lens, extra, first, sym, x)|))
  {
    hide Symbol, Reads, Lsb, Usable, CodeWord;
    ReadsConcat(input, p, CodeWord(lens, sym), LsbBits(x, extra[sym - first]));
    ReadsCodeWord(lens, input, p, sym);
    ReadsLsb(input, p + lens[sym], x, extra[sym - first]);
  }

  lemma CodedIsWritten(lens: seq<nat>, base: seq<nat>, extra: seq<nat>, first: nat, input: seq<Byte>, p: nat)
    returns (sym: nat, x: nat)
    requires Usable(lens) && |base| == |extra| && Positive(base)
    requires Coded(lens, base, extra, first, input, p).Some?
    ensures ValueOk(lens, extra, first, sym, x) && Reads(input, p, ValueBits(lens, extra, first, sym, x))
    ensures Coded(lens, base, extra, first, input, p)
         == Some((base[sym - first] + x, p + |ValueBits(lens, extra, first, sym, x)|))
  {
    hide Reads, Lsb, Usable, CodeWord;
    sym := Symbol(lens, input, p).value;
    x := Lsb(input, p + lens[sym], extra[sym - first]);
    LsbBound(input, p + lens[sym], extra[sym - first]);
    ReadsConcat(input, p, CodeWord(lens, sym), LsbBits(x, extra[sym - first]));
    ReadsCodeWord(lens, input, p, sym);
    ReadsLsb(input, p + lens[sym], x, extra[sym - first]);
  }

  lemma CopyAtIs(lit: seq<nat>, dist: seq<nat>, input: seq<Byte>, st: State, len: nat, q: nat, d: nat, q': nat)
    requires Positive(LENGTH_BASE) && Positive(DIST_BASE) && len >= 1 && d >= 1
    requires Coded(lit, LENGTH_BASE, LENGTH_EXTRA, 257, input, st.p) == Some((len, q))
    requires Coded(dist, DIST_BASE, DIST_EXTRA, 0, input, q) == Some((d, q'))
    ensures CopyAt(lit, dist, input, st)
         == if d > |st.out| then None else Some(State(q', CopyMatch(st.out, d, len)))
  {
    hide Coded, CopyMatch;
  }

  lemma CopyDecodes(lit: seq<nat>, dist: seq<nat>, t: Token, input: seq<Byte>, p: nat, out: seq<Byte>)
    requires Usable(lit) && Usable(dist) && t.Copy? && TokenOk(lit, dist, t)
    requires Reads(input, p, TokenBits(lit, dist, t))
    ensures Symbol(lit, input, p) == Some(t.lsym)
    ensures match Apply(out, t)
            case None => CopyAt(lit, dist, input, State(p, out)) == None
            case Some(o) => CopyAt(lit, dist, input, State(p, out)) == Some(State(p + |TokenBits(lit, dist, t)|, o))
  {
    hide Symbol, Reads, Usable, CopyMatch, Coded, CopyAt, TokenBits, TokenOk, HasCode, Repeated;
    hide LengthFrom, DistanceFrom, LENGTH_BASE, DIST_BASE, LENGTH_EXTRA, DIST_EXTRA;
    TablesArePositive();
    TablesAreStandard();
    var Copy(lsym, lx, dsym, dx) := t;
    var q, q' := CopyReads(lit, dist, t, input, p);
    CopyAtIs(lit, dist, input, State(p, out), Length(lsym, lx), q, Distance(dsym, dx), q');
    if Distance(dsym, dx) <= |out| {
      CopyIsRepeated(out, Distance(dsym, dx), Length(lsym, lx));
    }
  }

  /** Both values of a match are read, one behind the other. */
  lemma CopyReads(lit: seq<nat>, dist: seq<nat>, t: Token, input: seq<Byte>, p: nat) returns (q: nat, q': nat)
    requires Usable(lit) && Usable(dist) && t.Copy? && TokenOk(lit, dist, t)
    requires Reads(input, p, TokenBits(lit, dist, t)) && Positive(LENGTH_BASE) && Positive(DIST_BASE)
    requires |LENGTH_BASE| == |LENGTH_EXTRA| == 29 && |DIST_BASE| == |DIST_EXTRA| == 30
    ensures Symbol(lit, input, p) == Some(t.lsym) && 257 <= t.lsym < 286 && t.dsym < 30
    ensures Coded(lit, LENGTH_BASE, LENGTH_EXTRA, 257, input, p) == Some((LENGTH_BASE[t.lsym - 257] + t.lx, q))
    ensures Coded(dist, DIST_BASE, DIST_EXTRA, 0, input, q) == Some((DIST_BASE[t.dsym] + t.dx, q'))
    ensures q' == p + |TokenBits(lit, dist, t)|
  {
    hide Symbol, Reads, Usable, ValueBits, Coded, Pow2, HasCode, Positive;
    hide LENGTH_BASE, LENGTH_EXTRA, DIST_BASE, DIST_EXTRA, LengthExtras, DistanceExtras;
    TablesAreStandard();
    var Copy(lsym, lx, dsym, dx) := t;
    var v, w := ValueBits(lit, LENGTH_EXTRA, 257, lsym, lx), ValueBits(dist, DIST_EXTRA, 0, dsym, dx);
    ReadsConcat(input, p, v, w);
    ReadsValue(lit, LENGTH_BASE, LENGTH_EXTRA, 257, lsym, lx, input, p);
    ReadsValue(dist, DIST_BASE, DIST_EXTRA, 0, dsym, dx, input, p + |v|);
    ValueSymbol(lit, LENGTH_EXTRA, 257, lsym, lx, input, p);
    q, q' := p + |v|, p + |v| + |w|;
  }

  lemma ValueSymbol(lens: seq<nat>, extra: seq<nat>, first: nat, sym: nat, x: nat, input: seq<Byte>, p: nat)
    requires Usable(lens) && ValueOk(lens, extra, first, sym, x)
    requires Reads(input, p, ValueBits(lens, extra, first, sym, x))
    ensures Symbol(lens, input, p) == Some(sym)
  {
    hide Symbol, Reads, Usable, CodeWord;
    ReadsConcat(input, p, CodeWord(lens, sym), LsbBits(x, extra[sym - first]));
    ReadsCodeWord(lens, input, p, sym);
  }

  /** Decoding one written token. */
  lemma TokenDecodes(lit: seq<nat>, dist: seq<nat>, t: Token, input: seq<Byte>, st: State)
    requires Usable(lit) && Usable(dist) && TokenOk(lit, dist, t)
    requires Reads(input, st.p, TokenBits(lit, dist, t))
    requires Apply(st.out, t).Some? && |Apply(st.out, t).value| <= MAX_OUT
    ensures Tokens(lit, dist, input, st)
         == Tokens(lit, dist, input, State(st.p + |TokenBits(lit, dist, t)|, Apply(st.out, t).value))
  {
    hide Symbol, Reads, Usable, Tokens, CodeWord, CopyAt, CopyMatch, ValueBits, ValueOk;
    TokensCases(lit, dist, input, st);
    if t.Literal? {
      ReadsCodeWord(lit, input, st.p, t.b);
    } else {
      CopyDecodes(lit, dist, t, input, st.p, st.out);
      CopySymbolRange(lit, dist, t);
    }
  }

  lemma CopySymbolRange(lit: seq<nat>, dist: seq<nat>, t: Token)
    requires TokenOk(lit, dist, t)
    ensures t.Copy? ==> 257 <= t.lsym < 286 && t.dsym < 30
  {
  }

  /** Decoding a written block gives its meaning and stops right after it. */
  lemma {:induction false} BlockDecodes(lit: seq<nat>, dist: seq<nat>, ts: seq<Token>, input: seq<Byte>, st: State)
    requires Usable(lit) && Usable(dist) && AllOk(lit, dist, ts)
    requires Reads(input, st.p, BlockBits(lit, dist, ts))
    requires Meaning(st.out, ts).Some? && |Meaning(st.out, ts).value| <= MAX_OUT
    ensures Tokens(lit, dist, input, st)
         == Some(State(st.p + |BlockBits(lit, dist, ts)|, Meaning(st.out, ts).value))
    decreases |ts|
  {
    hide Symbol, Reads, Usable, Tokens, CodeWord, CopyAt, TokenBits, Apply, TokenOk;
    if ts == [] {
      ReadsCodeWord(lit, input, st.p, 256);
      TokensCases(lit, dist, input, st);
    } else {
      var w := TokenBits(lit, dist, ts[0]);
      CopySymbolRange(lit, dist, ts[0]);
      ReadsConcat(input, st.p, w, BlockBits(lit, dist, ts[1..]));
      TokenDecodes(lit, dist, ts[0], input, st);
      BlockDecodes(lit, dist, ts[1..], input, State(st.p + |w|, Apply(st.out, ts[0]).value));
    }
  }

  // ---------- whatever decodes was written ----------

  lemma CopyAtParts(lit: seq<nat>, dist: seq<nat>, input: seq<Byte>, st: State)
    returns (len: nat, q: nat, d: nat, q': nat)
    requires CopyAt(lit, dist, input, st).Some?
    ensures Positive(LENGTH_BASE) && Positive(DIST_BASE) && len >= 1 && 1 <= d <= |st.out|
    ensures Coded(lit, LENGTH_BASE, LENGTH_EXTRA, 257, input, st.p) == Some((len, q))
    ensures Coded(dist, DIST_BASE, DIST_EXTRA, 0, input, q) == Some((d, q'))
    ensures CopyAt(lit, dist, input, st) == Some(State(q', CopyMatch(st.out, d, len)))
  {
    hide Coded, CopyMatch;
    TablesArePositive();
    var c := Coded(lit, LENGTH_BASE, LENGTH_EXTRA, 257, input, st.p).value;
    len, q := c.0, c.1;
    c := Coded(dist, DIST_BASE, DIST_EXTRA, 0, input, q).value;
    d, q' := c.0, c.1;
  }

  lemma CopyIsWritten(lit: seq<nat>, dist: seq<nat>, input: seq<Byte>, st: State) returns (t: Token)
    requires Usable(lit) && Usable(dist) && CopyAt(lit, dist, input, st).Some?
    ensures t.Copy? && TokenOk(lit, dist, t) && Reads(input, st.p, TokenBits(lit, dist, t))
    ensures CopyAt(lit, dist, input, st).value.p == st.p + |TokenBits(lit, dist, t)|
    ensures Apply(st.out, t) == Some(CopyAt(lit, dist, input, st).value.out)
  {
    hide Symbol, Reads, Usable, ValueBits, CopyMatch, Coded, CopyAt, Pow2, CodeWord, LsbBits, HasCode;
    var len, q, d, q' := CopyAtParts(lit, dist, input, st);
    var lsym, lx := CodedIsWritten(lit, LENGTH_BASE, LENGTH_EXTRA, 257, input, st.p);
    var dsym, dx := CodedIsWritten(dist, DIST_BASE, DIST_EXTRA, 0, input, q);
    t := Copy(lsym, lx, dsym, dx);
    TablesAreStandard();
    CopyIsRepeated(st.out, d, len);
    ReadsConcat(input, st.p, ValueBits(lit, LENGTH_EXTRA, 257, lsym, lx), ValueBits(dist, DIST_EXTRA, 0, dsym, dx));
  }

  lemma TokenIsWritten(lit: seq<nat>, dist: seq<nat>, input: seq<Byte>, st: State) returns (t: Token, s1: State)
    requires Usable(lit) && Usable(dist) && Tokens(lit, dist, input, st).Some?
    requires Symbol(lit, input, st.p) != Some(256)
    ensures TokenOk(lit, dist, t) && Reads(input, st.p, TokenBits(lit, dist, t))
    ensures s1.p == st.p + |TokenBits(lit, dist, t)| && Apply(st.out, t) == Some(s1.out)
    ensures Tokens(lit, dist, input, st) == Tokens(lit, dist, input, s1) && |st.out| < |s1.out| <= MAX_OUT
  {
    hide Reads, Usable, CodeWord, CopyAt, Matches, CopyMatch, ValueBits, ValueOk;
    var sym := Symbol(lit, input, st.p).value;
    SymbolHasCode(lit, input, st.p);
    if sym < 256 {
      t, s1 := Literal(sym), State(st.p + lit[sym], st.out + [sym]);
      ReadsCodeWord(lit, input, st.p, sym);
    } else {
      t := CopyIsWritten(lit, dist, input, st);
      s1 := CopyAt(lit, dist, input, st).value;
    }
  }

  /** Whatever decodes was written: some tokens stand at the position, and they mean the decoded output. */
  lemma {:induction false} DecodedIsWritten(lit: seq<nat>, dist: seq<nat>, input: seq<Byte>, st: State)
    returns (ts: seq<Token>)
    requires Usable(lit) && Usable(dist) && Tokens(lit, dist, input, st).Some?
    ensures AllOk(lit, dist, ts) && Reads(input, st.p, BlockBits(lit, dist, ts))
    ensures Tokens(lit, dist, input, st).value.p == st.p + |BlockBits(lit, dist, ts)|
    ensures Meaning(st.out, ts) == Some(Tokens(lit, dist, input, st).value.out)
    decreases MAX_OUT - |st.out|
  {
    hide Symbol, Reads, Usable, Tokens, CodeWord, CopyAt, TokenBits, Apply, TokenOk;
    if Symbol(lit, input, st.p) == Some(256) {
      ts := [];
      TokensCases(lit, dist, input, st);
      SymbolHasCode(lit, input, st.p);
      ReadsCodeWord(lit, input, st.p, 256);
    } else {
      var t, s1 := TokenIsWritten(lit, dist, input, st);
      var rest := DecodedIsWritten(lit, dist, input, s1);
      ts := [t] + rest;
      WrittenCons(lit, dist, t, rest, input, st.p, st.out);
    }
  }

  lemma SymbolHasCode(lens: seq<nat>, input: seq<Byte>, p: nat)
    requires Symbol(lens, input, p).Some?
    ensures HasCode(lens, Symbol(lens, input, p).value)
  {
  }

  lemma WrittenCons(lit: seq<nat>, dist: seq<nat>, t: Token, rest: seq<Token>, input: seq<Byte>, p: nat, out: seq<Byte>)
    requires TokenOk(lit, dist, t) && AllOk(lit, dist, rest) && Apply(out, t).Some?
    requires Reads(input, p, TokenBits(lit, dist, t))
    requires Reads(input, p + |TokenBits(lit, dist, t)|, BlockBits(lit, dist, rest))
    ensures AllOk(lit, dist, [t] + rest) && Reads(input, p, BlockBits(lit, dist, [t] + rest))
    ensures |BlockBits(lit, dist, [t] + rest)| == |TokenBits(lit, dist, t)| + |BlockBits(lit, dist, rest)|
    ensures Meaning(out, [t] + rest) == Meaning(Apply(out, t).value, rest)
  {
    hide Reads, TokenBits, Apply;
    assert ([t] + rest)[1..] == rest;
    ReadsConcat(input, p, TokenBits(lit, dist, t), BlockBits(lit, dist, rest));
  }

  // ---------- data in pieces ----------

  function MeaningOf(out: seq<Byte>, ps: seq<Piece>): Option<seq<Byte>>
    decreases |ps|
  {
    if ps == [] then Some(out)
    else
      match Extended(out, ps[0])
      case None => None
      case Some(o) => MeaningOf(o, ps[1..])
  }

  predicate PieceOk(p: Piece) {
    p.Match? ==> 3 <= p.len <= 258 && 1 <= p.dist <= 32768
  }

  /** Every symbol that stands for something has a code, as in the fixed codes. */
  predicate Complete(lit: seq<nat>, dist: seq<nat>) {
    (forall i :: 0 <= i < 286 ==> HasCode(lit, i)) && forall i :: 0 <= i < 30 ==> HasCode(dist, i)
  }

  /** Every piece has a token. */
  lemma PieceHasToken(lit: seq<nat>, dist: seq<nat>, p: Piece) returns (t: Token)
    requires Complete(lit, dist) && PieceOk(p)
    ensures TokenOk(lit, dist, t) && PieceOf(t) == p
  {
    hide Pow2, LengthFrom, LengthBits, DistanceFrom, DistanceBits;
    match p
    case Single(b) => t := Literal(b);
    case Match(len, d) =>
      var lsym, lx := EveryLengthOnce(len);
      var dsym, dx := EveryDistanceOnce(d);
      t := Copy(lsym, lx, dsym, dx);
  }

  /** The tokens stand for the pieces. */
  ghost predicate StandFor(lit: seq<nat>, dist: seq<nat>, ts: seq<Token>, ps: seq<Piece>) {
    |ts| == |ps| && AllOk(lit, dist, ts) && forall i :: 0 <= i < |ts| ==> Stands(lit, dist, ts[i], ps[i])
  }

  ghost predicate Stands(lit: seq<nat>, dist: seq<nat>, t: Token, p: Piece) {
    TokenOk(lit, dist, t) && PieceOf(t) == p
  }

  lemma {:induction false} PiecesHaveTokens(lit: seq<nat>, dist: seq<nat>, ps: seq<Piece>) returns (ts: seq<Token>)
    requires Complete(lit, dist) && forall i :: 0 <= i < |ps| ==> PieceOk(ps[i])
    ensures StandFor(lit, dist, ts, ps)
  {
    hide TokenOk, PieceOk, PieceOf;
    if ps == [] {
      ts := [];
    } else {
      var t := PieceHasToken(lit, dist, ps[0]);
      var rest := PiecesHaveTokens(lit, dist, ps[1..]);
      ts := [t] + rest;
      assert forall i :: 1 <= i < |ts| ==> ts[i] == rest[i - 1] && ps[i] == ps[1..][i - 1];
    }
  }

  lemma {:induction false} TokensMean(lit: seq<nat>, dist: seq<nat>, ts: seq<Token>, ps: seq<Piece>, out: seq<Byte>)
    requires StandFor(lit, dist, ts, ps)
    ensures forall t :: t in ts && t.Copy? ==> 257 <= t.lsym < 286 && t.dsym < 30
    ensures Meaning(out, ts) == MeaningOf(out, ps)
    decreases |ts|
  {
    hide Extended, PieceOf;
    forall t | t in ts ensures t.Copy? ==> 257 <= t.lsym < 286 && t.dsym < 30 {
      CopySymbolRange(lit, dist, t);
    }
    if ts == [] {
    } else {
      assert Stands(lit, dist, ts[0], ps[0]);
      match Extended(out, ps[0])
      case None =>
      case Some(o) => TokensMean(lit, dist, ts[1..], ps[1..], o);
    }
  }

  /**
   Any data in pieces, with matches of 3 to 258 bytes from 1 to 32768 bytes back, can be written, and decoding what was
   written gives the data.
   */
  lemma PiecesDecode(lit: seq<nat>, dist: seq<nat>, ps: seq<Piece>, input: seq<Byte>, st: State)
    returns (ts: seq<Token>)
    requires Usable(lit) && Usable(dist) && Complete(lit, dist) && forall i :: 0 <= i < |ps| ==> PieceOk(ps[i])
    ensures StandFor(lit, dist, ts, ps)
    ensures var m := MeaningOf(st.out, ps);
            Reads(input, st.p, BlockBits(lit, dist, ts)) && m.Some? && |m.value| <= MAX_OUT ==>
              Tokens(lit, dist, input, st) == Some(State(st.p + |BlockBits(lit, dist, ts)|, m.value))
  {
    hide Reads, Usable, Complete, Tokens, BlockBits, PieceOk, MeaningOf, Meaning;
    ts := PiecesHaveTokens(lit, dist, ps);
    TokensMean(lit, dist, ts, ps, st.out);
    var m := MeaningOf(st.out, ps);
    if Reads(input, st.p, BlockBits(lit, dist, ts)) && m.Some? && |m.value| <= MAX_OUT {
      BlockDecodes(lit, dist, ts, input, st);
    }
  }
}
