/**
 Reference semantics of DEFLATE (RFC 1951) over bit positions of a zero-padded input.
 No bit buffer, no tables: a symbol is decoded by asking whose canonical code the bits spell.
 */
module InflateSpec {
  import opened Wrappers
  import opened Bits
  import opened Canonical

  /** A bit position and the bytes produced so far. */
  datatype State = State(p: nat, out: seq<Byte>)

  /** Output positions are 32-bit unsigned in the decoder. */
  const MAX_OUT: nat := 0xFFFF_FFFF

  const LENGTH_BASE: seq<nat> :=
    [3, 4, 5, 6, 7, 8, 9, 10, 11, 13, 15, 17, 19, 23, 27, 31, 35, 43, 51, 59,
     67, 83, 99, 115, 131, 163, 195, 227, 258]
  const LENGTH_EXTRA: seq<nat> :=
    [0, 0, 0, 0, 0, 0, 0, 0, 1, 1, 1, 1, 2, 2, 2, 2, 3, 3, 3, 3, 4, 4, 4, 4, 5, 5, 5, 5, 0]
  const DIST_BASE: seq<nat> :=
    [1, 2, 3, 4, 5, 7, 9, 13, 17, 25, 33, 49, 65, 97, 129, 193,
     257, 385, 513, 769, 1025, 1537, 2049, 3073, 4097, 6145, 8193, 12289, 16385, 24577]
  const DIST_EXTRA: seq<nat> :=
    [0, 0, 0, 0, 1, 1, 2, 2, 3, 3, 4, 4, 5, 5, 6, 6, 7, 7, 8, 8, 9, 9, 10, 10, 11, 11, 12, 12, 13, 13]
  const DEZIGZAG: seq<nat> := [16, 17, 18, 0, 8, 7, 9, 6, 10, 5, 11, 4, 12, 3, 13, 2, 14, 1, 15]

  function FixedLength(i: nat): nat {
    if i <= 143 then 8 else if i <= 255 then 9 else if i <= 279 then 7 else 8
  }

  /** The code lengths of the fixed literal/length code (section 3.2.6). */
  function FixedLengths(): seq<nat> {
    seq(288, i requires 0 <= i => FixedLength(i))
  }

  function FixedDistances(): seq<nat> {
    seq(32, _ => 5)
  }

  // ---------- symbols ----------

  /** The bits at p start with the canonical code of symbol i. */
  ghost predicate Matches(lens: seq<nat>, input: seq<Byte>, p: nat, i: nat) {
    i < |lens| && lens[i] > 0 && Msb(input, p, lens[i]) == CodeOf(lens, i)
  }

  ghost function Symbol(lens: seq<nat>, input: seq<Byte>, p: nat): (r: Option<nat>)
    ensures r.Some? ==> Matches(lens, input, p, r.value)
    ensures r.None? ==> forall i: nat :: !Matches(lens, input, p, i)
  {
    if exists i: nat :: Matches(lens, input, p, i) then
      var i: nat :| Matches(lens, input, p, i);
      Some(i)
    else None
  }

  lemma MatchUnique(lens: seq<nat>, input: seq<Byte>, p: nat, i: nat, j: nat)
    requires Matches(lens, input, p, i) && Matches(lens, input, p, j)
    ensures i == j
  {
    var a, b := lens[i], lens[j];
    if a <= b {
      MsbSplit(input, p, a, b - a);
      MsbBound(input, p + a, b - a);
      PrefixFree(lens, i, j, Msb(input, p + a, b - a));
    } else {
      MsbSplit(input, p, b, a - b);
      MsbBound(input, p + b, a - b);
      PrefixFree(lens, j, i, Msb(input, p + b, a - b));
    }
  }

  lemma SymbolIs(lens: seq<nat>, input: seq<Byte>, p: nat, i: nat)
    requires Matches(lens, input, p, i)
    ensures Symbol(lens, input, p) == Some(i)
  {
    hide Matches;
    var r := Symbol(lens, input, p);
    if r.Some? {
      MatchUnique(lens, input, p, i, r.value);
    }
  }

  // ---------- one block of literals and matches ----------

  /** A match copies len bytes from dist bytes back; the source may run into the bytes being written. */
  function CopyMatch(out: seq<Byte>, dist: nat, len: nat): (r: seq<Byte>)
    requires 1 <= dist <= |out|
    ensures |r| == |out| + len && out <= r
    decreases len
  {
    if len == 0 then out else CopyMatch(out + [out[|out| - dist]], dist, len - 1)
  }

  predicate Positive(base: seq<nat>) {
    forall i :: 0 <= i < |base| ==> base[i] >= 1
  }

  lemma TablesArePositive()
    ensures Positive(LENGTH_BASE) && |LENGTH_BASE| == |LENGTH_EXTRA| == 29
    ensures Positive(DIST_BASE) && |DIST_BASE| == |DIST_EXTRA| == 30
  {
  }

  /** The next symbol, and its extra bits, as a (length or distance) value and the position after them. */
  ghost function Coded(lens: seq<nat>, base: seq<nat>, extra: seq<nat>, first: nat, input: seq<Byte>, p: nat)
    : (r: Option<(nat, nat)>)
    requires |base| == |extra| && Positive(base)
    ensures r.Some? ==> r.value.0 >= 1 && r.value.1 > p
  {
    match Symbol(lens, input, p)
    case None => None
    case Some(i) =>
      if i < first || i - first >= |base| then None
      else
        var q := p + lens[i];
        Some((base[i - first] + Lsb(input, q, extra[i - first]), q + extra[i - first]))
  }

  /** Decoding from bit p up to and including the end-of-block symbol (section 3.2.3). */
  ghost function Tokens(lit: seq<nat>, dist: seq<nat>, input: seq<Byte>, st: State): (r: Option<State>)
    ensures r.Some? ==> r.value.p > st.p && st.out <= r.value.out
    decreases MAX_OUT - |st.out|
  {
    match Symbol(lit, input, st.p)
    case None => None
    case Some(sym) =>
      var p := st.p + lit[sym];
      if sym == 256 then Some(State(p, st.out))
      else if |st.out| >= MAX_OUT then None
      else if sym < 256 then Tokens(lit, dist, input, State(p, st.out + [sym]))
      else Match(lit, dist, input, st)
  }

  ghost function Match(lit: seq<nat>, dist: seq<nat>, input: seq<Byte>, st: State): (r: Option<State>)
    requires |st.out| < MAX_OUT
    ensures r.Some? ==> r.value.p > st.p && st.out <= r.value.out
    decreases MAX_OUT - |st.out|, 0
  {
    match CopyAt(lit, dist, input, st)
    case None => None
    case Some(s1) => if |s1.out| > MAX_OUT then None else Tokens(lit, dist, input, s1)
  }

  /** One length/distance pair. */
  ghost function CopyAt(lit: seq<nat>, dist: seq<nat>, input: seq<Byte>, st: State): (r: Option<State>)
    ensures r.Some? ==> r.value.p > st.p && st.out <= r.value.out && |r.value.out| > |st.out|
  {
    TablesArePositive();
    match Coded(lit, LENGTH_BASE, LENGTH_EXTRA, 257, input, st.p)
    case None => None
    case Some((len, q)) =>
      match Coded(dist, DIST_BASE, DIST_EXTRA, 0, input, q)
      case None => None
      case Some((d, q')) =>
        if d > |st.out| then None else Some(State(q', CopyMatch(st.out, d, len)))
  }

  // ---------- stored blocks ----------

  ghost function Stored(input: seq<Byte>, st: State): (r: Option<State>)
    ensures r.Some? ==> r.value.p >= st.p && st.out <= r.value.out
  {
    var q := (st.p + 7) / 8;
    var len := ByteAt(input, q) + 256 * ByteAt(input, q + 1);
    var nlen := ByteAt(input, q + 2) + 256 * ByteAt(input, q + 3);
    if nlen != 0xFFFF - len || q + 4 + len > |input| || |st.out| + len > MAX_OUT then None
    else Some(State(8 * (q + 4 + len), st.out + input[q + 4..q + 4 + len]))
  }

  // ---------- dynamic tables (section 3.2.7) ----------

  /** The lengths of the code length code, in the order of the alphabet. */
  ghost function CodeLengthLengths(input: seq<Byte>, p: nat, n: nat): (r: seq<nat>)
    requires n <= 19
    ensures |r| == 19 && forall i :: 0 <= i < 19 ==> r[i] <= 7
  {
    if n == 0 then seq(19, _ => 0)
    else
      Pow2Table();
      LsbBound(input, p + 3 * (n - 1), 3);
      CodeLengthLengths(input, p, n - 1)[DEZIGZAG[n - 1] := Lsb(input, p + 3 * (n - 1), 3)]
  }

  /** The run-length coded list of total code lengths. */
  ghost function Lengths(cl: seq<nat>, input: seq<Byte>, p: nat, acc: seq<nat>, total: nat)
    : (r: Option<(nat, seq<nat>)>)
    requires |acc| <= total && LengthsUpTo(acc, 15)
    ensures r.Some? ==> r.value.0 >= p && |r.value.1| == total && LengthsUpTo(r.value.1, 15)
    decreases total - |acc|
  {
    if |acc| == total then Some((p, acc))
    else
      match LengthRun(cl, input, p, acc)
      case None => None
      case Some((q, run)) =>
        if |run| > total - |acc| then None else Lengths(cl, input, q, acc + run, total)
  }

  /** One code length symbol: a length, or a run of earlier or zero lengths. */
  ghost function LengthRun(cl: seq<nat>, input: seq<Byte>, p: nat, acc: seq<nat>): (r: Option<(nat, seq<nat>)>)
    requires LengthsUpTo(acc, 15)
    ensures r.Some? ==> r.value.0 >= p && |r.value.1| >= 1 && LengthsUpTo(r.value.1, 15)
  {
    match Symbol(cl, input, p)
    case None => None
    case Some(c) =>
      var q := p + cl[c];
      if c < 16 then Some((q, [c]))
      else if c == 16 then
        if acc == [] then None else Some((q + 2, Repeat(acc[|acc| - 1], Lsb(input, q, 2) + 3)))
      else if c == 17 then Some((q + 3, Repeat(0, Lsb(input, q, 3) + 3)))
      else if c == 18 then Some((q + 7, Repeat(0, Lsb(input, q, 7) + 11)))
      else None
  }

  datatype Tables = Tables(p: nat, lit: seq<nat>, dist: seq<nat>)

  ghost predicate Subscribed(lens: seq<nat>) {
    Kraft(lens, 15) <= Pow2(15)
  }

  /** The two codes a dynamic block defines, and the position after its header. */
  ghost function DynamicTables(input: seq<Byte>, p: nat): (r: Option<Tables>)
    ensures r.Some? ==> r.value.p >= p
  {
    Pow2Table();
    LsbBound(input, p, 5);
    LsbBound(input, p + 5, 5);
    LsbBound(input, p + 10, 4);
    var hlit, hdist := Lsb(input, p, 5) + 257, Lsb(input, p + 5, 5) + 1;
    var hclen := Lsb(input, p + 10, 4) + 4;
    var cl := CodeLengthLengths(input, p + 14, hclen);
    if !Subscribed(cl) then None
    else
      match Lengths(cl, input, p + 14 + 3 * hclen, [], hlit + hdist)
      case None => None
      case Some((q, lens)) =>
        if !Subscribed(lens[..hlit]) || !Subscribed(lens[hlit..]) then None
        else Some(Tables(q, lens[..hlit], lens[hlit..]))
  }

  // ---------- the whole stream ----------

  ghost function Block(kind: nat, input: seq<Byte>, st: State): (r: Option<State>)
    ensures r.Some? ==> r.value.p >= st.p && st.out <= r.value.out
  {
    if kind == 0 then Stored(input, st)
    else if kind == 1 then Tokens(FixedLengths(), FixedDistances(), input, st)
    else if kind == 2 then
      match DynamicTables(input, st.p)
      case None => None
      case Some(t) => Tokens(t.lit, t.dist, input, State(t.p, st.out))
    else None
  }

  /** Blocks up to and including the first one marked final. */
  ghost function Inflate(input: seq<Byte>, st: State): (r: Option<State>)
    ensures r.Some? ==> r.value.p >= st.p && st.out <= r.value.out
    decreases 8 * |input| - st.p
  {
    if st.p >= 8 * |input| then None
    else
      match Block(Lsb(input, st.p + 1, 2), input, State(st.p + 3, st.out))
      case None => None
      case Some(s1) => if BitAt(input, st.p) == 1 then Some(s1) else Inflate(input, s1)
  }

  /** The two-byte zlib header (RFC 1950, section 2.2): deflate, no preset dictionary, valid check. */
  ghost predicate ZlibHeader(input: seq<Byte>) {
    && |input| > 2
    && var cmf: int, flg: int := input[0], input[1];
    && (256 * cmf + flg) % 31 == 0
    && flg / 32 % 2 == 0
    && cmf % 16 == 8
  }
}
