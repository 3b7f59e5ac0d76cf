/** UTF-8 as the library writes it: shortest forms of the numbers up to 0x1FFFFF (lib/utf8.h, utf8catcodepoint). */
module Utf8Spec {
  import opened Bits

  const LIMIT: nat := 0x20_0000

  predicate IsCodepoint(c: int) {
    1 <= c < LIMIT
  }

  predicate AreCodepoints(cs: seq<nat>) {
    forall i :: 0 <= i < |cs| ==> IsCodepoint(cs[i])
  }

  /** The last six bits as a continuation byte. */
  function Tail(c: nat): (b: Byte)
    ensures IsContinuation(b)
  {
    0x80 + c % 0x40
  }

  /** The bytes of a code point. */
  function Encode(c: nat): (r: seq<Byte>)
    requires c < LIMIT
    ensures 1 <= |r| <= 4
  {
    if c < 0x80 then [c]
    else if c < 0x800 then [0xC0 + c / 0x40, Tail(c)]
    else if c < 0x1_0000 then [0xE0 + c / 0x40 / 0x40, Tail(c / 0x40), Tail(c)]
    else [0xF0 + c / 0x40 / 0x40 / 0x40, Tail(c / 0x40 / 0x40), Tail(c / 0x40), Tail(c)]
  }

  /** The text of a sequence of code points. */
  function EncodeAll(cs: seq<nat>): seq<Byte>
    requires AreCodepoints(cs)
  {
    if cs == [] then [] else Encode(cs[0]) + EncodeAll(cs[1..])
  }

  // ---------- reading ----------

  predicate IsContinuation(b: Byte) {
    0x80 <= b < 0xC0
  }

  /** The length that the first byte announces: 0 for a byte that cannot be first. */
  function Announced(b: Byte): (n: nat)
    ensures n <= 4
  {
    if 0xF0 <= b < 0xF8 then 4
    else if 0xE0 <= b < 0xF0 then 3
    else if 0xC0 <= b < 0xE0 then 2
    else if b < 0x80 then 1
    else 0
  }

  /** The text starts with a first byte and as many continuation bytes as it announces. */
  predicate Complete(s: seq<Byte>) {
    && s != [] && 1 <= Announced(s[0]) <= |s|
    && forall k :: 1 <= k < Announced(s[0]) ==> IsContinuation(s[k])
  }

  /** Six more bits, from a continuation byte. */
  function Six(v: nat, b: Byte): nat {
    v * 0x40 + b % 0x40
  }

  /** The number in the bits of the first character. */
  function Value(s: seq<Byte>): (c: nat)
    requires Complete(s)
    ensures c < LIMIT
  {
    var n := Announced(s[0]);
    if n == 4 then Six(Six(Six(s[0] % 8, s[1]), s[2]), s[3])
    else if n == 3 then Six(Six(s[0] % 0x10, s[1]), s[2])
    else if n == 2 then Six(s[0] % 0x20, s[1])
    else s[0]
  }

  /** The bytes that reading at a first byte takes. */
  function Taken(b: Byte): (n: nat)
    ensures 1 <= n <= 4
  {
    if Announced(b) == 0 then 1 else Announced(b)
  }

  /**
   The number read at any byte, also where no complete character stands: the masked bits of the bytes taken, or the byte
   itself, which is negative from 0x80 on if characters are signed.
   */
  function Masked(s: seq<Byte>, signedChars: bool): int
    requires s != [] && Taken(s[0]) <= |s|
  {
    var n := Announced(s[0]);
    if n == 4 then Six(Six(Six(s[0] % 8, s[1]), s[2]), s[3])
    else if n == 3 then Six(Six(s[0] % 0x10, s[1]), s[2])
    else if n == 2 then Six(s[0] % 0x20, s[1])
    else if signedChars && s[0] >= 0x80 then s[0] as int - 0x100
    else s[0]
  }

  /** The first character is in its shortest form. */
  predicate Shortest(s: seq<Byte>)
    requires Complete(s)
  {
    |Encode(Value(s))| == Announced(s[0])
  }

  /** Text in shortest forms, without NUL. */
  predicate WellFormed(s: seq<Byte>) {
    s == [] || (Complete(s) && Shortest(s) && Value(s) != 0 && WellFormed(s[Announced(s[0])..]))
  }

  function Decode(s: seq<Byte>): (cs: seq<nat>)
    requires WellFormed(s)
    ensures AreCodepoints(cs)
  {
    if s == [] then [] else [Value(s)] + Decode(s[Announced(s[0])..])
  }

  // ---------- writing and reading are inverse ----------

  lemma EncodeLength(c: nat)
    requires c < LIMIT
    ensures |Encode(c)| == if c < 0x80 then 1 else if c < 0x800 then 2 else if c < 0x1_0000 then 3 else 4
  {
  }

  lemma SixOfTail(c: nat)
    ensures Six(c / 0x40, Tail(c)) == c
  {
  }

  lemma SixDigits(v: nat, b: Byte)
    requires IsContinuation(b)
    ensures Six(v, b) / 0x40 == v && Tail(Six(v, b)) == b
  {
  }

  lemma EncodeReads(c: nat, rest: seq<Byte>)
    requires c < LIMIT
    ensures var s := Encode(c) + rest;
            Complete(s) && Value(s) == c && Announced(s[0]) == |Encode(c)| && s[Announced(s[0])..] == rest
  {
    hide Six, Tail;
    var s := Encode(c) + rest;
    SixOfTail(c);
    SixOfTail(c / 0x40);
    SixOfTail(c / 0x40 / 0x40);
    if c < 0x80 {
      assert s[0] == c;
    } else if c < 0x800 {
      assert s[0] == 0xC0 + c / 0x40 && s[1] == Tail(c);
    } else if c < 0x1_0000 {
      assert s[0] == 0xE0 + c / 0x40 / 0x40 && s[1] == Tail(c / 0x40) && s[2] == Tail(c);
    } else {
      assert s[0] == 0xF0 + c / 0x40 / 0x40 / 0x40 && s[1] == Tail(c / 0x40 / 0x40) && s[2] == Tail(c / 0x40) &&
        s[3] == Tail(c);
    }
  }

  lemma ReadEncodes(s: seq<Byte>)
    requires Complete(s) && Shortest(s)
    ensures s[..Announced(s[0])] == Encode(Value(s))
  {
    hide Six, Tail;
    var n, c := Announced(s[0]), Value(s);
    if n == 4 {
      SixDigits(s[0] % 8, s[1]);
      SixDigits(Six(s[0] % 8, s[1]), s[2]);
      SixDigits(Six(Six(s[0] % 8, s[1]), s[2]), s[3]);
    } else if n == 3 {
      SixDigits(s[0] % 0x10, s[1]);
      SixDigits(Six(s[0] % 0x10, s[1]), s[2]);
    } else if n == 2 {
      SixDigits(s[0] % 0x20, s[1]);
    }
  }

  /** What is written for code points other than NUL is well-formed, and reading it gives them back. */
  lemma {:induction false} DecodeEncoded(cs: seq<nat>)
    requires AreCodepoints(cs)
    ensures WellFormed(EncodeAll(cs)) && Decode(EncodeAll(cs)) == cs
  {
    hide Encode, Value, Complete, Announced;
    if cs == [] {
    } else {
      DecodeEncoded(cs[1..]);
      EncodeReads(cs[0], EncodeAll(cs[1..]));
    }
  }

  /** Well-formed text is what is written for the code points read from it. */
  lemma {:induction false} EncodeDecoded(s: seq<Byte>)
    requires WellFormed(s)
    ensures EncodeAll(Decode(s)) == s
    decreases |s|
  {
    hide Encode, Value;
    if s == [] {
    } else {
      EncodeDecoded(s[Announced(s[0])..]);
      ReadEncodes(s);
      assert s == s[..Announced(s[0])] + s[Announced(s[0])..];
    }
  }

  /** Well-formed is exactly: the text of some sequence of code points from 1 to 0x1FFFFF. */
  lemma WellFormedIff(s: seq<Byte>)
    ensures WellFormed(s) <==> exists cs :: AreCodepoints(cs) && EncodeAll(cs) == s
  {
    hide WellFormed, Decode, EncodeAll;
    if WellFormed(s) {
      EncodeDecoded(s);
    }
    forall cs | AreCodepoints(cs) && EncodeAll(cs) == s ensures WellFormed(s) {
      DecodeEncoded(cs);
    }
  }

  lemma {:induction false} WellFormedConcat(s: seq<Byte>, t: seq<Byte>)
    requires WellFormed(s)
    ensures WellFormed(s + t) <==> WellFormed(t)
    decreases |s|
  {
    hide Encode, Value;
    if s == [] {
      assert s + t == t;
    } else {
      var n := Announced(s[0]);
      WellFormedConcat(s[n..], t);
      assert (s + t)[n..] == s[n..] + t;
      SameFirst(s, s + t);
    }
  }

  /** The first character depends on its own bytes only. */
  lemma SameFirst(s: seq<Byte>, t: seq<Byte>)
    requires Complete(s) && |t| >= Announced(s[0]) && t[..Announced(s[0])] == s[..Announced(s[0])]
    ensures Complete(t) && Announced(t[0]) == Announced(s[0]) && Value(t) == Value(s)
  {
    var n := Announced(s[0]);
    assert forall k :: 0 <= k < n ==> t[k] == t[..n][k] == s[k];
  }

  // ---------- order ----------

  /** The order of texts byte by byte. */
  predicate Below(s: seq<Byte>, t: seq<Byte>) {
    t != [] && (s == [] || s[0] < t[0] || (s[0] == t[0] && Below(s[1..], t[1..])))
  }

  lemma BelowAt(s: seq<Byte>, t: seq<Byte>)
    requires s != [] && t != [] && s[0] < t[0]
    ensures Below(s, t)
  {
  }

  lemma BelowBehind(s: seq<Byte>, t: seq<Byte>, b: Byte)
    requires Below(s, t)
    ensures Below([b] + s, [b] + t)
  {
    assert ([b] + s)[1..] == s && ([b] + t)[1..] == t;
  }

  lemma {:induction false} BelowPrefix(p: seq<Byte>, s: seq<Byte>, t: seq<Byte>)
    requires Below(s, t)
    ensures Below(p + s, p + t)
  {
    if p == [] {
      assert p + s == s && p + t == t;
    } else {
      BelowPrefix(p[1..], s, t);
      BelowBehind(p[1..] + s, p[1..] + t, p[0]);
      assert p + s == [p[0]] + (p[1..] + s) && p + t == [p[0]] + (p[1..] + t);
    }
  }

  lemma {:induction false} BelowMore(s: seq<Byte>, t: seq<Byte>, v: seq<Byte>, w: seq<Byte>)
    requires Below(s, t) && |s| == |t|
    ensures Below(s + v, t + w)
    decreases |s|
  {
    if s[0] < t[0] {
    } else {
      BelowMore(s[1..], t[1..], v, w);
      assert (s + v)[1..] == s[1..] + v && (t + w)[1..] == t[1..] + w;
    }
  }

  /** The first byte has room for what is left of the number when the last k bytes have taken six bits each. */
  predicate HasRoom(lead: nat, c: nat, k: nat) {
    if k == 0 then lead + c < 256 else HasRoom(lead, c / 0x40, k - 1)
  }

  function Form(lead: nat, c: nat, k: nat): (r: seq<Byte>)
    requires HasRoom(lead, c, k)
    ensures |r| == k + 1
  {
    if k == 0 then [lead + c] else Form(lead, c / 0x40, k - 1) + [Tail(c)]
  }

  lemma {:induction false} FormKeepsOrder(lead: nat, a: nat, b: nat, k: nat)
    requires HasRoom(lead, a, k) && HasRoom(lead, b, k) && a < b
    ensures Below(Form(lead, a, k), Form(lead, b, k))
    decreases k
  {
    hide Below, Tail;
    if k == 0 {
      BelowAt([lead + a], [lead + b]);
    } else if a / 0x40 < b / 0x40 {
      FormKeepsOrder(lead, a / 0x40, b / 0x40, k - 1);
      BelowMore(Form(lead, a / 0x40, k - 1), Form(lead, b / 0x40, k - 1), [Tail(a)], [Tail(b)]);
    } else {
      LastOrdered(a, b);
      BelowPrefix(Form(lead, a / 0x40, k - 1), [Tail(a)], [Tail(b)]);
    }
  }

  lemma LastOrdered(a: nat, b: nat)
    requires a / 0x40 == b / 0x40 && a < b
    ensures Below([Tail(a)], [Tail(b)])
  {
  }

  /** The first byte of a text of k + 1 bytes, without its share of the number. */
  function Lead(k: nat): nat {
    if k == 0 then 0 else if k == 1 then 0xC0 else if k == 2 then 0xE0 else 0xF0
  }

  lemma EncodeIsForm(c: nat)
    requires c < LIMIT
    ensures var k := |Encode(c)| - 1; HasRoom(Lead(k), c, k) && Encode(c) == Form(Lead(k), c, k)
  {
    if c < 0x80 {
    } else if c < 0x800 {
      assert HasRoom(0xC0, c / 0x40, 0);
    } else if c < 0x1_0000 {
      assert HasRoom(0xE0, c / 0x40 / 0x40, 0) && HasRoom(0xE0, c / 0x40, 1);
      assert Form(0xE0, c / 0x40, 1) == [0xE0 + c / 0x40 / 0x40, Tail(c / 0x40)];
    } else {
      var d := c / 0x40;
      assert HasRoom(0xF0, d / 0x40 / 0x40, 0) && HasRoom(0xF0, d / 0x40, 1) && HasRoom(0xF0, d, 2);
      assert Form(0xF0, d / 0x40, 1) == [0xF0 + d / 0x40 / 0x40, Tail(d / 0x40)];
      assert Form(0xF0, d, 2) == [0xF0 + d / 0x40 / 0x40, Tail(d / 0x40), Tail(d)];
    }
  }

  /** The order of code points is the order of their texts: with the lengths, this leaves no other choice of bytes. */
  lemma EncodeKeepsOrder(a: nat, b: nat)
    requires a < b < LIMIT
    ensures Below(Encode(a), Encode(b))
  {
    hide Below, Form, HasRoom;
    EncodeIsForm(a);
    EncodeIsForm(b);
    EncodeLength(a);
    EncodeLength(b);
    if |Encode(a)| < |Encode(b)| {
      ShorterIsBelow(a, b);
    } else {
      FormKeepsOrder(Lead(|Encode(a)| - 1), a, b, |Encode(a)| - 1);
    }
  }

  lemma ShorterIsBelow(a: nat, b: nat)
    requires a < b < LIMIT && |Encode(a)| < |Encode(b)|
    ensures Below(Encode(a), Encode(b))
  {
    hide Below;
    BelowAt(Encode(a), Encode(b));
  }
}
