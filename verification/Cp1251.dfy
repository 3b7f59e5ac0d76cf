/** The CP1251 codec (lib/encoding.h). */
module Cp1251 {
  import opened Wrappers
  import opened Bits
  import opened Utf8Spec
  import opened Cp1251Tables

  const QUESTION: Byte := 0x3F

  // ---------- to UTF-8 ----------

  /** The bytes of one character; none for the byte that stands for no character. */
  function CharBytes(b: Byte): (r: seq<Byte>) {
    if b < 0x80 then [b]
    else
      var v := ToUtf8(b - 0x80);
      if v == 0 then []
      else [v % 0x100, v / 0x100 % 0x100] + if v / 0x1_0000 != 0 then [v / 0x1_0000 % 0x100] else []
  }

  function ToText(s: seq<Byte>): seq<Byte> {
    if s == [] then [] else CharBytes(s[0]) + ToText(s[1..])
  }

  method Cp1251ToUtf8(input: seq<Byte>) returns (result: seq<Byte>)
    ensures result == ToText(input)
  {
    hide ToText, CharBytes;
    result := [];
    var i := 0;
    assert input[0..] == input;
    while i < |input|
      invariant i <= |input| && ToText(input) == result + ToText(input[i..])
    {
      TextStep(input, i);
      result := PushChar(result, input[i]);
      i := i + 1;
    }
    assert input[i..] == [];
    NoText();
  }

  lemma NoText()
    ensures ToText([]) == []
  {
  }

  lemma TextStep(s: seq<Byte>, i: nat)
    requires i < |s|
    ensures ToText(s[i..]) == CharBytes(s[i]) + ToText(s[i + 1..])
  {
    hide CharBytes;
    assert s[i..][1..] == s[i + 1..];
  }

  /** Appends the bytes of one character. */
  method PushChar(text: seq<Byte>, b: Byte) returns (result: seq<Byte>)
    ensures result == text + CharBytes(b)
  {
    hide ToUtf8;
    result := text;
    if b >= 0x80 {
      var v := ToUtf8(b % 0x80);
      if v == 0 {
        return;
      }
      result := result + [v % 0x100];
      result := result + [v / 0x100 % 0x100];
      v := v / 0x1_0000;
      if v != 0 {
        result := result + [v % 0x100];
      }
    } else {
      result := result + [b];
    }
  }

  // ---------- from UTF-8 ----------

  /** The byte of a character, or a question mark. */
  function ByteFor(v: int): Byte {
    match FromUtf8(v)
    case None => QUESTION
    case Some(b) => b
  }

  /** Up to three bytes as a number, the first one lowest. */
  function Joined(a: int, b: int, c: int): int {
    c * 0x1_0000 + b * 0x100 + a
  }

  /** What is read from a text: ASCII and the characters of the table; everything else as question marks. */
  function FromText(t: seq<Byte>): seq<Byte>
    decreases |t|
  {
    if t == [] then []
    else if t[0] < 0x80 then [t[0]] + FromText(t[1..])
    else if 0xC0 <= t[0] < 0xE0 then
      if |t| < 2 then [QUESTION] else [ByteFor(Joined(t[0], t[1], 0))] + FromText(t[2..])
    else if 0xE0 <= t[0] < 0xF0 then
      if |t| < 3 then [QUESTION] else [ByteFor(Joined(t[0], t[1], t[2]))] + FromText(t[3..])
    else if 0xF0 <= t[0] < 0xF8 then
      if |t| < 4 then [QUESTION] else [QUESTION] + FromText(t[4..])
    else [QUESTION] + FromText(t[1..])
  }

  /** A single byte that announces two more makes the length test wrap, and memory behind the text is read. */
  predicate ReadsBeyond(t: seq<Byte>) {
    |t| == 1 && 0xE0 <= t[0] < 0xF0
  }

  /** Size arithmetic modulo 2^64. */
  function Minus(size: nat, n: nat): nat
    requires n <= 3
  {
    if size >= n then size - n else size - n + 0x1_0000_0000_0000_0000
  }

  lemma MinusIs(size: nat, n: nat, i: nat)
    requires n <= 3 && i < size < 0x1_0000_0000_0000_0000
    ensures i >= Minus(size, n) <==> n <= size && size - i <= n
  {
  }

  /** The length test of a character of n + 1 bytes lets it pass although its last byte is behind the text. */
  predicate PassesTooShort(t: seq<Byte>, i: nat, n: nat)
    requires n <= 3
  {
    i < Minus(|t|, n) && i + n >= |t|
  }

  /**
   Memory behind the text is read exactly for the texts of ReadsBeyond: by the three-byte branch at the only byte, and
   never by the two-byte branch. The four-byte branch reads nothing; where its test lets a short text pass, the loop
   ends as it would have.
   */
  lemma ReadsBeyondIff(t: seq<Byte>, i: nat)
    requires i < |t| < 0x1_0000_0000_0000_0000
    ensures 0xE0 <= t[i] < 0xF0 ==> (PassesTooShort(t, i, 2) <==> ReadsBeyond(t))
    ensures !PassesTooShort(t, i, 1)
    ensures PassesTooShort(t, i, 3) <==> |t| < 3
  {
    hide Minus;
    MinusIs(|t|, 1, i);
    MinusIs(|t|, 2, i);
    MinusIs(|t|, 3, i);
  }

  /** Two such texts; for the second, the result depends on what is behind it. */
  lemma BehindMatters()
    ensures ReadsBeyond([0xE0]) && PassesTooShort([0xE0], 0, 2)
    ensures ReadsBeyond([0xE2]) && FromText([0xE2]) == [QUESTION]
    ensures ByteFor(Joined(0xE2, 0x80, 0x9A)) == 0x82 && ByteFor(Joined(0xE2, 0, 0)) == QUESTION
  {
  }

  /**
   Converts the first size bytes of the memory. The result is that of the text, except that a text of ReadsBeyond is
   converted together with the two bytes behind it, if the memory has them.
   */
  method Utf8ToCp1251(memory: seq<Byte>, size: nat) returns (result: seq<Byte>)
    requires size <= |memory| && size < 0x1_0000_0000_0000_0000
    requires ReadsBeyond(memory[..size]) ==> |memory| >= 3
    ensures !ReadsBeyond(memory[..size]) ==> result == FromText(memory[..size])
    ensures ReadsBeyond(memory[..size]) ==> result == [ByteFor(Joined(memory[0], memory[1], memory[2]))]
  {
    hide FromText, ByteFor;
    result := [];
    var i: nat := 0;
    ghost var t := memory[..size];
    assert t[0..] == t;
    EmptyText();
    while i < size
      invariant !ReadsBeyond(t) ==> FromText(t) == result + if i <= size then FromText(t[i..]) else []
      invariant ReadsBeyond(t) && i > 0 ==> i > size && result == [ByteFor(Joined(memory[0], memory[1], memory[2]))]
      invariant i == 0 ==> result == []
      decreases size - i
    {
      var b, skipped, last := ReadChar(memory, size, i);
      result := result + [b];
      if last {
        break;
      }
      i := i + skipped;
      i := i + 1;
    }
    assert i == size ==> t[i..] == [];
  }

  lemma EmptyText()
    ensures FromText([]) == []
  {
  }

  function AnnouncedSize(b: Byte): nat {
    if 0xC0 <= b < 0xE0 then 2 else if 0xE0 <= b < 0xF0 then 3 else if 0xF0 <= b < 0xF8 then 4 else 1
  }

  /** The text from i on, one character at a time. */
  lemma TextAt(t: seq<Byte>, i: nat)
    requires i < |t|
    ensures var n := AnnouncedSize(t[i]);
            FromText(t[i..]) ==
            if i + n > |t| then [QUESTION]
            else [if t[i] < 0x80 then t[i]
                  else if n == 2 then ByteFor(Joined(t[i], t[i + 1], 0))
                  else if n == 3 then ByteFor(Joined(t[i], t[i + 1], t[i + 2]))
                  else QUESTION] + FromText(t[i + n..])
  {
    hide ByteFor, Joined;
    var v, n := t[i..], AnnouncedSize(t[i]);
    if i + n <= |t| {
      assert v[n..] == t[i + n..];
    }
  }

  /** The byte for the character at i, the bytes skipped behind its first one, and whether the loop stops there. */
  method ReadChar(memory: seq<Byte>, size: nat, i: nat) returns (b: Byte, skipped: nat, last: bool)
    requires i < size <= |memory| && size < 0x1_0000_0000_0000_0000
    requires ReadsBeyond(memory[..size]) ==> |memory| >= 3
    ensures var t := memory[..size];
            !ReadsBeyond(t) ==>
              FromText(t[i..]) == [b] + if last || i + skipped + 1 > size then [] else FromText(t[i + skipped + 1..])
    ensures ReadsBeyond(memory[..size]) ==>
              !last && skipped == 2 && b == ByteFor(Joined(memory[0], memory[1], memory[2]))
  {
    hide ByteFor, Minus, FromText;
    var c := memory[i];
    TextAt(memory[..size], i);
    last, skipped := false, 0;
    if c <= 0x7F {
      b := c;
    } else if 0xC0 <= c < 0xE0 {
      MinusIs(size, 1, i);
      if i >= Minus(size, 1) {
        b, last := QUESTION, true;
      } else {
        b, skipped := ByteFor(Joined(c, memory[i + 1], 0)), 1;
      }
    } else if 0xE0 <= c < 0xF0 {
      MinusIs(size, 2, i);
      if i >= Minus(size, 2) {
        b, last := QUESTION, true;
      } else {
        b, skipped := ByteFor(Joined(c, memory[i + 1], memory[i + 2])), 2;
      }
    } else if 0xF0 <= c < 0xF8 {
      MinusIs(size, 3, i);
      b := QUESTION;
      if i >= Minus(size, 3) {
        last := true;
      } else {
        skipped := 3;
      }
    } else {
      b := QUESTION;
    }
  }

  // ---------- round trip ----------

  const NO_CHARACTER: Byte := 0x98

  function Without(s: seq<Byte>, b: Byte): seq<Byte> {
    if s == [] then [] else (if s[0] == b then [] else [s[0]]) + Without(s[1..], b)
  }

  /** Only one byte stands for no character. */
  lemma OnlyOneMissing(k: nat)
    requires k < 128
    ensures ToUtf8(k) == 0 <==> 0x80 + k == NO_CHARACTER
  {
    hide FromUtf8;
    TablesAreInverse(k);
    TablesAreInverse(0x18);
    assert ToUtf8(0x18) == 0;
  }

  lemma Parts(v: nat)
    requires IsCharacter(v)
    ensures v < 0x1_0000 ==> Joined(v % 0x100, v / 0x100, 0) == v && v / 0x100 % 0x100 == v / 0x100 && v / 0x1_0000 == 0
    ensures v >= 0x1_0000 ==> 0 < v / 0x1_0000 < 0x100
    ensures v >= 0x1_0000 ==> Joined(v % 0x100, v / 0x100 % 0x100, v / 0x1_0000) == v
  {
  }

  lemma CharReads(b: Byte, rest: seq<Byte>)
    ensures FromText(CharBytes(b) + rest) == (if b == NO_CHARACTER then [] else [b]) + FromText(rest)
  {
    hide ToUtf8, FromUtf8;
    var c := CharBytes(b);
    assert (c + rest)[|c|..] == rest;
    if b < 0x80 {
      assert (c + rest)[0] == b;
    } else {
      var v := ToUtf8(b - 0x80);
      TablesAreInverse(b - 0x80);
      OnlyOneMissing(b - 0x80);
      if v != 0 {
        TableShape(b - 0x80);
        Parts(v);
        assert forall k :: 0 <= k < |c| ==> (c + rest)[k] == c[k];
      } else {
        assert c + rest == rest;
      }
    }
  }

  /** Converting to UTF-8 and back only drops the byte that stands for no character. */
  lemma {:induction false} RoundTrip(s: seq<Byte>)
    ensures FromText(ToText(s)) == Without(s, NO_CHARACTER)
  {
    hide CharBytes;
    if s == [] {
    } else {
      RoundTrip(s[1..]);
      CharReads(s[0], ToText(s[1..]));
    }
  }

  lemma CharIsWellFormed(b: Byte)
    ensures WellFormed(CharBytes(b)) <==> b != 0
  {
    hide ToUtf8, FromUtf8, Value, Encode;
    var c := CharBytes(b);
    if b < 0x80 {
      OneByteCharacter(c);
    } else if ToUtf8(b - 0x80) != 0 {
      TableShape(b - 0x80);
      Parts(ToUtf8(b - 0x80));
      LongCharacter(c);
    }
  }

  lemma OneByteCharacter(c: seq<Byte>)
    requires |c| == 1 && c[0] < 0x80
    ensures WellFormed(c) <==> c[0] != 0
  {
    assert c[1..] == [];
  }

  lemma LongCharacter(c: seq<Byte>)
    requires || (|c| == 2 && 0xC2 <= c[0] < 0xE0 && IsContinuation(c[1]))
             || (|c| == 3 && c[0] == 0xE2 && IsContinuation(c[1]) && IsContinuation(c[2]))
    ensures WellFormed(c)
  {
    hide Encode, Value;
    assert c[|c|..] == [];
    LongValue(c);
    EncodeLength(Value(c));
  }

  lemma LongValue(c: seq<Byte>)
    requires || (|c| == 2 && 0xC2 <= c[0] < 0xE0 && IsContinuation(c[1]))
             || (|c| == 3 && c[0] == 0xE2 && IsContinuation(c[1]) && IsContinuation(c[2]))
    ensures Complete(c) && Announced(c[0]) == |c|
    ensures if |c| == 2 then 0x80 <= Value(c) < 0x800 else 0x800 <= Value(c) < 0x1_0000
  {
  }

  /** A byte is converted to the UTF-8 form of its code point; there is none for 0x98. */
  lemma CharIsCodePoint(b: Byte)
    ensures b != NO_CHARACTER <==> CharBytes(b) != []
    ensures b != NO_CHARACTER ==> CodePoint(b) < LIMIT && CharBytes(b) == Encode(CodePoint(b))
    ensures b >= 0xC0 ==> CodePoint(b) == 0x350 + b
  {
    hide ToUtf8, CodePointOf;
    if b >= 0x80 {
      TableIsCodePoints(b - 0x80);
      LettersAreInOrder(b);
      OneIsMissing(b);
      if b != NO_CHARACTER {
        BytesAreEncoded(CodePoint(b));
      }
    }
  }

  lemma LettersAreInOrder(b: Byte)
    ensures b >= 0xC0 ==> CodePoint(b) == 0x350 + b
  {
  }

  lemma OneIsMissing(b: Byte)
    requires b >= 0x80
    ensures CodePoint(b) == 0 <==> b == NO_CHARACTER
  {
  }

  lemma BytesAreEncoded(c: nat)
    requires 0x80 <= c < 0x1_0000
    ensures var v := BytesOf(c);
            && v != 0
            && Encode(c) == [v % 0x100, v / 0x100 % 0x100] +
               if v / 0x1_0000 != 0 then [v / 0x1_0000 % 0x100] else []
  {
    if c < 0x800 {
      ThreeParts(0xC0 + c / 0x40, 0x80 + c % 0x40, 0);
    } else {
      TwoDivisions(c);
      ThreeParts(0xE0 + c / 0x1000, 0x80 + c / 0x40 % 0x40, 0x80 + c % 0x40);
    }
  }

  lemma TwoDivisions(c: nat)
    ensures c / 0x40 / 0x40 == c / 0x1000
  {
  }

  lemma ThreeParts(x: Byte, y: Byte, z: Byte)
    ensures var v := x + 0x100 * y + 0x1_0000 * z as int;
            v % 0x100 == x && v / 0x100 % 0x100 == y && v / 0x1_0000 == z && v / 0x1_0000 % 0x100 == z
  {
    var v := x + 0x100 * y + 0x1_0000 * z as int;
    assert v / 0x100 == y + 0x100 * z;
  }

  /** The text is valid UTF-8, exactly if the string has no NUL. */
  lemma {:induction false} TextIsWellFormed(s: seq<Byte>)
    ensures WellFormed(ToText(s)) <==> 0 !in s
  {
    hide CharBytes, WellFormed;
    if s == [] {
      Nothing();
    } else {
      TextIsWellFormed(s[1..]);
      CharIsWellFormed(s[0]);
      assert s == [s[0]] + s[1..];
      if s[0] == 0 {
        NulIsNot(ToText(s[1..]));
      } else {
        WellFormedConcat(CharBytes(s[0]), ToText(s[1..]));
      }
    }
  }

  lemma Nothing()
    ensures WellFormed([])
  {
  }

  lemma NulIsNot(rest: seq<Byte>)
    ensures !WellFormed(CharBytes(0) + rest)
  {
    assert (CharBytes(0) + rest)[0] == 0;
  }

  /** What was converted to UTF-8 can always be converted back: nothing behind it is read. */
  lemma {:induction false} NeverReadsBeyond(s: seq<Byte>)
    ensures !ReadsBeyond(ToText(s))
  {
    hide ToUtf8, FromUtf8;
    if s == [] {
    } else {
      NeverReadsBeyond(s[1..]);
      if s[0] >= 0x80 && ToUtf8(s[0] - 0x80) != 0 {
        assert |CharBytes(s[0])| >= 2;
      }
    }
  }

  // ---------- reading text by code points ----------

  /** The byte for a code point: an ASCII character itself, else the byte of that character, else a question mark. */
  ghost predicate IsByteOf(c: nat, b: Byte) {
    if c < 0x80 then b == c
    else if exists x: Byte :: x >= 0x80 && CodePoint(x) == c then b >= 0x80 && CodePoint(b) == c
    else b == 0x3F
  }

  lemma SameBytesSameCode(c: nat, d: nat)
    requires 0x80 <= c < 0x1_0000 && 0x80 <= d < 0x1_0000 && BytesOf(c) == BytesOf(d)
    ensures c == d
  {
    hide BytesOf, Encode, Value, Complete, Announced;
    BytesAreEncoded(c);
    BytesAreEncoded(d);
    EncodeReads(c, []);
    EncodeReads(d, []);
  }

  lemma ByteForIs(c: nat)
    requires 0x80 <= c < 0x1_0000
    ensures IsByteOf(c, ByteFor(BytesOf(c)))
  {
    hide BytesOf, FromUtf8, ToUtf8, CodePointOf;
    BytesAreEncoded(c);
    var v := BytesOf(c);
    NothingElse(v);
    if FromUtf8(v).Some? {
      TableIsCodePoints(FromUtf8(v).value - 0x80);
      EmptyCode();
      SameBytesSameCode(c, CodePoint(FromUtf8(v).value));
    } else {
      forall x: Byte | x >= 0x80 ensures CodePoint(x) != c {
        TableIsCodePoints(x - 0x80);
        TablesAreInverse(x - 0x80);
      }
    }
  }

  lemma EmptyCode()
    ensures BytesOf(0) == 0
  {
  }

  /** No byte stands for a code point of four bytes. */
  lemma NoByteAbove(c: nat)
    requires c >= 0x1_0000
    ensures forall x: Byte :: x >= 0x80 ==> CodePoint(x) != c
  {
    hide BytesOf, ToUtf8, CodePointOf;
    forall x: Byte | x >= 0x80 ensures CodePoint(x) != c {
      TableIsCodePoints(x - 0x80);
    }
  }

  /** The first byte of a character tells its size, and two or three bytes are joined to its number. */
  lemma EncodedParts(c: nat)
    requires c < LIMIT
    ensures var t := Encode(c);
            && AnnouncedSize(t[0]) == |t| && (c < 0x80 ==> t[0] == c) && (c >= 0x80 ==> t[0] >= 0xC0)
            && (|t| == 2 ==> Joined(t[0], t[1], 0) == BytesOf(c))
            && (|t| == 3 ==> Joined(t[0], t[1], t[2]) == BytesOf(c))
            && (|t| == 1 <==> c < 0x80) && (|t| == 4 <==> c >= 0x1_0000)
  {
    TwoDivisions(c);
  }

  lemma CharacterIsRead(c: nat, rest: seq<Byte>) returns (b: Byte)
    requires IsCodepoint(c)
    ensures FromText(Encode(c) + rest) == [b] + FromText(rest) && IsByteOf(c, b)
  {
    hide FromText, Encode, BytesOf, ByteFor, Joined, CodePoint;
    var e, t := Encode(c), Encode(c) + rest;
    EncodedParts(c);
    TextAt(t, 0);
    assert t[0..] == t && t[|e|..] == rest;
    if c >= 0x1_0000 {
      NoByteAbove(c);
      b := QUESTION;
    } else if c >= 0x80 {
      ByteForIs(c);
      b := ByteFor(BytesOf(c));
    } else {
      b := c;
    }
  }

  /** Well-formed text is converted code point by code point. */
  lemma {:induction false} TextIsReadByCodePoints(cs: seq<nat>)
    requires AreCodepoints(cs)
    ensures var r := FromText(EncodeAll(cs));
            |r| == |cs| && forall i :: 0 <= i < |cs| ==> IsByteOf(cs[i], r[i])
  {
    hide FromText, Encode, IsByteOf;
    if cs == [] {
      EmptyText();
    } else {
      TextIsReadByCodePoints(cs[1..]);
      var b := CharacterIsRead(cs[0], EncodeAll(cs[1..]));
      var r := FromText(EncodeAll(cs[1..]));
      assert forall i :: 1 <= i < |cs| ==> cs[i] == cs[1..][i - 1] && ([b] + r)[i] == r[i - 1];
    }
  }
}
