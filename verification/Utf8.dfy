/** Checking and repairing UTF-8 strings (lib/utf8.h). */
module Utf8 {
  import opened Wrappers
  import opened Bits
  import opened Utf8Spec

  /** Where the string that starts at i ends: at its NUL, or after n bytes of the buffer. */
  function End(s: seq<Byte>, n: nat, i: nat): (r: nat)
    requires i <= |s|
    ensures i <= r <= |s| && (r > i ==> r <= n) && (r < |s| && r < n ==> s[r] == 0)
    ensures forall k :: i <= k < r ==> s[k] != 0
    decreases |s| - i
  {
    if i == |s| || i >= n || s[i] == 0 then i else End(s, n, i + 1)
  }

  /** The string: the bytes before the first NUL, at most n. */
  function Text(s: seq<Byte>, n: nat): (r: seq<Byte>)
    ensures 0 !in r && r <= s
  {
    s[..End(s, n, 0)]
  }

  /** The memory that may be read: n bytes, or up to a NUL. */
  predicate Readable(s: seq<Byte>, n: nat) {
    n <= |s| || 0 in s
  }

  // ---------- the tests on one character ----------

  lemma NotWellFormed(v: seq<Byte>)
    requires v != []
    requires !Complete(v) || !Shortest(v) || (|v| > Announced(v[0]) && IsContinuation(v[Announced(v[0])]))
    ensures !WellFormed(v)
  {
    hide Value, Encode;
    if Complete(v) && |v| > Announced(v[0]) {
      assert v[Announced(v[0])..][0] == v[Announced(v[0])];
    }
  }

  lemma OneMore(v: seq<Byte>)
    requires Complete(v) && Shortest(v) && v[0] != 0
    ensures WellFormed(v) <==> WellFormed(v[Announced(v[0])..])
  {
    assert Value(v) != 0;
  }

  /** The tests for unused leading bits are the test for the shortest form. */
  lemma LeadingBits(v: seq<Byte>)
    requires Complete(v)
    ensures Announced(v[0]) == 4 ==> (Shortest(v) <==> !(v[0] % 8 == 0 && v[1] / 0x10 % 4 == 0))
    ensures Announced(v[0]) == 3 ==> (Shortest(v) <==> !(v[0] % 0x10 == 0 && v[1] / 0x20 % 2 == 0))
    ensures Announced(v[0]) == 2 ==> (Shortest(v) <==> !(v[0] / 2 % 0x10 == 0))
    ensures Announced(v[0]) == 1 ==> Shortest(v)
  {
    hide Encode;
    EncodeLength(Value(v));
    var n := Announced(v[0]);
    if n == 4 {
      var a, b, c, d := v[0] - 0xF0, v[1] - 0x80, v[2] - 0x80, v[3] - 0x80;
      FourDigits(v);
      assert v[1] / 0x10 % 4 == 0 <==> b < 0x10;
    } else if n == 3 {
      var a, b, c := v[0] - 0xE0, v[1] - 0x80, v[2] - 0x80;
      ThreeDigits(v);
      assert v[1] / 0x20 % 2 == 0 <==> b < 0x20;
    }
  }

  lemma FourDigits(v: seq<Byte>)
    requires Complete(v) && Announced(v[0]) == 4
    ensures var a: int, b: int, c: int, d: int := v[0] - 0xF0, v[1] - 0x80, v[2] - 0x80, v[3] - 0x80;
            Value(v) == a * 0x4_0000 + b * 0x1000 + c * 0x40 + d
  {
  }

  lemma ThreeDigits(v: seq<Byte>)
    requires Complete(v) && Announced(v[0]) == 3
    ensures var a: int, b: int, c: int := v[0] - 0xE0, v[1] - 0x80, v[2] - 0x80;
            Value(v) == a * 0x1000 + b * 0x40 + c
  {
  }

  /** What the check of one character finds: its length, or 0. */
  method CheckCharacter(s: seq<Byte>, n: nat, i: nat) returns (len: nat)
    requires Readable(s, n) && i < End(s, n, 0)
    ensures var v := s[i..End(s, n, 0)];
            if len == 0 then !WellFormed(v)
            else len <= |v| && (WellFormed(v) <==> WellFormed(v[len..])) && WellFormed(v[..len])
  {
    hide Value, Encode, WellFormed, Shortest, End;
    ghost var end := End(s, n, 0);
    EndIs(s, n, end);
    ghost var v := s[i..end];
    var remaining := n - i;
    var b := s[i];
    if 0xF0 <= b < 0xF8 {
      if remaining < 4 {
        NotWellFormed(v);
        return 0;
      }
      if !IsContinuation(s[i + 1]) || !IsContinuation(s[i + 2]) || !IsContinuation(s[i + 3]) {
        NotWellFormed(v);
        return 0;
      }
      if remaining != 4 && IsContinuation(s[i + 4]) {
        NotWellFormed(v);
        return 0;
      }
      LeadingBits(v);
      if b % 8 == 0 && s[i + 1] / 0x10 % 4 == 0 {
        NotWellFormed(v);
        return 0;
      }
      len := 4;
    } else if 0xE0 <= b < 0xF0 {
      if remaining < 3 {
        NotWellFormed(v);
        return 0;
      }
      if !IsContinuation(s[i + 1]) || !IsContinuation(s[i + 2]) {
        NotWellFormed(v);
        return 0;
      }
      if remaining != 3 && IsContinuation(s[i + 3]) {
        NotWellFormed(v);
        return 0;
      }
      LeadingBits(v);
      if b % 0x10 == 0 && s[i + 1] / 0x20 % 2 == 0 {
        NotWellFormed(v);
        return 0;
      }
      len := 3;
    } else if 0xC0 <= b < 0xE0 {
      if remaining < 2 {
        NotWellFormed(v);
        return 0;
      }
      if !IsContinuation(s[i + 1]) {
        NotWellFormed(v);
        return 0;
      }
      if remaining != 2 && IsContinuation(s[i + 2]) {
        NotWellFormed(v);
        return 0;
      }
      LeadingBits(v);
      if b / 2 % 0x10 == 0 {
        NotWellFormed(v);
        return 0;
      }
      len := 2;
    } else if b < 0x80 {
      LeadingBits(v);
      len := 1;
    } else {
      NotWellFormed(v);
      return 0;
    }
    OneMore(v);
    FirstAlone(v);
  }

  lemma EndIs(s: seq<Byte>, n: nat, end: nat)
    requires end == End(s, n, 0) && Readable(s, n)
    ensures end <= |s| && (end > 0 ==> end <= n) && (end < n ==> end < |s| && s[end] == 0)
    ensures forall k :: 0 <= k < end ==> s[k] != 0
  {
  }

  /** A character in its shortest form is well-formed text by itself. */
  lemma FirstAlone(v: seq<Byte>)
    requires Complete(v) && Shortest(v) && v[0] != 0
    ensures WellFormed(v[..Announced(v[0])])
  {
    hide Value, Encode, Announced;
    var n := Announced(v[0]);
    SameFirst(v, v[..n]);
    OneMore(v[..n]);
    assert v[..n][n..] == [];
  }

  /** utf8nvalid: null exactly for well-formed text, else where the first character that is not well-formed starts. */
  method NValid(s: seq<Byte>, n: nat) returns (r: Option<nat>)
    requires Readable(s, n)
    ensures r.None? <==> WellFormed(Text(s, n))
    ensures r.Some? ==> r.value < |Text(s, n)| && WellFormed(Text(s, n)[..r.value])
    ensures r.Some? ==> !WellFormed(Text(s, n)[r.value..])
  {
    hide WellFormed, End;
    var i := 0;
    ghost var end := End(s, n, 0);
    EndIs(s, n, end);
    ghost var t := Text(s, n);
    EmptyWellFormed(t);
    while i < n && s[i] != 0
      invariant i <= end && WellFormed(t[..i])
      invariant WellFormed(t) <==> WellFormed(t[i..])
      decreases end - i
    {
      assert t[i..] == s[i..end];
      var len := CheckCharacter(s, n, i);
      if len == 0 {
        return Some(i);
      }
      WellFormedConcat(t[..i], t[i..][..len]);
      assert t[..i] + t[i..][..len] == t[..i + len];
      assert t[i..][len..] == t[i + len..];
      i := i + len;
    }
    assert t[i..] == [];
    assert t[..i] == t;
    r := None;
  }

  lemma EmptyWellFormed(t: seq<Byte>)
    ensures WellFormed(t[..0]) && t[0..] == t && WellFormed([])
  {
  }

  // ---------- single characters ----------

  /** utf8codepoint: the number of the first character, and its length; any bytes that are there are read. */
  method Codepoint(s: seq<Byte>, i: nat, signedChars: bool) returns (c: int, len: nat)
    requires i < |s| && Taken(s[i]) <= |s| - i
    ensures len == Taken(s[i]) && c == Masked(s[i..], signedChars)
    ensures Complete(s[i..]) ==> c == Value(s[i..]) && len == Announced(s[i])
  {
    var b: int := s[i];
    if 0xF0 <= b < 0xF8 {
      var b1: int, b2: int, b3: int := s[i + 1], s[i + 2], s[i + 3];
      c := b % 8 * 0x4_0000 + b1 % 0x40 * 0x1000 + b2 % 0x40 * 0x40 + b3 % 0x40;
      len := 4;
    } else if 0xE0 <= b < 0xF0 {
      var b1: int, b2: int := s[i + 1], s[i + 2];
      c := b % 0x10 * 0x1000 + b1 % 0x40 * 0x40 + b2 % 0x40;
      len := 3;
    } else if 0xC0 <= b < 0xE0 {
      var b1: int := s[i + 1];
      c := b % 0x20 * 0x40 + b1 % 0x40;
      len := 2;
    } else {
      c := if signedChars && b >= 0x80 then b - 0x100 else b;
      len := 1;
    }
  }

  /** Repeated reading gives the code points back, from the start of any text that is written for code points. */
  method Codepoints(s: seq<Byte>, signedChars: bool) returns (cs: seq<nat>)
    requires WellFormed(s)
    ensures cs == Decode(s)
  {
    hide Value, Encode, Complete, Announced, Masked, Taken;
    cs := [];
    var i := 0;
    while i < |s|
      invariant i <= |s| && WellFormed(s[i..]) && Decode(s) == cs + Decode(s[i..])
    {
      CharacterSize(s[i..]);
      TakenIs(s[i]);
      var c, len := Codepoint(s, i, signedChars);
      cs := cs + [c];
      assert s[i..][len..] == s[i + len..];
      i := i + len;
    }
  }

  lemma TakenIs(b: Byte)
    ensures Announced(b) >= 1 ==> Taken(b) == Announced(b)
  {
  }

  lemma CharacterSize(v: seq<Byte>)
    requires Complete(v)
    ensures 1 <= Announced(v[0]) <= |v|
  {
  }

  /** What is written for a number; only its low 21 bits are used when it is out of range. */
  function Written(chr: int): (r: seq<Byte>) {
    if 0 <= chr < LIMIT then Encode(chr)
    else
      var c := chr % LIMIT;
      [0xF0 + c / 0x40 / 0x40 / 0x40, Tail(c / 0x40 / 0x40), Tail(c / 0x40), Tail(c)]
  }

  /** utf8codepointsize */
  function CodepointSize(chr: int): (n: nat)
    ensures n == |Written(chr)|
  {
    if 0 <= chr < 0x80 then 1 else if 0 <= chr < 0x800 then 2 else if 0 <= chr < 0x1_0000 then 3 else 4
  }

  /** utf8catcodepoint: writes a character if it takes at most n bytes. */
  method CatCodepoint(a: array<Byte>, at: nat, chr: int, n: nat) returns (next: Option<nat>)
    requires at + n <= a.Length
    modifies a
    ensures next == if |Written(chr)| <= n then Some(at + |Written(chr)|) else None
    ensures next.Some? ==> a[at..next.value] == Written(chr)
    ensures forall k :: 0 <= k < a.Length && !(next.Some? && at <= k < next.value) ==> a[k] == old(a[k])
  {
    hide Written;
    WrittenIs(chr);
    if 0 <= chr < 0x80 {
      if n < 1 {
        return None;
      }
      a[at] := chr;
      next := Some(at + 1);
    } else if 0 <= chr < 0x800 {
      if n < 2 {
        return None;
      }
      a[at], a[at + 1] := Lead(0xC0, 0x20, chr / 0x40), Follow(chr);
      next := Some(at + 2);
    } else if 0 <= chr < 0x1_0000 {
      if n < 3 {
        return None;
      }
      a[at], a[at + 1], a[at + 2] := Lead(0xE0, 0x10, chr / 0x1000), Follow(chr / 0x40), Follow(chr);
      next := Some(at + 3);
    } else {
      if n < 4 {
        return None;
      }
      a[at], a[at + 1] := Lead(0xF0, 8, chr / 0x4_0000), Follow(chr / 0x1000);
      a[at + 2], a[at + 3] := Follow(chr / 0x40), Follow(chr);
      next := Some(at + 4);
    }
  }

  /** A first byte: its mark, and bits of the number below. */
  function Lead(mark: Byte, size: nat, v: int): Byte
    requires size > 0 && mark + size <= 256
  {
    mark + v % size
  }

  function Follow(v: int): Byte {
    0x80 + v % 0x40
  }

  lemma WrittenIs(chr: int)
    ensures Written(chr) ==
            if 0 <= chr < 0x80 then [chr]
            else if 0 <= chr < 0x800 then [Lead(0xC0, 0x20, chr / 0x40), Follow(chr)]
            else if 0 <= chr < 0x1_0000 then [Lead(0xE0, 0x10, chr / 0x1000), Follow(chr / 0x40), Follow(chr)]
            else [Lead(0xF0, 8, chr / 0x4_0000), Follow(chr / 0x1000), Follow(chr / 0x40), Follow(chr)]
  {
    hide Tail, Follow;
    TailIsFollow(chr);
    TailIsFollow(chr / 0x40);
    TailIsFollow(chr / 0x1000);
    Low21(chr);
    ShiftSix(chr);
  }

  lemma ShiftSix(chr: int)
    ensures chr / 0x40 / 0x40 == chr / 0x1000 && chr / 0x40 / 0x40 / 0x40 == chr / 0x4_0000
  {
  }

  lemma TailIsFollow(v: int)
    ensures v >= 0 ==> Tail(v) == Follow(v)
    ensures forall c: nat :: c % 0x40 == v % 0x40 ==> Tail(c) == Follow(v)
  {
  }

  lemma Low21(chr: int)
    ensures var c := chr % LIMIT;
            && chr / 0x4_0000 % 8 == c / 0x40 / 0x40 / 0x40 && chr / 0x1000 % 0x40 == c / 0x40 / 0x40 % 0x40
            && chr / 0x40 % 0x40 == c / 0x40 % 0x40 && chr % 0x40 == c % 0x40
  {
    var q, c := chr / LIMIT, chr % LIMIT;
    assert chr == 0x20_0000 * q + c;
    assert chr / 0x40 == 0x8000 * q + c / 0x40;
    assert chr / 0x1000 == 0x200 * q + c / 0x40 / 0x40;
    assert chr / 0x4_0000 == 8 * q + c / 0x40 / 0x40 / 0x40;
  }
}
