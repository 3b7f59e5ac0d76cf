/** Repairing a string in place (lib/utf8.h, utf8makevalid). */
module Utf8Repair {
  import opened Bits
  import opened Utf8Spec
  import opened Utf8

  /** Every complete character is written again in its shortest form; every other byte becomes r. */
  function Repaired(t: seq<Byte>, r: Byte): (s: seq<Byte>)
    ensures |s| <= |t|
    decreases |t|
  {
    if t == [] then []
    else if Complete(t) then
      RewrittenFits(t);
      Encode(Value(t)) + Repaired(t[Announced(t[0])..], r)
    else [r] + Repaired(t[1..], r)
  }

  /** The shortest form is never longer than the one that was read. */
  lemma RewrittenFits(t: seq<Byte>)
    requires Complete(t)
    ensures |Encode(Value(t))| <= Announced(t[0])
  {
    EncodeLength(Value(t));
  }

  /** A string up to its first NUL. */
  function UpToNul(s: seq<Byte>): seq<Byte> {
    s[..End(s, |s|, 0)]
  }

  predicate RepairsTo(a: seq<Byte>, t: seq<Byte>, r: Byte) {
    var s := Repaired(t, r);
    |s| < |a| && a[..|s|] == s && a[|s|] == 0
  }

  method MakeValid(a: array<Byte>, replacement: int) returns (code: int)
    requires 0 in a[..]
    modifies a
    ensures replacement > 0x7F ==> code == -1 && a[..] == old(a[..])
    ensures replacement <= 0x7F ==> code == 0 && RepairsTo(a[..], Text(old(a[..]), a.Length), replacement % 256)
    ensures forall k :: |Text(old(a[..]), a.Length)| < k < a.Length ==> a[k] == old(a[k])
  {
    hide Repaired;
    if replacement > 0x7F {
      return -1;
    }
    var read: nat, write: nat, r := 0, 0, replacement % 256;
    ghost var o, t := a[..], Text(a[..], a.Length);
    TextIs(o);
    assert t[0..] == t && a[..0] + Repaired(t, r) == Repaired(t, r);
    Reading(o, a[..], t, read);
    while a[read] != 0
      invariant write <= read <= |t| < |o| && a[read..] == o[read..]
      invariant Repaired(t, r) == a[..write] + Repaired(t[read..], r)
      invariant a[read] == 0 <==> read == |t|
      decreases |t| - read
    {
      ghost var before, read0, write0 := a[..], read, write;
      Reading(o, before, t, read);
      read, write := RepairCharacter(a, read, write, r, t[read..]);
      RepairMore(before, a[..], t, r, read0, read, write0, write);
      Reading(o, a[..], t, read);
    }
    assert t[read..] == [];
    NothingLeft(r);
    a[write] := 0;
    code := 0;
  }

  lemma NothingLeft(r: Byte)
    ensures Repaired([], r) == []
  {
  }

  lemma RepairMore(before: seq<Byte>, after: seq<Byte>, t: seq<Byte>, r: Byte, read: nat, read': nat, write: nat,
                   write': nat)
    requires |before| == |after| && write <= write' <= read' && read < read' <= |t| < |before| && write <= read
    requires Repaired(t, r) == before[..write] + Repaired(t[read..], r)
    requires Repaired(t[read..], r) == after[write..write'] + Repaired(t[read..][read' - read..], r)
    requires forall k :: 0 <= k < |after| && !(write <= k < write') ==> after[k] == before[k]
    ensures Repaired(t, r) == after[..write'] + Repaired(t[read'..], r)
    ensures after[read'..] == before[read'..]
  {
    hide Repaired;
    assert t[read..][read' - read..] == t[read'..];
    assert after[..write] == before[..write];
    assert after[..write'] == after[..write] + after[write..write'];
  }

  /** One turn: the character at read is written again at write, or the byte there is replaced. */
  method RepairCharacter(a: array<Byte>, read: nat, write: nat, r: Byte, ghost t: seq<Byte>)
    returns (read': nat, write': nat)
    requires write <= read && t != [] && read + |t| < a.Length && a[read..read + |t|] == t && a[read + |t|] == 0 &&
             0 !in t
    modifies a
    ensures write <= write' <= read' && read < read' <= read + |t|
    ensures Repaired(t, r) == a[write..write'] + Repaired(t[read' - read..], r)
    ensures forall k :: 0 <= k < a.Length && !(write <= k < write') ==> a[k] == old(a[k])
  {
    hide Repaired, Value, Encode, Announced, Written, Masked, Taken;
    RepairStep(t, r);
    var complete := TestComplete(a, read, t);
    if !complete {
      a[write] := r;
      return read + 1, write + 1;
    }
    assert a[read..][..|t|] == t;
    SameFirst(t, a[read..]);
    TakenIs(a[read]);
    var c, len := Codepoint(a[..], read, false);
    WrittenIsEncode(c);
    var next := CatCodepoint(a, write, c, len);
    read', write' := read + len, next.value;
  }

  lemma TextIs(o: seq<Byte>)
    requires 0 in o
    ensures var t := Text(o, |o|); |t| < |o| && o[|t|] == 0 && t == o[..|t|] && 0 !in t
  {
    EndIs(o, |o|, End(o, |o|, 0));
  }

  /** What is read is what the text holds. */
  lemma Reading(o: seq<Byte>, a: seq<Byte>, t: seq<Byte>, read: nat)
    requires |t| < |o| == |a| && t == o[..|t|] && o[|t|] == 0 && 0 !in t && read <= |t|
    requires a[read..] == o[read..]
    ensures a[read] == 0 <==> read == |t|
    ensures a[read..read + |t[read..]|] == t[read..] && a[|t|] == 0 && 0 !in t[read..]
  {
    assert forall k :: read <= k < |a| ==> a[k] == a[read..][k - read] == o[k];
    if read < |t| {
      assert t[read] == o[read] && t[read] in t;
    }
  }

  lemma RepairStep(t: seq<Byte>, r: Byte)
    requires t != []
    ensures Complete(t) ==>
              && 1 <= Announced(t[0]) <= |t| && |Encode(Value(t))| <= Announced(t[0])
              && Repaired(t, r) == Encode(Value(t)) + Repaired(t[Announced(t[0])..], r)
    ensures !Complete(t) ==> Repaired(t, r) == [r] + Repaired(t[1..], r)
  {
    hide Value, Encode;
    if Complete(t) {
      RewrittenFits(t);
    }
  }

  lemma WrittenIsEncode(c: nat)
    requires c < LIMIT
    ensures Written(c) == Encode(c)
  {
    hide Encode;
  }

  /** The first byte announces no more bytes than follow it; nothing behind the NUL is looked at. */
  method TestComplete(a: array<Byte>, read: nat, ghost t: seq<Byte>) returns (r: bool)
    requires t != [] && read + |t| < a.Length && a[read..read + |t|] == t && a[read + |t|] == 0 && 0 !in t
    ensures r <==> Complete(t)
  {
    assert forall k :: 0 <= k < |t| ==> a[read + k] == a[read..read + |t|][k] == t[k];
    var b := a[read];
    if 0xF0 <= b < 0xF8 {
      r := IsContinuation(a[read + 1]) && IsContinuation(a[read + 2]) && IsContinuation(a[read + 3]);
    } else if 0xE0 <= b < 0xF0 {
      r := IsContinuation(a[read + 1]) && IsContinuation(a[read + 2]);
    } else if 0xC0 <= b < 0xE0 {
      r := IsContinuation(a[read + 1]);
    } else {
      r := b < 0x80;
    }
  }

  // ---------- what repairing achieves ----------

  /** Valid text is not changed. */
  lemma {:induction false} ValidIsKept(t: seq<Byte>, r: Byte)
    requires WellFormed(t)
    ensures Repaired(t, r) == t
    decreases |t|
  {
    hide Value, Encode, Announced;
    if t == [] {
    } else {
      CharacterSize(t);
      ReadEncodes(t);
      ValidIsKept(t[Announced(t[0])..], r);
      assert t == t[..Announced(t[0])] + t[Announced(t[0])..];
    }
  }

  lemma {:induction false} RepairedBehind(c: seq<Byte>, v: seq<Byte>, r: Byte)
    requires WellFormed(c)
    ensures Repaired(c + v, r) == c + Repaired(v, r)
    decreases |c|
  {
    hide Value, Encode, Announced, Repaired, Complete, Shortest;
    if c == [] {
      assert c + v == v && c + Repaired(v, r) == Repaired(v, r);
    } else {
      var n := Announced(c[0]);
      CharacterSize(c);
      ReadEncodes(c);
      FirstOfBoth(c, v, n);
      SameFirst(c, c + v);
      RepairStep(c + v, r);
      RepairedBehind(c[n..], v, r);
      assert c[..n] + (c[n..] + Repaired(v, r)) == c + Repaired(v, r);
    }
  }

  lemma FirstOfBoth(c: seq<Byte>, v: seq<Byte>, n: nat)
    requires n <= |c|
    ensures (c + v)[..n] == c[..n] && (c + v)[n..] == c[n..] + v && c == c[..n] + c[n..]
  {
  }

  /**
   Behind well-formed text, one byte that starts no complete character is replaced, and nothing else on its account;
   a complete character in too long a form is written again in the short one.
   */
  lemma FirstFaultIsRepaired(c: seq<Byte>, v: seq<Byte>, r: Byte)
    requires WellFormed(c) && v != []
    ensures !Complete(v) ==> Repaired(c + v, r) == c + [r] + Repaired(v[1..], r)
    ensures Complete(v) ==> Repaired(c + v, r) == c + Encode(Value(v)) + Repaired(v[Announced(v[0])..], r)
  {
    hide Value, Encode, Complete, Repaired;
    RepairedBehind(c, v, r);
    RepairStep(v, r);
    var x, y := Repaired(v[1..], r), if Complete(v) then Repaired(v[Announced(v[0])..], r) else [];
    assert c + ([r] + x) == c + [r] + x && c + (Encode(if Complete(v) then Value(v) else 0) + y) ==
      c + Encode(if Complete(v) then Value(v) else 0) + y;
  }

  lemma UpToNulOfPrefix(c: seq<Byte>, s: seq<Byte>)
    requires 0 !in c
    ensures UpToNul(c + s) == c + UpToNul(s)
  {
    EndOfPrefix(c, s, 0);
  }

  lemma {:induction false} EndOfPrefix(c: seq<Byte>, s: seq<Byte>, i: nat)
    requires 0 !in c && i <= |c|
    ensures End(c + s, |c + s|, i) == |c| + End(s, |s|, 0)
    decreases |c| - i
  {
    if i < |c| {
      assert (c + s)[i] == c[i] && c[i] in c;
      EndOfPrefix(c, s, i + 1);
    } else {
      EndShift(c, s, 0);
    }
  }

  lemma {:induction false} EndShift(c: seq<Byte>, s: seq<Byte>, i: nat)
    requires i <= |s|
    ensures End(c + s, |c + s|, |c| + i) == |c| + End(s, |s|, i)
    decreases |s| - i
  {
    if i >= |s| {
    } else {
      EndShift(c, s, i + 1);
      assert |c| + (i + 1) == |c| + i + 1;
    }
  }

  lemma UpToNulStops(s: seq<Byte>)
    requires s != [] && s[0] == 0
    ensures UpToNul(s) == []
  {
  }

  lemma EncodeIsWellFormed(c: nat)
    requires IsCodepoint(c)
    ensures WellFormed(Encode(c)) && 0 !in Encode(c)
  {
    DecodeEncoded([c]);
    assert EncodeAll([c]) == Encode(c) + EncodeAll([]);
  }

  /** With an ASCII replacement the result, up to its first NUL, is valid, whatever the string was. */
  lemma {:induction false} RepairedIsValid(t: seq<Byte>, r: Byte)
    requires r < 0x80
    ensures WellFormed(UpToNul(Repaired(t, r)))
    decreases |t|
  {
    hide Value, Encode, WellFormed, UpToNul, Announced;
    if t == [] {
      EmptyWellFormed([]);
      UpToNulOfPrefix([], []);
      Empty();
    } else {
      RepairStep(t, r);
      var c := if Complete(t) then Value(t) else r;
      var rest := if Complete(t) then t[Announced(t[0])..] else t[1..];
      Ascii(r);
      RepairedIsValid(rest, r);
      assert Repaired(t, r) == Encode(c) + Repaired(rest, r);
      if c == 0 {
        Ascii(0);
        UpToNulStops(Repaired(t, r));
        EmptyWellFormed([]);
      } else {
        EncodeIsWellFormed(c);
        UpToNulOfPrefix(Encode(c), Repaired(rest, r));
        WellFormedConcat(Encode(c), UpToNul(Repaired(rest, r)));
      }
    }
  }

  lemma Empty()
    ensures UpToNul([]) == [] && forall r :: Repaired([], r) == []
  {
  }

  lemma Ascii(r: Byte)
    ensures r < 0x80 ==> Encode(r) == [r]
  {
  }

  /**
   Of the replacements that are accepted, exactly those whose low byte is ASCII make every string valid; a negative
   number can have a low byte that is not.
   */
  lemma AlwaysValidIff(replacement: int)
    requires replacement <= 0x7F
    ensures (forall t :: 0 !in t ==> WellFormed(UpToNul(Repaired(t, replacement % 256)))) <==> replacement % 256 < 0x80
  {
    hide WellFormed, UpToNul, Repaired;
    var r := replacement % 256;
    if r < 0x80 {
      forall t: seq<Byte> | 0 !in t ensures WellFormed(UpToNul(Repaired(t, r))) {
        RepairedIsValid(t, r);
      }
    } else {
      LoneContinuation(r);
      assert 0 !in [0x80 as Byte];
    }
  }

  lemma LoneContinuation(r: Byte)
    requires r >= 0x80
    ensures !WellFormed(UpToNul(Repaired([0x80], r)))
  {
    assert Repaired([0x80], r) == [r] + Repaired([], r);
    UpToNulOfPrefix([r], []);
    assert UpToNul([r]) == [r];
    assert !Complete([r]);
  }

  /** Repairing again changes nothing. */
  lemma RepairedTwice(t: seq<Byte>, r: Byte)
    requires r < 0x80
    ensures var s := UpToNul(Repaired(t, r)); Repaired(s, r) == s
  {
    RepairedIsValid(t, r);
    ValidIsKept(UpToNul(Repaired(t, r)), r);
  }
}
