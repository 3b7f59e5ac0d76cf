/** Cutting text from the on-screen keyboard to the capacity of an input field (cpp/gui/input_system.cpp). */
module InputText {
  import opened Bits
  import opened Utf8Spec
  import opened Utf8

  // ---------- boundaries between characters ----------

  /** In valid text, every byte that is not a continuation byte starts a character. */
  lemma {:induction false} LeadIsBoundary(t: seq<Byte>, k: nat)
    requires WellFormed(t) && k < |t| && !IsContinuation(t[k])
    ensures WellFormed(t[..k]) && WellFormed(t[k..])
    decreases |t|
  {
    hide Value, Encode, Announced;
    if k == 0 {
      assert t[..0] == [] && t[0..] == t;
    } else {
      CharacterSize(t);
      NoNulInText(t);
      var n := Announced(t[0]);
      FirstAlone(t);
      LeadIsBoundary(t[n..], k - n);
      WellFormedConcat(t[..n], t[n..][..k - n]);
      assert t[..n] + t[n..][..k - n] == t[..k];
      assert t[n..][k - n..] == t[k..];
    }
  }

  lemma NoNulInText(t: seq<Byte>)
    requires WellFormed(t) && t != []
    ensures t[0] != 0 && !IsContinuation(t[0])
  {
  }

  /** Where valid text is cut into valid text, what follows is valid and starts a character. */
  lemma BoundaryIsLead(t: seq<Byte>, k: nat)
    requires WellFormed(t) && k <= |t| && WellFormed(t[..k])
    ensures WellFormed(t[k..]) && (k < |t| ==> !IsContinuation(t[k]))
  {
    hide WellFormed;
    WellFormedConcat(t[..k], t[k..]);
    assert t == t[..k] + t[k..];
    if k < |t| {
      NoNulInText(t[k..]);
    }
  }

  lemma FirstOf(v: seq<Byte>)
    requires WellFormed(v) && v != []
    ensures Complete(v) && Shortest(v) && v[0] != 0 && 1 <= Announced(v[0]) <= |v|
    ensures forall k :: 1 <= k < Announced(v[0]) ==> IsContinuation(v[k])
  {
    hide Encode;
  }

  /** The character that starts at i ends at a boundary. */
  lemma NextBoundary(t: seq<Byte>, i: nat)
    requires WellFormed(t) && i < |t| && !IsContinuation(t[i])
    ensures 1 <= Announced(t[i]) <= |t| - i && WellFormed(t[..i + Announced(t[i])])
    ensures forall k :: i < k < i + Announced(t[i]) ==> IsContinuation(t[k])
  {
    hide WellFormed, Complete, Shortest, Announced;
    LeadIsBoundary(t, i);
    var v := t[i..];
    FirstOf(v);
    FirstAlone(v);
    var n := Announced(v[0]);
    WellFormedConcat(t[..i], v[..n]);
    assert t[..i] + v[..n] == t[..i + n];
    assert forall k :: i < k < i + n ==> t[k] == v[k - i];
  }

  // ---------- cutting ----------

  /** How many bytes follow the first byte of a character, as the cutting loop counts them. */
  function AdditionalBytes(b: Byte): nat {
    if 0xC0 <= b < 0xE0 then 1
    else if 0xE0 <= b < 0xF0 then 2
    else if 0xF0 <= b < 0xF8 then 3
    else if 0xF8 <= b < 0xFC then 4
    else if 0xFC <= b < 0xFE then 5
    else 0
  }

  predicate AllContinuation(t: seq<Byte>, n: int) {
    forall k :: 0 <= k < n && k < |t| ==> IsContinuation(t[k])
  }

  /**
   The number of bytes to keep of a text that does not fit with its terminator: negative exactly if there is no first
   byte of a character among those that fit. Of valid text it is the largest number of bytes that fit and are valid.
   */
  method CutSize(text: seq<Byte>, capacity: nat) returns (size: int)
    requires capacity <= |text|
    ensures -2 <= size <= capacity - 1
    ensures size < 0 <==> AllContinuation(text, capacity - 1)
    ensures WellFormed(text) && capacity >= 2 ==> size >= 0 && WellFormed(text[..size])
    ensures WellFormed(text) ==> forall k :: 0 <= k <= capacity - 1 && WellFormed(text[..k]) ==> k <= size || size < 0
  {
    hide WellFormed;
    var start: int := capacity - 1 - 1;
    var i := start;
    var keepLast := false;
    while i >= 0
      invariant -2 <= i <= start && !keepLast && (start >= -1 ==> i >= -1)
      invariant forall k :: i < k <= start ==> IsContinuation(text[k])
    {
      var b := text[i];
      if !IsContinuation(b) {
        var skipped := start - i;
        keepLast := AdditionalBytes(b) <= skipped;
        break;
      }
      i := i - 1;
    }
    size := if keepLast then start + 1 else i;
    if WellFormed(text) {
      if i < 0 && start >= 0 {
        NoNulInText(text);
      }
      if i >= 0 {
        CutIsRight(text, i, start, keepLast);
      }
    }
  }

  lemma CutIsRight(t: seq<Byte>, i: nat, start: nat, keepLast: bool)
    requires WellFormed(t) && i <= start && start + 1 < |t| && !IsContinuation(t[i])
    requires forall k :: i < k <= start ==> IsContinuation(t[k])
    requires keepLast <==> AdditionalBytes(t[i]) <= start - i
    ensures var size := if keepLast then start + 1 else i;
            WellFormed(t[..size]) && forall k :: 0 <= k <= start + 1 && WellFormed(t[..k]) ==> k <= size
  {
    hide WellFormed;
    NextBoundary(t, i);
    LeadIsBoundary(t, i);
    var n := Announced(t[i]);
    BoundaryIsLead(t, i + n);
    AdditionalIs(t[i]);
    forall k | i < k <= start + 1 && WellFormed(t[..k]) ensures keepLast {
      BoundaryIsLead(t, k);
    }
  }

  lemma AdditionalIs(b: Byte)
    requires Announced(b) >= 1
    ensures AdditionalBytes(b) == Announced(b) - 1
  {
  }

  predicate IsCut(text: seq<Byte>, capacity: nat, mayGrow: bool) {
    !mayGrow && |text| + 1 > capacity
  }

  /**
   Stores new text, cut if it does not fit and the buffer may not grow, with a terminator. With a negative size there is
   nothing that could be stored: the source does not test for that before it copies, and the model ends there. It does
   not happen to valid text in a buffer of two bytes or more.
   */
  method StoreText(text: seq<Byte>, capacity: nat, mayGrow: bool, data: array<Byte>) returns (size: int)
    requires data.Length >= if IsCut(text, capacity, mayGrow) then capacity else |text| + 1
    modifies data
    ensures !IsCut(text, capacity, mayGrow) ==> size == |text|
    ensures size < 0 <==> IsCut(text, capacity, mayGrow) && AllContinuation(text, capacity - 1)
    ensures WellFormed(text) && capacity >= 2 && IsCut(text, capacity, mayGrow) ==>
              && 0 <= size <= capacity - 1 && WellFormed(text[..size])
              && forall k :: 0 <= k <= capacity - 1 && WellFormed(text[..k]) ==> k <= size
    ensures size >= 0 ==> size < data.Length && size <= |text| && data[..size] == text[..size] && data[size] == 0
    ensures size < 0 ==> data[..] == old(data[..])
  {
    hide WellFormed;
    size := |text|;
    if |text| + 1 > capacity && !mayGrow {
      size := CutSize(text, capacity);
      if size < 0 {
        return;
      }
    }
    var i := 0;
    while i < size
      invariant 0 <= i <= size && data[..i] == text[..i]
    {
      data[i] := text[i];
      i := i + 1;
    }
    data[size] := 0;
  }
}
