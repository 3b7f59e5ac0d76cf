/** The memory that the PNG decoder writes to, and the order of bytes in it (lib/stb_image.h). */
module PngBytes {
  import opened Bits
  import opened PngFilters
  import opened PngRows

  /** The largest block that the allocator provides, and how 16-bit numbers are stored. */
  datatype Machine = Machine(heapLimit: nat, littleEndian: bool)

  /** The other byte of a 16-bit sample. */
  function Partner(i: nat, n: nat): (j: nat)
    requires i < n
    ensures j < n
  {
    if i % 2 == 1 then i - 1 else if i + 1 < n then i + 1 else i
  }

  /** Memory with the two bytes of every sample in the order of the file, if the machine swaps them. */
  function InFileOrder(o: seq<Byte>, swap: bool): (r: seq<Byte>)
    ensures |r| == |o|
  {
    if swap then seq(|o|, i requires 0 <= i < |o| => o[Partner(i, |o|)]) else o
  }

  /** Rewrites every 16-bit sample from the order of the file to that of the machine. */
  method ToNative(out: array<Byte>, littleEndian: bool)
    requires out.Length % 2 == 0
    modifies out
    ensures InFileOrder(out[..], littleEndian) == old(out[..])
  {
    hide InFileOrder;
    ghost var o := out[..];
    var cur := 0;
    NoSamples(littleEndian);
    while cur < out.Length
      invariant cur <= out.Length && cur % 2 == 0
      invariant out[cur..] == o[cur..]
      invariant InFileOrder(out[..cur], littleEndian) == o[..cur]
    {
      ghost var before := out[..];
      assert out[cur..][0] == o[cur..][0] && out[cur..][1] == o[cur..][1];
      var hi, lo := out[cur], out[cur + 1];
      StoreSample(out, cur, hi, lo, littleEndian);
      OneSample(before[..cur], hi, lo, littleEndian);
      assert out[..cur + 2] == before[..cur] + [out[cur], out[cur + 1]];
      assert o[..cur + 2] == o[..cur] + [hi, lo];
      assert out[cur + 2..] == before[cur..][2..] == o[cur..][2..] == o[cur + 2..];
      cur := cur + 2;
    }
    assert out[..cur] == out[..] && o[..cur] == o;
  }

  lemma NoSamples(swap: bool)
    ensures InFileOrder([], swap) == []
  {
  }

  lemma OneSample(s: seq<Byte>, hi: Byte, lo: Byte, swap: bool)
    requires |s| % 2 == 0
    ensures InFileOrder(s + if swap then [lo, hi] else [hi, lo], swap) == InFileOrder(s, swap) + [hi, lo]
  {
    hide InFileOrder;
    var two, n := if swap then [lo, hi] else [hi, lo], |s|;
    var t := s + two;
    Stretch(t, 0, n, swap);
    Stretch(t, n, 2, swap);
    assert t[0..0 + n] == s && t[n..n + 2] == two;
    TwoBytes(hi, lo, swap);
    var r := InFileOrder(t, swap);
    assert r == r[0..0 + n] + r[n..n + 2];
  }

  lemma TwoBytes(hi: Byte, lo: Byte, swap: bool)
    ensures InFileOrder(if swap then [lo, hi] else [hi, lo], swap) == [hi, lo]
  {
  }

  /** Stores the number 256 * hi + lo at cur. */
  method StoreSample(out: array<Byte>, cur: nat, hi: Byte, lo: Byte, littleEndian: bool)
    requires cur + 2 <= out.Length
    modifies out
    ensures OnlyIn(out, cur, cur + 2)
    ensures out[cur] == (if littleEndian then lo else hi) && out[cur + 1] == if littleEndian then hi else lo
  {
    var v: int := hi as int * 0x100 + lo;
    if littleEndian {
      out[cur], out[cur + 1] := v % 0x100, v / 0x100;
    } else {
      out[cur], out[cur + 1] := v / 0x100, v % 0x100;
    }
  }

  /** A stretch of whole samples is read by itself. */
  lemma Stretch(o: seq<Byte>, at: nat, size: nat, swap: bool)
    requires at + size <= |o| && (swap ==> at % 2 == 0 && size % 2 == 0)
    ensures InFileOrder(o, swap)[at..at + size] == InFileOrder(o[at..at + size], swap)
  {
    if swap {
      var s := o[at..at + size];
      forall k: nat | k < size ensures InFileOrder(o, swap)[at..at + size][k] == InFileOrder(s, swap)[k] {
        assert Partner(at + k, |o|) == at + Partner(k, size);
      }
    }
  }

  /** Equal memory holds equal samples. */
  lemma SameSamples(o: seq<Byte>, src: seq<Byte>, at: nat, from: nat, size: nat, swap: bool)
    requires at + size <= |o| && from + size <= |src| && o[at..at + size] == src[from..from + size]
    requires swap ==> at % 2 == 0 && from % 2 == 0 && size % 2 == 0
    ensures InFileOrder(o, swap)[at..at + size] == InFileOrder(src, swap)[from..from + size]
  {
    hide InFileOrder;
    Stretch(o, at, size, swap);
    Stretch(src, from, size, swap);
  }

  /** Writing whole samples changes no others. */
  lemma OtherSamples(o: seq<Byte>, o': seq<Byte>, at: nat, size: nat, swap: bool)
    requires |o| == |o'| && at + size <= |o|
    requires swap ==> at % 2 == 0 && size % 2 == 0 && |o| % 2 == 0
    requires forall i :: 0 <= i < |o| && !(at <= i < at + size) ==> o'[i] == o[i]
    ensures forall i :: 0 <= i < |o| && !(at <= i < at + size) ==> InFileOrder(o', swap)[i] == InFileOrder(o, swap)[i]
  {
  }

  lemma {:induction false} TimesEven(n: nat, size: nat)
    requires size % 2 == 0
    ensures Times(n, size) % 2 == 0
  {
    if n == 0 {
    } else {
      TimesEven(n - 1, size);
    }
  }
}
