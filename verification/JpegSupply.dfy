/**
 What the JPEG decoder has loaded at each point of a scan (lib/stb_image.h, stbi__grow_buffer_unsafe), as a function of
 the bit positions at which it reads. It asks for more bytes only when too few bits are buffered, and then loads until
 it has 25. The marker behind the data, when it is met, ends the loading once; from then on zeros are loaded. Where no
 marker follows, zeros are loaded from the end on.
 */
module JpegSupply {
  import opened Wrappers
  import opened Bits
  import opened JpegTable
  import opened BitRegister
  import opened JpegSpec

  /** The entropy-coded bytes of a scan, and whether a marker ends them. */
  datatype Data = Data(bytes: seq<Byte>, marked: bool)

  /** The bytes loaded, counting the zeros after the end, and whether the marker has been met. */
  datatype Supply = Supply(loaded: nat, over: bool)

  /** The next bit to read, and what has been loaded. */
  datatype Point = Point(p: nat, supply: Supply) {
    predicate Has(n: nat) {
      p + n <= 8 * supply.loaded
    }

    function Behind(n: nat): Point {
      this.(p := p + n)
    }
  }

  ghost predicate Reached(d: Data, a: Point) {
    && a.Has(0) && 8 * a.supply.loaded <= a.p + 32
    && (if a.supply.over then d.marked && a.supply.loaded >= |d.bytes|
        else d.marked ==> a.supply.loaded <= |d.bytes|)
  }

  function Filled(d: Data, p: nat, s: Supply): Supply {
    var full := (p + 32) / 8;
    if s.over || !d.marked || full <= |d.bytes| then s.(loaded := full) else Supply(|d.bytes|, true)
  }

  /** After asking for n bits. */
  function Asked(d: Data, n: nat, a: Point): Point {
    if a.Has(n) then a else a.(supply := Filled(d, a.p, a.supply))
  }

  /** Asking gives the bits, unless it meets the marker; asking again gives them in any case. */
  lemma AskedIs(d: Data, n: nat, a: Point)
    requires Reached(d, a) && n <= 25
    ensures var b := Asked(d, n, a);
            && Reached(d, b) && b.p == a.p && b.supply.loaded >= a.supply.loaded && (a.supply.over ==> b.supply.over)
            && (b.Has(n) || (!a.supply.over && b.supply == Supply(|d.bytes|, true)))
            && Asked(d, n, b).Has(n)
  {
  }

  /** The symbol at a point, as the table is looked up; None if there is none, or too few bits for its code. */
  ghost function SymbolFrom(t: Table, d: Data, a: Point): Option<(Byte, Point)>
    requires IsTable(t)
  {
    var b := Asked(d, 16, a);
    match Lookup(t.lens, Big(d.bytes, a.p, 16))
    case Invalid => None
    case Symbol(i, n) => if i >= 256 || !b.Has(n) then None else Some((t.values[i], b.Behind(n)))
  }

  /** A value of n bits at a point; zero, and nothing consumed, if there are too few. */
  function ValueFrom(d: Data, n: nat, a: Point): (int, Point)
    requires n >= 1
  {
    var b := Asked(d, n, a);
    if b.Has(n) then (Extend(Big(d.bytes, a.p, n), n), b.Behind(n)) else (0, b)
  }
}
