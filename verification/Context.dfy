/** The byte source of the loaders (lib/stb_image.h, stbi__context) over memory: zero past the end. */
module Contexts {
  import opened Bits

  class Context {
    const input: seq<Byte>
    var pos: nat
    /** Reads past the end so far. */
    ghost var phantom: nat

    constructor (input: seq<Byte>)
      ensures this.input == input && Valid() && At() == 0
    {
      this.input := input;
      pos, phantom := 0, 0;
    }

    ghost predicate Valid()
      reads this
    {
      phantom > 0 ==> pos >= |input|
    }

    /** How many bytes have been asked for. */
    ghost function At(): nat
      reads this
    {
      pos + phantom
    }

    method Get8() returns (b: Byte)
      requires Valid()
      modifies this
      ensures Valid() && At() == old(At()) + 1 && b == ByteAt(input, old(At()))
    {
      if pos < |input| {
        b := input[pos];
        pos := pos + 1;
      } else {
        b := 0;
        phantom := phantom + 1;
      }
    }

    method Skip(n: nat)
      requires Valid()
      modifies this
      ensures Valid() && At() == old(At()) + n
    {
      if n == 0 {
        return;
      }
      pos := pos + n;
    }
  }
}
