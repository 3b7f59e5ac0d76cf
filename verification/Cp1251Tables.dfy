/** The two tables of the CP1251 codec (lib/encoding.h): the bytes of a character as a number, first byte lowest. */
module Cp1251Tables {
  import opened Wrappers
  import opened Bits

  /** For the bytes from 0x80 on; zero where there is no character. */
  const TO_UTF8: seq<seq<nat>> := [
    [0x82D0, 0x83D0, 0x9A80E2, 0x93D1, 0x9E80E2, 0xA680E2, 0xA080E2, 0xA180E2],
    [0xAC82E2, 0xB080E2, 0x89D0, 0xB980E2, 0x8AD0, 0x8CD0, 0x8BD0, 0x8FD0],
    [0x92D1, 0x9880E2, 0x9980E2, 0x9C80E2, 0x9D80E2, 0xA280E2, 0x9380E2, 0x9480E2],
    [0, 0xA284E2, 0x99D1, 0xBA80E2, 0x9AD1, 0x9CD1, 0x9BD1, 0x9FD1],
    [0xA0C2, 0x8ED0, 0x9ED1, 0x88D0, 0xA4C2, 0x90D2, 0xA6C2, 0xA7C2],
    [0x81D0, 0xA9C2, 0x84D0, 0xABC2, 0xACC2, 0xADC2, 0xAEC2, 0x87D0],
    [0xB0C2, 0xB1C2, 0x86D0, 0x96D1, 0x91D2, 0xB5C2, 0xB6C2, 0xB7C2],
    [0x91D1, 0x9684E2, 0x94D1, 0xBBC2, 0x98D1, 0x85D0, 0x95D1, 0x97D1],
    [0x90D0, 0x91D0, 0x92D0, 0x93D0, 0x94D0, 0x95D0, 0x96D0, 0x97D0],
    [0x98D0, 0x99D0, 0x9AD0, 0x9BD0, 0x9CD0, 0x9DD0, 0x9ED0, 0x9FD0],
    [0xA0D0, 0xA1D0, 0xA2D0, 0xA3D0, 0xA4D0, 0xA5D0, 0xA6D0, 0xA7D0],
    [0xA8D0, 0xA9D0, 0xAAD0, 0xABD0, 0xACD0, 0xADD0, 0xAED0, 0xAFD0],
    [0xB0D0, 0xB1D0, 0xB2D0, 0xB3D0, 0xB4D0, 0xB5D0, 0xB6D0, 0xB7D0],
    [0xB8D0, 0xB9D0, 0xBAD0, 0xBBD0, 0xBCD0, 0xBDD0, 0xBED0, 0xBFD0],
    [0x80D1, 0x81D1, 0x82D1, 0x83D1, 0x84D1, 0x85D1, 0x86D1, 0x87D1],
    [0x88D1, 0x89D1, 0x8AD1, 0x8BD1, 0x8CD1, 0x8DD1, 0x8ED1, 0x8FD1]
  ]

  function ToUtf8(k: nat): nat
    requires k < 128
  {
    TO_UTF8[k / 8][k % 8]
  }

  /** The bytes of a character of two or three bytes, first byte lowest. */
  predicate IsCharacter(v: nat) {
    || (v < 0x1_0000 && 0xC2 <= v % 0x100 < 0xE0 && 0x80 <= v / 0x100 < 0xC0)
    || (v % 0x100 == 0xE2 && 0x80 <= v / 0x100 % 0x100 < 0xC0 && 0x80 <= v / 0x1_0000 < 0xC0)
  }

  function FromUtf8(v: int): Option<Byte> {
    match v
    case 0x82D0 => Some(0x80)
    case 0x83D0 => Some(0x81)
    case 0x9A80E2 => Some(0x82)
    case 0x93D1 => Some(0x83)
    case 0x9E80E2 => Some(0x84)
    case 0xA680E2 => Some(0x85)
    case 0xA080E2 => Some(0x86)
    case 0xA180E2 => Some(0x87)
    case 0xAC82E2 => Some(0x88)
    case 0xB080E2 => Some(0x89)
    case 0x89D0 => Some(0x8A)
    case 0xB980E2 => Some(0x8B)
    case 0x8AD0 => Some(0x8C)
    case 0x8CD0 => Some(0x8D)
    case 0x8BD0 => Some(0x8E)
    case 0x8FD0 => Some(0x8F)
    case 0x92D1 => Some(0x90)
    case 0x9880E2 => Some(0x91)
    case 0x9980E2 => Some(0x92)
    case 0x9C80E2 => Some(0x93)
    case 0x9D80E2 => Some(0x94)
    case 0xA280E2 => Some(0x95)
    case 0x9380E2 => Some(0x96)
    case 0x9480E2 => Some(0x97)
    case 0x0 => Some(0x98)
    case 0xA284E2 => Some(0x99)
    case 0x99D1 => Some(0x9A)
    case 0xBA80E2 => Some(0x9B)
    case 0x9AD1 => Some(0x9C)
    case 0x9CD1 => Some(0x9D)
    case 0x9BD1 => Some(0x9E)
    case 0x9FD1 => Some(0x9F)
    case 0xA0C2 => Some(0xA0)
    case 0x8ED0 => Some(0xA1)
    case 0x9ED1 => Some(0xA2)
    case 0x88D0 => Some(0xA3)
    case 0xA4C2 => Some(0xA4)
    case 0x90D2 => Some(0xA5)
    case 0xA6C2 => Some(0xA6)
    case 0xA7C2 => Some(0xA7)
    case 0x81D0 => Some(0xA8)
    case 0xA9C2 => Some(0xA9)
    case 0x84D0 => Some(0xAA)
    case 0xABC2 => Some(0xAB)
    case 0xACC2 => Some(0xAC)
    case 0xADC2 => Some(0xAD)
    case 0xAEC2 => Some(0xAE)
    case 0x87D0 => Some(0xAF)
    case 0xB0C2 => Some(0xB0)
    case 0xB1C2 => Some(0xB1)
    case 0x86D0 => Some(0xB2)
    case 0x96D1 => Some(0xB3)
    case 0x91D2 => Some(0xB4)
    case 0xB5C2 => Some(0xB5)
    case 0xB6C2 => Some(0xB6)
    case 0xB7C2 => Some(0xB7)
    case 0x91D1 => Some(0xB8)
    case 0x9684E2 => Some(0xB9)
    case 0x94D1 => Some(0xBA)
    case 0xBBC2 => Some(0xBB)
    case 0x98D1 => Some(0xBC)
    case 0x85D0 => Some(0xBD)
    case 0x95D1 => Some(0xBE)
    case 0x97D1 => Some(0xBF)
    case 0x90D0 => Some(0xC0)
    case 0x91D0 => Some(0xC1)
    case 0x92D0 => Some(0xC2)
    case 0x93D0 => Some(0xC3)
    case 0x94D0 => Some(0xC4)
    case 0x95D0 => Some(0xC5)
    case 0x96D0 => Some(0xC6)
    case 0x97D0 => Some(0xC7)
    case 0x98D0 => Some(0xC8)
    case 0x99D0 => Some(0xC9)
    case 0x9AD0 => Some(0xCA)
    case 0x9BD0 => Some(0xCB)
    case 0x9CD0 => Some(0xCC)
    case 0x9DD0 => Some(0xCD)
    case 0x9ED0 => Some(0xCE)
    case 0x9FD0 => Some(0xCF)
    case 0xA0D0 => Some(0xD0)
    case 0xA1D0 => Some(0xD1)
    case 0xA2D0 => Some(0xD2)
    case 0xA3D0 => Some(0xD3)
    case 0xA4D0 => Some(0xD4)
    case 0xA5D0 => Some(0xD5)
    case 0xA6D0 => Some(0xD6)
    case 0xA7D0 => Some(0xD7)
    case 0xA8D0 => Some(0xD8)
    case 0xA9D0 => Some(0xD9)
    case 0xAAD0 => Some(0xDA)
    case 0xABD0 => Some(0xDB)
    case 0xACD0 => Some(0xDC)
    case 0xADD0 => Some(0xDD)
    case 0xAED0 => Some(0xDE)
    case 0xAFD0 => Some(0xDF)
    case 0xB0D0 => Some(0xE0)
    case 0xB1D0 => Some(0xE1)
    case 0xB2D0 => Some(0xE2)
    case 0xB3D0 => Some(0xE3)
    case 0xB4D0 => Some(0xE4)
    case 0xB5D0 => Some(0xE5)
    case 0xB6D0 => Some(0xE6)
    case 0xB7D0 => Some(0xE7)
    case 0xB8D0 => Some(0xE8)
    case 0xB9D0 => Some(0xE9)
    case 0xBAD0 => Some(0xEA)
    case 0xBBD0 => Some(0xEB)
    case 0xBCD0 => Some(0xEC)
    case 0xBDD0 => Some(0xED)
    case 0xBED0 => Some(0xEE)
    case 0xBFD0 => Some(0xEF)
    case 0x80D1 => Some(0xF0)
    case 0x81D1 => Some(0xF1)
    case 0x82D1 => Some(0xF2)
    case 0x83D1 => Some(0xF3)
    case 0x84D1 => Some(0xF4)
    case 0x85D1 => Some(0xF5)
    case 0x86D1 => Some(0xF6)
    case 0x87D1 => Some(0xF7)
    case 0x88D1 => Some(0xF8)
    case 0x89D1 => Some(0xF9)
    case 0x8AD1 => Some(0xFA)
    case 0x8BD1 => Some(0xFB)
    case 0x8CD1 => Some(0xFC)
    case 0x8DD1 => Some(0xFD)
    case 0x8ED1 => Some(0xFE)
    case 0x8FD1 => Some(0xFF)
    case _ => None
  }

  /** The second table is the inverse of the first. */
  lemma TablesAreInverse(k: nat)
    requires k < 128
    ensures FromUtf8(ToUtf8(k)) == Some(0x80 + k)
  {
    hide FromUtf8, IsCharacter;
    var r, j := k / 8, k % 8;
    if r < 2 {
      TablesAreInverse0(r, j);
    } else if r < 4 {
      TablesAreInverse1(r, j);
    } else if r < 6 {
      TablesAreInverse2(r, j);
    } else if r < 8 {
      TablesAreInverse3(r, j);
    } else if r < 10 {
      TablesAreInverse4(r, j);
    } else if r < 12 {
      TablesAreInverse5(r, j);
    } else if r < 14 {
      TablesAreInverse6(r, j);
    } else {
      TablesAreInverse7(r, j);
    }
  }

  lemma TablesAreInverse0(r: nat, j: nat)
    requires r < 2 && j < 8
    ensures FromUtf8(TO_UTF8[r][j]) == Some(0x80 + 8 * r + j)
  {
  }

  lemma TablesAreInverse1(r: nat, j: nat)
    requires 2 <= r < 4 && j < 8
    ensures FromUtf8(TO_UTF8[r][j]) == Some(0x80 + 8 * r + j)
  {
  }

  lemma TablesAreInverse2(r: nat, j: nat)
    requires 4 <= r < 6 && j < 8
    ensures FromUtf8(TO_UTF8[r][j]) == Some(0x80 + 8 * r + j)
  {
  }

  lemma TablesAreInverse3(r: nat, j: nat)
    requires 6 <= r < 8 && j < 8
    ensures FromUtf8(TO_UTF8[r][j]) == Some(0x80 + 8 * r + j)
  {
  }

  lemma TablesAreInverse4(r: nat, j: nat)
    requires 8 <= r < 10 && j < 8
    ensures FromUtf8(TO_UTF8[r][j]) == Some(0x80 + 8 * r + j)
  {
  }

  lemma TablesAreInverse5(r: nat, j: nat)
    requires 10 <= r < 12 && j < 8
    ensures FromUtf8(TO_UTF8[r][j]) == Some(0x80 + 8 * r + j)
  {
  }

  lemma TablesAreInverse6(r: nat, j: nat)
    requires 12 <= r < 14 && j < 8
    ensures FromUtf8(TO_UTF8[r][j]) == Some(0x80 + 8 * r + j)
  {
  }

  lemma TablesAreInverse7(r: nat, j: nat)
    requires 14 <= r < 16 && j < 8
    ensures FromUtf8(TO_UTF8[r][j]) == Some(0x80 + 8 * r + j)
  {
  }

  /** Nothing else is in the second table. */
  lemma NothingElse(v: int)
    ensures FromUtf8(v).Some? ==> FromUtf8(v).value >= 0x80 && ToUtf8(FromUtf8(v).value - 0x80) == v
  {
    hide FromUtf8, ToUtf8;
    match FromUtf8(v)
    case None =>
    case Some(b) =>
      NoSmallByte(v);
      var k: int := b - 0x80;
      if k < 16 {
        NothingElse0(v, k);
      } else if k < 32 {
        NothingElse1(v, k);
      } else if k < 48 {
        NothingElse2(v, k);
      } else if k < 64 {
        NothingElse3(v, k);
      } else if k < 80 {
        NothingElse4(v, k);
      } else if k < 96 {
        NothingElse5(v, k);
      } else if k < 112 {
        NothingElse6(v, k);
      } else {
        NothingElse7(v, k);
      }
  }

  lemma NoSmallByte(v: int)
    ensures FromUtf8(v).Some? ==> FromUtf8(v).value >= 0x80
  {
  }

  lemma NothingElse0(v: int, k: nat)
    requires k < 16 && FromUtf8(v) == Some(0x80 + k)
    ensures ToUtf8(k) == v
  {
  }

  lemma NothingElse1(v: int, k: nat)
    requires 16 <= k < 32 && FromUtf8(v) == Some(0x80 + k)
    ensures ToUtf8(k) == v
  {
  }

  lemma NothingElse2(v: int, k: nat)
    requires 32 <= k < 48 && FromUtf8(v) == Some(0x80 + k)
    ensures ToUtf8(k) == v
  {
  }

  lemma NothingElse3(v: int, k: nat)
    requires 48 <= k < 64 && FromUtf8(v) == Some(0x80 + k)
    ensures ToUtf8(k) == v
  {
  }

  lemma NothingElse4(v: int, k: nat)
    requires 64 <= k < 80 && FromUtf8(v) == Some(0x80 + k)
    ensures ToUtf8(k) == v
  {
  }

  lemma NothingElse5(v: int, k: nat)
    requires 80 <= k < 96 && FromUtf8(v) == Some(0x80 + k)
    ensures ToUtf8(k) == v
  {
  }

  lemma NothingElse6(v: int, k: nat)
    requires 96 <= k < 112 && FromUtf8(v) == Some(0x80 + k)
    ensures ToUtf8(k) == v
  {
  }

  lemma NothingElse7(v: int, k: nat)
    requires 112 <= k < 128 && FromUtf8(v) == Some(0x80 + k)
    ensures ToUtf8(k) == v
  {
  }

  /** The characters are two or three bytes long, and complete. */
  lemma TableShape(k: nat)
    requires k < 128 && ToUtf8(k) != 0
    ensures IsCharacter(ToUtf8(k))
  {
    hide FromUtf8, IsCharacter;
    var r, j := k / 8, k % 8;
    if r < 2 {
      TableShape0(r, j);
    } else if r < 4 {
      TableShape1(r, j);
    } else if r < 6 {
      TableShape2(r, j);
    } else if r < 8 {
      TableShape3(r, j);
    } else if r < 10 {
      TableShape4(r, j);
    } else if r < 12 {
      TableShape5(r, j);
    } else if r < 14 {
      TableShape6(r, j);
    } else {
      TableShape7(r, j);
    }
  }

  lemma TableShape0(r: nat, j: nat)
    requires r < 2 && j < 8 && TO_UTF8[r][j] != 0
    ensures IsCharacter(TO_UTF8[r][j])
  {
    hide FromUtf8;
  }

  lemma TableShape1(r: nat, j: nat)
    requires 2 <= r < 4 && j < 8 && TO_UTF8[r][j] != 0
    ensures IsCharacter(TO_UTF8[r][j])
  {
    hide FromUtf8;
  }

  lemma TableShape2(r: nat, j: nat)
    requires 4 <= r < 6 && j < 8 && TO_UTF8[r][j] != 0
    ensures IsCharacter(TO_UTF8[r][j])
  {
    hide FromUtf8;
  }

  lemma TableShape3(r: nat, j: nat)
    requires 6 <= r < 8 && j < 8 && TO_UTF8[r][j] != 0
    ensures IsCharacter(TO_UTF8[r][j])
  {
    hide FromUtf8;
  }

  lemma TableShape4(r: nat, j: nat)
    requires 8 <= r < 10 && j < 8 && TO_UTF8[r][j] != 0
    ensures IsCharacter(TO_UTF8[r][j])
  {
    hide FromUtf8;
  }

  lemma TableShape5(r: nat, j: nat)
    requires 10 <= r < 12 && j < 8 && TO_UTF8[r][j] != 0
    ensures IsCharacter(TO_UTF8[r][j])
  {
    hide FromUtf8;
  }

  lemma TableShape6(r: nat, j: nat)
    requires 12 <= r < 14 && j < 8 && TO_UTF8[r][j] != 0
    ensures IsCharacter(TO_UTF8[r][j])
  {
    hide FromUtf8;
  }

  lemma TableShape7(r: nat, j: nat)
    requires 14 <= r < 16 && j < 8 && TO_UTF8[r][j] != 0
    ensures IsCharacter(TO_UTF8[r][j])
  {
    hide FromUtf8;
  }

  /** The Unicode code points of CP1251 from 0x80 to 0xBF; zero where there is no character. */
  const CODE_POINTS: seq<seq<nat>> := [
    [0x402, 0x403, 0x201A, 0x453, 0x201E, 0x2026, 0x2020, 0x2021],
    [0x20AC, 0x2030, 0x409, 0x2039, 0x40A, 0x40C, 0x40B, 0x40F],
    [0x452, 0x2018, 0x2019, 0x201C, 0x201D, 0x2022, 0x2013, 0x2014],
    [0, 0x2122, 0x459, 0x203A, 0x45A, 0x45C, 0x45B, 0x45F],
    [0xA0, 0x40E, 0x45E, 0x408, 0xA4, 0x490, 0xA6, 0xA7],
    [0x401, 0xA9, 0x404, 0xAB, 0xAC, 0xAD, 0xAE, 0x407],
    [0xB0, 0xB1, 0x406, 0x456, 0x491, 0xB5, 0xB6, 0xB7],
    [0x451, 0x2116, 0x454, 0xBB, 0x458, 0x405, 0x455, 0x457]
  ]

  function CodePointOf(r: nat, j: nat): nat
    requires r < 16 && j < 8
  {
    if r < 8 then CODE_POINTS[r][j] else 0x350 + 0x80 + 8 * r + j
  }

  /** The code point of a byte, zero for 0x98. */
  function CodePoint(b: Byte): nat {
    if b < 0x80 then b else CodePointOf((b - 0x80) / 8, b % 8)
  }

  /** The bytes of a code point of two or three bytes as a number, first byte lowest. */
  function BytesOf(c: nat): nat {
    if c == 0 then 0
    else if c < 0x800 then 0xC0 + c / 0x40 + 0x100 * (0x80 + c % 0x40)
    else 0xE0 + c / 0x1000 + 0x100 * (0x80 + c / 0x40 % 0x40) + 0x1_0000 * (0x80 + c % 0x40)
  }

  /** The table holds the UTF-8 forms of these code points. */
  lemma TableIsCodePoints(k: nat)
    requires k < 128
    ensures ToUtf8(k) == BytesOf(CodePoint(0x80 + k)) && CodePoint(0x80 + k) < 0x1_0000
    ensures CodePoint(0x80 + k) == 0 || CodePoint(0x80 + k) >= 0x80
  {
    hide BytesOf, CodePointOf;
    var r, j := k / 8, k % 8;
    if r < 2 {
      CodePoints0(r, j);
    } else if r < 4 {
      CodePoints1(r, j);
    } else if r < 6 {
      CodePoints2(r, j);
    } else if r < 8 {
      CodePoints3(r, j);
    } else if r < 12 {
      CodePoints4(r, j);
    } else {
      CodePoints5(r, j);
    }
  }

  lemma CodePoints0(r: nat, j: nat)
    requires r < 2 && j < 8
    ensures TO_UTF8[r][j] == BytesOf(CodePointOf(r, j)) && CodePointOf(r, j) < 0x1_0000
    ensures CodePointOf(r, j) == 0 || CodePointOf(r, j) >= 0x80
  {
  }

  lemma CodePoints1(r: nat, j: nat)
    requires 2 <= r < 4 && j < 8
    ensures TO_UTF8[r][j] == BytesOf(CodePointOf(r, j)) && CodePointOf(r, j) < 0x1_0000
    ensures CodePointOf(r, j) == 0 || CodePointOf(r, j) >= 0x80
  {
  }

  lemma CodePoints2(r: nat, j: nat)
    requires 4 <= r < 6 && j < 8
    ensures TO_UTF8[r][j] == BytesOf(CodePointOf(r, j)) && CodePointOf(r, j) < 0x1_0000
    ensures CodePointOf(r, j) == 0 || CodePointOf(r, j) >= 0x80
  {
  }

  lemma CodePoints3(r: nat, j: nat)
    requires 6 <= r < 8 && j < 8
    ensures TO_UTF8[r][j] == BytesOf(CodePointOf(r, j)) && CodePointOf(r, j) < 0x1_0000
    ensures CodePointOf(r, j) == 0 || CodePointOf(r, j) >= 0x80
  {
  }

  lemma CodePoints4(r: nat, j: nat)
    requires 8 <= r < 12 && j < 8
    ensures TO_UTF8[r][j] == BytesOf(CodePointOf(r, j)) && CodePointOf(r, j) < 0x1_0000
    ensures CodePointOf(r, j) == 0 || CodePointOf(r, j) >= 0x80
  {
  }

  lemma CodePoints5(r: nat, j: nat)
    requires 12 <= r < 16 && j < 8
    ensures TO_UTF8[r][j] == BytesOf(CodePointOf(r, j)) && CodePointOf(r, j) < 0x1_0000
    ensures CodePointOf(r, j) == 0 || CodePointOf(r, j) >= 0x80
  {
  }
}
