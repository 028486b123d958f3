// Numbers below 256 as bytes, bit by bit.

module Octets {
  import opened Bytes
  import opened Geometry

  predicate BitAt(i: nat, d: nat)
    requires 0 < d
  {
    i / d % 2 == 1
  }

  function Bit(c: bool, b: Byte): Byte {
    if c then b else 0
  }

  function FromBits(c0: bool, c1: bool, c2: bool, c3: bool, c4: bool, c5: bool, c6: bool, c7: bool): Byte {
    Bit(c0, 0x01) | Bit(c1, 0x02) | Bit(c2, 0x04) | Bit(c3, 0x08) |
    Bit(c4, 0x10) | Bit(c5, 0x20) | Bit(c6, 0x40) | Bit(c7, 0x80)
  }

  function Octet(i: nat): Byte
    requires i < 256
  {
    FromBits(BitAt(i, 1), BitAt(i, 2), BitAt(i, 4), BitAt(i, 8), BitAt(i, 16), BitAt(i, 32), BitAt(i, 64),
        BitAt(i, 128))
  }

  lemma BitsBack(c0: bool, c1: bool, c2: bool, c3: bool, c4: bool, c5: bool, c6: bool, c7: bool)
    ensures var b := FromBits(c0, c1, c2, c3, c4, c5, c6, c7);
            && (c0 <==> b & 0x01 != 0) && (c1 <==> b & 0x02 != 0) && (c2 <==> b & 0x04 != 0) && (c3 <==> b & 0x08 != 0)
            && (c4 <==> b & 0x10 != 0) && (c5 <==> b & 0x20 != 0) && (c6 <==> b & 0x40 != 0) && (c7 <==> b & 0x80 != 0)
  {}

  function If(c: bool, d: nat): (n: nat)
    ensures n <= d
  {
    if c then d else 0
  }

  function Nibble(c0: bool, c1: bool, c2: bool, c3: bool): (n: nat)
    ensures n < 16
  {
    If(c0, 1) + If(c1, 2) + If(c2, 4) + If(c3, 8)
  }

  lemma LowNibble(i: nat)
    ensures i == 16 * (i / 16) + Nibble(BitAt(i, 1), BitAt(i, 2), BitAt(i, 4), BitAt(i, 8))
  {
    hide BitAt, If;
    LowBit(i, 1);
    LowBit(i, 2);
    LowBit(i, 4);
    LowBit(i, 8);
    assert i / 1 == i;
  }

  lemma HighNibble(i: nat)
    requires i < 256
    ensures i / 16 == Nibble(BitAt(i, 16), BitAt(i, 32), BitAt(i, 64), BitAt(i, 128))
  {
    hide BitAt;
    LowBit(i, 16);
    LowBit(i, 32);
    LowBit(i, 64);
    LowBit(i, 128);
    assert i / 256 == 0;
  }

  function Weigh(c0: bool, c1: bool, c2: bool, c3: bool, c4: bool, c5: bool, c6: bool, c7: bool): (n: nat)
    ensures n < 256
  {
    Nibble(c0, c1, c2, c3) + 16 * Nibble(c4, c5, c6, c7)
  }

  // The number a byte stands for.
  function Value(b: Byte): (n: nat)
    ensures n < 256
  {
    Weigh(b & 0x01 != 0, b & 0x02 != 0, b & 0x04 != 0, b & 0x08 != 0,
          b & 0x10 != 0, b & 0x20 != 0, b & 0x40 != 0, b & 0x80 != 0)
  }

  lemma ValueOfOctet(i: nat)
    requires i < 256
    ensures Value(Octet(i)) == i
  {
    hide Weigh, BitAt;
    BitsBack(BitAt(i, 1), BitAt(i, 2), BitAt(i, 4), BitAt(i, 8), BitAt(i, 16), BitAt(i, 32), BitAt(i, 64),
        BitAt(i, 128));
    hide FromBits;
    WeighBits(i);
  }

  lemma WeighBits(i: nat)
    requires i < 256
    ensures Weigh(BitAt(i, 1), BitAt(i, 2), BitAt(i, 4), BitAt(i, 8), BitAt(i, 16), BitAt(i, 32), BitAt(i, 64),
            BitAt(i, 128)) == i
  {
    hide BitAt, Nibble;
    LowNibble(i);
    HighNibble(i);
  }

  // i / d is twice i / 2d, plus the bit.
  lemma LowBit(i: nat, d: nat)
    requires 0 < d
    ensures d * (i / d) == (2 * d) * (i / (2 * d)) + If(BitAt(i, d), d)
  {
    Halved(i, d);
    var a := i / d;
    Doubled(a, a / 2, a % 2, d);
    assert d * a == a * d;
    assert (2 * d) * (a / 2) == (a / 2) * (2 * d);
  }

  lemma Halved(i: nat, d: nat)
    requires 0 < d
    ensures i / d / 2 == i / (2 * d)
  {
    var a, f := i / d, i % d;
    var b, e := a / 2, a % 2;
    Doubled(a, b, e, d);
    DivModUnique(i, 2 * d, b, (if e == 0 then 0 else d) + f);
  }

  lemma Doubled(a: nat, b: nat, e: nat, d: nat)
    requires a == 2 * b + e && e < 2
    ensures a * d == b * (2 * d) + if e == 0 then 0 else d
  {
    assert (2 * b) * d == b * (2 * d);
    if e == 1 { assert a * d == (2 * b) * d + d; }
  }
}
