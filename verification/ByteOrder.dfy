/** Numbers as 32-bit words and words as bytes, the highest first, as the streams hold them. */
module ByteOrder {
  import Arithmetic
  import Crc
  import opened Wrappers

  /** Four bytes as a word. */
  function Join(s: seq<bv8>): bv32
    requires |s| == 4
  {
    ((s[0] as bv32) << 24) | ((s[1] as bv32) << 16) | ((s[2] as bv32) << 8) | (s[3] as bv32)
  }

  lemma JoinBytes(w: bv32)
    ensures Join(Crc.BigEndian(w)) == w
  {
  }

  lemma BytesOf(a: bv8, b: bv8, c: bv8, d: bv8)
    ensures Crc.BigEndian(Join([a, b, c, d])) == [a, b, c, d]
  {
  }

  function Pick(c: bool, m: bv8): bv8 { if c then m else 0 }

  /** A byte from its bits, the highest first. */
  function FromBits(a: bool, b: bool, c: bool, d: bool, e: bool, f: bool, g: bool, h: bool): bv8 {
    Pick(a, 0x80) | Pick(b, 0x40) | Pick(c, 0x20) | Pick(d, 0x10) | Pick(e, 8) | Pick(f, 4) | Pick(g, 2) | Pick(h, 1)
  }

  predicate HasBit(s: bv8, m: bv8) { s & m != 0 }

  function Weight(c: bool, n: nat): nat { if c then n else 0 }

  /** The number a byte stands for. */
  function ByteValue(s: bv8): nat {
    Weight(HasBit(s, 0x80), 128) + Weight(HasBit(s, 0x40), 64) + Weight(HasBit(s, 0x20), 32) + Weight(HasBit(s, 0x10), 16)
    + Weight(HasBit(s, 8), 8) + Weight(HasBit(s, 4), 4) + Weight(HasBit(s, 2), 2) + Weight(HasBit(s, 1), 1)
  }

  lemma ByteSmall(b: bv8)
    ensures ByteValue(b) < 256
  {
    hide HasBit;
  }

  function Odd(n: nat, unit: nat): bool
    requires unit > 0
  {
    n / unit % 2 == 1
  }

  /** The byte of the low eight bits of a number. */
  function Digit(n: nat): bv8 {
    FromBits(Odd(n, 128), Odd(n, 64), Odd(n, 32), Odd(n, 16), Odd(n, 8), Odd(n, 4), Odd(n, 2), Odd(n, 1))
  }

  lemma BitsBack(a: bool, b: bool, c: bool, d: bool, e: bool, f: bool, g: bool, h: bool)
    ensures var s := FromBits(a, b, c, d, e, f, g, h);
            && HasBit(s, 0x80) == a && HasBit(s, 0x40) == b && HasBit(s, 0x20) == c && HasBit(s, 0x10) == d
            && HasBit(s, 8) == e && HasBit(s, 4) == f && HasBit(s, 2) == g && HasBit(s, 1) == h
  {
  }

  lemma BinaryDigits(n: nat)
    ensures Weight(Odd(n, 128), 128) + Weight(Odd(n, 64), 64) + Weight(Odd(n, 32), 32) + Weight(Odd(n, 16), 16)
            + Weight(Odd(n, 8), 8) + Weight(Odd(n, 4), 4) + Weight(Odd(n, 2), 2) + Weight(Odd(n, 1), 1) == n % 256
  {
    Halved(n, 1);
    Halved(n, 2);
    Halved(n, 4);
    Halved(n, 8);
    Halved(n, 16);
    Halved(n, 32);
    Halved(n, 64);
    Halved(n, 128);
  }

  lemma Halved(n: nat, unit: nat)
    requires unit > 0
    ensures n % (2 * unit) == n % unit + Weight(Odd(n, unit), unit)
  {
    var q := n / unit;
    Arithmetic.Place(n, q / 2, q % 2 * unit + n % unit, 2 * unit);
  }

  lemma DigitIs(n: nat)
    ensures ByteValue(Digit(n)) == n % 256
  {
    hide FromBits, HasBit, Odd, Weight;
    BitsBack(Odd(n, 128), Odd(n, 64), Odd(n, 32), Odd(n, 16), Odd(n, 8), Odd(n, 4), Odd(n, 2), Odd(n, 1));
    BinaryDigits(n);
  }

  /** The low 32 bits of a number. */
  function Int(n: int): bv32 {
    var m := n % 0x1_0000_0000;
    Join([Digit(m / 0x100_0000), Digit(m / 0x1_0000), Digit(m / 0x100), Digit(m)])
  }

  /** A word as the number it stands for. */
  function Value(w: bv32): nat {
    ValueOf(Crc.BigEndian(w))
  }

  lemma Digits(m: nat)
    requires m < 0x1_0000_0000
    ensures 0x100_0000 * (m / 0x100_0000 % 256) + 0x1_0000 * (m / 0x1_0000 % 256) + 0x100 * (m / 0x100 % 256) + m % 256 == m
  {
    assert m / 0x1_0000 == m / 0x100 / 0x100 && m / 0x100_0000 == m / 0x1_0000 / 0x100;
  }

  function ValueOf(s: seq<bv8>): nat
    requires |s| == 4
  {
    0x100_0000 * ByteValue(s[0]) + 0x1_0000 * ByteValue(s[1]) + 0x100 * ByteValue(s[2]) + ByteValue(s[3])
  }

  lemma ValueOfInt(n: int)
    ensures Value(Int(n)) == n % 0x1_0000_0000
  {
    var m := n % 0x1_0000_0000;
    BytesOf(Digit(m / 0x100_0000), Digit(m / 0x1_0000), Digit(m / 0x100), Digit(m));
    hide Join, Crc.BigEndian, Digit, ByteValue;
    DigitIs(m / 0x100_0000);
    DigitIs(m / 0x1_0000);
    DigitIs(m / 0x100);
    DigitIs(m);
    Digits(m);
  }
}
