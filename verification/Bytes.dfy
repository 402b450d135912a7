/** Bytes and their values. */
module Bytes {
  type byte = bv8

  function FromBits(b0: bool, b1: bool, b2: bool, b3: bool, b4: bool, b5: bool, b6: bool, b7: bool): byte {
    (if b0 then 1 else 0) | (if b1 then 2 else 0) | (if b2 then 4 else 0) | (if b3 then 8 else 0)
    | (if b4 then 16 else 0) | (if b5 then 32 else 0) | (if b6 then 64 else 0) | (if b7 then 128 else 0)
  }

  /** The value of eight bits. */
  function Sum(b0: bool, b1: bool, b2: bool, b3: bool, b4: bool, b5: bool, b6: bool, b7: bool): (v: nat)
    ensures v < 256
  {
    (if b0 then 1 else 0) + (if b1 then 2 else 0) + (if b2 then 4 else 0) + (if b3 then 8 else 0)
    + (if b4 then 16 else 0) + (if b5 then 32 else 0) + (if b6 then 64 else 0) + (if b7 then 128 else 0)
  }

  function Octet(r: nat): byte
    requires r < 256
  {
    FromBits(r % 2 == 1, r / 2 % 2 == 1, r / 4 % 2 == 1, r / 8 % 2 == 1,
             r / 16 % 2 == 1, r / 32 % 2 == 1, r / 64 % 2 == 1, r / 128 % 2 == 1)
  }

  /** The low eight bits. */
  function ByteOf(v: nat): byte { Octet(v % 256) }

  function ValueOf(b: byte): (v: nat)
    ensures v < 256
  {
    Sum(b & 1 != 0, b & 2 != 0, b & 4 != 0, b & 8 != 0, b & 16 != 0, b & 32 != 0, b & 64 != 0, b & 128 != 0)
  }

  lemma BitsOf(b0: bool, b1: bool, b2: bool, b3: bool, b4: bool, b5: bool, b6: bool, b7: bool)
    ensures ValueOf(FromBits(b0, b1, b2, b3, b4, b5, b6, b7)) == Sum(b0, b1, b2, b3, b4, b5, b6, b7)
  {
  }

  lemma SumOfBits(r: nat)
    requires r < 256
    ensures Sum(r % 2 == 1, r / 2 % 2 == 1, r / 4 % 2 == 1, r / 8 % 2 == 1,
                r / 16 % 2 == 1, r / 32 % 2 == 1, r / 64 % 2 == 1, r / 128 % 2 == 1) == r
  {
    hide Sum;
    BitSum(r % 2, r / 2 % 2, r / 4 % 2, r / 8 % 2, r / 16 % 2, r / 32 % 2, r / 64 % 2, r / 128 % 2);
    LowBits(r);
    HighBits(r / 16);
    assert r / 16 / 2 == r / 32 && r / 16 / 4 == r / 64 && r / 16 / 8 == r / 128;
  }

  lemma LowBits(r: nat)
    ensures r == r % 2 + 2 * (r / 2 % 2) + 4 * (r / 4 % 2) + 8 * (r / 8 % 2) + 16 * (r / 16)
  {
    assert r / 2 / 2 == r / 4 && r / 4 / 2 == r / 8 && r / 8 / 2 == r / 16;
  }

  lemma HighBits(h: nat)
    requires h < 16
    ensures h == h % 2 + 2 * (h / 2 % 2) + 4 * (h / 4 % 2) + 8 * (h / 8 % 2)
  {
    assert h / 2 / 2 == h / 4 && h / 4 / 2 == h / 8;
  }

  lemma BitSum(b0: nat, b1: nat, b2: nat, b3: nat, b4: nat, b5: nat, b6: nat, b7: nat)
    requires b0 < 2 && b1 < 2 && b2 < 2 && b3 < 2 && b4 < 2 && b5 < 2 && b6 < 2 && b7 < 2
    ensures Sum(b0 == 1, b1 == 1, b2 == 1, b3 == 1, b4 == 1, b5 == 1, b6 == 1, b7 == 1)
         == b0 + 2 * b1 + 4 * b2 + 8 * b3 + 16 * b4 + 32 * b5 + 64 * b6 + 128 * b7
  {
  }

  lemma ValueOfByte(v: nat)
    ensures ValueOf(ByteOf(v)) == v % 256
  {
    hide FromBits, Sum;
    var r := v % 256;
    SumOfBits(r);
    BitsOf(r % 2 == 1, r / 2 % 2 == 1, r / 4 % 2 == 1, r / 8 % 2 == 1,
           r / 16 % 2 == 1, r / 32 % 2 == 1, r / 64 % 2 == 1, r / 128 % 2 == 1);
  }

  /** Both conversions in numbers. */
  lemma ByteNumbers(b: byte, v: nat)
    ensures ValueOf(b) == b as nat && ByteOf(v) as nat == v % 256
  {
    hide Octet;
    ValueOfByte(v);
    ValueIsNumber(b);
    ValueIsNumber(ByteOf(v));
  }

  lemma ValueIsNumber(b: byte)
    ensures ValueOf(b) == b as nat
  {
  }

  lemma SumInjective(a0: bool, a1: bool, a2: bool, a3: bool, a4: bool, a5: bool, a6: bool, a7: bool,
                     b0: bool, b1: bool, b2: bool, b3: bool, b4: bool, b5: bool, b6: bool, b7: bool)
    requires Sum(a0, a1, a2, a3, a4, a5, a6, a7) == Sum(b0, b1, b2, b3, b4, b5, b6, b7)
    ensures a0 == b0 && a1 == b1 && a2 == b2 && a3 == b3 && a4 == b4 && a5 == b5 && a6 == b6 && a7 == b7
  {
  }

  lemma SameBits(x: byte, y: byte)
    requires (x & 1 != 0) == (y & 1 != 0) && (x & 2 != 0) == (y & 2 != 0)
    requires (x & 4 != 0) == (y & 4 != 0) && (x & 8 != 0) == (y & 8 != 0)
    requires (x & 16 != 0) == (y & 16 != 0) && (x & 32 != 0) == (y & 32 != 0)
    requires (x & 64 != 0) == (y & 64 != 0) && (x & 128 != 0) == (y & 128 != 0)
    ensures x == y
  {
  }

  /** Bytes of the same value are the same. */
  lemma ValueInjective(x: byte, y: byte)
    requires ValueOf(x) == ValueOf(y)
    ensures x == y
  {
    hide Sum;
    SumInjective(x & 1 != 0, x & 2 != 0, x & 4 != 0, x & 8 != 0, x & 16 != 0, x & 32 != 0, x & 64 != 0, x & 128 != 0,
                 y & 1 != 0, y & 2 != 0, y & 4 != 0, y & 8 != 0, y & 16 != 0, y & 32 != 0, y & 64 != 0, y & 128 != 0);
    SameBits(x, y);
  }

  lemma XorTwice(x: byte, pad: byte)
    ensures (x ^ pad) ^ pad == x
  {
  }

  lemma ZeroXor(pad: byte)
    ensures 0 ^ pad == pad
  {
  }
}
