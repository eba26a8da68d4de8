/**
 C integer types and arithmetic where they differ from Dafny's.

 Dafny's `/` and `%` are Euclidean; C's `/` and `%` truncate toward zero.
 The renderer divides a possibly negative product (a bar's fill width) and
 the cash machine divides a user-supplied amount, so the C operators are
 written out here once. Bytes and 16-bit header fields are
 integers in the ranges of `uint8_t` and `uint16_t`; C's conversions into
 those types keep the value modulo 2^8 or 2^16.
 */
module CArith {

  type u8 = b: int | 0 <= b < 0x100
  type u16 = w: int | 0 <= w < 0x1_0000

  /** Euclidean division of a non-negative number by a positive one leaves
      a remainder in 0 .. b-1. */
  lemma DivBounds(n: int, b: int)
    requires n >= 0 && b > 0
    ensures 0 <= (n / b) * b <= n && n - (n / b) * b < b
  {
    assert n == (n / b) * b + n % b;
  }

  /** C's `a / b` for `int` with a positive divisor (every divisor in the
      modelled code is a positive constant): the quotient truncated toward
      zero. */
  function TruncDiv(a: int, b: int): (q: int)
    requires b > 0
    ensures a >= 0 ==> q == a / b
    ensures a >= 0 ==> 0 <= q * b <= a && a - q * b < b
    ensures a < 0 ==> a <= q * b <= 0 && q * b - a < b
  {
    if a >= 0 then
      DivBounds(a, b);
      a / b
    else
      DivBounds(-a, b);
      assert -((-a) / b) * b == -(((-a) / b) * b);
      -((-a) / b)
  }

  /** C's `a % b` for `int` with a positive divisor: the remainder that goes
      with `TruncDiv`, which has the sign of `a`. */
  function TruncMod(a: int, b: int): (m: int)
    requires b > 0
    ensures a == TruncDiv(a, b) * b + m
    ensures a >= 0 ==> m == a % b && 0 <= m < b
    ensures a < 0 ==> -b < m <= 0
  {
    a - TruncDiv(a, b) * b
  }

  /** The C idiom `v < lo ? lo : (v > hi ? hi : v)`. */
  function Clamp(v: int, lo: int, hi: int): (r: int)
    requires lo <= hi
    ensures lo <= r <= hi
    ensures lo <= v <= hi ==> r == v
    ensures v < lo ==> r == lo
    ensures v > hi ==> r == hi
  {
    if v < lo then lo else if v > hi then hi else v
  }

  /** `(uint8_t)v`. */
  function U8(v: int): (b: u8)
    ensures 0 <= v < 0x100 ==> b == v
    ensures (v - b) % 0x100 == 0
  {
    v % 0x100
  }

  /** `(uint16_t)v`. */
  function U16(v: int): (w: u16)
    ensures 0 <= v < 0x1_0000 ==> w == v
    ensures (v - w) % 0x1_0000 == 0
  {
    v % 0x1_0000
  }

  /** `(uint8_t)(w & 0xFF)`: the low byte of a 16-bit field. */
  function LowByte(w: u16): u8 {
    w % 0x100
  }

  /** `(uint8_t)((w >> 8) & 0xFF)`: the high byte of a 16-bit field. */
  function HighByte(w: u16): u8 {
    w / 0x100
  }

  /** Low byte then high byte is the little-endian encoding of the field. */
  lemma LittleEndian(w: u16)
    ensures LowByte(w) + 0x100 * HighByte(w) == w
  {
  }
}
