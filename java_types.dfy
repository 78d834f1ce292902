/** Java's primitive `byte` and `long` as the record codec uses them. */
module JavaTypes {

  /** A Java `byte`: a signed two's-complement 8-bit integer. */
  newtype int8 = x: int | -128 <= x < 128

  const MinLong: int := -0x8000_0000_0000_0000
  const MaxLong: int := 0x7FFF_FFFF_FFFF_FFFF
  const LongModulus: int := 0x1_0000_0000_0000_0000

  /** The values a Java `long` can hold. */
  predicate IsLong(x: int) {
    MinLong <= x <= MaxLong
  }

  /** `0xff & b`: the byte read as an unsigned value. */
  function Unsigned(b: int8): (u: int)
    ensures 0 <= u < 256
    ensures u % 256 == (b as int) % 256
  {
    if b < 0 then b as int + 256 else b as int
  }

  /** `(byte) u` for an unsigned value `u` (Java keeps the low 8 bits). */
  function ToByte(u: int): (b: int8)
    requires 0 <= u < 256
    ensures Unsigned(b) == u
  {
    if u < 128 then u as int8 else (u - 256) as int8
  }

  /** The result of a Java `long` computation whose exact value is `x`:
      two's-complement wrap-around modulo 2^64. */
  function WrapLong(x: int): (r: int)
    ensures IsLong(r)
    ensures (r - x) % LongModulus == 0
    ensures IsLong(x) ==> r == x
  {
    (x - MinLong) % LongModulus + MinLong
  }

  /** `(char) b`: Java sign-extends the byte and keeps the low 16 bits. */
  function ByteToChar(b: int8): (c: char)
    ensures c as int == (b as int) % 0x10000
    ensures (c as int) % 256 == Unsigned(b)
  {
    if b < 0 then (b as int + 0x10000) as char else b as int as char
  }
}
