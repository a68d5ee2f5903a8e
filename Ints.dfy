/** Java's fixed-width integer types and the two's-complement arithmetic the kernels use. */
module Ints {

  /** A Java `byte`. */
  type Byte = x: int | -0x80 <= x < 0x80

  /** A Java `short`. */
  type Short = x: int | -0x8000 <= x < 0x8000

  /** A Java `int`. */
  type Int32 = x: int | -0x8000_0000 <= x < 0x8000_0000

  /** The value of `b & 0xFF` for a Java `byte` b. */
  type U8 = x: int | 0 <= x < 0x100

  /** The `int` a Java computation yields for the exact value `x`: two's-complement wrap-around. */
  function Wrap32(x: int): Int32 {
    (x + 0x8000_0000) % 0x1_0000_0000 - 0x8000_0000
  }

  /** The `(short)` narrowing cast of a Java `int` (or of any exact value). */
  function Wrap16(x: int): Short {
    (x + 0x8000) % 0x1_0000 - 0x8000
  }

  /** Java `a + b` on `int`. */
  function Add32(a: Int32, b: Int32): Int32 { Wrap32(a + b) }

  /** Java `a - b` on `int`. */
  function Sub32(a: Int32, b: Int32): Int32 { Wrap32(a - b) }

  /** Java `a * b` on `int`. */
  function Mul32(a: Int32, b: Int32): Int32 { Wrap32(a * b) }

  /** Java unary `-a` on `int`: the most negative `int` is its own negation. */
  function Neg32(a: Int32): Int32 { if a == -0x8000_0000 then a else -a }

  /** Java `Math.abs(int)`: the negation wraps for the most negative `int`. */
  function Abs32(a: Int32): Int32 { if a < 0 then Wrap32(0 - a as int) else a }

  /** Java `b & 0xFF` for a `byte` b: its unsigned value, the one value in [0, 256) that
   *  differs from b by a multiple of 256. */
  function Unsigned(b: Byte): (r: U8)
    ensures r == b || r == b + 0x100
  {
    if b < 0 then b + 0x100 else b
  }

  /** A value already in `int` range is what Java computes. */
  lemma Wrap32InRange(x: int)
    requires -0x8000_0000 <= x < 0x8000_0000
    ensures Wrap32(x) == x
  {
  }

  /** Wrap32 only depends on its argument modulo 2^32. */
  lemma Wrap32Shift(x: int, m: int)
    ensures Wrap32(x + m * 0x1_0000_0000) == Wrap32(x)
  {
    var q := (x + 0x8000_0000) / 0x1_0000_0000;
    var r := (x + 0x8000_0000) % 0x1_0000_0000;
    assert x + m * 0x1_0000_0000 + 0x8000_0000 == (q + m) * 0x1_0000_0000 + r;
  }

  /** Wrap16 only depends on its argument modulo 2^16. */
  lemma Wrap16Shift(x: int, m: int)
    ensures Wrap16(x + m * 0x1_0000) == Wrap16(x)
  {
    var q := (x + 0x8000) / 0x1_0000;
    var r := (x + 0x8000) % 0x1_0000;
    assert x + m * 0x1_0000 + 0x8000 == (q + m) * 0x1_0000 + r;
  }

  /** Wrap32(x) differs from x by a multiple of 2^32. */
  lemma Wrap32Offset(x: int) returns (m: int)
    ensures Wrap32(x) == x + m * 0x1_0000_0000
  {
    m := -((x + 0x8000_0000) / 0x1_0000_0000);
  }

  /** Java `int` addition of two wrapped values wraps the exact sum. */
  lemma Add32OfWrapped(a: int, b: int)
    ensures Add32(Wrap32(a), Wrap32(b)) == Wrap32(a + b)
  {
    var ma := Wrap32Offset(a);
    var mb := Wrap32Offset(b);
    Wrap32Shift(a + b, ma + mb);
  }

  /** Narrowing a wrapped `int` to `short` is narrowing the exact value. */
  lemma Wrap16OfWrap32(x: int)
    ensures Wrap16(Wrap32(x)) == Wrap16(x)
  {
    var m := Wrap32Offset(x);
    Wrap16Shift(x, m * 0x1_0000);
  }
}
