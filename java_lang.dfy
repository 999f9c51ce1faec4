/**
 * The Java values the Zipkin exporter works with: two's-complement `long`,
 * `int` and `short`, UTF-16 `char`, and `String` references that may be
 * null. Java `long` arithmetic wraps modulo 2^64; `Wrap` writes that
 * wrap-around out explicitly, since Dafny integers are unbounded.
 */
module JavaLang {

  datatype Option<+T> = None | Some(value: T)

  const TWO_TO_THE_64: int := 0x1_0000_0000_0000_0000
  const LONG_MIN: int := -0x8000_0000_0000_0000
  const LONG_MAX: int := 0x7FFF_FFFF_FFFF_FFFF

  /** A Java `long`. */
  type Long = x: int | -0x8000_0000_0000_0000 <= x < 0x8000_0000_0000_0000

  /** A Java `int`. */
  type Int = x: int | -0x8000_0000 <= x < 0x8000_0000

  /** A Java `short`. */
  type Short = x: int | -0x8000 <= x < 0x8000

  /** A Java `char`: one UTF-16 code unit, as `String.charAt` returns it. */
  type Char = x: int | 0 <= x < 0x1_0000

  /** A non-null Java `String`, as its sequence of UTF-16 code units. */
  type JString = seq<Char>

  /** A Java `String` reference, which may be null. */
  type NullableString = Option<JString>

  /** x and y agree modulo 2^64, i.e. denote the same 64-bit pattern. */
  predicate Congruent(x: int, y: int)
  {
    (x - y) % TWO_TO_THE_64 == 0
  }

  /** The Java `long` holding the low 64 bits of x, read as two's complement. */
  function Wrap(x: int): (r: Long)
    ensures Congruent(r, x)
    ensures LONG_MIN <= x <= LONG_MAX ==> r == x
  {
    var u := x % TWO_TO_THE_64;
    if u <= LONG_MAX then u else u - TWO_TO_THE_64
  }

  /** Congruent integers differ by a multiple of 2^64. */
  lemma CongruentMultiple(x: int, y: int) returns (k: int)
    requires Congruent(x, y)
    ensures x - y == k * TWO_TO_THE_64
  {
    k := (x - y) / TWO_TO_THE_64;
  }

  /** Integers that differ by a multiple of 2^64 are congruent. */
  lemma CongruentByMultiple(x: int, y: int, k: int)
    requires x - y == k * TWO_TO_THE_64
    ensures Congruent(x, y)
  {
  }

  /** Two integers with the same low 64 bits wrap to the same `long`. */
  lemma WrapCongruent(x: int, y: int)
    requires Congruent(x, y)
    ensures Wrap(x) == Wrap(y)
  {
    var k := CongruentMultiple(x, y);
    var qx, qy := x / TWO_TO_THE_64, y / TWO_TO_THE_64;
    var rx, ry := x % TWO_TO_THE_64, y % TWO_TO_THE_64;
    assert x == qx * TWO_TO_THE_64 + rx;
    assert y == qy * TWO_TO_THE_64 + ry;
    var d := qx - qy - k;
    assert d * TWO_TO_THE_64 == ry - rx;
    assert d == 0;
    assert rx == ry;
  }

  /** Java `a + b` on `long` operands. */
  function LongAdd(a: Long, b: Long): Long
  {
    Wrap(a + b)
  }

  /** Java `a * b` on `long` operands. */
  function LongMul(a: Long, b: Long): Long
  {
    Wrap(a * b)
  }

  /**
   * Wrapping the product before adding gives the same `long` as wrapping
   * once at the end: `a * b + c` may be read in exact arithmetic mod 2^64.
   */
  lemma MulAddWrapsOnce(a: Long, b: Long, c: Long)
    ensures LongAdd(LongMul(a, b), c) == Wrap(a * b + c)
  {
    var p := a * b;
    assert Congruent(Wrap(p) + c, p + c);
    WrapCongruent(Wrap(p) + c, p + c);
  }
}
