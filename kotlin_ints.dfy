/**
 * Kotlin's fixed-width integers. `Int` and `Long` are two's-complement and
 * wrap on overflow; the model keeps them as bounded mathematical integers and
 * writes every wrap-around out explicitly.
 */
module KotlinInts {

  const TWO_31: int := 0x8000_0000
  const TWO_32: int := 0x1_0000_0000
  const TWO_63: int := 0x8000_0000_0000_0000
  const TWO_64: int := 0x1_0000_0000_0000_0000

  /** A Kotlin `Int`. */
  type Int32 = x: int | -0x8000_0000 <= x < 0x8000_0000

  /** A Kotlin `Long`. */
  type Int64 = x: int | -0x8000_0000_0000_0000 <= x < 0x8000_0000_0000_0000

  /** `Int.MIN_VALUE` */
  const INT_MIN: Int32 := -0x8000_0000
  /** `Int.MAX_VALUE` */
  const INT_MAX: Int32 := 0x7FFF_FFFF
  /** `Long.MIN_VALUE` */
  const LONG_MIN: Int64 := -0x8000_0000_0000_0000
  /** `Long.MAX_VALUE` */
  const LONG_MAX: Int64 := 0x7FFF_FFFF_FFFF_FFFF

  /** The `Int` with the same low 32 bits as x: overflowing `Int` arithmetic and `Long.toInt()`. */
  function Wrap32(x: int): (r: Int32)
    ensures (r - x) % TWO_32 == 0
    ensures INT_MIN <= x <= INT_MAX ==> r == x
  {
    var m := x % TWO_32;
    if m >= TWO_31 then m - TWO_32 else m
  }

  /** The `Long` with the same low 64 bits as x: overflowing `Long` arithmetic. */
  function Wrap64(x: int): (r: Int64)
    ensures (r - x) % TWO_64 == 0
    ensures LONG_MIN <= x <= LONG_MAX ==> r == x
  {
    var m := x % TWO_64;
    if m >= TWO_63 then m - TWO_64 else m
  }

  /** The bits of an `Int` read as unsigned (`Int.toUInt()`). */
  function Unsigned32(x: Int32): (r: nat)
    ensures r < TWO_32 && Wrap32(r) == x
  {
    x % TWO_32
  }

  /** The bits of a `Long` read as unsigned (`Long.toULong()`). */
  function Unsigned64(x: Int64): (r: nat)
    ensures r < TWO_64 && Wrap64(r) == x
  {
    x % TWO_64
  }

  /** The remainder of a number already in range. */
  lemma ModBelow(x: int, m: int)
    requires 0 <= x < m
    ensures x % m == x
  {
  }

  /** The remainder of a number one modulus above the range. */
  lemma ModAbove(x: int, m: int)
    requires 0 < m <= x < 2 * m
    ensures x % m == x - m
  {
    ModBelow(x - m, m);
    assert (x - m) % m == x % m;
  }

  /** The remainder of a number one modulus below the range. */
  lemma ModUnder(x: int, m: int)
    requires 0 < m && -m <= x < 0
    ensures x % m == x + m
  {
    ModBelow(x + m, m);
    assert (x + m) % m == x % m;
  }

  /** `Long` wrap-around of a number within one modulus of the range. */
  lemma Wrap64Cases(x: int)
    ensures 0 <= x < TWO_63 ==> Wrap64(x) == x
    ensures TWO_63 <= x < TWO_64 ==> Wrap64(x) == x - TWO_64
    ensures -TWO_64 <= x < -TWO_63 ==> Wrap64(x) == x + TWO_64
    ensures -TWO_63 <= x < 0 ==> Wrap64(x) == x
  {
    if 0 <= x < TWO_64 {
      ModBelow(x, TWO_64);
    } else if -TWO_64 <= x < 0 {
      ModUnder(x, TWO_64);
    }
  }

  /** `Int` wrap-around of a number within one modulus of the range. */
  lemma Wrap32Cases(x: int)
    ensures 0 <= x < TWO_31 ==> Wrap32(x) == x
    ensures TWO_31 <= x < TWO_32 ==> Wrap32(x) == x - TWO_32
    ensures -TWO_32 <= x < -TWO_31 ==> Wrap32(x) == x + TWO_32
    ensures -TWO_31 <= x < 0 ==> Wrap32(x) == x
  {
    if 0 <= x < TWO_32 {
      ModBelow(x, TWO_32);
    } else if -TWO_32 <= x < 0 {
      ModUnder(x, TWO_32);
    }
  }
}
