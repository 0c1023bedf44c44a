/**
 * The key serializers of the older `com.darkyen.ud` package.
 *
 * Its unsigned and enum serializers are the same expressions as the current
 * ones and are modelled once, in `KeyCodec`. What differs is:
 *  - the signed bias is `0x7FFF_FFFF` instead of `Int.MIN_VALUE`, which
 *    keeps every value round-tripping but puts `MIN_VALUE` after every other
 *    value;
 *  - the float/double `deserialize` takes the "negative" branch when the top
 *    bit of the key is set, the opposite of what `serialize` wrote, so no
 *    float or double key decodes to the value it came from.
 */
module LegacyKeyCodec {
  import opened Wrappers
  import opened Bytes
  import opened KotlinInts
  import opened Ieee754
  import KeyCodec

  /** `BIAS32 = 0x7FFF_FFFF` */
  const BIAS32: Int32 := 0x7FFF_FFFF
  /** `BIAS64 = 0x7FFF_FFFF_FFFF_FFFFL` */
  const BIAS64: Int64 := 0x7FFF_FFFF_FFFF_FFFF

  // ----------------------------------------------------------------- Signed

  /** `IntKeySerializer.serialize`: `(value + BIAS32).toLong()`, the sum wrapping as an `Int`. */
  function SerializeInt(value: Int32): seq<uint8>
  {
    KeyCodec.WriteRawBE(Wrap32(value + BIAS32), 4)
  }

  /** `IntKeySerializer.deserialize`: `readRawBE(4).toInt() - BIAS32`. */
  function DeserializeInt(s: seq<uint8>): Result<Int32, KeyCodec.DecodeError>
  {
    match KeyCodec.ReadRawBE(s, 4)
    case Err(e) => Err(e)
    case Ok(v) => Ok(Wrap32(Wrap32(v) - BIAS32))
  }

  /** `LongKeySerializer.serialize`: `value + BIAS64`, wrapping. */
  function SerializeLong(value: Int64): seq<uint8>
  {
    KeyCodec.WriteRawBE(Wrap64(value + BIAS64), 8)
  }

  /** `LongKeySerializer.deserialize`: `readRawBE(8) - BIAS64`. */
  function DeserializeLong(s: seq<uint8>): Result<Int64, KeyCodec.DecodeError>
  {
    match KeyCodec.ReadRawBE(s, 8)
    case Err(e) => Err(e)
    case Ok(v) => Ok(Wrap64(v - BIAS64))
  }

  /** Adding the bias wraps only `MIN_VALUE`, to -1; subtracting it undoes the addition. */
  lemma IntBias(value: Int32)
    ensures Wrap32(value + BIAS32) % TWO_32 == if value == INT_MIN then TWO_32 - 1 else value + BIAS32
    ensures Wrap32(Wrap32(value + BIAS32) - BIAS32) == value
  {
    var x := value + BIAS32;
    Wrap32Cases(x);
    var b := Wrap32(x);
    Wrap32Cases(b - BIAS32);
    if value == INT_MIN {
      assert b == -1;
      ModUnder(b, TWO_32);
    } else if x < TWO_31 {
      assert b == x;
      ModBelow(b, TWO_32);
    } else {
      assert b == x - TWO_32;
      ModUnder(b, TWO_32);
    }
  }

  lemma LongBias(value: Int64)
    ensures Wrap64(value + BIAS64) % TWO_64 == if value == LONG_MIN then TWO_64 - 1 else value + BIAS64
    ensures Wrap64(Wrap64(value + BIAS64) - BIAS64) == value
  {
    var x := value + BIAS64;
    Wrap64Cases(x);
    var b := Wrap64(x);
    Wrap64Cases(b - BIAS64);
    if value == LONG_MIN {
      assert b == -1;
      ModUnder(b, TWO_64);
    } else if x < TWO_63 {
      assert b == x;
      ModBelow(b, TWO_64);
    } else {
      assert b == x - TWO_64;
      ModUnder(b, TWO_64);
    }
  }

  /** Above `MIN_VALUE` the key is the value shifted up by 2^31 - 1; `MIN_VALUE` wraps to the top. */
  lemma IntEncodedValue(value: Int32)
    ensures Value(SerializeInt(value)) == if value == INT_MIN then TWO_32 - 1 else value + BIAS32
  {
    KeyCodec.Pow256Widths();
    IntBias(value);
  }

  lemma LongEncodedValue(value: Int64)
    ensures Value(SerializeLong(value)) == if value == LONG_MIN then TWO_64 - 1 else value + BIAS64
  {
    KeyCodec.Pow256Widths();
    LongBias(value);
  }

  lemma IntRoundTrip(value: Int32)
    ensures DeserializeInt(SerializeInt(value)) == Ok(value)
  {
    KeyCodec.ReadWritten32(Wrap32(value + BIAS32));
    IntBias(value);
  }

  lemma LongRoundTrip(value: Int64)
    ensures DeserializeLong(SerializeLong(value)) == Ok(value)
  {
    KeyCodec.ReadWritten64(Wrap64(value + BIAS64));
    LongBias(value);
  }

  /** Signed order is byte order for every value above `MIN_VALUE`. */
  lemma IntOrderAboveMin(a: Int32, b: Int32)
    requires a != INT_MIN && b != INT_MIN
    ensures LexLess(SerializeInt(a), SerializeInt(b)) <==> a < b
  {
    IntEncodedValue(a);
    IntEncodedValue(b);
    LexLessIsValueLess(SerializeInt(a), SerializeInt(b));
  }

  lemma LongOrderAboveMin(a: Int64, b: Int64)
    requires a != LONG_MIN && b != LONG_MIN
    ensures LexLess(SerializeLong(a), SerializeLong(b)) <==> a < b
  {
    LongEncodedValue(a);
    LongEncodedValue(b);
    LexLessIsValueLess(SerializeLong(a), SerializeLong(b));
  }

  /** `Int.MIN_VALUE` is written as FF FF FF FF and sorts after every other value. */
  lemma IntMinSortsLast(b: Int32)
    requires b != INT_MIN
    ensures SerializeInt(INT_MIN) == [0xFF, 0xFF, 0xFF, 0xFF]
    ensures LexLess(SerializeInt(b), SerializeInt(INT_MIN))
  {
    IntEncodedValue(b);
    IntEncodedValue(INT_MIN);
    LexLessIsValueLess(SerializeInt(b), SerializeInt(INT_MIN));
    KeyCodec.Pow256Widths();
    var top: seq<uint8> := [0xFF, 0xFF, 0xFF, 0xFF];
    assert Value(top) == TWO_32 - 1 by {
      var one: seq<uint8>, two: seq<uint8>, three: seq<uint8> := [0xFF], [0xFF, 0xFF], [0xFF, 0xFF, 0xFF];
      assert one[..0] == [] && Value(one) == 0xFF;
      assert two[..1] == one && Value(two) == 0xFFFF;
      assert three[..2] == two && Value(three) == 0xFF_FFFF;
      assert top[..3] == three;
    }
    BigEndianValue(top);
    assert Wrap32(INT_MIN + BIAS32) == -1;
  }

  /** `Long.MIN_VALUE` sorts after every other value. */
  lemma LongMinSortsLast(b: Int64)
    requires b != LONG_MIN
    ensures LexLess(SerializeLong(b), SerializeLong(LONG_MIN))
  {
    LongEncodedValue(b);
    LongEncodedValue(LONG_MIN);
    LexLessIsValueLess(SerializeLong(b), SerializeLong(LONG_MIN));
  }

  // ---------------------------------------------------------- Float, Double

  /**
   * `FloatKeySerializer.serialize` on raw bits: `bits and BIAS32` is the
   * magnitude; a negative value gives `BIAS32 - masked`, a positive one
   * `BIAS32.inv() + masked` (`BIAS32.inv()` is `Int.MIN_VALUE`).
   */
  function SerializeFloat(bits: Int32): seq<uint8>
  {
    var masked := bits % TWO_31;
    var biasedBits := if bits < 0 then BIAS32 - masked else Wrap32(-TWO_31 + masked);
    KeyCodec.WriteRawBE(biasedBits, 4)
  }

  /**
   * `FloatKeySerializer.deserialize`, up to `Float.fromBits`: a set top bit
   * is taken for a negative value, `(BIAS32 - masked) or BIAS32.inv()`
   * (the operand is below 2^31, so the `or` adds the sign bit); a clear top
   * bit gives `masked - BIAS32.inv()`, wrapping as an `Int`.
   */
  function DeserializeFloat(s: seq<uint8>): Result<Int32, KeyCodec.DecodeError>
  {
    match KeyCodec.ReadRawBE(s, 4)
    case Err(e) => Err(e)
    case Ok(raw) => Ok(FloatUnbiased(Wrap32(raw)))
  }

  function FloatUnbiased(bits: Int32): Int32
  {
    var masked := bits % TWO_31;
    if bits < 0 then Wrap32((BIAS32 - masked) - TWO_31) else Wrap32(masked + TWO_31)
  }

  /** `DoubleKeySerializer.serialize` on raw bits. */
  function SerializeDouble(bits: Int64): seq<uint8>
  {
    var masked := bits % TWO_63;
    var biasedBits := if bits < 0 then BIAS64 - masked else Wrap64(-TWO_63 + masked);
    KeyCodec.WriteRawBE(biasedBits, 8)
  }

  /** `DoubleKeySerializer.deserialize`, up to `Double.fromBits`. */
  function DeserializeDouble(s: seq<uint8>): Result<Int64, KeyCodec.DecodeError>
  {
    match KeyCodec.ReadRawBE(s, 8)
    case Err(e) => Err(e)
    case Ok(bits) => Ok(DoubleUnbiased(bits))
  }

  function DoubleUnbiased(bits: Int64): Int64
  {
    var masked := bits % TWO_63;
    if bits < 0 then Wrap64((BIAS64 - masked) - TWO_63) else Wrap64(masked + TWO_63)
  }

  /** The older float keys are byte for byte the current ones, so they sort the same. */
  lemma FloatSerializeIsCurrent(bits: Int32)
    ensures SerializeFloat(bits) == KeyCodec.SerializeFloat(bits)
  {
  }

  lemma DoubleSerializeIsCurrent(bits: Int64)
    ensures SerializeDouble(bits) == KeyCodec.SerializeDouble(bits)
  {
  }

  /** Byte order of the older float keys is IEEE 754 totalOrder too. */
  lemma FloatTotalOrder(a: Int32, b: Int32)
    ensures LexLess(SerializeFloat(a), SerializeFloat(b))
        <==> TotalOrderLess(Binary32, KeyCodec.FloatPattern(a), KeyCodec.FloatPattern(b))
  {
    FloatSerializeIsCurrent(a);
    FloatSerializeIsCurrent(b);
    KeyCodec.FloatTotalOrder(a, b);
  }

  lemma DoubleTotalOrder(a: Int64, b: Int64)
    ensures LexLess(SerializeDouble(a), SerializeDouble(b))
        <==> TotalOrderLess(Binary64, KeyCodec.DoublePattern(a), KeyCodec.DoublePattern(b))
  {
    DoubleSerializeIsCurrent(a);
    DoubleSerializeIsCurrent(b);
    KeyCodec.DoubleTotalOrder(a, b);
  }

  /** What the older float reader makes of the bits of an unsigned key value v. */
  lemma FloatUnbiasedOf(v: int)
    requires 0 <= v < TWO_32
    ensures FloatUnbiased(Wrap32(v)) == if v >= TWO_31 then TWO_31 - 1 - v else v - TWO_31
  {
    Wrap32Cases(v);
    if v >= TWO_31 {
      ModUnder(v - TWO_32, TWO_31);
      Wrap32Cases(BIAS32 - (v - TWO_31) - TWO_31);
    } else {
      ModBelow(v, TWO_31);
      Wrap32Cases(v + TWO_31);
    }
  }

  lemma DoubleUnbiasedOf(v: int)
    requires 0 <= v < TWO_64
    ensures DoubleUnbiased(Wrap64(v)) == if v >= TWO_63 then TWO_63 - 1 - v else v - TWO_63
  {
    Wrap64Cases(v);
    if v >= TWO_63 {
      ModUnder(v - TWO_64, TWO_63);
      Wrap64Cases(BIAS64 - (v - TWO_63) - TWO_63);
    } else {
      ModBelow(v, TWO_63);
      Wrap64Cases(v + TWO_63);
    }
  }

  /** What the older float reader makes of a 4-byte key, by the key's value v. */
  lemma DeserializeFloatOf(s: seq<uint8>)
    requires |s| == 4
    ensures DeserializeFloat(s) == Ok(if Value(s) >= TWO_31 then TWO_31 - 1 - Value(s) else Value(s) - TWO_31)
  {
    KeyCodec.ReadFour(s);
    KeyCodec.Pow256Widths();
    FloatUnbiasedOf(Value(s));
  }

  lemma DeserializeDoubleOf(s: seq<uint8>)
    requires |s| == 8
    ensures DeserializeDouble(s) == Ok(if Value(s) >= TWO_63 then TWO_63 - 1 - Value(s) else Value(s) - TWO_63)
  {
    KeyCodec.ReadEight(s);
    KeyCodec.Pow256Widths();
    DoubleUnbiasedOf(Value(s));
  }

  /** A float key whose value is the sign-magnitude rank of bits, shifted, reads back as `-1 - magnitude`. */
  lemma FloatKeyReadsFlipped(bits: Int32, s: seq<uint8>)
    requires |s| == 4
    requires Value(s) == SignMagnitudeRank(KeyCodec.FloatPattern(bits)) + TWO_31
    ensures DeserializeFloat(s) == Ok(-1 - KeyCodec.FloatPattern(bits).magnitude)
  {
    KeyCodec.FloatMagnitude(bits);
    DeserializeFloatOf(s);
  }

  lemma DoubleKeyReadsFlipped(bits: Int64, s: seq<uint8>)
    requires |s| == 8
    requires Value(s) == SignMagnitudeRank(KeyCodec.DoublePattern(bits)) + TWO_63
    ensures DeserializeDouble(s) == Ok(-1 - KeyCodec.DoublePattern(bits).magnitude)
  {
    KeyCodec.DoubleMagnitude(bits);
    DeserializeDoubleOf(s);
  }

  /**
   * Reading a float key back gives the bits `-1 - magnitude`: the sign bit
   * set and the magnitude flipped. That is never the value written, so the
   * round trip fails for every float (0.0f comes back as the NaN FFFFFFFF).
   */
  lemma FloatRoundTripFails(bits: Int32)
    ensures DeserializeFloat(SerializeFloat(bits)) == Ok(-1 - KeyCodec.FloatPattern(bits).magnitude)
    ensures DeserializeFloat(SerializeFloat(bits)) != Ok(bits)
  {
    FloatSerializeIsCurrent(bits);
    KeyCodec.FloatEncodedValue(bits);
    FloatKeyReadsFlipped(bits, SerializeFloat(bits));
    KeyCodec.FloatMagnitude(bits);
  }

  /** Reading a double key back gives `-1 - magnitude`, never the value written. */
  lemma DoubleRoundTripFails(bits: Int64)
    ensures DeserializeDouble(SerializeDouble(bits)) == Ok(-1 - KeyCodec.DoublePattern(bits).magnitude)
    ensures DeserializeDouble(SerializeDouble(bits)) != Ok(bits)
  {
    DoubleSerializeIsCurrent(bits);
    KeyCodec.DoubleEncodedValue(bits);
    DoubleKeyReadsFlipped(bits, SerializeDouble(bits));
    KeyCodec.DoubleMagnitude(bits);
  }
}
