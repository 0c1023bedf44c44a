/**
 * Order-preserving key serializers of the current package
 * (`BooleanKeySerializer`, `Unsigned{Int,Long}KeySerializer`,
 * `{Int,Long}KeySerializer`, `{Float,Double}KeySerializer`,
 * `EnumKeySerializer`). Every serializer is one arithmetic expression feeding
 * one raw big-endian write, so each is a pair of pure functions here.
 *
 * A float or double is represented by its raw bits (`toRawBits()`), a Kotlin
 * `Int` or `Long`; the codec never does floating-point arithmetic.
 */
module KeyCodec {
  import opened Wrappers
  import opened Bytes
  import opened KotlinInts
  import opened Ieee754

  /** Why a stored key could not be decoded. */
  datatype DecodeError =
    | EndOfKey                              // fewer bytes than the serializer reads
    | OrdinalOutOfBounds(ordinal: int)      // enum ordinal past the variant array
    | NotStartByte(b: int)                  // string: not a UTF-8 start byte
    | NotContinuationByte(b: int)           // string: missing or malformed continuation byte

  /**
   * `ByteWrite.writeRawBE(value, n)`: the low n bytes of the two's-complement
   * value, most significant first.
   */
  function WriteRawBE(value: Int64, n: nat): (r: seq<uint8>)
    requires 1 <= n <= 8
    ensures |r| == n && Value(r) == value % Pow256(n)
  {
    BigEndian(value % Pow256(n), n)
  }

  /**
   * `ByteRead.readRawBE(n)`: the first n bytes as a big-endian number,
   * returned as a `Long`; a key shorter than n bytes cannot be read.
   */
  function ReadRawBE(s: seq<uint8>, n: nat): (r: Result<Int64, DecodeError>)
    requires 1 <= n <= 8
    ensures r.Ok? <==> |s| >= n
  {
    if |s| < n then Err(EndOfKey) else Ok(Wrap64(Value(s[..n])))
  }

  lemma Pow256Widths()
    ensures Pow256(1) == 0x100 && Pow256(2) == 0x1_0000
    ensures Pow256(4) == TWO_32 && Pow256(8) == TWO_64
  {
  }

  /** Reading back what WriteRawBE wrote gives the written bits, widened. */
  lemma ReadWritten(value: Int64, n: nat)
    requires 1 <= n <= 8
    ensures ReadRawBE(WriteRawBE(value, n), n) == Ok(Wrap64(value % Pow256(n)))
  {
    var w := WriteRawBE(value, n);
    assert w[..n] == w;
  }

  // ---------------------------------------------------------------- Boolean

  /** `BooleanKeySerializer.serialize`: one byte, 1 for true and 0 for false. */
  function SerializeBoolean(value: bool): seq<uint8>
  {
    WriteRawBE(if value then 1 else 0, 1)
  }

  /** `BooleanKeySerializer.deserialize`: any non-zero byte reads as true. */
  function DeserializeBoolean(s: seq<uint8>): Result<bool, DecodeError>
  {
    match ReadRawBE(s, 1)
    case Err(e) => Err(e)
    case Ok(v) => Ok(v != 0)
  }

  lemma BooleanRoundTrip(value: bool)
    ensures SerializeBoolean(value) == [if value then 1 else 0]
    ensures DeserializeBoolean(SerializeBoolean(value)) == Ok(value)
  {
    Pow256Widths();
    ReadWritten(if value then 1 else 0, 1);
    BigEndianValue(SerializeBoolean(value));
  }

  lemma BooleanReadsNonZeroAsTrue(s: seq<uint8>)
    requires |s| >= 1
    ensures DeserializeBoolean(s) == Ok(s[0] != 0)
  {
    assert s[..1] == [s[0]];
    assert s[..1][..0] == [];
  }

  /** false sorts before true, and nothing else is ordered. */
  lemma BooleanOrder(a: bool, b: bool)
    ensures LexLess(SerializeBoolean(a), SerializeBoolean(b)) <==> !a && b
  {
    BooleanRoundTrip(a);
    BooleanRoundTrip(b);
  }

  // --------------------------------------------------------------- Unsigned

  /** `UnsignedIntKeySerializer.serialize`: the raw bits in 4 bytes. */
  function SerializeUnsignedInt(value: Int32): seq<uint8>
  {
    WriteRawBE(value, 4)
  }

  /** `UnsignedIntKeySerializer.deserialize`: 4 bytes, `toInt()`. */
  function DeserializeUnsignedInt(s: seq<uint8>): Result<Int32, DecodeError>
  {
    match ReadRawBE(s, 4)
    case Err(e) => Err(e)
    case Ok(v) => Ok(Wrap32(v))
  }

  /** `UnsignedLongKeySerializer.serialize`: the raw bits in 8 bytes. */
  function SerializeUnsignedLong(value: Int64): seq<uint8>
  {
    WriteRawBE(value, 8)
  }

  /** `UnsignedLongKeySerializer.deserialize` */
  function DeserializeUnsignedLong(s: seq<uint8>): Result<Int64, DecodeError>
  {
    ReadRawBE(s, 8)
  }

  lemma UnsignedIntRoundTrip(value: Int32)
    ensures DeserializeUnsignedInt(SerializeUnsignedInt(value)) == Ok(value)
  {
    ReadWritten32(value);
  }

  /** Byte order is the order of the values read as unsigned. */
  lemma UnsignedIntOrder(a: Int32, b: Int32)
    ensures LexLess(SerializeUnsignedInt(a), SerializeUnsignedInt(b)) <==> Unsigned32(a) < Unsigned32(b)
  {
    Pow256Widths();
    LexLessIsValueLess(SerializeUnsignedInt(a), SerializeUnsignedInt(b));
  }

  lemma UnsignedLongRoundTrip(value: Int64)
    ensures DeserializeUnsignedLong(SerializeUnsignedLong(value)) == Ok(value)
  {
    ReadWritten64(value);
  }

  lemma UnsignedLongOrder(a: Int64, b: Int64)
    ensures LexLess(SerializeUnsignedLong(a), SerializeUnsignedLong(b)) <==> Unsigned64(a) < Unsigned64(b)
  {
    Pow256Widths();
    LexLessIsValueLess(SerializeUnsignedLong(a), SerializeUnsignedLong(b));
  }

  // ----------------------------------------------------------------- Signed

  /** `BIAS32 = Int.MIN_VALUE`: adding it with wrap-around flips the sign bit. */
  const BIAS32: Int32 := INT_MIN
  /** `BIAS64 = Long.MIN_VALUE` */
  const BIAS64: Int64 := LONG_MIN

  /** `IntKeySerializer.serialize`: `(value + BIAS32).toLong()` in 4 bytes. */
  function SerializeInt(value: Int32): seq<uint8>
  {
    WriteRawBE(Wrap32(value + BIAS32), 4)
  }

  /** `IntKeySerializer.deserialize`: `readRawBE(4).toInt() - BIAS32`. */
  function DeserializeInt(s: seq<uint8>): Result<Int32, DecodeError>
  {
    match ReadRawBE(s, 4)
    case Err(e) => Err(e)
    case Ok(v) => Ok(Wrap32(Wrap32(v) - BIAS32))
  }

  /** `LongKeySerializer.serialize`: `value + BIAS64` in 8 bytes. */
  function SerializeLong(value: Int64): seq<uint8>
  {
    WriteRawBE(Wrap64(value + BIAS64), 8)
  }

  /** `LongKeySerializer.deserialize`: `readRawBE(8) - BIAS64`. */
  function DeserializeLong(s: seq<uint8>): Result<Int64, DecodeError>
  {
    match ReadRawBE(s, 8)
    case Err(e) => Err(e)
    case Ok(v) => Ok(Wrap64(v - BIAS64))
  }

  /** Adding the bias with wrap-around shifts the signed range onto 0 .. 2^32 - 1; subtracting it undoes that. */
  lemma IntBias(value: Int32)
    ensures Wrap32(value + BIAS32) % TWO_32 == value + TWO_31
    ensures Wrap32(Wrap32(value + BIAS32) - BIAS32) == value
  {
    var b := Wrap32(value + BIAS32);
    Wrap32Cases(value + BIAS32);
    Wrap32Cases(b - BIAS32);
    if value >= 0 {
      assert b == value - TWO_31;
      ModUnder(b, TWO_32);
    } else {
      assert b == value + TWO_31;
      ModBelow(b, TWO_32);
    }
  }

  lemma LongBias(value: Int64)
    ensures Wrap64(value + BIAS64) % TWO_64 == value + TWO_63
    ensures Wrap64(Wrap64(value + BIAS64) - BIAS64) == value
  {
    var b := Wrap64(value + BIAS64);
    Wrap64Cases(value + BIAS64);
    Wrap64Cases(b - BIAS64);
    if value >= 0 {
      assert b == value - TWO_63;
      ModUnder(b, TWO_64);
    } else {
      assert b == value + TWO_63;
      ModBelow(b, TWO_64);
    }
  }

  /** The biased encoding shifts the signed range onto 0 .. 2^32 - 1. */
  lemma IntEncodedValue(value: Int32)
    ensures Value(SerializeInt(value)) == value + TWO_31
  {
    Pow256Widths();
    IntBias(value);
  }

  lemma LongEncodedValue(value: Int64)
    ensures Value(SerializeLong(value)) == value + TWO_63
  {
    Pow256Widths();
    LongBias(value);
  }

  lemma IntRoundTrip(value: Int32)
    ensures DeserializeInt(SerializeInt(value)) == Ok(value)
  {
    ReadWritten32(Wrap32(value + BIAS32));
    IntBias(value);
  }

  /** Signed order of the values is unsigned byte order of their keys. */
  lemma IntOrder(a: Int32, b: Int32)
    ensures LexLess(SerializeInt(a), SerializeInt(b)) <==> a < b
  {
    IntEncodedValue(a);
    IntEncodedValue(b);
    LexLessIsValueLess(SerializeInt(a), SerializeInt(b));
  }

  lemma LongRoundTrip(value: Int64)
    ensures DeserializeLong(SerializeLong(value)) == Ok(value)
  {
    ReadWritten64(Wrap64(value + BIAS64));
    LongBias(value);
  }

  lemma LongOrder(a: Int64, b: Int64)
    ensures LexLess(SerializeLong(a), SerializeLong(b)) <==> a < b
  {
    LongEncodedValue(a);
    LongEncodedValue(b);
    LexLessIsValueLess(SerializeLong(a), SerializeLong(b));
  }

  // ---------------------------------------------------------- Float, Double

  /** `MASK32`: every bit below the sign bit of a `Float`. */
  const MASK32: Int32 := 0x7FFF_FFFF
  /** `MASK64`: every bit below the sign bit of a `Double`. */
  const MASK64: Int64 := 0x7FFF_FFFF_FFFF_FFFF

  /** The sign and the magnitude of `Float` raw bits. */
  function FloatPattern(bits: Int32): Bits
  {
    Bits(bits < 0, bits % TWO_31)
  }

  /** The sign and the magnitude of `Double` raw bits. */
  function DoublePattern(bits: Int64): Bits
  {
    Bits(bits < 0, bits % TWO_63)
  }

  /**
   * `FloatKeySerializer.serialize` on `value.toRawBits()`: `bits and MASK32`
   * is the magnitude and `(bits ushr 31) == 1` the sign; a negative value has
   * its magnitude flipped, a positive one the bias added.
   */
  function FloatBiased(bits: Int32): Int32
  {
    var masked := bits % TWO_31;
    if bits < 0 then MASK32 - masked else BIAS32 + masked
  }

  function SerializeFloat(bits: Int32): seq<uint8>
  {
    WriteRawBE(FloatBiased(bits), 4)
  }

  /**
   * `FloatKeySerializer.deserialize`, up to `Float.fromBits`: a clear top bit
   * marks a negative value, whose magnitude is unflipped and the sign bit
   * set (`or BIAS32`, here an addition since the operand is below 2^31).
   */
  function FloatUnbiased(bits: Int32): Int32
  {
    var masked := bits % TWO_31;
    if bits >= 0 then (MASK32 - masked) + BIAS32 else masked
  }

  function DeserializeFloat(s: seq<uint8>): Result<Int32, DecodeError>
  {
    match ReadRawBE(s, 4)
    case Err(e) => Err(e)
    case Ok(raw) => Ok(FloatUnbiased(Wrap32(raw)))
  }

  /** `DoubleKeySerializer.serialize` on `value.toRawBits()`. */
  function DoubleBiased(bits: Int64): Int64
  {
    var masked := bits % TWO_63;
    if bits < 0 then MASK64 - masked else BIAS64 + masked
  }

  function SerializeDouble(bits: Int64): seq<uint8>
  {
    WriteRawBE(DoubleBiased(bits), 8)
  }

  /** `DoubleKeySerializer.deserialize`, up to `Double.fromBits`. */
  function DoubleUnbiased(bits: Int64): Int64
  {
    var masked := bits % TWO_63;
    if bits >= 0 then (MASK64 - masked) + BIAS64 else masked
  }

  function DeserializeDouble(s: seq<uint8>): Result<Int64, DecodeError>
  {
    match ReadRawBE(s, 8)
    case Err(e) => Err(e)
    case Ok(bits) => Ok(DoubleUnbiased(bits))
  }

  lemma FormatWidths()
    ensures Pow2(Binary32.expBits + Binary32.fracBits) == TWO_31
    ensures Pow2(Binary64.expBits + Binary64.fracBits) == TWO_63
  {
    assert Binary32.expBits + Binary32.fracBits == 31;
    assert Binary64.expBits + Binary64.fracBits == 63;
    Pow2Values();
  }

  /** The sign-magnitude pattern of float bits: the magnitude is the bits without the sign. */
  lemma FloatMagnitude(bits: Int32)
    ensures FloatPattern(bits).magnitude == if bits < 0 then bits + TWO_31 else bits
  {
    if bits < 0 { ModUnder(bits, TWO_31); } else { ModBelow(bits, TWO_31); }
  }

  lemma DoubleMagnitude(bits: Int64)
    ensures DoublePattern(bits).magnitude == if bits < 0 then bits + TWO_63 else bits
  {
    if bits < 0 { ModUnder(bits, TWO_63); } else { ModBelow(bits, TWO_63); }
  }

  /** The biased bits of a float are its sign-magnitude rank, as a signed `Int`. */
  lemma FloatBiasedRank(bits: Int32)
    ensures FloatBiased(bits) == Wrap32(SignMagnitudeRank(FloatPattern(bits)) + TWO_31)
    ensures FloatBiased(bits) % TWO_32 == SignMagnitudeRank(FloatPattern(bits)) + TWO_31
  {
    FloatMagnitude(bits);
    var b := FloatBiased(bits);
    Wrap32Cases(SignMagnitudeRank(FloatPattern(bits)) + TWO_31);
    if bits < 0 {
      assert b == -1 - bits;
      ModBelow(b, TWO_32);
    } else {
      assert b == bits - TWO_31;
      ModUnder(b, TWO_32);
    }
  }

  lemma DoubleBiasedRank(bits: Int64)
    ensures DoubleBiased(bits) == Wrap64(SignMagnitudeRank(DoublePattern(bits)) + TWO_63)
    ensures DoubleBiased(bits) % TWO_64 == SignMagnitudeRank(DoublePattern(bits)) + TWO_63
  {
    DoubleMagnitude(bits);
    var b := DoubleBiased(bits);
    Wrap64Cases(SignMagnitudeRank(DoublePattern(bits)) + TWO_63);
    if bits < 0 {
      assert b == -1 - bits;
      ModBelow(b, TWO_64);
    } else {
      assert b == bits - TWO_63;
      ModUnder(b, TWO_64);
    }
  }

  /** Unbiasing undoes biasing. */
  lemma FloatUnbiasBias(bits: Int32)
    ensures FloatUnbiased(FloatBiased(bits)) == bits
  {
    var b := FloatBiased(bits);
    FloatMagnitude(bits);
    if bits < 0 {
      assert b == -1 - bits;
      ModBelow(b, TWO_31);
    } else {
      assert b == bits - TWO_31;
      ModUnder(b, TWO_31);
    }
  }

  lemma DoubleUnbiasBias(bits: Int64)
    ensures DoubleUnbiased(DoubleBiased(bits)) == bits
  {
    var b := DoubleBiased(bits);
    DoubleMagnitude(bits);
    if bits < 0 {
      assert b == -1 - bits;
      ModBelow(b, TWO_63);
    } else {
      assert b == bits - TWO_63;
      ModUnder(b, TWO_63);
    }
  }

  /** The key of a float, read as a number, is its sign-magnitude rank shifted to be non-negative. */
  lemma FloatEncodedValue(bits: Int32)
    ensures WellFormed(Binary32, FloatPattern(bits))
    ensures Value(SerializeFloat(bits)) == SignMagnitudeRank(FloatPattern(bits)) + TWO_31
  {
    FormatWidths();
    Pow256Widths();
    FloatBiasedRank(bits);
  }

  lemma DoubleEncodedValue(bits: Int64)
    ensures WellFormed(Binary64, DoublePattern(bits))
    ensures Value(SerializeDouble(bits)) == SignMagnitudeRank(DoublePattern(bits)) + TWO_63
  {
    FormatWidths();
    Pow256Widths();
    DoubleBiasedRank(bits);
  }

  /** The 4-byte key of x reads back as x, once narrowed to an `Int`. */
  lemma ReadWritten32(x: Int32)
    ensures ReadRawBE(WriteRawBE(x, 4), 4).Ok?
    ensures Wrap32(ReadRawBE(WriteRawBE(x, 4), 4).value) == x
  {
    Pow256Widths();
    ReadWritten(x, 4);
    var u := x % TWO_32;
    if x < 0 { ModUnder(x, TWO_32); } else { ModBelow(x, TWO_32); }
    Wrap64Cases(u);
    Wrap32Cases(u);
  }

  /** The 8-byte key of x reads back as x. */
  lemma ReadWritten64(x: Int64)
    ensures ReadRawBE(WriteRawBE(x, 8), 8) == Ok(x)
  {
    Pow256Widths();
    ReadWritten(x, 8);
    var u := x % TWO_64;
    if x < 0 { ModUnder(x, TWO_64); } else { ModBelow(x, TWO_64); }
    Wrap64Cases(u);
  }

  /** Any 4-byte key reads as its unsigned value. */
  lemma ReadFour(s: seq<uint8>)
    requires |s| == 4
    ensures ReadRawBE(s, 4) == Ok(Value(s))
  {
    Pow256Widths();
    assert s[..4] == s;
    Wrap64Cases(Value(s));
  }

  /** Any 8-byte key reads as its unsigned value, wrapped to a `Long`. */
  lemma ReadEight(s: seq<uint8>)
    requires |s| == 8
    ensures ReadRawBE(s, 8) == Ok(Wrap64(Value(s)))
  {
    assert s[..8] == s;
  }

  lemma FloatRoundTrip(bits: Int32)
    ensures DeserializeFloat(SerializeFloat(bits)) == Ok(bits)
  {
    ReadWritten32(FloatBiased(bits));
    FloatUnbiasBias(bits);
  }

  lemma DoubleRoundTrip(bits: Int64)
    ensures DeserializeDouble(SerializeDouble(bits)) == Ok(bits)
  {
    ReadWritten64(DoubleBiased(bits));
    DoubleUnbiasBias(bits);
  }

  /** Byte order of float keys is IEEE 754 totalOrder, NaNs included. */
  lemma FloatTotalOrder(a: Int32, b: Int32)
    ensures LexLess(SerializeFloat(a), SerializeFloat(b))
        <==> TotalOrderLess(Binary32, FloatPattern(a), FloatPattern(b))
  {
    FloatEncodedValue(a);
    FloatEncodedValue(b);
    LexLessIsValueLess(SerializeFloat(a), SerializeFloat(b));
    TotalOrderIsRankLess(Binary32, FloatPattern(a), FloatPattern(b));
  }

  /** On non-NaN floats, byte order of the keys is `Float.compareTo`. */
  lemma FloatCompareOrder(a: Int32, b: Int32)
    requires !IsNaN(Binary32, FloatPattern(a)) && !IsNaN(Binary32, FloatPattern(b))
    ensures LexLess(SerializeFloat(a), SerializeFloat(b))
        <==> CompareLess(Binary32, FloatPattern(a), FloatPattern(b))
  {
    FloatEncodedValue(a);
    FloatEncodedValue(b);
    LexLessIsValueLess(SerializeFloat(a), SerializeFloat(b));
    CompareLessIsRankLess(Binary32, FloatPattern(a), FloatPattern(b));
  }

  lemma DoubleTotalOrder(a: Int64, b: Int64)
    ensures LexLess(SerializeDouble(a), SerializeDouble(b))
        <==> TotalOrderLess(Binary64, DoublePattern(a), DoublePattern(b))
  {
    DoubleEncodedValue(a);
    DoubleEncodedValue(b);
    LexLessIsValueLess(SerializeDouble(a), SerializeDouble(b));
    TotalOrderIsRankLess(Binary64, DoublePattern(a), DoublePattern(b));
  }

  lemma DoubleCompareOrder(a: Int64, b: Int64)
    requires !IsNaN(Binary64, DoublePattern(a)) && !IsNaN(Binary64, DoublePattern(b))
    ensures LexLess(SerializeDouble(a), SerializeDouble(b))
        <==> CompareLess(Binary64, DoublePattern(a), DoublePattern(b))
  {
    DoubleEncodedValue(a);
    DoubleEncodedValue(b);
    LexLessIsValueLess(SerializeDouble(a), SerializeDouble(b));
    CompareLessIsRankLess(Binary64, DoublePattern(a), DoublePattern(b));
  }

  // ------------------------------------------------------------------- Enum

  /** `EnumKeySerializer.serialize`: the ordinal in 2 bytes. */
  function SerializeEnum(ordinal: nat): seq<uint8>
    requires ordinal <= INT_MAX
  {
    WriteRawBE(ordinal, 2)
  }

  /**
   * `EnumKeySerializer.deserialize`: the 2-byte ordinal indexes the variant
   * array; an ordinal past its end is the array's out-of-bounds failure.
   */
  function DeserializeEnum<T>(values: seq<T>, s: seq<uint8>): Result<T, DecodeError>
  {
    match ReadRawBE(s, 2)
    case Err(e) => Err(e)
    case Ok(raw) =>
      var ordinal := Wrap32(raw);
      if 0 <= ordinal < |values| then Ok(values[ordinal]) else Err(OrdinalOutOfBounds(ordinal))
  }

  lemma EnumRoundTrip<T>(values: seq<T>, ordinal: nat)
    requires ordinal < |values| <= 0x1_0000
    ensures DeserializeEnum(values, SerializeEnum(ordinal)) == Ok(values[ordinal])
  {
    Pow256Widths();
    ReadWritten(ordinal, 2);
  }

  /** Keys of variants sort by ordinal (declaration order). */
  lemma EnumOrder(a: nat, b: nat)
    requires a < 0x1_0000 && b < 0x1_0000
    ensures LexLess(SerializeEnum(a), SerializeEnum(b)) <==> a < b
  {
    Pow256Widths();
    ModBelow(a, Pow256(2));
    ModBelow(b, Pow256(2));
    LexLessIsValueLess(SerializeEnum(a), SerializeEnum(b));
  }

  /** A stored ordinal the variant array does not reach fails to decode. */
  lemma EnumUnknownOrdinal<T>(values: seq<T>, s: seq<uint8>)
    requires |s| >= 2 && Value(s[..2]) >= |values|
    ensures DeserializeEnum(values, s) == Err(OrdinalOutOfBounds(Value(s[..2])))
  {
    Pow256Widths();
  }

  /** Only 16 bits of the ordinal are kept: ordinals 2^16 apart share a key. */
  lemma EnumOrdinalWraps(ordinal: nat)
    requires ordinal + 0x1_0000 <= INT_MAX
    ensures SerializeEnum(ordinal + 0x1_0000) == SerializeEnum(ordinal)
  {
    Pow256Widths();
  }
}
