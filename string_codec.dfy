/**
 * `StringKeySerializer`: UTF-8 (section 3 of RFC 3629) over UTF-16 code
 * units, extended so that a surrogate that is not half of a pair is written
 * in the 3-byte form of its own value ("WTF-8"). The TERMINATED variant
 * writes U+0000 in the overlong 2-byte form C0 80 and ends the key with a
 * single 0 byte; the UNTERMINATED variant reads to the end of the key.
 *
 * `Encode`/`Decode` are the specification; `Serialize`/`Deserialize` are the
 * serializer's loops, proved equal to them.
 */
module StringCodec {
  import opened Wrappers
  import opened Bytes
  import opened KeyCodec

  /** A UTF-16 code unit, `Char.code`. */
  type CodeUnit = c: int | 0 <= c < 0x1_0000

  predicate IsHighSurrogate(c: int) { 0xD800 <= c <= 0xDBFF }
  predicate IsLowSurrogate(c: int) { 0xDC00 <= c <= 0xDFFF }

  /** A byte of the form 10xxxxxx. */
  predicate IsContinuation(b: int) { 0x80 <= b < 0xC0 }

  /**
   * `codePointFromSurrogate(string, high, index, string.length)`: the code
   * point of the pair high, s[index], or 0 when they do not form a pair.
   */
  function CodePointFromSurrogate(s: seq<CodeUnit>, high: int, index: nat): (r: int)
    ensures r != 0 <==> IsHighSurrogate(high) && index < |s| && IsLowSurrogate(s[index])
    ensures r != 0 ==> 0x1_0000 <= r <= 0x10_FFFF
  {
    if !IsHighSurrogate(high) || index >= |s| then 0
    else
      var low := s[index];
      if !IsLowSurrogate(low) then 0
      // `and 0x3FF` of a surrogate is its offset from the block start
      else 0x1_0000 + (high - 0xD800) * 0x400 + (low - 0xDC00)
  }

  // --------------------------------------------------------------- encoding

  /** The 2-byte form 110xxxxx 10xxxxxx of a value below 0x800. */
  function TwoByteForm(code: CodeUnit): seq<uint8>
    requires code < 0x800
  {
    [code / 0x40 + 0xC0, code % 0x40 + 0x80]
  }

  /** The 3-byte form 1110xxxx 10xxxxxx 10xxxxxx of a code unit. */
  function ThreeByteForm(code: CodeUnit): seq<uint8>
  {
    [code / 0x1000 + 0xE0, code / 0x40 % 0x40 + 0x80, code % 0x40 + 0x80]
  }

  /** The 4-byte form 11110xxx 10xxxxxx 10xxxxxx 10xxxxxx of a supplementary code point. */
  function FourByteForm(cp: int): seq<uint8>
    requires 0x1_0000 <= cp <= 0x10_FFFF
  {
    [cp / 0x4_0000 + 0xF0, cp / 0x1000 % 0x40 + 0x80, cp / 0x40 % 0x40 + 0x80, cp % 0x40 + 0x80]
  }

  /**
   * The bytes `serialize` writes for a code unit that does not start a
   * surrogate pair: 1 byte below 0x80 (but not U+0000 when terminated),
   * 2 bytes below 0x800, 3 bytes otherwise, surrogates included. The
   * `(x shr k) or 0xC0`-style masks set bits the shifted value does not
   * have, so they are sums.
   */
  function UnitBytes(code: CodeUnit, terminated: bool): seq<uint8>
  {
    if code < 0x80 && (code != 0 || !terminated) then [code]
    else if code < 0x800 then TwoByteForm(code)
    else ThreeByteForm(code)
  }

  /** The encoding of a string, without the terminator. */
  function Encode(s: seq<CodeUnit>, terminated: bool): seq<uint8>
  {
    if |s| == 0 then []
    else
      var cp := CodePointFromSurrogate(s, s[0], 1);
      if cp > 0 then FourByteForm(cp) + Encode(s[2..], terminated)
      else UnitBytes(s[0], terminated) + Encode(s[1..], terminated)
  }

  /** Everything `serialize` writes. */
  function Serialized(s: seq<CodeUnit>, terminated: bool): seq<uint8>
  {
    Encode(s, terminated) + (if terminated then [0] else [])
  }

  /** Encode unfolded once, on a string whose first unit does not start a pair. */
  lemma EncodeUnit(s: seq<CodeUnit>, terminated: bool)
    requires |s| >= 1 && CodePointFromSurrogate(s, s[0], 1) == 0
    ensures Encode(s, terminated) == UnitBytes(s[0], terminated) + Encode(s[1..], terminated)
    ensures |Encode(s, terminated)| == |UnitBytes(s[0], terminated)| + |Encode(s[1..], terminated)|
  {
  }

  /** Encode unfolded once, on a string that starts with a surrogate pair. */
  lemma EncodePair(s: seq<CodeUnit>, terminated: bool)
    requires |s| >= 2 && CodePointFromSurrogate(s, s[0], 1) != 0
    ensures Encode(s, terminated)
         == FourByteForm(CodePointFromSurrogate(s, s[0], 1)) + Encode(s[2..], terminated)
    ensures |Encode(s, terminated)| == 4 + |Encode(s[2..], terminated)|
  {
  }

  /** Extending an encoded prefix by the bytes of one unit keeps it a prefix of the encoding. */
  lemma AppendUnit(value: seq<CodeUnit>, i: nat, w: seq<uint8>, terminated: bool)
    requires i < |value| && CodePointFromSurrogate(value, value[i], i + 1) == 0
    requires w + Encode(value[i..], terminated) == Encode(value, terminated)
    ensures (w + UnitBytes(value[i], terminated)) + Encode(value[i + 1..], terminated) == Encode(value, terminated)
  {
    var rest := value[i..];
    assert rest[1..] == value[i + 1..];
    EncodeUnit(rest, terminated);
  }

  /** Extending an encoded prefix by the bytes of a surrogate pair keeps it a prefix of the encoding. */
  lemma AppendPair(value: seq<CodeUnit>, i: nat, w: seq<uint8>, terminated: bool)
    requires i < |value| && CodePointFromSurrogate(value, value[i], i + 1) != 0
    requires w + Encode(value[i..], terminated) == Encode(value, terminated)
    ensures i + 2 <= |value|
    ensures (w + FourByteForm(CodePointFromSurrogate(value, value[i], i + 1))) + Encode(value[i + 2..], terminated)
         == Encode(value, terminated)
  {
    var rest := value[i..];
    assert rest[2..] == value[i + 2..];
    EncodePair(rest, terminated);
  }

  /** `StringKeySerializer.serialize` */
  method Serialize(value: seq<CodeUnit>, terminated: bool) returns (w: seq<uint8>)
    ensures w == Serialized(value, terminated)
  {
    w := [];
    var charIndex := 0;
    assert value[0..] == value;
    while charIndex < |value|
      invariant 0 <= charIndex <= |value|
      invariant w + Encode(value[charIndex..], terminated) == Encode(value, terminated)
    {
      ghost var w0, i0 := w, charIndex;
      var code := value[charIndex];
      charIndex := charIndex + 1;
      if code < 0x80 && (code != 0 || !terminated) {
        w := w + [code];
        AppendUnit(value, i0, w0, terminated);
      } else if code < 0x800 {
        w := w + TwoByteForm(code);
        AppendUnit(value, i0, w0, terminated);
      } else if code < 0xD800 || code >= 0xE000 {
        w := w + ThreeByteForm(code);
        AppendUnit(value, i0, w0, terminated);
      } else {
        var codePoint := CodePointFromSurrogate(value, code, charIndex);
        if codePoint <= 0 {
          w := w + ThreeByteForm(code);
          AppendUnit(value, i0, w0, terminated);
        } else {
          w := w + FourByteForm(codePoint);
          AppendPair(value, i0, w0, terminated);
          charIndex := charIndex + 1;
        }
      }
    }
    if terminated {
      w := w + [0];
    }
  }

  // --------------------------------------------------------------- decoding

  /**
   * How many bytes a sequence starting with this byte has, per the start
   * byte's bit pattern; 0 when it is no start byte. Like the serializer,
   * this does not reject overlong forms or code points above U+10FFFF.
   */
  function SequenceLength(start: uint8): nat
  {
    if start <= 0x7F then 1
    else if 0xC0 <= start <= 0xDF then 2
    else if 0xE0 <= start <= 0xEF then 3
    else if 0xF0 <= start <= 0xF7 then 4
    else 0
  }

  /** A complete byte sequence for one character at position pos of b. */
  predicate WellFormedAt(b: seq<uint8>, pos: nat)
  {
    pos < |b| && SequenceLength(b[pos]) > 0 && pos + SequenceLength(b[pos]) <= |b|
    && forall j :: pos + 1 <= j < pos + SequenceLength(b[pos]) ==> IsContinuation(b[j])
  }

  /**
   * `readContinuationByteData` reading b[i]: its low 6 bits. A missing byte
   * reads as -1 and fails like a byte that is not 10xxxxxx.
   */
  function ContinuationData(b: seq<uint8>, i: nat): (r: Result<int, DecodeError>)
    ensures r.Ok? <==> i < |b| && IsContinuation(b[i])
    ensures r.Ok? ==> 0 <= r.value < 0x40 && b[i] == 0x80 + r.value
    ensures r.Err? ==> r.error == NotContinuationByte(if i < |b| then b[i] else -1)
  {
    if i >= |b| then Err(NotContinuationByte(-1))
    else if b[i] / 0x40 != 2 then Err(NotContinuationByte(b[i]))
    else Ok(b[i] % 0x40)
  }

  /**
   * `x or 0xD800` on a 16-bit x, written out bit by bit: each of the bits
   * 11, 12, 14 and 15 is added when x does not have it.
   */
  function OrD800(x: int): (r: CodeUnit)
    requires 0 <= x < 0x1_0000
  {
    x + (if x / 0x800 % 2 == 0 then 0x800 else 0)
      + (if x / 0x1000 % 2 == 0 then 0x1000 else 0)
      + (if x / 0x4000 % 2 == 0 then 0x4000 else 0)
      + (if x / 0x8000 % 2 == 0 then 0x8000 else 0)
  }

  /**
   * The high surrogate `deserialize` makes of a 4-byte code point:
   * `((cp - 0x10000) shr 10 or 0xD800).toChar()`. The arithmetic shift is
   * floor division, and `toChar` keeps the low 16 bits.
   */
  function HighSurrogateOf(cp: int): CodeUnit
  {
    OrD800((cp - 0x1_0000) / 0x400 % 0x1_0000)
  }

  /** The low surrogate `(cp and 0x3FF) or 0xDC00`. */
  function LowSurrogateOf(cp: int): CodeUnit
  {
    cp % 0x400 + 0xDC00
  }

  /** One character read by `deserialize`: its code units and its length in bytes. */
  datatype Step = Step(units: seq<CodeUnit>, length: nat)

  /** A 2-byte sequence: the start byte's low 5 bits, then 6 bits. */
  function DecodeTwo(b: seq<uint8>, pos: nat): (r: Result<Step, DecodeError>)
    requires pos < |b| && 0xC0 <= b[pos] <= 0xDF
  {
    var d2 := ContinuationData(b, pos + 1);
    if d2.Err? then Err(d2.error)
    else Ok(Step([(b[pos] - 0xC0) * 0x40 + d2.value], 2))
  }

  /** A 3-byte sequence: the start byte's low 4 bits, then 6 and 6 bits. */
  function DecodeThree(b: seq<uint8>, pos: nat): (r: Result<Step, DecodeError>)
    requires pos < |b| && 0xE0 <= b[pos] <= 0xEF
  {
    var d2 := ContinuationData(b, pos + 1);
    if d2.Err? then Err(d2.error)
    else
      var d3 := ContinuationData(b, pos + 2);
      if d3.Err? then Err(d3.error)
      else Ok(Step([(b[pos] - 0xE0) * 0x1000 + d2.value * 0x40 + d3.value], 3))
  }

  /**
   * A 4-byte sequence: a code point of 3 + 6 + 6 + 6 bits, written as a
   * high and a low surrogate.
   */
  function DecodeFour(b: seq<uint8>, pos: nat): (r: Result<Step, DecodeError>)
    requires pos < |b| && 0xF0 <= b[pos] <= 0xF7
  {
    var d2 := ContinuationData(b, pos + 1);
    if d2.Err? then Err(d2.error)
    else
      var d3 := ContinuationData(b, pos + 2);
      if d3.Err? then Err(d3.error)
      else
        var d4 := ContinuationData(b, pos + 3);
        if d4.Err? then Err(d4.error)
        else
          // the start byte's `and 0b0000_1111` keeps 3 bits: bit 3 of F0..F7 is clear
          var cp := (b[pos] - 0xF0) * 0x4_0000 + d2.value * 0x1000 + d3.value * 0x40 + d4.value;
          Ok(Step([HighSurrogateOf(cp), LowSurrogateOf(cp)], 4))
  }

  /** One iteration of the `deserialize` loop, at position pos, on a byte that is not the terminator. */
  function DecodeUnit(b: seq<uint8>, pos: nat): (r: Result<Step, DecodeError>)
    requires pos < |b|
    ensures r.Ok? ==> 1 <= r.value.length <= |b| - pos
  {
    var byte := b[pos];
    if byte <= 0x7F then Ok(Step([byte], 1))
    else if 0xC0 <= byte <= 0xDF then DecodeTwo(b, pos)
    else if 0xE0 <= byte <= 0xEF then DecodeThree(b, pos)
    else if 0xF0 <= byte <= 0xF7 then DecodeFour(b, pos)
    else Err(NotStartByte(byte))
  }

  /**
   * One character reads exactly when a start byte is followed by as many
   * continuation bytes as it announces; it is that many bytes long and
   * gives one code unit, or two for a 4-byte sequence.
   */
  lemma UnitShape(b: seq<uint8>, pos: nat)
    requires pos < |b|
    ensures DecodeUnit(b, pos).Ok? <==> WellFormedAt(b, pos)
    ensures DecodeUnit(b, pos).Ok? ==> DecodeUnit(b, pos).value.length == SequenceLength(b[pos])
    ensures DecodeUnit(b, pos).Ok? ==> |DecodeUnit(b, pos).value.units| == if SequenceLength(b[pos]) == 4 then 2 else 1
    ensures SequenceLength(b[pos]) == 0 ==> DecodeUnit(b, pos) == Err(NotStartByte(b[pos]))
  {
  }

  /** What `deserialize` read: the string and how many bytes it consumed. */
  datatype Decoded = Decoded(units: seq<CodeUnit>, consumed: nat)

  /**
   * The `deserialize` loop from pos on, with sb read so far: it stops at
   * the end of the key or after the terminator, and fails on the first
   * malformed character. `consumed` counts from the start of the key.
   */
  function DecodeFrom(b: seq<uint8>, pos: nat, sb: seq<CodeUnit>, terminated: bool): (r: Result<Decoded, DecodeError>)
    requires pos <= |b|
    ensures r.Ok? ==> pos <= r.value.consumed <= |b|
    decreases |b| - pos
  {
    if pos == |b| then Ok(Decoded(sb, pos))
    else if terminated && b[pos] == 0 then Ok(Decoded(sb, pos + 1))
    else
      var step := DecodeUnit(b, pos);
      if step.Err? then Err(step.error)
      else DecodeFrom(b, pos + step.value.length, sb + step.value.units, terminated)
  }

  /** The decoding of a key, stopping after the first 0 byte when terminated. */
  function Decode(b: seq<uint8>, terminated: bool): Result<Decoded, DecodeError>
  {
    DecodeFrom(b, 0, [], terminated)
  }

  /** DecodeFrom unfolded once, at a well-formed character that is not the terminator. */
  lemma DecodeFromStep(b: seq<uint8>, pos: nat, sb: seq<CodeUnit>, terminated: bool, units: seq<CodeUnit>, n: nat)
    requires pos < |b| && !(terminated && b[pos] == 0)
    requires DecodeUnit(b, pos) == Ok(Step(units, n))
    ensures pos + n <= |b|
    ensures DecodeFrom(b, pos, sb, terminated) == DecodeFrom(b, pos + n, sb + units, terminated)
  {
  }

  /**
   * One pass of the `when` in `deserialize`, on a byte that is not the
   * terminator: reads the start byte at pos and its continuation bytes.
   */
  method ReadCharacter(b: seq<uint8>, pos: nat) returns (r: Result<Step, DecodeError>)
    requires pos < |b|
    ensures r == DecodeUnit(b, pos)
  {
    var byte := b[pos];
    if byte <= 0x7F {
      return Ok(Step([byte], 1));
    } else if byte / 0x20 == 0x6 {          // byte and 0b111_00000 == 0b110_00000
      var d2 := ContinuationData(b, pos + 1);
      if d2.Err? {
        return Err(d2.error);
      }
      return Ok(Step([(byte - 0xC0) * 0x40 + d2.value], 2));
    } else if byte / 0x10 == 0xE {          // byte and 0b1111_0000 == 0b1110_0000
      var d2 := ContinuationData(b, pos + 1);
      if d2.Err? {
        return Err(d2.error);
      }
      var d3 := ContinuationData(b, pos + 2);
      if d3.Err? {
        return Err(d3.error);
      }
      return Ok(Step([(byte - 0xE0) * 0x1000 + d2.value * 0x40 + d3.value], 3));
    } else if byte / 0x8 == 0x1E {          // byte and 0b11111_000 == 0b11110_000
      var d2 := ContinuationData(b, pos + 1);
      if d2.Err? {
        return Err(d2.error);
      }
      var d3 := ContinuationData(b, pos + 2);
      if d3.Err? {
        return Err(d3.error);
      }
      var d4 := ContinuationData(b, pos + 3);
      if d4.Err? {
        return Err(d4.error);
      }
      var cp := (byte - 0xF0) * 0x4_0000 + d2.value * 0x1000 + d3.value * 0x40 + d4.value;
      return Ok(Step([HighSurrogateOf(cp), LowSurrogateOf(cp)], 4));
    } else {
      return Err(NotStartByte(byte));
    }
  }

  /** `StringKeySerializer.deserialize`; a thrown IllegalArgumentException is an `Err`. */
  method Deserialize(b: seq<uint8>, terminated: bool) returns (r: Result<Decoded, DecodeError>)
    ensures r == Decode(b, terminated)
  {
    var sb: seq<CodeUnit> := [];
    var pos := 0;
    // the loop's `break` on the terminator is its exit condition here
    while pos < |b| && !(terminated && b[pos] == 0)
      invariant 0 <= pos <= |b|
      invariant DecodeFrom(b, pos, sb, terminated) == Decode(b, terminated)
    {
      var step := ReadCharacter(b, pos);
      if step.Err? {
        return Err(step.error);
      }
      sb := sb + step.value.units;
      pos := pos + step.value.length;
    }
    if pos < |b| {
      // the terminator was read
      return Ok(Decoded(sb, pos + 1));
    }
    return Ok(Decoded(sb, pos));
  }

  // ------------------------------------------------------------- properties

  /**
   * Every unit form is one well-formed sequence that reads back as the unit;
   * in the terminated variant no form starts with a 0 byte.
   */
  lemma UnitRoundTrip(code: CodeUnit, terminated: bool, b: seq<uint8>, pos: nat, rest: seq<uint8>)
    requires pos <= |b| && b[pos..] == UnitBytes(code, terminated) + rest
    ensures pos + |UnitBytes(code, terminated)| <= |b|
    ensures DecodeUnit(b, pos) == Ok(Step([code], |UnitBytes(code, terminated)|))
    ensures terminated ==> b[pos] != 0
    ensures forall k :: 1 <= k < |UnitBytes(code, terminated)| ==> IsContinuation(UnitBytes(code, terminated)[k])
  {
    var piece := UnitBytes(code, terminated);
    assert b[pos] == piece[0] by { assert b[pos..][0] == piece[0]; }
    if |piece| >= 2 {
      assert b[pos + 1] == piece[1] by { assert b[pos..][1] == piece[1]; }
    }
    if |piece| == 3 {
      assert b[pos + 2] == piece[2] by { assert b[pos..][2] == piece[2]; }
      assert DecodeUnit(b, pos) == DecodeThree(b, pos);
    }
  }

  /** The four digit groups of a code point put back together give the code point. */
  lemma FourByteDigits(cp: int)
    requires 0x1_0000 <= cp <= 0x10_FFFF
    ensures (cp / 0x4_0000) * 0x4_0000 + (cp / 0x1000 % 0x40) * 0x1000 + (cp / 0x40 % 0x40) * 0x40 + cp % 0x40 == cp
  {
    var q1, q2, q3 := cp / 0x40, cp / 0x1000, cp / 0x4_0000;
    assert cp == q1 * 0x40 + cp % 0x40;
    assert q2 == q1 / 0x40;
    assert q1 == q2 * 0x40 + q1 % 0x40;
    assert q3 == q2 / 0x40;
    assert q2 == q3 * 0x40 + q2 % 0x40;
  }

  /** The surrogates `deserialize` derives from a pair's code point are the pair. */
  lemma SurrogatesOfCodePoint(high: int, low: int)
    requires IsHighSurrogate(high) && IsLowSurrogate(low)
    ensures HighSurrogateOf(0x1_0000 + (high - 0xD800) * 0x400 + (low - 0xDC00)) == high
    ensures LowSurrogateOf(0x1_0000 + (high - 0xD800) * 0x400 + (low - 0xDC00)) == low
  {
    var cp := 0x1_0000 + (high - 0xD800) * 0x400 + (low - 0xDC00);
    assert (cp - 0x1_0000) / 0x400 == high - 0xD800;
  }

  /** A surrogate pair is written as one 4-byte sequence that reads back as the pair. */
  lemma PairRoundTrip(s: seq<CodeUnit>, b: seq<uint8>, pos: nat, rest: seq<uint8>)
    requires |s| >= 1 && CodePointFromSurrogate(s, s[0], 1) != 0
    requires pos <= |b| && b[pos..] == FourByteForm(CodePointFromSurrogate(s, s[0], 1)) + rest
    ensures |s| >= 2 && pos + 4 <= |b|
    ensures DecodeUnit(b, pos) == Ok(Step(s[..2], 4))
    ensures forall j :: pos <= j < pos + 4 ==> b[j] != 0
  {
    var cp := CodePointFromSurrogate(s, s[0], 1);
    var piece := FourByteForm(cp);
    FourByteDigits(cp);
    SurrogatesOfCodePoint(s[0], s[1]);
    forall k | 0 <= k < 4
      ensures b[pos + k] == piece[k]
    {
      assert b[pos..][k] == piece[k];
    }
    assert ContinuationData(b, pos + 1) == Ok(cp / 0x1000 % 0x40);
    assert ContinuationData(b, pos + 2) == Ok(cp / 0x40 % 0x40);
    assert ContinuationData(b, pos + 3) == Ok(cp % 0x40);
    assert DecodeFour(b, pos) == Ok(Step([s[0], s[1]], 4));
    assert DecodeUnit(b, pos) == DecodeFour(b, pos);
    assert s[..2] == [s[0], s[1]];
  }

  /** The key from pos on, split after its first piece. */
  lemma DropPiece(b: seq<uint8>, pos: nat, piece: seq<uint8>, rest: seq<uint8>, tail: seq<uint8>)
    requires pos <= |b| && b[pos..] == (piece + rest) + tail && |piece| >= 1
    ensures b[pos..] == piece + (rest + tail)
    ensures pos + |piece| <= |b| && b[pos] == piece[0]
    ensures b[pos + |piece|..] == rest + tail
  {
    assert b[pos..][0] == piece[0];
    assert (piece + rest) + tail == piece + (rest + tail);
    assert b[pos + |piece|..] == b[pos..][|piece|..];
  }

  /**
   * Decoding, from pos on, the encoding of s followed by what the variant
   * may find after it (nothing, or the terminator and anything) reads s.
   */
  lemma {:induction false} DecodeEncode(b: seq<uint8>, pos: nat, s: seq<CodeUnit>, tail: seq<uint8>, sb: seq<CodeUnit>, terminated: bool)
    requires pos <= |b| && b[pos..] == Encode(s, terminated) + tail
    requires if terminated then |tail| >= 1 && tail[0] == 0 else tail == []
    ensures DecodeFrom(b, pos, sb, terminated)
         == Ok(Decoded(sb + s, pos + |Encode(s, terminated)| + (if terminated then 1 else 0)))
    decreases |s|, 1
  {
    if |s| == 0 {
      assert b[pos..] == tail && sb + s == sb;
      assert terminated ==> b[pos..][0] == 0;
    } else if CodePointFromSurrogate(s, s[0], 1) > 0 {
      DecodeEncodePair(b, pos, s, tail, sb, terminated);
    } else {
      EncodeUnit(s, terminated);
      DecodeEncodeUnit(b, pos, s[0], s[1..], tail, sb, terminated);
      ConsJoin(sb, s);
    }
  }

  lemma {:induction false} DecodeEncodePair(b: seq<uint8>, pos: nat, s: seq<CodeUnit>, tail: seq<uint8>, sb: seq<CodeUnit>, terminated: bool)
    requires pos <= |b| && b[pos..] == Encode(s, terminated) + tail
    requires if terminated then |tail| >= 1 && tail[0] == 0 else tail == []
    requires |s| >= 1 && CodePointFromSurrogate(s, s[0], 1) > 0
    ensures DecodeFrom(b, pos, sb, terminated)
         == Ok(Decoded(sb + s, pos + |Encode(s, terminated)| + (if terminated then 1 else 0)))
    decreases |s|, 0
  {
    var piece := FourByteForm(CodePointFromSurrogate(s, s[0], 1));
    EncodePair(s, terminated);
    var rest := Encode(s[2..], terminated);
    DropPiece(b, pos, piece, rest, tail);
    PairRoundTrip(s, b, pos, rest + tail);
    DecodeFromStep(b, pos, sb, terminated, s[..2], 4);
    DecodeEncode(b, pos + 4, s[2..], tail, sb + s[..2], terminated);
    SplitJoin(sb, s, 2);
  }

  lemma {:induction false} DecodeEncodeUnit(b: seq<uint8>, pos: nat, code: CodeUnit, more: seq<CodeUnit>, tail: seq<uint8>, sb: seq<CodeUnit>, terminated: bool)
    requires pos <= |b| && b[pos..] == (UnitBytes(code, terminated) + Encode(more, terminated)) + tail
    requires if terminated then |tail| >= 1 && tail[0] == 0 else tail == []
    ensures DecodeFrom(b, pos, sb, terminated)
         == Ok(Decoded((sb + [code]) + more,
                       pos + |UnitBytes(code, terminated)| + |Encode(more, terminated)| + (if terminated then 1 else 0)))
    decreases |more| + 1, 0
  {
    var n, rest := |UnitBytes(code, terminated)|, Encode(more, terminated);
    DecodeAfterUnit(b, pos, sb, terminated, code, n, rest, tail);
    DecodeEncode(b, pos + n, more, tail, sb + [code], terminated);
  }

  /** One unit form of n bytes in front of the rest of the key reads as that unit. */
  lemma DecodeAfterUnit(b: seq<uint8>, pos: nat, sb: seq<CodeUnit>, terminated: bool, code: CodeUnit, n: nat, rest: seq<uint8>, tail: seq<uint8>)
    requires n == |UnitBytes(code, terminated)|
    requires pos <= |b| && b[pos..] == (UnitBytes(code, terminated) + rest) + tail
    ensures pos + n <= |b|
    ensures b[pos + n..] == rest + tail
    ensures DecodeFrom(b, pos, sb, terminated) == DecodeFrom(b, pos + n, sb + [code], terminated)
  {
    var piece := UnitBytes(code, terminated);
    DropPiece(b, pos, piece, rest, tail);
    UnitRoundTrip(code, terminated, b, pos, rest + tail);
    DecodeFromStep(b, pos, sb, terminated, [code], n);
  }

  lemma ConsJoin(sb: seq<CodeUnit>, s: seq<CodeUnit>)
    requires |s| >= 1
    ensures (sb + [s[0]]) + s[1..] == sb + s
  {
    assert [s[0]] + s[1..] == s;
  }

  lemma SplitJoin(sb: seq<CodeUnit>, s: seq<CodeUnit>, k: nat)
    requires k <= |s|
    ensures (sb + s[..k]) + s[k..] == sb + s
  {
    assert s[..k] + s[k..] == s;
  }

  /** UNTERMINATED: `deserialize(serialize(s)) == s`, reading the whole key. */
  lemma RoundTrip(s: seq<CodeUnit>)
    ensures Decode(Serialized(s, false), false) == Ok(Decoded(s, |Serialized(s, false)|))
  {
    var b := Serialized(s, false);
    assert b[0..] == Encode(s, false) + [];
    DecodeEncode(b, 0, s, [], [], false);
    assert [] + s == s;
  }

  /**
   * TERMINATED: `deserialize(serialize(s))` gives back s and stops right
   * after the terminator, whatever follows it in the key.
   */
  lemma TerminatedRoundTrip(s: seq<CodeUnit>, following: seq<uint8>)
    ensures Decode(Serialized(s, true) + following, true) == Ok(Decoded(s, |Serialized(s, true)|))
  {
    var b := Serialized(s, true) + following;
    assert b[0..] == Encode(s, true) + ([0] + following);
    DecodeEncode(b, 0, s, [0] + following, [], true);
    assert [] + s == s;
  }

  /** TERMINATED ends with a 0 byte and has no other: U+0000 is written as C0 80. */
  lemma {:induction false} TerminatorIsOnlyZero(s: seq<CodeUnit>)
    ensures Serialized(s, true)[|Serialized(s, true)| - 1] == 0
    ensures forall i :: 0 <= i < |Encode(s, true)| ==> Encode(s, true)[i] != 0
    decreases |s|
  {
    if |s| > 0 {
      var cp := CodePointFromSurrogate(s, s[0], 1);
      if cp > 0 {
        var piece := FourByteForm(cp);
        assert piece[0..] == piece + [];
        PairRoundTrip(s, piece, 0, []);
        TerminatorIsOnlyZero(s[2..]);
      } else {
        var piece := UnitBytes(s[0], true);
        assert piece[0..] == piece + [];
        UnitRoundTrip(s[0], true, piece, 0, []);
        TerminatorIsOnlyZero(s[1..]);
      }
    }
  }

  /** A byte that starts no sequence makes `deserialize` fail on it. */
  lemma NotStartByteFails(b: seq<uint8>, terminated: bool)
    requires |b| >= 1 && SequenceLength(b[0]) == 0
    ensures Decode(b, terminated) == Err(NotStartByte(b[0]))
  {
  }

  /**
   * The first continuation byte that is missing or not 10xxxxxx makes
   * `deserialize` fail, naming that byte or -1 for the end of the key.
   */
  lemma BadContinuationFails(b: seq<uint8>, k: nat, terminated: bool)
    requires |b| >= 1 && 1 <= k < SequenceLength(b[0])
    requires forall j :: 1 <= j < k ==> j < |b| && IsContinuation(b[j])
    requires !(k < |b| && IsContinuation(b[k]))
    ensures Decode(b, terminated) == Err(NotContinuationByte(if k < |b| then b[k] else -1))
  {
    var byte := b[0];
    if 0xC0 <= byte <= 0xDF {
      assert DecodeUnit(b, 0) == DecodeTwo(b, 0);
    } else if 0xE0 <= byte <= 0xEF {
      assert DecodeUnit(b, 0) == DecodeThree(b, 0);
    } else {
      assert DecodeUnit(b, 0) == DecodeFour(b, 0);
    }
  }

  // ------------------------------------------------------------------ order

  /** `a.compareTo(b) < 0` for Kotlin strings: code units compared in turn, a proper prefix first. */
  predicate UnitsLess(a: seq<CodeUnit>, b: seq<CodeUnit>)
  {
    if a == [] then b != []
    else if b == [] then false
    else a[0] < b[0] || (a[0] == b[0] && UnitsLess(a[1..], b[1..]))
  }

  predicate NoSurrogates(s: seq<CodeUnit>)
  {
    forall i :: 0 <= i < |s| ==> !(0xD800 <= s[i] <= 0xDFFF)
  }

  predicate NoNul(s: seq<CodeUnit>)
  {
    forall i :: 0 <= i < |s| ==> s[i] != 0
  }

  /** `p` and `q` agree before index k and `p` is smaller at k. */
  predicate FirstDifference(p: seq<uint8>, q: seq<uint8>, k: nat)
  {
    k < |p| && k < |q| && p[..k] == q[..k] && p[k] < q[k]
  }

  /** The unit forms of the unterminated variant are ordered like the units. */
  lemma UnitBytesOrder(c: CodeUnit, d: CodeUnit) returns (k: nat)
    requires c < d
    ensures FirstDifference(UnitBytes(c, false), UnitBytes(d, false), k)
  {
    var p, q := UnitBytes(c, false), UnitBytes(d, false);
    if c < 0x80 {
      k := 0;
      assert p == [c];
      assert q[0] == d || q[0] >= 0xC0;
    } else if d < 0x800 {
      k := TwoByteOrder(c, d);
    } else if c < 0x800 {
      k := 0;
      assert p == TwoByteForm(c) && q == ThreeByteForm(d);
    } else {
      k := ThreeByteOrder(c, d);
    }
  }

  lemma TwoByteOrder(c: CodeUnit, d: CodeUnit) returns (k: nat)
    requires 0x80 <= c < d < 0x800
    ensures FirstDifference(UnitBytes(c, false), UnitBytes(d, false), k)
  {
    var p, q := TwoByteForm(c), TwoByteForm(d);
    assert UnitBytes(c, false) == p && UnitBytes(d, false) == q;
    DigitOrder(c, d, 0x40);
    if c / 0x40 != d / 0x40 {
      k := 0;
    } else {
      k := 1;
      assert p[..1] == [p[0]] && q[..1] == [q[0]];
    }
  }

  lemma ThreeByteOrder(c: CodeUnit, d: CodeUnit) returns (k: nat)
    requires 0x800 <= c < d
    ensures FirstDifference(UnitBytes(c, false), UnitBytes(d, false), k)
  {
    var p, q := ThreeByteForm(c), ThreeByteForm(d);
    assert UnitBytes(c, false) == p && UnitBytes(d, false) == q;
    DigitOrder(c, d, 0x40);
    assert c / 0x40 / 0x40 == c / 0x1000 && d / 0x40 / 0x40 == d / 0x1000;
    if c / 0x40 == d / 0x40 {
      k := 2;
      assert p[..2] == [p[0], p[1]] && q[..2] == [q[0], q[1]];
    } else {
      DigitOrder(c / 0x40, d / 0x40, 0x40);
      if c / 0x1000 != d / 0x1000 {
        k := 0;
      } else {
        k := 1;
        assert p[..1] == [p[0]] && q[..1] == [q[0]];
      }
    }
  }

  /** Leading digits of a smaller number are no larger; with equal leading digits the rest is smaller. */
  lemma DigitOrder(c: int, d: int, base: int)
    requires 0 <= c < d && base >= 1
    ensures c / base <= d / base
    ensures c / base == d / base ==> c % base < d % base
  {
    var qc, qd := c / base, d / base;
    assert c == qc * base + c % base && d == qd * base + d % base;
    assert (qd + 1) * base == qd * base + base;
    MulOrder(qd + 1, qc, base);
  }

  lemma MulOrder(a: int, b: int, p: int)
    requires p >= 0
    ensures a <= b ==> a * p <= b * p
  {
  }

  /** A string with no surrogate has no pair: every unit is written on its own. */
  lemma EncodeNoSurrogates(s: seq<CodeUnit>, terminated: bool)
    requires |s| >= 1 && NoSurrogates(s)
    ensures NoSurrogates(s[1..])
    ensures Serialized(s, terminated) == UnitBytes(s[0], terminated) + Serialized(s[1..], terminated)
  {
    EncodeUnit(s, terminated);
  }

  /**
   * Without surrogates (and, when terminated, without U+0000) byte order of
   * the keys is `String.compareTo` order.
   */
  lemma {:induction false} OrderWithoutSurrogates(a: seq<CodeUnit>, b: seq<CodeUnit>, terminated: bool)
    requires NoSurrogates(a) && NoSurrogates(b)
    requires terminated ==> NoNul(a) && NoNul(b)
    ensures LexLess(Serialized(a, terminated), Serialized(b, terminated)) <==> UnitsLess(a, b)
    decreases |a|
  {
    var sa, sb := Serialized(a, terminated), Serialized(b, terminated);
    if a == [] || b == [] {
      if a != [] {
        EncodeNoSurrogates(a, terminated);
        assert |UnitBytes(a[0], terminated)| >= 1;
      }
      if b != [] {
        EncodeNoSurrogates(b, terminated);
        assert |UnitBytes(b[0], terminated)| >= 1;
      }
    } else {
      EncodeNoSurrogates(a, terminated);
      EncodeNoSurrogates(b, terminated);
      var ra, rb := Serialized(a[1..], terminated), Serialized(b[1..], terminated);
      if terminated {
        assert NoNul(a[1..]) && NoNul(b[1..]);
        assert a[0] != 0 && b[0] != 0;
        assert UnitBytes(a[0], true) == UnitBytes(a[0], false);
        assert UnitBytes(b[0], true) == UnitBytes(b[0], false);
      }
      if a[0] == b[0] {
        LexLessCommonPrefix(UnitBytes(a[0], terminated), ra, rb);
        OrderWithoutSurrogates(a[1..], b[1..], terminated);
      } else if a[0] < b[0] {
        var k := UnitBytesOrder(a[0], b[0]);
        LexLessAtDifference(UnitBytes(a[0], terminated), UnitBytes(b[0], terminated), ra, rb, k);
      } else {
        var k := UnitBytesOrder(b[0], a[0]);
        LexLessAtDifference(UnitBytes(a[0], terminated), UnitBytes(b[0], terminated), ra, rb, k);
      }
    }
  }

  /**
   * With surrogates the order is lost: U+10000 (a surrogate pair) sorts
   * below U+FFFF as a string but above it as a key.
   */
  lemma SupplementaryOrderCounterexample()
    ensures UnitsLess([0xD800, 0xDC00], [0xFFFF])
    ensures LexLess(Serialized([0xFFFF], false), Serialized([0xD800, 0xDC00], false))
  {
    var pair: seq<CodeUnit> := [0xD800, 0xDC00];
    assert CodePointFromSurrogate(pair, pair[0], 1) == 0x1_0000;
    assert Serialized(pair, false) == [0xF0, 0x90, 0x80, 0x80] by {
      assert Encode(pair[2..], false) == [];
    }
    var max: seq<CodeUnit> := [0xFFFF];
    assert Serialized(max, false) == [0xEF, 0xBF, 0xBF] by {
      assert Encode(max[1..], false) == [];
    }
  }

  /**
   * In the TERMINATED variant U+0000 is written as C0 80 and so sorts above
   * U+0001, which is written as 01.
   */
  lemma TerminatedNulOrderCounterexample()
    ensures UnitsLess([0], [1])
    ensures LexLess(Serialized([1], true), Serialized([0], true))
  {
    var nul: seq<CodeUnit> := [0];
    var one: seq<CodeUnit> := [1];
    assert Serialized(nul, true) == [0xC0, 0x80, 0] by {
      assert Encode(nul[1..], true) == [];
    }
    assert Serialized(one, true) == [1, 0] by {
      assert Encode(one[1..], true) == [];
    }
  }
}

