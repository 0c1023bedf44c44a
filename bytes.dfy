/**
 * Unsigned bytes, big-endian numbers and the unsigned lexicographic order of
 * byte strings: the order in which every storage engine compares encoded keys.
 */
module Bytes {

  /** One byte, read as unsigned (Kotlin `b.toInt() and 0xFF`). */
  type uint8 = x: int | 0 <= x < 256

  /** 256 to the power n. */
  function Pow256(n: nat): (r: int)
    ensures r >= 1
  {
    if n == 0 then 1 else 256 * Pow256(n - 1)
  }

  /** The unsigned number whose big-endian digits in base 256 are `s`. */
  function Value(s: seq<uint8>): (r: nat)
    ensures r < Pow256(|s|)
  {
    if s == [] then 0 else Value(s[..|s| - 1]) * 256 + s[|s| - 1]
  }

  /** The n-byte big-endian representation of v. */
  function BigEndian(v: nat, n: nat): (r: seq<uint8>)
    requires v < Pow256(n)
    ensures |r| == n && Value(r) == v
  {
    if n == 0 then []
    else
      var r := BigEndian(v / 256, n - 1) + [v % 256];
      assert r[..|r| - 1] == BigEndian(v / 256, n - 1);
      r
  }

  /**
   * Strict unsigned lexicographic order of byte strings: the first differing
   * byte decides, and a proper prefix sorts first.
   */
  predicate LexLess(a: seq<uint8>, b: seq<uint8>)
  {
    if a == [] then b != []
    else if b == [] then false
    else a[0] < b[0] || (a[0] == b[0] && LexLess(a[1..], b[1..]))
  }

  /** The value of a non-empty string split at its first byte. */
  lemma {:induction false} ValueFront(s: seq<uint8>)
    requires |s| > 0
    ensures Value(s) == s[0] * Pow256(|s| - 1) + Value(s[1..])
  {
    var n := |s|;
    if n == 1 {
      assert s[..0] == [] && s[1..] == [];
    } else {
      var init := s[..n - 1];
      var tail := s[1..];
      ValueFront(init);
      assert init[1..] == tail[..n - 2];
      assert tail[n - 2] == s[n - 1];
      var p := Pow256(n - 2);
      var v := Value(tail[..n - 2]);
      calc {
        Value(s);
        Value(init) * 256 + s[n - 1];
        (s[0] * p + v) * 256 + s[n - 1];
        { MulDistributes(s[0] * p, v, 256); MulAssociates(s[0], p, 256); }
        s[0] * (p * 256) + (v * 256 + s[n - 1]);
        s[0] * Pow256(n - 1) + Value(tail);
      }
    }
  }

  lemma MulDistributes(a: int, b: int, c: int)
    ensures (a + b) * c == a * c + b * c
  {
  }

  lemma MulAssociates(a: int, b: int, c: int)
    ensures (a * b) * c == a * (b * c)
  {
  }

  /** For 0 <= r < p and digits d < e: d * p + r < e * p. */
  lemma DigitDominates(d: int, e: int, p: int, r: int)
    requires 0 <= d < e && 0 <= r < p
    ensures d * p + r < e * p
  {
    assert (d + 1) * p <= e * p by { MulMonotone(d + 1, e, p); }
    MulDistributes(d, 1, p);
  }

  lemma MulMonotone(a: int, b: int, p: int)
    requires a <= b && p >= 0
    ensures a * p <= b * p
  {
  }

  /** Big-endian numbers of one width: byte order is value order. */
  lemma {:induction false} LexLessIsValueLess(a: seq<uint8>, b: seq<uint8>)
    requires |a| == |b|
    ensures LexLess(a, b) <==> Value(a) < Value(b)
  {
    if |a| > 0 {
      var p := Pow256(|a| - 1);
      ValueFront(a);
      ValueFront(b);
      LexLessIsValueLess(a[1..], b[1..]);
      if a[0] < b[0] {
        DigitDominates(a[0], b[0], p, Value(a[1..]));
      } else if b[0] < a[0] {
        DigitDominates(b[0], a[0], p, Value(b[1..]));
      }
    }
  }

  /** Equal-width big-endian strings are equal exactly when their values are. */
  lemma {:induction false} ValueInjective(a: seq<uint8>, b: seq<uint8>)
    requires |a| == |b| && Value(a) == Value(b)
    ensures a == b
  {
    if |a| > 0 {
      var n := |a| - 1;
      ValueInjective(a[..n], b[..n]);
      assert a == a[..n] + [a[n]];
      assert b == b[..n] + [b[n]];
    }
  }

  /** Reading back a big-endian representation gives the number written. */
  lemma BigEndianValue(s: seq<uint8>)
    ensures BigEndian(Value(s), |s|) == s
  {
    ValueInjective(BigEndian(Value(s), |s|), s);
  }

  /** A common prefix does not change the order. */
  lemma {:induction false} LexLessCommonPrefix(p: seq<uint8>, x: seq<uint8>, y: seq<uint8>)
    ensures LexLess(p + x, p + y) <==> LexLess(x, y)
  {
    if |p| == 0 {
      assert p + x == x && p + y == y;
    } else {
      assert (p + x)[0] == (p + y)[0];
      assert (p + x)[1..] == p[1..] + x;
      assert (p + y)[1..] == p[1..] + y;
      LexLessCommonPrefix(p[1..], x, y);
    }
  }

  /** Where two strings first differ, that byte decides, whatever follows. */
  lemma {:induction false} LexLessAtDifference(p: seq<uint8>, q: seq<uint8>, x: seq<uint8>, y: seq<uint8>, k: nat)
    requires k < |p| && k < |q| && p[..k] == q[..k] && p[k] != q[k]
    ensures LexLess(p + x, q + y) <==> p[k] < q[k]
  {
    if k > 0 {
      assert p[0] == p[..k][0] == q[..k][0] == q[0];
      assert (p + x)[1..] == p[1..] + x;
      assert (q + y)[1..] == q[1..] + y;
      assert p[1..][..k - 1] == p[..k][1..];
      assert q[1..][..k - 1] == q[..k][1..];
      LexLessAtDifference(p[1..], q[1..], x, y, k - 1);
    }
  }
}

