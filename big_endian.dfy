/** The static big-endian integer codec of `kelondroRow`: `long2bytes` writes a
    Java `long` into a byte range, most significant byte first; `bytes2long`
    reads a byte range back into a `long`. */
module BigEndian {
  import opened JavaTypes
  import opened Options
  import opened ColumnTypes

  function Pow256(n: nat): (r: nat)
    ensures r >= 1
  {
    if n == 0 then 1 else 256 * Pow256(n - 1)
  }

  /** The `len` bytes `long2bytes(x, b, off, len)` writes at `off`: the low
      `8 * len` bits of `x` in two's complement, least significant byte last. */
  function Encode(x: int, len: nat): (r: seq<int8>)
    ensures |r| == len
    decreases len
  {
    if len == 0 then [] else Encode(x / 256, len - 1) + [ToByte(x % 256)]
  }

  /** The unsigned big-endian value of a byte sequence. */
  function Value(s: seq<int8>): (v: nat)
    ensures v < Pow256(|s|)
  {
    if s == [] then 0
    else
      var p := Value(s[..|s| - 1]);
      assert p * 256 + Unsigned(s[|s| - 1]) < Pow256(|s|) by {
        assert p <= Pow256(|s| - 1) - 1;
        assert p * 256 <= Pow256(|s| - 1) * 256 - 256;
      }
      p * 256 + Unsigned(s[|s| - 1])
  }

  /** One step of `bytes2long`: `(x << 8) | (0xff & b)` on a `long`. The shift
      clears the low 8 bits, so the `|` adds the unsigned byte, and the shift
      discards the bits pushed past 64. */
  function ShiftIn(x: int, b: int8): (r: int)
    ensures IsLong(r)
  {
    WrapLong(x * 256 + Unsigned(b))
  }

  /** The `long` that `bytes2long` accumulates over the bytes `s`. */
  function Decode(s: seq<int8>): (r: int)
    ensures IsLong(r)
  {
    if s == [] then 0 else ShiftIn(Decode(s[..|s| - 1]), s[|s| - 1])
  }

  /** Two values that differ by a multiple of 2^64 wrap to the same `long`. */
  lemma WrapCongruent(x: int, y: int)
    requires (x - y) % LongModulus == 0
    ensures WrapLong(x) == WrapLong(y)
  {
    var q := (x - y) / LongModulus;
    assert x - MinLong == (y - MinLong) + q * LongModulus;
    ModAddMultiple(y - MinLong, q, LongModulus);
  }

  lemma ModAddMultiple(a: int, q: int, m: int)
    requires m > 0
    ensures (a + q * m) % m == a % m
  {
    var r := a % m;
    assert a == (a / m) * m + r;
    assert a + q * m == (a / m + q) * m + r;
    DivModUnique(a + q * m, a / m + q, r, m);
  }

  /** Euclidean division is unique. */
  lemma DivModUnique(x: int, q: int, r: int, m: int)
    requires m > 0 && 0 <= r < m && x == q * m + r
    ensures x % m == r && x / m == q
  {
    var q', r' := x / m, x % m;
    var d := q - q';
    assert d * m == r' - r by {
      assert x == q' * m + r';
      assert q * m - q' * m == (q - q') * m;
    }
    if d > 0 {
      MulAtLeast(d, m);
    } else if d < 0 {
      MulAtLeast(-d, m);
    }
  }

  lemma {:induction false} MulAtLeast(d: int, m: int)
    requires d >= 1 && m > 0
    ensures d * m >= m
    decreases d
  {
    if d > 1 {
      MulAtLeast(d - 1, m);
      assert d * m == (d - 1) * m + m;
    }
  }

  /** `bytes2long` yields the big-endian value of the bytes, wrapped to a `long`. */
  lemma {:induction false} DecodeIsWrappedValue(s: seq<int8>)
    ensures Decode(s) == WrapLong(Value(s))
  {
    if s != [] {
      var p := s[..|s| - 1];
      var u := Unsigned(s[|s| - 1]);
      DecodeIsWrappedValue(p);
      var w := WrapLong(Value(p));
      var q := (w - Value(p)) / LongModulus;
      assert w - Value(p) == q * LongModulus;
      assert (w * 256 + u) - (Value(p) * 256 + u) == (q * 256) * LongModulus;
      ModAddMultiple(0, q * 256, LongModulus);
      WrapCongruent(w * 256 + u, Value(p) * 256 + u);
    }
  }

  /** Prepending a base-256 digit below the modulus: the arithmetic step of
      `EncodeValue`. */
  lemma ModAppendDigit(q: int, b: int, p: nat)
    requires p > 0 && 0 <= b < 256
    ensures (q * 256 + b) % (p * 256) == (q % p) * 256 + b
  {
    var a, h := q / p, q % p;
    assert q == a * p + h;
    assert q * 256 + b == a * (p * 256) + (h * 256 + b);
    assert h * 256 + b < p * 256;
    DivModUnique(q * 256 + b, a, h * 256 + b, p * 256);
  }

  /** The bytes `long2bytes` writes hold `x` modulo 256^len. */
  lemma {:induction false} EncodeValue(x: int, len: nat)
    ensures Value(Encode(x, len)) == x % Pow256(len)
    decreases len
  {
    if len > 0 {
      var e := Encode(x, len);
      assert e[..len - 1] == Encode(x / 256, len - 1);
      EncodeValue(x / 256, len - 1);
      var p := Pow256(len - 1);
      assert Value(e) == ((x / 256) % p) * 256 + x % 256;
      assert x == (x / 256) * 256 + x % 256;
      ModAppendDigit(x / 256, x % 256, p);
    }
  }

  /** `bytes2long` after `long2bytes` of the same range: `x` modulo 256^len,
      wrapped to a `long`. */
  lemma RoundTrip(x: int, len: nat)
    ensures Decode(Encode(x, len)) == WrapLong(x % Pow256(len))
  {
    DecodeIsWrappedValue(Encode(x, len));
    EncodeValue(x, len);
  }

  /** A non-negative `long` that fits in `len` bytes survives the round trip;
      in particular every `0 <= x < 2^(8 * len)` with `len <= 7`. */
  lemma RoundTripInRange(x: int, len: nat)
    requires 0 <= x < Pow256(len) && x <= MaxLong
    ensures Decode(Encode(x, len)) == x
  {
    RoundTrip(x, len);
    DivModUnique(x, 0, x, Pow256(len));
  }

  /** Proof helper for `RoundTripLong`: powers of 256 multiply. */
  lemma {:induction false} Pow256Split(a: nat, b: nat)
    ensures Pow256(a + b) == Pow256(a) * Pow256(b)
  {
    if a > 0 {
      Pow256Split(a - 1, b);
    }
  }

  /** Every `long`, negative ones included, survives the round trip through
      eight or more bytes. */
  lemma RoundTripLong(x: int, len: nat)
    requires IsLong(x) && len >= 8
    ensures Decode(Encode(x, len)) == x
  {
    RoundTrip(x, len);
    var p, k := Pow256(len), Pow256(len - 8);
    assert p == LongModulus * k by {
      Pow256Split(8, len - 8);
      Pow256Eight();
    }
    assert WrapLong(x % p) == x by {
      ModOfMultipleModulus(x, LongModulus, k);
      WrapCongruent(x % p, x);
    }
  }

  lemma Pow256Eight()
    ensures Pow256(8) == LongModulus
  {
    assert Pow256(4) == 0x1_0000_0000;
    Pow256Split(4, 4);
  }

  /** Reducing modulo a multiple of `m` changes a value by a multiple of `m`. */
  lemma ModOfMultipleModulus(x: int, m: nat, k: nat)
    requires m > 0 && k > 0
    ensures (x % (m * k) - x) % m == 0
  {
    var q, r := x / (m * k), x % (m * k);
    assert x == q * (m * k) + r;
    assert r - x == -(q * k) * m;
    ModAddMultiple(0, -(q * k), m);
  }

  /** `a` sorts strictly before `b` when the bytes are compared as unsigned
      values, first difference deciding. */
  predicate LexLess(a: seq<int8>, b: seq<int8>) {
    exists k :: 0 <= k < |a| && k < |b| && a[..k] == b[..k] && Unsigned(a[k]) < Unsigned(b[k])
  }

  lemma LexLessAppend(a: seq<int8>, b: seq<int8>, x: int8, y: int8)
    requires LexLess(a, b)
    ensures LexLess(a + [x], b + [y])
  {
    var k :| 0 <= k < |a| && k < |b| && a[..k] == b[..k] && Unsigned(a[k]) < Unsigned(b[k]);
    assert (a + [x])[..k] == a[..k] && (b + [y])[..k] == b[..k];
    assert (a + [x])[k] == a[k] && (b + [y])[k] == b[k];
  }

  /** Proof helper for `EncodeOrder`: the byte-wise order is asymmetric. */
  lemma LexLessAsymmetric(a: seq<int8>, b: seq<int8>)
    requires LexLess(a, b)
    ensures !LexLess(b, a)
  {
    var k :| 0 <= k < |a| && k < |b| && a[..k] == b[..k] && Unsigned(a[k]) < Unsigned(b[k]);
    if LexLess(b, a) {
      var j :| 0 <= j < |b| && j < |a| && b[..j] == a[..j] && Unsigned(b[j]) < Unsigned(a[j]);
      if j < k {
        assert false;
      } else if k < j {
        assert false;
      } else {
        assert false;
      }
    }
  }

  lemma {:induction false} EncodeMonotone(x: int, y: int, len: nat)
    requires 0 <= x < y < Pow256(len)
    ensures LexLess(Encode(x, len), Encode(y, len))
    decreases len
  {
    var qx, qy := x / 256, y / 256;
    var p := Pow256(len - 1);
    assert qx <= qy;
    assert qy < p by {
      DivModUnique(y, qy, y % 256, 256);
      assert y < p * 256;
    }
    if qx < qy {
      EncodeMonotone(qx, qy, len - 1);
      LexLessAppend(Encode(qx, len - 1), Encode(qy, len - 1), ToByte(x % 256), ToByte(y % 256));
    } else {
      var a, b := Encode(x, len), Encode(y, len);
      assert a[..len - 1] == b[..len - 1];
      assert Unsigned(a[len - 1]) == x % 256 < y % 256 == Unsigned(b[len - 1]);
    }
  }

  /** For values that fit the width, the unsigned byte order of the encodings
      is the numeric order of the values. */
  lemma EncodeOrder(x: int, y: int, len: nat)
    requires 0 <= x < Pow256(len) && 0 <= y < Pow256(len)
    ensures LexLess(Encode(x, len), Encode(y, len)) <==> x < y
  {
    if x < y {
      EncodeMonotone(x, y, len);
    } else if y < x {
      EncodeMonotone(y, x, len);
      LexLessAsymmetric(Encode(y, len), Encode(x, len));
    }
  }

  /** The last byte of a prefix of an encoding, and the prefix before it. */
  lemma EncodeStep(e: seq<int8>, v: int, i: nat)
    requires 0 < i <= |e| && e[..i] == Encode(v, i)
    ensures e[i - 1] == ToByte(v % 256) && e[..i - 1] == Encode(v / 256, i - 1)
  {
    assert e[..i] == e[..i - 1] + [e[i - 1]];
  }

  /** `long2bytes(x, b, offset, length)`: writes `length` bytes of `x` at
      `offset`, least significant byte last, from the last index down; nothing
      else in `b` changes. An index past the end throws before any write; an
      index below zero throws after the bytes above it are written. */
  method Long2Bytes(x: int, b: array<int8>, offset: int, length: int) returns (o: Outcome<RowError>)
    requires IsLong(x)
    modifies b
    ensures o.Fail? <==> length > 0 && !(0 <= offset && offset + length <= b.Length)
    ensures o.Fail? ==> o.error == IndexOutOfBounds
    ensures length <= 0 ==> b[..] == old(b[..])
    ensures o.Pass? && length > 0 ==>
      0 <= offset && b[..] == old(b[..offset]) + Encode(x, length) + old(b[offset + length..])
    ensures o.Fail? ==> forall k :: 0 <= k < b.Length ==>
      b[k] == if offset <= k < offset + length <= b.Length then Encode(x, length)[k - offset] else old(b[k])
  {
    if length <= 0 {
      return Pass;
    }
    if offset + length > b.Length {
      return Fail(IndexOutOfBounds);
    }
    ghost var e := Encode(x, length);
    var v := x;
    var i := length;
    while i > 0
      invariant 0 <= i <= length
      invariant i < length ==> 0 <= offset + i
      invariant e[..i] == Encode(v, i)
      invariant forall k :: 0 <= k < offset + i ==> b[k] == old(b[k])
      invariant forall k :: 0 <= k && offset + length <= k < b.Length ==> b[k] == old(b[k])
      invariant forall k :: i <= k < length ==> b[offset + k] == e[k]
    {
      if offset + i - 1 < 0 {
        forall k | 0 <= k < offset + length
          ensures b[k] == e[k - offset]
        {
          assert b[offset + (k - offset)] == e[k - offset];
        }
        return Fail(IndexOutOfBounds);
      }
      EncodeStep(e, v, i);
      b[offset + i - 1] := ToByte(v % 256);
      v := v / 256;
      i := i - 1;
    }
    assert b[..offset] == old(b[..offset]);
    assert b[offset..offset + length] == e;
    assert b[offset + length..] == old(b[offset + length..]);
    assert b[..] == b[..offset] + b[offset..offset + length] + b[offset + length..];
    o := Pass;
  }

  /** `bytes2long(b, offset, length)`: 0 for a `null` array, otherwise the
      `long` accumulated over `b[offset..offset + length)`; a range past
      either end of `b` throws. */
  method Bytes2Long(b: array?<int8>, offset: int, length: int) returns (r: Result<int, RowError>)
    ensures b == null || length <= 0 ==> r == Success(0)
    ensures b != null && length > 0 && !(0 <= offset && offset + length <= b.Length) ==>
      r == Failure(IndexOutOfBounds)
    ensures b != null && length > 0 && 0 <= offset && offset + length <= b.Length ==>
      r == Success(Decode(b[offset..offset + length]))
  {
    if b == null {
      return Success(0);
    }
    var x := 0;
    var i := 0;
    while i < length
      invariant 0 <= i && (i <= length || i == 0)
      invariant i == 0 ==> x == 0
      invariant i > 0 ==> 0 <= offset && offset + i <= b.Length && x == Decode(b[offset..offset + i])
    {
      if offset + i < 0 || offset + i >= b.Length {
        return Failure(IndexOutOfBounds);
      }
      assert b[offset..offset + i + 1][..i] == b[offset..offset + i];
      x := ShiftIn(x, b[offset + i]);
      i := i + 1;
    }
    r := Success(x);
  }
}
