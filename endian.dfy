/**
 * The integer byte codec of `src/boost/platform.cpp` (namespace `endian`):
 * a buffer of 1 to 8 bytes read as an unsigned or a two's-complement signed
 * integer, little- or big-endian, and zero for any other buffer length.
 *
 * The reverse direction, the Boost endian buffers that the channel setters
 * fill (`little_uint16_buf_at` and friends), is `EncodeLe` / `EncodeBe`.
 */
module Endian {
  import opened Buffers

  function Pow256(n: nat): (r: nat)
    ensures r >= 1
  {
    if n == 0 then 1 else 256 * Pow256(n - 1)
  }

  lemma {:induction false} Pow256Monotonic(m: nat, n: nat)
    requires m <= n
    ensures Pow256(m) <= Pow256(n)
  {
    if m < n {
      Pow256Monotonic(m, n - 1);
    }
  }

  /** The values of 256^n at the widths of the C++ integer types. */
  lemma Pow256Widths()
    ensures Pow256(1) == 0x100 && Pow256(2) == 0x1_0000
    ensures Pow256(4) == 0x1_0000_0000 && Pow256(8) == 0x1_0000_0000_0000_0000
  {
  }

  /** The buffer lengths the converters decode: one `case` each in their `switch`. */
  predicate IntegerSize(n: int) {
    1 <= n <= 8
  }

  // ---------------------------------------------------------------------------
  // Positional values of byte strings

  /** Little-endian value: byte 0 is the least significant. */
  function DecodeLe(b: seq<Byte>): (r: nat)
    ensures r < Pow256(|b|)
  {
    if b == [] then 0 else b[0] + 256 * DecodeLe(b[1..])
  }

  /** Big-endian value: the last byte is the least significant. */
  function DecodeBe(b: seq<Byte>): (r: nat)
    ensures r < Pow256(|b|)
  {
    if b == [] then 0 else 256 * DecodeBe(b[..|b| - 1]) + b[|b| - 1]
  }

  /** The `n` bytes of `v mod 256^n`, least significant first. */
  function EncodeLe(v: nat, n: nat): (r: seq<Byte>)
    ensures |r| == n
  {
    if n == 0 then [] else [v % 256] + EncodeLe(v / 256, n - 1)
  }

  /** The `n` bytes of `v mod 256^n`, most significant first. */
  function EncodeBe(v: nat, n: nat): (r: seq<Byte>)
    ensures |r| == n
  {
    if n == 0 then [] else EncodeBe(v / 256, n - 1) + [v % 256]
  }

  /** Reference definition of a little-endian value: the sum of b[i]·256^i for i < k. */
  function WeightedSumLe(b: seq<Byte>, k: nat): nat
    requires k <= |b|
  {
    if k == 0 then 0 else WeightedSumLe(b, k - 1) + b[k - 1] * Pow256(k - 1)
  }

  function Reverse(s: seq<Byte>): (r: seq<Byte>)
    ensures |r| == |s|
    ensures forall i :: 0 <= i < |s| ==> r[i] == s[|s| - 1 - i]
  {
    if s == [] then [] else [s[|s| - 1]] + Reverse(s[..|s| - 1])
  }

  // ---------------------------------------------------------------------------
  // The converters of platform.cpp

  /** `ConvertUnsignedLe`: the little-endian value for 1 to 8 bytes, else 0. */
  function ConvertUnsignedLe(b: seq<Byte>): (r: uint64)
    ensures r < Pow256(|b|)
    ensures !IntegerSize(|b|) ==> r == 0
  {
    if IntegerSize(|b|) then
      Pow256Monotonic(|b|, 8);
      DecodeLe(b)
    else
      0
  }

  /** `ConvertUnsignedBe`: the big-endian value for 1 to 8 bytes, else 0. */
  function ConvertUnsignedBe(b: seq<Byte>): (r: uint64)
    ensures r < Pow256(|b|)
    ensures !IntegerSize(|b|) ==> r == 0
  {
    if IntegerSize(|b|) then
      Pow256Monotonic(|b|, 8);
      DecodeBe(b)
    else
      0
  }

  /** 2^(8n-1): the bound of an `n`-byte two's-complement integer. */
  function HalfRange(n: nat): int {
    Pow256(n) / 2
  }

  /** Two's-complement reading of an unsigned value held in `n` bytes. */
  function ToSigned(u: nat, n: nat): int {
    if u >= Pow256(n) / 2 then u - Pow256(n) else u
  }

  /** An `n`-byte unsigned value read as two's complement lies in the signed range of
      `n` bytes, which for 1 to 8 bytes lies inside that of `int64`. */
  lemma ToSignedRange(u: nat, n: nat)
    requires IntegerSize(n) && u < Pow256(n)
    ensures -HalfRange(n) <= ToSigned(u, n) < HalfRange(n)
    ensures HalfRange(n) <= 0x8000_0000_0000_0000
  {
    var p := Pow256(n - 1);
    assert Pow256(n) == 256 * p;
    assert HalfRange(n) == 128 * p;
    Pow256Monotonic(n, 8);
    Pow256Widths();
  }

  /** `ConvertSignedLe`: the unsigned value, minus 256^n when the most
      significant (last) byte has its top bit set. */
  function ConvertSignedLe(b: seq<Byte>): (r: int64)
    ensures !IntegerSize(|b|) ==> r == 0
    ensures IntegerSize(|b|) ==> -HalfRange(|b|) <= r < HalfRange(|b|)
    ensures IntegerSize(|b|) ==>
      r == ConvertUnsignedLe(b) - (if b[|b| - 1] >= 0x80 then Pow256(|b|) else 0)
  {
    if IntegerSize(|b|) then
      DecodeLeTopByte(b);
      ToSignedRange(DecodeLe(b), |b|);
      ToSigned(DecodeLe(b), |b|)
    else
      0
  }

  /** `ConvertSignedBe`: the unsigned value, minus 256^n when the most
      significant (first) byte has its top bit set. */
  function ConvertSignedBe(b: seq<Byte>): (r: int64)
    ensures !IntegerSize(|b|) ==> r == 0
    ensures IntegerSize(|b|) ==> -HalfRange(|b|) <= r < HalfRange(|b|)
    ensures IntegerSize(|b|) ==>
      r == ConvertUnsignedBe(b) - (if b[0] >= 0x80 then Pow256(|b|) else 0)
  {
    if IntegerSize(|b|) then
      DecodeBeTopByte(b);
      ToSignedRange(DecodeBe(b), |b|);
      ToSigned(DecodeBe(b), |b|)
    else
      0
  }

  /** What `static_cast<intN_t>(v)` keeps of `v` for an `n`-byte integer. */
  function Wrap(v: int, n: nat): int {
    ToSigned(v % Pow256(n), n)
  }

  // ---------------------------------------------------------------------------
  // Arithmetic helpers

  lemma DivModUnique(v: int, d: int, k: int, r: int)
    requires d > 0 && 0 <= r < d && v == d * k + r
    ensures v / d == k && v % d == r
  {
    var q, s := v / d, v % d;
    assert d * q + s == d * k + r;
    assert (q - k) * d == r - s;
    if q > k {
      MulMonotonic(1, q - k, d);
    } else if q < k {
      MulMonotonic(1, k - q, d);
    }
  }

  lemma ModSplit(v: nat, m: nat)
    requires m >= 1
    ensures v % (256 * m) == v % 256 + 256 * ((v / 256) % m)
  {
    var q := v / 256;
    var r := v % 256 + 256 * (q % m);
    assert q == m * (q / m) + q % m;
    assert v == 256 * q + v % 256;
    assert v == (256 * m) * (q / m) + r;
    DivModUnique(v, 256 * m, q / m, r);
  }

  lemma MulMonotonic(a: nat, b: nat, c: nat)
    requires a <= b
    ensures a * c <= b * c
  {
    assert b * c == a * c + (b - a) * c;
  }

  // ---------------------------------------------------------------------------
  // Properties of the positional values

  lemma {:induction false} DecodeLeAppend(b: seq<Byte>, x: Byte)
    ensures DecodeLe(b + [x]) == DecodeLe(b) + x * Pow256(|b|)
  {
    if b == [] {
      assert b + [x] == [x];
      assert [x][1..] == [];
    } else {
      var p := Pow256(|b| - 1);
      assert (b + [x])[1..] == b[1..] + [x];
      DecodeLeAppend(b[1..], x);
      assert Pow256(|b|) == 256 * p;
      assert 256 * (x * p) == x * (256 * p);
    }
  }

  /** The little-endian value is the weighted byte sum: DecodeLe(b) = Σ b[i]·256^i. */
  lemma {:induction false} DecodeLeIsWeightedSum(b: seq<Byte>, k: nat)
    requires k <= |b|
    ensures DecodeLe(b[..k]) == WeightedSumLe(b, k)
  {
    if k > 0 {
      DecodeLeIsWeightedSum(b, k - 1);
      assert b[..k] == b[..k - 1] + [b[k - 1]];
      DecodeLeAppend(b[..k - 1], b[k - 1]);
    }
  }

  /** The top bit of the most significant byte is set exactly when the value
      is at least half of 256^n. */
  lemma DecodeLeTopByte(b: seq<Byte>)
    requires |b| >= 1
    ensures Pow256(|b|) / 2 == 128 * Pow256(|b| - 1)
    ensures DecodeLe(b) >= Pow256(|b|) / 2 <==> b[|b| - 1] >= 0x80
  {
    var n := |b|;
    var p := Pow256(n - 1);
    assert b == b[..n - 1] + [b[n - 1]];
    DecodeLeAppend(b[..n - 1], b[n - 1]);
    assert DecodeLe(b) == DecodeLe(b[..n - 1]) + b[n - 1] * p;
    if b[n - 1] >= 0x80 {
      MulMonotonic(0x80, b[n - 1], p);
    } else {
      MulMonotonic(b[n - 1], 0x7F, p);
    }
  }

  lemma {:induction false} ReverseCons(x: Byte, s: seq<Byte>)
    ensures Reverse([x] + s) == Reverse(s) + [x]
  {
    var l, r := Reverse([x] + s), Reverse(s) + [x];
    assert |l| == |r|;
    forall i | 0 <= i < |l|
      ensures l[i] == r[i]
    {
      if i < |s| {
        assert ([x] + s)[|s| - i] == s[|s| - 1 - i];
      }
    }
  }

  /** Big-endian decoding is little-endian decoding of the reversed buffer. */
  lemma {:induction false} DecodeBeIsReversedLe(b: seq<Byte>)
    ensures DecodeBe(b) == DecodeLe(Reverse(b))
  {
    if b != [] {
      var init := b[..|b| - 1];
      DecodeBeIsReversedLe(init);
      assert Reverse(b) == [b[|b| - 1]] + Reverse(init);
      assert Reverse(b)[1..] == Reverse(init);
    }
  }

  /** Big-endian encoding is the reverse of little-endian encoding. */
  lemma {:induction false} EncodeBeIsReversedLe(v: nat, n: nat)
    ensures EncodeBe(v, n) == Reverse(EncodeLe(v, n))
  {
    if n > 0 {
      EncodeBeIsReversedLe(v / 256, n - 1);
      ReverseCons(v % 256, EncodeLe(v / 256, n - 1));
    }
  }

  lemma DecodeBeTopByte(b: seq<Byte>)
    requires |b| >= 1
    ensures DecodeBe(b) >= Pow256(|b|) / 2 <==> b[0] >= 0x80
  {
    DecodeBeIsReversedLe(b);
    DecodeLeTopByte(Reverse(b));
  }

  /** Decoding what was encoded gives the value modulo 256^n. */
  lemma {:induction false} DecodeEncodeLe(v: nat, n: nat)
    ensures DecodeLe(EncodeLe(v, n)) == v % Pow256(n)
  {
    if n > 0 {
      var rest := EncodeLe(v / 256, n - 1);
      assert EncodeLe(v, n)[1..] == rest;
      DecodeEncodeLe(v / 256, n - 1);
      ModSplit(v, Pow256(n - 1));
    }
  }

  lemma {:induction false} DecodeEncodeBe(v: nat, n: nat)
    ensures DecodeBe(EncodeBe(v, n)) == v % Pow256(n)
  {
    if n > 0 {
      var rest := EncodeBe(v / 256, n - 1);
      assert EncodeBe(v, n)[..n - 1] == rest;
      DecodeEncodeBe(v / 256, n - 1);
      ModSplit(v, Pow256(n - 1));
    }
  }

  /** Encoding what was decoded gives back the same bytes. */
  lemma {:induction false} EncodeDecodeLe(b: seq<Byte>)
    ensures EncodeLe(DecodeLe(b), |b|) == b
  {
    if b != [] {
      EncodeDecodeLe(b[1..]);
      DivModUnique(DecodeLe(b), 256, DecodeLe(b[1..]), b[0]);
    }
  }

  lemma {:induction false} EncodeDecodeBe(b: seq<Byte>)
    ensures EncodeBe(DecodeBe(b), |b|) == b
  {
    if b != [] {
      var init := b[..|b| - 1];
      EncodeDecodeBe(init);
      DivModUnique(DecodeBe(b), 256, DecodeBe(init), b[|b| - 1]);
    }
  }

  // ---------------------------------------------------------------------------
  // Properties of the converters

  /** For 1 to 8 bytes, `ConvertUnsignedLe(b)` is Σ b[i]·256^i. */
  lemma ConvertUnsignedLeIsWeightedSum(b: seq<Byte>)
    requires IntegerSize(|b|)
    ensures ConvertUnsignedLe(b) == WeightedSumLe(b, |b|)
  {
    DecodeLeIsWeightedSum(b, |b|);
    assert b[..|b|] == b;
  }

  /** For 1 to 8 bytes, `ConvertUnsignedBe(b)` is `ConvertUnsignedLe` of the reversed bytes,
      and likewise for the signed pair. */
  lemma ConvertBeIsReversedLe(b: seq<Byte>)
    ensures ConvertUnsignedBe(b) == ConvertUnsignedLe(Reverse(b))
    ensures ConvertSignedBe(b) == ConvertSignedLe(Reverse(b))
  {
    DecodeBeIsReversedLe(b);
  }

  /** One byte reads the same in both byte orders. */
  lemma SingleByteOrderIrrelevant(b: seq<Byte>)
    requires |b| == 1
    ensures ConvertUnsignedLe(b) == ConvertUnsignedBe(b) == b[0]
    ensures ConvertSignedLe(b) == ConvertSignedBe(b) == (if b[0] >= 0x80 then b[0] as int - 0x100 else b[0])
  {
    assert b[1..] == [] && b[..0] == [];
  }

  /** Concrete readings: 0xFF is 255 in either order; 0x01 0x00 is 1 little-endian and
      256 big-endian; 0xFF is -1 signed and 0xFF 0xFE is -2 signed big-endian. */
  lemma ConverterExamples()
    ensures ConvertUnsignedLe([0xFF]) == 255 && ConvertUnsignedBe([0xFF]) == 255
    ensures ConvertUnsignedLe([0x01, 0x00]) == 1 && ConvertUnsignedBe([0x01, 0x00]) == 256
    ensures ConvertSignedLe([0xFF]) == -1 && ConvertSignedBe([0xFF, 0xFE]) == -2
  {
    assert [0x01, 0x00][1..] == [0x00];
    assert [0x01, 0x00][..1] == [0x01];
    assert [0xFF, 0xFE][..1] == [0xFF];
  }

  /** Unsigned round trip: the bytes a setter writes for `v` at width `n`
      decode back to `v mod 256^n`. */
  lemma UnsignedRoundTrip(v: nat, n: nat)
    requires IntegerSize(n)
    ensures ConvertUnsignedLe(EncodeLe(v, n)) == v % Pow256(n)
    ensures ConvertUnsignedBe(EncodeBe(v, n)) == v % Pow256(n)
  {
    DecodeEncodeLe(v, n);
    DecodeEncodeBe(v, n);
  }

  /** The converse: a reading of 1 to 8 bytes, written back at the same width and in the same
      byte order, gives the same bytes, so the converters lose nothing. */
  lemma ReadingReencodes(b: seq<Byte>)
    requires IntegerSize(|b|)
    ensures EncodeLe(ConvertUnsignedLe(b), |b|) == b
    ensures EncodeBe(ConvertUnsignedBe(b), |b|) == b
  {
    EncodeDecodeLe(b);
    EncodeDecodeBe(b);
  }

  /** Signed round trip: the two's-complement bytes of `v` at width `n` decode back to
      `v` narrowed to `n` bytes, which is `v` itself when it fits. */
  lemma SignedRoundTrip(v: int, n: nat)
    requires IntegerSize(n)
    ensures ConvertSignedLe(EncodeLe(v % Pow256(n), n)) == Wrap(v, n)
    ensures ConvertSignedBe(EncodeBe(v % Pow256(n), n)) == Wrap(v, n)
    ensures -HalfRange(n) <= v < HalfRange(n) ==> Wrap(v, n) == v
  {
    var p := Pow256(n);
    DecodeEncodeLe(v % p, n);
    DecodeEncodeBe(v % p, n);
    assert (v % p) % p == v % p by {
      DivModUnique(v % p, p, 0, v % p);
    }
    if -p / 2 <= v < 0 {
      DivModUnique(v, p, -1, v + p);
    } else if 0 <= v < p / 2 {
      DivModUnique(v, p, 0, v);
    }
  }
}
