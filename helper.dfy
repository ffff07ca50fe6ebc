/** The scalar encoders of the legacy wire format: a word-swapped 32-bit
    integer, a length-prefixed string packed two characters per 16-bit word,
    and the custom REAL floating-point format. */
module Helper {
  import opened Bytes

  type int16 = x: int | -0x8000 <= x < 0x8000

  // ---------------------------------------------------------------------
  // encodeInt32
  // ---------------------------------------------------------------------

  /** encodeInt32: the low 16-bit word first, then the high word, each of
      them big-endian (`val & 0xFFFF` is `val % 0x1_0000`, and
      `(val & 0xFFFF0000) >> 16` is `val / 0x1_0000`). */
  function EncodeInt32(v: uint32): (r: seq<uint8>)
    ensures |r| == 4
  {
    BE16(v % 0x1_0000) + BE16(v / 0x1_0000)
  }

  /** The four bytes, in the order they go on the wire: bits 8-15, bits
      0-7, bits 24-31, bits 16-23; a value below 2^16 has a zero high word. */
  lemma EncodeInt32Bytes(v: uint32)
    ensures var r := EncodeInt32(v);
            r[0] == (v / 0x100) % 0x100 && r[1] == v % 0x100 &&
            r[2] == v / 0x100_0000 && r[3] == (v / 0x1_0000) % 0x100 &&
            (v < 0x1_0000 ==> r[2] == 0 && r[3] == 0)
  {
    var lo, hi := v % 0x1_0000, v / 0x1_0000;
    var r := EncodeInt32(v);
    assert r == [lo / 0x100, lo % 0x100, hi / 0x100, hi % 0x100];
    assert v == hi * 0x1_0000 + lo;
    assert r[0] == (v / 0x100) % 0x100 by {
      assert v / 0x100 == hi * 0x100 + lo / 0x100;
    }
    assert r[1] == v % 0x100 by {
      assert v == (hi * 0x100 + lo / 0x100) * 0x100 + lo % 0x100;
    }
    assert r[2] == v / 0x100_0000 by {
      assert v == (hi / 0x100) * 0x100_0000 + ((hi % 0x100) * 0x1_0000 + lo);
    }
  }

  /** Reads a word-swapped 32-bit integer at offset i: the inverse decoder
      of EncodeInt32. */
  function DecodeInt32(b: seq<uint8>, i: nat): uint32
    requires i + 4 <= |b|
  {
    Uint16At(b, i) + 0x1_0000 * Uint16At(b, i + 2)
  }

  /** The inverse decoder gets the value back from the four bytes. */
  lemma EncodeInt32RoundTrip(v: uint32, rest: seq<uint8>)
    ensures DecodeInt32(EncodeInt32(v) + rest, 0) == v
  {
    var b := EncodeInt32(v) + rest;
    assert b[..4] == BE16(v % 0x1_0000) + BE16(v / 0x1_0000);
    assert Uint16At(b, 0) == v % 0x1_0000;
    assert Uint16At(b, 2) == v / 0x1_0000;
  }

  lemma EncodeInt32Injective(v: uint32, w: uint32)
    requires EncodeInt32(v) == EncodeInt32(w)
    ensures v == w
  {
    EncodeInt32RoundTrip(v, []);
    EncodeInt32RoundTrip(w, []);
  }

  lemma DecodeInt32Shift(prefix: seq<uint8>, b: seq<uint8>, i: nat)
    requires i + 4 <= |b|
    ensures DecodeInt32(prefix + b, |prefix| + i) == DecodeInt32(b, i)
  {
    Uint16AtShift(prefix, b, i);
    Uint16AtShift(prefix, b, i + 2);
  }

  // ---------------------------------------------------------------------
  // encodeString
  // ---------------------------------------------------------------------

  /** int8(b): the byte read as a two's-complement signed char. */
  function Int8(b: uint8): int
  {
    if b < 0x80 then b else b - 0x100
  }

  /** The value an int16 addition or shift wraps to; the operands of the
      packing below are never more than one wrap away from the int16 range. */
  function Wrap16(x: int): int16
    requires -0x1_8000 <= x < 0x1_8000
  {
    if x < -0x8000 then x + 0x1_0000
    else if x >= 0x8000 then x - 0x1_0000
    else x
  }

  /** uint16(x): an int16 reinterpreted as unsigned. */
  function ToUint16(x: int16): uint16
  {
    if x < 0 then x + 0x1_0000 else x
  }

  /** uint16(lo + (hi << 8)) with lo and hi sign-extended to int16 and both
      the shift and the addition wrapping in int16. The low byte of the word
      is always lo; the high byte is hi, less one when lo is negative as a
      signed char. */
  function PackPair(lo: uint8, hi: uint8): uint16
  {
    var shifted := Wrap16(Int8(hi) * 0x100);
    var sum := Wrap16(Int8(lo) + shifted);
    ToUint16(sum)
  }

  /** The packed word is the signed sum taken modulo 2^16; its low byte is
      lo and its high byte is hi, less one when lo is negative as a signed
      char. */
  lemma PackPairWord(lo: uint8, hi: uint8)
    ensures var w := PackPair(lo, hi);
            w == (Int8(lo) + 0x100 * Int8(hi)) % 0x1_0000 &&
            w % 0x100 == lo &&
            w / 0x100 == if lo < 0x80 then hi else (hi as int + 0xFF) % 0x100
  {
  }

  /** Recovers the byte pair from a packed word given as its two big-endian
      bytes. */
  function UnpackPair(b0: uint8, b1: uint8): (pair: (uint8, uint8))
  {
    (b1, if b1 < 0x80 then b0 else (b0 as int + 1) % 0x100)
  }

  lemma PackPairRoundTrip(lo: uint8, hi: uint8)
    ensures var w := BE16(PackPair(lo, hi)); UnpackPair(w[0], w[1]) == (lo, hi)
  {
    PackPairWord(lo, hi);
  }

  /** The packed words of data[i..], two bytes per word; a missing second
      byte counts as 0. */
  function PackedWords(data: seq<uint8>, i: nat): seq<uint8>
    decreases |data| - i
  {
    if i >= |data| then []
    else
      var hi := if i + 1 < |data| then data[i + 1] else 0;
      BE16(PackPair(data[i], hi)) + PackedWords(data, i + 2)
  }

  /** Everything encodeString writes for s: the length of s plus its NUL
      terminator, as a big-endian uint16 that wraps, then the packed words of
      s and the terminator. */
  function StringBytes(s: seq<uint8>): seq<uint8>
  {
    BE16((|s| + 1) % 0x1_0000) + PackedWords(s + [0], 0)
  }

  /** encodeString, written as the source writes it: a loop over the
      terminated bytes that appends one packed word per pair. */
  method EncodeString(s: seq<uint8>) returns (result: seq<uint8>)
    ensures result == StringBytes(s)
  {
    var data := s + [0];
    result := BE16(|data| % 0x1_0000);
    var i := 0;
    while i < |data|
      invariant 0 <= i <= |data| + 1
      invariant result + PackedWords(data, i) == StringBytes(s)
      decreases |data| - i
    {
      var lo := data[i];
      var hi := 0;
      if i + 1 < |data| {
        hi := data[i + 1];
      }
      var shortVal := PackPair(lo, hi);
      PackedWordsStep(data, i);
      AppendStep(result, BE16(shortVal), PackedWords(data, i + 2), StringBytes(s));
      result := result + BE16(shortVal);
      i := i + 2;
    }
  }

  /** One step of the packing: the word for data[i] and its successor, then
      the rest. */
  lemma PackedWordsStep(data: seq<uint8>, i: nat)
    requires i < |data|
    ensures PackedWords(data, i)
            == BE16(PackPair(data[i], if i + 1 < |data| then data[i + 1] else 0)) + PackedWords(data, i + 2)
  {
  }

  lemma {:induction false} PackedWordsLength(data: seq<uint8>, i: nat)
    requires i <= |data|
    ensures |PackedWords(data, i)| == |data| - i + (|data| - i) % 2
    decreases |data| - i
  {
    var n := |data| - i;
    if i < |data| {
      var hi := if i + 1 < |data| then data[i + 1] else 0;
      assert PackedWords(data, i) == BE16(PackPair(data[i], hi)) + PackedWords(data, i + 2);
      if i + 2 <= |data| {
        PackedWordsLength(data, i + 2);
        assert (n - 2) % 2 == n % 2;
      } else {
        assert n == 1 && PackedWords(data, i + 2) == [];
      }
    }
  }

  /** Word k of PackedWords(data, i) packs data[i + 2k] and data[i + 2k + 1]. */
  lemma {:induction false} PackedWordsAt(data: seq<uint8>, i: nat, k: nat)
    requires i + 2 * k < |data|
    ensures |PackedWords(data, i)| >= 2 * k + 2
    ensures var hi := if i + 2 * k + 1 < |data| then data[i + 2 * k + 1] else 0;
            PackedWords(data, i)[2 * k .. 2 * k + 2] == BE16(PackPair(data[i + 2 * k], hi))
    decreases k
  {
    var hi := if i + 1 < |data| then data[i + 1] else 0;
    var head := BE16(PackPair(data[i], hi));
    var tail := PackedWords(data, i + 2);
    assert PackedWords(data, i) == head + tail;
    if k > 0 {
      PackedWordsAt(data, i + 2, k - 1);
      assert |head| == 2;
      assert (head + tail)[2 * k] == tail[2 * k - 2] && (head + tail)[2 * k + 1] == tail[2 * k - 1];
      assert (head + tail)[2 * k .. 2 * k + 2] == tail[2 * k - 2 .. 2 * k];
    }
  }

  /** n rounded up to an even number. */
  lemma RoundUpEven(n: nat)
    ensures n + n % 2 == 2 * ((n + 1) / 2)
  {
    var q := n / 2;
    if n % 2 == 0 {
      assert n == 2 * q && (n + 1) / 2 == q;
    } else {
      assert n == 2 * q + 1 && (n + 1) / 2 == q + 1;
    }
  }

  /** The length of an encoded string and its length word. */
  lemma StringBytesLength(s: seq<uint8>)
    ensures |StringBytes(s)| == 2 + 2 * ((|s| + 2) / 2)
    ensures |s| + 1 < 0x1_0000 ==> Uint16At(StringBytes(s), 0) == |s| + 1
  {
    var data := s + [0];
    PackedWordsLength(data, 0);
    var n := |s| + 1;
    var w := BE16(n % 0x1_0000);
    assert StringBytes(s) == w + PackedWords(data, 0);
    RoundUpEven(n);
    assert StringBytes(s)[0] == w[0] && StringBytes(s)[1] == w[1];
  }

  /** Word k of an encoded string packs the terminated bytes lo = data[2k]
      and hi = data[2k + 1] (0 past the end): its second byte is lo, its first
      byte is hi, less one when lo is negative as a signed char. */
  lemma StringBytesWord(s: seq<uint8>, k: nat)
    requires k < (|s| + 2) / 2
    ensures |StringBytes(s)| >= 2 + 2 * k + 2
    ensures var data := s + [0];
            var lo := data[2 * k];
            var hi := if 2 * k + 1 < |data| then data[2 * k + 1] else 0;
            StringBytes(s)[2 + 2 * k + 1] == lo &&
            StringBytes(s)[2 + 2 * k] == if lo < 0x80 then hi else (hi as int + 0xFF) % 0x100
  {
    var data := s + [0];
    PackedWordsAt(data, 0, k);
    var hi := if 2 * k + 1 < |data| then data[2 * k + 1] else 0;
    PackPairWord(data[2 * k], hi);
    var w := PackedWords(data, 0);
    assert StringBytes(s)[2 + 2 * k] == w[2 * k];
    assert StringBytes(s)[2 + 2 * k + 1] == w[2 * k + 1];
  }

  lemma EmptyString()
    ensures StringBytes([]) == [0, 1, 0, 0]
  {
    var data: seq<uint8> := [] + [0];
    assert data == [0];
    assert PackedWords(data, 2) == [];
    assert PackedWords(data, 0) == BE16(PackPair(0, 0)) + PackedWords(data, 2);
    assert PackPair(0, 0) == 0;
  }

  // An inverse decoder for the string format. It is stricter than a plain
  // reader: it rejects a zero length word and a missing terminator.

  /** The byte pairs recovered from a run of packed words. */
  function UnpackWords(w: seq<uint8>): seq<uint8>
    decreases |w|
  {
    if |w| < 2 then []
    else
      var pair := UnpackPair(w[0], w[1]);
      [pair.0, pair.1] + UnpackWords(w[2..])
  }

  /** Reads an encoded string at the start of b: its bytes without the
      terminator and the number of bytes the encoding took up. */
  function ParseString(b: seq<uint8>): Option<(seq<uint8>, nat)>
  {
    if |b| < 2 then None
    else
      var n := Uint16At(b, 0);
      var size := 2 + 2 * ((n + 1) / 2);
      if n == 0 || |b| < size then None
      else
        var raw := UnpackWords(b[2..size]);
        if |raw| < n || raw[n - 1] != 0 then None
        else Some((raw[..n - 1], size))
  }

  lemma {:induction false} UnpackPackedWords(data: seq<uint8>, i: nat, rest: seq<uint8>)
    requires i <= |data|
    ensures |UnpackWords(PackedWords(data, i) + rest)| >= |data| - i
    ensures UnpackWords(PackedWords(data, i) + rest)[..|data| - i] == data[i..]
    decreases |data| - i
  {
    var w := PackedWords(data, i) + rest;
    if i < |data| {
      var hi := if i + 1 < |data| then data[i + 1] else 0;
      PackPairRoundTrip(data[i], hi);
      assert w[2..] == PackedWords(data, i + 2) + rest;
      if i + 1 < |data| {
        UnpackPackedWords(data, i + 2, rest);
        assert data[i..] == [data[i], data[i + 1]] + data[i + 2..];
      } else {
        assert data[i..] == [data[i]];
      }
    }
  }

  /** The decoder gives back every string encodeString writes whose length
      word does not wrap, and tells how far the encoding reaches. */
  lemma StringRoundTrip(s: seq<uint8>, rest: seq<uint8>)
    requires |s| + 1 < 0x1_0000
    ensures ParseString(StringBytes(s) + rest) == Some((s, |StringBytes(s)|))
  {
    var data := s + [0];
    var n := |s| + 1;
    var b := StringBytes(s) + rest;
    var size := 2 + 2 * ((|s| + 2) / 2);
    assert |StringBytes(s)| == size && Uint16At(b, 0) == n by {
      StringBytesLength(s);
      assert b[0] == StringBytes(s)[0] && b[1] == StringBytes(s)[1];
    }
    assert b[2..size] == PackedWords(data, 0) by {
      assert StringBytes(s) == BE16(n) + PackedWords(data, 0);
    }
    var raw := UnpackWords(b[2..size]);
    assert |raw| >= n && raw[..n] == data by {
      UnpackPackedWords(data, 0, []);
      assert PackedWords(data, 0) + [] == PackedWords(data, 0);
    }
    assert raw[n - 1] == 0 && raw[..n - 1] == s by {
      assert raw[..n][n - 1] == data[n - 1];
      assert raw[..n - 1] == raw[..n][..n - 1];
    }
  }

  // ---------------------------------------------------------------------
  // encodeReal
  // ---------------------------------------------------------------------

  /** 2 to the power n. */
  function Pow2(n: nat): (p: nat)
    ensures p >= 1
  {
    if n == 0 then 1 else 2 * Pow2(n - 1)
  }

  lemma {:induction false} Pow2Add(a: nat, b: nat)
    ensures Pow2(a + b) == Pow2(a) * Pow2(b)
    decreases a
  {
    if a > 0 {
      Pow2Add(a - 1, b);
    }
  }

  lemma {:induction false} Pow2Monotonic(a: nat, b: nat)
    requires a <= b
    ensures Pow2(a) <= Pow2(b)
    decreases b - a
  {
    if a < b {
      Pow2Monotonic(a, b - 1);
    }
  }

  /** (1 << MS) - 1: the largest 25-bit mantissa. */
  const MantMax: uint32 := 0x1FF_FFFF

  /** The magnitude 2^70 below which every input keeps the mantissa that
      encodeReal converts with uint32(y * 2^25) inside the uint32 range. */
  const RealLimit: real := 1180591620717411303424.0

  /** 2^63: from here on the exponent saturates. */
  const TwoTo63: real := 9223372036854775808.0

  lemma TwoTo63IsPow2()
    ensures TwoTo63 == Pow2(63) as real
  {
    RealLimitIsPow2();
    Pow2Add(63, 7);
    assert Pow2(7) == 128;
  }

  lemma RealLimitIsPow2()
    ensures RealLimit == Pow2(70) as real
  {
    assert Pow2(10) == 1024;
    Pow2Add(10, 10);
    Pow2Add(20, 10);
    Pow2Add(30, 10);
    Pow2Add(40, 10);
    Pow2Add(50, 10);
    Pow2Add(60, 10);
  }

  /** The float y and the exponent exp that the two loops of encodeReal
      update. */
  datatype Scaled = Scaled(y: real, exp: nat)

  /** The first loop of encodeReal: divide by 64 while y >= 64 and
      exp < 2^6 - 6. */
  function ScaleCoarse(y: real, exp: nat): Scaled
    decreases 58 - exp
  {
    if y >= 64.0 && exp < 58 then ScaleCoarse(y / 64.0, exp + 6) else Scaled(y, exp)
  }

  /** The second loop of encodeReal: halve while y >= 1 and exp < 2^6 - 1. */
  function ScaleFine(s: Scaled): Scaled
    decreases 63 - s.exp
  {
    if s.y >= 1.0 && s.exp < 63 then ScaleFine(Scaled(s.y / 2.0, s.exp + 1)) else s
  }

  /** Both loops run on the magnitude of the input. */
  function Scale(magnitude: real): Scaled
  {
    ScaleFine(ScaleCoarse(magnitude, 0))
  }

  function Abs(f: real): real
  {
    if f < 0.0 then -f else f
  }

  /** (mant & (2^25 - 1)) | (negative << 25) | (exp << 26) computed in
      uint32: the three parts occupy disjoint bits, so they add up, and the
      shift keeps only the low 6 bits of exp. */
  function Pack(mant: uint32, negative: uint32, exp: uint32): (w: uint32)
    requires negative <= 1
    ensures w % 0x200_0000 == mant % 0x200_0000
    ensures (w / 0x200_0000) % 2 == negative
    ensures w / 0x400_0000 == exp % 64
  {
    mant % 0x200_0000 + negative * 0x200_0000 + (exp % 64) * 0x400_0000
  }

  /** The 32-bit word encodeReal packs for f: the mantissa uint32(y * 2^25)
      clamped to 25 bits, then the exponent clamped to 6 bits (which forces
      a nonzero mantissa to its maximum), then the sign at bit 25 and the
      exponent above it. */
  function PackedReal(f: real): (w: uint32)
    requires -RealLimit < f < RealLimit
  {
    var negative := if f < 0.0 then 1 else 0;
    var s := Scale(Abs(f));
    ScaledFitsMantissa(Abs(f));
    var converted: uint32 := (s.y * 33554432.0).Floor;
    var mant := if converted > MantMax then MantMax else converted;
    var exp := if s.exp > 63 then 63 else s.exp;
    var mant' := if s.exp > 63 && mant > 0 then MantMax else mant;
    Pack(mant', negative, exp)
  }

  /** encodeReal, written as the source writes it: two scaling loops, the
      mantissa conversion, the two clamps, the packing and encodeInt32. */
  method EncodeReal(f: real) returns (r: seq<uint8>)
    requires -RealLimit < f < RealLimit
    ensures r == EncodeInt32(PackedReal(f))
  {
    var y := f;
    var negative: uint32 := 0;
    if y < 0.0 {
      y := -y;
      negative := 1;
    }
    ghost var magnitude := y;
    assert magnitude == Abs(f);
    var exp: int := 0;
    while y >= 64.0 && exp < 58
      invariant ScaleCoarse(y, exp) == ScaleCoarse(magnitude, 0)
      decreases 58 - exp
    {
      exp := exp + 6;
      y := y / 64.0;
    }
    while y >= 1.0 && exp < 63
      invariant ScaleFine(Scaled(y, exp)) == Scale(magnitude)
      decreases 63 - exp
    {
      exp := exp + 1;
      y := y / 2.0;
    }
    ghost var scaled := Scale(magnitude);
    assert y == scaled.y && exp == scaled.exp;
    ScaledFitsMantissa(magnitude);
    var mant: uint32 := (y * 33554432.0).Floor;
    assert mant == (scaled.y * 33554432.0).Floor;
    assert negative == if f < 0.0 then 1 else 0;
    if mant > MantMax {
      mant := MantMax;
    }
    if exp > 63 {
      exp := 63;
      if mant > 0 {
        mant := MantMax;
      }
    }
    var trans := Pack(mant, negative, exp);
    assert trans == PackedReal(f);
    r := EncodeInt32(trans);
  }

  // The magnitude that a scaled pair (y, exp) stands for is y * 2^exp.  It
  // is computed by doubling, so that every step of the proofs below stays
  // within linear real arithmetic; TimesPow2IsProduct connects it to Pow2.

  /** y * 2^e, by doubling e times. */
  function TimesPow2(y: real, e: nat): real
    decreases e
  {
    if e == 0 then y else TimesPow2(2.0 * y, e - 1)
  }

  lemma {:induction false} TimesPow2IsProduct(y: real, e: nat)
    ensures TimesPow2(y, e) == y * Pow2(e) as real
    decreases e
  {
    if e > 0 {
      TimesPow2IsProduct(2.0 * y, e - 1);
      assert (2.0 * y) * Pow2(e - 1) as real == y * (2.0 * Pow2(e - 1) as real);
    }
  }

  lemma {:induction false} TimesPow2Double(y: real, e: nat)
    ensures TimesPow2(2.0 * y, e) == 2.0 * TimesPow2(y, e)
    decreases e
  {
    if e > 0 {
      TimesPow2Double(2.0 * y, e - 1);
    }
  }

  lemma {:induction false} TimesPow2One(e: nat)
    ensures TimesPow2(1.0, e) == Pow2(e) as real
    decreases e
  {
    if e > 0 {
      TimesPow2Double(1.0, e - 1);
      TimesPow2One(e - 1);
    }
  }

  lemma {:induction false} TimesPow2Add(y: real, a: nat, b: nat)
    ensures TimesPow2(y, a + b) == TimesPow2(TimesPow2(y, a), b)
    decreases a
  {
    if a > 0 {
      TimesPow2Add(2.0 * y, a - 1, b);
    }
  }

  lemma {:induction false} TimesPow2Monotonic(x: real, y: real, e: nat)
    ensures x <= y ==> TimesPow2(x, e) <= TimesPow2(y, e)
    ensures x < y ==> TimesPow2(x, e) < TimesPow2(y, e)
    decreases e
  {
    if e > 0 {
      TimesPow2Monotonic(2.0 * x, 2.0 * y, e - 1);
    }
  }

  lemma {:induction false} ScaleCoarseFacts(y: real, exp: nat)
    requires y >= 0.0 && exp <= 60 && exp % 6 == 0 && (exp > 0 ==> y >= 1.0)
    ensures var r := ScaleCoarse(y, exp);
            r.y >= 0.0 && r.exp % 6 == 0 && exp <= r.exp <= 60 &&
            TimesPow2(r.y, r.exp) == TimesPow2(y, exp) &&
            (r.exp > 0 ==> r.y >= 1.0) && (r.y < 64.0 || r.exp == 60)
    decreases 60 - exp
  {
    if y >= 64.0 && exp < 58 {
      ScaleCoarseFacts(y / 64.0, exp + 6);
      TimesPow2Add(y / 64.0, 6, exp);
      assert TimesPow2(y / 64.0, 6) == y;
    }
  }

  lemma {:induction false} ScaleFineFacts(s: Scaled)
    requires s.y >= 0.0 && s.exp <= 63 && (s.exp > 0 ==> s.y >= 0.5)
    ensures var r := ScaleFine(s);
            r.y >= 0.0 && s.exp <= r.exp <= 63 &&
            TimesPow2(r.y, r.exp) == TimesPow2(s.y, s.exp) &&
            (r.exp > 0 ==> r.y >= 0.5) && (r.y < 1.0 || r.exp == 63)
    decreases 63 - s.exp
  {
    if s.y >= 1.0 && s.exp < 63 {
      ScaleFineFacts(Scaled(s.y / 2.0, s.exp + 1));
      assert TimesPow2(s.y / 2.0, s.exp + 1) == TimesPow2(s.y, s.exp);
    }
  }

  /** What the two loops of encodeReal achieve for a magnitude m: y * 2^exp
      is m, the exponent never exceeds 63 (so the exponent clamp never
      fires), and either y < 1 or the exponent stopped at 63. */
  lemma ScaleFacts(m: real)
    requires m >= 0.0
    ensures var s := Scale(m);
            s.exp <= 63 && s.y >= 0.0 && TimesPow2(s.y, s.exp) == m &&
            (s.exp > 0 ==> s.y >= 0.5) && (s.y < 1.0 || s.exp == 63)
  {
    ScaleCoarseFacts(m, 0);
    ScaleFineFacts(ScaleCoarse(m, 0));
  }

  /** Below 2^63 the loops leave y in [0, 1) and the exponent is the least
      one with m < 2^exp. */
  lemma ScaleBelowTwoTo63(m: real)
    requires 0.0 <= m < TwoTo63
    ensures var s := Scale(m);
            s.y < 1.0 && m < Pow2(s.exp) as real &&
            (s.exp > 0 ==> Pow2(s.exp - 1) as real <= m)
  {
    TwoTo63IsPow2();
    ScaleFacts(m);
    var s := Scale(m);
    if s.y >= 1.0 {
      TimesPow2Monotonic(1.0, s.y, 63);
      TimesPow2One(63);
      assert false;
    }
    TimesPow2Monotonic(s.y, 1.0, s.exp);
    TimesPow2One(s.exp);
    if s.exp > 0 {
      TimesPow2Monotonic(0.5, s.y, s.exp);
      TimesPow2One(s.exp - 1);
      assert TimesPow2(0.5, s.exp) == TimesPow2(1.0, s.exp - 1);
    }
  }

  /** From 2^63 on the exponent stops at 63 with y >= 1. */
  lemma ScaleFromTwoTo63(m: real)
    requires TwoTo63 <= m
    ensures Scale(m).exp == 63 && Scale(m).y >= 1.0
  {
    TwoTo63IsPow2();
    ScaleFacts(m);
    var s := Scale(m);
    if s.y < 1.0 {
      TimesPow2Monotonic(s.y, 1.0, s.exp);
      TimesPow2One(s.exp);
      Pow2Monotonic(s.exp, 63);
      assert false;
    }
  }

  /** Below 2^70 the loops leave y < 128, so y * 2^25 fits a uint32. */
  lemma ScaledFitsMantissa(m: real)
    requires 0.0 <= m < RealLimit
    ensures 0.0 <= Scale(m).y < 128.0
    ensures 0 <= (Scale(m).y * 33554432.0).Floor < 0x1_0000_0000
  {
    ScaleFacts(m);
    var s := Scale(m);
    if s.y >= 128.0 {
      TimesPow2Monotonic(128.0, s.y, 63);
      TimesPow2Add(1.0, 7, 63);
      assert TimesPow2(1.0, 7) == 128.0;
      TimesPow2One(70);
      RealLimitIsPow2();
      assert false;
    }
  }

  lemma {:induction false} TimesPow2Mantissa(y: real, e: nat)
    ensures TimesPow2(y * 33554432.0, e) == TimesPow2(y, e) * 33554432.0
    decreases e
  {
    if e > 0 {
      assert 2.0 * (y * 33554432.0) == (2.0 * y) * 33554432.0;
      TimesPow2Mantissa(2.0 * y, e - 1);
    }
  }

  lemma {:induction false} TimesPow2Sum(x: real, y: real, e: nat)
    ensures TimesPow2(x + y, e) == TimesPow2(x, e) + TimesPow2(y, e)
    decreases e
  {
    if e > 0 {
      TimesPow2Sum(2.0 * x, 2.0 * y, e - 1);
    }
  }

  // Properties of the REAL encoding.

  /** The magnitude a REAL word stands for, mant * 2^(exp - 25): the value
      the encoding is measured against. */
  function RealMagnitude(w: uint32): real
  {
    TimesPow2((w % 0x200_0000) as real, w / 0x400_0000) / 33554432.0
  }

  /** One unit in the last place of a REAL word: 2^(exp - 25). */
  function RealUlp(w: uint32): real
  {
    Pow2(w / 0x400_0000) as real / 33554432.0
  }

  /** The sign a REAL word carries at bit 25. */
  function RealSign(w: uint32): nat
  {
    (w / 0x200_0000) % 2
  }

  /** With every part in range, the packing is a plain sum. */
  lemma PackSum(mant: uint32, negative: uint32, exp: uint32)
    requires mant <= MantMax && negative <= 1 && exp <= 63
    ensures Pack(mant, negative, exp) == mant + negative * 0x200_0000 + exp * 0x400_0000
    ensures Pack(mant, negative, exp) % 0x200_0000 == mant
    ensures Pack(mant, negative, exp) / 0x400_0000 == exp
    ensures RealSign(Pack(mant, negative, exp)) == negative
  {
    assert mant % 0x200_0000 == mant && exp % 64 == exp;
  }

  /** The packed word laid out: the clamped mantissa, the sign at bit 25 and
      the unclamped exponent, which never exceeds 63. */
  lemma PackedRealParts(f: real)
    requires -RealLimit < f < RealLimit
    ensures var s := Scale(Abs(f));
            var converted := (s.y * 33554432.0).Floor;
            var mant := if converted > MantMax as int then MantMax as int else converted;
            s.exp <= 63 && 0 <= converted &&
            PackedReal(f) == Pack(mant, if f < 0.0 then 1 else 0, s.exp)
  {
    ScaleFacts(Abs(f));
    ScaledFitsMantissa(Abs(f));
  }

  /** Below 2^63 neither clamp fires: the word holds the converted mantissa
      and the exponent the loops left. */
  lemma PackedRealUnclamped(f: real)
    requires -RealLimit < f < RealLimit && Abs(f) < TwoTo63
    ensures var s := Scale(Abs(f));
            var w := PackedReal(f);
            var c := (s.y * 33554432.0).Floor;
            0 <= c < 0x200_0000 && (s.exp > 0 ==> c >= 0x100_0000) &&
            w % 0x200_0000 == c && w / 0x400_0000 == s.exp &&
            RealSign(w) == (if f < 0.0 then 1 else 0)
  {
    var s := Scale(Abs(f));
    var c := (s.y * 33554432.0).Floor;
    var negative := if f < 0.0 then 1 else 0;
    assert 0 <= c < 0x200_0000 && (s.exp > 0 ==> c >= 0x100_0000) && s.exp <= 63 by {
      ScaleFacts(Abs(f));
      ScaleBelowTwoTo63(Abs(f));
      MantissaBelowOne(s.y);
    }
    assert PackedReal(f) == Pack(c, negative, s.exp) by {
      PackedRealParts(f);
    }
    PackSum(c, negative, s.exp);
  }

  /** uint32(y * 2^25) for y in [0, 1) fits 25 bits, and its top bit is set
      when y >= 1/2. */
  lemma MantissaBelowOne(y: real)
    requires 0.0 <= y < 1.0
    ensures 0 <= (y * 33554432.0).Floor < 0x200_0000
    ensures y >= 0.5 ==> (y * 33554432.0).Floor >= 0x100_0000
  {
    var c := (y * 33554432.0).Floor;
    assert c as real <= y * 33554432.0 < c as real + 1.0;
  }

  lemma MantissaAtLeastOne(y: real)
    requires y >= 1.0
    ensures (y * 33554432.0).Floor >= 0x200_0000
  {
    var c := (y * 33554432.0).Floor;
    assert y * 33554432.0 < c as real + 1.0;
  }

  lemma FloorMonotonic(a: real, b: real)
    requires a <= b
    ensures a.Floor <= b.Floor
  {
    assert a.Floor as real <= a < a.Floor as real + 1.0;
    assert b.Floor as real <= b < b.Floor as real + 1.0;
  }

  /** Truncating y * 2^25 to c and scaling both by 2^exp brackets
      m = y * 2^exp between c * 2^(exp - 25) and (c + 1) * 2^(exp - 25). */
  lemma ScaledBracket(m: real, y: real, exp: nat, c: int)
    requires TimesPow2(y, exp) == m
    requires c as real <= y * 33554432.0 < (c + 1) as real
    ensures TimesPow2(c as real, exp) / 33554432.0 <= m
    ensures m < TimesPow2(c as real, exp) / 33554432.0 + Pow2(exp) as real / 33554432.0
  {
    TimesPow2Monotonic(c as real, y * 33554432.0, exp);
    TimesPow2Monotonic(y * 33554432.0, (c + 1) as real, exp);
    TimesPow2Mantissa(y, exp);
    TimesPow2Sum(c as real, 1.0, exp);
    TimesPow2One(exp);
  }

  /** Below 2^63 the word carries the sign of f, the magnitude it stands for
      is |f| truncated to 25 significant bits
      (RealMagnitude(w) <= |f| < RealMagnitude(w) + RealUlp(w)), and its
      exponent is the least one with |f| < 2^exp, so that a nonzero exponent
      comes with a mantissa whose top bit (bit 24) is set. */
  lemma RealBracket(f: real)
    requires -RealLimit < f < RealLimit && Abs(f) < TwoTo63
    ensures var w := PackedReal(f);
            RealSign(w) == (if f < 0.0 then 1 else 0) &&
            RealMagnitude(w) <= Abs(f) < RealMagnitude(w) + RealUlp(w) &&
            Abs(f) < Pow2(w / 0x400_0000) as real &&
            (w / 0x400_0000 > 0 ==>
               Pow2(w / 0x400_0000 - 1) as real <= Abs(f) && w % 0x200_0000 >= 0x100_0000)
  {
    var m := Abs(f);
    PackedRealUnclamped(f);
    ScaleFacts(m);
    ScaleBelowTwoTo63(m);
    var s := Scale(m);
    var w := PackedReal(f);
    var mant, exp := w % 0x200_0000, w / 0x400_0000;
    assert mant == (s.y * 33554432.0).Floor && exp == s.exp;
    ScaledBracket(m, s.y, exp, mant);
  }

  /** From 2^63 up to 2^70 the mantissa clamp fires and the word saturates:
      the largest mantissa with exponent 63. */
  lemma RealSaturates(f: real)
    requires -RealLimit < f < RealLimit && TwoTo63 <= Abs(f)
    ensures var w := PackedReal(f);
            RealSign(w) == (if f < 0.0 then 1 else 0) &&
            w % 0x200_0000 == MantMax && w / 0x400_0000 == 63
  {
    PackedRealParts(f);
    ScaleFromTwoTo63(Abs(f));
    var s := Scale(Abs(f));
    MantissaAtLeastOne(s.y);
    PackSum(MantMax, if f < 0.0 then 1 else 0, 63);
  }

  /** Negating a nonzero input sets bit 25 of the word and changes nothing
      else. */
  lemma PackedRealNegate(f: real)
    requires 0.0 < f < RealLimit
    ensures RealSign(PackedReal(f)) == 0
    ensures PackedReal(-f) == PackedReal(f) + 0x200_0000
  {
    PackedRealParts(f);
    PackedRealParts(-f);
    assert Abs(-f) == Abs(f);
  }

  /** Setting bit 25 of a word in which it is clear adds 2 to the third
      encoded byte and leaves the other three alone. */
  lemma EncodeInt32SetBit25(w: uint32)
    requires RealSign(w) == 0
    ensures w + 0x200_0000 < 0x1_0000_0000
    ensures var b := EncodeInt32(w);
            EncodeInt32(w + 0x200_0000) == b[2 := b[2] + 2]
  {
    var q := w / 0x200_0000;
    assert q <= 126;
    var lo, hi := w % 0x1_0000, w / 0x1_0000;
    var w' := w + 0x200_0000;
    assert w' % 0x1_0000 == lo && w' / 0x1_0000 == hi + 0x200;
    assert BE16(hi + 0x200) == BE16(hi)[0 := BE16(hi)[0] + 2];
  }

  /** encodeReal(-f) differs from encodeReal(f) only in bit 25 of the packed
      word, which is bit 1 of the third byte. */
  lemma RealSignSymmetry(f: real)
    requires 0.0 < f < RealLimit
    ensures var b := EncodeInt32(PackedReal(f));
            EncodeInt32(PackedReal(-f)) == b[2 := b[2] + 2]
  {
    PackedRealNegate(f);
    EncodeInt32SetBit25(PackedReal(f));
  }

  /** Over nonnegative inputs the packed word, read as an unsigned integer,
      never decreases as the input grows. */
  lemma RealMonotonic(f: real, g: real)
    requires 0.0 <= f <= g < RealLimit
    ensures PackedReal(f) <= PackedReal(g)
  {
    assert Abs(f) == f && Abs(g) == g;
    PackedRealParts(f);
    PackedRealParts(g);
    var sf, sg := Scale(f), Scale(g);
    var cf, cg := (sf.y * 33554432.0).Floor, (sg.y * 33554432.0).Floor;
    var mf := if cf > MantMax as int then MantMax as int else cf;
    var mg := if cg > MantMax as int then MantMax as int else cg;
    PackSum(mf, 0, sf.exp);
    PackSum(mg, 0, sg.exp);
    assert PackedReal(f) == mf + sf.exp * 0x400_0000;
    assert PackedReal(g) == mg + sg.exp * 0x400_0000;
    if TwoTo63 <= g {
      ScaleFromTwoTo63(g);
      MantissaAtLeastOne(sg.y);
      assert mg == MantMax as int;
    } else {
      ScaleBelowTwoTo63(f);
      ScaleBelowTwoTo63(g);
      if sf.exp > sg.exp {
        Pow2Monotonic(sg.exp, sf.exp - 1);
        assert false;
      } else if sf.exp == sg.exp {
        ScaleFacts(f);
        ScaleFacts(g);
        TimesPow2Monotonic(sg.y, sf.y, sf.exp);
        FloorMonotonic(sf.y * 33554432.0, sg.y * 33554432.0);
      } else {
        MantissaBelowOne(sf.y);
      }
    }
  }

  lemma RealZero()
    ensures PackedReal(0.0) == 0
    ensures EncodeInt32(PackedReal(0.0)) == [0, 0, 0, 0]
  {
    var w := PackedReal(0.0);
    assert w == 0 by {
      assert Scale(Abs(0.0)) == Scaled(0.0, 0) by {
        assert ScaleCoarse(0.0, 0) == Scaled(0.0, 0);
      }
      PackedRealUnclamped(0.0);
    }
    EncodeInt32Bytes(w);
  }

  lemma RealOne()
    ensures PackedReal(1.0) == 0x0500_0000
    ensures EncodeInt32(PackedReal(1.0)) == [0x00, 0x00, 0x05, 0x00]
  {
    var w := PackedReal(1.0);
    assert w == 0x0500_0000 by {
      assert ScaleCoarse(1.0, 0) == Scaled(1.0, 0);
      assert ScaleFine(Scaled(0.5, 1)) == Scaled(0.5, 1);
      assert Scale(1.0) == Scaled(0.5, 1);
    }
    EncodeInt32Bytes(w);
  }

  lemma RealHalf()
    ensures PackedReal(0.5) == 0x0100_0000
    ensures EncodeInt32(PackedReal(0.5)) == [0x00, 0x00, 0x01, 0x00]
  {
    var w := PackedReal(0.5);
    assert w == 0x0100_0000 by {
      assert Scale(0.5) == Scaled(0.5, 0);
    }
    EncodeInt32Bytes(w);
  }

  lemma RealTen()
    ensures PackedReal(10.0) == 0x1140_0000
    ensures EncodeInt32(PackedReal(10.0)) == [0x00, 0x00, 0x11, 0x40]
  {
    var w := PackedReal(10.0);
    assert w == 0x1140_0000 by {
      assert ScaleCoarse(10.0, 0) == Scaled(10.0, 0);
      assert ScaleFine(Scaled(0.625, 4)) == Scaled(0.625, 4);
      assert ScaleFine(Scaled(1.25, 3)) == Scaled(0.625, 4);
      assert ScaleFine(Scaled(2.5, 2)) == Scaled(0.625, 4);
      assert ScaleFine(Scaled(5.0, 1)) == Scaled(0.625, 4);
      assert Scale(10.0) == Scaled(0.625, 4);
    }
    EncodeInt32Bytes(w);
  }

  /** The float32 nearest to 0.1 is 13421773 / 2^27; its mantissa is
      truncated to 0x33_3333. */
  lemma RealFloat32Tenth()
    ensures PackedReal(13421773.0 / 134217728.0) == 0x0033_3333
    ensures EncodeInt32(PackedReal(13421773.0 / 134217728.0)) == [0x33, 0x33, 0x00, 0x33]
  {
    var x := 13421773.0 / 134217728.0;
    var w := PackedReal(x);
    assert w == 0x0033_3333 by {
      assert Scale(x) == Scaled(x, 0);
      assert x * 33554432.0 == 3355443.25;
    }
    EncodeInt32Bytes(w);
  }
}
