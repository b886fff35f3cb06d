/** utils/float.go and utils/int.go: encodings of 64-bit patterns that sort as the numbers do. */
module Float {
  import opened Basics
  import opened ByteOrder

  const TWO_63: int := 0x8000_0000_0000_0000
  const TWO_64: int := 0x1_0000_0000_0000_0000

  /** The bits of a float64, read as an unsigned number. */
  type Bits = x: int | 0 <= x < TWO_64

  const NEGATIVE_ZERO: Bits := 0x8000_0000_0000_0000
  const POSITIVE_ZERO: Bits := 0
  const NEGATIVE_INFINITY: Bits := 0xfff0_0000_0000_0000
  const POSITIVE_INFINITY: Bits := 0x7ff0_0000_0000_0000

  // ---------- IEEE 754 binary64 by its bits ----------

  predicate IsNan(f: Bits) {
    f % TWO_63 > POSITIVE_INFINITY
  }

  /** Sign and magnitude as one number: orders the floats as < does, with both zeros at 0. */
  function Rank(f: Bits): int {
    if f >= TWO_63 then TWO_63 - f else f
  }

  /** Number.Compare: no order with a NaN. */
  function Compare(a: Bits, b: Bits): int {
    if IsNan(a) || IsNan(b) then 0 else if Rank(a) < Rank(b) then -1 else if Rank(a) > Rank(b) then 1 else 0
  }

  /** The strict part of totalOrder on numbers, section 5.10 of IEEE 754-2019: -0 comes before +0. */
  predicate TotalLess(a: Bits, b: Bits) {
    Rank(a) < Rank(b) || (a == NEGATIVE_ZERO && b == POSITIVE_ZERO)
  }

  /** The 52 bits of the fraction. */
  const FRACTION: nat := 0x10_0000_0000_0000

  /** A magnitude in units of the least subnormal number, section 3.4 of IEEE 754-2019; infinity comes last. */
  function Units(magnitude: nat): int {
    var e, f := magnitude / FRACTION, magnitude % FRACTION;
    if e == 0 then f else (FRACTION + f) * Pow2(e - 1)
  }

  /** The number a pattern stands for, in those units. */
  function Number(f: Bits): int {
    if f >= TWO_63 then -Units(f - TWO_63) else Units(f)
  }

  lemma UnitsGrow(a: nat, b: nat)
    requires a < b
    ensures Units(a) < Units(b)
  {
    hide Pow2;
    var d, e, f, g := a / FRACTION, b / FRACTION, a % FRACTION, b % FRACTION;
    if d == e {
      if e > 0 {
        Pow2Grows(0, e - 1);
        Times(FRACTION + f, FRACTION + g, Pow2(e - 1));
      }
    } else {
      Pow2Grows(if d > 0 then d else 0, e - 1);
      if d > 0 {
        Pow2Grows(0, d - 1);
        Doubled(d);
        Times(FRACTION + f, 2 * FRACTION, Pow2(d - 1));
        AtLeast(FRACTION, FRACTION + g, Pow2(d), Pow2(e - 1));
      } else {
        AtLeast(FRACTION, FRACTION + g, 1, Pow2(e - 1));
      }
    }
  }

  lemma Doubled(d: nat)
    requires d > 0
    ensures Pow2(d) == 2 * Pow2(d - 1) && 2 * FRACTION * Pow2(d - 1) == FRACTION * Pow2(d)
  {
  }

  lemma Times(a: nat, b: nat, p: nat)
    requires a < b && p > 0
    ensures a * p < b * p
  {
    assert (b - a) * p > 0;
    assert (b - a) * p == b * p - a * p;
  }

  lemma AtLeast(a: nat, b: nat, p: nat, q: nat)
    requires a <= b && p <= q
    ensures a * p <= b * q
  {
    assert (b - a) * p >= 0 && b * (q - p) >= 0;
    assert b * q - a * p == (b - a) * p + b * (q - p);
  }

  /** Compare compares the numbers; the two zeros are the same number. */
  lemma ComparesNumbers(a: Bits, b: Bits)
    requires !IsNan(a) && !IsNan(b)
    ensures Compare(a, b) < 0 <==> Number(a) < Number(b)
    ensures Compare(a, b) > 0 <==> Number(a) > Number(b)
    ensures Compare(a, b) == 0 <==> Number(a) == Number(b)
  {
    hide Units;
    NoUnits();
    if Rank(a) < Rank(b) {
      RankOrdersNumbers(a, b);
    } else if Rank(b) < Rank(a) {
      RankOrdersNumbers(b, a);
    }
  }

  lemma RankOrdersNumbers(a: Bits, b: Bits)
    requires Rank(a) < Rank(b)
    ensures Number(a) < Number(b)
  {
    hide Units;
    var m, n := Rank(a), Rank(b);
    NoUnits();
    if 0 <= m {
      UnitsGrow(m, n);
    } else if n <= 0 {
      UnitsGrow(-n, -m);
    } else {
      UnitsGrow(0, -m);
      UnitsGrow(0, n);
    }
  }

  lemma NoUnits()
    ensures Units(0) == 0
  {
  }

  // ---------- EncodeFloat, EncodeFloatBytes, DecodeFloat ----------

  /** Complements a negative pattern, sets the top bit of the others. */
  function Code(f: Bits): Bits {
    if f / TWO_63 != 0 then TWO_64 - 1 - f else f + TWO_63
  }

  function EncodeFloat(f: Bits): Bytes {
    BigEndian(Code(f), 8)
  }

  method EncodeFloatBytes(f: Bits, k: array<byte>, from: nat)
    requires from + 8 <= k.Length
    modifies k
    ensures k[from..from + 8] == EncodeFloat(f)
    ensures k[..from] == old(k[..from]) && k[from + 8..] == old(k[from + 8..])
  {
    hide BigEndian, Code;
    var v: int := Code(f);
    BigEndianLength(v, 8);
    var i := 8;
    while i > 0
      invariant 0 <= i <= 8 && 0 <= v && |BigEndian(v, i)| == i
      invariant EncodeFloat(f)[..i] == BigEndian(v, i) && |EncodeFloat(f)| == 8
      invariant forall j :: i <= j < 8 ==> k[from + j] == EncodeFloat(f)[j]
      invariant forall j :: 0 <= j < k.Length && !(from <= j < from + 8) ==> k[j] == old(k[j])
    {
      BigEndianStep(v, i);
      i := i - 1;
      assert EncodeFloat(f)[..i] == EncodeFloat(f)[..i + 1][..i];
      k[from + i] := v % 256;
      v := v / 256;
    }
  }

  lemma BigEndianStep(v: nat, n: nat)
    requires n > 0
    ensures |BigEndian(v, n)| == n && BigEndian(v, n)[n - 1] == v % 256
    ensures BigEndian(v, n)[..n - 1] == BigEndian(v / 256, n - 1) && |BigEndian(v / 256, n - 1)| == n - 1
  {
    BigEndianLength(v, n);
  }

  lemma {:induction false} BigEndianLength(v: nat, n: nat)
    ensures |BigEndian(v, n)| == n
    decreases n
  {
    if n > 0 {
      BigEndianLength(v / 256, n - 1);
    }
  }

  function DecodeFloat(k: Bytes): Bits
    requires |k| >= 8
  {
    ValueBound(k[..8]);
    assert Pow256(8) == TWO_64 by { Pow256Eight(); }
    var v := Value(k[..8]);
    if v / TWO_63 != 0 then v - TWO_63 else TWO_64 - 1 - v
  }

  lemma Pow256Eight()
    ensures Pow256(8) == TWO_64
  {
    assert Pow256(2) == 0x1_0000;
    assert Pow256(4) == 0x1_0000_0000;
    assert Pow256(6) == 0x1_0000_0000_0000;
  }

  /** Decoding an encoded pattern gives it back, whatever follows it; NaN payloads included. */
  lemma DecodeEncode(f: Bits, rest: Bytes)
    ensures |EncodeFloat(f)| == 8 && DecodeFloat(EncodeFloat(f) + rest) == f
  {
    Pow256Eight();
    BigEndianRoundTrip(Code(f), 8);
    assert (EncodeFloat(f) + rest)[..8] == EncodeFloat(f);
  }

  /** Every eight bytes are the encoding of the pattern they decode to. */
  lemma EncodeDecode(k: Bytes)
    requires |k| == 8
    ensures EncodeFloat(DecodeFloat(k)) == k
  {
    hide BigEndian, Value;
    Pow256Eight();
    ValueBound(k);
    assert k[..8] == k;
    BigEndianRoundTrip(Value(k), 8);
    CompareIsNumeric(BigEndian(Value(k), 8), k);
  }

  /** The bytes of two encodings compare as the codes do. */
  lemma EncodedOrder(a: Bits, b: Bits)
    ensures |EncodeFloat(a)| == |EncodeFloat(b)| == 8
    ensures Less(EncodeFloat(a), EncodeFloat(b)) <==> Code(a) < Code(b)
    ensures EncodeFloat(a) == EncodeFloat(b) <==> a == b
  {
    Pow256Eight();
    BigEndianRoundTrip(Code(a), 8);
    BigEndianRoundTrip(Code(b), 8);
    CompareIsNumeric(EncodeFloat(a), EncodeFloat(b));
  }

  /** On numbers, byte order of the encodings is totalOrder. */
  lemma EncodedOrderIsTotalOrder(a: Bits, b: Bits)
    requires !IsNan(a) && !IsNan(b)
    ensures Less(EncodeFloat(a), EncodeFloat(b)) <==> TotalLess(a, b)
  {
    EncodedOrder(a, b);
  }

  /** Code order refines < and separates only the zeros. */
  lemma CodeAndRank(a: Bits, b: Bits)
    ensures Rank(a) < Rank(b) ==> Code(a) < Code(b)
    ensures Code(a) < Code(b) ==> Rank(a) < Rank(b) || (a == NEGATIVE_ZERO && b == POSITIVE_ZERO)
  {
  }

  // ---------- utils/int.go ----------

  /** int64 as it is stored: two's complement modulo 2^64. */
  function Unsigned64(v: int): Bits {
    v % TWO_64
  }

  /** Flips the sign bit. */
  function EncodeInt64ToCmpUint(v: int): Bits {
    var u := Unsigned64(v);
    if u >= TWO_63 then u - TWO_63 else u + TWO_63
  }

  function DecodeCmpUintToInt64(u: Bits): int {
    var s := if u >= TWO_63 then u - TWO_63 else u + TWO_63;
    if s >= TWO_63 then s - TWO_64 else s
  }

  function Int16(v: int): int {
    (v + 0x8000) % 0x1_0000 - 0x8000
  }

  function EncodeInt16ToCmpUint(v: int): (u: nat) {
    var u := v % 0x1_0000;
    if u >= 0x8000 then u - 0x8000 else u + 0x8000
  }

  lemma CmpUintRoundTrip(v: int)
    requires -TWO_63 <= v < TWO_63
    ensures DecodeCmpUintToInt64(EncodeInt64ToCmpUint(v)) == v
    ensures EncodeInt64ToCmpUint(v) == v + TWO_63
  {
  }
}
