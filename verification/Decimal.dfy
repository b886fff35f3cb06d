/** Decimal numbers and lines, as the wire protocol spells them. */
module Decimal {
  import opened Basics
  import opened ByteOrder

  const CR: byte := 13
  const LF: byte := 10
  const MINUS: byte := 45
  const PLUS: byte := 43
  const ZERO: byte := 48

  // ---------- strconv.AppendInt ----------

  function Digits(n: nat): (r: Bytes)
    ensures r != []
  {
    if n < 10 then [ZERO + n] else Digits(n / 10) + [ZERO + n % 10]
  }

  function FormatInt(n: int): Bytes {
    if n < 0 then [MINUS] + Digits(-n) else Digits(n)
  }

  predicate IsDigit(c: byte) {
    ZERO <= c <= ZERO + 9
  }

  predicate AllDigits(b: Bytes) {
    forall i :: 0 <= i < |b| ==> IsDigit(b[i])
  }

  function Natural(b: Bytes): nat
    requires AllDigits(b)
  {
    if b == [] then 0 else Natural(b[..|b| - 1]) * 10 + (b[|b| - 1] - ZERO)
  }

  lemma {:induction false} DigitsSpell(n: nat)
    ensures AllDigits(Digits(n)) && Natural(Digits(n)) == n
  {
    if n >= 10 {
      DigitsSpell(n / 10);
      assert Digits(n)[..|Digits(n)| - 1] == Digits(n / 10);
    } else {
      assert Digits(n)[..0] == [];
    }
  }

  function Pow10(n: nat): nat {
    if n == 0 then 1 else 10 * Pow10(n - 1)
  }

  /** The sum of the digits times their powers of ten. */
  function Positional(b: Bytes): int {
    if b == [] then 0
    else
      var c: int := b[0];
      (c - 48) * Pow10(|b| - 1) + Positional(b[1..])
  }

  lemma {:induction false} PositionalPush(b: Bytes, c: byte)
    ensures var d: int := c; Positional(b + [c]) == 10 * Positional(b) + (d - 48)
  {
    var all := b + [c];
    if b == [] {
      assert all[1..] == [];
    } else {
      PositionalPush(b[1..], c);
      assert all[1..] == b[1..] + [c];
      var first: int := b[0];
      Shift(first - 48, Pow10(|b| - 1));
    }
  }

  lemma Shift(d: int, p: nat)
    ensures d * (10 * p) == 10 * (d * p)
  {
  }

  lemma {:induction false} NaturalIsPositional(b: Bytes)
    requires AllDigits(b)
    ensures Natural(b) == Positional(b)
  {
    if b != [] {
      var n := |b| - 1;
      NaturalIsPositional(b[..n]);
      PositionalPush(b[..n], b[n]);
      assert b == b[..n] + [b[n]];
    }
  }

  predicate Numeral(b: Bytes) {
    b != [] && forall i :: 0 <= i < |b| ==> 48 <= b[i] <= 57
  }

  /** A number is written with digits in their places, the first of them no zero, behind a minus sign if negative. */
  lemma FormatIntBytes(n: int)
    ensures var b := FormatInt(n);
            && (n < 0 <==> b[0] == 45)
            && var d := if n < 0 then b[1..] else b;
               && Numeral(d) && (|d| > 1 ==> d[0] != 48)
               && Positional(d) == if n < 0 then -n else n
  {
    hide Positional;
    var m := if n < 0 then -n else n;
    DigitsSpell(m);
    NoLeadingZero(m);
    NaturalIsPositional(Digits(m));
    assert IsDigit(Digits(m)[0]);
    if n < 0 {
      assert FormatInt(n)[1..] == Digits(m);
    }
  }

  lemma {:induction false} NoLeadingZero(n: nat)
    ensures n > 0 ==> Digits(n)[0] != 48
    ensures |Digits(n)| > 1 ==> n > 0
  {
    if n >= 10 {
      NoLeadingZero(n / 10);
    }
  }

  // ---------- strconv.Atoi ----------

  /** An optional sign and at least one digit, in the range of int64. */
  function Atoi(b: Bytes): Option<int> {
    if b == [] then None
    else
      var signed := b[0] == MINUS || b[0] == PLUS;
      var d := if signed then b[1..] else b;
      if d == [] || !AllDigits(d) then None
      else
        var m: int := Natural(d);
        var n := if b[0] == MINUS then -m else m;
        if MIN_INT64 <= n <= MAX_INT64 then Some(n) else None
  }

  lemma AtoiFormat(n: int)
    ensures Atoi(FormatInt(n)) == if MIN_INT64 <= n <= MAX_INT64 then Some(n) else None
  {
    hide Digits, Natural;
    var d := Digits(if n < 0 then -n else n);
    DigitsSpell(if n < 0 then -n else n);
    if n < 0 {
      assert FormatInt(n)[1..] == d;
    } else {
      assert FormatInt(n) == d && IsDigit(d[0]);
    }
  }

  /** A numeral alone or behind a sign. */
  ghost predicate Writes(b: Bytes, d: Bytes, n: int) {
    Numeral(d) && ((b == d && n == Positional(d)) || (b == [43] + d && n == Positional(d)) || (b == [45] + d && n == -Positional(d)))
  }

  /** A number is read exactly where it is written so and in the range of int64. */
  lemma AtoiReads(b: Bytes, n: int)
    ensures Atoi(b) == Some(n) <==> IsInt64(n) && exists d :: Writes(b, d, n)
  {
    hide Natural, Positional;
    if Atoi(b) == Some(n) {
      var d := if b[0] == 45 || b[0] == 43 then b[1..] else b;
      NaturalIsPositional(d);
      assert b[0] == 45 || b[0] == 43 ==> b == [b[0]] + d;
      assert Writes(b, d, n);
    }
    if IsInt64(n) && exists d :: Writes(b, d, n) {
      var d :| Writes(b, d, n);
      assert AllDigits(d);
      NaturalIsPositional(d);
      assert d == if b[0] == 45 || b[0] == 43 then b[1..] else b;
    }
  }

  // ---------- lines ----------

  /** The first line feed at i or after it, or the length. */
  function LineEnd(b: Bytes, i: nat): (r: nat)
    requires i <= |b|
    ensures i <= r <= |b|
    ensures r < |b| ==> b[r] == LF
    ensures forall j :: i <= j < r ==> b[j] != LF
    decreases |b| - i
  {
    if i == |b| || b[i] == LF then i else LineEnd(b, i + 1)
  }

  lemma LineEndIs(b: Bytes, i: nat, r: nat)
    requires i <= r < |b| && b[r] == LF && forall j :: i <= j < r ==> b[j] != LF
    ensures LineEnd(b, i) == r
  {
  }

  /** A line once complete stays the same line. */
  lemma LineEndStable(b: Bytes, x: Bytes, i: nat)
    requires i <= |b| && LineEnd(b, i) < |b|
    ensures LineEnd(b + x, i) == LineEnd(b, i)
  {
    LineEndIs(b + x, i, LineEnd(b, i));
  }

  predicate NoLF(b: Bytes) {
    forall i :: 0 <= i < |b| ==> b[i] != LF
  }

  lemma DigitsOneLine(n: int)
    ensures NoLF(FormatInt(n))
  {
    DigitsSpell(if n < 0 then -n else n);
  }

  /** The first line of head CR LF tail. */
  lemma HeadLine(b: Bytes, head: Bytes, tail: Bytes, i: nat)
    requires b == head + [CR, LF] + tail && NoLF(head) && i <= |head|
    ensures LineEnd(b, i) == |head| + 1
    ensures b[..|head|] == head && b[|head|] == CR && b[|head| + 2..] == tail
  {
    forall j | i <= j < |head| + 1 ensures b[j] != LF {
      if j < |head| { assert b[j] == head[j]; }
    }
    LineEndIs(b, i, |head| + 1);
  }
}
