module Basics {
  datatype Option<+T> = None | Some(value: T)

  /** What a Go call does: it returns, or an index or a slice bound is out of range. */
  datatype Called<+T> = Returned(value: T) | Panicked

  // ---------- int64 ----------

  const MIN_INT64: int := -0x8000_0000_0000_0000
  const MAX_INT64: int := 0x7fff_ffff_ffff_ffff

  predicate IsInt64(n: int) {
    MIN_INT64 <= n <= MAX_INT64
  }

  /** int64 arithmetic wraps around. */
  function Wrapped(n: int): (r: int)
    ensures IsInt64(r)
  {
    (n + 0x8000_0000_0000_0000) % 0x1_0000_0000_0000_0000 - 0x8000_0000_0000_0000
  }

  lemma WrapsNothing(n: int)
    requires IsInt64(n)
    ensures Wrapped(n) == n
  {
  }

  lemma WrapShift(n: int, k: int)
    ensures Wrapped(n + k * 0x1_0000_0000_0000_0000) == Wrapped(n)
  {
  }

  /** -n: the least number is its own opposite. */
  function Negated(n: int): (m: int)
    ensures IsInt64(n) ==> m == Wrapped(-n)
  {
    if n == MIN_INT64 then n else -n
  }

  // ---------- powers of two ----------

  function Pow2(n: nat): nat {
    if n == 0 then 1 else 2 * Pow2(n - 1)
  }

  lemma {:induction false} Pow2Sum(a: nat, b: nat)
    ensures Pow2(a + b) == Pow2(a) * Pow2(b)
  {
    if a > 0 {
      Pow2Sum(a - 1, b);
      var x, y := Pow2(a - 1), Pow2(b);
      assert 2 * (x * y) == (2 * x) * y;
    }
  }

  lemma {:induction false} Pow2Grows(a: nat, b: nat)
    requires a <= b
    ensures 0 < Pow2(a) <= Pow2(b)
  {
    if b > 0 {
      Pow2Grows(if a < b then a else a - 1, b - 1);
    }
  }

  // ---------- finite sets ----------

  lemma SubsetIsSmaller<T>(a: set<T>, b: set<T>)
    requires a <= b
    ensures |a| <= |b|
  {
    assert b == a + (b - a);
  }
}
