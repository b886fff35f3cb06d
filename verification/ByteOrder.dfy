/** Byte strings under bytes.Compare, and the key arithmetic of utils/bytes.go. */
module ByteOrder {

  type byte = x: int | 0 <= x < 256
  type Bytes = seq<byte>

  // ---------- bytes.Compare ----------

  function Compare(a: Bytes, b: Bytes): int {
    if a == [] then (if b == [] then 0 else -1)
    else if b == [] then 1
    else if a[0] < b[0] then -1
    else if b[0] < a[0] then 1
    else Compare(a[1..], b[1..])
  }

  predicate Less(a: Bytes, b: Bytes) {
    Compare(a, b) < 0
  }

  lemma {:induction false} CompareEqual(a: Bytes, b: Bytes)
    ensures Compare(a, b) == 0 <==> a == b
    ensures Compare(b, a) == -Compare(a, b)
  {
    if a != [] && b != [] {
      CompareEqual(a[1..], b[1..]);
      assert a == [a[0]] + a[1..] && b == [b[0]] + b[1..];
    }
  }

  lemma {:induction false} LessTransitive(a: Bytes, b: Bytes, c: Bytes)
    requires Less(a, b) && Less(b, c)
    ensures Less(a, c)
  {
    if a != [] && b != [] && c != [] && a[0] == b[0] == c[0] {
      LessTransitive(a[1..], b[1..], c[1..]);
    }
  }

  /** The order laws, quantified, for proofs about sorted key sequences. */
  lemma StrictTotalOrder()
    ensures forall a: Bytes :: !Less(a, a)
    ensures forall a: Bytes, b: Bytes :: Less(a, b) || a == b || Less(b, a)
    ensures forall a: Bytes, b: Bytes :: Less(a, b) ==> !Less(b, a)
    ensures forall a: Bytes, b: Bytes, c: Bytes :: Less(a, b) && Less(b, c) ==> Less(a, c)
  {
    forall a: Bytes, b: Bytes
      ensures !Less(a, a) && (Less(a, b) || a == b || Less(b, a)) && (Less(a, b) ==> !Less(b, a))
    {
      CompareEqual(a, b);
      CompareEqual(a, a);
    }
    forall a: Bytes, b: Bytes, c: Bytes | Less(a, b) && Less(b, c)
      ensures Less(a, c)
    {
      LessTransitive(a, b, c);
    }
  }

  predicate IsPrefix(p: Bytes, k: Bytes) {
    |p| <= |k| && k[..|p|] == p
  }

  lemma {:induction false} CompareSamePrefix(p: Bytes, a: Bytes, b: Bytes)
    ensures Compare(p + a, p + b) == Compare(a, b)
  {
    if p == [] {
      assert p + a == a && p + b == b;
    } else {
      assert (p + a)[1..] == p[1..] + a && (p + b)[1..] == p[1..] + b;
      CompareSamePrefix(p[1..], a, b);
    }
  }

  /** A decision inside the common length is not changed by what follows. */
  lemma {:induction false} CompareHead(a: Bytes, b: Bytes, x: Bytes, y: Bytes)
    requires |a| == |b|
    ensures Compare(a + x, b + y) == if a == b then Compare(x, y) else Compare(a, b)
  {
    if a == [] {
      assert a + x == x && b + y == y;
    } else {
      assert (a + x)[1..] == a[1..] + x && (b + y)[1..] == b[1..] + y;
      assert a == [a[0]] + a[1..] && b == [b[0]] + b[1..];
      CompareHead(a[1..], b[1..], x, y);
    }
  }

  // ---------- big-endian numbers ----------

  function Value(b: Bytes): nat {
    if b == [] then 0 else Value(b[..|b| - 1]) * 256 + b[|b| - 1]
  }

  function Pow256(n: nat): nat {
    if n == 0 then 1 else 256 * Pow256(n - 1)
  }

  function BigEndian(v: nat, n: nat): Bytes
    decreases n
  {
    if n == 0 then [] else BigEndian(v / 256, n - 1) + [v % 256]
  }

  lemma {:induction false} ValueBound(b: Bytes)
    ensures Value(b) < Pow256(|b|)
  {
    if b != [] {
      ValueBound(b[..|b| - 1]);
    }
  }

  lemma {:induction false} BigEndianRoundTrip(v: nat, n: nat)
    requires v < Pow256(n)
    ensures |BigEndian(v, n)| == n
    ensures Value(BigEndian(v, n)) == v
    decreases n
  {
    if n > 0 {
      BigEndianRoundTrip(v / 256, n - 1);
      assert BigEndian(v, n)[..n - 1] == BigEndian(v / 256, n - 1);
    }
  }

  /** Equal-length strings compare as the numbers they spell. */
  lemma {:induction false} CompareIsNumeric(a: Bytes, b: Bytes)
    requires |a| == |b|
    ensures Less(a, b) <==> Value(a) < Value(b)
    ensures a == b <==> Value(a) == Value(b)
  {
    if a != [] {
      var n := |a| - 1;
      var a0, b0 := a[..n], b[..n];
      CompareIsNumeric(a0, b0);
      CompareHead(a0, b0, [a[n]], [b[n]]);
      assert a == a0 + [a[n]] && b == b0 + [b[n]];
      CompareEqual(a0, b0);
    }
  }

  // ---------- NextKey and PrefixNext ----------

  function NextKey(key: Bytes): Bytes {
    key + [0]
  }

  /** Nothing lies between a key and its NextKey. */
  lemma {:induction false} NextKeyIsSuccessor(key: Bytes, x: Bytes)
    ensures Less(key, x) <==> !Less(x, NextKey(key))
  {
    if key == [] {
      assert NextKey(key) == [0] && NextKey(key)[1..] == [];
      assert x != [] ==> x[0] >= 0 && Compare(x[1..], []) >= 0;
    } else if x != [] {
      assert NextKey(key)[1..] == NextKey(key[1..]);
      NextKeyIsSuccessor(key[1..], x[1..]);
    }
  }

  predicate AllOnes(p: Bytes) {
    forall i :: 0 <= i < |p| ==> p[i] == 255
  }

  /** The number p + 1 in as many bytes, and p + [0] when that overflows. */
  function PrefixNextSpec(p: Bytes): Bytes {
    if Value(p) + 1 == Pow256(|p|) then p + [0] else BigEndian(Value(p) + 1, |p|)
  }

  lemma {:induction false} AllOnesIsMaximal(p: Bytes)
    ensures AllOnes(p) <==> Value(p) + 1 == Pow256(|p|)
  {
    if p != [] {
      var n := |p| - 1;
      AllOnesIsMaximal(p[..n]);
      ValueBound(p[..n]);
      if p[n] == 255 && AllOnes(p[..n]) {
        assert forall i :: 0 <= i < n ==> p[i] == p[..n][i];
      }
    }
  }

  /** The carry loop of utils.PrefixNext on a copy of the prefix. */
  method PrefixNext(prefix: Bytes) returns (r: Bytes)
    ensures r == PrefixNextSpec(prefix)
  {
    var n := |prefix|;
    var buf := new byte[n](j requires 0 <= j < n => prefix[j]);
    var i := n - 1;
    assert buf[..] == prefix;
    while i >= 0
      invariant -1 <= i < n
      invariant buf[..i + 1] == prefix[..i + 1]
      invariant forall j :: i < j < n ==> prefix[j] == 255 && buf[j] == 0
    {
      buf[i] := if buf[i] == 255 then 0 else buf[i] + 1;
      if buf[i] != 0 {
        CarryStops(prefix, i, buf[..]);
        return buf[..];
      }
      i := i - 1;
    }
    AllOnesIsMaximal(prefix);
    r := prefix + [0];
  }

  /** Raising byte i and zeroing the 255s after it adds one. */
  lemma CarryStops(p: Bytes, i: nat, q: Bytes)
    requires i < |p| == |q|
    requires q[..i] == p[..i] && p[i] < 255 && q[i] == p[i] + 1
    requires forall j :: i < j < |p| ==> p[j] == 255 && q[j] == 0
    ensures q == PrefixNextSpec(p)
  {
    CarryAddsOne(p, i, q);
    ValueBound(q);
    BigEndianRoundTrip(Value(q), |p|);
    CompareIsNumeric(q, BigEndian(Value(q), |p|));
  }

  lemma {:induction false} CarryAddsOne(p: Bytes, i: nat, q: Bytes)
    requires i < |p| == |q|
    requires q[..i] == p[..i] && p[i] < 255 && q[i] == p[i] + 1
    requires forall j :: i < j < |p| ==> p[j] == 255 && q[j] == 0
    ensures Value(q) == Value(p) + 1
  {
    var n := |p| - 1;
    var p0, q0 := p[..n], q[..n];
    if i == n {
      assert p0 == q0;
    } else {
      assert q0[..i] == q[..i] && p0[..i] == p[..i];
      CarryAddsOne(p0, i, q0);
    }
  }

  /**
   * The scan range [p, PrefixNext(p)) holds, among keys at least as long as p, exactly the
   * extensions of p; the carry's trailing zeros cost nothing. When every byte of p is 255 the
   * range shrinks to p alone.
   */
  lemma PrefixRange(p: Bytes, k: Bytes)
    requires |k| >= |p|
    ensures !AllOnes(p) ==> (!Less(k, p) && Less(k, PrefixNextSpec(p)) <==> IsPrefix(p, k))
    ensures AllOnes(p) ==> (!Less(k, p) && Less(k, PrefixNextSpec(p)) <==> k == p)
  {
    var n := |p|;
    var h, t := k[..n], k[n..];
    assert k == h + t && p == p + [];
    CompareHead(h, p, t, []);
    CompareEqual(h, p);
    CompareIsNumeric(h, p);
    AllOnesIsMaximal(p);
    if AllOnes(p) {
      NextKeyIsSuccessor(p, k);
      CompareEqual(k, p);
    } else {
      var q := PrefixNextSpec(p);
      ValueBound(p);
      BigEndianRoundTrip(Value(p) + 1, n);
      assert q == q + [];
      CompareHead(h, q, t, []);
      CompareIsNumeric(h, q);
      CompareEqual(h, q);
    }
  }

  /** Below PrefixNext(p) means: not above p in the first |p| bytes. */
  lemma BelowPrefixNext(p: Bytes, k: Bytes)
    requires !AllOnes(p) && |k| >= |p|
    ensures Less(k, PrefixNextSpec(p)) <==> !Less(p, k[..|p|])
  {
    var n, q := |p|, PrefixNextSpec(p);
    var h, t := k[..n], k[n..];
    AllOnesIsMaximal(p);
    ValueBound(p);
    BigEndianRoundTrip(Value(p) + 1, n);
    assert k == h + t && q == q + [];
    CompareHead(h, q, t, []);
    CompareEqual(h, q);
    CompareIsNumeric(h, q);
    CompareIsNumeric(p, h);
  }

  /** Where two byte strings part. */
  lemma {:induction false} FirstDifference(a: Bytes, b: Bytes) returns (m: nat)
    requires Less(a, b)
    ensures m <= |a| && m < |b| && a[..m] == b[..m] && (m < |a| ==> a[m] < b[m])
  {
    if a == [] || a[0] < b[0] {
      m := 0;
    } else {
      m := FirstDifference(a[1..], b[1..]);
      assert a[..m + 1] == [a[0]] + a[1..][..m] && b[..m + 1] == [b[0]] + b[1..][..m];
      m := m + 1;
    }
  }

  lemma LastBelow255(p: Bytes) returns (t: nat)
    requires !AllOnes(p)
    ensures t < |p| && p[t] < 255 && forall j :: t < j < |p| ==> p[j] == 255
  {
    t := |p| - 1;
    while p[t] == 255
      invariant t < |p| && forall j :: t < j < |p| ==> p[j] == 255
      decreases t
    {
      if t == 0 {
        assert false;
      }
      t := t - 1;
    }
  }

  /** A key shorter than p in the scan range of p holds the byte that the carry raised, and 255s are behind it in p. */
  lemma ShortInRange(p: Bytes, k: Bytes) returns (t: nat)
    requires !AllOnes(p) && |k| < |p| && !Less(k, p) && Less(k, PrefixNextSpec(p))
    ensures t < |k| && k[..t] == p[..t] && p[t] < 255 && k[t] == p[t] + 1 && forall j :: t < j < |p| ==> p[j] == 255
  {
    hide Less, PrefixNextSpec, AllOnes;
    t := LastBelow255(p);
    var q := p[..t] + [p[t] + 1] + seq(|p| - t - 1, _ => 0);
    CarryStops(p, t, q);
    OrderedApart(p, k);
    var above := FirstDifference(p, k);
    var below := FirstDifference(k, q);
    ShortWhere(p, k, q, t, above, below);
  }

  lemma OrderedApart(p: Bytes, k: Bytes)
    requires !Less(k, p) && |k| < |p|
    ensures Less(p, k)
  {
    hide Less;
    StrictTotalOrder();
  }

  lemma ShortWhere(p: Bytes, k: Bytes, q: Bytes, t: nat, above: nat, below: nat)
    requires t < |p| == |q| && |k| < |p| && q[..t] == p[..t] && p[t] < 255 && q[t] == p[t] + 1 && forall j :: t < j < |p| ==> p[j] == 255
    requires above < |k| && p[..above] == k[..above] && p[above] < k[above]
    requires below <= |k| && k[..below] == q[..below] && (below < |k| ==> k[below] < q[below])
    ensures above == t && k[t] == p[t] + 1
  {
    assert forall i :: 0 <= i < above ==> p[i] == p[..above][i] == k[i];
    assert forall i :: 0 <= i < t ==> p[i] == p[..t][i] == q[i];
    assert forall i :: 0 <= i < below ==> k[i] == k[..below][i] == q[i];
  }

  /** Keys between two extensions of p extend p, so a range scan never leaves its object. */
  lemma {:induction false} BetweenExtensions(p: Bytes, a: Bytes, b: Bytes, k: Bytes)
    requires !Less(k, p + a) && Less(k, p + b)
    ensures IsPrefix(p, k)
  {
    if p != [] {
      assert (p + a)[1..] == p[1..] + a && (p + b)[1..] == p[1..] + b;
      BetweenExtensions(p[1..], a, b, k[1..]);
      assert k[..|p|] == [k[0]] + k[1..][..|p| - 1];
      assert p == [p[0]] + p[1..];
    }
  }
}
