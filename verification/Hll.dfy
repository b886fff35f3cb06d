/**
 * hll/hll.go, hll/dense.go, command/hll.go: HyperLogLog registers, as a flat array and as blocks
 * under the keys of an object.
 */
module Hll {
  import opened Basics
  import opened ByteOrder
  import opened Store

  // ---------- a hash picks a register and a rank ----------

  predicate IsHash(x: nat) {
    x < Pow2(64)
  }

  predicate Precision(p: nat) {
    4 <= p <= 18
  }

  /** bextr: length bits of v from bit start up. */
  function Bextr(v: nat, start: nat, length: nat): nat
  {
    Pow2Grows(0, start);
    Pow2Grows(0, length);
    v / Pow2(start) % Pow2(length)
  }

  /** Leading zeros of an n-bit word. */
  function LeadingZeros(w: nat, n: nat): (r: nat)
    ensures r <= n
  {
    if n == 0 || w >= Pow2(n - 1) then 0 else 1 + LeadingZeros(w, n - 1)
  }

  function Index(x: nat, p: nat): nat
    requires p <= 64
  {
    Bextr(x, 64 - p, p)
  }

  /** x << p | 1 << (p-1) in 64 bits. */
  function Word(x: nat, p: nat): nat
    requires 0 < p <= 64
  {
    Pow2Grows(0, 64);
    x * Pow2(p) % Pow2(64) + Pow2(p - 1)
  }

  function Rho(x: nat, p: nat): nat
    requires 0 < p <= 64
  {
    LeadingZeros(Word(x, p), 64) + 1
  }

  lemma {:induction false} LeadingZerosMean(w: nat, n: nat)
    requires w < Pow2(n)
    ensures var z := LeadingZeros(w, n); w < Pow2(n - z) && (z < n ==> Pow2(n - z - 1) <= w)
  {
    if n > 0 && w < Pow2(n - 1) {
      LeadingZerosMean(w, n - 1);
    }
  }

  /** Shifting out the register number leaves the other bits of the hash, and room for the guard bit. */
  lemma WordIsRest(x: nat, p: nat)
    requires IsHash(x) && 0 < p < 64
    ensures Pow2(64 - p) > 0 && Word(x, p) == x % Pow2(64 - p) * Pow2(p) + Pow2(p - 1)
  {
    hide Pow2;
    Pow2Grows(0, 64 - p);
    Pow2Grows(0, p);
    Pow2Sum(64 - p, p);
    ShiftOut(x, Pow2(64 - p), Pow2(p));
  }

  lemma ShiftOut(x: nat, m: nat, p: nat)
    requires m > 0 && p > 0
    ensures m * p > 0 && x * p % (m * p) == x % m * p
  {
    var q, r := x / m, x % m;
    Product(m, p);
    Distribute(q, m, r, p);
    Scaled(r, m, p);
    assert x == q * m + r;
    Remainder(x * p, q, r * p, m * p);
  }

  lemma Distribute(q: nat, m: nat, r: nat, p: nat)
    ensures (q * m + r) * p == q * (m * p) + r * p
  {
    assert (q * m + r) * p == (q * m) * p + r * p;
  }

  lemma Sum(a: nat, b: nat, p: nat)
    ensures (a + b) * p == a * p + b * p
  {
  }

  lemma {:induction false} Product(a: nat, p: nat)
    ensures a > 0 ==> a * p >= p
    ensures a * p >= 0
  {
    if a > 0 {
      Product(a - 1, p);
      assert a * p == (a - 1) * p + p;
    }
  }

  lemma Scaled(r: nat, m: nat, p: nat)
    requires r < m && p > 0
    ensures r * p < m * p && r * p + p <= m * p
  {
    var k := m - r;
    Product(k, p);
    Sum(r, k, p);
  }

  lemma Remainder(a: nat, q: nat, r: nat, m: nat)
    requires m > 0 && 0 <= r < m && a == q * m + r
    ensures a % m == r
  {
    var q', r' := a / m, a % m;
    assert a == q' * m + r';
    if q < q' {
      Scaled(q, q', m);
    } else if q' < q {
      Scaled(q', q, m);
    }
  }

  /**
   * The rank is the place of the first one among the hash bits behind the register number, and one
   * more than their count when all are zero.
   */
  lemma RhoMeans(x: nat, p: nat)
    requires IsHash(x) && 0 < p < 64
    ensures var rho := Rho(x, p);
            && 1 <= rho <= 65 - p && Pow2(64 - p) > 0
            && x % Pow2(64 - p) < Pow2(65 - p - rho)
            && (rho < 65 - p ==> Pow2(64 - p - rho) <= x % Pow2(64 - p))
  {
    hide *;
    Pow2Grows(0, 64 - p);
    Pow2Grows(0, p);
    WordIsRest(x, p);
    Pow2Sum(64 - p, p);
    GuardBit(p);
    var y, w := x % Pow2(64 - p), Word(x, p);
    WordBounds(y, Pow2(64 - p), Pow2(p), Pow2(p - 1), w);
    LeadingZerosMean(w, 64);
    var z := LeadingZeros(w, 64);
    FewLeadingZeros(w, p, z);
    TopBits(y, p, z, w);
    RhoIs(x, p);
  }

  lemma GuardBit(p: nat)
    requires p > 0
    ensures 0 < Pow2(p - 1) < Pow2(p)
  {
    Pow2Grows(0, p - 1);
  }

  lemma RhoIs(x: nat, p: nat)
    requires 0 < p <= 64
    ensures Rho(x, p) == LeadingZeros(Word(x, p), 64) + 1
  {
  }

  lemma WordBounds(y: nat, m: nat, p: nat, g: nat, w: nat)
    requires y < m && 0 < g < p && w == y * p + g
    ensures g <= w < m * p
  {
    Product(y, p);
    Scaled(y, m, p);
  }

  lemma FewLeadingZeros(w: nat, p: nat, z: nat)
    requires 0 < p <= 64 && z <= 64 && Pow2(p - 1) <= w < Pow2(64 - z)
    ensures z <= 64 - p
  {
    hide Pow2;
    if z > 64 - p {
      Pow2Grows(64 - z, p - 1);
    }
  }

  /** Comparing y * 2^p + 2^(p-1) with a power of two at least 2^p is comparing y. */
  lemma TopBits(y: nat, p: nat, z: nat, w: nat)
    requires 0 < p < 64 && z <= 64 - p && w == y * Pow2(p) + Pow2(p - 1)
    requires w < Pow2(64 - z) && (z < 64 ==> Pow2(63 - z) <= w)
    ensures y < Pow2(64 - p - z)
    ensures z < 64 - p ==> Pow2(63 - p - z) <= y
  {
    Pow2Grows(0, p);
    Pow2Grows(0, p - 1);
    Pow2Sum(64 - p - z, p);
    if y >= Pow2(64 - p - z) {
      Sum(Pow2(64 - p - z), y - Pow2(64 - p - z), Pow2(p));
      Product(y - Pow2(64 - p - z), Pow2(p));
    }
    if z < 64 - p {
      Pow2Sum(63 - p - z, p);
      if y < Pow2(63 - p - z) {
        Scaled(y, Pow2(63 - p - z), Pow2(p));
      }
    }
  }

  lemma IndexInRange(x: nat, p: nat)
    requires p <= 64
    ensures Index(x, p) < Pow2(p)
  {
    Pow2Grows(0, p);
    Pow2Grows(0, 64 - p);
  }

  /** The register number is the first p bits of the hash, and the other bits are behind it. */
  lemma HashParts(x: nat, p: nat)
    requires IsHash(x) && 0 < p < 64
    ensures Index(x, p) < Pow2(p) && Pow2(64 - p) > 0
    ensures x == Index(x, p) * Pow2(64 - p) + x % Pow2(64 - p)
  {
    hide Pow2;
    IndexInRange(x, p);
    Pow2Grows(0, 64 - p);
    Pow2Sum(p, 64 - p);
    var m, q := Pow2(64 - p), x / Pow2(64 - p);
    assert x == q * m + x % m;
    if q >= Pow2(p) {
      Sum(Pow2(p), q - Pow2(p), m);
      Product(q - Pow2(p), m);
    }
    Remainder(q, 0, q, Pow2(p));
  }

  // ---------- what the registers hold ----------

  type Registers = seq<byte>

  function Raised(regs: Registers, i: nat, rho: byte): Registers
    requires i < |regs|
  {
    if rho > regs[i] then regs[i := rho] else regs
  }

  function Rank(x: nat, p: nat): byte
    requires IsHash(x) && 0 < p < 64
  {
    RhoMeans(x, p);
    Rho(x, p)
  }

  predicate Hashes(hs: seq<nat>) {
    forall j :: 0 <= j < |hs| ==> IsHash(hs[j])
  }

  /** The registers after adding hashes one after the other. */
  function AfterAdds(regs: Registers, hs: seq<nat>, p: nat): (r: Registers)
    requires Precision(p) && |regs| == Pow2(p) && Hashes(hs)
    ensures |r| == |regs|
  {
    if hs == [] then regs
    else
      var x := hs[|hs| - 1];
      IndexInRange(x, p);
      Raised(AfterAdds(regs, hs[..|hs| - 1], p), Index(x, p), Rank(x, p))
  }

  function Zeros(n: nat): Registers {
    seq(n, _ => 0)
  }

  /** The hash lies in stretch i of the 2^p equal stretches of all hashes. */
  predicate Falls(x: nat, p: nat, i: nat)
    requires p <= 64
  {
    i * Pow2(64 - p) <= x < (i + 1) * Pow2(64 - p)
  }

  lemma FallsOnIndex(x: nat, p: nat, i: nat)
    requires IsHash(x) && 0 < p < 64
    ensures Falls(x, p, i) <==> Index(x, p) == i
  {
    hide Pow2, Index;
    HashParts(x, p);
    var m, j := Pow2(64 - p), Index(x, p);
    Sum(i, 1, m);
    Sum(j, 1, m);
    if i < j {
      Scaled(i, j, m);
    } else if j < i {
      Scaled(j, i, m);
    }
  }

  /** The highest rank among the hashes that fall on register i; 0 when none does. */
  ghost predicate IsPeak(hs: seq<nat>, p: nat, i: nat, v: byte)
    requires Precision(p) && Hashes(hs)
  {
    && (forall j :: 0 <= j < |hs| && Falls(hs[j], p, i) ==> Rank(hs[j], p) <= v)
    && (v > 0 ==> exists j :: 0 <= j < |hs| && Falls(hs[j], p, i) && Rank(hs[j], p) == v)
  }

  lemma {:induction false} AddsGivePeaks(hs: seq<nat>, p: nat, i: nat)
    requires Precision(p) && Hashes(hs) && i < Pow2(p)
    ensures IsPeak(hs, p, i, AfterAdds(Zeros(Pow2(p)), hs, p)[i])
  {
    hide Index, Rank, Pow2, Falls;
    if hs != [] {
      var init, x := hs[..|hs| - 1], hs[|hs| - 1];
      AddsGivePeaks(init, p, i);
      IndexInRange(x, p);
      FallsOnIndex(x, p, i);
      var before, after := AfterAdds(Zeros(Pow2(p)), init, p)[i], AfterAdds(Zeros(Pow2(p)), hs, p)[i];
      PeakPush(init, x, p, i, before, after);
      assert hs == init + [x];
    }
  }

  lemma PeakPush(init: seq<nat>, x: nat, p: nat, i: nat, before: byte, after: byte)
    requires Precision(p) && Hashes(init) && IsHash(x) && IsPeak(init, p, i, before)
    requires after == if Falls(x, p, i) && Rank(x, p) > before then Rank(x, p) else before
    ensures Hashes(init + [x]) && IsPeak(init + [x], p, i, after)
  {
    hide Falls, Rank, IsHash;
    var hs := init + [x];
    forall j | 0 <= j < |hs| ensures IsHash(hs[j]) && (Falls(hs[j], p, i) ==> Rank(hs[j], p) <= after) {
      assert j < |init| ==> hs[j] == init[j];
    }
    if after > 0 {
      if after == before {
        var j :| 0 <= j < |init| && Falls(init[j], p, i) && Rank(init[j], p) == before;
        assert hs[j] == init[j];
      } else {
        assert hs[|init|] == x;
      }
    }
  }

  predicate Subset(hs: seq<nat>, ks: seq<nat>) {
    forall j :: 0 <= j < |hs| ==> Occurs(hs[j], ks)
  }

  predicate Occurs(x: nat, ks: seq<nat>) {
    exists k :: 0 <= k < |ks| && ks[k] == x
  }

  lemma PeakMonotone(hs: seq<nat>, ks: seq<nat>, p: nat, i: nat, v: byte, w: byte)
    requires Precision(p) && Hashes(hs) && Hashes(ks) && Subset(hs, ks)
    requires IsPeak(hs, p, i, v) && IsPeak(ks, p, i, w)
    ensures v <= w
  {
    hide Falls, Rank, IsHash;
    if v > 0 {
      var j :| 0 <= j < |hs| && Falls(hs[j], p, i) && Rank(hs[j], p) == v;
      assert Occurs(hs[j], ks);
      var k :| 0 <= k < |ks| && ks[k] == hs[j];
    }
  }

  /** Order and repetition of the adds do not matter: only which hashes were added. */
  lemma RegistersOfSet(hs: seq<nat>, ks: seq<nat>, p: nat)
    requires Precision(p) && Hashes(hs) && Hashes(ks) && Subset(hs, ks) && Subset(ks, hs)
    ensures AfterAdds(Zeros(Pow2(p)), hs, p) == AfterAdds(Zeros(Pow2(p)), ks, p)
  {
    hide AfterAdds, Pow2, IsPeak, Subset;
    var a, b := AfterAdds(Zeros(Pow2(p)), hs, p), AfterAdds(Zeros(Pow2(p)), ks, p);
    forall i: nat | i < Pow2(p) ensures a[i] == b[i] {
      AddsGivePeaks(hs, p, i);
      AddsGivePeaks(ks, p, i);
      PeakMonotone(hs, ks, p, i, a[i], b[i]);
      PeakMonotone(ks, hs, p, i, b[i], a[i]);
    }
  }

  /** A register is 0 or a rank, so it never exceeds 65 - p. */
  lemma RegistersInRange(hs: seq<nat>, p: nat, i: nat)
    requires Precision(p) && Hashes(hs) && i < Pow2(p)
    ensures AfterAdds(Zeros(Pow2(p)), hs, p)[i] <= 65 - p
  {
    hide AfterAdds, Pow2, Rho, Index;
    var v := AfterAdds(Zeros(Pow2(p)), hs, p)[i];
    AddsGivePeaks(hs, p, i);
    if v > 0 {
      var j :| 0 <= j < |hs| && Falls(hs[j], p, i) && Rank(hs[j], p) == v;
      RhoMeans(hs[j], p);
    }
  }

  function Larger(a: byte, b: byte): byte {
    if a >= b then a else b
  }

  /** Register by register the larger of the two. */
  function Merged(a: Registers, b: Registers): Registers
    requires |a| == |b|
  {
    seq(|a|, i requires 0 <= i < |a| => Larger(a[i], b[i]))
  }

  lemma MergeIsUnion(hs: seq<nat>, ks: seq<nat>, p: nat)
    requires Precision(p) && Hashes(hs) && Hashes(ks)
    ensures Hashes(hs + ks)
    ensures Merged(AfterAdds(Zeros(Pow2(p)), hs, p), AfterAdds(Zeros(Pow2(p)), ks, p)) ==
              AfterAdds(Zeros(Pow2(p)), hs + ks, p)
  {
    hide AfterAdds, Pow2, IsPeak, IsHash;
    HashesTogether(hs, ks);
    var a, b, c := AfterAdds(Zeros(Pow2(p)), hs, p), AfterAdds(Zeros(Pow2(p)), ks, p), AfterAdds(Zeros(Pow2(p)), hs + ks, p);
    forall i: nat | i < Pow2(p) ensures c[i] == Larger(a[i], b[i]) {
      AddsGivePeaks(hs, p, i);
      AddsGivePeaks(ks, p, i);
      AddsGivePeaks(hs + ks, p, i);
      PeakOfBoth(hs, ks, p, i, a[i], b[i]);
      PeakMonotone(hs + ks, hs + ks, p, i, c[i], Larger(a[i], b[i]));
      PeakMonotone(hs + ks, hs + ks, p, i, Larger(a[i], b[i]), c[i]);
    }
    assert Merged(a, b) == c;
  }

  lemma HashesTogether(hs: seq<nat>, ks: seq<nat>)
    requires Hashes(hs) && Hashes(ks)
    ensures Hashes(hs + ks) && Subset(hs + ks, hs + ks)
  {
    hide IsHash;
    var all := hs + ks;
    forall j | 0 <= j < |all| ensures IsHash(all[j]) && Occurs(all[j], all) {
      assert j < |hs| ==> all[j] == hs[j];
      assert j >= |hs| ==> all[j] == ks[j - |hs|];
    }
  }

  lemma PeakOfBoth(hs: seq<nat>, ks: seq<nat>, p: nat, i: nat, v: byte, w: byte)
    requires Precision(p) && Hashes(hs) && Hashes(ks) && Hashes(hs + ks)
    requires IsPeak(hs, p, i, v) && IsPeak(ks, p, i, w)
    ensures IsPeak(hs + ks, p, i, Larger(v, w))
  {
    hide Falls, Rank, IsHash;
    var all := hs + ks;
    forall j | 0 <= j < |all| && Falls(all[j], p, i) ensures Rank(all[j], p) <= Larger(v, w) {
      assert j < |hs| ==> all[j] == hs[j];
      assert j >= |hs| ==> all[j] == ks[j - |hs|];
    }
    if v >= w && v > 0 {
      var j :| 0 <= j < |hs| && Falls(hs[j], p, i) && Rank(hs[j], p) == v;
      assert all[j] == hs[j];
    } else if w > 0 {
      var j :| 0 <= j < |ks| && Falls(ks[j], p, i) && Rank(ks[j], p) == w;
      assert all[|hs| + j] == ks[j];
    }
  }

  // ---------- the flat array ----------

  /** hll/dense.go. */
  class DefaultDense {
    const d: array<byte>

    constructor (m: nat)
      ensures fresh(d) && d[..] == Zeros(m)
    {
      d := new byte[m](_ => 0);
    }

    method CheckAndSet(i: nat, rho: byte) returns (origin: byte, raised: bool)
      requires i < d.Length
      modifies d
      ensures origin == old(d[i]) && (raised <==> rho > origin)
      ensures d[..] == Raised(old(d[..]), i, rho)
    {
      origin := d[i];
      raised := rho > origin;
      if raised {
        d[i] := rho;
      }
    }
  }

  // ---------- blocks under the keys of an object ----------

  const DENSE_SIZE: nat := 4096

  type Blocks = map<Bytes, seq<byte>>

  function BlockKey(b: nat): Bytes {
    BigEndian(b % 0x1_0000, 2)
  }

  lemma BlockKeyValue(b: nat)
    requires b < DENSE_SIZE
    ensures |BlockKey(b)| == 2 && Value(BlockKey(b)) == b
  {
    assert b % 0x1_0000 == b;
    assert Pow256(2) == 0x1_0000;
    BigEndianRoundTrip(b, 2);
  }

  lemma BlockKeysApart(b: nat, c: nat)
    requires b < DENSE_SIZE && c < DENSE_SIZE
    ensures BlockKey(b) == BlockKey(c) <==> b == c
  {
    hide BlockKey, Value;
    BlockKeyValue(b);
    BlockKeyValue(c);
  }

  lemma KeyOfValue(k: Bytes)
    requires |k| == 2 && Value(k) < DENSE_SIZE
    ensures k == BlockKey(Value(k))
  {
    hide BlockKey, Value;
    BlockKeyValue(Value(k));
    CompareIsNumeric(k, BlockKey(Value(k)));
  }

  /** A block of the wrong size counts as all zeros, like a missing one. */
  function Block(store: Blocks, b: nat, delta: nat): (r: seq<byte>)
    ensures |r| == delta
  {
    if BlockKey(b) in store && |store[BlockKey(b)]| == delta then store[BlockKey(b)] else Zeros(delta)
  }

  /** The registers as one array. */
  function Flat(store: Blocks, delta: nat): (r: Registers)
    requires delta > 0
    ensures |r| == DENSE_SIZE * delta
  {
    seq(DENSE_SIZE * delta, i requires 0 <= i < DENSE_SIZE * delta => Block(store, i / delta, delta)[i % delta])
  }

  lemma Divided(i: nat, delta: nat)
    requires delta > 0 && i < DENSE_SIZE * delta
    ensures i / delta < DENSE_SIZE && i == i / delta * delta + i % delta && i / delta * delta + delta <= DENSE_SIZE * delta
  {
    var q := i / delta;
    assert i == q * delta + i % delta;
    if q >= DENSE_SIZE {
      Sum(DENSE_SIZE, q - DENSE_SIZE, delta);
      Product(q - DENSE_SIZE, delta);
    }
    Scaled(q, DENSE_SIZE, delta);
  }

  lemma PlaceIs(b: nat, j: nat, delta: nat)
    requires j < delta && b < DENSE_SIZE
    ensures b * delta + j < DENSE_SIZE * delta
    ensures (b * delta + j) / delta == b && (b * delta + j) % delta == j
  {
    Product(b, delta);
    var i := b * delta + j;
    Remainder(i, b, j, delta);
    assert i == i / delta * delta + i % delta;
    if i / delta < b {
      Scaled(i / delta, b, delta);
    } else if i / delta > b {
      Scaled(b, i / delta, delta);
    }
    Scaled(b, DENSE_SIZE, delta);
  }

  lemma FlatAt(store: Blocks, delta: nat, i: nat)
    requires delta > 0 && i < DENSE_SIZE * delta
    ensures i / delta < DENSE_SIZE && Flat(store, delta)[i] == Block(store, i / delta, delta)[i % delta]
  {
    Divided(i, delta);
  }

  lemma InStretch(store: Blocks, delta: nat, b: nat, j: nat)
    requires delta > 0 && b < DENSE_SIZE && j < delta
    ensures b * delta + j < DENSE_SIZE * delta && Flat(store, delta)[b * delta + j] == Block(store, b, delta)[j]
  {
    PlaceIs(b, j, delta);
    FlatAt(store, delta, b * delta + j);
  }

  lemma OutsideStretch(store: Blocks, delta: nat, b: nat, v: seq<byte>, i: nat)
    requires delta > 0 && b < DENSE_SIZE && i < DENSE_SIZE * delta && !(b * delta <= i < b * delta + delta)
    ensures Flat(store[BlockKey(b) := v], delta)[i] == Flat(store, delta)[i]
  {
    hide BlockKey, Flat;
    FlatAt(store, delta, i);
    FlatAt(store[BlockKey(b) := v], delta, i);
    OtherBlock(i, b, delta);
    BlockKeysApart(i / delta, b);
  }

  lemma StretchIs(flat: Registers, from: nat, block: seq<byte>)
    requires from + |block| <= |flat| && forall j :: 0 <= j < |block| ==> flat[from + j] == block[j]
    ensures flat[from..from + |block|] == block
  {
  }

  lemma ChangedStretch(before: Registers, after: Registers, from: nat, v: seq<byte>)
    requires from + |v| <= |before| == |after| && after[from..from + |v|] == v
    requires forall i :: 0 <= i < |after| && !(from <= i < from + |v|) ==> after[i] == before[i]
    ensures after == before[..from] + v + before[from + |v|..]
  {
    assert after[..from] == before[..from] && after[from + |v|..] == before[from + |v|..];
  }

  /** Replacing one block replaces its stretch of the array. */
  lemma FlatStretch(store: Blocks, delta: nat, b: nat, v: seq<byte>)
    requires delta > 0 && b < DENSE_SIZE && |v| == delta
    ensures b * delta + delta <= DENSE_SIZE * delta
    ensures Flat(store, delta)[b * delta..b * delta + delta] == Block(store, b, delta)
    ensures Flat(store[BlockKey(b) := v], delta) ==
              Flat(store, delta)[..b * delta] + v + Flat(store, delta)[b * delta + delta..]
  {
    hide *;
    var from := b * delta;
    var before, after := Flat(store, delta), Flat(store[BlockKey(b) := v], delta);
    StretchFacts(store, delta, b, from);
    StretchFacts(store[BlockKey(b) := v], delta, b, from);
    BlockWritten(store, delta, b, v);
    StretchIs(before, from, Block(store, b, delta));
    StretchIs(after, from, v);
    OtherFacts(store, delta, b, v, from);
    ChangedStretch(before, after, from, v);
  }

  lemma BlockWritten(store: Blocks, delta: nat, b: nat, v: seq<byte>)
    requires |v| == delta
    ensures Block(store[BlockKey(b) := v], b, delta) == v
  {
    hide BlockKey;
  }

  lemma StretchFacts(store: Blocks, delta: nat, b: nat, from: nat)
    requires delta > 0 && b < DENSE_SIZE && from == b * delta
    ensures from + delta <= |Flat(store, delta)| == DENSE_SIZE * delta
    ensures forall j :: 0 <= j < delta ==> Flat(store, delta)[from + j] == Block(store, b, delta)[j]
  {
    hide BlockKey, Flat, Block;
    PlaceIs(b, delta - 1, delta);
    forall j | 0 <= j < delta ensures Flat(store, delta)[from + j] == Block(store, b, delta)[j] {
      InStretch(store, delta, b, j);
    }
  }

  lemma OtherFacts(store: Blocks, delta: nat, b: nat, v: seq<byte>, from: nat)
    requires delta > 0 && b < DENSE_SIZE && from == b * delta
    ensures |Flat(store[BlockKey(b) := v], delta)| == |Flat(store, delta)|
    ensures forall i :: 0 <= i < |Flat(store, delta)| && !(from <= i < from + delta) ==>
              Flat(store[BlockKey(b) := v], delta)[i] == Flat(store, delta)[i]
  {
    hide BlockKey, Flat, Block;
    forall i | 0 <= i < DENSE_SIZE * delta && !(from <= i < from + delta)
      ensures Flat(store[BlockKey(b) := v], delta)[i] == Flat(store, delta)[i]
    {
      OutsideStretch(store, delta, b, v, i);
    }
  }

  lemma OtherBlock(i: nat, b: nat, delta: nat)
    requires delta > 0 && b < DENSE_SIZE && i < DENSE_SIZE * delta && !(b * delta <= i < b * delta + delta)
    ensures i / delta != b
  {
    Divided(i, delta);
  }

  /** Setting one register of one block. */
  lemma FlatUpdated(store: Blocks, delta: nat, i: nat, v: byte)
    requires delta > 0 && i < DENSE_SIZE * delta
    ensures i / delta < DENSE_SIZE
    ensures Flat(store[BlockKey(i / delta) := Block(store, i / delta, delta)[i % delta := v]], delta) ==
              Flat(store, delta)[i := v]
  {
    hide BlockKey, Flat, Block;
    Divided(i, delta);
    var b, j := i / delta, i % delta;
    var block := Block(store, b, delta);
    FlatStretch(store, delta, b, block[j := v]);
    FlatStretch(store, delta, b, block);
    Spliced(Flat(store, delta), b * delta, block, j, v);
  }

  lemma Spliced(flat: Registers, from: nat, block: seq<byte>, j: nat, v: byte)
    requires j < |block| && from + |block| <= |flat| && flat[from..from + |block|] == block
    ensures flat[..from] + block[j := v] + flat[from + |block|..] == flat[from + j := v]
  {
  }

  predicate BlockKeys(store: Blocks) {
    forall k :: k in store ==> |k| == 2 && Value(k) < DENSE_SIZE
  }

  method CopyInto(ret: array<byte>, at: nat, v: seq<byte>)
    requires at + |v| <= ret.Length
    modifies ret
    ensures ret[..] == old(ret[..at]) + v + old(ret[at + |v|..])
  {
    var j := 0;
    while j < |v|
      invariant 0 <= j <= |v|
      invariant forall i :: 0 <= i < ret.Length ==> ret[i] == if at <= i < at + j then v[i - at] else old(ret[i])
    {
      ret[at + j] := v[j];
      j := j + 1;
    }
  }

  function Restricted(store: Blocks, ks: seq<Bytes>): Blocks {
    map k | k in store && k in ks :: store[k]
  }

  /** The callback of List over all blocks of the object, an error when there are as many as the cap. */
  method ListBlocks(store: Blocks, delta: nat, max: nat) returns (ret: array<byte>, limited: bool)
    requires BlockKeys(store) && delta > 0
    ensures limited <==> Capped(|store|, max)
    ensures fresh(ret) && (!limited ==> ret[..] == Flat(store, delta))
  {
    hide *;
    limited := false;
    ret := new byte[DENSE_SIZE * delta](_ => 0);
    var ks, n := Sorted(store.Keys), 0;
    SortedIsEnumeration(store.Keys);
    KeysOnce(ks);
    NothingListed(store, delta, ks, ret[..]);
    NotCappedAtFirst(max);
    while n < |ks|
      invariant 0 <= n <= |ks| && fresh(ret) && !Capped(n, max)
      invariant ret[..] == Flat(Restricted(store, ks[..n]), delta)
    {
      var k := ks[n];
      KeyInStore(store, ks, n);
      var at := Value(k) * delta;
      ListedBlock(store, delta, ks, n, at);
      if |store[k]| == delta {
        CopyInto(ret, at, store[k]);
      }
      n := n + 1;
      if Capped(n, max) {
        CappedToo(n, |ks|, max);
        return ret, true;
      }
    }
    AllListed(store, ks);
  }

  lemma KeysOnce(ks: seq<Bytes>)
    requires Ascending(ks)
    ensures Distinct(ks)
  {
    hide Less;
    StrictTotalOrder();
  }

  lemma NothingListed(store: Blocks, delta: nat, ks: seq<Bytes>, ret: Registers)
    requires delta > 0 && |ret| == DENSE_SIZE * delta && forall i :: 0 <= i < |ret| ==> ret[i] == 0
    ensures ret == Flat(Restricted(store, ks[..0]), delta)
  {
    hide BlockKey;
    forall i | 0 <= i < |ret| ensures Flat(Restricted(store, ks[..0]), delta)[i] == 0 {
      FlatAt(Restricted(store, ks[..0]), delta, i);
    }
  }

  lemma AllListed(store: Blocks, ks: seq<Bytes>)
    requires forall k :: k in ks <==> k in store
    ensures Restricted(store, ks[..|ks|]) == store
  {
    assert ks[..|ks|] == ks;
  }

  lemma KeyInStore(store: Blocks, ks: seq<Bytes>, n: nat)
    requires BlockKeys(store) && n < |ks| && forall k :: k in ks <==> k in store.Keys
    ensures ks[n] in store && |ks[n]| == 2 && Value(ks[n]) < DENSE_SIZE
  {
    assert ks[n] in ks;
  }

  lemma ListedBlock(store: Blocks, delta: nat, ks: seq<Bytes>, n: nat, from: nat)
    requires delta > 0 && n < |ks| && Distinct(ks) && ks[n] in store && |ks[n]| == 2 && Value(ks[n]) < DENSE_SIZE
    requires from == Value(ks[n]) * delta
    ensures var flat, v := Flat(Restricted(store, ks[..n]), delta), store[ks[n]];
            && from + delta <= |flat|
            && Flat(Restricted(store, ks[..n + 1]), delta) ==
               if |v| == delta then flat[..from] + v + flat[from + delta..] else flat
  {
    hide BlockKey, Flat, Value;
    var k, part := ks[n], Restricted(store, ks[..n]);
    KeyOfValue(k);
    RestrictedPush(store, ks, n);
    if |store[k]| == delta {
      FlatStretch(part, delta, Value(k), store[k]);
    } else {
      PlaceIs(Value(k), delta - 1, delta);
      Product(Value(k), delta);
      OddBlock(part, delta, k, store[k]);
    }
  }

  lemma RestrictedPush(store: Blocks, ks: seq<Bytes>, n: nat)
    requires n < |ks| && Distinct(ks) && ks[n] in store
    ensures Restricted(store, ks[..n + 1]) == Restricted(store, ks[..n])[ks[n] := store[ks[n]]]
    ensures ks[n] !in Restricted(store, ks[..n])
  {
    assert ks[..n + 1] == ks[..n] + [ks[n]];
  }

  /** A block of the wrong size changes nothing. */
  lemma OddBlock(part: Blocks, delta: nat, k: Bytes, v: seq<byte>)
    requires delta > 0 && k !in part && |v| != delta
    ensures Flat(part[k := v], delta) == Flat(part, delta)
  {
    hide BlockKey;
    forall i | 0 <= i < DENSE_SIZE * delta ensures Flat(part[k := v], delta)[i] == Flat(part, delta)[i] {
      FlatAt(part, delta, i);
      FlatAt(part[k := v], delta, i);
    }
  }

  /** command/hll.go: registers in blocks, with an array of all of them once they were listed. */
  class Dense {
    var store: Blocks
    const delta: nat
    const max: nat
    var tmp: array?<byte>

    ghost predicate Valid()
      reads this, tmp
    {
      && delta > 0 && BlockKeys(store)
      && (tmp != null ==> tmp[..] == Flat(store, delta))
    }

    ghost function All(): (r: Registers)
      requires Valid()
      reads this, tmp
      ensures |r| == DENSE_SIZE * delta
    {
      Flat(store, delta)
    }

    constructor (m: nat, max: nat, store: Blocks)
      requires m / DENSE_SIZE > 0 && BlockKeys(store)
      ensures Valid() && this.store == store && delta == m / DENSE_SIZE && this.max == max && tmp == null
    {
      this.store, delta, this.max, tmp := store, m / DENSE_SIZE, max, null;
    }

    method CheckAndSet(i: nat, rho: byte) returns (origin: byte, raised: bool)
      requires Valid() && i < DENSE_SIZE * delta
      modifies this, tmp
      ensures Valid() && tmp == old(tmp)
      ensures origin == old(All())[i] && (raised <==> rho > origin)
      ensures All() == Raised(old(All()), i, rho) && (!raised ==> store == old(store))
    {
      hide Flat, Block, BlockKey, Value;
      var index, b := i % delta, i / delta;
      Divided(i, delta);
      FlatAt(store, delta, i);
      FlatUpdated(store, delta, i, rho);
      FlatStretch(store, delta, b, Block(store, b, delta));
      BlockKeyValue(b);
      var bvalue: seq<byte>;
      if tmp == null {
        bvalue := Block(store, b, delta);
      } else {
        bvalue := tmp[..][b * delta..b * delta + delta];
      }
      origin := bvalue[index];
      raised := rho > origin;
      if raised {
        if tmp != null {
          tmp[i] := rho;
        }
        store := store[BlockKey(b) := bvalue[index := rho]];
      }
    }

    method Get(i: nat) returns (rho: byte)
      requires Valid() && i < DENSE_SIZE * delta
      ensures rho == All()[i]
    {
      hide Flat, BlockKey, Value;
      Divided(i, delta);
      FlatAt(store, delta, i);
      FlatStretch(store, delta, i / delta, Block(store, i / delta, delta));
      if tmp == null {
        var bkey := BlockKey(i / delta);
        if bkey !in store || |store[bkey]| != delta {
          return 0;
        }
        rho := store[bkey][i % delta];
      } else {
        var start := i / delta * delta;
        rho := tmp[..][start..start + delta][i % delta];
      }
    }

    /** The cached registers, or a scan for them, which fails at the cap. */
    ghost predicate Listable()
      reads this
    {
      tmp != null || !Capped(|store|, max)
    }

    method List() returns (all: array?<byte>)
      requires Valid()
      modifies this
      ensures Valid() && store == old(store) && All() == old(All())
      ensures all != null <==> old(Listable())
      ensures tmp == all && (all != null ==> all[..] == All() && (all == old(tmp) || fresh(all)))
    {
      hide Flat, BlockKeys, Capped;
      if tmp != null {
        return tmp;
      }
      var ret, limited := ListBlocks(store, delta, max);
      if limited {
        return null;
      }
      all := ret;
      tmp := ret;
    }

    /** Plus.Add with the hash given: both forms of the registers take the same step. */
    method Add(x: nat, p: nat) returns (raised: bool)
      requires Valid() && IsHash(x) && Precision(p) && DENSE_SIZE * delta == Pow2(p)
      modifies this, tmp
      ensures Valid() && tmp == old(tmp) && Index(x, p) < Pow2(p)
      ensures All() == Raised(old(All()), Index(x, p), Rank(x, p))
      ensures raised <==> All() != old(All())
    {
      hide Flat, BlockKeys, Bextr, Pow2, Rho, Valid, IsHash;
      IndexInRange(x, p);
      RhoMeans(x, p);
      var origin;
      origin, raised := CheckAndSet(Index(x, p), Rank(x, p));
    }

    /** The loop of PFADD: replies 1 exactly when some register changed. */
    method PfAdd(xs: seq<nat>, p: nat) returns (ret: int)
      requires Valid() && Hashes(xs) && Precision(p) && DENSE_SIZE * delta == Pow2(p)
      modifies this, tmp
      ensures Valid() && tmp == old(tmp)
      ensures All() == AfterAdds(old(All()), xs, p)
      ensures ret == if All() != old(All()) then 1 else 0
    {
      hide Flat, BlockKeys, Pow2, Valid, IsHash, Rank, Index, Block;
      ret := 0;
      ghost var before := All();
      var i := 0;
      while i < |xs|
        invariant 0 <= i <= |xs| && Valid() && tmp == old(tmp)
        invariant All() == AfterAdds(before, xs[..i], p) && Above(before, All())
        invariant ret == if All() != before then 1 else 0
      {
        assert xs[..i + 1][..i] == xs[..i];
        ghost var now := All();
        var ok := Add(xs[i], p);
        StillAbove(before, now, Index(xs[i], p), Rank(xs[i], p));
        if ok {
          ret := 1;
        }
        i := i + 1;
      }
      assert xs[..i] == xs;
    }

    /**
     * Plus.Merge: every register becomes the larger of the two. A key merged into itself comes as a
     * second sketch with the same registers; it writes nothing, so that both may have one store. When
     * one of the two cannot be listed, no register changes.
     */
    method Merge(other: Dense) returns (ok: bool)
      requires Valid() && other.Valid() && this != other && delta == other.delta && (tmp != null ==> tmp != other.tmp)
      modifies this, tmp, other
      ensures Valid() && other.Valid() && other.All() == old(other.All())
      ensures ok <==> old(Listable()) && old(other.Listable())
      ensures All() == if ok then Merged(old(All()), old(other.All())) else old(All())
      ensures !ok || old(All()) == old(other.All()) ==> store == old(store) && All() == old(All())
    {
      hide Flat, BlockKeys, Capped;
      var l := other.List();
      if l == null {
        return false;
      }
      var mine := List();
      if mine == null {
        return false;
      }
      ok := true;
      ghost var a, b := All(), other.All();
      var i := 0;
      NothingMerged(a, b);
      while i < l.Length
        invariant 0 <= i <= l.Length == |b| && tmp == mine && other.tmp == l && l != mine && (mine == old(tmp) || fresh(mine))
        invariant Valid() && other.Valid() && other.store == old(other.store) && l[..] == b
        invariant All() == MergedTo(a, b, i)
        invariant a == b ==> store == old(store)
      {
        MergedOneMore(a, b, i);
        MergedSame(a, b, i);
        var origin, raised := CheckAndSet(i, l[i]);
        i := i + 1;
      }
      AllMerged(a, b);
      MergedSame(a, b, i);
    }
  }

  ghost predicate Above(a: Registers, b: Registers) {
    |a| == |b| && forall i :: 0 <= i < |a| ==> a[i] <= b[i]
  }

  lemma StillAbove(before: Registers, now: Registers, i: nat, rho: byte)
    requires Above(before, now) && i < |now|
    ensures Above(before, Raised(now, i, rho))
    ensures Raised(now, i, rho) != now ==> Raised(now, i, rho) != before
  {
  }

  function MergedTo(a: Registers, b: Registers, n: nat): (r: Registers)
    requires |a| == |b|
    ensures |r| == |a|
  {
    seq(|a|, i requires 0 <= i < |a| => if i < n then Larger(a[i], b[i]) else a[i])
  }

  lemma NothingMerged(a: Registers, b: Registers)
    requires |a| == |b|
    ensures MergedTo(a, b, 0) == a
  {
  }

  lemma AllMerged(a: Registers, b: Registers)
    requires |a| == |b|
    ensures MergedTo(a, b, |a|) == Merged(a, b)
  {
  }

  lemma MergedSame(a: Registers, b: Registers, n: nat)
    requires |a| == |b|
    ensures a == b ==> MergedTo(a, b, n) == a
  {
  }

  lemma MergedOneMore(a: Registers, b: Registers, i: nat)
    requires i < |a| == |b|
    ensures MergedTo(a, b, i + 1) == Raised(MergedTo(a, b, i), i, b[i])
  {
  }
}
