/**
 * command/lista.go: rank slices and trims of an ordered object by a walk from the left and a walk
 * from the right that stop where they meet.
 */
module Rank {
  import opened Basics
  import opened ByteOrder
  import opened Store

  /** One element of the object: its key, and what a reply shows of it. */
  datatype Element = Element(key: Bytes, member: Bytes, score: Bytes)
  datatype Item = Member(m: Bytes) | Score(s: Bytes)

  ghost predicate Ordered(es: seq<Element>) {
    && (forall i :: 0 <= i < |es| ==> es[i].key != [])
    && (forall i, j :: 0 <= i < j < |es| ==> Less(es[i].key, es[j].key))
  }

  lemma OrderIsIndex(es: seq<Element>, i: nat, j: nat)
    requires Ordered(es) && i < |es| && j < |es|
    ensures Compare(es[i].key, es[j].key) > 0 <==> i > j
    ensures es[i].key == es[j].key <==> i == j
    ensures Compare([], es[j].key) < 0
  {
    CompareEqual(es[i].key, es[j].key);
    if i < j {
      assert Less(es[i].key, es[j].key);
    } else if j < i {
      assert Less(es[j].key, es[i].key);
    }
  }

  // ---------- replies ----------

  function Shown(e: Element, onlyKey: bool): seq<Item> {
    if onlyKey then [Member(e.member)] else [Member(e.member), Score(e.score)]
  }

  /** Items that n elements take up in a reply. */
  function Items(onlyKey: bool, n: nat): nat {
    if onlyKey then n else 2 * n
  }

  function Flat(es: seq<Element>, onlyKey: bool): seq<Item> {
    if es == [] then [] else Flat(es[..|es| - 1], onlyKey) + Shown(es[|es| - 1], onlyKey)
  }

  lemma {:induction false} FlatKeys(es: seq<Element>)
    ensures |Flat(es, true)| == |es|
    ensures forall i :: 0 <= i < |es| ==> Flat(es, true)[i] == Member(es[i].member)
  {
    if es != [] {
      FlatKeys(es[..|es| - 1]);
    }
  }

  lemma {:induction false} FlatPairs(es: seq<Element>)
    ensures |Flat(es, false)| == 2 * |es|
    ensures forall i :: 0 <= i < |es| ==>
              Flat(es, false)[2 * i] == Member(es[i].member) && Flat(es, false)[2 * i + 1] == Score(es[i].score)
  {
    if es != [] {
      FlatPairs(es[..|es| - 1]);
    }
  }

  lemma FlatLength(es: seq<Element>, onlyKey: bool)
    ensures |Flat(es, onlyKey)| == Items(onlyKey, |es|)
  {
    if onlyKey { FlatKeys(es); } else { FlatPairs(es); }
  }

  lemma FlatSlice(es: seq<Element>, onlyKey: bool, a: nat, b: nat)
    requires a <= b <= |es|
    ensures |Flat(es, onlyKey)| == Items(onlyKey, |es|)
    ensures Flat(es, onlyKey)[Items(onlyKey, a)..Items(onlyKey, b)] == Flat(es[a..b], onlyKey)
  {
    FlatLength(es, onlyKey);
    FlatLength(es[..a], onlyKey);
    FlatLength(es[a..b], onlyKey);
    FlatAppend(es[..a], es[a..b], onlyKey);
    FlatAppend(es[..b], es[b..], onlyKey);
    assert es == es[..b] + es[b..] && es[..b] == es[..a] + es[a..b];
  }

  lemma {:induction false} FlatAppend(a: seq<Element>, b: seq<Element>, onlyKey: bool)
    ensures Flat(a + b, onlyKey) == Flat(a, onlyKey) + Flat(b, onlyKey)
  {
    if b == [] {
      assert a + b == a;
    } else {
      var n := |b| - 1;
      FlatAppend(a, b[..n], onlyKey);
      assert (a + b)[..|a| + n] == a + b[..n];
      var x, y, z := Flat(a, onlyKey), Flat(b[..n], onlyKey), Shown(b[n], onlyKey);
      hide Shown;
      assert (x + y) + z == x + (y + z);
    }
  }

  // ---------- utils/sort.go ----------

  method Reverse(s: array<Item>)
    modifies s
    ensures s[..] == Reversed(old(s[..]))
  {
    var i, j := 0, s.Length - 1;
    while i < j
      invariant 0 <= i <= j + 1 && i + j == s.Length - 1
      invariant forall k :: 0 <= k < i || j < k < s.Length ==> s[k] == old(s[s.Length - 1 - k])
      invariant forall k :: i <= k <= j ==> s[k] == old(s[k])
    {
      s[i], s[j] := s[j], s[i];
      i, j := i + 1, j - 1;
    }
  }

  /** The place the item at k changes with. */
  function PairMirror(n: nat, k: nat): (m: nat)
    requires n % 2 == 0 && k < n
    ensures m < n
  {
    if k % 2 == 0 then n - 2 - k else n - k
  }

  lemma PairMirrors(n: nat, i: nat, j: nat)
    requires n % 2 == 0 && i % 2 == 0 && i + j == n - 2
    ensures PairMirror(n, i) == j && PairMirror(n, i + 1) == j + 1
    ensures PairMirror(n, j) == i && PairMirror(n, j + 1) == i + 1
  {
  }

  ghost predicate PairsReversed(a: seq<Item>, b: seq<Item>) {
    |a| == |b| && |a| % 2 == 0 && forall k :: 0 <= k < |a| ==> a[k] == b[PairMirror(|a|, k)]
  }

  /** Pairs change places, the two items of a pair stay in order. */
  method ReversePair(s: array<Item>, pair: bool)
    requires pair ==> s.Length % 2 == 0
    modifies s
    ensures !pair ==> s[..] == Reversed(old(s[..]))
    ensures pair ==> PairsReversed(s[..], old(s[..]))
  {
    if !pair {
      Reverse(s);
    } else {
      ReversePairs(s);
    }
  }

  method ReversePairs(s: array<Item>)
    requires s.Length % 2 == 0
    modifies s
    ensures PairsReversed(s[..], old(s[..]))
  {
    hide *;
    var i, j := 0, s.Length - 2;
    ghost var b := s[..];
    PairsStart(b);
    while i < j
      invariant 0 <= i <= j + 2 && i + j == s.Length - 2 && i % 2 == 0
      invariant PairsDone(s[..], b, i, j)
    {
      PairsStep(s[..], b, i, j);
      Swap(s, i, j);
      Swap(s, i + 1, j + 1);
      i, j := i + 2, j - 2;
    }
    PairsEnd(s[..], b, i, j);
  }

  method Swap(s: array<Item>, i: nat, j: nat)
    requires i < s.Length && j < s.Length
    modifies s
    ensures s[..] == Swapped(old(s[..]), i, j)
  {
    s[i], s[j] := s[j], s[i];
  }

  function Swapped(a: seq<Item>, i: nat, j: nat): seq<Item>
    requires i < |a| && j < |a|
  {
    a[i := a[j]][j := a[i]]
  }

  lemma PairsStart(b: seq<Item>)
    requires |b| % 2 == 0
    ensures PairsDone(b, b, 0, |b| - 2)
  {
  }

  /** ReversePair outside the window from i to j + 1 is done, inside it has not begun. */
  ghost predicate PairsDone(a: seq<Item>, b: seq<Item>, i: int, j: int) {
    && |a| == |b| && |a| % 2 == 0
    && (forall k :: 0 <= k < |a| && (k < i || j + 1 < k) ==> a[k] == b[PairMirror(|a|, k)])
    && (forall k :: 0 <= k < |a| && i <= k <= j + 1 ==> a[k] == b[k])
  }

  lemma PairsStep(a: seq<Item>, b: seq<Item>, i: nat, j: nat)
    requires PairsDone(a, b, i, j) && i < j && i + j == |a| - 2 && i % 2 == 0
    ensures |Swapped(a, i, j)| == |a|
    ensures PairsDone(Swapped(Swapped(a, i, j), i + 1, j + 1), b, i + 2, j - 2)
  {
    PairMirrors(|a|, i, j);
    assert i + 1 < j;
    hide PairMirror;
  }

  lemma PairsEnd(a: seq<Item>, b: seq<Item>, i: nat, j: int)
    requires PairsDone(a, b, i, j) && j <= i <= j + 2 && i + j == |a| - 2 && i % 2 == 0
    ensures PairsReversed(a, b)
  {
    if i == j { PairMirrors(|a|, i, j); }
    forall k | 0 <= k < |a|
      ensures a[k] == b[PairMirror(|a|, k)]
    {
      hide PairMirror;
      if i <= k <= j + 1 {
        assert i == j && (k == i || k == i + 1);
      }
    }
  }

  /** ReversePair on a reply slice puts its elements in the opposite order. */
  method ReverseItems(items: seq<Item>, onlyKey: bool, ghost es: seq<Element>) returns (r: seq<Item>)
    requires items == Flat(es, onlyKey)
    ensures r == Flat(Reversed(es), onlyKey)
  {
    FlatLength(es, onlyKey);
    var a := new Item[|items|](i requires 0 <= i < |items| => items[i]);
    assert a[..] == items;
    ReversePair(a, !onlyKey);
    r := a[..];
    if onlyKey {
      ReversedKeys(es);
    } else {
      ReversedPairs(es, r);
    }
  }

  lemma ReversedKeys(es: seq<Element>)
    ensures Reversed(Flat(es, true)) == Flat(Reversed(es), true)
  {
    FlatKeys(es);
    FlatKeys(Reversed(es));
  }

  lemma ReversedPairs(es: seq<Element>, r: seq<Item>)
    requires PairsReversed(r, Flat(es, false))
    ensures r == Flat(Reversed(es), false)
  {
    FlatPairs(es);
    FlatPairs(Reversed(es));
    var all, want, n := Flat(es, false), Flat(Reversed(es), false), |es|;
    hide Flat;
    forall k | 0 <= k < |want|
      ensures r[k] == want[k]
    {
      var i := k / 2;
      assert Reversed(es)[i] == es[n - 1 - i];
      assert want[2 * i] == Member(es[n - 1 - i].member) && want[2 * i + 1] == Score(es[n - 1 - i].score);
      assert all[2 * (n - 1 - i)] == Member(es[n - 1 - i].member);
      assert all[2 * (n - 1 - i) + 1] == Score(es[n - 1 - i].score);
    }
  }

  // ---------- the two-ended walk ----------

  /** store.LeftRight: two iterators over the keys of one object; None once dropped. */
  class LeftRight {
    const size: nat
    var left: Option<nat>
    var right: Option<nat>

    constructor (size: nat, useLeft: bool, useRight: bool)
      ensures this.size == size
      ensures left == (if useLeft then Some(0) else None) && right == (if useRight then Some(0) else None)
    {
      this.size := size;
      left, right := if useLeft then Some(0) else None, if useRight then Some(0) else None;
    }

    /** The indexes read from the left and from the right; leaving the object drops an iterator. */
    method Next() returns (l: Option<nat>, r: Option<nat>)
      modifies this
      ensures var has := old(left).Some? && old(left).value < size;
              l == (if has then old(left) else None) && left == (if has then Some(old(left).value + 1) else None)
      ensures var has := old(right).Some? && old(right).value < size;
              && r == (if has then Some(size - 1 - old(right).value) else None)
              && right == (if has then Some(old(right).value + 1) else None)
    {
      l, r := None, None;
      if left.Some? {
        if left.value >= size {
          left := None;
        } else {
          l, left := left, Some(left.value + 1);
        }
      }
      if right.Some? {
        if right.value >= size {
          right := None;
        } else {
          r, right := Some(size - 1 - right.value), Some(right.value + 1);
        }
      }
    }
  }

  /** Which indexes each side collects; an unbounded side runs to MAX_INT64. */
  datatype Bounds = Bounds(leftStart: int, leftEnd: int, rightStart: int, rightEnd: int)

  /** A rank as the source folds it: negative ranks count from the right. */
  function Fold(i: int): int {
    if i < 0 then -i - 1 else i
  }

  function WalkBounds(start: int, end: int): Bounds {
    Bounds(if start < 0 then 0 else start, if end < 0 then MAX_INT64 else end,
           if end < 0 then Fold(end) else 0, if start < 0 then Fold(start) else MAX_INT64)
  }

  /** The stretch of the first n elements from the left that a side with these bounds collects. */
  function Window<T>(s: seq<T>, n: nat, lo: int, hi: int): seq<T>
    requires n <= |s|
  {
    var a := if lo < 0 then 0 else if lo > n then n else lo;
    var b := if hi + 1 > n then n else if hi + 1 < a then a else hi + 1;
    if a <= b then s[a..b] else []
  }

  lemma WindowStep<T>(s: seq<T>, n: nat, lo: int, hi: int)
    requires n < |s| && 0 <= lo
    ensures Window(s, n + 1, lo, hi) == Window(s, n, lo, hi) + if lo <= n <= hi then [s[n]] else []
  {
  }

  /** The running walk: what each side has consumed and whether it still moves. */
  ghost predicate Walking(n: nat, useLeft: bool, useRight: bool, b: Bounds, l: nat, r: nat, goLeft: bool, goRight: bool) {
    && l <= n && r <= n && l <= b.leftEnd + 1 && r <= b.rightEnd + 1
    && (!useLeft ==> l == 0 && !goLeft) && (!useRight ==> r == 0 && !goRight)
    && (useLeft && !goLeft ==> l == b.leftEnd + 1 || l == n) && (useRight && !goRight ==> r == b.rightEnd + 1 || r == n)
    && (goLeft ==> l <= b.leftEnd) && (goRight ==> r <= b.rightEnd)
    && (useLeft && useRight ==>
          && l + r <= n
          && (goLeft && goRight ==> l == r) && (goLeft && !goRight ==> r <= l) && (!goLeft && goRight ==> l <= r))
  }

  /** Where a walk ends: each side has all it wants, or the sides have met. */
  ghost predicate WalkEnd(n: nat, useLeft: bool, useRight: bool, b: Bounds, l: nat, r: nat, meet: bool) {
    && l <= n && r <= n && l <= b.leftEnd + 1 && r <= b.rightEnd + 1
    && (!useLeft ==> l == 0) && (!useRight ==> r == 0)
    && (!meet ==>
          && (useLeft && useRight ==> l + r <= n)
          && (useLeft ==> l == b.leftEnd + 1 || l == n) && (useRight ==> r == b.rightEnd + 1 || r == n))
    && (meet ==>
          && useLeft && useRight
          // between two elements or on one that the left side takes, or on the last one of a right side that has all
          && (|| (l + r == n && r <= b.rightEnd && (r <= l <= r + 1 || (l == b.leftEnd + 1 && l <= r)))
              || (l + r == n + 1 && r == b.rightEnd + 1 && r < l)))
  }

  /** Neither side has anything to read: the walk is over. */
  lemma RoundStops(n: nat, useLeft: bool, useRight: bool, b: Bounds, l: nat, r: nat, goLeft: bool, goRight: bool)
    requires Walking(n, useLeft, useRight, b, l, r, goLeft, goRight)
    requires !(goLeft && l < n) && !(goRight && r < n)
    ensures WalkEnd(n, useLeft, useRight, b, l, r, false)
  {
  }

  /** The keys compared have crossed, or are one key that then counts for the left. */
  lemma RoundMeets(n: nat, useLeft: bool, useRight: bool, b: Bounds, l: nat, r: nat, goLeft: bool, goRight: bool,
                   readL: bool, readR: bool, same: bool, l': nat)
    requires Walking(n, useLeft, useRight, b, l, r, goLeft, goRight)
    requires readL == (goLeft && l < n) && readR == (goRight && r < n)
    requires (readL || readR) && (readR || r > 0)
    requires var i, j := if readL then l else l - 1, if readR then n - 1 - r else n - r;
             if same then i == j else i > j
    requires l' == if same && readL then l + 1 else l
    ensures WalkEnd(n, useLeft, useRight, b, l', r, true)
  {
  }

  /** Otherwise both sides consume what they read and stop when they have all they want. */
  lemma RoundGoesOn(n: nat, useLeft: bool, useRight: bool, b: Bounds, l: nat, r: nat, goLeft: bool, goRight: bool,
                    readL: bool, readR: bool, l': nat, r': nat, goLeft': bool, goRight': bool)
    requires Walking(n, useLeft, useRight, b, l, r, goLeft, goRight)
    requires readL == (goLeft && l < n) && readR == (goRight && r < n)
    requires readL || readR
    requires readR || r > 0 ==> (if readL then l else l - 1) < (if readR then n - 1 - r else n - r)
    requires l' == (if readL then l + 1 else l) && r' == (if readR then r + 1 else r)
    requires goLeft' == (readL && l' <= b.leftEnd) && goRight' == (readR && r' <= b.rightEnd)
    ensures Walking(n, useLeft, useRight, b, l', r', goLeft', goRight')
  {
  }

  /** One side of the walk: its counter, how many elements it has collected, and their items. */
  datatype Side = Side(c: int, count: nat, items: seq<Item>)

  ghost predicate Gathered(side: Side, es: seq<Element>, onlyKey: bool, lo: int, hi: int) {
    && -1 <= side.c < |es|
    && var w := Window(es, side.c + 1, lo, hi);
       side.count == |w| && side.items == Flat(w, onlyKey)
  }

  /** Counts an element and collects it if it lies between the side's bounds. */
  method Take(side0: Side, e: Element, onlyKey: bool, lo: int, hi: int, ghost es: seq<Element>) returns (side: Side)
    requires Gathered(side0, es, onlyKey, lo, hi) && 0 <= lo
    requires side0.c + 1 < |es| && es[side0.c + 1] == e
    ensures Gathered(side, es, onlyKey, lo, hi) && side.c == side0.c + 1
  {
    hide *;
    GatheredStep(side0, es, onlyKey, lo, hi);
    side := side0.(c := side0.c + 1);
    if lo <= side.c <= hi {
      side := side.(count := side.count + 1, items := side.items + Shown(e, onlyKey));
    }
  }

  lemma GatheredStep(side: Side, es: seq<Element>, onlyKey: bool, lo: int, hi: int)
    requires Gathered(side, es, onlyKey, lo, hi) && 0 <= lo && side.c + 1 < |es|
    ensures var c := side.c + 1;
            Gathered(if lo <= c <= hi then Side(c, side.count + 1, side.items + Shown(es[c], onlyKey))
                     else side.(c := c), es, onlyKey, lo, hi)
  {
    var c := side.c + 1;
    WindowStep(es, c, lo, hi);
    var w := Window(es, c, lo, hi);
    assert lo <= c <= hi ==> (w + [es[c]])[..|w|] == w;
  }

  lemma NothingGathered(es: seq<Element>, onlyKey: bool, lo: int, hi: int)
    requires 0 <= lo
    ensures Gathered(Side(-1, 0, []), es, onlyKey, lo, hi)
  {
  }

  /** What the loop of rangeRank hands to the slicing that follows it. */
  datatype Walk = Walk(left: Side, right: Side, meet: bool)

  lemma WalkStarts(n: nat, useLeft: bool, useRight: bool, b: Bounds)
    requires 0 <= b.leftEnd && 0 <= b.rightEnd
    ensures Walking(n, useLeft, useRight, b, 0, 0, useLeft, useRight)
  {
  }

  lemma ReversedAt<T>(s: seq<T>, i: nat)
    requires i < |s|
    ensures |Reversed(s)| == |s| && Reversed(s)[i] == s[|s| - 1 - i]
  {
  }

  datatype Verdict = Apart | Crossed | Same

  /** Compares the key read, or last read, on the left with the one on the right. */
  method CompareEnds(es: seq<Element>, l: Option<nat>, r: Option<nat>, leftC: int, rightC: int) returns (v: Verdict)
    requires Ordered(es) && -1 <= leftC < |es| && -1 <= rightC < |es|
    requires (l.Some? ==> l.value < |es|) && (r.Some? ==> r.value < |es|)
    ensures var i, j := if l.Some? then l.value else leftC, if r.Some? then r.value else |es| - 1 - rightC;
            v == if r.None? && rightC < 0 then Apart else if i > j then Crossed else if i == j then Same else Apart
  {
    var lastLeft := if leftC < 0 then [] else es[leftC].key;
    var lastRight := if rightC < 0 then None else Some(es[|es| - 1 - rightC].key);
    var checkLeft := if l.Some? then es[l.value].key else lastLeft;
    var checkRight := if r.Some? then Some(es[r.value].key) else lastRight;
    if checkRight.None? {
      return Apart;
    }
    var i, j := if l.Some? then l.value else leftC, if r.Some? then r.value else |es| - 1 - rightC;
    OrderIsIndex(es, if i >= 0 then i else j, j);
    hide Ordered;
    v := if Compare(checkLeft, checkRight.value) > 0 then Crossed
         else if checkLeft == checkRight.value then Same else Apart;
  }

  datatype Round = Over(meet: bool) | Next(dropLeft: bool, dropRight: bool)

  /** One round of the loop of rangeRank on what was read from the two iterators. */
  method WalkRound(es: seq<Element>, onlyKey: bool, b: Bounds, left0: Side, right0: Side, l: Option<nat>, r: Option<nat>,
                   ghost useLeft: bool, ghost useRight: bool, ghost goLeft: bool, ghost goRight: bool)
    returns (left: Side, right: Side, next: Round)
    requires Ordered(es) && 0 <= b.leftStart && 0 <= b.rightStart
    requires Gathered(left0, es, onlyKey, b.leftStart, b.leftEnd)
    requires Gathered(right0, Reversed(es), onlyKey, b.rightStart, b.rightEnd)
    requires Walking(|es|, useLeft, useRight, b, left0.c + 1, right0.c + 1, goLeft, goRight)
    requires l == if goLeft && left0.c + 1 < |es| then Some(left0.c + 1) else None
    requires r == if goRight && right0.c + 1 < |es| then Some(|es| - 2 - right0.c) else None
    ensures Gathered(left, es, onlyKey, b.leftStart, b.leftEnd)
    ensures Gathered(right, Reversed(es), onlyKey, b.rightStart, b.rightEnd)
    ensures next.Over? ==> WalkEnd(|es|, useLeft, useRight, b, left.c + 1, right.c + 1, next.meet)
    ensures next.Next? ==>
              && (l.Some? || r.Some?)
              && left.c == (if l.Some? then left0.c + 1 else left0.c)
              && right.c == (if r.Some? then right0.c + 1 else right0.c)
              && Walking(|es|, useLeft, useRight, b, left.c + 1, right.c + 1,
                         l.Some? && !next.dropLeft, r.Some? && !next.dropRight)
  {
    hide *;
    ghost var n := |es|;
    GatheredRange(left0, es, onlyKey, b.leftStart, b.leftEnd);
    ReversedLength(es);
    GatheredRange(right0, Reversed(es), onlyKey, b.rightStart, b.rightEnd);
    left, right := left0, right0;
    if l.None? && r.None? {
      RoundStops(n, useLeft, useRight, b, left.c + 1, right.c + 1, goLeft, goRight);
      return left, right, Over(false);
    }
    var v := CompareEnds(es, l, r, left.c, right.c);
    if !v.Apart? {
      // an equal right key is dropped with both iterators: the next round ends the loop
      if v.Same? && l.Some? {
        left := Take(left, es[l.value], onlyKey, b.leftStart, b.leftEnd, es);
      }
      RoundMeets(n, useLeft, useRight, b, left0.c + 1, right.c + 1, goLeft, goRight,
                 l.Some?, r.Some?, v.Same?, left.c + 1);
      return left, right, Over(true);
    }
    if l.Some? {
      left := Take(left, es[l.value], onlyKey, b.leftStart, b.leftEnd, es);
    }
    if r.Some? {
      ReversedAt(es, right.c + 1);
      right := Take(right, es[r.value], onlyKey, b.rightStart, b.rightEnd, Reversed(es));
    }
    next := Next(left.c >= b.leftEnd, right.c >= b.rightEnd);
    RoundGoesOn(n, useLeft, useRight, b, left0.c + 1, right0.c + 1, goLeft, goRight, l.Some?, r.Some?,
                left.c + 1, right.c + 1, l.Some? && !next.dropLeft, r.Some? && !next.dropRight);
  }

  lemma GatheredRange(side: Side, es: seq<Element>, onlyKey: bool, lo: int, hi: int)
    requires Gathered(side, es, onlyKey, lo, hi)
    ensures -1 <= side.c < |es|
  {
  }

  /** The loop of rangeRank. */
  method RunWalk(es: seq<Element>, onlyKey: bool, useLeft: bool, useRight: bool, b: Bounds) returns (w: Walk)
    requires Ordered(es)
    requires 0 <= b.leftStart && 0 <= b.leftEnd && 0 <= b.rightStart && 0 <= b.rightEnd
    ensures Gathered(w.left, es, onlyKey, b.leftStart, b.leftEnd)
    ensures Gathered(w.right, Reversed(es), onlyKey, b.rightStart, b.rightEnd)
    ensures WalkEnd(|es|, useLeft, useRight, b, w.left.c + 1, w.right.c + 1, w.meet)
  {
    hide *;
    var n := |es|;
    WalkStarts(n, useLeft, useRight, b);
    NothingGathered(es, onlyKey, b.leftStart, b.leftEnd);
    NothingGathered(Reversed(es), onlyKey, b.rightStart, b.rightEnd);
    var lr := new LeftRight(n, useLeft, useRight);
    var left, right := Side(-1, 0, []), Side(-1, 0, []);
    while true
      invariant fresh(lr) && lr.size == n
      invariant -1 <= left.c < n && -1 <= right.c < n
      invariant lr.left.Some? ==> lr.left.value == left.c + 1
      invariant lr.right.Some? ==> lr.right.value == right.c + 1
      invariant Gathered(left, es, onlyKey, b.leftStart, b.leftEnd)
      invariant Gathered(right, Reversed(es), onlyKey, b.rightStart, b.rightEnd)
      invariant Walking(n, useLeft, useRight, b, left.c + 1, right.c + 1, lr.left.Some?, lr.right.Some?)
      decreases 2 * n - left.c - right.c
    {
      ghost var goLeft, goRight := lr.left.Some?, lr.right.Some?;
      var l, r := lr.Next();
      var next;
      left, right, next := WalkRound(es, onlyKey, b, left, right, l, r, useLeft, useRight, goLeft, goRight);
      if next.Over? {
        return Walk(left, right, next.meet);
      }
      if next.dropLeft {
        lr.left := None;
      }
      if next.dropRight {
        lr.right := None;
      }
    }
  }

  // ---------- rangeRank ----------

  /** The elements of rank start to end, both included; negative ranks count from the right. */
  function RankSlice(es: seq<Element>, start: int, end: int): seq<Element> {
    var lo := if start < 0 then |es| + start else start;
    var hi := if end < 0 then |es| + end else end;
    var a := if lo < 0 then 0 else lo;
    var b := if hi >= |es| then |es| else hi + 1;
    if a < b then es[a..b] else []
  }

  predicate InSlice(n: nat, start: int, end: int, i: nat) {
    (if start < 0 then n + start else start) <= i <= (if end < 0 then n + end else end)
  }

  /** The slice is the stretch of exactly the places asked for. */
  lemma SliceHolds(es: seq<Element>, start: int, end: int) returns (from: nat)
    ensures var r := RankSlice(es, start, end);
            && from + |r| <= |es| && r == es[from..from + |r|]
            && forall i :: 0 <= i < |es| ==> (from <= i < from + |r| <==> InSlice(|es|, start, end, i))
  {
    var lo := if start < 0 then |es| + start else start;
    from := if RankSlice(es, start, end) == [] || lo < 0 then 0 else lo;
  }

  /** A start past the middle with a negative end: the source cuts the wrong side. */
  predicate Late(n: nat, start: int, end: int) {
    start >= 0 && end < 0 && start > (n + 1) / 2 && start <= n + end
  }

  /** A start near the right with a non-negative end inside the list: the last element is missed. */
  predicate Short(n: nat, start: int, end: int) {
    start < 0 && end >= 0 && 2 * Fold(start) < n - 1 && n + start < end <= n - 1
  }

  /** What rangeRank returns. */
  function RankResult(es: seq<Element>, start: int, end: int): seq<Element> {
    var n := |es|;
    if Late(n, start, end) then
      var from := (n + 1) / 2;
      es[from..from + (n + end + 1 - start)]
    else if Short(n, start, end) then es[n + start..end]
    else RankSlice(es, start, end)
  }

  /** It is the slice exactly outside the two exceptions. */
  lemma RankResultIsSlice(es: seq<Element>, start: int, end: int)
    requires Ordered(es)
    ensures RankResult(es, start, end) == RankSlice(es, start, end) <==>
              !Late(|es|, start, end) && !Short(|es|, start, end)
  {
    var n := |es|;
    if Late(n, start, end) {
      OrderIsIndex(es, start, (n + 1) / 2);
      assert RankResult(es, start, end)[0] != RankSlice(es, start, end)[0];
    } else if Short(n, start, end) {
      assert |RankResult(es, start, end)| != |RankSlice(es, start, end)|;
    }
  }

  ghost function LeftOf(es: seq<Element>, w: Walk, b: Bounds): seq<Element>
    requires -1 <= w.left.c < |es|
  {
    Window(es, w.left.c + 1, b.leftStart, b.leftEnd)
  }

  ghost function RightOf(es: seq<Element>, w: Walk, b: Bounds): seq<Element>
    requires -1 <= w.right.c < |es|
  {
    Window(Reversed(es), w.right.c + 1, b.rightStart, b.rightEnd)
  }

  ghost predicate Walked(es: seq<Element>, onlyKey: bool, start: int, end: int, w: Walk) {
    && |es| < MAX_INT64 && IsInt64(start) && IsInt64(end)
    && var b := WalkBounds(start, end);
       && -1 <= w.left.c < |es| && -1 <= w.right.c < |es|
       && w.left.count == |LeftOf(es, w, b)| && w.left.items == Flat(LeftOf(es, w, b), onlyKey)
       && w.right.count == |RightOf(es, w, b)| && w.right.items == Flat(RightOf(es, w, b), onlyKey)
       && WalkEnd(|es|, start >= 0 || end >= 0, start < 0 || end < 0, b, w.left.c + 1, w.right.c + 1, w.meet)
  }

  /** Both ranks from the left: the left side has collected the slice. */
  lemma LeftOnly(es: seq<Element>, onlyKey: bool, start: int, end: int, w: Walk)
    requires Walked(es, onlyKey, start, end, w) && 0 <= start <= end
    ensures LeftOf(es, w, WalkBounds(start, end)) == RankResult(es, start, end)
  {
  }

  /** Both from the right: the right side has, backwards. */
  lemma RightOnly(es: seq<Element>, onlyKey: bool, start: int, end: int, w: Walk)
    requires Walked(es, onlyKey, start, end, w) && start <= end < 0
    ensures Reversed(RightOf(es, w, WalkBounds(start, end))) == RankResult(es, start, end)
  {
    hide Reversed;
    var b := WalkBounds(start, end);
    var a := if |es| < b.rightStart then |es| else b.rightStart;
    var z := if |es| < b.rightEnd + 1 then |es| else b.rightEnd + 1;
    MirrorSlice(es, a, z);
  }

  lemma MirrorSlice<T>(s: seq<T>, a: nat, b: nat)
    requires a <= b <= |s|
    ensures |Reversed(s)| == |s| && Reversed(Reversed(s)[a..b]) == s[|s| - b..|s| - a]
  {
  }

  lemma MiddleMet(n: nat, start: int, end: int, w: Walk)
    requires start >= 0 && end < 0 && n < MAX_INT64
    requires -1 <= w.left.c < n && -1 <= w.right.c < n
    requires WalkEnd(n, true, true, WalkBounds(start, end), w.left.c + 1, w.right.c + 1, w.meet)
    ensures w.left.c + 1 == (n + 1) / 2 && w.right.c + 1 == n / 2
  {
  }

  /** What the two sides of an inward walk hold. */
  lemma InwardSides(es: seq<Element>, onlyKey: bool, start: int, end: int, w: Walk)
    requires Walked(es, onlyKey, start, end, w) && start >= 0 && end < 0
    ensures var b, l, r := WalkBounds(start, end), (|es| + 1) / 2, |es| / 2;
            && b.leftStart == start && b.rightStart == -end - 1
            && w.left.c + 1 == l && w.right.c + 1 == r && l + r == |es| == |Reversed(es)|
            && LeftOf(es, w, b) == (if start < l then es[start..l] else [])
            && RightOf(es, w, b) == (if -end - 1 < r then Reversed(es)[-end - 1..r] else [])
  {
    MiddleMet(|es|, start, end, w);
  }

  /** From the left to the right: the walk has met in the middle. */
  lemma Inward(es: seq<Element>, onlyKey: bool, start: int, end: int, w: Walk)
    requires Walked(es, onlyKey, start, end, w) && start >= 0 && end < 0
    ensures var b := WalkBounds(start, end);
            var left, right, out := LeftOf(es, w, b), RightOf(es, w, b), RankResult(es, start, end);
            if w.right.c < b.rightStart && w.left.c < b.leftStart then out == []
            else if w.right.c < b.rightStart then
              var d := b.rightStart - w.right.c;
              if d > |left| then out == [] else d > 0 && out == left[..|left| - d + 1]
            else if w.left.c < b.leftStart then
              var d := b.leftStart - w.left.c;
              if d > |right| then out == [] else d > 0 && out == Reversed(right[d - 1..])
            else out == left + Reversed(right)
  {
    hide *;
    InwardSides(es, onlyKey, start, end, w);
    var b := WalkBounds(start, end);
    InwardResult(es, start, end, LeftOf(es, w, b), RightOf(es, w, b), (|es| + 1) / 2, |es| / 2);
  }

  lemma InwardResult(es: seq<Element>, start: int, end: int, left: seq<Element>, right: seq<Element>, l: nat, r: nat)
    requires start >= 0 && end < 0 && l == (|es| + 1) / 2 && r == |es| / 2 && |Reversed(es)| == |es|
    requires left == (if start < l then es[start..l] else [])
    requires right == (if -end - 1 < r then Reversed(es)[-end - 1..r] else [])
    ensures var out, b := RankResult(es, start, end), -end - 1;
            if r - 1 < b && l - 1 < start then out == []
            else if r - 1 < b then
              var d := b - (r - 1);
              if d > |left| then out == [] else d > 0 && out == left[..|left| - d + 1]
            else if l - 1 < start then
              var d := start - (l - 1);
              if d > |right| then out == [] else d > 0 && out == Reversed(right[d - 1..])
            else out == left + Reversed(right)
  {
    hide Reversed, RankResult;
    var e := -end - 1;
    if r <= e && start < l {
      InwardLeft(es, start, end, left, l, r);
    } else if e < r && l <= start {
      InwardRight(es, start, end, right, l, r);
    } else if e < r {
      InwardBoth(es, start, end, left, right, l, r);
    } else {
      InwardNothing(es, start, end, l, r);
    }
  }

  lemma InwardNothing(es: seq<Element>, start: int, end: int, l: nat, r: nat)
    requires l <= start && end < 0 && r <= -end - 1 && l == (|es| + 1) / 2 && r == |es| / 2
    ensures RankResult(es, start, end) == []
  {
  }

  lemma InwardBoth(es: seq<Element>, start: int, end: int, left: seq<Element>, right: seq<Element>, l: nat, r: nat)
    requires 0 <= start < l && end < 0 && -end - 1 < r && l == (|es| + 1) / 2 && r == |es| / 2 && |Reversed(es)| == |es|
    requires left == es[start..l] && right == Reversed(es)[-end - 1..r]
    ensures RankResult(es, start, end) == left + Reversed(right)
  {
    hide Reversed, RankResult;
    var e := -end - 1;
    MirrorSlice(es, e, r);
    EarlyResult(es, start, end, l, |es| - e);
    Joined(es, start, l, |es| - e);
  }

  lemma EarlyResult(es: seq<Element>, start: int, end: int, l: nat, to: nat)
    requires 0 <= start < l && end < 0 && l == (|es| + 1) / 2 && to == |es| + end + 1 && start < to
    ensures RankResult(es, start, end) == es[start..to]
  {
  }

  lemma Joined(es: seq<Element>, a: nat, b: nat, c: nat)
    requires a <= b <= c <= |es|
    ensures es[a..b] + es[b..c] == es[a..c]
  {
  }

  lemma InwardLeft(es: seq<Element>, start: int, end: int, left: seq<Element>, l: nat, r: nat)
    requires 0 <= start < l && r <= -end - 1 && l == (|es| + 1) / 2 && r == |es| / 2
    requires left == es[start..l]
    ensures var out, d := RankResult(es, start, end), -end - r;
            d > 0 && if d > |left| then out == [] else out == left[..|left| - d + 1]
  {
    var d := -end - r;
    if d <= l - start {
      assert es[start..l][..l - start - d + 1] == es[start..|es| + end + 1];
    }
  }

  lemma InwardRight(es: seq<Element>, start: int, end: int, right: seq<Element>, l: nat, r: nat)
    requires l <= start && -end - 1 < r && end < 0 && l == (|es| + 1) / 2 && r == |es| / 2 && |Reversed(es)| == |es|
    requires right == Reversed(es)[-end - 1..r]
    ensures var out, d := RankResult(es, start, end), start - l + 1;
            d > 0 && if d > |right| then out == [] else out == Reversed(right[d - 1..])
  {
    hide Reversed, RankResult;
    var n, e, d := |es|, -end - 1, start - l + 1;
    LateResult(es, start, end, l, r);
    if d <= r - e {
      assert right[d - 1..] == Reversed(es)[e + d - 1..r];
      MirrorSlice(es, e + d - 1, r);
    }
  }

  lemma LateResult(es: seq<Element>, start: int, end: int, l: nat, r: nat)
    requires l <= start && -end - 1 < r && end < 0 && l == (|es| + 1) / 2 && r == |es| / 2
    ensures RankResult(es, start, end) == if start > |es| + end then [] else es[l..|es| + end + 1 - (start - l)]
  {
  }

  /** What the two sides of an outward walk hold. */
  lemma OutwardSides(es: seq<Element>, onlyKey: bool, start: int, end: int, w: Walk)
    requires Walked(es, onlyKey, start, end, w) && start < 0 && end >= 0
    ensures var b, l, r, a := WalkBounds(start, end), w.left.c + 1, w.right.c + 1, -start - 1;
            && b.leftEnd == end && b.rightEnd == a && 0 <= l <= |es| && 0 <= r <= |es| == |Reversed(es)|
            && l <= end + 1 && r <= a + 1
            && LeftOf(es, w, b) == es[..l] && RightOf(es, w, b) == Reversed(es)[..r]
            && (!w.meet ==> l + r <= |es| && (l == end + 1 || l == |es|) && (r == a + 1 || r == |es|))
            && (w.meet ==> (l + r == |es| && r <= a && (r <= l <= r + 1 || (l == end + 1 && l <= r)))
                           || (l + r == |es| + 1 && r == a + 1 && r < l))
  {
  }

  /** From the right to the left: each side stops after its rank or where they meet. */
  lemma Outward(es: seq<Element>, onlyKey: bool, start: int, end: int, w: Walk)
    requires Walked(es, onlyKey, start, end, w) && start < 0 && end >= 0
    ensures var b := WalkBounds(start, end);
            var left, right, out := LeftOf(es, w, b), RightOf(es, w, b), RankResult(es, start, end);
            var x, y := b.leftEnd - w.left.c, b.rightEnd - w.right.c;
            && x >= 0 && y >= 0
            && if y == 0 && x == 0 then
                 if w.meet && |left| > 0 then out == left[|left| - 1..] else out == []
               else
                 out == (if y > |left| then left else left[|left| - y..])
                        + Reversed(if x > |right| then right else right[|right| - x..])
  {
    OutwardSides(es, onlyKey, start, end, w);
    hide Walked, LeftOf, RightOf, WalkEnd, Reversed;
    var n, l, r, a := |es|, w.left.c + 1, w.right.c + 1, -start - 1;
    var x, y := end - l + 1, a - r + 1;
    if y == 0 && x == 0 {
      if w.meet && l > 0 {
        assert es[..l][l - 1..] == es[l - 1..l];
      }
    } else {
      var from := if x > r then 0 else r - x;
      assert (if x > r then Reversed(es)[..r] else Reversed(es)[..r][r - x..]) == Reversed(es)[from..r];
      MirrorSlice(es, from, r);
      var low := if y > l then 0 else l - y;
      assert (if y > l then es[..l] else es[..l][l - y..]) == es[low..l];
      OutwardResult(es, start, end, l, r, w.meet, low, from);
    }
  }

  lemma OutwardResult(es: seq<Element>, start: int, end: int, l: nat, r: nat, meet: bool, low: nat, from: nat)
    requires start < 0 && end >= 0 && l <= |es| && r <= |es| && l <= end + 1 && r <= -start
    requires !meet ==> l + r <= |es| && (l == end + 1 || l == |es|) && (r == -start || r == |es|)
    requires meet ==> (l + r == |es| && r <= -start - 1 && (r <= l <= r + 1 || (l == end + 1 && l <= r)))
                      || (l + r == |es| + 1 && r == -start && r < l)
    requires !(l == end + 1 && r == -start)
    requires from == (if end - l + 1 > r then 0 else r - (end - l + 1))
    requires low == (if -start - r > l then 0 else l - (-start - r))
    ensures RankResult(es, start, end) == es[low..l] + es[|es| - r..|es| - from]
  {
    hide RankResult;
    var n := |es|;
    ResultOutward(es, start, end);
    var a, b := ResultStart(n, start), ResultEnd(n, start, end);
    OutwardStretch(n, start, end, l, r, meet, low, from, a, b);
    if l + r == n {
      assert es[low..l] + es[l..n - from] == es[low..n - from];
    }
  }

  function ResultStart(n: nat, start: int): nat
    requires start < 0
  {
    if n + start < 0 then 0 else n + start
  }

  function ResultEnd(n: nat, start: int, end: int): nat
    requires start < 0 && end >= 0
  {
    if Short(n, start, end) then end else if end >= n then n else end + 1
  }

  lemma ResultOutward(es: seq<Element>, start: int, end: int)
    requires start < 0 && end >= 0
    ensures var a, b := ResultStart(|es|, start), ResultEnd(|es|, start, end);
            RankResult(es, start, end) == if a < b then es[a..b] else []
  {
  }

  /** The two sides join to the stretch from a to b. */
  lemma OutwardStretch(n: nat, start: int, end: int, l: nat, r: nat, meet: bool, low: nat, from: nat, a: nat, b: nat)
    requires start < 0 && end >= 0 && l <= n && r <= n && l <= end + 1 && r <= -start
    requires !meet ==> l + r <= n && (l == end + 1 || l == n) && (r == -start || r == n)
    requires meet ==> (l + r == n && r <= -start - 1 && (r <= l <= r + 1 || (l == end + 1 && l <= r)))
                      || (l + r == n + 1 && r == -start && r < l)
    requires !(l == end + 1 && r == -start)
    requires from == (if end - l + 1 > r then 0 else r - (end - l + 1))
    requires low == (if -start - r > l then 0 else l - (-start - r))
    requires a == ResultStart(n, start) && b == ResultEnd(n, start, end)
    ensures low <= l && from <= r
    ensures (l + r == n && ((low == a && n - from == b) || (low >= n - from && a >= b)))
            || (low == l && ((n - r == a && n - from == b) || (from == r && a >= b)))
            || (from == r && ((low == a && l == b) || (low == l && a >= b)))
  {
  }

  /** Where an int64 count of elements puts a slice bound. */
  function Place(onlyKey: bool, n: int): int {
    if onlyKey then Wrapped(n) else Wrapped(2 * Wrapped(n))
  }

  /** items[:r]; a list of one element has no room behind it. */
  function Head(items: seq<Item>, onlyKey: bool, n: int): Called<seq<Item>> {
    var r := Place(onlyKey, n);
    if 0 <= r <= |items| then Returned(items[..r]) else Panicked
  }

  /** items[r:] */
  function Tail(items: seq<Item>, onlyKey: bool, n: int): Called<seq<Item>> {
    var r := Place(onlyKey, n);
    if 0 <= r <= |items| then Returned(items[r..]) else Panicked
  }

  /** A reply is a Go slice, whose length is an int. */
  predicate Listable(n: nat) {
    2 * n <= MAX_INT64
  }

  lemma Cut(items: seq<Item>, onlyKey: bool, n: nat, es: seq<Element>)
    requires items == Flat(es, onlyKey) && n <= |es| && Listable(|es|)
    ensures Head(items, onlyKey, n) == Returned(Flat(es[..n], onlyKey))
    ensures Tail(items, onlyKey, n) == Returned(Flat(es[n..], onlyKey))
  {
    hide Wrapped, Flat;
    FlatSlice(es, onlyKey, 0, n);
    FlatSlice(es, onlyKey, n, |es|);
    WrapsNothing(n);
    WrapsNothing(2 * n);
    assert es[0..n] == es[..n] && es[n..|es|] == es[n..];
    var r := Items(onlyKey, n);
    assert items[0..r] == items[..r] && items[r..|items|] == items[r..];
  }

  // ---------- the bounds whose distances wrap around ----------

  /** With one element or none, a walk may not move at all, and a distance to an extreme rank wraps around. */
  predicate Panics(n: nat, start: int, end: int, onlyKey: bool) {
    || (n == 1 && start == 0 && end == MIN_INT64)
    || (n == 1 && start == MIN_INT64 && end >= 0 && onlyKey)
    || (n == 0 && start < 0 && end >= 0 && (start == MIN_INT64 || end == MAX_INT64) && onlyKey)
  }

  /** The doubled bound wraps around once more, to the end of the list. */
  predicate Loses(n: nat, start: int, end: int, onlyKey: bool) {
    n == 1 && start == MIN_INT64 && end >= 0 && !onlyKey
  }

  /** The elements rangeRank comes up with, if it returns. */
  function RankOutcome(es: seq<Element>, start: int, end: int, onlyKey: bool): Called<seq<Element>> {
    if Panics(|es|, start, end, onlyKey) then Panicked
    else if Loses(|es|, start, end, onlyKey) then Returned([])
    else Returned(RankResult(es, start, end))
  }

  function Rendered(o: Called<seq<Element>>, onlyKey: bool): Called<seq<Item>> {
    if o.Panicked? then Panicked else Returned(Flat(o.value, onlyKey))
  }

  /** With two elements or more no bounds do harm, and with fewer exactly these. */
  lemma OutcomeIsResult(es: seq<Element>, start: int, end: int, onlyKey: bool)
    ensures RankOutcome(es, start, end, onlyKey) == Returned(RankResult(es, start, end)) <==>
              !Panics(|es|, start, end, onlyKey) && !Loses(|es|, start, end, onlyKey)
    ensures |es| >= 2 || (start > MIN_INT64 && end > MIN_INT64 && end < MAX_INT64) ==>
              RankOutcome(es, start, end, onlyKey) == Returned(RankResult(es, start, end))
  {
  }

  /** One element is asked for and not returned; one is asked for, or none, and the call panics. */
  lemma ExtremeRanks(e: Element, onlyKey: bool)
    ensures RankSlice([e], MIN_INT64, 0) == [e]
    ensures RankOutcome([e], MIN_INT64, 0, false) == Returned([]) && RankOutcome([e], MIN_INT64, 0, true) == Panicked
    ensures RankSlice([e], 0, MIN_INT64) == [] && RankOutcome([e], 0, MIN_INT64, onlyKey) == Panicked
    ensures RankSlice([], -1, MAX_INT64) == [] && RankOutcome([], -1, MAX_INT64, true) == Panicked
  {
  }

  /** Runs the walk for folded ranks. */
  method WalkRanks(es: seq<Element>, start: int, end: int, onlyKey: bool) returns (w: Walk)
    requires Ordered(es) && Listable(|es|)
    requires IsInt64(start) && IsInt64(end)
    ensures Walked(es, onlyKey, start, end, w)
  {
    w := RunWalk(es, onlyKey, start >= 0 || end >= 0, start < 0 || end < 0, WalkBounds(start, end));
    assert |Reversed(es)| == |es|;
  }

  lemma WrapsToPanic(items: seq<Item>, onlyKey: bool)
    requires |items| <= 2
    ensures Wrapped(MAX_INT64 - (-1)) == MIN_INT64
    ensures Head(items, onlyKey, 1 - MIN_INT64 + 1) == Panicked
  {
  }

  /** Where the walks stand when a distance wraps around. */
  lemma InwardDistances(es: seq<Element>, onlyKey: bool, start: int, end: int, w: Walk)
    requires Walked(es, onlyKey, start, end, w) && start >= 0 && end < 0
    requires w.left.c >= WalkBounds(start, end).leftStart || w.right.c >= WalkBounds(start, end).rightStart
    ensures var b := WalkBounds(start, end);
            && (w.right.c >= b.rightStart ==> Wrapped(b.leftStart - w.left.c) == b.leftStart - w.left.c)
            && !Loses(|es|, start, end, onlyKey)
            && (if Panics(|es|, start, end, onlyKey) then
                  var d := Wrapped(b.rightStart - w.right.c);
                  w.right.c < b.rightStart && d <= w.left.count && Head(w.left.items, onlyKey, w.left.count - d + 1) == Panicked
                else Wrapped(b.rightStart - w.right.c) == b.rightStart - w.right.c)
  {
    hide Wrapped, Reversed, Window, Flat, Head;
    InwardSides(es, onlyKey, start, end, w);
    var b := WalkBounds(start, end);
    if w.right.c >= b.rightStart {
      WrapsNothing(b.leftStart - w.left.c);
    }
    if |es| == 1 && start == 0 && end == MIN_INT64 {
      FlatLength(LeftOf(es, w, b), onlyKey);
      WrapsToPanic(w.left.items, onlyKey);
    } else {
      WrapsNothing(b.rightStart - w.right.c);
    }
  }

  lemma RenderedResult(es: seq<Element>, start: int, end: int, onlyKey: bool)
    requires !Panics(|es|, start, end, onlyKey) && !Loses(|es|, start, end, onlyKey)
    ensures Rendered(RankOutcome(es, start, end, onlyKey), onlyKey) == Returned(Flat(RankResult(es, start, end), onlyKey))
  {
  }

  lemma RenderedPanic(es: seq<Element>, start: int, end: int, onlyKey: bool)
    requires Panics(|es|, start, end, onlyKey)
    ensures Rendered(RankOutcome(es, start, end, onlyKey), onlyKey) == Panicked
  {
  }

  lemma NeitherSide(es: seq<Element>, onlyKey: bool, start: int, end: int, w: Walk)
    requires Walked(es, onlyKey, start, end, w) && start >= 0 && end < 0
    requires w.right.c < WalkBounds(start, end).rightStart && w.left.c < WalkBounds(start, end).leftStart
    ensures !Panics(|es|, start, end, onlyKey) && !Loses(|es|, start, end, onlyKey)
  {
    hide Window, Flat;
    InwardSides(es, onlyKey, start, end, w);
  }

  /** The slicing after the walk, for a start from the left and an end from the right. */
  method SliceInward(es: seq<Element>, start: int, end: int, onlyKey: bool, w: Walk) returns (ret: Called<seq<Item>>)
    requires Walked(es, onlyKey, start, end, w) && start >= 0 && end < 0 && Listable(|es|)
    ensures ret == Rendered(RankOutcome(es, start, end, onlyKey), onlyKey)
  {
    hide *;
    var b := WalkBounds(start, end);
    Inward(es, onlyKey, start, end, w);
    Sides(es, onlyKey, start, end, w);
    ghost var left, right := LeftOf(es, w, b), RightOf(es, w, b);
    FlatNothing(onlyKey);
    if w.right.c < b.rightStart && w.left.c < b.leftStart {
      NeitherSide(es, onlyKey, start, end, w);
      RenderedResult(es, start, end, onlyKey);
      return Returned([]);
    }
    InwardDistances(es, onlyKey, start, end, w);
    if Panics(|es|, start, end, onlyKey) {
      RenderedPanic(es, start, end, onlyKey);
    } else {
      RenderedResult(es, start, end, onlyKey);
    }
    if w.right.c < b.rightStart {
      var d := Wrapped(b.rightStart - w.right.c);
      if d > w.left.count {
        return Returned([]);
      }
      if !Panics(|es|, start, end, onlyKey) {
        CutListable(es, onlyKey, start, end, w, left, right);
        Cut(w.left.items, onlyKey, w.left.count - d + 1, left);
      }
      return Head(w.left.items, onlyKey, w.left.count - d + 1);
    }
    if w.left.c < b.leftStart {
      var d := Wrapped(b.leftStart - w.left.c);
      if d > w.right.count {
        return Returned([]);
      }
      CutListable(es, onlyKey, start, end, w, left, right);
      Cut(w.right.items, onlyKey, d - 1, right);
      var tail := Tail(w.right.items, onlyKey, d - 1);
      var items := ReverseItems(tail.value, onlyKey, right[d - 1..]);
      return Returned(items);
    }
    var back := ReverseItems(w.right.items, onlyKey, right);
    FlatAppend(left, Reversed(right), onlyKey);
    ret := Returned(w.left.items + back);
  }

  lemma CutListable(es: seq<Element>, onlyKey: bool, start: int, end: int, w: Walk, left: seq<Element>, right: seq<Element>)
    requires Walked(es, onlyKey, start, end, w) && Listable(|es|)
    requires left == LeftOf(es, w, WalkBounds(start, end)) && right == RightOf(es, w, WalkBounds(start, end))
    ensures Listable(|left|) && Listable(|right|)
  {
    hide Flat;
  }

  /** What a side gives of its list when d of its elements are wanted from the end. */
  function Nearest(items: seq<Item>, onlyKey: bool, count: nat, d: int): Called<seq<Item>> {
    if d > count then Returned(items) else Tail(items, onlyKey, count - d)
  }

  lemma NearestCut(items: seq<Item>, onlyKey: bool, es: seq<Element>, d: nat)
    requires items == Flat(es, onlyKey) && Listable(|es|)
    ensures Nearest(items, onlyKey, |es|, d) == Returned(Flat(if d > |es| then es else es[|es| - d..], onlyKey))
  {
    hide Tail, Flat;
    if d <= |es| {
      Cut(items, onlyKey, |es| - d, es);
    }
  }

  lemma NearestWrapped(items: seq<Item>, onlyKey: bool, count: nat)
    requires count <= 1 && |items| == Items(onlyKey, count)
    ensures Wrapped(MAX_INT64 + 1) == MIN_INT64
    ensures Nearest(items, onlyKey, count, MIN_INT64) == if onlyKey then Panicked else Returned([])
  {
    assert Wrapped(count - MIN_INT64) == count + MIN_INT64;
    assert Place(onlyKey, count - MIN_INT64) == if onlyKey then count + MIN_INT64 else 2 * count;
    assert items[|items|..] == [];
  }

  lemma NearestNone(onlyKey: bool, d: int)
    requires 0 <= d <= MAX_INT64 + 1
    ensures Nearest([], onlyKey, 0, Wrapped(d)) == if d > MAX_INT64 && onlyKey then Panicked else Returned([])
  {
    if d <= MAX_INT64 {
      WrapsNothing(d);
    } else {
      NearestWrapped([], onlyKey, 0);
    }
  }

  /** The two lists of an outward walk, as they are put together. */
  ghost predicate Together(es: seq<Element>, start: int, end: int, onlyKey: bool, retRight: Called<seq<Item>>, retLeft: Called<seq<Item>>,
                           rights: seq<Element>, lefts: seq<Element>)
  {
    if Panics(|es|, start, end, onlyKey) then
      retRight.Panicked? || (retLeft.Panicked? && retRight == Returned(Flat(rights, onlyKey)))
    else
      && retRight == Returned(Flat(rights, onlyKey)) && retLeft == Returned(Flat(lefts, onlyKey))
      && Rendered(RankOutcome(es, start, end, onlyKey), onlyKey) == Returned(Flat(lefts + Reversed(rights), onlyKey))
  }

  /** With no element at all, or one and the least start. */
  lemma OutwardFew(es: seq<Element>, onlyKey: bool, start: int, end: int, w: Walk)
    requires Walked(es, onlyKey, start, end, w) && start < 0 && end >= 0
    requires |es| == 0 || (|es| == 1 && start == MIN_INT64)
    ensures var b := WalkBounds(start, end);
            Together(es, start, end, onlyKey,
                     Nearest(w.right.items, onlyKey, w.right.count, Wrapped(b.leftEnd - w.left.c)),
                     Nearest(w.left.items, onlyKey, w.left.count, Wrapped(b.rightEnd - w.right.c)), [], [])
  {
    hide Nearest, Wrapped, Flat, RankResult, Reversed, Together;
    var b := WalkBounds(start, end);
    FewSides(es, onlyKey, start, end, w);
    NearestNone(onlyKey, b.leftEnd - w.left.c);
    if |es| == 0 {
      NearestNone(onlyKey, b.rightEnd - w.right.c);
    } else {
      NearestWrapped(w.left.items, onlyKey, 1);
    }
    FewTogether(es, start, end, onlyKey, if |es| == 0 && end == MAX_INT64 && onlyKey then Panicked else Returned([]),
                if start == MIN_INT64 && onlyKey then Panicked else Returned([]));
  }

  lemma FewSides(es: seq<Element>, onlyKey: bool, start: int, end: int, w: Walk)
    requires Walked(es, onlyKey, start, end, w) && start < 0 && end >= 0
    requires |es| == 0 || (|es| == 1 && start == MIN_INT64)
    ensures var b := WalkBounds(start, end);
            && w.right.items == [] && w.right.count == 0 && w.right.c == -1 && w.left.c == |es| - 1
            && b.leftEnd == end && b.rightEnd == -start - 1 && w.left.count == |es| && |w.left.items| == Items(onlyKey, |es|)
            && (|es| == 0 ==> w.left.items == [])
  {
    OutwardSides(es, onlyKey, start, end, w);
    var b := WalkBounds(start, end);
    FlatLength(LeftOf(es, w, b), onlyKey);
    FlatLength(RightOf(es, w, b), onlyKey);
    hide LeftOf, RightOf, Flat, Window, Reversed;
  }

  lemma FewTogether(es: seq<Element>, start: int, end: int, onlyKey: bool, retRight: Called<seq<Item>>, retLeft: Called<seq<Item>>)
    requires start < 0 && end >= 0 && (|es| == 0 || (|es| == 1 && start == MIN_INT64))
    requires retRight == if |es| == 0 && end == MAX_INT64 && onlyKey then Panicked else Returned([])
    requires retLeft == if start == MIN_INT64 && onlyKey then Panicked else Returned([])
    ensures Together(es, start, end, onlyKey, retRight, retLeft, [], [])
  {
    EmptyTurned();
    NothingOfNothing(start, end);
    hide RankResult, Reversed;
  }

  lemma EmptyTurned()
    ensures Reversed<Element>([]) == [] && Flat([] + Reversed<Element>([]), true) == [] && Flat([] + Reversed<Element>([]), false) == []
  {
  }

  lemma NothingOfNothing(start: int, end: int)
    ensures RankResult([], start, end) == []
  {
  }

  /** In all other cases no distance wraps around. */
  lemma OutwardMany(es: seq<Element>, onlyKey: bool, start: int, end: int, w: Walk) returns (rights: seq<Element>, lefts: seq<Element>)
    requires Walked(es, onlyKey, start, end, w) && start < 0 && end >= 0 && Listable(|es|)
    requires |es| > 0 && !(|es| == 1 && start == MIN_INT64)
    requires w.right.c != WalkBounds(start, end).rightEnd || w.left.c != WalkBounds(start, end).leftEnd
    ensures var b := WalkBounds(start, end);
            Together(es, start, end, onlyKey,
                     Nearest(w.right.items, onlyKey, w.right.count, Wrapped(b.leftEnd - w.left.c)),
                     Nearest(w.left.items, onlyKey, w.left.count, Wrapped(b.rightEnd - w.right.c)), rights, lefts)
  {
    hide *;
    var b := WalkBounds(start, end);
    Outward(es, onlyKey, start, end, w);
    Sides(es, onlyKey, start, end, w);
    OutwardNoWrap(es, onlyKey, start, end, w);
    var left, right, x, y := LeftOf(es, w, b), RightOf(es, w, b), b.leftEnd - w.left.c, b.rightEnd - w.right.c;
    rights := if x > |right| then right else right[|right| - x..];
    lefts := if y > |left| then left else left[|left| - y..];
    NearestCut(w.right.items, onlyKey, right, x);
    NearestCut(w.left.items, onlyKey, left, y);
    RenderedResult(es, start, end, onlyKey);
    AllTogether(es, start, end, onlyKey, Returned(Flat(rights, onlyKey)), Returned(Flat(lefts, onlyKey)), rights, lefts);
  }

  lemma AllTogether(es: seq<Element>, start: int, end: int, onlyKey: bool, retRight: Called<seq<Item>>, retLeft: Called<seq<Item>>,
                    rights: seq<Element>, lefts: seq<Element>)
    requires !Panics(|es|, start, end, onlyKey)
    requires retRight == Returned(Flat(rights, onlyKey)) && retLeft == Returned(Flat(lefts, onlyKey))
    requires Rendered(RankOutcome(es, start, end, onlyKey), onlyKey) == Returned(Flat(lefts + Reversed(rights), onlyKey))
    ensures Together(es, start, end, onlyKey, retRight, retLeft, rights, lefts)
  {
  }

  lemma OutwardNoWrap(es: seq<Element>, onlyKey: bool, start: int, end: int, w: Walk)
    requires Walked(es, onlyKey, start, end, w) && start < 0 && end >= 0 && Listable(|es|)
    requires |es| > 0 && !(|es| == 1 && start == MIN_INT64)
    ensures var b := WalkBounds(start, end);
            && Wrapped(b.leftEnd - w.left.c) == b.leftEnd - w.left.c && Wrapped(b.rightEnd - w.right.c) == b.rightEnd - w.right.c
            && Listable(|LeftOf(es, w, b)|) && Listable(|RightOf(es, w, b)|)
            && !Panics(|es|, start, end, onlyKey) && !Loses(|es|, start, end, onlyKey)
  {
    hide Flat, Wrapped;
    OutwardSides(es, onlyKey, start, end, w);
    var b := WalkBounds(start, end);
    WrapsNothing(b.leftEnd - w.left.c);
    WrapsNothing(b.rightEnd - w.right.c);
  }

  /** The slicing after the walk, for a start from the right and an end from the left. */
  method SliceOutward(es: seq<Element>, start: int, end: int, onlyKey: bool, w: Walk) returns (ret: Called<seq<Item>>)
    requires Walked(es, onlyKey, start, end, w) && start < 0 && end >= 0 && Listable(|es|)
    ensures ret == Rendered(RankOutcome(es, start, end, onlyKey), onlyKey)
  {
    hide *;
    var b := WalkBounds(start, end);
    if w.right.c == b.rightEnd && w.left.c == b.leftEnd {
      ret := SliceMet(es, start, end, onlyKey, w);
      return;
    }
    ghost var rights, lefts: seq<Element> := [], [];
    if |es| == 0 || (|es| == 1 && start == MIN_INT64) {
      OutwardFew(es, onlyKey, start, end, w);
    } else {
      rights, lefts := OutwardMany(es, onlyKey, start, end, w);
    }
    var retRight := Nearest(w.right.items, onlyKey, w.right.count, Wrapped(b.leftEnd - w.left.c));
    var retLeft := Nearest(w.left.items, onlyKey, w.left.count, Wrapped(b.rightEnd - w.right.c));
    TogetherMeans(es, start, end, onlyKey, retRight, retLeft, rights, lefts);
    if retRight.Panicked? {
      return Panicked;
    }
    var back := ReverseItems(retRight.value, onlyKey, rights);
    if retLeft.Panicked? {
      return Panicked;
    }
    FlatAppend(lefts, Reversed(rights), onlyKey);
    ret := Returned(retLeft.value + back);
  }

  lemma TogetherMeans(es: seq<Element>, start: int, end: int, onlyKey: bool, retRight: Called<seq<Item>>, retLeft: Called<seq<Item>>,
                      rights: seq<Element>, lefts: seq<Element>)
    requires Together(es, start, end, onlyKey, retRight, retLeft, rights, lefts)
    ensures retRight.Returned? ==> retRight.value == Flat(rights, onlyKey)
    ensures retRight.Returned? && retLeft.Returned? ==>
              && retLeft.value == Flat(lefts, onlyKey)
              && Rendered(RankOutcome(es, start, end, onlyKey), onlyKey) == Returned(Flat(lefts + Reversed(rights), onlyKey))
    ensures retRight.Panicked? || retLeft.Panicked? ==> Rendered(RankOutcome(es, start, end, onlyKey), onlyKey) == Panicked
  {
    hide Flat, Reversed, RankResult;
  }

  /** Both sides have reached their ranks. */
  method SliceMet(es: seq<Element>, start: int, end: int, onlyKey: bool, w: Walk) returns (ret: Called<seq<Item>>)
    requires Walked(es, onlyKey, start, end, w) && start < 0 && end >= 0 && Listable(|es|)
    requires w.right.c == WalkBounds(start, end).rightEnd && w.left.c == WalkBounds(start, end).leftEnd
    ensures ret == Rendered(RankOutcome(es, start, end, onlyKey), onlyKey)
  {
    hide *;
    Outward(es, onlyKey, start, end, w);
    Sides(es, onlyKey, start, end, w);
    ghost var left := LeftOf(es, w, WalkBounds(start, end));
    MetHarmless(es, onlyKey, start, end, w);
    RenderedResult(es, start, end, onlyKey);
    FlatNothing(onlyKey);
    if w.meet && w.left.count > 0 {
      Cut(w.left.items, onlyKey, w.left.count - 1, left);
      return Tail(w.left.items, onlyKey, w.left.count - 1);
    }
    return Returned([]);
  }

  lemma MetHarmless(es: seq<Element>, onlyKey: bool, start: int, end: int, w: Walk)
    requires Walked(es, onlyKey, start, end, w) && start < 0 && end >= 0 && Listable(|es|)
    requires w.right.c == WalkBounds(start, end).rightEnd && w.left.c == WalkBounds(start, end).leftEnd
    ensures !Panics(|es|, start, end, onlyKey) && !Loses(|es|, start, end, onlyKey)
    ensures Listable(|LeftOf(es, w, WalkBounds(start, end))|)
  {
    hide Flat;
  }

  lemma Sides(es: seq<Element>, onlyKey: bool, start: int, end: int, w: Walk)
    requires Walked(es, onlyKey, start, end, w)
    ensures var b := WalkBounds(start, end);
            && -1 <= w.left.c < |es| && -1 <= w.right.c < |es|
            && w.left.count == |LeftOf(es, w, b)| && w.left.items == Flat(LeftOf(es, w, b), onlyKey)
            && w.right.count == |RightOf(es, w, b)| && w.right.items == Flat(RightOf(es, w, b), onlyKey)
  {
  }

  lemma FlatNothing(onlyKey: bool)
    ensures Flat([], onlyKey) == []
  {
  }

  /**
   * LRANGE and ZRANGE by rank: the reply is that of RankOutcome, scores beside their members; by
   * OutcomeIsResult and RankResultIsSlice it is the requested slice except for late starts, short
   * ends, and extreme bounds on one element or none.
   */
  method RangeRank(es: seq<Element>, start: int, end: int, onlyKey: bool) returns (ret: Called<seq<Item>>)
    requires Ordered(es) && Listable(|es|)
    requires IsInt64(start) && IsInt64(end)
    ensures ret == Rendered(RankOutcome(es, start, end, onlyKey), onlyKey)
  {
    if (start >= 0 && end >= 0 && start > end) || (start < 0 && end < 0 && Fold(start) < Fold(end)) {
      assert RankResult(es, start, end) == [];
      return Returned([]);
    }
    var w := WalkRanks(es, start, end, onlyKey);
    if start >= 0 && end >= 0 {
      LeftOnly(es, onlyKey, start, end, w);
      ret := Returned(w.left.items);
    } else if start < 0 && end < 0 {
      RightOnly(es, onlyKey, start, end, w);
      var items := ReverseItems(w.right.items, onlyKey, RightOf(es, w, WalkBounds(start, end)));
      ret := Returned(items);
    } else if start >= 0 {
      ret := SliceInward(es, start, end, onlyKey, w);
    } else {
      ret := SliceOutward(es, start, end, onlyKey, w);
    }
  }

  /** With distinct members, as in a sorted set, the reply shows the difference. */
  lemma ReplyIsSlice(es: seq<Element>, start: int, end: int, onlyKey: bool)
    requires Ordered(es) && forall i, j :: 0 <= i < j < |es| ==> es[i].member != es[j].member
    ensures Rendered(RankOutcome(es, start, end, onlyKey), onlyKey) == Returned(Flat(RankSlice(es, start, end), onlyKey)) <==>
              && !Late(|es|, start, end) && !Short(|es|, start, end)
              && !Panics(|es|, start, end, onlyKey) && !Loses(|es|, start, end, onlyKey)
  {
    var out, want := RankResult(es, start, end), RankSlice(es, start, end);
    FlatKeys(out);
    FlatKeys(want);
    FlatPairs(out);
    FlatPairs(want);
    if Late(|es|, start, end) {
      assert out[0].member != want[0].member;
      assert Flat(out, true)[0] != Flat(want, true)[0];
      assert Flat(out, false)[2 * 0] != Flat(want, false)[2 * 0];
    }
  }

  /** ZREVRANGE asks for mirrored ranks and turns the reply around. */
  method RangeByRank(es: seq<Element>, start: int, end: int, onlyKey: bool, reversed: bool) returns (ret: Called<seq<Item>>)
    requires Ordered(es) && Listable(|es|)
    requires IsInt64(start) && IsInt64(end)
    ensures ret == Rendered(if reversed then Turned(RankOutcome(es, -end - 1, -start - 1, onlyKey)) else RankOutcome(es, start, end, onlyKey), onlyKey)
  {
    hide RankOutcome;
    if reversed {
      ret := RangeRank(es, -end - 1, -start - 1, onlyKey);
      if ret.Returned? {
        var items := ReverseItems(ret.value, onlyKey, RankOutcome(es, -end - 1, -start - 1, onlyKey).value);
        ret := Returned(items);
      }
    } else {
      ret := RangeRank(es, start, end, onlyKey);
    }
  }

  function Turned(o: Called<seq<Element>>): Called<seq<Element>> {
    if o.Panicked? then Panicked else Returned(Reversed(o.value))
  }

  /** The mirrored slice turned around is the slice of the reversed object. */
  lemma MirroredRanks(es: seq<Element>, start: int, end: int)
    ensures Reversed(RankSlice(es, -end - 1, -start - 1)) == RankSlice(Reversed(es), start, end)
  {
    hide *;
    var n, want := |es|, RankSlice(Reversed(es), start, end);
    ReversedLength(es);
    var a := if start < 0 then if n + start < 0 then 0 else n + start else start;
    MirroredSlice(es, start, end, a, |want|);
    if want != [] {
      MirrorSlice(es, a, a + |want|);
      ReversedTwice(want);
    } else {
      ReversedLength(RankSlice(es, -end - 1, -start - 1));
    }
  }

  lemma TurnedReplies(a: seq<Element>, b: seq<Element>, onlyKey: bool)
    requires Flat(a, onlyKey) == Flat(b, onlyKey)
    ensures Flat(Reversed(a), onlyKey) == Flat(Reversed(b), onlyKey)
  {
    hide Flat;
    if onlyKey {
      FlatKeys(a);
      FlatKeys(b);
      FlatKeys(Reversed(a));
      FlatKeys(Reversed(b));
    } else {
      FlatPairs(a);
      FlatPairs(b);
      forall i | 0 <= i < |a| ensures a[i].member == b[i].member && a[i].score == b[i].score {
        assert Flat(a, false)[2 * i] == Flat(b, false)[2 * i] && Flat(a, false)[2 * i + 1] == Flat(b, false)[2 * i + 1];
      }
      PairsAlike(Reversed(a), Reversed(b));
    }
  }

  lemma {:induction false} PairsAlike(a: seq<Element>, b: seq<Element>)
    requires |a| == |b| && forall i :: 0 <= i < |a| ==> a[i].member == b[i].member && a[i].score == b[i].score
    ensures Flat(a, false) == Flat(b, false)
  {
    if a != [] {
      PairsAlike(a[..|a| - 1], b[..|b| - 1]);
    }
  }

  /** The reply to a reversed range is the slice of the reversed object, under the same conditions for the mirrored ranks. */
  lemma ReversedReplyIsSlice(es: seq<Element>, start: int, end: int, onlyKey: bool)
    requires Ordered(es) && forall i, j :: 0 <= i < j < |es| ==> es[i].member != es[j].member
    ensures var n, low, high := |es|, -end - 1, -start - 1;
            Rendered(Turned(RankOutcome(es, low, high, onlyKey)), onlyKey) == Returned(Flat(RankSlice(Reversed(es), start, end), onlyKey)) <==>
              && !Late(n, low, high) && !Short(n, low, high) && !Panics(n, low, high, onlyKey) && !Loses(n, low, high, onlyKey)
  {
    hide RankOutcome, RankSlice, Flat, Reversed, Late, Short, Panics, Loses;
    var low, high := -end - 1, -start - 1;
    MirroredRanks(es, start, end);
    ReplyIsSlice(es, low, high, onlyKey);
    var o, want := RankOutcome(es, low, high, onlyKey), RankSlice(es, low, high);
    if o.Returned? {
      ReversedTwice(o.value);
      ReversedTwice(want);
      if Flat(o.value, onlyKey) == Flat(want, onlyKey) {
        TurnedReplies(o.value, want, onlyKey);
      }
      if Flat(Reversed(o.value), onlyKey) == Flat(Reversed(want), onlyKey) {
        TurnedReplies(Reversed(o.value), Reversed(want), onlyKey);
      }
    }
  }

  lemma MirroredSlice(es: seq<Element>, start: int, end: int, a: nat, k: nat)
    requires |Reversed(es)| == |es| && k == |RankSlice(Reversed(es), start, end)|
    requires a == if start < 0 then if |es| + start < 0 then 0 else |es| + start else start
    ensures k == |RankSlice(es, -end - 1, -start - 1)|
    ensures k > 0 ==> a + k <= |es| && RankSlice(Reversed(es), start, end) == Reversed(es)[a..a + k]
    ensures k > 0 ==> RankSlice(es, -end - 1, -start - 1) == es[|es| - (a + k)..|es| - a]
  {
    hide Reversed;
  }

  // ---------- alTrim ----------

  predicate Deletes(c: int, lo: int, hi: int) {
    c < lo || c > hi
  }

  /** What is left of element i of n once l elements were consumed from the left and r from the right. */
  predicate Remains(n: nat, b: Bounds, l: nat, r: nat, i: nat) {
    !(i < l && Deletes(i, b.leftStart, b.leftEnd)) && !(i >= n - r && Deletes(n - 1 - i, b.rightStart, b.rightEnd))
  }

  /** The running trim: an unbounded side stops once it reaches the first element it keeps. */
  ghost predicate Trimming(n: nat, useLeft: bool, useRight: bool, b: Bounds, l: nat, r: nat, goLeft: bool, goRight: bool) {
    && l <= n && r <= n
    && (!useLeft ==> l == 0 && !goLeft) && (!useRight ==> r == 0 && !goRight)
    && (useLeft && !goLeft ==> (b.leftEnd == MAX_INT64 && l == b.leftStart + 1) || l == n)
    && (useRight && !goRight ==> (b.rightEnd == MAX_INT64 && r == b.rightStart + 1) || r == n)
    && (goLeft && b.leftEnd == MAX_INT64 ==> l <= b.leftStart) && (goRight && b.rightEnd == MAX_INT64 ==> r <= b.rightStart)
    && (useLeft && useRight ==>
          && l + r <= n
          && (goLeft && goRight ==> l == r) && (goLeft && !goRight ==> r <= l) && (!goLeft && goRight ==> l <= r))
  }

  /**
   * What alTrim leaves: the slice, except for a start from the right with an end from the left; there
   * an extreme bound reads as no bound, and its side stops at once.
   */
  predicate TrimKeeps(n: nat, start: int, end: int, i: nat) {
    if start < 0 && end >= 0 && start > MIN_INT64 && end < MAX_INT64 then
      // each half is cut at one end only
      (2 * i < n ==> i <= end) && (2 * i >= n - 1 ==> n - 1 - i <= Fold(start))
    else (if start < 0 then n + start else start) <= i <= (if end < 0 then n + end else end)
  }

  /** alTrim leaves the slice for all bounds but start < 0 <= end, and there only if nothing has to go or a bound is extreme. */
  lemma TrimKeepsSlice(n: nat, start: int, end: int)
    ensures (forall i :: 0 <= i < n ==> (TrimKeeps(n, start, end, i) <==> InSlice(n, start, end, i))) <==>
              (start < 0 && end >= 0 ==> n <= 1 || (n + start <= 0 && end >= n - 1) || start <= MIN_INT64 || end >= MAX_INT64)
  {
    if MIN_INT64 < start < 0 <= end < MAX_INT64 && n > 1 {
      assert TrimKeeps(n, start, end, 0) && (InSlice(n, start, end, 0) <==> n + start <= 0);
      assert TrimKeeps(n, start, end, n - 1) && (InSlice(n, start, end, n - 1) <==> end >= n - 1);
    }
  }

  ghost predicate LeavesRight(n: nat, start: int, end: int, l: nat, r: nat) {
    forall i :: 0 <= i < n ==> (Remains(n, WalkBounds(start, end), l, r, i) <==> TrimKeeps(n, start, end, i))
  }

  lemma TrimStops(n: nat, start: int, end: int, l: nat, r: nat, goLeft: bool, goRight: bool)
    requires IsInt64(start) && IsInt64(end) && n < MAX_INT64
    requires Trimming(n, start >= 0 || end >= 0, start < 0 || end < 0, WalkBounds(start, end), l, r, goLeft, goRight)
    requires !(goLeft && l < n) && !(goRight && r < n)
    requires start >= 0 && end >= 0 ==> start <= end
    requires start < 0 && end < 0 ==> start <= end
    ensures LeavesRight(n, start, end, l, r)
  {
  }

  lemma TrimMeets(n: nat, start: int, end: int, l: nat, r: nat, goLeft: bool, goRight: bool,
                  readL: bool, readR: bool, same: bool, l': nat, r': nat)
    requires IsInt64(start) && IsInt64(end) && n < MAX_INT64
    requires Trimming(n, start >= 0 || end >= 0, start < 0 || end < 0, WalkBounds(start, end), l, r, goLeft, goRight)
    requires readL == (goLeft && l < n) && readR == (goRight && r < n)
    requires (readL || readR) && (readR || r > 0)
    requires var i, j := if readL then l else l - 1, if readR then n - 1 - r else n - r;
             if same then i == j else i > j
    requires l' == (if same && readL then l + 1 else l) && r' == (if same && readR then r + 1 else r)
    ensures LeavesRight(n, start, end, l', r')
  {
  }

  lemma TrimGoesOn(n: nat, useLeft: bool, useRight: bool, b: Bounds, l: nat, r: nat, goLeft: bool, goRight: bool,
                   readL: bool, readR: bool, l': nat, r': nat, goLeft': bool, goRight': bool)
    requires Trimming(n, useLeft, useRight, b, l, r, goLeft, goRight)
    requires readL == (goLeft && l < n) && readR == (goRight && r < n)
    requires readL || readR
    requires readR || r > 0 ==> (if readL then l else l - 1) < (if readR then n - 1 - r else n - r)
    requires l' == (if readL then l + 1 else l) && r' == (if readR then r + 1 else r)
    requires goLeft' == (readL && (Deletes(l, b.leftStart, b.leftEnd) || b.leftEnd != MAX_INT64))
    requires goRight' == (readR && (Deletes(r, b.rightStart, b.rightEnd) || b.rightEnd != MAX_INT64))
    requires 0 <= b.leftStart && 0 <= b.rightStart && n < MAX_INT64
    ensures Trimming(n, useLeft, useRight, b, l', r', goLeft', goRight')
  {
  }

  /** What has been deleted after l elements from the left and r from the right. */
  ghost predicate Stored(es: seq<Element>, store0: map<Bytes, Bytes>, store: map<Bytes, Bytes>, b: Bounds, l: nat, r: nat) {
    && (forall i :: 0 <= i < |es| ==> (es[i].key in store <==> es[i].key in store0 && Remains(|es|, b, l, r, i)))
    && (forall k :: k in store ==> k in store0 && store[k] == store0[k])
    && (forall k :: k in store0 && (forall i :: 0 <= i < |es| ==> es[i].key != k) ==> k in store)
  }

  lemma StoredLeft(es: seq<Element>, store0: map<Bytes, Bytes>, store: map<Bytes, Bytes>, b: Bounds, l: nat, r: nat)
    requires Ordered(es) && l < |es| && Stored(es, store0, store, b, l, r)
    ensures Stored(es, store0, if Deletes(l, b.leftStart, b.leftEnd) then store - {es[l].key} else store, b, l + 1, r)
  {
    DistinctKeys(es, l);
    hide Ordered;
  }

  lemma StoredRight(es: seq<Element>, store0: map<Bytes, Bytes>, store: map<Bytes, Bytes>, b: Bounds, l: nat, r: nat)
    requires Ordered(es) && r < |es| && Stored(es, store0, store, b, l, r)
    ensures Stored(es, store0,
                   if Deletes(r, b.rightStart, b.rightEnd) then store - {es[|es| - 1 - r].key} else store, b, l, r + 1)
  {
    DistinctKeys(es, |es| - 1 - r);
    hide Ordered;
  }

  lemma DistinctKeys(es: seq<Element>, i: nat)
    requires Ordered(es) && i < |es|
    ensures forall j :: 0 <= j < |es| && j != i ==> es[j].key != es[i].key
  {
    forall j | 0 <= j < |es| && j != i
      ensures es[j].key != es[i].key
    {
      OrderIsIndex(es, j, i);
    }
  }

  /** Consumes an element, deleting its key when it lies outside the side's bounds. */
  method Consume(store0: map<Bytes, Bytes>, key: Bytes, c: int, lo: int, hi: int) returns (store: map<Bytes, Bytes>, stop: bool)
    ensures store == if Deletes(c, lo, hi) then store0 - {key} else store0
    ensures stop <==> !Deletes(c, lo, hi) && hi == MAX_INT64
  {
    store, stop := store0, false;
    if c < lo || c > hi {
      store := store0 - {key};
    } else if c >= lo && hi == MAX_INT64 {
      stop := true;
    }
  }

  /** One round of the loop of alTrim. */
  method TrimRound(es: seq<Element>, store0: map<Bytes, Bytes>, leftC: int, rightC: int, l: Option<nat>, r: Option<nat>,
                   start: int, end: int, ghost all: map<Bytes, Bytes>, ghost goLeft: bool, ghost goRight: bool)
    returns (store: map<Bytes, Bytes>, next: Round)
    requires Ordered(es) && |es| < MAX_INT64
    requires IsInt64(start) && IsInt64(end)
    requires (start >= 0 && end >= 0) || (start < 0 && end < 0) ==> start <= end
    requires -1 <= leftC < |es| && -1 <= rightC < |es|
    requires Stored(es, all, store0, WalkBounds(start, end), leftC + 1, rightC + 1)
    requires Trimming(|es|, start >= 0 || end >= 0, start < 0 || end < 0, WalkBounds(start, end), leftC + 1, rightC + 1, goLeft, goRight)
    requires l == if goLeft && leftC + 1 < |es| then Some(leftC + 1) else None
    requires r == if goRight && rightC + 1 < |es| then Some(|es| - 2 - rightC) else None
    ensures next.Over? ==>
              exists l', r': nat :: LeavesRight(|es|, start, end, l', r') && Stored(es, all, store, WalkBounds(start, end), l', r')
    ensures next.Next? ==>
              && (l.Some? || r.Some?)
              && var l', r' := if l.Some? then leftC + 2 else leftC + 1, if r.Some? then rightC + 2 else rightC + 1;
                 && Stored(es, all, store, WalkBounds(start, end), l', r')
                 && Trimming(|es|, start >= 0 || end >= 0, start < 0 || end < 0, WalkBounds(start, end), l', r',
                             l.Some? && !next.dropLeft, r.Some? && !next.dropRight)
  {
    hide *;
    store := store0;
    ghost var n, b := |es|, WalkBounds(start, end);
    if l.None? && r.None? {
      TrimStops(n, start, end, leftC + 1, rightC + 1, goLeft, goRight);
      return store, Over(false);
    }
    var v := CompareEnds(es, l, r, leftC, rightC);
    if v.Crossed? {
      TrimMeets(n, start, end, leftC + 1, rightC + 1, goLeft, goRight, l.Some?, r.Some?, false, leftC + 1, rightC + 1);
      return store, Over(true);
    }
    var dropLeft, dropRight := false, false;
    ghost var l', r' := if l.Some? then leftC + 2 else leftC + 1, if r.Some? then rightC + 2 else rightC + 1;
    if l.Some? {
      StoredLeft(es, all, store, b, leftC + 1, rightC + 1);
      store, dropLeft := Consume(store, es[l.value].key, leftC + 1, WalkBounds(start, end).leftStart, WalkBounds(start, end).leftEnd);
    }
    if r.Some? {
      StoredRight(es, all, store, b, l', rightC + 1);
      store, dropRight := Consume(store, es[r.value].key, rightC + 1, WalkBounds(start, end).rightStart, WalkBounds(start, end).rightEnd);
    }
    if v.Same? {
      TrimMeets(n, start, end, leftC + 1, rightC + 1, goLeft, goRight, l.Some?, r.Some?, true, l', r');
      return store, Over(true);
    }
    BoundsStart(start, end);
    TrimGoesOn(n, start >= 0 || end >= 0, start < 0 || end < 0, b, leftC + 1, rightC + 1, goLeft, goRight,
               l.Some?, r.Some?, l', r', l.Some? && !dropLeft, r.Some? && !dropRight);
    next := Next(dropLeft, dropRight);
  }

  lemma BoundsStart(start: int, end: int)
    ensures 0 <= WalkBounds(start, end).leftStart && 0 <= WalkBounds(start, end).rightStart
  {
  }

  /**
   * LTRIM on an A-list: exactly the keys TrimKeeps names stay, which by TrimKeepsSlice are the
   * slice unless the start counts from the right and the end from the left.
   */
  method AlTrim(es: seq<Element>, store0: map<Bytes, Bytes>, start: int, end: int) returns (store: map<Bytes, Bytes>)
    requires Ordered(es) && |es| < MAX_INT64 && forall k :: k in store0 <==> exists i :: 0 <= i < |es| && es[i].key == k
    requires IsInt64(start) && IsInt64(end)
    ensures forall i :: 0 <= i < |es| ==> (es[i].key in store <==> TrimKeeps(|es|, start, end, i))
    ensures forall k :: k in store ==> k in store0 && store[k] == store0[k]
  {
    if (start >= 0 && end >= 0 && start > end) || (start < 0 && end < 0 && Fold(start) < Fold(end)) {
      return map[];
    }
    store := TrimLoop(es, store0, start, end);
  }

  method TrimLoop(es: seq<Element>, store0: map<Bytes, Bytes>, start: int, end: int) returns (store: map<Bytes, Bytes>)
    requires Ordered(es) && |es| < MAX_INT64 && forall i :: 0 <= i < |es| ==> es[i].key in store0
    requires IsInt64(start) && IsInt64(end)
    requires (start >= 0 && end >= 0) || (start < 0 && end < 0) ==> start <= end
    ensures forall i :: 0 <= i < |es| ==> (es[i].key in store <==> TrimKeeps(|es|, start, end, i))
    ensures forall k :: k in store ==> k in store0 && store[k] == store0[k]
  {
    hide *;
    var n := |es|;
    ghost var b := WalkBounds(start, end);
    TrimStarts(es, store0, start, end);
    var lr := new LeftRight(n, start >= 0 || end >= 0, start < 0 || end < 0);
    store := store0;
    var leftC, rightC := -1, -1;
    while true
      invariant fresh(lr) && lr.size == n
      invariant -1 <= leftC < n && -1 <= rightC < n
      invariant lr.left.Some? ==> lr.left.value == leftC + 1
      invariant lr.right.Some? ==> lr.right.value == rightC + 1
      invariant Stored(es, store0, store, b, leftC + 1, rightC + 1)
      invariant Trimming(n, start >= 0 || end >= 0, start < 0 || end < 0, b, leftC + 1, rightC + 1, lr.left.Some?, lr.right.Some?)
      decreases 2 * n - leftC - rightC
    {
      ghost var goLeft, goRight := lr.left.Some?, lr.right.Some?;
      var l, r := lr.Next();
      var next;
      store, next := TrimRound(es, store, leftC, rightC, l, r, start, end, store0, goLeft, goRight);
      if next.Over? {
        ghost var l', r': nat :| LeavesRight(n, start, end, l', r') && Stored(es, store0, store, b, l', r');
        TrimFinished(es, store0, store, start, end, l', r');
        return;
      }
      if l.Some? {
        leftC := leftC + 1;
      }
      if r.Some? {
        rightC := rightC + 1;
      }
      if next.dropLeft {
        lr.left := None;
      }
      if next.dropRight {
        lr.right := None;
      }
    }
  }

  lemma TrimStarts(es: seq<Element>, store0: map<Bytes, Bytes>, start: int, end: int)
    requires forall i :: 0 <= i < |es| ==> es[i].key in store0
    ensures Stored(es, store0, store0, WalkBounds(start, end), 0, 0)
    ensures Trimming(|es|, start >= 0 || end >= 0, start < 0 || end < 0, WalkBounds(start, end), 0, 0,
                     start >= 0 || end >= 0, start < 0 || end < 0)
  {
  }

  lemma TrimFinished(es: seq<Element>, store0: map<Bytes, Bytes>, store: map<Bytes, Bytes>, start: int, end: int, l: nat, r: nat)
    requires forall i :: 0 <= i < |es| ==> es[i].key in store0
    requires LeavesRight(|es|, start, end, l, r) && Stored(es, store0, store, WalkBounds(start, end), l, r)
    ensures forall i :: 0 <= i < |es| ==> (es[i].key in store <==> TrimKeeps(|es|, start, end, i))
    ensures forall k :: k in store ==> k in store0 && store[k] == store0[k]
  {
  }
}
