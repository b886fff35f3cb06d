/** The ordered key-value store under a transaction: a finite map scanned in key order. */
module Store {
  import opened ByteOrder

  ghost predicate Ascending(ks: seq<Bytes>) {
    forall i, j :: 0 <= i < j < |ks| ==> Less(ks[i], ks[j])
  }

  ghost predicate Distinct<T>(s: seq<T>) {
    forall i, j :: 0 <= i < j < |s| ==> s[i] != s[j]
  }

  predicate IsLeast(s: set<Bytes>, k: Bytes) {
    k in s && forall x :: x in s ==> x == k || Less(k, x)
  }

  lemma {:induction false} LeastExists(s: set<Bytes>)
    requires s != {}
    ensures exists k :: IsLeast(s, k)
  {
    hide IsLeast;
    var a :| a in s;
    if s == {a} {
      LeastOfOne(a);
    } else {
      LeastExists(s - {a});
      var k :| IsLeast(s - {a}, k);
      LeastOfMore(s, a, k);
    }
  }

  lemma LeastOfOne(a: Bytes)
    ensures IsLeast({a}, a)
  {
  }

  lemma LeastOfMore(s: set<Bytes>, a: Bytes, k: Bytes)
    requires a in s && IsLeast(s - {a}, k)
    ensures IsLeast(s, if Less(a, k) then a else k)
  {
    hide Less;
    StrictTotalOrder();
    forall x | x in s && x != a
      ensures x == k || Less(k, x)
    {
      assert x in s - {a};
    }
  }

  function Least(s: set<Bytes>): (k: Bytes)
    requires s != {}
    ensures IsLeast(s, k)
  {
    LeastExists(s);
    LeastUnique(s);
    var k :| k in s && IsLeast(s, k);
    k
  }

  lemma LeastUnique(s: set<Bytes>)
    ensures forall j, k :: IsLeast(s, j) && IsLeast(s, k) ==> j == k
  {
    hide Less;
    StrictTotalOrder();
  }

  /** The elements of a set in key order. */
  function Sorted(s: set<Bytes>): seq<Bytes> {
    if s == {} then [] else [Least(s)] + Sorted(s - {Least(s)})
  }

  lemma {:induction false} SortedIsEnumeration(s: set<Bytes>)
    ensures Ascending(Sorted(s))
    ensures forall k :: k in Sorted(s) <==> k in s
    ensures |Sorted(s)| == |s|
  {
    if s != {} {
      SortedIsEnumeration(s - {Least(s)});
    }
  }

  lemma {:induction false} AscendingUnique(a: seq<Bytes>, b: seq<Bytes>)
    requires Ascending(a) && Ascending(b)
    requires forall k :: k in a <==> k in b
    ensures a == b
  {
    StrictTotalOrder();
    assert b != [] ==> b[0] in a;
    if a != [] {
      assert a[0] in b;
      assert a[0] == b[0];
      forall k ensures k in a[1..] <==> k in b[1..] {
        assert k in a <==> k == a[0] || k in a[1..];
        assert k in b <==> k == b[0] || k in b[1..];
        assert a[0] !in a[1..] && b[0] !in b[1..];
      }
      AscendingUnique(a[1..], b[1..]);
      assert a == [a[0]] + a[1..] && b == [b[0]] + b[1..];
    }
  }

  /** An ascending sequence is the sorted enumeration of its elements. */
  lemma AscendingIsSorted(ks: seq<Bytes>, s: set<Bytes>)
    requires Ascending(ks) && forall k :: k in ks <==> k in s
    ensures ks == Sorted(s)
  {
    hide Sorted;
    SortedIsEnumeration(s);
    AscendingUnique(ks, Sorted(s));
  }

  /** What txn.Iter(lo, hi) visits, in order. */
  function RangeKeys<V>(db: map<Bytes, V>, lo: Bytes, hi: Bytes): seq<Bytes> {
    Sorted(set k | k in db && !Less(k, lo) && Less(k, hi))
  }

  function Reversed<T>(s: seq<T>): seq<T> {
    seq(|s|, i requires 0 <= i < |s| => s[|s| - 1 - i])
  }

  lemma ReversedLength<T>(s: seq<T>)
    ensures |Reversed(s)| == |s|
  {
  }

  lemma ReversedPush<T>(s: seq<T>, x: T)
    ensures Reversed(s + [x]) == [x] + Reversed(s)
  {
  }

  lemma ReversedTwice<T>(s: seq<T>)
    ensures Reversed(Reversed(s)) == s
  {
  }

  /** What txn.List(start, end) visits: descending when the bounds are given in reverse. */
  function ListKeys<V>(db: map<Bytes, V>, start: Bytes, end: Bytes): seq<Bytes> {
    if !Less(end, start) then RangeKeys(db, start, end) else Reversed(RangeKeys(db, end, start))
  }

  /** txn.List ends in an error once its callback has asked for more this often; a cap of 0 is none. */
  predicate Capped(n: nat, max: nat) {
    0 < max <= n
  }

  lemma NotCappedAtFirst(max: nat)
    ensures !Capped(0, max)
  {
  }

  lemma CappedToo(i: nat, n: nat, max: nat)
    requires Capped(i, max) && i <= n
    ensures Capped(n, max)
  {
  }

  /** The members of the object stored under a prefix. */
  function Members<V>(db: map<Bytes, V>, p: Bytes): set<Bytes> {
    set k | k in db && IsPrefix(p, k) :: k[|p|..]
  }

  lemma InMembers<V>(db: map<Bytes, V>, p: Bytes, m: Bytes)
    ensures m in Members(db, p) <==> p + m in db
  {
    if p + m in db {
      assert IsPrefix(p, p + m) && (p + m)[|p|..] == m;
    }
    if m in Members(db, p) {
      var k :| k in db && IsPrefix(p, k) && k[|p|..] == m;
      assert k == p + m;
    }
  }

  /** Scanning [p, PrefixNext(p)) and keeping keys at least as long as p lists the members. */
  lemma PrefixScan<V>(db: map<Bytes, V>, p: Bytes)
    requires !AllOnes(p)
    ensures var ks := RangeKeys(db, p, PrefixNextSpec(p));
            && Ascending(ks)
            && (forall k :: k in ks ==> k in db)
            && (forall k :: k in ks && |k| >= |p| ==> IsPrefix(p, k))
            && (forall m :: p + m in ks <==> p + m in db)
  {
    var s := set k | k in db && !Less(k, p) && Less(k, PrefixNextSpec(p));
    SortedIsEnumeration(s);
    forall k | |k| >= |p| && k in db
      ensures k in s <==> IsPrefix(p, k)
    {
      PrefixRange(p, k);
    }
    forall m
      ensures p + m in s <==> p + m in db
    {
      assert IsPrefix(p, p + m);
    }
  }
}
