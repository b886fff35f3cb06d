/**
 * The element keys of a B-list. EncodeFloat keeps the order of positions, so a key is modelled by
 * the position it encodes and scans go by increasing position.
 */
module Positions {

  datatype Key = EncodeFloat(position: real)

  predicate Before(a: Key, b: Key) {
    a.position < b.position
  }

  ghost predicate Increasing(ks: seq<Key>) {
    forall i, j :: 0 <= i < j < |ks| ==> Before(ks[i], ks[j])
  }

  lemma {:induction false} LowestExists(s: set<Key>)
    requires s != {}
    ensures exists k :: k in s && forall x :: x in s ==> x == k || Before(k, x)
  {
    var a :| a in s;
    var t := s - {a};
    assert forall x :: x in s ==> x == a || x in t;
    if t != {} {
      LowestExists(t);
      var k :| k in t && forall x :: x in t ==> x == k || Before(k, x);
      var l := if Before(a, k) then a else k;
      assert l in s && forall x :: x in s ==> x == l || Before(l, x);
    }
  }

  function Lowest(s: set<Key>): Key
    requires s != {}
  {
    LowestExists(s);
    var k :| k in s && forall x :: x in s ==> x == k || Before(k, x);
    k
  }

  function InOrder(s: set<Key>): seq<Key> {
    if s == {} then [] else [Lowest(s)] + InOrder(s - {Lowest(s)})
  }

  lemma {:induction false} InOrderEnumerates(s: set<Key>)
    ensures Increasing(InOrder(s))
    ensures forall k :: k in InOrder(s) <==> k in s
  {
    if s != {} {
      InOrderEnumerates(s - {Lowest(s)});
    }
  }

  lemma {:induction false} IncreasingUnique(a: seq<Key>, b: seq<Key>)
    requires Increasing(a) && Increasing(b) && forall k :: k in a <==> k in b
    ensures a == b
  {
    assert b != [] ==> b[0] in a;
    if a != [] {
      assert a[0] in b;
      assert a[0] == b[0];
      forall k ensures k in a[1..] <==> k in b[1..] {
        assert k in a <==> k == a[0] || k in a[1..];
        assert k in b <==> k == b[0] || k in b[1..];
      }
      IncreasingUnique(a[1..], b[1..]);
    }
  }

  /** What txn.List(lo, hi) visits. */
  function Scan(s: set<Key>, lo: real, hi: real): seq<Key> {
    InOrder(set k | k in s && lo <= k.position < hi)
  }

  /** A scan of an increasing key list that covers indexes a to b is that stretch of it. */
  lemma ScanIs(s: set<Key>, ks: seq<Key>, lo: real, hi: real, a: nat, b: nat)
    requires Increasing(ks) && forall k :: k in ks <==> k in s
    requires a <= b <= |ks|
    requires forall i :: 0 <= i < |ks| ==> (lo <= ks[i].position < hi <==> a <= i < b)
    ensures Scan(s, lo, hi) == ks[a..b]
  {
    var t := set k | k in s && lo <= k.position < hi;
    InOrderEnumerates(t);
    forall k ensures k in ks[a..b] <==> k in t {
      if k in t {
        assert k in ks;
        var i :| 0 <= i < |ks| && ks[i] == k;
        assert ks[a..b][i - a] == k;
      }
    }
    IncreasingUnique(InOrder(t), ks[a..b]);
  }
}
