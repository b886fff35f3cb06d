/** command/lista.go: a list whose elements sort by the time they were pushed. */
module AList {
  import opened Basics
  import opened ByteOrder
  import opened Store
  import opened Float

  // ---------- keys ----------

  /** int16(id), negated in 16 bits, as nextLeftKey does. */
  function LeftKey(timestamp: Bits, id: nat): Bytes {
    var t: int := timestamp;
    BigEndian(EncodeInt64ToCmpUint(-t), 8) + BigEndian(EncodeInt16ToCmpUint(-Int16(id)), 2)
  }

  function RightKey(timestamp: Bits, id: nat): Bytes {
    BigEndian(EncodeInt64ToCmpUint(timestamp), 8) + BigEndian(EncodeInt16ToCmpUint(Int16(id)), 2)
  }

  const LEFT_LIMIT: nat := 32769
  const RIGHT_LIMIT: nat := 32768

  predicate Time(t: Bits) {
    0 < t < TWO_63
  }

  lemma TwoMoreBytes(a: Bytes, v: nat)
    requires v < 0x1_0000
    ensures Value(a + BigEndian(v, 2)) == Value(a) * 0x1_0000 + v
  {
    assert BigEndian(v / 256 / 256, 0) == [];
    assert BigEndian(v / 256, 1) == [v / 256 % 256];
    assert BigEndian(v, 2) == [v / 256, v % 256];
    var b := a + [v / 256];
    assert a + BigEndian(v, 2) == b + [v % 256];
    assert (b + [v % 256])[..|a| + 1] == b && b[..|a|] == a;
  }

  lemma KeyValue(u: Bits, v: nat)
    requires v < 0x1_0000
    ensures |BigEndian(u, 8) + BigEndian(v, 2)| == 10
    ensures Value(BigEndian(u, 8) + BigEndian(v, 2)) == u * 0x1_0000 + v
  {
    Pow256Eight();
    BigEndianRoundTrip(u, 8);
    BigEndianLength(v, 2);
    TwoMoreBytes(BigEndian(u, 8), v);
  }

  /** Where a left key stands as a number, for as many ids as keep their order. */
  function Low(t: Bits, id: nat): int {
    (TWO_63 - t) * 0x1_0000 + 0x8000 - id
  }

  function High(t: Bits, id: nat): int {
    (TWO_63 + t) * 0x1_0000 + 0x8000 + id
  }

  lemma TimeCode(t: Bits)
    requires Time(t)
    ensures EncodeInt64ToCmpUint(t) == TWO_63 + t
    ensures var s: int := t; EncodeInt64ToCmpUint(-s) == TWO_63 - t
  {
  }

  lemma LeftCode(id: nat)
    ensures id < LEFT_LIMIT ==> EncodeInt16ToCmpUint(-Int16(id)) == 0x8000 - id
    ensures id == LEFT_LIMIT ==> EncodeInt16ToCmpUint(-Int16(id)) == 0xffff
    ensures EncodeInt16ToCmpUint(-Int16(id)) < 0x1_0000
  {
  }

  lemma RightCode(id: nat)
    ensures id < RIGHT_LIMIT ==> EncodeInt16ToCmpUint(Int16(id)) == 0x8000 + id
    ensures id == RIGHT_LIMIT ==> EncodeInt16ToCmpUint(Int16(id)) == 0
    ensures EncodeInt16ToCmpUint(Int16(id)) < 0x1_0000
  {
  }

  lemma LeftKeyValue(t: Bits, id: nat)
    requires Time(t)
    ensures |LeftKey(t, id)| == 10
    ensures id < LEFT_LIMIT ==> Value(LeftKey(t, id)) == Low(t, id)
    ensures id == LEFT_LIMIT ==> Value(LeftKey(t, id)) == Low(t, 0) + 32767
  {
    hide EncodeInt64ToCmpUint, EncodeInt16ToCmpUint, Int16, Value, BigEndian;
    var s: int := t;
    TimeCode(t);
    LeftCode(id);
    KeyValue(EncodeInt64ToCmpUint(-s), EncodeInt16ToCmpUint(-Int16(id)));
  }

  lemma RightKeyValue(t: Bits, id: nat)
    requires Time(t)
    ensures |RightKey(t, id)| == 10
    ensures id < RIGHT_LIMIT ==> Value(RightKey(t, id)) == High(t, id)
    ensures id == RIGHT_LIMIT ==> Value(RightKey(t, id)) == High(t, 0) - 32768
  {
    hide EncodeInt64ToCmpUint, EncodeInt16ToCmpUint, Int16, Value, BigEndian;
    TimeCode(t);
    RightCode(id);
    KeyValue(EncodeInt64ToCmpUint(t), EncodeInt16ToCmpUint(Int16(id)));
  }

  /** A transaction's left pushes stand in list order exactly as long as there are at most 32769. */
  lemma LeftPushesInOrder(t: Bits, n: nat)
    requires Time(t)
    ensures (forall i: nat, j: nat :: i < j < n ==> Less(LeftKey(t, j), LeftKey(t, i))) <==> n <= LEFT_LIMIT
  {
    forall i: nat, j: nat | i < j < n && n <= LEFT_LIMIT
      ensures Less(LeftKey(t, j), LeftKey(t, i))
    {
      LeftKeyValue(t, i);
      LeftKeyValue(t, j);
      CompareIsNumeric(LeftKey(t, j), LeftKey(t, i));
    }
    if n > LEFT_LIMIT {
      LeftKeyValue(t, 0);
      LeftKeyValue(t, LEFT_LIMIT);
      CompareIsNumeric(LeftKey(t, LEFT_LIMIT), LeftKey(t, 0));
      assert !Less(LeftKey(t, LEFT_LIMIT), LeftKey(t, 0));
    }
  }

  /** And its right pushes as long as there are at most 32768. */
  lemma RightPushesInOrder(t: Bits, n: nat)
    requires Time(t)
    ensures (forall i: nat, j: nat :: i < j < n ==> Less(RightKey(t, i), RightKey(t, j))) <==> n <= RIGHT_LIMIT
  {
    forall i: nat, j: nat | i < j < n && n <= RIGHT_LIMIT
      ensures Less(RightKey(t, i), RightKey(t, j))
    {
      RightKeyValue(t, i);
      RightKeyValue(t, j);
      CompareIsNumeric(RightKey(t, i), RightKey(t, j));
    }
    if n > RIGHT_LIMIT {
      RightKeyValue(t, 0);
      RightKeyValue(t, RIGHT_LIMIT);
      CompareIsNumeric(RightKey(t, 0), RightKey(t, RIGHT_LIMIT));
      assert !Less(RightKey(t, 0), RightKey(t, RIGHT_LIMIT));
    }
  }

  // ---------- the list a store spells ----------

  type Elements = map<Bytes, Bytes>

  function Values(store: Elements, ks: seq<Bytes>): (r: seq<Bytes>)
    requires forall k :: k in ks ==> k in store
    ensures |r| == |ks|
  {
    seq(|ks|, i requires 0 <= i < |ks| => assert ks[i] in ks; store[ks[i]])
  }

  function InOrder(store: Elements): seq<Bytes> {
    Sorted(store.Keys)
  }

  ghost function Contents(store: Elements): seq<Bytes> {
    SortedIsEnumeration(store.Keys);
    Values(store, InOrder(store))
  }

  /** All keys were handed out before the next left and right key. */
  ghost predicate Spread(store: Elements, t: Bits, lid: nat, rid: nat) {
    forall k :: k in store ==> |k| == 10 && Low(t, lid) < Value(k) < High(t, rid)
  }

  lemma ValuesFront(store: Elements, ks: seq<Bytes>, key: Bytes, v: Bytes)
    requires key !in ks && forall k :: k in ks ==> k in store
    ensures forall k :: k in [key] + ks ==> k in store[key := v]
    ensures Values(store[key := v], [key] + ks) == [v] + Values(store, ks)
  {
    var all := [key] + ks;
    forall i | 0 <= i < |ks| ensures ks[i] in store && ks[i] != key && all[i + 1] == ks[i] {
      assert ks[i] in ks;
    }
  }

  lemma ValuesBack(store: Elements, ks: seq<Bytes>, key: Bytes, v: Bytes)
    requires key !in ks && forall k :: k in ks ==> k in store
    ensures forall k :: k in ks + [key] ==> k in store[key := v]
    ensures Values(store[key := v], ks + [key]) == Values(store, ks) + [v]
  {
    forall i | 0 <= i < |ks| ensures ks[i] in store && ks[i] != key {
      assert ks[i] in ks;
    }
  }

  lemma PushFront(store: Elements, key: Bytes, v: Bytes)
    requires key !in store && forall k :: k in store ==> Less(key, k)
    ensures InOrder(store[key := v]) == [key] + InOrder(store)
    ensures Contents(store[key := v]) == [v] + Contents(store)
  {
    hide Less, Sorted, Values;
    SortedIsEnumeration(store.Keys);
    SortedIsEnumeration(store[key := v].Keys);
    var ks := [key] + InOrder(store);
    forall i, j | 0 <= i < j < |ks| ensures Less(ks[i], ks[j]) {
      assert ks[j] == InOrder(store)[j - 1] && ks[j] in InOrder(store);
    }
    AscendingIsSorted(ks, store[key := v].Keys);
    ValuesFront(store, InOrder(store), key, v);
  }

  lemma PushBack(store: Elements, key: Bytes, v: Bytes)
    requires key !in store && forall k :: k in store ==> Less(k, key)
    ensures InOrder(store[key := v]) == InOrder(store) + [key]
    ensures Contents(store[key := v]) == Contents(store) + [v]
  {
    hide Less, Sorted, Values;
    SortedIsEnumeration(store.Keys);
    SortedIsEnumeration(store[key := v].Keys);
    var ks := InOrder(store) + [key];
    forall i, j | 0 <= i < j < |ks| ensures Less(ks[i], ks[j]) {
      assert ks[i] == InOrder(store)[i] && ks[i] in InOrder(store);
    }
    AscendingIsSorted(ks, store[key := v].Keys);
    ValuesBack(store, InOrder(store), key, v);
  }

  lemma SpreadLeft(store: Elements, t: Bits, lid: nat, rid: nat, v: Bytes)
    requires Time(t) && Spread(store, t, lid, rid) && lid < LEFT_LIMIT
    ensures var key := LeftKey(t, lid);
            && key !in store && (forall k :: k in store ==> Less(key, k))
            && Spread(store[key := v], t, lid + 1, rid)
  {
    hide LeftKey, Value;
    var key := LeftKey(t, lid);
    LeftKeyValue(t, lid);
    forall k | k in store ensures Less(key, k) {
      CompareIsNumeric(key, k);
    }
  }

  lemma SpreadRight(store: Elements, t: Bits, lid: nat, rid: nat, v: Bytes)
    requires Time(t) && Spread(store, t, lid, rid) && rid < RIGHT_LIMIT
    ensures var key := RightKey(t, rid);
            && key !in store && (forall k :: k in store ==> Less(k, key))
            && Spread(store[key := v], t, lid, rid + 1)
  {
    hide RightKey, Value;
    var key := RightKey(t, rid);
    RightKeyValue(t, rid);
    forall k | k in store ensures Less(k, key) {
      CompareIsNumeric(k, key);
    }
  }

  /** A later transaction starts its ids over, further out on both sides. */
  lemma SpreadLater(store: Elements, t: Bits, lid: nat, rid: nat, later: Bits)
    requires Spread(store, t, lid, rid) && lid <= LEFT_LIMIT && rid <= RIGHT_LIMIT && t < later
    ensures Spread(store, later, 0, 0)
  {
  }

  // ---------- aPop ----------

  lemma ApartHalves(a: seq<Bytes>, b: seq<Bytes>)
    requires Ascending(a + b)
    ensures forall k :: k in a ==> k !in b
  {
    hide Less;
    StrictTotalOrder();
    forall i, j | 0 <= i < |a| && 0 <= j < |b| ensures a[i] != b[j] {
      assert (a + b)[i] == a[i] && (a + b)[|a| + j] == b[j];
    }
  }

  function Deleted(store: Elements, gone: seq<Bytes>): Elements {
    store - (set k | k in gone)
  }

  /** Deleting a stretch of keys at one end leaves the rest of the list. */
  lemma DropEnd(store: Elements, gone: seq<Bytes>, rest: seq<Bytes>, left: bool)
    requires InOrder(store) == if left then gone + rest else rest + gone
    ensures InOrder(Deleted(store, gone)) == rest
    ensures forall k :: k in rest ==> k in store
    ensures Contents(Deleted(store, gone)) == Values(store, rest)
  {
    hide Less, Sorted;
    SortedIsEnumeration(store.Keys);
    var halves := if left then (gone, rest) else (rest, gone);
    assert InOrder(store) == halves.0 + halves.1;
    ApartHalves(halves.0, halves.1);
    AscendingHalves(halves.0, halves.1);
    var after := Deleted(store, gone);
    forall k ensures k in rest <==> k in after {
      assert k in InOrder(store) <==> k in halves.0 || k in halves.1;
    }
    AscendingIsSorted(rest, after.Keys);
    SameValues(store, after, rest);
  }

  lemma AscendingHalves(a: seq<Bytes>, b: seq<Bytes>)
    requires Ascending(a + b)
    ensures Ascending(a) && Ascending(b)
  {
    hide Less;
    forall i, j | 0 <= i < j < |a| ensures Less(a[i], a[j]) {
      assert (a + b)[i] == a[i] && (a + b)[j] == a[j];
    }
    forall i, j | 0 <= i < j < |b| ensures Less(b[i], b[j]) {
      assert (a + b)[|a| + i] == b[i] && (a + b)[|a| + j] == b[j];
    }
  }

  lemma SameValues(store: Elements, after: Elements, ks: seq<Bytes>)
    requires forall k :: k in ks ==> k in store && k in after && after[k] == store[k]
    ensures Values(after, ks) == Values(store, ks)
  {
    forall i | 0 <= i < |ks| ensures after[ks[i]] == store[ks[i]] {
      assert ks[i] in ks;
    }
  }

  /**
   * The callback of aPop over the keys from one end: deletes and collects at most count elements.
   * The scan's own limit, one more, is never reached.
   */
  method PopFrom(store0: Elements, ks: seq<Bytes>, count: nat) returns (store: Elements, ret: seq<Bytes>, reachedLimit: bool)
    requires count > 0 && (forall k :: k in ks ==> k in store0) && Distinct(ks)
    ensures !reachedLimit
    ensures var n := if |ks| <= count then |ks| else count;
            ret == Values(store0, ks[..n]) && store == Deleted(store0, ks[..n])
  {
    store, ret, reachedLimit := store0, [], false;
    var seen := 0;
    while seen < |ks|
      invariant 0 <= seen <= |ks| && seen < count
      invariant ret == Values(store0, ks[..seen])
      invariant store == Deleted(store0, ks[..seen])
    {
      var key := ks[seen];
      assert key in ks && key !in ks[..seen];
      assert ks[..seen + 1] == ks[..seen] + [key];
      ret := ret + [store[key]];
      store := store - {key};
      if |ret| >= count {
        return;
      }
      seen := seen + 1;
      if seen >= count + 1 {
        reachedLimit := true;
        return;
      }
    }
    assert ks[..seen] == ks;
  }

  // ---------- the list ----------

  class List {
    var store: Elements
    var timestamp: Bits
    var lid: nat
    var rid: nat

    ghost predicate Valid()
      reads this
    {
      Time(timestamp) && lid <= LEFT_LIMIT && rid <= RIGHT_LIMIT && Spread(store, timestamp, lid, rid)
    }

    constructor (t: Bits)
      requires Time(t)
      ensures Valid() && Contents(store) == [] && timestamp == t && lid == rid == 0
    {
      store, timestamp, lid, rid := map[], t, 0, 0;
    }

    /** A later transaction. */
    method Begin(t: Bits)
      requires Valid() && timestamp < t && Time(t)
      modifies this
      ensures Valid() && store == old(store) && timestamp == t && lid == rid == 0
    {
      SpreadLater(store, timestamp, lid, rid, t);
      timestamp, lid, rid := t, 0, 0;
    }

    /** aPush: LPUSH puts its arguments before the list one by one, RPUSH after it. */
    method Push(args: seq<Bytes>, left: bool)
      requires Valid() && (if left then lid + |args| <= LEFT_LIMIT else rid + |args| <= RIGHT_LIMIT)
      modifies this
      ensures Valid() && timestamp == old(timestamp)
      ensures Contents(store) == if left then Reversed(args) + old(Contents(store)) else old(Contents(store)) + args
      ensures lid == old(lid) + (if left then |args| else 0) && rid == old(rid) + (if left then 0 else |args|)
    {
      hide Contents, LeftKey, RightKey, Spread, Pushed, Reversed, Time;
      var i := 0;
      NothingPushed(args, Contents(store));
      while i < |args|
        invariant 0 <= i <= |args| && Valid() && timestamp == old(timestamp)
        invariant Contents(store) == Pushed(args[..i], left, old(Contents(store)))
        invariant lid == old(lid) + (if left then i else 0) && rid == old(rid) + (if left then 0 else i)
      {
        PushedOneMore(args, left, i, old(Contents(store)));
        if left {
          SpreadLeft(store, timestamp, lid, rid, args[i]);
          PushFront(store, LeftKey(timestamp, lid), args[i]);
          store := store[LeftKey(timestamp, lid) := args[i]];
          lid := lid + 1;
        } else {
          SpreadRight(store, timestamp, lid, rid, args[i]);
          PushBack(store, RightKey(timestamp, rid), args[i]);
          store := store[RightKey(timestamp, rid) := args[i]];
          rid := rid + 1;
        }
        i := i + 1;
      }
      assert args[..i] == args;
      PushedIs(args, left, old(Contents(store)));
    }

    /** aPop: the first or the last elements, the nearest to the end first. */
    method Pop(count0: nat, left: bool) returns (ret: seq<Bytes>, reachedLimit: bool)
      requires Valid()
      modifies this
      ensures Valid() && !reachedLimit && timestamp == old(timestamp) && lid == old(lid) && rid == old(rid)
      ensures var list, count := old(Contents(store)), if count0 == 0 then 1 else count0;
              var n := if |list| <= count then |list| else count;
              && ret == (if left then list[..n] else Reversed(list[|list| - n..]))
              && Contents(store) == if left then list[n..] else list[..|list| - n]
    {
      hide Spread, Contents;
      var after;
      after, ret, reachedLimit := PopEnd(store, count0, left);
      StillSpread(store, after, timestamp, lid, rid);
      store := after;
    }
  }

  method PopEnd(store: Elements, count0: nat, left: bool) returns (after: Elements, ret: seq<Bytes>, reachedLimit: bool)
    ensures !reachedLimit && after.Keys <= store.Keys
    ensures var list, count := Contents(store), if count0 == 0 then 1 else count0;
            var n := if |list| <= count then |list| else count;
            && ret == (if left then list[..n] else Reversed(list[|list| - n..]))
            && Contents(after) == if left then list[n..] else list[..|list| - n]
  {
    hide Sorted, Contents, Values, Distinct, InOrder, Reversed;
    var count := if count0 == 0 then 1 else count0;
    var ks := InOrder(store);
    if !left {
      ks := Reversed(ks);
    }
    ListedOnce(store, left);
    after, ret, reachedLimit := PopFrom(store, ks, count);
    PoppedEnd(store, ks, if |ks| <= count then |ks| else count, left);
  }

  function Pushed(args: seq<Bytes>, left: bool, list: seq<Bytes>): seq<Bytes> {
    if left then Reversed(args) + list else list + args
  }

  lemma PushedIs(args: seq<Bytes>, left: bool, list: seq<Bytes>)
    ensures Pushed(args, left, list) == if left then Reversed(args) + list else list + args
  {
  }

  lemma NothingPushed(args: seq<Bytes>, list: seq<Bytes>)
    ensures Pushed(args[..0], true, list) == list && Pushed(args[..0], false, list) == list
  {
  }

  lemma PushedOneMore(args: seq<Bytes>, left: bool, i: nat, list: seq<Bytes>)
    requires i < |args|
    ensures Pushed(args[..i + 1], left, list) ==
              if left then [args[i]] + Pushed(args[..i], left, list) else Pushed(args[..i], left, list) + [args[i]]
  {
    if left {
      assert Reversed(args[..i + 1]) == [args[i]] + Reversed(args[..i]);
    } else {
      assert args[..i + 1] == args[..i] + [args[i]];
    }
  }

  lemma StillSpread(store: Elements, after: Elements, t: Bits, lid: nat, rid: nat)
    requires Spread(store, t, lid, rid) && after.Keys <= store.Keys
    ensures Spread(after, t, lid, rid)
  {
  }

  lemma ListedOnce(store: Elements, left: bool)
    ensures var ks := if left then InOrder(store) else Reversed(InOrder(store));
            && (forall k :: k in ks ==> k in store)
            && Distinct(ks)
  {
    hide *;
    ContentsAre(store);
    InOrderDistinct(store);
    if !left {
      ReversedOnce(InOrder(store));
    }
  }

  lemma InOrderDistinct(store: Elements)
    ensures Distinct(InOrder(store))
  {
    hide Less, Sorted;
    SortedIsEnumeration(store.Keys);
    StrictTotalOrder();
  }

  lemma ReversedOnce(ks: seq<Bytes>)
    requires Distinct(ks)
    ensures Distinct(Reversed(ks)) && forall k :: k in Reversed(ks) ==> k in ks
  {
    forall k | k in Reversed(ks) ensures k in ks {
      var i :| 0 <= i < |ks| && Reversed(ks)[i] == k;
      assert ks[|ks| - 1 - i] == k;
    }
  }

  /** The keys nearest to the end, and what stays. */
  lemma PoppedEnd(store: Elements, ks: seq<Bytes>, n: nat, left: bool)
    requires ks == (if left then InOrder(store) else Reversed(InOrder(store))) && n <= |ks|
    ensures |Contents(store)| == |ks| && forall k :: k in ks[..n] ==> k in store
    ensures var list := Contents(store);
            && Values(store, ks[..n]) == (if left then list[..n] else Reversed(list[|list| - n..]))
            && Contents(Deleted(store, ks[..n])) == if left then list[n..] else list[..|list| - n]
  {
    hide *;
    var all := InOrder(store);
    ReversedLength(all);
    var m := |all| - n;
    ContentsAre(store);
    if left {
      assert all == all[..n] + all[n..];
      assert all[0..n] == all[..n] && all[n..|all|] == all[n..];
      DropEnd(store, all[..n], all[n..], true);
      ValuesSlice(store, all, 0, n);
      ValuesSlice(store, all, n, |all|);
    } else {
      assert all == all[..m] + all[m..];
      assert all[0..m] == all[..m] && all[m..|all|] == all[m..];
      DropEnd(store, all[m..], all[..m], false);
      SameSet(store, all, n);
      ReversedEnd(all, n);
      ValuesSlice(store, all, m, |all|);
      ValuesSlice(store, all, 0, m);
      ValuesReversed(store, all[m..]);
      assert Contents(store)[m..|all|] == Contents(store)[m..] && Contents(store)[0..m] == Contents(store)[..m];
    }
  }

  lemma ValuesSlice(store: Elements, ks: seq<Bytes>, a: nat, b: nat)
    requires a <= b <= |ks| && forall k :: k in ks ==> k in store
    ensures forall k :: k in ks[a..b] ==> k in store
    ensures Values(store, ks[a..b]) == Values(store, ks)[a..b]
  {
    forall k | k in ks[a..b] ensures k in ks {
    }
  }

  lemma ValuesReversed(store: Elements, ks: seq<Bytes>)
    requires forall k :: k in ks ==> k in store
    ensures forall k :: k in Reversed(ks) ==> k in store
    ensures Values(store, Reversed(ks)) == Reversed(Values(store, ks))
  {
    forall i | 0 <= i < |ks| ensures Reversed(ks)[i] in ks {
      assert Reversed(ks)[i] == ks[|ks| - 1 - i];
    }
  }

  lemma ContentsAre(store: Elements)
    ensures forall k :: k in InOrder(store) ==> k in store
    ensures Contents(store) == Values(store, InOrder(store))
  {
    hide Sorted;
    SortedIsEnumeration(store.Keys);
  }

  lemma SameSet(store: Elements, ks: seq<Bytes>, n: nat)
    requires n <= |ks|
    ensures Deleted(store, Reversed(ks)[..n]) == Deleted(store, ks[|ks| - n..])
  {
    var a, b := Reversed(ks)[..n], ks[|ks| - n..];
    ReversedEnd(ks, n);
    forall k ensures k in a <==> k in b {
      if k in b {
        var j :| 0 <= j < n && b[j] == k;
        assert a[n - 1 - j] == k;
      }
    }
  }

  lemma ReversedEnd(ks: seq<Bytes>, n: nat)
    requires n <= |ks|
    ensures Reversed(ks)[..n] == Reversed(ks[|ks| - n..])
  {
  }
}
