/** command/listb.go: a list as a header and one key per element. */
module BList {
  import opened Basics
  import opened ByteOrder
  import opened Store
  import opened Positions

  // ---------- list operations on plain sequences ----------

  lemma ReverseNothing(s: seq<Bytes>)
    ensures Reversed(s[..0]) == [] && (s == [] ==> Reversed(s) == [])
  {
  }

  lemma PushReversed<T>(args: seq<T>, i: nat, c: seq<T>)
    requires i < |args|
    ensures Reversed(args[..i + 1]) + c == [args[i]] + (Reversed(args[..i]) + c)
  {
    ReversedPush(args[..i], args[i]);
    assert args[..i + 1] == args[..i] + [args[i]];
    hide Reversed;
    assert ([args[i]] + Reversed(args[..i])) + c == [args[i]] + (Reversed(args[..i]) + c);
  }

  /** The list without its first n occurrences of v. */
  function RemoveFirst(s: seq<Bytes>, v: Bytes, n: nat): seq<Bytes> {
    if s == [] || n == 0 then s
    else if s[0] == v then RemoveFirst(s[1..], v, n - 1)
    else [s[0]] + RemoveFirst(s[1..], v, n)
  }

  /** LREM: the first n, the last -n, or all occurrences go. */
  function Remove(s: seq<Bytes>, v: Bytes, n: int): seq<Bytes> {
    if n == 0 then RemoveFirst(s, v, |s|)
    else if n > 0 then RemoveFirst(s, v, n)
    else Reversed(RemoveFirst(Reversed(s), v, -n))
  }

  /** LREM as the code counts: the least int64 has no opposite, and no occurrence is found below it. */
  function Dropped(s: seq<Bytes>, v: Bytes, n: int): seq<Bytes> {
    if n == MIN_INT64 then s else Remove(s, v, n)
  }

  /** That is LREM except for the least count and a list that holds the value. */
  lemma DroppedIsRemoved(s: seq<Bytes>, v: Bytes, n: int)
    requires IsInt64(n)
    ensures Dropped(s, v, n) == Remove(s, v, n) <==> n != MIN_INT64 || v !in s
  {
    if n == MIN_INT64 {
      RemovalShortens(Reversed(s), v, -n);
      Reversal(s);
      Reversal(RemoveFirst(Reversed(s), v, -n));
      if v in s {
        var i :| 0 <= i < |s| && s[i] == v;
        assert Reversed(s)[|s| - 1 - i] == v;
      }
    }
  }

  lemma {:induction false} RemovalShortens(s: seq<Bytes>, v: Bytes, n: nat)
    requires n > 0
    ensures v in s ==> |RemoveFirst(s, v, n)| < |s|
    ensures v !in s ==> RemoveFirst(s, v, n) == s
  {
    if s != [] {
      if s[0] == v {
        SameLengthRemoval(s[1..], v, n - 1);
      } else {
        RemovalShortens(s[1..], v, n);
      }
    }
  }

  function FirstIndex(s: seq<Bytes>, v: Bytes): (i: nat)
    ensures i <= |s|
  {
    if s == [] || s[0] == v then 0 else 1 + FirstIndex(s[1..], v)
  }

  lemma {:induction false} FirstIndexIs(s: seq<Bytes>, v: Bytes)
    ensures forall j :: 0 <= j < FirstIndex(s, v) ==> s[j] != v
    ensures FirstIndex(s, v) < |s| ==> s[FirstIndex(s, v)] == v
  {
    if s != [] && s[0] != v {
      FirstIndexIs(s[1..], v);
    }
  }

  /** LINSERT: x next to the first occurrence of the pivot, if there is one. */
  function Insert(s: seq<Bytes>, before: bool, pivot: Bytes, x: Bytes): seq<Bytes> {
    var i := FirstIndex(s, pivot);
    if i == |s| then s
    else if before then s[..i] + [x] + s[i..]
    else s[..i + 1] + [x] + s[i + 1..]
  }

  // ---------- utils.MiddleFloat ----------

  /** Fails when rounding leaves no room between its arguments; otherwise strictly between them. */
  method MiddleFloat(left: real, right: real) returns (m: Option<real>)
    requires left < right
    ensures m.Some? ==> left < m.value < right
  {
    if * {
      m := None;
    } else {
      m := Some((left + right) / 2.0);
    }
  }

  // ---------- the header and its keys ----------

  /** What a list of keys must look like to be described by a header. */
  ghost predicate Describes(LIndex: real, RIndex: real, Length: nat, Complex: bool, keys: seq<Key>) {
    && Increasing(keys)
    && Length == |keys|
    && (keys != [] ==> keys[0].position == LIndex && keys[|keys| - 1].position == RIndex)
    && (!Complex ==> forall i :: 0 <= i < |keys| ==> keys[i].position == LIndex + i as real)
  }

  ghost predicate Enumerates(keys: seq<Key>, store: map<Key, Bytes>) {
    forall k :: k in keys <==> k in store
  }

  ghost function Values(keys: seq<Key>, store: map<Key, Bytes>): seq<Bytes>
    requires forall k :: k in keys ==> k in store
  {
    seq(|keys|, i requires 0 <= i < |keys| => store[keys[i]])
  }

  lemma LengthIs(LIndex: real, RIndex: real, Length: nat, Complex: bool, keys: seq<Key>, store: map<Key, Bytes>)
    requires Describes(LIndex, RIndex, Length, Complex, keys) && Enumerates(keys, store)
    ensures |keys| == |Values(keys, store)| == Length && Increasing(keys)
  {
  }

  /** All of the list's keys lie in [LIndex, RIndex + 1), so that scan is the list. */
  lemma FullScan(LIndex: real, RIndex: real, Length: nat, Complex: bool, keys: seq<Key>, store: map<Key, Bytes>)
    requires Describes(LIndex, RIndex, Length, Complex, keys) && Enumerates(keys, store)
    ensures Scan(store.Keys, LIndex, RIndex + 1.0) == keys
  {
    forall i | 0 <= i < |keys|
      ensures LIndex <= keys[i].position <= RIndex
    {
      if i > 0 { assert Before(keys[0], keys[i]); }
      if i < |keys| - 1 { assert Before(keys[i], keys[|keys| - 1]); }
    }
    ScanIs(store.Keys, keys, LIndex, RIndex + 1.0, 0, |keys|);
    assert keys[0..|keys|] == keys;
  }

  /** A value stored under a new key at either end joins the list there. */
  lemma PutLeft(keys: seq<Key>, store: map<Key, Bytes>, key: Key, v: Bytes)
    requires Increasing(keys) && Enumerates(keys, store) && (keys != [] ==> Before(key, keys[0]))
    ensures Increasing([key] + keys) && Enumerates([key] + keys, store[key := v])
    ensures Values([key] + keys, store[key := v]) == [v] + Values(keys, store)
  {
    var all := [key] + keys;
    forall i | 0 <= i < |keys|
      ensures Before(key, keys[i])
    {
      if i > 0 { assert Before(keys[0], keys[i]); }
    }
    assert forall i :: 1 <= i < |all| ==> all[i] == keys[i - 1] && Before(key, all[i]);
    assert forall k :: k in all <==> k == key || k in keys;
  }

  lemma PutRight(keys: seq<Key>, store: map<Key, Bytes>, key: Key, v: Bytes)
    requires Increasing(keys) && Enumerates(keys, store) && (keys != [] ==> Before(keys[|keys| - 1], key))
    ensures Increasing(keys + [key]) && Enumerates(keys + [key], store[key := v])
    ensures Values(keys + [key], store[key := v]) == Values(keys, store) + [v]
  {
    var all := keys + [key];
    forall i | 0 <= i < |keys|
      ensures Before(keys[i], key)
    {
      if i < |keys| - 1 { assert Before(keys[i], keys[|keys| - 1]); }
    }
    assert forall k :: k in all <==> k == key || k in keys;
  }

  lemma PushedLeft(LIndex: real, RIndex: real, Length: nat, Complex: bool, keys: seq<Key>, store: map<Key, Bytes>, v: Bytes)
    requires Describes(LIndex, RIndex, Length, Complex, keys) && Enumerates(keys, store)
    requires Length == 0 ==> LIndex == RIndex
    ensures var l := if Length > 0 then LIndex - 1.0 else LIndex;
            var key := EncodeFloat(l);
            && Describes(l, RIndex, Length + 1, Complex, [key] + keys)
            && Enumerates([key] + keys, store[key := v])
            && Values([key] + keys, store[key := v]) == [v] + Values(keys, store)
  {
    var l := if Length > 0 then LIndex - 1.0 else LIndex;
    var key := EncodeFloat(l);
    PutLeft(keys, store, key, v);
    hide Values, Enumerates, Increasing;
    var all := [key] + keys;
    forall i | 0 <= i < |all| && !Complex
      ensures all[i].position == l + i as real
    {
      if i > 0 {
        assert all[i] == keys[i - 1] && keys[i - 1].position == LIndex + (i - 1) as real;
      }
    }
  }

  lemma PushedRight(LIndex: real, RIndex: real, Length: nat, Complex: bool, keys: seq<Key>, store: map<Key, Bytes>, v: Bytes)
    requires Describes(LIndex, RIndex, Length, Complex, keys) && Enumerates(keys, store)
    requires Length == 0 ==> LIndex == RIndex
    ensures var r := if Length > 0 then RIndex + 1.0 else RIndex;
            var key := EncodeFloat(r);
            && Describes(LIndex, r, Length + 1, Complex, keys + [key])
            && Enumerates(keys + [key], store[key := v])
            && Values(keys + [key], store[key := v]) == Values(keys, store) + [v]
  {
    var key := EncodeFloat(if Length > 0 then RIndex + 1.0 else RIndex);
    PutRight(keys, store, key, v);
  }

  // ---------- taking elements off the ends ----------

  /** The callback of blPop and brPop: `near` is the header end the scan starts from. */
  method PopScan(store0: map<Key, Bytes>, visits: seq<Key>, count: nat, complex: bool, near0: real, shift: real, max: nat)
    returns (store: map<Key, Bytes>, values: seq<Bytes>, near: real, limited: bool)
    requires 0 < count <= |visits|
    requires forall i :: 0 <= i < |visits| ==> visits[i] in store0
    requires forall i, j :: 0 <= i < j < |visits| ==> visits[i] != visits[j]
    ensures limited <==> Capped(if complex then count else count - 1, max)
    ensures !limited ==>
              && values == seq(count, i requires 0 <= i < count => store0[visits[i]])
              && store == store0 - (set k | k in visits[..count])
              && (count < |visits| ==> near == if complex then visits[count].position else near0 + shift)
  {
    store, values, near, limited := store0, [], near0, false;
    var i := 0;
    while i < |visits|
      invariant 0 <= i <= count && near == near0 && !limited && (!complex ==> i < count) && !Capped(i, max)
      invariant values == seq(i, j requires 0 <= j < i => store0[visits[j]])
      invariant store == store0 - (set k | k in visits[..i])
    {
      var key := visits[i];
      if |values| >= count {
        near := key.position;
        return;
      }
      assert visits[..i + 1] == visits[..i] + [key];
      values := values + [store[key]];
      store := store - {key};
      i := i + 1;
      if |values| >= count && !complex {
        near := near + shift;
        return;
      }
      if Capped(i, max) {
        limited := true;
        return;
      }
    }
  }

  lemma KeysDistinct(keys: seq<Key>, store: map<Key, Bytes>)
    requires Increasing(keys) && Enumerates(keys, store)
    ensures forall i :: 0 <= i < |keys| ==> keys[i] in store
    ensures forall i, j :: 0 <= i < j < |keys| ==> keys[i] != keys[j]
    ensures |Values(keys, store)| == |keys|
    ensures forall i :: 0 <= i < |keys| ==> Values(keys, store)[i] == store[keys[i]]
  {
    assert forall i, j :: 0 <= i < j < |keys| ==> Before(keys[i], keys[j]);
  }

  /** Deleting the keys outside a stretch leaves the list of that stretch. */
  lemma StretchLeft(keys: seq<Key>, store0: map<Key, Bytes>, store: map<Key, Bytes>, a: nat, b: nat)
    requires Increasing(keys) && Enumerates(keys, store0) && a <= b <= |keys|
    requires forall k :: k in store <==> k in store0 && k in keys[a..b]
    requires forall k :: k in store ==> store[k] == store0[k]
    ensures Increasing(keys[a..b]) && Enumerates(keys[a..b], store)
    ensures Values(keys[a..b], store) == Values(keys, store0)[a..b]
  {
    hide Increasing;
    StretchIncreases(keys, a, b);
    forall k | k in keys[a..b] ensures k in keys {
    }
  }

  lemma StretchIncreases(keys: seq<Key>, a: nat, b: nat)
    requires Increasing(keys) && a <= b <= |keys|
    ensures Increasing(keys[a..b])
  {
  }

  lemma NoRepeats(keys: seq<Key>, i: nat, j: nat)
    requires Increasing(keys) && i < |keys| && j < |keys|
    ensures i != j ==> keys[i] != keys[j]
  {
    if i < j {
      assert Before(keys[i], keys[j]);
    } else if j < i {
      assert Before(keys[j], keys[i]);
    }
  }

  lemma InStretch(keys: seq<Key>, a: nat, b: nat, i: nat)
    requires Increasing(keys) && a <= b <= |keys| && i < |keys|
    ensures keys[i] in keys[a..b] <==> a <= i < b
  {
    if keys[i] in keys[a..b] {
      var j :| 0 <= j < b - a && keys[a..b][j] == keys[i];
      NoRepeats(keys, i, a + j);
    }
    if a <= i < b {
      assert keys[a..b][i - a] == keys[i];
    }
  }

  lemma LeftPopped(keys: seq<Key>, store0: map<Key, Bytes>, n: nat, store: map<Key, Bytes>)
    requires Increasing(keys) && Enumerates(keys, store0) && n <= |keys|
    requires store == store0 - (set k | k in keys[..n])
    ensures Enumerates(keys[n..], store) && Values(keys[n..], store) == Values(keys, store0)[n..]
  {
    forall k | k in store0
      ensures k in keys[..n] <==> k !in keys[n..]
    {
      var i :| 0 <= i < |keys| && keys[i] == k;
      InStretch(keys, 0, n, i);
      InStretch(keys, n, |keys|, i);
    }
    hide Increasing;
    assert keys[n..|keys|] == keys[n..];
    StretchLeft(keys, store0, store, n, |keys|);
  }

  ghost predicate Mirror<T>(a: seq<T>, b: seq<T>) {
    |a| == |b| && forall i :: 0 <= i < |a| ==> a[i] == b[|b| - 1 - i]
  }

  lemma RightPopped(keys: seq<Key>, visits: seq<Key>, store0: map<Key, Bytes>, n: nat, store: map<Key, Bytes>)
    requires Increasing(keys) && Enumerates(keys, store0) && n <= |keys| && Mirror(visits, keys)
    requires store == store0 - (set k | k in visits[..n])
    ensures var m := |keys| - n;
            Enumerates(keys[..m], store) && Values(keys[..m], store) == Values(keys, store0)[..m]
  {
    var m := |keys| - n;
    assert keys[0..m] == keys[..m];
    forall k | k in store0
      ensures k in visits[..n] <==> k !in keys[0..m]
    {
      var i :| 0 <= i < |keys| && keys[i] == k;
      hide Increasing, Enumerates;
      InStretch(keys, 0, m, i);
      if k in visits[..n] {
        var j :| 0 <= j < n && visits[..n][j] == k;
        assert keys[|keys| - 1 - j] == k;
        InStretch(keys, 0, m, |keys| - 1 - j);
      }
      if i >= m {
        assert visits[..n][|keys| - 1 - i] == k;
      }
    }
    hide Increasing;
    StretchLeft(keys, store0, store, 0, m);
  }

  lemma Reversal<T>(s: seq<T>)
    ensures Mirror(Reversed(s), s)
  {
  }

  function PopCount(optCount: nat, length: nat): (n: nat)
    ensures length > 0 ==> 0 < n <= length
  {
    var n := if optCount == 0 then 1 else optCount;
    if n > length then length else n
  }

  lemma CountIs(optCount: nat, length: nat)
    ensures length > 0 ==> 0 < PopCount(optCount, length) <= length
  {
  }

  method PopLeft(LIndex: real, RIndex: real, Length: nat, Complex: bool, store0: map<Key, Bytes>, optCount: nat,
                 ghost keys: seq<Key>) returns (values: seq<Bytes>, store: map<Key, Bytes>, left: real)
    requires Describes(LIndex, RIndex, Length, Complex, keys) && Enumerates(keys, store0) && Length > 0
    ensures var n := PopCount(optCount, Length);
            && values == Values(keys, store0)[..n]
            && Describes(left, RIndex, Length - n, Complex, keys[n..])
            && Enumerates(keys[n..], store) && Values(keys[n..], store) == Values(keys, store0)[n..]
  {
    hide Describes, Enumerates, Increasing, Scan;
    LengthIs(LIndex, RIndex, Length, Complex, keys, store0);
    var count := PopCount(optCount, Length);
    FullScan(LIndex, RIndex, Length, Complex, keys, store0);
    KeysDistinct(keys, store0);
    var visits := Scan(store0.Keys, LIndex, RIndex + 1.0);
    var limited;
    store, values, left, limited := PopScan(store0, visits, count, Complex, LIndex, count as real, count + 1);
    LeftPopped(keys, store0, count, store);
    SuffixDescribed(LIndex, RIndex, Length, Complex, keys, count, left);
  }

  method PopRight(LIndex: real, RIndex: real, Length: nat, Complex: bool, store0: map<Key, Bytes>, optCount: nat,
                  ghost keys: seq<Key>) returns (values: seq<Bytes>, store: map<Key, Bytes>, right: real)
    requires Describes(LIndex, RIndex, Length, Complex, keys) && Enumerates(keys, store0) && Length > 0
    ensures var n := PopCount(optCount, Length);
            var m := Length - n;
            && |Reversed(Values(keys, store0))| == Length && values == Reversed(Values(keys, store0))[..n]
            && Describes(LIndex, right, m, Complex, keys[..m])
            && Enumerates(keys[..m], store) && Values(keys[..m], store) == Values(keys, store0)[..m]
  {
    hide *;
    LengthIs(LIndex, RIndex, Length, Complex, keys, store0);
    CountIs(optCount, Length);
    var count := PopCount(optCount, Length);
    FullScan(LIndex, RIndex, Length, Complex, keys, store0);
    var visits := Reversed(Scan(store0.Keys, LIndex, RIndex + 1.0));
    Reversal(keys);
    MirrorDistinct(visits, keys, store0, count);
    BelowOwnCap(count, Complex);
    var limited;
    store, values, right, limited := PopScan(store0, visits, count, Complex, RIndex, -(count as real), count + 1);
    RightPopped(keys, visits, store0, count, store);
    PrefixDescribed(LIndex, RIndex, Length, Complex, keys, count, right);
  }

  lemma BelowOwnCap(count: nat, complex: bool)
    ensures count > 0 ==> !Capped(if complex then count else count - 1, count + 1)
  {
  }

  lemma MirrorDistinct(visits: seq<Key>, keys: seq<Key>, store: map<Key, Bytes>, n: nat)
    requires Mirror(visits, keys) && Increasing(keys) && Enumerates(keys, store) && n <= |keys|
    ensures |visits| == |keys|
    ensures forall i :: 0 <= i < |visits| ==> visits[i] in store
    ensures forall i, j :: 0 <= i < j < |visits| ==> visits[i] != visits[j]
    ensures |Reversed(Values(keys, store))| == |keys|
    ensures seq(n, i requires 0 <= i < n => store[visits[i]]) == Reversed(Values(keys, store))[..n]
  {
    KeysDistinct(keys, store);
    Reversal(Values(keys, store));
    hide Reversed, Values, Increasing;
  }

  lemma SuffixDescribed(LIndex: real, RIndex: real, Length: nat, Complex: bool, keys: seq<Key>, n: nat, left: real)
    requires Describes(LIndex, RIndex, Length, Complex, keys) && n <= Length
    requires n < Length ==> left == keys[n].position || (!Complex && left == LIndex + n as real)
    ensures Describes(left, RIndex, Length - n, Complex, keys[n..])
  {
    forall i | 0 <= i < |keys[n..]| && !Complex
      ensures keys[n..][i].position == left + i as real
    {
      assert keys[n + i].position == LIndex + (n + i) as real;
    }
  }

  lemma PrefixDescribed(LIndex: real, RIndex: real, Length: nat, Complex: bool, keys: seq<Key>, n: nat, right: real)
    requires Describes(LIndex, RIndex, Length, Complex, keys) && n <= Length
    requires n < Length ==>
               right == keys[Length - n - 1].position || (!Complex && right == RIndex - n as real)
    ensures Describes(LIndex, right, Length - n, Complex, keys[..Length - n])
  {
    if !Complex && n < Length {
      assert keys[Length - 1].position == LIndex + (Length - 1) as real;
      assert keys[Length - n - 1].position == LIndex + (Length - n - 1) as real;
    }
  }

  // ---------- LREM ----------

  /** The keys a removal of the first n occurrences of v leaves. */
  ghost function Kept(ks: seq<Key>, store: map<Key, Bytes>, v: Bytes, n: nat): seq<Key>
    requires forall k :: k in ks ==> k in store
  {
    if ks == [] || n == 0 then ks
    else if store[ks[0]] == v then Kept(ks[1..], store, v, n - 1)
    else [ks[0]] + Kept(ks[1..], store, v, n)
  }

  lemma {:induction false} KeptValues(ks: seq<Key>, store: map<Key, Bytes>, v: Bytes, n: nat)
    requires forall k :: k in ks ==> k in store
    ensures forall k :: k in Kept(ks, store, v, n) ==> k in ks
    ensures Values(Kept(ks, store, v, n), store) == RemoveFirst(Values(ks, store), v, n)
  {
    if ks != [] && n > 0 {
      var gone := store[ks[0]] == v;
      KeptValues(ks[1..], store, v, if gone then n - 1 else n);
      assert Values(ks, store)[1..] == Values(ks[1..], store);
      if !gone {
        assert Values(Kept(ks, store, v, n), store) == [store[ks[0]]] + Values(Kept(ks[1..], store, v, n), store);
      }
    }
  }

  ghost predicate Decreasing(ks: seq<Key>) {
    forall i, j :: 0 <= i < j < |ks| ==> Before(ks[j], ks[i])
  }

  lemma {:induction false} KeptOrder(ks: seq<Key>, store: map<Key, Bytes>, v: Bytes, n: nat)
    requires forall k :: k in ks ==> k in store
    ensures Increasing(ks) ==> Increasing(Kept(ks, store, v, n))
    ensures Decreasing(ks) ==> Decreasing(Kept(ks, store, v, n))
  {
    if ks != [] && n > 0 {
      var gone := store[ks[0]] == v;
      var rest := Kept(ks[1..], store, v, if gone then n - 1 else n);
      KeptOrder(ks[1..], store, v, if gone then n - 1 else n);
      KeptValues(ks[1..], store, v, if gone then n - 1 else n);
      forall i | 0 <= i < |rest|
        ensures Increasing(ks) ==> Before(ks[0], rest[i])
        ensures Decreasing(ks) ==> Before(rest[i], ks[0])
      {
        assert rest[i] in rest && rest[i] in ks[1..];
      }
    }
  }

  lemma SplitDistinct(ks: seq<Key>, i: nat)
    requires Distinct(ks) && i < |ks|
    ensures ks[i] !in ks[..i] && ks[i] !in ks[i + 1..]
    ensures ks[i..] == [ks[i]] + ks[i + 1..] && ks[..i + 1] == ks[..i] + [ks[i]]
    ensures ks[i] == ks[|ks| - 1] <==> i == |ks| - 1
  {
  }

  /** Where a removal scan stands: what it kept, what it has still to read, what is stored. */
  ghost predicate Removing(store0: map<Key, Bytes>, store: map<Key, Bytes>, visits: seq<Key>, v: Bytes, count: nat,
                           i: nat, kept: seq<Key>, c: nat)
  {
    && i <= |visits| && |kept| + c == i && c <= count
    && (forall k :: k in visits ==> k in store0)
    && (forall k :: k in kept ==> k in visits[..i])
    && (forall k :: k in store <==> k in kept || k in visits[i..])
    && (forall k :: k in store ==> k in store0 && store[k] == store0[k])
    && Kept(visits, store0, v, count) == kept + Kept(visits[i..], store0, v, count - c)
  }

  lemma RemovingStep(store0: map<Key, Bytes>, store: map<Key, Bytes>, visits: seq<Key>, v: Bytes, count: nat,
                     i: nat, kept: seq<Key>, c: nat)
    requires Distinct(visits) && Removing(store0, store, visits, v, count, i, kept, c)
    requires i < |visits| && c < count
    ensures visits[i] in store
    ensures if store[visits[i]] == v
            then Removing(store0, store - {visits[i]}, visits, v, count, i + 1, kept, c + 1)
            else Removing(store0, store, visits, v, count, i + 1, kept + [visits[i]], c)
  {
    SplitDistinct(visits, i);
    hide Distinct;
    var key := visits[i];
    assert key in visits[i..];
    assert visits[i..][1..] == visits[i + 1..];
    if store[key] != v {
      var rest := Kept(visits[i + 1..], store0, v, count - c);
      assert kept + ([key] + rest) == (kept + [key]) + rest;
    }
  }

  /** How many elements precede the n-th occurrence of v; all of them, if there are fewer. */
  function Nth(s: seq<Bytes>, v: Bytes, n: nat): (i: nat)
    requires n > 0
    ensures i <= |s|
  {
    if s == [] then 0
    else if s[0] != v then 1 + Nth(s[1..], v, n)
    else if n == 1 then 0
    else 1 + Nth(s[1..], v, n - 1)
  }

  /**
   * How often LREM of at most n occurrences asks for another element. It stops at the last removal,
   * one element later if nothing was kept before it, and on the last element if that goes.
   */
  function RemReads(s: seq<Bytes>, v: Bytes, n: nat): nat {
    if n == 0 || s == [] then 0
    else
      var i := Nth(s, v, n);
      if i == |s| then (if s[|s| - 1] == v then |s| - 1 else |s|)
      else if i == n - 1 && i < |s| - 1 then i + 1
      else i
  }

  /** A removal that has read i elements, and has not stopped. */
  ghost predicate Reading(s: seq<Bytes>, v: Bytes, n: nat, i: nat, c: nat, first: bool) {
    && i <= |s| && c <= n && c <= i && (first <==> c < i) && (n == 0 ==> i == 0)
    && (c < n ==> Nth(s, v, n) == i + Nth(s[i..], v, n - c))
    && (c == n > 0 ==> i == c < |s| && Nth(s, v, n) == i - 1)
    && (0 < i == |s| ==> s[i - 1] != v)
  }

  lemma ReadingBegins(s: seq<Bytes>, v: Bytes, n: nat)
    ensures Reading(s, v, n, 0, 0, false)
  {
    assert s[0..] == s;
  }

  lemma ReadingOn(s: seq<Bytes>, v: Bytes, n: nat, i: nat, c: nat, first: bool)
    requires Reading(s, v, n, i, c, first) && s != []
    ensures i <= RemReads(s, v, n) && (c == n || i == |s| ==> i == RemReads(s, v, n))
  {
  }

  lemma ReadingNext(s: seq<Bytes>, v: Bytes, n: nat, i: nat, c: nat, first: bool)
    requires Reading(s, v, n, i, c, first) && i < |s| && c < n
    ensures s[i] != v ==> Reading(s, v, n, i + 1, c, true)
    ensures s[i] == v ==> if i == |s| - 1 || (c + 1 == n && first) then RemReads(s, v, n) == i else Reading(s, v, n, i + 1, c + 1, first)
  {
    assert s[i..][1..] == s[i + 1..] && s[i..][0] == s[i];
    hide RemReads;
    if s[i] == v && (i == |s| - 1 || (c + 1 == n && first)) {
      LastRemoval(s, v, n, i, c);
    }
  }

  lemma LastRemoval(s: seq<Bytes>, v: Bytes, n: nat, i: nat, c: nat)
    requires i < |s| && c < n && c <= i && s[i] == v && Nth(s, v, n) == i + Nth(s[i..], v, n - c)
    requires i == |s| - 1 || (c + 1 == n && c < i)
    ensures RemReads(s, v, n) == i
  {
    assert s[i..][0] == v;
    if i == |s| - 1 {
      assert s[i..][1..] == [];
    }
  }

  /** Likewise with the header end it is moving and the position kept last. */
  ghost predicate Scanning(store0: map<Key, Bytes>, store: map<Key, Bytes>, visits: seq<Key>, v: Bytes, count: nat,
                           i: nat, kept: seq<Key>, c: nat, first: bool, near: real, pre: real)
  {
    && Removing(store0, store, visits, v, count, i, kept, c)
    && (first <==> kept != [])
    && (first ==> near == kept[0].position && pre == kept[|kept| - 1].position)
    && (!first && visits != [] ==> near == visits[0].position)
  }

  lemma ScanningBegins(store: map<Key, Bytes>, visits: seq<Key>, v: Bytes, count: nat, near: real)
    requires Enumerates(visits, store) && Distinct(visits)
    requires visits != [] ==> near == visits[0].position
    ensures Scanning(store, store, visits, v, count, 0, [], 0, false, near, 0.0)
  {
    assert visits[0..] == visits && [] + visits == visits;
  }

  lemma ScanningStep(store0: map<Key, Bytes>, store: map<Key, Bytes>, visits: seq<Key>, v: Bytes, count: nat,
                     i: nat, kept: seq<Key>, c: nat, first: bool, near: real, pre: real)
    requires Distinct(visits) && Scanning(store0, store, visits, v, count, i, kept, c, first, near, pre)
    requires i < |visits| && c < count
    ensures visits[i] in store && visits[i] in store0 && store[visits[i]] == store0[visits[i]]
    ensures var key := visits[i];
            if store[key] == v
            then Scanning(store0, store - {key}, visits, v, count, i + 1, kept, c + 1, first, near, pre)
            else Scanning(store0, store, visits, v, count, i + 1, kept + [key], c, true,
                          if first then near else key.position, key.position)
    ensures visits[i].position == visits[|visits| - 1].position <==> i == |visits| - 1
  {
    RemovingStep(store0, store, visits, v, count, i, kept, c);
    SplitDistinct(visits, i);
    RemovingValues(store0, store, visits, v, count, i, kept, c);
    hide Removing, Distinct;
  }

  lemma RemovingValues(store0: map<Key, Bytes>, store: map<Key, Bytes>, visits: seq<Key>, v: Bytes, count: nat,
                       i: nat, kept: seq<Key>, c: nat)
    requires Removing(store0, store, visits, v, count, i, kept, c)
    ensures forall k :: k in store ==> k in store0 && store[k] == store0[k]
  {
  }

  /** What a removal scan must hand back. */
  ghost predicate Removed(store0: map<Key, Bytes>, store: map<Key, Bytes>, visits: seq<Key>, v: Bytes, count: nat,
                          c: nat, near: real, far: real)
  {
    && (forall k :: k in visits ==> k in store0)
    && var kept := Kept(visits, store0, v, count);
       && c + |kept| == |visits| && Enumerates(kept, store)
       && (forall k :: k in store ==> k in store0 && store[k] == store0[k])
       && (kept != [] ==> near == kept[0].position && far == kept[|kept| - 1].position)
  }

  /** With the count used up, or everything read, the scan has its result. */
  lemma ScanningDone(store0: map<Key, Bytes>, store: map<Key, Bytes>, visits: seq<Key>, v: Bytes, count: nat,
                     i: nat, kept: seq<Key>, c: nat, first: bool, near: real, pre: real)
    requires Scanning(store0, store, visits, v, count, i, kept, c, first, near, pre)
    ensures i == |visits| ==> Removed(store0, store, visits, v, count, c, near, pre)
    ensures i < |visits| && c == count ==>
              Removed(store0, store, visits, v, count, c,
                      if first then near else visits[i].position, visits[|visits| - 1].position)
  {
    assert i == |visits| ==> visits[i..] == [] && kept + [] == kept;
    if c == count || i == |visits| {
      assert Kept(visits, store0, v, count) == kept + visits[i..];
    }
  }

  /** The callback of blRem; `near` and `far` are the header ends the scan meets first and last. */
  method RemScan(store0: map<Key, Bytes>, visits: seq<Key>, v: Bytes, limit: int, near0: real, far0: real, max: nat,
                 ghost count: nat)
    returns (store: map<Key, Bytes>, near: real, far: real, c: nat, limited: bool)
    requires Enumerates(visits, store0) && Distinct(visits) && count == if limit < 0 then 0 else limit
    requires visits != [] && near0 == visits[0].position && far0 == visits[|visits| - 1].position
    ensures forall k :: k in visits ==> k in store0
    ensures limited <==> Capped(RemReads(Values(visits, store0), v, count), max)
    ensures !limited ==> Removed(store0, store, visits, v, count, c, near, far)
  {
    hide *;
    EnumeratesIn(visits, store0);
    ScanningBegins(store0, visits, v, count, near0);
    ghost var s := Values(visits, store0);
    ValuesAt(visits, store0);
    ReadingBegins(s, v, count);
    NotCappedAtFirst(max);
    store, near, far, c, limited := store0, near0, far0, 0, false;
    var first, pre, i := false, 0.0, 0;
    ghost var kept: seq<Key> := [];
    while i < |visits|
      invariant Scanning(store0, store, visits, v, count, i, kept, c, first, near, pre)
      invariant Reading(s, v, count, i, c, first)
      invariant i <= |visits| && c <= count && far == far0 && !limited && !Capped(i, max)
      invariant c == count ==> !first
      invariant i == |visits| ==> first && pre == far0
    {
      ScanningDone(store0, store, visits, v, count, i, kept, c, first, near, pre);
      ReadingOn(s, v, count, i, c, first);
      var key := visits[i];
      if c >= limit {
        near := key.position;
        return;
      }
      ScanningStep(store0, store, visits, v, count, i, kept, c, first, near, pre);
      ReadingNext(s, v, count, i, c, first);
      i := i + 1;
      if store[key] != v {
        pre := key.position;
        if !first {
          near := key.position;
          first := true;
        }
        kept := kept + [key];
      } else {
        store := store - {key};
        c := c + 1;
        ScanningDone(store0, store, visits, v, count, i, kept, c, first, near, pre);
        if key.position == far {
          far := pre;
          return;
        }
        if c >= limit && first {
          return;
        }
      }
      ReadingOn(s, v, count, i, c, first);
      if Capped(i, max) {
        CappedToo(i, RemReads(s, v, count), max);
        limited := true;
        return;
      }
    }
    ScanningDone(store0, store, visits, v, count, i, kept, c, first, near, pre);
    ReadingOn(s, v, count, i, c, first);
  }

  lemma ValuesAt(keys: seq<Key>, store: map<Key, Bytes>)
    requires forall k :: k in keys ==> k in store
    ensures |Values(keys, store)| == |keys|
    ensures forall i :: 0 <= i < |keys| ==> keys[i] in store && Values(keys, store)[i] == store[keys[i]]
  {
  }

  /** The keys a removal leaves, put back in list order, describe the new list. */
  lemma RemovedForward(store0: map<Key, Bytes>, store: map<Key, Bytes>, keys: seq<Key>, v: Bytes, count: nat,
                       c: nat, near: real, far: real)
    requires Increasing(keys) && Enumerates(keys, store0)
    requires Removed(store0, store, keys, v, count, c, near, far)
    ensures var kept := Kept(keys, store0, v, count);
            && c <= |keys| && Describes(near, far, |keys| - c, true, kept) && Enumerates(kept, store)
            && Values(kept, store) == RemoveFirst(Values(keys, store0), v, count)
  {
    KeptOrder(keys, store0, v, count);
    KeptValues(keys, store0, v, count);
  }

  lemma MirrorOrder(a: seq<Key>, b: seq<Key>)
    requires Mirror(a, b)
    ensures Increasing(b) ==> Decreasing(a)
    ensures Decreasing(b) ==> Increasing(a)
    ensures forall k :: k in a <==> k in b
  {
    forall k | k in b
      ensures k in a
    {
      var i :| 0 <= i < |b| && b[i] == k;
      assert a[|b| - 1 - i] == k;
    }
  }

  lemma MirrorValues(visits: seq<Key>, keys: seq<Key>, store: map<Key, Bytes>)
    requires Mirror(visits, keys) && forall k :: k in keys ==> k in store
    ensures forall k :: k in visits ==> k in store
    ensures Values(visits, store) == Reversed(Values(keys, store))
  {
    Reversal(Values(keys, store));
    hide Reversed;
  }

  lemma BackwardValues(store0: map<Key, Bytes>, store: map<Key, Bytes>, keys: seq<Key>, v: Bytes, count: nat)
    requires forall k :: k in keys ==> k in store0
    requires (forall k :: k in store ==> k in store0 && store[k] == store0[k])
    requires Mirror(Reversed(keys), keys)
    ensures forall k :: k in Reversed(keys) ==> k in store0
    ensures var left := Kept(Reversed(keys), store0, v, count);
            (forall k :: k in left ==> k in store) ==>
              && (forall k :: k in Reversed(left) ==> k in store)
              && Values(Reversed(left), store) == Reversed(RemoveFirst(Reversed(Values(keys, store0)), v, count))
  {
    MirrorValues(Reversed(keys), keys, store0);
    var left := Kept(Reversed(keys), store0, v, count);
    KeptValues(Reversed(keys), store0, v, count);
    Reversal(left);
    if forall k :: k in left ==> k in store {
      MirrorValues(Reversed(left), left, store);
      hide Reversed, Kept, RemoveFirst;
      assert Values(left, store) == Values(left, store0);
    }
  }

  lemma RemovedBackward(store0: map<Key, Bytes>, store: map<Key, Bytes>, keys: seq<Key>, v: Bytes, count: nat,
                        c: nat, near: real, far: real)
    requires Increasing(keys) && Enumerates(keys, store0)
    requires Removed(store0, store, Reversed(keys), v, count, c, near, far)
    ensures var kept := Reversed(Kept(Reversed(keys), store0, v, count));
            && c <= |keys| && Describes(far, near, |keys| - c, true, kept) && Enumerates(kept, store)
            && Values(kept, store) == Reversed(RemoveFirst(Reversed(Values(keys, store0)), v, count))
  {
    var visits := Reversed(keys);
    var left := Kept(visits, store0, v, count);
    Reversal(keys);
    MirrorOrder(visits, keys);
    KeptOrder(visits, store0, v, count);
    Reversal(left);
    MirrorOrder(Reversed(left), left);
    BackwardValues(store0, store, keys, v, count);
    hide Reversed, Kept, RemoveFirst, Increasing, Decreasing, Values;
  }

  /** How often LREM asks for another element, from the side its count starts at. */
  function DroppedReads(s: seq<Bytes>, v: Bytes, n: int): nat {
    RemReads(if n >= 0 then s else Reversed(s), v, CountOf(n, |s|))
  }

  /** blRem on the parts of a list. */
  method RemList(LIndex: real, RIndex: real, Length: nat, Complex: bool, store0: map<Key, Bytes>,
                 optCount: int, v: Bytes, max: nat, ghost keys: seq<Key>)
    returns (c: nat, left: real, right: real, store: map<Key, Bytes>, limited: bool, ghost keys': seq<Key>)
    requires Describes(LIndex, RIndex, Length, Complex, keys) && Enumerates(keys, store0) && Length > 0 && IsInt64(optCount)
    ensures limited <==> Capped(DroppedReads(Values(keys, store0), v, optCount), max)
    ensures !limited ==>
              && c <= Length && c == Length - |Dropped(Values(keys, store0), v, optCount)|
              && Describes(left, right, Length - c, true, keys') && Enumerates(keys', store)
              && Values(keys', store) == Dropped(Values(keys, store0), v, optCount)
              && (c == 0 ==> Dropped(Values(keys, store0), v, optCount) == Values(keys, store0))
  {
    hide *;
    var limit := if optCount == 0 then Length else if optCount > 0 then optCount else Negated(optCount);
    ghost var count := CountOf(optCount, Length);
    keys' := [];
    LimitIs(optCount, Length);
    EnumeratesIn(keys, store0);
    LengthIs(LIndex, RIndex, Length, Complex, keys, store0);
    EndsAre(LIndex, RIndex, Length, Complex, keys);
    FullScan(LIndex, RIndex, Length, Complex, keys, store0);
    BothDistinct(keys, store0);
    EnumeratesIn(Reversed(keys), store0);
    DroppedReadsAre(Values(keys, store0), v, optCount);
    var visits := Scan(store0.Keys, LIndex, RIndex + 1.0);
    if optCount >= 0 {
      store, left, right, c, limited := RemScan(store0, visits, v, limit, LIndex, RIndex, max, count);
      if limited {
        return;
      }
      RemovedForward(store0, store, keys, v, count, c, left, right);
      keys' := Kept(keys, store0, v, count);
    } else {
      Reversal(keys);
      MirrorValues(Reversed(keys), keys, store0);
      store, right, left, c, limited := RemScan(store0, Reversed(visits), v, limit, RIndex, LIndex, max, count);
      if limited {
        return;
      }
      RemovedBackward(store0, store, keys, v, count, c, right, left);
      keys' := Reversed(Kept(Reversed(keys), store0, v, count));
    }
    DroppedIs(Values(keys, store0), v, optCount, count);
    RemovedLengths(left, right, Length - c, keys', store);
  }

  lemma DroppedReadsAre(s: seq<Bytes>, v: Bytes, n: int)
    ensures DroppedReads(s, v, n) == RemReads(if n >= 0 then s else Reversed(s), v, CountOf(n, |s|))
  {
  }

  /** How many occurrences a count lets go. */
  function CountOf(optCount: int, n: nat): nat {
    if optCount == MIN_INT64 then 0 else if optCount == 0 then n else if optCount > 0 then optCount else -optCount
  }

  lemma LimitIs(optCount: int, n: nat)
    requires IsInt64(optCount)
    ensures var limit := if optCount == 0 then n else if optCount > 0 then optCount else Negated(optCount);
            CountOf(optCount, n) == if limit < 0 then 0 else limit
  {
  }

  lemma DroppedIs(s: seq<Bytes>, v: Bytes, n: int, count: nat)
    requires IsInt64(n) && count == CountOf(n, |s|)
    ensures Dropped(s, v, n) == if n >= 0 then RemoveFirst(s, v, count)
                                else Reversed(RemoveFirst(Reversed(s), v, count))
    ensures |Dropped(s, v, n)| == |s| ==> Dropped(s, v, n) == s
  {
    hide Reversed, RemoveFirst, Remove;
    if n == MIN_INT64 {
      NoneRemoved(Reversed(s), v);
      ReversedTwice(s);
    } else {
      RemoveIs(s, v, n, count);
    }
  }

  lemma NothingDropped(v: Bytes, n: int, max: nat)
    ensures Dropped([], v, n) == [] && !Capped(DroppedReads([], v, n), max)
  {
  }

  lemma NoneRemoved(s: seq<Bytes>, v: Bytes)
    ensures RemoveFirst(s, v, 0) == s
  {
  }

  lemma EndsAre(LIndex: real, RIndex: real, Length: nat, Complex: bool, keys: seq<Key>)
    requires Describes(LIndex, RIndex, Length, Complex, keys) && Length > 0
    ensures |keys| == Length && keys[0].position == LIndex && keys[Length - 1].position == RIndex
  {
  }

  lemma RemovedLengths(left: real, right: real, n: nat, keys: seq<Key>, store: map<Key, Bytes>)
    requires Describes(left, right, n, true, keys) && Enumerates(keys, store)
    ensures |Values(keys, store)| == n
  {
  }

  lemma RemoveIs(s: seq<Bytes>, v: Bytes, n: int, count: nat)
    requires count == if n == 0 then |s| else if n > 0 then n else -n
    ensures Remove(s, v, n) == if n >= 0 then RemoveFirst(s, v, count)
                               else Reversed(RemoveFirst(Reversed(s), v, count))
    ensures |Remove(s, v, n)| == |s| ==> Remove(s, v, n) == s
  {
    SameLengthRemoval(s, v, count);
    Reversal(s);
    SameLengthRemoval(Reversed(s), v, count);
    Reversal(RemoveFirst(Reversed(s), v, count));
    Reversal(Reversed(s));
    hide Reversed, RemoveFirst;
  }

  lemma {:induction false} SameLengthRemoval(s: seq<Bytes>, v: Bytes, n: nat)
    ensures |RemoveFirst(s, v, n)| <= |s|
    ensures |RemoveFirst(s, v, n)| == |s| ==> RemoveFirst(s, v, n) == s
  {
    if s != [] && n > 0 {
      SameLengthRemoval(s[1..], v, if s[0] == v then n - 1 else n);
    }
  }

  lemma BothDistinct(keys: seq<Key>, store: map<Key, Bytes>)
    requires Increasing(keys) && Enumerates(keys, store)
    ensures Distinct(keys) && Distinct(Reversed(keys)) && Enumerates(Reversed(keys), store)
    ensures |Reversed(keys)| == |keys|
    ensures keys != [] ==> Reversed(keys)[0] == keys[|keys| - 1] && Reversed(keys)[|keys| - 1] == keys[0]
  {
    hide Increasing, Reversed;
    KeysDistinct(keys, store);
    Reversal(keys);
    MirrorOrder(Reversed(keys), keys);
  }

  // ---------- reading ----------

  /** A list position as LINDEX and LSET count it, negative from the right. */
  function Offset(i: int, length: nat): int {
    if i < 0 then i + length else i
  }

  /** The interior of a complex list is searched only below `max`. */
  predicate Reachable(i: int, length: nat, complex: bool, max: nat) {
    var j := Offset(i, length);
    0 <= j < length && (complex && 0 < j < length - 1 ==> j < max)
  }

  method Index(LIndex: real, RIndex: real, Length: nat, Complex: bool, store: map<Key, Bytes>, i0: int, max: nat,
               ghost keys: seq<Key>) returns (key: Option<Key>)
    requires Describes(LIndex, RIndex, Length, Complex, keys) && Enumerates(keys, store)
    ensures key.Some? <==> Reachable(i0, Length, Complex, max)
    ensures key.Some? ==> key.value == keys[Offset(i0, Length)]
  {
    if i0 >= Length {
      return None;
    }
    var i := if i0 < 0 then i0 + Length else i0;
    if i < 0 {
      return None;
    }
    if !Complex {
      assert keys[i].position == LIndex + i as real;
      return Some(EncodeFloat(LIndex + i as real));
    }
    if i == 0 {
      return Some(EncodeFloat(LIndex));
    } else if i == Length - 1 {
      return Some(EncodeFloat(RIndex));
    }
    if i >= max {
      return None;
    }
    FullScan(LIndex, RIndex, Length, Complex, keys, store);
    var visits := Scan(store.Keys, LIndex, RIndex + 1.0);
    var count := 0;
    while count < |visits|
      invariant count <= i
    {
      if count == i {
        return Some(visits[count]);
      }
      count := count + 1;
    }
  }

  datatype Bounds = OutOfRange | StartGreaterThanEnd | Slice(start: nat, end: nat)

  /** getStartEnd: the bounds of LRANGE and LTRIM against the list's length. */
  function StartEnd(start0: int, end0: int, length: nat): (b: Bounds)
    ensures b.Slice? ==> b.start <= b.end < length
  {
    var start := if Offset(start0, length) < 0 then 0 else Offset(start0, length);
    var end := Offset(end0, length);
    if start >= length then OutOfRange
    else if end < 0 then StartGreaterThanEnd
    else if start > (if end >= length then length - 1 else end) then StartGreaterThanEnd
    else Slice(start, if end >= length then length - 1 else end)
  }

  /** What LRANGE answers: the elements at the places i with start <= i <= end, negatives from the right. */
  lemma StartEndSelects(start: int, end: int, length: nat, i: nat)
    requires i < length
    ensures var b := StartEnd(start, end, length);
            (b.Slice? && b.start <= i <= b.end) <==>
              (if start < 0 then start + length else start) <= i <= if end < 0 then end + length else end
    ensures StartEnd(start, end, length).OutOfRange? <==> start >= length
  {
  }

  datatype RangeResult = ReachLimit | Elements(elements: seq<Bytes>)

  method Range(LIndex: real, RIndex: real, Length: nat, Complex: bool, store: map<Key, Bytes>,
               start0: int, end0: int, max: nat, ghost keys: seq<Key>) returns (r: RangeResult)
    requires Describes(LIndex, RIndex, Length, Complex, keys) && Enumerates(keys, store)
    ensures var b := StartEnd(start0, end0, Length);
            && (r.ReachLimit? <==> b.Slice? && Capped(if Complex then b.end else b.end - b.start + 1, max))
            && (r.Elements? ==>
                  r.elements == if b.Slice? then Values(keys, store)[b.start..b.end + 1] else [])
  {
    hide Describes, Increasing, Enumerates, Values, StartEnd;
    var b := StartEnd(start0, end0, Length);
    EnumeratesIn(keys, store);
    if !b.Slice? {
      return Elements([]);
    }
    LengthIs(LIndex, RIndex, Length, Complex, keys, store);
    StartEndInside(start0, end0, Length);
    ValuesStretch(keys, store, b.start, b.end + 1);
    var visits := RangeVisits(LIndex, RIndex, Length, Complex, store, b.start, b.end, keys);
    r := Collect(visits, store, Complex, b.start, b.end, max);
  }

  lemma ValuesStretch(keys: seq<Key>, store: map<Key, Bytes>, a: nat, b: nat)
    requires a <= b <= |keys| && forall k :: k in keys ==> k in store
    ensures forall k :: k in keys[a..b] ==> k in store
    ensures |Values(keys, store)| == |keys| && Values(keys[a..b], store) == Values(keys, store)[a..b]
  {
    forall k | k in keys[a..b] ensures k in keys {
    }
  }

  /** The scan of blRange: just the slice when dense, from the start otherwise. */
  method RangeVisits(LIndex: real, RIndex: real, Length: nat, Complex: bool, store: map<Key, Bytes>,
                     start: nat, end: nat, ghost keys: seq<Key>) returns (visits: seq<Key>)
    requires Describes(LIndex, RIndex, Length, Complex, keys) && Enumerates(keys, store) && start <= end < Length
    ensures visits == if Complex then keys else keys[start..end + 1]
  {
    hide *;
    LengthIs(LIndex, RIndex, Length, Complex, keys, store);
    FullScan(LIndex, RIndex, Length, Complex, keys, store);
    if !Complex {
      DenseScan(LIndex, RIndex, Length, Complex, keys, store, start, end + 1);
    }
    var s := if Complex then LIndex else LIndex + start as real;
    var e := if Complex then RIndex + 1.0 else LIndex + (end + 1) as real;
    visits := Scan(store.Keys, s, e);
  }

  /** The callback of blRange. */
  method Collect(visits: seq<Key>, store: map<Key, Bytes>, complex: bool, start: nat, end: nat, max: nat)
    returns (r: RangeResult)
    requires start <= end && (complex ==> end < |visits|)
    requires forall k :: k in visits ==> k in store
    ensures r.ReachLimit? <==> Capped(if complex then end else |visits|, max)
    ensures r.Elements? ==>
              r.elements == if complex then Values(visits, store)[start..end + 1] else Values(visits, store)
  {
    ghost var all := Values(visits, store);
    var ret, i := [], 0;
    while i < |visits|
      invariant 0 <= i <= |visits| && !Capped(i, max) && (complex ==> i <= end)
      invariant ret == if !complex then all[..i] else if i <= start then [] else all[start..i]
    {
      if !complex || i >= start {
        ret := ret + [store[visits[i]]];
      }
      i := i + 1;
      if complex && i > end {
        return Elements(ret);
      }
      if Capped(i, max) {
        return RangeResult.ReachLimit;
      }
    }
    r := Elements(ret);
  }

  lemma DenseScan(LIndex: real, RIndex: real, Length: nat, Complex: bool, keys: seq<Key>, store: map<Key, Bytes>,
                  a: nat, b: nat)
    requires Describes(LIndex, RIndex, Length, Complex, keys) && Enumerates(keys, store) && !Complex
    requires a <= b <= Length
    ensures Scan(store.Keys, LIndex + a as real, LIndex + b as real) == keys[a..b]
  {
    ScanIs(store.Keys, keys, LIndex + a as real, LIndex + b as real, a, b);
  }

  // ---------- LINSERT ----------

  lemma EndPositions(LIndex: real, RIndex: real, Length: nat, Complex: bool, keys: seq<Key>, i: nat)
    requires Describes(LIndex, RIndex, Length, Complex, keys) && i < Length
    ensures keys[i].position == LIndex <==> i == 0
    ensures keys[i].position == RIndex <==> i == Length - 1
  {
    if i > 0 { assert Before(keys[0], keys[i]); }
    if i < Length - 1 { assert Before(keys[i], keys[Length - 1]); }
  }

  /** How often the search for the pivot asks for another element: up to it, and past it for its successor. */
  function PivotReads(i: nat, length: nat, after: bool): nat {
    if after && i < length - 1 then i + 1 else i
  }

  /** Finds the pivot and the positions beside it. */
  method IndexValue(LIndex: real, RIndex: real, Length: nat, Complex: bool, store: map<Key, Bytes>, v: Bytes,
                    after: bool, max: nat, ghost keys: seq<Key>)
    returns (found: bool, pre: real, cur: real, next: real, limited: bool)
    requires Describes(LIndex, RIndex, Length, Complex, keys) && Enumerates(keys, store)
    ensures limited <==> Capped(PivotReads(FirstIndex(Values(keys, store), v), Length, after), max)
    ensures var j := FirstIndex(Values(keys, store), v);
            !limited ==>
              && (found <==> j < Length)
              && (found ==> cur == keys[j].position && (cur == LIndex <==> j == 0) && (cur == RIndex <==> j == Length - 1))
              && (found && j > 0 ==> pre == keys[j - 1].position)
              && (found && after && j < Length - 1 ==> next == keys[j + 1].position)
  {
    hide *;
    LengthIs(LIndex, RIndex, Length, Complex, keys, store);
    EnumeratesIn(keys, store);
    FullScan(LIndex, RIndex, Length, Complex, keys, store);
    KeysDistinct(keys, store);
    ghost var all := Values(keys, store);
    ghost var at := FirstIndex(all, v);
    FirstIndexIs(all, v);
    NotCappedAtFirst(max);
    PivotReadsAre(at, Length, after);
    var visits := Scan(store.Keys, LIndex, RIndex + 1.0);
    found, pre, cur, next, limited := false, 0.0, 0.0, 0.0, false;
    var i := 0;
    while i < |visits|
      invariant 0 <= i <= Length && (found ==> i > 0 && i < Length) && !limited && !Capped(i, max)
      invariant found ==> at == i - 1 && (cur == LIndex <==> i == 1) && cur != RIndex
      invariant !found ==> i <= at
      invariant i > 0 ==> cur == keys[i - 1].position
      invariant i > 1 ==> pre == keys[i - 2].position
      invariant found ==> after
    {
      if found {
        next := visits[i].position;
        break;
      }
      pre := cur;
      cur := visits[i].position;
      if store[visits[i]] == v {
        found := true;
        EndPositions(LIndex, RIndex, Length, Complex, keys, i);
        if !after || cur == RIndex {
          return;
        }
      }
      i := i + 1;
      if Capped(i, max) {
        CappedToo(i, PivotReads(at, Length, after), max);
        limited := true;
        return;
      }
    }
  }

  lemma PivotReadsAre(i: nat, length: nat, after: bool)
    ensures PivotReads(i, length, after) == if after && i < length - 1 then i + 1 else i
  {
  }

  lemma PutBetween(keys: seq<Key>, store: map<Key, Bytes>, j: nat, key: Key, v: Bytes)
    requires Increasing(keys) && Enumerates(keys, store) && 0 < j < |keys|
    requires Before(keys[j - 1], key) && Before(key, keys[j])
    ensures |Values(keys, store)| == |keys|
    ensures var all := keys[..j] + [key] + keys[j..];
            && Increasing(all) && Enumerates(all, store[key := v])
            && Values(all, store[key := v]) == Values(keys, store)[..j] + [v] + Values(keys, store)[j..]
  {
    hide Enumerates, Increasing, Values;
    var all := keys[..j] + [key] + keys[j..];
    IncreasingBetween(keys, j, key);
    assert keys == keys[..j] + keys[j..];
    EnumeratesPut(keys, all, store, key, v);
    EnumeratesIn(keys, store);
    EnumeratesIn(all, store[key := v]);
    ValuesBetween(keys, store, j, key, v);
  }

  lemma IncreasingBetween(keys: seq<Key>, j: nat, key: Key)
    requires Increasing(keys) && 0 < j < |keys| && Before(keys[j - 1], key) && Before(key, keys[j])
    ensures Increasing(keys[..j] + [key] + keys[j..]) && key !in keys
  {
    var all := keys[..j] + [key] + keys[j..];
    forall i | 0 <= i < |keys|
      ensures if i < j then Before(keys[i], key) else Before(key, keys[i])
    {
      if i < j - 1 { assert Before(keys[i], keys[j - 1]); }
      if i > j { assert Before(keys[j], keys[i]); }
    }
  }

  lemma ValuesBetween(keys: seq<Key>, store: map<Key, Bytes>, j: nat, key: Key, v: Bytes)
    requires j <= |keys| && key !in keys && forall k :: k in keys ==> k in store
    ensures var all := keys[..j] + [key] + keys[j..];
            && (forall k :: k in all ==> k in store[key := v])
            && |Values(keys, store)| == |keys|
            && Values(all, store[key := v]) == Values(keys, store)[..j] + [v] + Values(keys, store)[j..]
  {
    var all := keys[..j] + [key] + keys[j..];
    assert keys == keys[..j] + keys[j..];
    forall i | 0 <= i < |keys| ensures keys[i] in store && keys[i] != key {
      assert keys[i] in keys;
    }
  }

  lemma EnumeratesPut(keys: seq<Key>, all: seq<Key>, store: map<Key, Bytes>, key: Key, v: Bytes)
    requires Enumerates(keys, store) && forall k :: k in all <==> k == key || k in keys
    ensures Enumerates(all, store[key := v])
  {
  }

  lemma EnumeratesIn(keys: seq<Key>, store: map<Key, Bytes>)
    requires Enumerates(keys, store)
    ensures forall k :: k in keys ==> k in store
    ensures forall i :: 0 <= i < |keys| ==> keys[i] in store
  {
  }

  /** Where LINSERT puts its element. */
  datatype Place = Limit | Absent | Front | Back | Crowded | Between(key: Key)

  method FindPlace(LIndex: real, RIndex: real, Length: nat, Complex: bool, store: map<Key, Bytes>, before: bool,
                   pivot: Bytes, max: nat, ghost keys: seq<Key>) returns (place: Place, ghost at: nat)
    requires Describes(LIndex, RIndex, Length, Complex, keys) && Enumerates(keys, store)
    ensures |keys| == |Values(keys, store)| == Length
    ensures var j := FirstIndex(Values(keys, store), pivot);
            && at == (if before then j else j + 1)
            && (place.Limit? <==> Capped(PivotReads(j, Length, !before), max))
            && (place.Absent? ==> j == Length)
            && (place.Front? ==> before && j == 0 < Length)
            && (place.Back? ==> !before && j == Length - 1)
            && (j == Length ==> place.Limit? || place.Absent?)
            && (place.Crowded? || place.Between? ==> 0 < at < Length)
            && (place.Between? ==> Before(keys[at - 1], place.key) && Before(place.key, keys[at]))
  {
    hide Describes, Enumerates, Values, FirstIndex;
    EnumeratesIn(keys, store);
    LengthIs(LIndex, RIndex, Length, Complex, keys, store);
    var found, pre, cur, next, limited := IndexValue(LIndex, RIndex, Length, Complex, store, pivot, !before, max, keys);
    ghost var j := FirstIndex(Values(keys, store), pivot);
    at := if before then j else j + 1;
    if limited {
      return Limit, at;
    }
    if !found {
      return Absent, at;
    }
    if before && cur == LIndex {
      return Front, at;
    }
    if !before && cur == RIndex {
      return Back, at;
    }
    assert Before(keys[at - 1], keys[at]);
    var m: Option<real>;
    if before {
      m := MiddleFloat(pre, cur);
    } else {
      m := MiddleFloat(cur, next);
    }
    place := if m.None? then Crowded else Between(EncodeFloat(m.value));
  }

  lemma FrontInsert(s: seq<Bytes>, pivot: Bytes, x: Bytes)
    requires FirstIndex(s, pivot) == 0 < |s|
    ensures Reversed([x]) + s == Insert(s, true, pivot, x)
  {
    assert Reversed([x]) == [x];
    assert [x] + s == s[..0] + [x] + s[0..];
  }

  lemma BackInsert(s: seq<Bytes>, pivot: Bytes, x: Bytes)
    requires FirstIndex(s, pivot) == |s| - 1
    ensures s + [x] == Insert(s, false, pivot, x)
  {
    assert s + [x] == s[..|s|] + [x] + s[|s|..];
  }

  /** The header after an insertion between two elements. */
  lemma Described(LIndex: real, RIndex: real, Length: nat, Complex: bool, keys: seq<Key>, store: map<Key, Bytes>,
                  at: nat, key: Key, x: Bytes)
    requires Describes(LIndex, RIndex, Length, Complex, keys) && Enumerates(keys, store) && 0 < at < |keys|
    requires Before(keys[at - 1], key) && Before(key, keys[at])
    ensures |Values(keys, store)| == |keys|
    ensures var all := keys[..at] + [key] + keys[at..];
            && Describes(LIndex, RIndex, Length + 1, true, all) && Enumerates(all, store[key := x])
            && Values(all, store[key := x]) == Values(keys, store)[..at] + [x] + Values(keys, store)[at..]
  {
    LengthIs(LIndex, RIndex, Length, Complex, keys, store);
    hide Increasing, Enumerates, Values;
    PutBetween(keys, store, at, key, x);
  }

  datatype InsertResult = ReachLimit | NotFound | Precision | Inserted(length: nat)

  // ---------- LTRIM ----------

  /** txn.List on positions: reversed bounds mean a descending scan. */
  function ListScan(s: set<Key>, start: real, end: real): seq<Key> {
    if start <= end then Scan(s, start, end) else Reversed(Scan(s, end, start))
  }

  method DeleteAll(store0: map<Key, Bytes>, visits: seq<Key>, max: nat) returns (store: map<Key, Bytes>, limited: bool)
    ensures limited <==> Capped(|visits|, max)
    ensures !limited ==> store == store0 - (set k | k in visits)
  {
    store, limited := store0, false;
    for i := 0 to |visits|
      invariant store == store0 - (set k | k in visits[..i]) && !limited && !Capped(i, max)
    {
      assert visits[..i + 1] == visits[..i] + [visits[i]];
      store := store - {visits[i]};
      if Capped(i + 1, max) {
        limited := true;
        return;
      }
    }
    assert visits[..|visits|] == visits;
  }

  lemma KeepStretch(keys: seq<Key>, store0: map<Key, Bytes>, a: nat, b: nat, gone: set<Key>)
    requires Increasing(keys) && Enumerates(keys, store0) && a <= b <= |keys|
    requires forall k :: k in gone && k in store0 ==> k in keys[b..]
    requires forall k :: k in keys[b..] ==> k in gone
    ensures a == 0 ==> Enumerates(keys[..b], store0 - gone) && Values(keys[..b], store0 - gone) == Values(keys, store0)[..b]
  {
    forall k | k in store0
      ensures k in keys[b..] <==> k !in keys[0..b]
    {
      var i :| 0 <= i < |keys| && keys[i] == k;
      InStretch(keys, b, |keys|, i);
      InStretch(keys, 0, b, i);
    }
    assert keys[b..|keys|] == keys[b..] && keys[0..b] == keys[..b];
    hide Increasing;
    StretchLeft(keys, store0, store0 - gone, 0, b);
  }

  /** The right-hand pass of blTrim over a dense list reads everything from index `cut` on. */
  lemma DenseVisits(LIndex: real, RIndex: real, Length: nat, keys: seq<Key>, store: map<Key, Bytes>, cut: nat)
    requires Describes(LIndex, RIndex, Length, false, keys) && Enumerates(keys, store) && Length > 0
    ensures ListScan(store.Keys, LIndex + cut as real, RIndex + 1.0) == keys[if cut > Length then Length else cut..]
  {
    var from := LIndex + cut as real;
    assert keys[Length - 1].position == LIndex + (Length - 1) as real;
    if cut <= Length {
      DenseScan(LIndex, RIndex, Length, false, keys, store, cut, Length);
      assert LIndex + Length as real == RIndex + 1.0;
      assert keys[cut..Length] == keys[cut..];
    } else {
      ScanIs(store.Keys, keys, RIndex + 1.0, from, Length, Length);
    }
  }

  /** The index blTrim's deletions actually reach down to. */
  function TrimEnd(length: nat, complex: bool, start: nat, end: nat): nat {
    if complex || end + 1 >= length then end + 1
    else if start + end + 1 > length then length
    else start + end + 1
  }

  lemma SuffixScan(LIndex: real, RIndex: real, Length: nat, Complex: bool, keys: seq<Key>, store: map<Key, Bytes>,
                   low: real)
    requires Describes(LIndex, RIndex, Length, Complex, keys) && Enumerates(keys, store) && low <= LIndex
    ensures Scan(store.Keys, low, RIndex + 1.0) == keys
  {
    forall i | 0 <= i < |keys|
      ensures LIndex <= keys[i].position <= RIndex
    {
      EndOrder(keys, i);
    }
    ScanIs(store.Keys, keys, low, RIndex + 1.0, 0, |keys|);
    assert keys[0..|keys|] == keys;
  }

  lemma EndOrder(keys: seq<Key>, i: nat)
    requires Increasing(keys) && i < |keys|
    ensures keys[0].position <= keys[i].position <= keys[|keys| - 1].position
  {
    assert i == 0 || Before(keys[0], keys[i]);
    assert i == |keys| - 1 || Before(keys[i], keys[|keys| - 1]);
  }

  /** The second pass of blTrim, on what the first pass left; `low` is where the scan starts. */
  method TrimRight(LIndex: real, RIndex: real, Length: nat, Complex: bool, store0: map<Key, Bytes>, low: real,
                   cut: nat, keep: nat, max: nat, ghost keys: seq<Key>)
    returns (right: real, store: map<Key, Bytes>, limited: bool)
    requires Describes(LIndex, RIndex, Length, Complex, keys) && Enumerates(keys, store0)
    requires 0 < keep < Length && keep <= cut && low <= LIndex
    ensures var t := if Complex then keep else if cut > Length then Length else cut;
            && (limited <==> Capped(Length - t, max))
            && (!limited ==>
                  && Describes(LIndex, right, keep, Complex, keys[..keep])
                  && Enumerates(keys[..t], store)
                  && Values(keys[..t], store) == Values(keys, store0)[..t])
  {
    assert |keys| == Length && Increasing(keys);
    var n := Length - keep;
    if !Complex {
      DenseVisits(LIndex, RIndex, Length, keys, store0, cut);
      var visits := ListScan(store0.Keys, LIndex + cut as real, RIndex + 1.0);
      store, limited := DeleteAll(store0, visits, max);
      right := RIndex - n as real;
      if limited {
        return;
      }
      KeepStretch(keys, store0, 0, if cut > Length then Length else cut, set k | k in visits);
    } else {
      SuffixScan(LIndex, RIndex, Length, Complex, keys, store0, low);
      Reversal(keys);
      MirrorDistinct(Reversed(keys), keys, store0, n);
      var values;
      hide Reversed, Describes, Increasing, Enumerates, Values;
      store, values, right, limited :=
        PopScan(store0, Reversed(Scan(store0.Keys, low, RIndex + 1.0)), n, true, RIndex, 0.0, max);
      if limited {
        return;
      }
      RightPopped(keys, Reversed(keys), store0, n, store);
    }
    PrefixDescribed(LIndex, RIndex, Length, Complex, keys, n, right);
  }

  /** The first pass of blTrim; its callback is that of a pop which looks one element further. */
  method TrimLeft(LIndex: real, RIndex: real, Length: nat, Complex: bool, store0: map<Key, Bytes>, start: nat,
                  max: nat, ghost keys: seq<Key>) returns (left: real, store: map<Key, Bytes>, limited: bool)
    requires Describes(LIndex, RIndex, Length, Complex, keys) && Enumerates(keys, store0) && start <= Length
    ensures limited <==> Capped(start, max)
    ensures !limited ==>
              && Describes(left, RIndex, Length - start, Complex, keys[start..])
              && (start < Length ==> LIndex <= left)
              && Enumerates(keys[start..], store) && Values(keys[start..], store) == Values(keys, store0)[start..]
  {
    left, store, limited := LIndex, store0, false;
    if start > 0 {
      FullScan(LIndex, RIndex, Length, Complex, keys, store0);
      KeysDistinct(keys, store0);
      var values;
      store, values, left, limited := PopScan(store0, Scan(store0.Keys, LIndex, RIndex + 1.0), start, true, LIndex, 0.0, max);
      if limited {
        return;
      }
      LeftPopped(keys, store0, start, store);
      if start < Length { EndOrder(keys, start); }
    } else {
      assert keys[0..] == keys && Values(keys, store0)[0..] == Values(keys, store0);
    }
    SuffixDescribed(LIndex, RIndex, Length, Complex, keys, start, left);
  }

  /** Whether one of the two passes of a trim runs into the scan cap. */
  predicate TrimCapped(length: nat, complex: bool, start: nat, end: nat, max: nat)
    requires start <= end < length
  {
    Capped(start, max) || (end < length - 1 && Capped(length - TrimEnd(length, complex, start, end), max))
  }

  /** blTrim to the slice [start, end]. */
  method TrimList(LIndex: real, RIndex: real, Length: nat, Complex: bool, store0: map<Key, Bytes>,
                  start: nat, end: nat, max: nat, ghost keys: seq<Key>)
    returns (left: real, right: real, store: map<Key, Bytes>, limited: bool)
    requires Describes(LIndex, RIndex, Length, Complex, keys) && Enumerates(keys, store0) && start <= end < Length
    ensures limited <==> TrimCapped(Length, Complex, start, end, max)
    ensures var t := TrimEnd(Length, Complex, start, end);
            !limited ==>
              && Describes(left, right, end + 1 - start, Complex, keys[start..end + 1])
              && Enumerates(keys[start..t], store)
              && Values(keys[start..t], store) == Values(keys, store0)[start..t]
  {
    hide *;
    EnumeratesIn(keys, store0);
    LengthIs(LIndex, RIndex, Length, Complex, keys, store0);
    right := RIndex;
    left, store, limited := TrimLeft(LIndex, RIndex, Length, Complex, store0, start, max, keys);
    TrimSlices(keys, Values(keys, store0), Length, Complex, start, end);
    TrimCappedIs(Length, Complex, start, end, max);
    if limited {
      return;
    }
    if end < Length - 1 {
      right, store, limited := TrimRight(left, RIndex, Length - start, Complex, store, LIndex, end + 1, end + 1 - start, max,
                                         keys[start..]);
    }
  }

  lemma TrimCappedIs(length: nat, complex: bool, start: nat, end: nat, max: nat)
    requires start <= end < length
    ensures TrimCapped(length, complex, start, end, max) <==>
              || Capped(start, max)
              || (end < length - 1 &&
                  var n := length - start;
                  Capped(n - (if complex then end + 1 - start else if end + 1 > n then n else end + 1), max))
  {
  }

  lemma TrimSlices(keys: seq<Key>, values: seq<Bytes>, length: nat, complex: bool, start: nat, end: nat)
    requires |keys| == length && start <= end < length && |values| == length
    ensures end == length - 1 ==>
              && TrimEnd(length, complex, start, end) == end + 1
              && keys[start..end + 1] == keys[start..] && values[start..end + 1] == values[start..]
    ensures end < length - 1 ==> var t, n := TrimEnd(length, complex, start, end), length - start;
            var u := if complex then end + 1 - start else if end + 1 > n then n else end + 1;
            && start <= t <= length && u <= n
            && keys[start..][..u] == keys[start..t] && values[start..][..u] == values[start..t]
            && keys[start..][..end + 1 - start] == keys[start..end + 1]
  {
  }

  datatype PopResult = Nil | Popped(popped: seq<Bytes>) {
    function Values(): seq<Bytes> {
      if Nil? then [] else popped
    }
  }

  /** What a pop takes off the end that comes first in `s`. */
  function PopSpec(count: nat, s: seq<Bytes>): PopResult {
    var n := if count == 0 then 1 else count;
    if s == [] then Nil else Popped(if n <= |s| then s[..n] else s)
  }

  class List {
    var LIndex: real
    var RIndex: real
    var Length: nat
    var Complex: bool
    var store: map<Key, Bytes>
    ghost var keys: seq<Key>

    ghost predicate Valid()
      reads this
    {
      Describes(LIndex, RIndex, Length, Complex, keys) && Enumerates(keys, store)
    }

    /** A header elements may be pushed under: an empty list has both ends in one place. */
    ghost predicate Ready()
      reads this
    {
      Valid() && (Length == 0 ==> LIndex == RIndex)
    }

    ghost function Contents(): seq<Bytes>
      requires Valid()
      reads this
    {
      Values(keys, store)
    }

    constructor ()
      ensures Ready() && Contents() == []
    {
      LIndex, RIndex, Length, Complex, store, keys := 0.0, 0.0, 0, false, map[], [];
    }

    method BlPush(args: seq<Bytes>) returns (length: nat)
      requires Ready()
      modifies this
      ensures Ready() && Contents() == Reversed(args) + old(Contents())
      ensures length == |old(Contents())| + |args| && Complex == old(Complex)
    {
      hide Describes, Enumerates, Values, Reversed;
      LengthIs(LIndex, RIndex, Length, Complex, keys, store);
      ReverseNothing(args);
      for i := 0 to |args|
        invariant Ready() && Contents() == Reversed(args[..i]) + old(Contents())
        invariant Length == i + |old(Contents())| && Complex == old(Complex)
      {
        PushedLeft(LIndex, RIndex, Length, Complex, keys, store, args[i]);
        if Length > 0 {
          LIndex := LIndex - 1.0;
        }
        var key := EncodeFloat(LIndex);
        store := store[key := args[i]];
        Length := Length + 1;
        keys := [key] + keys;
        PushReversed(args, i, old(Contents()));
      }
      assert args[..|args|] == args;
      length := Length;
    }

    method BrPush(args: seq<Bytes>) returns (length: nat)
      requires Ready()
      modifies this
      ensures Ready() && Contents() == old(Contents()) + args
      ensures length == |old(Contents())| + |args| && Complex == old(Complex)
    {
      hide Describes, Enumerates, Values;
      LengthIs(LIndex, RIndex, Length, Complex, keys, store);
      for i := 0 to |args|
        invariant Ready() && Contents() == old(Contents()) + args[..i]
        invariant Length == i + |old(Contents())| && Complex == old(Complex)
      {
        PushedRight(LIndex, RIndex, Length, Complex, keys, store, args[i]);
        if Length > 0 {
          RIndex := RIndex + 1.0;
        }
        var key := EncodeFloat(RIndex);
        store := store[key := args[i]];
        Length := Length + 1;
        keys := keys + [key];
        assert args[..i + 1] == args[..i] + [args[i]];
      }
      assert args[..|args|] == args;
      length := Length;
    }

    /** LPOP: the first elements, as many as asked for and there are. */
    method BlPop(optCount: nat) returns (ret: PopResult)
      requires Valid()
      modifies this
      ensures Valid() && Complex == old(Complex)
      ensures ret == PopSpec(optCount, old(Contents()))
      ensures Contents() == old(Contents())[|ret.Values()|..]
    {
      hide Describes, Enumerates, Values;
      LengthIs(LIndex, RIndex, Length, Complex, keys, store);
      if Length == 0 {
        return Nil;
      }
      var values, store', left := PopLeft(LIndex, RIndex, Length, Complex, store, optCount, keys);
      store, LIndex, Length, keys := store', left, Length - PopCount(optCount, Length), keys[PopCount(optCount, Length)..];
      ret := Popped(values);
    }

    /** RPOP: the last elements, last first. */
    method BrPop(optCount: nat) returns (ret: PopResult)
      requires Valid()
      modifies this
      ensures Valid() && Complex == old(Complex)
      ensures ret == PopSpec(optCount, Reversed(old(Contents())))
      ensures |ret.Values()| <= |old(Contents())|
      ensures Contents() == old(Contents())[..|old(Contents())| - |ret.Values()|]
    {
      hide Describes, Enumerates, Values, Reversed;
      LengthIs(LIndex, RIndex, Length, Complex, keys, store);
      if Length == 0 {
        ReverseNothing(Contents());
        return Nil;
      }
      var values, store', right := PopRight(LIndex, RIndex, Length, Complex, store, optCount, keys);
      store, RIndex, Length := store', right, Length - PopCount(optCount, Length);
      keys := keys[..Length];
      ret := Popped(values);
    }

    /** LREM; a list that loses nothing is left as it was, and so is one whose scan runs into its cap: None. */
    method BlRem(optCount: int, v: Bytes, max: nat) returns (c: Option<nat>)
      requires Valid() && IsInt64(optCount)
      modifies this
      ensures Valid()
      ensures c.None? <==> Capped(DroppedReads(old(Contents()), v, optCount), max)
      ensures c.Some? ==>
                && Contents() == Dropped(old(Contents()), v, optCount)
                && c.value == |old(Contents())| - |Contents()|
      ensures c.None? || c.value == 0 ==> unchanged(this)
    {
      hide Describes, Enumerates, Values, Dropped, DroppedReads, Capped;
      LengthIs(LIndex, RIndex, Length, Complex, keys, store);
      if Length == 0 {
        NothingDropped(v, optCount, max);
        return Some(0);
      }
      var n, left, right, store', limited;
      ghost var keys';
      n, left, right, store', limited, keys' := RemList(LIndex, RIndex, Length, Complex, store, optCount, v, max, keys);
      if limited {
        return None;
      }
      if n > 0 {
        store, LIndex, RIndex, Length, Complex, keys := store', left, right, Length - n, true, keys';
      }
      c := Some(n);
    }

    method BlIndex(i: int, max: nat) returns (v: Option<Bytes>)
      requires Valid()
      ensures v == if Reachable(i, Length, Complex, max) then Some(Contents()[Offset(i, Length)]) else None
    {
      var key := Index(LIndex, RIndex, Length, Complex, store, i, max, keys);
      v := if key.None? then None else Some(store[key.value]);
    }

    /** LSET; false is the out-of-range error, which changes nothing. */
    method BlSet(i: int, v: Bytes, max: nat) returns (ok: bool)
      requires Valid()
      modifies this`store
      ensures Valid() && ok == Reachable(i, Length, Complex, max)
      ensures Contents() == if ok then old(Contents())[Offset(i, Length) := v] else old(Contents())
    {
      var key := Index(LIndex, RIndex, Length, Complex, store, i, max, keys);
      ok := key.Some?;
      if ok {
        KeysDistinct(keys, store);
        store := store[key.value := v];
      }
    }

    /** LRANGE. */
    method BlRange(start: int, end: int, max: nat) returns (r: RangeResult)
      requires Valid()
      ensures var b := StartEnd(start, end, Length);
              && (r.ReachLimit? <==> b.Slice? && Capped(if Complex then b.end else b.end - b.start + 1, max))
              && (r.Elements? ==> r.elements == if b.Slice? then Contents()[b.start..b.end + 1] else [])
    {
      r := Range(LIndex, RIndex, Length, Complex, store, start, end, max, keys);
    }

    /**
     * LINSERT. Only an insertion between two elements can run out of precision, and then nothing
     * changes; an insertion beyond either end is a push.
     */
    method BlInsert(before: bool, pivot: Bytes, x: Bytes, max: nat) returns (r: InsertResult)
      requires Ready()
      modifies this
      ensures Ready()
      ensures var i, s := FirstIndex(old(Contents()), pivot), old(Contents());
              && (r.ReachLimit? <==> Capped(PivotReads(i, |s|, !before), max))
              && (r.NotFound? ==> i == |s|) && (i == |s| ==> r.ReachLimit? || r.NotFound?)
              && (r.ReachLimit? || r.NotFound? || r.Precision? ==> unchanged(this))
              && (r.Precision? ==> 0 < (if before then i else i + 1) < |s|)
              && (r.Inserted? ==> Contents() == Insert(s, before, pivot, x) && r.length == |Contents()|)
    {
      hide Describes, Increasing, Enumerates, Values, FirstIndex, Reversed;
      ghost var s := Contents();
      LengthIs(LIndex, RIndex, Length, Complex, keys, store);
      var place;
      ghost var at;
      place, at := FindPlace(LIndex, RIndex, Length, Complex, store, before, pivot, max, keys);
      match place {
        case Limit =>
          r := InsertResult.ReachLimit;
        case Absent =>
          r := NotFound;
        case Front =>
          FrontInsert(s, pivot, x);
          var n := BlPush([x]);
          r := Inserted(n);
        case Back =>
          BackInsert(s, pivot, x);
          var n := BrPush([x]);
          r := Inserted(n);
        case Crowded =>
          r := Precision;
        case Between(key) =>
          Described(LIndex, RIndex, Length, Complex, keys, store, at, key, x);
          store := store[key := x];
          Complex := true;
          Length := Length + 1;
          keys := keys[..at] + [key] + keys[at..];
          r := Inserted(Length);
      }
    }

    /**
     * LTRIM. A start past the end leaves the list alone, crossing bounds empty it, and otherwise the
     * header describes the slice. The keys agree with the header exactly when the list is complex
     * or one of the ends stays: cutting both ends of a dense list leaves keys behind on the right.
     */
    method BlTrim(start: int, end: int, max: nat) returns (ok: bool)
      requires Valid()
      modifies this
      ensures var b, n, s := StartEnd(start, end, old(Length)), old(Length), old(Contents());
              match b
              case OutOfRange => ok && unchanged(this)
              case StartGreaterThanEnd => (ok <==> !Capped(n, max)) && if ok then Valid() && Contents() == [] else unchanged(this)
              case Slice(i, j) =>
                && (ok <==> !TrimCapped(n, old(Complex), i, j, max))
                && (!ok ==> unchanged(this))
                && (ok ==>
                      && Describes(LIndex, RIndex, Length, Complex, keys)
                      && keys == old(keys)[i..j + 1] && Complex == old(Complex)
                      && Shows(keys, store, s[i..j + 1])
                      && (Valid() <==> Complex || i == 0 || j == n - 1))
    {
      hide Describes, Increasing, Enumerates, Values, StartEnd, TrimCapped, Capped;
      EnumeratesIn(keys, store);
      LengthIs(LIndex, RIndex, Length, Complex, keys, store);
      StartEndInside(start, end, Length);
      match StartEnd(start, end, Length) {
        case OutOfRange =>
          ok := true;
        case StartGreaterThanEnd =>
          var left, store', limited := TrimLeft(LIndex, RIndex, Length, Complex, store, Length, max, keys);
          if limited {
            return false;
          }
          assert keys[Length..] == [];
          LIndex, store, Length, keys, ok := left, store', 0, [], true;
        case Slice(i, j) =>
          var left, right, store', limited := TrimList(LIndex, RIndex, Length, Complex, store, i, j, max, keys);
          if limited {
            return false;
          }
          TrimmedVisible(keys, store, store', Length, Complex, i, j);
          LIndex, RIndex, store, Length, keys, ok := left, right, store', j + 1 - i, keys[i..j + 1], true;
      }
    }
  }

  lemma StartEndInside(start: int, end: int, length: nat)
    ensures var b := StartEnd(start, end, length);
            b.Slice? ==> b.start <= b.end < length
  {
  }

  /** The keys hold these values, whatever else is stored. */
  ghost predicate Shows(keys: seq<Key>, store: map<Key, Bytes>, values: seq<Bytes>) {
    (forall k :: k in keys ==> k in store) && Values(keys, store) == values
  }

  /** What the trimmed header shows, and whether anything else is still stored. */
  lemma TrimmedVisible(keys: seq<Key>, store0: map<Key, Bytes>, store: map<Key, Bytes>, n: nat, complex: bool,
                       i: nat, j: nat)
    requires Increasing(keys) && Enumerates(keys, store0) && |keys| == n && i <= j < n
    requires var t := TrimEnd(n, complex, i, j);
             Enumerates(keys[i..t], store) && Values(keys[i..t], store) == Values(keys, store0)[i..t]
    ensures Shows(keys[i..j + 1], store, Values(keys, store0)[i..j + 1])
    ensures Enumerates(keys[i..j + 1], store) <==> complex || i == 0 || j == n - 1
  {
    hide Increasing, Values;
    var t := TrimEnd(n, complex, i, j);
    var all, kept := Values(keys, store0), keys[i..t];
    if t > j + 1 {
      InStretch(keys, i, j + 1, j + 1);
      InStretch(keys, i, t, j + 1);
      assert keys[j + 1] in store && keys[j + 1] !in keys[i..j + 1];
    }
    EnumeratesLength(keys, store0);
    assert keys[i..j + 1] == kept[..j + 1 - i] && all[i..j + 1] == all[i..t][..j + 1 - i];
    ValuesHead(kept, store, j + 1 - i);
  }

  lemma EnumeratesLength(keys: seq<Key>, store: map<Key, Bytes>)
    requires Enumerates(keys, store)
    ensures |Values(keys, store)| == |keys|
  {
  }

  lemma ValuesHead(keys: seq<Key>, store: map<Key, Bytes>, n: nat)
    requires n <= |keys| && forall k :: k in keys ==> k in store
    ensures |Values(keys, store)| == |keys| && forall k :: k in keys[..n] ==> k in store
    ensures Values(keys[..n], store) == Values(keys, store)[..n]
  {
    forall k | k in keys[..n] ensures k in keys {
    }
  }
}
