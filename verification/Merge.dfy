/** store/iter.go: the k-way merges behind union, intersection and difference. */
module Merge {
  import opened Basics
  import opened ByteOrder
  import opened Store

  datatype Entry = Entry(key: Bytes, value: Bytes)
  datatype KV = KV(idx: int, key: Bytes, value: Bytes)

  /** An iterator as the entries it has still to visit, with the entry it read last. */
  datatype IterScan = IterScan(
    prefix: Bytes, current: Bytes, curValue: Option<Bytes>, idx: int, rest: seq<Entry>)

  /** Entries ascend, and those long enough extend the prefix: a scan up to PrefixNext(prefix). */
  ghost predicate Sound(it: IterScan) {
    && (forall i, j :: 0 <= i < j < |it.rest| ==> Less(it.rest[i].key, it.rest[j].key))
    && (forall i :: 0 <= i < |it.rest| && |it.rest[i].key| >= |it.prefix| ==>
          IsPrefix(it.prefix, it.rest[i].key))
  }

  function Cut(it: IterScan, e: Entry): KV
    requires |e.key| >= |it.prefix|
  {
    KV(it.idx, e.key[|it.prefix|..], e.value)
  }

  /** The members an iterator has still to deliver. */
  ghost function Queue(it: IterScan): set<KV> {
    set e | e in it.rest && |e.key| >= |it.prefix| :: Cut(it, e)
  }

  lemma QueueAscends(it: IterScan, i: nat, j: nat)
    requires Sound(it) && i < j < |it.rest|
    requires |it.rest[i].key| >= |it.prefix| && |it.rest[j].key| >= |it.prefix|
    ensures Less(Cut(it, it.rest[i]).key, Cut(it, it.rest[j]).key)
  {
    var a, b := it.rest[i].key, it.rest[j].key;
    assert a == it.prefix + a[|it.prefix|..] && b == it.prefix + b[|it.prefix|..];
    CompareSamePrefix(it.prefix, a[|it.prefix|..], b[|it.prefix|..]);
  }

  /** Reading the first entry takes its member, if it has one, off the front of the queue. */
  lemma QueueStep(before: IterScan, it: IterScan)
    requires Sound(before) && before.rest != [] && it == before.(rest := before.rest[1..])
    ensures Sound(it)
    ensures var cur := before.rest[0];
            if |cur.key| < |it.prefix| then Queue(before) == Queue(it)
            else
              && Queue(before) == Queue(it) + {Cut(it, cur)}
              && forall y :: y in Queue(it) ==> Less(Cut(it, cur).key, y.key)
  {
    hide Less;
    var cur := before.rest[0];
    QueueSplits(before, it);
    if |cur.key| >= |it.prefix| {
      forall y | y in Queue(it)
        ensures Less(Cut(it, cur).key, y.key)
      {
        var e :| e in it.rest && |e.key| >= |it.prefix| && Cut(it, e) == y;
        var j :| 0 <= j < |it.rest| && it.rest[j] == e;
        QueueAscends(before, 0, j + 1);
      }
    }
  }

  lemma QueueSplits(before: IterScan, it: IterScan)
    requires before.rest != [] && it == before.(rest := before.rest[1..])
    ensures var cur := before.rest[0];
            Queue(before) == if |cur.key| < |it.prefix| then Queue(it) else Queue(it) + {Cut(it, cur)}
  {
    var cur := before.rest[0];
    assert before.rest == [cur] + it.rest;
    assert forall e :: e in before.rest <==> e == cur || e in it.rest;
  }

  /** The inner loop of Next: skips keys shorter than the prefix, delivers one member. */
  method PushOne(it0: IterScan) returns (it: IterScan, pushed: Option<KV>)
    requires Sound(it0)
    ensures Sound(it) && it == it0.(rest := it.rest)
    ensures pushed.None? ==> Queue(it0) == {} && it.rest == []
    ensures pushed.Some? ==>
              && Queue(it0) == Queue(it) + {pushed.value}
              && forall y :: y in Queue(it) ==> Less(pushed.value.key, y.key)
  {
    it := it0;
    while it.rest != []
      invariant Sound(it) && it == it0.(rest := it.rest)
      invariant Queue(it) == Queue(it0)
      decreases |it.rest|
    {
      var cur := it.rest[0];
      QueueStep(it, it.(rest := it.rest[1..]));
      it := it.(rest := it.rest[1..]);
      if |cur.key| >= |it.prefix| {
        return it, Some(Cut(it, cur));
      }
    }
    pushed := None;
  }

  ghost predicate LeastOf(h: multiset<KV>, k: KV) {
    k in h && forall x :: x in h ==> !Less(x.key, k.key)
  }

  lemma {:induction false} HeapMinimum(h: multiset<KV>)
    requires |h| > 0
    ensures exists k :: LeastOf(h, k)
    decreases |h|
  {
    var a :| a in h;
    var t := h - multiset{a};
    CompareEqual(a.key, a.key);
    if |t| == 0 {
      assert h == multiset{a};
      assert LeastOf(h, a);
    } else {
      HeapMinimum(t);
      var k :| LeastOf(t, k);
      assert forall x :: x in h <==> x == a || x in t;
      CompareEqual(a.key, k.key);
      if Less(a.key, k.key) {
        forall x | x in t ensures !Less(x.key, a.key) {
          if Less(x.key, a.key) { LessTransitive(x.key, a.key, k.key); }
        }
        assert LeastOf(h, a);
      } else {
        assert LeastOf(h, k);
      }
    }
  }

  // ---------- what a list of iterators and its heap have still to emit ----------

  /** Iterators carry distinct indexes; what the heap holds of one precedes what it has left. */
  ghost predicate Ordered(iters: map<int, IterScan>, heap: multiset<KV>) {
    && (forall j :: j in iters ==> Sound(iters[j]))
    && (forall i, j :: i in iters && j in iters && iters[i].idx == iters[j].idx ==> i == j)
    && (forall x :: x in heap ==> heap[x] == 1)
    && (forall j, x, y :: j in iters && x in heap && y in Queue(iters[j]) && x.idx == y.idx ==>
          Less(x.key, y.key))
  }

  ghost predicate Queued(iters: map<int, IterScan>, x: KV) {
    exists j :: j in iters && x in Queue(iters[j])
  }

  ghost function Outstanding(iters: map<int, IterScan>, heap: multiset<KV>): (s: set<KV>)
    ensures forall x :: x in s <==> x in heap || Queued(iters, x)
  {
    var s := (set x | x in heap) + (set j, x | j in iters && x in Queue(iters[j]) :: x);
    assert forall x :: Queued(iters, x) ==> x in s;
    s
  }

  /** Every queued entry has a smaller one on the heap. */
  ghost predicate Covered(it: IterScan, heap: multiset<KV>) {
    forall y :: y in Queue(it) ==> exists x :: x in heap && Less(x.key, y.key)
  }

  /** Popping a least heap element when the heap covers every iterator. */
  lemma PopIsLeast(iters: map<int, IterScan>, heap: multiset<KV>, least: KV)
    requires Ordered(iters, heap) && forall j :: j in iters ==> Covered(iters[j], heap)
    requires LeastOf(heap, least)
    ensures Ordered(iters, heap - multiset{least})
    ensures Outstanding(iters, heap - multiset{least}) == Outstanding(iters, heap) - {least}
    ensures forall x :: x in Outstanding(iters, heap) ==> !Less(x.key, least.key)
  {
    hide Less, Queue;
    var rest := heap - multiset{least};
    assert forall x :: x in rest <==> x in heap && x != least;
    NotLess(least.key);
    assert !Queued(iters, least);
    forall x | Queued(iters, x)
      ensures !Less(x.key, least.key)
    {
      var j :| j in iters && x in Queue(iters[j]);
      CoveredAbove(iters[j], heap, least, x);
    }
  }

  lemma NotLess(k: Bytes)
    ensures !Less(k, k)
  {
    CompareEqual(k, k);
  }

  lemma CoveredAbove(it: IterScan, heap: multiset<KV>, least: KV, x: KV)
    requires Covered(it, heap) && LeastOf(heap, least) && x in Queue(it)
    ensures !Less(x.key, least.key)
  {
    hide Less, Queue;
    var y :| y in heap && Less(y.key, x.key);
    if Less(x.key, least.key) {
      LessTransitive(y.key, x.key, least.key);
    }
  }

  lemma QueueIdx(it: IterScan)
    ensures forall y :: y in Queue(it) ==> y.idx == it.idx
  {
  }

  /** Moving one entry from an iterator's queue to the heap changes nothing outstanding. */
  lemma PushKeeps(iters: map<int, IterScan>, heap: multiset<KV>, j: int, it: IterScan, x: KV)
    requires Ordered(iters, heap) && j in iters
    requires Sound(it) && it == iters[j].(rest := it.rest)
    requires Queue(iters[j]) == Queue(it) + {x}
    requires forall y :: y in Queue(it) ==> Less(x.key, y.key)
    ensures Ordered(iters[j := it], heap + multiset{x})
    ensures Outstanding(iters[j := it], heap + multiset{x}) == Outstanding(iters, heap)
    ensures Covered(it, heap + multiset{x})
  {
    hide Less, Queue;
    var heap' := heap + multiset{x};
    QueueIdx(iters[j]);
    NotLess(x.key);
    assert x in Queue(iters[j]);
    assert forall y :: y in heap' <==> y in heap || y == x;
    assert x !in heap;
    forall i, y, z | i in iters && y in heap' && z in Queue(iters[j := it][i]) && y.idx == z.idx
      ensures Less(y.key, z.key)
    {
      QueueIdx(iters[i]);
      QueueIdx(it);
      assert z in Queue(iters[i]);
      if y !in heap { assert i == j; }
    }
    UpdateQueued(iters, j, it, x);
  }

  lemma UpdateQueued(iters: map<int, IterScan>, j: int, it: IterScan, x: KV)
    requires j in iters && Queue(iters[j]) == Queue(it) + {x}
    ensures Queued(iters, x)
    ensures forall y :: y != x ==> (Queued(iters, y) <==> Queued(iters[j := it], y))
  {
    var iters' := iters[j := it];
    assert x in Queue(iters[j]);
    forall y | y != x
      ensures Queued(iters, y) <==> Queued(iters', y)
    {
      if Queued(iters', y) {
        var i :| i in iters' && y in Queue(iters'[i]);
        assert y in Queue(iters[i]);
      }
      if Queued(iters, y) {
        var i :| i in iters && y in Queue(iters[i]);
        assert y in Queue(iters'[i]);
      }
    }
  }

  lemma DropEmpty(iters: map<int, IterScan>, heap: multiset<KV>, j: int)
    requires Ordered(iters, heap) && j in iters && Queue(iters[j]) == {}
    ensures Ordered(iters - {j}, heap)
    ensures Outstanding(iters - {j}, heap) == Outstanding(iters, heap)
  {
    forall x | Queued(iters, x)
      ensures Queued(iters - {j}, x)
    {
      var i :| i in iters && x in Queue(iters[i]);
      assert i in iters - {j} && x in Queue((iters - {j})[i]);
    }
    forall x | Queued(iters - {j}, x)
      ensures Queued(iters, x)
    {
      var i :| i in iters - {j} && x in Queue((iters - {j})[i]);
      assert x in Queue(iters[i]);
    }
  }

  /** One turn of the loop in Next. */
  method PushFrom(iters: map<int, IterScan>, heap: multiset<KV>, j: int)
    returns (iters': map<int, IterScan>, heap': multiset<KV>)
    requires Ordered(iters, heap) && j in iters
    ensures Ordered(iters', heap') && Outstanding(iters', heap') == Outstanding(iters, heap)
    ensures forall i :: i in iters' && i != j ==> i in iters && iters'[i] == iters[i]
    ensures iters.Keys - {j} <= iters'.Keys
    ensures heap <= heap'
    ensures j in iters' ==> Covered(iters'[j], heap')
  {
    hide Outstanding, Covered;
    var it, pushed := PushOne(iters[j]);
    if pushed.Some? {
      PushKeeps(iters, heap, j, it, pushed.value);
      iters', heap' := iters[j := it], heap + multiset{pushed.value};
      if it.rest == [] {
        DropEmpty(iters', heap', j);
        iters' := iters' - {j};
      }
    } else {
      DropEmpty(iters, heap, j);
      iters', heap' := iters - {j}, heap;
    }
  }

  lemma CoveredGrows(it: IterScan, heap: multiset<KV>, heap': multiset<KV>)
    requires Covered(it, heap) && heap <= heap'
    ensures Covered(it, heap')
  {
    forall y | y in Queue(it)
      ensures exists x :: x in heap' && Less(x.key, y.key)
    {
      var x :| x in heap && Less(x.key, y.key);
      assert x in heap';
    }
  }

  lemma SomeMember(s: set<int>)
    requires s != {}
    ensures exists j :: j in s
  {
    assert (forall j :: j !in s) ==> s == {};
  }

  /** The loop of Next over its iterators, in any order. */
  method PushAll(iters0: map<int, IterScan>, heap0: multiset<KV>)
    returns (iters: map<int, IterScan>, heap: multiset<KV>)
    requires Ordered(iters0, heap0)
    ensures Ordered(iters, heap) && Outstanding(iters, heap) == Outstanding(iters0, heap0)
    ensures forall j :: j in iters ==> Covered(iters[j], heap)
  {
    hide Ordered, Outstanding;
    iters, heap := iters0, heap0;
    var waiting := iters.Keys;
    while waiting != {}
      invariant waiting <= iters.Keys
      invariant Ordered(iters, heap) && Outstanding(iters, heap) == Outstanding(iters0, heap0)
      invariant forall j :: j in iters && j !in waiting ==> Covered(iters[j], heap)
      decreases |waiting|
    {
      SomeMember(waiting);
      var j :| j in waiting;
      waiting := waiting - {j};
      var iters', heap' := PushFrom(iters, heap, j);
      forall i | i in iters' && i !in waiting
        ensures Covered(iters'[i], heap')
      {
        if i != j { CoveredGrows(iters[i], heap, heap'); }
      }
      iters, heap := iters', heap';
    }
  }

  /** The pop that ends a call of Next. */
  method PopLeast(iters: map<int, IterScan>, heap: multiset<KV>)
    returns (kv: Option<KV>, heap': multiset<KV>)
    requires Ordered(iters, heap) && forall j :: j in iters ==> Covered(iters[j], heap)
    ensures Ordered(iters, heap')
    ensures kv.None? ==> Outstanding(iters, heap) == {} && heap' == heap
    ensures kv.Some? ==> kv.value in Outstanding(iters, heap)
    ensures kv.Some? ==> Outstanding(iters, heap') == Outstanding(iters, heap) - {kv.value}
    ensures kv.Some? ==> forall x :: x in Outstanding(iters, heap) ==> !Less(x.key, kv.value.key)
  {
    if |heap| == 0 {
      assert forall j :: j in iters ==> Covered(iters[j], heap);
      return None, heap;
    }
    HeapMinimum(heap);
    var least :| least in heap && forall x :: x in heap ==> !Less(x.key, least.key);
    assert LeastOf(heap, least);
    PopIsLeast(iters, heap, least);
    return Some(least), heap - multiset{least};
  }

  class IterList {
    var iters: map<int, IterScan>
    var heap: multiset<KV>

    ghost predicate Valid()
      reads this
    {
      Ordered(iters, heap)
    }

    /** Everything not yet emitted. */
    ghost function Todo(): set<KV>
      reads this
    {
      Outstanding(iters, heap)
    }

    constructor ()
      ensures Valid() && Todo() == {} && iters == map[] && heap == multiset{}
    {
      iters, heap := map[], multiset{};
    }

    /** IterList.Add with the scan of [start, end) that the caller opened. */
    method Add(prefix: Bytes, idx: int, rest: seq<Entry>)
      requires Valid() && heap == multiset{}
      requires Sound(IterScan(prefix, prefix, None, idx, rest))
      requires forall j :: j in iters ==> 0 <= j < |iters| && iters[j].idx != idx
      modifies this
      ensures Valid() && heap == multiset{}
      ensures iters == old(iters)[|old(iters)| := IterScan(prefix, prefix, None, idx, rest)]
      ensures |iters| == |old(iters)| + 1
      ensures Todo() == old(Todo()) + Queue(IterScan(prefix, prefix, None, idx, rest))
    {
      var it := IterScan(prefix, prefix, None, idx, rest);
      var n := |iters|;
      iters := iters[n := it];
      forall x
        ensures Queued(iters, x) <==> Queued(old(iters), x) || x in Queue(it)
      {
        if x in Queue(it) { assert x in Queue(iters[n]); }
        if Queued(old(iters), x) {
          var j :| j in old(iters) && x in Queue(old(iters)[j]);
          assert x in Queue(iters[j]);
        }
      }
    }

    /**
     * IterList.Next: one entry of every iterator goes onto the heap, the least comes off. It
     * emits a least entry of everything outstanding, and forgets exactly that entry.
     */
    method Next() returns (kv: Option<KV>)
      requires Valid()
      modifies this
      ensures Valid()
      ensures kv.None? ==> old(Todo()) == {} && Todo() == {}
      ensures kv.Some? ==> kv.value in old(Todo()) && Todo() == old(Todo()) - {kv.value}
      ensures kv.Some? ==> forall x :: x in old(Todo()) ==> !Less(x.key, kv.value.key)
    {
      iters, heap := PushAll(iters, heap);
      kv, heap := PopLeast(iters, heap);
    }

    /**
     * IterList.NextUntil for one key of an increasing series. With `all` it answers for every
     * iterator exactly when all of them hold the key; without, for some exactly when some does.
     */
    method NextUntil(key: Bytes, all: bool, ghost db: map<Bytes, Bytes>) returns (values: map<int, Option<Bytes>>)
      requires Tracks(iters, db, key)
      modifies this`iters
      ensures Tracks(iters, db, key) && SameScans(iters, old(iters))
      ensures values.Keys <= Indexes(iters)
      ensures all ==> (|values| == |iters| <==> forall j :: j in iters ==> Reports(old(iters)[j], db, key))
      ensures !all ==> (|values| > 0 <==> exists j :: j in iters && Reports(old(iters)[j], db, key))
      ensures all && |values| == |iters| ==>
                forall j :: j in iters ==>
                  iters[j].idx in values && values[iters[j].idx] == ReportedValue(old(iters)[j], db, key)
    {
      values, iters := SeekAll(iters, key, all, db);
    }
  }

  // ---------- the skipping merge ----------

  ghost predicate Has(rest: seq<Entry>, key: Bytes) {
    exists i :: 0 <= i < |rest| && rest[i].key == key
  }

  /** Nothing has been read yet; `current` is still the prefix. */
  predicate Fresh(it: IterScan) {
    it.curValue.None?
  }

  /** Where the iterator stands decides membership of every key from k on. */
  ghost predicate KnowsFrom(it: IterScan, db: map<Bytes, Bytes>, k: Bytes) {
    && Sound(it)
    && (forall i :: 0 <= i < |it.rest| ==> it.rest[i].key in db && it.rest[i].value == db[it.rest[i].key])
    && (Fresh(it) ==> it.current == it.prefix)
    && (!Fresh(it) ==> it.current in db && it.curValue == Some(db[it.current]))
    && (!Fresh(it) && |it.current| >= |it.prefix| ==> IsPrefix(it.prefix, it.current))
    && (!Fresh(it) ==> forall i :: 0 <= i < |it.rest| ==> Less(it.current, it.rest[i].key))
    && (forall m :: !Less(m, k) ==>
          (it.prefix + m in db <==> (!Fresh(it) && it.current == it.prefix + m) || Has(it.rest, it.prefix + m)))
  }

  lemma KnowsLater(it: IterScan, db: map<Bytes, Bytes>, k: Bytes, k': Bytes)
    requires KnowsFrom(it, db, k) && Less(k, k')
    ensures KnowsFrom(it, db, k')
  {
    forall m | !Less(m, k')
      ensures !Less(m, k)
    {
      if Less(m, k) { LessTransitive(m, k, k'); }
    }
  }

  /** A fresh iterator takes the empty key for read: its `current` equals its prefix. */
  ghost predicate Reports(it: IterScan, db: map<Bytes, Bytes>, key: Bytes) {
    (Fresh(it) && key == []) || it.prefix + key in db
  }

  ghost function ReportedValue(it: IterScan, db: map<Bytes, Bytes>, key: Bytes): Option<Bytes> {
    if (Fresh(it) && key == []) || it.prefix + key !in db then None else Some(db[it.prefix + key])
  }

  ghost predicate Tracks(iters: map<int, IterScan>, db: map<Bytes, Bytes>, key: Bytes) {
    && (forall j :: j in iters ==> KnowsFrom(iters[j], db, key))
    && (forall i, j :: i in iters && j in iters && iters[i].idx == iters[j].idx ==> i == j)
  }

  ghost predicate SameScans(a: map<int, IterScan>, b: map<int, IterScan>) {
    a.Keys == b.Keys && forall j :: j in a ==> a[j].prefix == b[j].prefix && a[j].idx == b[j].idx
  }

  ghost function Indexes(iters: map<int, IterScan>): set<int> {
    set j | j in iters :: iters[j].idx
  }

  lemma {:induction false} IndexesCount(iters: map<int, IterScan>)
    requires forall i, j :: i in iters && j in iters && iters[i].idx == iters[j].idx ==> i == j
    ensures |Indexes(iters)| == |iters|
    decreases |iters|
  {
    if |iters| > 0 {
      SomeMember(iters.Keys);
      var j :| j in iters.Keys;
      var less := iters - {j};
      IndexesCount(less);
      assert iters[j].idx !in Indexes(less);
      assert Indexes(iters) == Indexes(less) + {iters[j].idx} by {
        forall x | x in Indexes(iters) ensures x in Indexes(less) + {iters[j].idx} {
          var i :| i in iters && iters[i].idx == x;
          assert i != j ==> i in less;
        }
      }
    }
  }

  datatype Sought = Found(value: Option<Bytes>) | Beyond | Exhausted

  lemma ReadingKeepsKnowledge(it: IterScan, db: map<Bytes, Bytes>, key: Bytes)
    requires KnowsFrom(it, db, key) && it.rest != []
    requires !Fresh(it) && |it.current| >= |it.prefix| ==> Less(it.current[|it.prefix|..], key)
    ensures KnowsFrom(it.(current := it.rest[0].key, curValue := Some(it.rest[0].value), rest := it.rest[1..]), db, key)
  {
    var read := it.(current := it.rest[0].key, curValue := Some(it.rest[0].value), rest := it.rest[1..]);
    forall m | !Less(m, key)
      ensures it.prefix + m in db <==> read.current == it.prefix + m || Has(read.rest, it.prefix + m)
    {
      var x := it.prefix + m;
      assert |x| >= |it.prefix| && x[|it.prefix|..] == m;
      if Has(it.rest, x) {
        var i :| 0 <= i < |it.rest| && it.rest[i].key == x;
        assert i > 0 ==> read.rest[i - 1].key == x;
      }
      if Has(read.rest, x) {
        var i :| 0 <= i < |read.rest| && read.rest[i].key == x;
        assert it.rest[i + 1].key == x;
      }
    }
  }

  /** The body of NextUntil for one iterator. */
  method Seek(it0: IterScan, key: Bytes, ghost db: map<Bytes, Bytes>) returns (it: IterScan, sought: Sought)
    requires KnowsFrom(it0, db, key)
    ensures KnowsFrom(it, db, key) && it.prefix == it0.prefix && it.idx == it0.idx
    ensures sought.Found? <==> Reports(it0, db, key)
    ensures sought.Found? ==> sought.value == ReportedValue(it0, db, key)
  {
    it := it0;
    var n := |it.prefix|;
    if |it.current| >= n {
      var c := Compare(it.current[n..], key);
      CompareEqual(it.current[n..], key);
      CompareEqual(key, key);
      if c == 0 {
        assert it.current == it.prefix + key;
        return it, Found(it.curValue);
      }
      if c > 0 {
        PassedKey(it, db, key);
        return it, Beyond;
      }
    }
    assert !(Fresh(it0) && key == []);
    while it.rest != []
      invariant KnowsFrom(it, db, key) && it.prefix == it0.prefix && it.idx == it0.idx
      invariant !Fresh(it) && |it.current| >= n ==> Less(it.current[n..], key)
      decreases |it.rest|
    {
      ReadingKeepsKnowledge(it, db, key);
      it := it.(current := it.rest[0].key, curValue := Some(it.rest[0].value), rest := it.rest[1..]);
      if |it.current| >= n {
        var c := Compare(it.current[n..], key);
        CompareEqual(it.current[n..], key);
        if c == 0 {
          assert it.current == it.prefix + key;
          return it, Found(it.curValue);
        } else if c > 0 {
          PassedKey(it, db, key);
          return it, Beyond;
        }
      }
    }
    CompareEqual(key, key);
    assert (it.prefix + key)[n..] == key;
    sought := Exhausted;
  }

  /** An iterator standing past a key will not meet it any more. */
  lemma PassedKey(it: IterScan, db: map<Bytes, Bytes>, key: Bytes)
    requires KnowsFrom(it, db, key)
    requires |it.current| >= |it.prefix| && Less(key, it.current[|it.prefix|..])
    ensures it.prefix + key !in db
  {
    CompareEqual(key, key);
    var x := it.prefix + key;
    var c := it.current[|it.prefix|..];
    assert it.current == it.prefix + c;
    CompareSamePrefix(it.prefix, key, c);
    forall i | 0 <= i < |it.rest|
      ensures it.rest[i].key != x
    {
      LessTransitive(x, it.current, it.rest[i].key);
      CompareEqual(x, it.rest[i].key);
    }
  }

  /** The indexes of those iterators, among the ones already asked, that report the key. */
  ghost function Reporters(iters: map<int, IterScan>, waiting: set<int>, db: map<Bytes, Bytes>, key: Bytes): set<int> {
    set j | j in iters && j !in waiting && Reports(iters[j], db, key) :: iters[j].idx
  }

  lemma ReportersStep(iters: map<int, IterScan>, waiting: set<int>, db: map<Bytes, Bytes>, key: Bytes, j: int)
    requires j in waiting && j in iters
    requires forall i, j :: i in iters && j in iters && iters[i].idx == iters[j].idx ==> i == j
    ensures var r := Reporters(iters, waiting, db, key);
            && iters[j].idx !in r
            && Reporters(iters, waiting - {j}, db, key) ==
                 if Reports(iters[j], db, key) then r + {iters[j].idx} else r
  {
    hide Reports;
    var r, r' := Reporters(iters, waiting, db, key), Reporters(iters, waiting - {j}, db, key);
    forall x ensures x in r' <==> x in r || (x == iters[j].idx && Reports(iters[j], db, key)) {
      if x in r {
        var i :| i in iters && i !in waiting && Reports(iters[i], db, key) && iters[i].idx == x;
        assert i !in waiting - {j};
      }
    }
  }

  lemma ReportersDone(iters: map<int, IterScan>, db: map<Bytes, Bytes>, key: Bytes)
    requires forall i, j :: i in iters && j in iters && iters[i].idx == iters[j].idx ==> i == j
    ensures var r := Reporters(iters, {}, db, key);
            && (|r| == |iters| <==> forall j :: j in iters ==> Reports(iters[j], db, key))
            && (|r| > 0 <==> exists j :: j in iters && Reports(iters[j], db, key))
  {
    hide Reports;
    var r := Reporters(iters, {}, db, key);
    IndexesCount(iters);
    if |r| == |iters| {
      SubsetOfSameSize(r, Indexes(iters));
      forall j | j in iters ensures Reports(iters[j], db, key) {
        assert iters[j].idx in r;
      }
    }
    if forall j :: j in iters ==> Reports(iters[j], db, key) {
      assert r == Indexes(iters);
    }
    if |r| > 0 {
      SomeMember(r);
    }
    if exists j :: j in iters && Reports(iters[j], db, key) {
      var j :| j in iters && Reports(iters[j], db, key);
      assert iters[j].idx in r;
    }
  }

  /** NextUntil's loop over the iterators, in any order. */
  method SeekAll(iters0: map<int, IterScan>, key: Bytes, all: bool, ghost db: map<Bytes, Bytes>)
    returns (values: map<int, Option<Bytes>>, iters: map<int, IterScan>)
    requires Tracks(iters0, db, key)
    ensures Tracks(iters, db, key) && SameScans(iters, iters0)
    ensures values.Keys <= Indexes(iters0)
    ensures all ==> (|values| == |iters0| <==> forall j :: j in iters0 ==> Reports(iters0[j], db, key))
    ensures !all ==> (|values| > 0 <==> exists j :: j in iters0 && Reports(iters0[j], db, key))
    ensures all && |values| == |iters0| ==>
              forall j :: j in iters0 ==>
                iters0[j].idx in values && values[iters0[j].idx] == ReportedValue(iters0[j], db, key)
  {
    hide *;
    values, iters := map[], iters0;
    var waiting := iters.Keys;
    CollectStart(iters0, db, key);
    while waiting != {}
      invariant waiting <= iters.Keys == iters0.Keys
      invariant Tracks(iters, db, key) && SameScans(iters, iters0)
      invariant forall j :: j in waiting ==> iters[j] == iters0[j]
      invariant Collected(values, iters0, waiting, db, key)
      invariant !all ==> values == map[]
      decreases |waiting|
    {
      SomeMember(waiting);
      var j :| j in waiting;
      TrackedOne(iters, iters0, db, key, j);
      var it, sought := Seek(iters[j], key, db);
      TrackedUpdate(iters, iters0, db, key, j, it);
      CollectStep(values, iters0, waiting, db, key, j);
      waiting := waiting - {j};
      iters := iters[j := it];
      if sought.Found? {
        values := values[it.idx := sought.value];
        if !all {
          CollectedOne(values, iters0, waiting, db, key, j);
          return;
        }
      } else if sought.Beyond? && all {
        assert |iters0| > 0;
        return map[], iters;
      }
    }
    CollectDone(values, iters0, db, key);
  }

  ghost predicate Collected(values: map<int, Option<Bytes>>, iters: map<int, IterScan>, waiting: set<int>,
                            db: map<Bytes, Bytes>, key: Bytes)
  {
    && values.Keys == Reporters(iters, waiting, db, key)
    && (forall j :: j in iters && iters[j].idx in values ==>
          values[iters[j].idx] == ReportedValue(iters[j], db, key))
  }

  lemma CollectStart(iters: map<int, IterScan>, db: map<Bytes, Bytes>, key: Bytes)
    requires Tracks(iters, db, key)
    ensures Collected(map[], iters, iters.Keys, db, key) && SameScans(iters, iters)
  {
    hide KnowsFrom, Reports;
  }

  lemma CollectStep(values: map<int, Option<Bytes>>, iters: map<int, IterScan>, waiting: set<int>,
                    db: map<Bytes, Bytes>, key: Bytes, j: int)
    requires Tracks(iters, db, key)
    requires Collected(values, iters, waiting, db, key)
    requires j in waiting && j in iters
    ensures var v := values[iters[j].idx := ReportedValue(iters[j], db, key)];
            Collected(if Reports(iters[j], db, key) then v else values, iters, waiting - {j}, db, key)
  {
    hide KnowsFrom, Reports, ReportedValue;
    ReportersStep(iters, waiting, db, key, j);
  }

  lemma CollectedOne(values: map<int, Option<Bytes>>, iters: map<int, IterScan>, waiting: set<int>,
                     db: map<Bytes, Bytes>, key: Bytes, j: int)
    requires Collected(values, iters, waiting, db, key)
    requires j in iters && iters[j].idx in values && Reports(iters[j], db, key)
    ensures values.Keys <= Indexes(iters) && |values| > 0
  {
    hide Reports, ReportedValue;
    assert |values.Keys| > 0;
  }

  lemma CollectDone(values: map<int, Option<Bytes>>, iters: map<int, IterScan>, db: map<Bytes, Bytes>, key: Bytes)
    requires Tracks(iters, db, key) && Collected(values, iters, {}, db, key)
    ensures values.Keys <= Indexes(iters)
    ensures |values| == |iters| <==> forall j :: j in iters ==> Reports(iters[j], db, key)
    ensures |values| > 0 <==> exists j :: j in iters && Reports(iters[j], db, key)
    ensures |values| == |iters| ==>
              forall j :: j in iters ==>
                iters[j].idx in values && values[iters[j].idx] == ReportedValue(iters[j], db, key)
  {
    hide KnowsFrom, Reports, ReportedValue;
    ReportersDone(iters, db, key);
    assert |values| == |values.Keys|;
    if |values| == |iters| {
      IndexesCount(iters);
      SubsetOfSameSize(values.Keys, Indexes(iters));
    }
  }

  lemma TrackedOne(iters: map<int, IterScan>, iters0: map<int, IterScan>, db: map<Bytes, Bytes>, key: Bytes, j: int)
    requires Tracks(iters, db, key) && SameScans(iters, iters0) && j in iters
    ensures KnowsFrom(iters[j], db, key) && j in iters0
  {
    hide KnowsFrom;
  }

  lemma TrackedUpdate(iters: map<int, IterScan>, iters0: map<int, IterScan>, db: map<Bytes, Bytes>, key: Bytes,
                      j: int, it: IterScan)
    requires Tracks(iters, db, key) && SameScans(iters, iters0) && j in iters
    requires KnowsFrom(it, db, key) && it.prefix == iters[j].prefix && it.idx == iters[j].idx
    ensures Tracks(iters[j := it], db, key) && SameScans(iters[j := it], iters0)
  {
    hide KnowsFrom;
  }

  lemma {:induction false} SubsetOfSameSize(a: set<int>, b: set<int>)
    requires a <= b && |a| == |b|
    ensures a == b
  {
    assert b == a + (b - a) && a !! (b - a);
    assert |b| == |a| + |b - a|;
  }
}
