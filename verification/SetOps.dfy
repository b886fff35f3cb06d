/** command/set.go: union, intersection and difference of sets and sorted sets. */
module SetOps {
  import opened Basics
  import opened ByteOrder
  import opened Store
  import opened Merge

  datatype Aggregate = Sum | Min | Max

  /** Weights, the reading of a stored value as a score, and the aggregation. */
  datatype Scoring = Scoring(weights: seq<real>, score: Bytes -> real, agg: Aggregate) {
    predicate Fits(n: nat) {
      weights == [] || |weights| >= n
    }

    /** The weighted score argument i contributes; a value that is missing counts as 1. */
    function Weigh(i: nat, value: Option<Bytes>): real
      requires weights == [] || i < |weights|
    {
      var s := if value.Some? then score(value.value) else 1.0;
      if weights == [] then s else s * weights[i]
    }

    function Combine(a: real, b: real): real {
      match agg
      case Sum => a + b
      case Max => if b > a then b else a
      case Min => if b < a then b else a
    }
  }

  // ---------- aggregates over a set of positions ----------

  function Total(c: seq<real>, at: set<int>): real {
    if c == [] then 0.0
    else Total(c[..|c| - 1], at) + if |c| - 1 in at then c[|c| - 1] else 0.0
  }

  lemma {:induction false} TotalAdd(c: seq<real>, at: set<int>, i: int)
    requires 0 <= i < |c| && i !in at
    ensures Total(c, at + {i}) == Total(c, at) + c[i]
  {
    var n := |c| - 1;
    if i == n {
      TotalSame(c[..n], at, at + {i});
    } else {
      TotalAdd(c[..n], at, i);
    }
  }

  lemma {:induction false} TotalSame(c: seq<real>, a: set<int>, b: set<int>)
    requires forall i :: 0 <= i < |c| ==> (i in a <==> i in b)
    ensures Total(c, a) == Total(c, b)
  {
    if c != [] {
      TotalSame(c[..|c| - 1], a, b);
    }
  }

  /** What a sum, minimum or maximum over some of the contributions means. */
  ghost predicate IsAggregate(agg: Aggregate, c: seq<real>, at: set<int>, s: real) {
    match agg
    case Sum => s == Total(c, at)
    case Max => (exists i :: i in at && 0 <= i < |c| && c[i] == s) && forall i :: i in at && 0 <= i < |c| ==> c[i] <= s
    case Min => (exists i :: i in at && 0 <= i < |c| && c[i] == s) && forall i :: i in at && 0 <= i < |c| ==> s <= c[i]
  }

  lemma AggregateOne(agg: Aggregate, c: seq<real>, i: int)
    requires 0 <= i < |c|
    ensures IsAggregate(agg, c, {i}, c[i])
  {
    TotalAdd(c, {}, i);
    TotalNone(c);
    assert {} + {i} == {i};
  }

  lemma {:induction false} TotalNone(c: seq<real>)
    ensures Total(c, {}) == 0.0
  {
    if c != [] {
      TotalNone(c[..|c| - 1]);
    }
  }

  lemma AggregateAdd(sc: Scoring, c: seq<real>, at: set<int>, s: real, i: int)
    requires IsAggregate(sc.agg, c, at, s) && 0 <= i < |c| && i !in at
    ensures IsAggregate(sc.agg, c, at + {i}, sc.Combine(s, c[i]))
  {
    TotalAdd(c, at, i);
    if !sc.agg.Sum? {
      var j :| j in at && 0 <= j < |c| && c[j] == s;
      assert j in at + {i} && i in at + {i};
    }
  }

  // ---------- the arguments as prefixes of one store ----------

  /** Each argument names an object by the prefix of its member keys, or no object. */
  type Args = seq<Option<Bytes>>

  ghost predicate Usable(args: Args) {
    forall i :: 0 <= i < |args| && args[i].Some? ==> !AllOnes(args[i].value)
  }

  predicate Holds(db: map<Bytes, Bytes>, arg: Option<Bytes>, m: Bytes) {
    arg.Some? && arg.value + m in db
  }

  ghost function Holders(db: map<Bytes, Bytes>, args: Args, m: Bytes): set<int> {
    set i | 0 <= i < |args| && Holds(db, args[i], m)
  }

  /** Each argument's stored score of m times its weight, which is 1 when none are given. */
  ghost function Contributions(db: map<Bytes, Bytes>, args: Args, sc: Scoring, m: Bytes): seq<real>
    requires sc.Fits(|args|)
  {
    seq(|args|, i requires 0 <= i < |args| =>
      if Holds(db, args[i], m) then sc.score(db[args[i].value + m]) * (if sc.weights == [] then 1.0 else sc.weights[i])
      else 0.0)
  }

  lemma WeighedIs(sc: Scoring, i: nat, value: Option<Bytes>)
    requires sc.weights == [] || i < |sc.weights|
    ensures sc.Weigh(i, value) ==
              (if value.Some? then sc.score(value.value) else 1.0) * (if sc.weights == [] then 1.0 else sc.weights[i])
  {
  }

  ghost predicate ScoresRight(db: map<Bytes, Bytes>, args: Args, sc: Scoring, keys: seq<Bytes>, scores: seq<real>)
    requires sc.Fits(|args|)
  {
    && |scores| == |keys|
    && forall i :: 0 <= i < |keys| ==>
         IsAggregate(sc.agg, Contributions(db, args, sc, keys[i]), Holders(db, args, keys[i]), scores[i])
  }

  /** The entries a scan of [s, PrefixNext(p)) visits. */
  function Entries(db: map<Bytes, Bytes>, keys: seq<Bytes>): seq<Entry>
    requires forall k :: k in keys ==> k in db
  {
    seq(|keys|, i requires 0 <= i < |keys| => Entry(keys[i], db[keys[i]]))
  }

  lemma OpenedScan(db: map<Bytes, Bytes>, p: Bytes, s: Bytes, idx: int)
    requires !AllOnes(p)
    ensures var keys := RangeKeys(db, p + s, PrefixNextSpec(p));
            && (forall k :: k in keys ==> k in db)
            && Sound(IterScan(p, p, None, idx, Entries(db, keys)))
            && KnowsFrom(IterScan(p, p, None, idx, Entries(db, keys)), db, s)
  {
    var lo, hi := p + s, PrefixNextSpec(p);
    var range := set k | k in db && !Less(k, lo) && Less(k, hi);
    var keys := RangeKeys(db, lo, hi);
    SortedIsEnumeration(range);
    var it := IterScan(p, p, None, idx, Entries(db, keys));
    assert forall k :: k in keys <==> k in range;
    forall i | 0 <= i < |it.rest| && |it.rest[i].key| >= |p|
      ensures IsPrefix(p, it.rest[i].key)
    {
      var k := it.rest[i].key;
      assert k == keys[i] && k in range;
      StartsNoLower(p, s, k);
      PrefixRange(p, k);
    }
    forall m | !Less(m, s)
      ensures p + m in db <==> Has(it.rest, p + m)
    {
      var k := p + m;
      CompareSamePrefix(p, m, s);
      assert IsPrefix(p, k);
      PrefixRange(p, k);
      if k in db {
        assert k in range && k in keys;
        var i :| 0 <= i < |keys| && keys[i] == k;
        assert it.rest[i].key == k;
      }
      if Has(it.rest, k) {
        var i :| 0 <= i < |it.rest| && it.rest[i].key == k;
        assert keys[i] in keys;
      }
    }
  }

  lemma StartsNoLower(p: Bytes, s: Bytes, k: Bytes)
    requires !Less(k, p + s)
    ensures !Less(k, p)
  {
    assert p == p + [];
    CompareSamePrefix(p, s, []);
    CompareEqual(p + s, p);
    CompareEqual(k, p + s);
    if Less(k, p) && p != p + s {
      LessTransitive(k, p, p + s);
    }
  }

  lemma QueueOfScan(db: map<Bytes, Bytes>, p: Bytes, idx: int)
    requires !AllOnes(p)
    ensures var keys := RangeKeys(db, p, PrefixNextSpec(p));
            && (forall k :: k in keys ==> k in db)
            && var it := IterScan(p, p, None, idx, Entries(db, keys));
               && Sound(it)
               && (forall x :: x in Queue(it) <==>
                     x.idx == idx && p + x.key in db && x.value == db[p + x.key])
  {
    hide KnowsFrom, RangeKeys, Sound, Less;
    assert p + [] == p;
    OpenedScan(db, p, [], idx);
    PrefixScan(db, p);
    var keys := RangeKeys(db, p, PrefixNextSpec(p));
    var it := IterScan(p, p, None, idx, Entries(db, keys));
    forall x
      ensures x in Queue(it) <==> x.idx == idx && p + x.key in db && x.value == db[p + x.key]
    {
      if x in Queue(it) {
        var e :| e in it.rest && |e.key| >= |p| && Cut(it, e) == x;
        var i :| 0 <= i < |it.rest| && it.rest[i] == e;
        assert keys[i] == e.key && keys[i] in keys;
        assert e.key == p + x.key;
      }
      if x.idx == idx && p + x.key in db && x.value == db[p + x.key] {
        var k := p + x.key;
        assert k in keys;
        var i :| 0 <= i < |keys| && keys[i] == k;
        assert it.rest[i] == Entry(k, x.value) && it.rest[i] in it.rest;
        assert Cut(it, it.rest[i]) == x;
      }
    }
  }

  // ---------- union ----------

  ghost function AllMembers(db: map<Bytes, Bytes>, args: Args): set<Bytes> {
    set i, m | 0 <= i < |args| && args[i].Some? && m in Members(db, args[i].value) :: m
  }

  /** The entry of member m in argument i. */
  ghost predicate IsEntry(db: map<Bytes, Bytes>, args: Args, x: KV) {
    0 <= x.idx < |args| && Holds(db, args[x.idx], x.key) && x.value == db[args[x.idx].value + x.key]
  }

  /** The arguments whose entry for m has been merged. */
  ghost function Merged(done: set<KV>, m: Bytes): set<int> {
    set x | x in done && x.key == m :: x.idx
  }

  /** Merging in key order: finished keys, then the key being merged, then the entries to come. */
  ghost predicate InOrder(done: set<KV>, todo: set<KV>, keys: seq<Bytes>, preKey: Option<Bytes>) {
    && (preKey.None? <==> done == {})
    && (preKey.None? ==> keys == [])
    && (preKey.Some? ==>
          && (exists x :: x in done && x.key == preKey.value)
          && (forall x :: x in done ==> x.key == preKey.value || x.key in keys)
          && (forall x :: x in todo ==> !Less(x.key, preKey.value))
          && (forall i :: 0 <= i < |keys| ==> Less(keys[i], preKey.value)))
    && Ascending(keys)
    && (forall k :: k in keys ==> exists x :: x in done && x.key == k)
  }

  ghost predicate ScoredSoFar(db: map<Bytes, Bytes>, args: Args, sc: Scoring, done: set<KV>,
                              keys: seq<Bytes>, scores: seq<real>, preKey: Option<Bytes>, preScore: real)
    requires sc.Fits(|args|)
  {
    && ScoresRight(db, args, sc, keys, scores)
    && (preKey.None? ==> preScore == 0.0)
    && (preKey.Some? ==>
          IsAggregate(sc.agg, Contributions(db, args, sc, preKey.value), Merged(done, preKey.value), preScore))
  }

  lemma OrderStep(done: set<KV>, todo: set<KV>, keys: seq<Bytes>, preKey: Option<Bytes>, kv: KV)
    requires InOrder(done, todo, keys, preKey)
    requires kv in todo && forall x :: x in todo ==> !Less(x.key, kv.key)
    ensures var isNew := preKey.Some? && preKey.value != kv.key;
            InOrder(done + {kv}, todo - {kv}, if isNew then keys + [preKey.value] else keys, Some(kv.key))
  {
    var isNew := preKey.Some? && preKey.value != kv.key;
    var keys' := if isNew then keys + [preKey.value] else keys;
    assert kv in done + {kv};
    if preKey.Some? {
      CompareEqual(kv.key, preKey.value);
      forall i | 0 <= i < |keys|
        ensures Less(keys[i], kv.key)
      {
        if isNew { LessTransitive(keys[i], preKey.value, kv.key); }
      }
      forall k | k in keys'
        ensures exists x :: x in done + {kv} && x.key == k
      {
        if k in keys {
          var x :| x in done && x.key == k;
          assert x in done + {kv};
        } else {
          var x :| x in done && x.key == preKey.value;
          assert x in done + {kv};
        }
      }
    }
  }

  /** Once a later key turns up, every entry of the key being merged has been seen. */
  lemma MergedAll(db: map<Bytes, Bytes>, args: Args, done: set<KV>, todo: set<KV>, m: Bytes)
    requires forall x :: x in done + todo <==> IsEntry(db, args, x)
    requires forall x :: x in todo ==> x.key != m
    ensures Merged(done, m) == Holders(db, args, m)
  {
    forall i | i in Holders(db, args, m)
      ensures i in Merged(done, m)
    {
      var x := KV(i, m, db[args[i].value + m]);
      assert IsEntry(db, args, x);
    }
    forall i | i in Merged(done, m)
      ensures i in Holders(db, args, m)
    {
      var x :| x in done && x.key == m && x.idx == i;
      assert x in done + todo;
    }
  }

  lemma ScoreStep(db: map<Bytes, Bytes>, args: Args, sc: Scoring, done: set<KV>, todo: set<KV>,
                  keys: seq<Bytes>, scores: seq<real>, preKey: Option<Bytes>, preScore: real, kv: KV)
    requires sc.Fits(|args|)
    requires InOrder(done, todo, keys, preKey)
    requires ScoredSoFar(db, args, sc, done, keys, scores, preKey, preScore)
    requires forall x :: x in done + todo <==> IsEntry(db, args, x)
    requires kv in todo && kv !in done && forall x :: x in todo ==> !Less(x.key, kv.key)
    ensures 0 <= kv.idx < |args| && (sc.weights == [] || kv.idx < |sc.weights|)
    ensures var isNew := preKey.Some? && preKey.value != kv.key;
            var s := sc.Weigh(kv.idx, Some(kv.value));
            ScoredSoFar(db, args, sc, done + {kv},
                        if isNew then keys + [preKey.value] else keys,
                        if isNew then scores + [preScore] else scores,
                        Some(kv.key),
                        if preKey.None? || isNew then s else sc.Combine(preScore, s))
  {
    hide IsAggregate;
    assert kv in done + todo && IsEntry(db, args, kv);
    var c := Contributions(db, args, sc, kv.key);
    WeighedIs(sc, kv.idx, Some(kv.value));
    assert c[kv.idx] == sc.Weigh(kv.idx, Some(kv.value));
    var isNew := preKey.Some? && preKey.value != kv.key;
    if preKey.None? || isNew {
      if isNew {
        CompareEqual(kv.key, preKey.value);
        forall x | x in todo
          ensures x.key != preKey.value
        {
          CompareEqual(x.key, preKey.value);
        }
        MergedAll(db, args, done, todo, preKey.value);
      }
      OrderedKeysDiffer(done, todo, keys, preKey, kv);
      assert Merged(done + {kv}, kv.key) == {kv.idx};
      AggregateOne(sc.agg, c, kv.idx);
    } else {
      forall x | x in done && x.key == kv.key
        ensures x.idx != kv.idx
      {
        assert x in done + todo && IsEntry(db, args, x);
      }
      assert Merged(done + {kv}, kv.key) == Merged(done, kv.key) + {kv.idx};
      AggregateAdd(sc, c, Merged(done, kv.key), preScore, kv.idx);
    }
  }

  lemma OrderedKeysDiffer(done: set<KV>, todo: set<KV>, keys: seq<Bytes>, preKey: Option<Bytes>, kv: KV)
    requires InOrder(done, todo, keys, preKey) && kv in todo
    requires preKey.Some? ==> preKey.value != kv.key
    ensures forall x :: x in done ==> x.key != kv.key
  {
    forall x | x in done
      ensures x.key != kv.key
    {
      if x.key in keys {
        var i :| 0 <= i < |keys| && keys[i] == x.key;
        CompareEqual(keys[i], kv.key);
        CompareEqual(preKey.value, kv.key);
      }
    }
  }

  lemma AllEntriesKeys(db: map<Bytes, Bytes>, args: Args, done: set<KV>, m: Bytes)
    requires forall x :: x in done <==> IsEntry(db, args, x)
    ensures m in AllMembers(db, args) <==> exists x :: x in done && x.key == m
  {
    if m in AllMembers(db, args) {
      var i :| 0 <= i < |args| && args[i].Some? && m in Members(db, args[i].value);
      InMembers(db, args[i].value, m);
      var x := KV(i, m, db[args[i].value + m]);
      assert IsEntry(db, args, x);
    }
    if exists x :: x in done && x.key == m {
      var x :| x in done && x.key == m;
      InMembers(db, args[x.idx].value, m);
    }
  }

  /**
   * When the merge runs dry: a non-empty last key is flushed and the keys are the whole union.
   * The empty key, merged last, is dropped; that happens only when it is the only member.
   */
  lemma UnionDone(db: map<Bytes, Bytes>, args: Args, done: set<KV>, keys: seq<Bytes>, preKey: Option<Bytes>)
    requires InOrder(done, {}, keys, preKey)
    requires forall x :: x in done <==> IsEntry(db, args, x)
    ensures var flush := preKey.Some? && preKey.value != [];
            (if flush then keys + [preKey.value] else keys) ==
              if AllMembers(db, args) == {[]} then [] else Sorted(AllMembers(db, args))
    ensures AllMembers(db, args) == {[]} <==> preKey == Some([])
    ensures preKey.Some? ==> Merged(done, preKey.value) == Holders(db, args, preKey.value)
  {
    hide IsEntry, Sorted;
    var u := AllMembers(db, args);
    var all := if preKey.Some? then keys + [preKey.value] else keys;
    forall m
      ensures m in u <==> m in all
    {
      AllEntriesKeys(db, args, done, m);
    }
    if preKey.Some? {
      assert done + {} == done;
      MergedAll(db, args, done, {}, preKey.value);
      assert preKey.value in all;
      assert keys != [] ==> Less(keys[0], preKey.value);
      assert preKey.value == [] ==> all == [[]];
    }
    AscendingIsSorted(all, u);
    if u == {[]} {
      assert |all| == 1;
    }
  }

  /** Opens one iterator for each object that exists. */
  method OpenAll(db: map<Bytes, Bytes>, args: Args) returns (lists: IterList)
    requires Usable(args)
    ensures fresh(lists) && lists.Valid()
    ensures forall x :: x in lists.Todo() <==> IsEntry(db, args, x)
  {
    hide RangeKeys, Sound, Queue, Entries, AllOnes, PrefixNextSpec;
    lists := new IterList();
    for i := 0 to |args|
      invariant fresh(lists) && lists.Valid() && lists.heap == multiset{}
      invariant forall j :: j in lists.iters ==> 0 <= j < |lists.iters| && lists.iters[j].idx < i
      invariant forall x :: x in lists.Todo() <==> x.idx < i && IsEntry(db, args, x)
    {
      if args[i].Some? {
        var p := args[i].value;
        QueueOfScan(db, p, i);
        var keys := RangeKeys(db, p, PrefixNextSpec(p));
        lists.Add(p, i, Entries(db, keys));
      }
    }
  }

  /** The aggregation switch of union, on the score of the key being merged. */
  method Accumulate(sc: Scoring, first: bool, preScore: real, score: real) returns (r: real)
    requires first && sc.agg.Sum? ==> preScore == 0.0
    ensures r == if first then score else sc.Combine(preScore, score)
  {
    match sc.agg {
      case Sum => r := preScore + score;
      case Max => r := if first || score > preScore then score else preScore;
      case Min => r := if first || score < preScore then score else preScore;
    }
  }

  lemma UnionStart(db: map<Bytes, Bytes>, args: Args, sc: Scoring, todo: set<KV>)
    requires sc.Fits(|args|) && forall x :: x in todo <==> IsEntry(db, args, x)
    ensures InOrder({}, todo, [], None) && ScoredSoFar(db, args, sc, {}, [], [], None, 0.0)
    ensures forall x :: x in {} + todo <==> IsEntry(db, args, x)
  {
  }

  lemma FlushScore(db: map<Bytes, Bytes>, args: Args, sc: Scoring, done: set<KV>,
                   keys: seq<Bytes>, scores: seq<real>, preKey: Option<Bytes>, preScore: real)
    requires sc.Fits(|args|) && ScoredSoFar(db, args, sc, done, keys, scores, preKey, preScore)
    requires preKey.Some? ==> Merged(done, preKey.value) == Holders(db, args, preKey.value)
    ensures ScoresRight(db, args, sc, keys, scores)
    ensures preKey.Some? ==> ScoresRight(db, args, sc, keys + [preKey.value], scores + [preScore])
    ensures preKey.None? ==> preScore == 0.0
  {
    hide IsAggregate;
  }

  /**
   * SUNION and ZUNION: every distinct member once, in key order, each with the aggregate of its
   * weighted scores. The union {""} alone comes out empty.
   */
  method Union(db: map<Bytes, Bytes>, args: Args, withScores: bool, sc: Scoring)
    returns (keys: seq<Bytes>, scores: seq<real>)
    requires Usable(args) && sc.Fits(|args|)
    ensures keys == if AllMembers(db, args) == {[]} then [] else Sorted(AllMembers(db, args))
    ensures withScores ==> ScoresRight(db, args, sc, keys, scores)
  {
    hide *;
    var lists := OpenAll(db, args);
    keys, scores := [], [];
    var preKey: Option<Bytes> := None;
    var preScore := 0.0;
    var i := 0;
    ghost var done: set<KV>, todo := {}, lists.Todo();
    UnionStart(db, args, sc, todo);
    while true
      invariant fresh(lists) && lists.Valid() && lists.Todo() == todo && done !! todo
      invariant forall x :: x in done + todo <==> IsEntry(db, args, x)
      invariant InOrder(done, todo, keys, preKey)
      invariant withScores ==> ScoredSoFar(db, args, sc, done, keys, scores, preKey, preScore)
      invariant i >= 0 && (i == 0 <==> preKey.None?)
      invariant preKey.None? ==> preScore == 0.0
      decreases |todo|
    {
      var kv := lists.Next();
      i := i + 1;
      if kv.None? {
        // a nil key equals an empty one
        assert done + {} == done;
        UnionDone(db, args, done, keys, preKey);
        if withScores {
          FlushScore(db, args, sc, done, keys, scores, preKey, preScore);
        }
        if preKey.Some? && preKey.value != [] {
          keys := keys + [preKey.value];
          scores := if withScores then scores + [preScore] else scores;
        }
        return;
      }
      var isNew := preKey.Some? && preKey.value != kv.value.key;
      OrderStep(done, todo, keys, preKey, kv.value);
      if withScores {
        ScoreStep(db, args, sc, done, todo, keys, scores, preKey, preScore, kv.value);
        var first := i == 1 || isNew;
        var score := sc.Weigh(kv.value.idx, Some(kv.value.value));
        scores := if isNew then scores + [preScore] else scores;
        preScore := Accumulate(sc, first, if isNew then 0.0 else preScore, score);
      }
      keys := if isNew then keys + [preKey.value] else keys;
      preKey := Some(kv.value.key);
      done, todo := done + {kv.value}, todo - {kv.value};
    }
  }

  // ---------- intersection and difference ----------

  /** The other arguments, by position, as inter and diff collect them. */
  ghost predicate Collects(args: Args, others: map<int, Bytes>) {
    && (forall i :: i in others ==> 1 <= i < |args| && args[i] == Some(others[i]))
    && (forall i :: 1 <= i < |args| && args[i].Some? ==> i in others)
  }

  /** One iterator per other argument. */
  ghost predicate OneEach(iters: map<int, IterScan>, others: map<int, Bytes>) {
    && Indexes(iters) == others.Keys && |iters| == |others|
    && (forall j :: j in iters ==> iters[j].idx in others && others[iters[j].idx] == iters[j].prefix)
  }

  ghost predicate OpenedSoFar(iters: map<int, IterScan>, others: map<int, Bytes>, waiting: set<int>,
                              db: map<Bytes, Bytes>, first: Bytes)
  {
    && Tracks(iters, db, first)
    && Indexes(iters) == others.Keys - waiting && |iters| + |waiting| == |others|
    && (forall j :: j in iters ==>
          && 0 <= j < |iters| && Fresh(iters[j])
          && iters[j].idx in others && others[iters[j].idx] == iters[j].prefix)
  }

  lemma OpenedOne(iters: map<int, IterScan>, others: map<int, Bytes>, waiting: set<int>,
                  db: map<Bytes, Bytes>, first: Bytes, it: IterScan)
    requires OpenedSoFar(iters, others, waiting, db, first)
    requires it.idx in waiting && it.idx in others && it.prefix == others[it.idx]
    requires KnowsFrom(it, db, first) && Fresh(it)
    ensures OpenedSoFar(iters[|iters| := it], others, waiting - {it.idx}, db, first)
    ensures forall j :: j in iters ==> 0 <= j < |iters| && iters[j].idx != it.idx
  {
    hide KnowsFrom, Indexes;
    var n := |iters|;
    OtherIndex(iters, it.idx);
    AddedIndex(iters, iters[n := it], n, it.idx);
    AddedTrack(iters, n, it, db, first);
    hide Tracks;
    assert others.Keys - waiting + {it.idx} == others.Keys - (waiting - {it.idx});
  }

  lemma OtherIndex(iters: map<int, IterScan>, idx: int)
    requires idx !in Indexes(iters)
    ensures forall j :: j in iters ==> iters[j].idx != idx
  {
  }

  lemma AddedTrack(iters: map<int, IterScan>, n: int, it: IterScan, db: map<Bytes, Bytes>, first: Bytes)
    requires Tracks(iters, db, first) && n !in iters && KnowsFrom(it, db, first)
    requires forall j :: j in iters ==> iters[j].idx != it.idx
    ensures Tracks(iters[n := it], db, first)
  {
    hide KnowsFrom;
  }

  /** The iterators of scan mode, opened when the first key of the base arrives. */
  method OpenOthers(db: map<Bytes, Bytes>, others: map<int, Bytes>, first: Bytes) returns (lists: IterList)
    requires forall i :: i in others ==> !AllOnes(others[i])
    ensures fresh(lists) && OpenedSoFar(lists.iters, others, {}, db, first)
  {
    hide *;
    lists := new IterList();
    var waiting := others.Keys;
    OpenedNone(others, db, first);
    while waiting != {}
      invariant fresh(lists) && lists.Valid() && lists.heap == multiset{} && waiting <= others.Keys
      invariant OpenedSoFar(lists.iters, others, waiting, db, first)
      decreases |waiting|
    {
      SomeMember(waiting);
      var idx :| idx in waiting;
      var p := others[idx];
      OpenedScan(db, p, first, idx);
      var rest := Entries(db, RangeKeys(db, p + first, PrefixNextSpec(p)));
      OpenedOne(lists.iters, others, waiting, db, first, IterScan(p, p, None, idx, rest));
      lists.Add(p, idx, rest);
      waiting := waiting - {idx};
    }
  }

  lemma OpenedNone(others: map<int, Bytes>, db: map<Bytes, Bytes>, first: Bytes)
    ensures OpenedSoFar(map[], others, others.Keys, db, first)
  {
  }

  lemma AddedIndex(before: map<int, IterScan>, after: map<int, IterScan>, n: int, idx: int)
    requires n !in before && after.Keys == before.Keys + {n} && after[n].idx == idx
    requires forall j :: j in before ==> after[j] == before[j]
    ensures Indexes(after) == Indexes(before) + {idx}
  {
    forall x | x in Indexes(before)
      ensures x in Indexes(after)
    {
      var j :| j in before && before[j].idx == x;
      assert after[j].idx == x;
    }
    assert after[n].idx in Indexes(after);
  }

  lemma TracksLater(iters: map<int, IterScan>, db: map<Bytes, Bytes>, k: Bytes, k': Bytes)
    requires Tracks(iters, db, k) && Less(k, k')
    ensures Tracks(iters, db, k')
  {
    hide KnowsFrom;
    forall j | j in iters
      ensures KnowsFrom(iters[j], db, k')
    {
      KnowsLater(iters[j], db, k, k');
    }
  }

  /** inter's pass over the objects of get mode. */
  method GetAll(db: map<Bytes, Bytes>, others: map<int, Bytes>, k: Bytes)
    returns (all: bool, values: map<int, Option<Bytes>>)
    ensures all <==> forall i :: i in others ==> others[i] + k in db
    ensures all ==> values.Keys == others.Keys && forall i :: i in others ==> values[i] == Some(db[others[i] + k])
  {
    values := map[];
    var waiting := others.Keys;
    while waiting != {}
      invariant waiting <= others.Keys && values.Keys == others.Keys - waiting
      invariant forall i :: i in values ==> others[i] + k in db && values[i] == Some(db[others[i] + k])
      decreases |waiting|
    {
      SomeMember(waiting);
      var i :| i in waiting;
      waiting := waiting - {i};
      if others[i] + k !in db {
        return false, values;
      }
      values := values[i := Some(db[others[i] + k])];
    }
    all := true;
  }

  /** The aggregation loop of inter over the values found, in any order. */
  method AggregateAll(sc: Scoring, score0: real, values: map<int, Option<Bytes>>, ghost c: seq<real>)
    returns (score: real)
    requires |c| > 0 && c[0] == score0 && 0 !in values
    requires forall i :: i in values ==> 0 <= i < |c| && (sc.weights == [] || i < |sc.weights|) && c[i] == sc.Weigh(i, values[i])
    ensures IsAggregate(sc.agg, c, values.Keys + {0}, score)
  {
    hide IsAggregate;
    score := score0;
    var waiting := values.Keys;
    AggregateOne(sc.agg, c, 0);
    assert values.Keys + {0} - waiting == {0};
    while waiting != {}
      invariant waiting <= values.Keys
      invariant IsAggregate(sc.agg, c, values.Keys + {0} - waiting, score)
      decreases |waiting|
    {
      SomeMember(waiting);
      var i :| i in waiting;
      AggregateAdd(sc, c, values.Keys + {0} - waiting, score, i);
      assert values.Keys + {0} - (waiting - {i}) == values.Keys + {0} - waiting + {i};
      waiting := waiting - {i};
      score := sc.Combine(score, sc.Weigh(i, values[i]));
    }
    assert values.Keys + {0} - {} == values.Keys + {0};
  }

  /** The members of the first argument that inter keeps; scan mode lets the empty key through. */
  ghost predicate InAll(db: map<Bytes, Bytes>, args: Args, scan: bool, m: Bytes) {
    && |args| > 0 && (forall i :: 0 <= i < |args| ==> args[i].Some?)
    && Holds(db, args[0], m)
    && forall i :: 1 <= i < |args| ==> Holds(db, args[i], m) || (scan && m == [])
  }

  /** The shares in the empty member: scan mode reads it of the first argument, and counts 1 for each of the others. */
  ghost function UnreadShares(db: map<Bytes, Bytes>, args: Args, sc: Scoring): seq<real>
    requires sc.Fits(|args|)
  {
    seq(|args|, i requires 0 <= i < |args| =>
      (if i > 0 then 1.0 else if Holds(db, args[0], []) then sc.score(db[args[0].value + []]) else 0.0) *
      (if sc.weights == [] then 1.0 else sc.weights[i]))
  }

  ghost function Existing(args: Args): set<int> {
    set i | 0 <= i < |args| && args[i].Some?
  }

  ghost predicate InterScored(db: map<Bytes, Bytes>, args: Args, scan: bool, sc: Scoring, k: Bytes, score: real)
    requires sc.Fits(|args|)
  {
    if scan && k == [] then IsAggregate(sc.agg, UnreadShares(db, args, sc), Existing(args), score)
    else IsAggregate(sc.agg, Contributions(db, args, sc, k), Holders(db, args, k), score)
  }

  ghost predicate InterScores(db: map<Bytes, Bytes>, args: Args, scan: bool, sc: Scoring,
                              keys: seq<Bytes>, scores: seq<real>)
    requires sc.Fits(|args|)
  {
    |scores| == |keys| && forall i :: 0 <= i < |keys| ==> InterScored(db, args, scan, sc, keys[i], scores[i])
  }

  /** One question to the open iterators of scan mode, for a key above every earlier one. */
  method AskAll(db: map<Bytes, Bytes>, others: map<int, Bytes>, lists: IterList, k: Bytes)
    returns (all: bool, values: map<int, Option<Bytes>>)
    requires Tracks(lists.iters, db, k) && OneEach(lists.iters, others)
    requires k == [] ==> forall j :: j in lists.iters ==> Fresh(lists.iters[j])
    modifies lists
    ensures Tracks(lists.iters, db, k) && OneEach(lists.iters, others)
    ensures all <==> forall i :: i in others ==> others[i] + k in db || k == []
    ensures all ==> values.Keys == others.Keys
    ensures all ==> forall i :: i in others ==> values[i] == if k == [] then None else Some(db[others[i] + k])
  {
    hide *;
    ghost var before := lists.iters;
    values := lists.NextUntil(k, true, db);
    all := |values| >= |others|;
    Answered(before, lists.iters, others, db, k, values);
  }

  lemma Answered(before: map<int, IterScan>, after: map<int, IterScan>, others: map<int, Bytes>,
                 db: map<Bytes, Bytes>, k: Bytes, values: map<int, Option<Bytes>>)
    requires OneEach(before, others) && SameScans(after, before) && Tracks(after, db, k)
    requires k == [] ==> forall j :: j in before ==> Fresh(before[j])
    requires values.Keys <= Indexes(after)
    requires |values| == |after| ==>
               forall j :: j in after ==>
                 after[j].idx in values && values[after[j].idx] == ReportedValue(before[j], db, k)
    ensures OneEach(after, others) && |after| == |others| && |values| <= |others|
    ensures (forall j :: j in after ==> Reports(before[j], db, k)) <==>
            forall i :: i in others ==> others[i] + k in db || k == []
    ensures |values| == |others| ==> values.Keys == others.Keys
    ensures |values| == |others| && (forall i :: i in others ==> others[i] + k in db || k == []) ==>
              forall i :: i in others ==> values[i] == if k == [] then None else Some(db[others[i] + k])
  {
    hide KnowsFrom, Reports, ReportedValue;
    SameIndexes(before, after);
    IndexesCount(after);
    assert |after| == |before| by { assert after.Keys == before.Keys; assert |after.Keys| == |before.Keys|; }
    ReportsMean(before, others, db, k);
    SubsetIsSmaller(values.Keys, Indexes(after));
    assert |values.Keys| == |values|;
    if |values| == |after| {
      SubsetOfSameSize(values.Keys, Indexes(after));
      forall i | i in others && (others[i] + k in db || k == [])
        ensures values[i] == if k == [] then None else Some(db[others[i] + k])
      {
        assert i in Indexes(before);
        var j :| j in before && before[j].idx == i;
        assert after[j].idx == i;
      }
    }
  }

  /** Scan mode and get mode ask the same question of a key, except about the empty one. */
  method PresentInAll(db: map<Bytes, Bytes>, others: map<int, Bytes>, scan: bool, lists0: IterList?, k: Bytes,
                      ghost last: Bytes)
    returns (all: bool, values: map<int, Option<Bytes>>, lists: IterList?)
    requires forall i :: i in others ==> !AllOnes(others[i])
    requires lists0 != null ==> scan && Tracks(lists0.iters, db, last) && OneEach(lists0.iters, others) && Less(last, k)
    modifies lists0
    ensures lists != null ==> scan && Tracks(lists.iters, db, k) && OneEach(lists.iters, others)
    ensures if lists0 == null then lists != null ==> fresh(lists) else lists == lists0
    ensures all <==> forall i :: i in others ==> others[i] + k in db || (scan && k == [])
    ensures all ==> values.Keys == others.Keys
    ensures all ==> forall i :: i in others ==> values[i] == if scan && k == [] then None else Some(db[others[i] + k])
  {
    lists := lists0;
    if !scan {
      all, values := GetAll(db, others, k);
      return;
    }
    if lists == null && |others| == 0 {
      return true, map[], lists;
    }
    hide KnowsFrom, Indexes;
    if lists == null {
      lists := OpenOthers(db, others, k);
      assert OneEach(lists.iters, others) by { assert others.Keys - {} == others.Keys; }
    } else {
      CompareEqual(last, last);
      TracksLater(lists.iters, db, last, k);
    }
    all, values := AskAll(db, others, lists, k);
  }

  lemma SameIndexes(a: map<int, IterScan>, b: map<int, IterScan>)
    requires SameScans(b, a)
    ensures Indexes(a) == Indexes(b)
  {
    forall x | x in Indexes(a) ensures x in Indexes(b) {
      var j :| j in a && a[j].idx == x;
      assert b[j].idx == x;
    }
  }

  lemma ReportsMean(iters: map<int, IterScan>, others: map<int, Bytes>, db: map<Bytes, Bytes>, k: Bytes)
    requires OneEach(iters, others)
    requires k == [] ==> forall j :: j in iters ==> Fresh(iters[j])
    ensures (forall j :: j in iters ==> Reports(iters[j], db, k)) <==>
            (forall i :: i in others ==> others[i] + k in db || k == [])
    ensures (exists j :: j in iters && Reports(iters[j], db, k)) <==>
            (exists i :: i in others && (others[i] + k in db || k == []))
    ensures forall j :: j in iters && (others[iters[j].idx] + k in db || k == []) ==>
              ReportedValue(iters[j], db, k) == if k == [] then None else Some(db[others[iters[j].idx] + k])
  {
    forall i | i in others
      ensures exists j :: j in iters && iters[j].idx == i
    {
      assert i in Indexes(iters);
    }
    if exists i :: i in others && (others[i] + k in db || k == []) {
      var i :| i in others && (others[i] + k in db || k == []);
      var j :| j in iters && iters[j].idx == i;
      assert Reports(iters[j], db, k);
    }
    if forall j :: j in iters ==> Reports(iters[j], db, k) {
      forall i | i in others
        ensures others[i] + k in db || k == []
      {
        var j :| j in iters && iters[j].idx == i;
        assert Reports(iters[j], db, k);
      }
    }
  }

  /** The scan over the first argument is cut short; keys shorter than the prefix count as well. */
  predicate ListCapped(db: map<Bytes, Bytes>, p: Bytes, max: nat)
    requires !AllOnes(p)
  {
    Capped(|RangeKeys(db, p, PrefixNextSpec(p))|, max)
  }

  /** Lists an object: the scan skips keys shorter than the prefix. */
  method ListMembers(db: map<Bytes, Bytes>, p: Bytes, max: nat) returns (ms: seq<Bytes>, limited: bool)
    requires !AllOnes(p)
    ensures limited <==> ListCapped(db, p, max)
    ensures !limited ==> ms == Sorted(Members(db, p))
  {
    PrefixScan(db, p);
    var ks := RangeKeys(db, p, PrefixNextSpec(p));
    hide RangeKeys, Less, Members;
    ms, limited := [], false;
    for b := 0 to |ks|
      invariant Ascending(ms) && !Capped(b, max)
      invariant forall m :: m in ms <==> exists j :: 0 <= j < b && ks[j] == p + m
    {
      if |ks[b]| >= |p| {
        var k := ks[b][|p|..];
        assert ks[b] == p + k;
        forall i | 0 <= i < |ms|
          ensures Less(ms[i], k)
        {
          assert ms[i] in ms;
          var j :| 0 <= j < b && ks[j] == p + ms[i];
          CompareSamePrefix(p, ms[i], k);
          assert Less(ks[j], ks[b]);
          LessIsCompare(p + ms[i], p + k);
          LessIsCompare(ms[i], k);
        }
        forall m
          ensures m in ms + [k] <==> exists j :: 0 <= j < b + 1 && ks[j] == p + m
        {
          assert m == k ==> ks[b] == p + m;
          assert ks[b] == p + m ==> m == ks[b][|p|..];
        }
        ms := ms + [k];
      }
      if Capped(b + 1, max) {
        return ms, true;
      }
    }
    forall m
      ensures m in ms <==> m in Members(db, p)
    {
      InMembers(db, p, m);
      assert p + m in ks <==> exists j :: 0 <= j < |ks| && ks[j] == p + m;
    }
    AscendingIsSorted(ms, Members(db, p));
  }

  lemma LessIsCompare(a: Bytes, b: Bytes)
    ensures Less(a, b) <==> Compare(a, b) < 0
  {
  }

  ghost function InterKeys(db: map<Bytes, Bytes>, args: Args, scan: bool): set<Bytes> {
    set m | m in AllMembers(db, args) && InAll(db, args, scan, m)
  }

  lemma MemberOfFirst(db: map<Bytes, Bytes>, args: Args, m: Bytes)
    requires |args| > 0 && args[0].Some? && m in Members(db, args[0].value)
    ensures m in AllMembers(db, args) && Holds(db, args[0], m)
  {
    InMembers(db, args[0].value, m);
  }

  /** inter and diff split off the first argument and collect the others that exist. */
  method CollectOthers(args: Args) returns (others: map<int, Bytes>)
    requires |args| > 0
    ensures Collects(args, others)
  {
    others := map[];
    for i := 1 to |args|
      invariant forall j :: j in others ==> 1 <= j < i && args[j] == Some(others[j])
      invariant forall j :: 1 <= j < i && args[j].Some? ==> j in others
    {
      if args[i].Some? {
        others := others[i := args[i].value];
      }
    }
  }

  /** What a selection loop has picked from the first b entries of an ascending list. */
  ghost predicate Picked(keys: seq<Bytes>, ms: seq<Bytes>, b: nat, want: set<Bytes>) {
    b <= |ms| && Ascending(keys) && forall k :: k in keys <==> k in ms[..b] && k in want
  }

  lemma PickStep(keys: seq<Bytes>, ms: seq<Bytes>, b: nat, want: set<Bytes>)
    requires Ascending(ms) && b < |ms| && Picked(keys, ms, b, want)
    ensures Picked(if ms[b] in want then keys + [ms[b]] else keys, ms, b + 1, want)
    ensures b > 0 ==> Less(ms[b - 1], ms[b])
  {
    assert ms[..b + 1] == ms[..b] + [ms[b]];
    forall i | 0 <= i < |keys|
      ensures Less(keys[i], ms[b])
    {
      assert keys[i] in keys && keys[i] in ms[..b];
      var j :| 0 <= j < b && ms[j] == keys[i];
    }
  }

  lemma PickDone(keys: seq<Bytes>, ms: seq<Bytes>, want: set<Bytes>)
    requires Picked(keys, ms, |ms|, want) && forall k :: k in want ==> k in ms
    ensures keys == Sorted(want)
  {
    assert ms[..|ms|] == ms;
    AscendingIsSorted(keys, want);
  }

  /** The base of an intersection or a difference: the first argument's members in order. */
  lemma BaseFacts(db: map<Bytes, Bytes>, args: Args, want: set<Bytes>)
    requires |args| > 0 && args[0].Some?
    ensures var ms := Sorted(Members(db, args[0].value));
            && Ascending(ms)
            && (forall m :: m in ms <==> Holds(db, args[0], m))
            && (forall m :: Holds(db, args[0], m) ==> m in AllMembers(db, args))
            && Picked([], ms, 0, want)
  {
    SortedIsEnumeration(Members(db, args[0].value));
    forall m
      ensures m in Members(db, args[0].value) <==> Holds(db, args[0], m)
      ensures Holds(db, args[0], m) ==> m in AllMembers(db, args)
    {
      InMembers(db, args[0].value, m);
    }
  }

  lemma KeptByAll(db: map<Bytes, Bytes>, args: Args, others: map<int, Bytes>, scan: bool, k: Bytes)
    requires |args| > 0 && Collects(args, others) && forall i :: 0 <= i < |args| ==> args[i].Some?
    requires Holds(db, args[0], k) && k in AllMembers(db, args)
    ensures k in InterKeys(db, args, scan) <==>
              forall i :: i in others ==> others[i] + k in db || (scan && k == [])
    ensures k in InterKeys(db, args, scan) ==> InAll(db, args, scan, k)
    ensures forall i :: i in others ==> 1 <= i < |args| && args[i] == Some(others[i])
    ensures forall i :: 1 <= i < |args| ==> i in others
  {
  }

  lemma InterScoresStep(db: map<Bytes, Bytes>, args: Args, scan: bool, sc: Scoring, keys: seq<Bytes>,
                        scores: seq<real>, k: Bytes, score: real)
    requires sc.Fits(|args|) && InterScores(db, args, scan, sc, keys, scores)
    requires InterScored(db, args, scan, sc, k, score)
    ensures InterScores(db, args, scan, sc, keys + [k], scores + [score])
  {
    hide InterScored;
  }

  /**
   * SINTER and ZINTER, in scan mode and in get mode: the members common to all arguments, in key
   * order. In scan mode the empty member of the first argument is let through unasked. An error
   * exactly when all arguments exist and the scan of the first runs into its cap.
   */
  method Inter(db: map<Bytes, Bytes>, args: Args, scan: bool, withScores: bool, sc: Scoring, max: nat)
    returns (ok: bool, keys: seq<Bytes>, scores: seq<real>)
    requires |args| > 0 && Usable(args) && sc.Fits(|args|)
    ensures ok <==> (forall i :: 0 <= i < |args| ==> args[i].Some?) ==> !ListCapped(db, args[0].value, max)
    ensures ok ==> keys == Sorted(InterKeys(db, args, scan))
    ensures ok && withScores ==> InterScores(db, args, scan, sc, keys, scores)
  {
    ok, keys, scores := true, [], [];
    if exists i :: 0 <= i < |args| && args[i].None? {
      assert InterKeys(db, args, scan) == {};
      return;
    }
    var others := CollectOthers(args);
    var ms, limited := ListMembers(db, args[0].value, max);
    if limited {
      return false, [], [];
    }
    BaseFacts(db, args, InterKeys(db, args, scan));
    keys, scores := InterLoop(db, args, others, ms, scan, withScores, sc, InterKeys(db, args, scan));
    PickDone(keys, ms, InterKeys(db, args, scan));
  }

  /** The callback of inter over the members of the first argument. */
  method InterLoop(db: map<Bytes, Bytes>, args: Args, others: map<int, Bytes>, ms: seq<Bytes>,
                   scan: bool, withScores: bool, sc: Scoring, ghost want: set<Bytes>)
    returns (keys: seq<Bytes>, scores: seq<real>)
    requires |args| > 0 && Usable(args) && sc.Fits(|args|) && Collects(args, others)
    requires forall i :: 0 <= i < |args| ==> args[i].Some?
    requires Ascending(ms) && Picked([], ms, 0, want) && want == InterKeys(db, args, scan)
    requires forall m :: m in ms ==> Holds(db, args[0], m) && m in AllMembers(db, args)
    ensures Picked(keys, ms, |ms|, want)
    ensures withScores ==> InterScores(db, args, scan, sc, keys, scores)
  {
    OthersUsable(args, others);
    assert InterScores(db, args, scan, sc, [], []);
    hide *;
    keys, scores := [], [];
    var lists: IterList? := null;
    for b := 0 to |ms|
      invariant lists != null ==> fresh(lists) && scan && b > 0
      invariant lists != null ==> Tracks(lists.iters, db, ms[b - 1]) && OneEach(lists.iters, others)
      invariant Picked(keys, ms, b, want)
      invariant withScores ==> InterScores(db, args, scan, sc, keys, scores)
    {
      var k := ms[b];
      PickStep(keys, ms, b, want);
      var all, values;
      all, values, lists := PresentInAll(db, others, scan, lists, k, if b > 0 then ms[b - 1] else []);
      KeptByAll(db, args, others, scan, k);
      if all {
        if withScores {
          var score := InterScore(db, args, scan, sc, k, values);
          InterScoresStep(db, args, scan, sc, keys, scores, k, score);
          scores := scores + [score];
        }
        keys := keys + [k];
      }
    }
  }

  lemma OthersUsable(args: Args, others: map<int, Bytes>)
    requires Usable(args) && Collects(args, others)
    ensures forall i :: i in others ==> !AllOnes(others[i])
  {
  }

  /** The score of one common member. */
  method InterScore(db: map<Bytes, Bytes>, args: Args, scan: bool, sc: Scoring, k: Bytes,
                    values: map<int, Option<Bytes>>) returns (score: real)
    requires |args| > 0 && sc.Fits(|args|) && InAll(db, args, scan, k)
    requires forall i :: i in values ==> 1 <= i < |args|
    requires forall i :: 1 <= i < |args| ==> i in values
    requires forall i :: i in values ==> values[i] == if scan && k == [] then None else Some(db[args[i].value + k])
    ensures InterScored(db, args, scan, sc, k, score)
  {
    hide IsAggregate;
    var score0 := sc.Weigh(0, Some(db[args[0].value + k]));
    ghost var c := seq(|args|, i requires 0 <= i < |args| =>
      if i == 0 then score0 else sc.Weigh(i, values[i]));
    score := AggregateAll(sc, score0, values, c);
    SharesAre(db, args, scan, sc, k, values, c);
  }

  lemma SharesAre(db: map<Bytes, Bytes>, args: Args, scan: bool, sc: Scoring, k: Bytes,
                  values: map<int, Option<Bytes>>, c: seq<real>)
    requires |args| > 0 && sc.Fits(|args|) && InAll(db, args, scan, k)
    requires forall i :: i in values <==> 1 <= i < |args|
    requires forall i :: i in values ==> values[i] == if scan && k == [] then None else Some(db[args[i].value + k])
    requires |c| == |args| && forall i :: 0 <= i < |args| ==>
               c[i] == sc.Weigh(i, if i == 0 then Some(db[args[0].value + k]) else values[i])
    ensures if scan && k == [] then c == UnreadShares(db, args, sc) && values.Keys + {0} == Existing(args)
            else c == Contributions(db, args, sc, k) && values.Keys + {0} == Holders(db, args, k)
  {
    forall i | 0 <= i < |args|
      ensures c[i] == if scan && k == [] then UnreadShares(db, args, sc)[i] else Contributions(db, args, sc, k)[i]
    {
      WeighedIs(sc, i, if i == 0 then Some(db[args[0].value + k]) else values[i]);
    }
  }

  // ---------- difference ----------

  /** The members of the first argument that diff keeps; scan mode never keeps the empty one. */
  ghost predicate InFirstOnly(db: map<Bytes, Bytes>, args: Args, scan: bool, m: Bytes) {
    && |args| > 0 && Holds(db, args[0], m)
    && forall i :: 1 <= i < |args| && args[i].Some? ==> !Holds(db, args[i], m) && !(scan && m == [])
  }

  ghost function DiffKeys(db: map<Bytes, Bytes>, args: Args, scan: bool): set<Bytes> {
    set m | m in AllMembers(db, args) && InFirstOnly(db, args, scan, m)
  }

  method AskSome(db: map<Bytes, Bytes>, others: map<int, Bytes>, lists: IterList, k: Bytes) returns (some: bool)
    requires Tracks(lists.iters, db, k) && OneEach(lists.iters, others)
    requires k == [] ==> forall j :: j in lists.iters ==> Fresh(lists.iters[j])
    modifies lists
    ensures Tracks(lists.iters, db, k) && OneEach(lists.iters, others)
    ensures some <==> exists i :: i in others && (others[i] + k in db || k == [])
  {
    hide *;
    ghost var before := lists.iters;
    var values := lists.NextUntil(k, false, db);
    some := |values| > 0;
    SameShape(before, lists.iters, others);
    ReportsMean(before, others, db, k);
  }

  lemma SameShape(before: map<int, IterScan>, after: map<int, IterScan>, others: map<int, Bytes>)
    requires OneEach(before, others) && SameScans(after, before)
    ensures OneEach(after, others) && after.Keys == before.Keys
  {
    SameIndexes(before, after);
    assert |after| == |before| by { assert |after.Keys| == |before.Keys|; }
  }

  /** diff's pass over the objects of get mode. */
  method GetSome(db: map<Bytes, Bytes>, others: map<int, Bytes>, k: Bytes) returns (some: bool)
    ensures some <==> exists i :: i in others && others[i] + k in db
  {
    var waiting := others.Keys;
    while waiting != {}
      invariant waiting <= others.Keys
      invariant forall i :: i in others && i !in waiting ==> others[i] + k !in db
      decreases |waiting|
    {
      SomeMember(waiting);
      var i :| i in waiting;
      waiting := waiting - {i};
      if others[i] + k in db {
        return true;
      }
    }
    some := false;
  }

  /** diff's question to the other arguments, in either mode. */
  method PresentInSome(db: map<Bytes, Bytes>, others: map<int, Bytes>, scan: bool, lists0: IterList?, k: Bytes,
                       ghost last: Bytes)
    returns (some: bool, lists: IterList?)
    requires forall i :: i in others ==> !AllOnes(others[i])
    requires lists0 != null ==> scan && Tracks(lists0.iters, db, last) && OneEach(lists0.iters, others) && Less(last, k)
    modifies lists0
    ensures lists != null ==> scan && Tracks(lists.iters, db, k) && OneEach(lists.iters, others)
    ensures if lists0 == null then lists != null ==> fresh(lists) else lists == lists0
    ensures some <==> exists i :: i in others && (others[i] + k in db || (scan && k == []))
  {
    lists := lists0;
    if !scan {
      some := GetSome(db, others, k);
      return;
    }
    if lists == null && |others| == 0 {
      assert others.Keys == {};
      return false, lists;
    }
    hide KnowsFrom, Indexes;
    if lists == null {
      lists := OpenOthers(db, others, k);
      assert OneEach(lists.iters, others) by { assert others.Keys - {} == others.Keys; }
    } else {
      CompareEqual(last, last);
      TracksLater(lists.iters, db, last, k);
    }
    some := AskSome(db, others, lists, k);
  }

  lemma DroppedBySome(db: map<Bytes, Bytes>, args: Args, others: map<int, Bytes>, scan: bool, k: Bytes)
    requires |args| > 0 && Collects(args, others)
    requires Holds(db, args[0], k) && k in AllMembers(db, args)
    ensures k in DiffKeys(db, args, scan) <==>
              !exists i :: i in others && (others[i] + k in db || (scan && k == []))
  {
    if exists i :: i in others && (others[i] + k in db || (scan && k == [])) {
      var i :| i in others && (others[i] + k in db || (scan && k == []));
      assert Holds(db, args[i], k) || (scan && k == []);
    }
  }

  /**
   * SDIFF and ZDIFF: the members of the first argument in none of the others, in key order, with
   * their own scores. With a single argument no scores are returned even when asked for. An error exactly
   * when the first argument exists and its scan runs into the cap.
   */
  method Diff(db: map<Bytes, Bytes>, args: Args, scan: bool, withScores: bool, score: Bytes -> real, max: nat)
    returns (ok: bool, keys: seq<Bytes>, scores: seq<real>)
    requires |args| > 0 && Usable(args)
    ensures ok <==> args[0].Some? ==> !ListCapped(db, args[0].value, max)
    ensures ok ==> keys == Sorted(DiffKeys(db, args, scan))
    ensures ok ==> scores == if withScores && |args| > 1 then OwnScores(db, args[0], keys, score) else []
  {
    ok, keys, scores := true, [], [];
    if args[0].None? {
      assert DiffKeys(db, args, scan) == {};
      return;
    }
    var p := args[0].value;
    var ms, limited := ListMembers(db, p, max);
    if limited {
      return false, [], [];
    }
    var others := CollectOthers(args);
    BaseFacts(db, args, DiffKeys(db, args, scan));
    if |args| == 1 {
      keys := ms;
      AscendingIsSorted(ms, DiffKeys(db, args, scan));
      return;
    }
    keys, scores := DiffLoop(db, args, others, ms, scan, withScores, score, DiffKeys(db, args, scan));
    PickDone(keys, ms, DiffKeys(db, args, scan));
  }

  function OwnScores(db: map<Bytes, Bytes>, arg: Option<Bytes>, keys: seq<Bytes>, score: Bytes -> real): seq<real> {
    seq(|keys|, i requires 0 <= i < |keys| => if Holds(db, arg, keys[i]) then score(db[arg.value + keys[i]]) else 0.0)
  }

  lemma OwnScoresStep(db: map<Bytes, Bytes>, arg: Option<Bytes>, keys: seq<Bytes>, k: Bytes, score: Bytes -> real)
    requires Holds(db, arg, k)
    ensures arg.Some? && arg.value + k in db
    ensures OwnScores(db, arg, keys + [k], score) == OwnScores(db, arg, keys, score) + [score(db[arg.value + k])]
  {
  }

  /** The callback of diff over the members of the first argument. */
  method DiffLoop(db: map<Bytes, Bytes>, args: Args, others: map<int, Bytes>, ms: seq<Bytes>,
                  scan: bool, withScores: bool, score: Bytes -> real, ghost want: set<Bytes>)
    returns (keys: seq<Bytes>, scores: seq<real>)
    requires |args| > 0 && Usable(args) && Collects(args, others)
    requires Ascending(ms) && Picked([], ms, 0, want) && want == DiffKeys(db, args, scan)
    requires forall m :: m in ms ==> Holds(db, args[0], m) && m in AllMembers(db, args)
    ensures Picked(keys, ms, |ms|, want)
    ensures scores == if withScores then OwnScores(db, args[0], keys, score) else []
  {
    OthersUsable(args, others);
    assert OwnScores(db, args[0], [], score) == [];
    hide *;
    keys, scores := [], [];
    var lists: IterList? := null;
    for b := 0 to |ms|
      invariant lists != null ==> fresh(lists) && scan && b > 0
      invariant lists != null ==> Tracks(lists.iters, db, ms[b - 1]) && OneEach(lists.iters, others)
      invariant Picked(keys, ms, b, want)
      invariant scores == if withScores then OwnScores(db, args[0], keys, score) else []
    {
      var k := ms[b];
      PickStep(keys, ms, b, want);
      var some;
      some, lists := PresentInSome(db, others, scan, lists, k, if b > 0 then ms[b - 1] else []);
      DroppedBySome(db, args, others, scan, k);
      if !some {
        OwnScoresStep(db, args[0], keys, k, score);
        if withScores {
          scores := scores + [score(db[args[0].value + k])];
        }
        keys := keys + [k];
      }
    }
  }

  // ---------- the two modes ----------

  /** Scan mode and get mode intersect alike unless the empty member is in the first but not in all. */
  lemma InterModesAgree(db: map<Bytes, Bytes>, args: Args)
    requires |args| > 0 && forall i :: 0 <= i < |args| ==> args[i].Some?
    ensures InterKeys(db, args, true) == InterKeys(db, args, false) <==>
              (Holds(db, args[0], []) ==> forall i :: 0 <= i < |args| ==> Holds(db, args[i], []))
  {
    var s, g := InterKeys(db, args, true), InterKeys(db, args, false);
    forall m | m != []
      ensures m in s <==> m in g
    {
      assert InAll(db, args, true, m) <==> InAll(db, args, false, m);
    }
    if Holds(db, args[0], []) {
      InMembers(db, args[0].value, []);
      MemberOfFirst(db, args, []);
      assert [] in s;
      assert [] in g <==> InAll(db, args, false, []);
    }
  }

  /** Likewise for differences: the empty member must be absent from the first or present in another. */
  lemma DiffModesAgree(db: map<Bytes, Bytes>, args: Args)
    requires |args| > 0
    ensures DiffKeys(db, args, true) == DiffKeys(db, args, false) <==>
              (Holds(db, args[0], []) && (exists i :: 1 <= i < |args| && args[i].Some?) ==>
                 exists i :: 1 <= i < |args| && Holds(db, args[i], []))
  {
    var s, g := DiffKeys(db, args, true), DiffKeys(db, args, false);
    forall m | m != []
      ensures m in s <==> m in g
    {
      assert InFirstOnly(db, args, true, m) <==> InFirstOnly(db, args, false, m);
    }
    if Holds(db, args[0], []) {
      InMembers(db, args[0].value, []);
      MemberOfFirst(db, args, []);
      assert [] in s <==> InFirstOnly(db, args, true, []);
      assert [] in g <==> InFirstOnly(db, args, false, []);
    }
  }
}
