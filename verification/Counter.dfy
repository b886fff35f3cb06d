/**
 * command/count.go, object.go, hash.go, set.go: the size of a hash or a set, kept as counters on
 * several shards.
 */
module Counter {
  import opened Basics
  import opened ByteOrder
  import opened Store
  import opened Float
  import Zset

  // ---------- the counter codec ----------

  /** uint64 read as int64. */
  function Signed(u: Bits): int {
    if u >= TWO_63 then u - TWO_64 else u
  }

  /** What is stored under a counter key: timestamp, a sign, the magnitude, and a user value. */
  function EncodeCount(timestamp: Bits, v: int, user: Bytes): Bytes
    requires IsInt64(v)
  {
    BigEndian(timestamp, 8) + [if v >= 0 then 1 else 0] +
    BigEndian(if v >= 0 then v else Unsigned64(Negated(v)), 8) + user
  }

  function DecodedValue(b: Bytes): int
    requires |b| >= 17
  {
    ValueBound(b[9..17]);
    Pow256Eight();
    var u := Value(b[9..17]);
    if b[8] == 1 then Signed(u) else Negated(Signed(u))
  }

  lemma CountRoundTrip(timestamp: Bits, v: int, user: Bytes)
    requires IsInt64(v)
    ensures |EncodeCount(timestamp, v, user)| == 17 + |user|
    ensures DecodedValue(EncodeCount(timestamp, v, user)) == v
    ensures EncodeCount(timestamp, v, user)[17..] == user && Value(EncodeCount(timestamp, v, user)[..8]) == timestamp
  {
    hide BigEndian, Value;
    var magnitude: Bits := if v >= 0 then v else Unsigned64(Negated(v));
    Pow256Eight();
    BigEndianLength(timestamp, 8);
    BigEndianRoundTrip(magnitude, 8);
    BigEndianRoundTrip(timestamp, 8);
    var b := EncodeCount(timestamp, v, user);
    assert b[..8] == BigEndian(timestamp, 8);
    assert b[9..17] == BigEndian(magnitude, 8);
  }

  // ---------- the sum of the counters ----------

  type Counters = map<Bytes, Bytes>

  /** Every stored counter decodes, to at most bound in magnitude. */
  ghost predicate Decodable(counters: Counters, bound: nat) {
    forall k :: k in counters ==> |counters[k]| >= 17 && -(bound as int) <= DecodedValue(counters[k]) <= bound
  }

  function Counted(counters: Counters, k: Bytes): int {
    if k in counters && |counters[k]| >= 17 then DecodedValue(counters[k]) else 0
  }

  function SumOver(counters: Counters, ks: seq<Bytes>): int {
    if ks == [] then 0 else SumOver(counters, ks[..|ks| - 1]) + Counted(counters, ks[|ks| - 1])
  }

  function Sum(counters: Counters): int {
    SumOver(counters, Sorted(counters.Keys))
  }

  /** A sum over distinct keys does not depend on their order. */
  lemma {:induction false} SumOverSameKeys(counters: Counters, a: seq<Bytes>, b: seq<Bytes>)
    requires Distinct(a) && Distinct(b) && forall k :: k in a <==> k in b
    ensures SumOver(counters, a) == SumOver(counters, b)
    decreases |a|
  {
    hide *;
    if a == [] {
      HasFirst(b);
    } else {
      var k := a[|a| - 1];
      assert k in a;
      var i :| 0 <= i < |b| && b[i] == k;
      SumWithout(counters, a, |a| - 1);
      SumWithout(counters, b, i);
      NotInRest(a, |a| - 1);
      NotInRest(b, i);
      SumOverSameKeys(counters, a[..|a| - 1] + a[|a|..], b[..i] + b[i + 1..]);
    }
  }

  lemma HasFirst(ks: seq<Bytes>)
    ensures ks == [] || ks[0] in ks
  {
  }

  lemma {:induction false} SumWithout(counters: Counters, ks: seq<Bytes>, i: nat)
    requires i < |ks|
    ensures SumOver(counters, ks) == SumOver(counters, ks[..i] + ks[i + 1..]) + Counted(counters, ks[i])
  {
    hide Counted, SumOver;
    var n, rest := |ks| - 1, ks[..i] + ks[i + 1..];
    LastCounted(counters, ks);
    if i == n {
      assert rest == ks[..n];
    } else {
      SumWithout(counters, ks[..n], i);
      LastCounted(counters, rest);
      assert rest[..n - 1] == ks[..n][..i] + ks[..n][i + 1..];
      assert rest[n - 1] == ks[n];
    }
  }

  lemma LastCounted(counters: Counters, ks: seq<Bytes>)
    requires ks != []
    ensures SumOver(counters, ks) == SumOver(counters, ks[..|ks| - 1]) + Counted(counters, ks[|ks| - 1])
  {
  }

  lemma {:induction false} SumOverOthers(counters: Counters, k: Bytes, v: Bytes, ks: seq<Bytes>)
    requires k !in ks
    ensures SumOver(counters[k := v], ks) == SumOver(counters, ks)
  {
    if ks != [] {
      SumOverOthers(counters, k, v, ks[..|ks| - 1]);
    }
  }

  lemma SortedDistinct(s: set<Bytes>)
    ensures Distinct(Sorted(s)) && forall k :: k in Sorted(s) <==> k in s
  {
    hide Less, Sorted;
    SortedIsEnumeration(s);
    StrictTotalOrder();
  }

  /** Writing one counter moves the sum by what the counter moves. */
  lemma SumUpdated(counters: Counters, k: Bytes, v: Bytes)
    ensures Sum(counters[k := v]) == Sum(counters) - Counted(counters, k) + Counted(counters[k := v], k)
  {
    hide Sorted, Counted;
    var before, after := Sorted(counters.Keys), Sorted(counters[k := v].Keys);
    SortedDistinct(counters.Keys);
    SortedDistinct(counters[k := v].Keys);
    assert k in after;
    var i :| 0 <= i < |after| && after[i] == k;
    var rest := after[..i] + after[i + 1..];
    SumWithout(counters[k := v], after, i);
    NotInRest(after, i);
    SumOverOthers(counters, k, v, rest);
    if k in counters {
      SumOverSameKeys(counters, before, after);
      SumWithout(counters, after, i);
    } else {
      RestIsBefore(before, after, i);
      SumOverSameKeys(counters, before, rest);
      NoCounter(counters, k);
    }
  }

  lemma NoCounter(counters: Counters, k: Bytes)
    requires k !in counters
    ensures Counted(counters, k) == 0
  {
  }

  lemma NotInRest(ks: seq<Bytes>, i: nat)
    requires Distinct(ks) && i < |ks|
    ensures var rest := ks[..i] + ks[i + 1..];
            Distinct(rest) && forall k :: k in rest <==> k in ks && k != ks[i]
  {
    var rest := ks[..i] + ks[i + 1..];
    forall k ensures k in rest <==> k in ks && k != ks[i] {
      if k in rest {
        var y :| 0 <= y < |rest| && rest[y] == k;
        assert ks[if y < i then y else y + 1] == k;
      }
      if k in ks && k != ks[i] {
        var y :| 0 <= y < |ks| && ks[y] == k;
        assert rest[if y < i then y else y - 1] == k;
      }
    }
  }

  lemma RestIsBefore(before: seq<Bytes>, after: seq<Bytes>, i: nat)
    requires Distinct(after) && i < |after| && after[i] !in before
    requires forall k :: k in after <==> k in before || k == after[i]
    ensures forall k :: k in before <==> k in after[..i] + after[i + 1..]
  {
    NotInRest(after, i);
  }

  // ---------- writing an element and its counter ----------

  function Stored(timestamp: Bits, payload: Bytes): Bytes {
    Zset.EncodeValue(timestamp, payload)
  }

  /** The shard of a written value; any function of it will do. */
  type Shards = Bytes -> nat

  /** A delete has no value to go by: it always counts on the shard named by the object's hash. */
  function CounterKey(hash: nat, v: Option<Bytes>, shards: Shards): Bytes {
    if hash > 0 then BigEndian((if v.Some? then shards(v.value) else hash) % 0x1_0000, 2) else []
  }

  /** Adds delta to one counter, which starts at 0. */
  function Moved(counters: Counters, k: Bytes, delta: int, timestamp: Bits): Counters {
    var user := if k in counters && |counters[k]| >= 17 then counters[k][17..] else [];
    counters[k := EncodeCount(timestamp, Wrapped(Counted(counters, k) + delta), user)]
  }

  /** Counting moves one counter, stamps it, and keeps its user value; the other counters stay. */
  lemma MovedCounter(counters: Counters, k: Bytes, delta: int, timestamp: Bits, other: Bytes)
    requires IsInt64(Counted(counters, k) + delta)
    ensures var after := Moved(counters, k, delta, timestamp);
            && k in after && |after[k]| >= 17 && DecodedValue(after[k]) == Counted(counters, k) + delta
            && Value(after[k][..8]) == timestamp
            && after[k][17..] == (if k in counters && |counters[k]| >= 17 then counters[k][17..] else [])
            && (other != k ==> (other in after <==> other in counters) && (other in counters ==> after[other] == counters[other]))
  {
    hide EncodeCount, DecodedValue, Wrapped, Value;
    var user := if k in counters && |counters[k]| >= 17 then counters[k][17..] else [];
    WrapsNothing(Counted(counters, k) + delta);
    CountRoundTrip(timestamp, Counted(counters, k) + delta, user);
  }

  lemma SumMoved(counters: Counters, k: Bytes, delta: int, timestamp: Bits, bound: nat)
    requires Decodable(counters, bound) && -1 <= delta <= 1 && bound + 1 < TWO_63
    ensures IsInt64(Counted(counters, k) + delta)
    ensures Sum(Moved(counters, k, delta, timestamp)) == Sum(counters) + delta
    ensures Decodable(Moved(counters, k, delta, timestamp), bound + 1)
  {
    hide EncodeCount, DecodedValue, Sum, Wrapped;
    var n := Counted(counters, k) + delta;
    var user := if k in counters && |counters[k]| >= 17 then counters[k][17..] else [];
    WrapsNothing(n);
    CountRoundTrip(timestamp, n, user);
    SumUpdated(counters, k, EncodeCount(timestamp, n, user));
  }

  /** A hash or a set: its element keys, its counters, and what picks the shard. */
  datatype State = State(elements: map<Bytes, Bytes>, counters: Counters)

  /** The counters add up to the number of elements. */
  ghost predicate Agree(s: State, bound: nat) {
    Decodable(s.counters, bound) && Sum(s.counters) == |s.elements|
  }

  /** The bits of a are among those of b. */
  predicate Within(a: nat, b: nat) {
    a == 0 || (a % 2 <= b % 2 && Within(a / 2, b / 2))
  }

  lemma {:induction false} WithinItself(a: nat)
    ensures Within(a, a)
  {
    if a > 0 { WithinItself(a / 2); }
  }

  lemma {:induction false} WithinIsBelow(a: nat, b: nat)
    requires Within(a, b)
    ensures a <= b
  {
    if a > 0 { WithinIsBelow(a / 2, b / 2); }
  }

  /** A shard is a hash of the value under the object's 16-bit mask. */
  ghost predicate Masked(hash: nat, shards: Shards) {
    hash < 0x1_0000 && forall v: Bytes :: Within(shards(v), hash)
  }

  /** All counters are on shards that the mask allows. */
  ghost predicate Sharded(counters: Counters, hash: nat) {
    forall k :: k in counters ==> if hash > 0 then |k| == 2 && Within(Value(k), hash) else k == []
  }

  ghost predicate StaysSharded(before: Counters, after: Counters, hash: nat, shards: Shards) {
    Masked(hash, shards) && Sharded(before, hash) ==> Sharded(after, hash)
  }

  lemma StayedSharded(a: Counters, b: Counters, c: Counters, hash: nat, shards: Shards)
    requires StaysSharded(a, b, hash, shards) && StaysSharded(b, c, hash, shards)
    ensures StaysSharded(a, c, hash, shards)
  {
  }

  lemma NothingMoved(a: Counters, hash: nat, shards: Shards)
    ensures StaysSharded(a, a, hash, shards)
  {
  }

  lemma MovedSharded(counters: Counters, hash: nat, v: Option<Bytes>, shards: Shards, delta: int, timestamp: Bits)
    ensures StaysSharded(counters, Moved(counters, CounterKey(hash, v, shards), delta, timestamp), hash, shards)
  {
    hide Value, BigEndian, Counted, EncodeCount, Within;
    if Masked(hash, shards) {
      var shard := if v.Some? then shards(v.value) else hash;
      WithinItself(hash);
      WithinIsBelow(shard, hash);
      ShardValue(shard);
      BigEndianLength(shard, 2);
    }
  }

  function Changed(elements: map<Bytes, Bytes>, k: Bytes, v: Option<Bytes>): map<Bytes, Bytes> {
    if v.None? then elements - {k} else elements[k := v.value]
  }

  /** The object after one element key was written or deleted, with its counter. */
  function PutOrDeleted(s: State, k: Bytes, v: Option<Bytes>, delta: int, hash: nat, shards: Shards, timestamp: Bits): State {
    State(Changed(s.elements, k, v),
          if delta == 0 then s.counters else Moved(s.counters, CounterKey(hash, v, shards), delta, timestamp))
  }

  lemma PutOrDeleteKeeps(s: State, k: Bytes, v: Option<Bytes>, delta: int, hash: nat, shards: Shards, timestamp: Bits, bound: nat)
    requires Agree(s, bound) && bound + 1 < TWO_63
    requires delta == (if v.None? then -1 else if k in s.elements then 0 else 1)
    requires v.None? ==> k in s.elements
    ensures var r := PutOrDeleted(s, k, v, delta, hash, shards, timestamp);
            && |r.elements| == |s.elements| + delta
            && Agree(r, bound + 1) && StaysSharded(s.counters, r.counters, hash, shards)
  {
    hide Sum, CounterKey, Counted, DecodedValue, Changed, StaysSharded, Moved;
    SizeAfter(s.elements, k, v);
    if delta == 0 {
      NothingMoved(s.counters, hash, shards);
    } else {
      SumMoved(s.counters, CounterKey(hash, v, shards), delta, timestamp, bound);
      MovedSharded(s.counters, hash, v, shards, delta, timestamp);
    }
  }

  /** PutOrDeleteKV: one element key, then its counter unless delta is 0. */
  method PutOrDelete(s: State, k: Bytes, v: Option<Bytes>, delta: int, hash: nat, shards: Shards, timestamp: Bits, ghost bound: nat)
    returns (r: State)
    requires Agree(s, bound) && bound + 1 < TWO_63
    requires delta == (if v.None? then -1 else if k in s.elements then 0 else 1)
    requires v.None? ==> k in s.elements
    ensures r == PutOrDeleted(s, k, v, delta, hash, shards, timestamp)
    ensures r.elements == Changed(s.elements, k, v) && |r.elements| == |s.elements| + delta
    ensures Agree(r, bound + 1) && StaysSharded(s.counters, r.counters, hash, shards)
  {
    PutOrDeleteKeeps(s, k, v, delta, hash, shards, timestamp, bound);
    hide Sum, CounterKey, Counted, DecodedValue, Changed, StaysSharded, Moved, Agree;
    if delta == 0 {
      return State(Changed(s.elements, k, v), s.counters);
    }
    r := State(Changed(s.elements, k, v), Moved(s.counters, CounterKey(hash, v, shards), delta, timestamp));
  }

  lemma SizeAfter(m: map<Bytes, Bytes>, k: Bytes, v: Option<Bytes>)
    ensures |Changed(m, k, v)| ==
              if v.None? then (if k in m then |m| - 1 else |m|) else if k in m then |m| else |m| + 1
  {
    if v.None? {
      SizeAfterDrop(m, k);
    } else {
      SizeAfterPut(m, k, v.value);
    }
  }

  lemma SizeAfterPut(m: map<Bytes, Bytes>, k: Bytes, v: Bytes)
    ensures |m[k := v]| == if k in m then |m| else |m| + 1
  {
    assert m[k := v].Keys == m.Keys + {k};
    assert |m[k := v].Keys| == |m[k := v]| && |m.Keys| == |m|;
    if k in m {
      assert m.Keys + {k} == m.Keys;
    }
  }

  lemma SizeAfterDrop(m: map<Bytes, Bytes>, k: Bytes)
    ensures |m - {k}| == if k in m then |m| - 1 else |m|
  {
    assert |(m - {k}).Keys| == |m - {k}| && |m.Keys| == |m|;
    if k in m {
      assert m.Keys == (m - {k}).Keys + {k};
    } else {
      assert m.Keys == (m - {k}).Keys;
    }
  }

  // ---------- the commands ----------

  function Size(s: State): nat {
    |s.elements|
  }

  function PutState(s: State, k: Bytes, payload: Bytes, check: bool, hash: nat, shards: Shards, timestamp: Bits): State {
    if k in s.elements && check then s
    else PutOrDeleted(s, k, Some(Stored(timestamp, payload)), if k in s.elements then 0 else 1, hash, shards, timestamp)
  }

  /** Writes one element and says whether it is new; with check, an existing one stays. */
  method PutOne(s: State, k: Bytes, payload: Bytes, check: bool, hash: nat, shards: Shards, timestamp: Bits, ghost bound: nat)
    returns (r: State, added: nat)
    requires Agree(s, bound) && bound + 1 < TWO_63
    ensures r == PutState(s, k, payload, check, hash, shards, timestamp)
    ensures r.elements == PutElement(s.elements, k, payload, check, timestamp)
    ensures Agree(r, bound + 1) && Size(r) == Size(s) + added && StaysSharded(s.counters, r.counters, hash, shards)
  {
    hide Agree, Changed, Stored, StaysSharded, PutOrDeleted;
    added := if k in s.elements then 0 else 1;
    if k in s.elements && check {
      MoreRoom(s, bound);
      NothingMoved(s.counters, hash, shards);
      return s, 0;
    }
    r := PutOrDelete(s, k, Some(Stored(timestamp, payload)), added, hash, shards, timestamp, bound);
  }

  lemma PutKeeps(s: State, k: Bytes, payload: Bytes, check: bool, hash: nat, shards: Shards, timestamp: Bits, bound: nat)
    requires Agree(s, bound) && bound + 1 < TWO_63
    ensures var r := PutState(s, k, payload, check, hash, shards, timestamp);
            Agree(r, bound + 1) && StaysSharded(s.counters, r.counters, hash, shards)
  {
    hide Agree, Changed, Stored, StaysSharded, PutOrDeleted;
    if k in s.elements && check {
      MoreRoom(s, bound);
      NothingMoved(s.counters, hash, shards);
    } else {
      PutOrDeleteKeeps(s, k, Some(Stored(timestamp, payload)), if k in s.elements then 0 else 1, hash, shards, timestamp, bound);
    }
  }

  function PutElement(elements: map<Bytes, Bytes>, k: Bytes, payload: Bytes, check: bool, timestamp: Bits): map<Bytes, Bytes> {
    if k in elements && check then elements else Changed(elements, k, Some(Stored(timestamp, payload)))
  }

  function DropState(s: State, k: Bytes, hash: nat, shards: Shards, timestamp: Bits): State {
    if k in s.elements then PutOrDeleted(s, k, None, -1, hash, shards, timestamp) else s
  }

  method DropOne(s: State, k: Bytes, hash: nat, shards: Shards, timestamp: Bits, ghost bound: nat)
    returns (r: State, gone: nat)
    requires Agree(s, bound) && bound + 1 < TWO_63
    ensures r == DropState(s, k, hash, shards, timestamp)
    ensures r.elements == DropElement(s.elements, k)
    ensures Agree(r, bound + 1) && Size(r) == Size(s) - gone && StaysSharded(s.counters, r.counters, hash, shards)
  {
    hide Agree, Changed, StaysSharded, PutOrDeleted;
    if k !in s.elements {
      MoreRoom(s, bound);
      NothingMoved(s.counters, hash, shards);
      return s, 0;
    }
    gone := 1;
    r := PutOrDelete(s, k, None, -1, hash, shards, timestamp, bound);
  }

  lemma DropKeeps(s: State, k: Bytes, hash: nat, shards: Shards, timestamp: Bits, bound: nat)
    requires Agree(s, bound) && bound + 1 < TWO_63
    ensures var r := DropState(s, k, hash, shards, timestamp);
            Agree(r, bound + 1) && StaysSharded(s.counters, r.counters, hash, shards)
  {
    hide Agree, Changed, StaysSharded, PutOrDeleted;
    if k in s.elements {
      PutOrDeleteKeeps(s, k, None, -1, hash, shards, timestamp, bound);
    } else {
      MoreRoom(s, bound);
      NothingMoved(s.counters, hash, shards);
    }
  }

  function DropElement(elements: map<Bytes, Bytes>, k: Bytes): map<Bytes, Bytes> {
    if k in elements then Changed(elements, k, None) else elements
  }

  // ---------- the object as a function of the commands ----------

  /** What a command writes or deletes, one element after the other. */
  datatype Change = Put(k: Bytes, payload: Bytes, check: bool) | Drop(k: Bytes)

  function AfterChange(s: State, c: Change, hash: nat, shards: Shards, timestamp: Bits): State {
    match c
    case Put(k, payload, check) => PutState(s, k, payload, check, hash, shards, timestamp)
    case Drop(k) => DropState(s, k, hash, shards, timestamp)
  }

  function AfterChanges(s: State, changes: seq<Change>, hash: nat, shards: Shards, timestamp: Bits): State {
    if changes == [] then s
    else AfterChange(AfterChanges(s, changes[..|changes| - 1], hash, shards, timestamp), changes[|changes| - 1], hash, shards, timestamp)
  }

  lemma ChangesPush(s: State, changes: seq<Change>, i: nat, hash: nat, shards: Shards, timestamp: Bits)
    requires i < |changes|
    ensures AfterChanges(s, changes[..i + 1], hash, shards, timestamp) ==
              AfterChange(AfterChanges(s, changes[..i], hash, shards, timestamp), changes[i], hash, shards, timestamp)
  {
    hide AfterChange;
    assert changes[..i + 1][..i] == changes[..i];
  }

  /** The counters keep adding up to the elements, and stay on the shards of the mask. */
  lemma {:induction false} ChangesKeep(s: State, changes: seq<Change>, hash: nat, shards: Shards, timestamp: Bits, bound: nat)
    requires Agree(s, bound) && bound + |changes| < TWO_63
    ensures var r := AfterChanges(s, changes, hash, shards, timestamp);
            Agree(r, bound + |changes|) && StaysSharded(s.counters, r.counters, hash, shards)
  {
    hide Agree, StaysSharded, PutState, DropState;
    NothingMoved(s.counters, hash, shards);
    if changes != [] {
      var n := |changes| - 1;
      var before, c := AfterChanges(s, changes[..n], hash, shards, timestamp), changes[n];
      ChangesKeep(s, changes[..n], hash, shards, timestamp, bound);
      if c.Put? {
        PutKeeps(before, c.k, c.payload, c.check, hash, shards, timestamp, bound + n);
      } else {
        DropKeeps(before, c.k, hash, shards, timestamp, bound + n);
      }
      StayedSharded(s.counters, before.counters, AfterChanges(s, changes, hash, shards, timestamp).counters, hash, shards);
    }
  }

  function Puts(args: seq<(Bytes, Bytes)>, check: bool): seq<Change> {
    seq(|args|, i requires 0 <= i < |args| => Put(args[i].0, args[i].1, check))
  }

  function Adds(members: seq<Bytes>): seq<Change> {
    seq(|members|, i requires 0 <= i < |members| => Put(members[i], [], true))
  }

  function Drops(names: seq<Bytes>): seq<Change> {
    seq(|names|, i requires 0 <= i < |names| => Drop(names[i]))
  }

  /** hset: (field, value) pairs; with check, existing fields stay. */
  method Hset(s0: State, args: seq<(Bytes, Bytes)>, check: bool, hash: nat, shards: Shards, timestamp: Bits, ghost bound: nat)
    returns (s: State, ret: nat)
    requires Agree(s0, bound) && bound + |args| < TWO_63
    ensures s == AfterChanges(s0, Puts(args, check), hash, shards, timestamp)
    ensures s.elements == AfterHset(s0.elements, args, check, timestamp)
    ensures Agree(s, bound + |args|) && Size(s) == Size(s0) + ret && StaysSharded(s0.counters, s.counters, hash, shards)
  {
    hide *;
    s, ret := s0, 0;
    var i := 0;
    ghost var limit, changes := bound, Puts(args, check);
    PutsAre(args, check);
    HsetStarts(s0.elements, args, check, timestamp);
    NothingChanged(s0, changes, hash, shards, timestamp);
    while i < |args|
      invariant 0 <= i <= |args| && limit == bound + i && Agree(s, limit)
      invariant s == AfterChanges(s0, changes[..i], hash, shards, timestamp)
      invariant s.elements == AfterHset(s0.elements, args[..i], check, timestamp)
      invariant Size(s) == Size(s0) + ret
    {
      HsetStep(s0.elements, args, i, check, timestamp);
      ChangesPush(s0, changes, i, hash, shards, timestamp);
      PutIs(s, changes[i], hash, shards, timestamp);
      var n;
      s, n := PutOne(s, args[i].0, args[i].1, check, hash, shards, timestamp, limit);
      ret := ret + n;
      i, limit := i + 1, limit + 1;
    }
    assert args[..i] == args && changes[..i] == changes;
    ChangesKeep(s0, changes, hash, shards, timestamp, bound);
  }

  lemma PutsAre(args: seq<(Bytes, Bytes)>, check: bool)
    ensures |Puts(args, check)| == |args|
    ensures forall i :: 0 <= i < |args| ==> Puts(args, check)[i] == Put(args[i].0, args[i].1, check)
  {
  }

  lemma AddsAre(members: seq<Bytes>)
    ensures |Adds(members)| == |members|
    ensures forall i :: 0 <= i < |members| ==> Adds(members)[i] == Put(members[i], [], true)
  {
  }

  lemma DropsAre(names: seq<Bytes>)
    ensures |Drops(names)| == |names|
    ensures forall i :: 0 <= i < |names| ==> Drops(names)[i] == Drop(names[i])
  {
  }

  lemma NothingChanged(s: State, changes: seq<Change>, hash: nat, shards: Shards, timestamp: Bits)
    ensures AfterChanges(s, changes[..0], hash, shards, timestamp) == s
  {
  }

  lemma PutIs(s: State, c: Change, hash: nat, shards: Shards, timestamp: Bits)
    ensures c.Put? ==> AfterChange(s, c, hash, shards, timestamp) == PutState(s, c.k, c.payload, c.check, hash, shards, timestamp)
    ensures c.Drop? ==> AfterChange(s, c, hash, shards, timestamp) == DropState(s, c.k, hash, shards, timestamp)
  {
  }

  lemma MoreRoom(s: State, bound: nat)
    requires Agree(s, bound)
    ensures Agree(s, bound + 1)
  {
  }

  /** Existing fields are overwritten unless check is set; later pairs see what earlier ones did. */
  function AfterHset(elements: map<Bytes, Bytes>, args: seq<(Bytes, Bytes)>, check: bool, timestamp: Bits): map<Bytes, Bytes> {
    if args == [] then elements
    else
      var before := AfterHset(elements, args[..|args| - 1], check, timestamp);
      var (k, v) := args[|args| - 1];
      if check && k in before then before else before[k := Stored(timestamp, v)]
  }

  predicate Named(args: seq<(Bytes, Bytes)>, k: Bytes) {
    exists i :: 0 <= i < |args| && args[i].0 == k
  }

  /** The value a field ends up with: the last one given for it; with check the first, and only for a new field. */
  predicate Settles(elements: map<Bytes, Bytes>, args: seq<(Bytes, Bytes)>, check: bool, i: nat)
    requires i < |args|
  {
    if check then args[i].0 !in elements && !Named(args[..i], args[i].0) else !Named(args[i + 1..], args[i].0)
  }

  /** HSET and HSETNX: exactly the named fields are added, with these values, and the others stay. */
  lemma {:induction false} HsetFields(elements: map<Bytes, Bytes>, args: seq<(Bytes, Bytes)>, check: bool, timestamp: Bits, k: Bytes)
    ensures var r := AfterHset(elements, args, check, timestamp);
            && (k in r <==> k in elements || Named(args, k))
            && (k in elements && (check || !Named(args, k)) ==> r[k] == elements[k])
            && forall i :: 0 <= i < |args| && args[i].0 == k && Settles(elements, args, check, i) ==>
                 Zset.Payload(r[k]) == Some(args[i].1)
  {
    hide Stored;
    if args != [] {
      var n := |args| - 1;
      var init, key, v := args[..n], args[n].0, args[n].1;
      HsetFields(elements, init, check, timestamp, k);
      assert Named(args, k) <==> Named(init, k) || k == key by {
        if Named(init, k) {
          var i :| 0 <= i < n && init[i].0 == k;
          assert args[i].0 == k;
        }
        if Named(args, k) && k != key {
          var i :| 0 <= i < |args| && args[i].0 == k;
          assert init[i].0 == k;
        }
      }
      StoredPayload(timestamp, v);
      forall i | 0 <= i < |args| && args[i].0 == k && Settles(elements, args, check, i)
        ensures Zset.Payload(AfterHset(elements, args, check, timestamp)[k]) == Some(args[i].1)
      {
        SettlesEarlier(elements, args, check, i);
      }
    }
  }

  lemma StoredPayload(timestamp: Bits, payload: Bytes)
    ensures Zset.Payload(Stored(timestamp, payload)) == Some(payload)
  {
    Zset.PayloadOfEncoded(timestamp, payload);
  }

  lemma SettlesEarlier(elements: map<Bytes, Bytes>, args: seq<(Bytes, Bytes)>, check: bool, i: nat)
    requires i < |args| && Settles(elements, args, check, i)
    ensures var n := |args| - 1;
            && (i < n ==> Settles(elements, args[..n], check, i) && args[..n][i] == args[i])
            && (i < n ==> Named(args[..n], args[i].0) && (!check ==> args[n].0 != args[i].0))
            && (i == n && check ==> !Named(args[..n], args[i].0))
  {
    var n := |args| - 1;
    if i < n {
      assert args[..n][i].0 == args[i].0;
      assert args[..n][..i] == args[..i];
      if !check {
        assert args[i + 1..][n - i - 1] == args[n];
        var earlier := args[..n][i + 1..];
        forall j | 0 <= j < |earlier| ensures earlier[j].0 != args[i].0 {
          assert earlier[j] == args[i + 1..][j];
        }
      }
    }
  }

  lemma HsetStarts(elements: map<Bytes, Bytes>, args: seq<(Bytes, Bytes)>, check: bool, timestamp: Bits)
    ensures AfterHset(elements, args[..0], check, timestamp) == elements
  {
  }

  lemma HsetStep(elements: map<Bytes, Bytes>, args: seq<(Bytes, Bytes)>, i: nat, check: bool, timestamp: Bits)
    requires i < |args|
    ensures AfterHset(elements, args[..i + 1], check, timestamp) ==
              PutElement(AfterHset(elements, args[..i], check, timestamp), args[i].0, args[i].1, check, timestamp)
  {
    hide Stored;
    assert args[..i + 1][..i] == args[..i];
  }

  function Gone(elements: map<Bytes, Bytes>, names: seq<Bytes>): map<Bytes, Bytes> {
    elements - (set k | k in names)
  }

  lemma GoneStep(elements: map<Bytes, Bytes>, names: seq<Bytes>, i: nat)
    requires i < |names|
    ensures Gone(elements, names[..i + 1]) == DropElement(Gone(elements, names[..i]), names[i])
  {
    assert names[..i + 1] == names[..i] + [names[i]];
  }

  /** HDEL and SREM: repeated names count once, missing ones not at all. */
  method Remove(s0: State, names: seq<Bytes>, hash: nat, shards: Shards, timestamp: Bits, ghost bound: nat)
    returns (s: State, ret: nat)
    requires Agree(s0, bound) && bound + |names| < TWO_63
    ensures s == AfterChanges(s0, Drops(names), hash, shards, timestamp)
    ensures s.elements == Gone(s0.elements, names)
    ensures Agree(s, bound + |names|) && Size(s) == Size(s0) - ret && StaysSharded(s0.counters, s.counters, hash, shards)
  {
    hide *;
    s, ret := s0, 0;
    var i := 0;
    ghost var limit, changes := bound, Drops(names);
    DropsAre(names);
    NothingGone(s0.elements, names);
    NothingChanged(s0, changes, hash, shards, timestamp);
    while i < |names|
      invariant 0 <= i <= |names| && limit == bound + i && Agree(s, limit)
      invariant s == AfterChanges(s0, changes[..i], hash, shards, timestamp)
      invariant s.elements == Gone(s0.elements, names[..i])
      invariant Size(s) == Size(s0) - ret
    {
      GoneStep(s0.elements, names, i);
      ChangesPush(s0, changes, i, hash, shards, timestamp);
      PutIs(s, changes[i], hash, shards, timestamp);
      var n;
      s, n := DropOne(s, names[i], hash, shards, timestamp, limit);
      ret := ret + n;
      i, limit := i + 1, limit + 1;
    }
    assert names[..i] == names && changes[..i] == changes;
    ChangesKeep(s0, changes, hash, shards, timestamp, bound);
  }

  lemma NothingGone(elements: map<Bytes, Bytes>, names: seq<Bytes>)
    ensures Gone(elements, names[..0]) == elements
  {
  }

  /** Members that were there keep their values, the others are written empty. */
  function AfterSadd(elements: map<Bytes, Bytes>, members: seq<Bytes>, timestamp: Bits): map<Bytes, Bytes> {
    (map k | k in members :: Stored(timestamp, [])) + elements
  }

  /** SADD: exactly the named members are added, and those that were there keep their values. */
  lemma SaddMembers(elements: map<Bytes, Bytes>, members: seq<Bytes>, timestamp: Bits, k: Bytes)
    ensures var r := AfterSadd(elements, members, timestamp);
            && (k in r <==> k in elements || k in members)
            && (k in elements ==> r[k] == elements[k])
            && (k in members && k !in elements ==> Zset.Payload(r[k]) == Some([]))
  {
    StoredPayload(timestamp, []);
    hide Stored;
  }

  lemma SaddStep(elements: map<Bytes, Bytes>, members: seq<Bytes>, i: nat, timestamp: Bits)
    requires i < |members|
    ensures AfterSadd(elements, members[..i + 1], timestamp) ==
              PutElement(AfterSadd(elements, members[..i], timestamp), members[i], [], true, timestamp)
  {
    hide Stored;
    assert members[..i + 1] == members[..i] + [members[i]];
  }

  lemma NothingAdded(elements: map<Bytes, Bytes>, members: seq<Bytes>, timestamp: Bits)
    ensures AfterSadd(elements, members[..0], timestamp) == elements
  {
  }

  method Sadd(s0: State, members: seq<Bytes>, hash: nat, shards: Shards, timestamp: Bits, ghost bound: nat)
    returns (s: State, count: nat)
    requires Agree(s0, bound) && bound + |members| < TWO_63
    ensures s == AfterChanges(s0, Adds(members), hash, shards, timestamp)
    ensures s.elements == AfterSadd(s0.elements, members, timestamp)
    ensures Agree(s, bound + |members|) && Size(s) == Size(s0) + count && StaysSharded(s0.counters, s.counters, hash, shards)
  {
    hide *;
    s, count := s0, 0;
    var i := 0;
    ghost var limit, changes := bound, Adds(members);
    AddsAre(members);
    NothingAdded(s0.elements, members, timestamp);
    NothingChanged(s0, changes, hash, shards, timestamp);
    while i < |members|
      invariant 0 <= i <= |members| && limit == bound + i && Agree(s, limit)
      invariant s == AfterChanges(s0, changes[..i], hash, shards, timestamp)
      invariant s.elements == AfterSadd(s0.elements, members[..i], timestamp)
      invariant Size(s) == Size(s0) + count
    {
      SaddStep(s0.elements, members, i, timestamp);
      ChangesPush(s0, changes, i, hash, shards, timestamp);
      PutIs(s, changes[i], hash, shards, timestamp);
      var n;
      s, n := PutOne(s, members[i], [], true, hash, shards, timestamp, limit);
      count := count + n;
      i, limit := i + 1, limit + 1;
    }
    assert members[..i] == members && changes[..i] == changes;
    ChangesKeep(s0, changes, hash, shards, timestamp, bound);
  }

  /** ListCount reads at most so many counters, and takes them for all. */
  const MAX_INT16: nat := 0x7fff

  function Listed(counters: Counters): seq<Bytes> {
    var ks := Sorted(counters.Keys);
    if |ks| > MAX_INT16 then ks[..MAX_INT16] else ks
  }

  function Unlisted(counters: Counters): seq<Bytes> {
    var ks := Sorted(counters.Keys);
    if |ks| > MAX_INT16 then ks[MAX_INT16..] else []
  }

  /** GetCountByObject with counters: the loop of ListCount and the sum. */
  method SumCounters(s: State, ghost bound: nat) returns (sum: int)
    requires Agree(s, bound)
    ensures sum == ListedSum(s) == |s.elements| - SumOver(s.counters, Unlisted(s.counters))
    ensures |s.counters| <= MAX_INT16 ==> sum == |s.elements|
  {
    hide *;
    AgreeMeans(s, bound);
    ListedAndUnlisted(s.counters);
    var ks, i := Sorted(s.counters.Keys), 0;
    sum := 0;
    while i < |ks| && i < MAX_INT16
      invariant 0 <= i <= |ks| && i <= MAX_INT16 && sum == SumOver(s.counters, ks[..i])
    {
      SumOverNext(s.counters, ks, i, bound);
      sum := sum + DecodedValue(s.counters[ks[i]]);
      i := i + 1;
    }
    ListedIs(s.counters, i);
    ListedSumIs(s);
  }

  lemma ListedSumIs(s: State)
    ensures ListedSum(s) == SumOver(s.counters, Listed(s.counters))
  {
  }

  lemma AgreeMeans(s: State, bound: nat)
    requires Agree(s, bound)
    ensures Decodable(s.counters, bound) && Sum(s.counters) == |s.elements| && SumOver(s.counters, Sorted(s.counters.Keys)[..0]) == 0
  {
    hide Sorted, Sum, Decodable;
  }

  lemma SumOverNext(counters: Counters, ks: seq<Bytes>, i: nat, bound: nat)
    requires Decodable(counters, bound) && ks == Sorted(counters.Keys) && i < |ks|
    ensures ks[i] in counters && |counters[ks[i]]| >= 17
    ensures SumOver(counters, ks[..i + 1]) == SumOver(counters, ks[..i]) + DecodedValue(counters[ks[i]])
  {
    hide Counted, DecodedValue, Sorted, Decodable;
    SortedIsEnumeration(counters.Keys);
    assert ks[i] in ks;
    assert ks[..i + 1][..i] == ks[..i];
    CountedIs(counters, ks[i], bound);
  }

  lemma ListedIs(counters: Counters, i: nat)
    requires i <= |Sorted(counters.Keys)| && i <= MAX_INT16 && (i == |Sorted(counters.Keys)| || i == MAX_INT16)
    ensures Sorted(counters.Keys)[..i] == Listed(counters)
  {
    hide Sorted;
  }

  lemma {:induction false} SumOverJoined(counters: Counters, a: seq<Bytes>, b: seq<Bytes>)
    ensures SumOver(counters, a + b) == SumOver(counters, a) + SumOver(counters, b)
  {
    hide Counted;
    if b == [] {
      assert a + b == a;
    } else {
      SumOverJoined(counters, a, b[..|b| - 1]);
      assert (a + b)[..|a + b| - 1] == a + b[..|b| - 1];
    }
  }

  lemma ListedAndUnlisted(counters: Counters)
    ensures Sum(counters) == SumOver(counters, Listed(counters)) + SumOver(counters, Unlisted(counters))
    ensures |counters| <= MAX_INT16 ==> Unlisted(counters) == [] && SumOver(counters, []) == 0
  {
    hide Sorted, Counted;
    SortedIsEnumeration(counters.Keys);
    assert |counters.Keys| == |counters|;
    SumOverJoined(counters, Listed(counters), Unlisted(counters));
    assert Sorted(counters.Keys) == Listed(counters) + Unlisted(counters);
  }

  // ---------- how many counters there can be ----------

  /** The one bits of a mask. */
  function Ones(mask: nat): nat {
    if mask == 0 then 0 else mask % 2 + Ones(mask / 2)
  }

  /** The bits of i on the places of the mask's ones: the shards of a mask, numbered. */
  function Shard(i: nat, mask: nat): nat
    decreases mask
  {
    if mask == 0 then 0
    else if mask % 2 == 1 then i % 2 + 2 * Shard(i / 2, mask / 2)
    else 2 * Shard(i, mask / 2)
  }

  function Number(shard: nat, mask: nat): nat
    decreases mask
  {
    if mask == 0 then 0
    else if mask % 2 == 1 then shard % 2 + 2 * Number(shard / 2, mask / 2)
    else Number(shard / 2, mask / 2)
  }

  lemma {:induction false} ShardWithin(i: nat, mask: nat)
    ensures Within(Shard(i, mask), mask)
    decreases mask
  {
    if mask > 0 {
      ShardWithin(if mask % 2 == 1 then i / 2 else i, mask / 2);
    }
  }

  lemma {:induction false} NumberOfShard(i: nat, mask: nat)
    requires i < Pow2(Ones(mask))
    ensures Number(Shard(i, mask), mask) == i
    decreases mask
  {
    if mask > 0 {
      NumberOfShard(if mask % 2 == 1 then i / 2 else i, mask / 2);
    }
  }

  lemma {:induction false} ShardOfNumber(shard: nat, mask: nat)
    requires Within(shard, mask)
    ensures Number(shard, mask) < Pow2(Ones(mask)) && Shard(Number(shard, mask), mask) == shard
    decreases mask
  {
    WithinIsBelow(shard, mask);
    if mask > 0 {
      ShardOfNumber(shard / 2, mask / 2);
      var number := Number(shard / 2, mask / 2);
      if mask % 2 == 1 {
        assert Ones(mask) == 1 + Ones(mask / 2);
        assert Number(shard, mask) / 2 == number && Number(shard, mask) % 2 == shard % 2;
      } else {
        assert Ones(mask) == Ones(mask / 2) && shard == 2 * (shard / 2);
      }
    }
  }

  /** The keys of the first n shards. */
  function ShardKeys(n: nat, mask: nat): set<Bytes> {
    set i | 0 <= i < n :: BigEndian(Shard(i, mask), 2)
  }

  lemma ShardKeysMore(n: nat, mask: nat)
    ensures ShardKeys(0, mask) == {} && ShardKeys(n + 1, mask) == ShardKeys(n, mask) + {BigEndian(Shard(n, mask), 2)}
  {
    hide BigEndian, Shard;
  }

  lemma {:induction false} ShardKeysFew(n: nat, mask: nat)
    ensures |ShardKeys(n, mask)| <= n
  {
    hide BigEndian, Shard, ShardKeys;
    if n == 0 {
      ShardKeysMore(0, mask);
    } else {
      ShardKeysFew(n - 1, mask);
      ShardKeysMore(n - 1, mask);
    }
  }

  lemma NewShard(n: nat, mask: nat)
    requires n < Pow2(Ones(mask)) && mask < 0x1_0000
    ensures BigEndian(Shard(n, mask), 2) !in ShardKeys(n, mask)
  {
    hide BigEndian, Shard, Number, Value;
    if BigEndian(Shard(n, mask), 2) in ShardKeys(n, mask) {
      var i :| 0 <= i < n && BigEndian(Shard(n, mask), 2) == BigEndian(Shard(i, mask), 2);
      ShardFits(i, mask);
      ShardFits(n, mask);
      NumberOfShard(i, mask);
      NumberOfShard(n, mask);
    }
  }

  lemma ShardFits(i: nat, mask: nat)
    requires mask < 0x1_0000
    ensures Shard(i, mask) < 0x1_0000 && Value(BigEndian(Shard(i, mask), 2)) == Shard(i, mask)
  {
    hide BigEndian, Shard, Value;
    ShardWithin(i, mask);
    WithinIsBelow(Shard(i, mask), mask);
    ShardValue(Shard(i, mask));
  }

  /** A mask of at most 14 ones leaves no more shards than ListCount reads. */
  lemma ShardsListed(counters: Counters, hash: nat)
    requires Sharded(counters, hash) && hash < 0x1_0000 && Ones(hash) <= 14
    ensures |counters| <= MAX_INT16
  {
    hide BigEndian, Value, Within, Shard, Number, Ones;
    assert |counters.Keys| == |counters|;
    if hash == 0 {
      SubsetIsSmaller(counters.Keys, {[]});
    } else {
      var n := Pow2(Ones(hash));
      forall k | k in counters ensures k in ShardKeys(n, hash) {
        var shard := Value(k);
        ShardOfNumber(shard, hash);
        WithinIsBelow(shard, hash);
        ShardValue(shard);
        BigEndianLength(shard, 2);
        CompareIsNumeric(BigEndian(shard, 2), k);
      }
      SubsetIsSmaller(counters.Keys, ShardKeys(n, hash));
      ShardKeysFew(n, hash);
      UpTo14(Ones(hash));
    }
  }

  lemma UpTo14(n: nat)
    ensures n <= 14 ==> Pow2(n) <= 0x4000
    ensures n >= 15 ==> Pow2(n) >= 0x8000
  {
    if n <= 14 {
      Pow2Grows(n, 14);
      Pow2Of14();
    } else {
      Pow2Of14();
      Pow2Grows(15, n);
    }
  }

  lemma Pow2Of14()
    ensures Pow2(14) == 0x4000 && Pow2(15) == 0x8000
  {
    assert Pow2(4) == 16;
    assert Pow2(8) == 256;
    assert Pow2(12) == 4096;
  }

  lemma {:induction false} OnesAddUp(counters: Counters, ks: seq<Bytes>)
    requires forall k :: k in ks ==> Counted(counters, k) == 1
    ensures SumOver(counters, ks) == |ks|
  {
    hide Counted;
    if ks != [] {
      OnesAddUp(counters, ks[..|ks| - 1]);
    }
  }

  lemma CountedIs(counters: Counters, k: Bytes, bound: nat)
    requires Decodable(counters, bound) && k in counters
    ensures |counters[k]| >= 17 && Counted(counters, k) == DecodedValue(counters[k])
  {
  }

  /** ScanCount: counting the element keys one by one, an error when there are as many as the cap. */
  method ScanCount(s: State, max: nat) returns (r: Option<nat>)
    ensures r == if Capped(|s.elements|, max) then None else Some(|s.elements|)
  {
    hide Sorted;
    SortedIsEnumeration(s.elements.Keys);
    var ks := Sorted(s.elements.Keys);
    var count: nat := 0;
    while count < |ks|
      invariant count <= |ks| && !Capped(count, max)
    {
      count := count + 1;
      if Capped(count, max) {
        return None;
      }
    }
    r := Some(count);
  }

  // ---------- runs ----------

  datatype Op =
    | HSet(args: seq<(Bytes, Bytes)>, check: bool)
    | HDel(fields: seq<Bytes>)
    | SAdd(members: seq<Bytes>)
    | SRem(names: seq<Bytes>)

  function Cost(op: Op): nat {
    match op
    case HSet(args, _) => |args|
    case HDel(fields) => |fields|
    case SAdd(members) => |members|
    case SRem(names) => |names|
  }

  function AfterOp(elements: map<Bytes, Bytes>, op: Op, timestamp: Bits): map<Bytes, Bytes> {
    match op
    case HSet(args, check) => AfterHset(elements, args, check, timestamp)
    case HDel(fields) => Gone(elements, fields)
    case SAdd(members) => AfterSadd(elements, members, timestamp)
    case SRem(names) => Gone(elements, names)
  }

  /** A command and the timestamp of its transaction. */
  datatype Call = Call(op: Op, timestamp: Bits)

  function ChangesOf(op: Op): seq<Change> {
    match op
    case HSet(args, check) => Puts(args, check)
    case HDel(fields) => Drops(fields)
    case SAdd(members) => Adds(members)
    case SRem(names) => Drops(names)
  }

  /** The object a run of commands leaves. */
  function AfterRun(s: State, calls: seq<Call>, hash: nat, shards: Shards): State
    decreases |calls|
  {
    if calls == [] then s
    else AfterRun(AfterChanges(s, ChangesOf(calls[0].op), hash, shards, calls[0].timestamp), calls[1..], hash, shards)
  }

  function AfterCalls(elements: map<Bytes, Bytes>, calls: seq<Call>): map<Bytes, Bytes>
    decreases |calls|
  {
    if calls == [] then elements
    else AfterCalls(AfterOp(elements, calls[0].op, calls[0].timestamp), calls[1..])
  }

  function TotalCost(calls: seq<Call>): nat {
    if calls == [] then 0 else Cost(calls[0].op) + TotalCost(calls[1..])
  }

  method Apply(s: State, op: Op, hash: nat, shards: Shards, timestamp: Bits, ghost bound: nat) returns (r: State)
    requires Agree(s, bound) && bound + Cost(op) < TWO_63
    ensures r == AfterChanges(s, ChangesOf(op), hash, shards, timestamp)
    ensures Agree(r, bound + Cost(op)) && r.elements == AfterOp(s.elements, op, timestamp)
    ensures StaysSharded(s.counters, r.counters, hash, shards)
  {
    hide StaysSharded, Agree, AfterHset, AfterSadd, Gone, Size, Stored, AfterChanges, Puts, Drops, Adds;
    var reply;
    match op
    case HSet(args, check) => r, reply := Hset(s, args, check, hash, shards, timestamp, bound);
    case HDel(fields) => r, reply := Remove(s, fields, hash, shards, timestamp, bound);
    case SAdd(members) => r, reply := Sadd(s, members, hash, shards, timestamp, bound);
    case SRem(names) => r, reply := Remove(s, names, hash, shards, timestamp, bound);
  }

  /** A run keeps the counters in agreement with the elements and on the shards of the mask. */
  lemma {:induction false} RunKeeps(s: State, calls: seq<Call>, hash: nat, shards: Shards, bound: nat)
    requires Agree(s, bound) && bound + TotalCost(calls) < TWO_63
    ensures var r := AfterRun(s, calls, hash, shards);
            Agree(r, bound + TotalCost(calls)) && StaysSharded(s.counters, r.counters, hash, shards)
    decreases |calls|
  {
    hide Agree, StaysSharded, AfterChanges, ChangesOf, Cost;
    NothingMoved(s.counters, hash, shards);
    if calls != [] {
      CostIs(calls[0].op);
      var next := AfterChanges(s, ChangesOf(calls[0].op), hash, shards, calls[0].timestamp);
      ChangesKeep(s, ChangesOf(calls[0].op), hash, shards, calls[0].timestamp, bound);
      RunKeeps(next, calls[1..], hash, shards, bound + Cost(calls[0].op));
      StayedSharded(s.counters, next.counters, AfterRun(s, calls, hash, shards).counters, hash, shards);
    }
  }

  lemma CostIs(op: Op)
    ensures |ChangesOf(op)| == Cost(op)
  {
  }

  // ---------- when the sum is right ----------

  const EMPTY := State(map[], map[])

  /** What GetCountByObject answers. */
  function ListedSum(s: State): int {
    SumOver(s.counters, Listed(s.counters))
  }

  /** One HSET of n fields whose values go to n shards. */
  function Fields(n: nat): seq<(Bytes, Bytes)> {
    seq(n, i requires 0 <= i < n => (BigEndian(i, 2), BigEndian(i, 2)))
  }

  /** A hash that numbers those values. */
  function Numbering(mask: nat): Shards {
    v => Shard(if |v| >= 8 then Value(v[8..]) else 0, mask)
  }

  lemma NumberingMasked(mask: nat)
    requires mask < 0x1_0000
    ensures Masked(mask, Numbering(mask))
  {
    hide Shard, Within, Value;
    forall v: Bytes ensures Within(Numbering(mask)(v), mask) {
      ShardWithin(if |v| >= 8 then Value(v[8..]) else 0, mask);
    }
  }

  lemma FieldShard(i: nat, mask: nat, timestamp: Bits)
    requires i < 0x1_0000 && 0 < mask < 0x1_0000
    ensures CounterKey(mask, Some(Stored(timestamp, BigEndian(i, 2))), Numbering(mask)) == BigEndian(Shard(i, mask), 2)
  {
    hide Shard, Value, BigEndian;
    BigEndianLength(timestamp, 8);
    ShardValue(i);
    ShardFits(i, mask);
    assert Stored(timestamp, BigEndian(i, 2))[8..] == BigEndian(i, 2);
  }

  /** After n of the fields there are n counters of 1. */
  ghost predicate OnePerShard(s: State, n: nat, mask: nat) {
    && s.counters.Keys == ShardKeys(n, mask) && |s.counters| == n
    && (forall k :: k in s.counters ==> Counted(s.counters, k) == 1)
    && s.elements.Keys == FieldKeys(n) && |s.elements| == n
  }

  lemma {:induction false} FieldsSpread(n: nat, mask: nat, timestamp: Bits)
    requires n <= 0x8000 && 0 < mask < 0x1_0000 && Ones(mask) >= 15
    ensures OnePerShard(AfterChanges(EMPTY, Puts(Fields(n), false), mask, Numbering(mask), timestamp), n, mask)
  {
    hide *;
    if n == 0 {
      NoneSpread(mask, timestamp);
    } else {
      var changes, m := Puts(Fields(n), false), n - 1;
      FieldsSpread(m, mask, timestamp);
      FieldsFront(n);
      ChangesPush(EMPTY, changes, m, mask, Numbering(mask), timestamp);
      var before := AfterChanges(EMPTY, changes[..m], mask, Numbering(mask), timestamp);
      PutIs(before, changes[m], mask, Numbering(mask), timestamp);
      assert changes[..n] == changes;
      OneMoreShard(before, m, mask, timestamp);
    }
  }

  lemma NoneSpread(mask: nat, timestamp: Bits)
    ensures OnePerShard(AfterChanges(EMPTY, Puts(Fields(0), false), mask, Numbering(mask), timestamp), 0, mask)
  {
    ShardKeysMore(0, mask);
    FieldKeysMore(0);
  }

  lemma FieldsFront(n: nat)
    requires n > 0
    ensures |Puts(Fields(n), false)| == n && Puts(Fields(n), false)[..n - 1] == Puts(Fields(n - 1), false)
    ensures Puts(Fields(n), false)[n - 1] == Put(BigEndian(n - 1, 2), BigEndian(n - 1, 2), false)
  {
    hide BigEndian;
  }

  lemma OneMoreShard(s: State, n: nat, mask: nat, timestamp: Bits)
    requires OnePerShard(s, n, mask) && n < 0x8000 && 0 < mask < 0x1_0000 && Ones(mask) >= 15
    ensures OnePerShard(PutState(s, BigEndian(n, 2), BigEndian(n, 2), false, mask, Numbering(mask), timestamp), n + 1, mask)
  {
    hide BigEndian, Value, Shard, Ones, Numbering, CounterKey, ShardKeys, FieldKeys, Stored, Moved, Counted;
    var field := BigEndian(n, 2);
    FieldShard(n, mask, timestamp);
    NewField(n);
    OneMoreCounter(s.counters, n, mask, timestamp);
    OneMoreElement(s.elements, n, Stored(timestamp, field));
  }

  lemma OneMoreCounter(counters: Counters, n: nat, mask: nat, timestamp: Bits)
    requires n < 0x8000 && mask < 0x1_0000 && Ones(mask) >= 15
    requires counters.Keys == ShardKeys(n, mask) && |counters| == n && forall k :: k in counters ==> Counted(counters, k) == 1
    ensures var r := Moved(counters, BigEndian(Shard(n, mask), 2), 1, timestamp);
            r.Keys == ShardKeys(n + 1, mask) && |r| == n + 1 && forall k :: k in r ==> Counted(r, k) == 1
  {
    hide BigEndian, Shard, Ones, EncodeCount, DecodedValue, Wrapped, ShardKeys;
    var key := BigEndian(Shard(n, mask), 2);
    UpTo14(Ones(mask));
    NewShard(n, mask);
    ShardKeysMore(n, mask);
    assert key !in counters.Keys;
    WrapsNothing(1);
    CountRoundTrip(timestamp, 1, []);
    SizeAfterPut(counters, key, EncodeCount(timestamp, 1, []));
  }

  lemma OneMoreElement(elements: map<Bytes, Bytes>, n: nat, v: Bytes)
    requires elements.Keys == FieldKeys(n) && |elements| == n && n < 0x1_0000
    ensures var r := elements[BigEndian(n, 2) := v];
            BigEndian(n, 2) !in elements && r.Keys == FieldKeys(n + 1) && |r| == n + 1
  {
    hide BigEndian, FieldKeys;
    NewField(n);
    FieldKeysMore(n);
    assert BigEndian(n, 2) !in elements.Keys;
    SizeAfterPut(elements, BigEndian(n, 2), v);
  }

  function FieldKeys(n: nat): set<Bytes> {
    set i | 0 <= i < n :: BigEndian(i, 2)
  }

  lemma FieldKeysMore(n: nat)
    ensures FieldKeys(0) == {} && FieldKeys(n + 1) == FieldKeys(n) + {BigEndian(n, 2)}
  {
    hide BigEndian;
  }

  lemma NewField(n: nat)
    requires n < 0x1_0000
    ensures BigEndian(n, 2) !in FieldKeys(n)
  {
    hide BigEndian, Value;
    if BigEndian(n, 2) in FieldKeys(n) {
      var i :| 0 <= i < n && BigEndian(n, 2) == BigEndian(i, 2);
      ShardValue(i);
      ShardValue(n);
    }
  }

  /** From an empty hash, one HSET of 32768 fields spread over as many shards, and the sum is one short. */
  lemma SumMissesOne(mask: nat, timestamp: Bits)
    requires mask < 0x1_0000 && Ones(mask) >= 15
    ensures var call := Call(HSet(Fields(0x8000), false), timestamp);
            var s := AfterRun(EMPTY, [call], mask, Numbering(mask));
            && Masked(mask, Numbering(mask)) && TotalCost([call]) == 0x8000
            && |s.elements| == 0x8000 && ListedSum(s) == 0x7fff
  {
    hide BigEndian, Value, Shard, EncodeCount, DecodedValue, Sorted, Counted, ShardKeys, Fields, AfterChanges, Masked;
    NumberingMasked(mask);
    FieldsSpread(0x8000, mask, timestamp);
    FieldsMany(0x8000);
    var call := Call(HSet(Fields(0x8000), false), timestamp);
    var s := AfterChanges(EMPTY, ChangesOf(call.op), mask, Numbering(mask), timestamp);
    assert [call][1..] == [];
    assert |s.counters.Keys| == |s.counters|;
    SortedIsEnumeration(s.counters.Keys);
    OnesAddUp(s.counters, Listed(s.counters));
  }

  lemma FieldsMany(n: nat)
    ensures |Fields(n)| == n
  {
  }

  /** The sum is the number of elements after every run, whatever the hash function, exactly for masks of at most 14 ones. */
  lemma SumExactForMask(mask: nat)
    requires mask < 0x1_0000
    ensures (forall shards: Shards, calls: seq<Call> :: Masked(mask, shards) && TotalCost(calls) < TWO_63 ==>
               ListedSum(AfterRun(EMPTY, calls, mask, shards)) == |AfterRun(EMPTY, calls, mask, shards).elements|) <==>
            Ones(mask) <= 14
  {
    hide *;
    if Ones(mask) <= 14 {
      forall shards: Shards, calls: seq<Call> | Masked(mask, shards) && TotalCost(calls) < TWO_63
        ensures ListedSum(AfterRun(EMPTY, calls, mask, shards)) == |AfterRun(EMPTY, calls, mask, shards).elements|
      {
        EmptyAgrees(mask);
        RunKeeps(EMPTY, calls, mask, shards, 0);
        FewShards(AfterRun(EMPTY, calls, mask, shards), EMPTY, TotalCost(calls), mask, shards);
      }
    } else {
      SomeRunIsWrong(mask);
    }
  }

  lemma SomeRunIsWrong(mask: nat)
    requires mask < 0x1_0000 && Ones(mask) >= 15
    ensures exists shards: Shards, calls: seq<Call> ::
              && Masked(mask, shards) && TotalCost(calls) < TWO_63
              && ListedSum(AfterRun(EMPTY, calls, mask, shards)) != |AfterRun(EMPTY, calls, mask, shards).elements|
  {
    hide Masked, TotalCost, ListedSum, AfterRun, Fields, Numbering, Ones;
    SumMissesOne(mask, 0);
    var calls := [Call(HSet(Fields(0x8000), false), 0)];
    assert Masked(mask, Numbering(mask)) && TotalCost(calls) < TWO_63;
  }

  lemma EmptyAgrees(hash: nat)
    ensures Agree(EMPTY, 0) && Sharded(EMPTY.counters, hash)
  {
    EmptySum();
  }

  lemma FewShards(s: State, before: State, bound: nat, hash: nat, shards: Shards)
    requires Agree(s, bound) && Masked(hash, shards) && Ones(hash) <= 14
    requires Sharded(before.counters, hash) && StaysSharded(before.counters, s.counters, hash, shards)
    ensures ListedSum(s) == |s.elements|
  {
    hide Sum, SumOver, Sharded, Decodable;
    ShardsListed(s.counters, hash);
    ListedAndUnlisted(s.counters);
  }

  /** A hash or a set over its whole life. */
  class Object {
    var state: State
    const hash: nat
    const shards: Shards
    ghost var moves: nat

    ghost predicate Valid()
      reads this
    {
      Agree(state, moves) && (Masked(hash, shards) ==> Sharded(state.counters, hash))
    }

    constructor (hash: nat, shards: Shards)
      ensures Valid() && this.hash == hash && this.shards == shards && state == EMPTY && moves == 0
    {
      this.hash, this.shards, state, moves := hash, shards, EMPTY, 0;
    }

    method Do(op: Op, timestamp: Bits)
      requires Valid() && moves + Cost(op) < TWO_63
      modifies this
      ensures Valid() && moves == old(moves) + Cost(op)
      ensures state == AfterChanges(old(state), ChangesOf(op), hash, shards, timestamp)
      ensures state.elements == AfterOp(old(state.elements), op, timestamp)
    {
      hide Agree, AfterOp, Cost, Masked, Sharded, AfterChanges, ChangesOf;
      state := Apply(state, op, hash, shards, timestamp, moves);
      moves := moves + Cost(op);
    }

    /**
     * After any run a scan gives the number of elements or its limit error, and the sum of the
     * counters gives it exactly when the counters that are not listed add up to 0; there are none when
     * the mask has at most 14 ones, and by SumExactForMask any other mask can go wrong.
     */
    method Run(calls: seq<Call>, scanMax: nat) returns (sum: int, scanned: Option<nat>)
      requires Valid() && moves + TotalCost(calls) < TWO_63
      modifies this
      ensures Valid() && state.elements == AfterCalls(old(state.elements), calls)
      ensures state == AfterRun(old(state), calls, hash, shards)
      ensures scanned == if Capped(|state.elements|, 100 * scanMax) then None else Some(|state.elements|)
      ensures sum == ListedSum(state)
      ensures sum == |state.elements| <==> SumOver(state.counters, Unlisted(state.counters)) == 0
      ensures |state.counters| <= MAX_INT16 || (Masked(hash, shards) && Ones(hash) <= 14) ==> sum == |state.elements|
      decreases |calls|
    {
      hide Agree, AfterOp, Cost, Masked, Sharded, SumOver, Unlisted, AfterChanges, ChangesOf, Ones;
      if calls == [] {
        sum := SumCounters(state, moves);
        scanned := ScanCount(state, 100 * scanMax);
        if Masked(hash, shards) && Ones(hash) <= 14 {
          MaskFits(hash, shards);
          ShardsListed(state.counters, hash);
        }
      } else {
        Do(calls[0].op, calls[0].timestamp);
        sum, scanned := Run(calls[1..], scanMax);
      }
    }
  }

  lemma MaskFits(hash: nat, shards: Shards)
    requires Masked(hash, shards)
    ensures hash < 0x1_0000
  {
  }

  /** The deletes' shard goes negative when the elements were counted elsewhere. */
  lemma DeletesShardGoesNegative(v: Bytes, shards: Shards, hash: nat, timestamp: Bits)
    requires 0 < hash < 0x1_0000 && shards(v) < 0x1_0000 && shards(v) != hash
    ensures var added := Moved(map[], CounterKey(hash, Some(v), shards), 1, timestamp);
            && IsInt64(Counted(added, CounterKey(hash, None, shards)) - 1)
            && var removed := Moved(added, CounterKey(hash, None, shards), -1, timestamp);
               Sum(removed) == 0 && Counted(removed, CounterKey(hash, None, shards)) == -1
  {
    hide Sum, Counted, Moved, CounterKey, Decodable;
    var put, del := CounterKey(hash, Some(v), shards), CounterKey(hash, None, shards);
    ShardsApart(v, shards, hash);
    EmptySum();
    SumMoved(map[], put, 1, timestamp, 0);
    var added := Moved(map[], put, 1, timestamp);
    SumMoved(added, del, -1, timestamp, 1);
    CountedElsewhere(map[], put, 1, timestamp, del);
    CountedThere(added, del, -1, timestamp);
  }

  lemma CountedThere(counters: Counters, k: Bytes, delta: int, timestamp: Bits)
    requires IsInt64(Counted(counters, k) + delta)
    ensures Counted(Moved(counters, k, delta, timestamp), k) == Counted(counters, k) + delta
  {
    hide EncodeCount, DecodedValue;
    var user := if k in counters && |counters[k]| >= 17 then counters[k][17..] else [];
    CountRoundTrip(timestamp, Counted(counters, k) + delta, user);
  }

  lemma CountedElsewhere(counters: Counters, k: Bytes, delta: int, timestamp: Bits, other: Bytes)
    requires IsInt64(Counted(counters, k) + delta) && other != k
    ensures Counted(Moved(counters, k, delta, timestamp), other) == Counted(counters, other)
  {
    hide EncodeCount, DecodedValue;
  }

  lemma EmptySum()
    ensures Sum(map[]) == 0 && Decodable(map[], 0) && forall k :: Counted(map[], k) == 0
  {
  }

  lemma ShardsApart(v: Bytes, shards: Shards, hash: nat)
    requires 0 < hash < 0x1_0000 && shards(v) < 0x1_0000 && shards(v) != hash
    ensures CounterKey(hash, Some(v), shards) != CounterKey(hash, None, shards)
  {
    hide Value, BigEndian;
    ShardValue(shards(v));
    ShardValue(hash);
  }

  lemma ShardValue(n: nat)
    requires n < 0x1_0000
    ensures n % 0x1_0000 == n && Value(BigEndian(n, 2)) == n
  {
    assert Pow256(2) == 0x1_0000;
    BigEndianRoundTrip(n, 2);
  }
}
