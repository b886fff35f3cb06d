/** command/zset.go: the commands of a sorted set, each against the map from members to scores. */
module ZsetCommands {
  import opened Basics
  import opened ByteOrder
  import opened Store
  import opened Float
  import opened Zset
  import R = Rank

  // ---------- score ranges ----------

  datatype Bounds = Bounds(min: Bits, max: Bits, includeMin: bool, includeMax: bool)

  /** What the command asks for: numeric comparison, either end open or closed. */
  predicate InBounds(b: Bounds, s: Bits) {
    && Float.Compare(s, b.min) >= 0 && Float.Compare(s, b.max) <= 0
    && (b.includeMin || Float.Compare(s, b.min) != 0)
    && (b.includeMax || Float.Compare(s, b.max) != 0)
  }

  /** What the scan between the encoded bounds can reach. */
  predicate Listed(b: Bounds, s: Bits) {
    Code(b.min) <= Code(s) <= Code(b.max) && InBounds(b, s)
  }

  ghost function ListedBy(b: Bounds): Bits -> bool {
    (s: Bits) => Listed(b, s)
  }

  predicate Numbers(b: Bounds) {
    !IsNan(b.min) && !IsNan(b.max)
  }

  /** The scan misses a score in bounds exactly when a zero meets the bound that is the other zero. */
  lemma ListedExceptOtherZero(b: Bounds, s: Bits)
    requires Numbers(b) && !IsNan(s)
    ensures Listed(b, s) <==>
              && InBounds(b, s)
              && !(s == NEGATIVE_ZERO && b.min == POSITIVE_ZERO)
              && !(s == POSITIVE_ZERO && b.max == NEGATIVE_ZERO)
  {
    CodeAndRank(s, b.min);
    CodeAndRank(b.min, s);
    CodeAndRank(s, b.max);
    CodeAndRank(b.max, s);
  }

  datatype Verdict = Verdict(ok: bool, found: bool)

  /** getScoreMember: whether the entry counts, and if not, whether the scan goes on. */
  function GetScoreMember(k: Bytes, b: Bounds, reversed: bool): Verdict {
    if |k| < 9 then Verdict(true, false)
    else
      var score := ScoreOf(k);
      if Float.Compare(score, b.min) < 0 || Float.Compare(score, b.max) > 0 then Verdict(false, false)
      else if !b.includeMin && Float.Compare(score, b.min) == 0 then Verdict(!reversed, false)
      else if !b.includeMax && Float.Compare(score, b.max) == 0 then Verdict(reversed, false)
      else Verdict(true, true)
  }

  predicate Hit(b: Bounds, k: Bytes) {
    |k| >= 9 && InBounds(b, ScoreOf(k))
  }

  function Keep(ks: seq<Bytes>, b: Bounds): (r: seq<Bytes>)
    ensures forall i :: 0 <= i < |r| ==> |r[i]| >= 9
  {
    if ks == [] then []
    else
      var k := ks[|ks| - 1];
      Keep(ks[..|ks| - 1], b) + if Hit(b, k) then [k] else []
  }

  /** Where the callback ends the scan, nothing further on would have counted. */
  ghost predicate StopsRight(ks: seq<Bytes>, b: Bounds, reversed: bool) {
    forall i, j :: 0 <= i < j < |ks| && GetScoreMember(ks[i], b, reversed) == Verdict(false, false) ==> !Hit(b, ks[j])
  }

  lemma {:induction false} KeepsNoMore(ks: seq<Bytes>, b: Bounds, n: nat)
    requires n <= |ks| && forall j :: n <= j < |ks| ==> !Hit(b, ks[j])
    ensures Keep(ks, b) == Keep(ks[..n], b)
  {
    if n < |ks| {
      var init := ks[..|ks| - 1];
      KeepsNoMore(init, b, n);
      assert init[..n] == ks[..n];
    } else {
      assert ks[..n] == ks;
    }
  }

  /** The stretch of at most limit elements (at least one) from offset on. */
  function Window<T>(s: seq<T>, offset: nat, limit: nat): seq<T> {
    var want := if limit == 0 then 1 else limit;
    var a := if offset > |s| then |s| else offset;
    s[a..if |s| - a < want then |s| else a + want]
  }

  /** The listed keys a range command returns. */
  function Found(ks: seq<Bytes>, b: Bounds, offset: nat, limit: nat): (r: seq<Bytes>)
    ensures forall i :: 0 <= i < |r| ==> |r[i]| >= 9
  {
    Window(Keep(ks, b), offset, limit)
  }

  function ElementOf(k: Bytes): R.Element
    requires |k| >= 9
  {
    R.Element(k, MemberOf(k), k[1..9])
  }

  function Elements(ks: seq<Bytes>): (r: seq<R.Element>)
    requires forall i :: 0 <= i < |ks| ==> |ks[i]| >= 9
    ensures |r| == |ks|
  {
    seq(|ks|, i requires 0 <= i < |ks| => ElementOf(ks[i]))
  }

  function Reply(ks: seq<Bytes>, withScores: bool): seq<R.Item>
    requires forall i :: 0 <= i < |ks| ==> |ks[i]| >= 9
  {
    R.Flat(Elements(ks), !withScores)
  }

  lemma ReplyPush(ks: seq<Bytes>, k: Bytes, withScores: bool)
    requires |k| >= 9 && forall i :: 0 <= i < |ks| ==> |ks[i]| >= 9
    ensures Reply(ks + [k], withScores) == Reply(ks, withScores) + R.Shown(ElementOf(k), !withScores)
  {
    assert Elements(ks + [k])[..|ks|] == Elements(ks);
  }

  lemma WindowPush<T>(s: seq<T>, x: T, offset: nat, limit: nat)
    ensures Window(s + [x], offset, limit) ==
              if offset <= |s| && (|s| == offset || |s| - offset < limit) then Window(s, offset, limit) + [x]
              else Window(s, offset, limit)
  {
  }

  lemma KeepPush(ks: seq<Bytes>, b: Bounds, i: nat)
    requires i < |ks|
    ensures Keep(ks[..i + 1], b) == if Hit(b, ks[i]) then Keep(ks[..i], b) + [ks[i]] else Keep(ks[..i], b)
  {
    assert ks[..i + 1][..i] == ks[..i];
  }

  lemma WindowFull<T>(s: seq<T>, t: seq<T>, offset: nat, limit: nat)
    requires |Window(s, offset, limit)| >= limit && Window(s, offset, limit) != []
    ensures Window(s + t, offset, limit) == Window(s, offset, limit)
  {
  }

  lemma {:induction false} KeepGrows(ks: seq<Bytes>, b: Bounds, i: nat) returns (rest: seq<Bytes>)
    requires i <= |ks|
    ensures Keep(ks, b) == Keep(ks[..i], b) + rest
  {
    hide Keep, Hit;
    if i == |ks| {
      assert ks[..i] == ks;
      rest := [];
    } else {
      var n := |ks| - 1;
      var more := KeepGrows(ks[..n], b, i);
      assert ks[..n][..i] == ks[..i] && ks[..n + 1] == ks;
      KeepPush(ks, b, n);
      rest := if Hit(b, ks[n]) then more + [ks[n]] else more;
    }
  }

  lemma FullForGood(ks: seq<Bytes>, b: Bounds, i: nat, offset: nat, limit: nat)
    requires i <= |ks|
    requires var w := Found(ks[..i], b, offset, limit); |w| >= limit && w != []
    ensures Found(ks, b, offset, limit) == Found(ks[..i], b, offset, limit)
  {
    hide Keep, Window;
    var rest := KeepGrows(ks, b, i);
    WindowFull(Keep(ks[..i], b), rest, offset, limit);
  }

  lemma VerdictIsHit(b: Bounds, k: Bytes, reversed: bool)
    ensures GetScoreMember(k, b, reversed).found <==> Hit(b, k)
  {
    hide ScoreOf;
  }

  /** How many entries an offset skips: the greatest int64 has no successor to count to, and skips none. */
  function Skipped(offset: nat): nat {
    if offset == MAX_INT64 then 0 else offset
  }

  lemma SkipTest(offset: nat, count: nat)
    requires IsInt64(offset) && count > 0
    ensures count >= Wrapped(offset + 1) <==> count >= Skipped(offset) + 1
  {
  }

  /** The window is the one asked for unless the offset is the greatest int64 and there is something to show. */
  lemma SkippedWindow<T>(s: seq<T>, offset: nat, limit: nat)
    requires IsInt64(offset) && |s| <= MAX_INT64
    ensures Window(s, Skipped(offset), limit) == Window(s, offset, limit) <==> offset < MAX_INT64 || s == []
  {
  }

  /** One entry, asked to skip all there can be, and returned. */
  lemma GreatestOffset<T>(x: T)
    ensures Window([x], MAX_INT64, 1) == [] && Window([x], Skipped(MAX_INT64), 1) == [x]
  {
  }

  /** The callback of objectZRangeByScore over the listed keys. */
  method WalkScores(ks: seq<Bytes>, b: Bounds, reversed: bool, offset: nat, limit: nat, withScores: bool)
    returns (ret: seq<R.Item>)
    requires StopsRight(ks, b, reversed) && IsInt64(offset)
    ensures ret == Reply(Found(ks, b, Skipped(offset), limit), withScores)
  {
    hide *;
    ret := [];
    var count, cnt := 0, 0;
    var i := 0;
    ghost var skip := Skipped(offset);
    WalkStarts(ks, b, skip, limit, withScores);
    while i < |ks|
      invariant 0 <= i <= |ks|
      invariant count == |Keep(ks[..i], b)| && cnt == |Found(ks[..i], b, skip, limit)|
      invariant cnt == 0 || cnt < limit
      invariant ret == Reply(Found(ks[..i], b, skip, limit), withScores)
    {
      var v := GetScoreMember(ks[i], b, reversed);
      VerdictIsHit(b, ks[i], reversed);
      KeepPush(ks, b, i);
      if !v.found {
        if !v.ok {
          WalkStops(ks, b, reversed, i, skip, limit);
          return;
        }
        WalkSkips(ks, b, i, skip, limit);
      } else {
        WalkCounts(ks, b, i, skip, limit, withScores);
        count := count + 1;
        SkipTest(offset, count);
        if count >= Wrapped(offset + 1) {
          ret := ret + R.Shown(ElementOf(ks[i]), !withScores);
          cnt := cnt + 1;
          if cnt >= limit {
            FullForGood(ks, b, i + 1, skip, limit);
            return;
          }
        }
      }
      i := i + 1;
    }
    assert ks[..i] == ks;
  }

  lemma WalkStarts(ks: seq<Bytes>, b: Bounds, offset: nat, limit: nat, withScores: bool)
    ensures Keep(ks[..0], b) == [] && Found(ks[..0], b, offset, limit) == []
    ensures Reply([], withScores) == []
  {
  }

  lemma WalkStops(ks: seq<Bytes>, b: Bounds, reversed: bool, i: nat, offset: nat, limit: nat)
    requires i < |ks| && StopsRight(ks, b, reversed) && GetScoreMember(ks[i], b, reversed) == Verdict(false, false)
    ensures Found(ks, b, offset, limit) == Found(ks[..i], b, offset, limit)
  {
    VerdictIsHit(b, ks[i], reversed);
    hide Hit, GetScoreMember, Keep;
    KeepsNoMore(ks, b, i);
  }

  lemma WalkSkips(ks: seq<Bytes>, b: Bounds, i: nat, offset: nat, limit: nat)
    requires i < |ks| && !Hit(b, ks[i])
    ensures Found(ks[..i + 1], b, offset, limit) == Found(ks[..i], b, offset, limit)
  {
    KeepPush(ks, b, i);
  }

  lemma WalkCounts(ks: seq<Bytes>, b: Bounds, i: nat, offset: nat, limit: nat, withScores: bool)
    requires i < |ks| && Hit(b, ks[i])
    requires var w := Found(ks[..i], b, offset, limit); w == [] || |w| < limit
    ensures |ks[i]| >= 9
    ensures var s := Keep(ks[..i], b);
            var t := Keep(ks[..i + 1], b);
            && |t| == |s| + 1
            && var before, after := Found(ks[..i], b, offset, limit), Found(ks[..i + 1], b, offset, limit);
               if |t| >= offset + 1 then
                 && |after| == |before| + 1
                 && Reply(after, withScores) == Reply(before, withScores) + R.Shown(ElementOf(ks[i]), !withScores)
               else after == before
  {
    hide Keep, Reply, ElementOf, InBounds;
    KeepPush(ks, b, i);
    var s := Keep(ks[..i], b);
    WindowPush(s, ks[i], offset, limit);
    ReplyPush(Window(s, offset, limit), ks[i], withScores);
  }

  // ---------- what a scan lists ----------

  /** The keys ListByScore hands to its callback, in order. */
  function ScanScores(store: map<Bytes, Bytes>, b: Bounds, reversed: bool): seq<Bytes> {
    if reversed then ListKeys(store, ScoreEnd(b.max), ScoreStart(b.min))
    else ListKeys(store, ScoreStart(b.min), ScoreEnd(b.max))
  }

  function Turned<T>(s: seq<T>, reversed: bool): seq<T> {
    if reversed then Reversed(s) else s
  }

  lemma {:induction false} KeepMembers(ks: seq<Bytes>, b: Bounds)
    ensures forall k :: k in Keep(ks, b) <==> k in ks && Hit(b, k)
    ensures Ascending(ks) ==> Ascending(Keep(ks, b))
  {
    hide Hit;
    if ks != [] {
      var init := ks[..|ks| - 1];
      KeepMembers(init, b);
      assert ks == init + [ks[|ks| - 1]];
      if Ascending(ks) {
        forall i | 0 <= i < |Keep(init, b)| ensures Less(Keep(init, b)[i], ks[|ks| - 1]) {
          assert Keep(init, b)[i] in init;
        }
      }
    }
  }

  lemma {:induction false} KeepAppend(xs: seq<Bytes>, ys: seq<Bytes>, b: Bounds)
    ensures Keep(xs + ys, b) == Keep(xs, b) + Keep(ys, b)
  {
    hide Hit;
    if ys == [] {
      assert xs + ys == xs;
    } else {
      var init := ys[..|ys| - 1];
      KeepAppend(xs, init, b);
      assert (xs + ys)[..|xs + ys| - 1] == xs + init;
    }
  }

  lemma KeepOne(k: Bytes, b: Bounds)
    ensures Keep([k], b) == if Hit(b, k) then [k] else []
  {
    hide Hit;
    var none: seq<Bytes>, one := [], [k];
    assert one[..0] == none && Keep(none, b) == none;
  }

  lemma {:induction false} KeepReversed(ks: seq<Bytes>, b: Bounds)
    ensures Keep(Reversed(ks), b) == Reversed(Keep(ks, b))
  {
    if ks != [] {
      hide Hit, Reversed;
      var init, k := ks[..|ks| - 1], ks[|ks| - 1];
      assert ks == init + [k];
      KeepReversed(init, b);
      ReversedPush(init, k);
      KeepAppend([k], Reversed(init), b);
      KeepOne(k, b);
      ReversedPush(Keep(init, b), k);
    }
  }

  /** All keys listed for min to max carry a score between them, by code. */
  ghost predicate Between(ks: seq<Bytes>, low: Bits, high: Bits) {
    forall i :: 0 <= i < |ks| ==> |ks[i]| >= 9 && !IsNan(ScoreOf(ks[i])) && Code(low) <= Code(ScoreOf(ks[i])) <= Code(high)
  }

  lemma UpwardStops(ks: seq<Bytes>, b: Bounds)
    requires Numbers(b) && Between(ks, b.min, b.max) && ByCode(ks)
    ensures StopsRight(ks, b, false)
  {
    forall i, j | 0 <= i < j < |ks| && GetScoreMember(ks[i], b, false) == Verdict(false, false)
      ensures !Hit(b, ks[j])
    {
      StopsFor(b, ScoreOf(ks[i]), ScoreOf(ks[j]));
    }
  }

  lemma DownwardStops(ks: seq<Bytes>, b: Bounds)
    requires Numbers(b) && Between(ks, b.min, b.max) && ByCode(ks)
    ensures StopsRight(Reversed(ks), b, true)
  {
    var rs := Reversed(ks);
    forall i, j | 0 <= i < j < |rs| && GetScoreMember(rs[i], b, true) == Verdict(false, false)
      ensures !Hit(b, rs[j])
    {
      var x, y := |ks| - 1 - i, |ks| - 1 - j;
      assert rs[i] == ks[x] && rs[j] == ks[y];
      StopsFor(b, ScoreOf(ks[y]), ScoreOf(ks[x]));
    }
  }

  /** Equal to a bound in the middle of the range means equal to it all the way to that bound. */
  lemma StopsFor(b: Bounds, low: Bits, high: Bits)
    requires Numbers(b) && !IsNan(low) && !IsNan(high)
    requires Code(b.min) <= Code(low) <= Code(high) <= Code(b.max)
    ensures Float.Compare(low, b.min) >= 0 && Float.Compare(low, b.max) <= 0
    ensures Float.Compare(high, b.min) >= 0 && Float.Compare(high, b.max) <= 0
    ensures Float.Compare(low, b.max) == 0 ==> Float.Compare(high, b.max) == 0
    ensures Float.Compare(high, b.min) == 0 ==> Float.Compare(low, b.min) == 0
  {
    CodeAndRank(low, b.min);
    CodeAndRank(high, low);
    CodeAndRank(b.max, high);
    hide Code;
  }

  lemma CrossedStops(ks: seq<Bytes>, b: Bounds, reversed: bool)
    requires Numbers(b)
    requires forall i :: 0 <= i < |ks| ==>
               |ks[i]| >= 9 && !IsNan(ScoreOf(ks[i])) && Code(b.max) < Code(ScoreOf(ks[i])) < Code(b.min)
    ensures StopsRight(ks, b, reversed) && Keep(ks, b) == []
  {
    forall i | 0 <= i < |ks| ensures !Hit(b, ks[i]) {
      CodeAndRank(b.max, ScoreOf(ks[i]));
      CodeAndRank(ScoreOf(ks[i]), b.min);
    }
    KeepsNoMore(ks, b, 0);
  }

  lemma BoundsOrder(b: Bounds)
    ensures Code(b.min) <= Code(b.max) ==> Less(ScoreStart(b.min), ScoreEnd(b.max))
  {
    hide Code, EncodeFloat, PrefixNextSpec;
    var p := [SCORE_PREFIX] + EncodeFloat(b.max);
    ScoreKeyParts(b.max, []);
    ScoreKeyParts(b.min, []);
    assert p[0] == SCORE_PREFIX;
    assert !AllOnes(p);
    assert p == ScoreKey(b.max, []) && ScoreStart(b.min)[..|p|] == ScoreStart(b.min);
    BelowPrefixNext(p, ScoreStart(b.min));
    ScoreKeyOrder(b.max, [], b.min, []);
  }

  predicate HasScore(k: Bytes, low: int, high: int) {
    |k| >= 9 && k[0] == SCORE_PREFIX && low <= Code(ScoreOf(k)) <= high
  }

  /** Exactly the entries scored between the bounds are listed; between crossed bounds, those strictly between. */
  lemma InRange(store: map<Bytes, Bytes>, z: Scores, b: Bounds)
    requires Represents(store, z)
    ensures var ks := RangeKeys(store, ScoreStart(b.min), ScoreEnd(b.max));
            Ascending(ks) && forall k :: k in ks <==> k in store && HasScore(k, Code(b.min), Code(b.max))
    ensures var ks := RangeKeys(store, ScoreEnd(b.max), ScoreStart(b.min));
            Ascending(ks) && forall k :: k in ks <==> k in store && HasScore(k, Code(b.max) + 1, Code(b.min) - 1)
  {
    hide *;
    RangeHas(store, ScoreStart(b.min), ScoreEnd(b.max));
    RangeHas(store, ScoreEnd(b.max), ScoreStart(b.min));
    forall k | k in store
      ensures !Less(k, ScoreStart(b.min)) && Less(k, ScoreEnd(b.max)) <==> HasScore(k, Code(b.min), Code(b.max))
      ensures !Less(k, ScoreEnd(b.max)) && Less(k, ScoreStart(b.min)) <==> HasScore(k, Code(b.max) + 1, Code(b.min) - 1)
    {
      KeyInRange(store, z, b, k);
    }
  }

  lemma KeyInRange(store: map<Bytes, Bytes>, z: Scores, b: Bounds, k: Bytes)
    requires Represents(store, z) && k in store
    ensures !Less(k, ScoreStart(b.min)) && Less(k, ScoreEnd(b.max)) <==> HasScore(k, Code(b.min), Code(b.max))
    ensures !Less(k, ScoreEnd(b.max)) && Less(k, ScoreStart(b.min)) <==> HasScore(k, Code(b.max) + 1, Code(b.min) - 1)
  {
    hide Code, ScoreStart, ScoreEnd, ScoreOf, Less, MemberIndex, ScoreIndex;
    InScoreRange(store, z, b.min, b.max, k);
  }

  lemma RangeHas(store: map<Bytes, Bytes>, lo: Bytes, hi: Bytes)
    ensures var ks := RangeKeys(store, lo, hi);
            Ascending(ks) && forall k :: k in ks <==> k in store && !Less(k, lo) && Less(k, hi)
  {
    hide Less, Ascending, Sorted;
    SortedIsEnumeration(set k | k in store && !Less(k, lo) && Less(k, hi));
  }

  lemma ListedScores(store: map<Bytes, Bytes>, z: Scores, b: Bounds, ks: seq<Bytes>)
    requires Represents(store, z) && Ascending(ks)
    requires forall k :: k in ks <==> k in store && HasScore(k, Code(b.min), Code(b.max))
    ensures ByCode(ks) && Between(ks, b.min, b.max)
  {
    hide Code, ScoreOf, MemberOf, ScoreKey, IsNan, Represents, ByCode, Ascending;
    forall k | k in ks
      ensures k == ScoreKey(ScoreOf(k), MemberOf(k)) && !IsNan(ScoreOf(k))
    {
      StoredScore(store, z, k);
    }
    AscendingByCode(ks);
    forall i | 0 <= i < |ks|
      ensures HasScore(ks[i], Code(b.min), Code(b.max)) && !IsNan(ScoreOf(ks[i]))
    {
      assert ks[i] in ks;
    }
  }

  lemma StoredScore(store: map<Bytes, Bytes>, z: Scores, k: Bytes)
    requires Represents(store, z) && k in store && |k| >= 9 && k[0] == SCORE_PREFIX
    ensures k == ScoreKey(ScoreOf(k), MemberOf(k)) && MemberOf(k) in z && z[MemberOf(k)] == ScoreOf(k) && !IsNan(ScoreOf(k))
  {
    hide EncodeFloat, DecodeFloat, ScoreKey, IsNan, HasPayload, MemberKey;
    ScoreKeySpelled(k);
  }

  lemma AscendingByCode(ks: seq<Bytes>)
    requires Ascending(ks)
    requires forall k :: k in ks ==> |k| >= 9 && k == ScoreKey(ScoreOf(k), MemberOf(k))
    ensures ByCode(ks)
  {
    hide Code, ScoreKey, ScoreOf, MemberOf;
    forall i, j | 0 <= i <= j < |ks|
      ensures Code(ScoreOf(ks[i])) <= Code(ScoreOf(ks[j]))
    {
      assert ks[i] in ks && ks[j] in ks;
      ScoreKeyOrder(ScoreOf(ks[i]), MemberOf(ks[i]), ScoreOf(ks[j]), MemberOf(ks[j]));
    }
  }

  /** The entries a score range asks for, in reply order. */
  ghost function InOrder(z: Scores, b: Bounds, reversed: bool): seq<Bytes> {
    Turned(Sorted(Index(z, ListedBy(b))), reversed)
  }

  /** The scan with its early stops finds exactly the entries listed by the bounds, in order. */
  lemma ScanFinds(store: map<Bytes, Bytes>, z: Scores, b: Bounds, reversed: bool)
    requires Represents(store, z) && Numbers(b)
    ensures StopsRight(ScanScores(store, b, reversed), b, reversed)
    ensures Keep(ScanScores(store, b, reversed), b) == InOrder(z, b, reversed)
  {
    hide *;
    InRange(store, z, b);
    BoundsOrder(b);
    if Code(b.min) <= Code(b.max) {
      var ks := RangeKeys(store, ScoreStart(b.min), ScoreEnd(b.max));
      StraightScan(store, b, reversed, ks);
      ListedScores(store, z, b, ks);
      UpwardStops(ks, b);
      DownwardStops(ks, b);
      KeptIsIndex(store, z, b, ks);
      KeepReversed(ks, b);
      TurnedBoth(ks, b, reversed, z);
    } else {
      var up := RangeKeys(store, ScoreStart(b.min), ScoreEnd(b.max));
      var down := RangeKeys(store, ScoreEnd(b.max), ScoreStart(b.min));
      CrossedScan(store, b, reversed, up, down);
      CrossedScores(store, z, b, ScanScores(store, b, reversed));
      CrossedStops(ScanScores(store, b, reversed), b, reversed);
      NothingListed(z, b, reversed);
    }
  }

  lemma TurnedBoth(ks: seq<Bytes>, b: Bounds, reversed: bool, z: Scores)
    requires Keep(Reversed(ks), b) == Reversed(Keep(ks, b)) && Keep(ks, b) == Sorted(Index(z, ListedBy(b)))
    ensures Keep(Turned(ks, reversed), b) == InOrder(z, b, reversed)
    ensures Turned(ks, false) == ks && Turned(ks, true) == Reversed(ks)
  {
    hide Keep, Reversed, Index, ListedBy;
  }

  lemma StraightScan(store: map<Bytes, Bytes>, b: Bounds, reversed: bool, ks: seq<Bytes>)
    requires Less(ScoreStart(b.min), ScoreEnd(b.max)) && ks == RangeKeys(store, ScoreStart(b.min), ScoreEnd(b.max))
    ensures ScanScores(store, b, reversed) == Turned(ks, reversed)
  {
    hide RangeKeys, ScoreStart, ScoreEnd, Less;
    StrictTotalOrder();
  }

  lemma CrossedScan(store: map<Bytes, Bytes>, b: Bounds, reversed: bool, up: seq<Bytes>, down: seq<Bytes>)
    requires up == RangeKeys(store, ScoreStart(b.min), ScoreEnd(b.max))
    requires down == RangeKeys(store, ScoreEnd(b.max), ScoreStart(b.min))
    requires Code(b.min) > Code(b.max)
    requires forall k :: k in up <==> k in store && HasScore(k, Code(b.min), Code(b.max))
    requires forall k :: k in down <==> k in store && HasScore(k, Code(b.max) + 1, Code(b.min) - 1)
    ensures forall k :: k in ScanScores(store, b, reversed) ==> k in store && HasScore(k, Code(b.max) + 1, Code(b.min) - 1)
  {
    hide RangeKeys, ScoreStart, ScoreEnd, Code, Less, ScoreOf;
  }

  lemma CrossedScores(store: map<Bytes, Bytes>, z: Scores, b: Bounds, ks: seq<Bytes>)
    requires Represents(store, z)
    requires forall k :: k in ks ==> k in store && HasScore(k, Code(b.max) + 1, Code(b.min) - 1)
    ensures forall i :: 0 <= i < |ks| ==>
              |ks[i]| >= 9 && !IsNan(ScoreOf(ks[i])) && Code(b.max) < Code(ScoreOf(ks[i])) < Code(b.min)
  {
    hide Code, ScoreOf, MemberOf, ScoreKey, IsNan, Represents;
    forall i | 0 <= i < |ks|
      ensures |ks[i]| >= 9 && !IsNan(ScoreOf(ks[i])) && Code(b.max) < Code(ScoreOf(ks[i])) < Code(b.min)
    {
      assert ks[i] in ks;
      StoredScore(store, z, ks[i]);
    }
  }

  lemma NothingListed(z: Scores, b: Bounds, reversed: bool)
    requires Code(b.min) > Code(b.max)
    ensures InOrder(z, b, reversed) == []
  {
    hide Code, InBounds, ScoreKey;
    assert Index(z, ListedBy(b)) == {};
  }

  lemma KeptIsIndex(store: map<Bytes, Bytes>, z: Scores, b: Bounds, ks: seq<Bytes>)
    requires Represents(store, z) && Ascending(ks)
    requires forall k :: k in ks <==> k in store && HasScore(k, Code(b.min), Code(b.max))
    ensures Keep(ks, b) == Sorted(Index(z, ListedBy(b)))
  {
    hide Code, ScoreOf, MemberOf, ScoreKey, InBounds, Keep, Less, Sorted, MemberIndex;
    KeepMembers(ks, b);
    var kept := Keep(ks, b);
    var s := Index(z, ListedBy(b));
    forall k ensures k in kept <==> k in s {
      if k in kept {
        StoredScore(store, z, k);
        assert MemberOf(k) in z && ListedBy(b)(z[MemberOf(k)]);
      }
      if k in s {
        var m :| m in z && ListedBy(b)(z[m]) && k == ScoreKey(z[m], m);
        ScoreParts(z[m], m);
      }
    }
    AscendingIsSorted(kept, s);
  }

  lemma ScoreParts(s: Bits, m: Bytes)
    ensures var k := ScoreKey(s, m); |k| >= 9 && k[0] == SCORE_PREFIX && ScoreOf(k) == s && MemberOf(k) == m
  {
    hide EncodeFloat, DecodeFloat, ScoreKey;
    ScoreKeyParts(s, m);
  }

  // ---------- the whole index, ranks ----------

  const EVERYTHING: Bounds := Bounds(NEGATIVE_INFINITY, POSITIVE_INFINITY, true, true)

  lemma EveryScore(s: Bits)
    requires !IsNan(s)
    ensures Listed(EVERYTHING, s)
  {
  }

  /** Members in rank order, as keys of the score index. */
  ghost function Ranked(z: Scores, reversed: bool): seq<Bytes> {
    InOrder(z, EVERYTHING, reversed)
  }

  ghost predicate NoNan(z: Scores) {
    forall m :: m in z ==> !IsNan(z[m])
  }

  /** Each member holds exactly one rank. */
  lemma RankedHolds(z: Scores, reversed: bool)
    requires NoNan(z)
    ensures |Ranked(z, reversed)| == |z|
    ensures forall i :: 0 <= i < |z| ==>
              var k := Ranked(z, reversed)[i];
              |k| >= 9 && MemberOf(k) in z && k == ScoreKey(z[MemberOf(k)], MemberOf(k))
    ensures forall i, j :: 0 <= i < j < |z| ==> MemberOf(Ranked(z, reversed)[i]) != MemberOf(Ranked(z, reversed)[j])
  {
    hide MemberOf, ScoreKey, IsNan, Ascending, Sorted;
    var all := Index(z, ListedBy(EVERYTHING));
    EveryScoreListed();
    AllIndexed(z, ListedBy(EVERYTHING));
    SortedIsEnumeration(all);
    var s := Sorted(all);
    forall i | 0 <= i < |s|
      ensures |s[i]| >= 9 && MemberOf(s[i]) in z && s[i] == ScoreKey(z[MemberOf(s[i])], MemberOf(s[i]))
    {
      assert s[i] in s;
      var m :| m in z && s[i] == ScoreKey(z[m], m);
      ScoreParts(z[m], m);
    }
    forall i, j | 0 <= i < j < |s|
      ensures s[i] != s[j]
    {
      AscendingDistinct(s, i, j);
    }
  }

  lemma AscendingDistinct(s: seq<Bytes>, i: nat, j: nat)
    requires Ascending(s) && i < j < |s|
    ensures s[i] != s[j]
  {
    CompareEqual(s[i], s[j]);
  }

  /** The score index restricted by a property all scores have is as large as the set. */
  lemma {:induction false} AllIndexed(z: Scores, want: Bits -> bool)
    requires NoNan(z) && forall s: Bits :: !IsNan(s) ==> want(s)
    ensures |Index(z, want)| == |z|
    decreases |z|
  {
    hide ScoreKey, IsNan, Index;
    if z == map[] {
      NothingIndexed(want);
    } else {
      var m :| m in z;
      var rest := z - {m};
      assert z.Keys == rest.Keys + {m};
      AllIndexed(rest, want);
      OneMoreIndexed(z, want, m);
    }
  }

  lemma NothingIndexed(want: Bits -> bool)
    ensures Index(map[], want) == {}
  {
  }

  lemma OneMoreIndexed(z: Scores, want: Bits -> bool, m: Bytes)
    requires m in z && want(z[m])
    ensures Index(z, want) == Index(z - {m}, want) + {ScoreKey(z[m], m)} && ScoreKey(z[m], m) !in Index(z - {m}, want)
  {
    hide ScoreKey, IsNan, MemberOf, ScoreOf;
    var rest := z - {m};
    ScoreParts(z[m], m);
    forall k ensures k in Index(z, want) <==> k == ScoreKey(z[m], m) || k in Index(rest, want) {
      if k in Index(z, want) && k != ScoreKey(z[m], m) {
        var n :| n in z && want(z[n]) && k == ScoreKey(z[n], n);
        assert n in rest;
      }
    }
    if ScoreKey(z[m], m) in Index(rest, want) {
      var n :| n in rest && ScoreKey(z[m], m) == ScoreKey(rest[n], n);
      ScoreParts(rest[n], n);
    }
  }

  lemma EveryScoreListed()
    ensures forall s: Bits :: !IsNan(s) ==> ListedBy(EVERYTHING)(s)
  {
    forall s: Bits | !IsNan(s) ensures Listed(EVERYTHING, s) {
      EveryScore(s);
    }
  }

  ghost predicate RankOf(z: Scores, reversed: bool, m: Bytes, r: nat) {
    && r < |Ranked(z, reversed)| && m in z
    && Ranked(z, reversed)[r] == ScoreKey(z[m], m)
  }

  lemma OneRank(z: Scores, reversed: bool, m: Bytes, i: nat, j: nat)
    requires NoNan(z) && RankOf(z, reversed, m, i) && RankOf(z, reversed, m, j)
    ensures i == j
  {
    hide ScoreKey, IsNan, MemberOf, Ranked;
    RankedHolds(z, reversed);
  }

  /** The rank from the other end, which ZREVRANK counts. */
  lemma ReverseRank(z: Scores, m: Bytes, r: nat, reverse: nat)
    requires NoNan(z) && RankOf(z, false, m, r)
    ensures RankOf(z, true, m, reverse) <==> reverse == |z| - 1 - r
  {
    hide ScoreKey, IsNan, MemberOf, Index;
    RankedHolds(z, false);
    RankedHolds(z, true);
    assert Ranked(z, true) == Reversed(Ranked(z, false));
    assert Ranked(z, true)[|z| - 1 - r] == Ranked(z, false)[r];
    if RankOf(z, true, m, reverse) {
      OneRank(z, false, m, |z| - 1 - reverse, r);
    }
  }

  /** ZRANK is the inverse of a rank range of one element. */
  lemma RankRangeOfRank(z: Scores, m: Bytes, r: nat)
    requires NoNan(z) && m in z && r < |z|
    ensures forall i :: 0 <= i < |Ranked(z, false)| ==> |Ranked(z, false)[i]| >= 9
    ensures RankOf(z, false, m, r) <==>
              R.RankSlice(Elements(Ranked(z, false)), r, r) == [ElementOf(ScoreKey(z[m], m))]
  {
    hide ScoreKey, IsNan, MemberOf, ScoreOf, Ranked, Index;
    RankedHolds(z, false);
    ScoreParts(z[m], m);
    var es := Elements(Ranked(z, false));
    assert R.RankSlice(es, r, r) == [es[r]];
    assert es[r].key == Ranked(z, false)[r];
  }

  lemma ScannedAll(store: map<Bytes, Bytes>, z: Scores, reversed: bool)
    requires Represents(store, z)
    ensures ScanScores(store, EVERYTHING, reversed) == Ranked(z, reversed)
    ensures NoNan(z)
  {
    hide *;
    RepresentsNumbers(store, z);
    ScanFinds(store, z, EVERYTHING, reversed);
    OnlyScores(store, z, reversed);
    KeepAll(ScanScores(store, EVERYTHING, reversed), EVERYTHING);
    RankedIsInOrder(z, reversed);
  }

  lemma RankedIsInOrder(z: Scores, reversed: bool)
    ensures Ranked(z, reversed) == InOrder(z, EVERYTHING, reversed)
  {
  }

  lemma RepresentsNumbers(store: map<Bytes, Bytes>, z: Scores)
    requires Represents(store, z)
    ensures NoNan(z) && Numbers(EVERYTHING)
  {
    hide MemberKey, HasPayload, ScoreIndex;
  }

  lemma OnlyScores(store: map<Bytes, Bytes>, z: Scores, reversed: bool)
    requires Represents(store, z)
    ensures forall k :: k in ScanScores(store, EVERYTHING, reversed) ==> Hit(EVERYTHING, k)
  {
    hide ScoreStart, ScoreEnd, Less, RangeKeys, Represents;
    InRange(store, z, EVERYTHING);
    BoundsOrder(EVERYTHING);
    assert Less(ScoreStart(EVERYTHING.min), ScoreEnd(EVERYTHING.max));
    StrictTotalOrder();
    forall k | k in ScanScores(store, EVERYTHING, reversed)
      ensures Hit(EVERYTHING, k)
    {
      assert k in RangeKeys(store, ScoreStart(EVERYTHING.min), ScoreEnd(EVERYTHING.max));
      StoredScore(store, z, k);
      EveryScore(ScoreOf(k));
    }
  }

  lemma {:induction false} KeepAll(ks: seq<Bytes>, b: Bounds)
    requires forall k :: k in ks ==> Hit(b, k)
    ensures Keep(ks, b) == ks
  {
    hide Hit;
    if ks != [] {
      var init, k := ks[..|ks| - 1], ks[|ks| - 1];
      assert ks == init + [k];
      assert k in ks;
      KeepAll(init, b);
    }
  }

  /** How far the callback of zrank counts: to the scan cap, and one key in any case. */
  function CountedTo(rank: nat, cap: int): nat {
    if rank <= 1 || rank <= cap then rank else if cap < 1 then 1 else cap
  }

  /** zrank: counts the keys the scan lists before the member's, and answers the cap once it is reached. */
  method Zrank(store: map<Bytes, Bytes>, member: Bytes, reversed: bool, cap: int, ghost z: Scores)
    returns (r: Option<nat>, ghost rank: nat)
    requires Represents(store, z)
    ensures r.None? <==> member !in z
    ensures r.Some? ==> RankOf(z, reversed, member, rank) && r.value == CountedTo(rank, cap)
    ensures r.Some? ==> (RankOf(z, reversed, member, r.value) <==> rank <= 1 || rank <= cap)
  {
    hide *;
    rank := 0;
    InMemberIndex(store, z, member);
    if MemberKey(member) !in store {
      return None, 0;
    }
    var ks := ScanScores(store, EVERYTHING, reversed);
    ScannedAll(store, z, reversed);
    rank := MemberListed(z, reversed, member, ks);
    ShownRank(z, reversed, member, rank, cap);
    var count, i := 0, 0;
    while i < |ks|
      invariant 0 <= i == count <= rank && (i > 0 ==> i < cap)
      decreases |ks| - i
    {
      if MemberOf(ks[i]) == member {
        break;
      }
      count := count + 1;
      if count >= cap {
        break;
      }
      i := i + 1;
    }
    Counted(rank, cap, count);
    r := Some(count);
  }

  lemma Counted(rank: nat, cap: int, count: nat)
    requires count <= rank && (count == rank || count >= cap) && (count > 1 ==> count - 1 < cap) && (count == 0 ==> rank == 0)
    ensures count == CountedTo(rank, cap)
  {
  }

  /** A rank is answered as it is exactly when the cap is no smaller, or it is 0 or 1. */
  lemma ShownRank(z: Scores, reversed: bool, m: Bytes, rank: nat, cap: int)
    requires NoNan(z) && RankOf(z, reversed, m, rank)
    ensures RankOf(z, reversed, m, CountedTo(rank, cap)) <==> rank <= 1 || rank <= cap
  {
    hide RankOf;
    if RankOf(z, reversed, m, CountedTo(rank, cap)) {
      OneRank(z, reversed, m, CountedTo(rank, cap), rank);
    }
  }

  /** In a set with two members more than the cap the last two are answered the same. */
  lemma RankPastCap(z: Scores, reversed: bool, cap: nat) returns (m: Bytes, n: Bytes)
    requires NoNan(z) && 0 < cap && cap + 2 <= |z|
    ensures m != n && RankOf(z, reversed, m, |z| - 2) && RankOf(z, reversed, n, |z| - 1)
    ensures CountedTo(|z| - 2, cap) == CountedTo(|z| - 1, cap) == cap < |z| - 1
  {
    hide MemberOf, ScoreKey, IsNan, Ranked;
    RankedHolds(z, reversed);
    m, n := MemberOf(Ranked(z, reversed)[|z| - 2]), MemberOf(Ranked(z, reversed)[|z| - 1]);
  }

  lemma InMemberIndex(store: map<Bytes, Bytes>, z: Scores, m: Bytes)
    requires Represents(store, z)
    ensures MemberKey(m) in store <==> m in z
    ensures m in z ==> HasPayload(store[MemberKey(m)], EncodeFloat(z[m])) && !IsNan(z[m])
  {
    hide MemberKey, HasPayload, ScoreIndex, IsNan, EncodeFloat;
  }

  lemma TurnedHas(s: seq<Bytes>, k: Bytes, reversed: bool)
    requires k in s
    ensures exists i :: 0 <= i < |Turned(s, reversed)| && Turned(s, reversed)[i] == k
  {
    var i :| 0 <= i < |s| && s[i] == k;
    assert Turned(s, reversed)[if reversed then |s| - 1 - i else i] == k;
  }

  lemma MemberListed(z: Scores, reversed: bool, m: Bytes, ks: seq<Bytes>) returns (rank: nat)
    requires NoNan(z) && m in z && ks == Ranked(z, reversed)
    ensures RankOf(z, reversed, m, rank) && rank < |ks|
    ensures forall i :: 0 <= i < |ks| ==> |ks[i]| >= 9 && (MemberOf(ks[i]) == m <==> i == rank)
  {
    hide ScoreKey, IsNan, MemberOf, ScoreOf, Sorted, Turned, Listed;
    EveryScoreListed();
    RankedHolds(z, reversed);
    var k, all := ScoreKey(z[m], m), Index(z, ListedBy(EVERYTHING));
    ScoreParts(z[m], m);
    SortedIsEnumeration(all);
    assert k in all && k in Sorted(all);
    TurnedHas(Sorted(all), k, reversed);
    assert ks == Turned(Sorted(all), reversed);
    rank :| 0 <= rank < |ks| && ks[rank] == k;
  }

  // ---------- zadd ----------

  datatype AddOption = AddOption(nx: bool, xx: bool, gt: bool, lt: bool, ch: bool, incr: bool)

  /** float64 addition is a parameter: it may round, overflow or give a NaN. */
  type Plus = (Bits, Bits) -> Bits

  datatype AddReply = ResultNan | Added(score: Bits, count: nat)

  function NewScore(z: Scores, m: Bytes, score: Bits, o: AddOption, plus: Plus): Bits {
    if m in z && o.incr then plus(score, z[m]) else score
  }

  predicate Fails(z: Scores, m: Bytes, score: Bits, o: AddOption, plus: Plus) {
    IsNan(score) || (m in z && !o.nx && IsNan(NewScore(z, m, score, o, plus)))
  }

  /** When ZADD may write: a member's score changes numerically and in the demanded direction. */
  predicate Allowed(z: Scores, m: Bytes, s: Bits, o: AddOption) {
    if m in z then
      && !o.nx && Float.Compare(s, z[m]) != 0
      && (o.gt ==> Float.Compare(s, z[m]) > 0) && (o.lt ==> Float.Compare(s, z[m]) < 0)
    else !o.xx
  }

  function AfterAdd(z: Scores, m: Bytes, score: Bits, o: AddOption, plus: Plus): Scores {
    var s := NewScore(z, m, score, o, plus);
    if !Fails(z, m, score, o, plus) && Allowed(z, m, s, o) then z[m := s] else z
  }

  /** What the reply calls the score when nothing was written. */
  function UnwrittenScore(z: Scores, m: Bytes, s: Bits, o: AddOption): Bits {
    if m !in z || o.nx then POSITIVE_ZERO
    else if (o.gt && Float.Compare(s, z[m]) <= 0) || (o.lt && Float.Compare(s, z[m]) >= 0) then z[m]
    else s
  }

  ghost predicate AddReplied(r: AddReply, z: Scores, m: Bytes, score: Bits, o: AddOption, plus: Plus) {
    var s := NewScore(z, m, score, o, plus);
    if Fails(z, m, score, o, plus) then r == ResultNan
    else if Allowed(z, m, s, o) then r == Added(s, if m !in z || o.ch then 1 else 0)
    else r == Added(UnwrittenScore(z, m, s, o), 0)
  }

  method Zadd(store: map<Bytes, Bytes>, member: Bytes, score0: Bits, o: AddOption, plus: Plus, timestamp: Bits, ghost z: Scores)
    returns (r: AddReply, after: map<Bytes, Bytes>)
    requires Represents(store, z)
    ensures Represents(after, AfterAdd(z, member, score0, o, plus))
    ensures AddReplied(r, z, member, score0, o, plus)
    ensures r.ResultNan? ==> after == store
  {
    hide Represents, IsNan, Float.Compare, PutResult, MemberKey, ScoreKey, EncodeFloat, DecodeFloat, HasPayload;
    var score := score0;
    after := store;
    if IsNan(score) {
      return ResultNan, store;
    }
    var delta, count, oldScore := 0, 0, POSITIVE_ZERO;
    InMemberIndex(store, z, member);
    if MemberKey(member) !in store {
      if o.xx {
        return Added(oldScore, 0), store;
      }
      count, delta := 1, 1;
      PutNew(store, z, member, score, oldScore, timestamp);
    } else {
      if o.nx {
        return Added(oldScore, 0), store;
      }
      oldScore := StoredScoreOf(store[MemberKey(member)], z[member]);
      if o.incr {
        score := plus(score, oldScore);
      }
      if IsNan(score) {
        return ResultNan, store;
      }
      if o.gt && Float.Compare(score, oldScore) <= 0 {
        return Added(oldScore, 0), store;
      }
      if o.lt && Float.Compare(score, oldScore) >= 0 {
        return Added(oldScore, 0), store;
      }
      if Float.Compare(score, oldScore) == 0 {
        return Added(score, 0), store;
      }
      if o.ch {
        count := count + 1;
      }
      CompareSelf(score);
      PutChange(store, z, member, score, timestamp);
    }
    after := PutResult(store, member, score, oldScore, delta, timestamp);
    r := Added(score, count);
  }

  lemma CompareSelf(s: Bits)
    ensures Float.Compare(s, s) == 0
  {
  }

  /** Decoding the value of a member key. */
  method StoredScoreOf(v: Bytes, ghost s: Bits) returns (r: Bits)
    requires HasPayload(v, EncodeFloat(s))
    ensures r == s
  {
    hide EncodeFloat, DecodeFloat;
    DecodeEncode(s, []);
    var payload := v[8..];
    assert payload == EncodeFloat(s) + [];
    r := DecodeFloat(payload);
  }

  // ---------- removals ----------

  method Zrem(store: map<Bytes, Bytes>, member: Bytes, timestamp: Bits, ghost z: Scores)
    returns (ok: bool, after: map<Bytes, Bytes>)
    requires Represents(store, z)
    ensures ok <==> member in z
    ensures Represents(after, z - {member})
  {
    hide *;
    InMemberIndex(store, z, member);
    if MemberKey(member) !in store {
      assert z - {member} == z;
      return false, store;
    }
    var score := StoredScoreOf(store[MemberKey(member)], z[member]);
    PutGone(store, z, member, POSITIVE_ZERO, timestamp);
    ok, after := true, PutResult(store, member, score, POSITIVE_ZERO, -1, timestamp);
  }

  function MembersOf(ks: seq<Bytes>): set<Bytes>
    requires forall i :: 0 <= i < |ks| ==> |ks[i]| >= 9
  {
    set i | 0 <= i < |ks| :: MemberOf(ks[i])
  }

  /** Keys of distinct entries of the set. */
  ghost predicate Entries(ks: seq<Bytes>, z: Scores) {
    && (forall i :: 0 <= i < |ks| ==> |ks[i]| >= 9 && MemberOf(ks[i]) in z && ScoreOf(ks[i]) == z[MemberOf(ks[i])])
    && (forall i, j :: 0 <= i < j < |ks| ==> MemberOf(ks[i]) != MemberOf(ks[j]))
  }

  /** ZremValues: deletes both keys of every (member, score) pair of a reply. */
  method ZremValues(store: map<Bytes, Bytes>, ret: seq<R.Item>, timestamp: Bits, ghost ks: seq<Bytes>, ghost z: Scores)
    returns (after: map<Bytes, Bytes>)
    requires Represents(store, z) && Entries(ks, z) && ret == Reply(ks, true)
    ensures Represents(after, z - MembersOf(ks))
  {
    hide *;
    after := store;
    EntriesLong(ks, z);
    ReplyPairs(ks);
    NothingRemoved(ks, z);
    var i := 0;
    while i < |ret|
      invariant 0 <= i <= |ret| && i % 2 == 0
      invariant Represents(after, z - MembersOf(ks[..i / 2]))
    {
      ghost var n := i / 2;
      assert ret[i] == Reply(ks, true)[2 * n] && ret[i + 1] == Reply(ks, true)[2 * n + 1];
      var member, score := ret[i].m, DecodeFloat(ret[i + 1].s);
      RemovedOneMore(ks, z, n);
      PutGone(after, z - MembersOf(ks[..n]), member, POSITIVE_ZERO, timestamp);
      after := PutResult(after, member, score, POSITIVE_ZERO, -1, timestamp);
      i := i + 2;
    }
    assert ks[..i / 2] == ks;
  }

  lemma EntriesLong(ks: seq<Bytes>, z: Scores)
    requires Entries(ks, z)
    ensures forall i :: 0 <= i < |ks| ==> |ks[i]| >= 9
  {
  }

  lemma NothingRemoved(ks: seq<Bytes>, z: Scores)
    ensures z - MembersOf(ks[..0]) == z
  {
  }

  lemma ReplyPairs(ks: seq<Bytes>)
    requires forall i :: 0 <= i < |ks| ==> |ks[i]| >= 9
    ensures |Reply(ks, true)| == 2 * |ks|
    ensures forall i :: 0 <= i < |ks| ==>
              var m, s := Reply(ks, true)[2 * i], Reply(ks, true)[2 * i + 1];
              m == R.Member(MemberOf(ks[i])) && s.Score? && |s.s| >= 8 && DecodeFloat(s.s) == ScoreOf(ks[i])
  {
    hide DecodeFloat, R.Flat;
    R.FlatPairs(Elements(ks));
    forall i | 0 <= i < |ks|
      ensures DecodeFloat(ks[i][1..9]) == ScoreOf(ks[i])
    {
      DecodesHead(ks[i]);
    }
  }

  lemma DecodesHead(k: Bytes)
    requires |k| >= 9
    ensures DecodeFloat(k[1..9]) == ScoreOf(k)
  {
    assert k[1..9][..8] == k[1..][..8];
  }

  lemma RemovedOneMore(ks: seq<Bytes>, z: Scores, n: nat)
    requires Entries(ks, z) && n < |ks|
    ensures forall i :: 0 <= i < |ks| ==> |ks[i]| >= 9
    ensures var left := z - MembersOf(ks[..n]);
            && MemberOf(ks[n]) in left && left[MemberOf(ks[n])] == ScoreOf(ks[n])
            && z - MembersOf(ks[..n + 1]) == left - {MemberOf(ks[n])}
  {
    hide MemberOf, ScoreOf;
    assert MembersOf(ks[..n + 1]) == MembersOf(ks[..n]) + {MemberOf(ks[n])} by {
      forall m ensures m in MembersOf(ks[..n + 1]) <==> m in MembersOf(ks[..n]) || m == MemberOf(ks[n]) {
        if m in MembersOf(ks[..n]) {
          var i :| 0 <= i < n && m == MemberOf(ks[..n][i]);
          assert ks[..n + 1][i] == ks[i];
        }
        if m == MemberOf(ks[n]) {
          assert ks[..n + 1][n] == ks[n];
        }
      }
    }
    forall i | 0 <= i < n
      ensures MemberOf(ks[..n][i]) != MemberOf(ks[n])
    {
      assert ks[..n][i] == ks[i];
    }
    assert MemberOf(ks[n]) !in MembersOf(ks[..n]);
  }

  // ---------- commands that read a range and remove it ----------

  lemma FoundAreEntries(z: Scores, b: Bounds, reversed: bool, offset: nat, limit: nat)
    requires NoNan(z)
    ensures Entries(Window(InOrder(z, b, reversed), offset, limit), z)
  {
    hide Sorted, ScoreOf, MemberOf, ScoreKey;
    var all := Index(z, ListedBy(b));
    SortedIsEnumeration(all);
    var s := Sorted(all);
    forall i | 0 <= i < |s|
      ensures |s[i]| >= 9 && MemberOf(s[i]) in z && ScoreOf(s[i]) == z[MemberOf(s[i])]
      ensures s[i] == ScoreKey(ScoreOf(s[i]), MemberOf(s[i]))
    {
      assert s[i] in s;
      var m :| m in z && s[i] == ScoreKey(z[m], m);
      ScoreParts(z[m], m);
    }
    forall i, j | 0 <= i < j < |s|
      ensures MemberOf(s[i]) != MemberOf(s[j])
    {
      AscendingDistinct(s, i, j);
    }
    WindowOfDistinct(s, z, reversed, offset, limit);
  }

  lemma WindowOfDistinct(s: seq<Bytes>, z: Scores, reversed: bool, offset: nat, limit: nat)
    requires Entries(s, z)
    ensures Entries(Window(Turned(s, reversed), offset, limit), z)
  {
    hide MemberOf, ScoreOf;
  }

  /** objectZRangeByScore: the window of the entries in bounds, in score order or against it. */
  method RangeByScore(store: map<Bytes, Bytes>, b: Bounds, reversed: bool, offset: nat, limit: nat, withScores: bool, ghost z: Scores)
    returns (ret: seq<R.Item>)
    requires Represents(store, z) && Numbers(b) && IsInt64(offset)
    ensures Entries(Window(InOrder(z, b, reversed), Skipped(offset), limit), z)
    ensures ret == Reply(Window(InOrder(z, b, reversed), Skipped(offset), limit), withScores)
  {
    hide *;
    ghost var skip := Skipped(offset);
    ScanFinds(store, z, b, reversed);
    RepresentsNumbers(store, z);
    FoundAreEntries(z, b, reversed, skip, limit);
    FoundIsWindow(ScanScores(store, b, reversed), b, InOrder(z, b, reversed), skip, limit);
    ret := WalkScores(ScanScores(store, b, reversed), b, reversed, offset, limit, withScores);
  }

  lemma FoundIsWindow(ks: seq<Bytes>, b: Bounds, s: seq<Bytes>, offset: nat, limit: nat)
    requires Keep(ks, b) == s
    ensures Found(ks, b, offset, limit) == Window(s, offset, limit)
  {
  }

  lemma SkipsNone()
    ensures IsInt64(0) && Skipped(0) == 0
  {
  }

  /** objectZpop and, with other bounds, ZREMRANGEBYSCORE: reads a window and removes it. */
  method PopByScore(store: map<Bytes, Bytes>, b: Bounds, reversed: bool, limit: nat, timestamp: Bits, ghost z: Scores)
    returns (ret: seq<R.Item>, after: map<Bytes, Bytes>)
    requires Represents(store, z) && Numbers(b)
    ensures Entries(Window(InOrder(z, b, reversed), 0, limit), z)
    ensures ret == Reply(Window(InOrder(z, b, reversed), 0, limit), true)
    ensures Represents(after, z - MembersOf(Window(InOrder(z, b, reversed), 0, limit)))
  {
    hide *;
    SkipsNone();
    ret := RangeByScore(store, b, reversed, 0, limit, true, z);
    after := ZremValues(store, ret, timestamp, Window(InOrder(z, b, reversed), 0, limit), z);
  }

  /** What the walks of rangeRank read of a sorted set: every key of the score index. */
  function RankKeys(store: map<Bytes, Bytes>): seq<Bytes> {
    RangeKeys(store, [SCORE_PREFIX], PrefixNextSpec([SCORE_PREFIX]))
  }

  lemma RankKeysAreRanked(store: map<Bytes, Bytes>, z: Scores)
    requires Represents(store, z)
    ensures RankKeys(store) == Ranked(z, false)
  {
    hide Code, ScoreOf, MemberOf, ScoreKey, Less, Sorted, IsNan;
    var p, all := [SCORE_PREFIX], Index(z, ListedBy(EVERYTHING));
    EveryScoreListed();
    assert !AllOnes(p) by { assert p[0] == SCORE_PREFIX; }
    RangeHas(store, p, PrefixNextSpec(p));
    forall k ensures k in RankKeys(store) <==> k in all {
      if k in store {
        PrefixRange(p, k);
        assert IsPrefix(p, k) <==> k[0] == SCORE_PREFIX;
        if k[0] == SCORE_PREFIX {
          StoredScore(store, z, k);
        }
      }
      if k in all {
        var m :| m in z && k == ScoreKey(z[m], m);
        ScoreParts(z[m], m);
      }
    }
    AscendingIsSorted(RankKeys(store), all);
  }

  /** What rangeRank comes up with; nothing, if it panics. */
  ghost function RankedElements(z: Scores, start: int, end: int): seq<R.Element>
    requires NoNan(z)
  {
    RankedEntries(z);
    var o := R.RankOutcome(Elements(Ranked(z, false)), start, end, false);
    if o.Panicked? then [] else o.value
  }

  /** The members of ranks start to end, as rangeRank has them. */
  ghost function RankedSlice(z: Scores, start: int, end: int): (ks: seq<Bytes>)
    requires NoNan(z)
    ensures Entries(ks, z)
  {
    RankedEntries(z);
    SliceOfDistinct(z, start, end);
    KeysOf(RankedElements(z, start, end))
  }

  function KeysOf(es: seq<R.Element>): seq<Bytes> {
    seq(|es|, i requires 0 <= i < |es| => es[i].key)
  }

  lemma RankedEntries(z: Scores)
    requires NoNan(z)
    ensures Entries(Ranked(z, false), z)
  {
    hide MemberOf, ScoreOf, ScoreKey, Ranked;
    RankedHolds(z, false);
    forall i | 0 <= i < |z|
      ensures ScoreOf(Ranked(z, false)[i]) == z[MemberOf(Ranked(z, false)[i])]
    {
      ScoreParts(z[MemberOf(Ranked(z, false)[i])], MemberOf(Ranked(z, false)[i]));
    }
  }

  lemma ResultStretch(es: seq<R.Element>, start: int, end: int) returns (from: nat)
    ensures var r := R.RankResult(es, start, end);
            from + |r| <= |es| && r == es[from..from + |r|]
  {
    var n := |es|;
    if R.Late(n, start, end) {
      from := (n + 1) / 2;
    } else if R.Short(n, start, end) {
      from := n + start;
    } else {
      from := if R.RankSlice(es, start, end) == [] || n + start < 0 then 0 else if start < 0 then n + start else start;
    }
  }

  lemma SliceOfDistinct(z: Scores, start: int, end: int)
    requires NoNan(z) && Entries(Ranked(z, false), z)
    ensures var es := RankedElements(z, start, end);
            Entries(KeysOf(es), z) && es == Elements(KeysOf(es))
  {
    hide MemberOf, ScoreOf, Ranked, R.RankResult;
    var ks := Ranked(z, false);
    var all := Elements(ks);
    var es := RankedElements(z, start, end);
    if es != [] {
      var from := ResultStretch(all, start, end);
      assert KeysOf(es) == ks[from..from + |es|];
    }
    assert es == Elements(KeysOf(es));
  }

  lemma RankedIsOrdered(z: Scores)
    requires NoNan(z) && forall i :: 0 <= i < |Ranked(z, false)| ==> |Ranked(z, false)[i]| >= 9
    ensures R.Ordered(Elements(Ranked(z, false)))
  {
    hide MemberOf, ScoreOf, Index, Sorted;
    SortedIsEnumeration(Index(z, ListedBy(EVERYTHING)));
  }

  /** objectZremRangeByRank; a panic commits nothing. */
  method RemRangeByRank(store: map<Bytes, Bytes>, start: int, end: int, timestamp: Bits, ghost z: Scores)
    returns (count: Called<nat>, after: map<Bytes, Bytes>)
    requires Represents(store, z) && R.Listable(|RankKeys(store)|)
    requires IsInt64(start) && IsInt64(end)
    ensures NoNan(z)
    ensures count == if R.Panics(|z|, start, end, false) then Panicked else Returned(|RankedSlice(z, start, end)|)
    ensures Represents(after, z - MembersOf(RankedSlice(z, start, end)))
  {
    hide *;
    RepresentsNumbers(store, z);
    RankKeysAreRanked(store, z);
    RankedEntries(z);
    EntriesLong(Ranked(z, false), z);
    RankedIsOrdered(z);
    SliceOfDistinct(z, start, end);
    RankedHolds(z, false);
    var es := Elements(RankKeys(store));
    var ret := R.RangeRank(es, start, end, false);
    SliceReply(z, start, end);
    if ret.Panicked? {
      NothingRanked(z, start, end);
      return Panicked, store;
    }
    EntriesLong(RankedSlice(z, start, end), z);
    ReplyPairs(RankedSlice(z, start, end));
    after := ZremValues(store, ret.value, timestamp, RankedSlice(z, start, end), z);
    count := Returned(|ret.value| / 2);
  }

  lemma SliceReply(z: Scores, start: int, end: int)
    requires NoNan(z) && forall i :: 0 <= i < |Ranked(z, false)| ==> |Ranked(z, false)[i]| >= 9
    ensures R.Rendered(R.RankOutcome(Elements(Ranked(z, false)), start, end, false), false) ==
              if R.Panics(|z|, start, end, false) then Panicked else Returned(Reply(RankedSlice(z, start, end), true))
  {
    hide R.RankResult, Ranked, R.Flat;
    RankedEntries(z);
    RankedHolds(z, false);
    SliceOfDistinct(z, start, end);
  }

  lemma NothingRanked(z: Scores, start: int, end: int)
    requires NoNan(z) && R.Panics(|Ranked(z, false)|, start, end, false)
    ensures RankedSlice(z, start, end) == [] && z - MembersOf(RankedSlice(z, start, end)) == z
  {
    hide R.RankResult, Ranked;
  }

  // ---------- runs ----------

  datatype Op =
    | Add(member: Bytes, score: Bits, option: AddOption)
    | Remove(member: Bytes)
    | Pop(limit: nat, reversed: bool)
    | RemoveByScore(bounds: Bounds, limit: nat)
    | RemoveByRank(start: int, end: int)

  predicate Callable(op: Op) {
    && (op.RemoveByScore? ==> Numbers(op.bounds))
    && (op.RemoveByRank? ==> IsInt64(op.start) && IsInt64(op.end))
  }

  /** What a command does to the map from members to scores. */
  ghost function Step(z: Scores, op: Op, plus: Plus): Scores
    requires NoNan(z)
  {
    match op
    case Add(m, s, o) => AfterAdd(z, m, s, o, plus)
    case Remove(m) => z - {m}
    case Pop(limit, reversed) =>
      FoundAreEntries(z, EVERYTHING, reversed, 0, limit);
      if limit == 0 then z else z - MembersOf(Window(InOrder(z, EVERYTHING, reversed), 0, limit))
    case RemoveByScore(b, limit) =>
      FoundAreEntries(z, b, false, 0, limit);
      z - MembersOf(Window(InOrder(z, b, false), 0, limit))
    case RemoveByRank(start, end) => z - MembersOf(RankedSlice(z, start, end))
  }

  lemma StepKeeps(z: Scores, op: Op, plus: Plus)
    requires NoNan(z)
    ensures NoNan(Step(z, op, plus)) && |Step(z, op, plus)| <= |z| + 1
  {
    hide IsNan, Window, InOrder, MembersOf, Float.Compare, RankedSlice;
    var z' := Step(z, op, plus);
    if op.Add? {
      SizeAfterPut(z, op.member, NewScore(z, op.member, op.score, op.option, plus));
    } else {
      SizeAfterLoss(z, z');
    }
  }

  lemma SizeAfterPut(z: Scores, m: Bytes, s: Bits)
    ensures |z[m := s]| <= |z| + 1
  {
    assert z[m := s].Keys == z.Keys + {m};
    assert |z[m := s].Keys| <= |z.Keys| + 1;
  }

  lemma SizeAfterLoss(z: Scores, z': Scores)
    requires z'.Keys <= z.Keys
    ensures |z'| <= |z|
  {
    SubsetIsSmaller(z'.Keys, z.Keys);
    assert |z'.Keys| == |z'| && |z.Keys| == |z|;
  }

  ghost function Steps(z: Scores, ops: seq<Op>, plus: Plus): Scores
    requires NoNan(z)
    ensures NoNan(Steps(z, ops, plus))
    decreases |ops|
  {
    if ops == [] then z
    else
      StepKeeps(z, ops[0], plus);
      Steps(Step(z, ops[0], plus), ops[1..], plus)
  }

  class SortedSet {
    var store: map<Bytes, Bytes>
    ghost var scores: Scores

    ghost predicate Valid()
      reads this
    {
      Represents(store, scores)
    }

    constructor ()
      ensures Valid() && scores == map[]
    {
      store, scores := map[], map[];
    }

    method Do(op: Op, plus: Plus, now: Bits)
      requires Valid() && Callable(op) && R.Listable(|scores|)
      modifies this
      ensures Valid() && NoNan(old(scores)) && scores == Step(old(scores), op, plus)
    {
      hide Represents, Step, Callable, NoNan;
      ghost var z := scores;
      RepresentsNumbers(store, z);
      store := After(store, op, plus, now, z);
      scores := Step(z, op, plus);
    }

    /** Any run of commands keeps the two indexes in agreement and acts as the map operations do. */
    method Run(ops: seq<Op>, plus: Plus, now: seq<Bits>)
      requires Valid() && |now| == |ops| && R.Listable(|scores| + |ops|)
      requires forall i :: 0 <= i < |ops| ==> Callable(ops[i])
      modifies this
      ensures Valid() && NoNan(old(scores)) && scores == Steps(old(scores), ops, plus)
      decreases |ops|
    {
      hide Step, IsNan, Represents, Callable;
      RepresentsNumbers(store, scores);
      if ops != [] {
        StepKeeps(scores, ops[0], plus);
        Do(ops[0], plus, now[0]);
        Run(ops[1..], plus, now[1..]);
      }
    }
  }

  method After(store: map<Bytes, Bytes>, op: Op, plus: Plus, now: Bits, ghost z: Scores) returns (after: map<Bytes, Bytes>)
    requires Represents(store, z) && Callable(op) && R.Listable(|z|)
    ensures NoNan(z) && Represents(after, Step(z, op, plus))
  {
    hide Represents, Numbers, NoNan, AfterAdd, MembersOf, Window, InOrder, RankedSlice, RankKeys, Entries, Reply;
    RepresentsNumbers(store, z);
    match op
    case Add(m, s, o) =>
      var r;
      r, after := Zadd(store, m, s, o, plus, now, z);
    case Remove(m) =>
      var ok;
      ok, after := Zrem(store, m, now, z);
    case Pop(limit, reversed) =>
      if limit == 0 {
        after := store;
      } else {
        var ret;
        ret, after := PopByScore(store, EVERYTHING, reversed, limit, now, z);
      }
    case RemoveByScore(b, limit) =>
      var ret;
      ret, after := PopByScore(store, b, false, limit, now, z);
    case RemoveByRank(start, end) =>
      RankKeysAreRanked(store, z);
      RankedHolds(z, false);
      var count;
      count, after := RemRangeByRank(store, start, end, now, z);
  }
}
