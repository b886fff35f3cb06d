/** command/zset.go: what the commands of a sorted set promise, by option flags, scores and ranks. */
module ZsetLaws {
  import opened Basics
  import opened ByteOrder
  import opened Store
  import opened Float
  import opened Zset
  import opened ZsetCommands
  import R = Rank

  // ---------- ZADD and ZINCRBY ----------

  /** Only the member's own score can move, and no member is lost. */
  lemma OthersStay(z: Scores, m: Bytes, score: Bits, o: AddOption, plus: Plus, k: Bytes)
    ensures var after := AfterAdd(z, m, score, o, plus);
            && (k in z ==> k in after)
            && (k != m ==> (k in after <==> k in z) && (k in z ==> after[k] == z[k]))
  {
    hide IsNan, Float.Compare;
  }

  /** INCR without conditions adds to the score of a member, and answers the sum. */
  lemma IncrAdds(z: Scores, m: Bytes, delta: Bits, o: AddOption, plus: Plus, r: AddReply)
    requires o.incr && !o.nx && !o.xx && !o.gt && !o.lt && !IsNan(delta) && AddReplied(r, z, m, delta, o, plus)
    ensures var after := AfterAdd(z, m, delta, o, plus);
            if m !in z then after == z[m := delta] && r == Added(delta, 1)
            else
              var sum := plus(delta, z[m]);
              if IsNan(sum) then after == z && r == ResultNan
              else
                && r.Added? && r.score == sum
                && after == if Float.Compare(sum, z[m]) == 0 then z else z[m := sum]
  {
    hide IsNan, Float.Compare;
  }

  /** Without INCR and conditions the score offered becomes the member's, if it is another number. */
  lemma AddSets(z: Scores, m: Bytes, score: Bits, o: AddOption, plus: Plus, r: AddReply)
    requires !o.incr && !o.nx && !o.xx && !o.gt && !o.lt && !IsNan(score) && AddReplied(r, z, m, score, o, plus)
    ensures r.Added? && r.score == score
    ensures AfterAdd(z, m, score, o, plus) == if m in z && Float.Compare(score, z[m]) == 0 then z else z[m := score]
  {
    hide IsNan, Float.Compare;
  }

  /** Under GT a score never falls, and one that is greater is taken. */
  lemma GreaterOnly(z: Scores, m: Bytes, score: Bits, o: AddOption, plus: Plus)
    requires o.gt && m in z && !IsNan(z[m])
    ensures var after := AfterAdd(z, m, score, o, plus);
            && m in after && Number(after[m]) >= Number(z[m])
            && var offered := if o.incr then plus(score, z[m]) else score;
               (!o.nx && !o.lt && !IsNan(score) && !IsNan(offered) ==>
                  after[m] == if Number(offered) > Number(z[m]) then offered else z[m])
  {
    hide IsNan, Float.Compare, Number;
    var offered := if o.incr then plus(score, z[m]) else score;
    if !IsNan(offered) {
      ComparesNumbers(offered, z[m]);
    }
  }

  /** Under LT a score never rises, and one that is smaller is taken. */
  lemma LesserOnly(z: Scores, m: Bytes, score: Bits, o: AddOption, plus: Plus)
    requires o.lt && m in z && !IsNan(z[m])
    ensures var after := AfterAdd(z, m, score, o, plus);
            && m in after && Number(after[m]) <= Number(z[m])
            && var offered := if o.incr then plus(score, z[m]) else score;
               (!o.nx && !o.gt && !IsNan(score) && !IsNan(offered) ==>
                  after[m] == if Number(offered) < Number(z[m]) then offered else z[m])
  {
    hide IsNan, Float.Compare, Number;
    var offered := if o.incr then plus(score, z[m]) else score;
    if !IsNan(offered) {
      ComparesNumbers(offered, z[m]);
    }
  }

  /** NX changes no member, XX adds none; GT and LT keep nobody out. */
  lemma NewOrThere(z: Scores, m: Bytes, score: Bits, o: AddOption, plus: Plus, r: AddReply)
    requires AddReplied(r, z, m, score, o, plus) && !IsNan(score)
    ensures var after := AfterAdd(z, m, score, o, plus);
            && (o.nx && m in z ==> after == z && r == Added(0, 0))
            && (o.xx && m !in z ==> after == z && r == Added(0, 0))
            && (!o.xx && m !in z ==> after == z[m := score] && r == Added(score, 1))
  {
    hide IsNan, Float.Compare;
  }

  /** The reply counts new members, with CH changed ones too; it is NaN exactly when no number comes out. */
  lemma AddCounts(z: Scores, m: Bytes, score: Bits, o: AddOption, plus: Plus, r: AddReply)
    requires AddReplied(r, z, m, score, o, plus) && NoNan(z)
    ensures var after := AfterAdd(z, m, score, o, plus);
            && (r.ResultNan? <==> IsNan(score) || (m in z && !o.nx && o.incr && IsNan(plus(score, z[m]))))
            && (r.ResultNan? ==> after == z)
            && (r.Added? ==> r.count == if o.ch then (if after == z then 0 else 1) else |after| - |z|)
  {
    hide IsNan, Float.Compare;
    var s := NewScore(z, m, score, o, plus);
    assert z[m := s].Keys == z.Keys + {m} && |z[m := s].Keys| == |z[m := s]| && |z.Keys| == |z|;
    if m in z {
      assert z.Keys + {m} == z.Keys;
      CompareSelf(z[m]);
    }
  }

  /** Unless NX or XX refuse it, the score answered is as a number the one the member is left with. */
  lemma AnswersScore(z: Scores, m: Bytes, score: Bits, o: AddOption, plus: Plus, r: AddReply)
    requires AddReplied(r, z, m, score, o, plus) && r.Added? && NoNan(z)
    requires if m in z then !o.nx else !o.xx
    ensures var after := AfterAdd(z, m, score, o, plus);
            m in after && !IsNan(r.score) && Number(r.score) == Number(after[m])
  {
    hide IsNan, Float.Compare, Number;
    var s := NewScore(z, m, score, o, plus);
    if m in z {
      ComparesNumbers(s, z[m]);
    }
  }

  // ---------- ranges ----------

  /** A member's score lies between the bounds, which are exclusive or not; a zero at the other zero is not reached. */
  predicate Within(b: Bounds, s: Bits) {
    && (Number(b.min) < Number(s) || (b.includeMin && Number(b.min) == Number(s)))
    && (Number(s) < Number(b.max) || (b.includeMax && Number(s) == Number(b.max)))
    && !(s == NEGATIVE_ZERO && b.min == POSITIVE_ZERO) && !(s == POSITIVE_ZERO && b.max == NEGATIVE_ZERO)
  }

  lemma ListedIsWithin(b: Bounds, s: Bits)
    requires Numbers(b) && !IsNan(s)
    ensures Listed(b, s) <==> Within(b, s)
  {
    ListedExceptOtherZero(b, s);
    hide Number, Float.Compare, IsNan;
    ComparesNumbers(s, b.min);
    ComparesNumbers(s, b.max);
  }

  /** The entries a score range asks for are those whose scores lie within its bounds. */
  lemma RangeHolds(z: Scores, b: Bounds, reversed: bool, k: Bytes)
    requires NoNan(z) && Numbers(b)
    ensures k in InOrder(z, b, reversed) <==> exists m :: m in z && Within(b, z[m]) && k == ScoreKey(z[m], m)
  {
    hide Sorted, ScoreKey, Within, Listed, IsNan, Turned;
    SortedIsEnumeration(Index(z, ListedBy(b)));
    TurnedSame(Sorted(Index(z, ListedBy(b))), reversed, k);
    forall m | m in z ensures ListedBy(b)(z[m]) <==> Within(b, z[m]) {
      ListedIsWithin(b, z[m]);
    }
  }

  lemma TurnedSame(s: seq<Bytes>, reversed: bool, k: Bytes)
    ensures k in Turned(s, reversed) <==> k in s
  {
    if k in s {
      TurnedHas(s, k, reversed);
    }
    if k in Turned(s, reversed) {
      var i :| 0 <= i < |Turned(s, reversed)| && Turned(s, reversed)[i] == k;
      assert s[if reversed then |s| - 1 - i else i] == k;
    }
  }

  /** Entry k comes before entry l in score order, and by member among equal scores. */
  ghost predicate Ahead(z: Scores, k: Bytes, l: Bytes) {
    exists m, n :: EntryOf(z, k, m) && EntryOf(z, l, n) && Precedes(z, m, n)
  }

  ghost predicate EntryOf(z: Scores, k: Bytes, m: Bytes) {
    m in z && k == ScoreKey(z[m], m)
  }

  ghost predicate Precedes(z: Scores, m: Bytes, n: Bytes)
    requires m in z && n in z
  {
    Number(z[m]) <= Number(z[n]) && (z[m] == z[n] ==> Less(m, n))
  }

  /** They come in score order, or against it. */
  lemma RangeOrdered(z: Scores, b: Bounds, reversed: bool, i: nat, j: nat)
    requires NoNan(z) && i < j < |InOrder(z, b, reversed)|
    ensures var ks := InOrder(z, b, reversed);
            if reversed then Ahead(z, ks[j], ks[i]) else Ahead(z, ks[i], ks[j])
  {
    hide Sorted, ScoreKey, Listed, IsNan, Precedes, Less;
    var s := Sorted(Index(z, ListedBy(b)));
    SortedIsEnumeration(Index(z, ListedBy(b)));
    var x, y := if reversed then |s| - 1 - j else i, if reversed then |s| - 1 - i else j;
    assert s[x] in s && s[y] in s && Less(s[x], s[y]);
    var m :| m in z && s[x] == ScoreKey(z[m], m);
    var n :| n in z && s[y] == ScoreKey(z[n], n);
    LesserPrecedes(z, m, n);
    assert EntryOf(z, s[x], m) && EntryOf(z, s[y], n);
  }

  lemma LesserPrecedes(z: Scores, m: Bytes, n: Bytes)
    requires NoNan(z) && m in z && n in z && Less(ScoreKey(z[m], m), ScoreKey(z[n], n))
    ensures Precedes(z, m, n)
  {
    ScoreKeyOrder(z[m], m, z[n], n);
    CodeAndRank(z[m], z[n]);
    ComparesNumbers(z[m], z[n]);
    hide Number, ScoreKey, Less;
  }

  /** A window is the stretch from the offset on, at most limit elements and at least one. */
  lemma WindowSelects<T>(s: seq<T>, offset: nat, limit: nat)
    ensures var w, left := Window(s, offset, limit), if offset < |s| then |s| - offset else 0;
            && |w| == (if limit <= 1 then (if left == 0 then 0 else 1) else if left < limit then left else limit)
            && forall i :: 0 <= i < |w| ==> w[i] == s[offset + i]
  {
  }

  lemma MembersOnly(ks: seq<Bytes>)
    requires forall i :: 0 <= i < |ks| ==> |ks[i]| >= 9
    ensures |Reply(ks, false)| == |ks| && forall i :: 0 <= i < |ks| ==> Reply(ks, false)[i] == R.Member(MemberOf(ks[i]))
  {
    hide R.Flat;
    R.FlatKeys(Elements(ks));
  }

  // ---------- commands that remove ----------

  lemma HasRank(z: Scores, reversed: bool, m: Bytes) returns (r: nat)
    requires NoNan(z) && m in z
    ensures RankOf(z, reversed, m, r) && r < |z|
  {
    hide IsNan, Ranked;
    RankedHolds(z, reversed);
    r := MemberListed(z, reversed, m, Ranked(z, reversed));
  }

  lemma RankedOrder(z: Scores, reversed: bool, m: Bytes, n: Bytes, i: nat, j: nat)
    requires NoNan(z) && RankOf(z, reversed, m, i) && RankOf(z, reversed, n, j) && i < j
    ensures if reversed then Precedes(z, n, m) else Precedes(z, m, n)
  {
    hide Precedes, IsNan, InOrder, ScoreKey;
    RangeOrdered(z, EVERYTHING, reversed, i, j);
    var k, l := Ranked(z, reversed)[i], Ranked(z, reversed)[j];
    OneEntry(z, k);
    OneEntry(z, l);
    var x, y :| if reversed then EntryOf(z, l, x) && EntryOf(z, k, y) && Precedes(z, x, y)
                else EntryOf(z, k, x) && EntryOf(z, l, y) && Precedes(z, x, y);
    assert EntryOf(z, k, m) && EntryOf(z, l, n);
  }

  lemma OneEntry(z: Scores, k: Bytes)
    ensures forall m, n :: EntryOf(z, k, m) && EntryOf(z, k, n) ==> m == n
  {
    hide ScoreKey;
    KeysApart();
  }

  lemma {:induction false} LeftOver(z: Scores, ks: seq<Bytes>, n: nat)
    requires Entries(ks, z) && n <= |ks|
    ensures forall i :: 0 <= i < |ks| ==> |ks[i]| >= 9
    ensures |z - MembersOf(ks[..n])| == |z| - n
  {
    hide MembersOf, MemberOf, ScoreOf;
    EntriesLong(ks, z);
    if n == 0 {
      NothingRemoved(ks, z);
    } else {
      LeftOver(z, ks, n - 1);
      RemovedOneMore(ks, z, n - 1);
      OneLess(z - MembersOf(ks[..n - 1]), MemberOf(ks[n - 1]));
    }
  }

  lemma OneLess(z: Scores, m: Bytes)
    requires m in z
    ensures |z - {m}| == |z| - 1
  {
    assert z.Keys == (z - {m}).Keys + {m};
    assert |(z - {m}).Keys| == |z - {m}| && |z.Keys| == |z|;
  }

  lemma PoppedByRank(z: Scores, limit: nat, reversed: bool, plus: Plus, m: Bytes, r: nat)
    requires NoNan(z) && limit > 0 && RankOf(z, reversed, m, r)
    ensures m in Step(z, Pop(limit, reversed), plus) <==> r >= limit
  {
    hide IsNan, MemberOf, ScoreKey, Window, InOrder;
    FoundAreEntries(z, EVERYTHING, reversed, 0, limit);
    var ks := Ranked(z, reversed);
    var w := Window(ks, 0, limit);
    EntriesLong(w, z);
    RankedHolds(z, reversed);
    WindowSelects(ks, 0, limit);
    ScoreParts(z[m], m);
    assert m in MembersOf(w) <==> exists i :: 0 <= i < |w| && MemberOf(w[i]) == m;
    if r < limit {
      assert MemberOf(w[r]) == m;
    }
  }

  /**
   * ZPOPMIN and ZPOPMAX take as many members as asked for and there are, and none that stays comes
   * before one of them.
   */
  lemma PopTakesEnd(z: Scores, limit: nat, reversed: bool, plus: Plus)
    requires NoNan(z)
    ensures var after := Step(z, Pop(limit, reversed), plus);
            && after.Keys <= z.Keys && (forall m :: m in after ==> after[m] == z[m])
            && |after| == (if limit < |z| then |z| - limit else 0)
            && forall m, n :: m in z && m !in after && n in after ==> if reversed then Precedes(z, n, m) else Precedes(z, m, n)
  {
    hide Precedes, IsNan, Window, MembersOf, InOrder, Entries;
    var after := Step(z, Pop(limit, reversed), plus);
    if limit > 0 {
      var w := Window(InOrder(z, EVERYTHING, reversed), 0, limit);
      FoundAreEntries(z, EVERYTHING, reversed, 0, limit);
      LeftOver(z, w, |w|);
      assert w[..|w|] == w;
      RankedHolds(z, reversed);
      WindowSelects(InOrder(z, EVERYTHING, reversed), 0, limit);
      forall m, n | m in z && m !in after && n in after ensures if reversed then Precedes(z, n, m) else Precedes(z, m, n) {
        var i := HasRank(z, reversed, m);
        var j := HasRank(z, reversed, n);
        PoppedByRank(z, limit, reversed, plus, m, i);
        PoppedByRank(z, limit, reversed, plus, n, j);
        RankedOrder(z, reversed, m, n, i, j);
      }
    }
  }

  /** ZREMRANGEBYSCORE with room for all removes exactly the members within the bounds. */
  lemma RemovesWithin(z: Scores, b: Bounds, limit: nat, plus: Plus, m: Bytes)
    requires NoNan(z) && Numbers(b) && limit >= |InOrder(z, b, false)| && m in z
    ensures m in Step(z, RemoveByScore(b, limit), plus) <==> !Within(b, z[m])
  {
    hide IsNan, MemberOf, ScoreKey, InOrder, Within;
    FoundAreEntries(z, b, false, 0, limit);
    var ks := InOrder(z, b, false);
    var w := Window(ks, 0, limit);
    assert w == ks;
    EntriesLong(ks, z);
    ScoreParts(z[m], m);
    RangeHolds(z, b, false, ScoreKey(z[m], m));
    KeyTells(z);
    if Within(b, z[m]) {
      var i :| 0 <= i < |ks| && ks[i] == ScoreKey(z[m], m);
      assert MemberOf(ks[i]) == m;
    }
    if m in MembersOf(ks) {
      var i :| 0 <= i < |ks| && MemberOf(ks[i]) == m;
      RangeHolds(z, b, false, ks[i]);
      assert ks[i] in ks;
    }
  }

  lemma KeyTells(z: Scores)
    ensures forall m :: m in z ==> |ScoreKey(z[m], m)| >= 9 && MemberOf(ScoreKey(z[m], m)) == m
  {
    hide ScoreKey, MemberOf;
    forall m | m in z ensures |ScoreKey(z[m], m)| >= 9 && MemberOf(ScoreKey(z[m], m)) == m {
      ScoreParts(z[m], m);
    }
  }

  /** ZREMRANGEBYRANK removes exactly the members of the ranks asked for, where rangeRank gives the slice. */
  lemma RemovesRanks(z: Scores, start: int, end: int, plus: Plus, m: Bytes, r: nat)
    requires NoNan(z) && RankOf(z, false, m, r)
    requires !R.Panics(|z|, start, end, false) && !R.Loses(|z|, start, end, false)
    requires !R.Late(|z|, start, end) && !R.Short(|z|, start, end)
    ensures m in Step(z, RemoveByRank(start, end), plus) <==> !R.InSlice(|z|, start, end, r)
  {
    hide IsNan, MemberOf, ScoreKey, Ranked, R.RankSlice, R.RankResult, R.RankOutcome, R.Panics, R.Loses, R.Late, R.Short;
    RankedHolds(z, false);
    RankedEntries(z);
    var ks := Ranked(z, false);
    EntriesLong(ks, z);
    var es := Elements(ks);
    R.OutcomeIsResult(es, start, end, false);
    RankedIsOrdered(z);
    R.RankResultIsSlice(es, start, end);
    var from := R.SliceHolds(es, start, end);
    var slice := RankedSlice(z, start, end);
    EntriesLong(slice, z);
    ScoreParts(z[m], m);
    assert RankedElements(z, start, end) == R.RankSlice(es, start, end);
    assert slice == ks[from..from + |slice|];
    assert m in MembersOf(slice) <==> exists i :: 0 <= i < |slice| && MemberOf(slice[i]) == m;
    if R.InSlice(|z|, start, end, r) {
      assert MemberOf(slice[r - from]) == m;
    }
  }
}
