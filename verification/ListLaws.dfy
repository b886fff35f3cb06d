/** command/listb.go: what the list commands promise, by places in the list. */
module ListLaws {
  import opened Basics
  import opened ByteOrder
  import opened Store
  import opened BList

  // ---------- LREM ----------

  /** Some places of s, in order, and what stands there. */
  ghost predicate Picks<T>(s: seq<T>, at: seq<nat>, r: seq<T>) {
    && |at| == |r| && (forall i, j :: 0 <= i < j < |at| ==> at[i] < at[j])
    && forall j :: 0 <= j < |at| ==> at[j] < |s| && r[j] == s[at[j]]
  }

  function Shifted(at: seq<nat>): seq<nat> {
    seq(|at|, j requires 0 <= j < |at| => at[j] + 1)
  }

  lemma ShiftedHas(at: seq<nat>, i: nat)
    ensures i in Shifted(at) <==> i > 0 && i - 1 in at
  {
    if i > 0 && i - 1 in at {
      var j :| 0 <= j < |at| && at[j] == i - 1;
      assert Shifted(at)[j] == i;
    }
  }

  lemma PicksShifted<T>(s: seq<T>, at: seq<nat>, r: seq<T>)
    requires s != [] && Picks(s[1..], at, r)
    ensures Picks(s, Shifted(at), r) && Picks(s, [0] + Shifted(at), [s[0]] + r)
  {
  }

  lemma CountsOn<T>(s: seq<T>, v: T, i: nat)
    requires 0 < i < |s|
    ensures multiset(s[..i])[v] == multiset(s[1..][..i - 1])[v] + if s[0] == v then 1 else 0
  {
    assert s[..i] == [s[0]] + s[1..][..i - 1];
  }

  /** Place i stays unless the value stands there with fewer than n occurrences before it. */
  lemma {:induction false} FirstGo(s: seq<Bytes>, v: Bytes, n: nat) returns (at: seq<nat>)
    ensures Picks(s, at, RemoveFirst(s, v, n))
    ensures forall i: nat :: i < |s| ==> (i in at <==> !(s[i] == v && multiset(s[..i])[v] < n))
  {
    hide Shifted, Picks;
    if s == [] || n == 0 {
      at := AllPicked(s);
    } else {
      var m := if s[0] == v then n - 1 else n;
      var rest := FirstGo(s[1..], v, m);
      PicksShifted(s, rest, RemoveFirst(s[1..], v, m));
      at := if s[0] == v then Shifted(rest) else [0] + Shifted(rest);
      forall i: nat | i < |s| ensures i in at <==> !(s[i] == v && multiset(s[..i])[v] < n) {
        ShiftedHas(rest, i);
        if i > 0 {
          CountsOn(s, v, i);
          assert s[1..][i - 1] == s[i];
        }
      }
    }
  }

  lemma AllPicked<T>(s: seq<T>) returns (at: seq<nat>)
    ensures Picks(s, at, s) && forall i: nat :: i < |s| ==> i in at
  {
    at := seq(|s|, i => i);
    forall i: nat | i < |s| ensures i in at {
      assert at[i] == i;
    }
  }

  lemma MirroredCount(s: seq<Bytes>, v: Bytes, i: nat)
    requires i < |s|
    ensures multiset(Reversed(s)[..|s| - 1 - i])[v] == multiset(s[i + 1..])[v]
  {
    assert Reversed(s)[..|s| - 1 - i] == Reversed(s[i + 1..]);
    SameElements(s[i + 1..]);
  }

  lemma {:induction false} SameElements(s: seq<Bytes>)
    ensures multiset(Reversed(s)) == multiset(s)
  {
    if s == [] {
      assert Reversed(s) == s;
    } else {
      var n := |s| - 1;
      SameElements(s[..n]);
      ReversedPush(s[..n], s[n]);
      assert s == s[..n] + [s[n]];
    }
  }

  function Mirrored(at: seq<nat>, n: nat): seq<nat>
    requires forall j :: 0 <= j < |at| ==> at[j] < n
  {
    seq(|at|, j requires 0 <= j < |at| => n - 1 - at[|at| - 1 - j])
  }

  lemma PicksMirrored(s: seq<Bytes>, at: seq<nat>, r: seq<Bytes>)
    requires Picks(Reversed(s), at, r)
    ensures (forall j :: 0 <= j < |at| ==> at[j] < |s|) && Picks(s, Mirrored(at, |s|), Reversed(r))
  {
    ReversedLength(s);
  }

  lemma MirroredHas(at: seq<nat>, n: nat, i: nat)
    requires (forall j :: 0 <= j < |at| ==> at[j] < n) && i < n
    ensures i in Mirrored(at, n) <==> n - 1 - i in at
  {
    if n - 1 - i in at {
      var j :| 0 <= j < |at| && at[j] == n - 1 - i;
      assert Mirrored(at, n)[|at| - 1 - j] == i;
    }
    if i in Mirrored(at, n) {
      var j :| 0 <= j < |at| && Mirrored(at, n)[j] == i;
      assert at[|at| - 1 - j] == n - 1 - i;
    }
  }

  /** LREM lets a place go when the value stands there: among the first n, the last -n, or all. */
  predicate Goes(s: seq<Bytes>, v: Bytes, n: int, i: nat)
    requires i < |s|
  {
    s[i] == v && (n == 0 || (n > 0 && multiset(s[..i])[v] < n) || (n < 0 && multiset(s[i + 1..])[v] < -n))
  }

  /** What stays is in its order, at the places that do not go. */
  lemma RemovePlaces(s: seq<Bytes>, v: Bytes, n: int) returns (at: seq<nat>)
    ensures Picks(s, at, Remove(s, v, n)) && forall i: nat :: i < |s| ==> (i in at <==> !Goes(s, v, n, i))
  {
    hide Picks, RemoveFirst, Mirrored, Reversed;
    if n < 0 {
      var back := FirstGo(Reversed(s), v, -n);
      PicksMirrored(s, back, RemoveFirst(Reversed(s), v, -n));
      at := Mirrored(back, |s|);
      ReversedLength(s);
      forall i: nat | i < |s| ensures i in at <==> !Goes(s, v, n, i) {
        MirroredHas(back, |s|, i);
        MirroredCount(s, v, i);
        ReversedAt(s, i);
      }
    } else {
      at := FirstGo(s, v, if n == 0 then |s| else n);
      forall i: nat | i < |s| ensures i in at <==> !Goes(s, v, n, i) {
        AtMostAll(s[..i], v);
      }
    }
  }

  lemma ReversedAt(s: seq<Bytes>, i: nat)
    requires i < |s|
    ensures |Reversed(s)| == |s| && Reversed(s)[|s| - 1 - i] == s[i]
  {
  }

  lemma AtMostAll(s: seq<Bytes>, v: Bytes)
    ensures multiset(s)[v] <= |s|
  {
    assert |multiset(s)| == |s|;
    assert multiset(s)[v := 0] <= multiset(s);
  }

  // ---------- LINSERT, LPOP and RPOP, LINDEX ----------

  /** The new element stands right before or after the first pivot, and nothing else moves. */
  lemma InsertPlaces(s: seq<Bytes>, before: bool, pivot: Bytes, x: Bytes) returns (i: nat)
    ensures pivot !in s ==> Insert(s, before, pivot, x) == s
    ensures pivot in s ==>
              && i < |s| && s[i] == pivot && pivot !in s[..i]
              && Insert(s, before, pivot, x) == if before then s[..i] + [x] + s[i..] else s[..i + 1] + [x] + s[i + 1..]
  {
    hide FirstIndex;
    i := FirstIndex(s, pivot);
    FirstIndexIs(s, pivot);
    if pivot in s {
      var j :| 0 <= j < |s| && s[j] == pivot;
    }
  }

  /** A pop takes the front, as many elements as asked for, one for a count of 0, and all if there are fewer. */
  lemma PopTakes(count: nat, s: seq<Bytes>)
    ensures var r := PopSpec(count, s);
            if s == [] then r == Nil
            else
              && r.Popped? && r.popped <= s
              && |r.popped| == (if count <= 1 then 1 else if count < |s| then count else |s|)
  {
  }

  /** A place is found from either end if there is one; of a complex list's interior only those below the cap. */
  lemma Reaches(i: int, length: nat, complex: bool, max: nat)
    ensures Reachable(i, length, complex, max) <==>
              && 0 <= i + length && i < length
              && (i == 0 || i == length - 1 || i == -1 || i + length == 0 || !complex || (if i < 0 then i + length else i) < max)
    ensures Offset(i, length) == if i < 0 then i + length else i
  {
  }
}
