/** command/generic.go: KEYS, and SCAN with cursors that any server can resume from. */
module Keyspace {
  import opened Basics
  import opened ByteOrder
  import opened Store
  import Glob

  // ---------- which keys a scan is after ----------

  /** A stored object, or a value that does not decode. */
  datatype Entry = Broken | Object(typo: int, expired: bool)

  type Database = map<Bytes, Entry>

  /** Pattern, and the type asked for if any. */
  datatype Query = Query(pattern: Bytes, typo: Option<int>)

  function Text(b: Bytes): string {
    seq(|b|, i requires 0 <= i < |b| => b[i] as char)
  }

  /** The part of a stored key behind user, database and key prefix. */
  function Name(base: Bytes, k: Bytes): Bytes
    requires |k| >= |base|
  {
    k[|base|..]
  }

  ghost predicate Wanted(db: Database, base: Bytes, q: Query, k: Bytes) {
    && k in db && |k| >= |base| && db[k].Object?
    && Glob.Matches(Text(q.pattern), Text(Name(base, k)))
    && (q.typo.Some? ==> db[k].typo == q.typo.value)
    && !db[k].expired
  }

  ghost function WantedIn(db: Database, base: Bytes, q: Query, ks: seq<Bytes>): (r: seq<Bytes>)
    ensures forall i :: 0 <= i < |r| ==> |r[i]| >= |base|
  {
    if ks == [] then []
    else
      var k := ks[|ks| - 1];
      WantedIn(db, base, q, ks[..|ks| - 1]) + if Wanted(db, base, q, k) then [k] else []
  }

  function Names(base: Bytes, ks: seq<Bytes>): seq<Bytes>
    requires forall i :: 0 <= i < |ks| ==> |ks[i]| >= |base|
  {
    seq(|ks|, i requires 0 <= i < |ks| => Name(base, ks[i]))
  }

  ghost function Found(db: Database, base: Bytes, q: Query, ks: seq<Bytes>): seq<Bytes> {
    Names(base, WantedIn(db, base, q, ks))
  }

  lemma FoundPush(db: Database, base: Bytes, q: Query, ks: seq<Bytes>, i: nat)
    requires i < |ks|
    ensures Wanted(db, base, q, ks[i]) ==>
              |ks[i]| >= |base| && Found(db, base, q, ks[..i + 1]) == Found(db, base, q, ks[..i]) + [Name(base, ks[i])]
    ensures !Wanted(db, base, q, ks[i]) ==> Found(db, base, q, ks[..i + 1]) == Found(db, base, q, ks[..i])
  {
    hide Glob.Matches;
    var k, w := ks[i], WantedIn(db, base, q, ks[..i]);
    assert ks[..i + 1][..i] == ks[..i];
    if Wanted(db, base, q, k) {
      assert Names(base, w + [k]) == Names(base, w) + [Name(base, k)];
    } else {
      assert w + [] == w;
    }
  }

  lemma {:induction false} FoundAppend(db: Database, base: Bytes, q: Query, a: seq<Bytes>, b: seq<Bytes>)
    ensures Found(db, base, q, a + b) == Found(db, base, q, a) + Found(db, base, q, b)
  {
    hide Wanted;
    if b == [] {
      assert a + b == a;
    } else {
      var n := |b| - 1;
      FoundAppend(db, base, q, a, b[..n]);
      FoundPush(db, base, q, a + b, |a| + n);
      FoundPush(db, base, q, b, n);
      assert (a + b)[..|a| + n] == a + b[..n] && (a + b)[..|a + b|] == a + b && b[..|b|] == b;
    }
  }

  // ---------- scan ----------

  datatype ScanResult = BadMatch | Page(keys: seq<Bytes>, last: Option<Bytes>)

  /** Whether the callback counts a key; None for a malformed pattern. */
  method Consider(db: Database, base: Bytes, q: Query, k: Bytes) returns (r: Option<bool>)
    requires k in db
    ensures r.None? ==> Glob.Tokens(Text(q.pattern)).None?
    ensures r.Some? ==> (r.value <==> Wanted(db, base, q, k))
  {
    hide Glob.Matches;
    if |k| < |base| || db[k].Broken? {
      return Some(false);
    }
    var m := Glob.Match(Text(q.pattern), Text(Name(base, k)));
    if m.BadPattern? {
      return None;
    }
    if !m.matched {
      return Some(false);
    }
    if q.typo.Some? && db[k].typo != q.typo.value {
      return Some(false);
    }
    return Some(!db[k].expired);
  }

  /** A page ends at the end of the range, or where count keys were found or limit keys were seen. */
  ghost predicate PageEnds(ks: seq<Bytes>, e: nat, found: nat, count: nat, limit: nat, last: Option<Bytes>) {
    && e <= |ks|
    && (last.None? ==> e == |ks| && found < count)
    && (last.Some? ==> 0 < e && last.value == ks[e - 1] && (found == count || e == limit))
    && (e > 0 ==> found <= count) && (limit > 0 ==> e <= limit)
  }

  /** scan: one page over the keys of a range. */
  method Scan(db: Database, base: Bytes, q: Query, start: Bytes, end: Bytes, count: nat, limit: nat)
    returns (r: ScanResult, ghost e: nat)
    requires count > 0
    ensures r.BadMatch? ==> Glob.Tokens(Text(q.pattern)).None?
    ensures r.Page? ==>
              && PageEnds(ListKeys(db, start, end), e, |r.keys|, count, limit, r.last)
              && r.keys == Found(db, base, q, ListKeys(db, start, end)[..e])
              && forall n: nat :: n < e ==> |Found(db, base, q, ListKeys(db, start, end)[..n])| < count
  {
    hide Wanted, WantedIn, Names, Found;
    var ks := ListKeys(db, start, end);
    ListedInDb(db, start, end);
    NothingFound(db, base, q);
    var retKeys: seq<Bytes>, i := [], 0;
    while i < |ks|
      invariant 0 <= i <= |ks| && (limit > 0 ==> i < limit)
      invariant |retKeys| < count && retKeys == Found(db, base, q, ks[..i])
      invariant forall n: nat :: n < i ==> |Found(db, base, q, ks[..n])| < count
    {
      assert ks[i] in ks;
      var hit := Consider(db, base, q, ks[i]);
      if hit.None? {
        return BadMatch, 0;
      }
      FoundPush(db, base, q, ks, i);
      if hit.value {
        retKeys := retKeys + [Name(base, ks[i])];
        if |retKeys| >= count {
          return Page(retKeys, Some(ks[i])), i + 1;
        }
      }
      if limit > 0 && i + 1 >= limit {
        return Page(retKeys, Some(ks[i])), i + 1;
      }
      i := i + 1;
    }
    r, e := Page(retKeys, None), i;
  }

  lemma NothingFound(db: Database, base: Bytes, q: Query)
    ensures forall ks: seq<Bytes> :: Found(db, base, q, ks[..0]) == []
  {
  }

  lemma ListedInDb(db: Database, start: Bytes, end: Bytes)
    ensures forall k :: k in ListKeys(db, start, end) ==> k in db
  {
    hide Less, Sorted, Reversed;
    SortedIsEnumeration(set k | k in db && !Less(k, start) && Less(k, end));
    SortedIsEnumeration(set k | k in db && !Less(k, end) && Less(k, start));
    ReversedHas(RangeKeys(db, end, start));
  }

  lemma ReversedHas(s: seq<Bytes>)
    ensures forall k :: k in Reversed(s) ==> k in s
  {
    forall k | k in Reversed(s) ensures k in s {
      var i :| 0 <= i < |s| && Reversed(s)[i] == k;
      assert s[|s| - 1 - i] == k;
    }
  }

  // ---------- the range a pattern is narrowed to ----------

  function NarrowedTo(base: Bytes, q: Query): Bytes {
    base + q.pattern[..|Glob.PrefixOf(Text(q.pattern))|]
  }

  ghost predicate PlainPrefix(q: Query) {
    '\\' !in Glob.PrefixOf(Text(q.pattern))
  }

  /** Every wanted key of the database, in key order. */
  ghost function AllWanted(db: Database, base: Bytes, q: Query): (r: seq<Bytes>)
    ensures forall i :: 0 <= i < |r| ==> |r[i]| >= |base|
  {
    SortedKeepsLength(set k | k in db && IsPrefix(base, k) && Wanted(db, base, q, k), |base|);
    Sorted(set k | k in db && IsPrefix(base, k) && Wanted(db, base, q, k))
  }

  /** Those that extend the literal head of the pattern, as glob.Prefix takes it. */
  ghost function NarrowedWanted(db: Database, base: Bytes, q: Query): (r: seq<Bytes>)
    ensures forall i :: 0 <= i < |r| ==> |r[i]| >= |base|
  {
    SortedKeepsLength(set k | k in db && IsPrefix(NarrowedTo(base, q), k) && Wanted(db, base, q, k), |base|);
    Sorted(set k | k in db && IsPrefix(NarrowedTo(base, q), k) && Wanted(db, base, q, k))
  }

  lemma SortedKeepsLength(s: set<Bytes>, n: nat)
    requires forall k :: k in s ==> |k| >= n
    ensures forall i :: 0 <= i < |Sorted(s)| ==> |Sorted(s)[i]| >= n
  {
    SortedIsEnumeration(s);
    forall i | 0 <= i < |Sorted(s)| ensures |Sorted(s)[i]| >= n {
      assert Sorted(s)[i] in Sorted(s);
    }
  }

  lemma NotAllOnes(base: Bytes, x: Bytes)
    requires !AllOnes(base)
    ensures !AllOnes(base + x)
  {
    var i :| 0 <= i < |base| && base[i] != 255;
    assert (base + x)[i] == base[i];
  }

  lemma {:induction false} WantedMembers(db: Database, base: Bytes, q: Query, ks: seq<Bytes>)
    ensures forall k :: k in WantedIn(db, base, q, ks) <==> k in ks && Wanted(db, base, q, k)
    ensures Ascending(ks) ==> Ascending(WantedIn(db, base, q, ks))
  {
    hide Wanted, Less;
    if ks != [] {
      var init, last := ks[..|ks| - 1], ks[|ks| - 1];
      WantedMembers(db, base, q, init);
      assert ks == init + [last];
      var w := WantedIn(db, base, q, init);
      if Ascending(ks) {
        forall i | 0 <= i < |w| ensures Less(w[i], last) {
          assert w[i] in init;
        }
      }
    }
  }

  /** Without a backslash in it, a wanted key extends the literal head of the pattern. */
  lemma WantedExtends(db: Database, base: Bytes, q: Query, k: Bytes)
    requires PlainPrefix(q) && Wanted(db, base, q, k)
    ensures |k| >= |NarrowedTo(base, q)|
    ensures IsPrefix(base, k) <==> IsPrefix(NarrowedTo(base, q), k)
  {
    hide Glob.Matches, Glob.PrefixOf, NarrowedTo, IsPrefix;
    Glob.NarrowingIsSound(Text(q.pattern), Text(Name(base, k)));
    HeadedKey(base, q, k);
  }

  /** A name starts with the head in text exactly when its key extends the narrowed prefix. */
  lemma HeadedKey(base: Bytes, q: Query, k: Bytes)
    requires |k| >= |base|
    ensures Glob.PrefixOf(Text(q.pattern)) <= Text(Name(base, k)) ==>
              |k| >= |NarrowedTo(base, q)| && (IsPrefix(base, k) <==> IsPrefix(NarrowedTo(base, q), k))
    ensures IsPrefix(NarrowedTo(base, q), k) ==> IsPrefix(base, k) && Glob.PrefixOf(Text(q.pattern)) <= Text(Name(base, k))
  {
    hide Glob.PrefixOf;
    var prefix, name := Glob.PrefixOf(Text(q.pattern)), Name(base, k);
    PrefixIsHead(Text(q.pattern));
    var p, n := NarrowedTo(base, q), |prefix|;
    TextHead(q.pattern, n);
    assert p[..|base|] == base && p[|base|..] == q.pattern[..n];
    if prefix <= Text(name) {
      TextHead(name, n);
      SameText(q.pattern[..n], name[..n]);
      assert k[..|p|] == k[..|base|] + name[..n];
    }
    if IsPrefix(p, k) {
      assert k[..|base|] == k[..|p|][..|base|] && name[..n] == k[..|p|][|base|..];
      TextHead(name, n);
    }
  }

  lemma PrefixIsHead(pattern: string)
    ensures |Glob.PrefixOf(pattern)| <= |pattern| && pattern[..|Glob.PrefixOf(pattern)|] == Glob.PrefixOf(pattern)
  {
  }

  lemma TextHead(b: Bytes, n: nat)
    requires n <= |b|
    ensures Text(b)[..n] == Text(b[..n])
  {
  }

  lemma SameText(a: Bytes, b: Bytes)
    requires Text(a) == Text(b)
    ensures a == b
  {
    assert |a| == |Text(a)| && |b| == |Text(b)|;
    forall i | 0 <= i < |a| ensures a[i] == b[i] {
      assert Text(a)[i] == a[i] as char && Text(b)[i] == b[i] as char;
      assert (a[i] as char) as int == a[i] && (b[i] as char) as int == b[i];
    }
  }

  /** A wanted key of the narrowed range extends the head, even where the range holds shorter keys. */
  lemma InRangeExtends(db: Database, base: Bytes, q: Query, k: Bytes)
    requires !AllOnes(base) && Wanted(db, base, q, k)
    requires var p := NarrowedTo(base, q); !Less(k, p) && Less(k, PrefixNextSpec(p))
    ensures IsPrefix(NarrowedTo(base, q), k)
  {
    hide Less, PrefixNextSpec, AllOnes, Wanted, IsPrefix, NarrowedTo;
    var p := NarrowedTo(base, q);
    NarrowedNotOnes(base, q);
    if |k| >= |p| {
      PrefixRange(p, k);
    } else {
      var t := ShortInRange(p, k);
      ShortIsNotWanted(db, base, q, k, t);
    }
  }

  lemma ShortIsNotWanted(db: Database, base: Bytes, q: Query, k: Bytes, t: nat)
    requires var p := NarrowedTo(base, q);
             t < |k| < |p| && k[..t] == p[..t] && p[t] < 255 && k[t] == p[t] + 1 && forall j :: t < j < |p| ==> p[j] == 255
    ensures !Wanted(db, base, q, k)
  {
    hide Glob.Matches, Glob.PrefixOf;
    if Wanted(db, base, q, k) {
      var p, head := NarrowedTo(base, q), Glob.PrefixOf(Text(q.pattern));
      PrefixIsHead(Text(q.pattern));
      if PlainPrefix(q) {
        WantedExtends(db, base, q, k);
      } else {
        HeadCarried(base, q, k, t);
        Glob.CarriedDoesNotMatch(Text(q.pattern), Text(Name(base, k)), t - |base|);
      }
    }
  }

  lemma HeadCarried(base: Bytes, q: Query, k: Bytes, t: nat)
    requires var p := NarrowedTo(base, q);
             t < |k| < |p| && k[..t] == p[..t] && p[t] < 255 && k[t] == p[t] + 1 && forall j :: t < j < |p| ==> p[j] == 255
    requires |k| >= |base| && !PlainPrefix(q)
    ensures t >= |base| && Glob.Carried(Glob.PrefixOf(Text(q.pattern)), Text(Name(base, k)), t - |base|)
  {
    hide Glob.PrefixOf;
    var p, head, name := NarrowedTo(base, q), Glob.PrefixOf(Text(q.pattern)), Text(Name(base, k));
    PrefixIsHead(Text(q.pattern));
    assert forall j :: 0 <= j < |head| ==> p[|base| + j] as int == head[j] as int;
    var at :| 0 <= at < |head| && head[at] == '\\';
    assert p[|base| + at] as int == 92;
    assert forall j :: 0 <= j < t ==> k[j] == k[..t][j] == p[..t][j];
    assert forall j :: 0 <= j < |name| ==> name[j] as int == k[|base| + j];
    forall j | 0 <= j < t - |base| ensures name[j] == head[j] {
      assert name[j] as int == k[|base| + j] == p[|base| + j] == head[j] as int;
    }
    assert name[..t - |base|] == head[..t - |base|];
  }

  /** Filtering the narrowed range is filtering the keys that extend the head. */
  lemma NarrowedRange(db: Database, base: Bytes, q: Query)
    requires !AllOnes(base)
    ensures var p := NarrowedTo(base, q);
            && ListKeys(db, p, PrefixNextSpec(p)) == RangeKeys(db, p, PrefixNextSpec(p))
            && WantedIn(db, base, q, RangeKeys(db, p, PrefixNextSpec(p))) == NarrowedWanted(db, base, q)
  {
    hide Less, Wanted, WantedIn, Sorted, NarrowedTo, PrefixNextSpec, AllOnes, IsPrefix;
    var p := NarrowedTo(base, q);
    NarrowedNotOnes(base, q);
    AboveItself(p);
    var inRange := set k | k in db && !Less(k, p) && Less(k, PrefixNextSpec(p));
    SortedIsEnumeration(inRange);
    var ks := RangeKeys(db, p, PrefixNextSpec(p));
    WantedMembers(db, base, q, ks);
    forall k ensures k in WantedIn(db, base, q, ks) <==> k in db && IsPrefix(p, k) && Wanted(db, base, q, k) {
      if Wanted(db, base, q, k) {
        WantedIsStored(db, base, q, k);
        if k in inRange {
          InRangeExtends(db, base, q, k);
        }
        if IsPrefix(p, k) {
          PrefixIsShorter(p, k);
          PrefixRange(p, k);
        }
      }
    }
    AscendingIsSorted(WantedIn(db, base, q, ks), set k | k in db && IsPrefix(p, k) && Wanted(db, base, q, k));
  }

  lemma PrefixIsShorter(p: Bytes, k: Bytes)
    requires IsPrefix(p, k)
    ensures |p| <= |k|
  {
  }

  /** On one database narrowing loses nothing exactly when every wanted key extends the head. */
  lemma NarrowedComplete(db: Database, base: Bytes, q: Query)
    ensures NarrowedWanted(db, base, q) == AllWanted(db, base, q) <==>
              forall k :: IsPrefix(base, k) && Wanted(db, base, q, k) ==> IsPrefix(NarrowedTo(base, q), k)
  {
    hide Wanted, NarrowedTo, Sorted, IsPrefix;
    var p := NarrowedTo(base, q);
    var all := set k | k in db && IsPrefix(base, k) && Wanted(db, base, q, k);
    var narrowed := set k | k in db && IsPrefix(p, k) && Wanted(db, base, q, k);
    SortedIsEnumeration(all);
    SortedIsEnumeration(narrowed);
    forall k | Wanted(db, base, q, k) ensures k in db && (IsPrefix(p, k) ==> IsPrefix(base, k)) {
      WantedIsStored(db, base, q, k);
      HeadedKey(base, q, k);
    }
    if Sorted(all) == Sorted(narrowed) {
      forall k | IsPrefix(base, k) && Wanted(db, base, q, k) ensures IsPrefix(p, k) {
        assert k in all && k in Sorted(all) && k in narrowed;
      }
    }
    if forall k :: IsPrefix(base, k) && Wanted(db, base, q, k) ==> IsPrefix(p, k) {
      forall k ensures k in all <==> k in narrowed {
        assert Wanted(db, base, q, k) ==> k in db;
      }
      assert all == narrowed;
    }
  }

  /** A pattern without a backslash in its head. */
  lemma PlainNarrowed(db: Database, base: Bytes, q: Query)
    requires PlainPrefix(q)
    ensures NarrowedWanted(db, base, q) == AllWanted(db, base, q)
  {
    hide Wanted, NarrowedTo, PlainPrefix, NarrowedWanted, AllWanted;
    NarrowedComplete(db, base, q);
    forall k | IsPrefix(base, k) && Wanted(db, base, q, k) ensures IsPrefix(NarrowedTo(base, q), k) {
      WantedExtends(db, base, q, k);
    }
  }

  /** A name as bytes. */
  function Spelled(name: string): (b: Bytes)
    requires Glob.Over(name, 255 as char)
  {
    seq(|name|, i requires 0 <= i < |name| => name[i] as byte)
  }

  lemma SpelledText(name: string)
    requires Glob.Over(name, 255 as char)
    ensures Text(Spelled(name)) == name
  {
  }

  lemma TextOver(b: Bytes)
    ensures Glob.Over(Text(b), 255 as char)
  {
  }

  /** Narrowing loses nothing on any database exactly for the patterns whose head is harmless. */
  lemma NarrowingCompletes(base: Bytes, q: Query, some: Bytes)
    requires Glob.Matches(Text(q.pattern), Text(some))
    ensures (forall db :: NarrowedWanted(db, base, q) == AllWanted(db, base, q)) <==> Glob.Harmless(Text(q.pattern), 255 as char)
  {
    hide *;
    var text, top := Text(q.pattern), 255 as char;
    if Glob.Harmless(text, top) {
      forall db ensures NarrowedWanted(db, base, q) == AllWanted(db, base, q) {
        HarmlessLosesNothing(db, base, q);
      }
    } else {
      TextOver(some);
      TopIsHigh();
      var name := Glob.NarrowingLosesOne(text, top, Text(some));
      var db := LosingStore(base, q, name);
    }
  }

  lemma TopIsHigh()
    ensures 'a' <= 255 as char
  {
  }

  lemma HarmlessLosesNothing(db: Database, base: Bytes, q: Query)
    requires Glob.Harmless(Text(q.pattern), 255 as char)
    ensures NarrowedWanted(db, base, q) == AllWanted(db, base, q)
  {
    hide Glob.Harmless, Glob.Matches, Glob.PrefixOf, Glob.Over, NarrowedTo, NarrowedWanted, AllWanted, IsPrefix;
    NarrowedComplete(db, base, q);
    forall k | IsPrefix(base, k) && Wanted(db, base, q, k) ensures IsPrefix(NarrowedTo(base, q), k) {
      TextOver(Name(base, k));
      Glob.NarrowingKeepsAll(Text(q.pattern), 255 as char, Text(Name(base, k)));
      HeadedKey(base, q, k);
    }
  }

  /** A store with one key whose name is lost. */
  lemma LosingStore(base: Bytes, q: Query, name: string) returns (db: Database)
    requires Glob.Over(name, 255 as char) && Glob.Matches(Text(q.pattern), name) && !(Glob.PrefixOf(Text(q.pattern)) <= name)
    ensures NarrowedWanted(db, base, q) != AllWanted(db, base, q)
  {
    hide Glob.Matches, Glob.PrefixOf, Glob.Over, NarrowedTo, NarrowedWanted, AllWanted;
    var k := base + Spelled(name);
    SpelledText(name);
    assert Name(base, k) == Spelled(name);
    db := map[k := Object(if q.typo.Some? then q.typo.value else 0, false)];
    NarrowedComplete(db, base, q);
    HeadedKey(base, q, k);
    assert IsPrefix(base, k) && Wanted(db, base, q, k);
  }

  lemma WantedIsStored(db: Database, base: Bytes, q: Query, k: Bytes)
    requires Wanted(db, base, q, k)
    ensures k in db && |k| >= |base|
  {
  }

  lemma NarrowedNotOnes(base: Bytes, q: Query)
    requires !AllOnes(base)
    ensures !AllOnes(NarrowedTo(base, q))
  {
    PrefixIsHead(Text(q.pattern));
    NotAllOnes(base, q.pattern[..|Glob.PrefixOf(Text(q.pattern))|]);
  }

  lemma AboveItself(p: Bytes)
    requires !AllOnes(p)
    ensures !Less(PrefixNextSpec(p), p) && Less(p, PrefixNextSpec(p))
  {
    PrefixRange(p, p);
    StrictTotalOrder();
  }

  // ---------- KEYS ----------

  /** KEYS: the wanted keys among the first cap of the narrowed range; all that extend the head, if it fits. */
  method Keys(db: Database, base: Bytes, q: Query, cap: nat) returns (r: ScanResult)
    requires !AllOnes(base) && cap > 0
    ensures r.BadMatch? ==> Glob.Tokens(Text(q.pattern)).None?
    ensures r.Page? ==>
              var ks := RangeKeys(db, NarrowedTo(base, q), PrefixNextSpec(NarrowedTo(base, q)));
              && r.keys == Found(db, base, q, if |ks| <= cap then ks else ks[..cap])
              && (|ks| <= cap ==> r.keys == Names(base, NarrowedWanted(db, base, q)))
  {
    hide Found, WantedIn, Wanted, RangeKeys, NarrowedWanted, Names;
    var prefix := Glob.Prefix(Text(q.pattern));
    PrefixIsHead(Text(q.pattern));
    var start := base + q.pattern[..|prefix|];
    var end := PrefixNext(start);
    ghost var e;
    r, e := Scan(db, base, q, start, end, cap, cap);
    if r.Page? {
      NarrowedRange(db, base, q);
      var ks := RangeKeys(db, NarrowedTo(base, q), PrefixNextSpec(NarrowedTo(base, q)));
      FoundFewer(db, base, q, ks[..e]);
      assert e < |ks| ==> e == cap;
      assert e == |ks| ==> ks[..e] == ks;
      FoundIsNames(db, base, q, ks);
    }
  }

  lemma FoundIsNames(db: Database, base: Bytes, q: Query, ks: seq<Bytes>)
    ensures Found(db, base, q, ks) == Names(base, WantedIn(db, base, q, ks))
  {
  }

  lemma {:induction false} FoundFewer(db: Database, base: Bytes, q: Query, ks: seq<Bytes>)
    ensures |Found(db, base, q, ks)| <= |ks|
  {
    hide Wanted;
    if ks != [] {
      FoundFewer(db, base, q, ks[..|ks| - 1]);
    }
  }

  // ---------- SCAN ----------

  lemma IndexOrder(ks: seq<Bytes>, i: nat, j: nat)
    requires Ascending(ks) && i < |ks| && j < |ks|
    ensures Less(ks[i], ks[j]) <==> i < j
  {
    hide Less;
    StrictTotalOrder();
    if j < i {
      assert Less(ks[j], ks[i]);
    }
  }

  /** Dropping the keys up to one of them is starting the range behind it. */
  lemma RangeAfter(db: Database, start: Bytes, end: Bytes, e: nat)
    requires 0 < e <= |RangeKeys(db, start, end)|
    ensures RangeKeys(db, NextKey(RangeKeys(db, start, end)[e - 1]), end) == RangeKeys(db, start, end)[e..]
  {
    hide Less, Sorted, NextKey;
    var ks := RangeKeys(db, start, end);
    var all := set k | k in db && !Less(k, start) && Less(k, end);
    SortedIsEnumeration(all);
    var last := ks[e - 1];
    var after := set k | k in db && !Less(k, NextKey(last)) && Less(k, end);
    SortedIsEnumeration(after);
    StrictTotalOrder();
    assert last in all by { assert last in ks; }
    forall k ensures k in ks[e..] <==> k in after {
      NextKeyIsSuccessor(last, k);
      if k in after {
        assert Less(last, k);
        assert k in all && k in ks;
        var i :| 0 <= i < |ks| && ks[i] == k;
        IndexOrder(ks, e - 1, i);
        assert ks[e..][i - e] == k;
      }
      if k in ks[e..] {
        var i :| 0 <= i < |ks| - e && ks[e..][i] == k;
        assert ks[e + i] == k && k in ks;
        assert Less(ks[e - 1], ks[e + i]);
      }
    }
    AscendingIsSorted(ks[e..], after);
  }

  /** The keys a cursor has yet to show. */
  function KeysFrom(db: Database, p: Bytes, cursor: Option<Bytes>): seq<Bytes> {
    ListKeys(db, if cursor.Some? then p + NextKey(cursor.value) else p, PrefixNextSpec(p))
  }

  ghost predicate NotEarlier(db: Database, base: Bytes, q: Query, ks: seq<Bytes>, e: nat, count: nat) {
    forall n: nat :: n < e && n <= |ks| ==> |Found(db, base, q, ks[..n])| < count
  }

  /** A page over the keys ks, and the cursor that goes with it. */
  ghost predicate PageOf(db: Database, base: Bytes, q: Query, ks: seq<Bytes>, count: nat, limit: nat, r: ScanResult, e: nat,
                         last: Option<Bytes>)
    requires r.Page?
  {
    && PageEnds(ks, e, |r.keys|, count, limit, last)
    && r.keys == Found(db, base, q, ks[..e]) && NotEarlier(db, base, q, ks, e, count)
    && var p := NarrowedTo(base, q);
       r.last == if last.None? || |last.value| <= |p| then None else Some(last.value[|p|..])
  }

  /** One SCAN command from a cluster cursor: the part of the last key behind the narrowed prefix. */
  method ScanPage(db: Database, base: Bytes, q: Query, cursor: Option<Bytes>, count: nat, limit: nat)
    returns (r: ScanResult, ghost e: nat, ghost last: Option<Bytes>)
    requires count > 0
    ensures r.BadMatch? ==> Glob.Tokens(Text(q.pattern)).None?
    ensures r.Page? ==> PageOf(db, base, q, KeysFrom(db, NarrowedTo(base, q), cursor), count, limit, r, e, last)
  {
    hide Found, PageEnds, ListKeys;
    var prefix := Glob.Prefix(Text(q.pattern));
    PrefixIsHead(Text(q.pattern));
    var p := base + q.pattern[..|prefix|];
    var start := p;
    var end := PrefixNext(p);
    if cursor.Some? {
      start := start + NextKey(cursor.value);
    }
    var ok := Glob.Match(Text(q.pattern), Text(start));
    if ok.BadPattern? {
      return BadMatch, 0, None;
    }
    r, e := Scan(db, base, q, start, end, count, limit);
    if r.Page? {
      last := r.last;
      r := Page(r.keys, if r.last.None? || |r.last.value| <= |p| then None else Some(r.last.value[|p|..]));
    } else {
      last := None;
    }
  }

  /** A cursor made of a key behind the prefix resumes right behind that key. */
  lemma Resumes(db: Database, p: Bytes, full: seq<Bytes>, n: nat)
    requires !AllOnes(p) && full == RangeKeys(db, p, PrefixNextSpec(p))
    requires 0 < n <= |full| && |full[n - 1]| > |p|
    ensures KeysFrom(db, p, Some(full[n - 1][|p|..])) == full[n..]
  {
    hide Sorted, Less, PrefixNextSpec, AllOnes;
    var last := full[n - 1];
    PrefixScan(db, p);
    assert last in full;
    assert IsPrefix(p, last);
    var c := last[|p|..];
    assert last == p + c;
    assert p + NextKey(c) == NextKey(last);
    RangeAfter(db, p, PrefixNextSpec(p), n);
    PrefixRange(p, NextKey(last));
    assert IsPrefix(p, NextKey(last));
    StrictTotalOrder();
  }

  /** Behind a key no longer than the prefix, other than the prefix itself, nothing is wanted. */
  lemma NothingBehindShort(db: Database, base: Bytes, q: Query, full: seq<Bytes>, i: nat)
    requires !AllOnes(base)
    requires var p := NarrowedTo(base, q); full == RangeKeys(db, p, PrefixNextSpec(p))
    requires i < |full| && |full[i]| <= |NarrowedTo(base, q)| && full[i] != NarrowedTo(base, q)
    ensures Found(db, base, q, full) == Found(db, base, q, full[..i + 1])
  {
    hide Sorted, Less, PrefixNextSpec, AllOnes, Wanted, NarrowedTo, Found;
    var p, k := NarrowedTo(base, q), full[i];
    NarrowedNotOnes(base, q);
    SortedIsEnumeration(set k | k in db && !Less(k, p) && Less(k, PrefixNextSpec(p)));
    assert k in full;
    forall j | i < j < |full| ensures !Wanted(db, base, q, full[j]) {
      if Wanted(db, base, q, full[j]) {
        assert full[j] in full;
        InRangeExtends(db, base, q, full[j]);
        assert full[j] == p + full[j][|p|..] && p == p + [];
        BetweenExtensions(p, [], full[j][|p|..], k);
        assert false;
      }
    }
    NothingMore(db, base, q, full, i + 1);
  }

  lemma {:induction false} NothingMore(db: Database, base: Bytes, q: Query, ks: seq<Bytes>, n: nat)
    requires n <= |ks| && forall j :: n <= j < |ks| ==> !Wanted(db, base, q, ks[j])
    ensures Found(db, base, q, ks) == Found(db, base, q, ks[..n])
  {
    hide Wanted, Found;
    if n == |ks| {
      assert ks[..n] == ks;
    } else {
      var m := |ks| - 1;
      NothingMore(db, base, q, ks[..m], n);
      FoundPush(db, base, q, ks, m);
      assert ks[..m + 1] == ks && ks[..m][..n] == ks[..n];
    }
  }

  /**
   * When the first page ends at a key equal to the literal head of the pattern, its cursor would
   * be empty, and reads as the end of the iteration.
   */
  ghost predicate StopsAtPrefix(db: Database, base: Bytes, q: Query, count: nat, limit: nat) {
    var p := NarrowedTo(base, q);
    p in db && (limit == 1 || (count == 1 && Wanted(db, base, q, p)))
  }

  lemma PrefixComesFirst(db: Database, p: Bytes, full: seq<Bytes>)
    requires !AllOnes(p) && full == RangeKeys(db, p, PrefixNextSpec(p))
    ensures p in db <==> full != [] && full[0] == p
    ensures forall i :: 0 < i < |full| ==> full[i] != p
  {
    hide Sorted, Less, PrefixNextSpec, AllOnes;
    AboveItself(p);
    SortedIsEnumeration(set k | k in db && !Less(k, p) && Less(k, PrefixNextSpec(p)));
    StrictTotalOrder();
    if p in db {
      assert p in full;
      var i :| 0 <= i < |full| && full[i] == p;
      assert full[0] in full;
      IndexOrder(full, 0, i);
    }
    if full != [] {
      assert full[0] in full;
    }
  }

  /** What the iteration has collected when a page ends it. */
  lemma IterationEnds(db: Database, base: Bytes, q: Query, full: seq<Bytes>, done: nat, e: nat, found: nat,
                      count: nat, limit: nat, last: Option<Bytes>)
    requires !AllOnes(base) && count > 0
    requires var p := NarrowedTo(base, q); full == RangeKeys(db, p, PrefixNextSpec(p))
    requires done <= |full| && PageEnds(full[done..], e, found, count, limit, last)
    requires found == |Found(db, base, q, full[done..][..e])|
    requires last.None? || |last.value| <= |NarrowedTo(base, q)|
    requires StopsAtPrefix(db, base, q, count, limit) ==> done == 0 && e <= 1
    ensures Found(db, base, q, full[..done + e]) ==
              if StopsAtPrefix(db, base, q, count, limit) then Found(db, base, q, [NarrowedTo(base, q)])
              else Found(db, base, q, full)
  {
    hide Sorted, Less, PrefixNextSpec, AllOnes, Wanted, NarrowedTo, Found, RangeKeys;
    var p := NarrowedTo(base, q);
    NarrowedNotOnes(base, q);
    PrefixComesFirst(db, p, full);
    if StopsAtPrefix(db, base, q, count, limit) {
      assert full[..1] == [p];
    } else if last.None? {
      assert full[..done + e] == full;
    } else if last.value == p {
      assert done + e == 1 && full[done..][..e] == [p];
      FoundFewer(db, base, q, [p]);
      FoundOne(db, base, q, p);
    } else {
      NothingBehindShort(db, base, q, full, done + e - 1);
    }
  }

  lemma FoundOne(db: Database, base: Bytes, q: Query, k: Bytes)
    ensures |Found(db, base, q, [k])| == if Wanted(db, base, q, k) then 1 else 0
  {
    hide Wanted;
    var ks := [k];
    assert ks[..1] == ks && ks[..0] == [];
    FoundPush(db, base, q, ks, 0);
  }

  /** The first page stops behind a key equal to the head of the pattern. */
  lemma FirstPageStops(db: Database, base: Bytes, q: Query, full: seq<Bytes>, e: nat, found: nat, count: nat, limit: nat,
                       last: Option<Bytes>)
    requires !AllOnes(base) && StopsAtPrefix(db, base, q, count, limit)
    requires var p := NarrowedTo(base, q); full == RangeKeys(db, p, PrefixNextSpec(p))
    requires PageEnds(full, e, found, count, limit, last)
    requires NotEarlier(db, base, q, full, e, count)
    ensures e <= 1 && (last.Some? ==> last.value == NarrowedTo(base, q))
  {
    hide Sorted, Less, PrefixNextSpec, AllOnes, Wanted, NarrowedTo, Found, RangeKeys;
    var p := NarrowedTo(base, q);
    NarrowedNotOnes(base, q);
    PrefixComesFirst(db, p, full);
    assert full[..1] == [p];
    FoundOne(db, base, q, p);
  }

  lemma PageRead(db: Database, base: Bytes, q: Query, full: seq<Bytes>, done: nat, count: nat, limit: nat, r: ScanResult,
                 e: nat, last: Option<Bytes>)
    requires !AllOnes(base) && count > 0
    requires var p := NarrowedTo(base, q); full == RangeKeys(db, p, PrefixNextSpec(p))
    requires done <= |full| && r.Page? && PageOf(db, base, q, full[done..], count, limit, r, e, last)
    requires StopsAtPrefix(db, base, q, count, limit) ==> done == 0
    ensures done + e <= |full| && Found(db, base, q, full[..done]) + r.keys == Found(db, base, q, full[..done + e])
    ensures r.last.Some? ==>
              && e > 0 && !StopsAtPrefix(db, base, q, count, limit)
              && |full[done + e - 1]| > |NarrowedTo(base, q)| && r.last.value == full[done + e - 1][|NarrowedTo(base, q)|..]
    ensures r.last.None? ==>
              Found(db, base, q, full[..done + e]) ==
              if StopsAtPrefix(db, base, q, count, limit) then Found(db, base, q, [NarrowedTo(base, q)])
              else Found(db, base, q, full)
  {
    hide Found, StopsAtPrefix, NarrowedTo, RangeKeys, NotEarlier, AllOnes;
    assert full[..done + e] == full[..done] + full[done..][..e];
    FoundAppend(db, base, q, full[..done], full[done..][..e]);
    if StopsAtPrefix(db, base, q, count, limit) {
      assert full[0..] == full;
      FirstPageStops(db, base, q, full, e, |r.keys|, count, limit, last);
    }
    if r.last.None? {
      IterationEnds(db, base, q, full, done, e, |r.keys|, count, limit, last);
    }
  }

  lemma IterationStarts(db: Database, base: Bytes, q: Query, p: Bytes, full: seq<Bytes>)
    requires full == ListKeys(db, p, PrefixNextSpec(p))
    ensures KeysFrom(db, p, None) == full[0..] && Found(db, base, q, full[..0]) == []
  {
  }

  /**
   * Iterating SCAN over a store that stays as it is: every wanted key that extends the head of the
   * pattern once, in key order, except where the iteration stops at the head itself. By
   * NarrowingCompletes these are all wanted keys exactly when the head is harmless.
   */
  method Iterate(db: Database, base: Bytes, q: Query, count: nat, limit: nat) returns (bad: bool, all: seq<Bytes>)
    requires count > 0 && !AllOnes(base)
    ensures bad ==> Glob.Tokens(Text(q.pattern)).None?
    ensures !bad ==> all == if StopsAtPrefix(db, base, q, count, limit) then Found(db, base, q, [NarrowedTo(base, q)])
                            else Names(base, NarrowedWanted(db, base, q))
  {
    hide *;
    ghost var p := NarrowedTo(base, q);
    ghost var full := RangeKeys(db, p, PrefixNextSpec(p));
    ghost var done := 0;
    NarrowedNotOnes(base, q);
    NarrowedRange(db, base, q);
    IterationStarts(db, base, q, p, full);
    FoundIsNames(db, base, q, full);
    all := [];
    var cursor := None;
    while true
      invariant done <= |full| && KeysFrom(db, p, cursor) == full[done..]
      invariant all == Found(db, base, q, full[..done])
      invariant StopsAtPrefix(db, base, q, count, limit) ==> done == 0
      decreases |full| - done
    {
      var r;
      ghost var e, last;
      r, e, last := ScanPage(db, base, q, cursor, count, limit);
      if r.BadMatch? {
        return true, all;
      }
      all := all + r.keys;
      PageRead(db, base, q, full, done, count, limit, r, e, last);
      cursor := r.last;
      done := done + e;
      if cursor.None? {
        return false, all;
      }
      Resumes(db, p, full, done);
    }
  }

  /**
   * Where the iteration stops at the prefix it is complete exactly when nothing else was wanted; with
   * a count and a cap of two or more it does not stop there.
   */
  lemma IterationComplete(db: Database, base: Bytes, q: Query, count: nat, limit: nat)
    requires !AllOnes(base) && StopsAtPrefix(db, base, q, count, limit)
    ensures count == 1 || limit == 1
    ensures Found(db, base, q, [NarrowedTo(base, q)]) == Names(base, NarrowedWanted(db, base, q)) <==>
              forall k :: IsPrefix(NarrowedTo(base, q), k) && Wanted(db, base, q, k) ==> k == NarrowedTo(base, q)
  {
    hide Glob.Matches, NarrowedTo, AllOnes, WantedIn, Sorted;
    var p := NarrowedTo(base, q);
    var all := set k | k in db && IsPrefix(p, k) && Wanted(db, base, q, k);
    SortedIsEnumeration(all);
    FoundOne(db, base, q, p);
    WantedMembers(db, base, q, [p]);
    if Wanted(db, base, q, p) {
      if forall k :: IsPrefix(p, k) && Wanted(db, base, q, k) ==> k == p {
        assert all == {p};
        AscendingIsSorted(WantedIn(db, base, q, [p]), all);
      } else {
        var k :| IsPrefix(p, k) && Wanted(db, base, q, k) && k != p;
        assert {k, p} <= all;
        TwoAtLeast(all, k, p);
      }
    } else {
      assert all == {} <==> forall k :: IsPrefix(p, k) && Wanted(db, base, q, k) ==> k == p;
    }
  }

  lemma TwoAtLeast(s: set<Bytes>, a: Bytes, b: Bytes)
    requires a in s && b in s && a != b
    ensures |s| >= 2
  {
    assert s == {a, b} + (s - {a, b});
  }
}
