/** command/zset.go: a sorted set as a member index and a score index in one key space. */
module Zset {
  import opened Basics
  import opened ByteOrder
  import opened Store
  import opened Float

  // ---------- keys and values ----------

  const MEMBER_PREFIX: byte := 109  // 'm'
  const SCORE_PREFIX: byte := 115   // 's'

  function MemberKey(m: Bytes): Bytes {
    [MEMBER_PREFIX] + m
  }

  function ScoreKey(s: Bits, m: Bytes): Bytes {
    [SCORE_PREFIX] + EncodeFloat(s) + m
  }

  /** A stored value: the transaction's timestamp, then the payload. */
  function EncodeValue(timestamp: Bits, payload: Bytes): Bytes {
    BigEndian(timestamp, 8) + payload
  }

  function Payload(v: Bytes): Option<Bytes> {
    if |v| < 8 then None else Some(v[8..])
  }

  lemma PayloadOfEncoded(timestamp: Bits, payload: Bytes)
    ensures Payload(EncodeValue(timestamp, payload)) == Some(payload)
    ensures |EncodeValue(timestamp, payload)| >= 8 && Value(EncodeValue(timestamp, payload)[..8]) == timestamp
  {
    hide BigEndian, Value;
    Pow256Eight();
    BigEndianLength(timestamp, 8);
    BigEndianRoundTrip(timestamp, 8);
    assert EncodeValue(timestamp, payload)[..8] == BigEndian(timestamp, 8);
  }

  lemma ScoreKeyParts(s: Bits, m: Bytes)
    ensures |EncodeFloat(s)| == 8
    ensures var k := ScoreKey(s, m);
            |k| == 9 + |m| && k[0] == SCORE_PREFIX && k[1..9] == EncodeFloat(s) && k[9..] == m
    ensures DecodeFloat(ScoreKey(s, m)[1..]) == s
  {
    hide EncodeFloat, DecodeFloat;
    DecodeEncode(s, m);
    assert ScoreKey(s, m)[1..] == EncodeFloat(s) + m;
  }

  lemma ScoreKeyInjective(s: Bits, m: Bytes, s': Bits, m': Bytes)
    ensures ScoreKey(s, m) == ScoreKey(s', m') <==> s == s' && m == m'
  {
    hide *;
    ScoreKeyParts(s, m);
    ScoreKeyParts(s', m');
  }

  /** Different members and different scores never share a key. */
  lemma KeysApart()
    ensures forall m, m' :: MemberKey(m) == MemberKey(m') ==> m == m'
    ensures forall s: Bits, m, m' :: ScoreKey(s, m) != MemberKey(m')
    ensures forall s: Bits, m, s': Bits, m' :: ScoreKey(s, m) == ScoreKey(s', m') ==> s == s' && m == m'
    ensures forall m :: IndexKey(MemberKey(m))
    ensures forall s: Bits, m :: IndexKey(ScoreKey(s, m))
  {
    hide EncodeFloat;
    forall s: Bits, m ensures IndexKey(ScoreKey(s, m)) {
      ScoreKeyParts(s, m);
    }
    forall m, m' | MemberKey(m) == MemberKey(m') ensures m == m' {
      assert MemberKey(m)[1..] == m && MemberKey(m')[1..] == m';
    }
    forall s: Bits, m, m' ensures ScoreKey(s, m) != MemberKey(m') {
      assert ScoreKey(s, m)[0] != MemberKey(m')[0];
    }
    forall s: Bits, m, s': Bits, m' | ScoreKey(s, m) == ScoreKey(s', m') ensures s == s' && m == m' {
      ScoreKeyInjective(s, m, s', m');
    }
  }

  /** Any key of the score index spells a score and a member. */
  lemma ScoreKeySpelled(k: Bytes)
    requires |k| >= 9 && k[0] == SCORE_PREFIX
    ensures k == ScoreKey(DecodeFloat(k[1..]), k[9..])
  {
    hide EncodeFloat, DecodeFloat;
    EncodeDecode(k[1..9]);
    DecodeEncode(DecodeFloat(k[1..9]), k[9..]);
    assert k[1..] == k[1..9] + k[9..];
    assert k == [k[0]] + k[1..9] + k[9..];
  }

  // ---------- the two indexes agree ----------

  type Scores = map<Bytes, Bits>

  predicate HasPayload(v: Bytes, payload: Bytes) {
    Payload(v) == Some(payload)
  }

  /**
   * The store holds, for every member, its member key with its score and its score key, and no
   * other key.
   */
  ghost predicate Represents(store: map<Bytes, Bytes>, z: Scores) {
    MemberIndex(store, z) && ScoreIndex(store, z) && forall k :: k in store ==> IndexKey(k)
  }

  ghost predicate MemberIndex(store: map<Bytes, Bytes>, z: Scores) {
    && (forall m :: MemberKey(m) in store <==> m in z)
    && (forall m :: m in z ==> HasPayload(store[MemberKey(m)], EncodeFloat(z[m])) && !IsNan(z[m]))
  }

  ghost predicate ScoreIndex(store: map<Bytes, Bytes>, z: Scores) {
    forall s: Bits, m :: ScoreKey(s, m) in store <==> m in z && z[m] == s
  }

  predicate IndexKey(k: Bytes) {
    k != [] && (k[0] == MEMBER_PREFIX || (k[0] == SCORE_PREFIX && |k| >= 9))
  }

  /** In the source's words: the keys of the score index are exactly those of the members' scores. */
  lemma OneScoreKeyPerMember(store: map<Bytes, Bytes>, z: Scores, k: Bytes)
    requires Represents(store, z)
    ensures k in store && k[0] == SCORE_PREFIX <==> exists m :: m in z && k == ScoreKey(z[m], m)
    ensures k in store && k[0] == MEMBER_PREFIX <==> exists m :: m in z && k == MemberKey(m)
  {
    if k in store && k[0] == SCORE_PREFIX {
      SpelledInIndex(store, z, k);
    }
    MemberSpelled(store, z, k);
    hide MemberKey, EncodeFloat, DecodeFloat, IsNan;
    if exists m :: m in z && k == ScoreKey(z[m], m) {
      var m :| m in z && k == ScoreKey(z[m], m);
      ScoreKeyParts(z[m], m);
    }
  }

  lemma SpelledInIndex(store: map<Bytes, Bytes>, z: Scores, k: Bytes)
    requires ScoreIndex(store, z) && k in store && |k| >= 9 && k[0] == SCORE_PREFIX
    ensures k[9..] in z && k == ScoreKey(z[k[9..]], k[9..])
  {
    hide EncodeFloat, DecodeFloat, ScoreKey;
    ScoreKeySpelled(k);
  }

  lemma MemberSpelled(store: map<Bytes, Bytes>, z: Scores, k: Bytes)
    requires MemberIndex(store, z)
    ensures k in store && k != [] && k[0] == MEMBER_PREFIX <==> exists m :: m in z && k == MemberKey(m)
  {
    hide EncodeFloat, IsNan, HasPayload;
    if k in store && k != [] && k[0] == MEMBER_PREFIX {
      assert k == MemberKey(k[1..]);
    }
  }

  // ---------- PutZset ----------

  /** The writes of PutZset, in order: member key, new score key, and for delta 0 the old score key. */
  function PutResult(store: map<Bytes, Bytes>, member: Bytes, score: Bits, oldScore: Bits, delta: int,
                     timestamp: Bits): map<Bytes, Bytes>
  {
    if delta < 0 then store - {MemberKey(member)} - {ScoreKey(score, member)}
    else
      var put := store[MemberKey(member) := EncodeValue(timestamp, EncodeFloat(score))]
                      [ScoreKey(score, member) := EncodeValue(timestamp, [])];
      if delta == 0 then put - {ScoreKey(oldScore, member)} else put
  }

  lemma PutMember(store: map<Bytes, Bytes>, z: Scores, m: Bytes, s: Bits, sk: Bytes, v: Bytes, w: Bytes)
    requires MemberIndex(store, z) && !IsNan(s) && HasPayload(v, EncodeFloat(s))
    requires forall m' :: sk != MemberKey(m')
    ensures MemberIndex(store[MemberKey(m) := v][sk := w], z[m := s])
  {
    hide EncodeFloat, IsNan, HasPayload, MemberKey;
    MemberKeyInjective(m);
  }

  lemma MemberKeyInjective(m: Bytes)
    ensures forall m' :: MemberKey(m') == MemberKey(m) ==> m' == m
  {
    forall m' | MemberKey(m') == MemberKey(m) ensures m' == m {
      assert MemberKey(m')[1..] == m' && MemberKey(m)[1..] == m;
    }
  }

  /** Writing both keys makes the member index right; the score index may hold the old key still. */
  lemma PutBoth(store: map<Bytes, Bytes>, z: Scores, m: Bytes, s: Bits, timestamp: Bits)
    requires Represents(store, z) && !IsNan(s)
    ensures var put := store[MemberKey(m) := EncodeValue(timestamp, EncodeFloat(s))]
                            [ScoreKey(s, m) := EncodeValue(timestamp, [])];
            && MemberIndex(put, z[m := s])
            && (forall k :: k in put ==> IndexKey(k))
            && (forall s': Bits, m' :: ScoreKey(s', m') in put <==>
                  (m' == m && s' == s) || (m' in z && z[m'] == s'))
  {
    hide EncodeFloat, EncodeValue, IsNan, MemberKey, ScoreKey, Payload, IndexKey, MemberIndex;
    KeysApart();
    PayloadOfEncoded(timestamp, EncodeFloat(s));
    PutMember(store, z, m, s, ScoreKey(s, m), EncodeValue(timestamp, EncodeFloat(s)), EncodeValue(timestamp, []));
  }

  lemma PutNew(store: map<Bytes, Bytes>, z: Scores, m: Bytes, s: Bits, any: Bits, timestamp: Bits)
    requires Represents(store, z) && m !in z && !IsNan(s)
    ensures Represents(PutResult(store, m, s, any, 1, timestamp), z[m := s])
  {
    hide MemberIndex, EncodeFloat, EncodeValue, IsNan, MemberKey, ScoreKey, IndexKey;
    PutBoth(store, z, m, s, timestamp);
  }

  /** The delta-0 write: the old score key goes, the new one stays, because the patterns differ. */
  lemma PutChange(store: map<Bytes, Bytes>, z: Scores, m: Bytes, s: Bits, timestamp: Bits)
    requires Represents(store, z) && m in z && !IsNan(s) && z[m] != s
    ensures Represents(PutResult(store, m, s, z[m], 0, timestamp), z[m := s])
  {
    hide EncodeFloat, EncodeValue, IsNan, MemberKey, ScoreKey, Payload, IndexKey;
    KeysApart();
    PutBoth(store, z, m, s, timestamp);
  }

  /** Had it been taken for an unchanged score, the member would have lost its score key. */
  lemma PutSameWouldLose(store: map<Bytes, Bytes>, z: Scores, m: Bytes, timestamp: Bits, z': Scores)
    requires Represents(store, z) && m in z
    ensures !Represents(PutResult(store, m, z[m], z[m], 0, timestamp), z')
  {
    hide EncodeFloat, EncodeValue, IsNan, MemberKey, ScoreKey, Payload, IndexKey;
    KeysApart();
    var put := PutResult(store, m, z[m], z[m], 0, timestamp);
    PayloadOfEncoded(timestamp, EncodeFloat(z[m]));
    assert put[MemberKey(m)] == EncodeValue(timestamp, EncodeFloat(z[m]));
    assert ScoreKey(z[m], m) !in put;
    if m in z' {
      EncodedOrder(z[m], z'[m]);
    }
  }

  lemma PutGone(store: map<Bytes, Bytes>, z: Scores, m: Bytes, any: Bits, timestamp: Bits)
    requires Represents(store, z) && m in z
    ensures Represents(PutResult(store, m, z[m], any, -1, timestamp), z - {m})
  {
    hide EncodeFloat, EncodeValue, IsNan, Payload, MemberKey, ScoreKey, IndexKey;
    KeysApart();
    var put, z' := PutResult(store, m, z[m], any, -1, timestamp), z - {m};
    assert MemberIndex(put, z');
    assert ScoreIndex(put, z');
  }

  // ---------- the order of the score index ----------

  /** The score index as a set of keys, restricted to scores with a property. */
  ghost function Index(z: Scores, want: Bits -> bool): set<Bytes> {
    set m | m in z && want(z[m]) :: ScoreKey(z[m], m)
  }

  function ScoreOf(k: Bytes): Bits
    requires |k| >= 9
  {
    DecodeFloat(k[1..])
  }

  function MemberOf(k: Bytes): Bytes
    requires |k| >= 9
  {
    k[9..]
  }

  /** Score keys compare by score code, then by member. */
  lemma ScoreKeyOrder(s: Bits, m: Bytes, s': Bits, m': Bytes)
    ensures Less(ScoreKey(s, m), ScoreKey(s', m')) <==>
              Code(s) < Code(s') || (s == s' && Less(m, m'))
  {
    hide EncodeFloat, Code;
    EncodedOrder(s, s');
    CompareEqual(EncodeFloat(s), EncodeFloat(s'));
    assert ScoreKey(s, m) == [SCORE_PREFIX] + (EncodeFloat(s) + m);
    assert ScoreKey(s', m') == [SCORE_PREFIX] + (EncodeFloat(s') + m');
    CompareSamePrefix([SCORE_PREFIX], EncodeFloat(s) + m, EncodeFloat(s') + m');
    CompareHead(EncodeFloat(s), EncodeFloat(s'), m, m');
    CodeInjective(s, s');
  }

  lemma CodeInjective(s: Bits, s': Bits)
    ensures Code(s) == Code(s') <==> s == s'
  {
  }

  /** Scores along the index never fall. */
  ghost predicate ByCode(ks: seq<Bytes>) {
    && (forall i :: 0 <= i < |ks| ==> |ks[i]| >= 9)
    && forall i, j :: 0 <= i <= j < |ks| ==> Code(ScoreOf(ks[i])) <= Code(ScoreOf(ks[j]))
  }

  // ---------- ListByScore ----------

  function ScoreStart(min: Bits): Bytes {
    ScoreKey(min, [])
  }

  /** EncodeScoreNext. */
  function ScoreEnd(max: Bits): Bytes {
    PrefixNextSpec([SCORE_PREFIX] + EncodeFloat(max))
  }

  /** Which keys of the whole store fall between the bounds of a score scan. */
  lemma InScoreRange(store: map<Bytes, Bytes>, z: Scores, min: Bits, max: Bits, k: Bytes)
    requires Represents(store, z) && k in store
    ensures !Less(k, ScoreStart(min)) && Less(k, ScoreEnd(max)) <==>
              k[0] == SCORE_PREFIX && |k| >= 9 && Code(min) <= Code(ScoreOf(k)) <= Code(max)
    ensures !Less(k, ScoreEnd(max)) && Less(k, ScoreStart(min)) <==>
              k[0] == SCORE_PREFIX && |k| >= 9 && Code(max) < Code(ScoreOf(k)) < Code(min)
  {
    hide Code, EncodeFloat, DecodeFloat, PrefixNextSpec;
    var p := [SCORE_PREFIX] + EncodeFloat(max);
    ScoreKeyParts(max, []);
    ScoreKeyParts(min, []);
    assert p[0] == SCORE_PREFIX && |p| == 9;
    assert !AllOnes(p);
    assert IndexKey(k);
    if k[0] == MEMBER_PREFIX {
      LowerHead(k, ScoreStart(min));
      LowerHead(k, p);
      BelowScoreEnd(p, k);
    } else {
      var s, m := ScoreOf(k), MemberOf(k);
      ScoreKeySpelled(k);
      BelowPrefixNext(p, k);
      ScoreKeyParts(s, m);
      assert k[..9] == ScoreKey(s, []);
      assert p == ScoreKey(max, []);
      ScoreKeyOrder(s, m, min, []);
      ScoreKeyOrder(max, [], s, []);
      CodeInjective(s, min);
      CodeInjective(s, max);
    }
  }

  lemma LowerHead(a: Bytes, b: Bytes)
    requires a != [] && b != [] && a[0] < b[0]
    ensures Less(a, b)
  {
  }

  lemma BelowScoreEnd(p: Bytes, k: Bytes)
    requires !AllOnes(p) && Less(k, p)
    ensures Less(k, PrefixNextSpec(p))
  {
    ValueBound(p);
    AllOnesIsMaximal(p);
    BigEndianRoundTrip(Value(p) + 1, |p|);
    CompareIsNumeric(p, PrefixNextSpec(p));
    LessTransitive(k, p, PrefixNextSpec(p));
  }
}
