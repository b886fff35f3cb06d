/**
 * utils/glob/glob.go: the chunk-wise matcher, and the language it decides.
 * Characters stand for single-byte runes.
 */
module Glob {
  import opened Basics

  // ---------- the language of a pattern ----------

  datatype Matcher = AnyChar | Literal(c: char) | Class(negated: bool, ranges: seq<(char, char)>)
  datatype Token = Star | One(m: Matcher)

  predicate InRanges(ranges: seq<(char, char)>, c: char) {
    exists i :: 0 <= i < |ranges| && ranges[i].0 <= c <= ranges[i].1
  }

  predicate Accepts(m: Matcher, c: char) {
    match m
    case AnyChar => true
    case Literal(d) => c == d
    case Class(negated, ranges) => InRanges(ranges, c) != negated
  }

  /** A star stands for any string, every other token for one accepted character. */
  ghost predicate InLanguage(ts: seq<Token>, name: string)
    decreases |ts|
  {
    if ts == [] then name == ""
    else if ts[0].Star? then exists i :: 0 <= i <= |name| && InLanguage(ts[1..], name[i..])
    else name != "" && Accepts(ts[0].m, name[0]) && InLanguage(ts[1..], name[1..])
  }

  // ---------- the grammar ----------

  /** One character of a class: not '-' or ']' unless escaped, and never the last of the text. */
  function GetEsc(chunk: string): Option<(char, string)> {
    if chunk == "" || chunk[0] == '-' || chunk[0] == ']' then None
    else
      var c := if chunk[0] == '\\' then chunk[1..] else chunk;
      if |c| < 2 then None else Some((c[0], c[1..]))
  }

  function OneRange(chunk: string): Option<((char, char), string)> {
    match GetEsc(chunk)
    case None => None
    case Some((lo, rest)) =>
      if rest[0] != '-' then Some(((lo, lo), rest))
      else
        match GetEsc(rest[1..])
        case None => None
        case Some((hi, rest')) => Some(((lo, hi), rest'))
  }

  /** The ranges of a class up to and including its ']'; `first` demands at least one range. */
  function Ranges(chunk: string, first: bool): Option<(seq<(char, char)>, string)>
    decreases |chunk|
  {
    if chunk != "" && chunk[0] == ']' && !first then Some(([], chunk[1..]))
    else
      match OneRange(chunk)
      case None => None
      case Some((range, rest)) =>
        match Ranges(rest, false)
        case None => None
        case Some((ranges, end)) => Some(([range] + ranges, end))
  }

  predicate Caret(chunk: string) {
    chunk != "" && chunk[0] == '^'
  }

  function ClassAt(chunk: string): Option<(Matcher, string)> {
    match Ranges(if Caret(chunk) then chunk[1..] else chunk, true)
    case None => None
    case Some((ranges, rest)) => Some((Class(Caret(chunk), ranges), rest))
  }

  function MatcherAt(chunk: string): Option<(Matcher, string)>
    requires chunk != ""
  {
    if chunk[0] == '[' then ClassAt(chunk[1..])
    else if chunk[0] == '?' then Some((AnyChar, chunk[1..]))
    else if chunk[0] != '\\' then Some((Literal(chunk[0]), chunk[1..]))
    else if |chunk| < 2 then None
    else Some((Literal(chunk[1]), chunk[2..]))
  }

  lemma {:induction false} RangesShorter(chunk: string, first: bool)
    ensures Ranges(chunk, first).Some? ==> |Ranges(chunk, first).value.1| < |chunk|
    decreases |chunk|
  {
    var one := OneRange(chunk);
    if one.Some? && (chunk[0] != ']' || first) {
      RangesShorter(one.value.1, false);
    }
  }

  lemma MatcherShorter(chunk: string)
    requires chunk != ""
    ensures MatcherAt(chunk).Some? ==> |MatcherAt(chunk).value.1| < |chunk|
  {
    if chunk[0] == '[' {
      var c := chunk[1..];
      RangesShorter(if Caret(c) then c[1..] else c, true);
    }
  }

  /** A pattern as tokens; None when it is malformed. */
  function Tokens(pattern: string): Option<seq<Token>>
    decreases |pattern|
  {
    if pattern == "" then Some([])
    else if pattern[0] == '*' then
      match Tokens(pattern[1..])
      case None => None
      case Some(ts) => Some([Star] + ts)
    else
      MatcherShorter(pattern);
      match MatcherAt(pattern)
      case None => None
      case Some((m, rest)) =>
        match Tokens(rest)
        case None => None
        case Some(ts) => Some([One(m)] + ts)
  }

  /** A chunk as matchChunk reads it: no character is a star there. */
  function Matchers(chunk: string): Option<seq<Matcher>>
    decreases |chunk|
  {
    if chunk == "" then Some([])
    else
      MatcherShorter(chunk);
      match MatcherAt(chunk)
      case None => None
      case Some((m, rest)) =>
        match Matchers(rest)
        case None => None
        case Some(ms) => Some([m] + ms)
  }

  predicate Fits(ms: seq<Matcher>, s: string) {
    |ms| <= |s| && forall i :: 0 <= i < |ms| ==> Accepts(ms[i], s[i])
  }

  function Ones(ms: seq<Matcher>): seq<Token> {
    seq(|ms|, i requires 0 <= i < |ms| => One(ms[i]))
  }

  // ---------- matchChunk ----------

  datatype ChunkResult = BadChunk | NoMatch | Rest(s: string)

  lemma InRangesCons(range: (char, char), rest: seq<(char, char)>, r: char)
    ensures InRanges([range] + rest, r) <==> range.0 <= r <= range.1 || InRanges(rest, r)
  {
    var ranges := [range] + rest;
    assert ranges[0] == range;
    assert forall i :: 0 <= i < |rest| ==> ranges[i + 1] == rest[i];
  }

  lemma InNoRange(r: char)
    ensures !InRanges([], r)
  {
  }

  /** Reads a class after its '[' (and '^'); reports whether r is in one of its ranges. */
  method ScanRanges(chunk0: string, r: char) returns (rest: Option<string>, found: bool)
    ensures rest.None? <==> Ranges(chunk0, true).None?
    ensures rest.Some? ==> rest.value == Ranges(chunk0, true).value.1
    ensures rest.Some? ==> (found <==> InRanges(Ranges(chunk0, true).value.0, r))
  {
    hide InRanges;
    InNoRange(r);
    var chunk := chunk0;
    found := false;
    var nrange := 0;
    while true
      invariant Ranges(chunk0, true).Some? <==> Ranges(chunk, nrange == 0).Some?
      invariant Ranges(chunk0, true).Some? ==>
                  var all, left := Ranges(chunk0, true).value, Ranges(chunk, nrange == 0).value;
                  all.1 == left.1 && (InRanges(all.0, r) <==> found || InRanges(left.0, r))
      decreases |chunk|
    {
      if chunk != "" && chunk[0] == ']' && nrange > 0 {
        return Some(chunk[1..]), found;
      }
      var lo := GetEsc(chunk);
      if lo.None? {
        return None, false;
      }
      var c := lo.value.1;
      var hi := lo.value.0;
      if c[0] == '-' {
        var esc := GetEsc(c[1..]);
        if esc.None? {
          return None, false;
        }
        hi, c := esc.value.0, esc.value.1;
      }
      ghost var later := Ranges(c, false);
      if later.Some? {
        InRangesCons((lo.value.0, hi), later.value.0, r);
      }
      if lo.value.0 <= r <= hi {
        found := true;
      }
      chunk := c;
      nrange := nrange + 1;
    }
  }

  lemma FitsStep(m: Matcher, ms: seq<Matcher>, s: string)
    ensures Fits([m] + ms, s) <==> s != "" && Accepts(m, s[0]) && Fits(ms, s[1..])
  {
    var all := [m] + ms;
    if Fits(all, s) {
      forall i | 0 <= i < |ms| ensures Accepts(ms[i], s[1..][i]) {
        assert Accepts(all[i + 1], s[i + 1]);
      }
      assert Accepts(all[0], s[0]);
    }
    if s != "" && Accepts(m, s[0]) && Fits(ms, s[1..]) {
      forall i | 0 <= i < |all| ensures Accepts(all[i], s[i]) {
        if i > 0 { assert Accepts(ms[i - 1], s[1..][i - 1]); }
      }
    }
  }

  /** Keeps reading the chunk after a mismatch, so that a malformed chunk is always reported. */
  method MatchChunk(chunk0: string, s0: string) returns (res: ChunkResult)
    ensures res.BadChunk? <==> Matchers(chunk0).None?
    ensures Matchers(chunk0).Some? ==>
              var ms := Matchers(chunk0).value;
              res == if Fits(ms, s0) then Rest(s0[|ms|..]) else NoMatch
  {
    var chunk, s, failed := chunk0, s0, false;
    while chunk != ""
      invariant Matchers(chunk0).Some? <==> Matchers(chunk).Some?
      invariant Matchers(chunk0).Some? ==>
                  var all, left := Matchers(chunk0).value, Matchers(chunk).value;
                  && |left| <= |all|
                  && (Fits(all, s0) <==> !failed && Fits(left, s))
                  && (!failed ==> |all| - |left| <= |s0| && s == s0[|all| - |left|..])
      decreases |chunk|
    {
      ghost var at := MatcherAt(chunk);
      if at.Some? && Matchers(at.value.1).Some? {
        FitsStep(at.value.0, Matchers(at.value.1).value, s);
      }
      MatcherShorter(chunk);
      if !failed && s == "" {
        failed := true;
      }
      if chunk[0] == '[' {
        var r := '\0';
        if !failed {
          r := s[0];
          s := s[1..];
        }
        chunk := chunk[1..];
        var negated := false;
        if chunk != "" && chunk[0] == '^' {
          negated := true;
          chunk := chunk[1..];
        }
        var rest, found := ScanRanges(chunk, r);
        if rest.None? {
          return BadChunk;
        }
        chunk := rest.value;
        if found == negated {
          failed := true;
        }
      } else if chunk[0] == '?' {
        if !failed {
          s := s[1..];
        }
        chunk := chunk[1..];
      } else {
        if chunk[0] == '\\' {
          chunk := chunk[1..];
          if chunk == "" {
            return BadChunk;
          }
        }
        if !failed {
          if chunk[0] != s[0] {
            failed := true;
          }
          s := s[1..];
        }
        chunk := chunk[1..];
      }
    }
    res := if failed then NoMatch else Rest(s);
  }

  // ---------- scanChunk ----------

  /** Where the scan for the end of a chunk stops, starting inside or outside a class. */
  function ChunkEnd(p: string, inrange: bool): (n: nat)
    ensures n <= |p|
  {
    if p == "" then 0
    else if p[0] == '\\' then (if |p| == 1 then 1 else 2 + ChunkEnd(p[2..], inrange))
    else if p[0] == '[' then 1 + ChunkEnd(p[1..], true)
    else if p[0] == ']' then 1 + ChunkEnd(p[1..], false)
    else if p[0] == '*' && !inrange then 0
    else 1 + ChunkEnd(p[1..], inrange)
  }

  function SkipStars(p: string): string {
    if p != "" && p[0] == '*' then SkipStars(p[1..]) else p
  }

  method ScanChunk(pattern0: string) returns (star: bool, chunk: string, rest: string)
    ensures star <==> pattern0 != "" && pattern0[0] == '*'
    ensures chunk + rest == SkipStars(pattern0)
    ensures |chunk| == ChunkEnd(SkipStars(pattern0), false)
  {
    var pattern := pattern0;
    star := false;
    while pattern != "" && pattern[0] == '*'
      invariant SkipStars(pattern) == SkipStars(pattern0)
      invariant star || pattern == pattern0
      invariant star ==> pattern0 != "" && pattern0[0] == '*'
      decreases |pattern|
    {
      pattern := pattern[1..];
      star := true;
    }
    var inrange := false;
    var i := 0;
    while i < |pattern|
      invariant 0 <= i <= |pattern|
      invariant ChunkEnd(pattern, false) == i + ChunkEnd(pattern[i..], inrange)
    {
      if pattern[i] == '*' && !inrange {
        break;
      }
      match pattern[i] {
        case '\\' =>
          if i + 1 < |pattern| {
            assert pattern[i..][2..] == pattern[i + 2..];
            i := i + 1;
          }
        case '[' => inrange := true;
        case ']' => inrange := false;
        case _ =>
      }
      assert i + 1 < |pattern| ==> pattern[i..][1..] == pattern[i + 1..];
      i := i + 1;
    }
    chunk, rest := pattern[..i], pattern[i..];
  }

  // ---------- a chunk is exactly the tokens up to the next star ----------

  lemma EscSplit(x: string, y: string)
    ensures GetEsc(x).Some? ==>
              GetEsc(x + y) == Some((GetEsc(x).value.0, GetEsc(x).value.1 + y))
    ensures GetEsc(x + y).Some? && |GetEsc(x + y).value.1| > |y| ==> GetEsc(x).Some?
  {
    assert |x| > 0 ==> (x + y)[1..] == x[1..] + y;
    assert |x| > 1 ==> (x + y)[2..] == x[2..] + y && x[1..][1..] == x[2..];
    assert |x| > 1 ==> (x + y)[1..][1..] == x[2..] + y;
  }

  lemma RangeSplit(x: string, y: string)
    ensures OneRange(x).Some? && OneRange(x).value.1 != "" ==>
              OneRange(x + y) == Some((OneRange(x).value.0, OneRange(x).value.1 + y))
    ensures OneRange(x + y).Some? && |OneRange(x + y).value.1| > |y| ==> OneRange(x).Some?
  {
    EscSplit(x, y);
    var e := GetEsc(x);
    if e.Some? {
      assert (e.value.1 + y)[1..] == e.value.1[1..] + y;
      EscSplit(e.value.1[1..], y);
    }
  }

  /** Text after a class does not change how the class is read. */
  lemma {:induction false} RangesSplit(x: string, y: string, first: bool)
    ensures Ranges(x, first).Some? ==>
              Ranges(x + y, first) == Some((Ranges(x, first).value.0, Ranges(x, first).value.1 + y))
    ensures Ranges(x + y, first).Some? && |Ranges(x + y, first).value.1| >= |y| ==> Ranges(x, first).Some?
    decreases |x|
  {
    assert |x| > 0 ==> (x + y)[1..] == x[1..] + y;
    RangeSplit(x, y);
    if OneRange(x).Some? {
      RangesSplit(OneRange(x).value.1, y, false);
      RangesShorter(OneRange(x).value.1, false);
    }
    if OneRange(x + y).Some? {
      RangesShorter(OneRange(x + y).value.1, false);
    }
  }

  /** While a class is being read the chunk scan stays in range; the class's ']' leaves it. */
  lemma EscScanned(p: string)
    requires GetEsc(p).Some?
    ensures var q := GetEsc(p).value.1;
            |q| <= |p| && ChunkEnd(p, true) == |p| - |q| + ChunkEnd(q, true)
  {
    if p[0] == '\\' {
      assert p[1..][1..] == p[2..];
    }
  }

  lemma {:induction false} ClassScanned(p: string, first: bool)
    requires Ranges(p, first).Some?
    ensures var q := Ranges(p, first).value.1;
            |q| <= |p| && ChunkEnd(p, true) == |p| - |q| + ChunkEnd(q, false)
    decreases |p|
  {
    if p == "" || p[0] != ']' || first {
      var e := GetEsc(p).value;
      EscScanned(p);
      if e.1[0] == '-' {
        EscScanned(e.1[1..]);
      }
      ClassScanned(OneRange(p).value.1, false);
    }
  }

  lemma ClassSplit(x: string, y: string)
    ensures ClassAt(x).Some? ==> ClassAt(x + y) == Some((ClassAt(x).value.0, ClassAt(x).value.1 + y))
    ensures ClassAt(x + y).Some? && |ClassAt(x + y).value.1| >= |y| ==> ClassAt(x).Some?
  {
    if x == "" {
      RangesSplit(x, y, true);
      RangesShorter(x + y, true);
      if Caret(x + y) {
        RangesShorter((x + y)[1..], true);
      }
    } else {
      assert (x + y)[1..] == x[1..] + y;
      RangesSplit(if Caret(x) then x[1..] else x, y, true);
    }
  }

  lemma ClassInChunk(c: string)
    ensures var n := ChunkEnd(c, true);
            && (ClassAt(c).Some? <==> ClassAt(c[..n]).Some?)
            && (ClassAt(c).Some? ==>
                  var q, k := ClassAt(c).value.1, ChunkEnd(ClassAt(c).value.1, false);
                  && |q| <= |c| && n == |c| - |q| + k
                  && ClassAt(c[..n]).value.0 == ClassAt(c).value.0
                  && ClassAt(c[..n]).value.1 + c[n..] == q)
  {
    hide ClassAt, ChunkEnd;
    var n := ChunkEnd(c, true);
    var x, y := c[..n], c[n..];
    assert c == x + y;
    ClassSplit(x, y);
    if ClassAt(c).Some? {
      ClassAtScanned(c);
    }
  }

  lemma ClassAtScanned(c: string)
    requires ClassAt(c).Some?
    ensures var q := ClassAt(c).value.1;
            |q| <= |c| && ChunkEnd(c, true) == |c| - |q| + ChunkEnd(q, false)
  {
    hide Ranges;
    ClassScanned(if Caret(c) then c[1..] else c, true);
  }

  /** Reading the first matcher of p commutes with cutting p at its chunk end. */
  ghost predicate CutsAlike(p: string)
    requires p != ""
  {
    var n := ChunkEnd(p, false);
    && n > 0
    && (MatcherAt(p).Some? <==> MatcherAt(p[..n]).Some?)
    && (MatcherAt(p).Some? ==>
          var q, k := MatcherAt(p).value.1, ChunkEnd(MatcherAt(p).value.1, false);
          && |q| <= |p| && n == |p| - |q| + k
          && MatcherAt(p[..n]).value.0 == MatcherAt(p).value.0
          && MatcherAt(p[..n]).value.1 + p[n..] == q)
  }

  lemma MatcherInChunk(p: string)
    requires p != "" && p[0] != '*'
    ensures CutsAlike(p)
  {
    hide *;
    if p[0] == '[' {
      ClassCutsAlike(p);
    } else if p[0] == '\\' {
      EscapeCutsAlike(p);
    } else {
      CharCutsAlike(p);
    }
  }

  lemma ClassCutsAlike(p: string)
    requires p != "" && p[0] == '['
    ensures CutsAlike(p)
  {
    hide ClassAt;
    var n := ChunkEnd(p, false);
    assert p[..n][1..] == p[1..][..n - 1] && p[n..] == p[1..][n - 1..];
    ClassInChunk(p[1..]);
  }

  lemma EscapeCutsAlike(p: string)
    requires p != "" && p[0] == '\\'
    ensures CutsAlike(p)
  {
    hide ClassAt;
    if |p| > 1 {
      var n := ChunkEnd(p, false);
      assert p[1..][1..] == p[2..] && n == 2 + ChunkEnd(p[2..], false);
      assert p[..n][2..] + p[n..] == p[2..];
    }
  }

  lemma CharCutsAlike(p: string)
    requires p != "" && p[0] != '[' && p[0] != '\\' && p[0] != '*'
    ensures CutsAlike(p)
  {
    hide ClassAt;
    var n := ChunkEnd(p, false);
    assert p[..n][1..] + p[n..] == p[1..];
  }

  lemma {:induction false} OnesCons(m: Matcher, ms: seq<Matcher>, ts: seq<Token>)
    ensures Ones([m] + ms) + ts == [One(m)] + (Ones(ms) + ts)
  {
  }

  /** Cutting at the chunk end cuts the token list before its first star. */
  lemma {:induction false} ChunkTokens(p: string)
    requires p == "" || p[0] != '*'
    ensures var n := ChunkEnd(p, false);
            && (n < |p| ==> p[n] == '*')
            && (Tokens(p).Some? <==> Matchers(p[..n]).Some? && Tokens(p[n..]).Some?)
            && (Tokens(p).Some? ==>
                  Tokens(p).value == Ones(Matchers(p[..n]).value) + Tokens(p[n..]).value)
            && (p != "" ==> n > 0)
    decreases |p|
  {
    if p != "" {
      var n := ChunkEnd(p, false);
      MatcherInChunk(p);
      MatcherShorter(p);
      if MatcherAt(p).Some? {
        var (m, q) := MatcherAt(p).value;
        var kk := ChunkEnd(q, false);
        assert |MatcherAt(p[..n]).value.1| == kk && p[n..] == q[kk..] && MatcherAt(p[..n]).value.1 == q[..kk];
        if q == "" || q[0] != '*' {
          ChunkTokens(q);
        } else {
          assert ChunkEnd(q, false) == 0 && q[..0] == "" && q[0..] == q;
        }
        if Tokens(p).Some? {
          var k := ChunkEnd(q, false);
          OnesCons(m, Matchers(q[..k]).value, Tokens(q[k..]).value);
          assert q[..k] == "" ==> Ones([]) + Tokens(q[k..]).value == Tokens(q[k..]).value;
        }
      } else {
        ChunkEndsAtStar(p, false);
      }
    }
  }

  lemma {:induction false} ChunkEndsAtStar(p: string, inrange: bool)
    ensures ChunkEnd(p, inrange) < |p| ==> p[ChunkEnd(p, inrange)] == '*'
    decreases |p|
  {
    if p != "" {
      if p[0] == '\\' {
        if |p| > 1 { ChunkEndsAtStar(p[2..], inrange); }
      } else if p[0] == '[' {
        ChunkEndsAtStar(p[1..], true);
      } else if p[0] == ']' {
        ChunkEndsAtStar(p[1..], false);
      } else if p[0] != '*' || inrange {
        ChunkEndsAtStar(p[1..], inrange);
      }
    }
  }

  lemma {:induction false} SkipStarsTokens(p: string)
    ensures var q := SkipStars(p);
            && (q == "" || q[0] != '*')
            && |q| <= |p|
            && (Tokens(p).Some? <==> Tokens(q).Some?)
            && (p != "" && p[0] == '*' ==> |q| < |p|)
            && (Tokens(p).Some? ==>
                  forall name :: InLanguage(Tokens(p).value, name) <==>
                    if p != "" && p[0] == '*' then InLanguage([Star] + Tokens(q).value, name)
                    else InLanguage(Tokens(q).value, name))
  {
    if p != "" && p[0] == '*' {
      SkipStarsTokens(p[1..]);
      if Tokens(p).Some? && p[1..] != "" && p[1] == '*' {
        var ts := Tokens(SkipStars(p)).value;
        forall name
          ensures InLanguage(Tokens(p).value, name) <==> InLanguage([Star] + ts, name)
        {
          assert forall s :: InLanguage(Tokens(p[1..]).value, s) <==> InLanguage([Star] + ts, s);
          StarTwice(Tokens(p[1..]).value, ts, name);
        }
      }
    }
  }

  // ---------- the language, chunk by chunk ----------

  lemma StarSplits(ts: seq<Token>, name: string)
    ensures InLanguage([Star] + ts, name) <==> exists i :: 0 <= i <= |name| && InLanguage(ts, name[i..])
  {
    assert ([Star] + ts)[1..] == ts;
  }

  lemma StarTwice(ss: seq<Token>, ts: seq<Token>, name: string)
    requires forall s :: InLanguage(ss, s) <==> InLanguage([Star] + ts, s)
    ensures InLanguage([Star] + ss, name) <==> InLanguage([Star] + ts, name)
  {
    StarSplits(ss, name);
    StarSplits(ts, name);
    if InLanguage([Star] + ss, name) {
      var i :| 0 <= i <= |name| && InLanguage(ss, name[i..]);
      StarSplits(ts, name[i..]);
      var j :| 0 <= j <= |name[i..]| && InLanguage(ts, name[i..][j..]);
      assert name[i..][j..] == name[i + j..];
    }
    if InLanguage([Star] + ts, name) {
      assert name[0..] == name;
      assert InLanguage(ss, name[0..]);
    }
  }

  lemma {:induction false} ChunkThenRest(ms: seq<Matcher>, ts: seq<Token>, name: string)
    ensures InLanguage(Ones(ms) + ts, name) <==> Fits(ms, name) && InLanguage(ts, name[|ms|..])
    decreases |ms|
  {
    if ms == [] {
      assert Ones(ms) + ts == ts && name[0..] == name;
    } else {
      assert ms == [ms[0]] + ms[1..];
      OnesCons(ms[0], ms[1..], ts);
      FitsStep(ms[0], ms[1..], name);
      if name != "" {
        ChunkThenRest(ms[1..], ts, name[1..]);
        assert |ms| <= |name| ==> name[1..][|ms| - 1..] == name[|ms|..];
      }
    }
  }

  /** A leading star absorbs characters put in front of the name. */
  lemma StarAbsorbs(ts: seq<Token>, name: string, i: nat, j: nat)
    requires ts != [] && ts[0] == Star
    requires i <= j <= |name| && InLanguage(ts, name[j..])
    ensures InLanguage(ts, name[i..])
  {
    var k :| 0 <= k <= |name[j..]| && InLanguage(ts[1..], name[j..][k..]);
    assert name[j..][k..] == name[i..][j - i + k..];
  }

  /** A chunk, starred or not, followed by the tokens ts. */
  function ChunkFirst(star: bool, ms: seq<Matcher>, ts: seq<Token>): seq<Token> {
    (if star then [Star] else []) + (Ones(ms) + ts)
  }

  ghost predicate Placed(ms: seq<Matcher>, ts: seq<Token>, name: string, i: nat)
    requires i <= |name|
  {
    Fits(ms, name[i..]) && InLanguage(ts, name[i + |ms|..])
  }

  lemma ChunkFirstSplits(star: bool, ms: seq<Matcher>, ts: seq<Token>, name: string)
    ensures InLanguage(ChunkFirst(star, ms, ts), name) <==>
              exists i :: 0 <= i <= (if star then |name| else 0) && Placed(ms, ts, name, i)
  {
    var us := Ones(ms) + ts;
    forall i | 0 <= i <= |name|
      ensures InLanguage(us, name[i..]) <==> Placed(ms, ts, name, i)
    {
      ChunkThenRest(ms, ts, name[i..]);
      assert |ms| <= |name[i..]| ==> name[i..][|ms|..] == name[i + |ms|..];
    }
    if star {
      StarSplits(us, name);
    } else {
      assert [] + us == us && name[0..] == name;
    }
  }

  lemma EarlierPlacement(ms: seq<Matcher>, ts: seq<Token>, name: string, j: nat, i: nat)
    requires ts != [] && ts[0] == Star
    requires j <= i <= |name| && Fits(ms, name[j..]) && Placed(ms, ts, name, i)
    ensures Placed(ms, ts, name, j)
  {
    StarAbsorbs(ts, name, j + |ms|, i + |ms|);
  }

  /** A placement Match settles for: the last chunk must also use up the name. */
  ghost predicate Acceptable(ms: seq<Matcher>, last: bool, name: string, i: nat)
    requires i <= |name|
  {
    Fits(ms, name[i..]) && (last ==> i + |ms| == |name|)
  }

  /** The leftmost acceptable placement loses no match: what follows it starts with a star. */
  lemma LeftmostIsEnough(star: bool, ms: seq<Matcher>, ts: seq<Token>, name: string, j: nat, last: bool)
    requires last <==> ts == []
    requires !last ==> ts[0] == Star
    requires j <= (if star then |name| else 0) && Acceptable(ms, last, name, j)
    requires forall i :: 0 <= i < j ==> !Acceptable(ms, last, name, i)
    ensures InLanguage(ChunkFirst(star, ms, ts), name) <==> InLanguage(ts, name[j + |ms|..])
  {
    ChunkFirstSplits(star, ms, ts, name);
    forall i | 0 <= i <= |name| && Placed(ms, ts, name, i)
      ensures Placed(ms, ts, name, j)
    {
      PlacedIsAcceptable(ms, ts, name, i, last);
      if !last {
        EarlierPlacement(ms, ts, name, j, i);
      }
    }
    assert Placed(ms, ts, name, j) <==> InLanguage(ts, name[j + |ms|..]);
  }

  lemma PlacedIsAcceptable(ms: seq<Matcher>, ts: seq<Token>, name: string, i: nat, last: bool)
    requires last <==> ts == []
    requires i <= |name| && Placed(ms, ts, name, i)
    ensures Acceptable(ms, last, name, i)
  {
  }

  lemma NoPlacement(star: bool, ms: seq<Matcher>, ts: seq<Token>, name: string, last: bool)
    requires last <==> ts == []
    requires forall i :: 0 <= i <= (if star then |name| else 0) ==> !Acceptable(ms, last, name, i)
    ensures !InLanguage(ChunkFirst(star, ms, ts), name)
  {
    ChunkFirstSplits(star, ms, ts, name);
    forall i | 0 <= i <= (if star then |name| else 0)
      ensures !Placed(ms, ts, name, i)
    {
      if Placed(ms, ts, name, i) {
        PlacedIsAcceptable(ms, ts, name, i, last);
      }
    }
  }

  datatype Outcome = BadPattern | Answer(matched: bool)

  ghost predicate Matches(pattern: string, name: string) {
    Tokens(pattern).Some? && InLanguage(Tokens(pattern).value, name)
  }

  /** One round of Match: the scanned chunk first, then the rest of the pattern. */
  lemma ScannedTokens(p: string, chunk: string, rest: string)
    requires chunk + rest == SkipStars(p) && |chunk| == ChunkEnd(SkipStars(p), false)
    requires p != ""
    ensures |rest| < |p| && (chunk == "" ==> rest == "")
    ensures Tokens(rest).Some? ==>
              (Tokens(rest).value == [] <==> rest == "") && (rest != "" ==> Tokens(rest).value[0] == Star)
    ensures Tokens(p).Some? <==> Matchers(chunk).Some? && Tokens(rest).Some?
    ensures Tokens(p).Some? ==>
              forall name :: Matches(p, name) <==>
                InLanguage(ChunkFirst(p[0] == '*', Matchers(chunk).value, Tokens(rest).value), name)
  {
    var q := SkipStars(p);
    SkipStarsTokens(p);
    ChunkTokens(q);
    assert chunk == q[..|chunk|] && rest == q[|chunk|..];
    if Tokens(p).Some? {
      assert [] + Tokens(q).value == Tokens(q).value;
    }
  }

  /** The inner loop of Match: tries a starred chunk one character further each time. */
  method SkipTo(chunk: string, name: string, last: bool) returns (t: ChunkResult, ghost j: nat)
    requires Matchers(chunk).Some? && !Acceptable(Matchers(chunk).value, last, name, 0)
    ensures !t.BadChunk? && j <= |name|
    ensures t.Rest? ==> Acceptable(Matchers(chunk).value, last, name, j)
    ensures t.Rest? ==> t.s == name[j + |Matchers(chunk).value|..]
    ensures forall k :: 0 <= k < j ==> !Acceptable(Matchers(chunk).value, last, name, k)
    ensures t.NoMatch? ==> !Acceptable(Matchers(chunk).value, last, name, j) && j == |name|
  {
    hide Matchers, Accepts;
    ghost var ms := Matchers(chunk).value;
    var i := 0;
    while i < |name|
      invariant 0 <= i <= |name|
      invariant forall k :: 0 <= k <= i ==> !Acceptable(ms, last, name, k)
    {
      t := MatchChunk(chunk, name[i + 1..]);
      if t.Rest? {
        assert t.s == name[i + 1..][|ms|..] == name[i + 1 + |ms|..];
        if !last || t.s == "" {
          j := i + 1;
          return;
        }
      }
      i := i + 1;
    }
    t, j := NoMatch, i;
  }

  /**
   * Match answers true exactly for the well-formed patterns whose language holds the name, and
   * reports an error only for malformed ones.
   */
  method Match(pattern0: string, name0: string) returns (out: Outcome)
    ensures out.BadPattern? ==> Tokens(pattern0).None?
    ensures out.Answer? ==> (out.matched <==> Matches(pattern0, name0))
  {
    hide Ones, ChunkFirst, SkipStars, ChunkEnd, MatcherAt;
    var pattern, name := pattern0, name0;
    while pattern != ""
      invariant Tokens(pattern0).Some? <==> Tokens(pattern).Some?
      invariant Matches(pattern0, name0) <==> Matches(pattern, name)
      decreases |pattern|
    {
      var star, chunk, rest := ScanChunk(pattern);
      ScannedTokens(pattern, chunk, rest);
      pattern := rest;
      if star && chunk == "" {
        StarMatchesAll(name);
        return Answer(true);
      }
      var t := MatchChunk(chunk, name);
      if t.BadChunk? {
        return BadPattern;
      }
      ghost var ms, j := Matchers(chunk).value, 0;
      assert name[0..] == name;
      assert t.Rest? <==> Acceptable(ms, false, name, 0);
      if !(t.Rest? && (t.s == "" || pattern != "")) {
        if !star {
          if Tokens(rest).Some? {
            NoPlacement(star, ms, Tokens(rest).value, name, rest == "");
          }
          return Answer(false);
        }
        t, j := SkipTo(chunk, name, pattern == "");
        if t.NoMatch? {
          if Tokens(rest).Some? {
            NoPlacement(star, ms, Tokens(rest).value, name, rest == "");
          }
          return Answer(false);
        }
      }
      if Tokens(rest).Some? {
        LeftmostIsEnough(star, ms, Tokens(rest).value, name, j, rest == "");
      }
      name := t.s;
    }
    out := Answer(name == "");
  }

  lemma StarMatchesAll(name: string)
    ensures InLanguage(ChunkFirst(true, [], []), name)
  {
    ChunkFirstSplits(true, [], [], name);
    assert Placed([], [], name, |name|);
  }

  // ---------- Prefix ----------

  predicate Special(c: char) {
    c == '*' || c == '?' || c == '[' || c == ']'
  }

  /** The text before the first special character, or "" when the pattern has none. */
  method Prefix(pattern: string) returns (prefix: string)
    ensures prefix == PrefixOf(pattern)
  {
    var i := 0;
    while i < |pattern|
      invariant 0 <= i <= |pattern|
      invariant FirstSpecial(pattern) == i + FirstSpecial(pattern[i..])
    {
      if Special(pattern[i]) {
        return pattern[..i];
      }
      assert pattern[i..][1..] == pattern[i + 1..];
      i := i + 1;
    }
    prefix := "";
  }

  function FirstSpecial(pattern: string): (n: nat)
    ensures n <= |pattern|
  {
    if pattern == "" || Special(pattern[0]) then 0 else 1 + FirstSpecial(pattern[1..])
  }

  function PrefixOf(pattern: string): string {
    var n := FirstSpecial(pattern);
    if n == |pattern| then "" else pattern[..n]
  }

  lemma {:induction false} PlainHead(pattern: string, name: string, n: nat)
    requires Matches(pattern, name)
    requires n <= |pattern| && forall i :: 0 <= i < n ==> !Special(pattern[i]) && pattern[i] != '\\'
    ensures n <= |name| && name[..n] == pattern[..n]
    ensures Matches(pattern[n..], name[n..])
    decreases n
  {
    if n == 0 {
      assert name[0..] == name && pattern[0..] == pattern;
    } else {
      var p, s := pattern[1..], name[1..];
      assert Tokens(pattern).value[1..] == Tokens(p).value;
      PlainHead(p, s, n - 1);
      assert p[n - 1..] == pattern[n..] && s[n - 1..] == name[n..];
      assert name[..n] == [name[0]] + s[..n - 1] && pattern[..n] == [pattern[0]] + p[..n - 1];
    }
  }

  lemma {:induction false} FirstSpecialIsFirst(pattern: string, i: nat)
    requires i < FirstSpecial(pattern)
    ensures !Special(pattern[i])
    decreases i
  {
    if i > 0 {
      FirstSpecialIsFirst(pattern[1..], i - 1);
    }
  }

  /** Every matching name starts with the narrowing prefix, when no escape occurs in it. */
  lemma NarrowingIsSound(pattern: string, name: string)
    requires Matches(pattern, name) && '\\' !in PrefixOf(pattern)
    ensures PrefixOf(pattern) <= name
  {
    var n := |PrefixOf(pattern)|;
    forall i | 0 <= i < n ensures !Special(pattern[i]) && pattern[i] != '\\' {
      FirstSpecialIsFirst(pattern, i);
      assert PrefixOf(pattern)[i] == pattern[i];
    }
    PlainHead(pattern, name, n);
  }

  // ---------- narrowing by a prefix with backslashes ----------

  function Slashes(k: nat): (r: string)
    ensures |r| == k && forall i :: 0 <= i < k ==> r[i] == '\\'
  {
    seq(k, _ => '\\')
  }

  /** How many backslashes a text begins with. */
  function Run(p: string): (n: nat)
    ensures n <= |p| && (forall i :: 0 <= i < n ==> p[i] == '\\') && (n < |p| ==> p[n] != '\\')
  {
    if p == "" || p[0] != '\\' then 0 else 1 + Run(p[1..])
  }

  /** How many it ends with. */
  function TailRun(p: string): (n: nat)
    ensures n <= |p| && (forall i :: |p| - n <= i < |p| ==> p[i] == '\\') && (n < |p| ==> p[|p| - n - 1] != '\\')
  {
    if p == "" || p[|p| - 1] != '\\' then 0 else 1 + TailRun(p[..|p| - 1])
  }

  lemma {:induction false} PairsMatch(p: string, name: string, k: nat)
    requires Matches(p, name) && 2 * k <= |p| && forall i :: 0 <= i < 2 * k ==> p[i] == '\\'
    ensures k <= |name| && name[..k] == Slashes(k) && Matches(p[2 * k..], name[k..])
    decreases k
  {
    hide Matches, Slashes;
    if k == 0 {
      assert name[0..] == name && p[0..] == p;
    } else {
      EscapedHead(p, name);
      var q, s := p[2..], name[1..];
      PairsMatch(q, s, k - 1);
      assert q[2 * (k - 1)..] == p[2 * k..] && s[k - 1..] == name[k..];
      assert name[..k] == [name[0]] + s[..k - 1];
    }
  }

  /** Backslashes escape one another in pairs; an odd one escapes what comes next. */
  lemma RunMatches(p: string, name: string, k: nat)
    requires Matches(p, name) && (Run(p) == 2 * k || Run(p) == 2 * k + 1)
    ensures k <= |name| && name[..k] == Slashes(k) && Matches(p[2 * k..], name[k..])
    ensures Run(p) == 2 * k + 1 ==> 2 * k + 1 < |p| && k < |name| && name[k] == p[2 * k + 1]
  {
    hide Matches, Slashes;
    PairsMatch(p, name, k);
    if Run(p) == 2 * k + 1 {
      EscapedHead(p[2 * k..], name[k..]);
    }
  }

  lemma EscapedHead(p: string, name: string)
    requires Matches(p, name) && p != "" && p[0] == '\\'
    ensures |p| >= 2 && name != "" && name[0] == p[1] && Matches(p[2..], name[1..])
  {
    assert MatcherAt(p) == Some((Literal(p[1]), p[2..]));
    assert Tokens(p).value[1..] == Tokens(p[2..]).value;
  }

  lemma {:induction false} RunBack(p: string, k: nat, name: string)
    requires 2 * k <= |p| && p[..2 * k] == Slashes(2 * k) && Matches(p[2 * k..], name)
    ensures Matches(p, Slashes(k) + name)
    decreases k
  {
    hide Matches, Slashes, ClassAt;
    if k == 0 {
      assert p[0..] == p && Slashes(0) + name == name;
    } else {
      var q := p[2..];
      assert p[0] == p[..2 * k][0] && p[1] == p[..2 * k][1];
      assert q[..2 * (k - 1)] == p[..2 * k][2..] == Slashes(2 * (k - 1)) && q[2 * (k - 1)..] == p[2 * k..];
      RunBack(q, k - 1, name);
      assert Slashes(k) + name == ['\\'] + (Slashes(k - 1) + name);
      Prepended(p, Literal('\\'), q, '\\', Slashes(k - 1) + name);
    }
  }

  lemma Prepended(p: string, m: Matcher, q: string, c: char, name: string)
    requires p != "" && p[0] != '*' && MatcherAt(p) == Some((m, q)) && Accepts(m, c) && Matches(q, name)
    ensures Matches(p, [c] + name)
  {
    assert Tokens(p).value == [One(m)] + Tokens(q).value;
    assert ([c] + name)[1..] == name && ([One(m)] + Tokens(q).value)[1..] == Tokens(q).value;
  }

  lemma {:induction false} PlainBack(p: string, n: nat, name: string)
    requires n <= |p| && forall i :: 0 <= i < n ==> !Special(p[i]) && p[i] != '\\'
    requires Matches(p[n..], name)
    ensures Matches(p, p[..n] + name)
    decreases n
  {
    if n == 0 {
      assert p[0..] == p && p[..0] + name == name;
    } else {
      var q := p[1..];
      assert q[n - 1..] == p[n..];
      PlainBack(q, n - 1, name);
      assert p[..n] + name == [p[0]] + (q[..n - 1] + name);
      Prepended(p, Literal(p[0]), q, p[0], q[..n - 1] + name);
    }
  }

  /** Names of characters up to the greatest one there is; for names of bytes that is 255. */
  predicate Over(name: string, top: char) {
    forall i :: 0 <= i < |name| ==> name[i] <= top
  }

  /** The first k characters can only be backslashes. */
  ghost predicate OnlySlashes(ts: seq<Token>, k: nat, top: char) {
    k == 0 || (ts != [] && ts[0].One? && (forall c :: c <= top && Accepts(ts[0].m, c) ==> c == '\\') && OnlySlashes(ts[1..], k - 1, top))
  }

  lemma {:induction false} OnlySlashesMatch(ts: seq<Token>, k: nat, top: char, name: string)
    requires OnlySlashes(ts, k, top) && InLanguage(ts, name) && Over(name, top)
    ensures Slashes(k) <= name
    decreases k
  {
    if k > 0 {
      OnlySlashesMatch(ts[1..], k - 1, top, name[1..]);
      assert name == [name[0]] + name[1..] && Slashes(k) == ['\\'] + Slashes(k - 1);
    }
  }

  /** Otherwise a match can be changed to begin with something else. */
  lemma {:induction false} OtherMatch(ts: seq<Token>, k: nat, top: char, name: string) returns (other: string)
    requires !OnlySlashes(ts, k, top) && InLanguage(ts, name) && Over(name, top) && 'a' <= top
    ensures InLanguage(ts, other) && !(Slashes(k) <= other) && Over(other, top)
    decreases k
  {
    if ts == [] {
      other := "";
    } else if ts[0].Star? {
      other := ['a'] + name;
      var i :| 0 <= i <= |name| && InLanguage(ts[1..], name[i..]);
      assert other[i + 1..] == name[i..];
      assert other[0] != Slashes(k)[0];
    } else if c :| c <= top && Accepts(ts[0].m, c) && c != '\\' {
      other := [c] + name[1..];
      assert other[1..] == name[1..] && other[0] != Slashes(k)[0];
    } else {
      var rest := OtherMatch(ts[1..], k - 1, top, name[1..]);
      other := [name[0]] + rest;
      assert other[1..] == rest;
      SlashesPush(k, name[0], rest);
    }
  }

  lemma SlashesPush(k: nat, c: char, rest: string)
    requires k > 0
    ensures Slashes(k) <= [c] + rest ==> Slashes(k - 1) <= rest
  {
    if Slashes(k) <= [c] + rest {
      assert ([c] + rest)[..k][1..] == rest[..k - 1] && Slashes(k)[1..] == Slashes(k - 1);
    }
  }

  /** The prefix without the backslashes it ends with. */
  function Plain(pattern: string): string {
    PrefixOf(pattern)[..|PrefixOf(pattern)| - TailRun(PrefixOf(pattern))]
  }

  /** Backslashes stand only at the end of the prefix, in pairs. */
  predicate PairsAtEnd(pattern: string) {
    '\\' !in Plain(pattern) && TailRun(PrefixOf(pattern)) % 2 == 0
  }

  lemma PlainIs(pattern: string)
    ensures '\\' !in Plain(pattern) ==>
              forall i :: 0 <= i < |Plain(pattern)| ==> !Special(pattern[i]) && pattern[i] != '\\'
    ensures |Plain(pattern)| <= |pattern| && Plain(pattern) == pattern[..|Plain(pattern)|]
    ensures PrefixOf(pattern) == Plain(pattern) + Slashes(TailRun(PrefixOf(pattern)))
    ensures PrefixOf(pattern) <= pattern
  {
    var n := |PrefixOf(pattern)|;
    forall i | 0 <= i < n ensures !Special(pattern[i]) && pattern[i] == PrefixOf(pattern)[i] {
      FirstSpecialIsFirst(pattern, i);
    }
    forall i | 0 <= i < |Plain(pattern)| && '\\' !in Plain(pattern) ensures pattern[i] != '\\' {
      assert Plain(pattern)[i] == pattern[i];
    }
  }

  /** What follows the prefix is no backslash, for it is a special character. */
  lemma AfterPrefix(pattern: string)
    requires PrefixOf(pattern) != ""
    ensures |PrefixOf(pattern)| < |pattern| && Special(pattern[|PrefixOf(pattern)|])
  {
    FirstSpecialIsSpecial(pattern);
  }

  lemma {:induction false} FirstSpecialIsSpecial(pattern: string)
    ensures FirstSpecial(pattern) < |pattern| ==> Special(pattern[FirstSpecial(pattern)])
  {
    if pattern != "" && !Special(pattern[0]) {
      FirstSpecialIsSpecial(pattern[1..]);
    }
  }

  lemma {:induction false} RunIs(q: string, n: nat)
    requires n <= |q| && q[..n] == Slashes(n) && (n < |q| ==> q[n] != '\\')
    ensures Run(q) == n
  {
    assert forall i :: 0 <= i < n ==> q[i] == q[..n][i];
  }

  /** What matches such a pattern: the text before the backslashes, half of them, and the rest. */
  lemma PairedHead(pattern: string, name: string)
    requires PairsAtEnd(pattern)
    ensures var w, k, n := Plain(pattern), TailRun(PrefixOf(pattern)) / 2, |PrefixOf(pattern)|;
            && n == |w| + 2 * k <= |pattern|
            && (Matches(pattern[n..], name) ==> Matches(pattern, w + (Slashes(k) + name)))
  {
    hide Matches, Slashes, TailRun, PrefixOf, Plain;
    var w, k, n := Plain(pattern), TailRun(PrefixOf(pattern)) / 2, |PrefixOf(pattern)|;
    PlainIs(pattern);
    if n == 0 {
      assert pattern[0..] == pattern && w + (Slashes(k) + name) == name;
    } else {
      PairedRun(pattern);
      if Matches(pattern[n..], name) {
        RunBack(pattern[|w|..], k, name);
        PlainBack(pattern, |w|, Slashes(k) + name);
      }
    }
  }

  /** Every match is of that form. */
  lemma PairedForm(pattern: string, name: string) returns (rest: string)
    requires PairsAtEnd(pattern) && Matches(pattern, name)
    ensures name == Plain(pattern) + (Slashes(TailRun(PrefixOf(pattern)) / 2) + rest)
    ensures |PrefixOf(pattern)| <= |pattern| && Matches(pattern[|PrefixOf(pattern)|..], rest)
  {
    hide Matches, Slashes, TailRun, PrefixOf, Plain;
    var w, k, n := Plain(pattern), TailRun(PrefixOf(pattern)) / 2, |PrefixOf(pattern)|;
    PlainIs(pattern);
    if n == 0 {
      rest := name;
      PairedHead(pattern, rest);
      assert Slashes(k) + rest == rest && pattern[0..] == pattern;
    } else {
      AfterPrefix(pattern);
      var q := pattern[|w|..];
      PlainHead(pattern, name, |w|);
      PairedRun(pattern);
      RunMatches(q, name[|w|..], k);
      rest := name[|w|..][k..];
      SplitAgain(name, w, Slashes(k), rest);
    }
  }

  /** The run of backslashes behind the plain text. */
  lemma PairedRun(pattern: string)
    requires PairsAtEnd(pattern) && PrefixOf(pattern) != ""
    ensures |Plain(pattern)| <= |PrefixOf(pattern)| <= |pattern|
    ensures var q, n := pattern[|Plain(pattern)|..], TailRun(PrefixOf(pattern));
            n <= |q| && Run(q) == n && q[..n] == Slashes(n) && q[n..] == pattern[|PrefixOf(pattern)|..]
  {
    hide Special;
    PlainIs(pattern);
    AfterPrefix(pattern);
    SpecialIsNoSlash();
    var w, n := Plain(pattern), TailRun(PrefixOf(pattern));
    var q := pattern[|w|..];
    assert q[..n] == PrefixOf(pattern)[|w|..] == Slashes(n) && q[n..] == pattern[|PrefixOf(pattern)|..];
    RunIs(q, n);
  }

  lemma SpecialIsNoSlash()
    ensures !Special('\\')
  {
  }

  lemma SplitAgain(name: string, w: string, h: string, rest: string)
    requires |w| + |h| <= |name| && name[..|w|] == w && name[|w|..][..|h|] == h && rest == name[|w|..][|h|..]
    ensures name == w + (h + rest)
  {
  }

  lemma FirstSlash(s: string) returns (i: nat)
    requires '\\' in s
    ensures i < |s| && s[i] == '\\' && '\\' !in s[..i]
  {
    i := 0;
    while s[i] != '\\'
      invariant i < |s| && '\\' !in s[..i]
      invariant '\\' in s[i..]
      decreases |s| - i
    {
      assert s[..i + 1] == s[..i] + [s[i]] && s[i..] == [s[i]] + s[i + 1..];
      i := i + 1;
    }
  }

  /** The first run of backslashes, halved in the name, is followed there by what it does not escape. */
  lemma RunShows(pattern: string, name: string) returns (i: nat, n: nat)
    requires Matches(pattern, name) && !PairsAtEnd(pattern)
    ensures 0 < n && i + n <= |PrefixOf(pattern)| < |pattern| && i + n / 2 < |name|
    ensures forall k :: i <= k < i + n ==> PrefixOf(pattern)[k] == '\\'
    ensures name[i + n / 2] == pattern[i + n] != '\\'
  {
    hide Matches, PrefixOf, Plain, TailRun, Special, Slashes, Run;
    i := FirstRun(pattern);
    PlainHead(pattern, name, i);
    var q, s := pattern[i..], name[i..];
    n := Run(q);
    var k := n / 2;
    RunMatches(q, s, k);
    if n % 2 == 0 {
      assert q[n..] == pattern[i + n..];
      NextPlain(q[n..], s[k..]);
    }
    assert i + k < |name| && name[i + k] == s[k];
  }

  /** With backslashes elsewhere, or an odd number of them, no matching name starts with the prefix. */
  lemma NarrowingLosesAll(pattern: string, name: string)
    requires Matches(pattern, name) && !PairsAtEnd(pattern)
    ensures !(PrefixOf(pattern) <= name)
  {
    hide Matches, PrefixOf, PairsAtEnd;
    var i, n := RunShows(pattern, name);
    assert PrefixOf(pattern)[i + n / 2] == '\\';
  }

  /** The name that counts the prefix up by one, and drops its last characters, the greatest of a byte. */
  predicate Carried(prefix: string, name: string, t: nat) {
    && t < |name| < |prefix| && name[..t] == prefix[..t] && name[t] as int == prefix[t] as int + 1
    && forall j :: t < j < |prefix| ==> prefix[j] as int == 255
  }

  /** No match of a pattern with a backslash in its prefix is such a name. */
  lemma CarriedDoesNotMatch(pattern: string, name: string, t: nat)
    requires '\\' in PrefixOf(pattern) && Carried(PrefixOf(pattern), name, t)
    ensures !Matches(pattern, name)
  {
    hide Matches, PrefixOf;
    var p := PrefixOf(pattern);
    PlainIs(pattern);
    if PairsAtEnd(pattern) {
      PairedEnds(pattern);
    } else if Matches(pattern, name) {
      var i, n := RunShows(pattern, name);
      CarriedApart(p, name, t, i, n, pattern[i + n]);
    }
  }

  lemma PairedEnds(pattern: string)
    requires PairsAtEnd(pattern) && '\\' in PrefixOf(pattern)
    ensures PrefixOf(pattern)[|PrefixOf(pattern)| - 1] == '\\'
  {
    var p := PrefixOf(pattern);
    assert TailRun(p) == 0 ==> Plain(pattern) == p;
  }

  lemma CarriedApart(p: string, name: string, t: nat, i: nat, n: nat, c: char)
    requires Carried(p, name, t) && 0 < n && i + n <= |p| && i + n / 2 < |name|
    requires forall k :: i <= k < i + n ==> p[k] == '\\'
    requires c != '\\' && (i + n < |p| ==> c == p[i + n])
    ensures name[i + n / 2] != c
  {
    var at := i + n / 2;
    assert p[at] == '\\' && p[i + n - 1] == '\\';
    assert forall j :: 0 <= j < t ==> name[j] == name[..t][j] == p[..t][j];
  }

  lemma NextPlain(q: string, s: string)
    requires Matches(q, s) && q != "" && !Special(q[0]) && q[0] != '\\'
    ensures s != "" && s[0] == q[0]
  {
    hide Matches;
    PlainHead(q, s, 1);
    assert s[..1][0] == q[..1][0];
  }

  /** The first run of backslashes in such a prefix is odd, or a plain character follows it. */
  lemma FirstRun(pattern: string) returns (i: nat)
    requires !PairsAtEnd(pattern)
    ensures i < |PrefixOf(pattern)| < |pattern|
    ensures forall k :: 0 <= k < i ==> !Special(pattern[k]) && pattern[k] != '\\'
    ensures var n := Run(pattern[i..]);
            && 0 < n && i + n <= |PrefixOf(pattern)| && (forall k :: i <= k < i + n ==> PrefixOf(pattern)[k] == '\\')
            && pattern[i + n] != '\\'
            && (n % 2 == 0 ==> i + n < |PrefixOf(pattern)| && !Special(pattern[i + n]))
  {
    hide *;
    var p := PrefixOf(pattern);
    PlainIs(pattern);
    UnpairedHasSlash(pattern);
    AfterPrefix(pattern);
    SpecialIsNoSlash();
    i := FirstSlash(p);
    PrefixPlain(pattern, i);
    RunInside(pattern, p, i);
    var n := Run(pattern[i..]);
    if n % 2 == 0 && i + n == |p| {
      PairedIf(pattern, i);
    }
  }

  lemma PrefixPlain(pattern: string, i: nat)
    requires i <= |PrefixOf(pattern)| <= |pattern| && '\\' !in PrefixOf(pattern)[..i]
    ensures forall k :: 0 <= k < |PrefixOf(pattern)| ==> !Special(pattern[k])
    ensures forall k :: 0 <= k < i ==> pattern[k] != '\\'
  {
    hide Special;
    var p := PrefixOf(pattern);
    forall k | 0 <= k < |p| ensures !Special(pattern[k]) && pattern[k] == p[k] {
      FirstSpecialIsFirst(pattern, k);
    }
    assert forall k :: 0 <= k < i ==> p[..i][k] == pattern[k];
  }

  lemma RunInside(pattern: string, p: string, i: nat)
    requires p <= pattern && |p| < |pattern| && pattern[|p|] != '\\' && i < |p| && p[i] == '\\'
    ensures var n := Run(pattern[i..]);
            0 < n && i + n <= |p| && (forall k :: i <= k < i + n ==> p[k] == '\\') && pattern[i + n] != '\\'
  {
    var q := pattern[i..];
    assert q[0] == '\\' && q[|p| - i] == pattern[|p|];
    assert forall k :: i <= k < |pattern| ==> pattern[k] == q[k - i];
  }

  lemma UnpairedHasSlash(pattern: string)
    requires !PairsAtEnd(pattern)
    ensures PrefixOf(pattern) != "" && '\\' in PrefixOf(pattern)
  {
    var p := PrefixOf(pattern);
    if '\\' in Plain(pattern) {
      var j :| 0 <= j < |Plain(pattern)| && Plain(pattern)[j] == '\\';
      assert p[j] == '\\';
    } else {
      assert p[|p| - 1] == '\\';
    }
  }

  lemma PairedIf(pattern: string, i: nat)
    requires var p := PrefixOf(pattern);
             i <= |p| && (|p| - i) % 2 == 0 && '\\' !in p[..i] && forall j :: i <= j < |p| ==> p[j] == '\\'
    ensures PairsAtEnd(pattern)
  {
    var p := PrefixOf(pattern);
    assert i > 0 ==> p[i - 1] == p[..i][i - 1];
    assert TailRun(p) == |p| - i;
    assert Plain(pattern) == p[..i];
  }

  /** The backslashes of the prefix are pairs at its end, and what follows can only match as many more. */
  ghost predicate Harmless(pattern: string, top: char) {
    && PairsAtEnd(pattern) && |PrefixOf(pattern)| <= |pattern| && Tokens(pattern[|PrefixOf(pattern)|..]).Some?
    && OnlySlashes(Tokens(pattern[|PrefixOf(pattern)|..]).value, TailRun(PrefixOf(pattern)) / 2, top)
  }

  /**
   * All names of the alphabet that a pattern matches, if there are any, start with its narrowing
   * prefix exactly when the prefix is harmless.
   */
  lemma NarrowingIsExact(pattern: string, top: char, some: string)
    requires Matches(pattern, some) && Over(some, top) && 'a' <= top
    ensures (forall name :: Over(name, top) && Matches(pattern, name) ==> PrefixOf(pattern) <= name) <==> Harmless(pattern, top)
  {
    if !Harmless(pattern, top) {
      var other := NarrowingLosesOne(pattern, top, some);
    } else {
      forall name | Over(name, top) && Matches(pattern, name) ensures PrefixOf(pattern) <= name {
        NarrowingKeepsAll(pattern, top, name);
      }
    }
  }

  lemma NarrowingKeepsAll(pattern: string, top: char, name: string)
    requires Harmless(pattern, top) && Over(name, top) && Matches(pattern, name)
    ensures PrefixOf(pattern) <= name
  {
    hide Tokens, InLanguage, OnlySlashes, PrefixOf, Plain, TailRun, Slashes;
    var more := PairedForm(pattern, name);
    OverParts(Plain(pattern), Slashes(TailRun(PrefixOf(pattern)) / 2), more, top);
    OnlySlashesMatch(Tokens(pattern[|PrefixOf(pattern)|..]).value, TailRun(PrefixOf(pattern)) / 2, top, more);
    PairedStart(pattern, more);
  }

  /** A match that the narrowed range does not hold. */
  lemma NarrowingLosesOne(pattern: string, top: char, some: string) returns (name: string)
    requires Matches(pattern, some) && Over(some, top) && 'a' <= top && !Harmless(pattern, top)
    ensures Over(name, top) && Matches(pattern, name) && !(PrefixOf(pattern) <= name)
  {
    hide Tokens, InLanguage, OnlySlashes, PrefixOf, Plain, TailRun, Slashes;
    name := some;
    if !PairsAtEnd(pattern) {
      NarrowingLosesAll(pattern, some);
    } else {
      var rest := PairedForm(pattern, some);
      var w, k, after := Plain(pattern), TailRun(PrefixOf(pattern)) / 2, pattern[|PrefixOf(pattern)|..];
      OverParts(w, Slashes(k), rest, top);
      var other := OtherMatch(Tokens(after).value, k, top, rest);
      PairedHead(pattern, other);
      PairedStart(pattern, other);
      OverParts(w, Slashes(k), other, top);
      name := w + (Slashes(k) + other);
    }
  }

  lemma OverParts(a: string, b: string, c: string, top: char)
    ensures Over(a + (b + c), top) <==> Over(a, top) && Over(b, top) && Over(c, top)
  {
    var all := a + (b + c);
    assert forall i :: 0 <= i < |a| ==> all[i] == a[i];
    assert forall i :: 0 <= i < |b| ==> all[|a| + i] == b[i];
    assert forall i :: 0 <= i < |c| ==> all[|a| + |b| + i] == c[i];
  }

  lemma PairedStart(pattern: string, rest: string)
    requires PairsAtEnd(pattern)
    ensures var k := TailRun(PrefixOf(pattern)) / 2;
            PrefixOf(pattern) <= Plain(pattern) + (Slashes(k) + rest) <==> Slashes(k) <= rest
  {
    hide PrefixOf, Plain, TailRun;
    var w, k := Plain(pattern), TailRun(PrefixOf(pattern)) / 2;
    PlainIs(pattern);
    assert Slashes(2 * k) == Slashes(k) + Slashes(k);
    Behind(w, Slashes(k) + Slashes(k), Slashes(k) + rest);
    Behind(Slashes(k), Slashes(k), rest);
  }

  lemma Behind(w: string, a: string, b: string)
    ensures w + a <= w + b <==> a <= b
  {
    if w + a <= w + b {
      assert (w + b)[..|w + a|][|w|..] == b[..|a|];
    }
    if a <= b {
      assert w + b == (w + a) + b[|a|..];
    }
  }

  /** Before a star, a question mark or a stray bracket that means no backslash at all. */
  lemma NarrowingBeforeStar(pattern: string, top: char, some: string)
    requires Matches(pattern, some) && Over(some, top) && 'a' <= top && PrefixOf(pattern) != ""
    ensures |PrefixOf(pattern)| < |pattern|
    ensures pattern[|PrefixOf(pattern)|] != '[' ==>
              ((forall name :: Over(name, top) && Matches(pattern, name) ==> PrefixOf(pattern) <= name) <==> '\\' !in PrefixOf(pattern))
  {
    hide Matches;
    AfterPrefix(pattern);
    NarrowingIsExact(pattern, top, some);
    var p, q := PrefixOf(pattern), pattern[|PrefixOf(pattern)|..];
    if TailRun(p) == 0 {
      assert Plain(pattern) == p;
    } else {
      assert p[|p| - 1] == '\\';
      if TailRun(p) % 2 == 0 && q[0] != '[' && Tokens(q).Some? {
        NotOnlySlashes(q, TailRun(p) / 2, top);
      }
    }
    assert TailRun(p) > 0 ==> p[|p| - 1] in p;
    if TailRun(p) == 0 && Tokens(q).Some? {
      assert OnlySlashes(Tokens(q).value, 0, top);
    }
    if '\\' !in p {
      var rest := PairedForm(pattern, some);
      MatchesMeans(q, rest);
    }
  }

  lemma MatchesMeans(pattern: string, name: string)
    requires Matches(pattern, name)
    ensures Tokens(pattern).Some?
  {
  }

  lemma NotOnlySlashes(q: string, k: nat, top: char)
    requires 'a' <= top && k > 0 && q != "" && Special(q[0]) && q[0] != '[' && Tokens(q).Some?
    ensures !OnlySlashes(Tokens(q).value, k, top)
  {
    if q[0] == '?' {
      assert Accepts(Tokens(q).value[0].m, 'a');
    } else if q[0] == ']' {
      assert Accepts(Tokens(q).value[0].m, ']');
    }
  }

  lemma ClassOfSlash()
    ensures Tokens("[\\\\]") == Some([One(Class(false, [('\\', '\\')]))])
    ensures forall c :: Accepts(Class(false, [('\\', '\\')]), c) <==> c == '\\'
  {
    var bracket := "[\\\\]";
    var inner := bracket[1..];
    assert inner == "\\\\]" && inner[1..] == "\\]" && inner[1..][1..] == "]" && "]"[1..] == "";
    assert GetEsc(inner) == Some(('\\', "]"));
    assert OneRange(inner) == Some((('\\', '\\'), "]"));
    assert Ranges("]", false) == Some(([], ""));
    assert [('\\', '\\')] + [] == [('\\', '\\')];
    assert Ranges(inner, true) == Some(([('\\', '\\')], ""));
    assert MatcherAt(bracket) == Some((Class(false, [('\\', '\\')]), ""));
    assert Tokens("") == Some([]);
    assert [One(Class(false, [('\\', '\\')]))] + [] == [One(Class(false, [('\\', '\\')]))];
    var ranges := [('\\', '\\')];
    assert ranges[0] == ('\\', '\\');
  }

  /** Before a class it need not be: a pair and the class of a backslash match two backslashes only. */
  lemma NarrowingBeforeClass(name: string)
    ensures var pattern := "\\\\[\\\\]";
            && PrefixOf(pattern) == "\\\\"
            && (Matches(pattern, name) <==> name == "\\\\")
  {
    var bracket, pattern := "[\\\\]", "\\\\[\\\\]";
    assert pattern[2..] == bracket && pattern[1..][1..] == bracket;
    assert PrefixOf(pattern) == pattern[..2] == "\\\\";
    ClassOfSlash();
    assert MatcherAt(pattern) == Some((Literal('\\'), bracket));
    var ts := Tokens(pattern).value;
    assert ts == [One(Literal('\\'))] + Tokens(bracket).value;
    TwoCharacters(Literal('\\'), Class(false, [('\\', '\\')]), name);
    assert name == "\\\\" <==> |name| == 2 && name[0] == '\\' && name[1] == '\\';
  }

  lemma TwoCharacters(a: Matcher, b: Matcher, name: string)
    ensures InLanguage([One(a)] + [One(b)], name) <==> |name| == 2 && Accepts(a, name[0]) && Accepts(b, name[1])
  {
    var ts, us := [One(a)] + [One(b)], [One(b)];
    assert ts[1..] == us && us[1..] == [];
    if name != "" {
      assert InLanguage(ts, name) <==> Accepts(a, name[0]) && InLanguage(us, name[1..]);
      if |name| > 1 {
        assert InLanguage(us, name[1..]) <==> Accepts(b, name[1]) && InLanguage([], name[1..][1..]);
        assert name[1..][1..] == name[2..];
      }
    }
  }
}
