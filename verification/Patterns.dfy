/** utils/glob/glob.go: the well-formed patterns, spelled piece by piece, and what they match. */
module Patterns {
  import opened Basics
  import Glob

  /** A character as it stands, or behind a backslash. */
  datatype Letter = Bare(c: char) | Escaped(c: char)

  datatype Span = Span(lo: Letter, hi: Option<Letter>)

  datatype Piece = Star | Any | Char(l: Letter) | Set(negated: bool, spans: seq<Span>)

  function LetterText(l: Letter): string {
    if l.Bare? then [l.c] else ['\\', l.c]
  }

  function SpanText(s: Span): string {
    LetterText(s.lo) + if s.hi.Some? then "-" + LetterText(s.hi.value) else ""
  }

  function SpansText(ss: seq<Span>): string {
    if ss == [] then "" else SpanText(ss[0]) + SpansText(ss[1..])
  }

  function PieceText(p: Piece): string {
    match p
    case Star => "*"
    case Any => "?"
    case Char(l) => LetterText(l)
    case Set(negated, ss) => (if negated then "[^" else "[") + SpansText(ss) + "]"
  }

  function PatternText(ps: seq<Piece>): string {
    if ps == [] then "" else PieceText(ps[0]) + PatternText(ps[1..])
  }

  predicate InClass(l: Letter) {
    l.Bare? ==> l.c !in "-]\\"
  }

  predicate CorrectSpan(s: Span) {
    InClass(s.lo) && (s.hi.Some? ==> InClass(s.hi.value))
  }

  /** A class has at least one span, and does not begin with a bare '^' of its own. */
  predicate CorrectPiece(p: Piece) {
    match p
    case Star => true
    case Any => true
    case Char(l) => l.Bare? ==> l.c !in "*?[\\"
    case Set(negated, ss) =>
      && ss != [] && (forall i :: 0 <= i < |ss| ==> CorrectSpan(ss[i]))
      && (negated || ss[0].lo != Bare('^'))
  }

  predicate Correct(ps: seq<Piece>) {
    forall i :: 0 <= i < |ps| ==> CorrectPiece(ps[i])
  }

  // ---------- what a pattern matches ----------

  predicate InSpan(s: Span, c: char) {
    s.lo.c <= c <= if s.hi.Some? then s.hi.value.c else s.lo.c
  }

  /** The part of a name that a piece may stand for. */
  predicate Stands(p: Piece, part: string) {
    match p
    case Star => true
    case Any => |part| == 1
    case Char(l) => part == [l.c]
    case Set(negated, ss) => |part| == 1 && ((exists i :: 0 <= i < |ss| && InSpan(ss[i], part[0])) <==> !negated)
  }

  function Joined(parts: seq<string>): string {
    if parts == [] then "" else parts[0] + Joined(parts[1..])
  }

  /** The name falls into parts that the pieces stand for, one after the other. */
  ghost predicate Divides(ps: seq<Piece>, parts: seq<string>, name: string) {
    |parts| == |ps| && Joined(parts) == name && forall i :: 0 <= i < |ps| ==> Stands(ps[i], parts[i])
  }

  // ---------- reading a pattern ----------

  function SpanOf(s: Span): (char, char) {
    (s.lo.c, if s.hi.Some? then s.hi.value.c else s.lo.c)
  }

  function SpansOf(ss: seq<Span>): seq<(char, char)> {
    seq(|ss|, i requires 0 <= i < |ss| => SpanOf(ss[i]))
  }

  function TokenOf(p: Piece): Glob.Token {
    match p
    case Star => Glob.Star
    case Any => Glob.One(Glob.AnyChar)
    case Char(l) => Glob.One(Glob.Literal(l.c))
    case Set(negated, ss) => Glob.One(Glob.Class(negated, SpansOf(ss)))
  }

  function TokensOf(ps: seq<Piece>): seq<Glob.Token> {
    seq(|ps|, i requires 0 <= i < |ps| => TokenOf(ps[i]))
  }

  lemma LetterIsRead(l: Letter, rest: string)
    requires InClass(l) && rest != ""
    ensures Glob.GetEsc(LetterText(l) + rest) == Some((l.c, rest))
  {
    var text := LetterText(l) + rest;
    if l.Escaped? {
      assert text[1..] == [l.c] + rest;
      assert text[1..][1..] == rest;
    } else {
      assert text[1..] == rest;
    }
  }

  lemma SpanIsRead(s: Span, rest: string)
    requires CorrectSpan(s) && rest != "" && rest[0] != '-'
    ensures Glob.OneRange(SpanText(s) + rest) == Some((SpanOf(s), rest))
  {
    hide Glob.GetEsc, LetterText;
    if s.hi.Some? {
      var more := LetterText(s.hi.value) + rest;
      assert SpanText(s) + rest == LetterText(s.lo) + ("-" + more);
      LetterIsRead(s.lo, "-" + more);
      LetterIsRead(s.hi.value, rest);
      assert ("-" + more)[1..] == more;
    } else {
      assert SpanText(s) + rest == LetterText(s.lo) + rest;
      LetterIsRead(s.lo, rest);
    }
  }

  lemma SpanBegins(s: Span)
    requires CorrectSpan(s)
    ensures SpanText(s) != "" && SpanText(s)[0] != '-' && SpanText(s)[0] != ']'
    ensures SpanText(s)[0] == '^' <==> s.lo == Bare('^')
  {
  }

  lemma SpansPush(s: Span, ss: seq<Span>)
    ensures SpansText([s] + ss) == SpanText(s) + SpansText(ss) && SpansOf([s] + ss) == [SpanOf(s)] + SpansOf(ss)
  {
    hide SpanText;
    assert ([s] + ss)[1..] == ss;
  }

  lemma {:induction false} SpansAreRead(ss: seq<Span>, rest: string, first: bool)
    requires (forall i :: 0 <= i < |ss| ==> CorrectSpan(ss[i])) && (first ==> ss != [])
    ensures Glob.Ranges(SpansText(ss) + "]" + rest, first) == Some((SpansOf(ss), rest))
    decreases |ss|
  {
    hide Glob.OneRange, SpanText, CorrectSpan;
    var text := SpansText(ss) + "]" + rest;
    if ss == [] {
      assert text == "]" + rest && text[1..] == rest && SpansOf(ss) == [];
    } else {
      var tail := SpansText(ss[1..]) + "]" + rest;
      assert ss == [ss[0]] + ss[1..];
      SpansPush(ss[0], ss[1..]);
      assert text == SpanText(ss[0]) + tail;
      SpanBegins(ss[0]);
      TailBegins(ss[1..], rest);
      SpanIsRead(ss[0], tail);
      SpansAreRead(ss[1..], rest, false);
    }
  }

  lemma TailBegins(ss: seq<Span>, rest: string)
    requires forall i :: 0 <= i < |ss| ==> CorrectSpan(ss[i])
    ensures var tail := SpansText(ss) + "]" + rest; tail != "" && tail[0] != '-'
  {
    if ss != [] {
      SpanBegins(ss[0]);
    }
  }

  lemma PieceIsRead(p: Piece, rest: string)
    requires CorrectPiece(p) && !p.Star?
    ensures var text := PieceText(p) + rest;
            text != "" && text[0] != '*' && Glob.MatcherAt(text) == Some((TokenOf(p).m, rest))
  {
    hide Glob.Ranges, SpansText, SpansOf;
    var text := PieceText(p) + rest;
    match p
    case Any => assert text[1..] == rest;
    case Char(l) =>
      if l.Bare? {
        assert text[1..] == rest;
      } else {
        assert text[2..] == rest;
      }
    case Set(negated, ss) =>
      ClassIsRead(negated, ss, rest);
      assert text[1..] == (if negated then "^" else "") + (SpansText(ss) + "]" + rest);
  }

  lemma ClassIsRead(negated: bool, ss: seq<Span>, rest: string)
    requires CorrectPiece(Set(negated, ss))
    ensures Glob.ClassAt((if negated then "^" else "") + (SpansText(ss) + "]" + rest)) ==
              Some((Glob.Class(negated, SpansOf(ss)), rest))
  {
    hide Glob.Ranges, SpansText, SpansOf;
    var inner := SpansText(ss) + "]" + rest;
    SpansAreRead(ss, rest, true);
    ClassBegins(ss);
    assert inner[0] == SpansText(ss)[0];
    if negated {
      assert ("^" + inner)[1..] == inner;
    } else {
      assert "" + inner == inner;
    }
  }

  lemma ClassBegins(ss: seq<Span>)
    requires ss != [] && CorrectSpan(ss[0])
    ensures SpansText(ss) != "" && (SpansText(ss)[0] == '^' <==> ss[0].lo == Bare('^'))
  {
    SpanBegins(ss[0]);
  }

  /** A pattern spelled so is read as its pieces. */
  lemma {:induction false} PatternIsRead(ps: seq<Piece>)
    requires Correct(ps)
    ensures Glob.Tokens(PatternText(ps)) == Some(TokensOf(ps))
  {
    hide Glob.MatcherAt, CorrectPiece, TokenOf;
    if ps == [] {
      assert TokensOf(ps) == [];
    } else {
      var rest := PatternText(ps[1..]);
      PatternIsRead(ps[1..]);
      assert TokensOf(ps) == [TokenOf(ps[0])] + TokensOf(ps[1..]);
      if ps[0].Star? {
        StarIs(rest);
      } else {
        PieceIsRead(ps[0], rest);
        OneToken(ps[0]);
      }
    }
  }

  lemma StarIs(rest: string)
    ensures ("*" + rest)[0] == '*' && ("*" + rest)[1..] == rest && TokenOf(Star) == Glob.Star
  {
  }

  lemma OneToken(p: Piece)
    requires !p.Star?
    ensures TokenOf(p) == Glob.One(TokenOf(p).m)
  {
  }

  // ---------- and nothing else is read ----------

  lemma LetterRead(chunk: string) returns (l: Letter)
    requires Glob.GetEsc(chunk).Some?
    ensures InClass(l) && chunk == LetterText(l) + Glob.GetEsc(chunk).value.1
    ensures l.c == Glob.GetEsc(chunk).value.0 && Glob.GetEsc(chunk).value.1 != ""
  {
    l := if chunk[0] == '\\' then Escaped(chunk[1]) else Bare(chunk[0]);
    assert chunk[0] == '\\' ==> chunk[1..][1..] == chunk[2..];
  }

  lemma SpanRead(chunk: string) returns (s: Span)
    requires Glob.OneRange(chunk).Some?
    ensures CorrectSpan(s) && chunk == SpanText(s) + Glob.OneRange(chunk).value.1 && SpanOf(s) == Glob.OneRange(chunk).value.0
  {
    hide Glob.GetEsc, LetterText, InClass;
    var lo := LetterRead(chunk);
    var rest := Glob.GetEsc(chunk).value.1;
    s := Span(lo, None);
    if rest[0] == '-' {
      var hi := LetterRead(rest[1..]);
      s := Span(lo, Some(hi));
      assert rest == "-" + rest[1..];
    }
  }

  lemma {:induction false} SpansRead(chunk: string, first: bool) returns (ss: seq<Span>)
    requires Glob.Ranges(chunk, first).Some?
    ensures (forall i :: 0 <= i < |ss| ==> CorrectSpan(ss[i])) && (first ==> ss != [])
    ensures var (ranges, rest) := Glob.Ranges(chunk, first).value;
            SpansOf(ss) == ranges && chunk == SpansText(ss) + "]" + rest
    decreases |chunk|
  {
    hide Glob.OneRange, CorrectSpan, SpanText, SpanOf;
    ss := [];
    if chunk != "" && chunk[0] == ']' && !first {
      assert chunk == "]" + chunk[1..];
    } else {
      Glob.RangesShorter(chunk, first);
      var s := SpanRead(chunk);
      var rest := Glob.OneRange(chunk).value.1;
      SpanShortens(s, rest);
      var more := SpansRead(rest, false);
      ss := [s] + more;
      SpansPush(s, more);
    }
  }

  lemma SpanShortens(s: Span, rest: string)
    requires CorrectSpan(s)
    ensures |rest| < |SpanText(s) + rest|
  {
    SpanBegins(s);
  }

  lemma PieceRead(chunk: string) returns (p: Piece)
    requires chunk != "" && chunk[0] != '*' && Glob.MatcherAt(chunk).Some?
    ensures CorrectPiece(p) && !p.Star? && chunk == PieceText(p) + Glob.MatcherAt(chunk).value.1
    ensures TokenOf(p) == Glob.One(Glob.MatcherAt(chunk).value.0)
  {
    hide Glob.Ranges, SpansText, SpansOf;
    if chunk[0] == '[' {
      var c := chunk[1..];
      var negated := Glob.Caret(c);
      var inner := if negated then c[1..] else c;
      var ss := SpansRead(inner, true);
      p := Set(negated, ss);
      ClassBegins(ss);
      assert chunk == "[" + c && (negated ==> c == "^" + inner);
    } else if chunk[0] == '?' {
      p := Any;
    } else if chunk[0] == '\\' {
      p := Char(Escaped(chunk[1]));
    } else {
      p := Char(Bare(chunk[0]));
    }
  }

  /** A pattern that is well-formed at all is spelled so. */
  lemma {:induction false} ReadIsPattern(pattern: string) returns (ps: seq<Piece>)
    requires Glob.Tokens(pattern).Some?
    ensures Correct(ps) && PatternText(ps) == pattern && TokensOf(ps) == Glob.Tokens(pattern).value
    decreases |pattern|
  {
    hide Glob.MatcherAt, CorrectPiece, TokenOf, PieceText;
    ps := [];
    if pattern != "" {
      var p, rest := Star, pattern[1..];
      if pattern[0] == '*' {
        StarText();
        StarIs(rest);
        assert pattern == "*" + rest;
      } else {
        Glob.MatcherShorter(pattern);
        p := PieceRead(pattern);
        rest := Glob.MatcherAt(pattern).value.1;
      }
      var more := ReadIsPattern(rest);
      ps := [p] + more;
      PiecesPush(p, more);
    }
  }

  lemma StarText()
    ensures PieceText(Star) == "*" && CorrectPiece(Star)
  {
  }

  lemma PiecesPush(p: Piece, ps: seq<Piece>)
    ensures PatternText([p] + ps) == PieceText(p) + PatternText(ps) && TokensOf([p] + ps) == [TokenOf(p)] + TokensOf(ps)
  {
    assert ([p] + ps)[1..] == ps;
  }

  // ---------- the language ----------

  lemma InSpans(ss: seq<Span>, c: char)
    ensures Glob.InRanges(SpansOf(ss), c) <==> exists i :: 0 <= i < |ss| && InSpan(ss[i], c)
  {
    forall i | 0 <= i < |ss| ensures InSpan(ss[i], c) <==> SpansOf(ss)[i].0 <= c <= SpansOf(ss)[i].1 {
    }
  }

  lemma OneStands(p: Piece, part: string)
    requires !p.Star?
    ensures Stands(p, part) <==> |part| == 1 && Glob.Accepts(TokenOf(p).m, part[0])
  {
    if p.Set? && |part| == 1 {
      InSpans(p.spans, part[0]);
    }
  }

  lemma {:induction false} DividedMatches(ps: seq<Piece>, parts: seq<string>, name: string)
    requires Divides(ps, parts, name)
    ensures Glob.InLanguage(TokensOf(ps), name)
    decreases |ps|
  {
    hide TokenOf, Stands, Glob.Accepts;
    if ps != [] {
      var rest := Joined(parts[1..]);
      DividedMatches(ps[1..], parts[1..], rest);
      assert TokensOf(ps)[1..] == TokensOf(ps[1..]);
      assert name[|parts[0]|..] == rest;
      if ps[0].Star? {
        StarIs("");
      } else {
        OneStands(ps[0], parts[0]);
        OneToken(ps[0]);
        assert name[1..] == rest;
      }
    }
  }

  lemma {:induction false} MatchDivides(ps: seq<Piece>, name: string) returns (parts: seq<string>)
    requires Glob.InLanguage(TokensOf(ps), name)
    ensures Divides(ps, parts, name)
    decreases |ps|
  {
    hide TokenOf, Stands, Glob.Accepts;
    parts := [];
    if ps != [] {
      assert TokensOf(ps)[1..] == TokensOf(ps[1..]);
      var i := 1;
      if ps[0].Star? {
        StarIs("");
        i :| 0 <= i <= |name| && Glob.InLanguage(TokensOf(ps[1..]), name[i..]);
      } else {
        OneToken(ps[0]);
        OneStands(ps[0], name[..1]);
      }
      var more := MatchDivides(ps[1..], name[i..]);
      parts := [name[..i]] + more;
      StarStands(name[..i]);
      DividesPush(ps, name[..i], more, name[i..]);
      assert name == name[..i] + name[i..];
    }
  }

  lemma StarStands(part: string)
    ensures Stands(Star, part)
  {
  }

  lemma DividesPush(ps: seq<Piece>, part: string, parts: seq<string>, rest: string)
    requires ps != [] && Divides(ps[1..], parts, rest) && Stands(ps[0], part)
    ensures Divides(ps, [part] + parts, part + rest)
  {
    hide Stands;
    assert ([part] + parts)[1..] == parts;
    forall i | 0 <= i < |ps| ensures Stands(ps[i], ([part] + parts)[i]) {
      if i > 0 { assert Stands(ps[1..][i - 1], parts[i - 1]); }
    }
  }

  /** A pattern matches exactly the names that fall into parts its pieces stand for. */
  lemma PatternMatches(ps: seq<Piece>, name: string)
    requires Correct(ps)
    ensures Glob.Matches(PatternText(ps), name) <==> exists parts :: Divides(ps, parts, name)
  {
    hide Glob.Tokens, Glob.InLanguage, PatternText, TokensOf, Divides;
    PatternIsRead(ps);
    if Glob.Matches(PatternText(ps), name) {
      var parts := MatchDivides(ps, name);
    }
    if exists parts :: Divides(ps, parts, name) {
      var parts :| Divides(ps, parts, name);
      DividedMatches(ps, parts, name);
    }
  }
}
