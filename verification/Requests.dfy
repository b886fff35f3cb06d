/** redcon/redcon.go: what the bytes of a connection say, as a sequence of commands. */
module Requests {
  import opened Basics
  import opened ByteOrder
  import opened Decimal
  import Resp

  const STAR: byte := 42
  const DOLLAR: byte := 36
  const SPACE: byte := 32
  const QUOTE: byte := 34
  const APOSTROPHE: byte := 39
  const BACKSLASH: byte := 92

  const MAX_COUNT: int := 1024 * 1024

  // ---------- parseInt ----------

  function Accumulated(b: Bytes): int
    requires AllDigits(b)
  {
    if b == [] then 0 else Wrapped(Accumulated(b[..|b| - 1]) * 10 + (b[|b| - 1] - ZERO))
  }

  /** Digits after an optional minus sign; no digits at all read as 0. */
  function ParseInt(b: Bytes): Option<int> {
    var sign := b != [] && b[0] == MINUS;
    var d := if sign then b[1..] else b;
    if !AllDigits(d) then None else Some(if sign then Wrapped(-Accumulated(d)) else Accumulated(d))
  }

  method ParseIntLoop(b: Bytes) returns (r: Option<int>)
    ensures r == ParseInt(b)
  {
    hide Wrapped;
    if |b| == 1 && ZERO <= b[0] <= ZERO + 9 {
      assert b[..0] == [] && Accumulated(b) == Wrapped(b[0] - ZERO);
      WrapsNothing(b[0] - ZERO);
      return Some(b[0] - ZERO);
    }
    var n, sign, i := 0, false, 0;
    if |b| > 0 && b[0] == MINUS {
      sign, i := true, 1;
    }
    ghost var d := b[i..];
    ghost var from := i;
    while i < |b|
      invariant from <= i <= |b| && d == b[from..]
      invariant AllDigits(d[..i - from]) && n == Accumulated(d[..i - from])
    {
      assert d[i - from] == b[i];
      if b[i] < ZERO || b[i] > ZERO + 9 {
        return None;
      }
      assert d[..i - from + 1][..i - from] == d[..i - from];
      n := Wrapped(n * 10 + (b[i] - ZERO));
      i := i + 1;
    }
    assert d[..i - from] == d;
    if sign {
      n := Wrapped(-n);
    }
    return Some(n);
  }

  lemma WrapTwice(a: int, d: int)
    ensures Wrapped(Wrapped(a) * 10 + d) == Wrapped(a * 10 + d)
  {
    var q := (a + 0x8000_0000_0000_0000) / 0x1_0000_0000_0000_0000;
    WrapShift(a * 10 + d, -10 * q);
  }

  /** The number read is the number written, reduced to 64 bits. */
  lemma {:induction false} AccumulatedWraps(b: Bytes)
    requires AllDigits(b)
    ensures Accumulated(b) == Wrapped(Natural(b))
  {
    hide Wrapped;
    if b == [] {
      WrapsNothing(0);
    } else {
      var n := |b| - 1;
      AccumulatedWraps(b[..n]);
      WrapTwice(Natural(b[..n]), b[n] - ZERO);
    }
  }

  lemma WrapOpposite(n: int)
    ensures Wrapped(-Wrapped(n)) == Wrapped(-n)
  {
    var q := (n + 0x8000_0000_0000_0000) / 0x1_0000_0000_0000_0000;
    assert Wrapped(n) == n - q * 0x1_0000_0000_0000_0000;
    WrapShift(-n, q);
  }

  /** Digits, or none at all, are a number alone and behind a minus sign. */
  lemma ParseIntReads(d: Bytes)
    requires forall i :: 0 <= i < |d| ==> 48 <= d[i] <= 57
    ensures ParseInt(d) == Some(Wrapped(Positional(d))) && ParseInt([45] + d) == Some(Wrapped(-Positional(d)))
  {
    hide Wrapped, Accumulated, Positional, Natural;
    AccumulatedWraps(d);
    NaturalIsPositional(d);
    WrapOpposite(Positional(d));
    assert ([45] + d)[1..] == d;
  }

  /** Anything else is none. */
  lemma ParseIntRefuses(b: Bytes)
    ensures ParseInt(b).None? <==> exists i :: 0 <= i < |b| && !(48 <= b[i] <= 57) && (i > 0 || b[0] != 45)
  {
    hide Wrapped, Accumulated;
    if b != [] && b[0] == MINUS {
      assert forall i :: 0 <= i < |b| - 1 ==> b[1..][i] == b[i + 1];
      assert forall i :: 1 <= i < |b| ==> b[i] == b[1..][i - 1];
    }
  }

  /** A count is read as written exactly when it fits; a longer one comes out as something else. */
  lemma ParsedAsWritten(n: nat)
    ensures ParseInt(FormatInt(n)) == Some(n) <==> n <= MAX_INT64
  {
    hide Digits, Natural, Accumulated;
    DigitsSpell(n);
    AccumulatedWraps(Digits(n));
    assert IsDigit(Digits(n)[0]);
  }

  // ---------- a command in RESP ----------

  datatype Command = Command(raw: Bytes, args: seq<Bytes>)

  /** What the front of a buffer holds; a blank line is complete and has no arguments. */
  datatype Front = Complete(args: seq<Bytes>, n: nat) | More | Wrong

  /** One argument: its length on a line, then that many bytes and a line end. */
  function OneBulk(d: Bytes): (r: Front)
    ensures r.Complete? ==> 0 < r.n <= |d| && |r.args| == 1
  {
    if d == [] then More
    else if d[0] != DOLLAR then Wrong
    else
      var lf := LineEnd(d, 1);
      if lf == |d| then More
      else if d[lf - 1] != CR then Wrong
      else
        match ParseInt(d[1..lf - 1])
        case None => Wrong
        case Some(size) =>
          if size < 0 || size > MAX_COUNT then Wrong
          else if lf + size + 2 >= |d| then More
          else if d[lf + size + 2] != LF || d[lf + size + 1] != CR then Wrong
          else Complete([d[lf + 1..lf + 1 + size]], lf + size + 3)
  }

  function Bulks(d: Bytes, count: nat): (r: Front)
    ensures r.Complete? ==> r.n <= |d| && |r.args| == count
    decreases count
  {
    if count == 0 then Complete([], 0)
    else
      match OneBulk(d)
      case Complete(arg, n) => AfterBulk(arg, n, Bulks(d[n..], count - 1))
      case other => other
  }

  function AfterBulk(arg: seq<Bytes>, n: nat, r: Front): Front {
    match r
    case Complete(args, m) => Complete(arg + args, n + m)
    case other => other
  }

  function RespFront(b: Bytes): (r: Front)
    requires b != [] && b[0] == STAR
    ensures r.Complete? ==> 0 < r.n <= |b| && r.args != []
  {
    var lf := LineEnd(b, 1);
    if lf == |b| then More
    else if b[lf - 1] != CR then Wrong
    else
      match ParseInt(b[1..lf - 1])
      case None => Wrong
      case Some(count) =>
        if count <= 0 || count > MAX_COUNT then Wrong
        else
          match Bulks(b[lf + 1..], count)
          case Complete(args, n) => Complete(args, lf + 1 + n)
          case other => other
  }

  // ---------- a command as plain text ----------

  predicate Breaks(c: byte) {
    c == SPACE || c == QUOTE || c == APOSTROPHE
  }

  /** Length of the run before the first space or quote. */
  function Run(line: Bytes): (r: nat)
    ensures r <= |line|
    ensures r < |line| ==> Breaks(line[r])
    ensures forall i :: 0 <= i < r ==> !Breaks(line[i])
  {
    if line == [] || Breaks(line[0]) then 0 else 1 + Run(line[1..])
  }

  function Escaped(c: byte): byte {
    if c == 110 then LF else if c == 114 then CR else if c == 116 then 9 else c
  }

  /** Text up to the closing quote, and the position of that quote. */
  datatype Inside = Closed(text: Bytes, at: nat) | Open

  function Unquoted(line: Bytes, quote: byte, escape: bool): (r: Inside)
    ensures r.Closed? ==> r.at < |line|
  {
    if line == [] then Open
    else if escape then Follows(Escaped(line[0]), Unquoted(line[1..], quote, false))
    else if line[0] == quote then Closed([], 0)
    else if line[0] == BACKSLASH then
      match Unquoted(line[1..], quote, true)
      case Open => Open
      case Closed(text, at) => Closed(text, at + 1)
    else Follows(line[0], Unquoted(line[1..], quote, false))
  }

  function Follows(c: byte, r: Inside): Inside {
    match r
    case Open => Open
    case Closed(text, at) => Closed([c] + text, at + 1)
  }

  /** The arguments of a line; None for unbalanced quotes. */
  function Words(line: Bytes): Option<seq<Bytes>>
    decreases |line|, 1
  {
    var i := Run(line);
    if i == |line| then Some(if line == [] then [] else [line])
    else if line[i] == SPACE then Preceded(if i > 0 then [line[..i]] else [], Words(line[i + 1..]))
    else if i != 0 then None
    else QuotedWords(line[1..], line[0])
  }

  function QuotedWords(line: Bytes, quote: byte): Option<seq<Bytes>>
    decreases |line|, 0
  {
    match Unquoted(line, quote, false)
    case Open => None
    case Closed(text, at) =>
      var rest := line[at + 1..];
      if rest != [] && rest[0] != SPACE then None else Preceded([text], Words(rest))
  }

  function Preceded(args: seq<Bytes>, r: Option<seq<Bytes>>): Option<seq<Bytes>> {
    match r
    case None => None
    case Some(more) => Some(args + more)
  }

  function PlainFront(b: Bytes): (r: Front)
    requires b != []
    ensures r.Complete? ==> 0 < r.n <= |b|
  {
    var lf := LineEnd(b, 0);
    if lf == |b| then More
    else
      match Words(if lf > 0 && b[lf - 1] == CR then b[..lf - 1] else b[..lf])
      case None => Wrong
      case Some(args) => Complete(args, lf + 1)
  }

  // ---------- a stream of commands ----------

  function ReadFront(b: Bytes): (r: Front)
    requires b != []
    ensures r.Complete? ==> 0 < r.n <= |b|
  {
    if b[0] == STAR then RespFront(b) else PlainFront(b)
  }

  function Bulk(args: seq<Bytes>): seq<Resp.Value> {
    if args == [] then [] else [Resp.Bulk(args[0])] + Bulk(args[1..])
  }

  function PrintedCommand(args: seq<Bytes>): Bytes {
    Resp.Printed(Resp.Slice(Bulk(args)))
  }

  /** All complete commands of a stream, what is left of it, and whether it goes wrong there. */
  datatype Parsed = Parsed(cmds: seq<Command>, rest: Bytes, bad: bool)

  function Commands(b: Bytes): Parsed {
    if b == [] then Parsed([], [], false)
    else
      match ReadFront(b)
      case More => Parsed([], b, false)
      case Wrong => Parsed([], b, true)
      case Complete(args, n) => After(Parsing(b), Commands(b[n..]))
  }

  /** The command at the front, unless it is a blank line. */
  function Parsing(b: Bytes): seq<Command>
    requires b != [] && ReadFront(b).Complete?
  {
    var f := ReadFront(b);
    if f.args == [] then [] else [Command(if b[0] == STAR then b[..f.n] else PrintedCommand(f.args), f.args)]
  }

  function After(cmds: seq<Command>, p: Parsed): Parsed {
    Parsed(cmds + p.cmds, p.rest, p.bad)
  }

  // ---------- what is decided stays decided ----------

  lemma OneBulkStable(d: Bytes, x: Bytes)
    requires !OneBulk(d).More?
    ensures OneBulk(d + x) == OneBulk(d)
  {
    hide ParseInt, LineEnd;
    if d[0] == DOLLAR {
      LineEndStable(d, x, 1);
      var lf := LineEnd(d, 1);
      if d[lf - 1] == CR {
        assert (d + x)[1..lf - 1] == d[1..lf - 1];
        match ParseInt(d[1..lf - 1])
        case None =>
        case Some(size) =>
          if 0 <= size <= MAX_COUNT {
            assert (d + x)[lf + 1..lf + 1 + size] == d[lf + 1..lf + 1 + size];
          }
      }
    }
  }

  lemma {:induction false} BulksStable(d: Bytes, x: Bytes, count: nat)
    requires !Bulks(d, count).More?
    ensures Bulks(d + x, count) == Bulks(d, count)
    decreases count
  {
    hide OneBulk;
    if count > 0 {
      OneBulkStable(d, x);
      if OneBulk(d).Complete? {
        var n := OneBulk(d).n;
        assert (d + x)[n..] == d[n..] + x;
        BulksStable(d[n..], x, count - 1);
      }
    }
  }

  lemma RespStable(b: Bytes, x: Bytes)
    requires b != [] && b[0] == STAR && !RespFront(b).More?
    ensures RespFront(b + x) == RespFront(b)
  {
    hide ParseInt, Bulks, LineEnd;
    LineEndStable(b, x, 1);
    var lf := LineEnd(b, 1);
    if b[lf - 1] == CR {
      assert (b + x)[1..lf - 1] == b[1..lf - 1];
      match ParseInt(b[1..lf - 1])
      case None =>
      case Some(count) =>
        if 0 < count <= MAX_COUNT {
          assert (b + x)[lf + 1..] == b[lf + 1..] + x;
          BulksStable(b[lf + 1..], x, count);
        }
    }
  }

  lemma PlainStable(b: Bytes, x: Bytes)
    requires b != [] && !PlainFront(b).More?
    ensures PlainFront(b + x) == PlainFront(b)
  {
    hide Words;
    LineEndStable(b, x, 0);
    var lf := LineEnd(b, 0);
    assert (b + x)[..lf] == b[..lf];
    if lf > 0 {
      assert (b + x)[..lf - 1] == b[..lf - 1];
    }
  }

  /** More bytes never change a front that was complete or wrong. */
  lemma FrontStable(b: Bytes, x: Bytes)
    requires b != [] && !ReadFront(b).More?
    ensures ReadFront(b + x) == ReadFront(b)
  {
    hide RespFront, PlainFront;
    if b[0] == STAR {
      RespStable(b, x);
    } else {
      PlainStable(b, x);
    }
  }

  /**
   * Parsing may stop anywhere and go on with what was left: this is why the reader may cut the
   * stream where the network does.
   */
  lemma {:induction false} CommandsAppend(b: Bytes, x: Bytes)
    ensures !Commands(b).bad ==> Commands(b + x) == After(Commands(b).cmds, Commands(Commands(b).rest + x))
    ensures Commands(b).bad ==> Commands(b + x) == Parsed(Commands(b).cmds, Commands(b).rest + x, true)
  {
    hide ReadFront, PrintedCommand, Commands;
    CommandsStep(b);
    CommandsStep(b + x);
    if b == [] {
      assert b + x == x;
      NothingAfter(Commands(x));
    } else if ReadFront(b).More? {
      NothingAfter(Commands(b + x));
    } else {
      FrontStable(b, x);
      if ReadFront(b).Complete? {
        var n := ReadFront(b).n;
        assert (b + x)[n..] == b[n..] + x;
        assert (b + x)[..n] == b[..n];
        CommandsAppend(b[n..], x);
        AfterAfter(Parsing(b), Commands(b[n..]).cmds, Commands(Commands(b[n..]).rest + x));
      }
    }
  }

  lemma CommandsStep(b: Bytes)
    ensures b == [] ==> Commands(b) == Parsed([], [], false)
    ensures b != [] && ReadFront(b).More? ==> Commands(b) == Parsed([], b, false)
    ensures b != [] && ReadFront(b).Wrong? ==> Commands(b) == Parsed([], b, true)
    ensures b != [] && ReadFront(b).Complete? ==> Commands(b) == After(Parsing(b), Commands(b[ReadFront(b).n..]))
  {
  }

  lemma NothingAfter(p: Parsed)
    ensures After([], p) == p
  {
  }

  lemma AfterAfter(a: seq<Command>, b: seq<Command>, p: Parsed)
    ensures After(a, After(b, p)) == After(a + b, p)
  {
  }

  // ---------- the requests there are ----------

  /** A command as the protocol spells it, with whatever text stands for its lengths. */
  datatype Argument = Argument(text: Bytes, arg: Bytes)

  datatype Request = Request(text: Bytes, args: seq<Argument>)

  predicate CorrectArgument(a: Argument) {
    ParseInt(a.text) == Some(|a.arg|) && |a.arg| <= 1048576
  }

  predicate CorrectArguments(args: seq<Argument>) {
    forall i :: 0 <= i < |args| ==> CorrectArgument(args[i])
  }

  predicate CorrectRequest(r: Request) {
    0 < |r.args| <= 1048576 && ParseInt(r.text) == Some(|r.args|) && CorrectArguments(r.args)
  }

  function ArgumentBytes(a: Argument): Bytes {
    [36] + a.text + [13, 10] + a.arg + [13, 10]
  }

  function ArgumentsBytes(args: seq<Argument>): Bytes {
    if args == [] then [] else ArgumentBytes(args[0]) + ArgumentsBytes(args[1..])
  }

  function RequestBytes(r: Request): Bytes {
    [42] + r.text + [13, 10] + ArgumentsBytes(r.args)
  }

  function Given(args: seq<Argument>): seq<Bytes> {
    seq(|args|, i requires 0 <= i < |args| => args[i].arg)
  }

  lemma CountOneLine(text: Bytes)
    requires ParseInt(text).Some?
    ensures NoLF(text)
  {
    hide Accumulated;
    assert text != [] ==> text == [text[0]] + text[1..];
  }

  lemma ArgumentIsRead(a: Argument, x: Bytes)
    requires CorrectArgument(a)
    ensures OneBulk(ArgumentBytes(a) + x) == Complete([a.arg], |ArgumentBytes(a)|)
  {
    hide ParseInt, LineEnd;
    CountOneLine(a.text);
    var d := ArgumentBytes(a) + x;
    assert d == [DOLLAR] + a.text + [CR, LF] + (a.arg + [CR, LF] + x);
    Resp.HeadRead(d, DOLLAR, a.text, a.arg + [CR, LF] + x);
    TailOfBulk(d, |a.text| + 3, a.arg, x);
  }

  lemma TailOfBulk(d: Bytes, i: nat, a: Bytes, x: Bytes)
    requires i <= |d| && d[i..] == a + [CR, LF] + x
    ensures i + |a| + 1 < |d| && d[i + |a|] == CR && d[i + |a| + 1] == LF && d[i..i + |a|] == a
  {
    assert d[i..][|a|] == CR && d[i..][|a| + 1] == LF;
    assert d[i..][..|a|] == a;
  }

  lemma {:induction false} ArgumentsAreRead(args: seq<Argument>, x: Bytes)
    requires CorrectArguments(args)
    ensures Bulks(ArgumentsBytes(args) + x, |args|) == Complete(Given(args), |ArgumentsBytes(args)|)
  {
    hide OneBulk, ArgumentBytes, Bulks, CorrectArgument;
    if args == [] {
      NoBulks(ArgumentsBytes(args) + x);
    } else {
      var first, rest := ArgumentBytes(args[0]), ArgumentsBytes(args[1..]);
      ArgumentIsRead(args[0], rest + x);
      ArgumentsAreRead(args[1..], x);
      assert ArgumentsBytes(args) + x == first + (rest + x);
      assert Given(args) == [args[0].arg] + Given(args[1..]);
      FirstBulk(first, rest + x, Given(args), |rest|);
    }
  }

  lemma NoBulks(d: Bytes)
    ensures Bulks(d, 0) == Complete([], 0)
  {
  }

  lemma FirstBulk(first: Bytes, tail: Bytes, args: seq<Bytes>, n: nat)
    requires args != [] && OneBulk(first + tail) == Complete([args[0]], |first|)
    requires Bulks(tail, |args| - 1) == Complete(args[1..], n)
    ensures Bulks(first + tail, |args|) == Complete(args, |first| + n)
  {
    hide OneBulk;
    assert (first + tail)[|first|..] == tail;
    assert args == [args[0]] + args[1..];
  }

  /** Every such request is read, and nothing beyond it is touched. */
  lemma RequestIsRead(r: Request, x: Bytes)
    requires CorrectRequest(r)
    ensures RequestBytes(r)[0] == STAR
    ensures RespFront(RequestBytes(r) + x) == Complete(Given(r.args), |RequestBytes(r)|)
  {
    hide ParseInt, LineEnd, Bulks, ArgumentsBytes, Given;
    CountOneLine(r.text);
    var b, items := RequestBytes(r) + x, ArgumentsBytes(r.args);
    assert b == [STAR] + r.text + [CR, LF] + (items + x);
    Resp.HeadRead(b, STAR, r.text, items + x);
    ArgumentsAreRead(r.args, x);
    assert b[|r.text| + 3..] == items + x;
  }

  lemma ReadIsArgument(d: Bytes) returns (a: Argument)
    requires OneBulk(d).Complete?
    ensures CorrectArgument(a) && OneBulk(d).args == [a.arg] && ArgumentBytes(a) == d[..OneBulk(d).n]
  {
    hide ParseInt;
    var lf := LineEnd(d, 1);
    var text := d[1..lf - 1];
    var size := ParseInt(text).value;
    a := Argument(text, d[lf + 1..lf + 1 + size]);
    assert d[..lf + 1] == [d[0]] + text + [13, 10];
    assert d[..lf + size + 3] == d[..lf + 1] + a.arg + [13, 10];
  }

  lemma {:induction false} ReadIsArguments(d: Bytes, count: nat) returns (args: seq<Argument>)
    requires Bulks(d, count).Complete?
    ensures CorrectArguments(args) && Bulks(d, count).args == Given(args) && ArgumentsBytes(args) == d[..Bulks(d, count).n]
    decreases count
  {
    hide OneBulk, CorrectArgument, ArgumentBytes;
    args := [];
    if count > 0 {
      var n := OneBulk(d).n;
      var first := ReadIsArgument(d);
      var rest := ReadIsArguments(d[n..], count - 1);
      args := [first] + rest;
      var m := Bulks(d[n..], count - 1).n;
      assert d[..n + m] == d[..n] + d[n..][..m];
      assert args[1..] == rest;
    }
  }

  /** And whatever is read as a request is spelled like that. */
  lemma ReadIsRequest(b: Bytes) returns (r: Request)
    requires b != [] && b[0] == STAR && RespFront(b).Complete?
    ensures CorrectRequest(r) && RespFront(b).args == Given(r.args) && RequestBytes(r) == b[..RespFront(b).n]
  {
    hide ParseInt, Bulks, ArgumentsBytes, CorrectArguments;
    var lf := LineEnd(b, 1);
    var text := b[1..lf - 1];
    var args := ReadIsArguments(b[lf + 1..], ParseInt(text).value);
    var m := Bulks(b[lf + 1..], ParseInt(text).value).n;
    r := Request(text, args);
    assert b[..lf + 1 + m] == [b[0]] + text + [13, 10] + b[lf + 1..][..m];
  }

  /** The beginning of an argument: nothing, an unfinished length, or a length and too few bytes. */
  ghost predicate HalfArgument(d: Bytes) {
    d == [] || (d[0] == 36 && (10 !in d || exists text, data :: CutOff(d, text, data)))
  }

  ghost predicate CutOff(d: Bytes, text: Bytes, data: Bytes) {
    && d == [36] + text + [13, 10] + data
    && ParseInt(text).Some? && 0 <= ParseInt(text).value <= 1048576 && |data| < ParseInt(text).value + 2
  }

  lemma MoreOfArgument(d: Bytes)
    ensures OneBulk(d).More? <==> HalfArgument(d)
  {
    hide ParseInt;
    if d != [] && d[0] == DOLLAR && 10 in d {
      if OneBulk(d).More? {
        var lf := LineEnd(d, 1);
        var text := d[1..lf - 1];
        assert d[..lf + 1] == [36] + text + [13, 10];
        assert CutOff(d, text, d[lf + 1..]);
      }
      if exists t, data :: CutOff(d, t, data) {
        var t, data :| CutOff(d, t, data);
        CountOneLine(t);
        Resp.HeadRead(d, 36, t, data);
      }
    }
  }

  /** Some arguments, and half of the next one. */
  ghost predicate Unfinished(d: Bytes, count: nat, args: seq<Argument>, half: Bytes) {
    CorrectArguments(args) && |args| < count && d == ArgumentsBytes(args) + half && HalfArgument(half)
  }

  lemma {:induction false} MoreIsUnfinished(d: Bytes, count: nat) returns (args: seq<Argument>, half: Bytes)
    requires Bulks(d, count).More?
    ensures Unfinished(d, count, args, half)
    decreases count
  {
    hide OneBulk, CorrectArgument, ArgumentBytes, HalfArgument;
    MoreOfArgument(d);
    args, half := [], d;
    if OneBulk(d).Complete? {
      var first := ReadIsArgument(d);
      args, half := MoreIsUnfinished(d[OneBulk(d).n..], count - 1);
      ArgumentAhead(first, args);
      args := [first] + args;
    } else {
      assert [] + d == d;
    }
  }

  lemma ArgumentAhead(a: Argument, args: seq<Argument>)
    ensures ArgumentsBytes([a] + args) == ArgumentBytes(a) + ArgumentsBytes(args)
  {
    hide ArgumentBytes;
    assert ([a] + args)[1..] == args;
  }

  lemma {:induction false} UnfinishedIsMore(d: Bytes, count: nat, args: seq<Argument>, half: Bytes)
    requires Unfinished(d, count, args, half)
    ensures Bulks(d, count).More?
    decreases count
  {
    hide OneBulk, CorrectArgument, ArgumentBytes, HalfArgument;
    if args == [] {
      assert d == half;
      MoreOfArgument(d);
    } else {
      var tail := ArgumentsBytes(args[1..]) + half;
      assert d == ArgumentBytes(args[0]) + tail;
      ArgumentIsRead(args[0], tail);
      assert d[|ArgumentBytes(args[0])|..] == tail;
      UnfinishedIsMore(tail, count - 1, args[1..], half);
    }
  }

  /** The beginning of a request: an unfinished first line, or a count and too little behind it. */
  ghost predicate HalfRequest(b: Bytes) {
    10 !in b || exists text, args, half :: Interrupted(b, text, args, half)
  }

  ghost predicate Interrupted(b: Bytes, text: Bytes, args: seq<Argument>, half: Bytes) {
    && ParseInt(text).Some? && 0 < ParseInt(text).value <= 1048576
    && b == [42] + text + [13, 10] + (ArgumentsBytes(args) + half)
    && Unfinished(ArgumentsBytes(args) + half, ParseInt(text).value, args, half)
  }

  /** The reader waits for more exactly at the beginning of a request; so it refuses what is neither that nor a request. */
  lemma MoreOfRequest(b: Bytes)
    requires b != [] && b[0] == STAR
    ensures RespFront(b).More? <==> HalfRequest(b)
  {
    hide ParseInt, Bulks, Unfinished;
    if 10 in b {
      if RespFront(b).More? {
        var lf := LineEnd(b, 1);
        var text := b[1..lf - 1];
        var args, half := MoreIsUnfinished(b[lf + 1..], ParseInt(text).value);
        SameBytes(b[lf + 1..], ParseInt(text).value, args, half);
        assert b[..lf + 1] == [42] + text + [13, 10];
        assert Interrupted(b, text, args, half);
      }
      if exists t, args, half :: Interrupted(b, t, args, half) {
        var t, args, half :| Interrupted(b, t, args, half);
        CountOneLine(t);
        Resp.HeadRead(b, 42, t, ArgumentsBytes(args) + half);
        UnfinishedIsMore(ArgumentsBytes(args) + half, ParseInt(t).value, args, half);
      }
    }
  }

  lemma SameBytes(d: Bytes, count: nat, args: seq<Argument>, half: Bytes)
    requires Unfinished(d, count, args, half)
    ensures d == ArgumentsBytes(args) + half
  {
  }

  // ---------- what was printed is what is read ----------

  /** Arguments within the limits of the reader. */
  predicate Sendable(args: seq<Bytes>) {
    0 < |args| <= MAX_COUNT && forall i :: 0 <= i < |args| ==> |args[i]| <= MAX_COUNT
  }

  lemma BulkLength(args: seq<Bytes>)
    ensures |Bulk(args)| == |args|
  {
  }

  function Numbered(args: seq<Bytes>): seq<Argument> {
    seq(|args|, i requires 0 <= i < |args| => Argument(FormatInt(|args[i]|), args[i]))
  }

  lemma {:induction false} PrintedIsSpelled(args: seq<Bytes>)
    ensures Resp.PrintedItems(Bulk(args)) == ArgumentsBytes(Numbered(args)) && Given(Numbered(args)) == args
  {
    hide FormatInt;
    if args != [] {
      PrintedIsSpelled(args[1..]);
      assert Bulk(args)[1..] == Bulk(args[1..]);
      assert Numbered(args)[1..] == Numbered(args[1..]);
    }
  }

  /** A printed command at the front of a buffer is read back, and nothing beyond it is touched. */
  lemma PrintedFront(args: seq<Bytes>, x: Bytes)
    requires Sendable(args)
    ensures PrintedCommand(args) != [] && PrintedCommand(args)[0] == STAR
    ensures RespFront(PrintedCommand(args) + x) == Complete(args, |PrintedCommand(args)|)
  {
    hide ParseInt, FormatInt, ArgumentsBytes, Bulk, Resp.PrintedItems, RespFront, Given;
    BulkLength(args);
    PrintedIsSpelled(args);
    ParsedAsWritten(|args|);
    forall i | 0 <= i < |args| ensures CorrectArgument(Numbered(args)[i]) {
      ParsedAsWritten(|args[i]|);
    }
    RequestIsRead(Request(FormatInt(|args|), Numbered(args)), x);
  }

  function PrintedAll(all: seq<seq<Bytes>>): Bytes {
    if all == [] then [] else PrintedCommand(all[0]) + PrintedAll(all[1..])
  }

  function AllCommands(all: seq<seq<Bytes>>): seq<Command> {
    seq(|all|, i requires 0 <= i < |all| => Command(PrintedCommand(all[i]), all[i]))
  }

  /** A pipeline of printed commands parses to those commands, whatever comes after it. */
  lemma {:induction false} PrintedStream(all: seq<seq<Bytes>>, x: Bytes)
    requires forall i :: 0 <= i < |all| ==> Sendable(all[i])
    ensures Commands(PrintedAll(all) + x) == After(AllCommands(all), Commands(x))
  {
    hide Commands, RespFront, PlainFront, PrintedCommand;
    if all == [] {
      NothingAfter(Commands(x));
      assert PrintedAll(all) + x == x;
    } else {
      var first, tail := PrintedCommand(all[0]), PrintedAll(all[1..]) + x;
      PrintedStream(all[1..], x);
      PrintedFront(all[0], tail);
      var b := PrintedAll(all) + x;
      assert b == first + tail;
      assert b[|first|..] == tail && b[..|first|] == first;
      CommandsStep(b);
      AfterAfter([Command(first, all[0])], AllCommands(all[1..]), Commands(x));
      assert AllCommands(all) == [Command(first, all[0])] + AllCommands(all[1..]);
    }
  }

  // ---------- the lines there are ----------

  /** A byte of quoted text as it stands, or behind a backslash. */
  datatype Piece = Bare(c: byte) | Slashed(c: byte)

  function PieceBytes(p: Piece): Bytes {
    if p.Bare? then [p.c] else [92, p.c]
  }

  /** Behind a backslash n, r and t stand for a line feed, a carriage return and a tab. */
  function Meant(p: Piece): byte {
    if p.Bare? then p.c else if p.c == 110 then 10 else if p.c == 114 then 13 else if p.c == 116 then 9 else p.c
  }

  function Body(ps: seq<Piece>): Bytes {
    if ps == [] then [] else PieceBytes(ps[0]) + Body(ps[1..])
  }

  function Meaning(ps: seq<Piece>): Bytes {
    seq(|ps|, i requires 0 <= i < |ps| => Meant(ps[i]))
  }

  datatype Token = Space | Word(w: Bytes) | Text(quote: byte, ps: seq<Piece>)

  predicate CorrectToken(t: Token) {
    match t
    case Space => true
    case Word(w) => w != [] && 32 !in w && 34 !in w && 39 !in w
    case Text(q, ps) => q in [34, 39] && forall i :: 0 <= i < |ps| && ps[i].Bare? ==> ps[i].c != q && ps[i].c != 92
  }

  function TokenBytes(t: Token): Bytes {
    match t
    case Space => [32]
    case Word(w) => w
    case Text(q, ps) => [q] + Body(ps) + [q]
  }

  /** Words and quoted texts are apart by spaces, as many as you like. */
  predicate CorrectLine(ts: seq<Token>) {
    && (forall i :: 0 <= i < |ts| ==> CorrectToken(ts[i]))
    && forall i :: 0 <= i < |ts| - 1 && !ts[i].Space? ==> ts[i + 1].Space?
  }

  function LineBytes(ts: seq<Token>): Bytes {
    if ts == [] then [] else TokenBytes(ts[0]) + LineBytes(ts[1..])
  }

  function ArgOf(t: Token): seq<Bytes> {
    match t
    case Space => []
    case Word(w) => [w]
    case Text(_, ps) => [Meaning(ps)]
  }

  function ArgsOf(ts: seq<Token>): seq<Bytes> {
    if ts == [] then [] else ArgOf(ts[0]) + ArgsOf(ts[1..])
  }

  lemma {:induction false} BodyIsRead(ps: seq<Piece>, quote: byte, rest: Bytes)
    requires CorrectToken(Text(quote, ps))
    ensures Unquoted(Body(ps) + ([quote] + rest), quote, false) == Closed(Meaning(ps), |Body(ps)|)
  {
    hide Unquoted, PieceBytes, Meant;
    if ps == [] {
      ClosedAtOnce(quote, rest);
      assert Body(ps) + ([quote] + rest) == [quote] + rest;
    } else {
      var tail := Body(ps[1..]) + ([quote] + rest);
      BodyIsRead(ps[1..], quote, rest);
      assert Body(ps) + ([quote] + rest) == PieceBytes(ps[0]) + tail;
      PieceIsRead(ps[0], quote, tail);
      assert Meaning(ps) == [Meant(ps[0])] + Meaning(ps[1..]);
    }
  }

  lemma ClosedAtOnce(quote: byte, rest: Bytes)
    ensures Unquoted([quote] + rest, quote, false) == Closed([], 0)
  {
  }

  lemma PieceIsRead(p: Piece, quote: byte, tail: Bytes)
    requires Unquoted(tail, quote, false).Closed? && quote in [34, 39] && (p.Bare? ==> p.c != quote && p.c != 92)
    ensures var r := Unquoted(tail, quote, false);
            Unquoted(PieceBytes(p) + tail, quote, false) == Closed([Meant(p)] + r.text, |PieceBytes(p)| + r.at)
  {
    var line := PieceBytes(p) + tail;
    if p.Bare? {
      assert line[1..] == tail;
    } else {
      assert line[1..] == [p.c] + tail;
      assert line[1..][1..] == tail;
    }
  }

  /** Every such line is split into the arguments it stands for. */
  lemma {:induction false} LineIsRead(ts: seq<Token>)
    requires CorrectLine(ts)
    ensures Words(LineBytes(ts)) == Some(ArgsOf(ts))
  {
    hide Words, Unquoted, Body, Meaning;
    if ts == [] {
      NoMoreWords();
    } else {
      var rest := LineBytes(ts[1..]);
      LineIsRead(ts[1..]);
      assert ts[0].Space? || rest == [] || rest[0] == 32 by {
        if |ts| > 1 && !ts[0].Space? {
          assert ts[1].Space?;
        }
      }
      match ts[0]
      case Space =>
        SpaceIsSkipped(rest);
      case Word(w) => WordIsRead(w, rest);
      case Text(q, ps) =>
        BodyIsRead(ps, q, rest);
        TextIsRead(q, Body(ps), Meaning(ps), rest);
        assert [q] + Body(ps) + [q] + rest == [q] + (Body(ps) + ([q] + rest));
    }
  }

  lemma RunOfWord(w: Bytes, rest: Bytes)
    requires CorrectToken(Word(w)) && (rest == [] || rest[0] == 32)
    ensures Run(w + rest) == |w|
  {
    hide Run;
    var line := w + rest;
    forall i | 0 <= i < |w| ensures !Breaks(line[i]) {
      assert line[i] == w[i] && w[i] in w;
    }
    assert rest != [] ==> Breaks(line[|w|]);
  }

  lemma NoMoreWords()
    ensures Words([]) == Some([])
  {
  }

  lemma SpaceIsSkipped(rest: Bytes)
    ensures Words([SPACE] + rest) == Preceded([], Words(rest))
  {
    assert ([SPACE] + rest)[1..] == rest;
  }

  lemma WordIsRead(w: Bytes, rest: Bytes)
    requires CorrectToken(Word(w)) && (rest == [] || rest[0] == 32)
    ensures Words(w + rest) == Preceded([w], Words(rest))
  {
    hide QuotedWords, Run, Preceded;
    RunOfWord(w, rest);
    var line := w + rest;
    assert line[..|w|] == w;
    if rest == [] {
      assert line == w;
      NoMoreWords();
      LastOne(w);
    } else {
      assert line[|w| + 1..] == rest[1..] && rest == [32] + rest[1..];
      SpaceIsSkipped(rest[1..]);
      PrecededNothing(Words(rest[1..]));
    }
  }

  lemma LastOne(w: Bytes)
    ensures Preceded([w], Some([])) == Some([w])
  {
    assert [w] + [] == [w];
  }

  lemma PrecededNothing(r: Option<seq<Bytes>>)
    ensures Preceded([], r) == r
  {
    assert r.Some? ==> [] + r.value == r.value;
  }

  lemma QuoteFirst(line: Bytes)
    requires line != [] && line[0] in [34, 39]
    ensures Run(line) == 0 && Words(line) == QuotedWords(line[1..], line[0])
  {
    hide QuotedWords;
  }

  lemma QuotedIs(line: Bytes, quote: byte, text: Bytes, at: nat)
    requires Unquoted(line, quote, false) == Closed(text, at) && at < |line|
    requires line[at + 1..] == [] || line[at + 1..][0] == 32
    ensures QuotedWords(line, quote) == Preceded([text], Words(line[at + 1..]))
  {
    hide Unquoted, Words, Preceded;
  }

  lemma AroundQuote(q: byte, body: Bytes, rest: Bytes)
    ensures var line := [q] + (body + ([q] + rest));
            && line[0] == q && line[1..] == body + ([q] + rest)
            && |body| < |line[1..]| && line[1..][|body| + 1..] == rest
  {
  }

  lemma TextIsRead(q: byte, body: Bytes, text: Bytes, rest: Bytes)
    requires q in [34, 39] && (rest == [] || rest[0] == 32)
    requires Unquoted(body + ([q] + rest), q, false) == Closed(text, |body|)
    ensures Words([q] + (body + ([q] + rest))) == Preceded([text], Words(rest))
  {
    hide *;
    var line := [q] + (body + ([q] + rest));
    AroundQuote(q, body, rest);
    QuoteFirst(line);
    QuotedIs(line[1..], q, text, |body|);
  }

  /** The first piece of a quoted text, and what is behind it. */
  lemma FirstPiece(line: Bytes, quote: byte) returns (p: Piece, tail: Bytes)
    requires Unquoted(line, quote, false).Closed? && line != [] && line[0] != quote && quote in [34, 39]
    ensures line == PieceBytes(p) + tail && |tail| < |line| && (p.Bare? ==> p.c != quote && p.c != 92)
    ensures Unquoted(tail, quote, false).Closed?
  {
    p := if line[0] == BACKSLASH then Slashed(line[1]) else Bare(line[0]);
    tail := line[|PieceBytes(p)|..];
    assert line[1..][1..] == line[2..];
  }

  lemma {:induction false} PiecesOf(line: Bytes, quote: byte) returns (ps: seq<Piece>)
    requires Unquoted(line, quote, false).Closed? && quote in [34, 39]
    ensures var r := Unquoted(line, quote, false);
            CorrectToken(Text(quote, ps)) && Body(ps) == line[..r.at] && line[r.at] == quote && Meaning(ps) == r.text
    decreases |line|
  {
    hide Unquoted, PieceBytes, Meant;
    NeverClosed(quote);
    if line[0] == quote {
      ps := [];
      assert line == [quote] + line[1..];
      ClosedAtOnce(quote, line[1..]);
      assert line[..0] == [];
    } else {
      var p, tail := FirstPiece(line, quote);
      PieceIsRead(p, quote, tail);
      var more := PiecesOf(tail, quote);
      var at := Unquoted(tail, quote, false).at;
      ps := [p] + more;
      PieceAhead(p, more);
      assert line[..|PieceBytes(p)| + at] == PieceBytes(p) + tail[..at];
    }
  }

  lemma NeverClosed(quote: byte)
    ensures Unquoted([], quote, false).Open?
  {
  }

  lemma PieceAhead(p: Piece, ps: seq<Piece>)
    ensures Body([p] + ps) == PieceBytes(p) + Body(ps) && Meaning([p] + ps) == [Meant(p)] + Meaning(ps)
  {
    assert ([p] + ps)[1..] == ps;
  }

  /** And every line that is split at all is such a line. */
  lemma {:induction false} ReadIsLine(line: Bytes) returns (ts: seq<Token>)
    requires Words(line).Some?
    ensures CorrectLine(ts) && LineBytes(ts) == line && Words(line).value == ArgsOf(ts)
    decreases |line|
  {
    hide Unquoted, Body, Meaning, LineBytes, ArgsOf;
    ts := [];
    if line == [] {
      NoTokens();
    } else {
      var t, rest := FirstToken(line);
      var more := ReadIsLine(rest);
      StartsWithSpace(more);
      TokenAhead(t, more);
      ts := [t] + more;
    }
  }

  lemma NoTokens()
    ensures LineBytes([]) == [] && ArgsOf([]) == [] && Words([]) == Some([])
  {
  }

  lemma TokenAhead(t: Token, ts: seq<Token>)
    ensures LineBytes([t] + ts) == TokenBytes(t) + LineBytes(ts) && ArgsOf([t] + ts) == ArgOf(t) + ArgsOf(ts)
  {
    assert ([t] + ts)[1..] == ts;
  }

  lemma StartsWithSpace(ts: seq<Token>)
    requires CorrectLine(ts)
    ensures ts == [] ==> LineBytes(ts) == []
    ensures ts != [] ==> LineBytes(ts) != [] && (LineBytes(ts)[0] == 32 ==> ts[0].Space?)
  {
    if ts != [] && ts[0].Word? {
      assert ts[0].w[0] in ts[0].w;
    }
  }

  lemma FirstToken(line: Bytes) returns (t: Token, rest: Bytes)
    requires line != [] && Words(line).Some?
    ensures CorrectToken(t) && line == TokenBytes(t) + rest && |rest| < |line|
    ensures t.Space? || rest == [] || rest[0] == 32
    ensures Words(rest).Some? && Words(line).value == ArgOf(t) + Words(rest).value
  {
    hide Words, Unquoted, Body, Meaning, Run, Preceded;
    var i := Run(line);
    if i > 0 {
      t, rest := Word(line[..i]), line[i..];
      FirstWord(line);
      assert line == line[..i] + rest;
      WordIsRead(line[..i], rest);
      PrecededIs(ArgOf(t), Words(rest), Words(line));
    } else if line[0] == SPACE {
      t, rest := Space, line[1..];
      assert line == [32] + rest;
      SpaceIsSkipped(rest);
      PrecededIs(ArgOf(t), Words(rest), Words(line));
    } else {
      t, rest := FirstText(line);
    }
  }

  lemma FirstText(line: Bytes) returns (t: Token, rest: Bytes)
    requires line != [] && Run(line) == 0 && line[0] != SPACE && Words(line).Some?
    ensures CorrectToken(t) && line == TokenBytes(t) + rest && |rest| < |line| && (rest == [] || rest[0] == 32)
    ensures Words(rest).Some? && Words(line).value == ArgOf(t) + Words(rest).value
  {
    hide Words, Unquoted, Body, Meaning, Run, Preceded, CorrectToken;
    var q := line[0];
    var at, ps := InFirstText(line);
    t, rest := Text(q, ps), line[1..][at + 1..];
    assert line[1..] == line[1..][..at] + ([q] + rest);
    assert line == [q] + (Body(ps) + ([q] + rest));
    TextIsRead(q, Body(ps), Meaning(ps), rest);
    PrecededIs(ArgOf(t), Words(rest), Words(line));
  }

  lemma PrecededIs(args: seq<Bytes>, r: Option<seq<Bytes>>, all: Option<seq<Bytes>>)
    requires all == Preceded(args, r) && all.Some?
    ensures r.Some? && all.value == args + r.value
  {
  }

  lemma FirstWord(line: Bytes)
    requires Run(line) > 0 && Words(line).Some?
    ensures CorrectToken(Word(line[..Run(line)])) && (Run(line) == |line| || line[Run(line)] == 32)
  {
    hide QuotedWords;
    var i := Run(line);
    forall c | c in line[..i] ensures !Breaks(c) {
      var j :| 0 <= j < i && line[..i][j] == c;
      assert line[j] == c;
    }
  }

  lemma InFirstText(line: Bytes) returns (at: nat, ps: seq<Piece>)
    requires line != [] && Run(line) == 0 && line[0] != SPACE && Words(line).Some?
    ensures line[0] in [34, 39] && at < |line| - 1 && Unquoted(line[1..], line[0], false) == Closed(Meaning(ps), at)
    ensures CorrectToken(Text(line[0], ps)) && Body(ps) == line[1..][..at] && line[1..][at] == line[0]
    ensures at + 2 == |line| || line[1..][at + 1] == 32
  {
    hide Unquoted, Body, Meaning, Preceded;
    var inside := Unquoted(line[1..], line[0], false);
    at := inside.at;
    ps := PiecesOf(line[1..], line[0]);
    assert line[1..][at + 1..] != [] ==> line[1..][at + 1..][0] == line[1..][at + 1];
  }

  // ---------- a line typed with quotes ----------

  function PieceFor(c: byte): Piece {
    if c == LF then Slashed(110)
    else if c == CR then Slashed(114)
    else if c == QUOTE || c == BACKSLASH then Slashed(c)
    else Bare(c)
  }

  function Quoted(w: Bytes): Token {
    Text(QUOTE, seq(|w|, i requires 0 <= i < |w| => PieceFor(w[i])))
  }

  function Tokens(args: seq<Bytes>): seq<Token>
    requires args != []
  {
    if |args| == 1 then [Quoted(args[0])] else [Quoted(args[0]), Space] + Tokens(args[1..])
  }

  function Typed(args: seq<Bytes>): Bytes
    requires args != []
  {
    LineBytes(Tokens(args))
  }

  lemma QuotedMeans(w: Bytes)
    ensures CorrectToken(Quoted(w)) && ArgOf(Quoted(w)) == [w] && NoLF(TokenBytes(Quoted(w)))
  {
    assert Meaning(Quoted(w).ps) == w;
    BodyNoLF(Quoted(w).ps);
  }

  lemma {:induction false} BodyNoLF(ps: seq<Piece>)
    requires forall i :: 0 <= i < |ps| ==> ps[i].c != LF
    ensures NoLF(Body(ps))
  {
    if ps != [] {
      BodyNoLF(ps[1..]);
    }
  }

  lemma {:induction false} TokensMean(args: seq<Bytes>)
    requires args != []
    ensures CorrectLine(Tokens(args)) && ArgsOf(Tokens(args)) == args
    ensures Tokens(args)[0] == Quoted(args[0]) && NoLF(LineBytes(Tokens(args)))
  {
    hide Quoted, CorrectToken, TokenBytes, ArgOf;
    QuotedMeans(args[0]);
    QuotedIsText(args[0]);
    LineOfOne(Quoted(args[0]));
    if |args| > 1 {
      var more := Tokens(args[1..]);
      TokensMean(args[1..]);
      SpaceMeans();
      TokenAhead(Space, more);
      TokenAhead(Quoted(args[0]), [Space] + more);
      assert Tokens(args) == [Quoted(args[0])] + ([Space] + more);
      assert args == [args[0]] + args[1..];
    }
  }

  lemma QuotedIsText(w: Bytes)
    ensures Quoted(w).Text? && TokenBytes(Quoted(w)) != [] && TokenBytes(Quoted(w))[0] == QUOTE
  {
  }

  lemma SpaceMeans()
    ensures CorrectToken(Space) && ArgOf(Space) == [] && NoLF(TokenBytes(Space))
  {
  }

  lemma LineOfOne(t: Token)
    ensures LineBytes([t]) == TokenBytes(t) && ArgsOf([t]) == ArgOf(t)
  {
    assert [t] == [t] + [];
    TokenAhead(t, []);
  }

  /** Any arguments at all can be typed as one line. */
  lemma TypedWords(args: seq<Bytes>)
    requires args != []
    ensures Typed(args) != [] && Typed(args)[0] == QUOTE && NoLF(Typed(args))
    ensures Words(Typed(args)) == Some(args)
  {
    hide Words, Quoted, CorrectLine;
    TokensMean(args);
    QuotedIsText(args[0]);
    LineIsRead(Tokens(args));
  }

  lemma TypedLine(args: seq<Bytes>, x: Bytes)
    requires args != []
    ensures var b := Typed(args) + [CR, LF] + x;
            b[0] != STAR && PlainFront(b) == Complete(args, |Typed(args)| + 2)
  {
    hide Words, Typed;
    TypedWords(args);
    LineFront(Typed(args), x);
  }

  /** A front of plain text is a line, with or without a carriage return, and its words. */
  lemma LineFront(line: Bytes, x: Bytes)
    requires NoLF(line)
    ensures var r := Words(line);
            && PlainFront(line + [13, 10] + x) == (if r.None? then Wrong else Complete(r.value, |line| + 2))
            && (line == [] || line[|line| - 1] != 13 ==>
                  PlainFront(line + [10] + x) == if r.None? then Wrong else Complete(r.value, |line| + 1))
    ensures line != [] ==> PlainFront(line) == More
  {
    hide Words;
    HeadLine(line + [13, 10] + x, line, x, 0);
    var b := line + [10] + x;
    assert forall j :: 0 <= j < |line| ==> b[j] == line[j];
    LineEndIs(b, 0, |line|);
    assert b[..|line|] == line;
  }

  /** A typed line in the stream is the same command as a printed one. */
  lemma TypedCommand(args: seq<Bytes>, x: Bytes)
    requires args != []
    ensures Commands(Typed(args) + [CR, LF] + x) == After([Command(PrintedCommand(args), args)], Commands(x))
  {
    hide Commands, Typed, PlainFront, RespFront, PrintedCommand;
    TypedLine(args, x);
    var b := Typed(args) + [CR, LF] + x;
    CommandsStep(b);
    assert b[|Typed(args)| + 2..] == x;
  }

  /** Blank lines are no commands. */
  lemma BlankLine(x: Bytes)
    ensures Commands([CR, LF] + x) == Commands(x)
  {
    hide Commands, PlainFront, RespFront, PrintedCommand, Words;
    LineFront([], x);
    NoMoreWords();
    assert [] + [CR, LF] + x == [CR, LF] + x;
    var b := [CR, LF] + x;
    CommandsStep(b);
    assert b[2..] == x;
    NothingAfter(Commands(x));
  }
}
