/** redcon/redcon.go: the buffered reader of a connection, against the parse of the whole stream. */
module Reader {
  import opened Basics
  import opened ByteOrder
  import opened Decimal
  import opened Requests

  // ---------- one command at the front of a buffer ----------

  function Shifted(text: Bytes, n: nat, r: Inside): Inside {
    match r
    case Open => Open
    case Closed(more, at) => Closed(text + more, n + at)
  }

  method ScanQuoted(line: Bytes, quotech: byte) returns (r: Inside)
    ensures r == Unquoted(line, quotech, false)
  {
    var nline, escape, i := [], false, 0;
    assert line[0..] == line;
    while i < |line|
      invariant 0 <= i <= |line|
      invariant Unquoted(line, quotech, false) == Shifted(nline, i, Unquoted(line[i..], quotech, escape))
    {
      var c := line[i];
      assert line[i..][1..] == line[i + 1..];
      ghost var further := Unquoted(line[i + 1..], quotech, !escape && c == BACKSLASH);
      if escape {
        escape := false;
        if c == 110 {
          c := LF;
        } else if c == 114 {
          c := CR;
        } else if c == 116 {
          c := 9;
        }
        nline := nline + [c];
      } else if c == quotech {
        return Closed(nline, i);
      } else if c == BACKSLASH {
        escape := true;
      } else {
        nline := nline + [c];
      }
      i := i + 1;
    }
    return Open;
  }

  method ScanWord(line: Bytes) returns (i: nat)
    ensures i == Run(line)
  {
    i := 0;
    assert line[0..] == line;
    while i < |line| && !Breaks(line[i])
      invariant 0 <= i <= |line| && Run(line) == i + Run(line[i..])
    {
      assert line[i..][1..] == line[i + 1..];
      i := i + 1;
    }
  }

  lemma PrecededTwice(a: seq<Bytes>, b: seq<Bytes>, r: Option<seq<Bytes>>)
    ensures Preceded(a, Preceded(b, r)) == Preceded(a + b, r)
  {
    assert r.Some? ==> a + (b + r.value) == (a + b) + r.value;
  }

  lemma LastWord(args: seq<Bytes>, line: Bytes)
    ensures Preceded(args, Some(if line == [] then [] else [line])) == Some(if |line| > 0 then args + [line] else args)
  {
    assert args + [] == args;
  }

  lemma BrokenWord(args: seq<Bytes>)
    ensures Preceded(args, None) == None
  {
  }

  method ReadWords(line0: Bytes) returns (r: Option<seq<Bytes>>)
    ensures r == Words(line0)
  {
    hide Run, Unquoted, Preceded;
    var args: seq<Bytes>, line := [], line0;
    PrecededNothing(Words(line0));
    while true
      invariant Words(line0) == Preceded(args, Words(line))
      decreases |line|
    {
      var i := ScanWord(line);
      if i == |line| {
        LastWord(args, line);
        return Some(if |line| > 0 then args + [line] else args);
      }
      if line[i] == SPACE {
        PrecededTwice(args, if i > 0 then [line[..i]] else [], Words(line[i + 1..]));
        assert args + [] == args;
        if i > 0 {
          args := args + [line[..i]];
        }
        line := line[i + 1..];
      } else {
        if i != 0 {
          BrokenWord(args);
          return None;
        }
        var inside := ScanQuoted(line[1..], line[0]);
        if inside.Open? {
          BrokenWord(args);
          return None;
        }
        line := line[1..][inside.at + 1..];
        if |line| > 0 && line[0] != SPACE {
          BrokenWord(args);
          return None;
        }
        PrecededTwice(args, [inside.text], Words(line));
        args := args + [inside.text];
      }
    }
  }

  /** Position of the first line feed, or the length. */
  method FindLine(b: Bytes, from: nat) returns (i: nat)
    requires from <= |b|
    ensures i == LineEnd(b, from)
  {
    i := from;
    while i < |b| && b[i] != LF
      invariant from <= i <= |b| && LineEnd(b, from) == LineEnd(b, i)
    {
      i := i + 1;
    }
  }

  method ReadPlain(b: Bytes) returns (r: Front)
    requires b != []
    ensures r == PlainFront(b)
  {
    hide Words;
    var i := FindLine(b, 0);
    if i == |b| {
      return More;
    }
    var line := if i > 0 && b[i - 1] == CR then b[..i - 1] else b[..i];
    var words := ReadWords(line);
    return if words.None? then Wrong else Complete(words.value, i + 1);
  }

  /** The argument that starts at i: where its data begins and ends. */
  method ReadBulk(b: Bytes, i: nat) returns (r: Front, from: nat, to: nat)
    requires i <= |b|
    ensures r == OneBulk(b[i..])
    ensures r.Complete? ==> i <= from <= to <= |b| && i + r.n == to + 2 && r.args == [b[from..to]]
  {
    hide ParseInt, LineEnd;
    from, to := i, i;
    if i == |b| {
      return More, i, i;
    }
    if b[i] != DOLLAR {
      return Wrong, i, i;
    }
    var lf := FindLine(b[i..], 1);
    ghost var d := b[i..];
    if i + lf == |b| {
      return More, i, i;
    }
    if b[i + lf - 1] != CR {
      return Wrong, i, i;
    }
    assert d[1..lf - 1] == b[i + 1..i + lf - 1];
    var size := ParseIntLoop(b[i + 1..i + lf - 1]);
    if size.None? || size.value < 0 || size.value > MAX_COUNT {
      return Wrong, i, i;
    }
    if i + lf + size.value + 2 >= |b| {
      return More, i, i;
    }
    if b[i + lf + size.value + 2] != LF || b[i + lf + size.value + 1] != CR {
      return Wrong, i, i;
    }
    from, to := i + lf + 1, i + lf + 1 + size.value;
    assert d[lf + 1..lf + 1 + size.value] == b[from..to];
    r := Complete([b[from..to]], lf + size.value + 3);
  }

  function Slices(b: Bytes, marks: seq<(nat, nat)>): (r: seq<Bytes>)
    requires forall h :: 0 <= h < |marks| ==> marks[h].0 <= marks[h].1 <= |b|
    ensures |r| == |marks|
  {
    seq(|marks|, h requires 0 <= h < |marks| => b[marks[h].0..marks[h].1])
  }

  lemma NoMarks(b: Bytes)
    ensures Slices(b, []) == []
  {
  }

  lemma MarkOneMore(b: Bytes, marks: seq<(nat, nat)>, lo: nat, hi: nat)
    requires forall h :: 0 <= h < |marks| ==> marks[h].0 <= marks[h].1 <= |b|
    requires lo <= hi <= |b|
    ensures Slices(b, marks + [(lo, hi)]) == Slices(b, marks) + [b[lo..hi]]
  {
  }

  method ReadResp(b: Bytes) returns (r: Front)
    requires b != [] && b[0] == STAR
    ensures r == RespFront(b)
  {
    hide ParseInt, LineEnd, OneBulk, Bulks;
    var i := FindLine(b, 1);
    if i == |b| {
      return More;
    }
    if b[i - 1] != CR {
      return Wrong;
    }
    var count := ParseIntLoop(b[1..i - 1]);
    if count.None? || count.value <= 0 || count.value > MAX_COUNT {
      return Wrong;
    }
    r := ReadArgs(b, i + 1, count.value);
  }

  /** The loop over the arguments, noting where each begins and ends. */
  method ReadArgs(b: Bytes, from: nat, count: nat) returns (r: Front)
    requires from <= |b|
    ensures r == AfterBulk([], from, Bulks(b[from..], count))
  {
    hide OneBulk, Slices, AfterBulk, Bulks;
    var marks: seq<(nat, nat)>, i, j := [], from, 0;
    NoMarks(b);
    while j < count
      invariant 0 <= j <= count && from <= i <= |b| && |marks| == j
      invariant forall h :: 0 <= h < |marks| ==> marks[h].0 <= marks[h].1 <= |b|
      invariant AfterBulk([], from, Bulks(b[from..], count)) == AfterBulk(Slices(b, marks), i, Bulks(b[i..], count - j))
    {
      var one, lo, hi := ReadBulk(b, i);
      BulkStep(b, i, count - j, Slices(b, marks), i);
      if !one.Complete? {
        return one;
      }
      MarkOneMore(b, marks, lo, hi);
      marks := marks + [(lo, hi)];
      i := hi + 2;
      j := j + 1;
    }
    LastBulk(b[i..], Slices(b, marks), i);
    r := Complete(Slices(b, marks), i);
  }

  lemma BulkStep(b: Bytes, i: nat, count: nat, args: seq<Bytes>, n: nat)
    requires i <= |b| && count > 0
    ensures var one := OneBulk(b[i..]);
            AfterBulk(args, n, Bulks(b[i..], count)) ==
            if one.Complete? then AfterBulk(args + one.args, n + one.n, Bulks(b[i + one.n..], count - 1)) else one
  {
    hide OneBulk;
    var one := OneBulk(b[i..]);
    if one.Complete? {
      assert b[i..][one.n..] == b[i + one.n..];
      var rest := Bulks(b[i + one.n..], count - 1);
      if rest.Complete? {
        assert args + (one.args + rest.args) == (args + one.args) + rest.args;
      }
    }
  }

  lemma LastBulk(d: Bytes, args: seq<Bytes>, n: nat)
    ensures AfterBulk(args, n, Bulks(d, 0)) == Complete(args, n)
  {
    assert args + [] == args;
  }

  // ---------- all complete commands of a buffer ----------

  method ReadOne(b: Bytes) returns (r: Front)
    requires b != []
    ensures r == ReadFront(b)
  {
    hide RespFront, PlainFront;
    if b[0] == STAR {
      r := ReadResp(b);
    } else {
      r := ReadPlain(b);
    }
  }

  /** The loop of readCommands over the bytes at hand; on an error the commands before it are dropped. */
  method ParseBuffer(b0: Bytes) returns (cmds: seq<Command>, b: Bytes, bad: bool)
    ensures bad == Commands(b0).bad
    ensures !bad ==> cmds == Commands(b0).cmds && b == Commands(b0).rest
  {
    hide ReadFront, PrintedCommand, Commands, After;
    cmds, b := [], b0;
    NothingAfter(Commands(b0));
    while |b| > 0
      invariant Commands(b0) == After(cmds, Commands(b))
      decreases |b|
    {
      CommandsStep(b);
      var front := ReadOne(b);
      if front.Wrong? {
        StreamEnds(cmds, b, true);
        return [], b, true;
      }
      if front.More? {
        StreamEnds(cmds, b, false);
        return cmds, b, false;
      }
      AfterAfter(cmds, Parsing(b), Commands(b[front.n..]));
      assert cmds + [] == cmds;
      if |front.args| > 0 {
        cmds := cmds + [Command(if b[0] == STAR then b[..front.n] else PrintedCommand(front.args), front.args)];
      }
      b := b[front.n..];
    }
    CommandsStep(b);
    StreamEnds(cmds, b, false);
    bad := false;
  }

  lemma StreamEnds(cmds: seq<Command>, rest: Bytes, bad: bool)
    ensures After(cmds, Parsed([], rest, bad)) == Parsed(cmds, rest, bad)
  {
    assert cmds + [] == cmds;
  }

  // ---------- the reader ----------

  function Joined(packets: seq<Bytes>): Bytes {
    if packets == [] then [] else packets[0] + Joined(packets[1..])
  }

  datatype Result = Got(cmds: seq<Command>) | EndOfInput | ProtocolError

  const BUFFER_SIZE: nat := 4096

  method WriteAt(buf: array<byte>, at: nat, data: Bytes)
    requires at + |data| <= buf.Length
    modifies buf
    ensures buf[..at] == old(buf[..at]) && buf[at..at + |data|] == data
  {
    var i := 0;
    while i < |data|
      invariant 0 <= i <= |data|
      invariant buf[..at] == old(buf[..at]) && buf[at..at + i] == data[..i]
    {
      buf[at + i] := data[i];
      assert buf[at..at + i + 1] == buf[at..at + i] + [buf[at + i]];
      assert data[..i + 1] == data[..i] + [data[i]];
      i := i + 1;
    }
    assert data[..i] == data;
  }

  method Grown(buf: array<byte>, size: nat) returns (big: array<byte>)
    requires 0 < size <= buf.Length
    ensures fresh(big) && big.Length == 2 * size && big[..size] == buf[..size]
  {
    big := new byte[2 * size](_ => 0);
    WriteAt(big, 0, buf[..size]);
    assert big[0..size] == big[..size];
  }

  /** What is complete in the buffer comes first, then what the rest makes with the bytes to come. */
  lemma ReadyThenRest(b: Bytes, j: Bytes)
    ensures var p := Commands(b);
            if p.bad then Commands(b + j).bad
            else Commands(b + j) == After(p.cmds, Commands(p.rest + j))
    ensures j == [] && !Commands(b).bad ==> Commands(b + j).cmds == Commands(b).cmds && !Commands(b + j).bad
  {
    hide Commands;
    CommandsAppend(b, j);
    assert j == [] ==> b + j == b;
  }

  /** A connection's reader; input holds the packets the network has yet to deliver. */
  class Reader {
    var buf: array<byte>
    var size: nat
    var start: nat
    var end: nat
    var cmds: seq<Command>
    var input: seq<Bytes>

    ghost predicate Valid()
      reads this
    {
      BUFFER_SIZE <= size <= buf.Length && start <= end <= size
    }

    /** Bytes that arrived or will arrive and are not yet parsed. */
    ghost function Unread(): Bytes
      requires Valid()
      reads this, buf
    {
      buf[start..end] + Joined(input)
    }

    /** Every command still to be handed out. */
    ghost function Ahead(): Parsed
      requires Valid()
      reads this, buf
    {
      After(cmds, Commands(Unread()))
    }

    constructor (packets: seq<Bytes>)
      ensures Valid() && fresh(buf) && cmds == [] && Unread() == Joined(packets)
    {
      buf := new byte[BUFFER_SIZE](_ => 0);
      size, start, end, cmds, input := BUFFER_SIZE, 0, 0, [], packets;
    }

    /** Reads once from the network: at most as much as there is room for. */
    method Receive() returns (ok: bool)
      requires Valid() && end < size
      modifies this, buf
      ensures Valid() && buf == old(buf) && Unread() == old(Unread()) && cmds == old(cmds)
      ensures ok <==> old(input) != []
      ensures !ok ==> input == []
      ensures ok ==> |Joined(input)| < |Joined(old(input))| || (Joined(input) == Joined(old(input)) && |input| < |old(input)|)
    {
      hide Joined;
      if |input| == 0 {
        return false;
      }
      var packet, room := input[0], size - end;
      var n := if |packet| <= room then |packet| else room;
      ghost var before := buf[start..end];
      assert before == buf[..end][start..];
      WriteAt(buf, end, packet[..n]);
      assert buf[start..end] == buf[..end][start..];
      assert buf[start..end + n] == before + packet[..n];
      Taken(before, input, n);
      input := if n == |packet| then input[1..] else [packet[n..]] + input[1..];
      end := end + n;
      ok := true;
    }

    /** Makes room: an exhausted buffer starts over, a full one doubles. */
    method MakeRoom()
      requires Valid()
      modifies this, buf
      ensures Valid() && end < size && Unread() == old(Unread()) && cmds == old(cmds) && input == old(input)
      ensures buf == old(buf) || fresh(buf)
    {
      if end == size {
        if start == end {
          start, end := 0, 0;
        } else {
          ghost var before := buf[start..end];
          assert before == buf[..size][start..end];
          buf := Grown(buf, size);
          assert buf[start..end] == buf[..size][start..end];
          size := size * 2;
        }
      }
    }

    /** Parses what is in the buffer and moves past it; an oversized empty buffer shrinks first. */
    method TakeReady() returns (ready: seq<Command>, bad: bool)
      requires Valid()
      modifies this
      ensures Valid() && buf == old(buf) && input == old(input) && cmds == old(cmds)
      ensures bad ==> Commands(old(Unread())).bad
      ensures !bad ==> Commands(old(Unread())) == After(ready, Commands(Unread()))
      ensures !bad && input == [] ==> Commands(old(Unread())).cmds == ready && !Commands(old(Unread())).bad
    {
      hide Commands, Joined, After;
      var b := buf[start..end];
      if start == end && size > BUFFER_SIZE {
        size, start, end := BUFFER_SIZE, 0, 0;
      }
      assert buf[start..end] == b && |b| == end - start;
      var rest;
      ready, rest, bad := ParseBuffer(b);
      ReadyThenRest(b, Joined(input));
      NothingJoined();
      if !bad {
        RestIsSuffix(b);
        start := end - |rest|;
        assert buf[start..end] == rest;
      }
    }

    /**
     * readCommands: the commands complete in the buffer, reading on until there is one. Growing,
     * starting over and shrinking the buffer lose nothing and repeat nothing.
     */
    method ReadBuffered() returns (r: Result)
      requires Valid()
      modifies this, buf
      ensures Valid() && (buf == old(buf) || fresh(buf)) && cmds == old(cmds)
      ensures r.Got? ==> r.cmds != [] && Commands(old(Unread())) == After(r.cmds, Commands(Unread()))
      ensures r.EndOfInput? ==> Commands(old(Unread())).cmds == [] && !Commands(old(Unread())).bad
      ensures r.ProtocolError? ==> Commands(old(Unread())).bad
      decreases |Joined(input)|, |input|
    {
      hide Commands, Joined, After, Unread;
      var ready, bad := TakeReady();
      if bad {
        return ProtocolError;
      }
      if |ready| > 0 {
        return Got(ready);
      }
      NothingAfter(Commands(Unread()));
      MakeRoom();
      var ok := Receive();
      if !ok {
        return EndOfInput;
      }
      r := ReadBuffered();
    }

    method ReadCommand() returns (r: Next)
      requires Valid()
      modifies this, buf
      ensures Valid() && (buf == old(buf) || fresh(buf))
      ensures r.One? ==> old(Ahead()) == After([r.cmd], Ahead())
      ensures r.Stop? && r.why.EndOfInput? ==> old(Ahead()).cmds == [] && !old(Ahead()).bad
      ensures r.Stop? && r.why.ProtocolError? ==> old(Ahead()).bad
      ensures r.Stop? ==> !r.why.Got?
      decreases |cmds| == 0
    {
      hide Commands, Joined;
      if |cmds| > 0 {
        assert cmds == [cmds[0]] + cmds[1..];
        AfterAfter([cmds[0]], cmds[1..], Commands(Unread()));
        r := One(cmds[0]);
        cmds := cmds[1..];
        return;
      }
      NothingAfter(Commands(Unread()));
      var batch := ReadBuffered();
      if !batch.Got? {
        return Stop(batch);
      }
      cmds := batch.cmds;
      r := ReadCommand();
    }

    /** The loop of a connection: commands one by one until the input ends or goes wrong. */
    method ReadAll() returns (all: seq<Command>, why: Result)
      requires Valid()
      modifies this, buf
      ensures Valid()
      ensures why.EndOfInput? ==> !old(Ahead()).bad && all == old(Ahead()).cmds
      ensures why.ProtocolError? ==> old(Ahead()).bad && all <= old(Ahead()).cmds
      ensures !why.Got?
    {
      hide Commands, Joined, Unread;
      all := [];
      ghost var ahead := Ahead();
      NothingAfter(ahead);
      while true
        invariant Valid() && (buf == old(buf) || fresh(buf))
        invariant ahead == After(all, Ahead())
        decreases |Ahead().cmds|
      {
        var next := ReadCommand();
        if next.Stop? {
          return all, next.why;
        }
        AfterAfter(all, [next.cmd], Ahead());
        all := all + [next.cmd];
      }
    }
  }

  datatype Next = One(cmd: Command) | Stop(why: Result)

  /** However the network cuts a printed stream, its commands come out, each once and in order. */
  method Serve(packets: seq<Bytes>, ghost sent: seq<seq<Bytes>>) returns (all: seq<Command>, why: Result)
    requires Joined(packets) == PrintedAll(sent)
    requires forall i :: 0 <= i < |sent| ==> Sendable(sent[i])
    ensures why == EndOfInput && all == AllCommands(sent)
  {
    hide Commands, Joined, PrintedAll, Sendable;
    PrintedStream(sent, []);
    CommandsStep([]);
    assert PrintedAll(sent) + [] == PrintedAll(sent);
    StreamEnds(AllCommands(sent), [], false);
    var reader := new Reader(packets);
    NothingAfter(Commands(Joined(packets)));
    all, why := reader.ReadAll();
  }

  // ---------- Parse ----------

  datatype ParseResult = First(cmd: Command) | Malformed | Incomplete | TooMuchData

  /** Parse of one raw message; commands after the first are accepted and ignored. */
  method Parse(raw: Bytes) returns (r: ParseResult)
    ensures var p := Commands(raw);
            r == if p.bad then Malformed else if p.cmds == [] then Incomplete
                 else if p.rest != [] then TooMuchData else First(p.cmds[0])
  {
    hide Commands;
    var cmds, rest, bad := ParseBuffer(raw);
    if bad {
      return Malformed;
    }
    if |cmds| == 0 {
      return Incomplete;
    }
    return if |rest| > 0 then TooMuchData else First(cmds[0]);
  }

  lemma NothingJoined()
    ensures Joined([]) == []
  {
  }

  /** What stays unparsed is the end of the buffer. */
  lemma {:induction false} RestIsSuffix(b: Bytes)
    ensures |Commands(b).rest| <= |b| && Commands(b).rest == b[|b| - |Commands(b).rest|..]
  {
    hide ReadFront, Commands;
    CommandsStep(b);
    if b != [] && ReadFront(b).Complete? {
      RestIsSuffix(b[ReadFront(b).n..]);
    }
  }

  /** Taking n bytes of the first packet. */
  lemma Taken(before: Bytes, input: seq<Bytes>, n: nat)
    requires input != [] && n <= |input[0]|
    ensures var left := if n == |input[0]| then input[1..] else [input[0][n..]] + input[1..];
            && before + Joined(input) == before + input[0][..n] + Joined(left)
            && |Joined(input)| == n + |Joined(left)|
            && (n == 0 ==> Joined(left) == Joined(input))
  {
    JoinedSplit(input, n);
  }

  /** Taking n bytes of the first packet. */
  lemma JoinedSplit(input: seq<Bytes>, n: nat)
    requires input != [] && n <= |input[0]|
    ensures Joined(input) == input[0][..n] + (input[0][n..] + Joined(input[1..]))
    ensures Joined([input[0][n..]] + input[1..]) == input[0][n..] + Joined(input[1..])
    ensures n == |input[0]| ==> input[0][..n] == input[0] && input[0][n..] == []
  {
    assert input[0] == input[0][..n] + input[0][n..];
    assert ([input[0][n..]] + input[1..])[1..] == input[1..];
  }
}
