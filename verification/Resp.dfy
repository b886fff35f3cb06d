/** redcon/resp.go: printing replies, and reading the next reply from a buffer. */
module Resp {
  import opened Basics
  import opened ByteOrder
  import opened Decimal

  const INTEGER: byte := 58  // ':'
  const STRING: byte := 43   // '+'
  const BULK: byte := 36     // '$'
  const ARRAY: byte := 42    // '*'
  const ERROR: byte := 45    // '-'

  // ---------- printing ----------

  /** Replies: nested slices of simple strings, integers, errors, nil and bulk strings. */
  datatype Value =
    | SimpleString(s: Bytes)
    | SimpleInt(n: int)
    | Error(s: Bytes)
    | Nil
    | Bulk(b: Bytes)
    | Number(n: int)
    | Slice(items: seq<Value>)

  function StripNewlines(s: Bytes): (r: Bytes)
    ensures |r| == |s| && NoLF(r)
    ensures forall i :: 0 <= i < |s| ==> r[i] == if s[i] in [13, 10] then 32 else s[i]
  {
    seq(|s|, i requires 0 <= i < |s| => if s[i] == CR || s[i] == LF then 32 else s[i])
  }

  /** One digit takes a short cut. */
  function AppendPrefix(b: Bytes, c: byte, n: int): Bytes {
    if 0 <= n <= 9 then b + [c, ZERO + n, CR, LF] else b + [c] + FormatInt(n) + [CR, LF]
  }

  function AppendBulk(b: Bytes, bulk: Bytes): Bytes {
    AppendPrefix(b, BULK, |bulk|) + bulk + [CR, LF]
  }

  function AppendNull(b: Bytes): Bytes {
    b + [BULK, MINUS, ZERO + 1, CR, LF]
  }

  function AppendLine(b: Bytes, c: byte, s: Bytes): Bytes {
    b + [c] + StripNewlines(s) + [CR, LF]
  }

  function AppendAny(b: Bytes, v: Value): Bytes
    decreases v, 0
  {
    match v
    case SimpleString(s) => AppendLine(b, STRING, s)
    case SimpleInt(n) => AppendPrefix(b, INTEGER, n)
    case Error(s) => AppendLine(b, ERROR, s)
    case Nil => AppendNull(b)
    case Bulk(bulk) => AppendBulk(b, bulk)
    case Number(n) => AppendBulk(b, FormatInt(n))
    case Slice(items) => AppendItems(AppendPrefix(b, ARRAY, |items|), items)
  }

  function AppendItems(b: Bytes, items: seq<Value>): Bytes
    decreases items, 1
  {
    if items == [] then b else AppendItems(AppendAny(b, items[0]), items[1..])
  }

  function Header(c: byte, n: int): Bytes {
    [c] + FormatInt(n) + [CR, LF]
  }

  /** The short cut for one digit changes nothing. */
  lemma AppendPrefixIsHeader(b: Bytes, c: byte, n: int)
    ensures AppendPrefix(b, c, n) == b + Header(c, n)
  {
  }

  /** What a value looks like, whatever it is appended to. */
  function Printed(v: Value): Bytes
    decreases v, 0
  {
    match v
    case SimpleString(s) => [STRING] + StripNewlines(s) + [CR, LF]
    case SimpleInt(n) => Header(INTEGER, n)
    case Error(s) => [ERROR] + StripNewlines(s) + [CR, LF]
    case Nil => Header(BULK, -1)
    case Bulk(b) => Header(BULK, |b|) + b + [CR, LF]
    case Number(n) => Header(BULK, |FormatInt(n)|) + FormatInt(n) + [CR, LF]
    case Slice(items) => Header(ARRAY, |items|) + PrintedItems(items)
  }

  function PrintedItems(items: seq<Value>): Bytes
    decreases items, 1
  {
    if items == [] then [] else Printed(items[0]) + PrintedItems(items[1..])
  }

  lemma {:induction false} AppendIsPrinted(b: Bytes, v: Value)
    ensures AppendAny(b, v) == b + Printed(v)
    decreases v, 0
  {
    hide Header, FormatInt, StripNewlines, AppendPrefix;
    match v
    case SimpleInt(n) => AppendPrefixIsHeader(b, INTEGER, n);
    case Bulk(s) => AppendBulkIs(b, s);
    case Number(n) => AppendBulkIs(b, FormatInt(n));
    case Nil => NilHeader();
    case Slice(items) =>
      AppendPrefixIsHeader(b, ARRAY, |items|);
      AppendItemsIsPrinted(b + Header(ARRAY, |items|), items);
    case _ =>
  }

  lemma AppendBulkIs(b: Bytes, s: Bytes)
    ensures AppendBulk(b, s) == b + (Header(BULK, |s|) + s + [CR, LF])
  {
    AppendPrefixIsHeader(b, BULK, |s|);
    hide Header, AppendPrefix;
  }

  lemma NilHeader()
    ensures Header(BULK, -1) == [BULK, MINUS, ZERO + 1, CR, LF]
  {
  }

  lemma {:induction false} AppendItemsIsPrinted(b: Bytes, items: seq<Value>)
    ensures AppendItems(b, items) == b + PrintedItems(items)
    decreases items, 1
  {
    if items != [] {
      AppendIsPrinted(b, items[0]);
      AppendItemsIsPrinted(b + Printed(items[0]), items[1..]);
    }
  }

  // ---------- reading ----------

  /** A reply read: its bytes, and its data; nil data is a null bulk. */
  datatype Reply = Reply(kind: byte, raw: Bytes, data: Option<Bytes>, count: int)

  predicate IsKind(c: byte) {
    c == INTEGER || c == STRING || c == BULK || c == ARRAY || c == ERROR
  }

  predicate IsInteger(data: Bytes) {
    data != [] && if data[0] == MINUS then |data| > 1 && AllDigits(data[1..]) else AllDigits(data)
  }

  /** What ReadNextRESP returns; None where it returns 0, for an incomplete or an invalid reply. */
  function ReadNext(b: Bytes): (r: Option<Reply>)
    ensures r.Some? ==> 0 < |r.value.raw| <= |b| && r.value.raw == b[..|r.value.raw|]
    decreases |b|, 0
  {
    if b == [] || !IsKind(b[0]) then None
    else
      var lf := LineEnd(b, 1);
      if lf == |b| || b[lf - 1] != CR then None
      else
        var data, i := b[1..lf - 1], lf + 1;
        if b[0] == INTEGER then
          if IsInteger(data) then Some(Reply(b[0], b[..i], Some(data), 0)) else None
        else if b[0] == STRING || b[0] == ERROR then Some(Reply(b[0], b[..i], Some(data), 0))
        else
          match Atoi(data)
          case None => None
          case Some(count) => if b[0] == BULK then ReadBulk(b, i, count) else ReadArray(b, i, count)
  }

  function ReadBulk(b: Bytes, i: nat, count: int): (r: Option<Reply>)
    requires 0 < i <= |b|
    ensures r.Some? ==> 0 < |r.value.raw| <= |b| && r.value.raw == b[..|r.value.raw|]
  {
    if count < 0 then Some(Reply(b[0], b[..i], None, 0))
    else if |b| < i + count + 2 then None
    else if b[i + count] != CR || b[i + count + 1] != LF then None
    else Some(Reply(b[0], b[..i + count + 2], Some(b[i..i + count]), 0))
  }

  function ReadArray(b: Bytes, i: nat, count: int): (r: Option<Reply>)
    requires 0 < i <= |b|
    ensures r.Some? ==> 0 < |r.value.raw| <= |b| && r.value.raw == b[..|r.value.raw|]
    decreases |b| - i, if count < 0 then 1 else count + 2
  {
    match Span(b[i..], count)
    case None => None
    case Some(tn) => Some(Reply(b[0], b[..i + tn], Some(b[i..i + tn]), count))
  }

  /** The bytes that count replies take up. */
  function Span(d: Bytes, count: int): (r: Option<nat>)
    ensures r.Some? ==> r.value <= |d|
    decreases |d|, if count < 0 then 0 else count + 1
  {
    if count <= 0 then Some(0)
    else
      match ReadNext(d)
      case None => None
      case Some(r) =>
        match Span(d[|r.raw|..], count - 1)
        case None => None
        case Some(n) => Some(|r.raw| + n)
  }

  // ---------- lengths near the greatest int ----------

  /** No buffer is as long as the greatest int. */
  predicate InMemory(b: Bytes) {
    |b| + 2 <= MAX_INT64
  }

  /** The end of a bulk string wraps around, and the bytes there are looked up out of range. */
  predicate Overflows(b: Bytes)
    decreases |b|, 0
  {
    && b != [] && (b[0] == BULK || b[0] == ARRAY)
    && var lf := LineEnd(b, 1);
       && lf < |b| && b[lf - 1] == CR
       && var count := Atoi(b[1..lf - 1]);
          && count.Some?
          && if b[0] == BULK then count.value >= 0 && lf + 1 + count.value + 2 > MAX_INT64
             else SpanOverflows(b[lf + 1..], count.value)
  }

  predicate SpanOverflows(d: Bytes, count: int)
    decreases |d|, if count < 0 then 0 else count + 1
  {
    count > 0 && (Overflows(d) || (ReadNext(d).Some? && SpanOverflows(d[|ReadNext(d).value.raw|..], count - 1)))
  }

  lemma {:induction false} OverflowStays(b: Bytes, x: Bytes)
    requires Overflows(b)
    ensures Overflows(b + x)
    decreases |b|, 0
  {
    LineEndStable(b, x, 1);
    var lf := LineEnd(b, 1);
    assert (b + x)[1..lf - 1] == b[1..lf - 1];
    if b[0] == ARRAY {
      assert (b + x)[lf + 1..] == b[lf + 1..] + x;
      SpanOverflowStays(b[lf + 1..], x, Atoi(b[1..lf - 1]).value);
    }
  }

  lemma {:induction false} SpanOverflowStays(d: Bytes, x: Bytes, count: int)
    requires SpanOverflows(d, count)
    ensures SpanOverflows(d + x, count)
    decreases |d|, if count < 0 then 0 else count + 1
  {
    hide ReadNext, Overflows;
    if Overflows(d) {
      OverflowStays(d, x);
    } else {
      ReadStable(d, x);
      var n := |ReadNext(d).value.raw|;
      assert (d + x)[n..] == d[n..] + x;
      SpanOverflowStays(d[n..], x, count - 1);
    }
  }

  lemma {:induction false} ReadableDoesNotOverflow(b: Bytes)
    requires ReadNext(b).Some? && InMemory(b)
    ensures !Overflows(b)
    decreases |b|, 0
  {
    hide Span, SpanOverflows, Atoi;
    if b[0] == ARRAY {
      var lf := LineEnd(b, 1);
      SpanDoesNotOverflow(b[lf + 1..], Atoi(b[1..lf - 1]).value);
    }
  }

  lemma {:induction false} SpanDoesNotOverflow(d: Bytes, count: int)
    requires Span(d, count).Some? && InMemory(d)
    ensures !SpanOverflows(d, count)
    decreases |d|, if count < 0 then 0 else count + 1
  {
    hide ReadNext, Overflows;
    if count > 0 {
      ReadableDoesNotOverflow(d);
      SpanDoesNotOverflow(d[|ReadNext(d).value.raw|..], count - 1);
    }
  }

  /** Where the reader panics no further bytes would have made a reply. */
  lemma OverflowIsHopeless(b: Bytes, x: Bytes)
    requires Overflows(b) && InMemory(b + x)
    ensures ReadNext(b + x) == None
  {
    hide Overflows, ReadNext;
    OverflowStays(b, x);
    if ReadNext(b + x).Some? {
      ReadableDoesNotOverflow(b + x);
    }
  }

  // ---------- the reader ----------

  /** The loops of ReadNextRESP, calling itself for the elements of an array. */
  method ReadNextRESP(b: Bytes) returns (n: nat, r: Called<Option<Reply>>)
    requires InMemory(b)
    ensures r == if Overflows(b) then Panicked else Returned(ReadNext(b))
    ensures n == if r.Returned? && r.value.Some? then |r.value.value.raw| else 0
    decreases |b|, 0
  {
    hide ReadBulk, Span, SpanOverflows, Atoi, LineEnd, IsInteger;
    if |b| == 0 || !IsKind(b[0]) {
      return 0, Returned(None);
    }
    var i := ReadLine(b);
    if i == 0 {
      return 0, Returned(None);
    }
    var data := b[1..i - 2];
    if b[0] == INTEGER {
      var ok := ScanInteger(data);
      if !ok {
        return 0, Returned(None);
      }
      return i, Returned(Some(Reply(b[0], b[..i], Some(data), 0)));
    }
    if b[0] == STRING || b[0] == ERROR {
      return i, Returned(Some(Reply(b[0], b[..i], Some(data), 0)));
    }
    var count := Atoi(data);
    if count.None? {
      return 0, Returned(None);
    }
    AtoiRange(data);
    if b[0] == BULK {
      r := TakeBulk(b, i, count.value);
      return if r.Returned? && r.value.Some? then |r.value.value.raw| else 0, r;
    }
    var tn := ReadItems(b[i..], count.value);
    if tn.Panicked? {
      return 0, Panicked;
    }
    if tn.value.None? {
      return 0, Returned(None);
    }
    n := i + tn.value.value;
    r := Returned(Some(Reply(b[0], b[..n], Some(b[i..n]), count.value)));
  }

  lemma AtoiRange(data: Bytes)
    requires Atoi(data).Some?
    ensures IsInt64(Atoi(data).value)
  {
  }

  /** A bulk string behind its header, with Go's int arithmetic and index checks. */
  method TakeBulk(b: Bytes, i: nat, count: int) returns (r: Called<Option<Reply>>)
    requires 0 < i <= |b| && InMemory(b) && IsInt64(count)
    ensures r == if count >= 0 && i + count + 2 > MAX_INT64 then Panicked else Returned(ReadBulk(b, i, count))
  {
    if count < 0 {
      return Returned(Some(Reply(b[0], b[..i], None, 0)));
    }
    var at, end := Wrapped(i + count), Wrapped(i + count + 2);
    if |b| < end {
      return Returned(None);
    }
    if at < 0 || at + 1 >= |b| {
      return Panicked;
    }
    if b[at] != CR || b[at + 1] != LF {
      return Returned(None);
    }
    r := Returned(Some(Reply(b[0], b[..end], Some(b[i..at]), 0)));
  }

  /** Reads to the end of the first line: the position after it, or 0. */
  method ReadLine(b: Bytes) returns (i: nat)
    requires |b| > 0
    ensures i == if LineEnd(b, 1) == |b| || b[LineEnd(b, 1) - 1] != CR then 0 else LineEnd(b, 1) + 1
  {
    i := 1;
    while true
      invariant 1 <= i <= |b| && LineEnd(b, 1) == LineEnd(b, i)
      decreases |b| - i
    {
      if i == |b| {
        return 0;
      }
      if b[i] == LF {
        return if b[i - 1] != CR then 0 else i + 1;
      }
      i := i + 1;
    }
  }

  method ReadItems(d: Bytes, count: int) returns (tn: Called<Option<nat>>)
    requires InMemory(d)
    ensures tn == if SpanOverflows(d, count) then Panicked else Returned(Span(d, count))
    decreases |d|, 1
  {
    hide ReadNext, Overflows;
    var n, sdata, j := 0, d, 0;
    assert d[0..] == d;
    while j < count
      invariant 0 <= j && (j <= count || j == 0)
      invariant 0 <= n <= |d| && sdata == d[n..]
      invariant Span(d, count) == Further(n, Span(sdata, count - j))
      invariant SpanOverflows(d, count) <==> SpanOverflows(sdata, count - j)
    {
      var rn, reply := ReadNextRESP(sdata);
      if reply.Panicked? {
        return Panicked;
      }
      if reply.value.None? {
        return Returned(None);
      }
      n := n + rn;
      sdata := sdata[rn..];
      j := j + 1;
    }
    return Returned(Some(n));
  }

  function Further(n: nat, s: Option<nat>): Option<nat> {
    match s
    case None => None
    case Some(k) => Some(n + k)
  }

  method ScanInteger(data: Bytes) returns (ok: bool)
    ensures ok <==> IsInteger(data)
  {
    if |data| == 0 {
      return false;
    }
    var j := 0;
    if data[0] == MINUS {
      if |data| == 1 {
        return false;
      }
      j := 1;
    }
    ghost var from := j;
    while j < |data|
      invariant from <= j <= |data|
      invariant forall k :: from <= k < j ==> IsDigit(data[k])
    {
      if data[j] < ZERO || data[j] > ZERO + 9 {
        return false;
      }
      j := j + 1;
    }
    return true;
  }

  // ---------- reading is stable ----------

  /** A reply once read is read the same with any bytes behind it. */
  lemma {:induction false} ReadStable(b: Bytes, x: Bytes)
    requires ReadNext(b).Some?
    ensures ReadNext(b + x) == ReadNext(b)
    decreases |b|, 0
  {
    LineEndStable(b, x, 1);
    var lf := LineEnd(b, 1);
    var i := lf + 1;
    assert (b + x)[1..lf - 1] == b[1..lf - 1];
    assert (b + x)[..i] == b[..i];
    if b[0] == BULK || b[0] == ARRAY {
      var count := Atoi(b[1..lf - 1]).value;
      if b[0] == BULK {
        BulkStable(b, x, i, count);
      } else {
        assert (b + x)[i..] == b[i..] + x;
        SpanStable(b[i..], x, count);
        ArrayStable(b, x, i, count);
      }
    }
  }

  lemma BulkStable(b: Bytes, x: Bytes, i: nat, count: int)
    requires 0 < i <= |b| && ReadBulk(b, i, count).Some?
    ensures ReadBulk(b + x, i, count) == ReadBulk(b, i, count)
  {
    assert (b + x)[..i] == b[..i];
    if count >= 0 {
      assert (b + x)[i..i + count] == b[i..i + count] && (b + x)[..i + count + 2] == b[..i + count + 2];
    }
  }

  lemma ArrayStable(b: Bytes, x: Bytes, i: nat, count: int)
    requires 0 < i <= |b| && ReadArray(b, i, count).Some?
    requires Span((b + x)[i..], count) == Span(b[i..], count)
    ensures ReadArray(b + x, i, count) == ReadArray(b, i, count)
  {
    hide Span;
    var tn := Span(b[i..], count).value;
    assert (b + x)[i..i + tn] == b[i..i + tn] && (b + x)[..i + tn] == b[..i + tn];
  }

  lemma {:induction false} SpanStable(d: Bytes, x: Bytes, count: int)
    requires Span(d, count).Some?
    ensures Span(d + x, count) == Span(d, count)
    decreases |d|, if count < 0 then 0 else count + 1
  {
    hide ReadNext;
    if count > 0 {
      ReadStable(d, x);
      var n := |ReadNext(d).value.raw|;
      assert (d + x)[n..] == d[n..] + x;
      SpanStable(d[n..], x, count - 1);
    }
  }

  // ---------- reading what was printed ----------

  /** The value a reply stands for, its elements taken one after the other as ForEach does. */
  function Decoded(b: Bytes): Option<Value>
    decreases |b|, 0
  {
    match ReadNext(b)
    case None => None
    case Some(r) =>
      if r.data == None then Some(Nil)
      else if r.kind == INTEGER then (match SignedNumber(r.data.value) case None => None case Some(n) => Some(SimpleInt(n)))
      else if r.kind == STRING then Some(SimpleString(r.data.value))
      else if r.kind == ERROR then Some(Error(r.data.value))
      else if r.kind == BULK then Some(Bulk(r.data.value))
      else if |r.data.value| >= |b| then None
      else
        match DecodedItems(r.data.value, r.count)
        case None => None
        case Some(items) => Some(Slice(items))
  }

  function DecodedItems(d: Bytes, count: int): Option<seq<Value>>
    decreases |d|, if count < 0 then 1 else count + 2
  {
    if count <= 0 then Some([])
    else
      match ReadNext(d)
      case None => None
      case Some(r) =>
        match (Decoded(d), DecodedItems(d[|r.raw|..], count - 1))
        case (Some(v), Some(items)) => Some([v] + items)
        case _ => None
  }

  function SignedNumber(b: Bytes): Option<int> {
    if !IsInteger(b) then None
    else if b[0] == MINUS then
      var m: int := Natural(b[1..]);
      Some(-m)
    else Some(Natural(b))
  }

  /** What the client gets to see: numbers as bulk strings, lines without line breaks. */
  function Seen(v: Value): Value
    decreases v, 0
  {
    match v
    case SimpleString(s) => SimpleString(StripNewlines(s))
    case Error(s) => Error(StripNewlines(s))
    case Number(n) => Bulk(FormatInt(n))
    case Slice(items) => Slice(SeenItems(items))
    case _ => v
  }

  function SeenItems(items: seq<Value>): seq<Value>
    decreases items, 1
  {
    if items == [] then [] else [Seen(items[0])] + SeenItems(items[1..])
  }

  /** Lengths are Go ints. */
  predicate Fits(v: Value)
    decreases v, 0
  {
    match v
    case Bulk(b) => |b| <= MAX_INT64
    case Number(n) => |FormatInt(n)| <= MAX_INT64
    case Slice(items) => |items| <= MAX_INT64 && FitItems(items)
    case _ => true
  }

  predicate FitItems(items: seq<Value>)
    decreases items, 1
  {
    items == [] || (Fits(items[0]) && FitItems(items[1..]))
  }

  lemma HeadRead(b: Bytes, c: byte, text: Bytes, rest: Bytes)
    requires b == [c] + text + [CR, LF] + rest && NoLF(text)
    ensures |b| >= |text| + 3 && b[0] == c
    ensures LineEnd(b, 1) == |text| + 2 && b[|text| + 1] == CR
    ensures b[1..|text| + 1] == text && b[..|text| + 3] == [c] + text + [CR, LF] && b[|text| + 3..] == rest
  {
    var head := [c] + text;
    assert b == head + [CR, LF] + rest;
    forall j | 1 <= j < |text| + 2 ensures b[j] != LF {
      if j <= |text| { assert b[j] == text[j - 1]; }
    }
    LineEndIs(b, 1, |text| + 2);
  }

  lemma IntegerRead(n: int)
    ensures IsInteger(FormatInt(n)) && SignedNumber(FormatInt(n)) == Some(n) && NoLF(FormatInt(n))
  {
    hide Digits, Natural;
    DigitsSpell(if n < 0 then -n else n);
    DigitsOneLine(n);
    if n < 0 {
      assert FormatInt(n)[1..] == Digits(-n);
    } else {
      assert FormatInt(n) == Digits(n) && IsDigit(Digits(n)[0]);
    }
  }

  /** Reading the line of an integer, a simple string or an error. */
  lemma ReadLineReply(c: byte, text: Bytes, rest: Bytes)
    requires c == INTEGER || c == STRING || c == ERROR
    requires NoLF(text) && (c == INTEGER ==> IsInteger(text))
    ensures ReadNext([c] + text + [CR, LF] + rest) == Some(Reply(c, [c] + text + [CR, LF], Some(text), 0))
  {
    hide LineEnd, IsInteger;
    HeadRead([c] + text + [CR, LF] + rest, c, text, rest);
  }

  lemma ReadBulkReply(s: Bytes, rest: Bytes)
    requires |s| <= MAX_INT64
    ensures ReadNext(Header(BULK, |s|) + s + [CR, LF] + rest) ==
              Some(Reply(BULK, Header(BULK, |s|) + s + [CR, LF], Some(s), 0))
  {
    hide LineEnd, FormatInt, Atoi;
    var text := FormatInt(|s|);
    DigitsOneLine(|s|);
    AtoiFormat(|s|);
    var b := Header(BULK, |s|) + s + [CR, LF] + rest;
    assert b == [BULK] + text + [CR, LF] + (s + [CR, LF] + rest);
    HeadRead(b, BULK, text, s + [CR, LF] + rest);
    var i := |text| + 3;
    assert i == |Header(BULK, |s|)|;
    BulkAt(b, i, Header(BULK, |s|), s, rest);
  }

  lemma BulkAt(b: Bytes, i: nat, head: Bytes, s: Bytes, rest: Bytes)
    requires b == head + s + [CR, LF] + rest && i == |head| > 0
    ensures ReadBulk(b, i, |s|) == Some(Reply(b[0], head + s + [CR, LF], Some(s), 0))
  {
    assert b[i + |s|] == CR && b[i + |s| + 1] == LF;
    assert b[i..i + |s|] == s && b[..i + |s| + 2] == head + s + [CR, LF];
  }

  lemma ReadNilReply(rest: Bytes)
    ensures ReadNext(Header(BULK, -1) + rest) == Some(Reply(BULK, Header(BULK, -1), None, 0))
  {
    hide LineEnd, FormatInt, Atoi;
    DigitsOneLine(-1);
    AtoiFormat(-1);
    HeadRead(Header(BULK, -1) + rest, BULK, FormatInt(-1), rest);
  }

  lemma ReadArrayReply(n: nat, items: Bytes, rest: Bytes)
    requires n <= MAX_INT64 && Span(items + rest, n) == Some(|items|)
    ensures ReadNext(Header(ARRAY, n) + items + rest) ==
              Some(Reply(ARRAY, Header(ARRAY, n) + items, Some(items), n))
  {
    hide LineEnd, FormatInt, Atoi, Span;
    var text := FormatInt(n);
    DigitsOneLine(n);
    AtoiFormat(n);
    var b := Header(ARRAY, n) + items + rest;
    assert b == [ARRAY] + text + [CR, LF] + (items + rest);
    HeadRead(b, ARRAY, text, items + rest);
    ArrayAt(b, |text| + 3, Header(ARRAY, n), items, rest, n);
  }

  lemma ArrayAt(b: Bytes, i: nat, head: Bytes, items: Bytes, rest: Bytes, n: int)
    requires b == head + items + rest && i == |head| > 0 && Span(items + rest, n) == Some(|items|)
    ensures ReadArray(b, i, n) == Some(Reply(b[0], head + items, Some(items), n))
  {
    hide Span;
    assert b[i..] == items + rest;
    assert b[i..i + |items|] == items && b[..i + |items|] == head + items;
  }

  /**
   * Of printed bytes followed by anything, the reader takes exactly the printed bytes, and they
   * decode to the value that was printed.
   */
  lemma {:induction false} ReadPrinted(v: Value, rest: Bytes)
    requires Fits(v)
    ensures var r := ReadNext(Printed(v) + rest);
            r.Some? && r.value.raw == Printed(v)
    ensures Decoded(Printed(v) + rest) == Some(Seen(v))
    decreases v, 0
  {
    hide ReadNext, FormatInt, Header, StripNewlines, SignedNumber, Span;
    match v
    case SimpleString(s) => ReadLineReply(STRING, StripNewlines(s), rest);
    case SimpleInt(n) =>
      IntegerRead(n);
      HeaderIs(INTEGER, n);
      ReadLineReply(INTEGER, FormatInt(n), rest);
    case Error(s) => ReadLineReply(ERROR, StripNewlines(s), rest);
    case Nil => ReadNilReply(rest);
    case Bulk(b) => ReadBulkReply(b, rest);
    case Number(n) => ReadBulkReply(FormatInt(n), rest);
    case Slice(items) =>
      ReadPrintedItems(items, rest);
      ReadPrintedItems(items, []);
      assert PrintedItems(items) + [] == PrintedItems(items);
      HeaderIs(ARRAY, |items|);
      ReadArrayReply(|items|, PrintedItems(items), rest);
  }

  lemma HeaderIs(c: byte, n: int)
    ensures Header(c, n) == [c] + FormatInt(n) + [CR, LF]
  {
  }

  lemma {:induction false} ReadPrintedItems(items: seq<Value>, rest: Bytes)
    requires FitItems(items)
    ensures Span(PrintedItems(items) + rest, |items|) == Some(|PrintedItems(items)|)
    ensures DecodedItems(PrintedItems(items) + rest, |items|) == Some(SeenItems(items))
    decreases items, 1
  {
    hide ReadNext, Printed, Decoded, Seen, Span, DecodedItems, Fits;
    if items == [] {
      NoItems(PrintedItems(items) + rest);
    } else {
      var first, tail := Printed(items[0]), PrintedItems(items[1..]) + rest;
      ReadPrinted(items[0], tail);
      ReadPrintedItems(items[1..], rest);
      OneMoreItem(PrintedItems(items) + rest, first, tail, |items|, Seen(items[0]), SeenItems(items[1..]));
    }
  }

  lemma NoItems(d: Bytes)
    ensures Span(d, 0) == Some(0) && DecodedItems(d, 0) == Some([])
  {
  }

  lemma OneMoreItem(d: Bytes, first: Bytes, tail: Bytes, count: nat, v: Value, vs: seq<Value>)
    requires d == first + tail && count > 0
    requires ReadNext(first + tail).Some? && ReadNext(first + tail).value.raw == first && Decoded(first + tail) == Some(v)
    requires Span(tail, count - 1).Some? && DecodedItems(tail, count - 1) == Some(vs)
    ensures Span(d, count) == Some(|first| + Span(tail, count - 1).value)
    ensures DecodedItems(d, count) == Some([v] + vs)
  {
    hide ReadNext, Decoded;
    assert d[|first|..] == tail;
  }

  /** A value without line breaks in its lines, and without numbers that go out as bulk strings. */
  predicate Plain(v: Value)
    decreases v, 0
  {
    match v
    case SimpleString(s) => 13 !in s && 10 !in s
    case Error(s) => 13 !in s && 10 !in s
    case Number(_) => false
    case Slice(items) => PlainItems(items)
    case _ => true
  }

  predicate PlainItems(items: seq<Value>)
    decreases items, 1
  {
    items == [] || (Plain(items[0]) && PlainItems(items[1..]))
  }

  lemma {:induction false} PlainSeen(v: Value)
    requires Plain(v)
    ensures Seen(v) == v
    decreases v, 0
  {
    match v
    case SimpleString(s) => NothingStripped(s);
    case Error(s) => NothingStripped(s);
    case Slice(items) => PlainItemsSeen(items);
    case _ =>
  }

  lemma NothingStripped(s: Bytes)
    requires 13 !in s && 10 !in s
    ensures StripNewlines(s) == s
  {
  }

  lemma {:induction false} PlainItemsSeen(items: seq<Value>)
    requires PlainItems(items)
    ensures SeenItems(items) == items
    decreases items, 1
  {
    if items != [] {
      PlainSeen(items[0]);
      PlainItemsSeen(items[1..]);
    }
  }

  /** Such a value is read back as it was. */
  lemma ReadBack(v: Value, rest: Bytes)
    requires Fits(v) && Plain(v)
    ensures Decoded(Printed(v) + rest) == Some(v)
  {
    hide Decoded, Printed, Fits, Plain, Seen;
    ReadPrinted(v, rest);
    PlainSeen(v);
  }

  /** The bytes of each kind of reply. */
  lemma PrintedBytes(s: Bytes, n: int, items: seq<Value>)
    ensures 13 !in s && 10 !in s ==>
              Printed(SimpleString(s)) == [43] + s + [13, 10] && Printed(Error(s)) == [45] + s + [13, 10]
    ensures Printed(SimpleInt(n)) == [58] + FormatInt(n) + [13, 10]
    ensures Printed(Nil) == [36, 45, 49, 13, 10]
    ensures Printed(Bulk(s)) == [36] + FormatInt(|s|) + [13, 10] + s + [13, 10]
    ensures Printed(Slice(items)) == [42] + FormatInt(|items|) + [13, 10] + PrintedItems(items)
  {
    hide FormatInt, StripNewlines;
    NilHeader();
    if 13 !in s && 10 !in s {
      NothingStripped(s);
    }
  }

  // ---------- the replies there are ----------

  /** A reply as the protocol spells it, with whatever text stands for its lengths. */
  datatype Spelling =
    | Line(kind: byte, text: Bytes)
    | Null(text: Bytes)
    | Text(text: Bytes, s: Bytes)
    | List(text: Bytes, items: seq<Spelling>)

  predicate Correct(t: Spelling)
    decreases t, 0
  {
    match t
    case Line(kind, text) => kind in [58, 43, 45] && 10 !in text && (kind == 58 ==> IsInteger(text))
    case Null(text) => Atoi(text).Some? && Atoi(text).value < 0
    case Text(text, s) => Atoi(text) == Some(|s|)
    case List(text, items) =>
      && Atoi(text).Some? && |items| == (if Atoi(text).value < 0 then 0 else Atoi(text).value)
      && CorrectItems(items)
  }

  predicate CorrectItems(items: seq<Spelling>)
    decreases items, 1
  {
    items == [] || (Correct(items[0]) && CorrectItems(items[1..]))
  }

  function Spelled(t: Spelling): (b: Bytes)
    ensures b != []
    decreases t, 0
  {
    match t
    case Line(kind, text) => [kind] + text + [13, 10]
    case Null(text) => [36] + text + [13, 10]
    case Text(text, s) => [36] + text + [13, 10] + s + [13, 10]
    case List(text, items) => [42] + text + [13, 10] + SpelledItems(items)
  }

  function SpelledItems(items: seq<Spelling>): Bytes
    decreases items, 1
  {
    if items == [] then [] else Spelled(items[0]) + SpelledItems(items[1..])
  }

  /** What is read of it. */
  function ReplyOf(t: Spelling): Reply {
    match t
    case Line(kind, text) => Reply(kind, Spelled(t), Some(text), 0)
    case Null(_) => Reply(36, Spelled(t), None, 0)
    case Text(_, s) => Reply(36, Spelled(t), Some(s), 0)
    case List(text, items) => Reply(42, Spelled(t), Some(SpelledItems(items)), if Atoi(text).Some? then Atoi(text).value else 0)
  }

  lemma AtoiOneLine(text: Bytes)
    requires Atoi(text).Some?
    ensures NoLF(text)
  {
    hide Natural;
    assert text == [text[0]] + text[1..];
  }

  lemma {:induction false} SpelledIsRead(t: Spelling, x: Bytes)
    requires Correct(t)
    ensures ReadNext(Spelled(t) + x) == Some(ReplyOf(t))
    decreases t, 0
  {
    hide ReadNext, FormatInt, Atoi, IsInteger, SpelledItems;
    match t
    case Line(kind, text) => ReadLineReply(kind, text, x);
    case Null(text) =>
      AtoiOneLine(text);
      NullIsRead(text, x);
    case Text(text, s) =>
      AtoiOneLine(text);
      TextIsRead(text, s, x);
    case List(text, items) =>
      AtoiOneLine(text);
      SpelledItemsAreRead(items, x);
      SpanOfNone(SpelledItems(items) + x, Atoi(text).value);
      ListIsRead(text, items, x);
  }

  lemma NullIsRead(text: Bytes, x: Bytes)
    requires NoLF(text) && Atoi(text).Some? && Atoi(text).value < 0
    ensures ReadNext([36] + text + [13, 10] + x) == Some(Reply(36, [36] + text + [13, 10], None, 0))
  {
    hide Atoi, LineEnd;
    HeadRead([36] + text + [13, 10] + x, 36, text, x);
  }

  lemma TextIsRead(text: Bytes, s: Bytes, x: Bytes)
    requires NoLF(text) && Atoi(text) == Some(|s|)
    ensures ReadNext([36] + text + [13, 10] + s + [13, 10] + x) ==
              Some(Reply(36, [36] + text + [13, 10] + s + [13, 10], Some(s), 0))
  {
    hide Atoi, LineEnd;
    var b := [36] + text + [13, 10] + s + [13, 10] + x;
    assert b == [36] + text + [13, 10] + (s + [13, 10] + x);
    HeadRead(b, 36, text, s + [13, 10] + x);
    BulkAt(b, |text| + 3, [36] + text + [13, 10], s, x);
  }

  lemma ListIsRead(text: Bytes, items: seq<Spelling>, x: Bytes)
    requires NoLF(text) && Atoi(text).Some?
    requires Span(SpelledItems(items) + x, Atoi(text).value) == Some(|SpelledItems(items)|)
    ensures ReadNext([42] + text + [13, 10] + SpelledItems(items) + x) ==
              Some(Reply(42, [42] + text + [13, 10] + SpelledItems(items), Some(SpelledItems(items)), Atoi(text).value))
  {
    hide Atoi, LineEnd, Span, SpelledItems;
    var all := SpelledItems(items);
    var b := [42] + text + [13, 10] + all + x;
    assert b == [42] + text + [13, 10] + (all + x);
    HeadRead(b, 42, text, all + x);
    ArrayAt(b, |text| + 3, [42] + text + [13, 10], all, x, Atoi(text).value);
  }

  lemma SpanOfNone(d: Bytes, count: int)
    ensures count < 0 ==> Span(d, count) == Span(d, 0)
  {
  }

  lemma {:induction false} SpelledItemsAreRead(items: seq<Spelling>, x: Bytes)
    requires CorrectItems(items)
    ensures Span(SpelledItems(items) + x, |items|) == Some(|SpelledItems(items)|)
    decreases items, 1
  {
    hide ReadNext, Spelled, Span;
    if items == [] {
      NoItems(SpelledItems(items) + x);
    } else {
      var first, tail := Spelled(items[0]), SpelledItems(items[1..]) + x;
      SpelledIsRead(items[0], tail);
      SpelledItemsAreRead(items[1..], x);
      assert SpelledItems(items) + x == first + tail;
      SpanPush(first, tail, |items|);
    }
  }

  lemma SpanPush(first: Bytes, tail: Bytes, count: nat)
    requires count > 0 && ReadNext(first + tail).Some? && ReadNext(first + tail).value.raw == first
    requires Span(tail, count - 1).Some?
    ensures Span(first + tail, count) == Some(|first| + Span(tail, count - 1).value)
  {
    hide ReadNext;
    assert (first + tail)[|first|..] == tail;
  }

  /** The first line of a reply that is read. */
  lemma LineOfReply(b: Bytes) returns (text: Bytes, i: nat)
    requires ReadNext(b).Some?
    ensures IsKind(b[0]) && 0 < i == |text| + 3 <= |b| && b[..i] == [b[0]] + text + [13, 10] && 10 !in text
    ensures b[0] == BULK || b[0] == ARRAY ==> Atoi(text).Some?
    ensures b[0] == BULK ==> ReadNext(b) == ReadBulk(b, i, Atoi(text).value)
    ensures b[0] == ARRAY ==> ReadNext(b) == ReadArray(b, i, Atoi(text).value)
    ensures b[0] != BULK && b[0] != ARRAY ==>
              ReadNext(b) == Some(Reply(b[0], b[..i], Some(text), 0)) && (b[0] == INTEGER ==> IsInteger(text))
  {
    hide Atoi, IsInteger, ReadBulk, ReadArray;
    var lf := LineEnd(b, 1);
    text, i := b[1..lf - 1], lf + 1;
  }

  /** Whatever is read is the front of the buffer, and spelled like that. */
  lemma {:induction false} ReadIsSpelled(b: Bytes) returns (t: Spelling)
    requires ReadNext(b).Some?
    ensures Correct(t) && ReadNext(b).value == ReplyOf(t) && Spelled(t) <= b
    decreases |b|, 0
  {
    hide Span, Atoi, IsInteger, SpelledItems, CorrectItems, ReadNext;
    var text, i := LineOfReply(b);
    if b[0] == BULK {
      var count := Atoi(text).value;
      if count < 0 {
        t := Null(text);
      } else {
        t := Text(text, b[i..i + count]);
        assert b[..i + count + 2] == b[..i] + b[i..i + count] + [13, 10];
      }
    } else if b[0] == ARRAY {
      var count := Atoi(text).value;
      var items := SpanIsSpelled(b[i..], count);
      t := List(text, items);
      var n := Span(b[i..], count).value;
      assert b[..i + n] == b[..i] + b[i..][..n] && b[i..i + n] == b[i..][..n];
    } else {
      t := Line(b[0], text);
    }
  }

  lemma {:induction false} SpanIsSpelled(d: Bytes, count: int) returns (items: seq<Spelling>)
    requires Span(d, count).Some?
    ensures CorrectItems(items) && |items| == (if count < 0 then 0 else count) && SpelledItems(items) == d[..Span(d, count).value]
    decreases |d|, if count < 0 then 0 else count + 1
  {
    hide ReadNext, Correct, Spelled;
    items := [];
    if count > 0 {
      var first := ReadIsSpelled(d);
      var m := |ReadNext(d).value.raw|;
      var rest := SpanIsSpelled(d[m..], count - 1);
      items := [first] + rest;
      var k := Span(d[m..], count - 1).value;
      assert d[..m + k] == d[..m] + d[m..][..k];
    }
  }

  /** A reply cut short reads as incomplete. */
  lemma CutShort(v: Value, n: nat)
    requires Fits(v) && n < |Printed(v)|
    ensures ReadNext(Printed(v)[..n]) == None
    ensures InMemory(Printed(v)) ==> !Overflows(Printed(v)[..n])
  {
    hide ReadNext, Overflows, Printed, Fits;
    var b, x := Printed(v)[..n], Printed(v)[n..];
    assert b + x == Printed(v) == Printed(v) + [];
    ReadPrinted(v, []);
    if ReadNext(b).Some? {
      ReadStable(b, x);
    }
    if InMemory(b + x) && Overflows(b) {
      OverflowIsHopeless(b, x);
    }
  }

  /** So no printed reply is the beginning of another, and a stream of replies has one reading. */
  lemma PrintedApart(v: Value, w: Value, x: Bytes, y: Bytes)
    requires Fits(v) && Fits(w) && Printed(v) + x == Printed(w) + y
    ensures Printed(v) == Printed(w) && x == y && Seen(v) == Seen(w)
  {
    hide ReadNext, Printed, Fits, Seen, Decoded;
    ReadPrinted(v, x);
    ReadPrinted(w, y);
    assert x == (Printed(v) + x)[|Printed(v)|..] && y == (Printed(w) + y)[|Printed(w)|..];
  }
}
