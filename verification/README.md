# lancelot, verified

lancelot is a Redis server that lays its data types out as byte keys in one ordered key-value store.
This project models the places where a clever layout, walk or encoding has to agree with a simple
mathematical object, in the form the Go code has: objects with fields are classes, loops are loops with
invariants, and pure expressions are functions. Each operation is proved against that object, and where
the code departs from it the exact condition is stated and proved instead.

| module | what it models | the object it is proved against |
|---|---|---|
| `ByteOrder`, `Store`, `Float` | byte order, key arithmetic, range scans, order-preserving encodings | numbers, sorted sets of keys, total order of floats |
| `Glob`, `Patterns` | pattern matching and prefix narrowing | the language of a pattern, spelled piece by piece |
| `Merge`, `SetOps` | k-way merge, skipping merge, union, intersection, difference | sets of members and aggregates of scores |
| `Positions`, `BList`, `ListLaws` | the deque with integer, then fractional positions | a sequence |
| `Rank`, `AList` | two-ended rank walks, trims, keys made of timestamps | slices of a sequence |
| `Zset`, `ZsetCommands`, `ZsetLaws` | the sorted set as a member index and a score index | a map from members to scores |
| `Decimal`, `Resp` | reply printer and reply reader | a tree of values, and the grammar of replies |
| `Requests`, `Reader` | the buffered, pipelined command reader | the parse of the whole stream, and the grammar of requests and typed lines |
| `Keyspace` | KEYS and resumable SCAN | the sorted wanted keys of a database |
| `Hll` | HyperLogLog registers, flat and in blocks | the highest rank per register of a set of hashes |
| `Counter` | element counters on shards | the number of elements |
| `Conn` | MULTI, EXEC, WATCH, DISCARD | whole commits of commands executed in order, and the run the inputs tell |

The store is a finite map with ordered scans. A transaction is a snapshot with an overlay of writes whose
commit applies all of them or fails. Go's int and int64 wrap around where the code lets them, and a slice or
an index out of range is a panic (`Basics`). Randomness, clocks, the network and floating-point addition come in as
parameters. A method whose contract speaks of the state before and after the call is proved against a
specification function; what those functions mean is said by the lemmas beside them.

Where the code and its promise differ, the code is kept:

- `union` of sets whose only member is the empty string is empty; scan-mode `inter` and `diff` mishandle
  the empty member of the first argument (`SetOps.Union`, `SetOps.InterModesAgree`, `SetOps.DiffModesAgree`).
- `rangeRank` cuts the wrong side for late starts with negative ends, and is one element short for some
  negative starts with non-negative ends (`Rank.RankResultIsSlice`). With one element or none, a distance
  to an extreme int64 rank wraps around, and the call panics or returns nothing (`Rank.OutcomeIsResult`).
- An offset of 2^63-1 skips nothing (`ZsetCommands.SkippedWindow`), and LREM with a count of -2^63 removes
  nothing (`BList.DroppedIsRemoved`).
- `alTrim` keeps too much from a negative start to a non-negative end (`Rank.TrimKeepsSlice`).
- `blTrim` on both ends of a dense list leaves keys behind that the header no longer describes
  (`BList.List.BlTrim`); a start past the end leaves the list alone instead of emptying it.
- A score range bounded by +0 below misses -0, and one bounded by -0 above misses +0
  (`ZsetCommands.ListedExceptOtherZero`).
- `glob.Prefix` keeps escapes, so narrowing by it can lose some matches or all of them
  (`Glob.NarrowingLosesAll`, `Glob.NarrowingIsExact`), and KEYS and SCAN lose them
  (`Keyspace.NarrowingCompletes`).
- ZRANK and ZREVRANK count no further than the scan cap: every member behind it is answered the cap
  (`ZsetCommands.ShownRank`, `ZsetCommands.RankPastCap`).
- SCAN with a page that ends at a key equal to the pattern's literal head stops early
  (`Keyspace.Iterate`, `Keyspace.IterationComplete`).
- The sum of the counters leaves out those behind the first 32767, which a shard mask of 15 or 16 ones
  can fill (`Counter.SumMissesOne`, `Counter.SumExactForMask`).
- A bulk length close to the greatest int makes the reply reader panic (`Resp.OverflowIsHopeless`).
- `parseInt` wraps at 64 bits, so a longer length comes out as another number (`Requests.ParsedAsWritten`).
- A malformed command makes the reader drop the commands before it in the same buffer
  (`Reader.Reader.ReadBuffered`).
- More than 32769 left or 32768 right pushes in one transaction come out of order
  (`AList.LeftPushesInOrder`, `AList.RightPushesInOrder`).
- WATCH locks the key of an object and not those of its elements, which HSET, SADD and others change
  without touching the object's key: `Conn.WatchedExecIsSerial` does not cover a queue that reads
  elements, and EXEC overlooks such changes (`Conn.WatchMissesElements`).
- A lone PUBLISH goes out before its commit, once per attempt; only EXEC publishes after it
  (`Conn.Attempt`, `Conn.Connection.Exec`).

## Model

| member | source | states |
|---|---|---|
| ByteOrder.StrictTotalOrder | utils/bytes.go:9-48 | byte comparison is a strict total order, on which all scans rely |
| ByteOrder.CompareIsNumeric | utils/bytes.go:33-48 | strings of one length compare as the big-endian numbers they spell |
| ByteOrder.NextKeyIsSuccessor | utils/bytes.go:9-14 | nothing lies between a key and its NextKey, so a scan may resume there |
| ByteOrder.PrefixNext | utils/bytes.go:33-48 | the carry loop computes the prefix plus one as a number, or appends a zero when that overflows |
| ByteOrder.PrefixRange | utils/bytes.go:33-48 | between a prefix and its PrefixNext lie, among keys at least as long, exactly its extensions; for a prefix of 255s only itself |
| ByteOrder.BetweenExtensions | store/txn.go:350-401 | a scan between two extensions of a prefix never leaves the prefix |
| Store.PrefixScan | store/txn.go:350-401 | scanning a prefix range lists every member of the object once, in order, and only shorter keys besides |
| Float.EncodeFloatBytes | utils/float.go:26-34 | the in-place encoder writes the encoding at its place and nothing else |
| Float.DecodeEncode | utils/float.go:14-44 | decoding gives back every 64-bit pattern, NaN payloads and both zeros included, whatever follows |
| Float.EncodeDecode | utils/float.go:14-44 | every eight bytes are the encoding of what they decode to |
| Float.EncodedOrderIsTotalOrder | utils/float.go:14-44 | on numbers, byte order of the encodings is totalOrder of section 5.10 of IEEE 754-2019 |
| Float.ComparesNumbers | utils/number.go:46-61 | Compare orders two numbers as section 3.4 of IEEE 754-2019 defines their values, the zeros being equal |
| Float.CmpUintRoundTrip | utils/int.go:55-61 | the order-preserving form of an int64 is the value plus 2^63, and decodes back |
| Glob.MatchChunk | utils/glob/glob.go:71-151 | a chunk matches at the front of a name exactly when its matchers accept the characters one by one, classes, ranges and escapes included |
| Glob.LeftmostIsEnough | utils/glob/glob.go:153-196 | taking the leftmost placement of a chunk after a star loses no match |
| Glob.Match | utils/glob/glob.go:153-196 | answers exactly whether the name is in the pattern's language; an error only for malformed patterns |
| Patterns.PatternIsRead | utils/glob/glob.go:45-151 | stars, marks, characters and classes, bare or escaped, are read as what they are |
| Patterns.ReadIsPattern | utils/glob/glob.go:45-151 | a pattern that is read at all is such a sequence of pieces |
| Patterns.PatternMatches | utils/glob/glob.go:153-196 | it matches exactly the names that fall into parts its pieces stand for |
| Glob.NarrowingIsSound | utils/glob/glob.go:12-19 | every matching name starts with the narrowing prefix when that has no backslash |
| Glob.NarrowingLosesAll | utils/glob/glob.go:12-19 | unless its backslashes are pairs at its end, no matching name starts with the prefix |
| Glob.NarrowingIsExact | utils/glob/glob.go:12-19 | over names of any alphabet that has the letter a: of a pattern that matches anything, all matches start with the prefix if and only if it is harmless, its backslashes being pairs at its end and what follows able to match only as many more |
| Glob.NarrowingBeforeStar | utils/glob/glob.go:12-19 | where a star, a question mark or a stray bracket ends the prefix, that is if and only if it has no backslash |
| Glob.NarrowingBeforeClass | utils/glob/glob.go:12-19 | before a class a backslash may be harmless: a pair and the class of a backslash lose nothing |
| Merge.IterList.Next | store/iter.go:42-77 | emits a least entry of everything outstanding and forgets exactly that one; none only when nothing is left |
| Merge.IterList.NextUntil | store/iter.go:79-142 | asked for increasing keys, answers for all iterators exactly when all hold the key, and for some exactly when some does, with the right values |
| SetOps.Union | command/set.go:421-514 | every distinct member once, in key order, with the SUM, MIN or MAX of its stored scores, each times the weight of its argument; {""} alone comes out empty |
| SetOps.Inter | command/set.go:268-419 | the common members in key order with the aggregates of their stored scores times the weights, in scan mode and in get mode; the empty member counts 1 in all but the first argument in scan mode; an error exactly when no argument is missing and the scan of the first reaches its cap |
| SetOps.Diff | command/set.go:530-668 | the members of the first in none of the others, in key order, with their own scores; an error exactly when the scan of the first reaches its cap |
| SetOps.InterModesAgree | command/set.go:268-419 | the two modes intersect alike if and only if the empty member is not in the first argument alone |
| SetOps.DiffModesAgree | command/set.go:530-668 | the two modes subtract alike if and only if the empty member is absent from the first, present in another, or there is no other |
| BList.List.BlPush | command/listb.go:639-658 | LPUSH puts its arguments before the sequence, last one first, and keeps the header right |
| BList.List.BrPush | command/listb.go:660-679 | RPUSH appends its arguments and keeps the header right |
| BList.List.BlPop | command/listb.go:681-737 | LPOP returns and removes the first elements, as many as asked for and there are |
| BList.List.BrPop | command/listb.go:739-792 | RPOP returns and removes the last elements, last first |
| ListLaws.PopTakes | command/listb.go:681-792 | a pop is the front of the list, or of the reversed list, as long as asked for, 1 for a count of 0 |
| BList.List.BlRem | command/listb.go:500-579 | LREM removes the first, last or all occurrences by the sign of the count, and counts them; with the least int64 it removes none; an error exactly when it reads as many elements as the scan cap |
| BList.DroppedIsRemoved | command/listb.go:505-516 | that is the removal asked for if and only if the count is not the least int64 or the value is not in the list |
| ListLaws.RemovePlaces | command/listb.go:500-579 | of the removal asked for, exactly the places go where the value stands among its first n, last -n, or all; the others keep their order |
| BList.List.BlIndex | command/listb.go:325-372 | LINDEX gives the element at the index, from either end, or out of range |
| ListLaws.Reaches | command/listb.go:325-372 | a place is found exactly when it exists from either end, in the interior of a complex list only below the cap |
| BList.List.BlSet | command/listb.go:621-637 | LSET replaces exactly that element or reports out of range and changes nothing |
| BList.List.BlRange | command/listb.go:280-323 | LRANGE gives exactly the slice; the scan cap is hit exactly when the visited keys reach it |
| BList.List.BlInsert | command/listb.go:581-619 | LINSERT inserts at the first pivot; only between two elements can precision run out, and then nothing changes; an error exactly when the search reads up to the scan cap |
| ListLaws.InsertPlaces | command/listb.go:581-619 | the insertion is right before or after the first pivot, and nothing else moves |
| BList.List.BlTrim | command/listb.go:147-242 | LTRIM's header describes the slice; the keys agree with it if and only if the list is complex or one end stays; an error, and no change, exactly when a side to cut is as long as the scan cap |
| BList.StartEndSelects | command/listb.go:120-145 | the clamped bounds select exactly the places between start and end, negatives from the right |
| BList.PutBetween | command/listb.go:581-619 | a key strictly between two neighbours inserts its value between theirs |
| Rank.ReversePair | utils/sort.go:9-18 | in place, reverses the pairs and keeps each member before its score |
| Rank.RunWalk | command/lista.go:142-230 | each side has gathered exactly its window of the elements it consumed; together they cover the list, sharing at most the key they meet on |
| Rank.RangeRank | command/lista.go:75-303 | for all int64 bounds, returns the elements of RankOutcome, scores paired, or panics where that says so |
| Rank.OutcomeIsResult | command/lista.go:238-300 | that is the stretch RankResult names if and only if Panics and Loses do not hold: always with two elements or more, and with fewer except at bounds that are extreme int64s |
| Rank.SliceHolds | command/lista.go:231-303 | the rank slice is the stretch of exactly the places from start to end, negatives from the right |
| Rank.ExtremeRanks | command/lista.go:238-300 | one element asked for from the least rank is lost or panics, and so on for the other exceptions |
| Rank.RankResultIsSlice | command/lista.go:231-303 | RankResult is the rank slice if and only if the start is not late and the end not short |
| Rank.ReplyIsSlice | command/lista.go:231-303 | the reply a client sees is the slice, members being distinct, if and only if neither of these nor Panics nor Loses holds |
| Rank.RangeByRank | command/zset.go:1163-1177 | reversed ranges ask for mirrored ranks and turn the reply around; a panic stays one |
| Rank.MirroredRanks | command/zset.go:1163-1177 | the mirrored slice turned around is the slice of the reversed set |
| Rank.ReversedReplyIsSlice | command/zset.go:1163-1177 | the reply to a reversed range is the slice of the reversed set under the same conditions for the mirrored ranks |
| Rank.AlTrim | command/lista.go:309-448 | for all int64 bounds, exactly the keys TrimKeeps names stay, with their values |
| Rank.TrimKeepsSlice | command/lista.go:309-448 | they are the slice for all bounds but a negative start with a non-negative end, and there only if nothing has to go or a bound is an extreme int64 |
| AList.LeftPushesInOrder | command/lista.go:49-56 | a transaction's left keys descend if and only if there are at most 32769 of them |
| AList.RightPushesInOrder | command/lista.go:58-65 | its right keys ascend if and only if there are at most 32768 |
| AList.SpreadLater | command/lista.go:49-65 | a later transaction's keys lie outside all earlier ones on both sides |
| AList.List.Push | command/lista.go:450-469 | LPUSH and RPUSH put their arguments before and after the list in key order |
| AList.PopFrom | command/lista.go:608-648 | the callback deletes and returns the first keys of its direction, and the scan limit is never reached |
| AList.List.Pop | command/lista.go:608-648 | LPOP and RPOP take the elements nearest to the end and leave the rest |
| Zset.KeysApart | command/zset.go:270-290 | member keys and score keys never collide, and a score key determines score and member |
| Zset.OneScoreKeyPerMember | command/zset.go:292-342 | the stored score keys are exactly those of the members' scores, the member keys exactly the members' |
| Zset.PutNew | command/zset.go:292-342 | writing a new member keeps the indexes in agreement |
| Zset.PutChange | command/zset.go:292-342 | the delta-0 write, new score key then delete of the old, keeps them in agreement when the scores differ |
| Zset.PutSameWouldLose | command/zset.go:324-328 | with equal scores it would delete the new key and represent no set at all |
| Zset.PutGone | command/zset.go:292-342 | deleting both keys removes the member |
| Zset.ScoreKeyOrder | command/zset.go:277-283 | score keys sort by score, then by member |
| Zset.InScoreRange | command/zset.go:619-630 | of the whole store, exactly the entries scored between the bounds lie in the scanned range, and between crossed bounds those strictly inside |
| ZsetCommands.ListedExceptOtherZero | command/zset.go:559-579 | the scan reaches every score in bounds except one zero against the other zero as bound |
| ZsetCommands.WalkScores | command/zset.go:1179-1205 | the callback returns the window of the keys that count, though it stops early; the offset 2^63-1 counts as 0 |
| ZsetCommands.ScanFinds | command/zset.go:619-630 | forwards or backwards, the keys that count are the entries in bounds in order, and the early stops lose none |
| ZsetCommands.RangeByScore | command/zset.go:1179-1205 | returns the offset and limit window of the entries in bounds, in score order or against it; the offset 2^63-1 counts as 0 |
| ZsetLaws.RangeHolds | command/zset.go:559-579 | the entries in bounds are those whose scores are numbers between them, ends included or not, except one zero at the other |
| ZsetLaws.RangeOrdered | command/zset.go:1179-1205 | they come in order of score, then of member, or against it |
| ZsetLaws.WindowSelects | command/zset.go:1182-1198 | a window is the stretch from the offset on, as long as the limit and the rest allow, at least one |
| ZsetLaws.MembersOnly | command/zset.go:1190-1196 | a reply without scores is the members in order |
| ZsetCommands.SkippedWindow | command/zset.go:1182-1198 | the window is the one the offset asks for if and only if the offset is below 2^63-1 or nothing is in range |
| ZsetCommands.GreatestOffset | command/zset.go:1182-1198 | at offset 2^63-1 the only entry is returned instead of skipped |
| ZsetCommands.Zrank | command/zset.go:394-446 | none if and only if it is no member; otherwise the place of the member's entry in the order, or the cap of the scan, at least 1, where that is smaller |
| ZsetCommands.ShownRank | command/zset.go:432-438 | the answer is the rank if and only if the rank is at most the cap or at most 1 |
| ZsetCommands.RankPastCap | command/zset.go:432-438 | of two members more than the cap, the last two are both answered the cap |
| ZsetCommands.RankedHolds | command/zset.go:409-446 | every member holds exactly one rank, from 0 to the size less one |
| ZsetCommands.ReverseRank | command/zset.go:394-446 | the rank from the other end, which ZREVRANK counts, is the size less one less the rank |
| ZsetCommands.RankRangeOfRank | command/zset.go:409-446 | a member has rank r if and only if the rank range r to r is that member |
| ZsetCommands.Zadd | command/zset.go:100-161 | writes exactly when NX, XX, GT, LT and a numeric change allow it; reply, count and NaN errors as stated; both indexes agree with the new map |
| ZsetLaws.IncrAdds | command/zset.go:100-161 | with INCR alone the member ends up with the sum, which is answered; NaN if it is no number, and no change then |
| ZsetLaws.AddSets | command/zset.go:100-161 | without INCR and conditions the score offered is answered and becomes the member's, unless it is the same number |
| ZsetLaws.GreaterOnly | command/zset.go:135-139 | under GT a score never falls as a number, and the one offered is taken exactly when it is greater |
| ZsetLaws.LesserOnly | command/zset.go:140-144 | under LT a score never rises, and the one offered is taken exactly when it is smaller |
| ZsetLaws.NewOrThere | command/zset.go:109-120 | NX changes no member and XX adds none, answering 0; GT and LT keep no new member out |
| ZsetLaws.OthersStay | command/zset.go:100-161 | no other member moves and none is lost |
| ZsetLaws.AddCounts | command/zset.go:107-160 | the count is the growth of the set, with CH whether it changed; NaN exactly when no number comes out |
| ZsetLaws.AnswersScore | command/zset.go:100-161 | the score answered is as a number the one the member is left with, unless NX or XX refuse |
| ZsetCommands.Zrem | command/zset.go:163-183 | removes the member from both indexes and says whether it was there |
| ZsetCommands.ZremValues | command/zset.go:803-814 | removes exactly the members of a reply of pairs |
| ZsetCommands.PopByScore | command/zset.go:784-801 | ZPOPMIN, ZPOPMAX and ZREMRANGEBYSCORE return a window of the order and remove exactly it |
| ZsetLaws.PopTakesEnd | command/zset.go:784-801 | ZPOPMIN and ZPOPMAX remove as many members as asked for and there are, and none that stays comes before one of them |
| ZsetLaws.RemovesWithin | command/zset.go:784-801 | ZREMRANGEBYSCORE with room for all removes exactly the members whose scores lie between the bounds |
| ZsetCommands.RemRangeByRank | command/zset.go:1151-1161 | ZREMRANGEBYRANK removes exactly what rangeRank returns, and nothing where that panics |
| ZsetLaws.RemovesRanks | command/zset.go:1151-1161 | outside the exceptions of rangeRank exactly the members of the ranks asked for go |
| ZsetCommands.SortedSet.Do | command/zset.go:100-183 | one command acts on the stored indexes as its step acts on the map |
| ZsetCommands.SortedSet.Run | command/zset.go:100-342 | after any run of commands the two indexes agree with the fold of the steps |
| Resp.AppendIsPrinted | redcon/resp.go:365-616 | the append functions, one-digit short cut included, append a value's bytes and leave what was there |
| Resp.PrintedBytes | redcon/resp.go:365-440 | each kind of reply, byte by byte |
| Resp.ReadNextRESP | redcon/resp.go:49-138 | the recursive reader computes the specified reply and its length, and panics exactly where a bulk end overflows |
| Resp.OverflowIsHopeless | redcon/resp.go:110-113 | where it panics, no more bytes would have made a reply |
| Resp.ReadStable | redcon/resp.go:49-138 | a reply once readable is read the same with any bytes behind it |
| Resp.ReadPrinted | redcon/resp.go:49-138 | of a printed nested value followed by anything, exactly its bytes are consumed, and they decode to the value with line breaks blanked |
| Resp.ReadBack | redcon/resp.go:49-138 | a printed value without line breaks in its lines and without numbers decodes to itself, whatever follows |
| Resp.SpelledIsRead | redcon/resp.go:49-138 | every reply of the grammar, with any spelling of its lengths, is read whole with its data |
| Resp.ReadIsSpelled | redcon/resp.go:49-138 | whatever is read is a reply of the grammar at the front of the buffer |
| Resp.CutShort | redcon/resp.go:49-138 | on every proper prefix of a printed value the reader reports incomplete and does not panic |
| Resp.PrintedApart | redcon/resp.go:365-616 | no printed value is a proper prefix of another: a stream has one reading |
| Decimal.AtoiFormat | redcon/resp.go:100-112 | a printed length is read back exactly when it is an int64 |
| Decimal.FormatIntBytes | redcon/resp.go:365-372 | an int is written with its digits in their places, no leading zero, behind a minus sign if negative |
| Decimal.AtoiReads | redcon/resp.go:100-112 | a number is read exactly from digits alone or behind one sign, in the range of int64 |
| Requests.ParseIntLoop | redcon/redcon.go:775-796 | the loop computes the number with 64-bit wrap-around, or rejects a non-digit |
| Requests.AccumulatedWraps | redcon/redcon.go:775-796 | that number is the written one reduced to 64 bits |
| Requests.ParsedAsWritten | redcon/redcon.go:775-796 | a length is read as written if and only if it fits 63 bits |
| Requests.ParseIntReads | redcon/redcon.go:775-796 | digits, or none, are their value reduced to 64 bits, behind a minus sign its opposite |
| Requests.ParseIntRefuses | redcon/redcon.go:775-796 | anything else is refused |
| Requests.FrontStable | redcon/redcon.go:798-975 | more bytes never change a command that was complete or wrong |
| Requests.CommandsAppend | redcon/redcon.go:798-975 | parsing may stop anywhere and go on with what was left: the commands are the same |
| Requests.PrintedFront | redcon/redcon.go:901-975 | a printed command is read back with its arguments, and nothing beyond it is touched |
| Requests.RequestIsRead | redcon/redcon.go:901-975 | every request of the grammar is read with its arguments, and nothing beyond it is touched |
| Requests.ReadIsRequest | redcon/redcon.go:901-975 | whatever is read as a request is one of the grammar |
| Requests.MoreOfRequest | redcon/redcon.go:901-975 | the reader waits exactly at the beginning of a request, so it refuses exactly what is neither that nor a request |
| Requests.PrintedStream | redcon/redcon.go:798-975 | a printed pipeline parses to its commands, whatever follows |
| Requests.TypedWords | redcon/redcon.go:811-900 | any arguments at all, quoted and escaped on one line, are split back |
| Requests.LineIsRead | redcon/redcon.go:811-900 | words, and texts in either quote with their escapes, apart by any spaces, are split into what they stand for |
| Requests.ReadIsLine | redcon/redcon.go:811-900 | a line that is split at all is such a line; any other has unbalanced quotes |
| Requests.LineFront | redcon/redcon.go:805-818 | a typed command ends at its line feed, a carriage return before it not counted |
| Requests.TypedCommand | redcon/redcon.go:886-900 | a typed line comes out as the printed command |
| Requests.BlankLine | redcon/redcon.go:886-900 | a blank line is no command |
| Requests.TypedLine | redcon/redcon.go:811-900 | such a line is read as one command |
| Reader.ReadWords | redcon/redcon.go:821-885 | the quoting loops compute the specified words or report unbalanced quotes |
| Reader.ReadArgs | redcon/redcon.go:901-975 | the loop that marks argument bounds computes the specified arguments |
| Reader.ParseBuffer | redcon/redcon.go:798-975 | the parse of a buffer, with its rest, or an error that drops the commands before it |
| Reader.Reader.Receive | redcon/redcon.go:988-1006 | reading as much as fits neither loses nor repeats a byte |
| Reader.Reader.MakeRoom | redcon/redcon.go:988-998 | starting over and doubling keep every unread byte |
| Reader.Reader.ReadBuffered | redcon/redcon.go:798-1006 | returns a non-empty front of the stream's commands and leaves exactly the rest, through growing, rewinding and shrinking |
| Reader.Reader.ReadCommand | redcon/redcon.go:1025-1037 | hands out the next command of the stream; ends only when none is left or the stream is malformed |
| Reader.Reader.ReadAll | redcon/redcon.go:371-420 | all commands of the stream in order, or a front of them when it is malformed |
| Reader.Serve | redcon/redcon.go:798-1037 | however a printed stream is cut into packets, its commands come out, each once and in order |
| Reader.Parse | redcon/redcon.go:1040-1057 | one raw message gives its first command, or the error the parse says |
| Keyspace.Scan | command/generic.go:792-849 | a page holds the wanted keys of a first part of the range, ended by the count, the cap or the range |
| Keyspace.RangeAfter | command/generic.go:660-694 | the range behind NextKey of a listed key is exactly the keys listed after it |
| Keyspace.NarrowedRange | command/generic.go:697-715 | for every pattern, filtering the narrowed range gives the wanted keys that extend the literal head, in order |
| Keyspace.NarrowedComplete | command/generic.go:697-715 | on one database these are all wanted keys if and only if every wanted key extends the head |
| Keyspace.NarrowingCompletes | command/generic.go:697-715 | of a pattern that matches anything, they are all wanted keys on every database if and only if the head is harmless |
| Keyspace.PlainNarrowed | command/generic.go:697-715 | a head without backslash loses none |
| Keyspace.Keys | command/generic.go:697-715 | KEYS gives the wanted keys among the first cap of that range, and all that extend the head when the range fits |
| Keyspace.ScanPage | command/generic.go:731-790 | one SCAN from a cluster cursor: the page, and a cursor that is the last key behind the prefix |
| Keyspace.Iterate | command/generic.go:731-849 | for every pattern the iteration ends and gives every wanted key that extends the head once in key order, unless it stops at the head itself |
| Keyspace.IterationComplete | command/generic.go:778-780 | there it has given them all if and only if nothing else was wanted; it stops there only with a count or cap of 1 |
| Hll.RhoMeans | hll/hll.go:89-97 | the rank is the place of the first one among the hash bits behind the register number, between 1 and 65 - p |
| Hll.HashParts | hll/hll.go:89-97 | the register number is the first p bits of the hash, with the rest behind it |
| Hll.AddsGivePeaks | hll/hll.go:89-97 | register i holds the highest rank of the hashes in stretch i of the 2^p equal stretches, 0 if there is none |
| Hll.RegistersOfSet | hll/hll.go:89-97 | registers depend only on the set of added hashes |
| Hll.RegistersInRange | hll/hll.go:89-97 | no register exceeds 65 - p |
| Hll.MergeIsUnion | hll/hll.go:124-146 | merging registers is adding the hashes of both |
| Hll.DefaultDense.CheckAndSet | hll/dense.go:15-22 | the flat array raises one register |
| Hll.ListBlocks | command/hll.go:90-122 | the blocks, missing and odd-sized ones as zeros, assemble to the flat array; an error exactly when there are as many as the scan cap |
| Hll.Dense.CheckAndSet | command/hll.go:22-61 | with or without the cached array, the blocks take the same step as the flat array, and the cache stays true |
| Hll.Dense.Get | command/hll.go:63-88 | reads the register of the flat array, cached or not |
| Hll.Dense.PfAdd | command/hll.go:133-157 | the registers after any adds, and 1 exactly when some register changed |
| Hll.Dense.Merge | hll/hll.go:124-146 | every register becomes the larger of the two and the other sketch keeps its own; nothing changes exactly when one of them is not cached and cannot be listed |
| Counter.CountRoundTrip | command/count.go:23-47 | every int64, the least one included, survives the counter codec, with its user value |
| Counter.SumUpdated | command/object.go:571-585 | writing one counter moves the sum by what that counter moves |
| Counter.SumMoved | command/count.go:119-142 | counting on any shard, even from nothing or below zero, moves the sum by one |
| Counter.MovedCounter | command/count.go:49-55 | counting moves one counter by one, stamps it and keeps its user value; the others stay |
| Counter.Hset | command/hash.go:621-648 | repeated fields count once, the reply is the growth, the sum stays the number of fields |
| Counter.HsetFields | command/hash.go:621-648 | exactly the named fields are added, each with the last value given, under HSETNX the first and only if new; the others stay |
| Counter.Remove | command/hash.go:402-432 | repeated and missing names are not counted twice, though every delete hits the same shard |
| Counter.Sadd | command/set.go:83-108 | new members are written and counted once |
| Counter.SaddMembers | command/set.go:83-108 | exactly the named members are added, and those that were there keep their values |
| Counter.SumCounters | command/object.go:571-585 | the listed counters add up to the number of elements less what the counters behind the first 32767 add up to |
| Counter.ShardsListed | command/count.go:57-75 | a mask of at most 14 ones leaves no more counters than are listed |
| Counter.SumMissesOne | command/count.go:57-75 | for any other mask one HSET of 32768 fields on an empty hash, spread by some hash function, leaves a sum that is one short |
| Counter.SumExactForMask | command/count.go:57-75 | the sum is the number of elements after every run and for every hash function if and only if the mask has at most 14 ones |
| Counter.ScanCount | command/hash.go:165-185 | counts the elements, or ends in an error exactly when they are as many as the cap |
| Counter.Object.Run | command/object.go:531-585 | after any run of HSET, HDEL, SADD and SREM the state is that of the pure run; a scan below its cap counts the elements, and the sum counts them if and only if the unlisted counters add up to 0, as they do for at most 32767 counters or a mask of at most 14 ones |
| Counter.DeletesShardGoesNegative | command/count.go:119-142 | the shard of the deletes goes to -1 while the sum is 0 |
| Conn.PlayIsExecution | command/transaction.go:231-262 | the queued handlers over one snapshot act as executed on it one after the other |
| Conn.WatchedCommitIsExecution | command/transaction.go:366-406 | if all keys the commands read are watched and unchanged, EXEC acts as if executed at its commit |
| Conn.RunQueue | command/transaction.go:231-262 | the loop of exec plays the queue up to the first failing handler |
| Conn.PlayAnswers | command/transaction.go:231-262 | playing fails exactly if a command does; otherwise answer i is that of command i executed after those before it, none yet for one that publishes |
| Conn.PlayMessages | command/transaction.go:251-259 | the messages are those of the commands that have one, in queue order |
| Conn.ExecQueue | command/transaction.go:217-297 | commits, on the store others have left by then, exactly when begin, handlers, liveness and commit succeed; otherwise nothing of it reaches store or channels; null exactly when the commit fails under a WATCH the queue does not drop |
| Conn.ExecReplies | command/transaction.go:217-297 | EXEC answers exactly if all run, channels are up for messages, and nothing watched or written has changed, and then the answers in queue order; null exactly if it fails at the commit under a WATCH the queue does not drop |
| Conn.Attempt | command/transaction.go:41-64 | one attempt of a single command commits its effect on the store others have left by then, if they left the written keys alone, or nothing of it |
| Conn.Connection.Multi | command/transaction.go:343-364 | opens an empty queue, keeps a watched snapshot, and refuses to nest |
| Conn.Connection.Watch | command/transaction.go:366-406 | locks keys on one snapshot, keeping those locked before; refused inside MULTI |
| Conn.Connection.Discard | command/transaction.go:167-189 | a well-formed DISCARD leaves no transaction |
| Conn.Connection.Exec | command/transaction.go:198-297 | commits the played queue over one snapshot and then publishes, or leaves the channels alone and the store to the others; a well-formed EXEC leaves no transaction |
| Conn.Retry | command/transaction.go:129-146 | attempts go on, each on the store the one before left, until one is answered or its handler fails, three at most |
| Conn.FirstSettled | command/transaction.go:129-146 | the reply is that of the first attempt the store did not refuse, on the store the refused ones left |
| Conn.TryShape | command/transaction.go:129-146 | each attempt sends its message once at most; the only commit is the last event, of a handler that ran on a store whose values at the written keys were still there |
| Conn.Connection.Single | command/transaction.go:107-151 | at most three messages go out, one commit or none, the transaction stays |
| Conn.Connection.Handle | command/transaction.go:107-151 | inside MULTI known commands queue in order and unknown ones spoil the transaction; otherwise they execute, and only UNWATCH touches the transaction, dropping the locks |
| Conn.Connection.Step | command/transaction.go:18-406 | reply, transaction and log after any input are those of the reaction to it |
| Conn.Connection.Run | command/transaction.go:18-406 | over any run replies, transaction, log, store and published messages are those told of the inputs |
| Conn.ToldReplays | command/transaction.go:18-406 | the store a run leaves is the replay of its events, whole commits among them, on the store it began with |
| Conn.QueuedSinceMulti | command/transaction.go:107-151 | what is queued depends on the inputs alone: the known commands since the MULTI that opened the queue |
| Conn.RunAccounted | command/transaction.go:198-297 | a run's log holds the stores left by other clients, between the inputs and during EXECs and attempts, the queues of answered EXECs and the commands answered outside MULTI, each in order and once, and no other commit |
| Conn.LonesComeFromCommands | command/transaction.go:107-151 | a message sent outside EXEC is that of a known command outside MULTI on a store it met |
| Conn.WatchedExecIsSerial | command/transaction.go:198-406 | from the first WATCH to the commit of an answered EXEC, whatever happens in between, the watched keys are as they were, and a queue that reads no others is executed there and then |
| Conn.UnwatchedExecIsNotSerial | command/transaction.go:217-286 | without WATCH a commit may rest on a key that has changed since the begin, and the store is then not what executing the queue at the commit gives |
| Conn.WatchMissesElements | command/transaction.go:366-406 | the same with WATCH of an object, when an element that the queue reads changes between WATCH and MULTI and the object's key does not |

## Left out

- BList.List.BlInsert: positions are reals and the midpoint either fails or lies strictly between, since float rounding is not modelled.
- Rank.AlTrim: counters are not modelled, and the key the walks meet on can be counted down twice.
- Rank.RangeRank: a reply is a Go slice, so twice the number of elements is an int; the list is given as its elements in key order; the decoding of stored values is not modelled.
- AList.List.Push: values are stored as they are, without the timestamp in front; `MAXLEN` and counters are left out.
- SetOps.Union: scores are reals, so SUM is exact and commutative; arguments of the wrong type are not modelled.
- Counter.ScanCount: the elements are a map of their own; keys shorter than the object's prefix, which a prefix ending in 255 lets into the range, are skipped by the code but count towards its cap.
- Merge.IterList.Next: the heap of utils/heap.go is a bag from which a least entry is taken.
- Glob.Match: names and patterns are single-byte characters; for a malformed pattern only that an error means malformed is stated.
- ZsetCommands.Zadd: geo sets, whose scores are integers, and the parsing of options and numbers are left out; float addition is any function.
- ZsetCommands.RangeByScore: the scan cap of the store is taken not to be reached; a limit of 0 returns one element as the loop does, since the commands answer it before.
- ZsetCommands.SortedSet.Run: ranges by member (BYLEX), ZRANDMEMBER and the store commands are not among the steps.
- Resp.ReadPrinted: floats, maps and marshalers are left out; lengths are Go ints.
- Resp.ReadNextRESP: a buffer is at least two bytes shorter than the greatest int.
- Requests.CommandsAppend: the raw bytes of a command are values, so sharing with the buffer is not modelled.
- Reader.Reader.Receive: a read error other than the end of input is left out.
- Keyspace.Iterate: base64 of cursors is taken to be a bijection; the START and END options, values in the reply and cursors cached on a server are left out; names are bytes, and a byte of 128 or more is one character in the model where the code reads UTF-8 runes.
- Hll.Dense.Merge: the two sketches are two objects, as PFMERGE makes them; for a key merged into itself, where both have one store, the contract says that nothing is written; the estimate of `Count` and its bias correction are left out.
- Counter.Object.Run: the number of moves stays below 2^63, so no counter wraps; the hash that picks the shard is any function; `alSet` and `alTrim` counters are left out.
- Conn.Connection.Watch: other clients commit between the inputs, and between begin and commit of EXEC and of each attempt, not while WATCH locks its keys.
- Conn.Connection.Exec: a written or watched key that changed and changed back may commit in the model; `Reset` after UNWATCH drops the locks and keeps the snapshot.
- Key expiry, the TTL index and its garbage collection, RENAME, GETSET and GETEX keep object and TTL keys apart and have no clean invariant.
- The empty branch of the B-list handler, which keeps a stale header: an emptied list counts as removed.
- LPOS and LINFO, A-list LREM, LINSERT and LSET, TypeScan: more of the same scans.
- FLUSHDB and FLUSHALL bypass transactions; SELECT, scripts and the other connection commands are not part of the connection model.
- TiKV, sockets, TLS, logging, tracing, metrics, etcd, Lua, JSON, S2 geometry and generated code are not part of this model.
