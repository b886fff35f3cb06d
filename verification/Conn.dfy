/** command/transaction.go: MULTI, EXEC, WATCH and DISCARD on one connection, over a shared store. */
module Conn {
  import opened Basics
  import opened ByteOrder

  // ---------- snapshots and overlays ----------

  type Db = map<Bytes, Bytes>

  /** Keys written by a transaction; None deletes. */
  type Writes = map<Bytes, Option<Bytes>>

  function Overlay(db: Db, w: Writes): Db {
    map k | k in db.Keys + w.Keys && (k in w ==> w[k].Some?) :: if k in w then w[k].value else db[k]
  }

  lemma OverlayTwice(db: Db, v: Writes, w: Writes)
    ensures Overlay(Overlay(db, v), w) == Overlay(db, v + w)
  {
  }

  lemma OverlayNothing(db: Db)
    ensures Overlay(db, map[]) == db
  {
  }

  predicate SameAt(a: Db, b: Db, k: Bytes) {
    (k in a <==> k in b) && (k in a ==> a[k] == b[k])
  }

  ghost predicate AgreeOn(a: Db, b: Db, keys: set<Bytes>) {
    forall k :: k in keys ==> SameAt(a, b, k)
  }

  // ---------- handlers ----------

  type Message = Bytes
  type Answer = Bytes

  /** What a handler does with its transaction. */
  datatype Effect = Effect(writes: Writes, answer: Answer, failed: bool, message: Option<Message>, unwatch: bool)

  /** A handler sees its arguments and the transaction's view of the store. */
  type Handler = (seq<Bytes>, Db) -> Effect

  type Table = map<Bytes, Handler>

  datatype Cmd = Cmd(name: Bytes, args: seq<Bytes>)

  predicate Known(table: Table, cmds: seq<Cmd>) {
    forall i :: 0 <= i < |cmds| ==> cmds[i].name in table
  }

  function EffectOf(table: Table, c: Cmd, view: Db): Effect
    requires c.name in table
  {
    table[c.name](c.args, view)
  }

  /** The queued commands run one after the other over one snapshot, up to the first that fails. */
  datatype Played = Played(writes: Writes, answers: seq<Option<Answer>>, messages: seq<Message>, failed: bool, unwatch: bool)

  function Play(table: Table, cmds: seq<Cmd>, base: Db): Played
    requires Known(table, cmds)
  {
    if cmds == [] then Played(map[], [], [], false, false)
    else
      var p := Play(table, cmds[..|cmds| - 1], base);
      if p.failed then p else Further(p, EffectOf(table, cmds[|cmds| - 1], Overlay(base, p.writes)))
  }

  /** A published message is answered later, with the number of its receivers. */
  function Further(p: Played, e: Effect): Played {
    var unwatch := p.unwatch || e.unwatch;
    if e.failed then Played(p.writes + e.writes, p.answers, p.messages, true, unwatch)
    else if e.message.Some? then Played(p.writes + e.writes, p.answers + [None], p.messages + [e.message.value], false, unwatch)
    else Played(p.writes + e.writes, p.answers + [Some(e.answer)], p.messages, false, unwatch)
  }

  /** The commands executed on a store directly, one after the other. */
  function Executed(table: Table, cmds: seq<Cmd>, db: Db): Db
    requires Known(table, cmds)
  {
    if cmds == [] then db else Executed(table, cmds[1..], Overlay(db, EffectOf(table, cmds[0], db).writes))
  }

  lemma {:induction false} ExecutedPush(table: Table, cmds: seq<Cmd>, c: Cmd, db: Db)
    requires Known(table, cmds) && c.name in table
    ensures Known(table, cmds + [c])
    ensures var before := Executed(table, cmds, db);
            Executed(table, cmds + [c], db) == Overlay(before, EffectOf(table, c, before).writes)
    decreases |cmds|
  {
    hide Overlay, EffectOf;
    var all := cmds + [c];
    if cmds == [] {
      assert all[1..] == [];
    } else {
      ExecutedPush(table, cmds[1..], c, Overlay(db, EffectOf(table, cmds[0], db).writes));
      assert all[1..] == cmds[1..] + [c];
    }
  }

  /** Playing over a snapshot is executing the commands in queue order on it. */
  lemma {:induction false} PlayIsExecution(table: Table, cmds: seq<Cmd>, base: Db)
    requires Known(table, cmds) && !Play(table, cmds, base).failed
    ensures Overlay(base, Play(table, cmds, base).writes) == Executed(table, cmds, base)
    ensures |Play(table, cmds, base).answers| == |cmds|
  {
    hide Overlay, EffectOf;
    if cmds == [] {
      OverlayNothing(base);
    } else {
      var init, c := cmds[..|cmds| - 1], cmds[|cmds| - 1];
      var p := Play(table, init, base);
      PlayIsExecution(table, init, base);
      ExecutedPush(table, init, c, base);
      assert cmds == init + [c];
      OverlayTwice(base, p.writes, EffectOf(table, c, Overlay(base, p.writes)).writes);
    }
  }

  /** What command i does to a store on which the commands before it were executed. */
  ghost function EffectAt(table: Table, cmds: seq<Cmd>, base: Db, i: nat): Effect
    requires Known(table, cmds) && i < |cmds|
  {
    EffectOf(table, cmds[i], Executed(table, cmds[..i], base))
  }

  /** Command i publishes at the end, and is answered then; any other is answered by its handler. */
  ghost function AnswerAt(table: Table, cmds: seq<Cmd>, base: Db, i: nat): Option<Answer>
    requires Known(table, cmds) && i < |cmds|
  {
    var e := EffectAt(table, cmds, base, i);
    if e.message.Some? then None else Some(e.answer)
  }

  lemma PlayedLast(table: Table, cmds: seq<Cmd>, base: Db)
    requires Known(table, cmds) && cmds != []
    ensures var n := |cmds| - 1;
            && (forall i :: 0 <= i < n ==> EffectAt(table, cmds[..n], base, i) == EffectAt(table, cmds, base, i))
            && var p := Play(table, cmds[..n], base);
               Play(table, cmds, base) == if p.failed then p else Further(p, EffectAt(table, cmds, base, n))
  {
    hide EffectOf, Overlay, Executed;
    var n := |cmds| - 1;
    forall i | 0 <= i < n ensures EffectAt(table, cmds[..n], base, i) == EffectAt(table, cmds, base, i) {
      assert cmds[..n][..i] == cmds[..i];
    }
    if !Play(table, cmds[..n], base).failed {
      PlayIsExecution(table, cmds[..n], base);
    }
  }

  /** What playing gives, going by what each command does after those before it. */
  ghost predicate PlayedAs(p: Played, effects: seq<Effect>) {
    && (p.failed <==> exists i :: 0 <= i < |effects| && effects[i].failed)
    && (!p.failed ==>
          && |p.answers| == |effects|
          && (forall i :: 0 <= i < |effects| ==>
                p.answers[i] == if effects[i].message.Some? then None else Some(effects[i].answer))
          && (p.unwatch <==> exists i :: 0 <= i < |effects| && effects[i].unwatch)
          && (forall k :: k in p.writes <==> exists i :: 0 <= i < |effects| && k in effects[i].writes))
  }

  lemma PlayedOn(p: Played, effects: seq<Effect>, e: Effect)
    requires PlayedAs(p, effects)
    ensures PlayedAs(if p.failed then p else Further(p, e), effects + [e])
  {
    var all := effects + [e];
    assert all[|effects|] == e;
    assert forall i :: 0 <= i < |effects| ==> all[i] == effects[i];
    if !p.failed && !e.failed {
      forall k ensures k in p.writes + e.writes <==> exists i :: 0 <= i < |all| && k in all[i].writes {
        if k in p.writes {
          var i :| 0 <= i < |effects| && k in effects[i].writes;
          assert k in all[i].writes;
        }
      }
    }
  }

  ghost function Effects(table: Table, cmds: seq<Cmd>, base: Db): seq<Effect>
    requires Known(table, cmds)
  {
    seq(|cmds|, i requires 0 <= i < |cmds| => EffectAt(table, cmds, base, i))
  }

  lemma {:induction false} PlayIsPlayed(table: Table, cmds: seq<Cmd>, base: Db)
    requires Known(table, cmds)
    ensures PlayedAs(Play(table, cmds, base), Effects(table, cmds, base))
  {
    hide EffectAt, PlayedAs, Further;
    if cmds == [] {
      NothingPlayed(table, base);
    } else {
      var n := |cmds| - 1;
      PlayIsPlayed(table, cmds[..n], base);
      PlayedLast(table, cmds, base);
      PlayedOn(Play(table, cmds[..n], base), Effects(table, cmds[..n], base), EffectAt(table, cmds, base, n));
      assert Effects(table, cmds, base) == Effects(table, cmds[..n], base) + [EffectAt(table, cmds, base, n)];
    }
  }

  lemma NothingPlayed(table: Table, base: Db)
    ensures PlayedAs(Play(table, [], base), Effects(table, [], base))
  {
  }

  /** Playing fails exactly when a command does, and otherwise gives each command its answer, in queue order. */
  lemma PlayAnswers(table: Table, cmds: seq<Cmd>, base: Db)
    requires Known(table, cmds)
    ensures var p := Play(table, cmds, base);
            && (p.failed <==> exists i :: 0 <= i < |cmds| && EffectAt(table, cmds, base, i).failed)
            && (!p.failed ==>
                  && |p.answers| == |cmds|
                  && (forall i :: 0 <= i < |cmds| ==> p.answers[i] == AnswerAt(table, cmds, base, i))
                  && (p.unwatch <==> exists i :: 0 <= i < |cmds| && EffectAt(table, cmds, base, i).unwatch)
                  && (forall k :: k in p.writes <==> exists i :: 0 <= i < |cmds| && k in EffectAt(table, cmds, base, i).writes))
  {
    hide EffectAt, Play;
    PlayIsPlayed(table, cmds, base);
    var effects := Effects(table, cmds, base);
    assert forall i :: 0 <= i < |cmds| ==> effects[i] == EffectAt(table, cmds, base, i);
  }

  /** The messages are those of the commands that have one, in queue order: command at[j] has message j. */
  lemma {:induction false} PlayMessages(table: Table, cmds: seq<Cmd>, base: Db) returns (at: seq<nat>)
    requires Known(table, cmds) && !Play(table, cmds, base).failed
    ensures |at| == |Play(table, cmds, base).messages| && forall i, j :: 0 <= i < j < |at| ==> at[i] < at[j]
    ensures forall j :: 0 <= j < |at| ==>
              at[j] < |cmds| && EffectAt(table, cmds, base, at[j]).message == Some(Play(table, cmds, base).messages[j])
    ensures forall i :: 0 <= i < |cmds| && EffectAt(table, cmds, base, i).message.Some? ==> i in at
  {
    hide EffectAt;
    at := [];
    if cmds != [] {
      var n := |cmds| - 1;
      PlayedLast(table, cmds, base);
      at := PlayMessages(table, cmds[..n], base);
      if EffectAt(table, cmds, base, n).message.Some? {
        at := at + [n];
      }
    }
  }

  // ---------- what WATCH buys ----------

  /** The handler's effect depends on the given keys only. */
  ghost predicate ReadsOnly(table: Table, c: Cmd, keys: set<Bytes>)
    requires c.name in table
  {
    forall a: Db, b: Db :: AgreeOn(a, b, keys) ==> EffectOf(table, c, a) == EffectOf(table, c, b)
  }

  ghost predicate AllReadOnly(table: Table, cmds: seq<Cmd>, keys: set<Bytes>)
    requires Known(table, cmds)
  {
    forall i :: 0 <= i < |cmds| ==> ReadsOnly(table, cmds[i], keys)
  }

  lemma {:induction false} PlayedAlike(table: Table, cmds: seq<Cmd>, keys: set<Bytes>, a: Db, b: Db)
    requires Known(table, cmds) && AllReadOnly(table, cmds, keys) && AgreeOn(a, b, keys)
    ensures Play(table, cmds, a) == Play(table, cmds, b)
  {
    hide Overlay, EffectOf;
    if cmds != [] {
      var n := |cmds| - 1;
      forall i | 0 <= i < n ensures ReadsOnly(table, cmds[..n][i], keys) {
        assert cmds[..n][i] == cmds[i];
      }
      PlayedAlike(table, cmds[..n], keys, a, b);
      var w := Play(table, cmds[..n], a).writes;
      OverlayAgrees(a, b, w, keys);
      assert ReadsOnly(table, cmds[n], keys);
    }
  }

  lemma OverlayAgrees(a: Db, b: Db, w: Writes, keys: set<Bytes>)
    requires AgreeOn(a, b, keys)
    ensures AgreeOn(Overlay(a, w), Overlay(b, w), keys)
  {
    forall k | k in keys ensures SameAt(Overlay(a, w), Overlay(b, w), k) {
      assert SameAt(a, b, k);
    }
  }

  /**
   * If every key the commands read is watched and unchanged at the commit, the commit does to the
   * store what executing the commands at that moment would do.
   */
  lemma WatchedCommitIsExecution(table: Table, cmds: seq<Cmd>, keys: set<Bytes>, base: Db, store: Db)
    requires Known(table, cmds) && AllReadOnly(table, cmds, keys) && AgreeOn(base, store, keys)
    requires !Play(table, cmds, base).failed
    ensures Overlay(store, Play(table, cmds, base).writes) == Executed(table, cmds, store)
  {
    hide Play, Executed, Overlay, AllReadOnly, AgreeOn;
    PlayedAlike(table, cmds, keys, base, store);
    PlayIsExecution(table, cmds, store);
  }

  // ---------- what happened to the store and the channels ----------

  /** Another client's doing, a commit of this connection, or a message of a lone PUBLISH. */
  datatype Event =
    | Outside(db: Db)
    | Committed(base: Db, cmds: seq<Cmd>, exec: bool)
    | Lone(message: Message)

  predicate Real(table: Table, e: Event) {
    e.Committed? ==> Known(table, e.cmds) && !Play(table, e.cmds, e.base).failed
  }

  predicate Genuine(table: Table, log: seq<Event>) {
    forall i :: 0 <= i < |log| ==> Real(table, log[i])
  }

  function StoreAfter(table: Table, e: Event, before: Db): Db
    requires Real(table, e)
  {
    match e
    case Outside(now) => now
    case Committed(base, cmds, _) => Overlay(before, Play(table, cmds, base).writes)
    case Lone(_) => before
  }

  function SentBy(table: Table, e: Event): seq<Message>
    requires Real(table, e)
  {
    match e
    case Outside(_) => []
    case Committed(base, cmds, exec) => if exec then Play(table, cmds, base).messages else []
    case Lone(message) => [message]
  }

  function Replay(table: Table, db: Db, log: seq<Event>): Db
    requires Genuine(table, log)
  {
    if log == [] then db else StoreAfter(table, log[|log| - 1], Replay(table, db, log[..|log| - 1]))
  }

  function Sent(table: Table, log: seq<Event>): seq<Message>
    requires Genuine(table, log)
  {
    if log == [] then [] else Sent(table, log[..|log| - 1]) + SentBy(table, log[|log| - 1])
  }

  lemma Logged(table: Table, db: Db, log: seq<Event>, e: Event)
    requires Genuine(table, log) && Real(table, e)
    ensures Genuine(table, log + [e])
    ensures Replay(table, db, log + [e]) == StoreAfter(table, e, Replay(table, db, log))
    ensures Sent(table, log + [e]) == Sent(table, log) + SentBy(table, e)
  {
    hide Real, StoreAfter, SentBy;
    assert (log + [e])[..|log|] == log;
  }

  lemma {:induction false} LogTogether(table: Table, db: Db, log: seq<Event>, more: seq<Event>)
    requires Genuine(table, log) && Genuine(table, more)
    ensures Genuine(table, log + more)
    ensures Replay(table, db, log + more) == Replay(table, Replay(table, db, log), more)
    ensures Sent(table, log + more) == Sent(table, log) + Sent(table, more)
  {
    hide Real, StoreAfter, SentBy;
    var n := |more|;
    if n == 0 {
      assert log + more == log;
    } else {
      LogTogether(table, db, log, more[..n - 1]);
      assert (log + more)[..|log| + n - 1] == log + more[..n - 1];
      assert Sent(table, log) + (Sent(table, more[..n - 1]) + SentBy(table, more[n - 1]))
          == Sent(table, log) + Sent(table, more[..n - 1]) + SentBy(table, more[n - 1]);
    }
  }

  // ---------- a transaction and its commit ----------

  /** What a begun transaction keeps: the store as it was, and the keys locked by WATCH. */
  datatype Snapshot = Snapshot(base: Db, watched: set<Bytes>)

  /**
   * What the outside world decides about one attempt, and what store other clients leave between its
   * begin and its commit.
   */
  datatype Weather = Weather(begins: bool, locks: bool, alive: bool, commits: bool, others: Option<Db>)

  /** The store an attempt finds at its end, begun on this one. */
  function Landed(store: Db, weather: Weather): Db {
    if weather.others.Some? then weather.others.value else store
  }

  function Passing(weather: Weather): seq<Event> {
    if weather.others.Some? then [Outside(weather.others.value)] else []
  }

  /** The commit applies all writes or none; it fails when a written or watched key has changed. */
  method Commit(store: Db, tx: Snapshot, w: Writes, weather: Weather) returns (ok: bool, after: Db)
    ensures ok <==> weather.commits && AgreeOn(tx.base, store, tx.watched + w.Keys)
    ensures after == if ok then Overlay(store, w) else store
  {
    ok := weather.commits && forall k :: k in tx.watched + w.Keys ==> SameAt(tx.base, store, k);
    after := if ok then Overlay(store, w) else store;
  }

  datatype Response =
    | Fine
    | Queued
    | Answer(answer: Answer)
    | Answers(answers: seq<Option<Answer>>)
    | Null
    | WrongArgs
    | UnknownCommand
    | NotInMulti
    | Nested
    | Discarded
    | HandlerFailed
    | StoreFailed

  /** The loop of exec over the queue: the handlers run on one view until one fails. */
  method RunQueue(table: Table, cmds: seq<Cmd>, base: Db) returns (p: Played)
    requires Known(table, cmds)
    ensures p == Play(table, cmds, base)
  {
    hide Overlay, EffectOf;
    p := Played(map[], [], [], false, false);
    var i := 0;
    while i < |cmds|
      invariant 0 <= i <= |cmds| && p == Play(table, cmds[..i], base) && !p.failed
    {
      assert cmds[..i + 1][..i] == cmds[..i];
      p := Further(p, EffectOf(table, cmds[i], Overlay(base, p.writes)));
      i := i + 1;
      if p.failed {
        FailureStays(table, cmds, i, base);
        return;
      }
    }
    assert cmds[..i] == cmds;
  }

  lemma {:induction false} FailureStays(table: Table, cmds: seq<Cmd>, i: nat, base: Db)
    requires Known(table, cmds) && i <= |cmds| && Play(table, cmds[..i], base).failed
    ensures Play(table, cmds, base) == Play(table, cmds[..i], base)
  {
    hide Overlay, EffectOf;
    if i < |cmds| {
      var n := |cmds| - 1;
      assert cmds[..n][..i] == cmds[..i];
      FailureStays(table, cmds[..n], i, base);
    } else {
      assert cmds[..i] == cmds;
    }
  }

  // ---------- EXEC, once its queue may run ----------

  /** The snapshot EXEC runs on: the one WATCH took, or one taken now. */
  function ExecSnapshot(tx: Option<Snapshot>, store: Db): Snapshot {
    if tx.Some? then tx.value else Snapshot(store, {})
  }

  ghost predicate ExecCommits(table: Table, q: seq<Cmd>, tx: Option<Snapshot>, store: Db, weather: Weather)
    requires Known(table, q)
  {
    var snap := ExecSnapshot(tx, store);
    var p := Play(table, q, snap.base);
    && (tx.Some? || weather.begins) && !p.failed && (p.messages == [] || weather.alive)
    && weather.commits && AgreeOn(snap.base, Landed(store, weather), snap.watched + p.writes.Keys)
  }

  /** The null reply tells of keys that changed under WATCH, as far as the commit got to look at them. */
  ghost function ExecReply(table: Table, q: seq<Cmd>, tx: Option<Snapshot>, watch: bool, store: Db, weather: Weather): Response
    requires Known(table, q)
  {
    var p := Play(table, q, ExecSnapshot(tx, store).base);
    if ExecCommits(table, q, tx, store, weather) then Answers(p.answers)
    else if (tx.Some? || weather.begins) && p.failed then HandlerFailed
    else if (tx.Some? || weather.begins) && (p.messages == [] || weather.alive) && watch && !p.unwatch then Null
    else StoreFailed
  }

  method ExecQueue(table: Table, q: seq<Cmd>, tx: Option<Snapshot>, watch: bool, store: Db, weather: Weather)
    returns (r: Response, after: Db, messages: seq<Message>)
    requires Known(table, q)
    ensures r == ExecReply(table, q, tx, watch, store, weather)
    ensures var p := Play(table, q, ExecSnapshot(tx, store).base);
            && (r.Answers? <==> ExecCommits(table, q, tx, store, weather))
            && (r.Answers? ==> r.answers == p.answers && after == Overlay(Landed(store, weather), p.writes) && messages == p.messages)
            && (!r.Answers? ==> after == Landed(store, weather) && messages == [])
            && (r.HandlerFailed? <==> (tx.Some? || weather.begins) && p.failed)
            && (r.Null? <==>
                  && (tx.Some? || weather.begins) && !p.failed && (p.messages == [] || weather.alive) && watch && !p.unwatch
                  && !(weather.commits && AgreeOn(ExecSnapshot(tx, store).base, Landed(store, weather),
                                                  ExecSnapshot(tx, store).watched + p.writes.Keys)))
            && (r.Answers? || r.HandlerFailed? || r.Null? || r.StoreFailed?)
  {
    hide Overlay, Play, AgreeOn;
    var now := Landed(store, weather);
    if tx.None? && !weather.begins {
      return StoreFailed, now, [];
    }
    var snap := ExecSnapshot(tx, store);
    var p := RunQueue(table, q, snap.base);
    if p.failed {
      return HandlerFailed, now, [];
    }
    if |p.messages| > 0 && !weather.alive {
      return StoreFailed, now, [];
    }
    var ok;
    ok, after := Commit(now, snap, p.writes, weather);
    if !ok {
      return if watch && !p.unwatch then Null else StoreFailed, now, [];
    }
    r, messages := Answers(p.answers), p.messages;
  }

  /** The queue runs to its end and may then commit: no handler fails, and channels are up if there are messages. */
  ghost predicate RunsThrough(table: Table, q: seq<Cmd>, tx: Option<Snapshot>, store: Db, weather: Weather)
    requires Known(table, q)
  {
    var base := ExecSnapshot(tx, store).base;
    && (tx.Some? || weather.begins)
    && (forall i :: 0 <= i < |q| ==> !EffectAt(table, q, base, i).failed)
    && (weather.alive || forall i :: 0 <= i < |q| ==> EffectAt(table, q, base, i).message.None?)
  }

  /** No watched key and no key the queue writes has changed since the snapshot. */
  ghost predicate Undisturbed(table: Table, q: seq<Cmd>, tx: Option<Snapshot>, store: Db, weather: Weather)
    requires Known(table, q)
  {
    var snap := ExecSnapshot(tx, store);
    && AgreeOn(snap.base, Landed(store, weather), snap.watched)
    && forall i, k :: 0 <= i < |q| && k in EffectAt(table, q, snap.base, i).writes ==> SameAt(snap.base, Landed(store, weather), k)
  }

  /** What EXEC replies, going by the commands executed one after the other on the snapshot. */
  lemma ExecReplies(table: Table, q: seq<Cmd>, tx: Option<Snapshot>, watch: bool, store: Db, weather: Weather)
    requires Known(table, q)
    ensures var r, base := ExecReply(table, q, tx, watch, store, weather), ExecSnapshot(tx, store).base;
            && (r.Answers? <==>
                  RunsThrough(table, q, tx, store, weather) && weather.commits && Undisturbed(table, q, tx, store, weather))
            && (r.Answers? ==> |r.answers| == |q| && forall i :: 0 <= i < |q| ==> r.answers[i] == AnswerAt(table, q, base, i))
            && (r.Null? <==>
                  && RunsThrough(table, q, tx, store, weather) && !(weather.commits && Undisturbed(table, q, tx, store, weather))
                  && watch && forall i :: 0 <= i < |q| ==> !EffectAt(table, q, base, i).unwatch)
            && (r.HandlerFailed? <==>
                  (tx.Some? || weather.begins) && exists i :: 0 <= i < |q| && EffectAt(table, q, base, i).failed)
            && (r.Answers? || r.Null? || r.HandlerFailed? || r.StoreFailed?)
  {
    hide EffectAt, Play, AnswerAt;
    var base := ExecSnapshot(tx, store).base;
    PlayAnswers(table, q, base);
    if !Play(table, q, base).failed {
      SilentQueue(table, q, base);
      WrittenUndisturbed(table, q, tx, store, weather);
    }
  }

  lemma SilentQueue(table: Table, q: seq<Cmd>, base: Db)
    requires Known(table, q) && !Play(table, q, base).failed
    ensures Play(table, q, base).messages == [] <==> forall i :: 0 <= i < |q| ==> EffectAt(table, q, base, i).message.None?
  {
    hide EffectAt, Play;
    var at := PlayMessages(table, q, base);
    if at != [] {
      assert EffectAt(table, q, base, at[0]).message.Some?;
    }
  }

  lemma WrittenUndisturbed(table: Table, q: seq<Cmd>, tx: Option<Snapshot>, store: Db, weather: Weather)
    requires Known(table, q) && !Play(table, q, ExecSnapshot(tx, store).base).failed
    ensures var snap := ExecSnapshot(tx, store);
            Undisturbed(table, q, tx, store, weather) <==>
              AgreeOn(snap.base, Landed(store, weather), snap.watched + Play(table, q, snap.base).writes.Keys)
  {
    hide EffectAt, Play, SameAt;
    PlayAnswers(table, q, ExecSnapshot(tx, store).base);
  }

  // ---------- one command on its own ----------

  function Lones(messages: seq<Message>): (log: seq<Event>)
    ensures |log| == |messages| && forall i :: 0 <= i < |log| ==> log[i] == Lone(messages[i])
  {
    seq(|messages|, i requires 0 <= i < |messages| => Lone(messages[i]))
  }

  function MessageOf(e: Effect): seq<Message> {
    if e.message.Some? then [e.message.value] else []
  }

  /** The reply of a command on its own, and what happened to store and channels. */
  datatype Tried = Tried(response: Response, events: seq<Event>)

  /** One attempt: a message goes out while the handler runs, and the commit needs the written keys unchanged. */
  ghost function TryOnce(table: Table, c: Cmd, store: Db, weather: Weather): Tried
    requires c.name in table
  {
    var e := EffectOf(table, c, store);
    if !weather.begins then Tried(StoreFailed, Passing(weather))
    else if e.failed then Tried(HandlerFailed, Passing(weather))
    else if weather.commits && AgreeOn(store, Landed(store, weather), e.writes.Keys) then
      Tried(Answer(e.answer), Lones(MessageOf(e)) + Passing(weather) + [Committed(store, [c], false)])
    else Tried(StoreFailed, Lones(MessageOf(e)) + Passing(weather))
  }

  /** Attempts go on while the store refuses, each on what the one before it left. */
  ghost function Try(table: Table, c: Cmd, store: Db, weathers: seq<Weather>): Tried
    requires c.name in table
    decreases |weathers|
  {
    if weathers == [] then Tried(StoreFailed, [])
    else
      var one := TryOnce(table, c, store, weathers[0]);
      if !one.response.StoreFailed? then one
      else
        var more := Try(table, c, Landed(store, weathers[0]), weathers[1..]);
        Tried(more.response, one.events + more.events)
  }

  /** One attempt of SingleHandler on a fresh snapshot. */
  method Attempt(table: Table, c: Cmd, store: Db, weather: Weather)
    returns (r: Response, after: Db, messages: seq<Message>)
    requires c.name in table
    ensures r == TryOnce(table, c, store, weather).response
    ensures var p := Play(table, [c], store);
            && Known(table, [c])
            && (r.Answer? <==> weather.begins && weather.commits && !p.failed && AgreeOn(store, Landed(store, weather), p.writes.Keys))
            && after == (if r.Answer? then Overlay(Landed(store, weather), p.writes) else Landed(store, weather))
            && (r.HandlerFailed? <==> weather.begins && p.failed)
            && (r.Answer? || r.HandlerFailed? || r.StoreFailed?)
            && messages == (if weather.begins && !p.failed then p.messages else [])
  {
    hide AgreeOn;
    PlayOne(table, c, store);
    var now := Landed(store, weather);
    if !weather.begins {
      return StoreFailed, now, [];
    }
    var e := EffectOf(table, c, store);
    if e.failed {
      return HandlerFailed, now, [];
    }
    messages := if e.message.Some? then [e.message.value] else [];
    var ok;
    ok, after := Commit(now, Snapshot(store, {}), e.writes, weather);
    assert {} + e.writes.Keys == e.writes.Keys;
    r := if ok then Answer(e.answer) else StoreFailed;
  }

  lemma PlayOne(table: Table, c: Cmd, store: Db)
    requires c.name in table
    ensures Known(table, [c]) && Play(table, [c], store) == Further(Played(map[], [], [], false, false), EffectOf(table, c, store))
    ensures map[] + EffectOf(table, c, store).writes == EffectOf(table, c, store).writes
  {
    OverlayNothing(store);
    hide Overlay, EffectOf;
    var one := [c];
    assert one[..0] == [];
    assert Overlay(store, Play(table, one[..0], store).writes) == store;
  }

  ghost predicate NoCommit(log: seq<Event>) {
    forall i :: 0 <= i < |log| ==> !log[i].Committed?
  }

  /** The events of an attempt are what it did to store and channels; its commit comes last. */
  lemma OnceShape(table: Table, c: Cmd, store: Db, weather: Weather) returns (most: seq<Event>)
    requires c.name in table
    ensures var t, p := TryOnce(table, c, store, weather), Play(table, [c], store);
            && t.events == most + (if t.response.Answer? then [Committed(store, [c], false)] else [])
            && NoCommit(most) && Genuine(table, most) && Replay(table, store, most) == Landed(store, weather)
            && Known(table, [c]) && Sent(table, most) == (if weather.begins && !p.failed then p.messages else [])
            && |Sent(table, most)| <= 1
            && (t.response.Answer? ==>
                  && !p.failed && AgreeOn(store, Landed(store, weather), p.writes.Keys)
                  && t.response.answer == EffectOf(table, c, store).answer)
            && (t.response.Answer? || t.response.HandlerFailed? || t.response.StoreFailed?)
  {
    hide Play, EffectOf, Overlay, AgreeOn, Genuine, Replay, Sent;
    PlayOne(table, c, store);
    NothingLogged(table, store);
    var e := EffectOf(table, c, store);
    var lones := if weather.begins && !e.failed then Lones(MessageOf(e)) else [];
    assert lones == if lones == [] then [] else [] + [Lone(e.message.value)];
    if lones != [] {
      Logged(table, store, [], Lone(e.message.value));
    }
    most := lones + Passing(weather);
    if weather.others.Some? {
      Logged(table, store, lones, Outside(weather.others.value));
    } else {
      assert most == lones;
    }
    assert Sent(table, most) == Sent(table, lones);
  }

  /** Such events with the commit behind them. */
  lemma ShapeReplays(table: Table, c: Cmd, store: Db, most: seq<Event>, base: Db, answered: bool)
    requires Genuine(table, most) && Known(table, [c]) && (answered ==> !Play(table, [c], base).failed)
    ensures var log := most + (if answered then [Committed(base, [c], false)] else []);
            && Genuine(table, log)
            && Replay(table, store, log) == (if answered then Overlay(Replay(table, store, most), Play(table, [c], base).writes)
                                             else Replay(table, store, most))
            && Sent(table, log) == Sent(table, most)
  {
    hide Play, Overlay, Genuine, Replay, Sent;
    if answered {
      Logged(table, store, most, Committed(base, [c], false));
    } else {
      assert most + [] == most;
    }
  }

  /** The store an attempt begins on is the one the command met, or one that others left during it. */
  ghost predicate MetBy(db: Db, store: Db, weathers: seq<Weather>) {
    db == store || exists i :: 0 <= i < |weathers| && weathers[i].others == Some(db)
  }

  /**
   * Each attempt sends its message once at most, and the only commit is the answered one, the last
   * event: its handler ran on a store whose values at the written keys were still there.
   */
  lemma {:induction false} TryShape(table: Table, c: Cmd, store: Db, weathers: seq<Weather>) returns (most: seq<Event>, base: Db)
    requires c.name in table
    ensures var t := Try(table, c, store, weathers);
            && t.events == most + (if t.response.Answer? then [Committed(base, [c], false)] else [])
            && NoCommit(most) && Genuine(table, most) && Known(table, [c]) && |Sent(table, most)| <= |weathers|
            && (t.response.Answer? ==>
                  && MetBy(base, store, weathers) && !Play(table, [c], base).failed
                  && AgreeOn(base, Replay(table, store, most), Play(table, [c], base).writes.Keys)
                  && t.response.answer == EffectOf(table, c, base).answer)
            && (t.response.Answer? || t.response.HandlerFailed? || t.response.StoreFailed?)
    decreases |weathers|
  {
    hide Play, EffectOf, Overlay, AgreeOn, Genuine, Replay, Sent, TryOnce, Known, MetBy;
    PlayOne(table, c, store);
    NothingLogged(table, store);
    most, base := [], store;
    if weathers != [] {
      most := OnceShape(table, c, store, weathers[0]);
      if TryOnce(table, c, store, weathers[0]).response.StoreFailed? {
        var rest;
        rest, base := TryShape(table, c, Landed(store, weathers[0]), weathers[1..]);
        LogTogether(table, store, most, rest);
        MetLater(base, store, weathers);
        most := most + rest;
      } else {
        MetFirst(store, weathers);
      }
    }
  }

  /** The store attempt j finds. */
  function FoundBy(store: Db, weathers: seq<Weather>, j: nat): Db
    requires j <= |weathers|
  {
    if j == 0 then store else Landed(FoundBy(store, weathers, j - 1), weathers[j - 1])
  }

  lemma {:induction false} FoundLater(store: Db, weathers: seq<Weather>, j: nat)
    requires j < |weathers|
    ensures FoundBy(Landed(store, weathers[0]), weathers[1..], j) == FoundBy(store, weathers, j + 1)
  {
    hide Landed;
    if j > 0 {
      FoundLater(store, weathers, j - 1);
    }
  }

  /** The reply is that of the first attempt k that the store did not refuse; if it refused all, so does the reply. */
  lemma {:induction false} FirstSettled(table: Table, c: Cmd, store: Db, weathers: seq<Weather>) returns (k: nat)
    requires c.name in table
    ensures k <= |weathers|
    ensures forall j :: 0 <= j < k ==> TryOnce(table, c, FoundBy(store, weathers, j), weathers[j]).response.StoreFailed?
    ensures k < |weathers| ==>
              var one := TryOnce(table, c, FoundBy(store, weathers, k), weathers[k]).response;
              !one.StoreFailed? && Try(table, c, store, weathers).response == one
    ensures k == |weathers| ==> Try(table, c, store, weathers).response.StoreFailed?
    decreases |weathers|
  {
    hide TryOnce, Landed;
    k := 0;
    if weathers != [] && TryOnce(table, c, store, weathers[0]).response.StoreFailed? {
      var next := Landed(store, weathers[0]);
      var i := FirstSettled(table, c, next, weathers[1..]);
      k := i + 1;
      forall j | 0 <= j < k ensures TryOnce(table, c, FoundBy(store, weathers, j), weathers[j]).response.StoreFailed? {
        if j > 0 {
          FoundLater(store, weathers, j - 1);
          assert weathers[1..][j - 1] == weathers[j];
        }
      }
      if i < |weathers| - 1 {
        FoundLater(store, weathers, i);
      }
    }
  }

  lemma MetFirst(store: Db, weathers: seq<Weather>)
    ensures MetBy(store, store, weathers)
  {
  }

  lemma MetLater(db: Db, store: Db, weathers: seq<Weather>)
    requires weathers != []
    ensures MetBy(db, Landed(store, weathers[0]), weathers[1..]) ==> MetBy(db, store, weathers)
  {
    if MetBy(db, Landed(store, weathers[0]), weathers[1..]) && db != store {
      if db == Landed(store, weathers[0]) {
        assert weathers[0].others == Some(db);
      } else {
        var i :| 0 <= i < |weathers[1..]| && weathers[1..][i].others == Some(db);
        assert weathers[i + 1].others == Some(db);
      }
    }
  }

  lemma NothingLogged(table: Table, store: Db)
    ensures Genuine(table, []) && Replay(table, store, []) == store && Sent(table, []) == []
  {
  }

  // ---------- what each input does, on values ----------

  /** The fields of a transaction. */
  datatype TxnState = TxnState(multi: bool, watch: bool, pendingErr: bool, pendingReq: seq<Cmd>, tx: Option<Snapshot>)

  datatype Input =
    | Multi(args: nat)
    | Watch(keys: seq<Bytes>, weather: Weather)
    | Discard(args: nat)
    | Exec(args: nat, weather: Weather)
    | Command(c: Cmd, first: Weather, second: Weather, third: Weather)
    | Others(now: Db)

  /** The transaction left on the connection, the reply, and what happened to store and channels. */
  datatype Outcome = Outcome(txn: Option<TxnState>, response: Response, events: seq<Event>)

  const UNWATCH: Bytes := [117, 110, 119, 97, 116, 99, 104]

  function Begun(txn: Option<TxnState>): TxnState {
    if txn.Some? then txn.value else TxnState(false, false, false, [], None)
  }

  predicate InMulti(txn: Option<TxnState>) {
    txn.Some? && txn.value.multi
  }

  /** The queue can be played, and is empty outside MULTI. */
  predicate Sound(table: Table, txn: Option<TxnState>) {
    txn.Some? ==> Known(table, txn.value.pendingReq) && (!txn.value.multi ==> txn.value.pendingReq == [] && !txn.value.pendingErr)
  }

  function OnMulti(txn: Option<TxnState>, args: nat): Outcome {
    if args > 0 then Outcome(txn, WrongArgs, [])
    else if InMulti(txn) then Outcome(txn, Nested, [])
    else Outcome(Some(Begun(txn).(multi := true, pendingReq := [])), Fine, [])
  }

  /** A failure drops the snapshot of a transaction that was there, and one that was not stays away. */
  function OnWatch(txn: Option<TxnState>, store: Db, keys: seq<Bytes>, weather: Weather): Outcome {
    if keys == [] then Outcome(txn, WrongArgs, [])
    else if InMulti(txn) then Outcome(txn, Nested, [])
    else
      var t := Begun(txn);
      if t.tx.None? && !weather.begins then Outcome(txn, StoreFailed, [])
      else if !weather.locks then Outcome(if txn.Some? then Some(t.(tx := None)) else None, StoreFailed, [])
      else Outcome(Some(t.(watch := true, tx := Some(Locked(ExecSnapshot(t.tx, store), keys)))), Fine, [])
  }

  function Locked(snap: Snapshot, keys: seq<Bytes>): Snapshot {
    Snapshot(snap.base, snap.watched + (set k | k in keys))
  }

  function OnDiscard(txn: Option<TxnState>, args: nat): Outcome {
    if args > 0 then Outcome(txn, WrongArgs, [])
    else Outcome(None, if InMulti(txn) then Fine else NotInMulti, [])
  }

  ghost function OnExec(table: Table, txn: Option<TxnState>, store: Db, args: nat, weather: Weather): Outcome
    requires Sound(table, txn)
  {
    if args > 0 then Outcome(txn, WrongArgs, [])
    else if !InMulti(txn) then Outcome(None, NotInMulti, [])
    else if txn.value.pendingErr then Outcome(None, Discarded, [])
    else
      var q, tx := txn.value.pendingReq, txn.value.tx;
      var r := ExecReply(table, q, tx, txn.value.watch, store, weather);
      Outcome(None, r, Passing(weather) + (if r.Answers? then [Committed(ExecSnapshot(tx, store).base, q, true)] else []))
  }

  /** UNWATCH outside MULTI forgets the locks and keeps the snapshot. */
  function Unwatched(txn: Option<TxnState>): Option<TxnState> {
    if txn.None? then None
    else Some(txn.value.(watch := false, tx := if txn.value.tx.Some? then Some(Snapshot(txn.value.tx.value.base, {})) else None))
  }

  ghost function OnCommand(table: Table, txn: Option<TxnState>, store: Db, c: Cmd, weathers: seq<Weather>): Outcome {
    if c.name !in table then Outcome(if InMulti(txn) then Some(txn.value.(pendingErr := true)) else txn, UnknownCommand, [])
    else if InMulti(txn) then Outcome(Some(txn.value.(pendingReq := txn.value.pendingReq + [c])), Queued, [])
    else
      var t := Try(table, c, store, weathers);
      Outcome(if c.name == UNWATCH then Unwatched(txn) else txn, t.response, t.events)
  }

  ghost function Reaction(table: Table, txn: Option<TxnState>, store: Db, input: Input): Outcome
    requires Sound(table, txn)
  {
    match input
    case Multi(args) => OnMulti(txn, args)
    case Watch(keys, weather) => OnWatch(txn, store, keys, weather)
    case Discard(args) => OnDiscard(txn, args)
    case Exec(args, weather) => OnExec(table, txn, store, args, weather)
    case Command(c, first, second, third) => OnCommand(table, txn, store, c, [first, second, third])
    case Others(now) => Outcome(txn, Fine, [Outside(now)])
  }

  lemma ReactionSound(table: Table, txn: Option<TxnState>, store: Db, input: Input)
    requires Sound(table, txn)
    ensures Sound(table, Reaction(table, txn, store, input).txn)
    ensures Genuine(table, Reaction(table, txn, store, input).events)
  {
    hide Play, ExecReply, EffectOf, Overlay, Try, Genuine;
    NothingLogged(table, store);
    if input.Command? && input.c.name in table {
      TryGenuine(table, input.c, store, [input.first, input.second, input.third]);
    } else if input.Exec? {
      ExecGenuine(table, txn, store, input.args, input.weather);
    } else if input.Others? {
      OneGenuine(table, Outside(input.now));
    }
  }

  lemma OneGenuine(table: Table, e: Event)
    requires Real(table, e)
    ensures Genuine(table, [e])
  {
  }

  lemma ExecGenuine(table: Table, txn: Option<TxnState>, store: Db, args: nat, weather: Weather)
    requires Sound(table, txn)
    ensures Genuine(table, OnExec(table, txn, store, args, weather).events)
  {
    hide Play, ExecCommits, Overlay;
    if InMulti(txn) && ExecCommits(table, txn.value.pendingReq, txn.value.tx, store, weather) {
      CommitsUnfailed(table, txn.value.pendingReq, txn.value.tx, store, weather);
    }
  }

  lemma TryGenuine(table: Table, c: Cmd, store: Db, weathers: seq<Weather>)
    requires c.name in table
    ensures Genuine(table, Try(table, c, store, weathers).events)
  {
    hide Play, EffectOf, Overlay, Try, AgreeOn, Genuine, Replay, Sent, MetBy;
    var most, base := TryShape(table, c, store, weathers);
    ShapeReplays(table, c, store, most, base, Try(table, c, store, weathers).response.Answer?);
  }

  lemma CommitsUnfailed(table: Table, q: seq<Cmd>, tx: Option<Snapshot>, store: Db, weather: Weather)
    requires Known(table, q) && ExecCommits(table, q, tx, store, weather)
    ensures !Play(table, q, ExecSnapshot(tx, store).base).failed
  {
  }

  // ---------- runs, on values ----------

  /** A run from a connection's transaction and store: what it leaves, replies and causes. */
  datatype Story = Story(txn: Option<TxnState>, store: Db, responses: seq<Response>, events: seq<Event>)

  ghost function Told(table: Table, txn: Option<TxnState>, store: Db, inputs: seq<Input>): (s: Story)
    requires Sound(table, txn)
    ensures Sound(table, s.txn) && Genuine(table, s.events)
  {
    if inputs == [] then Story(txn, store, [], [])
    else
      var s := Told(table, txn, store, inputs[..|inputs| - 1]);
      var o := Reaction(table, s.txn, s.store, inputs[|inputs| - 1]);
      ReactionSound(table, s.txn, s.store, inputs[|inputs| - 1]);
      Story(o.txn, Replay(table, s.store, o.events), s.responses + [o.response], s.events + o.events)
  }

  /** The store a run leaves is the replay of its events on the store it began with. */
  lemma {:induction false} ToldReplays(table: Table, txn: Option<TxnState>, store: Db, inputs: seq<Input>)
    requires Sound(table, txn)
    ensures Told(table, txn, store, inputs).store == Replay(table, store, Told(table, txn, store, inputs).events)
    ensures |Told(table, txn, store, inputs).responses| == |inputs|
  {
    hide Reaction, Genuine, Sound, StoreAfter, Known;
    var n := |inputs|;
    if n > 0 {
      ToldReplays(table, txn, store, inputs[..n - 1]);
      var s := Told(table, txn, store, inputs[..n - 1]);
      var o := Reaction(table, s.txn, s.store, inputs[n - 1]);
      ReactionSound(table, s.txn, s.store, inputs[n - 1]);
      LogTogether(table, store, s.events, o.events);
    }
  }

  // ---------- where a run's queues, commits and messages come from ----------

  /** What the inputs alone say of MULTI: no queue is open, or one with these commands. */
  datatype Phase = Idle | Open(queue: seq<Cmd>, spoiled: bool)

  function PhaseOf(txn: Option<TxnState>): Phase {
    if InMulti(txn) then Open(txn.value.pendingReq, txn.value.pendingErr) else Idle
  }

  function Advanced(table: Table, p: Phase, input: Input): Phase {
    match input
    case Multi(args) => if args == 0 && p.Idle? then Open([], false) else p
    case Exec(args, _) => if args == 0 then Idle else p
    case Discard(args) => if args == 0 then Idle else p
    case Command(c, _, _, _) =>
      if p.Idle? then p else if c.name in table then Open(p.queue + [c], p.spoiled) else Open(p.queue, true)
    case Watch(_, _) => p
    case Others(_) => p
  }

  function PhaseAfter(table: Table, p: Phase, inputs: seq<Input>): Phase {
    if inputs == [] then p else Advanced(table, PhaseAfter(table, p, inputs[..|inputs| - 1]), inputs[|inputs| - 1])
  }

  lemma PhaseAdvances(table: Table, txn: Option<TxnState>, store: Db, input: Input)
    requires Sound(table, txn)
    ensures PhaseOf(Reaction(table, txn, store, input).txn) == Advanced(table, PhaseOf(txn), input)
  {
    hide Known, Try, ExecReply, EffectOf;
  }

  /** Store, weather and watched keys have no say in what is queued. */
  lemma {:induction false} QueuedSinceMulti(table: Table, txn: Option<TxnState>, store: Db, inputs: seq<Input>)
    requires Sound(table, txn)
    ensures PhaseOf(Told(table, txn, store, inputs).txn) == PhaseAfter(table, PhaseOf(txn), inputs)
  {
    hide Genuine, Replay, Sound, Reaction, PhaseOf, Advanced;
    var n := |inputs|;
    if n > 0 {
      var s := Told(table, txn, store, inputs[..n - 1]);
      QueuedSinceMulti(table, txn, store, inputs[..n - 1]);
      PhaseAdvances(table, s.txn, s.store, inputs[n - 1]);
    }
  }

  /** Stores of other clients, queues committed by EXEC, and commands committed on their own, each in order. */
  datatype Ledger = Ledger(outside: seq<Db>, queues: seq<seq<Cmd>>, commands: seq<Cmd>)

  function Joined(a: Ledger, b: Ledger): Ledger {
    Ledger(a.outside + b.outside, a.queues + b.queues, a.commands + b.commands)
  }

  const NOTHING := Ledger([], [], [])

  function EntryOf(e: Event): Ledger {
    match e
    case Outside(db) => Ledger([db], [], [])
    case Committed(_, cmds, exec) => if exec then Ledger([], [cmds], []) else Ledger([], [], cmds)
    case Lone(_) => NOTHING
  }

  function LedgerOf(log: seq<Event>): Ledger {
    if log == [] then NOTHING else Joined(LedgerOf(log[..|log| - 1]), EntryOf(log[|log| - 1]))
  }

  lemma {:induction false} LedgersJoin(a: seq<Event>, b: seq<Event>)
    ensures LedgerOf(a + b) == Joined(LedgerOf(a), LedgerOf(b))
  {
    hide EntryOf;
    var n := |b|;
    if n == 0 {
      assert a + b == a;
    } else {
      LedgersJoin(a, b[..n - 1]);
      assert (a + b)[..|a| + n - 1] == a + b[..n - 1];
    }
  }

  /** How many attempts a command makes on its own. */
  ghost function Made(table: Table, c: Cmd, store: Db, weathers: seq<Weather>): (n: nat)
    requires c.name in table
    ensures n <= |weathers|
    decreases |weathers|
  {
    if weathers == [] then 0
    else if !TryOnce(table, c, store, weathers[0]).response.StoreFailed? then 1
    else 1 + Made(table, c, Landed(store, weathers[0]), weathers[1..])
  }

  function Passed(weathers: seq<Weather>): seq<Db> {
    if weathers == [] then []
    else (if weathers[0].others.Some? then [weathers[0].others.value] else []) + Passed(weathers[1..])
  }

  /** What an input must have left in the log, going by its reply and by what others do meanwhile. */
  ghost function Due(table: Table, p: Phase, store: Db, input: Input, response: Response): Ledger {
    if input.Others? then Ledger([input.now], [], [])
    else if input.Exec? && input.args == 0 && p.Open? && !p.spoiled then
      Ledger(Passed([input.weather]), if response.Answers? then [p.queue] else [], [])
    else if input.Command? && p.Idle? && input.c.name in table then
      var weathers := [input.first, input.second, input.third];
      Ledger(Passed(weathers[..Made(table, input.c, store, weathers)]), [], if response.Answer? then [input.c] else [])
    else NOTHING
  }

  ghost function AllDue(table: Table, txn: Option<TxnState>, store: Db, inputs: seq<Input>): Ledger
    requires Sound(table, txn)
  {
    if inputs == [] then NOTHING
    else
      var n := |inputs| - 1;
      var s := Told(table, txn, store, inputs[..n]);
      var response := Reaction(table, s.txn, s.store, inputs[n]).response;
      Joined(AllDue(table, txn, store, inputs[..n]),
             Due(table, PhaseAfter(table, PhaseOf(txn), inputs[..n]), s.store, inputs[n], response))
  }

  lemma LedgerOfOne(e: Event)
    ensures LedgerOf([e]) == EntryOf(e)
  {
    assert [e][..0] == [];
  }

  lemma OnceDue(table: Table, c: Cmd, store: Db, weather: Weather)
    requires c.name in table
    ensures var t := TryOnce(table, c, store, weather);
            LedgerOf(t.events) == Ledger(Passed([weather]), [], if t.response.Answer? then [c] else [])
  {
    hide LedgerOf, EffectOf, AgreeOn, Lones, MessageOf;
    var t, e := TryOnce(table, c, store, weather), EffectOf(table, c, store);
    var lones := if weather.begins && !e.failed then Lones(MessageOf(e)) else [];
    LonesOweNothing(lones);
    LonesOweNothing([]);
    LedgersJoin(lones, Passing(weather));
    if weather.others.Some? {
      LedgerOfOne(Outside(weather.others.value));
    }
    if t.response.Answer? {
      LedgersJoin(lones + Passing(weather), [Committed(store, [c], false)]);
      LedgerOfOne(Committed(store, [c], false));
    } else {
      assert lones + Passing(weather) == t.events;
    }
  }

  lemma {:induction false} TryDue(table: Table, c: Cmd, store: Db, weathers: seq<Weather>)
    requires c.name in table
    ensures var t := Try(table, c, store, weathers);
            LedgerOf(t.events) == Ledger(Passed(weathers[..Made(table, c, store, weathers)]), [], if t.response.Answer? then [c] else [])
    decreases |weathers|
  {
    hide LedgerOf, TryOnce;
    LonesOweNothing([]);
    if weathers != [] {
      var one := TryOnce(table, c, store, weathers[0]);
      OnceDue(table, c, store, weathers[0]);
      var n := Made(table, c, store, weathers);
      assert weathers[..n][0] == weathers[0];
      if one.response.StoreFailed? {
        TryDue(table, c, Landed(store, weathers[0]), weathers[1..]);
        LedgersJoin(one.events, Try(table, c, Landed(store, weathers[0]), weathers[1..]).events);
        assert weathers[..n][1..] == weathers[1..][..n - 1];
      } else {
        assert weathers[..n] == [weathers[0]];
      }
    }
  }

  lemma PassedOne(weather: Weather)
    ensures Passed([weather]) == if weather.others.Some? then [weather.others.value] else []
  {
    assert [weather][1..] == [];
  }

  lemma ExecDue(table: Table, txn: Option<TxnState>, store: Db, args: nat, weather: Weather)
    requires Sound(table, txn)
    ensures var o := OnExec(table, txn, store, args, weather);
            LedgerOf(o.events) == Due(table, PhaseOf(txn), store, Exec(args, weather), o.response)
  {
    hide LedgerOf, Play, ExecReply, Known, Passed;
    LonesOweNothing([]);
    var o := OnExec(table, txn, store, args, weather);
    if args == 0 && InMulti(txn) && !txn.value.pendingErr {
      var commit := Committed(ExecSnapshot(txn.value.tx, store).base, txn.value.pendingReq, true);
      LedgerOfOne(commit);
      PassedOne(weather);
      LedgersJoin(Passing(weather), if o.response.Answers? then [commit] else []);
      if weather.others.Some? {
        LedgerOfOne(Outside(weather.others.value));
      }
    }
  }

  lemma ReactionDue(table: Table, txn: Option<TxnState>, store: Db, input: Input)
    requires Sound(table, txn)
    ensures var o := Reaction(table, txn, store, input);
            LedgerOf(o.events) == Due(table, PhaseOf(txn), store, input, o.response)
  {
    hide LedgerOf, OnExec, Try, Known, Made, Passed;
    LonesOweNothing([]);
    if input.Exec? {
      ExecDue(table, txn, store, input.args, input.weather);
    } else if input.Others? {
      LedgerOfOne(Outside(input.now));
    } else if input.Command? && input.c.name in table && !InMulti(txn) {
      TryDue(table, input.c, store, [input.first, input.second, input.third]);
    }
  }

  lemma {:induction false} LonesOweNothing(log: seq<Event>)
    requires forall i :: 0 <= i < |log| ==> log[i].Lone?
    ensures LedgerOf(log) == NOTHING
  {
    if log != [] {
      LonesOweNothing(log[..|log| - 1]);
    }
  }

  /**
   * The stores other clients left, between the inputs or during the attempts, the queues of the
   * answered EXECs and the commands answered outside MULTI are all that is in the log of a run, in
   * order and once each; a queue is what was queued since the last MULTI.
   */
  lemma {:induction false} RunAccounted(table: Table, txn: Option<TxnState>, store: Db, inputs: seq<Input>)
    requires Sound(table, txn)
    ensures LedgerOf(Told(table, txn, store, inputs).events) == AllDue(table, txn, store, inputs)
  {
    hide Reaction, Genuine, Replay, Sound, Known, Due, EntryOf, PhaseOf;
    var n := |inputs|;
    if n > 0 {
      var s := Told(table, txn, store, inputs[..n - 1]);
      var o := Reaction(table, s.txn, s.store, inputs[n - 1]);
      RunAccounted(table, txn, store, inputs[..n - 1]);
      QueuedSinceMulti(table, txn, store, inputs[..n - 1]);
      ReactionDue(table, s.txn, s.store, inputs[n - 1]);
      LedgersJoin(s.events, o.events);
    }
  }

  /** Command i, alone outside MULTI, had this message to send on a store it met. */
  ghost predicate SentAlone(table: Table, txn: Option<TxnState>, store: Db, inputs: seq<Input>, i: nat, db: Db, m: Message)
    requires Sound(table, txn) && i < |inputs|
  {
    && inputs[i].Command? && inputs[i].c.name in table && PhaseAfter(table, PhaseOf(txn), inputs[..i]).Idle?
    && MetBy(db, Told(table, txn, store, inputs[..i]).store, [inputs[i].first, inputs[i].second, inputs[i].third])
    && var e := EffectOf(table, inputs[i].c, db);
       !e.failed && e.message == Some(m)
  }

  lemma {:induction false} LoneTried(table: Table, c: Cmd, store: Db, weathers: seq<Weather>, j: nat) returns (db: Db)
    requires c.name in table && j < |Try(table, c, store, weathers).events| && Try(table, c, store, weathers).events[j].Lone?
    ensures MetBy(db, store, weathers)
    ensures var e := EffectOf(table, c, db);
            !e.failed && e.message == Some(Try(table, c, store, weathers).events[j].message)
    decreases |weathers|
  {
    hide AgreeOn, EffectOf, MetBy;
    var one := TryOnce(table, c, store, weathers[0]);
    if j < |one.events| {
      db := store;
      MetFirst(store, weathers);
    } else {
      db := LoneTried(table, c, Landed(store, weathers[0]), weathers[1..], j - |one.events|);
      MetLater(db, store, weathers);
    }
  }

  lemma LoneReaction(table: Table, txn: Option<TxnState>, store: Db, input: Input, j: nat) returns (db: Db)
    requires Sound(table, txn) && j < |Reaction(table, txn, store, input).events| && Reaction(table, txn, store, input).events[j].Lone?
    ensures input.Command? && input.c.name in table && PhaseOf(txn).Idle? && !EffectOf(table, input.c, db).failed
    ensures MetBy(db, store, [input.first, input.second, input.third])
    ensures EffectOf(table, input.c, db).message == Some(Reaction(table, txn, store, input).events[j].message)
  {
    hide Play, ExecReply, EffectOf, Overlay, Try, Known, MetBy;
    assert input.Command?;
    db := LoneTried(table, input.c, store, [input.first, input.second, input.third], j);
  }

  lemma {:induction false} LonesComeFromCommands(table: Table, txn: Option<TxnState>, store: Db, inputs: seq<Input>, j: nat)
    returns (i: nat, db: Db)
    requires Sound(table, txn) && j < |Told(table, txn, store, inputs).events|
    requires Told(table, txn, store, inputs).events[j].Lone?
    ensures i < |inputs| && SentAlone(table, txn, store, inputs, i, db, Told(table, txn, store, inputs).events[j].message)
  {
    hide Genuine, Replay, Known, EffectOf, Reaction, PhaseAfter, PhaseOf, Sound, MetBy;
    var n := |inputs| - 1;
    var s := Told(table, txn, store, inputs[..n]);
    if j < |s.events| {
      i, db := LonesComeFromCommands(table, txn, store, inputs[..n], j);
      assert inputs[..n][..i] == inputs[..i] && inputs[..n][i] == inputs[i];
    } else {
      i := n;
      QueuedSinceMulti(table, txn, store, inputs[..n]);
      db := LoneReaction(table, s.txn, s.store, inputs[n], j - |s.events|);
    }
  }

  // ---------- WATCH over a run ----------

  /** The input leaves a watching transaction its snapshot and its locks. */
  predicate Keeps(table: Table, p: Phase, input: Input, response: Response) {
    match input
    case Exec(args, _) => args > 0
    case Discard(args) => args > 0
    case Watch(_, _) => !response.StoreFailed?
    case Command(c, _, _, _) => p.Open? || c.name != UNWATCH || c.name !in table
    case Multi(_) => true
    case Others(_) => true
  }

  ghost predicate Kept(table: Table, txn: Option<TxnState>, store: Db, inputs: seq<Input>)
    requires Sound(table, txn)
  {
    inputs == [] ||
    (var n := |inputs| - 1;
     var s := Told(table, txn, store, inputs[..n]);
     && Kept(table, txn, store, inputs[..n])
     && Keeps(table, PhaseAfter(table, PhaseOf(txn), inputs[..n]), inputs[n], Reaction(table, s.txn, s.store, inputs[n]).response))
  }

  ghost predicate Watching(txn: Option<TxnState>, base: Db, keys: set<Bytes>) {
    txn.Some? && txn.value.tx.Some? && txn.value.tx.value.base == base && keys <= txn.value.tx.value.watched
  }

  lemma {:induction false} LocksLast(table: Table, txn: Option<TxnState>, store: Db, inputs: seq<Input>, base: Db, keys: set<Bytes>)
    requires Sound(table, txn) && Kept(table, txn, store, inputs) && Watching(txn, base, keys)
    ensures Watching(Told(table, txn, store, inputs).txn, base, keys)
  {
    hide Genuine, Replay, StoreAfter, Known, Try, ExecReply, EffectOf, PhaseAfter;
    var n := |inputs|;
    if n > 0 {
      LocksLast(table, txn, store, inputs[..n - 1], base, keys);
      QueuedSinceMulti(table, txn, store, inputs[..n - 1]);
    }
  }

  /**
   * Optimistic locking over a run: from the first WATCH of a transaction to the commit of its EXEC,
   * whatever other clients and this one do in between, an answered EXEC finds the watched keys as the
   * WATCH found them, and if its queue reads only those, it is the queue executed then and there.
   */
  lemma WatchedExecIsSerial(table: Table, txn: Option<TxnState>, store: Db, keys: seq<Bytes>, first: Weather, inputs: seq<Input>, last: Weather)
    requires Sound(table, txn) && (txn.Some? ==> txn.value.tx.None?)
    requires OnWatch(txn, store, keys, first).response.Fine?
    requires Kept(table, OnWatch(txn, store, keys, first).txn, store, inputs)
    requires var s := Told(table, OnWatch(txn, store, keys, first).txn, store, inputs);
             OnExec(table, s.txn, s.store, 0, last).response.Answers?
    ensures var s, watched := Told(table, OnWatch(txn, store, keys, first).txn, store, inputs), set k | k in keys;
            var q, found := PhaseAfter(table, Idle, inputs), Landed(s.store, last);
            && AgreeOn(store, found, watched)
            && q.Open? && Known(table, q.queue) && !q.spoiled
            && Genuine(table, OnExec(table, s.txn, s.store, 0, last).events)
            && (AllReadOnly(table, q.queue, watched) ==>
                  Replay(table, s.store, OnExec(table, s.txn, s.store, 0, last).events) == Executed(table, q.queue, found))
  {
    hide Genuine, Replay, Executed, AllReadOnly, AgreeOn, OnExec, Told;
    var watched := set k | k in keys;
    var begun := OnWatch(txn, store, keys, first).txn;
    WatchBegins(txn, store, keys, first);
    LocksLast(table, begun, store, inputs, store, watched);
    QueuedSinceMulti(table, begun, store, inputs);
    var s := Told(table, begun, store, inputs);
    ExecWatched(table, s.txn, store, s.store, watched, last);
  }

  lemma WatchBegins(txn: Option<TxnState>, store: Db, keys: seq<Bytes>, weather: Weather)
    requires (txn.Some? ==> txn.value.tx.None?) && OnWatch(txn, store, keys, weather).response.Fine?
    ensures Watching(OnWatch(txn, store, keys, weather).txn, store, set k | k in keys)
    ensures PhaseOf(OnWatch(txn, store, keys, weather).txn) == Idle
  {
  }

  lemma ExecWatched(table: Table, txn: Option<TxnState>, base: Db, store: Db, keys: set<Bytes>, weather: Weather)
    requires Sound(table, txn) && Watching(txn, base, keys) && OnExec(table, txn, store, 0, weather).response.Answers?
    ensures AgreeOn(base, Landed(store, weather), keys)
    ensures InMulti(txn) && !txn.value.pendingErr && Genuine(table, OnExec(table, txn, store, 0, weather).events)
    ensures AllReadOnly(table, txn.value.pendingReq, keys) ==>
              Replay(table, store, OnExec(table, txn, store, 0, weather).events) == Executed(table, txn.value.pendingReq, Landed(store, weather))
  {
    hide Play, Executed, Overlay, AllReadOnly, Known, Genuine, Replay, Sent;
    var q := txn.value.pendingReq;
    CommitsUnfailed(table, q, txn.value.tx, store, weather);
    ExecReplays(table, q, txn.value.tx, txn.value.watch, store, weather);
    if AllReadOnly(table, q, keys) {
      WatchedCommitIsExecution(table, q, keys, base, Landed(store, weather));
    }
  }

  /** What an EXEC that got to its queue did to store and channels. */
  lemma ExecReplays(table: Table, q: seq<Cmd>, tx: Option<Snapshot>, watch: bool, store: Db, weather: Weather)
    requires Known(table, q)
    ensures var r, base := ExecReply(table, q, tx, watch, store, weather), ExecSnapshot(tx, store).base;
            var log := Passing(weather) + (if r.Answers? then [Committed(base, q, true)] else []);
            && Genuine(table, log)
            && Replay(table, store, log) == (if r.Answers? then Overlay(Landed(store, weather), Play(table, q, base).writes) else Landed(store, weather))
            && Sent(table, log) == (if r.Answers? then Play(table, q, base).messages else [])
  {
    hide Play, Overlay, Known, Genuine, Replay, Sent, ExecCommits;
    NothingLogged(table, store);
    var passing := Passing(weather);
    if weather.others.Some? {
      Logged(table, store, [], Outside(weather.others.value));
      assert passing == [] + [Outside(weather.others.value)];
    }
    if ExecReply(table, q, tx, watch, store, weather).Answers? {
      CommitsUnfailed(table, q, tx, store, weather);
      Logged(table, store, passing, Committed(ExecSnapshot(tx, store).base, q, true));
    } else {
      assert passing + [] == passing;
    }
  }

  /** Copies what is under one key to another. */
  function Copying(from: Bytes, to: Bytes, db: Db): Effect {
    Effect(map[to := if from in db then Some(db[from]) else None], [], false, None, false)
  }

  /**
   * Without WATCH it need not be: a key that the queue reads and does not write may change between
   * begin and commit, and the commit goes through with what was read before.
   */
  lemma UnwatchedExecIsNotSerial(table: Table, c: Cmd, from: Bytes, to: Bytes, before: Bytes, later: Bytes)
    requires c.name in table && from != to && before != later
    requires forall db :: EffectOf(table, c, db) == Copying(from, to, db)
    ensures var txn, store := Some(TxnState(true, false, false, [c], None)), map[from := before];
            var weather := Weather(true, true, true, true, Some(map[from := later]));
            && Sound(table, txn)
            && var o := OnExec(table, txn, store, 0, weather);
               && o.response.Answers? && Genuine(table, o.events)
               && Replay(table, store, o.events) == map[from := later, to := before]
               && Executed(table, [c], Landed(store, weather)) == map[from := later, to := later]
  {
    hide Genuine, Replay, EffectOf, Sent, Executed, Play, Overlay, ExecReply, AgreeOn;
    var store: Db, found: Db := map[from := before], map[from := later];
    var weather := Weather(true, true, true, true, Some(found));
    SameElsewhere(store, found, {}, to, from);
    StaleExec(table, c, from, to, None, false, store, weather);
    ExecReplays(table, [c], None, false, store, weather);
  }

  const FAIR: Weather := Weather(true, true, true, true, None)

  /** WATCH of one key, then a change by others, MULTI and one command. */
  function WatchThenQueue(key: Bytes, now: Db, c: Cmd): seq<Input> {
    [Watch([key], FAIR), Others(now), Multi(0), Command(c, FAIR, FAIR, FAIR)]
  }

  lemma WatchedAndQueued(table: Table, store: Db, key: Bytes, now: Db, c: Cmd)
    requires c.name in table
    ensures var s := Told(table, None, store, WatchThenQueue(key, now, c));
            s.txn == Some(TxnState(true, true, false, [c], Some(Snapshot(store, {key})))) && s.store == now
  {
    hide Told, Replay, Reaction, Genuine;
    var i0, i1, i2, i3 := Watch([key], FAIR), Others(now), Multi(0), Command(c, FAIR, FAIR, FAIR);
    NothingTold(table, store);
    ToldNext(table, store, [], i0);
    ToldNext(table, store, [i0], i1);
    ToldNext(table, store, [i0, i1], i2);
    ToldNext(table, store, [i0, i1, i2], i3);
    assert [] + [i0] == [i0] && [i0] + [i1] == [i0, i1] && [i0, i1] + [i2] == [i0, i1, i2];
    assert [i0, i1, i2] + [i3] == [i0, i1, i2, i3];
    WatchReacts(table, store, key);
    var watching := Some(TxnState(false, true, false, [], Some(Snapshot(store, {key}))));
    OthersReact(table, watching, store, now);
    MultiReacts(table, store, key, now);
    QueueReacts(table, store, key, now, c);
  }

  lemma WatchReacts(table: Table, store: Db, key: Bytes)
    ensures var o := Reaction(table, None, store, Watch([key], FAIR));
            && o.txn == Some(TxnState(false, true, false, [], Some(Snapshot(store, {key}))))
            && Genuine(table, o.events) && Replay(table, store, o.events) == store
  {
    assert (set k | k in [key]) == {key} && {} + {key} == {key};
  }

  lemma OthersReact(table: Table, txn: Option<TxnState>, store: Db, now: Db)
    requires Sound(table, txn)
    ensures var o := Reaction(table, txn, store, Others(now));
            o.txn == txn && Genuine(table, o.events) && Replay(table, store, o.events) == now
  {
  }

  lemma MultiReacts(table: Table, base: Db, key: Bytes, store: Db)
    ensures var watching := Some(TxnState(false, true, false, [], Some(Snapshot(base, {key}))));
            && Sound(table, watching)
            && var o := Reaction(table, watching, store, Multi(0));
               && o.txn == Some(TxnState(true, true, false, [], Some(Snapshot(base, {key}))))
               && Genuine(table, o.events) && Replay(table, store, o.events) == store
  {
  }

  lemma QueueReacts(table: Table, base: Db, key: Bytes, store: Db, c: Cmd)
    requires c.name in table
    ensures var open := Some(TxnState(true, true, false, [], Some(Snapshot(base, {key}))));
            && Sound(table, open)
            && var o := Reaction(table, open, store, Command(c, FAIR, FAIR, FAIR));
               && o.txn == Some(TxnState(true, true, false, [c], Some(Snapshot(base, {key}))))
               && Genuine(table, o.events) && Replay(table, store, o.events) == store
  {
    assert [] + [c] == [c];
  }

  lemma NothingTold(table: Table, store: Db)
    ensures Told(table, None, store, []) == Story(None, store, [], [])
  {
  }

  lemma ToldNext(table: Table, store: Db, inputs: seq<Input>, input: Input)
    ensures var s := Told(table, None, store, inputs);
            var o := Reaction(table, s.txn, s.store, input);
            && Genuine(table, o.events)
            && Told(table, None, store, inputs + [input]).txn == o.txn
            && Told(table, None, store, inputs + [input]).store == Replay(table, s.store, o.events)
  {
    hide Reaction, Replay, Genuine, Sound;
    NoTxnSound(table);
    var all := inputs + [input];
    assert all[..|all| - 1] == inputs;
    var s := Told(table, None, store, inputs);
    ReactionSound(table, s.txn, s.store, input);
  }

  lemma NoTxnSound(table: Table)
    ensures Sound(table, None)
  {
  }

  /**
   * WATCH locks the key of an object and not those of its elements: a change to an element that
   * leaves the object's key alone goes unnoticed, and EXEC commits what it read before.
   */
  lemma WatchMissesElements(table: Table, c: Cmd, obj: Bytes, from: Bytes, to: Bytes, o: Bytes, before: Bytes, later: Bytes)
    requires c.name in table && from != to && obj != from && obj != to && before != later
    requires forall db :: EffectOf(table, c, db) == Copying(from, to, db)
    ensures var store, now := map[obj := o, from := before], map[obj := o, from := later];
            var s := Told(table, None, store, WatchThenQueue(obj, now, c));
            && Sound(table, s.txn) && Watching(s.txn, store, {obj}) && s.store == now
            && var e := OnExec(table, s.txn, now, 0, FAIR);
               && e.response.Answers? && Genuine(table, e.events)
               && Replay(table, now, e.events) == now[to := before]
               && Executed(table, [c], now) == now[to := later]
  {
    hide Genuine, Replay, EffectOf, Sent, Executed, Play, Overlay, ExecReply, AgreeOn, Told, WatchThenQueue;
    var store: Db, now: Db := map[obj := o, from := before], map[obj := o, from := later];
    WatchedAndQueued(table, store, obj, now, c);
    SameElsewhere(store, now, {obj}, to, from);
    StaleExec(table, c, from, to, Some(Snapshot(store, {obj})), true, now, FAIR);
    ExecReplays(table, [c], Some(Snapshot(store, {obj})), true, now, FAIR);
  }

  lemma SameElsewhere(a: Db, b: Db, keys: set<Bytes>, to: Bytes, from: Bytes)
    requires from !in keys && from != to && forall k :: k != from ==> SameAt(a, b, k)
    ensures AgreeOn(a, b, keys + {to})
  {
  }

  /** EXEC of a command that copies a key which changed after the snapshot, and is not watched. */
  lemma StaleExec(table: Table, c: Cmd, from: Bytes, to: Bytes, tx: Option<Snapshot>, watch: bool, store: Db, weather: Weather)
    requires c.name in table && from != to && forall db :: EffectOf(table, c, db) == Copying(from, to, db)
    requires weather.begins && weather.alive && weather.commits
    requires var snap, now := ExecSnapshot(tx, store), Landed(store, weather);
             from in snap.base && from in now && AgreeOn(snap.base, now, snap.watched + {to})
    ensures Known(table, [c]) && ExecReply(table, [c], tx, watch, store, weather).Answers?
    ensures var base, now := ExecSnapshot(tx, store).base, Landed(store, weather);
            && Overlay(now, Play(table, [c], base).writes) == now[to := base[from]]
            && Executed(table, [c], now) == now[to := now[from]]
  {
    hide EffectOf;
    var base, now, q := ExecSnapshot(tx, store).base, Landed(store, weather), [c];
    PlayOne(table, c, base);
    assert q[0] == c && q[1..] == [];
    var read, found := base[from], now[from];
    assert Play(table, q, base).writes == map[to := Some(read)] && map[to := Some(read)].Keys == {to};
    assert Overlay(now, map[to := Some(read)]) == now[to := read];
    assert Overlay(now, map[to := Some(found)]) == now[to := found];
  }

  /** What the attempts left to make will do completes what was done. */
  ghost predicate Continues(table: Table, c: Cmd, store: Db, all: seq<Weather>, done: seq<Event>, now: Db, left: seq<Weather>)
    requires c.name in table
  {
    var more := Try(table, c, now, left);
    Try(table, c, store, all) == Tried(more.response, done + more.events)
  }

  lemma TryStep(table: Table, c: Cmd, store: Db, all: seq<Weather>, done: seq<Event>, now: Db, left: seq<Weather>)
    requires c.name in table && left != [] && Continues(table, c, store, all, done, now, left)
    ensures var one := TryOnce(table, c, now, left[0]);
            if one.response.StoreFailed? then
              Continues(table, c, store, all, done + one.events, Landed(now, left[0]), left[1..])
            else Try(table, c, store, all) == Tried(one.response, done + one.events)
  {
    hide TryOnce;
    var one, more := TryOnce(table, c, now, left[0]), Try(table, c, Landed(now, left[0]), left[1..]);
    assert done + (one.events + more.events) == done + one.events + more.events;
  }

  lemma TryBegins(table: Table, c: Cmd, store: Db, weather: seq<Weather>)
    requires c.name in table
    ensures Continues(table, c, store, weather, [], store, weather[0..])
  {
    assert weather[0..] == weather;
    assert [] + Try(table, c, store, weather).events == Try(table, c, store, weather).events;
  }

  lemma NoneLeft(table: Table, c: Cmd, store: Db, all: seq<Weather>, done: seq<Event>, now: Db)
    requires c.name in table && Continues(table, c, store, all, done, now, [])
    ensures Try(table, c, store, all) == Tried(StoreFailed, done)
  {
    assert done + [] == done;
  }

  lemma OnceReplays(table: Table, c: Cmd, store: Db, weather: Weather)
    requires c.name in table
    ensures var t, p := TryOnce(table, c, store, weather), Play(table, [c], store);
            && Genuine(table, t.events)
            && Replay(table, store, t.events) ==
                 (if t.response.Answer? then Overlay(Landed(store, weather), p.writes) else Landed(store, weather))
            && Sent(table, t.events) == (if weather.begins && !p.failed then p.messages else [])
  {
    hide Play, Overlay, Genuine, Replay, Sent, TryOnce, AgreeOn, EffectOf;
    var most := OnceShape(table, c, store, weather);
    ShapeReplays(table, c, store, most, store, TryOnce(table, c, store, weather).response.Answer?);
  }

  /** The retry loop: until the store takes the commit or the handler fails, three attempts at most. */
  method Retry(table: Table, c: Cmd, store: Db, weather: seq<Weather>)
    returns (r: Response, after: Db, messages: seq<Message>, ghost events: seq<Event>)
    requires c.name in table && |weather| == 3
    ensures Try(table, c, store, weather) == Tried(r, events)
    ensures Genuine(table, events) && after == Replay(table, store, events) && messages == Sent(table, events)
  {
    hide *;
    TryBegins(table, c, store, weather);
    NothingLogged(table, store);
    r, after, messages, events := StoreFailed, store, [], [];
    var i := 0;
    while i < 3
      invariant 0 <= i <= 3 && r.StoreFailed?
      invariant Genuine(table, events) && after == Replay(table, store, events) && messages == Sent(table, events)
      invariant Continues(table, c, store, weather, events, after, weather[i..])
    {
      ghost var now, one := after, TryOnce(table, c, after, weather[i]);
      TryStep(table, c, store, weather, events, now, weather[i..]);
      OnceReplays(table, c, now, weather[i]);
      LogTogether(table, store, events, one.events);
      assert weather[i..][1..] == weather[i + 1..];
      var more;
      r, after, more := Attempt(table, c, after, weather[i]);
      messages, events := messages + more, events + one.events;
      if !r.StoreFailed? {
        return;
      }
      i := i + 1;
    }
    assert weather[i..] == [];
    NoneLeft(table, c, store, weather, events, after);
  }

  // ---------- the connection ----------

  class Txn {
    var multi: bool
    var watch: bool
    var pendingErr: bool
    var pendingReq: seq<Cmd>
    var tx: Option<Snapshot>

    constructor ()
      ensures !multi && !watch && !pendingErr && pendingReq == [] && tx == None
    {
      multi, watch, pendingErr, pendingReq, tx := false, false, false, [], None;
    }
  }

  class Connection {
    const table: Table
    var store: Db
    var published: seq<Message>
    var transaction: Txn?
    ghost const initial: Db
    ghost var log: seq<Event>

    /** The store and the channels are as the log of whole commits says, and the queue is runnable. */
    ghost predicate Valid()
      reads this, transaction
    {
      && Genuine(table, log) && store == Replay(table, initial, log) && published == Sent(table, log)
      && Sound(table, State())
    }

    ghost function State(): Option<TxnState>
      reads this, transaction
    {
      if transaction == null then None
      else Some(TxnState(transaction.multi, transaction.watch, transaction.pendingErr, transaction.pendingReq, transaction.tx))
    }

    constructor (table: Table, store: Db)
      ensures Valid() && this.table == table && this.store == store && transaction == null && log == [] && published == []
    {
      this.table, this.store, published, transaction := table, store, [], null;
      initial, log := store, [];
    }

    ghost method Note(e: Event)
      requires Genuine(table, log) && Real(table, e)
      modifies this`log
      ensures log == old(log) + [e] && Genuine(table, log)
      ensures Replay(table, initial, log) == StoreAfter(table, e, Replay(table, initial, old(log)))
      ensures Sent(table, log) == Sent(table, old(log)) + SentBy(table, e)
    {
      Logged(table, initial, log, e);
      log := log + [e];
    }

    /** Other clients commit. */
    method OthersCommit(now: Db)
      requires Valid()
      modifies this
      ensures Valid() && store == now && transaction == old(transaction) && State() == old(State())
      ensures published == old(published) && log == old(log) + [Outside(now)]
    {
      hide Genuine, Replay, Sent, Known;
      Note(Outside(now));
      store := now;
      assert published + [] == published;
    }

    method Multi(args: nat) returns (r: Response)
      requires Valid()
      modifies this, transaction
      ensures Valid() && store == old(store) && published == old(published) && log == old(log)
      ensures Outcome(State(), r, []) == OnMulti(old(State()), args)
      ensures r.WrongArgs? <==> args > 0
      ensures r.Nested? <==> args == 0 && old(transaction) != null && old(transaction.multi)
      ensures r.Fine? || r.WrongArgs? || r.Nested?
      ensures !r.Fine? ==> transaction == old(transaction)
      ensures r.Fine? ==>
                && transaction != null && transaction.multi && transaction.pendingReq == [] && !transaction.pendingErr
                && (old(transaction) != null ==> transaction == old(transaction) && transaction.tx == old(transaction.tx))
                && (old(transaction) == null ==> fresh(transaction) && transaction.tx == None)
    {
      hide Genuine, Replay, Sent;
      if args > 0 {
        return WrongArgs;
      }
      var txn := transaction;
      if txn == null {
        txn := new Txn();
      }
      if txn.multi {
        return Nested;
      }
      txn.pendingReq, txn.multi := [], true;
      transaction := txn;
      r := Fine;
    }

    method Watch(keys: seq<Bytes>, weather: Weather) returns (r: Response)
      requires Valid()
      modifies this, transaction
      ensures Valid() && store == old(store) && published == old(published) && log == old(log)
      ensures Outcome(State(), r, []) == OnWatch(old(State()), store, keys, weather)
      ensures r.WrongArgs? <==> keys == []
      ensures r.Nested? <==> keys != [] && old(transaction) != null && old(transaction.multi)
      ensures !r.Fine? ==> transaction == old(transaction)
      ensures r.Fine? ==>
                && transaction != null && !transaction.multi && transaction.watch && transaction.tx.Some?
                && (forall k :: k in transaction.tx.value.watched <==>
                      k in keys || (old(transaction) != null && old(transaction.tx).Some? && k in old(transaction.tx).value.watched))
                && (if old(transaction) != null then transaction == old(transaction) else fresh(transaction))
                && (old(transaction) != null && old(transaction.tx).Some? ==>
                      transaction.tx.value.base == old(transaction.tx).value.base)
                && (old(transaction) == null || old(transaction.tx).None? ==> transaction.tx.value.base == store)
    {
      hide Genuine, Replay, Sent;
      if |keys| == 0 {
        return WrongArgs;
      }
      var txn := transaction;
      if txn == null {
        txn := new Txn();
      }
      if txn.multi {
        return Nested;
      }
      if txn.tx.None? {
        if !weather.begins {
          return StoreFailed;
        }
        txn.tx := Some(Snapshot(store, {}));
      }
      if !weather.locks {
        txn.tx := None;
        return StoreFailed;
      }
      txn.tx := Some(Snapshot(txn.tx.value.base, txn.tx.value.watched + (set k | k in keys)));
      txn.watch := true;
      transaction := txn;
      r := Fine;
    }

    /** Anything well-formed ends the transaction; only inside MULTI is it no error. */
    method Discard(args: nat) returns (r: Response)
      requires Valid()
      modifies this, transaction
      ensures Valid() && store == old(store) && published == old(published) && log == old(log)
      ensures Outcome(State(), r, []) == OnDiscard(old(State()), args)
      ensures args > 0 ==> r.WrongArgs? && transaction == old(transaction)
      ensures args == 0 ==> transaction == null
      ensures args == 0 ==> r == if old(transaction) != null && old(transaction.multi) then Fine else NotInMulti
    {
      hide Genuine, Replay, Sent;
      if args > 0 {
        return WrongArgs;
      }
      var txn := transaction;
      if txn == null {
        return NotInMulti;
      }
      transaction := null;
      if !txn.multi {
        return NotInMulti;
      }
      txn.tx := None;
      r := Fine;
    }

    /**
     * EXEC commits the queued commands played in order over one snapshot, and publishes after that,
     * or leaves store and channels alone; either way no transaction stays on the connection.
     */
    method Exec(args: nat, weather: Weather) returns (r: Response)
      requires Valid()
      modifies this, transaction
      ensures Valid()
      ensures var o := OnExec(table, old(State()), old(store), args, weather);
              State() == o.txn && r == o.response && log == old(log) + o.events
      ensures args > 0 ==> r.WrongArgs? && transaction == old(transaction)
      ensures args == 0 ==> transaction == null
      ensures args == 0 ==> (r.NotInMulti? <==> old(transaction) == null || !old(transaction.multi))
      ensures args == 0 ==> (r.Discarded? <==> old(transaction) != null && old(transaction.multi) && old(transaction.pendingErr))
      ensures r.Answers? <==>
                && args == 0 && old(transaction) != null && old(transaction.multi) && !old(transaction.pendingErr)
                && ExecCommits(table, old(transaction.pendingReq), old(transaction.tx), old(store), weather)
      ensures r.Answers? ==>
                var q, base := old(transaction.pendingReq), ExecSnapshot(old(transaction.tx), old(store)).base;
                && log == old(log) + Passing(weather) + [Committed(base, q, true)]
                && store == Overlay(Landed(old(store), weather), Play(table, q, base).writes)
                && published == old(published) + Play(table, q, base).messages
                && r.answers == Play(table, q, base).answers
      ensures !r.Answers? ==>
                && published == old(published) && (store == old(store) || store == Landed(old(store), weather))
                && (log == old(log) || log == old(log) + Passing(weather))
    {
      hide Genuine, Replay, Sent, Known, Overlay, Play, ExecCommits, ExecReply;
      assert log + [] == log;
      if args > 0 {
        return WrongArgs;
      }
      var txn := transaction;
      if txn == null {
        return NotInMulti;
      }
      transaction := null;
      if !txn.multi {
        return NotInMulti;
      }
      if txn.pendingErr {
        return Discarded;
      }
      var q := txn.pendingReq;
      ExecReplays(table, q, txn.tx, txn.watch, store, weather);
      var after, messages;
      r, after, messages := ExecQueue(table, q, txn.tx, txn.watch, store, weather);
      Record(Passing(weather) + (if r.Answers? then [Committed(ExecSnapshot(txn.tx, store).base, q, true)] else []), after, messages);
      txn.tx := None;
    }

    /** What was found to have happened to the store and the channels. */
    method Record(ghost events: seq<Event>, after: Db, messages: seq<Message>)
      requires Valid() && Genuine(table, events)
      requires Replay(table, store, events) == after && Sent(table, events) == messages
      modifies this`store, this`published, this`log
      ensures Valid() && log == old(log) + events && store == after && published == old(published) + messages
    {
      hide Genuine, Replay, Sent, Sound;
      LogTogether(table, initial, log, events);
      log, store, published := log + events, after, published + messages;
    }

    /**
     * The retries of a single command: at most three attempts, each sending its message once at most,
     * and at most one commit, the last event, of a handler that ran on a store with the same values at
     * the keys it writes.
     */
    method Single(c: Cmd, weather: seq<Weather>) returns (r: Response, ghost most: seq<Event>, ghost base: Db)
      requires Valid() && c.name in table && |weather| == 3
      modifies this
      ensures Valid() && transaction == old(transaction) && State() == old(State())
      ensures var t := Try(table, c, old(store), weather);
              r == t.response && log == old(log) + t.events && (!r.Answer? ==> NoCommit(t.events))
      ensures log == old(log) + (most + (if r.Answer? then [Committed(base, [c], false)] else []))
      ensures NoCommit(most) && Genuine(table, most) && Known(table, [c])
      ensures published == old(published) + Sent(table, most) && |Sent(table, most)| <= 3
      ensures var before, p := Replay(table, old(store), most), Play(table, [c], base);
              if r.Answer? then
                && MetBy(base, old(store), weather) && !p.failed && AgreeOn(base, before, p.writes.Keys)
                && store == Overlay(before, p.writes) && r.answer == EffectOf(table, c, base).answer
              else store == before
      ensures r.Answer? || r.HandlerFailed? || r.StoreFailed?
    {
      hide Genuine, Replay, Sent, Overlay, Play, EffectOf, Try, Known, MetBy, AgreeOn, NoCommit;
      var after, messages;
      ghost var events;
      r, after, messages, events := Retry(table, c, store, weather);
      most, base := TryShape(table, c, store, weather);
      assert most + [] == most;
      ShapeReplays(table, c, store, most, base, r.Answer?);
      Record(events, after, messages);
    }

    /** Any other command: queued inside MULTI, executed otherwise. */
    method Handle(c: Cmd, weather: seq<Weather>) returns (r: Response)
      requires Valid() && |weather| == 3
      modifies this, transaction
      ensures Valid() && transaction == old(transaction)
      ensures var o := OnCommand(table, old(State()), old(store), c, weather);
              State() == o.txn && r == o.response && log == old(log) + o.events
      ensures r.UnknownCommand? <==> c.name !in table
      ensures r.UnknownCommand? || r.Queued? ==> store == old(store) && published == old(published) && log == old(log)
      ensures InMulti(old(State())) ==>
                && InMulti(State()) && transaction.tx == old(transaction.tx) && transaction.watch == old(transaction.watch)
                && (r.Queued? || r.UnknownCommand?)
                && transaction.pendingReq == old(transaction.pendingReq) + (if r.Queued? then [c] else [])
                && transaction.pendingErr == (old(transaction.pendingErr) || r.UnknownCommand?)
      ensures !InMulti(old(State())) ==>
                !r.Queued? && State() == if c.name == UNWATCH && c.name in table then Unwatched(old(State())) else old(State())
      ensures c.name == UNWATCH && c.name in table && transaction != null && !transaction.multi ==>
                && !transaction.watch && (transaction.tx.Some? <==> old(transaction.tx).Some?)
                && (transaction.tx.Some? ==> transaction.tx.value == Snapshot(old(transaction.tx).value.base, {}))
      ensures !r.Answer? ==> NoCommit(OnCommand(table, old(State()), old(store), c, weather).events)
      ensures |published| <= |old(published)| + 3
    {
      hide Genuine, Replay, Sent, Overlay, Play, EffectOf, Try, MetBy, AgreeOn;
      assert log + [] == log;
      if c.name !in table {
        if transaction != null && transaction.multi {
          transaction.pendingErr := true;
        }
        return UnknownCommand;
      }
      if transaction != null {
        if transaction.multi {
          transaction.pendingReq := transaction.pendingReq + [c];
          return Queued;
        }
        if c.name == UNWATCH {
          transaction.watch := false;
          if transaction.tx.Some? {
            transaction.tx := Some(Snapshot(transaction.tx.value.base, {}));
          }
        }
      }
      ghost var most, base;
      r, most, base := Single(c, weather);
    }

    method Step(input: Input) returns (r: Response)
      requires Valid()
      modifies this, transaction
      ensures Valid() && (transaction == null || transaction == old(transaction) || fresh(transaction))
      ensures var o := Reaction(table, old(State()), old(store), input);
              State() == o.txn && r == o.response && log == old(log) + o.events
    {
      hide Genuine, Replay, Sent, Known, Overlay, Play, Try, OnMulti, OnWatch, OnDiscard, OnExec, OnCommand;
      assert log + [] == log;
      match input
      case Multi(args) => r := Multi(args);
      case Watch(keys, weather) => r := Watch(keys, weather);
      case Discard(args) => r := Discard(args);
      case Exec(args, weather) => r := Exec(args, weather);
      case Command(c, first, second, third) => r := Handle(c, [first, second, third]);
      case Others(now) => OthersCommit(now); r := Fine;
    }

    /**
     * Over any run, whatever the weather, replies, log and transaction are those told of the inputs;
     * the store is the replay of the log, and what was published is what the log sent.
     */
    method Run(inputs: seq<Input>) returns (responses: seq<Response>)
      requires Valid()
      modifies this, transaction
      ensures Valid()
      ensures var s := Told(table, old(State()), old(store), inputs);
              && State() == s.txn && store == s.store && responses == s.responses && log == old(log) + s.events
              && published == old(published) + Sent(table, s.events)
    {
      hide Genuine, Replay, Sent, Sound, Reaction;
      responses := [];
      var i := 0;
      ghost var events: seq<Event> := [];
      assert log == old(log) + events;
      while i < |inputs|
        modifies this, transaction
        invariant 0 <= i <= |inputs| && Valid()
        invariant transaction == null || transaction == old(transaction) || fresh(transaction)
        invariant Told(table, old(State()), old(store), inputs[..i]) == Story(State(), store, responses, events)
        invariant log == old(log) + events
      {
        ghost var txn, before, was := State(), store, log;
        var r := Step(inputs[i]);
        ghost var o := Reaction(table, txn, before, inputs[i]);
        ReactionSound(table, txn, before, inputs[i]);
        LogTogether(table, initial, was, o.events);
        assert inputs[..i + 1][..i] == inputs[..i];
        responses, events := responses + [r], events + o.events;
        i := i + 1;
      }
      assert inputs[..i] == inputs;
      LogTogether(table, initial, old(log), events);
    }
  }
}
