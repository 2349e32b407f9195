/** A client and the server's custom path together: what the client learns is what happened to the store. */
module EndToEnd {
  import opened Common
  import opened EntryPool
  import opened StoreModel
  import opened StoreLookup
  import opened StoreMemory
  import opened Rounds
  import opened Framing
  import opened RequestViews
  import S = Streams
  import SR = StoreRuns
  import CM = ClientModel
  import CR = ClientRuns
  import CP = CustomProtocol
  import RS = RoundSends
  import SL = SendLoop
  import CC = CacheClient
  import R = RespReply
  import T = Transactions

  // ---------- What a response tells its reader ----------

  function Told(r: CM.Response): Verdict {
    match r.result
    case Ok => if r.kind == CM.Get then Value(r.value) else Done
    case NotFound => Absent
    case Error => Failure
  }

  /** The verdicts a command can have. */
  predicate Possible(q: T.Command, v: Verdict) {
    match q
    case Get(_) => v.Value? || v.Absent?
    case Set(_, _) => v.Done? || v.Failure?
    case Del(_) => v.Done? || v.Absent?
  }

  /** Values the client cannot tell from an error or from nothing. */
  predicate Ambiguous(v: string) {
    CM.ERROR_MARK <= v || v == CM.NOTHING
  }

  /** The client is told what happened, unless it fetched a value that reads like an error or like nothing. */
  lemma ToldWhatHappened(q: T.Command, v: Verdict, id: nat)
    requires Possible(q, v)
    ensures Told(CM.ResponseTo(CM.Pending(id, CC.KindOf(q)), TextOf(q, v))) == v <==> !(v.Value? && Ambiguous(v.v))
  {
    assert CM.KEY_NOT_EXISTS[..6] == CM.ERROR_MARK;
    assert "ERROR: Internal error"[..6] == CM.ERROR_MARK;
  }

  /** What a RESP reply tells its reader. */
  function RespTold(reply: R.Reply): Verdict {
    match reply
    case BulkString(v) => Value(v)
    case Null => Absent
    case Integer(n) => if n == 0 then Absent else Done
    case Simple(_) => Done
    case _ => Failure
  }

  function Happened<S>(b: T.Backend<S>, s: S, q: T.Command): (v: Verdict)
    ensures Possible(q, v)
  {
    match q
    case Get(key) =>
      var found := b.lookup(s, key);
      if found.Some? then Value(found.value) else Absent
    case Set(key, value) => if b.insert(s, key, value).1 then Done else Failure
    case Del(key) => if b.remove(s, key).1 then Done else Absent
  }

  lemma TextsAreLines()
    ensures R.Encodable(R.Simple("OK")) && R.Encodable(T.ErrorReply("ERROR: Internal error"))
  {
  }

  lemma PerformEncodable<S>(b: T.Backend<S>, s: S, q: T.Command)
    requires q.Get? && b.lookup(s, q.key).Some? ==> |b.lookup(s, q.key).value| < TWO_TO_THE_64
    ensures R.Encodable(T.Perform(b, s, q).1)
  {
    hide T.ErrorReply;
    TextsAreLines();
  }

  /** The bytes of a RESP reply, whatever follows them, tell what happened to any store, without exception. */
  lemma RespTellsWhatHappened<S>(b: T.Backend<S>, s: S, q: T.Command, rest: string)
    requires q.Get? && b.lookup(s, q.key).Some? ==> |b.lookup(s, q.key).value| < TWO_TO_THE_64
    ensures var d := R.Decode(R.Encode(T.Perform(b, s, q).1) + rest);
      d.Got? && d.rest == rest && RespTold(d.reply) == Happened(b, s, q)
  {
    PerformEncodable(b, s, q);
    hide R.Decode, R.Encode, R.Encodable;
    R.DecodeInvertsEncode(T.Perform(b, s, q).1, rest);
  }

  // ---------- Values with separators ----------

  /** The messages a client cuts a reply stream into. */
  function Split(s: string): (ms: seq<string>)
    ensures CM.Separable(ms)
    decreases |s|
  {
    var n := FirstSeparator(s);
    if n == |s| then [] else [s[..n]] + Split(s[n + 1..])
  }

  /** A client finds the replies in their stream exactly when none of them holds a separator. */
  lemma {:induction false} SplitsBackIff(texts: seq<string>)
    ensures Split(CM.Joint(texts)) == texts <==> CM.Separable(texts)
  {
    if texts != [] && CM.Separable(texts) {
      SeparatorAt(texts[0], CM.Joint(texts[1..]));
      var s := CM.Joint(texts);
      assert s[..|texts[0]|] == texts[0] && s[|texts[0]| + 1..] == CM.Joint(texts[1..]);
      SplitsBackIff(texts[1..]);
    }
  }

  lemma JointOfFirst(first: string, more: seq<string>)
    ensures CM.Joint([first] + more) == first + [MSG_SEPARATOR] + CM.Joint(more)
  {
    assert ([first] + more)[1..] == more;
  }

  lemma SeparatorsRegroup(a: string, b: string, rest: string)
    ensures (a + [MSG_SEPARATOR] + b) + [MSG_SEPARATOR] + rest == a + [MSG_SEPARATOR] + (b + [MSG_SEPARATOR] + rest)
  {
  }

  /** A reply with a separator in it answers two requests, and every later reply goes to the wrong one. */
  lemma SeparatorShiftsReplies(a: string, b: string, more: seq<string>, ops: seq<CR.Op>)
    requires CM.Separable([a] + ([b] + more))
    requires CR.Run(ops).received <= CM.Joint([a + [MSG_SEPARATOR] + b] + more)
    ensures CM.Ledger(CR.Run(ops), [a] + ([b] + more))
  {
    JointOfFirst(a + [MSG_SEPARATOR] + b, more);
    JointOfFirst(a, [b] + more);
    JointOfFirst(b, more);
    SeparatorsRegroup(a, b, CM.Joint(more));
    CR.RunKeepsLedger(ops, [a] + ([b] + more));
  }

  lemma TextHoldsSeparatorIff(q: T.Command, v: Verdict)
    ensures MSG_SEPARATOR in TextOf(q, v) <==> v.Value? && MSG_SEPARATOR in v.v
  {
  }

  ghost predicate CleanCells(cfg: Config, cells: seq<Cell>) {
    forall e :: 0 <= e < |cells| && cells[e].Live? && ValueOf(cfg, cells[e]).Some? ==>
      MSG_SEPARATOR !in ValueOf(cfg, cells[e]).value
  }

  /** No value in the store holds a separator. */
  ghost predicate CleanServer(cfg: Config, sv: Server) {
    forall i :: 0 <= i < |sv.shards| ==> CleanCells(cfg, sv.shards[i].store.pool.cells)
  }

  predicate CleanCommand(q: T.Command) {
    q.Set? ==> MSG_SEPARATOR !in q.value
  }

  ghost predicate CleanEvents(events: seq<Event>) {
    forall i :: 0 <= i < |events| && CommandIn(events[i]).Some? ==> CleanCommand(CommandIn(events[i]).value)
  }

  lemma SteppedStaysClean(cfg: Config, s: Store, q: T.Command)
    requires RoundTrips(cfg.codec) && Inv(s) && CleanCells(cfg, s.pool.cells) && CleanCommand(q)
    requires Stepped(cfg, s, q).Some?
    ensures CleanCells(cfg, Stepped(cfg, s, q).value.pool.cells)
  {
    CommandTouches(cfg, s, q);
    if q.Set? {
      StoredValueReadsBack(cfg, q.key, q.value);
    }
  }

  lemma {:induction false} StaysClean(cfg: Config, sv: Server, events: seq<Event>)
    requires RoundTrips(cfg.codec) && Ready(sv) && CleanServer(cfg, sv) && CleanEvents(events)
    ensures CleanServer(cfg, After(cfg, sv, events))
  {
    if events != [] {
      var n := |events| - 1;
      StaysClean(cfg, sv, events[..n]);
      if CommandIn(events[n]).Some? {
        PerformStaysClean(cfg, After(cfg, sv, events[..n]), CommandIn(events[n]).value);
      }
    }
  }

  lemma PerformStaysClean(cfg: Config, sv: Server, q: T.Command)
    requires RoundTrips(cfg.codec) && Ready(sv) && CleanServer(cfg, sv) && CleanCommand(q)
    ensures CleanServer(cfg, Perform(cfg, sv, q))
  {
    if !Perform(cfg, sv, q).halted {
      SteppedStaysClean(cfg, Home(cfg, sv, q).store, q);
    }
  }

  /** The requests of the connection are all commands. */
  ghost predicate OnlyCommands(events: seq<Event>) {
    forall k :: 0 <= k < |MineIn(events)| ==> events[MineIn(events)[k]].request.Store?
  }

  /** What the connection's k-th command did to the store it found. */
  function VerdictOn(cfg: Config, sv: Server, events: seq<Event>, k: nat): Verdict
    requires Ready(sv) && k < |MineIn(events)| && events[MineIn(events)[k]].request.Store?
  {
    var i := MineIn(events)[k];
    var q := events[i].request.command;
    Happens(cfg, Home(cfg, After(cfg, sv, events[..i]), q).store, q)
  }

  lemma OwnTextIs(cfg: Config, sv: Server, events: seq<Event>, k: nat)
    requires Ready(sv) && k < |MineIn(events)| && events[MineIn(events)[k]].request.Store?
    ensures OwnTexts(cfg, sv, events)[k]
         == TextOf(events[MineIn(events)[k]].request.command, VerdictOn(cfg, sv, events, k))
  {
  }

  // ---------- What a custom request is answered ----------

  /** The text for a command that finds its shard's store in state `s`. */
  function TextFor(cfg: Config, s: Store, q: T.Command): string
    requires Inv(s)
  {
    match q
    case Get(key) => (match SR.Lookup(cfg, s, key) case Some(v) => v case None => "(nil)")
    case Set(key, value) =>
      if SetSpec(cfg, s, key, value, cfg.hash(key)).outcome == Stored then "OK" else "ERROR: Internal error"
    case Del(key) => if DelSpec(s, key, PathsFor(cfg, s.size)(key)).0 then "OK" else "ERROR: Key does not exist"
  }

  /** The text for a payload that spells no command. */
  function RefusalFor(p: string): string {
    if ' ' !in p then "ERROR: Unable to parse request"
    else if ' ' !in p[..|p| - 1] || (|p| > 4 && p[..4] == "SET " && ' ' !in p[4..]) then "ERROR: Invalid command format"
    else "ERROR: Unknown command"
  }

  /**
    The answer to any custom request: for a payload that spells a command, what the command finds in the shard
    its key's hash picks; for any other, a refusal, which changes nothing.
   */
  lemma CustomAnswered(cfg: Config, sv: Server, events: seq<Event>, i: nat, p: string)
    requires Ready(sv) && i < |events| && events[i] == Mine(CP.Meaning(p))
    ensures var before, after := After(cfg, sv, events[..i]), After(cfg, sv, events[..i + 1]);
      var text := AnswerAt(cfg, sv, events, i).text;
      && (forall q: T.Command :: CP.Spells(p, q) ==>
            text == TextFor(cfg, before.shards[cfg.hash(q.key) % |before.shards|].store, q))
      && ((forall q: T.Command :: !CP.Spells(p, q)) ==> text == RefusalFor(p) && after == before)
  {
    hide CP.Spells, CP.Meaning, Perform, Ready;
    AfterGrows(cfg, sv, events, i);
    forall q: T.Command ensures CP.Meaning(p) == T.Store(q) <==> CP.Spells(p, q) {
      CP.MeaningIff(p, q);
    }
    CP.MeaningWrong(p);
    if CP.Meaning(p).Store? {
      var q := CP.Meaning(p).command;
      assert CP.Spells(p, q);
      AnswerIsText(cfg, After(cfg, sv, events[..i]), q);
    }
  }

  lemma AnswerIsText(cfg: Config, sv: Server, q: T.Command)
    requires Ready(sv)
    ensures AnswerTo(cfg, sv, q).text == TextFor(cfg, sv.shards[cfg.hash(q.key) % |sv.shards|].store, q)
  {
  }

  /** The responses can be told apart exactly when no command of the connection fetched a value with a separator. */
  lemma SeparableIff(cfg: Config, sv: Server, events: seq<Event>)
    requires Ready(sv) && OnlyCommands(events)
    ensures CM.Separable(OwnTexts(cfg, sv, events)) <==>
      forall k :: 0 <= k < |MineIn(events)| && VerdictOn(cfg, sv, events, k).Value? ==>
        MSG_SEPARATOR !in VerdictOn(cfg, sv, events, k).v
  {
    forall k | 0 <= k < |MineIn(events)|
      ensures MSG_SEPARATOR in OwnTexts(cfg, sv, events)[k] <==>
        VerdictOn(cfg, sv, events, k).Value? && MSG_SEPARATOR in VerdictOn(cfg, sv, events, k).v
    {
      OwnTextIs(cfg, sv, events, k);
      TextHoldsSeparatorIff(events[MineIn(events)[k]].request.command, VerdictOn(cfg, sv, events, k));
    }
  }

  lemma FetchedIsClean(cfg: Config, sv: Server, q: T.Command)
    requires Ready(sv) && CleanServer(cfg, sv)
    ensures var v := Happens(cfg, Home(cfg, sv, q).store, q);
      v.Value? ==> MSG_SEPARATOR !in v.v
  {
  }

  /** Values without separators, whoever sets them, keep the responses apart. */
  lemma CleanIsSeparable(cfg: Config, sv: Server, events: seq<Event>)
    requires RoundTrips(cfg.codec) && Ready(sv) && CleanServer(cfg, sv) && CleanEvents(events) && OnlyCommands(events)
    ensures CM.Separable(OwnTexts(cfg, sv, events))
  {
    forall k | 0 <= k < |MineIn(events)| && VerdictOn(cfg, sv, events, k).Value?
      ensures MSG_SEPARATOR !in VerdictOn(cfg, sv, events, k).v
    {
      var i := MineIn(events)[k];
      assert CleanEvents(events[..i]);
      StaysClean(cfg, sv, events[..i]);
      FetchedIsClean(cfg, After(cfg, sv, events[..i]), events[i].request.command);
    }
    SeparableIff(cfg, sv, events);
  }

  // ---------- There and back ----------

  function Commands(qs: seq<T.Command>): (rs: seq<T.Request>)
    ensures |rs| == |qs| && forall i :: 0 <= i < |qs| ==> rs[i] == T.Store(qs[i])
  {
    seq(|qs|, i requires 0 <= i < |qs| => T.Store(qs[i]))
  }

  /** Commands sent by the client in any chunks are the requests the server frames. */
  lemma RequestsAreCommands(qs: seq<T.Command>, chunks: seq<string>)
    requires CP.AllAccepted(qs) && S.Joined(chunks) == S.Stream(ItemsOf(CP.Messages(qs)))
    ensures UnderstoodAll(S.Serve(Next, chunks).reqs) == Commands(qs)
  {
    CP.CommandsArrive(qs, chunks);
  }

  /** The connection's texts as its rounds send them, each round over a socket that behaves as scripted. */
  function Batches(rounds: seq<seq<Event>>, scripts: seq<seq<SL.Outcome>>, texts: seq<string>): (bs: seq<RS.Batch>)
    requires |scripts| == |rounds| && |texts| == CountMine(rounds)
    ensures |bs| == |rounds| && RS.AllTexts(bs) == texts
  {
    if rounds == [] then []
    else
      var n := |rounds| - 1;
      var m := CountMine(rounds[..n]);
      var before := Batches(rounds[..n], scripts[..n], texts[..m]);
      var bs := before + [RS.Batch(texts[m..], scripts[n])];
      assert bs[..n] == before;
      bs
  }

  /** What the connection's rounds send, read from memory as it is when each is sent. */
  function SentBatches(
      cfg: Config, sv: Server, rounds: seq<seq<Event>>, scripts: seq<seq<SL.Outcome>>, junk: (nat, nat) -> char)
    : (bs: seq<RS.Batch>)
    requires Ready(sv) && |scripts| == |rounds|
    ensures RS.AllTexts(bs) == SentTexts(cfg, sv, AllEvents(rounds), SendTimes(rounds), junk)
  {
    MineCount(rounds);
    Batches(rounds, scripts, SentTexts(cfg, sv, AllEvents(rounds), SendTimes(rounds), junk))
  }

  /**
    The client's commands, sent in any chunks, are handled among the commands of others, in rounds. If no
    value holds a separator, no GET shares its round with a later write of its key, and no round whose send
    came up short is followed by one that gets a byte out, then however the responses come back, every
    response the caller was handed says what its own command's handling said.
   */
  lemma RoundTrip(
      cfg: Config, sv: Server, qs: seq<T.Command>, chunks: seq<string>, rounds: seq<seq<Event>>,
      scripts: seq<seq<SL.Outcome>>, junk: (nat, nat) -> char, ops: seq<CR.Op>)
    requires CP.AllAccepted(qs) && S.Joined(chunks) == S.Stream(ItemsOf(CP.Messages(qs)))
    requires RequestsIn(AllEvents(rounds)) == UnderstoodAll(S.Serve(Next, chunks).reqs)
    requires RoundTrips(cfg.codec) && Ready(sv) && CleanServer(cfg, sv) && CleanEvents(AllEvents(rounds))
    requires !After(cfg, sv, AllEvents(rounds)).halted && NoLaterWrites(AllEvents(rounds), SendTimes(rounds))
    requires |scripts| == |rounds| && !RS.Gap(SentBatches(cfg, sv, rounds, scripts, junk))
    requires CR.Run(ops).received <= RS.Wire(SentBatches(cfg, sv, rounds, scripts, junk))
    ensures RequestsIn(AllEvents(rounds)) == Commands(qs)
    ensures CM.Ledger(CR.Run(ops), OwnTexts(cfg, sv, AllEvents(rounds)))
  {
    var events, bs := AllEvents(rounds), SentBatches(cfg, sv, rounds, scripts, junk);
    RequestsAreCommands(qs, chunks);
    CommandsOnly(events, qs);
    SentAsMade(cfg, sv, events, SendTimes(rounds), junk);
    CleanIsSeparable(cfg, sv, events);
    RS.WireIsPrefix(bs);
    RS.IntendedIsJoint(bs);
    PrefixIsTransitive(CR.Run(ops).received, RS.Wire(bs), RS.Intended(bs));
    CR.RunKeepsLedger(ops, OwnTexts(cfg, sv, events));
  }

  lemma CommandsOnly(events: seq<Event>, qs: seq<T.Command>)
    requires RequestsIn(events) == Commands(qs)
    ensures OnlyCommands(events)
  {
    forall k | 0 <= k < |MineIn(events)| ensures events[MineIn(events)[k]].request.Store? {
      assert RequestsIn(events)[k] == T.Store(qs[k]);
    }
  }

  lemma PrefixIsTransitive(a: string, b: string, c: string)
    requires a <= b <= c
    ensures a <= c
  {
  }

  /** A round dropped whole is never answered: the first reply after it goes to the first request. */
  lemma FailedSendShiftsReplies(first: seq<string>, text: string, n: nat, ops: seq<CR.Op>)
    requires first != [] && MSG_SEPARATOR !in text && |text| < n
    requires CR.Run(ops).received <= RS.Wire([RS.Batch(first, [SL.Broken]), RS.Batch([text], [SL.Took(n)])])
    ensures RS.Gap([RS.Batch(first, [SL.Broken]), RS.Batch([text], [SL.Took(n)])])
    ensures CM.Ledger(CR.Run(ops), [text])
  {
    var bs := [RS.Batch(first, [SL.Broken]), RS.Batch([text], [SL.Took(n)])];
    assert bs[0].Out() == 0 && bs[0].Short();
    assert CM.Joint([text]) == text + [MSG_SEPARATOR] + CM.Joint([]);
    assert bs[1].Out() == |text| + 1;
    RS.DroppedRoundsLeaveNoTrace(bs);
    assert bs[..1] == [bs[0]] && bs[..1][..0] == [];
    assert RS.Survivors(bs[..1]) == [] && RS.Survivors(bs) == [text];
    CR.RunKeepsLedger(ops, [text]);
  }

  lemma VerdictIsPossible(cfg: Config, sv: Server, events: seq<Event>, k: nat)
    requires Ready(sv) && k < |MineIn(events)| && events[MineIn(events)[k]].request.Store?
    ensures Possible(events[MineIn(events)[k]].request.command, VerdictOn(cfg, sv, events, k))
  {
  }

  /**
    With the ledger kept, the caller holding the response to its i-th command knows what that command did
    to the store it found, unless the command fetched an ambiguous value.
   */
  lemma CallerLearns(cfg: Config, sv: Server, qs: seq<T.Command>, events: seq<Event>, w: CM.World, j: nat)
    requires Ready(sv) && RequestsIn(events) == Commands(qs)
    requires CM.Ledger(w, OwnTexts(cfg, sv, events)) && j < |w.delivered|
    requires |w.issued| == |qs| && forall i :: 0 <= i < |qs| ==> w.issued[i].kind == CC.KindOf(qs[i])
    ensures var r := w.delivered[j];
      && 1 <= r.id <= |MineIn(events)| && events[MineIn(events)[r.id - 1]].request.Store?
      && var v := VerdictOn(cfg, sv, events, r.id - 1);
         Told(r) == v <==> !(v.Value? && Ambiguous(v.v))
  {
    hide VerdictOn, Told, Possible, TextOf, Ambiguous;
    var r := w.delivered[j];
    var k := r.id - 1;
    assert RequestsIn(events)[k] == T.Store(qs[k]);
    OwnTextIs(cfg, sv, events, k);
    VerdictIsPossible(cfg, sv, events, k);
    ToldWhatHappened(qs[k], VerdictOn(cfg, sv, events, k), r.id);
    assert w.issued[k] == CM.Pending(r.id, CC.KindOf(qs[k]));
  }
}
