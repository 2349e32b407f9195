/** MULTI, EXEC and DISCARD on one connection, over any store. */
module Transactions {
  import opened Common
  import opened RespReply

  /** A store as request handling sees it: `insert` answers whether it had room, `remove` whether it found the key. */
  datatype Backend<!S> = Backend(
    lookup: (S, CString) -> Option<string>,
    insert: (S, CString, CString) -> (S, bool),
    remove: (S, CString) -> (S, bool))

  datatype Command = Get(key: CString) | Set(key: CString, value: CString) | Del(key: CString)

  /** What a RESP request asks for. */
  datatype Request = Multi | Discard | Exec | Store(command: Command) | Wrong(message: string)

  /** The request in the one to three strings of a parsed array, or in an array the parser refused. */
  function Meaning(parts: Option<seq<CString>>): Request
    requires parts.Some? ==> 1 <= |parts.value| <= 3
  {
    match parts
    case None => Wrong("ERROR: Unable to parse request")
    case Some(p) =>
      if p[0] == "MULTI" then Multi
      else if p[0] == "DISCARD" then Discard
      else if p[0] == "EXEC" then Exec
      else if p[0] == "GET" then
        if |p| == 2 then Store(Get(p[1])) else Wrong("ERROR: Invalid command format")
      else if p[0] == "SET" then
        if |p| == 3 then Store(Set(p[1], p[2])) else Wrong("ERROR: Invalid command format")
      else if p[0] == "DEL" then
        if |p| == 2 then Store(Del(p[1])) else Wrong("ERROR: Invalid command format")
      else Wrong("ERROR: Unknown command")
  }

  /** How a command is spelled. */
  function Words(q: Command): (words: seq<CString>)
    ensures 1 <= |words| <= 3
  {
    match q
    case Get(key) => ["GET", key]
    case Set(key, value) => ["SET", key, value]
    case Del(key) => ["DEL", key]
  }

  /** A request is a store command exactly when it is spelled as one; anything after a control word is ignored. */
  lemma MeaningOfWords(parts: Option<seq<CString>>, q: Command)
    requires parts.Some? ==> 1 <= |parts.value| <= 3
    ensures Meaning(parts) == Store(q) <==> parts == Some(Words(q))
    ensures Meaning(parts).Multi? <==> parts.Some? && parts.value[0] == "MULTI"
    ensures Meaning(parts).Discard? <==> parts.Some? && parts.value[0] == "DISCARD"
    ensures Meaning(parts).Exec? <==> parts.Some? && parts.value[0] == "EXEC"
  {
    if Meaning(parts) == Store(q) {
      assert parts.value == Words(q);
    }
  }

  /** A connection without a transaction object behaves like one whose transaction is inactive and empty. */
  datatype Tx = Tx(active: bool, aborted: bool, queue: seq<Command>)

  const NO_TX := Tx(false, false, [])

  datatype Conn<S> = Conn(store: S, tx: Tx, numErrors: nat)

  datatype Answer<S> = Answer(conn: Conn<S>, reply: Reply)

  function ErrorReply(message: string): Reply {
    Failed("ERR " + message)
  }

  const NESTED := "ERR MULTI calls can not be nested"
  const NO_MULTI_FOR_DISCARD := "ERR DISCARD without MULTI"
  const NO_MULTI_FOR_EXEC := "ERR EXEC without MULTI"
  const ABORTED := "EXECABORT Transaction discarded because of previous errors."

  // ---------- Handling one command directly ----------

  function Perform<S>(b: Backend<S>, s: S, q: Command): (S, Reply) {
    match q
    case Get(key) =>
      var found := b.lookup(s, key);
      (s, if found.Some? then BulkString(found.value) else Null)
    case Set(key, value) =>
      var (s', ok) := b.insert(s, key, value);
      (s', if ok then Simple("OK") else ErrorReply("ERROR: Internal error"))
    case Del(key) =>
      var (s', found) := b.remove(s, key);
      (s', Integer(if found then 1 else 0))
  }

  function PerformAll<S>(b: Backend<S>, s: S, qs: seq<Command>): (r: (S, seq<Reply>))
    ensures |r.1| == |qs|
  {
    if qs == [] then (s, [])
    else
      var n := |qs| - 1;
      var (s', replies) := PerformAll(b, s, qs[..n]);
      var (s'', reply) := Perform(b, s', qs[n]);
      (s'', replies + [reply])
  }

  // ---------- Handling one RESP request ----------

  function Refuse<S>(c: Conn<S>, tx: Tx, message: string): Answer<S> {
    Answer(Conn(c.store, tx, c.numErrors + 1), ErrorReply(message))
  }

  /** A mistake inside a transaction dooms it. */
  function Doomed(tx: Tx): Tx {
    if tx.active then tx.(aborted := true) else tx
  }

  function Step<S>(b: Backend<S>, c: Conn<S>, req: Request): Answer<S> {
    match req
    case Wrong(message) => Refuse(c, Doomed(c.tx), message)
    case Multi =>
      if c.tx.active then Refuse(c, Doomed(c.tx), NESTED)
      else Answer(c.(tx := Tx(true, false, [])), Simple("OK"))
    case Discard =>
      if !c.tx.active then Refuse(c, c.tx, NO_MULTI_FOR_DISCARD)
      else Answer(c.(tx := NO_TX), Simple("OK"))
    case Exec =>
      if !c.tx.active then Refuse(c, c.tx, NO_MULTI_FOR_EXEC)
      else if c.tx.aborted then Refuse(c, NO_TX, ABORTED)
      else
        var (s', replies) := PerformAll(b, c.store, c.tx.queue);
        Answer(Conn(s', NO_TX, c.numErrors), Array(replies))
    case Store(q) =>
      if c.tx.active then
        Answer(c.(tx := c.tx.(queue := c.tx.queue + [q])), Simple("QUEUED"))
      else
        var (s', reply) := Perform(b, c.store, q);
        Answer(c.(store := s'), reply)
  }

  // ---------- Runs ----------

  /**
    What can happen between two requests of the connection: a command from elsewhere, be it another
    connection or the custom protocol on this one, reaches the store directly.
   */
  datatype Event = Resp(request: Request) | Elsewhere(command: Command)

  function After<S>(b: Backend<S>, c: Conn<S>, e: Event): Answer<S> {
    match e
    case Resp(req) => Step(b, c, req)
    case Elsewhere(q) =>
      var (s', reply) := Perform(b, c.store, q);
      Answer(c.(store := s'), reply)
  }

  /** The connection after the events, and the replies in order. */
  function Run<S>(b: Backend<S>, c: Conn<S>, events: seq<Event>): (r: (Conn<S>, seq<Reply>))
    ensures |r.1| == |events|
  {
    if events == [] then (c, [])
    else
      var n := |events| - 1;
      var (c', replies) := Run(b, c, events[..n]);
      var a := After(b, c', events[n]);
      (a.conn, replies + [a.reply])
  }

  ghost predicate IdleIsEmpty(tx: Tx) {
    !tx.active ==> tx == NO_TX
  }

  /** Over every run, an inactive transaction has an empty queue and no abort flag. */
  lemma {:induction false} IdleStaysEmpty<S>(b: Backend<S>, c: Conn<S>, events: seq<Event>)
    requires IdleIsEmpty(c.tx)
    ensures IdleIsEmpty(Run(b, c, events).0.tx)
  {
    if events != [] {
      IdleStaysEmpty(b, c, events[..|events| - 1]);
    }
  }

  function SentBy(e: Event): seq<Command> {
    match e
    case Resp(Store(q)) => [q]
    case _ => []
  }

  function OthersBy(e: Event): seq<Command> {
    match e
    case Elsewhere(q) => [q]
    case _ => []
  }

  /** The commands this connection sent, in order. */
  function Sent(events: seq<Event>): seq<Command> {
    if events == [] then [] else Sent(events[..|events| - 1]) + SentBy(events[|events| - 1])
  }

  /** The commands from elsewhere, in order. */
  function Others(events: seq<Event>): seq<Command> {
    if events == [] then [] else Others(events[..|events| - 1]) + OthersBy(events[|events| - 1])
  }

  /** No request of the connection was anything but a well-formed command. */
  predicate Clean(events: seq<Event>) {
    forall i :: 0 <= i < |events| ==> Tolerated(events[i])
  }

  ghost predicate StaysOpen(events: seq<Event>) {
    forall i :: 0 <= i < |events| && events[i].Resp? ==> !events[i].request.Exec? && !events[i].request.Discard?
  }

  predicate Tolerated(e: Event) {
    e.Resp? ==> e.request.Store?
  }

  lemma CleanGrows(events: seq<Event>, n: nat)
    requires n == |events| - 1
    ensures Clean(events) <==> Clean(events[..n]) && Tolerated(events[n])
    ensures StaysOpen(events) ==> StaysOpen(events[..n])
  {
    assert forall i :: 0 <= i < n ==> events[..n][i] == events[i];
  }

  lemma SentGrows(queue: seq<Command>, events: seq<Event>, n: nat)
    requires n == |events| - 1
    ensures queue + Sent(events) == (queue + Sent(events[..n])) + SentBy(events[n])
    ensures Others(events) == Others(events[..n]) + OthersBy(events[n])
  {
  }

  lemma PerformOneMore<S>(b: Backend<S>, s: S, qs: seq<Command>, q: Command)
    ensures var (s', replies) := PerformAll(b, s, qs);
      var (s'', reply) := Perform(b, s', q);
      PerformAll(b, s, qs + [q]) == (s'', replies + [reply])
  {
    assert (qs + [q])[..|qs|] == qs;
  }

  lemma ActiveStep<S>(b: Backend<S>, c: Conn<S>, e: Event, s: S, others: seq<Command>)
    requires c.tx.active && c.store == PerformAll(b, s, others).0
    requires e.Resp? ==> !e.request.Exec? && !e.request.Discard?
    ensures var c' := After(b, c, e).conn;
      && c'.store == PerformAll(b, s, others + OthersBy(e)).0
      && c'.tx == Tx(true, c.tx.aborted || !Tolerated(e), c.tx.queue + SentBy(e))
  {
    match e
    case Elsewhere(q) =>
      PerformOneMore(b, s, others, q);
      assert c.tx.queue + [] == c.tx.queue;
    case Resp(req) =>
      assert others + [] == others;
      if !req.Store? {
        assert c.tx.queue + [] == c.tx.queue;
      }
  }

  /**
    While a transaction is active and not closed, only commands from elsewhere reach the store. The queue
    collects exactly the well-formed commands, in order, and any other request dooms the transaction.
   */
  lemma {:induction false} ActiveRunQueues<S>(b: Backend<S>, c: Conn<S>, events: seq<Event>)
    requires c.tx.active && StaysOpen(events)
    ensures var c' := Run(b, c, events).0;
      && c'.store == PerformAll(b, c.store, Others(events)).0
      && c'.tx == Tx(true, c.tx.aborted || !Clean(events), c.tx.queue + Sent(events))
  {
    if events == [] {
      assert c.tx.queue + Sent(events) == c.tx.queue;
    } else {
      var n := |events| - 1;
      CleanGrows(events, n);
      ActiveRunQueues(b, c, events[..n]);
      var c' := Run(b, c, events[..n]).0;
      ActiveStep(b, c', events[n], c.store, Others(events[..n]));
      SentGrows(c.tx.queue, events, n);
    }
  }

  /** The commands, each sent as a request of its own. */
  function AsEvents(qs: seq<Command>): (events: seq<Event>)
    ensures |events| == |qs|
  {
    if qs == [] then [] else AsEvents(qs[..|qs| - 1]) + [Resp(Store(qs[|qs| - 1]))]
  }

  /** Sent outside a transaction, commands are performed one after the other. */
  lemma {:induction false} IdleRunPerforms<S>(b: Backend<S>, c: Conn<S>, qs: seq<Command>)
    requires !c.tx.active
    ensures var (s', replies) := PerformAll(b, c.store, qs);
      Run(b, c, AsEvents(qs)) == (c.(store := s'), replies)
  {
    if qs != [] {
      var n := |qs| - 1;
      IdleRunPerforms(b, c, qs[..n]);
      assert AsEvents(qs)[..n] == AsEvents(qs[..n]);
    }
  }

  /** The answer to a closing request after MULTI and the events. */
  function Closed<S>(b: Backend<S>, c: Conn<S>, events: seq<Event>, close: Request): Answer<S> {
    Step(b, Run(b, Step(b, c, Multi).conn, events).0, close)
  }

  /**
    A transaction is all or nothing, whatever happens elsewhere meanwhile. If it held only well-formed
    commands, EXEC leaves the store, and answers with the replies in order, that sending the same commands
    directly at that moment would give. If it held anything else, EXEC is refused. A refused EXEC and a
    DISCARD leave the store to the commands from elsewhere.
   */
  lemma TransactionIsAtomic<S>(b: Backend<S>, c: Conn<S>, events: seq<Event>, idle: Conn<S>)
    requires c.tx == NO_TX && StaysOpen(events)
    requires !idle.tx.active && idle.store == PerformAll(b, c.store, Others(events)).0
    ensures var a := Closed(b, c, events, Exec);
      var (direct, replies) := Run(b, idle, AsEvents(Sent(events)));
      && a.conn.tx == NO_TX
      && if Clean(events) then a.reply == Array(replies) && a.conn.store == direct.store
         else a.reply == ErrorReply(ABORTED) && a.conn.store == idle.store
    ensures var a := Closed(b, c, events, Discard);
      a.conn.tx == NO_TX && a.reply == Simple("OK") && a.conn.store == idle.store
  {
    hide Run, Perform, PerformAll, Sent, Others, Clean, StaysOpen;
    ActiveRunQueues(b, Step(b, c, Multi).conn, events);
    assert [] + Sent(events) == Sent(events);
    IdleRunPerforms(b, idle, Sent(events));
  }
}
