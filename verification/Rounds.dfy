/**
  What the server sends when. All commands of a round are handled before any response goes out, and the
  response to a custom GET points at the value's buffer instead of holding a copy.
 */
module Rounds {
  import opened Common
  import opened StoreModel
  import opened StoreRuns
  import opened StoreMemory
  import CM = ClientModel
  import T = Transactions

  // ---------- The shards ----------

  /** `halted`: a prime generator threw, and nothing further is answered. */
  datatype Server = Server(shards: seq<Mem>, halted: bool)

  ghost predicate Ready(sv: Server) {
    sv.shards != [] && forall i :: 0 <= i < |sv.shards| ==> Tied(sv.shards[i])
  }

  function ShardOf(cfg: Config, sv: Server, key: CString): (i: nat)
    requires sv.shards != []
    ensures i < |sv.shards|
  {
    cfg.hash(key) % |sv.shards|
  }

  /** The shard a command goes to, as the command finds it. */
  function Home(cfg: Config, sv: Server, q: T.Command): Mem
    requires sv.shards != []
  {
    sv.shards[ShardOf(cfg, sv, q.key)]
  }

  function Perform(cfg: Config, sv: Server, q: T.Command): (r: Server)
    requires Ready(sv)
    ensures Ready(r) && |r.shards| == |sv.shards| && (sv.halted ==> r == sv)
  {
    if sv.halted then sv
    else
      var m := Performed(cfg, Home(cfg, sv, q), q);
      if m.None? then sv.(halted := true)
      else
        StepStaysTied(cfg, Home(cfg, sv, q), q);
        sv.(shards := sv.shards[ShardOf(cfg, sv, q.key) := m.value])
  }

  // ---------- What a command does and answers ----------

  /** What happened to the store: a value found, success, no such key, or a failure. */
  datatype Verdict = Value(v: string) | Done | Absent | Failure

  function Happens(cfg: Config, s: Store, q: T.Command): Verdict
    requires Inv(s)
  {
    match q
    case Get(key) =>
      var found := Lookup(cfg, s, key);
      if found.Some? then Value(found.value) else Absent
    case Set(key, value) => if SetSpec(cfg, s, key, value, cfg.hash(key)).outcome.Stored? then Done else Failure
    case Del(key) => if DelSpec(s, key, PathsFor(cfg, s.size)(key)).0 then Done else Absent
  }

  /** The custom response for a command with that verdict. */
  function TextOf(q: T.Command, v: Verdict): string {
    match v
    case Value(x) => x
    case Done => "OK"
    case Absent => if q.Get? then CM.NOTHING else CM.KEY_NOT_EXISTS
    case Failure => "ERROR: Internal error"
  }

  /** The buffer a response points at. */
  datatype Handle = Handle(shard: nat, entry: nat, id: nat)

  /** `text` is what stood there when the response was made; its length is the response's size. */
  datatype Answer = Answer(text: string, buffer: Option<Handle>)

  /** A value stored as it is is answered with its own buffer, a compressed one with a copy. */
  function AnswerTo(cfg: Config, sv: Server, q: T.Command): Answer
    requires Ready(sv)
  {
    var m, i := Home(cfg, sv, q), ShardOf(cfg, sv, q.key);
    var s := m.store;
    var e := if q.Get? then EntryFor(s.table, s.pool.cells, q.key, PathsFor(cfg, s.size)(q.key)) else 0;
    Answer(TextOf(q, Happens(cfg, s, q)),
      if e != 0 && !s.pool.cells[e].compressed then Some(Handle(i, e, m.heap[e].id)) else None)
  }

  /** The bytes sent for the answer: those of its buffer, or whatever `junk` a freed buffer holds by then. */
  function Shown(sv: Server, a: Answer, junk: nat -> char): string {
    match a.buffer
    case None => a.text
    case Some(h) =>
      if h.shard < |sv.shards| && Lives(sv.shards[h.shard], h.entry, h.id) then sv.shards[h.shard].heap[h.entry].bytes
      else seq(|a.text|, (i: nat) => junk(i))
  }

  // ---------- Events ----------

  /** A request of the custom connection at hand, or a command of any other one. */
  datatype Event = Mine(request: T.Request) | Elsewhere(command: T.Command)

  function CommandIn(ev: Event): Option<T.Command> {
    match ev
    case Mine(Store(q)) => Some(q)
    case Elsewhere(q) => Some(q)
    case _ => None
  }

  function After(cfg: Config, sv: Server, events: seq<Event>): (r: Server)
    requires Ready(sv)
    ensures Ready(r) && |r.shards| == |sv.shards|
  {
    if events == [] then sv
    else
      var before := After(cfg, sv, events[..|events| - 1]);
      match CommandIn(events[|events| - 1])
      case None => before
      case Some(q) => Perform(cfg, before, q)
  }

  function AnswerAt(cfg: Config, sv: Server, events: seq<Event>, i: nat): Answer
    requires Ready(sv) && i < |events|
  {
    match CommandIn(events[i])
    case Some(q) => AnswerTo(cfg, After(cfg, sv, events[..i]), q)
    case None => Answer(if events[i].request.Wrong? then events[i].request.message else "ERROR: Unknown command", None)
  }

  lemma AfterGrows(cfg: Config, sv: Server, events: seq<Event>, n: nat)
    requires Ready(sv) && n < |events|
    ensures var before, after := After(cfg, sv, events[..n]), After(cfg, sv, events[..n + 1]);
      && after == (if CommandIn(events[n]).Some? then Perform(cfg, before, CommandIn(events[n]).value) else before)
      && (before.halted ==> after.halted)
  {
    assert events[..n + 1][..n] == events[..n];
  }

  lemma {:induction false} StaysRunning(cfg: Config, sv: Server, events: seq<Event>, n: nat)
    requires Ready(sv) && n <= |events| && !After(cfg, sv, events).halted
    ensures !After(cfg, sv, events[..n]).halted
    decreases |events| - n
  {
    if n < |events| {
      StaysRunning(cfg, sv, events, n + 1);
      AfterGrows(cfg, sv, events, n);
    } else {
      assert events[..n] == events;
    }
  }

  // ---------- How long a buffer lives ----------

  /** The command frees the buffer's entry. */
  predicate FreedBy(cfg: Config, sv: Server, q: T.Command, h: Handle)
    requires Ready(sv)
  {
    ShardOf(cfg, sv, q.key) == h.shard && Touched(cfg, Home(cfg, sv, q).store, q) == h.entry
  }

  predicate Frees(cfg: Config, sv: Server, ev: Event, h: Handle)
    requires Ready(sv)
  {
    CommandIn(ev).Some? && FreedBy(cfg, sv, CommandIn(ev).value, h)
  }

  /** The buffer is alive and holds the bytes and the key of its entry. */
  ghost predicate Holding(sv: Server, h: Handle, key: CString, bytes: string) {
    && h.shard < |sv.shards| && 0 < h.entry && Lives(sv.shards[h.shard], h.entry, h.id)
    && var m := sv.shards[h.shard];
       && m.heap[h.entry].bytes == bytes && h.id < m.next
       && h.entry < |m.store.pool.cells| && m.store.pool.cells[h.entry].Live? && m.store.pool.cells[h.entry].key == key
  }

  /** The buffer is gone for good. */
  ghost predicate Gone(sv: Server, h: Handle) {
    h.shard < |sv.shards| && 0 < h.entry && h.id < sv.shards[h.shard].next && !Lives(sv.shards[h.shard], h.entry, h.id)
  }

  lemma BorrowedHolds(cfg: Config, sv: Server, q: T.Command)
    requires Ready(sv) && AnswerTo(cfg, sv, q).buffer.Some?
    ensures q.Get? && Holding(sv, AnswerTo(cfg, sv, q).buffer.value, q.key, AnswerTo(cfg, sv, q).text)
  {
    assert Tied(Home(cfg, sv, q));
  }

  lemma PerformHolds(cfg: Config, sv: Server, q: T.Command, h: Handle, key: CString, bytes: string)
    requires Ready(sv) && !Perform(cfg, sv, q).halted && Holding(sv, h, key, bytes)
    ensures var r := Perform(cfg, sv, q);
      if FreedBy(cfg, sv, q, h) then Gone(r, h) && q.key == key && !q.Get? else Holding(r, h, key, bytes)
  {
    if ShardOf(cfg, sv, q.key) == h.shard {
      var m := Home(cfg, sv, q);
      StepFrees(cfg, m, q, h.entry, h.id);
      CommandTouches(cfg, m.store, q);
    }
  }

  lemma PerformGone(cfg: Config, sv: Server, q: T.Command, h: Handle)
    requires Ready(sv) && !Perform(cfg, sv, q).halted && Gone(sv, h)
    ensures Gone(Perform(cfg, sv, q), h)
  {
    if ShardOf(cfg, sv, q.key) == h.shard {
      StepFrees(cfg, Home(cfg, sv, q), q, h.entry, h.id);
    }
  }

  /** `at(n)` is the server after the first `n` events, none of which made it halt. */
  ghost predicate Runs(cfg: Config, events: seq<Event>, at: nat -> Server) {
    forall j: nat :: j < |events| ==> Moves(cfg, at(j), events[j], at(j + 1))
  }

  ghost predicate Moves(cfg: Config, before: Server, ev: Event, after: Server) {
    && Ready(before) && !after.halted
    && after == (if CommandIn(ev).Some? then Perform(cfg, before, CommandIn(ev).value) else before)
  }

  lemma MoveHolds(cfg: Config, before: Server, ev: Event, after: Server, h: Handle, key: CString, bytes: string)
    requires Moves(cfg, before, ev, after) && Holding(before, h, key, bytes)
    ensures if Frees(cfg, before, ev, h) then Gone(after, h) else Holding(after, h, key, bytes)
    ensures Frees(cfg, before, ev, h) ==> CommandIn(ev).value.key == key && !CommandIn(ev).value.Get?
  {
    if CommandIn(ev).Some? {
      PerformHolds(cfg, before, CommandIn(ev).value, h, key, bytes);
    }
  }

  lemma MoveGone(cfg: Config, before: Server, ev: Event, after: Server, h: Handle)
    requires Moves(cfg, before, ev, after) && Gone(before, h)
    ensures Gone(after, h)
  {
    if CommandIn(ev).Some? {
      PerformGone(cfg, before, CommandIn(ev).value, h);
    }
  }

  /** Event `j` frees the buffer. */
  ghost predicate FreesAt(cfg: Config, at: nat -> Server, events: seq<Event>, j: nat, h: Handle) {
    j < |events| && Ready(at(j)) && Frees(cfg, at(j), events[j], h)
  }

  /** What happens to a buffer at each step decides what has happened to it after many. */
  lemma {:induction false} Fate(held: nat -> bool, gone: nat -> bool, frees: nat -> bool, i: nat, n: nat)
    requires i <= n && held(i)
    requires forall j :: i <= j < n && held(j) ==> if frees(j) then gone(j + 1) else held(j + 1)
    requires forall j :: i <= j < n && gone(j) ==> gone(j + 1)
    ensures if exists j :: i <= j < n && frees(j) then gone(n) else held(n)
    decreases n
  {
    if i < n {
      Fate(held, gone, frees, i, n - 1);
    }
  }

  /** Names for the three things that can be said of a buffer at event `j`, to keep them apart in proofs. */
  ghost predicate Names(
      frees: nat -> bool, held: nat -> bool, gone: nat -> bool,
      cfg: Config, at: nat -> Server, events: seq<Event>, h: Handle, key: CString, bytes: string) {
    && (forall j: nat {:trigger frees(j)} :: frees(j) == FreesAt(cfg, at, events, j, h))
    && (forall j: nat {:trigger held(j)} :: held(j) == Holding(at(j), h, key, bytes))
    && (forall j: nat {:trigger gone(j)} :: gone(j) == Gone(at(j), h))
  }

  lemma FateAt(
      cfg: Config, events: seq<Event>, at: nat -> Server, j: nat, h: Handle, key: CString, bytes: string)
    requires Runs(cfg, events, at) && j < |events|
    ensures Holding(at(j), h, key, bytes) ==>
      if FreesAt(cfg, at, events, j, h) then Gone(at(j + 1), h) else Holding(at(j + 1), h, key, bytes)
    ensures Gone(at(j), h) ==> Gone(at(j + 1), h)
  {
    assert Moves(cfg, at(j), events[j], at(j + 1));
    if Holding(at(j), h, key, bytes) {
      MoveHolds(cfg, at(j), events[j], at(j + 1), h, key, bytes);
    }
    if Gone(at(j), h) {
      MoveGone(cfg, at(j), events[j], at(j + 1), h);
    }
  }

  /** A buffer held before the i-th event is held until an event frees it, and gone from then on. */
  lemma BufferLives(
      cfg: Config, events: seq<Event>, at: nat -> Server, i: nat, n: nat, h: Handle, key: CString, bytes: string,
      frees: nat -> bool, held: nat -> bool, gone: nat -> bool)
    requires Runs(cfg, events, at) && i <= n <= |events|
    requires Names(frees, held, gone, cfg, at, events, h, key, bytes) && held(i)
    ensures if exists j :: i <= j < n && frees(j) then gone(n) else held(n)
  {
    forall j | i <= j < n
      ensures held(j) ==> if frees(j) then gone(j + 1) else held(j + 1)
      ensures gone(j) ==> gone(j + 1)
    {
      FateAt(cfg, events, at, j, h, key, bytes);
    }
    Fate(held, gone, frees, i, n);
  }

  /** No event from the i-th up to the n-th is a SET or DEL of the key. */
  predicate Undisturbed(events: seq<Event>, i: nat, n: nat, key: CString)
    requires n <= |events|
  {
    forall j :: i <= j < n && CommandIn(events[j]).Some? && CommandIn(events[j]).value.key == key ==>
      CommandIn(events[j]).value.Get?
  }

  /** A buffer outlives all events that neither set nor delete its key. */
  lemma {:induction false} UndisturbedLives(
      cfg: Config, events: seq<Event>, at: nat -> Server, i: nat, n: nat, h: Handle, key: CString, bytes: string)
    requires Runs(cfg, events, at) && i <= n <= |events| && Holding(at(i), h, key, bytes)
    requires Undisturbed(events, i, n, key)
    ensures Holding(at(n), h, key, bytes)
    decreases n
  {
    if i < n {
      UndisturbedLives(cfg, events, at, i, n - 1, h, key, bytes);
      assert Moves(cfg, at(n - 1), events[n - 1], at(n - 1 + 1));
      MoveHolds(cfg, at(n - 1), events[n - 1], at(n), h, key, bytes);
    }
  }

  // ---------- What is sent ----------

  /** The server after the first `j` events. */
  function States(cfg: Config, sv: Server, events: seq<Event>): nat -> Server
    requires Ready(sv)
  {
    (j: nat) => After(cfg, sv, if j <= |events| then events[..j] else events)
  }

  lemma StatesRun(cfg: Config, sv: Server, events: seq<Event>)
    requires Ready(sv) && !After(cfg, sv, events).halted
    ensures Runs(cfg, events, States(cfg, sv, events))
  {
    var at := States(cfg, sv, events);
    forall j: nat | j < |events| ensures Moves(cfg, at(j), events[j], at(j + 1)) {
      AfterGrows(cfg, sv, events, j);
      StaysRunning(cfg, sv, events, j + 1);
    }
  }

  /** The response carries its own text whatever freed memory holds. */
  ghost predicate Faithful(sv: Server, a: Answer) {
    forall junk: nat -> char :: Shown(sv, a, junk) == a.text
  }

  lemma FateDecides(sv: Server, a: Answer, key: CString, freed: bool)
    requires a.buffer.Some?
    requires if freed then Gone(sv, a.buffer.value) else Holding(sv, a.buffer.value, key, a.text)
    ensures Faithful(sv, a) <==> a.text == [] || !freed
  {
    if freed && a.text != [] {
      var other := if a.text[0] == 'x' then 'y' else 'x';
      assert Shown(sv, a, (i: nat) => other)[0] == other;
    }
  }

  lemma BorrowedAt(cfg: Config, sv: Server, events: seq<Event>, i: nat) returns (key: CString)
    requires Ready(sv) && i < |events| && AnswerAt(cfg, sv, events, i).buffer.Some?
    ensures var a := AnswerAt(cfg, sv, events, i);
      && CommandIn(events[i]) == Some(T.Get(key))
      && Holding(States(cfg, sv, events)(i), a.buffer.value, key, a.text)
      && !FreesAt(cfg, States(cfg, sv, events), events, i, a.buffer.value)
  {
    var q := CommandIn(events[i]).value;
    BorrowedHolds(cfg, After(cfg, sv, events[..i]), q);
    key := q.key;
  }

  lemma BorrowedFate(
      cfg: Config, events: seq<Event>, at: nat -> Server, i: nat, n: nat, a: Answer, key: CString,
      frees: nat -> bool, held: nat -> bool, gone: nat -> bool)
    requires Runs(cfg, events, at) && i < n <= |events| && a.buffer.Some?
    requires Names(frees, held, gone, cfg, at, events, a.buffer.value, key, a.text) && held(i) && !frees(i)
    ensures Faithful(at(n), a) <==> a.text == [] || !exists j :: i <= j < n && frees(j)
  {
    BufferLives(cfg, events, at, i, n, a.buffer.value, key, a.text, frees, held, gone);
    FateDecides(at(n), a, key, exists j :: i <= j < n && frees(j));
  }

  /** Which events free the buffer. */
  ghost function Freeing(cfg: Config, sv: Server, events: seq<Event>, h: Handle): (f: nat -> bool)
    requires Ready(sv)
    ensures forall j: nat {:trigger f(j)} :: f(j) == FreesAt(cfg, States(cfg, sv, events), events, j, h)
  {
    (j: nat) => FreesAt(cfg, States(cfg, sv, events), events, j, h)
  }

  /**
    The response to event `i`, sent when `n` events have been handled, carries its own text whatever freed
    memory holds, exactly when it has a buffer of its own, is empty, or no later event freed the entry.
   */
  lemma SentOwnTextIff(cfg: Config, sv: Server, events: seq<Event>, i: nat, n: nat)
    requires Ready(sv) && !After(cfg, sv, events).halted && i < n <= |events|
    ensures var a := AnswerAt(cfg, sv, events, i);
      Faithful(States(cfg, sv, events)(n), a) <==>
      a.buffer.None? || a.text == [] || forall j :: i < j < n ==> !Freeing(cfg, sv, events, a.buffer.value)(j)
  {
    var a, at := AnswerAt(cfg, sv, events, i), States(cfg, sv, events);
    if a.buffer.Some? {
      var h := a.buffer.value;
      var key := BorrowedAt(cfg, sv, events, i);
      StatesRun(cfg, sv, events);
      BorrowedFate(cfg, events, at, i, n, a, key, Freeing(cfg, sv, events, h),
                   (j: nat) => Holding(at(j), h, key, a.text), (j: nat) => Gone(at(j), h));
    }
  }

  /** A sender can rely on a response if nothing handled before it is sent sets or deletes its key. */
  lemma UndisturbedIsFaithful(cfg: Config, sv: Server, events: seq<Event>, i: nat, n: nat)
    requires Ready(sv) && !After(cfg, sv, events).halted && i < n <= |events|
    requires forall key :: CommandIn(events[i]) == Some(T.Get(key)) ==> Undisturbed(events, i, n, key)
    ensures Faithful(States(cfg, sv, events)(n), AnswerAt(cfg, sv, events, i))
  {
    var a, at := AnswerAt(cfg, sv, events, i), States(cfg, sv, events);
    if a.buffer.Some? {
      var k := BorrowedAt(cfg, sv, events, i);
      StatesRun(cfg, sv, events);
      UndisturbedLives(cfg, events, at, i, n, a.buffer.value, k, a.text);
      FateDecides(at(n), a, k, false);
    }
  }

  // ---------- The texts a connection gets ----------

  /** The positions of the connection's own requests. */
  function MineIn(events: seq<Event>): (ks: seq<nat>)
    ensures forall k :: 0 <= k < |ks| ==> ks[k] < |events| && events[ks[k]].Mine?
  {
    if events == [] then []
    else
      var n := |events| - 1;
      MineIn(events[..n]) + if events[n].Mine? then [n] else []
  }

  function RequestsIn(events: seq<Event>): (rs: seq<T.Request>)
    ensures |rs| == |MineIn(events)|
    ensures forall k :: 0 <= k < |rs| ==> rs[k] == events[MineIn(events)[k]].request
  {
    seq(|MineIn(events)|, k requires 0 <= k < |MineIn(events)| => events[MineIn(events)[k]].request)
  }

  /** What the connection's responses say when they are made. */
  function OwnTexts(cfg: Config, sv: Server, events: seq<Event>): (ts: seq<string>)
    requires Ready(sv)
    ensures |ts| == |MineIn(events)|
    ensures forall k :: 0 <= k < |ts| ==> ts[k] == AnswerAt(cfg, sv, events, MineIn(events)[k]).text
  {
    seq(|MineIn(events)|, k requires 0 <= k < |MineIn(events)| => AnswerAt(cfg, sv, events, MineIn(events)[k]).text)
  }

  /** `sentAt[i]` is how many events have been handled when the response to event `i` is sent: its round's end. */
  ghost predicate Schedules(sentAt: seq<nat>, events: seq<Event>) {
    |sentAt| == |events| && forall i :: 0 <= i < |events| ==> i < sentAt[i] <= |events|
  }

  /** What the connection's responses say when they are sent. */
  function SentTexts(cfg: Config, sv: Server, events: seq<Event>, sentAt: seq<nat>, junk: (nat, nat) -> char)
    : (ts: seq<string>)
    requires Ready(sv) && Schedules(sentAt, events)
    ensures |ts| == |MineIn(events)|
    ensures forall k :: 0 <= k < |ts| ==>
      var i := MineIn(events)[k];
      ts[k] == Shown(States(cfg, sv, events)(sentAt[i]), AnswerAt(cfg, sv, events, i), (off: nat) => junk(i, off))
  {
    var at, ks := States(cfg, sv, events), MineIn(events);
    seq(|ks|, k requires 0 <= k < |ks| =>
      Shown(at(sentAt[ks[k]]), AnswerAt(cfg, sv, events, ks[k]), (off: nat) => junk(ks[k], off)))
  }

  /** No GET of the connection shares its round with a later SET or DEL of its key, whoever sent it. */
  ghost predicate NoLaterWrites(events: seq<Event>, sentAt: seq<nat>)
    requires Schedules(sentAt, events)
  {
    forall i, key :: 0 <= i < |events| && events[i] == Mine(T.Store(T.Get(key))) ==>
      Undisturbed(events, i, sentAt[i], key)
  }

  lemma SentOne(cfg: Config, sv: Server, events: seq<Event>, sentAt: seq<nat>, junk: nat -> char, i: nat)
    requires Ready(sv) && !After(cfg, sv, events).halted && Schedules(sentAt, events) && NoLaterWrites(events, sentAt)
    requires i < |events| && events[i].Mine?
    ensures Shown(States(cfg, sv, events)(sentAt[i]), AnswerAt(cfg, sv, events, i), junk)
         == AnswerAt(cfg, sv, events, i).text
  {
    UndisturbedIsFaithful(cfg, sv, events, i, sentAt[i]);
  }

  lemma SentAsMade(cfg: Config, sv: Server, events: seq<Event>, sentAt: seq<nat>, junk: (nat, nat) -> char)
    requires Ready(sv) && !After(cfg, sv, events).halted && Schedules(sentAt, events) && NoLaterWrites(events, sentAt)
    ensures SentTexts(cfg, sv, events, sentAt, junk) == OwnTexts(cfg, sv, events)
  {
    var sent, own := SentTexts(cfg, sv, events, sentAt, junk), OwnTexts(cfg, sv, events);
    forall k | 0 <= k < |MineIn(events)| ensures sent[k] == own[k] {
      SentOne(cfg, sv, events, sentAt, (off: nat) => junk(MineIn(events)[k], off), MineIn(events)[k]);
    }
  }

  // ---------- Rounds ----------

  function AllEvents(rounds: seq<seq<Event>>): seq<Event> {
    if rounds == [] then [] else AllEvents(rounds[..|rounds| - 1]) + rounds[|rounds| - 1]
  }

  /** For each event, how many events have been handled when its round ends and its response is sent. */
  function SendTimes(rounds: seq<seq<Event>>): (sentAt: seq<nat>)
    ensures Schedules(sentAt, AllEvents(rounds))
  {
    if rounds == [] then []
    else
      var n := |rounds| - 1;
      SendTimes(rounds[..n]) + seq(|rounds[n]|, _ => |AllEvents(rounds)|)
  }

  /** How many of the rounds' events are requests of the connection. */
  function CountMine(rounds: seq<seq<Event>>): nat {
    if rounds == [] then 0 else CountMine(rounds[..|rounds| - 1]) + |MineIn(rounds[|rounds| - 1])|
  }

  lemma {:induction false} MineAppends(a: seq<Event>, b: seq<Event>)
    ensures |MineIn(a + b)| == |MineIn(a)| + |MineIn(b)|
  {
    if b == [] {
      assert a + b == a;
    } else {
      var n := |b| - 1;
      MineAppends(a, b[..n]);
      assert (a + b)[..|a| + n] == a + b[..n];
    }
  }

  lemma {:induction false} MineCount(rounds: seq<seq<Event>>)
    ensures |MineIn(AllEvents(rounds))| == CountMine(rounds)
  {
    if rounds != [] {
      var n := |rounds| - 1;
      MineCount(rounds[..n]);
      MineAppends(AllEvents(rounds[..n]), rounds[n]);
    }
  }
}
