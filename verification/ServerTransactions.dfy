/** Transactions over the server's own shards, and what a store that throws leaves of one. */
module ServerTransactions {
  import opened Common
  import opened StoreModel
  import opened StoreRuns
  import opened StoreMemory
  import opened Rounds
  import RR = RespReply
  import T = Transactions

  type Shards = sv: Server | Ready(sv) ghost witness Server([Mem(Initial(2, Doubling), map[], 0)], false)

  function VerdictOn(cfg: Config, sv: Shards, q: T.Command): Verdict {
    Happens(cfg, Home(cfg, sv, q).store, q)
  }

  /** A command's effect, and whether it succeeded. */
  function Attempt(cfg: Config, sv: Shards, q: T.Command): (Shards, bool) {
    (Perform(cfg, sv, q), VerdictOn(cfg, sv, q).Done?)
  }

  /** The shards as request handling sees them. */
  function ShardBackend(cfg: Config): T.Backend<Shards> {
    T.Backend(
      (sv: Shards, key: CString) => Lookup(cfg, Home(cfg, sv, T.Get(key)).store, key),
      (sv: Shards, key: CString, value: CString) => Attempt(cfg, sv, T.Set(key, value)),
      (sv: Shards, key: CString) => Attempt(cfg, sv, T.Del(key)))
  }

  /** The RESP reply for a command with that verdict. */
  function ReplyFor(q: T.Command, v: Verdict): RR.Reply {
    match v
    case Value(x) => RR.BulkString(x)
    case Failure => T.ErrorReply("ERROR: Internal error")
    case Done => if q.Del? then RR.Integer(1) else RR.Simple("OK")
    case Absent => if q.Del? then RR.Integer(0) else RR.Null
  }

  lemma GetChangesNothing(cfg: Config, sv: Shards, key: CString)
    ensures Perform(cfg, sv, T.Get(key)) == sv
  {
    if !sv.halted {
      var i := ShardOf(cfg, sv, key);
      assert sv.shards[i := sv.shards[i]] == sv.shards;
    }
  }

  /** A command performed through the backend does and answers what it does and answers on the shards. */
  lemma BackendPerforms(cfg: Config, sv: Shards, q: T.Command)
    ensures T.Perform(ShardBackend(cfg), sv, q) == (Perform(cfg, sv, q), ReplyFor(q, VerdictOn(cfg, sv, q)))
  {
    if q.Get? {
      GetChangesNothing(cfg, sv, q.key);
    }
    hide Perform, SetSpec, DelSpec, Lookup;
  }

  function AsRequests(qs: seq<T.Command>): (events: seq<Event>)
    ensures |events| == |qs| && forall k :: 0 <= k < |qs| ==> events[k] == Mine(T.Store(qs[k]))
  {
    seq(|qs|, k requires 0 <= k < |qs| => Mine(T.Store(qs[k])))
  }

  /** The shards after the commands, one after the other. */
  function Performing(cfg: Config, sv: Shards, qs: seq<T.Command>): Shards {
    After(cfg, sv, AsRequests(qs))
  }

  lemma PerformingGrows(cfg: Config, sv: Shards, qs: seq<T.Command>, n: nat)
    requires n < |qs|
    ensures Performing(cfg, sv, qs[..n + 1]) == Perform(cfg, Performing(cfg, sv, qs[..n]), qs[n])
  {
    assert AsRequests(qs[..n + 1])[..n] == AsRequests(qs[..n]);
  }

  /** The commands' replies, each from the shards as those before it left them. */
  function RepliesTo(cfg: Config, sv: Shards, qs: seq<T.Command>): (rs: seq<RR.Reply>)
    ensures |rs| == |qs|
  {
    if qs == [] then []
    else
      var n := |qs| - 1;
      RepliesTo(cfg, sv, qs[..n]) + [ReplyFor(qs[n], VerdictOn(cfg, Performing(cfg, sv, qs[..n]), qs[n]))]
  }

  lemma {:induction false} BackendPerformsAll(cfg: Config, sv: Shards, qs: seq<T.Command>)
    ensures T.PerformAll(ShardBackend(cfg), sv, qs) == (Performing(cfg, sv, qs), RepliesTo(cfg, sv, qs))
  {
    if qs != [] {
      hide Performing, Perform, ReplyFor, VerdictOn, ShardBackend, T.Perform;
      var n := |qs| - 1;
      BackendPerformsAll(cfg, sv, qs[..n]);
      BackendPerforms(cfg, Performing(cfg, sv, qs[..n]), qs[n]);
      PerformingGrows(cfg, sv, qs, n);
      assert qs[..n + 1] == qs;
    }
  }

  // ---------- A store that throws ----------

  /** The command makes a shard's prime generator throw. */
  predicate Throws(cfg: Config, sv: Shards, q: T.Command) {
    !sv.halted && Stepped(cfg, Home(cfg, sv, q).store, q).None?
  }

  lemma ThrowHalts(cfg: Config, sv: Shards, q: T.Command)
    ensures Perform(cfg, sv, q).halted <==> sv.halted || Throws(cfg, sv, q)
    ensures Throws(cfg, sv, q) ==> q.Set? && Perform(cfg, sv, q) == sv.(halted := true)
  {
    hide SetSpec, DelSpec, Touched, HeapAfter;
  }

  lemma {:induction false} StaysHalted(cfg: Config, sv: Shards, qs: seq<T.Command>, k: nat)
    requires k <= |qs| && Performing(cfg, sv, qs[..k]).halted
    ensures Performing(cfg, sv, qs) == Performing(cfg, sv, qs[..k])
    decreases |qs| - k
  {
    hide Performing, Perform;
    if k < |qs| {
      PerformingGrows(cfg, sv, qs, k);
      StaysHalted(cfg, sv, qs, k + 1);
    } else {
      assert qs[..k] == qs;
    }
  }

  /** The commands either all run, or stop at the first one that throws, with the effects of those before it. */
  lemma {:induction false} FirstThrow(cfg: Config, sv: Shards, qs: seq<T.Command>) returns (k: nat)
    requires !sv.halted
    ensures k <= |qs| && !Performing(cfg, sv, qs[..k]).halted
    ensures if k == |qs| then !Performing(cfg, sv, qs).halted
            else
              && Throws(cfg, Performing(cfg, sv, qs[..k]), qs[k])
              && Performing(cfg, sv, qs) == Performing(cfg, sv, qs[..k]).(halted := true)
  {
    if qs == [] {
      k := 0;
    } else {
      hide Performing, Perform, Throws;
      var n := |qs| - 1;
      k := FirstThrow(cfg, sv, qs[..n]);
      assert qs[..n][..k] == qs[..k] && qs[..n + 1] == qs;
      PerformingGrows(cfg, sv, qs, n);
      if k == n {
        ThrowHalts(cfg, Performing(cfg, sv, qs[..n]), qs[n]);
        if !Throws(cfg, Performing(cfg, sv, qs[..n]), qs[n]) {
          k := n + 1;
        }
      } else {
        StaysHalted(cfg, sv, qs, n);
      }
    }
  }

  // ---------- MULTI and EXEC ----------

  /** What EXEC does to shards on which the queued commands run without a throw, and what it answers. */
  ghost predicate Executed(cfg: Config, before: Shards, qs: seq<T.Command>, a: T.Answer<Shards>) {
    a.conn.store == Performing(cfg, before, qs) && a.reply == RR.Array(RepliesTo(cfg, before, qs))
  }

  /** What is left when command `k` throws: the effects of the `k` before it, and no answer to EXEC. */
  ghost predicate CutShort(cfg: Config, before: Shards, qs: seq<T.Command>, k: nat, a: T.Answer<Shards>) {
    && k < |qs| && !Performing(cfg, before, qs[..k]).halted && Throws(cfg, Performing(cfg, before, qs[..k]), qs[k])
    && a.conn.store == Performing(cfg, before, qs[..k]).(halted := true)
  }

  /**
    A transaction on the server's shards. `before` are the shards as commands from elsewhere left them when
    EXEC comes. If the transaction held only well-formed commands and no shard throws, EXEC performs exactly
    those commands in order and answers with their replies. If a shard throws, the effects of the commands
    before the one that threw stay and EXEC is not answered. If the transaction held anything else, it is
    refused and the shards are left alone.
   */
  lemma ExecOnShards(cfg: Config, c: T.Conn<Shards>, events: seq<T.Event>)
    requires c.tx == T.NO_TX && T.StaysOpen(events) && !Performing(cfg, c.store, T.Others(events)).halted
    ensures var before, qs := Performing(cfg, c.store, T.Others(events)), T.Sent(events);
      var a := T.Closed(ShardBackend(cfg), c, events, T.Exec);
      if !T.Clean(events) then a.reply == T.ErrorReply(T.ABORTED) && a.conn.store == before
      else if !a.conn.store.halted then Executed(cfg, before, qs, a)
      else exists k :: CutShort(cfg, before, qs, k, a)
  {
    var b, qs := ShardBackend(cfg), T.Sent(events);
    var before := Performing(cfg, c.store, T.Others(events));
    hide Performing, Perform, ShardBackend, RepliesTo, Throws, T.Sent, T.Others, T.Clean, T.StaysOpen;
    BackendPerformsAll(cfg, c.store, T.Others(events));
    T.TransactionIsAtomic(b, c, events, T.Conn(before, T.NO_TX, 0));
    T.IdleRunPerforms(b, T.Conn(before, T.NO_TX, 0), qs);
    BackendPerformsAll(cfg, before, qs);
    var k := FirstThrow(cfg, before, qs);
    var a := T.Closed(b, c, events, T.Exec);
    hide T.Closed;
    if k < |qs| && T.Clean(events) {
      assert CutShort(cfg, before, qs, k, a);
    }
  }
}
