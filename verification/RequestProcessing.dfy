/** The RESP half of `processRequestSync`, over the transaction object it keeps for a connection. */
module RequestProcessing {
  import opened Common
  import opened RespReply
  import opened Transactions
  import R = TransactionReplies

  class RespTransactionState {
    var active: bool
    var aborted: bool
    var queue: seq<Command>

    constructor ()
      ensures Model() == NO_TX
    {
      active, aborted, queue := false, false, [];
    }

    function Model(): Tx
      reads this
    {
      Tx(active, aborted, queue)
    }

    method ClearQueue()
      modifies `queue
      ensures queue == []
    {
      queue := [];
    }

    /** Every way out of a transaction. */
    method Finish()
      modifies this
      ensures Model() == NO_TX
    {
      ClearQueue();
      active, aborted := false, false;
    }
  }

  class RespHandler<S(0)> {
    const backend: Backend<S>
    var store: S
    var respTransaction: RespTransactionState?
    var numErrors: nat

    constructor (backend: Backend<S>, store: S)
      ensures this.backend == backend && Model() == Conn(store, NO_TX, 0)
      ensures respTransaction == null
    {
      this.backend, this.store := backend, store;
      respTransaction, numErrors := null, 0;
    }

    function TxModel(): Tx
      reads this, respTransaction
    {
      if respTransaction == null then NO_TX else respTransaction.Model()
    }

    function Model(): Conn<S>
      reads this, respTransaction
    {
      Conn(store, TxModel(), numErrors)
    }

    method Execute(q: Command) returns (reply: Reply)
      modifies `store
      ensures (store, reply) == Perform(backend, old(store), q)
    {
      match q {
        case Get(key) =>
          var found := backend.lookup(store, key);
          if found.Some? {
            reply := BulkString(found.value);
          } else {
            reply := Null;
          }
        case Set(key, value) =>
          var (s', ok) := backend.insert(store, key, value);
          store := s';
          if ok {
            reply := Simple("OK");
          } else {
            reply := ErrorReply("ERROR: Internal error");
          }
        case Del(key) =>
          var (s', found) := backend.remove(store, key);
          store := s';
          if found {
            reply := Integer(1);
          } else {
            reply := Integer(0);
          }
      }
    }

    method Fail(message: string) returns (reply: Reply)
      modifies `numErrors
      ensures numErrors == old(numErrors) + 1 && reply == ErrorReply(message)
    {
      numErrors := numErrors + 1;
      reply := ErrorReply(message);
    }

    method MarkError()
      modifies respTransaction
      ensures TxModel() == Doomed(old(TxModel()))
    {
      if respTransaction != null && respTransaction.active {
        respTransaction.aborted := true;
      }
    }

    method Begin() returns (reply: Reply)
      modifies this, respTransaction
      ensures respTransaction == old(respTransaction) || fresh(respTransaction)
      ensures Answer(Model(), reply) == Step(backend, old(Model()), Multi)
    {
      if respTransaction == null {
        respTransaction := new RespTransactionState();
      }
      if respTransaction.active {
        MarkError();
        reply := Fail(NESTED);
        return;
      }
      respTransaction.ClearQueue();
      respTransaction.active, respTransaction.aborted := true, false;
      reply := Simple("OK");
    }

    method Abandon() returns (reply: Reply)
      modifies this, respTransaction
      ensures respTransaction == old(respTransaction)
      ensures Answer(Model(), reply) == Step(backend, old(Model()), Discard)
    {
      if respTransaction == null || !respTransaction.active {
        reply := Fail(NO_MULTI_FOR_DISCARD);
        return;
      }
      respTransaction.Finish();
      reply := Simple("OK");
    }

    method ExecuteAll(queue: seq<Command>) returns (results: seq<Reply>)
      modifies `store
      ensures (store, results) == PerformAll(backend, old(store), queue)
    {
      results := [];
      assert queue[..0] == [];
      for i := 0 to |queue|
        invariant (store, results) == PerformAll(backend, old(store), queue[..i])
      {
        var result := Execute(queue[i]);
        PerformOneMore(backend, old(store), queue[..i], queue[i]);
        assert queue[..i + 1] == queue[..i] + [queue[i]];
        results := results + [result];
      }
      assert queue[..|queue|] == queue;
    }

    method Commit() returns (reply: Reply)
      modifies this, respTransaction
      ensures respTransaction == old(respTransaction)
      ensures Answer(Model(), reply) == Step(backend, old(Model()), Exec)
    {
      if respTransaction == null || !respTransaction.active {
        reply := Fail(NO_MULTI_FOR_EXEC);
        return;
      }
      if respTransaction.aborted {
        respTransaction.Finish();
        reply := Fail(ABORTED);
        return;
      }
      var results := ExecuteAll(respTransaction.queue);
      respTransaction.Finish();
      reply := Array(results);
    }

    method QueueOrExecute(q: Command) returns (reply: Reply)
      modifies this, respTransaction
      ensures respTransaction == old(respTransaction)
      ensures Answer(Model(), reply) == Step(backend, old(Model()), Store(q))
    {
      if respTransaction != null && respTransaction.active {
        respTransaction.queue := respTransaction.queue + [q];
        reply := Simple("QUEUED");
        return;
      }
      reply := Execute(q);
    }

    method Process(parts: Option<seq<CString>>) returns (reply: Reply)
      requires parts.Some? ==> 1 <= |parts.value| <= 3
      modifies this, respTransaction
      ensures respTransaction == old(respTransaction) || fresh(respTransaction)
      ensures Answer(Model(), reply) == Step(backend, old(Model()), Meaning(parts))
      ensures R.Answered(backend, old(Model()), parts, Model(), Encode(reply))
    {
      hide R.Answered, Meaning, Encode;
      R.RequestAnswered(backend, Model(), parts);
      match Meaning(parts) {
        case Multi => reply := Begin();
        case Discard => reply := Abandon();
        case Exec => reply := Commit();
        case Store(q) => reply := QueueOrExecute(q);
        case Wrong(message) =>
          MarkError();
          reply := Fail(message);
      }
    }
  }
}
