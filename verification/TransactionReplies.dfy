/** What a RESP connection answers, byte for byte, said on the words of the request. */
module TransactionReplies {
  import opened Common
  import opened Decimal
  import opened RespReply
  import opened Transactions

  // ---------- Bytes ----------

  /** The bytes of every kind of reply. */
  lemma ReplyBytes(text: string, n: nat, elements: seq<Reply>)
    ensures Encode(Simple(text)) == "+" + text + "\r\n"
    ensures Encode(Failed(text)) == "-" + text + "\r\n"
    ensures Encode(Integer(n)) == ":" + Digits(n) + "\r\n"
    ensures Encode(BulkString(text)) == "$" + Digits(|text|) + "\r\n" + text + "\r\n"
    ensures Encode(Null) == "$-1\r\n"
    ensures Encode(Array(elements)) == "*" + Digits(|elements|) + "\r\n" + EncodeAll(elements)
  {
  }

  lemma FixedBytes()
    ensures Encode(Simple("OK")) == "+OK\r\n" && Encode(Simple("QUEUED")) == "+QUEUED\r\n"
    ensures Encode(Integer(0)) == ":0\r\n" && Encode(Integer(1)) == ":1\r\n"
  {
  }

  lemma RefusalBytes(message: string)
    ensures Encode(ErrorReply(message)) == "-ERR " + message + "\r\n"
  {
  }

  // ---------- A command performed ----------

  /** The store after a command performed at once, and the bytes it is answered with. */
  function Served<S>(b: Backend<S>, s: S, q: Command): (S, string) {
    match q
    case Get(key) =>
      (s, match b.lookup(s, key)
          case Some(v) => "$" + Digits(|v|) + "\r\n" + v + "\r\n"
          case None => "$-1\r\n")
    case Set(key, value) =>
      (b.insert(s, key, value).0,
       if b.insert(s, key, value).1 then "+OK\r\n" else "-ERR " + "ERROR: Internal error" + "\r\n")
    case Del(key) => (b.remove(s, key).0, if b.remove(s, key).1 then ":1\r\n" else ":0\r\n")
  }

  /** The same for commands one after the other, their answers one behind the other. */
  function ServedAll<S>(b: Backend<S>, s: S, qs: seq<Command>): (S, string) {
    if qs == [] then (s, [])
    else
      var (s', bytes) := ServedAll(b, s, qs[..|qs| - 1]);
      var (s'', more) := Served(b, s', qs[|qs| - 1]);
      (s'', bytes + more)
  }

  lemma PerformBytes<S>(b: Backend<S>, s: S, q: Command)
    ensures var (s', reply) := Perform(b, s, q);
      Served(b, s, q) == (s', Encode(reply))
  {
    hide Encode, ErrorReply;
    FixedBytes();
    RefusalBytes("ERROR: Internal error");
    if q.Get? && b.lookup(s, q.key).Some? {
      ReplyBytes(b.lookup(s, q.key).value, 0, []);
    } else {
      ReplyBytes("", 0, []);
    }
  }

  lemma {:induction false} EncodeAppends(rs: seq<Reply>, r: Reply)
    ensures EncodeAll(rs + [r]) == EncodeAll(rs) + Encode(r)
  {
    hide Encode;
    if rs == [] {
      assert [r][1..] == [];
    } else {
      EncodeAppends(rs[1..], r);
      assert (rs + [r])[1..] == rs[1..] + [r];
    }
  }

  lemma {:induction false} PerformAllBytes<S>(b: Backend<S>, s: S, qs: seq<Command>)
    ensures var (s', replies) := PerformAll(b, s, qs);
      ServedAll(b, s, qs) == (s', EncodeAll(replies))
  {
    hide Encode, Perform, Served;
    if qs != [] {
      var n := |qs| - 1;
      var (s', replies) := PerformAll(b, s, qs[..n]);
      PerformAllBytes(b, s, qs[..n]);
      PerformBytes(b, s', qs[n]);
      EncodeAppends(replies, Perform(b, s', qs[n]).1);
    }
  }

  // ---------- A request ----------

  /** The first of the request's words; a request that could not be parsed has none. */
  predicate Says(parts: Option<seq<CString>>, word: string) {
    parts.Some? && parts.value != [] && parts.value[0] == word
  }

  /** The command the words spell out, if they are one. */
  function Spelled(parts: Option<seq<CString>>): Option<Command> {
    if Says(parts, "GET") && |parts.value| == 2 then Some(Get(parts.value[1]))
    else if Says(parts, "SET") && |parts.value| == 3 then Some(Set(parts.value[1], parts.value[2]))
    else if Says(parts, "DEL") && |parts.value| == 2 then Some(Del(parts.value[1]))
    else None
  }

  /** The message for words that are neither a command nor a control request. */
  function Complaint(parts: Option<seq<CString>>): string {
    if parts.None? then "ERROR: Unable to parse request"
    else if Says(parts, "GET") || Says(parts, "SET") || Says(parts, "DEL") then "ERROR: Invalid command format"
    else "ERROR: Unknown command"
  }

  /** Refused: the store is left alone and one error is counted. */
  ghost predicate Refused<S>(c: Conn<S>, c': Conn<S>, tx: Tx, bytes: string, message: string) {
    c' == Conn(c.store, tx, c.numErrors + 1) && bytes == "-ERR " + message + "\r\n"
  }

  /** What a request does to the connection, and the bytes it is answered with. */
  ghost predicate Answered<S>(
      b: Backend<S>, c: Conn<S>, parts: Option<seq<CString>>, c': Conn<S>, bytes: string)
  {
    var tx := c.tx;
    if Says(parts, "MULTI") then
      if tx.active then Refused(c, c', Tx(true, true, tx.queue), bytes, "ERR MULTI calls can not be nested")
      else c' == Conn(c.store, Tx(true, false, []), c.numErrors) && bytes == "+OK\r\n"
    else if Says(parts, "DISCARD") then
      if !tx.active then Refused(c, c', tx, bytes, "ERR DISCARD without MULTI")
      else c' == Conn(c.store, Tx(false, false, []), c.numErrors) && bytes == "+OK\r\n"
    else if Says(parts, "EXEC") then
      if !tx.active then Refused(c, c', tx, bytes, "ERR EXEC without MULTI")
      else if tx.aborted then
        Refused(c, c', Tx(false, false, []), bytes, "EXECABORT Transaction discarded because of previous errors.")
      else
        var (s', all) := ServedAll(b, c.store, tx.queue);
        c' == Conn(s', Tx(false, false, []), c.numErrors) && bytes == "*" + Digits(|tx.queue|) + "\r\n" + all
    else
      match Spelled(parts)
      case Some(q) =>
        if tx.active then
          c' == Conn(c.store, Tx(true, tx.aborted, tx.queue + [q]), c.numErrors) && bytes == "+QUEUED\r\n"
        else
          c' == Conn(Served(b, c.store, q).0, tx, c.numErrors) && bytes == Served(b, c.store, q).1
      case None =>
        Refused(c, c', if tx.active then Tx(true, true, tx.queue) else tx, bytes, Complaint(parts))
  }

  lemma MeaningBySpelling(parts: Option<seq<CString>>)
    requires parts.Some? ==> 1 <= |parts.value| <= 3
    ensures Meaning(parts) ==
      if Says(parts, "MULTI") then Multi
      else if Says(parts, "DISCARD") then Discard
      else if Says(parts, "EXEC") then Exec
      else
        match Spelled(parts)
        case Some(q) => Store(q)
        case None => Wrong(Complaint(parts))
  {
  }

  lemma ExecBytes<S>(b: Backend<S>, s: S, qs: seq<Command>)
    ensures var (s', replies) := PerformAll(b, s, qs);
      && ServedAll(b, s, qs).0 == s'
      && Encode(Array(replies)) == "*" + Digits(|qs|) + "\r\n" + ServedAll(b, s, qs).1
  {
    hide Encode;
    PerformAllBytes(b, s, qs);
    ReplyBytes("", 0, PerformAll(b, s, qs).1);
  }

  /**
    Every request on every connection: what it changes and the bytes of its answer. MULTI and DISCARD answer
    OK, a queued command QUEUED, EXEC the answers of the queued commands. Whatever is refused leaves the store
    alone, counts one error and says why; inside a transaction a nested MULTI and a malformed request doom it.
   */
  lemma RequestAnswered<S>(b: Backend<S>, c: Conn<S>, parts: Option<seq<CString>>)
    requires parts.Some? ==> 1 <= |parts.value| <= 3
    ensures var a := Step(b, c, Meaning(parts));
      Answered(b, c, parts, a.conn, Encode(a.reply))
  {
    hide Encode, ErrorReply, Perform, PerformAll, Says, Spelled, Complaint, Served, ServedAll;
    MeaningBySpelling(parts);
    FixedBytes();
    RefusalBytes(NESTED);
    RefusalBytes(NO_MULTI_FOR_DISCARD);
    RefusalBytes(NO_MULTI_FOR_EXEC);
    RefusalBytes(ABORTED);
    RefusalBytes(Complaint(parts));
    ExecBytes(b, c.store, c.tx.queue);
    if Spelled(parts).Some? {
      PerformBytes(b, c.store, Spelled(parts).value);
    }
  }
}
