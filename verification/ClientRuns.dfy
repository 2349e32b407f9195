/** What holds over every run of the client. */
module ClientRuns {
  import opened Common
  import opened Framing
  import opened ClientModel

  // ---------- Finding the next reply ----------

  lemma {:induction false} JointSplits(replies: seq<string>, k: nat)
    requires k <= |replies|
    ensures Joint(replies) == Joint(replies[..k]) + Joint(replies[k..])
  {
    if k == 0 {
      assert replies[0..] == replies;
    } else {
      JointSplits(replies[1..], k - 1);
      assert replies[..k][1..] == replies[1..][..k - 1];
      assert replies[1..][k - 1..] == replies[k..];
    }
  }

  lemma JointGrows(replies: seq<string>, k: nat)
    requires k < |replies|
    ensures Joint(replies[..k + 1]) == Joint(replies[..k]) + (replies[k] + [MSG_SEPARATOR])
  {
    var first := replies[..k + 1];
    JointSplits(first, k);
    assert first[..k] == replies[..k] && first[k..] == [replies[k]];
    assert Joint([replies[k]]) == replies[k] + [MSG_SEPARATOR] + Joint([]);
  }

  lemma PrefixBehind(a: string, b: string, c: string)
    requires a + b <= a + c
    ensures b <= c
  {
    assert b == (a + b)[|a|..] && c == (a + c)[|a|..];
    assert (a + c)[..|a + b|] == a + b;
    assert (a + c)[..|a + b|][|a|..] == c[..|b|];
  }

  lemma FirstInBuffer(buffer: string, m: string, more: string)
    requires MSG_SEPARATOR !in m && buffer <= m + [MSG_SEPARATOR] + more && FirstSeparator(buffer) < |buffer|
    ensures FirstSeparator(buffer) == |m|
  {
    var s := m + [MSG_SEPARATOR] + more;
    assert s[FirstSeparator(buffer)] == MSG_SEPARATOR && s[|m|] == MSG_SEPARATOR;
    assert forall i :: 0 <= i < |m| ==> s[i] == m[i] && m[i] in m;
  }

  lemma PrefixPastSeparator(buffer: string, m: string, more: string)
    requires buffer <= m + [MSG_SEPARATOR] + more && |m| < |buffer|
    ensures buffer[..|m|] == m && buffer == m + [MSG_SEPARATOR] + buffer[|m| + 1..]
  {
    var s := m + [MSG_SEPARATOR] + more;
    assert buffer == s[..|buffer|] && s[..|m|] == m && s[|m|] == MSG_SEPARATOR;
  }

  lemma Regroup(a: string, m: string, rest: string)
    ensures a + (m + [MSG_SEPARATOR]) + rest == a + (m + [MSG_SEPARATOR] + rest)
  {
  }

  /** Behind the first `k` replies, what stands before the next separator is the next reply. */
  lemma NextReply(replies: seq<string>, k: nat, buffer: string)
    requires Separable(replies) && k <= |replies|
    requires Joint(replies[..k]) + buffer <= Joint(replies) && FirstSeparator(buffer) < |buffer|
    ensures var n := FirstSeparator(buffer);
      && k < |replies| && buffer[..n] == replies[k]
      && Joint(replies[..k + 1]) + buffer[n + 1..] == Joint(replies[..k]) + buffer
  {
    JointSplits(replies, k);
    var before, after := Joint(replies[..k]), Joint(replies[k..]);
    PrefixBehind(before, buffer, after);
    assert after != [];
    FirstInBuffer(buffer, replies[k], Joint(replies[k..][1..]));
    PrefixPastSeparator(buffer, replies[k], Joint(replies[k..][1..]));
    JointGrows(replies, k);
    Regroup(before, replies[k], buffer[FirstSeparator(buffer) + 1..]);
  }

  // ---------- Receiving ----------

  lemma AnswerStaysInOrder(c: Client, issued: seq<Pending>, replies: seq<string>, received: string, k: nat, n: nat)
    requires InOrder(c, issued, replies, received, k) && k < |issued| && k < |replies| && n < |c.receiveBuffer|
    requires Joint(replies[..k + 1]) + c.receiveBuffer[n + 1..] == Joint(replies[..k]) + c.receiveBuffer
    ensures InOrder(c.(pending := c.pending[1..], receiveBuffer := c.receiveBuffer[n + 1..]),
      issued, replies, received, k + 1)
  {
    assert issued[k..][1..] == issued[k + 1..];
  }

  lemma AnswerIsNext(c: Client, issued: seq<Pending>, replies: seq<string>, received: string, k: nat)
    requires Separable(replies) && InOrder(c, issued, replies, received, k) && received <= Joint(replies)
    requires c.pending != [] && FirstSeparator(c.receiveBuffer) < |c.receiveBuffer|
    ensures k < |issued| && k < |replies| && Answer(c).1 == ResponseTo(issued[k], replies[k])
  {
    NextReply(replies, k, c.receiveBuffer);
    assert c.pending[0] == issued[k];
  }

  lemma AnswerTakesNext(c: Client, issued: seq<Pending>, replies: seq<string>, received: string, k: nat)
    requires Separable(replies) && InOrder(c, issued, replies, received, k) && received <= Joint(replies)
    requires c.pending != [] && FirstSeparator(c.receiveBuffer) < |c.receiveBuffer|
    ensures k < |issued| && InOrder(Answer(c).0, issued, replies, received, k + 1)
    ensures Answer(c).0.completed == c.completed
  {
    NextReply(replies, k, c.receiveBuffer);
    AnswerStaysInOrder(c, issued, replies, received, k, FirstSeparator(c.receiveBuffer));
  }

  lemma ChunkStaysInOrder(
      c: Client, issued: seq<Pending>, replies: seq<string>, received: string, k: nat, bytes: string)
    requires InOrder(c, issued, replies, received, k)
    ensures InOrder(c.(receiveBuffer := c.receiveBuffer + bytes), issued, replies, received + bytes, k)
  {
    Associates(Joint(replies[..k]), c.receiveBuffer, bytes);
  }

  lemma {:induction false} ReceiveTakesNext(
      c: Client, issued: seq<Pending>, replies: seq<string>, received: string, k: nat, script: seq<Recv>)
    requires Separable(replies) && InOrder(c, issued, replies, received, k)
    requires received + Receive(c, script).read <= Joint(replies)
    ensures var t := Receive(c, script);
      && t.client.completed == c.completed
      && if t.outcome.Got? then
           && k < |issued| && k < |replies| && t.outcome.response == ResponseTo(issued[k], replies[k])
           && InOrder(t.client, issued, replies, received + t.read, k + 1)
         else InOrder(t.client, issued, replies, received + t.read, k)
    decreases |script|
  {
    var t := Receive(c, script);
    if c.pending == [] {
      assert received + [] == received;
    } else if FirstSeparator(c.receiveBuffer) < |c.receiveBuffer| {
      assert received + [] == received;
      AnswerIsNext(c, issued, replies, received, k);
      AnswerTakesNext(c, issued, replies, received, k);
    } else if script == [] {
      assert received + [] == received;
    } else {
      match script[0]
      case Interrupted => ReceiveTakesNext(c, issued, replies, received, k, script[1..]);
      case Data(bytes) =>
        var c' := c.(receiveBuffer := c.receiveBuffer + bytes);
        var t' := Receive(c', script[1..]);
        Associates(received, bytes, t'.read);
        ChunkStaysInOrder(c, issued, replies, received, k, bytes);
        ReceiveTakesNext(c', issued, replies, received + bytes, k, script[1..]);
      case _ =>
        assert received + [] == received;
    }
  }

  // ---------- Sharing out the answered ids ----------

  lemma HandedGrows(delivered: seq<Response>, r: Response, id: nat)
    ensures Handed(delivered + [r], id) <==> Handed(delivered, id) || r.id == id
  {
    var all := delivered + [r];
    if Handed(delivered, id) {
      var i :| 0 <= i < |delivered| && delivered[i].id == id;
      assert all[i].id == id;
    }
    assert all[|delivered|] == r;
  }

  lemma SharedDelivers(
      completed: map<nat, Response>, delivered: seq<Response>, issued: seq<Pending>, replies: seq<string>, k: nat,
      r: Response)
    requires Shared(completed, delivered, issued, replies, k)
    requires r.id == k + 1 && Right(r, issued, replies, k + 1)
    ensures Shared(completed, delivered + [r], issued, replies, k + 1)
  {
    hide ResponseTo;
    forall id: nat | 1 <= id <= k + 1 ensures id in completed || Handed(delivered + [r], id) {
      HandedGrows(delivered, r, id);
    }
  }

  lemma SharedCaches(
      completed: map<nat, Response>, delivered: seq<Response>, issued: seq<Pending>, replies: seq<string>, k: nat,
      r: Response)
    requires Shared(completed, delivered, issued, replies, k)
    requires r.id == k + 1 && Right(r, issued, replies, k + 1)
    ensures r.id !in completed && Shared(completed[r.id := r], delivered, issued, replies, k + 1)
  {
  }

  lemma SharedPops(
      completed: map<nat, Response>, delivered: seq<Response>, issued: seq<Pending>, replies: seq<string>, k: nat,
      id: nat)
    requires Shared(completed, delivered, issued, replies, k) && id in completed
    ensures Shared(completed - {id}, delivered + [completed[id]], issued, replies, k)
  {
    var r := completed[id];
    forall i: nat | 1 <= i <= k ensures i in completed - {id} || Handed(delivered + [r], i) {
      HandedGrows(delivered, r, i);
    }
  }

  // ---------- Operations keep the ledger ----------

  /** What a turn makes of the world. */
  function After(w: World, t: Turn): World {
    World(t.client, w.issued, w.received + t.read,
      if t.outcome.Got? then w.delivered + [t.outcome.response] else w.delivered)
  }

  lemma DeliveryKeepsLedger(
      c: Client, issued: seq<Pending>, replies: seq<string>, received: string, delivered: seq<Response>, k: nat,
      r: Response)
    requires InOrder(c, issued, replies, received, k + 1) && Shared(c.completed, delivered, issued, replies, k)
    requires r.id == k + 1 && Right(r, issued, replies, k + 1)
    ensures Ledger(World(c, issued, received, delivered + [r]), replies)
    ensures Ledger(World(Cached(c, r), issued, received, delivered), replies)
  {
    hide Shared, Right, Joint;
    SharedDelivers(c.completed, delivered, issued, replies, k, r);
    SharedCaches(c.completed, delivered, issued, replies, k, r);
  }

  lemma ReceiveKeepsLedger(w: World, replies: seq<string>, script: seq<Recv>)
    requires Separable(replies) && Ledger(w, replies)
    requires After(w, Receive(w.client, script)).received <= Joint(replies)
    ensures var t := Receive(w.client, script);
      && Ledger(After(w, t), replies)
      && (t.outcome.Got? ==>
            Ledger(w.(client := Cached(t.client, t.outcome.response), received := w.received + t.read), replies))
  {
    var k := |w.issued| - |w.client.pending|;
    var t := Receive(w.client, script);
    ReceiveTakesNext(w.client, w.issued, replies, w.received, k, script);
    if t.outcome.Got? {
      DeliveryKeepsLedger(t.client, w.issued, replies, w.received + t.read, w.delivered, k, t.outcome.response);
    }
  }

  lemma {:induction false} AwaitKeepsLedger(w: World, replies: seq<string>, id: nat, script: seq<Recv>)
    requires Separable(replies) && Ledger(w, replies)
    requires After(w, Await(w.client, id, script)).received <= Joint(replies)
    ensures Ledger(After(w, Await(w.client, id, script)), replies)
    decreases |w.client.pending|
  {
    var t := Receive(w.client, script);
    if !t.outcome.Got? || t.outcome.response.id == id {
      ReceiveKeepsLedger(w, replies, script);
    } else {
      var w' := w.(client := Cached(t.client, t.outcome.response), received := w.received + t.read);
      var t' := Await(w'.client, id, t.rest);
      Associates(w.received, t.read, t'.read);
      ReceiveKeepsLedger(w, replies, script);
      AwaitKeepsLedger(w', replies, id, t.rest);
    }
  }

  lemma WaitKeepsLedger(w: World, replies: seq<string>, id: nat, script: seq<Recv>)
    requires Separable(replies) && Ledger(w, replies)
    requires After(w, WaitFor(w.client, id, script)).received <= Joint(replies)
    ensures Ledger(After(w, WaitFor(w.client, id, script)), replies)
  {
    hide Shared, Joint, Await, Separable;
    if id in w.client.completed {
      assert w.received + [] == w.received;
      SharedPops(w.client.completed, w.delivered, w.issued, replies, |w.issued| - |w.client.pending|, id);
    } else {
      AwaitKeepsLedger(w, replies, id, script);
    }
  }

  function Issue(c: Client, kind: Kind): Client {
    c.(pending := c.pending + [Pending(c.nextId, kind)], nextId := c.nextId + 1)
  }

  function Issued(w: World, kind: Kind): World {
    w.(client := Issue(w.client, kind), issued := w.issued + [Pending(w.client.nextId, kind)])
  }

  lemma IssueKeepsLedger(w: World, replies: seq<string>, kind: Kind)
    requires Ledger(w, replies)
    ensures Ledger(Issued(w, kind), replies)
  {
  }

  // ---------- Runs ----------

  datatype Op = Enqueue(kind: Kind) | ReceiveNext(script: seq<Recv>) | Wait(id: nat, script: seq<Recv>)

  function Step(w: World, op: Op): World {
    match op
    case Enqueue(kind) => Issued(w, kind)
    case ReceiveNext(script) => After(w, Receive(w.client, script))
    case Wait(id, script) => After(w, WaitFor(w.client, id, script))
  }

  const START := World(Client([], map[], [], 1), [], [], [])

  function Run(ops: seq<Op>): World {
    if ops == [] then START else Step(Run(ops[..|ops| - 1]), ops[|ops| - 1])
  }

  lemma StepKeepsLedger(w: World, replies: seq<string>, op: Op)
    requires Separable(replies) && Ledger(w, replies) && Step(w, op).received <= Joint(replies)
    ensures Ledger(Step(w, op), replies)
  {
    match op
    case Enqueue(kind) => IssueKeepsLedger(w, replies, kind);
    case ReceiveNext(script) => ReceiveKeepsLedger(w, replies, script);
    case Wait(id, script) => WaitKeepsLedger(w, replies, id, script);
  }

  /**
    However the reply stream is cut and in whatever order the caller waits, the i-th reply belongs to the
    i-th request; pending, cached and delivered ids share out the issued ids, and none is delivered twice.
   */
  lemma {:induction false} RunKeepsLedger(ops: seq<Op>, replies: seq<string>)
    requires Separable(replies) && Run(ops).received <= Joint(replies)
    ensures Ledger(Run(ops), replies)
  {
    if ops != [] {
      var w, op := Run(ops[..|ops| - 1]), ops[|ops| - 1];
      if !op.Enqueue? {
        var t := if op.Wait? then WaitFor(w.client, op.id, op.script) else Receive(w.client, op.script);
        PrefixOfPrefix(w.received, t.read, Joint(replies));
      }
      RunKeepsLedger(ops[..|ops| - 1], replies);
      StepKeepsLedger(w, replies, op);
    }
  }

  // ---------- Waiting ends ----------

  /** What the script's chunks hold together. */
  function AllBytes(script: seq<Recv>): string {
    if script == [] then []
    else (if script[0].Data? then script[0].bytes else []) + AllBytes(script[1..])
  }

  predicate Reliable(script: seq<Recv>) {
    forall i :: 0 <= i < |script| ==> script[i].Data? || script[i].Interrupted?
  }

  lemma BufferHolds(replies: seq<string>, k: nat, buffer: string)
    requires k < |replies| && Joint(replies[..k]) + buffer <= Joint(replies)
    requires |Joint(replies[..k + 1])| <= |Joint(replies[..k])| + |buffer|
    ensures FirstSeparator(buffer) < |buffer|
  {
    JointSplits(replies, k);
    JointGrows(replies, k);
    PrefixBehind(Joint(replies[..k]), buffer, Joint(replies[k..]));
    assert Joint(replies[k..])[|replies[k]|] == MSG_SEPARATOR;
    assert buffer[|replies[k]|] == MSG_SEPARATOR;
  }

  /** Once the next reply is in the buffer or on its way, it is received, and no byte of what follows is lost. */
  lemma {:induction false} ReceiveGets(
      c: Client, issued: seq<Pending>, replies: seq<string>, received: string, k: nat, script: seq<Recv>)
    requires InOrder(c, issued, replies, received, k) && c.pending != [] && Reliable(script)
    requires received + AllBytes(script) <= Joint(replies) && k < |replies|
    requires |Joint(replies[..k + 1])| <= |received| + |AllBytes(script)|
    ensures var t := Receive(c, script);
      t.outcome.Got? && Reliable(t.rest) && t.read + AllBytes(t.rest) == AllBytes(script)
    decreases |script|
  {
    if FirstSeparator(c.receiveBuffer) < |c.receiveBuffer| {
    } else if script == [] {
      assert received + [] == received;
      BufferHolds(replies, k, c.receiveBuffer);
    } else if script[0].Interrupted? {
      assert AllBytes(script) == AllBytes(script[1..]);
      ReceiveGets(c, issued, replies, received, k, script[1..]);
    } else {
      var bytes := script[0].bytes;
      var c' := c.(receiveBuffer := c.receiveBuffer + bytes);
      ChunkStaysInOrder(c, issued, replies, received, k, bytes);
      Associates(received, bytes, AllBytes(script[1..]));
      ReceiveGets(c', issued, replies, received + bytes, k, script[1..]);
      var t := Receive(c', script[1..]);
      Associates(bytes, t.read, AllBytes(t.rest));
    }
  }

  lemma {:induction false} JointMonotone(replies: seq<string>, i: nat, j: nat)
    requires i <= j <= |replies|
    ensures |Joint(replies[..i])| <= |Joint(replies[..j])|
  {
    JointSplits(replies[..j], i);
    assert replies[..j][..i] == replies[..i];
  }

  lemma {:induction false} AwaitGets(
      c: Client, issued: seq<Pending>, replies: seq<string>, received: string, k: nat, id: nat, script: seq<Recv>)
    requires Separable(replies) && InOrder(c, issued, replies, received, k) && Reliable(script)
    requires k < id <= |issued| && id <= |replies|
    requires received + AllBytes(script) <= Joint(replies)
    requires |Joint(replies[..id])| <= |received| + |AllBytes(script)|
    ensures Await(c, id, script).outcome == Got(ResponseTo(issued[id - 1], replies[id - 1]))
    decreases |c.pending|
  {
    var t := Receive(c, script);
    JointMonotone(replies, k + 1, id);
    ReceiveGets(c, issued, replies, received, k, script);
    Associates(received, t.read, AllBytes(t.rest));
    PrefixOfPrefix(received + t.read, AllBytes(t.rest), Joint(replies));
    ReceiveTakesNext(c, issued, replies, received, k, script);
    if id != k + 1 {
      AwaitGets(Cached(t.client, t.outcome.response), issued, replies, received + t.read, k + 1, id, t.rest);
    }
  }

  /**
    Waiting for a request that has not been handed its response yet ends with the right one, as soon as
    its reply is cached, in the buffer or on its way.
   */
  lemma WaitForGets(w: World, replies: seq<string>, id: nat, script: seq<Recv>)
    requires Separable(replies) && Ledger(w, replies) && Reliable(script)
    requires 1 <= id <= |w.issued| && id <= |replies| && !Handed(w.delivered, id)
    requires w.received + AllBytes(script) <= Joint(replies)
    requires |Joint(replies[..id])| <= |w.received| + |AllBytes(script)|
    ensures WaitFor(w.client, id, script).outcome == Got(ResponseTo(w.issued[id - 1], replies[id - 1]))
  {
    if id !in w.client.completed {
      AwaitGets(w.client, w.issued, replies, w.received, |w.issued| - |w.client.pending|, id, script);
    }
  }

  lemma DeliveredOnce(w: World, replies: seq<string>, before: seq<Response>, r: Response)
    requires Ledger(w, replies) && w.delivered == before + [r]
    ensures 1 <= r.id <= |w.issued| && !Handed(before, r.id)
  {
    assert w.delivered[|before|] == r;
    forall i | 0 <= i < |before| ensures before[i].id != r.id {
      assert w.delivered[i] == before[i];
    }
  }

  /** A request that was handed its response, or was never issued, never gets another. */
  lemma WaitForNoMore(w: World, replies: seq<string>, id: nat, script: seq<Recv>)
    requires Separable(replies) && Ledger(w, replies)
    requires id == 0 || id > |w.issued| || Handed(w.delivered, id)
    requires After(w, WaitFor(w.client, id, script)).received <= Joint(replies)
    ensures !WaitFor(w.client, id, script).outcome.Got?
  {
    var t := WaitFor(w.client, id, script);
    if t.outcome.Got? {
      WaitKeepsLedger(w, replies, id, script);
      DeliveredOnce(After(w, t), replies, w.delivered, t.outcome.response);
      assert false;
    }
  }
}
