/** The client itself: its buffers, its pending queue and its cache of early responses. */
module CacheClient {
  import opened Common
  import opened Framing
  import opened ClientModel
  import opened ClientRuns
  import CustomProtocol
  import SendLoop
  import T = Transactions

  // ---------- What goes out ----------

  function CommandName(kind: Kind): string {
    match kind
    case Get => "GET "
    case Set => "SET "
    case Delete => "DEL "
  }

  function CommandText(kind: Kind, key: string, value: Option<string>): string {
    CommandName(kind) + key + (if value.Some? then [CustomProtocol.SPACE] + value.value else []) + [MSG_SEPARATOR]
  }

  /** Why a request is thrown back at the caller, if it is. */
  function Objection(key: string, value: Option<string>): Option<string> {
    if key == [] then Some("Key must not be empty")
    else if CustomProtocol.SPACE in key then Some("Keys containing spaces are not supported by the protocol")
    else if MSG_SEPARATOR in key then Some("Key contains protocol separator character")
    else if value.Some? && MSG_SEPARATOR in value.value then Some("Value contains protocol separator character")
    else None
  }

  function KindOf(q: T.Command): Kind {
    match q
    case Get(_) => Get
    case Set(_, _) => Set
    case Del(_) => Delete
  }

  function ValueOf(q: T.Command): Option<string> {
    if q.Set? then Some(q.value) else None
  }

  /** A command reaches the wire exactly when the server's custom path can read it, and in the form it reads. */
  lemma TextIsMessage(q: T.Command)
    ensures Objection(q.key, ValueOf(q)).None? <==> CustomProtocol.Accepted(q)
    ensures CommandText(KindOf(q), q.key, ValueOf(q)) == Wire(CustomMessage(CustomProtocol.Payload(q)))
  {
  }

  /** Bytes queued for the socket, of which the first `offset` are out already. */
  datatype Outbox = Outbox(buffer: string, offset: nat)

  function Unsent(o: Outbox): string
    requires o.offset <= |o.buffer|
  {
    o.buffer[o.offset..]
  }

  /** The outbox after a flush over a socket that behaves as scripted, and the bytes that went out. */
  function Flushed(o: Outbox, script: seq<SendLoop.Outcome>): (r: (Outbox, string))
    requires o.offset <= |o.buffer|
    ensures r.0.offset <= |r.0.buffer|
    ensures r.1 + Unsent(r.0) == Unsent(o)
  {
    var n := SendLoop.Delivered(script, 0, |Unsent(o)|);
    (if n == |Unsent(o)| then Outbox([], 0) else Outbox(o.buffer, o.offset + n), Unsent(o)[..n])
  }

  datatype SendOp = Append(text: string) | Flush(script: seq<SendLoop.Outcome>)

  datatype Sending = Sending(outbox: Outbox, wire: string)

  ghost function Sent(ops: seq<SendOp>): (s: Sending)
    ensures s.outbox.offset <= |s.outbox.buffer|
  {
    if ops == [] then Sending(Outbox([], 0), [])
    else
      var s := Sent(ops[..|ops| - 1]);
      match ops[|ops| - 1]
      case Append(text) => s.(outbox := Outbox(s.outbox.buffer + text, s.outbox.offset))
      case Flush(script) =>
        var (o, out) := Flushed(s.outbox, script);
        Sending(o, s.wire + out)
  }

  function Appended(ops: seq<SendOp>): string {
    if ops == [] then []
    else Appended(ops[..|ops| - 1]) + (if ops[|ops| - 1].Append? then ops[|ops| - 1].text else [])
  }

  /** Over every run of requests and flushes, also failed ones, no byte is lost, repeated or reordered. */
  lemma {:induction false} SendsInOrder(ops: seq<SendOp>)
    ensures Sent(ops).wire + Unsent(Sent(ops).outbox) == Appended(ops)
  {
    if ops != [] {
      var before, op := ops[..|ops| - 1], ops[|ops| - 1];
      SendsInOrder(before);
      var s, s' := Sent(before), Sent(ops);
      match op
      case Append(text) =>
        assert Unsent(s'.outbox) == Unsent(s.outbox) + text;
        Associates(s.wire, Unsent(s.outbox), text);
      case Flush(script) =>
        var (o, out) := Flushed(s.outbox, script);
        Associates(s.wire, out, Unsent(o));
    }
  }

  // ---------- The client ----------

  datatype EnqueueResult = Enqueued(id: nat) | InvalidArgument(message: string)

  /** Orphan: a reply arrived although nothing was asked. */
  datatype ParseResult = Parsed(response: Response) | NoMessage | Orphan

  class CacheClient {
    var pendingRequests: seq<Pending>
    var completedResponses: map<nat, Response>
    var sendBuffer: string
    var sendOffset: nat
    var receiveBuffer: string
    var nextRequestId: nat

    ghost predicate Valid()
      reads this
    {
      sendOffset <= |sendBuffer|
    }

    function Model(): Client
      reads this
    {
      Client(pendingRequests, completedResponses, receiveBuffer, nextRequestId)
    }

    function Out(): Outbox
      reads this
    {
      Outbox(sendBuffer, sendOffset)
    }

    constructor ()
      ensures Valid() && Model() == START.client && Out() == Outbox([], 0)
    {
      pendingRequests, completedResponses := [], map[];
      sendBuffer, sendOffset, receiveBuffer := [], 0, [];
      nextRequestId := 1;
    }

    method Enqueue(kind: Kind, key: string, value: Option<string>) returns (r: EnqueueResult)
      requires Valid()
      modifies this
      ensures Valid()
      ensures var objection := Objection(key, value);
        if objection.Some? then
          r == InvalidArgument(objection.value) && Model() == old(Model()) && Out() == old(Out())
        else
          && r == Enqueued(old(nextRequestId)) && Model() == Issue(old(Model()), kind)
          && Out() == Outbox(old(sendBuffer) + CommandText(kind, key, value), old(sendOffset))
    {
      var objection := Objection(key, value);
      if objection.Some? {
        return InvalidArgument(objection.value);
      }
      var id := nextRequestId;
      nextRequestId := nextRequestId + 1;
      pendingRequests := pendingRequests + [Pending(id, kind)];
      AppendCommand(kind, key, value);
      r := Enqueued(id);
    }

    method AppendCommand(kind: Kind, key: string, value: Option<string>)
      modifies `sendBuffer
      ensures sendBuffer == old(sendBuffer) + CommandText(kind, key, value)
    {
      ghost var before := sendBuffer;
      sendBuffer := sendBuffer + CommandName(kind);
      sendBuffer := sendBuffer + key;
      if value.Some? {
        sendBuffer := sendBuffer + [CustomProtocol.SPACE];
        sendBuffer := sendBuffer + value.value;
      }
      sendBuffer := sendBuffer + [MSG_SEPARATOR];
      assert sendBuffer == before + CommandText(kind, key, value);
    }

    /** `wire` is what went out; `done` is false when the socket failed or the script ended first. */
    method FlushPending(script: seq<SendLoop.Outcome>) returns (wire: string, done: bool)
      requires Valid()
      modifies `sendBuffer, `sendOffset
      ensures Valid() && (Out(), wire) == Flushed(old(Out()), script)
      ensures done <==> Unsent(Out()) == []
    {
      hide SendLoop.Delivered;
      ghost var start, required := sendOffset, |sendBuffer| - sendOffset;
      var calls := 0;
      wire := [];
      while sendOffset < |sendBuffer| && calls < |script| && !script[calls].Broken?
        invariant calls <= |script| && sendBuffer == old(sendBuffer) && start <= sendOffset <= |sendBuffer|
        invariant wire == sendBuffer[start..sendOffset]
        invariant sendOffset - start + SendLoop.Delivered(script, calls, |sendBuffer| - sendOffset)
               == SendLoop.Delivered(script, 0, required)
      {
        SendLoop.DeliveredStep(script, calls, |sendBuffer| - sendOffset);
        if script[calls].Took? {
          var sent := SendLoop.Taken(script[calls].n, |sendBuffer| - sendOffset);
          wire := wire + sendBuffer[sendOffset..sendOffset + sent];
          sendOffset := sendOffset + sent;
        }
        calls := calls + 1;
      }
      SendLoop.DeliveredStep(script, calls, |sendBuffer| - sendOffset);
      assert wire == old(Unsent(Out()))[..sendOffset - start];
      done := sendOffset == |sendBuffer|;
      if done {
        sendBuffer, sendOffset := [], 0;
      }
    }

    method TryParseResponse() returns (r: ParseResult)
      modifies `receiveBuffer, `pendingRequests
      ensures r.NoMessage? <==> FirstSeparator(old(receiveBuffer)) == |old(receiveBuffer)|
      ensures r.NoMessage? ==> Model() == old(Model())
      ensures r.Orphan? ==> old(pendingRequests) == [] && Model() == old(Model()).(
        receiveBuffer := old(receiveBuffer)[FirstSeparator(old(receiveBuffer)) + 1..])
      ensures r.Parsed? ==> old(pendingRequests) != [] && (Model(), r.response) == Answer(old(Model()))
    {
      var end := 0;
      while end < |receiveBuffer| && receiveBuffer[end] != MSG_SEPARATOR
        invariant end <= |receiveBuffer|
        invariant FirstSeparator(receiveBuffer) == end + FirstSeparator(receiveBuffer[end..])
      {
        assert receiveBuffer[end..][1..] == receiveBuffer[end + 1..];
        end := end + 1;
      }
      if end == |receiveBuffer| {
        return NoMessage;
      }
      var message := receiveBuffer[..end];
      receiveBuffer := receiveBuffer[end + 1..];
      if pendingRequests == [] {
        return Orphan;
      }
      var pending := pendingRequests[0];
      pendingRequests := pendingRequests[1..];
      r := Parsed(ResponseTo(pending, message));
    }

    method ReceiveResponse(script: seq<Recv>) returns (outcome: Outcome, read: string, rest: seq<Recv>)
      modifies `receiveBuffer, `pendingRequests
      ensures Turn(Model(), outcome, read, rest) == Receive(old(Model()), script)
    {
      read, rest := [], script;
      if pendingRequests == [] {
        return NoPending, read, rest;
      }
      ghost var goal := Receive(Model(), script);
      while true
        invariant pendingRequests != []
        invariant completedResponses == old(completedResponses) && nextRequestId == old(nextRequestId)
        invariant Resumed(Model(), rest, read) == goal
        decreases |rest|
      {
        var parsed := TryParseResponse();
        if parsed.Parsed? {
          assert read + [] == read;
          return Got(parsed.response), read, rest;
        }
        if rest == [] {
          assert read + [] == read;
          return Blocked, read, rest;
        }
        var received := rest[0];
        rest := rest[1..];
        match received {
          case Interrupted =>
          case Failed =>
            assert read + [] == read;
            return ConnectionFailed, read, rest;
          case Closed =>
            assert read + [] == read;
            return ConnectionClosed, read, rest;
          case Data(bytes) =>
            receiveBuffer := receiveBuffer + bytes;
            Associates(read, bytes, Receive(Model(), rest).read);
            read := read + bytes;
        }
      }
    }

    method WaitForResponse(id: nat, script: seq<Recv>) returns (outcome: Outcome, read: string, rest: seq<Recv>)
      modifies `receiveBuffer, `pendingRequests, `completedResponses
      ensures Turn(Model(), outcome, read, rest) == WaitFor(old(Model()), id, script)
    {
      var cached := PopCompleted(id);
      if cached.Some? {
        return Got(cached.value), [], script;
      }
      read, rest := [], script;
      ghost var goal := Await(Model(), id, script);
      assert [] + goal.read == goal.read;
      while true
        invariant nextRequestId == old(nextRequestId)
        invariant Continued(Model(), id, rest, read) == goal
        decreases |pendingRequests|
      {
        var more;
        outcome, more, rest := ReceiveResponse(rest);
        if !outcome.Got? || outcome.response.id == id {
          read := read + more;
          return;
        }
        if outcome.response.id !in completedResponses {
          completedResponses := completedResponses[outcome.response.id := outcome.response];
        }
        Associates(read, more, Await(Model(), id, rest).read);
        read := read + more;
      }
    }

    method PopCompleted(id: nat) returns (r: Option<Response>)
      modifies `completedResponses
      ensures r == if id in old(completedResponses) then Some(old(completedResponses)[id]) else None
      ensures completedResponses == if r.Some? then old(completedResponses) - {id} else old(completedResponses)
    {
      if id !in completedResponses {
        return None;
      }
      r := Some(completedResponses[id]);
      completedResponses := completedResponses - {id};
    }
  }

  /** Receiving goes on after `read` bytes. */
  ghost function Resumed(c: Client, rest: seq<Recv>, read: string): Turn {
    var t := Receive(c, rest);
    t.(read := read + t.read)
  }

  ghost function Continued(c: Client, id: nat, rest: seq<Recv>, read: string): Turn {
    var t := Await(c, id, rest);
    t.(read := read + t.read)
  }
}
