/** The pipelining client: which reply goes to which request, over any chunks and any order of waiting. */
module ClientModel {
  import opened Framing

  datatype Kind = Get | Set | Delete

  datatype ResultCode = Ok | NotFound | Error

  datatype Pending = Pending(id: nat, kind: Kind)

  datatype Response = Response(id: nat, kind: Kind, result: ResultCode, value: string, errorMessage: string)

  const ERROR_MARK := "ERROR:"
  const NOTHING := "(nil)"
  const KEY_NOT_EXISTS := "ERROR: Key does not exist"

  function Interpret(kind: Kind, message: string): ResultCode {
    if ERROR_MARK <= message then
      if kind == Delete && message == KEY_NOT_EXISTS then NotFound else Error
    else if kind == Get && message == NOTHING then NotFound
    else Ok
  }

  function ResponseTo(p: Pending, message: string): Response {
    var result := Interpret(p.kind, message);
    Response(p.id, p.kind, result,
      if result == Ok && p.kind == Get then message else [],
      if result == Error then message else [])
  }

  /**
    What a caller is handed for a message: an error text exactly when the message begins with "ERROR:" and is
    not the answer to a delete of a missing key, a value exactly for any other answer to a get but "(nil)".
   */
  lemma ResponseFields(p: Pending, message: string)
    ensures var r := ResponseTo(p, message);
      var bad := "ERROR:" <= message;
      var missing := p.kind == Delete && message == "ERROR: Key does not exist";
      var nothing := p.kind == Get && message == "(nil)";
      && r.id == p.id && r.kind == p.kind
      && (r.result == Error <==> bad && !missing) && (r.result == NotFound <==> missing || nothing)
      && r.errorMessage == (if bad && !missing then message else "")
      && r.value == (if p.kind == Get && !bad && !nothing then message else "")
  {
    assert "ERROR: Key does not exist"[..6] == "ERROR:";
    assert "(nil)"[0] != "ERROR:"[0];
  }

  // ---------- Receiving ----------

  datatype Client = Client(
    pending: seq<Pending>,
    completed: map<nat, Response>,
    receiveBuffer: string,
    nextId: nat)

  /** What one `recv` does. */
  datatype Recv = Data(bytes: string) | Interrupted | Failed | Closed

  /** How a call ends; Blocked when the socket has nothing more to say yet. */
  datatype Outcome = Got(response: Response) | NoPending | ConnectionFailed | ConnectionClosed | Blocked

  /** The client afterwards, the bytes it read, and what is left of the script. */
  datatype Turn = Turn(client: Client, outcome: Outcome, read: string, rest: seq<Recv>)

  function Answer(c: Client): (Client, Response)
    requires c.pending != [] && FirstSeparator(c.receiveBuffer) < |c.receiveBuffer|
  {
    var n := FirstSeparator(c.receiveBuffer);
    (c.(pending := c.pending[1..], receiveBuffer := c.receiveBuffer[n + 1..]),
     ResponseTo(c.pending[0], c.receiveBuffer[..n]))
  }

  function Receive(c: Client, script: seq<Recv>): (t: Turn)
    ensures |t.rest| <= |script|
    ensures t.outcome.Got? ==> |t.client.pending| < |c.pending|
    decreases |script|
  {
    if c.pending == [] then Turn(c, NoPending, [], script)
    else if FirstSeparator(c.receiveBuffer) < |c.receiveBuffer| then
      var (c', response) := Answer(c);
      Turn(c', Got(response), [], script)
    else if script == [] then Turn(c, Blocked, [], script)
    else
      match script[0]
      case Interrupted => Receive(c, script[1..])
      case Failed => Turn(c, ConnectionFailed, [], script[1..])
      case Closed => Turn(c, ConnectionClosed, [], script[1..])
      case Data(bytes) =>
        var t := Receive(c.(receiveBuffer := c.receiveBuffer + bytes), script[1..]);
        t.(read := bytes + t.read)
  }

  function Cached(c: Client, r: Response): Client {
    c.(completed := if r.id in c.completed then c.completed else c.completed[r.id := r])
  }

  function WaitFor(c: Client, id: nat, script: seq<Recv>): Turn {
    if id in c.completed then
      Turn(c.(completed := c.completed - {id}), Got(c.completed[id]), [], script)
    else Await(c, id, script)
  }

  /** Every round takes one request off the pending queue. */
  function Await(c: Client, id: nat, script: seq<Recv>): (t: Turn)
    ensures t.outcome.Got? ==> t.outcome.response.id == id
    decreases |c.pending|
  {
    var t := Receive(c, script);
    if !t.outcome.Got? || t.outcome.response.id == id then t
    else
      var t' := Await(Cached(t.client, t.outcome.response), id, t.rest);
      t'.(read := t.read + t'.read)
  }

  // ---------- The ledger ----------

  /** The bytes that carry the replies. */
  function Joint(replies: seq<string>): string {
    if replies == [] then [] else replies[0] + [MSG_SEPARATOR] + Joint(replies[1..])
  }

  ghost predicate Separable(replies: seq<string>) {
    forall i :: 0 <= i < |replies| ==> MSG_SEPARATOR !in replies[i]
  }

  /** The requests issued, the bytes received and the responses handed out since the client connected. */
  datatype World = World(client: Client, issued: seq<Pending>, received: string, delivered: seq<Response>)

  /** Ids count up from 1; the first `k` requests were answered and consumed exactly the first `k` replies. */
  ghost predicate InOrder(c: Client, issued: seq<Pending>, replies: seq<string>, received: string, k: nat) {
    && c.nextId == |issued| + 1 && (forall i :: 0 <= i < |issued| ==> issued[i].id == i + 1)
    && k <= |issued| && k <= |replies| && c.pending == issued[k..]
    && Joint(replies[..k]) + c.receiveBuffer == received
  }

  /** The response the i-th request should get. */
  ghost predicate Right(r: Response, issued: seq<Pending>, replies: seq<string>, k: nat) {
    && 1 <= r.id <= k <= |issued| && k <= |replies|
    && r == ResponseTo(issued[r.id - 1], replies[r.id - 1])
  }

  ghost predicate Handed(delivered: seq<Response>, id: nat) {
    exists i :: 0 <= i < |delivered| && delivered[i].id == id
  }

  /** Cached and delivered responses are the right ones, and share the first `k` ids out between them, each once. */
  ghost predicate Shared(
      completed: map<nat, Response>, delivered: seq<Response>, issued: seq<Pending>, replies: seq<string>, k: nat) {
    && (forall id :: id in completed ==> completed[id].id == id && Right(completed[id], issued, replies, k))
    && (forall i :: 0 <= i < |delivered| ==> Right(delivered[i], issued, replies, k))
    && (forall i, j :: 0 <= i < j < |delivered| ==> delivered[i].id != delivered[j].id)
    && (forall i :: 0 <= i < |delivered| ==> delivered[i].id !in completed)
    && (forall id :: 1 <= id <= k ==> id in completed || Handed(delivered, id))
  }

  ghost predicate Ledger(w: World, replies: seq<string>) {
    var k := |w.issued| - |w.client.pending|;
    && 0 <= k
    && InOrder(w.client, w.issued, replies, w.received, k)
    && Shared(w.client.completed, w.delivered, w.issued, replies, k)
  }
}
