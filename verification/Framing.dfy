/** Cutting the bytes a connection receives into requests, over any number of read passes. */
module Framing {
  import opened RespRequest
  import opened Cuts
  import opened Streams

  const MSG_SEPARATOR := 0x1F as char

  datatype Protocol = Custom | Resp

  /** A pending request: its protocol and the bytes of its view. */
  datatype Req = Req(protocol: Protocol, payload: string)

  // ---------- One scan of the buffer ----------

  /** The position of the first separator, or the length. */
  function FirstSeparator(s: string): (n: nat)
    ensures n <= |s| && (n < |s| ==> s[n] == MSG_SEPARATOR)
    ensures forall i :: 0 <= i < n ==> s[i] != MSG_SEPARATOR
  {
    if s == [] || s[0] == MSG_SEPARATOR then 0 else 1 + FirstSeparator(s[1..])
  }

  /** One turn of the framing loop. */
  function Next(s: string): Step<Req> {
    if s == [] then Stop
    else if s[0] == MSG_SEPARATOR then Skip(1)
    else if s[0] == ARRAY_PREFIX then
      match Frame(s)
      case Error => Fail
      case Incomplete => Stop
      case Complete(_, rest) => var n := |s| - |rest|; Take(Req(Resp, s[..n]), n)
    else
      var n := FirstSeparator(s);
      if n == |s| then Stop else Take(Req(Custom, s[..n]), n + 1)
  }

  // ---------- Messages and the bytes that carry them ----------

  datatype Message = CustomMessage(text: string) | RespMessage(args: seq<string>)

  /** A non-empty custom message that does not look like RESP, or a RESP array of at least one element. */
  ghost predicate WellFormed(m: Message) {
    match m
    case CustomMessage(text) => text != [] && MSG_SEPARATOR !in text && text[0] != ARRAY_PREFIX
    case RespMessage(args) => args != [] && Sized(args)
  }

  function Wire(m: Message): (s: string)
    ensures s != []
  {
    match m
    case CustomMessage(text) => text + [MSG_SEPARATOR]
    case RespMessage(args) => Request(args)
  }

  function RequestOf(m: Message): Req {
    match m
    case CustomMessage(text) => Req(Custom, text)
    case RespMessage(args) => Req(Resp, Request(args))
  }

  /** Cut after `c` of its bytes, the message is refused rather than waited on. */
  ghost predicate Refused(m: Message, c: nat) {
    m.RespMessage? && 0 < c < |Wire(m)| && BadCut(m.args, c)
  }

  ghost function ItemOf(m: Message): Item<Req> {
    Item(Wire(m), RequestOf(m), (c: nat) => Refused(m, c))
  }

  ghost function ItemsOf(ms: seq<Message>): (items: seq<Item<Req>>)
    ensures |items| == |ms| && forall i :: 0 <= i < |ms| ==> items[i] == ItemOf(ms[i])
  {
    seq(|ms|, i requires 0 <= i < |ms| => ItemOf(ms[i]))
  }

  // ---------- Scanning a whole message and a cut one ----------

  lemma SeparatorAt(text: string, more: string)
    requires MSG_SEPARATOR !in text
    ensures FirstSeparator(text + [MSG_SEPARATOR] + more) == |text|
    ensures FirstSeparator(text) == |text|
  {
    var s := text + [MSG_SEPARATOR] + more;
    assert s[|text|] == MSG_SEPARATOR;
    assert forall i :: 0 <= i < |text| ==> s[i] == text[i] && text[i] in text;
  }

  /** A whole message is taken first, and the scan goes on behind it: no payload byte can split it. */
  lemma NextOfMessage(m: Message, more: string)
    requires WellFormed(m)
    ensures Next(Wire(m) + more) == Take(RequestOf(m), |Wire(m)|)
  {
    var s := Wire(m) + more;
    match m
    case CustomMessage(text) =>
      assert s == text + [MSG_SEPARATOR] + more && text[0] in text && s[0] == text[0];
      SeparatorAt(text, more);
      assert s[..|text|] == text;
    case RespMessage(args) =>
      FrameOfRequest(args, more);
      assert s[..|s| - |more|] == Request(args);
  }

  lemma NextOfCut(m: Message, c: nat)
    requires WellFormed(m) && c < |Wire(m)|
    ensures Next(Wire(m)[..c]) == if Refused(m, c) then Fail else Stop
  {
    var p := Wire(m)[..c];
    if c > 0 {
      match m
      case CustomMessage(text) =>
        assert p == text[..c] && text[0] in text;
        assert MSG_SEPARATOR !in p;
        SeparatorAt(p, []);
      case RespMessage(args) =>
        FrameOfCutRequest(args, c);
    }
  }

  lemma MessageLexes(m: Message)
    requires WellFormed(m)
    ensures Lexes(Next, ItemOf(m))
  {
    forall more: string ensures Next(Wire(m) + more) == Take(RequestOf(m), |Wire(m)|) {
      NextOfMessage(m, more);
    }
    forall c | 0 <= c < |Wire(m)| ensures Next(Wire(m)[..c]) == if Refused(m, c) then Fail else Stop {
      NextOfCut(m, c);
    }
  }

  // ---------- A session of the server ----------

  /**
    For any stream of messages read in any chunks, the connection stays open exactly when no pass ended
    just after a `*`, a `$` or a header's CR. Then the requests framed are exactly the messages received
    whole, in order, and the retained buffer is exactly the bytes of the message still incomplete.
   */
  lemma SessionFramesMessages(ms: seq<Message>, chunks: seq<string>)
    requires forall i :: 0 <= i < |ms| ==> WellFormed(ms[i])
    requires Joined(chunks) <= Stream(ItemsOf(ms))
    ensures var refused := (n: nat) => RefusedAt(ItemsOf(ms), n);
      && (RefusedSomewhere(refused, chunks) <==> Serve(Next, chunks).link.Shut?)
      && (!RefusedSomewhere(refused, chunks) ==> InStep(ItemsOf(ms), |Joined(chunks)|, Serve(Next, chunks)))
  {
    forall i | 0 <= i < |ms| ensures Lexes(Next, ItemsOf(ms)[i]) {
      MessageLexes(ms[i]);
    }
    SessionFollowsStream(Next, ItemsOf(ms), (n: nat) => RefusedAt(ItemsOf(ms), n), chunks);
  }

  /**
    A connection closed by pass `f` has handed over the messages whole before that pass began: whole
    messages that arrived in the same pass as the refused cut are dropped.
   */
  lemma ClosedDropsPass(ms: seq<Message>, chunks: seq<string>, f: nat)
    requires forall i :: 0 <= i < |ms| ==> WellFormed(ms[i])
    requires Joined(chunks) <= Stream(ItemsOf(ms))
    requires var refused := (n: nat) => RefusedAt(ItemsOf(ms), n);
      RefusedAfter(refused, chunks, f) && !RefusedSomewhere(refused, chunks[..f - 1])
    ensures Serve(Next, chunks)
         == Session(Requests(ItemsOf(ms)[..Whole(Wires(ItemsOf(ms)), |Joined(chunks[..f - 1])|)]), Shut)
  {
    forall i | 0 <= i < |ms| ensures Lexes(Next, ItemsOf(ms)[i]) {
      MessageLexes(ms[i]);
    }
    SessionClosed(Next, ItemsOf(ms), (n: nat) => RefusedAt(ItemsOf(ms), n), chunks, f);
  }
}
