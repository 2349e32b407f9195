/** Pending requests as views into one read buffer, and their handling in place, one after the other. */
module RequestViews {
  import opened Common
  import opened RespRequest
  import opened RespCommand
  import opened Cuts
  import opened Streams
  import opened Framing
  import CP = CustomProtocol
  import T = Transactions

  /** A view into the read buffer. */
  datatype RequestView = RequestView(start: nat, length: nat, protocol: Protocol) {
    /** Where the view's bytes end, the NUL behind a custom request included. */
    function End(): nat { start + length + if protocol == Custom then 1 else 0 }
  }

  /** The view lies within the first `end` bytes and shows the request; a custom one is NUL-terminated. */
  ghost predicate Shows(buffer: string, end: nat, v: RequestView, r: Req) {
    && v.End() <= end <= |buffer|
    && r == Req(v.protocol, buffer[v.start..v.start + v.length])
    && (v.protocol == Custom ==> buffer[v.start + v.length] == '\0')
  }

  /** The views lie one behind the other. */
  ghost predicate InOrder(views: seq<RequestView>) {
    forall i, j :: 0 <= i < j < |views| ==> views[i].End() <= views[j].start
  }

  ghost predicate AllShow(buffer: string, end: nat, views: seq<RequestView>, reqs: seq<Req>) {
    && |views| == |reqs| && InOrder(views)
    && forall i :: 0 <= i < |views| ==> Shows(buffer, end, views[i], reqs[i])
  }

  // ---------- What a request means ----------

  /** Each payload as the C string at its address. */
  function WordsOf(payloads: seq<string>): (words: seq<CString>)
    ensures |words| == |payloads| && forall i :: 0 <= i < |words| ==> words[i] == UpToNul(payloads[i])
  {
    seq(|payloads|, i requires 0 <= i < |payloads| => UpToNul(payloads[i]))
  }

  function PartsOf(view: string): (parts: Option<seq<CString>>)
    ensures parts.Some? ==> 1 <= |parts.value| <= 3
  {
    match CommandOf(view)
    case None => None
    case Some(payloads) => Some(WordsOf(payloads))
  }

  /** What the server makes of a framed request. */
  function Understood(r: Req): T.Request {
    if r.protocol == Custom then CP.Meaning(r.payload) else T.Meaning(PartsOf(r.payload))
  }

  function UnderstoodAll(reqs: seq<Req>): (rs: seq<T.Request>)
    ensures |rs| == |reqs| && forall i :: 0 <= i < |reqs| ==> rs[i] == Understood(reqs[i])
  {
    seq(|reqs|, i requires 0 <= i < |reqs| => Understood(reqs[i]))
  }

  // ---------- Handling one view ----------

  /** Nothing outside the bytes from `from` to `to` differs. */
  ghost predicate OnlyWithin(before: string, after: string, from: nat, to: nat) {
    |before| == |after| && forall i :: 0 <= i < |before| && !(from <= i < to) ==> before[i] == after[i]
  }

  lemma TerminatedWithin(before: string, after: string, end: nat, pieces: seq<Piece>, start: nat)
    requires start <= end <= |before| == |after| && Terminated(before[..end], after[..end], pieces)
    requires before[end..] == after[end..] && forall i :: 0 <= i < |pieces| ==> start < pieces[i].at
    ensures OnlyWithin(before, after, start, end)
  {
    forall i | 0 <= i < |before| && !(start <= i < end) ensures before[i] == after[i] {
      if i < start {
        assert before[..end][i] == before[i] && after[..end][i] == after[i];
      } else {
        assert before[end..][i - end] == before[i] && after[end..][i - end] == after[i];
      }
    }
  }

  method HandleResp(data: array<char>, start: nat, end: nat) returns (r: T.Request)
    requires start <= end <= data.Length
    modifies data
    ensures r == T.Meaning(PartsOf(old(data[start..end])))
    ensures OnlyWithin(old(data[..]), data[..], start, end)
  {
    ghost var before := data[..];
    assert before[..end] == data[..end] && before[end..] == data[end..];
    var ok, pieces := ParseRespCommand(data, start, end);
    assert data[..][..end] == data[..end] && data[..][end..] == data[end..];
    TerminatedWithin(before, data[..], end, pieces, start);
    if !ok {
      return T.Meaning(None);
    }
    var now := data[..end];
    var words := seq(|pieces|, i requires 0 <= i < |pieces| && pieces[i].at <= |now| => UpToNul(now[pieces[i].at..]));
    assert words == WordsOf(Payloads(pieces));
    r := T.Meaning(Some(words));
  }

  method HandleCustom(data: array<char>, start: nat, end: nat) returns (r: T.Request)
    requires start <= end < data.Length && data[end] == '\0'
    modifies data
    ensures r == CP.Meaning(old(data[start..end]))
    ensures OnlyWithin(old(data[..]), data[..], start, end)
  {
    r := CP.ParseCustomRequest(data, start, end);
  }

  lemma WithinMore(before: string, after: string, from: nat, to: nat, end: nat)
    requires OnlyWithin(before, after, from, to) && to <= end
    ensures OnlyWithin(before, after, from, end)
  {
  }

  method HandleView(data: array<char>, v: RequestView, ghost req: Req) returns (r: T.Request)
    requires Shows(data[..], data.Length, v, req)
    modifies data
    ensures r == Understood(req) && OnlyWithin(old(data[..]), data[..], v.start, v.End())
  {
    hide OnlyWithin, CP.Meaning, T.Meaning, PartsOf;
    var end := v.start + v.length;
    assert data[..][v.start..end] == data[v.start..end];
    if v.protocol == Custom {
      r := HandleCustom(data, v.start, end);
      WithinMore(old(data[..]), data[..], v.start, end, v.End());
    } else {
      r := HandleResp(data, v.start, end);
    }
  }

  // ---------- Draining the queue ----------

  lemma StillShows(before: string, after: string, end: nat, v: RequestView, w: RequestView, r: Req)
    requires OnlyWithin(before, after, v.start, v.End()) && v.End() <= w.start
    requires Shows(before, end, w, r)
    ensures Shows(after, end, w, r)
  {
    assert before[w.start..w.start + w.length] == after[w.start..w.start + w.length];
  }

  lemma ShowsMore(buffer: string, end: nat, v: RequestView, r: Req)
    requires Shows(buffer, end, v, r)
    ensures Shows(buffer, |buffer|, v, r)
  {
  }

  /** The views from the n-th on, still to be handled, show their requests. */
  ghost predicate StillToDo(buffer: string, end: nat, views: seq<RequestView>, reqs: seq<Req>, n: nat) {
    |views| == |reqs| && forall i :: n <= i < |views| ==> Shows(buffer, end, views[i], reqs[i])
  }

  lemma HandledOne(before: string, after: string, end: nat, views: seq<RequestView>, reqs: seq<Req>, n: nat)
    requires n < |views| && InOrder(views) && StillToDo(before, end, views, reqs, n)
    requires OnlyWithin(before, after, views[n].start, views[n].End())
    ensures StillToDo(after, end, views, reqs, n + 1)
    ensures end <= |before| == |after| && after[end..] == before[end..]
  {
    assert Shows(before, end, views[n], reqs[n]);
    forall i | n + 1 <= i < |views| ensures Shows(after, end, views[i], reqs[i]) {
      StillShows(before, after, end, views[n], views[i], reqs[i]);
    }
  }

  /**
    Handles the requests in order, each in place in the one buffer they share: none is disturbed by those
    handled before it, and no byte behind the last view changes.
   */
  method Drain(data: array<char>, views: seq<RequestView>, ghost end: nat, ghost reqs: seq<Req>)
    returns (results: seq<T.Request>)
    requires end <= data.Length && AllShow(data[..], end, views, reqs)
    modifies data
    ensures results == UnderstoodAll(reqs)
    ensures data[..][end..] == old(data[..])[end..]
  {
    hide Understood, OnlyWithin, Shows;
    results := [];
    var pending := views;
    ghost var n := 0;
    while pending != []
      invariant n <= |views| && pending == views[n..]
      invariant StillToDo(data[..], end, views, reqs, n)
      invariant data[..][end..] == old(data[..])[end..]
      invariant |results| == n && forall i :: 0 <= i < n ==> results[i] == Understood(reqs[i])
      decreases |pending|
    {
      ghost var before := data[..];
      var v := pending[0];
      pending := pending[1..];
      ShowsMore(before, end, views[n], reqs[n]);
      var result := HandleView(data, v, reqs[n]);
      HandledOne(before, data[..], end, views, reqs, n);
      results := results + [result];
      n := n + 1;
    }
  }

  // ---------- What was sent is what is handled ----------

  /** What a message asks for. */
  function MeaningOf(m: Message): T.Request {
    match m
    case CustomMessage(text) => CP.Meaning(text)
    case RespMessage(args) => T.Meaning(if 1 <= |args| <= 3 then Some(WordsOf(args)) else None)
  }

  lemma UnderstoodAsMeant(m: Message)
    requires WellFormed(m)
    ensures Understood(RequestOf(m)) == MeaningOf(m)
  {
    if m.RespMessage? {
      var s := Request(m.args);
      FrameOfRequest(m.args, []);
      assert s + [] == s;
      FramedIsParsed(s);
      assert s[..|s|] == s;
    }
  }

  /**
    However a stream of messages of both kinds is cut, if no pass ends at a refused cut the requests handed
    over are understood as exactly the messages received whole, in order.
   */
  lemma MessagesAreUnderstood(ms: seq<Message>, chunks: seq<string>)
    requires forall i :: 0 <= i < |ms| ==> WellFormed(ms[i])
    requires Joined(chunks) <= Stream(ItemsOf(ms))
    requires !RefusedSomewhere((n: nat) => RefusedAt(ItemsOf(ms), n), chunks)
    ensures var s, ws := Serve(Next, chunks), Wires(ItemsOf(ms));
      var k := Whole(ws, |Joined(chunks)|);
      && s.link == Open(Conn(Tail(ws, |Joined(chunks)|), 0)) && |s.reqs| == k
      && forall i :: 0 <= i < k ==> Understood(s.reqs[i]) == MeaningOf(ms[i])
  {
    SessionFramesMessages(ms, chunks);
    var reqs, k := Serve(Next, chunks).reqs, Whole(Wires(ItemsOf(ms)), |Joined(chunks)|);
    forall i | 0 <= i < k ensures Understood(reqs[i]) == MeaningOf(ms[i]) {
      assert reqs[i] == ItemsOf(ms)[i].req == RequestOf(ms[i]);
      UnderstoodAsMeant(ms[i]);
    }
  }

  /** A RESP array spells a store command exactly when its elements, up to their first NULs, are the command's words. */
  lemma RespCommandIff(args: seq<string>, q: T.Command)
    ensures MeaningOf(RespMessage(args)) == T.Store(q) <==> 1 <= |args| <= 3 && WordsOf(args) == T.Words(q)
  {
    T.MeaningOfWords(if 1 <= |args| <= 3 then Some(WordsOf(args)) else None, q);
  }

  /** A RESP client's command, keys with spaces and empty keys included, is read as it was meant. */
  lemma RespCommandRead(q: T.Command)
    ensures MeaningOf(RespMessage(T.Words(q))) == T.Store(q)
  {
    var words := T.Words(q);
    forall i | 0 <= i < |words| ensures UpToNul(words[i]) == words[i] {
      CP.NoNul(words[i]);
    }
    assert WordsOf(words) == words;
    RespCommandIff(words, q);
  }
}
