/** One connection's read side as the server keeps it: the byte buffer, the views into it, and the erase count. */
module Connection {
  import opened RespRequest
  import opened Streams
  import opened Framing
  import opened RequestViews
  import T = Transactions

  datatype ReadResult = Parsed | AwaitingData | Failure

  function FoundAll(rs: seq<Req>, s: Scanned<Req>): Scanned<Req> {
    if s.Scanned? then s.(reqs := rs + s.reqs) else Broken
  }

  lemma FoundNext(rs: seq<Req>, r: Req, s: Scanned<Req>)
    ensures FoundAll(rs, Found(r, s)) == FoundAll(rs + [r], s)
  {
    if s.Scanned? {
      assert rs + ([r] + s.reqs) == (rs + [r]) + s.reqs;
    }
  }

  /** Where the framing loop stands: `reqs` found in `b[..start]`, the rest of the buffer still as received. */
  ghost predicate Scanning(
      next: string -> Step<Req>, b: string, buffer: string, start: nat, views: seq<RequestView>, reqs: seq<Req>)
  {
    && start <= |b| && |b| == |buffer|
    && buffer[start..] == b[start..]
    && AllShow(buffer, start, views, reqs)
    && Scan(next, b) == FoundAll(reqs, Scan(next, b[start..]))
  }

  lemma KeepShowing(buffer: string, end: nat, buffer': string, end': nat, views: seq<RequestView>, reqs: seq<Req>)
    requires AllShow(buffer, end, views, reqs)
    requires end <= |buffer| && end <= end' <= |buffer'| && buffer[..end] == buffer'[..end]
    ensures AllShow(buffer', end', views, reqs)
  {
    forall i | 0 <= i < |views| ensures Shows(buffer', end', views[i], reqs[i]) {
      var v := views[i];
      assert Shows(buffer, end, v, reqs[i]);
      assert buffer[..end][v.start..v.start + v.length] == buffer[v.start..v.start + v.length];
      assert buffer'[..end][v.start..v.start + v.length] == buffer'[v.start..v.start + v.length];
      assert v.protocol == Custom ==> buffer[..end][v.start + v.length] == buffer'[..end][v.start + v.length];
    }
  }

  lemma ShowOneMore(
      buffer: string, end: nat, views: seq<RequestView>, reqs: seq<Req>, start: nat, v: RequestView, r: Req)
    requires AllShow(buffer, end, views, reqs) && Shows(buffer, end, v, r) && start <= v.start
    requires forall i :: 0 <= i < |views| ==> views[i].End() <= start
    ensures AllShow(buffer, end, views + [v], reqs + [r])
  {
  }

  /** A step of the loop that skips `n` bytes. */
  lemma SkipStep(
      next: string -> Step<Req>, b: string, buffer: string, start: nat, views: seq<RequestView>, reqs: seq<Req>, n: nat)
    requires Scanning(next, b, buffer, start, views, reqs) && next(b[start..]) == Skip(n) && 0 < n <= |b| - start
    ensures Scanning(next, b, buffer, start + n, views, reqs)
  {
    KeepShowing(buffer, start, buffer, start + n, views, reqs);
    assert b[start..][n..] == b[start + n..] && buffer[start..][n..] == buffer[start + n..];
  }

  /** A step that takes a request; `buffer'` differs from `buffer` only between `start` and the next position. */
  lemma TakeStep(
      next: string -> Step<Req>, b: string, buffer: string, start: nat, views: seq<RequestView>, reqs: seq<Req>,
      r: Req, n: nat, v: RequestView, buffer': string)
    requires Scanning(next, b, buffer, start, views, reqs)
    requires next(b[start..]) == Take(r, n) && 0 < n <= |b| - start
    requires |buffer'| == |buffer| && buffer'[..start] == buffer[..start] && buffer'[start + n..] == buffer[start + n..]
    requires Shows(buffer', start + n, v, r) && v.start == start
    ensures Scanning(next, b, buffer', start + n, views + [v], reqs + [r])
  {
    assert forall i :: 0 <= i < |views| ==> Shows(buffer, start, views[i], reqs[i]);
    KeepShowing(buffer, start, buffer', start + n, views, reqs);
    ShowOneMore(buffer', start + n, views, reqs, start, v, r);
    assert b[start..][n..] == b[start + n..] && buffer[start..][n..] == buffer[start + n..];
    FoundNext(reqs, r, Scan(next, b[start + n..]));
  }

  /** The loop begins with nothing found. */
  lemma StartStep(next: string -> Step<Req>, b: string)
    ensures Scanning(next, b, b, 0, [], [])
  {
    assert b[0..] == b && FoundAll([], Scan(next, b)) == Scan(next, b);
  }

  /** What follows cannot be framed: the whole buffer is refused. */
  lemma FailStep(
      next: string -> Step<Req>, b: string, buffer: string, start: nat, views: seq<RequestView>, reqs: seq<Req>)
    requires Scanning(next, b, buffer, start, views, reqs) && next(b[start..]) == Fail
    ensures Scan(next, b) == Broken
  {
  }

  /** The loop is over: nothing more can be taken from `start` on. */
  lemma StopStep(
      next: string -> Step<Req>, b: string, buffer: string, start: nat, views: seq<RequestView>, reqs: seq<Req>)
    requires Scanning(next, b, buffer, start, views, reqs) && next(b[start..]) == Stop
    ensures Scan(next, b) == Scanned(reqs, b[start..]) && |views| == |reqs|
    ensures AllShow(buffer, |b| - |b[start..]|, views, reqs)
  {
    assert reqs + [] == reqs;
  }

  datatype Turn = Continue | Halt | Abort

  class ConnectionData {
    var readBuffer: seq<char>
    var pendingRequests: seq<RequestView>
    var bytesToErase: nat

    constructor ()
      ensures readBuffer == [] && pendingRequests == [] && bytesToErase == 0
    {
      readBuffer, pendingRequests, bytesToErase := [], [], 0;
    }

    /** One turn of the framing loop at `start`. */
    method FrameNext(start: nat) returns (turn: Turn, next: nat)
      requires start < |readBuffer|
      modifies this`readBuffer, this`pendingRequests
      ensures match Next(old(readBuffer)[start..])
        case Fail => turn == Abort
        case Stop => turn == Halt && readBuffer == old(readBuffer) && pendingRequests == old(pendingRequests)
        case Skip(n) =>
          turn == Continue && next == start + n && n == 1
          && readBuffer == old(readBuffer) && pendingRequests == old(pendingRequests)
        case Take(r, n) =>
          && turn == Continue && next == start + n && 0 < n && next <= |readBuffer|
          && |readBuffer| == |old(readBuffer)| && readBuffer[..start] == old(readBuffer)[..start]
          && readBuffer[next..] == old(readBuffer)[next..]
          && |pendingRequests| == |old(pendingRequests)| + 1 && old(pendingRequests) <= pendingRequests
          && var v := pendingRequests[|old(pendingRequests)|];
             Shows(readBuffer, next, v, r) && v.start == start && v.End() == next
    {
      hide Frame, FirstSeparator;
      ghost var s := readBuffer[start..];
      next := start;
      if readBuffer[start] == MSG_SEPARATOR {
        return Continue, start + 1;
      }
      if readBuffer[start] == ARRAY_PREFIX {
        var status, length := ParseRespMessageLength(readBuffer, start);
        match status {
          case More => return Halt, start;
          case Invalid => return Abort, start;
          case Done =>
            assert s[..length] == readBuffer[start..start + length];
            pendingRequests := pendingRequests + [RequestView(start, length, Resp)];
            return Continue, start + length;
        }
      }
      var pos := FindSeparator(readBuffer, start);
      if pos >= |readBuffer| {
        return Halt, start;
      }
      assert s[..pos - start] == readBuffer[start..pos];
      readBuffer := readBuffer[pos := '\0'];
      assert readBuffer[start..pos] == s[..pos - start];
      pendingRequests := pendingRequests + [RequestView(start, pos - start, Custom)];
      return Continue, pos + 1;
    }

    /** Appends what was read and cuts the buffer into requests. */
    method ReadRequest(chunk: seq<char>) returns (result: ReadResult)
      requires pendingRequests == []
      modifies this
      ensures var b := old(readBuffer) + chunk;
        match Scan(Next, b)
        case Broken => result == Failure && readBuffer == [] && pendingRequests == [] && bytesToErase == 0
        case Scanned(reqs, rest) =>
          && result == (if reqs == [] then AwaitingData else Parsed)
          && bytesToErase == old(bytesToErase) + |b| - |rest|
          && |readBuffer| == |b| && readBuffer[|b| - |rest|..] == rest
          && AllShow(readBuffer, |b| - |rest|, pendingRequests, reqs)
          && (reqs == [] ==> readBuffer == b)
    {
      hide Scan, Next, Scanning, AllShow, Shows;
      readBuffer := readBuffer + chunk;
      ghost var b := readBuffer;
      ghost var reqs: seq<Req> := [];
      var start: nat := 0;
      var more := true;
      StartStep(Next, b);
      while start < |readBuffer| && more
        invariant start <= |b| && |b| == |readBuffer| && readBuffer[start..] == b[start..]
        invariant Scanning(Next, b, readBuffer, start, pendingRequests, reqs)
        invariant reqs == [] ==> readBuffer == b
        invariant bytesToErase == old(bytesToErase)
        invariant !more ==> Next(b[start..]) == Stop
        decreases more, |readBuffer| - start
      {
        ghost var buffer, views, now := readBuffer, pendingRequests, Next(b[start..]);
        var turn, next := FrameNext(start);
        if turn == Abort {
          FailStep(Next, b, buffer, start, views, reqs);
          pendingRequests, readBuffer, bytesToErase := [], [], 0;
          return Failure;
        }
        if turn == Halt {
          more := false;
          continue;
        }
        if now.Skip? {
          SkipStep(Next, b, buffer, start, views, reqs, now.n);
        } else {
          TakeStep(Next, b, buffer, start, views, reqs, now.req, now.n, pendingRequests[|views|], readBuffer);
          assert pendingRequests == views + [pendingRequests[|views|]];
          reqs := reqs + [now.req];
        }
        SameTail(buffer, b, start, next);
        start := next;
      }
      NothingToFrame(b[start..]);
      StopStep(Next, b, readBuffer, start, pendingRequests, reqs);
      bytesToErase := bytesToErase + start;
      result := if pendingRequests == [] then AwaitingData else Parsed;
    }

    /** Handles every pending request in place, in the buffer all their views point into. */
    method DrainPending(ghost end: nat, ghost reqs: seq<Req>) returns (results: seq<T.Request>)
      requires end <= |readBuffer| && AllShow(readBuffer, end, pendingRequests, reqs)
      modifies this`readBuffer, this`pendingRequests
      ensures results == UnderstoodAll(reqs) && pendingRequests == []
      ensures |readBuffer| == |old(readBuffer)| && readBuffer[end..] == old(readBuffer)[end..]
    {
      var bytes := readBuffer;
      var data := new char[|bytes|](i requires 0 <= i < |bytes| => bytes[i]);
      assert data[..] == readBuffer;
      results := Drain(data, pendingRequests, end, reqs);
      readBuffer, pendingRequests := data[..], [];
    }

    /** Erases the consumed bytes; `ok` is false when the erasure would run past the end of the buffer. */
    method EraseConsumed() returns (ok: bool)
      modifies this`readBuffer, this`bytesToErase
      ensures ok <==> old(bytesToErase) <= |old(readBuffer)|
      ensures ok ==> bytesToErase == 0 && readBuffer == old(readBuffer)[old(bytesToErase)..]
    {
      ok := bytesToErase <= |readBuffer|;
      if ok && bytesToErase > 0 {
        readBuffer := readBuffer[bytesToErase..];
        bytesToErase := 0;
      }
    }

    /**
      One pass of the server over this connection, as the value model has it. `results` are the requests
      handled, as understood in place.
     */
    method ServePass(chunk: seq<char>) returns (results: seq<T.Request>, ghost outcome: PassResult<Req>)
      requires pendingRequests == []
      modifies this
      ensures outcome == Pass(Next, Conn(old(readBuffer), old(bytesToErase)), chunk)
      ensures pendingRequests == []
      ensures (outcome.Success? || outcome.Awaiting?) ==> outcome.conn == Conn(readBuffer, bytesToErase)
      ensures results == if outcome.Success? || outcome.Overrun? then UnderstoodAll(outcome.reqs) else []
    {
      hide Scan, UnderstoodAll;
      ghost var b, carried := readBuffer + chunk, bytesToErase;
      results := [];
      var result := ReadRequest(chunk);
      outcome := Settle(carried, b, Scan(Next, b));
      if result == Parsed {
        ghost var reqs, rest := Scan(Next, b).reqs, Scan(Next, b).rest;
        RestIsSuffix(Next, b);
        results := DrainPending(|b| - |rest|, reqs);
        if bytesToErase <= |readBuffer| {
          SameTail(b, readBuffer, |b| - |rest|, bytesToErase);
        }
        var _ := EraseConsumed();
      }
    }
  }

  lemma NothingToFrame(s: string)
    ensures s == [] ==> Next(s) == Stop
  {
  }

  lemma SameTail(a: string, b: string, n: nat, m: nat)
    requires n <= m <= |a| && |a| == |b| && a[n..] == b[n..]
    ensures a[m..] == b[m..]
  {
    assert a[m..] == a[n..][m - n..] && b[m..] == b[n..][m - n..];
  }

  method FindSeparator(buffer: seq<char>, start: nat) returns (pos: nat)
    requires start < |buffer| && buffer[start] != MSG_SEPARATOR
    ensures start < pos <= |buffer| && FirstSeparator(buffer[start..]) == pos - start
  {
    pos := start;
    while pos < |buffer| && buffer[pos] != MSG_SEPARATOR
      invariant start <= pos <= |buffer|
      invariant forall i :: start <= i < pos ==> buffer[i] != MSG_SEPARATOR
    {
      pos := pos + 1;
    }
    var n := FirstSeparator(buffer[start..]);
    assert forall i :: 0 <= i < pos - start ==> buffer[start..][i] != MSG_SEPARATOR;
    if n < |buffer[start..]| {
      assert buffer[start..][n] == MSG_SEPARATOR;
    }
    if pos < |buffer| {
      assert buffer[start..][pos - start] == MSG_SEPARATOR;
    }
  }
}
