/** How a call of the client's `receiveResponse` ends, for every way the socket can behave. */
module ClientReceives {
  import opened Common
  import opened Framing
  import opened ClientModel
  import opened ClientRuns

  /** The first `k` calls bring bytes or are interrupted, and no whole message has come by then. */
  ghost predicate Quiet(c: Client, script: seq<Recv>, k: nat) {
    && k <= |script| && (forall j :: 0 <= j < k ==> script[j].Data? || script[j].Interrupted?)
    && MSG_SEPARATOR !in c.receiveBuffer + AllBytes(script[..k])
  }

  /** The client once `bytes` more have come. */
  function With(c: Client, bytes: string): Client {
    c.(receiveBuffer := c.receiveBuffer + bytes)
  }

  /** How the call ends when the first `k` calls were quiet: by what the next one does. */
  ghost predicate EndsBy(c: Client, script: seq<Recv>, k: nat, t: Turn)
    requires k <= |script| && c.pending != []
  {
    var now, read := With(c, AllBytes(script[..k])), AllBytes(script[..k]);
    if k == |script| then t == Turn(now, Blocked, read, [])
    else
      match script[k]
      case Failed => t == Turn(now, ConnectionFailed, read, script[k + 1..])
      case Closed => t == Turn(now, ConnectionClosed, read, script[k + 1..])
      case Interrupted => true
      case Data(bytes) =>
        var n := FirstSeparator(now.receiveBuffer + bytes);
        n < |now.receiveBuffer + bytes| ==>
          t == Turn(With(now, bytes).(pending := c.pending[1..],
                                      receiveBuffer := (now.receiveBuffer + bytes)[n + 1..]),
                    Got(ResponseTo(c.pending[0], (now.receiveBuffer + bytes)[..n])), read + bytes, script[k + 1..])
  }

  lemma NoSeparatorIff(s: string)
    ensures MSG_SEPARATOR !in s <==> FirstSeparator(s) == |s|
  {
    assert FirstSeparator(s) < |s| ==> s[FirstSeparator(s)] in s;
  }

  /** What the first call brings. */
  function First(script: seq<Recv>): string
    requires script != []
  {
    if script[0].Data? then script[0].bytes else []
  }

  lemma QuietBehind(c: Client, script: seq<Recv>, k: nat)
    requires Quiet(c, script, k) && 0 < k
    ensures MSG_SEPARATOR !in c.receiveBuffer
    ensures Quiet(With(c, First(script)), script[1..], k - 1)
    ensures AllBytes(script[..k]) == First(script) + AllBytes(script[1..][..k - 1])
    ensures With(With(c, First(script)), AllBytes(script[1..][..k - 1])) == With(c, AllBytes(script[..k]))
  {
    assert script[..k][1..] == script[1..][..k - 1];
    Associates(c.receiveBuffer, First(script), AllBytes(script[1..][..k - 1]));
    assert forall i :: 0 <= i < |c.receiveBuffer| ==>
      c.receiveBuffer[i] == (c.receiveBuffer + AllBytes(script[..k]))[i];
  }

  /** The end of the call, seen one `recv` earlier. */
  lemma EndsOneEarlier(c: Client, script: seq<Recv>, k: nat, t: Turn)
    requires c.pending != [] && Quiet(c, script, k) && 0 < k
    requires EndsBy(With(c, First(script)), script[1..], k - 1, t)
    ensures EndsBy(c, script, k, t.(read := First(script) + t.read))
  {
    hide AllBytes, FirstSeparator, ResponseTo;
    QuietBehind(c, script, k);
    var read := AllBytes(script[1..][..k - 1]);
    if k < |script| {
      assert script[1..][k - 1] == script[k] && script[1..][k - 1 + 1..] == script[k + 1..];
      if script[k].Data? {
        Associates(First(script), read, script[k].bytes);
      }
    }
  }

  lemma ReceiveFirst(c: Client, script: seq<Recv>)
    requires c.pending != [] && script != [] && MSG_SEPARATOR !in c.receiveBuffer
    requires script[0].Data? || script[0].Interrupted?
    ensures var t := Receive(With(c, First(script)), script[1..]);
      Receive(c, script) == t.(read := First(script) + t.read)
  {
    NoSeparatorIff(c.receiveBuffer);
    assert c.receiveBuffer + [] == c.receiveBuffer;
    var t := Receive(c, script[1..]);
    assert [] + t.read == t.read;
  }

  lemma ReceiveNow(c: Client, script: seq<Recv>)
    requires c.pending != [] && Quiet(c, script, 0)
    ensures EndsBy(c, script, 0, Receive(c, script))
  {
    assert script[..0] == [] && c.receiveBuffer + [] == c.receiveBuffer;
    NoSeparatorIff(c.receiveBuffer);
  }

  /**
    With requests pending: calls that bring no whole message are gone through, and then the call ends as the
    next one says. It blocks when there is none, fails or is closed when the socket does, and hands the first
    pending request its response as soon as a message is whole.
   */
  lemma {:induction false} ReceiveEnds(c: Client, script: seq<Recv>, k: nat)
    requires c.pending != [] && Quiet(c, script, k)
    ensures EndsBy(c, script, k, Receive(c, script))
    decreases k
  {
    if k == 0 {
      ReceiveNow(c, script);
    } else {
      hide Receive, EndsBy, AllBytes;
      QuietBehind(c, script, k);
      ReceiveFirst(c, script);
      ReceiveEnds(With(c, First(script)), script[1..], k - 1);
      EndsOneEarlier(c, script, k, Receive(With(c, First(script)), script[1..]));
    }
  }

  /** The first message of `s` ends at `n`. */
  predicate EndsAt(s: string, n: nat) {
    n < |s| && s[n] == MSG_SEPARATOR && MSG_SEPARATOR !in s[..n]
  }

  lemma SeparatorIsAt(s: string, n: nat)
    requires EndsAt(s, n)
    ensures FirstSeparator(s) == n
  {
    assert forall i :: 0 <= i < n ==> s[..n][i] == s[i] && s[i] in s[..n];
  }

  /** Nothing is read while no request is pending, nor while a message is already buffered whole. */
  lemma ReceiveAtOnce(c: Client, script: seq<Recv>, n: nat)
    ensures c.pending == [] ==> Receive(c, script) == Turn(c, NoPending, [], script)
    ensures c.pending != [] && EndsAt(c.receiveBuffer, n) ==>
      Receive(c, script) == Turn(c.(pending := c.pending[1..], receiveBuffer := c.receiveBuffer[n + 1..]),
                                 Got(ResponseTo(c.pending[0], c.receiveBuffer[..n])), [], script)
  {
    hide ResponseTo, FirstSeparator;
    if EndsAt(c.receiveBuffer, n) {
      SeparatorIsAt(c.receiveBuffer, n);
    }
  }
}
