/** Sending a batch of responses over a socket that takes any number of bytes at a time. */
module SendLoop {
  import opened Common
  import opened Framing

  datatype Response = Response(protocol: Protocol, data: string)

  /** One entry of the vector given to `sendmsg`: `len` bytes of `base` from `at` on. */
  datatype IoVec = IoVec(base: string, at: nat, len: nat)

  predicate InBounds(v: IoVec) {
    v.at + v.len <= |v.base|
  }

  function Bytes(v: IoVec): (r: string)
    requires InBounds(v)
    ensures |r| == v.len
  {
    v.base[v.at..v.at + v.len]
  }

  predicate AllInBounds(iov: seq<IoVec>) {
    forall i :: 0 <= i < |iov| ==> InBounds(iov[i])
  }

  /** What the vector still has to send. */
  function Unsent(iov: seq<IoVec>): string
    requires AllInBounds(iov)
  {
    if iov == [] then [] else Bytes(iov[0]) + Unsent(iov[1..])
  }

  /** The bytes one response puts on the wire. */
  function Framed(r: Response): string {
    if r.protocol.Custom? then r.data + [MSG_SEPARATOR] else r.data
  }

  function Stream(responses: seq<Response>): string {
    if responses == [] then [] else Framed(responses[0]) + Stream(responses[1..])
  }

  // ---------- Building the vector ----------

  function Whole(data: string): (v: IoVec)
    ensures InBounds(v) && Bytes(v) == data
  {
    IoVec(data, 0, |data|)
  }

  lemma {:induction false} UnsentAppends(iov: seq<IoVec>, v: IoVec)
    requires AllInBounds(iov) && InBounds(v)
    ensures AllInBounds(iov + [v]) && Unsent(iov + [v]) == Unsent(iov) + Bytes(v)
  {
    if iov != [] {
      UnsentAppends(iov[1..], v);
      assert (iov + [v])[1..] == iov[1..] + [v];
    }
  }

  lemma {:induction false} StreamAppends(responses: seq<Response>, r: Response)
    ensures Stream(responses + [r]) == Stream(responses) + Framed(r)
  {
    if responses != [] {
      StreamAppends(responses[1..], r);
      assert (responses + [r])[1..] == responses[1..] + [r];
    }
  }

  method BuildVector(responses: seq<Response>) returns (iov: seq<IoVec>, totalRequired: nat)
    ensures AllInBounds(iov) && Unsent(iov) == Stream(responses)
    ensures totalRequired == |Stream(responses)|
  {
    iov, totalRequired := [], 0;
    for i := 0 to |responses|
      invariant AllInBounds(iov) && Unsent(iov) == Stream(responses[..i])
      invariant totalRequired == |Unsent(iov)|
    {
      StreamAppends(responses[..i], responses[i]);
      assert responses[..i + 1] == responses[..i] + [responses[i]];
      var data := responses[i].data;
      UnsentAppends(iov, Whole(data));
      iov := iov + [Whole(data)];
      totalRequired := totalRequired + |data|;
      if responses[i].protocol.Custom? {
        UnsentAppends(iov, Whole([MSG_SEPARATOR]));
        iov := iov + [Whole([MSG_SEPARATOR])];
        totalRequired := totalRequired + 1;
      }
    }
    assert responses[..|responses|] == responses;
  }

  // ---------- Moving past what was sent ----------

  method Advance(iov: seq<IoVec>, index: nat, bytesSent: nat) returns (rest: seq<IoVec>, next: nat)
    requires AllInBounds(iov) && index <= |iov| && bytesSent <= |Unsent(iov[index..])|
    ensures AllInBounds(rest) && next <= |rest| == |iov|
    ensures Unsent(rest[next..]) == Unsent(iov[index..])[bytesSent..]
  {
    ghost var target := Unsent(iov[index..])[bytesSent..];
    rest, next := iov, index;
    var left: nat := bytesSent;
    while left > 0 && next < |rest|
      invariant AllInBounds(rest) && next <= |rest| == |iov|
      invariant left <= |Unsent(rest[next..])|
      invariant Unsent(rest[next..])[left..] == target
      decreases |rest| - next, left
    {
      ghost var before := rest[next..];
      assert before[1..] == rest[next + 1..];
      if left >= rest[next].len {
        left := left - rest[next].len;
        next := next + 1;
      } else {
        var v := rest[next];
        rest := rest[next := IoVec(v.base, v.at + left, v.len - left)];
        assert rest[next..][1..] == before[1..];
        assert Bytes(rest[next]) == Bytes(v)[left..];
        left := 0;
      }
    }
    assert left == 0;
  }

  // ---------- The send loop ----------

  /** What one `sendmsg` does: take up to n bytes, ask for a retry, or fail. */
  datatype Outcome = Took(n: nat) | WouldBlock | Broken

  function Taken(n: nat, offered: nat): nat {
    if n < offered then n else offered
  }

  /** How many of `required` bytes get out from the given call on. */
  function Delivered(script: seq<Outcome>, calls: nat, required: nat): (n: nat)
    ensures n <= required
    decreases |script| - calls
  {
    if required == 0 || |script| <= calls then 0
    else
      match script[calls]
      case Broken => 0
      case WouldBlock => Delivered(script, calls + 1, required)
      case Took(n) => Taken(n, required) + Delivered(script, calls + 1, required - Taken(n, required))
  }

  /** One call more or less. */
  lemma DeliveredStep(script: seq<Outcome>, calls: nat, required: nat)
    ensures Delivered(script, calls, required) ==
      if required == 0 || |script| <= calls || script[calls].Broken? then 0
      else if script[calls].WouldBlock? then Delivered(script, calls + 1, required)
      else
        var sent := Taken(script[calls].n, required);
        sent + Delivered(script, calls + 1, required - sent)
  {
  }

  /** How many bytes the socket takes from the given call on before it breaks, if it is offered enough. */
  function Capacity(script: seq<Outcome>, calls: nat): nat
    decreases |script| - calls
  {
    if |script| <= calls || script[calls].Broken? then 0
    else (if script[calls].Took? then script[calls].n else 0) + Capacity(script, calls + 1)
  }

  /** Retries and the sizes of the single writes do not matter, only what the socket takes before it breaks. */
  lemma {:induction false} DeliveredIsCapacity(script: seq<Outcome>, calls: nat, required: nat)
    ensures Delivered(script, calls, required) == Taken(Capacity(script, calls), required)
    decreases |script| - calls
  {
    if required != 0 && calls < |script| {
      match script[calls]
      case Broken =>
      case WouldBlock => DeliveredIsCapacity(script, calls + 1, required);
      case Took(n) => DeliveredIsCapacity(script, calls + 1, required - Taken(n, required));
    }
  }

  /** One `sendmsg` that takes bytes: `chunk` went out. */
  method SendOnce(iov: seq<IoVec>, index: nat, n: nat) returns (chunk: string, rest: seq<IoVec>, next: nat)
    requires AllInBounds(iov) && index <= |iov|
    ensures AllInBounds(rest) && next <= |rest|
    ensures chunk + Unsent(rest[next..]) == Unsent(iov[index..])
    ensures |chunk| == Taken(n, |Unsent(iov[index..])|)
  {
    var offered := Unsent(iov[index..]);
    var bytesSent := Taken(n, |offered|);
    chunk := offered[..bytesSent];
    rest, next := Advance(iov, index, bytesSent);
    assert offered == offered[..bytesSent] + offered[bytesSent..];
  }

  /** The send loop over a vector that holds `stream`. */
  method SendVector(vector: seq<IoVec>, totalRequired: nat, ghost stream: string, script: seq<Outcome>)
    returns (wire: string, iov: seq<IoVec>, index: nat, failed: bool, calls: nat)
    requires AllInBounds(vector) && Unsent(vector) == stream && totalRequired == |stream|
    ensures AllInBounds(iov) && index <= |iov| && calls <= |script|
    ensures wire + Unsent(iov[index..]) == stream && |wire| == Delivered(script, 0, |stream|)
    ensures wire == stream || calls == |script| || failed
    ensures failed ==> calls > 0 && script[calls - 1].Broken?
    ensures forall i :: 0 <= i < calls && script[i].Broken? ==> failed && i == calls - 1
  {
    hide Delivered, Unsent;
    var totalSent := 0;
    iov, wire, index, failed, calls := vector, [], 0, false, 0;
    assert iov[0..] == iov;
    while totalSent < totalRequired && calls < |script|
      invariant AllInBounds(iov) && index <= |iov| && calls <= |script| && totalSent == |wire|
      invariant wire + Unsent(iov[index..]) == stream
      invariant !failed
      invariant totalSent + Delivered(script, calls, totalRequired - totalSent) == Delivered(script, 0, totalRequired)
      invariant forall i :: 0 <= i < calls ==> !script[i].Broken?
    {
      var outcome := script[calls];
      DeliveredStep(script, calls, totalRequired - totalSent);
      calls := calls + 1;
      match outcome {
        case WouldBlock =>
        case Broken =>
          failed := true;
          return;
        case Took(n) =>
          var chunk;
          chunk, iov, index := SendOnce(iov, index, n);
          Associates(wire, chunk, Unsent(iov[index..]));
          wire := wire + chunk;
          totalSent := totalSent + |chunk|;
      }
    }
    DeliveredStep(script, calls, totalRequired - totalSent);
  }

  /**
    `script` lists what the socket does with each call; the loop is cut short where it ends. `wire` is what
    went out, `iov[index..]` what has not.
   */
  method SendResponses(responses: seq<Response>, script: seq<Outcome>)
    returns (wire: string, iov: seq<IoVec>, index: nat, failed: bool, calls: nat)
    ensures AllInBounds(iov) && index <= |iov| && calls <= |script|
    ensures wire + Unsent(iov[index..]) == Stream(responses)
    ensures |wire| == Delivered(script, 0, |Stream(responses)|)
    ensures wire == Stream(responses) || calls == |script| || failed
    ensures failed ==> calls > 0 && script[calls - 1].Broken?
    ensures forall i :: 0 <= i < calls && script[i].Broken? ==> failed && i == calls - 1
  {
    var vector, totalRequired := BuildVector(responses);
    wire, iov, index, failed, calls := SendVector(vector, totalRequired, Stream(responses), script);
  }
}
