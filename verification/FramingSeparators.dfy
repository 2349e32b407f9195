/** Separators that stand alone in the stream: what a pass makes of them, and when a session survives them. */
module FramingSeparators {
  import opened Cuts
  import opened Streams
  import opened RespRequest
  import opened Framing
  import L = LoneSeparators

  // ---------- One pass ----------

  /** A pass that finds requests drops the bytes carried into it from what should be kept, or overruns the buffer. */
  lemma CarriedIsDropped(c: Conn, chunk: string)
    requires Scan(Next, c.buffer + chunk).Scanned? && Scan(Next, c.buffer + chunk).reqs != []
    ensures var reqs, rest := Scan(Next, c.buffer + chunk).reqs, Scan(Next, c.buffer + chunk).rest;
      Pass(Next, c, chunk) ==
      if c.bytesToErase <= |rest| then Success(reqs, Conn(rest[c.bytesToErase..], 0)) else Overrun(reqs)
  {
    var b := c.buffer + chunk;
    var rest := Scan(Next, b).rest;
    RestIsSuffix(Next, b);
    if c.bytesToErase <= |rest| {
      assert b[|b| - |rest|..][c.bytesToErase..] == b[|b| - |rest| + c.bytesToErase..];
    }
  }

  /** A pass that finds no request carries bytes over exactly when the buffer begins with a separator. */
  lemma AwaitingCarriesSeparators(c: Conn, chunk: string)
    requires Pass(Next, c, chunk).Awaiting?
    ensures var b := c.buffer + chunk;
      Pass(Next, c, chunk).conn.bytesToErase > c.bytesToErase <==> b != [] && b[0] == MSG_SEPARATOR
  {
    var b := c.buffer + chunk;
    assert Next(b).Stop? || Next(b) == Skip(1);
  }

  /**
    A separator, then a message that arrives in two passes: the second pass erases the separator twice
    over, and so the first byte of the message that follows.
   */
  lemma SeparatorCountedTwice(first: string, second: string, tail: string)
    requires first != [] && WellFormed(CustomMessage(first + second)) && WellFormed(CustomMessage(tail))
    ensures var c1 := Conn([MSG_SEPARATOR] + first, 1);
      && Pass(Next, Conn([], 0), [MSG_SEPARATOR] + first) == Awaiting(c1)
      && Pass(Next, c1, second + [MSG_SEPARATOR] + tail)
         == Success([Req(Custom, first + second)], Conn(tail[1..], 0))
  {
    SeparatorCarried(first, second);
    SeparatorErased(first, second, tail);
  }

  lemma SeparatorCarried(first: string, second: string)
    requires first != [] && WellFormed(CustomMessage(first + second))
    ensures Pass(Next, Conn([], 0), [MSG_SEPARATOR] + first) == Awaiting(Conn([MSG_SEPARATOR] + first, 1))
  {
    var b := [MSG_SEPARATOR] + first;
    assert [] + b == b;
    assert (first + second)[0] == first[0] && forall c :: c in first ==> c in first + second;
    SeparatorThen(b, first);
    NoSeparator(first);
  }

  lemma SeparatorErased(first: string, second: string, tail: string)
    requires first != [] && WellFormed(CustomMessage(first + second)) && WellFormed(CustomMessage(tail))
    ensures Pass(Next, Conn([MSG_SEPARATOR] + first, 1), second + [MSG_SEPARATOR] + tail)
         == Success([Req(Custom, first + second)], Conn(tail[1..], 0))
  {
    hide Scan, Pass, FirstSeparator, Frame;
    var m := CustomMessage(first + second);
    var b := [MSG_SEPARATOR] + first + (second + [MSG_SEPARATOR] + tail);
    BehindSeparator(first, second, tail);
    NextOfMessage(m, tail);
    CutStops(tail);
    CarriedByteLost(Next, Conn([MSG_SEPARATOR] + first, 1), second + [MSG_SEPARATOR] + tail, RequestOf(m), tail);
  }

  lemma BehindSeparator(first: string, second: string, tail: string)
    ensures var b := [MSG_SEPARATOR] + first + (second + [MSG_SEPARATOR] + tail);
      && b[1..] == Wire(CustomMessage(first + second)) + tail && b[|b| - |tail|..] == tail
  {
  }

  lemma CutStops(text: string)
    requires WellFormed(CustomMessage(text))
    ensures Next(text) == Stop
  {
    assert text[0] in text;
    SeparatorAt(text, []);
  }

  lemma SeparatorThen(b: string, s: string)
    requires b == [MSG_SEPARATOR] + s
    ensures Scan(Next, b) == Scan(Next, s)
  {
    assert b[1..] == s;
  }

  lemma NoSeparator(text: string)
    requires text != [] && MSG_SEPARATOR !in text && text[0] != ARRAY_PREFIX
    ensures Scan(Next, text) == Scanned([], text)
  {
    assert text[0] in text;
    SeparatorAt(text, []);
  }

  /** With nothing behind the message, the second pass would erase past the end of the buffer. */
  lemma SeparatorOverruns(first: string, second: string)
    requires first != [] && WellFormed(CustomMessage(first + second))
    ensures var c1 := Conn([MSG_SEPARATOR] + first, 1);
      && Pass(Next, Conn([], 0), [MSG_SEPARATOR] + first) == Awaiting(c1)
      && Pass(Next, c1, second + [MSG_SEPARATOR]) == Overrun([Req(Custom, first + second)])
  {
    hide Scan, Pass, FirstSeparator, Frame;
    SeparatorCarried(first, second);
    var m := CustomMessage(first + second);
    var b := [MSG_SEPARATOR] + first + (second + [MSG_SEPARATOR]);
    assert b[1..] == Wire(m) + [];
    NextOfMessage(m, []);
    CarriedByteOverruns(Next, Conn([MSG_SEPARATOR] + first, 1), second + [MSG_SEPARATOR], RequestOf(m));
  }

  // ---------- A session ----------

  /** The messages as items, each with the separators in front of it. */
  ghost function PaddedMessages(ms: seq<Message>, pads: seq<nat>): (ps: seq<L.Padded<Req>>)
    requires |pads| == |ms|
    ensures |ps| == |ms| && forall i :: 0 <= i < |ms| ==> ps[i] == L.Padded(pads[i], ItemOf(ms[i]))
  {
    seq(|ms|, i requires 0 <= i < |ms| => L.Padded(pads[i], ItemOf(ms[i])))
  }

  ghost function PaddedItems(ms: seq<Message>, pads: seq<nat>): seq<Item<Req>>
    requires |pads| == |ms|
  {
    L.AsItems(MSG_SEPARATOR, PaddedMessages(ms, pads))
  }

  lemma MessagesLex(ms: seq<Message>, pads: seq<nat>)
    requires |pads| == |ms| && forall i :: 0 <= i < |ms| ==> WellFormed(ms[i])
    ensures L.LexPadded(Next, MSG_SEPARATOR, PaddedItems(ms, pads))
  {
    var ps := PaddedMessages(ms, pads);
    forall i | 0 <= i < |ms| ensures Lexes(Next, ps[i].item) {
      MessageLexes(ms[i]);
    }
    L.PaddedLex(Next, MSG_SEPARATOR, ps);
  }

  /**
    Messages with any number of separators in front of each, read in any chunks: every pass that completes a
    message hands over exactly the messages whole by then and keeps exactly the bytes of the cut one, if and
    only if no pass that found nothing retained, began with a separator and completed no message is followed
    by one that completes a message, and no pass that ends at a refused cut completes a message or is followed
    by one that does. Unless such a pass is so followed, the connection ends up closed exactly when some pass
    ended at a refused cut.
   */
  lemma LoneSeparatorsExactIff(ms: seq<Message>, pads: seq<nat>, chunks: seq<string>)
    requires |pads| == |ms| && forall i :: 0 <= i < |ms| ==> WellFormed(ms[i])
    requires Joined(chunks) <= Stream(PaddedItems(ms, pads))
    ensures var v, n := L.NamesFor(Next, MSG_SEPARATOR, PaddedItems(ms, pads), chunks), |chunks|;
      && (L.ExactWhenDone(v, n) <==> !L.Spoiled(v, n) && !L.CutOff(v, n))
      && (!L.Spoiled(v, n) ==> (Serve(Next, chunks).link.Shut? <==> L.Refuses(v, n)))
  {
    hide L.LexPadded, L.NamesFor, L.Refuses, L.Spoiled, PaddedItems, Serve, Joined, Stream;
    MessagesLex(ms, pads);
    L.SessionExactIff(Next, MSG_SEPARATOR, PaddedItems(ms, pads), chunks);
  }

  /** A connection closed so has handed over the messages whole before the closing pass, and nothing since. */
  lemma LoneSeparatorsShut(ms: seq<Message>, pads: seq<nat>, chunks: seq<string>, f: nat)
    requires |pads| == |ms| && forall i :: 0 <= i < |ms| ==> WellFormed(ms[i])
    requires Joined(chunks) <= Stream(PaddedItems(ms, pads)) && f < |chunks|
    requires var v := L.NamesFor(Next, MSG_SEPARATOR, PaddedItems(ms, pads), chunks);
      v.refused(f) && !L.Refuses(v, f) && !L.Spoiled(v, f)
    ensures var items := PaddedItems(ms, pads);
      Serve(Next, chunks) == Session(Requests(items[..Whole(Wires(items), |Joined(chunks[..f])|)]), Shut)
  {
    hide L.LexPadded, L.NamesFor, L.Refuses, L.Spoiled, PaddedItems, Serve, Joined, Stream;
    MessagesLex(ms, pads);
    L.SessionShut(Next, MSG_SEPARATOR, PaddedItems(ms, pads), chunks, f, |chunks|);
    assert chunks[..|chunks|] == chunks;
  }
}
