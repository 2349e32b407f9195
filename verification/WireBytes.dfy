/** Where every byte of a batch of responses lies on the wire, and that a RESP reader gets the replies back. */
module WireBytes {
  import opened Framing
  import opened RespReply
  import SL = SendLoop

  /** Where response `i` begins: behind the data of those before it and a byte for each custom one. */
  function Offset(rs: seq<SL.Response>, i: nat): nat
    requires i <= |rs|
  {
    if i == 0 then 0
    else Offset(rs, i - 1) + |rs[i - 1].data| + if rs[i - 1].protocol == Custom then 1 else 0
  }

  /** The wire holds response `i` at its place, and 0x1F behind it exactly when it is custom. */
  ghost predicate HoldsAt(wire: string, rs: seq<SL.Response>, i: nat)
    requires i < |rs|
  {
    var at, n := Offset(rs, i), |rs[i].data|;
    && Offset(rs, i + 1) <= |wire| && wire[at..at + n] == rs[i].data
    && (rs[i].protocol == Custom ==> wire[at + n] == 0x1F as char)
    && Offset(rs, i + 1) == at + n + if rs[i].protocol == Custom then 1 else 0
  }

  lemma OffsetOfPrefix(rs: seq<SL.Response>, n: nat, i: nat)
    requires i <= n <= |rs|
    ensures Offset(rs[..n], i) == Offset(rs, i)
  {
  }

  lemma {:induction false} StreamHolds(rs: seq<SL.Response>)
    ensures |SL.Stream(rs)| == Offset(rs, |rs|)
    ensures forall i :: 0 <= i < |rs| ==> HoldsAt(SL.Stream(rs), rs, i)
  {
    hide HoldsAt, SL.Framed;
    if rs != [] {
      var n := |rs| - 1;
      var front, last := rs[..n], rs[n];
      LastHolds(SL.Stream(front), rs) by {
        StreamHolds(front);
        OffsetOfPrefix(rs, n, n);
      }
      StreamHolds(front);
      SL.StreamAppends(front, last);
      assert front + [last] == rs;
      OffsetOfPrefix(rs, n, n);
      forall i | 0 <= i < |rs| ensures HoldsAt(SL.Stream(rs), rs, i) {
        if i < n {
          OffsetOfPrefix(rs, n, i);
          OffsetOfPrefix(rs, n, i + 1);
          StillHolds(SL.Stream(front), SL.Framed(last), front, rs, i);
        } else {
          LastHolds(SL.Stream(front), rs);
        }
      }
    }
  }

  lemma LastHolds(wire: string, rs: seq<SL.Response>)
    requires rs != [] && |wire| == Offset(rs, |rs| - 1)
    ensures HoldsAt(wire + SL.Framed(rs[|rs| - 1]), rs, |rs| - 1)
    ensures |wire + SL.Framed(rs[|rs| - 1])| == Offset(rs, |rs|)
  {
  }

  lemma StillHolds(wire: string, more: string, front: seq<SL.Response>, rs: seq<SL.Response>, i: nat)
    requires front <= rs && i < |front| && HoldsAt(wire, front, i)
    requires Offset(front, i) == Offset(rs, i) && Offset(front, i + 1) == Offset(rs, i + 1)
    ensures HoldsAt(wire + more, rs, i)
  {
    var at, n := Offset(rs, i), |rs[i].data|;
    assert (wire + more)[at..at + n] == wire[at..at + n];
  }

  function DataLength(rs: seq<SL.Response>): nat {
    if rs == [] then 0 else DataLength(rs[..|rs| - 1]) + |rs[|rs| - 1].data|
  }

  function CustomCount(rs: seq<SL.Response>): nat {
    if rs == [] then 0 else CustomCount(rs[..|rs| - 1]) + if rs[|rs| - 1].protocol == Custom then 1 else 0
  }

  lemma {:induction false} OffsetCounts(rs: seq<SL.Response>)
    ensures Offset(rs, |rs|) == DataLength(rs) + CustomCount(rs)
  {
    if rs != [] {
      OffsetCounts(rs[..|rs| - 1]);
      OffsetOfPrefix(rs, |rs| - 1, |rs| - 1);
    }
  }

  /**
    For any responses of both protocols: the bytes at each one's place are its data, followed by 0x1F exactly
    when it is custom, and there are no other bytes.
   */
  lemma StreamBytes(rs: seq<SL.Response>)
    ensures forall i :: 0 <= i < |rs| ==> HoldsAt(SL.Stream(rs), rs, i)
    ensures |SL.Stream(rs)| == DataLength(rs) + CustomCount(rs) == Offset(rs, |rs|)
  {
    StreamHolds(rs);
    OffsetCounts(rs);
  }

  // ---------- RESP replies ----------

  function AsResponses(rs: seq<Reply>): (responses: seq<SL.Response>)
    ensures |responses| == |rs|
    ensures forall i :: 0 <= i < |rs| ==> responses[i] == SL.Response(Resp, Encode(rs[i]))
  {
    seq(|rs|, i requires 0 <= i < |rs| => SL.Response(Resp, Encode(rs[i])))
  }

  lemma {:induction false} RepliesStream(rs: seq<Reply>)
    ensures SL.Stream(AsResponses(rs)) == EncodeAll(rs)
  {
    if rs != [] {
      RepliesStream(rs[1..]);
      assert AsResponses(rs)[1..] == AsResponses(rs[1..]);
    }
  }

  /** A RESP reader finds in the whole stream of RESP replies exactly those replies, and nothing behind them. */
  lemma RepliesReadBack(rs: seq<Reply>)
    requires forall i :: 0 <= i < |rs| ==> Encodable(rs[i])
    ensures DecodeMany(SL.Stream(AsResponses(rs)), |rs|) == GotAll(rs, [])
  {
    hide Encodable;
    RepliesStream(rs);
    DecodeInvertsEncodeAll(rs, []);
    assert EncodeAll(rs) + [] == EncodeAll(rs);
  }

  /** Sends RESP replies; on a socket that takes them all, the reader gets them back. */
  method SendReplies(rs: seq<Reply>, script: seq<SL.Outcome>) returns (wire: string)
    requires forall i :: 0 <= i < |rs| ==> Encodable(rs[i])
    ensures var responses := AsResponses(rs);
      && |wire| == SL.Delivered(script, 0, DataLength(responses))
      && (SL.Capacity(script, 0) >= DataLength(responses) ==> DecodeMany(wire, |rs|) == GotAll(rs, []))
  {
    hide Encodable, SL.Delivered, SL.Capacity, DecodeMany, EncodeAll, SL.Stream, DataLength, CustomCount;
    hide HoldsAt, Encode;
    var responses := AsResponses(rs);
    var iov, index, failed, calls;
    wire, iov, index, failed, calls := SL.SendResponses(responses, script);
    RepliesReadBack(rs);
    StreamBytes(responses);
    NoCustom(rs);
    SL.DeliveredIsCapacity(script, 0, |SL.Stream(responses)|);
    if SL.Capacity(script, 0) >= |SL.Stream(responses)| {
      assert SL.Unsent(iov[index..]) == [];
      assert wire == SL.Stream(responses);
    }
  }

  lemma {:induction false} NoCustom(rs: seq<Reply>)
    ensures CustomCount(AsResponses(rs)) == 0
  {
    if rs != [] {
      NoCustom(rs[..|rs| - 1]);
      assert AsResponses(rs)[..|rs| - 1] == AsResponses(rs[..|rs| - 1]);
    }
  }
}
