/** What reaches a custom client when its responses are sent round by round and some sends fail. */
module RoundSends {
  import opened Common
  import opened Framing
  import CM = ClientModel
  import SL = SendLoop

  function Responses(texts: seq<string>): (rs: seq<SL.Response>)
    ensures |rs| == |texts|
  {
    if texts == [] then [] else [SL.Response(Custom, texts[0])] + Responses(texts[1..])
  }

  lemma {:induction false} StreamIsJoint(texts: seq<string>)
    ensures SL.Stream(Responses(texts)) == CM.Joint(texts)
  {
    if texts != [] {
      StreamIsJoint(texts[1..]);
      assert Responses(texts)[1..] == Responses(texts[1..]);
    }
  }

  /** The texts a round sends to the client, and what the socket does with them. */
  datatype Batch = Batch(texts: seq<string>, script: seq<SL.Outcome>) {
    function Bytes(): string { CM.Joint(texts) }

    /** How many of the bytes get out. */
    function Out(): (n: nat)
      ensures n <= |Bytes()|
    {
      SL.Delivered(script, 0, |Bytes()|)
    }

    predicate Short() { Out() < |Bytes()| }
  }

  /** One round's `sendResponses` puts out that much of its bytes, from the front. */
  method SendBatch(b: Batch) returns (wire: string)
    ensures wire == b.Bytes()[..b.Out()]
  {
    StreamIsJoint(b.texts);
    var iov, index, failed, calls;
    wire, iov, index, failed, calls := SL.SendResponses(Responses(b.texts), b.script);
    assert wire == (wire + SL.Unsent(iov[index..]))[..|wire|];
  }

  // ---------- Many rounds ----------

  function AllTexts(bs: seq<Batch>): seq<string> {
    if bs == [] then [] else AllTexts(bs[..|bs| - 1]) + bs[|bs| - 1].texts
  }

  /** What was to be sent. */
  function Intended(bs: seq<Batch>): string {
    if bs == [] then [] else Intended(bs[..|bs| - 1]) + bs[|bs| - 1].Bytes()
  }

  /** What was sent: a failed send is given up, and the next round follows on the same connection. */
  function Wire(bs: seq<Batch>): string {
    if bs == [] then []
    else
      var b := bs[|bs| - 1];
      Wire(bs[..|bs| - 1]) + b.Bytes()[..b.Out()]
  }

  method SendAll(bs: seq<Batch>) returns (wire: string)
    ensures wire == Wire(bs)
  {
    wire := [];
    for i := 0 to |bs|
      invariant wire == Wire(bs[..i])
    {
      var sent := SendBatch(bs[i]);
      assert bs[..i + 1][..i] == bs[..i];
      wire := wire + sent;
    }
    assert bs[..|bs|] == bs;
  }

  lemma {:induction false} JointAppends(a: seq<string>, b: seq<string>)
    ensures CM.Joint(a + b) == CM.Joint(a) + CM.Joint(b)
  {
    if a == [] {
      assert a + b == b;
    } else {
      JointAppends(a[1..], b);
      assert (a + b)[1..] == a[1..] + b;
      Associates(a[0] + [MSG_SEPARATOR], CM.Joint(a[1..]), CM.Joint(b));
    }
  }

  lemma {:induction false} IntendedIsJoint(bs: seq<Batch>)
    ensures Intended(bs) == CM.Joint(AllTexts(bs))
  {
    if bs != [] {
      var n := |bs| - 1;
      IntendedIsJoint(bs[..n]);
      JointAppends(AllTexts(bs[..n]), bs[n].texts);
    }
  }

  // ---------- Where the bytes sent belong ----------

  function From(first: nat, n: nat): (s: seq<nat>)
    ensures |s| == n && forall i :: 0 <= i < n ==> s[i] == first + i
  {
    seq(n, i => first + i)
  }

  /** For each byte sent, its place in what was to be sent. */
  function Places(bs: seq<Batch>): seq<nat> {
    if bs == [] then []
    else
      var n := |bs| - 1;
      Places(bs[..n]) + From(|Intended(bs[..n])|, bs[n].Out())
  }

  lemma PlacesStep(before: string, bytes: string, out: nat, wire: string, places: seq<nat>)
    requires out <= |bytes| && |places| == |wire|
    requires forall k :: 0 <= k < |wire| ==> places[k] < |before| && wire[k] == before[places[k]]
    ensures var all, wire', places' := before + bytes, wire + bytes[..out], places + From(|before|, out);
      && |places'| == |wire'|
      && forall k :: 0 <= k < |wire'| ==> places'[k] < |all| && wire'[k] == all[places'[k]]
  {
  }

  lemma {:induction false} WireAtPlaces(bs: seq<Batch>)
    ensures |Places(bs)| == |Wire(bs)|
    ensures forall k :: 0 <= k < |Wire(bs)| ==>
      Places(bs)[k] < |Intended(bs)| && Wire(bs)[k] == Intended(bs)[Places(bs)[k]]
  {
    if bs != [] {
      var n := |bs| - 1;
      WireAtPlaces(bs[..n]);
      PlacesStep(Intended(bs[..n]), bs[n].Bytes(), bs[n].Out(), Wire(bs[..n]), Places(bs[..n]));
    }
  }

  /** Every byte sent is the next one to be sent. */
  ghost predicate InPlace(bs: seq<Batch>) {
    CountsUp(Places(bs))
  }

  ghost predicate AnyShort(bs: seq<Batch>) {
    exists i :: 0 <= i < |bs| && bs[i].Short()
  }

  /** A round that came up short is followed by one that gets a byte out. */
  ghost predicate Gap(bs: seq<Batch>) {
    exists i, j :: 0 <= i < j < |bs| && bs[i].Short() && bs[j].Out() > 0
  }

  lemma ShortGrows(bs: seq<Batch>, n: nat)
    requires n == |bs| - 1
    ensures AnyShort(bs) <==> AnyShort(bs[..n]) || bs[n].Short()
  {
    if AnyShort(bs[..n]) {
      var i :| 0 <= i < n && bs[..n][i].Short();
      assert bs[i].Short();
    }
    if AnyShort(bs) {
      var i :| 0 <= i < |bs| && bs[i].Short();
      assert i < n ==> bs[..n][i].Short();
    }
  }

  lemma GapGrows(bs: seq<Batch>, n: nat)
    requires n == |bs| - 1
    ensures Gap(bs) <==> Gap(bs[..n]) || (AnyShort(bs[..n]) && bs[n].Out() > 0)
  {
    hide Batch.Out, Batch.Short;
    var front := bs[..n];
    if AnyShort(front) {
      var i :| 0 <= i < n && front[i].Short();
      assert bs[i].Short();
    }
    if Gap(front) {
      var i, j :| 0 <= i < j < n && front[i].Short() && front[j].Out() > 0;
      assert bs[i].Short() && bs[j].Out() > 0;
    }
    if Gap(bs) {
      var i, j :| 0 <= i < j < |bs| && bs[i].Short() && bs[j].Out() > 0;
      assert front[i].Short();
      assert j < n ==> front[j].Out() > 0;
    }
  }

  /** All was sent exactly when no round came up short. */
  lemma {:induction false} AllOutIff(bs: seq<Batch>)
    ensures |Places(bs)| <= |Intended(bs)|
    ensures |Places(bs)| == |Intended(bs)| <==> !AnyShort(bs)
  {
    if bs != [] {
      var n := |bs| - 1;
      AllOutIff(bs[..n]);
      ShortGrows(bs, n);
    }
  }

  ghost predicate CountsUp(places: seq<nat>) {
    forall k :: 0 <= k < |places| ==> places[k] == k
  }

  lemma CountsUpStep(places: seq<nat>, first: nat, out: nat)
    requires |places| <= first
    ensures CountsUp(places + From(first, out)) <==> CountsUp(places) && (out == 0 || |places| == first)
  {
    var all := places + From(first, out);
    assert forall k :: 0 <= k < |places| ==> all[k] == places[k];
    assert out > 0 ==> all[|places|] == first;
  }

  /** The bytes sent are sent in their places if and only if no round that came up short is followed by more. */
  lemma {:induction false} InPlaceIff(bs: seq<Batch>)
    ensures InPlace(bs) <==> !Gap(bs)
  {
    if bs != [] {
      var n := |bs| - 1;
      InPlaceIff(bs[..n]);
      AllOutIff(bs[..n]);
      GapGrows(bs, n);
      CountsUpStep(Places(bs[..n]), |Intended(bs[..n])|, bs[n].Out());
    }
  }

  /** Then what was sent is a prefix of what was to be sent, and all of it if no round came up short. */
  lemma WireIsPrefix(bs: seq<Batch>)
    requires !Gap(bs)
    ensures Wire(bs) <= Intended(bs)
    ensures !AnyShort(bs) ==> Wire(bs) == Intended(bs)
  {
    InPlaceIff(bs);
    WireAtPlaces(bs);
    AllOutIff(bs);
    assert CountsUp(Places(bs));
  }

  /** Bytes out of place may still look right: a reply equal to the one dropped before it stands in for it. */
  lemma GapMayNotShow(text: string, n: nat)
    requires |text| < n
    ensures var bs := [Batch([text], [SL.Broken]), Batch([text], [SL.Took(n)])];
      Gap(bs) && !InPlace(bs) && Wire(bs) <= Intended(bs)
  {
    var bs := [Batch([text], [SL.Broken]), Batch([text], [SL.Took(n)])];
    assert CM.Joint([text]) == text + [MSG_SEPARATOR] + CM.Joint([]);
    assert bs[0].Out() == 0 && bs[0].Short() && bs[1].Out() == |text| + 1;
    InPlaceIff(bs);
    assert bs[..1] == [bs[0]] && bs[..1][..0] == [];
    assert Wire(bs[..1]) == [] && Intended(bs[..1]) == bs[0].Bytes();
  }

  // ---------- Rounds dropped whole ----------

  ghost predicate AllOrNothing(bs: seq<Batch>) {
    forall i :: 0 <= i < |bs| ==> bs[i].Out() == 0 || !bs[i].Short()
  }

  /** The texts of the rounds that got out. */
  function Survivors(bs: seq<Batch>): seq<string> {
    if bs == [] then []
    else
      var b := bs[|bs| - 1];
      Survivors(bs[..|bs| - 1]) + if b.Out() == 0 then [] else b.texts
  }

  /** When each round gets out whole or not at all, the client sees the surviving ones and no trace of the rest. */
  lemma {:induction false} DroppedRoundsLeaveNoTrace(bs: seq<Batch>)
    requires AllOrNothing(bs)
    ensures Wire(bs) == CM.Joint(Survivors(bs))
  {
    if bs != [] {
      var n := |bs| - 1;
      var b := bs[n];
      assert forall i :: 0 <= i < n ==> bs[..n][i] == bs[i];
      DroppedRoundsLeaveNoTrace(bs[..n]);
      if b.Out() == 0 {
        assert Survivors(bs[..n]) + [] == Survivors(bs[..n]);
      } else {
        assert b.Bytes()[..b.Out()] == b.Bytes();
        JointAppends(Survivors(bs[..n]), b.texts);
      }
    }
  }
}
