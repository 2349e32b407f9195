/** The server's shards as so many stores that know nothing of each other. */
module Sharding {
  import opened Common
  import opened StoreModel
  import opened Rounds
  import SM = StoreRefinement
  import SR = StoreRuns
  import T = Transactions

  function OpFor(q: T.Command): SR.Op {
    match q
    case Get(key) => SR.OpGet(key)
    case Set(key, value) => SR.OpSet(key, value)
    case Del(key) => SR.OpDel(key)
  }

  /** The commands among the events whose key's hash leaves `i` when divided by `n`, in order. */
  function Dealt(cfg: Config, n: nat, i: nat, events: seq<Event>): seq<SR.Op>
    requires 0 < n
  {
    if events == [] then []
    else
      var dealt := Dealt(cfg, n, i, events[..|events| - 1]);
      match CommandIn(events[|events| - 1])
      case None => dealt
      case Some(q) => if cfg.hash(q.key) % n == i then dealt + [OpFor(q)] else dealt
  }

  /** Shard `i` on its own, given only the commands dealt to it. */
  function Alone(cfg: Config, sv: Server, i: nat, events: seq<Event>): (t: SR.Trace)
    requires Ready(sv) && i < |sv.shards|
    ensures Inv(t.store)
  {
    SR.Run(cfg, sv.shards[i].store, Dealt(cfg, |sv.shards|, i, events))
  }

  lemma AloneGrows(cfg: Config, sv: Server, i: nat, events: seq<Event>)
    requires Ready(sv) && i < |sv.shards| && events != []
    ensures var before, last := Alone(cfg, sv, i, events[..|events| - 1]), CommandIn(events[|events| - 1]);
      Alone(cfg, sv, i, events) ==
        if last.Some? && cfg.hash(last.value.key) % |sv.shards| == i then SR.Step(cfg, before, OpFor(last.value))
        else before
  {
    hide SR.Step;
    var last, dealt := CommandIn(events[|events| - 1]), Dealt(cfg, |sv.shards|, i, events[..|events| - 1]);
    if last.Some? {
      var ops := dealt + [OpFor(last.value)];
      assert ops[..|ops| - 1] == dealt;
    }
  }

  /** The server has stopped exactly if some shard has, and every shard is as it would be on its own. */
  ghost predicate Apart(cfg: Config, sv: Server, events: seq<Event>)
    requires Ready(sv)
  {
    var after := After(cfg, sv, events);
    && (after.halted <==> exists i :: 0 <= i < |sv.shards| && Alone(cfg, sv, i, events).halted)
    && (!after.halted ==>
          forall i :: 0 <= i < |sv.shards| ==> after.shards[i].store == Alone(cfg, sv, i, events).store)
  }

  lemma PerformOnOne(cfg: Config, sv: Server, q: T.Command, t: SR.Trace)
    requires Ready(sv) && !sv.halted
    requires t.store == sv.shards[cfg.hash(q.key) % |sv.shards|].store && !t.halted
    ensures var r, i, t' := Perform(cfg, sv, q), cfg.hash(q.key) % |sv.shards|, SR.Step(cfg, t, OpFor(q));
      && r.halted == t'.halted && |r.shards| == |sv.shards|
      && (!r.halted ==> r.shards[i].store == t'.store)
      && forall j :: 0 <= j < |sv.shards| && j != i ==> r.shards[j] == sv.shards[j]
  {
  }

  /**
    Whatever the interleaving of all connections' commands, each shard ends as a store that was given only the
    commands whose key's hash picks it, and the server stops exactly when one of these stores does.
   */
  lemma {:induction false} ShardsRunAlone(cfg: Config, sv: Server, events: seq<Event>)
    requires Ready(sv) && !sv.halted
    ensures Apart(cfg, sv, events)
    decreases |events|
  {
    hide Perform, SR.Step;
    if events == [] {
      assert forall i :: 0 <= i < |sv.shards| ==> Alone(cfg, sv, i, []) == SR.Trace(sv.shards[i].store, [], 0, false);
    } else {
      ShardsRunAlone(cfg, sv, events[..|events| - 1]);
      OneMore(cfg, sv, events);
    }
  }

  lemma OneMore(cfg: Config, sv: Server, events: seq<Event>)
    requires Ready(sv) && sv.shards != [] && events != [] && Apart(cfg, sv, events[..|events| - 1])
    ensures Apart(cfg, sv, events)
  {
    hide Ready, Perform, SR.Step, Alone;
    var earlier, last := events[..|events| - 1], CommandIn(events[|events| - 1]);
    var before := After(cfg, sv, earlier);
    forall i | 0 <= i < |sv.shards|
      ensures var t, t' := Alone(cfg, sv, i, earlier), Alone(cfg, sv, i, events);
        && (t.halted ==> t'.halted)
        && t' == if last.Some? && cfg.hash(last.value.key) % |sv.shards| == i then SR.Step(cfg, t, OpFor(last.value))
                 else t
    {
      AloneGrows(cfg, sv, i, events);
      if last.Some? {
        StaysHalted(cfg, Alone(cfg, sv, i, earlier), OpFor(last.value));
      }
    }
    if last.Some? && !before.halted {
      PerformOnOne(cfg, before, last.value, Alone(cfg, sv, cfg.hash(last.value.key) % |sv.shards|, earlier));
    }
  }

  lemma StaysHalted(cfg: Config, t: SR.Trace, op: SR.Op)
    requires Inv(t.store)
    ensures t.halted ==> SR.Step(cfg, t, op).halted
  {
  }

  /** The custom response a store's reply becomes. */
  function ReplyText(r: SR.Reply): string {
    match r
    case GetReply(found) => if found.Some? then found.value else "(nil)"
    case SetReply(outcome) => if outcome.Stored? then "OK" else "ERROR: Internal error"
    case DelReply(deleted) => if deleted then "OK" else "ERROR: Key does not exist"
  }

  /** Every command is answered with what its shard, running on its own, replies to it last. */
  lemma AnsweredAlone(cfg: Config, sv: Server, events: seq<Event>, k: nat, q: T.Command)
    requires Ready(sv) && sv.shards != [] && !sv.halted && k < |events| && CommandIn(events[k]) == Some(q)
    requires !After(cfg, sv, events[..k + 1]).halted
    ensures var replies := Alone(cfg, sv, cfg.hash(q.key) % |sv.shards|, events[..k + 1]).replies;
      replies != [] && AnswerAt(cfg, sv, events, k).text == ReplyText(replies[|replies| - 1])
  {
    hide Ready, Perform, Alone;
    var i, upTo := cfg.hash(q.key) % |sv.shards|, events[..k + 1];
    assert upTo[..k] == events[..k];
    AfterGrows(cfg, sv, events, k);
    ShardsRunAlone(cfg, sv, upTo);
    ShardsRunAlone(cfg, sv, events[..k]);
    AloneGrows(cfg, sv, i, upTo);
    LastReply(cfg, After(cfg, sv, events[..k]), Alone(cfg, sv, i, events[..k]), q);
  }

  lemma LastReply(cfg: Config, sv: Server, t: SR.Trace, q: T.Command)
    requires Ready(sv) && Inv(t.store) && !t.halted && t.store == sv.shards[cfg.hash(q.key) % |sv.shards|].store
    requires !SR.Step(cfg, t, OpFor(q)).halted
    ensures var replies := SR.Step(cfg, t, OpFor(q)).replies;
      replies != [] && AnswerTo(cfg, sv, q).text == ReplyText(replies[|replies| - 1])
  {
    hide Ready, Inv, SetSpec, DelSpec, SR.Lookup;
  }

  // ---------- One map behind all shards ----------

  /** What every key was last set to, over all events, by a set answered "OK". */
  function Written(cfg: Config, sv: Server, events: seq<Event>): map<CString, CString>
    requires Ready(sv)
  {
    if events == [] then map[]
    else
      var n := |events| - 1;
      var m := Written(cfg, sv, events[..n]);
      match CommandIn(events[n])
      case Some(Set(key, value)) => if AnswerAt(cfg, sv, events, n).text == "OK" then m[key := value] else m
      case _ => m
  }

  lemma StepReplies(cfg: Config, t: SR.Trace, q: T.Command)
    requires Inv(t.store) && !SR.Step(cfg, t, OpFor(q)).halted
    ensures var replies := SR.Step(cfg, t, OpFor(q)).replies;
      && t.replies < replies && |replies| == |t.replies| + 1
      && (ReplyText(replies[|t.replies|]) == "OK" && q.Set? <==> q.Set? && replies[|t.replies|] == SR.SetReply(Stored))
  {
    hide Inv, SetSpec, DelSpec, SR.Lookup;
  }

  /** What the key's shard has of the key on its own is what all events together wrote to it. */
  ghost predicate Mirrors(cfg: Config, sv: Server, events: seq<Event>, key: CString)
    requires Ready(sv)
  {
    var i := cfg.hash(key) % |sv.shards|;
    var ops, t := Dealt(cfg, |sv.shards|, i, events), Alone(cfg, sv, i, events);
    && !t.halted && |t.replies| == |ops|
    && SM.Find(SM.Latest(ops, t.replies), key) == SM.Find(Written(cfg, sv, events), key)
  }

  lemma LatestOneMore(ops: seq<SR.Op>, q: T.Command, before: seq<SR.Reply>, after: seq<SR.Reply>)
    requires |before| == |ops| && before < after && |after| == |ops| + 1
    ensures SM.Latest(ops + [OpFor(q)], after) == SM.Updated(SM.Latest(ops, before), OpFor(q), after[|ops|])
  {
    var longer := ops + [OpFor(q)];
    assert longer[..|ops|] == ops;
    SM.LatestGrows(longer, |ops|, before, after);
  }

  /** A command dealt to the key's shard. */
  lemma MirrorsOneMore(cfg: Config, sv: Server, events: seq<Event>, key: CString, n: nat, q: T.Command)
    requires Ready(sv) && sv.shards != [] && !sv.halted && |events| == n + 1 && !After(cfg, sv, events).halted
    requires CommandIn(events[n]) == Some(q) && cfg.hash(q.key) % |sv.shards| == cfg.hash(key) % |sv.shards|
    requires Mirrors(cfg, sv, events[..n], key)
    ensures Mirrors(cfg, sv, events, key)
  {
    hide Ready, Perform, SR.Step, SR.Run, Alone, AnswerTo, SM.Latest, After, ReplyText;
    var i := cfg.hash(key) % |sv.shards|;
    var t, t' := Alone(cfg, sv, i, events[..n]), Alone(cfg, sv, i, events);
    assert events[..n + 1] == events;
    AloneGrows(cfg, sv, i, events);
    ShardsRunAlone(cfg, sv, events);
    AnsweredAlone(cfg, sv, events, n, q);
    StepReplies(cfg, t, q);
    LatestOneMore(Dealt(cfg, |sv.shards|, i, events[..n]), q, t.replies, t'.replies);
  }

  lemma {:induction false} WrittenIsLatest(cfg: Config, sv: Server, events: seq<Event>, key: CString)
    requires Ready(sv) && sv.shards != [] && !sv.halted && !After(cfg, sv, events).halted
    ensures Mirrors(cfg, sv, events, key)
    decreases |events|
  {
    hide Ready, Perform, SR.Step, AnswerTo;
    if events != [] {
      var n := |events| - 1;
      var last := CommandIn(events[n]);
      StaysRunning(cfg, sv, events, n);
      WrittenIsLatest(cfg, sv, events[..n], key);
      if last.Some? && cfg.hash(last.value.key) % |sv.shards| == cfg.hash(key) % |sv.shards| {
        MirrorsOneMore(cfg, sv, events, key, n, last.value);
      }
    }
  }

  // ---------- No deletes and nothing lost ----------

  ghost predicate NoDeletes(events: seq<Event>) {
    forall k :: 0 <= k < |events| && CommandIn(events[k]).Some? ==> !CommandIn(events[k]).value.Del?
  }

  /** Every shard starts empty, none has stopped, and no resize of any shard gave up on an entry. */
  ghost predicate Lossless(cfg: Config, sv: Server, events: seq<Event>, size: nat, growth: Growth)
    requires 2 <= size && Grows(size, growth)
  {
    && Ready(sv) && !sv.halted && !After(cfg, sv, events).halted
    && forall i :: 0 <= i < |sv.shards| ==>
         sv.shards[i].store == Initial(size, growth) && Alone(cfg, sv, i, events).lost == 0
  }

  lemma {:induction false} DealtNoDeletes(cfg: Config, n: nat, i: nat, events: seq<Event>)
    requires 0 < n && NoDeletes(events)
    ensures SM.NoDel(Dealt(cfg, n, i, events))
    decreases |events|
  {
    if events != [] {
      DealtNoDeletes(cfg, n, i, events[..|events| - 1]);
    }
  }

  lemma {:induction false} LosslessBefore(
      cfg: Config, sv: Server, events: seq<Event>, size: nat, growth: Growth, k: nat)
    requires k <= |events| && 2 <= size && Grows(size, growth) && Lossless(cfg, sv, events, size, growth)
    ensures Lossless(cfg, sv, events[..k], size, growth)
    decreases |events|
  {
    hide Perform, SR.Step, SR.Run, Dealt;
    if k == |events| {
      assert events[..k] == events;
    } else {
      var n := |events| - 1;
      StaysRunning(cfg, sv, events, n);
      forall i | 0 <= i < |sv.shards| ensures Alone(cfg, sv, i, events[..n]).lost == 0 {
        AloneGrows(cfg, sv, i, events);
        if CommandIn(events[n]).Some? {
          SM.StepShape(cfg, Alone(cfg, sv, i, events[..n]), OpFor(CommandIn(events[n]).value));
        }
      }
      LosslessBefore(cfg, sv, events[..n], size, growth, k);
      assert events[..n][..k] == events[..k];
    }
  }

  lemma KeyReads(cfg: Config, sv: Server, events: seq<Event>, size: nat, growth: Growth, key: CString)
    requires RoundTrips(cfg.codec) && 2 <= size && Grows(size, growth) && NoDeletes(events)
    requires sv.shards != [] && Lossless(cfg, sv, events, size, growth)
    ensures SR.Lookup(cfg, After(cfg, sv, events).shards[cfg.hash(key) % |sv.shards|].store, key)
      == SM.Find(Written(cfg, sv, events), key)
  {
    hide Perform, SR.Step, SR.Run, SM.Latest, SR.Lookup, Dealt, Written, Grows, RoundTrips, After;
    var i := cfg.hash(key) % |sv.shards|;
    var ops := Dealt(cfg, |sv.shards|, i, events);
    DealtNoDeletes(cfg, |sv.shards|, i, events);
    ShardsRunAlone(cfg, sv, events);
    WrittenIsLatest(cfg, sv, events, key);
    SM.RunsRefineMap(cfg, size, growth, ops);
  }

  lemma GetText(cfg: Config, sv: Server, key: CString)
    requires Ready(sv)
    ensures AnswerTo(cfg, sv, T.Get(key)).text ==
      match SR.Lookup(cfg, sv.shards[cfg.hash(key) % |sv.shards|].store, key)
      case Some(v) => v
      case None => "(nil)"
  {
    hide Ready, Inv;
  }

  /**
    All shards together are one map. Through any interleaving of connections and any resizes, as long as nothing
    is deleted and no resize gives up, every key reads as the latest set answered "OK", whichever shard it fell to,
    and so was every get answered.
   */
  lemma ServerIsMap(cfg: Config, sv: Server, events: seq<Event>, size: nat, growth: Growth)
    requires RoundTrips(cfg.codec) && 2 <= size && Grows(size, growth) && NoDeletes(events)
    requires sv.shards != [] && Lossless(cfg, sv, events, size, growth)
    ensures forall key: CString ::
      SR.Lookup(cfg, After(cfg, sv, events).shards[cfg.hash(key) % |sv.shards|].store, key)
        == SM.Find(Written(cfg, sv, events), key)
    ensures forall k :: 0 <= k < |events| && CommandIn(events[k]).Some? && CommandIn(events[k]).value.Get? ==>
      var was := SM.Find(Written(cfg, sv, events[..k]), CommandIn(events[k]).value.key);
      AnswerAt(cfg, sv, events, k).text == if was.Some? then was.value else "(nil)"
  {
    hide Perform, Alone, SM.Latest, SR.Lookup, Written, Grows, RoundTrips, After, AnswerTo;
    forall key: CString ensures SR.Lookup(cfg, After(cfg, sv, events).shards[cfg.hash(key) % |sv.shards|].store, key)
        == SM.Find(Written(cfg, sv, events), key) {
      KeyReads(cfg, sv, events, size, growth, key);
    }
    forall k | 0 <= k < |events| && CommandIn(events[k]).Some? && CommandIn(events[k]).value.Get?
      ensures var was := SM.Find(Written(cfg, sv, events[..k]), CommandIn(events[k]).value.key);
        AnswerAt(cfg, sv, events, k).text == if was.Some? then was.value else "(nil)"
    {
      var key := CommandIn(events[k]).value.key;
      LosslessBefore(cfg, sv, events, size, growth, k);
      KeyReads(cfg, sv, events[..k], size, growth, key);
      GetText(cfg, After(cfg, sv, events[..k]), key);
    }
  }
}
