/** How large the table is over a run, when it grows, and when it cannot. */
module StoreGrowth {
  import opened Common
  import opened StoreModel
  import opened StoreRuns

  function PowerOfTwo(k: nat): nat {
    if k == 0 then 1 else 2 * PowerOfTwo(k - 1)
  }

  /** The table of a store created with `size` and `growth` and resized as often as it counts. */
  ghost predicate SizedAs(s: Store, size: nat, growth: Growth) {
    var k := s.numResizes;
    match growth
    case Doubling => s.growth == Doubling && s.size == size * PowerOfTwo(k)
    case Primes(q) =>
      k <= |q| && s.growth == Primes(q[k..]) && s.size == if k == 0 then size else q[k - 1]
  }

  /** As many entries as 70% of the table size have been counted. */
  predicate Crowded(s: Store) {
    s.numEntries >= s.size * 70 / 100
  }

  /** Every size queued has been used. */
  predicate UsedUp(growth: Growth, resizes: nat) {
    match growth
    case Doubling => false
    case Primes(q) => resizes == |q|
  }

  lemma ResizeSized(cfg: Config, s: Store, size: nat, growth: Growth)
    requires Inv(s) && SizedAs(s, size, growth) && Crowded(s)
    ensures NextSize(s).None? <==> UsedUp(growth, s.numResizes)
    ensures NextSize(s).Some? ==>
      var r := ResizeSpec(cfg, s).0;
      && SizedAs(r, size, growth) && r.numResizes == s.numResizes + 1
      && r.numEntries == s.numEntries
  {
    hide Inv, MigrateTo;
    var k := s.numResizes;
    match growth
    case Doubling =>
      assert size * PowerOfTwo(k + 1) == 2 * (size * PowerOfTwo(k));
    case Primes(q) =>
      if k < |q| {
        assert q[k..][1..] == q[k + 1..];
      }
  }

  lemma InsertSized(cfg: Config, s: Store, key: CString, value: CString, path: seq<nat>)
    requires Inv(s) && s.numEntries < Threshold(s.size) && IsPath(path, s.size)
    ensures var (ok, r) := InsertSpec(cfg, s, key, value, path);
      && 0 < r.size == s.size && r.growth == s.growth && r.numResizes == s.numResizes
      && r.numEntries == s.numEntries + if ok then 1 else 0
  {
  }

  /** A set resizes exactly when the table is crowded, and throws exactly when moreover no size is left. */
  lemma SetSized(cfg: Config, s: Store, key: CString, value: CString, size: nat, growth: Growth)
    requires Inv(s) && SizedAs(s, size, growth)
    ensures var r := SetSpec(cfg, s, key, value, cfg.hash(key));
      && (r.outcome.Exhausted? <==> Crowded(s) && UsedUp(growth, s.numResizes))
      && (!r.outcome.Exhausted? ==>
            && 0 < r.store.size && SizedAs(r.store, size, growth)
            && r.store.numResizes == s.numResizes + (if Crowded(s) then 1 else 0)
            && r.store.numEntries == s.numEntries + (if r.outcome.Stored? then 1 else 0))
  {
    hide Inv, ResizeSpec, InsertSpec, NextSize, ProbePath;
    if Crowded(s) {
      ResizeSized(cfg, s, size, growth);
      if NextSize(s).Some? {
        var g := ResizeSpec(cfg, s).0;
        InsertSized(cfg, g, key, value, ProbePath(cfg.hash(key), g.size));
      }
    } else {
      InsertSized(cfg, s, key, value, ProbePath(cfg.hash(key), s.size));
    }
  }

  // ---------- Over a run ----------

  /** How many of the replies say that a set succeeded. */
  function StoredIn(replies: seq<Reply>): nat {
    if replies == [] then 0
    else StoredIn(replies[..|replies| - 1]) + if replies[|replies| - 1] == SetReply(Stored) then 1 else 0
  }

  lemma StoredOneMore(replies: seq<Reply>, r: Reply)
    ensures StoredIn(replies + [r]) == StoredIn(replies) + if r == SetReply(Stored) then 1 else 0
  {
    assert (replies + [r])[..|replies|] == replies;
  }

  ghost predicate CountedAs(t: Trace, size: nat, growth: Growth) {
    Inv(t.store) && 0 < t.store.size && SizedAs(t.store, size, growth) && t.store.numEntries == StoredIn(t.replies)
  }

  /** What one more operation does to the size and the counts, and exactly when it throws. */
  lemma StepSized(cfg: Config, t: Trace, op: Op, size: nat, growth: Growth)
    requires CountedAs(t, size, growth)
    ensures var r := Step(cfg, t, op);
      && CountedAs(r, size, growth)
      && (r.halted <==> t.halted || (op.OpSet? && Crowded(t.store) && UsedUp(growth, t.store.numResizes)))
      && (!r.halted ==>
            r.store.numResizes == t.store.numResizes + if op.OpSet? && Crowded(t.store) then 1 else 0)
  {
    hide Inv, SetSpec, SizedAs, Crowded, UsedUp, Lookup, PathsFor;
    if !t.halted {
      match op
      case OpGet(key) => StoredOneMore(t.replies, GetReply(Lookup(cfg, t.store, key)));
      case OpDel(key) =>
        DelSized(t.store, key, PathsFor(cfg, t.store.size)(key), size, growth);
        StoredOneMore(t.replies, DelReply(DelSpec(t.store, key, PathsFor(cfg, t.store.size)(key)).0));
      case OpSet(key, value) =>
        SetSized(cfg, t.store, key, value, size, growth);
        StoredOneMore(t.replies, SetReply(SetSpec(cfg, t.store, key, value, cfg.hash(key)).outcome));
    }
  }

  lemma DelSized(s: Store, key: CString, path: seq<nat>, size: nat, growth: Growth)
    requires Inv(s) && SizedAs(s, size, growth)
    ensures var r := DelSpec(s, key, path).1;
      && SizedAs(r, size, growth) && r.numEntries == s.numEntries && r.numResizes == s.numResizes
      && r.size == s.size
  {
    hide Inv;
  }

  /**
    Over every run: after k resizes the table has the k-th size queued, or the first size doubled k times, and
    the sizes not used yet are still queued in order. The entries counted are the sets that succeeded, deletes
    or not. The next set resizes exactly when those reach 70% of the size, and throws exactly when no size is
    left then.
   */
  lemma {:induction false} RunSizes(cfg: Config, size: nat, growth: Growth, ops: seq<Op>)
    requires 2 <= size && Grows(size, growth)
    ensures var t := Run(cfg, Initial(size, growth), ops);
      && SizedAs(t.store, size, growth) && t.store.numEntries == StoredIn(t.replies)
      && forall op: Op {:trigger Step(cfg, t, op)} ::
           && (Step(cfg, t, op).halted <==>
                 t.halted || (op.OpSet? && Crowded(t.store) && UsedUp(growth, t.store.numResizes)))
           && (!Step(cfg, t, op).halted ==>
                 Step(cfg, t, op).store.numResizes ==
                 t.store.numResizes + if op.OpSet? && Crowded(t.store) then 1 else 0)
  {
    var t := Run(cfg, Initial(size, growth), ops);
    RunCounted(cfg, size, growth, ops);
    forall op: Op {:trigger Step(cfg, t, op)}
      ensures Step(cfg, t, op).halted <==>
        t.halted || (op.OpSet? && Crowded(t.store) && UsedUp(growth, t.store.numResizes))
      ensures !Step(cfg, t, op).halted ==>
        Step(cfg, t, op).store.numResizes == t.store.numResizes + if op.OpSet? && Crowded(t.store) then 1 else 0
    {
      StepSized(cfg, t, op, size, growth);
    }
  }

  lemma {:induction false} RunCounted(cfg: Config, size: nat, growth: Growth, ops: seq<Op>)
    requires 2 <= size && Grows(size, growth)
    ensures CountedAs(Run(cfg, Initial(size, growth), ops), size, growth)
  {
    if ops == [] {
      InitiallySized(size, growth);
    } else {
      var n := |ops| - 1;
      RunCounted(cfg, size, growth, ops[..n]);
      StepSized(cfg, Run(cfg, Initial(size, growth), ops[..n]), ops[n], size, growth);
    }
  }

  lemma InitiallySized(size: nat, growth: Growth)
    requires 2 <= size && Grows(size, growth)
    ensures SizedAs(Initial(size, growth), size, growth) && Initial(size, growth).numEntries == 0
  {
    if growth.Primes? {
      assert growth.queue[0..] == growth.queue;
    }
  }
}
