/** Without deletes the store is a map, through any number of resizes. */
module StoreRefinement {
  import opened Common
  import opened StoreModel
  import opened StoreLookup
  import opened StoreTidy
  import opened StoreLoss
  import opened StoreRuns

  ghost predicate NoDel(ops: seq<Op>) {
    forall i :: 0 <= i < |ops| ==> !ops[i].OpDel?
  }

  ghost predicate TidyStore(cfg: Config, s: Store) {
    Inv(s) && Readable(cfg, s.pool.cells) && Tidy(PathsFor(cfg, s.size), s.pool.cells, s.table)
  }

  lemma SetKeepsTidy(cfg: Config, s: Store, key: CString, value: CString)
    requires RoundTrips(cfg.codec) && TidyStore(cfg, s)
    ensures var r := SetSpec(cfg, s, key, value, cfg.hash(key));
      !r.outcome.Exhausted? ==> TidyStore(cfg, r.store)
  {
    var paths := PathsFor(cfg, s.size);
    TidyIsReachable(paths, s);
    SetKeepsGood(cfg, s, key, value);
    if !NeedsResize(s) {
      InsertKeepsTidy(paths, cfg, s, key, value);
    } else if NextSize(s).Some? {
      var newPaths := PathsFor(cfg, NextSize(s).value);
      ResizedIsTidy(paths, newPaths, s);
      InsertKeepsTidy(newPaths, cfg, Resized(newPaths, s).0, key, value);
    }
  }

  /** The keys whose entry the resize of a `set`, if it resizes, gives up on. */
  function LostBy(cfg: Config, s: Store, op: Op): set<CString>
    requires Inv(s)
  {
    if op.OpSet? && NeedsResize(s) && NextSize(s).Some? then LostKeys(PathsFor(cfg, NextSize(s).value), s) else {}
  }

  /** The whole `set`, resize included: its own key reads as set, a key given up on as null, any other as before. */
  lemma SetLookup(cfg: Config, s: Store, key: CString, value: CString, k: CString)
    requires RoundTrips(cfg.codec) && TidyStore(cfg, s)
    ensures var r := SetSpec(cfg, s, key, value, cfg.hash(key));
      var lost := LostBy(cfg, s, OpSet(key, value));
      && |lost| == r.lost
      && Lookup(cfg, r.store, k) ==
         if k == key && r.outcome.Stored? then Some(value) else if k in lost then None else Lookup(cfg, s, k)
  {
    var paths := PathsFor(cfg, s.size);
    if !NeedsResize(s) {
      InsertedIsFound(cfg, s, key, value, paths(key));
      if k != key {
        InsertLeavesOthers(cfg, s, key, value, paths(key), k, paths(k));
      }
    } else if NextSize(s).Some? {
      var grown := ResizeSpec(cfg, s).0;
      var newPaths := PathsFor(cfg, grown.size);
      ResizeKeepsOthers(paths, newPaths, cfg, s, k);
      InsertedIsFound(cfg, grown, key, value, newPaths(key));
      if k != key {
        InsertLeavesOthers(cfg, grown, key, value, newPaths(key), k, newPaths(k));
      }
    }
  }

  // ---------- Map refinement ----------

  /** The value of each key's latest successful set. */
  function Latest(ops: seq<Op>, replies: seq<Reply>): map<CString, CString>
    requires |replies| <= |ops|
  {
    if replies == [] then map[] else
    var n := |replies| - 1;
    Updated(Latest(ops[..n], replies[..n]), ops[n], replies[n])
  }

  function Updated(m: map<CString, CString>, op: Op, reply: Reply): map<CString, CString> {
    if op.OpSet? && reply == SetReply(Stored) then m[op.key := op.value] else m
  }

  function Find(m: map<CString, CString>, key: CString): Option<string> {
    if key in m then Some(m[key]) else None
  }

  /** A step answers at most one operation, and never takes back a reply or an entry counted as lost. */
  lemma StepShape(cfg: Config, t: Trace, op: Op)
    requires Inv(t.store)
    ensures var r := Step(cfg, t, op);
      && t.lost <= r.lost
      && (if r.halted then r.replies == t.replies else !t.halted && exists x :: r.replies == t.replies + [x])
  {
  }

  lemma {:induction false} RunShape(cfg: Config, s: Store, ops: seq<Op>)
    requires Inv(s)
    ensures var t := Run(cfg, s, ops);
      |t.replies| <= |ops| && (!t.halted ==> |t.replies| == |ops|)
  {
    if ops != [] {
      RunShape(cfg, s, ops[..|ops| - 1]);
      StepShape(cfg, Run(cfg, s, ops[..|ops| - 1]), ops[|ops| - 1]);
    }
  }

  lemma NothingInitially(cfg: Config, size: nat, growth: Growth, key: CString)
    requires 2 <= size && Grows(size, growth)
    ensures Lookup(cfg, Initial(size, growth), key) == None
  {
    var s := Initial(size, growth);
    var n := FirstHolding(s.table, s.pool.cells, key, PathsFor(cfg, size)(key));
    assert forall j :: 0 <= j < |s.table| ==> s.table[j] == 0;
  }

  lemma InitialIsTidy(cfg: Config, size: nat, growth: Growth)
    requires 2 <= size && Grows(size, growth)
    ensures TidyStore(cfg, Initial(size, growth))
    ensures forall key :: Lookup(cfg, Initial(size, growth), key) == None
  {
    hide Lookup, Inv, ArePaths, PathsFor, IsPath;
    var s := Initial(size, growth);
    assert |s.table| / BUCKET_SIZE == size;
    assert forall j :: 0 <= j < |s.table| ==> s.table[j] == 0;
    forall key ensures Lookup(cfg, s, key) == None {
      NothingInitially(cfg, size, growth, key);
    }
  }

  /** What a key reads as when `m` holds the latest sets and the keys in `lost` were lost since. */
  function Left(m: map<CString, CString>, lost: set<CString>, key: CString): Option<string> {
    if key in lost then None else Find(m, key)
  }

  /** The store agrees with the latest sets on every key but those lost. */
  ghost predicate Agrees(cfg: Config, s: Store, m: map<CString, CString>, lost: set<CString>) {
    TidyStore(cfg, s) && forall key :: Lookup(cfg, s, key) == Left(m, lost, key)
  }

  /** The keys lost since their latest set, after one more operation. */
  function LostAfter(cfg: Config, t: Trace, op: Op, lost: set<CString>): set<CString>
    requires Inv(t.store)
  {
    if Step(cfg, t, op).halted then lost
    else
      lost + LostBy(cfg, t.store, op)
      - if op.OpSet? && SetSpec(cfg, t.store, op.key, op.value, cfg.hash(op.key)).outcome.Stored? then {op.key} else {}
  }

  /** The keys whose entry a migration gave up on since their latest successful set. */
  function LostSince(cfg: Config, s: Store, ops: seq<Op>): set<CString>
    requires Inv(s)
  {
    if ops == [] then {}
    else
      var n := |ops| - 1;
      LostAfter(cfg, Run(cfg, s, ops[..n]), ops[n], LostSince(cfg, s, ops[..n]))
  }

  lemma LeftAfterSet(
      m: map<CString, CString>, lost: set<CString>, gone: set<CString>, key: CString, value: CString, k: CString)
    ensures Left(m[key := value], lost + gone - {key}, k)
         == if k == key then Some(value) else if k in gone then None else Left(m, lost, k)
    ensures Left(m, lost + gone, k) == if k in gone then None else Left(m, lost, k)
  {
  }

  /** What a `set` leaves of the agreement, for one key. */
  lemma SetReads(
      cfg: Config, s: Store, m: map<CString, CString>, lost: set<CString>, gone: set<CString>,
      key: CString, value: CString, k: CString, r: SetResult)
    requires RoundTrips(cfg.codec) && Agrees(cfg, s, m, lost)
    requires r == SetSpec(cfg, s, key, value, cfg.hash(key)) && gone == LostBy(cfg, s, OpSet(key, value))
    ensures r.outcome.Stored? ==> Lookup(cfg, r.store, k) == Left(m[key := value], lost + gone - {key}, k)
    ensures r.outcome.NoRoom? ==> Lookup(cfg, r.store, k) == Left(m, lost + gone, k)
  {
    SetLookup(cfg, s, key, value, k);
    LeftAfterSet(m, lost, gone, key, value, k);
  }

  lemma SetAgrees(
      cfg: Config, s: Store, m: map<CString, CString>, lost: set<CString>, gone: set<CString>,
      key: CString, value: CString, r: SetResult)
    requires RoundTrips(cfg.codec) && Agrees(cfg, s, m, lost)
    requires r == SetSpec(cfg, s, key, value, cfg.hash(key)) && gone == LostBy(cfg, s, OpSet(key, value))
    ensures r.outcome.Stored? ==> Agrees(cfg, r.store, m[key := value], lost + gone - {key})
    ensures r.outcome.NoRoom? ==> Agrees(cfg, r.store, m, lost + gone)
  {
    SetKeepsTidy(cfg, s, key, value);
    forall k
      ensures r.outcome.Stored? ==> Lookup(cfg, r.store, k) == Left(m[key := value], lost + gone - {key}, k)
      ensures r.outcome.NoRoom? ==> Lookup(cfg, r.store, k) == Left(m, lost + gone, k)
    {
      SetReads(cfg, s, m, lost, gone, key, value, k, r);
    }
  }

  lemma StepAgrees(cfg: Config, t: Trace, op: Op, m: map<CString, CString>, lost: set<CString>)
    requires RoundTrips(cfg.codec) && Agrees(cfg, t.store, m, lost) && !op.OpDel?
    ensures var r, lost' := Step(cfg, t, op), LostAfter(cfg, t, op, lost);
      if r.halted then r.replies == t.replies && Agrees(cfg, r.store, m, lost')
      else
        && |r.replies| == |t.replies| + 1 && t.replies <= r.replies
        && Agrees(cfg, r.store, Updated(m, op, r.replies[|t.replies|]), lost')
  {
    assert Inv(t.store);
    hide Agrees, Lookup, SetSpec;
    if !t.halted {
      if op.OpSet? {
        SetAgrees(cfg, t.store, m, lost, LostBy(cfg, t.store, op), op.key, op.value,
                  SetSpec(cfg, t.store, op.key, op.value, cfg.hash(op.key)));
        assert lost + LostBy(cfg, t.store, op) - {} == lost + LostBy(cfg, t.store, op);
      } else {
        assert LostAfter(cfg, t, op, lost) == lost;
      }
    }
  }

  /** The latest sets after one more operation, answered or not. */
  lemma LatestGrows(ops: seq<Op>, n: nat, before: seq<Reply>, after: seq<Reply>)
    requires n == |ops| - 1 && |before| <= n
    ensures Latest(ops, before) == Latest(ops[..n], before)
    ensures |before| == n && |after| == n + 1 && before <= after ==>
      Latest(ops, after) == Updated(Latest(ops[..n], before), ops[n], after[n])
  {
    LatestOfPrefix(ops, n, before);
    if |after| == n + 1 && before <= after && |before| == n {
      assert after[..n] == before;
    }
  }

  lemma RunAgreesOn(cfg: Config, before: Trace, ops: seq<Op>, n: nat, lost: set<CString>)
    requires n == |ops| - 1 && RoundTrips(cfg.codec) && !ops[n].OpDel?
    requires |before.replies| <= n && (!before.halted ==> |before.replies| == n)
    requires Agrees(cfg, before.store, Latest(ops[..n], before.replies), lost)
    ensures var t := Step(cfg, before, ops[n]);
      |t.replies| <= |ops| && Agrees(cfg, t.store, Latest(ops, t.replies), LostAfter(cfg, before, ops[n], lost))
  {
    var t := Step(cfg, before, ops[n]);
    StepAgrees(cfg, before, ops[n], Latest(ops[..n], before.replies), lost);
    LatestGrows(ops, n, before.replies, t.replies);
  }

  lemma {:induction false} RunAgrees(cfg: Config, s: Store, ops: seq<Op>)
    requires RoundTrips(cfg.codec) && Inv(s) && Agrees(cfg, s, map[], {}) && NoDel(ops)
    ensures var t := Run(cfg, s, ops);
      |t.replies| <= |ops| && Agrees(cfg, t.store, Latest(ops, t.replies), LostSince(cfg, s, ops))
  {
    if ops != [] {
      var n := |ops| - 1;
      RunAgrees(cfg, s, ops[..n]);
      RunShape(cfg, s, ops[..n]);
      RunAgreesOn(cfg, Run(cfg, s, ops[..n]), ops, n, LostSince(cfg, s, ops[..n]));
    }
  }

  lemma StepLosesNone(cfg: Config, t: Trace, op: Op)
    requires RoundTrips(cfg.codec) && TidyStore(cfg, t.store) && Step(cfg, t, op).lost == t.lost
    ensures LostAfter(cfg, t, op, {}) == {}
  {
    if op.OpSet? && !Step(cfg, t, op).halted {
      SetLookup(cfg, t.store, op.key, op.value, op.key);
    }
  }

  /** In a run that reports no entry lost, no key is. */
  lemma {:induction false} NothingLost(cfg: Config, s: Store, ops: seq<Op>)
    requires RoundTrips(cfg.codec) && Inv(s) && Agrees(cfg, s, map[], {}) && NoDel(ops) && Run(cfg, s, ops).lost == 0
    ensures LostSince(cfg, s, ops) == {}
  {
    if ops != [] {
      var n := |ops| - 1;
      StepShape(cfg, Run(cfg, s, ops[..n]), ops[n]);
      NothingLost(cfg, s, ops[..n]);
      RunAgrees(cfg, s, ops[..n]);
      StepLosesNone(cfg, Run(cfg, s, ops[..n]), ops[n]);
    }
  }

  /** What an operation is answered in a given state. */
  function Answer(cfg: Config, s: Store, op: Op): Reply
    requires Inv(s)
  {
    match op
    case OpGet(key) => GetReply(Lookup(cfg, s, key))
    case OpDel(key) => DelReply(DelSpec(s, key, PathsFor(cfg, s.size)(key)).0)
    case OpSet(key, value) => SetReply(SetSpec(cfg, s, key, value, cfg.hash(key)).outcome)
  }

  /** What operation `k` adds to a run: a reply from the state it found, or nothing. */
  ghost predicate Grown(cfg: Config, before: Trace, t: Trace, op: Op, k: nat) {
    && Inv(before.store) && before.lost <= t.lost && before.replies <= t.replies && |t.replies| <= |before.replies| + 1
    && (|t.replies| > |before.replies| ==> |before.replies| == k && t.replies[k] == Answer(cfg, before.store, op))
  }

  lemma StepGrows(cfg: Config, before: Trace, op: Op, k: nat)
    requires Inv(before.store) && (!before.halted ==> |before.replies| == k)
    ensures Grown(cfg, before, Step(cfg, before, op), op, k)
  {
  }

  lemma RunGrows(cfg: Config, s: Store, ops: seq<Op>, k: nat)
    requires Inv(s) && k < |ops|
    ensures Grown(cfg, Run(cfg, s, ops[..k]), Run(cfg, s, ops[..k + 1]), ops[k], k)
  {
    hide Step, Grown;
    RunShape(cfg, s, ops[..k]);
    StepGrows(cfg, Run(cfg, s, ops[..k]), ops[k], k);
    assert ops[..k + 1][..k] == ops[..k];
  }

  /** The i-th reply is the one given in the state the first `i` operations led to. */
  ghost predicate AnsweredAt(cfg: Config, before: Trace, t: Trace, op: Op, i: nat) {
    && Inv(before.store) && i < |t.replies| && before.replies == t.replies[..i] && before.lost <= t.lost
    && t.replies[i] == Answer(cfg, before.store, op)
  }

  lemma {:induction false} AnsweredIn(cfg: Config, run: nat -> Trace, ops: seq<Op>, i: nat, n: nat)
    requires n <= |ops| && run(0).replies == [] && i < |run(n).replies|
    requires forall k :: 0 <= k < n ==> Grown(cfg, run(k), run(k + 1), ops[k], k)
    ensures i < n && AnsweredAt(cfg, run(i), run(n), ops[i], i)
  {
    hide Answer, Inv;
    if n > 0 {
      var before, t := run(n - 1), run(n);
      assert Grown(cfg, before, t, ops[n - 1], n - 1);
      if i < |before.replies| {
        AnsweredIn(cfg, run, ops, i, n - 1);
        assert t.replies[..i] == before.replies[..i];
      }
    }
  }

  function RunTo(cfg: Config, s: Store, ops: seq<Op>, k: nat): Trace
    requires Inv(s)
  {
    Run(cfg, s, if k <= |ops| then ops[..k] else ops)
  }

  lemma ReplyAt(cfg: Config, s: Store, ops: seq<Op>, i: nat)
    requires Inv(s) && i < |Run(cfg, s, ops).replies|
    ensures i < |ops| && AnsweredAt(cfg, Run(cfg, s, ops[..i]), Run(cfg, s, ops), ops[i], i)
  {
    forall k | 0 <= k < |ops| ensures Grown(cfg, RunTo(cfg, s, ops, k), RunTo(cfg, s, ops, k + 1), ops[k], k) {
      RunGrows(cfg, s, ops, k);
    }
    assert ops[..|ops|] == ops;
    AnsweredIn(cfg, (k: nat) => RunTo(cfg, s, ops, k), ops, i, |ops|);
  }

  lemma StartAgrees(cfg: Config, size: nat, growth: Growth)
    requires 2 <= size && Grows(size, growth)
    ensures Agrees(cfg, Initial(size, growth), map[], {})
  {
    InitialIsTidy(cfg, size, growth);
  }

  /**
    In a run without deletes, across any number of resizes and whether or not values were compressed, every
    `get` returned the value of the latest successful `set` of its key, or null if there was none or a
    migration has given up on the key's entry since, and so would a `get` made next.
   */
  lemma RunsForgetOnlyLost(cfg: Config, size: nat, growth: Growth, ops: seq<Op>)
    requires RoundTrips(cfg.codec) && 2 <= size && Grows(size, growth) && NoDel(ops)
    ensures var s := Initial(size, growth);
      var t := Run(cfg, s, ops);
      && |t.replies| <= |ops|
      && (forall key :: Lookup(cfg, t.store, key) == Left(Latest(ops, t.replies), LostSince(cfg, s, ops), key))
      && (forall i :: 0 <= i < |t.replies| && ops[i].OpGet? ==>
            t.replies[i] == GetReply(Left(Latest(ops[..i], t.replies[..i]), LostSince(cfg, s, ops[..i]), ops[i].key)))
  {
    hide TidyStore, Latest, Run, LostSince;
    StartAgrees(cfg, size, growth);
    var s := Initial(size, growth);
    RunAgrees(cfg, s, ops);
    var t := Run(cfg, s, ops);
    forall i | 0 <= i < |t.replies| && ops[i].OpGet?
      ensures t.replies[i] == GetReply(Left(Latest(ops[..i], t.replies[..i]), LostSince(cfg, s, ops[..i]), ops[i].key))
    {
      ReplyAt(cfg, s, ops, i);
      RunAgrees(cfg, s, ops[..i]);
    }
  }

  /** When no migration gave up, the latest successful `set` is what every `get` returned. */
  lemma RunsRefineMap(cfg: Config, size: nat, growth: Growth, ops: seq<Op>)
    requires RoundTrips(cfg.codec) && 2 <= size && Grows(size, growth) && NoDel(ops)
    requires Run(cfg, Initial(size, growth), ops).lost == 0
    ensures var t := Run(cfg, Initial(size, growth), ops);
      && |t.replies| <= |ops|
      && (forall key :: Lookup(cfg, t.store, key) == Find(Latest(ops, t.replies), key))
      && (forall i :: 0 <= i < |t.replies| && ops[i].OpGet? ==>
            t.replies[i] == GetReply(Find(Latest(ops[..i], t.replies[..i]), ops[i].key)))
  {
    hide Agrees, Lookup, Latest, Run, AnsweredAt;
    StartAgrees(cfg, size, growth);
    var s := Initial(size, growth);
    RunsForgetOnlyLost(cfg, size, growth, ops);
    NothingLost(cfg, s, ops);
    var t := Run(cfg, s, ops);
    forall i | 0 <= i < |t.replies| && ops[i].OpGet? ensures LostSince(cfg, s, ops[..i]) == {} {
      ReplyAt(cfg, s, ops, i);
      NothingLost(cfg, s, ops[..i]);
    }
  }

  lemma LatestOfPrefix(ops: seq<Op>, n: nat, replies: seq<Reply>)
    requires |replies| <= n <= |ops|
    ensures Latest(ops[..n], replies) == Latest(ops, replies)
  {
    if replies != [] {
      assert ops[..n][..|replies| - 1] == ops[..|replies| - 1];
    }
  }
}
