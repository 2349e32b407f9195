/** Runs with deletes: the store is still a map as long as no live key is set again once a key was deleted. */
module StoreDeletes {
  import opened Common
  import opened EntryPool
  import opened StoreModel
  import opened StoreLookup
  import opened StoreResize
  import opened StoreRuns
  import opened StoreTidy
  import opened StoreRefinement

  // ---------- One entry per key ----------

  /** Every slot that holds a key in `table'` refers to an entry that some slot of `table` held it through. */
  ghost predicate HoldsNoMore(
      table: seq<nat>, cells: seq<Cell>, table': seq<nat>, cells': seq<Cell>, key: CString) {
    forall j: nat :: Holds(table', cells', key, j) ==>
      exists i: nat :: Holds(table, cells, key, i) && table[i] == table'[j]
  }

  /** All slots that hold the key refer to one entry. */
  ghost predicate OneEntry(table: seq<nat>, cells: seq<Cell>, key: CString) {
    forall i: nat, j: nat :: Holds(table, cells, key, i) && Holds(table, cells, key, j) ==> table[i] == table[j]
  }

  lemma HoldsNoMoreKeepsOne(table: seq<nat>, cells: seq<Cell>, table': seq<nat>, cells': seq<Cell>, key: CString)
    requires OneEntry(table, cells, key) && HoldsNoMore(table, cells, table', cells', key)
    ensures OneEntry(table', cells', key)
  {
  }

  ghost predicate OneEach(s: Store) {
    forall key: CString :: OneEntry(s.table, s.pool.cells, key)
  }

  lemma OneEachIs(s: Store)
    ensures OneEach(s) <==> OneEntryPerKey(s)
  {
    if OneEach(s) {
      forall key: CString, i: nat, j: nat | Holds(s.table, s.pool.cells, key, i) && Holds(s.table, s.pool.cells, key, j)
        ensures s.table[i] == s.table[j]
      {
        assert OneEntry(s.table, s.pool.cells, key);
      }
    }
  }

  lemma DelKeepsOne(s: Store, key: CString, path: seq<nat>)
    requires Inv(s) && OneEach(s)
    ensures OneEach(DelSpec(s, key, path).1)
  {
    var s' := DelSpec(s, key, path).1;
    forall k: CString ensures OneEntry(s'.table, s'.pool.cells, k) {
      assert forall j: nat :: Holds(s'.table, s'.pool.cells, k, j) ==> Holds(s.table, s.pool.cells, k, j);
      assert OneEntry(s.table, s.pool.cells, k);
    }
  }

  /** A key that some slot holds is found. */
  lemma HeldOnPath(paths: CString -> seq<nat>, s: Store, key: CString, j: nat)
    requires Inv(s) && ArePaths(paths, s.size) && Reachable(paths, s) && Holds(s.table, s.pool.cells, key, j)
    ensures FirstHolding(s.table, s.pool.cells, key, paths(key)) < PROBES
  {
    hide FirstHolding;
    assert OnOwnPath(paths, s, j);
    var n :| 0 <= n < PROBES && s.table[paths(key)[n]] == s.table[j];
    assert IsPath(paths(key), s.size);
    assert Holds(s.table, s.pool.cells, key, paths(key)[n]);
  }

  lemma HeldIsFound(cfg: Config, s: Store, key: CString)
    requires Good(cfg, s)
    ensures (exists j: nat :: Holds(s.table, s.pool.cells, key, j)) ==> Lookup(cfg, s, key).Some?
  {
    var paths := PathsFor(cfg, s.size);
    hide Inv, Reachable, PathsFor, FirstHolding;
    forall j: nat | Holds(s.table, s.pool.cells, key, j)
      ensures FirstHolding(s.table, s.pool.cells, key, paths(key)) < PROBES
    {
      HeldOnPath(paths, s, key, j);
    }
  }

  /** Writing an entry for a key nobody holds, over a slot that holds nothing, keeps one entry per key. */
  lemma WriteKeepsOne(
      table: seq<nat>, cells: seq<Cell>, at: nat, i: nat, c: Cell, key: CString, k: CString)
    requires at < |table| && 0 < i < |cells| && c.Live? && c.key == key && cells[i].Vacant?
    requires (forall j: nat :: !Holds(table, cells, key, j)) && OneEntry(table, cells, k)
    ensures OneEntry(table[at := i], cells[i := c], k)
  {
    var table', cells' := table[at := i], cells[i := c];
    if k == key {
      forall j: nat | Holds(table', cells', k, j) ensures table'[j] == i {
        assert table'[j] != i ==> Holds(table, cells, k, j);
      }
    } else {
      forall j: nat | Holds(table', cells', k, j) ensures Holds(table, cells, k, j) && table[j] == table'[j] {
      }
    }
  }

  lemma InsertKeepsOne(cfg: Config, s: Store, key: CString, value: CString, path: seq<nat>)
    requires Inv(s) && s.numEntries < Threshold(s.size) && IsPath(path, s.size) && OneEach(s)
    requires !InsertSpec(cfg, s, key, value, path).0 || forall j: nat :: !Holds(s.table, s.pool.cells, key, j)
    ensures OneEach(InsertSpec(cfg, s, key, value, path).1)
  {
    var (ok, s') := InsertSpec(cfg, s, key, value, path);
    if ok {
      var n := FirstOpen(s.table, s.pool.cells, key, path);
      var i := PlacedCells(cfg, s, key, value, path, n);
      assert !Holds(s.table, s.pool.cells, key, path[n]);
      forall k: CString ensures OneEntry(s'.table, s'.pool.cells, k) {
        WriteKeepsOne(s.table, s.pool.cells, path[n], i, CellFor(cfg, key, value), key, k);
      }
    } else {
      assert s'.table == s.table && s'.pool == s.pool;
    }
  }

  lemma ResizeKeepsOne(paths: CString -> seq<nat>, s: Store)
    requires CanResize(s) && ArePaths(paths, NextSize(s).value) && OneEach(s)
    ensures OneEach(Resized(paths, s).0)
  {
    var r, cells := Resized(paths, s).0, s.pool.cells;
    MigratedDrawnFrom(paths, cells, s.table, r.size, |s.table|);
    MigratedInPool(paths, cells, s.table, r.size, |s.table|);
    forall k: CString ensures OneEntry(r.table, r.pool.cells, k) {
      forall j: nat | Holds(r.table, r.pool.cells, k, j)
        ensures exists i: nat :: Holds(s.table, cells, k, i) && s.table[i] == r.table[j]
      {
        var i :| 0 <= i < |s.table| && s.table[i] == r.table[j];
        assert Holds(s.table, cells, k, i);
      }
      HoldsNoMoreKeepsOne(s.table, cells, r.table, r.pool.cells, k);
    }
  }

  // ---------- What a key reads as, with deletes ----------

  /** The value of each key's latest successful set, unless a successful delete came after it. */
  function Current(ops: seq<Op>, replies: seq<Reply>): map<CString, CString>
    requires |replies| <= |ops|
  {
    if replies == [] then map[] else
    var n := |replies| - 1;
    Changed(Current(ops[..n], replies[..n]), ops[n], replies[n])
  }

  function Changed(m: map<CString, CString>, op: Op, reply: Reply): map<CString, CString> {
    if op.OpSet? && reply == SetReply(Stored) then m[op.key := op.value]
    else if op.OpDel? && reply == DelReply(true) then m - {op.key}
    else m
  }

  /** Once a delete has removed a key, only keys that read as null are set. */
  ghost predicate Orderly(ops: seq<Op>, replies: seq<Reply>) {
    && |replies| <= |ops|
    && forall j :: 0 <= j < |replies| && replies[j] == SetReply(Stored) && DelReply(true) in replies[..j] ==>
         ops[j].key !in Current(ops[..j], replies[..j])
  }

  /** One entry per key, and every key reads as in `m`; `tidy` until the first delete removes a key. */
  ghost predicate Settled(cfg: Config, s: Store, m: map<CString, CString>, tidy: bool) {
    Good(cfg, s) && OneEach(s) && (tidy ==> TidyStore(cfg, s)) && ReadsAs(cfg, s, m)
  }

  ghost predicate ReadsAs(cfg: Config, s: Store, m: map<CString, CString>)
    requires 0 < s.size
  {
    forall key :: Lookup(cfg, s, key) == Find(m, key)
  }

  lemma TidySettles(cfg: Config, s: Store, m: map<CString, CString>)
    requires TidyStore(cfg, s) && ReadsAs(cfg, s, m)
    ensures Settled(cfg, s, m, true)
  {
    var paths := PathsFor(cfg, s.size);
    TidyIsReachable(paths, s);
    forall key: CString ensures OneEntry(s.table, s.pool.cells, key) {
      forall i: nat, j: nat | Holds(s.table, s.pool.cells, key, i) && Holds(s.table, s.pool.cells, key, j)
        ensures s.table[i] == s.table[j]
      {
        TidyKeys(paths, s.pool.cells, s.table, key, i, j);
      }
    }
  }

  /** A set that resizes nothing and replaces nothing. */
  lemma InsertSettles(cfg: Config, s: Store, m: map<CString, CString>, key: CString, value: CString)
    requires RoundTrips(cfg.codec) && Settled(cfg, s, m, false) && s.numEntries < Threshold(s.size)
    requires InsertSpec(cfg, s, key, value, PathsFor(cfg, s.size)(key)).0 ==> key !in m
    ensures var (ok, r) := InsertSpec(cfg, s, key, value, PathsFor(cfg, s.size)(key));
      Settled(cfg, r, if ok then m[key := value] else m, false)
  {
    hide Inv, Readable, Reachable, GetSpec, InsertSpec, OneEach, Holds, TidyStore, RoundTrips, Threshold;
    var paths := PathsFor(cfg, s.size);
    var (ok, r) := InsertSpec(cfg, s, key, value, paths(key));
    InsertKeepsReachable(paths, cfg, s, key, value);
    HeldIsFound(cfg, s, key);
    InsertKeepsOne(cfg, s, key, value, paths(key));
    forall k ensures Lookup(cfg, r, k) == Find(if ok then m[key := value] else m, k) {
      assert Lookup(cfg, s, k) == Find(m, k);
      InsertedIsFound(cfg, s, key, value, paths(key));
      if k != key {
        InsertLeavesOthers(cfg, s, key, value, paths(key), k, paths(k));
      }
    }
  }

  lemma ResizeSettles(cfg: Config, s: Store, m: map<CString, CString>)
    requires RoundTrips(cfg.codec) && Settled(cfg, s, m, false) && CanResize(s) && ResizeSpec(cfg, s).1 == 0
    ensures Settled(cfg, ResizeSpec(cfg, s).0, m, false)
  {
    hide Inv, Readable, Reachable, GetSpec, OneEach, TidyStore, RoundTrips;
    var paths := PathsFor(cfg, NextSize(s).value);
    ResizedIsSeated(paths, cfg, s);
    ResizeKeepsOne(paths, s);
    OneEachIs(s);
    forall k ensures Lookup(cfg, ResizeSpec(cfg, s).0, k) == Find(m, k) {
      ResizePreservesLookups(cfg, s, k);
    }
  }

  lemma SetSettles(cfg: Config, s: Store, m: map<CString, CString>, tidy: bool, key: CString, value: CString)
    requires RoundTrips(cfg.codec) && Settled(cfg, s, m, tidy)
    requires var r := SetSpec(cfg, s, key, value, cfg.hash(key));
      !r.outcome.Exhausted? && r.lost == 0 && (r.outcome.Stored? && !tidy ==> key !in m)
    ensures var r := SetSpec(cfg, s, key, value, cfg.hash(key));
      Settled(cfg, r.store, if r.outcome.Stored? then m[key := value] else m, tidy)
  {
    var r := SetSpec(cfg, s, key, value, cfg.hash(key));
    if tidy {
      SetKeepsTidy(cfg, s, key, value);
      forall k ensures Lookup(cfg, r.store, k) == Find(if r.outcome.Stored? then m[key := value] else m, k) {
        SetLookup(cfg, s, key, value, k);
      }
      TidySettles(cfg, r.store, if r.outcome.Stored? then m[key := value] else m);
    } else if NeedsResize(s) {
      ResizeSettles(cfg, s, m);
      InsertSettles(cfg, ResizeSpec(cfg, s).0, m, key, value);
    } else {
      InsertSettles(cfg, s, m, key, value);
    }
  }

  lemma DelSettles(cfg: Config, s: Store, m: map<CString, CString>, tidy: bool, key: CString)
    requires RoundTrips(cfg.codec) && Settled(cfg, s, m, tidy)
    ensures var (found, r) := DelSpec(s, key, PathsFor(cfg, s.size)(key));
      found == (key in m) && Settled(cfg, r, m - {key}, tidy && !found)
  {
    hide Inv, Readable, Reachable, GetSpec, TidyStore, RoundTrips;
    var paths := PathsFor(cfg, s.size);
    var (found, r) := DelSpec(s, key, paths(key));
    DelKeepsReachable(paths, cfg, s, key);
    DelKeepsOne(s, key, paths(key));
    assert OneEntry(s.table, s.pool.cells, key);
    forall k ensures Lookup(cfg, r, k) == Find(m - {key}, k) {
      DelLookup(cfg, s, key, k);
    }
    DelLookup(cfg, s, key, key);
  }

  // ---------- Whole runs ----------

  ghost predicate NoneDeleted(replies: seq<Reply>) {
    DelReply(true) !in replies
  }

  lemma StepSettles(cfg: Config, t: Trace, op: Op, m: map<CString, CString>)
    requires RoundTrips(cfg.codec) && Inv(t.store) && Settled(cfg, t.store, m, NoneDeleted(t.replies))
    requires Step(cfg, t, op).lost == t.lost
    requires !Step(cfg, t, op).halted && Answer(cfg, t.store, op) == SetReply(Stored) && !NoneDeleted(t.replies) ==>
      op.key !in m
    ensures var r := Step(cfg, t, op);
      if r.halted then r.replies == t.replies && Settled(cfg, r.store, m, NoneDeleted(r.replies))
      else
        && r.replies == t.replies + [Answer(cfg, t.store, op)]
        && Settled(cfg, r.store, Changed(m, op, Answer(cfg, t.store, op)), NoneDeleted(r.replies))
  {
    hide Inv, Settled, Lookup, SetSpec, DelSpec;
    if !t.halted {
      match op
      case OpGet(_) =>
      case OpDel(key) =>
        DelSettles(cfg, t.store, m, NoneDeleted(t.replies), key);
        assert key !in m ==> m - {key} == m;
      case OpSet(key, value) =>
        if !Step(cfg, t, op).halted {
          SetSettles(cfg, t.store, m, NoneDeleted(t.replies), key, value);
        }
    }
  }

  lemma CurrentOfPrefix(ops: seq<Op>, n: nat, replies: seq<Reply>)
    requires |replies| <= n <= |ops|
    ensures Current(ops[..n], replies) == Current(ops, replies)
  {
    if replies != [] {
      assert ops[..n][..|replies| - 1] == ops[..|replies| - 1];
    }
  }

  lemma OrderlyPrefix(ops: seq<Op>, n: nat, replies: seq<Reply>, more: seq<Reply>)
    requires n <= |ops| && |replies| <= n && replies <= more && Orderly(ops, more)
    ensures Orderly(ops[..n], replies)
  {
    forall j | 0 <= j < |replies| && replies[j] == SetReply(Stored) && DelReply(true) in replies[..j]
      ensures ops[..n][j].key !in Current(ops[..n][..j], replies[..j])
    {
      assert more[..j] == replies[..j] && ops[..n][..j] == ops[..j];
    }
  }

  lemma {:induction false} RunSettles(cfg: Config, s: Store, ops: seq<Op>)
    requires RoundTrips(cfg.codec) && Settled(cfg, s, map[], true)
    requires Run(cfg, s, ops).lost == 0 && Orderly(ops, Run(cfg, s, ops).replies)
    ensures var t := Run(cfg, s, ops);
      Settled(cfg, t.store, Current(ops, t.replies), NoneDeleted(t.replies))
  {
    assert Inv(s);
    hide Settled, Inv;
    if ops != [] {
      var n := |ops| - 1;
      var before, t := Run(cfg, s, ops[..n]), Run(cfg, s, ops);
      StepShape(cfg, before, ops[n]);
      RunShape(cfg, s, ops[..n]);
      OrderlyPrefix(ops, n, before.replies, t.replies);
      RunSettles(cfg, s, ops[..n]);
      RunSettlesOn(cfg, before, ops, n);
    }
  }

  lemma RunSettlesOn(cfg: Config, before: Trace, ops: seq<Op>, n: nat)
    requires n == |ops| - 1 && RoundTrips(cfg.codec) && Inv(before.store)
    requires |before.replies| <= n && (!before.halted ==> |before.replies| == n)
    requires Settled(cfg, before.store, Current(ops[..n], before.replies), NoneDeleted(before.replies))
    requires var t := Step(cfg, before, ops[n]); t.lost == before.lost && Orderly(ops, t.replies)
    ensures var t := Step(cfg, before, ops[n]);
      |t.replies| <= |ops| && Settled(cfg, t.store, Current(ops, t.replies), NoneDeleted(t.replies))
  {
    hide Settled, Inv, Step, Answer, Changed;
    var t, m := Step(cfg, before, ops[n]), Current(ops[..n], before.replies);
    StepShape(cfg, before, ops[n]);
    CurrentOfPrefix(ops, n, before.replies);
    StepGrows(cfg, before, ops[n], n);
    if !t.halted {
      assert t.replies[..n] == before.replies;
      assert t.replies[n] == Answer(cfg, before.store, ops[n]);
    }
    StepSettles(cfg, before, ops[n], m);
  }

  /**
    Runs with deletes. As long as no entry is lost and, once a delete has removed a key, no key is set that
    still reads as something, every `get` returned the value of its key's latest successful `set`, or null
    if there was none or a successful `del` came after it; and every `del` answered whether there was one.
   */
  lemma RunsWithDeletesRefineMap(cfg: Config, size: nat, growth: Growth, ops: seq<Op>)
    requires RoundTrips(cfg.codec) && 2 <= size && Grows(size, growth)
    requires var t := Run(cfg, Initial(size, growth), ops); t.lost == 0 && Orderly(ops, t.replies)
    ensures var t := Run(cfg, Initial(size, growth), ops);
      && (forall key :: Lookup(cfg, t.store, key) == Find(Current(ops, t.replies), key))
      && (forall i :: 0 <= i < |t.replies| && ops[i].OpGet? ==>
            t.replies[i] == GetReply(Find(Current(ops[..i], t.replies[..i]), ops[i].key)))
      && (forall i :: 0 <= i < |t.replies| && ops[i].OpDel? ==>
            t.replies[i] == DelReply(ops[i].key in Current(ops[..i], t.replies[..i])))
  {
    var s := Initial(size, growth);
    var t := Run(cfg, s, ops);
    InitialIsTidy(cfg, size, growth);
    TidySettles(cfg, s, map[]);
    RunSettles(cfg, s, ops);
    forall i | 0 <= i < |t.replies|
      ensures ops[i].OpGet? ==> t.replies[i] == GetReply(Find(Current(ops[..i], t.replies[..i]), ops[i].key))
      ensures ops[i].OpDel? ==> t.replies[i] == DelReply(ops[i].key in Current(ops[..i], t.replies[..i]))
    {
      AnsweredFrom(cfg, s, ops, i);
    }
  }

  lemma AnsweredFrom(cfg: Config, s: Store, ops: seq<Op>, i: nat)
    requires RoundTrips(cfg.codec) && Settled(cfg, s, map[], true)
    requires Run(cfg, s, ops).lost == 0 && Orderly(ops, Run(cfg, s, ops).replies) && i < |Run(cfg, s, ops).replies|
    ensures var replies := Run(cfg, s, ops).replies;
      var m := Current(ops[..i], replies[..i]);
      && (ops[i].OpGet? ==> replies[i] == GetReply(Find(m, ops[i].key)))
      && (ops[i].OpDel? ==> replies[i] == DelReply(ops[i].key in m))
  {
    var before, t := Run(cfg, s, ops[..i]), Run(cfg, s, ops);
    ReplyAt(cfg, s, ops, i);
    OrderlyPrefix(ops, i, before.replies, t.replies);
    RunSettles(cfg, s, ops[..i]);
    var m := Current(ops[..i], before.replies);
    if ops[i].OpDel? {
      DelSettles(cfg, before.store, m, NoneDeleted(before.replies), ops[i].key);
    }
  }
}
