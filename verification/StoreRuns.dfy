/** Theorems about whole runs of the store, with the hash and the compressor left arbitrary. */
module StoreRuns {
  import opened Common
  import opened StoreModel
  import opened StoreLookup
  import opened StoreResize

  /** `get(key)`: a probe with the key's own hash. */
  function Lookup(cfg: Config, s: Store, key: CString): Option<string>
    requires 0 < s.size
  {
    GetSpec(cfg, s, key, PathsFor(cfg, s.size)(key))
  }

  /** What holds in every reachable state, including those with stale and aliased slots. */
  ghost predicate Good(cfg: Config, s: Store) {
    Inv(s) && Readable(cfg, s.pool.cells) && Reachable(PathsFor(cfg, s.size), s)
  }

  // ---------- One operation in any reachable state ----------

  /**
    A set that does not resize makes `get` return its value when it answers true, and changes no other
    key's `get`; when it answers false it changes no `get` at all.
   */
  lemma SetWithoutResize(cfg: Config, s: Store, key: CString, value: CString, k: CString)
    requires RoundTrips(cfg.codec) && Good(cfg, s) && !NeedsResize(s)
    ensures var r := SetSpec(cfg, s, key, value, cfg.hash(key));
      && r.outcome.Stored? != r.outcome.NoRoom? && r.lost == 0
      && Lookup(cfg, r.store, k) == if k == key && r.outcome.Stored? then Some(value) else Lookup(cfg, s, k)
  {
    var paths := PathsFor(cfg, s.size);
    InsertedIsFound(cfg, s, key, value, paths(key));
    if k != key {
      InsertLeavesOthers(cfg, s, key, value, paths(key), k, paths(k));
    }
  }

  /**
    A stored value is kept compressed exactly when compression is on, the value with its NUL takes 30 bytes or
    more, and the compressor succeeds; otherwise it is kept as it is. This holds of any set that succeeds,
    resize or not.
   */
  lemma StoredForm(cfg: Config, s: Store, key: CString, value: CString)
    requires RoundTrips(cfg.codec) && Inv(s) && SetSpec(cfg, s, key, value, cfg.hash(key)).outcome.Stored?
    ensures var r := SetSpec(cfg, s, key, value, cfg.hash(key)).store;
      var e := EntryFor(r.table, r.pool.cells, key, PathsFor(cfg, r.size)(key));
      var packs := cfg.compressionEnabled && |value| + 1 >= 30 && cfg.codec.compress(value).Some?;
      && e != 0 && r.pool.cells[e].compressed == packs
      && r.pool.cells[e].blob == if packs then cfg.codec.compress(value).value else value
  {
    hide EntryFor, InsertSpec, ResizeSpec, Inv, ProbePath;
    if NeedsResize(s) {
      var g := ResizeSpec(cfg, s).0;
      InsertedEntry(cfg, g, key, value, ProbePath(cfg.hash(key), g.size));
    } else {
      InsertedEntry(cfg, s, key, value, ProbePath(cfg.hash(key), s.size));
    }
  }

  /**
    A delete changes no other key's `get`. Its own key reads as null afterwards exactly when no second
    entry for the key was on its probe path.
   */
  lemma DelLookup(cfg: Config, s: Store, key: CString, k: CString)
    requires Good(cfg, s)
    ensures var path := PathsFor(cfg, s.size)(key);
      var (found, r) := DelSpec(s, key, path);
      && found == Lookup(cfg, s, key).Some?
      && (k != key ==> Lookup(cfg, r, k) == Lookup(cfg, s, k))
      && (Lookup(cfg, r, key).None? <==>
            forall n, m :: 0 <= n < m < PROBES && HoldsOnPath(s, key, path, n) && HoldsOnPath(s, key, path, m) ==>
              s.table[path[n]] == s.table[path[m]])
  {
    var paths := PathsFor(cfg, s.size);
    DelThenGet(cfg, s, key, paths(key));
    if k != key {
      DelLeavesOthers(cfg, s, key, paths(key), k, paths(k));
    }
  }

  // ---------- One resize ----------

  /**
    When no entry is lost, a resize makes `get` return the key's first entry in table order. So it
    changes `get` exactly when that entry reads differently from the first one in probe order.
   */
  lemma ResizeLookup(cfg: Config, s: Store, key: CString)
    requires Good(cfg, s) && CanResize(s) && ResizeSpec(cfg, s).1 == 0
    ensures Lookup(cfg, ResizeSpec(cfg, s).0, key)
         == ValueAt(cfg, s, FirstInTable(s.table, s.pool.cells, key, |s.table|))
    ensures Lookup(cfg, ResizeSpec(cfg, s).0, key) == Lookup(cfg, s, key) <==>
      ValueAt(cfg, s, FirstInTable(s.table, s.pool.cells, key, |s.table|)) ==
      ValueAt(cfg, s, EntryFor(s.table, s.pool.cells, key, PathsFor(cfg, s.size)(key)))
  {
    ResizedLookup(PathsFor(cfg, NextSize(s).value), cfg, s, key);
  }

  /**
    With one entry per key, however many stale and aliased slots there are, a resize that loses
    nothing changes no `get`.
   */
  lemma ResizePreservesLookups(cfg: Config, s: Store, key: CString)
    requires Good(cfg, s) && CanResize(s) && OneEntryPerKey(s) && ResizeSpec(cfg, s).1 == 0
    ensures Lookup(cfg, ResizeSpec(cfg, s).0, key) == Lookup(cfg, s, key)
  {
    ResizeLookup(cfg, s, key);
    UniqueEntryFound(PathsFor(cfg, s.size), s, key);
  }

  // ---------- Runs ----------

  datatype Op = OpSet(key: CString, value: CString) | OpGet(key: CString) | OpDel(key: CString)
  datatype Reply = SetReply(outcome: SetOutcome) | GetReply(found: Option<string>) | DelReply(deleted: bool)

  /** `halted`: the prime generator ran out and threw; no further operation is answered. */
  datatype Trace = Trace(store: Store, replies: seq<Reply>, lost: nat, halted: bool)

  function Step(cfg: Config, t: Trace, op: Op): (r: Trace)
    requires Inv(t.store)
    ensures Inv(r.store)
  {
    if t.halted then t else
    match op
    case OpGet(key) => t.(replies := t.replies + [GetReply(Lookup(cfg, t.store, key))])
    case OpDel(key) =>
      var (deleted, s') := DelSpec(t.store, key, PathsFor(cfg, t.store.size)(key));
      t.(store := s', replies := t.replies + [DelReply(deleted)])
    case OpSet(key, value) =>
      var r := SetSpec(cfg, t.store, key, value, cfg.hash(key));
      if r.outcome.Exhausted? then t.(halted := true)
      else Trace(r.store, t.replies + [SetReply(r.outcome)], t.lost + r.lost, false)
  }

  function Run(cfg: Config, s: Store, ops: seq<Op>): (t: Trace)
    requires Inv(s)
    ensures Inv(t.store)
  {
    if ops == [] then Trace(s, [], 0, false)
    else Step(cfg, Run(cfg, s, ops[..|ops| - 1]), ops[|ops| - 1])
  }

  lemma SetKeepsGood(cfg: Config, s: Store, key: CString, value: CString)
    requires RoundTrips(cfg.codec) && Good(cfg, s)
    ensures var r := SetSpec(cfg, s, key, value, cfg.hash(key));
      !r.outcome.Exhausted? ==> Good(cfg, r.store)
  {
    if !NeedsResize(s) {
      InsertKeepsReachable(PathsFor(cfg, s.size), cfg, s, key, value);
    } else if NextSize(s).Some? {
      var paths := PathsFor(cfg, NextSize(s).value);
      ResizedIsSeated(paths, cfg, s);
      InsertKeepsReachable(paths, cfg, Resized(paths, s).0, key, value);
    }
  }

  lemma StepKeepsGood(cfg: Config, t: Trace, op: Op)
    requires RoundTrips(cfg.codec) && Good(cfg, t.store)
    ensures Good(cfg, Step(cfg, t, op).store)
  {
    match op
    case OpGet(_) =>
    case OpDel(key) => DelKeepsReachable(PathsFor(cfg, t.store.size), cfg, t.store, key);
    case OpSet(key, value) => SetKeepsGood(cfg, t.store, key, value);
  }

  lemma InitialIsGood(cfg: Config, size: nat, growth: Growth)
    requires 2 <= size && Grows(size, growth)
    ensures Good(cfg, Initial(size, growth))
  {
  }

  lemma {:induction false} RunKeepsGood(cfg: Config, s: Store, ops: seq<Op>)
    requires RoundTrips(cfg.codec) && Good(cfg, s)
    ensures Good(cfg, Run(cfg, s, ops).store)
  {
    if ops != [] {
      RunKeepsGood(cfg, s, ops[..|ops| - 1]);
      StepKeepsGood(cfg, Run(cfg, s, ops[..|ops| - 1]), ops[|ops| - 1]);
    }
  }

  /**
    Over every run of set, get and del: the pool is as large as the table, the free list is sound,
    no more than 70% of the table size was counted as entries, and enough entries stay free that the
    next `allocate` finds one, before a resize or after it.
   */
  lemma EveryRunIsGood(cfg: Config, size: nat, growth: Growth, ops: seq<Op>)
    requires RoundTrips(cfg.codec) && 2 <= size && Grows(size, growth)
    ensures var s := Run(cfg, Initial(size, growth), ops).store;
      && Good(cfg, s)
      && |s.pool.cells| == s.size
      && s.numEntries <= s.size * 70 / 100
      && (s.numEntries < s.size * 70 / 100 ==> s.pool.free != [])
      && (CanResize(s) ==> ResizeSpec(cfg, s).0.pool.free != [])
  {
    InitialIsGood(cfg, size, growth);
    RunKeepsGood(cfg, Initial(size, growth), ops);
  }
}
