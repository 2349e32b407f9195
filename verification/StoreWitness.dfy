/** A run in which a deleted key comes back: `set` had written a second copy ahead of a live one. */
module StoreWitness {
  import opened Common
  import opened EntryPool
  import opened StoreModel

  lemma SmallModulus(x: nat)
    requires x < TWO_TO_THE_64
    ensures x % TWO_TO_THE_64 == x
  {
  }

  lemma FirstBucketIndex(hash: u64, size: nat)
    requires 0 < size
    ensures BucketIndex(hash, 0, size) == hash % size
  {
    SmallModulus(hash);
  }

  /** The first two slots of a path are the first two of its first bucket. */
  lemma FirstTwoSlots(hash: u64, size: nat)
    requires 0 < size
    ensures ProbePath(hash, size)[0] == BUCKET_SIZE * (hash % size)
    ensures ProbePath(hash, size)[1] == BUCKET_SIZE * (hash % size) + 1
  {
    FirstBucketIndex(hash, size);
    assert 0 / BUCKET_SIZE == 0 && 0 % BUCKET_SIZE == 0 && 1 / BUCKET_SIZE == 0 && 1 % BUCKET_SIZE == 1;
    ProbeUpToAt(hash, size, PROBES, 0);
    ProbeUpToAt(hash, size, PROBES, 1);
  }

  /** The entry `i` is the next free one and goes to position `n`, the first usable one. */
  lemma SetAt(cfg: Config, s: Store, key: CString, value: CString, n: nat)
    requires Inv(s) && !NeedsResize(s) && !cfg.compressionEnabled
    requires var path := ProbePath(cfg.hash(key), s.size);
      && n < PROBES && Open(s.table, s.pool.cells, key, path[n])
      && (forall m :: 0 <= m < n ==> !Open(s.table, s.pool.cells, key, path[m]))
      && (s.table[path[n]] == 0 || s.pool.cells[s.table[path[n]]].Vacant?)
    ensures var path := ProbePath(cfg.hash(key), s.size);
      var r := SetSpec(cfg, s, key, value, cfg.hash(key)).store;
      var i := s.pool.free[0];
      && r.table == s.table[path[n] := i]
      && r.pool == Pool(s.pool.cells[i := Live(key, value, false)], s.pool.free[1..])
      && r.numEntries == s.numEntries + 1 && r.size == s.size
      && !SetSpec(cfg, s, key, value, cfg.hash(key)).outcome.Exhausted?
  {
    FirstOpenIs(s.table, s.pool.cells, key, ProbePath(cfg.hash(key), s.size), n);
  }

  lemma DelAt(s: Store, key: CString, path: seq<nat>, n: nat)
    requires Inv(s) && n < |path| && Holds(s.table, s.pool.cells, key, path[n])
    requires forall m :: 0 <= m < n ==> !Holds(s.table, s.pool.cells, key, path[m])
    ensures var e := s.table[path[n]];
      DelSpec(s, key, path) == (true, s.(pool := Pool(s.pool.cells[e := Vacant], [e] + s.pool.free)))
  {
    FirstHoldingIs(s.table, s.pool.cells, key, path, n);
  }

  /** The store after a set, when its table doubles and so the set never throws. */
  function AfterSet(cfg: Config, s: Store, key: CString, value: CString): (r: Store)
    requires Inv(s) && s.growth.Doubling?
    ensures Inv(r) && r.growth.Doubling?
  {
    SetSpec(cfg, s, key, value, cfg.hash(key)).store
  }

  /** Two keys share a first bucket: `a` first, `b` behind it. */
  lemma TwoKeys(cfg: Config, size: nat, a: CString, va: CString, b: CString, v1: CString) returns (s: Store)
    requires !cfg.compressionEnabled && a != b && 6 <= size && cfg.hash(a) % size == cfg.hash(b) % size
    ensures var first := BUCKET_SIZE * (cfg.hash(a) % size);
      && s == AfterSet(cfg, AfterSet(cfg, Initial(size, Doubling), a, va), b, v1)
      && s.size == size && s.numEntries == 2
      && s.table[first] == 1 && s.table[first + 1] == 2
      && s.pool.cells[1] == Live(a, va, false) && s.pool.cells[2] == Live(b, v1, false)
    ensures SetSpec(cfg, Initial(size, Doubling), a, va, cfg.hash(a)).outcome == Stored
  {
    FirstTwoSlots(cfg.hash(a), size);
    FirstTwoSlots(cfg.hash(b), size);
    SetAt(cfg, Initial(size, Doubling), a, va, 0);
    var s1 := AfterSet(cfg, Initial(size, Doubling), a, va);
    assert !Open(s1.table, s1.pool.cells, b, ProbePath(cfg.hash(b), size)[0]);
    SetAt(cfg, s1, b, v1, 1);
    s := AfterSet(cfg, s1, b, v1);
  }

  /**
    Two keys with the same first bucket. After set a, set b v1, del a, set b v2, a delete of b answers true
    and yet b still reads v1: the second set of b took the slot a had vacated, and left the first copy of b
    alive behind it.
   */
  lemma DeletedKeyReturns(cfg: Config, size: nat, a: CString, va: CString, b: CString, v1: CString, v2: CString)
    requires !cfg.compressionEnabled && a != b && 6 <= size && cfg.hash(a) % size == cfg.hash(b) % size
    ensures var pathA, pathB := ProbePath(cfg.hash(a), size), ProbePath(cfg.hash(b), size);
      var s2 := AfterSet(cfg, AfterSet(cfg, Initial(size, Doubling), a, va), b, v1);
      var s3 := DelSpec(s2, a, pathA).1;
      var s4 := AfterSet(cfg, s3, b, v2);
      var (found, s5) := DelSpec(s4, b, pathB);
      found && GetSpec(cfg, s5, b, pathB) == Some(v1)
  {
    hide SetSpec, DelSpec;
    var pathA, pathB := ProbePath(cfg.hash(a), size), ProbePath(cfg.hash(b), size);
    FirstTwoSlots(cfg.hash(a), size);
    FirstTwoSlots(cfg.hash(b), size);
    var s2 := TwoKeys(cfg, size, a, va, b, v1);
    DelAt(s2, a, pathA, 0);
    var s3 := DelSpec(s2, a, pathA).1;
    assert s3.growth == s2.growth;
    assert Open(s3.table, s3.pool.cells, b, pathB[0]);
    SetAt(cfg, s3, b, v2, 0);
    var s4 := AfterSet(cfg, s3, b, v2);
    assert Holds(s4.table, s4.pool.cells, b, pathB[0]);
    DelAt(s4, b, pathB, 0);
    var s5 := DelSpec(s4, b, pathB).1;
    FirstHoldingIs(s5.table, s5.pool.cells, b, pathB, 1);
  }
}
