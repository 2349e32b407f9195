/** A run in which a resize that loses nothing brings an older value back. */
module StoreResizeWitness {
  import opened Common
  import opened EntryPool
  import opened StoreModel
  import opened StoreResize
  import opened StoreRuns
  import opened StoreWitness

  const SIZE := 9

  /** In a table of nine the probe starts in the last bucket and goes on in the first; in eighteen it goes up. */
  predicate Lands(hash: u64) {
    hash % (2 * SIZE) == 8 && hash + 1 < TWO_TO_THE_64
  }

  /** Five keys that all land in the last bucket of a table of nine: the fifth overflows to the first bucket. */
  ghost predicate Crowd(cfg: Config, keys: seq<CString>) {
    && |keys| == 5 && !cfg.compressionEnabled
    && (forall i :: 0 <= i < 5 ==> Lands(cfg.hash(keys[i])))
    && (forall i, j :: 0 <= i < j < 5 ==> keys[i] != keys[j])
  }

  function Place(m: nat): nat {
    if m < 4 then 32 + m else 0
  }

  lemma FirstBuckets(hash: u64)
    requires Lands(hash)
    ensures BucketIndex(hash, 0, SIZE) == 8 && BucketIndex(hash, 1, SIZE) == 0
    ensures BucketIndex(hash, 0, 2 * SIZE) == 8 && BucketIndex(hash, 1, 2 * SIZE) == 9
  {
    SmallModulus(hash);
    SmallModulus(hash + 1);
    Remainders(hash / (2 * SIZE));
    assert hash == 18 * (hash / 18) + 8;
  }

  lemma Remainders(q: nat)
    ensures (18 * q + 8) % 9 == 8 && (18 * q + 9) % 9 == 0 && (18 * q + 8) % 18 == 8 && (18 * q + 9) % 18 == 9
  {
    DividesBy(18 * q + 8, 9, 2 * q, 8);
    DividesBy(18 * q + 9, 9, 2 * q + 1, 0);
    DividesBy(18 * q + 8, 18, q, 8);
    DividesBy(18 * q + 9, 18, q, 9);
  }

  lemma DividesBy(x: nat, d: nat, q: nat, r: nat)
    requires x == d * q + r && r < d
    ensures x % d == r
  {
    var off := x / d - q;
    assert d * off == r - x % d;
    assert off == 0;
  }

  lemma PathStarts(hash: u64, m: nat)
    requires m < 5 && Lands(hash)
    ensures ProbePath(hash, SIZE)[m] == Place(m)
    ensures ProbePath(hash, 2 * SIZE)[m] == 32 + m
  {
    FirstBuckets(hash);
    ProbeUpToAt(hash, SIZE, PROBES, m);
    ProbeUpToAt(hash, 2 * SIZE, PROBES, m);
    assert m < 4 ==> m / BUCKET_SIZE == 0 && m % BUCKET_SIZE == m;
    assert m == 4 ==> m / BUCKET_SIZE == 1 && m % BUCKET_SIZE == 0;
  }

  /** The store after the first `n` keys were set. */
  ghost predicate Crowded(s: Store, keys: seq<CString>, value: CString, n: nat) {
    && n <= 5 == |keys| && Inv(s) && s.size == SIZE && s.growth == Doubling && s.numEntries == n
    && s.pool.free == Indices(n + 1, SIZE)
    && (forall m :: 0 <= m < n ==> s.table[Place(m)] == m + 1 && s.pool.cells[m + 1] == Live(keys[m], value, false))
    && (forall m :: n <= m < 5 ==> s.table[Place(m)] == 0)
    && (forall j :: 1 <= j < 32 ==> s.table[j] == 0)
  }

  function SetAll(cfg: Config, keys: seq<CString>, value: CString, n: nat): (s: Store)
    requires n <= |keys|
    ensures Inv(s)
  {
    if n == 0 then Initial(SIZE, Doubling)
    else
      var s := SetAll(cfg, keys, value, n - 1);
      var r := SetSpec(cfg, s, keys[n - 1], value, cfg.hash(keys[n - 1]));
      if r.outcome.Exhausted? then s else r.store
  }

  lemma NextPlaceIsOpen(cfg: Config, s: Store, keys: seq<CString>, value: CString, n: nat)
    requires Crowd(cfg, keys) && Crowded(s, keys, value, n) && n < 5
    ensures var path := ProbePath(cfg.hash(keys[n]), SIZE);
      && path[n] == Place(n) && Open(s.table, s.pool.cells, keys[n], path[n])
      && forall m :: 0 <= m < n ==> !Open(s.table, s.pool.cells, keys[n], path[m])
  {
    var h := cfg.hash(keys[n]);
    PathStarts(h, n);
    forall m | 0 <= m < n ensures !Open(s.table, s.pool.cells, keys[n], ProbePath(h, SIZE)[m]) {
      PathStarts(h, m);
      assert s.table[Place(m)] == m + 1 && keys[m] != keys[n];
    }
  }

  lemma CrowdGrows(cfg: Config, s: Store, keys: seq<CString>, value: CString, n: nat)
    requires Crowd(cfg, keys) && Crowded(s, keys, value, n) && n < 5
    ensures var r := SetSpec(cfg, s, keys[n], value, cfg.hash(keys[n]));
      !r.outcome.Exhausted? && Crowded(r.store, keys, value, n + 1)
  {
    NextPlaceIsOpen(cfg, s, keys, value, n);
    SetAt(cfg, s, keys[n], value, n);
    var r := SetSpec(cfg, s, keys[n], value, cfg.hash(keys[n])).store;
    forall m | 0 <= m < n + 1
      ensures r.table[Place(m)] == m + 1 && r.pool.cells[m + 1] == Live(keys[m], value, false)
    {
      assert m < n ==> s.table[Place(m)] == m + 1;
    }
  }

  lemma {:induction false} CrowdSets(cfg: Config, keys: seq<CString>, value: CString, n: nat)
    requires Crowd(cfg, keys) && n <= 5
    ensures Crowded(SetAll(cfg, keys, value, n), keys, value, n)
  {
    if n > 0 {
      CrowdSets(cfg, keys, value, n - 1);
      CrowdGrows(cfg, SetAll(cfg, keys, value, n - 1), keys, value, n - 1);
    }
  }

  /** Then the first key is deleted and the fifth set again. */
  function SetAgain(cfg: Config, keys: seq<CString>, v1: CString, v2: CString): SetResult
    requires |keys| == 5
  {
    var path := ProbePath(cfg.hash(keys[0]), SIZE);
    SetSpec(cfg, DelSpec(SetAll(cfg, keys, v1, 5), keys[0], path).1, keys[4], v2, cfg.hash(keys[4]))
  }

  /** The new copy of the fifth key stands in the vacated slot, the old one is alive in the first bucket. */
  ghost predicate Doubled(s: Store, keys: seq<CString>, v1: CString, v2: CString) {
    && |keys| == 5 && Inv(s) && s.size == SIZE && s.growth == Doubling && s.numEntries == 6
    && (forall m :: 0 <= m < 5 ==> s.table[Place(m)] == m + 1)
    && (forall j :: 1 <= j < 32 ==> s.table[j] == 0)
    && s.pool.cells[1] == Live(keys[4], v2, false)
    && (forall m :: 1 <= m < 5 ==> s.pool.cells[m + 1] == Live(keys[m], v1, false))
  }

  lemma DoublesUp(cfg: Config, keys: seq<CString>, v1: CString, v2: CString)
    requires Crowd(cfg, keys)
    ensures !SetAgain(cfg, keys, v1, v2).outcome.Exhausted?
    ensures Doubled(SetAgain(cfg, keys, v1, v2).store, keys, v1, v2)
  {
    var path := ProbePath(cfg.hash(keys[0]), SIZE);
    PathStarts(cfg.hash(keys[0]), 0);
    PathStarts(cfg.hash(keys[4]), 0);
    CrowdSets(cfg, keys, v1, 5);
    var s5 := SetAll(cfg, keys, v1, 5);
    assert Holds(s5.table, s5.pool.cells, keys[0], path[0]) by {
      assert s5.table[Place(0)] == 1;
    }
    DelAt(s5, keys[0], path, 0);
    var s6 := DelSpec(s5, keys[0], path).1;
    assert Open(s6.table, s6.pool.cells, keys[4], ProbePath(cfg.hash(keys[4]), SIZE)[0]);
    SetAt(cfg, s6, keys[4], v2, 0);
  }

  // ---------- The resize ----------

  lemma {:induction false} SkipEmpty(
      paths: CString -> seq<nat>, cells: seq<Cell>, from: seq<nat>, size: nat, i: nat, j: nat)
    requires i <= j <= |from| && InPool(from, cells) && forall k :: i <= k < j ==> from[k] == 0
    ensures MigrateTo(paths, cells, from, size, j) == MigrateTo(paths, cells, from, size, i)
  {
    if i < j {
      SkipEmpty(paths, cells, from, size, i, j - 1);
    }
  }

  /** The first `k` of the five slots the entries migrate to are taken. */
  ghost predicate Packed(m: Migration, k: nat) {
    && m.lost == 0 && |m.table| == BUCKET_SIZE * 2 * SIZE
    && forall j :: 32 <= j < 37 ==> (m.table[j] != 0 <==> j < 32 + k)
  }

  lemma MigrateNext(cfg: Config, cells: seq<Cell>, m: Migration, e: nat, k: nat)
    requires 0 < e < |cells| && cells[e].Live? && Lands(cfg.hash(cells[e].key)) && Packed(m, k) && k < 5
    ensures Packed(Migrate(PathsFor(cfg, 2 * SIZE), cells, m, e), k + 1)
  {
    var h := cfg.hash(cells[e].key);
    var path := ProbePath(h, 2 * SIZE);
    forall i | 0 <= i < 5 ensures path[i] == 32 + i {
      PathStarts(h, i);
    }
    assert forall i :: 0 <= i < k ==> !Unused(m.table, path[i]);
    FirstUnusedIs(m.table, path, k);
  }

  lemma NothingLost(cfg: Config, s: Store, keys: seq<CString>, v1: CString, v2: CString)
    requires Crowd(cfg, keys) && Doubled(s, keys, v1, v2)
    ensures MigrateTo(PathsFor(cfg, 2 * SIZE), s.pool.cells, s.table, 2 * SIZE, 36).lost == 0
  {
    var paths, cells, from := PathsFor(cfg, 2 * SIZE), s.pool.cells, s.table;
    assert from[Place(4)] == 5 && cells[5] == cells[4 + 1];
    MigrateNext(cfg, cells, MigrateTo(paths, cells, from, 2 * SIZE, 0), 5, 0);
    SkipEmpty(paths, cells, from, 2 * SIZE, 1, 32);
    LastBucket(cfg, s, keys, v1, v2, 3);
  }

  lemma {:induction false} LastBucket(cfg: Config, s: Store, keys: seq<CString>, v1: CString, v2: CString, i: nat)
    requires Crowd(cfg, keys) && Doubled(s, keys, v1, v2) && i < 4
    requires Packed(MigrateTo(PathsFor(cfg, 2 * SIZE), s.pool.cells, s.table, 2 * SIZE, 32), 1)
    ensures Packed(MigrateTo(PathsFor(cfg, 2 * SIZE), s.pool.cells, s.table, 2 * SIZE, 33 + i), 2 + i)
  {
    var paths, cells, from := PathsFor(cfg, 2 * SIZE), s.pool.cells, s.table;
    if i > 0 {
      LastBucket(cfg, s, keys, v1, v2, i - 1);
    }
    assert from[Place(i)] == i + 1;
    assert i > 0 ==> cells[i + 1] == Live(keys[i], v1, false);
    MigrateNext(cfg, cells, MigrateTo(paths, cells, from, 2 * SIZE, 32 + i), i + 1, 1 + i);
  }

  lemma {:induction false} FirstBucketFirst(s: Store, keys: seq<CString>, v1: CString, v2: CString, i: nat)
    requires Doubled(s, keys, v1, v2) && 1 <= i <= |s.table|
    ensures FirstInTable(s.table, s.pool.cells, keys[4], i) == 5
  {
    if i > 1 {
      FirstBucketFirst(s, keys, v1, v2, i - 1);
    } else {
      assert s.table[Place(4)] == 5 && s.pool.cells[4 + 1] == Live(keys[4], v1, false);
    }
  }

  /**
    Five keys are set to v1, the first is deleted, the fifth is set to v2 and reads as v2. The resize that
    the next set begins with loses no entry, and after it the fifth key reads as v1 again.
   */
  lemma OlderValueReturns(cfg: Config, keys: seq<CString>, v1: CString, v2: CString)
    requires Crowd(cfg, keys)
    ensures var s := SetAgain(cfg, keys, v1, v2).store;
      && Lookup(cfg, s, keys[4]) == Some(v2)
      && CanResize(s) && ResizeSpec(cfg, s).1 == 0
      && Lookup(cfg, ResizeSpec(cfg, s).0, keys[4]) == Some(v1)
  {
    DoublesUp(cfg, keys, v1, v2);
    var s := SetAgain(cfg, keys, v1, v2).store;
    var path := ProbePath(cfg.hash(keys[4]), SIZE);
    PathStarts(cfg.hash(keys[4]), 0);
    assert s.table[Place(0)] == 1;
    FirstHoldingIs(s.table, s.pool.cells, keys[4], path, 0);
    NothingLost(cfg, s, keys, v1, v2);
    ResizedLookup(PathsFor(cfg, 2 * SIZE), cfg, s, keys[4]);
    FirstBucketFirst(s, keys, v1, v2, |s.table|);
    assert s.pool.cells[4 + 1] == Live(keys[4], v1, false);
  }
}
