/** When the bounded probe can fail, and why a store with few keys never does. */
module StoreCapacity {
  import opened Common
  import opened EntryPool
  import opened StoreModel
  import opened StoreLookup
  import opened StoreResize
  import opened StoreTidy
  import opened StoreRuns
  import opened StoreRefinement

  // ---------- Five different buckets ----------

  lemma NotAMultiple(d: nat, size: nat, k: int)
    requires 0 < d < size
    ensures d != size * k
  {
    if k <= 0 {
      assert size * k <= 0;
    } else {
      assert size * k >= size;
    }
  }

  lemma RemaindersDiffer(x: nat, d: nat, size: nat)
    requires 0 < d < size
    ensures x % size != (x + d) % size
  {
    var q, q' := x / size, (x + d) / size;
    NotAMultiple(d, size, q' - q);
    assert size * (q' - q) == size * q' - size * q;
  }

  lemma SquaresGrow(a: nat, b: nat)
    requires a < b < MAX_READ_WRITE_ATTEMPTS
    ensures 0 <= a * a < b * b <= 16
  {
    assert b == 1 || b == 2 || b == 3 || b == 4;
    assert a == 0 || a == 1 || a == 2 || a == 3;
  }

  lemma BucketsDiffer(hash: u64, a: nat, b: nat, size: nat)
    requires 17 <= size && hash + 16 < TWO_TO_THE_64 && a < b < MAX_READ_WRITE_ATTEMPTS
    ensures BucketIndex(hash, a, size) != BucketIndex(hash, b, size)
  {
    var x, d := hash + a * a, b * b - a * a;
    SquaresGrow(a, b);
    RemaindersDiffer(x, d, size);
    assert BucketIndex(hash, a, size) == x % size && BucketIndex(hash, b, size) == (x + d) % size;
  }

  ghost predicate Injective(path: seq<nat>) {
    forall n, m :: 0 <= n < m < |path| ==> path[n] != path[m]
  }

  /** In a table of 17 buckets or more a probe whose sum does not wrap visits five different buckets. */
  lemma PathIsInjective(hash: u64, size: nat)
    requires 17 <= size && hash + 16 < TWO_TO_THE_64
    ensures Injective(ProbePath(hash, size))
  {
    var path := ProbePath(hash, size);
    forall n, m | 0 <= n < m < PROBES ensures path[n] != path[m] {
      ProbeUpToAt(hash, size, PROBES, n);
      ProbeUpToAt(hash, size, PROBES, m);
      if n / BUCKET_SIZE < m / BUCKET_SIZE {
        BucketsDiffer(hash, n / BUCKET_SIZE, m / BUCKET_SIZE, size);
      }
    }
  }

  /** Slot `j` refers to a live entry for a key other than `key`. */
  predicate Taken(table: seq<nat>, cells: seq<Cell>, key: CString, j: nat) {
    j < |table| && 0 < table[j] < |cells| && cells[table[j]].Live? && cells[table[j]].key != key
  }

  ghost predicate FullOfOthers(table: seq<nat>, cells: seq<Cell>, key: CString, path: seq<nat>) {
    forall n :: 0 <= n < |path| ==> Taken(table, cells, key, path[n])
  }

  /** All four slots of the bucket refer to live entries for keys other than `key`. */
  ghost predicate BucketFull(table: seq<nat>, cells: seq<Cell>, key: CString, bucket: nat) {
    && Taken(table, cells, key, 4 * bucket) && Taken(table, cells, key, 4 * bucket + 1)
    && Taken(table, cells, key, 4 * bucket + 2) && Taken(table, cells, key, 4 * bucket + 3)
  }

  /** The buckets 0, 1, 4, 9 and 16 from the key's hash are all full of other keys' entries. */
  ghost predicate FiveBucketsFull(s: Store, key: CString, hash: u64)
    requires 0 < s.size
  {
    && BucketFull(s.table, s.pool.cells, key, BucketAt(hash, 0, s.size))
    && BucketFull(s.table, s.pool.cells, key, BucketAt(hash, 1, s.size))
    && BucketFull(s.table, s.pool.cells, key, BucketAt(hash, 4, s.size))
    && BucketFull(s.table, s.pool.cells, key, BucketAt(hash, 9, s.size))
    && BucketFull(s.table, s.pool.cells, key, BucketAt(hash, 16, s.size))
  }

  lemma FullIsFiveBuckets(s: Store, key: CString, hash: u64)
    requires 0 < s.size
    ensures FullOfOthers(s.table, s.pool.cells, key, ProbePath(hash, s.size)) <==> FiveBucketsFull(s, key, hash)
  {
    hide ProbePath, BucketAt, Taken;
    var path := ProbePath(hash, s.size);
    ProbesFiveBuckets(hash, s.size, 0);
    ProbesFiveBuckets(hash, s.size, 1);
    ProbesFiveBuckets(hash, s.size, 2);
    ProbesFiveBuckets(hash, s.size, 3);
    if FullOfOthers(s.table, s.pool.cells, key, path) {
      assert forall n :: 0 <= n < 20 ==> Taken(s.table, s.pool.cells, key, path[n]);
    }
  }

  /**
    A set that does not resize fails exactly when the buckets 0, 1, 4, 9 and 16 from its key's hash are full of
    other keys' entries. From 17 buckets on, unless the sum wraps, those are twenty different slots.
   */
  lemma SetFailsWhenFull(cfg: Config, s: Store, key: CString, value: CString)
    requires Inv(s) && s.numEntries < Threshold(s.size)
    ensures SetSpec(cfg, s, key, value, cfg.hash(key)).outcome
         == if FiveBucketsFull(s, key, cfg.hash(key)) then NoRoom else Stored
    ensures 17 <= s.size && cfg.hash(key) + 16 < TWO_TO_THE_64 ==>
      |ProbePath(cfg.hash(key), s.size)| == 20 && Injective(ProbePath(cfg.hash(key), s.size))
  {
    hide FullOfOthers, FiveBucketsFull, InsertSpec, ProbePath;
    FullIsFiveBuckets(s, key, cfg.hash(key));
    FailsIffFull(cfg, s, key, value, ProbePath(cfg.hash(key), s.size));
    if 17 <= s.size && cfg.hash(key) + 16 < TWO_TO_THE_64 {
      PathIsInjective(cfg.hash(key), s.size);
    }
  }

  /** How many of the five buckets, in probe order, are full of other keys' entries before one that is not. */
  ghost function FullBuckets(s: Store, key: CString, hash: u64): nat
    requires 0 < s.size
  {
    if !BucketFull(s.table, s.pool.cells, key, BucketAt(hash, 0, s.size)) then 0
    else if !BucketFull(s.table, s.pool.cells, key, BucketAt(hash, 1, s.size)) then 1
    else if !BucketFull(s.table, s.pool.cells, key, BucketAt(hash, 4, s.size)) then 2
    else if !BucketFull(s.table, s.pool.cells, key, BucketAt(hash, 9, s.size)) then 3
    else if !BucketFull(s.table, s.pool.cells, key, BucketAt(hash, 16, s.size)) then 4
    else 5
  }

  /** The first of twenty slots that is not taken is in the first group of four that is not all taken. */
  lemma FirstGap(t: seq<bool>, n: nat)
    requires |t| == 20 && n <= 20 && (forall m :: 0 <= m < n ==> t[m]) && (n < 20 ==> !t[n])
    ensures n / 4 ==
      if !(t[0] && t[1] && t[2] && t[3]) then 0
      else if !(t[4] && t[5] && t[6] && t[7]) then 1
      else if !(t[8] && t[9] && t[10] && t[11]) then 2
      else if !(t[12] && t[13] && t[14] && t[15]) then 3
      else if !(t[16] && t[17] && t[18] && t[19]) then 4
      else 5
  {
  }

  lemma FirstOpenIsUntaken(s: Store, key: CString, path: seq<nat>, t: seq<bool>)
    requires Inv(s) && IsPath(path, s.size) && |t| == 20
    requires forall m :: 0 <= m < 20 ==> t[m] == Taken(s.table, s.pool.cells, key, path[m])
    ensures var n := FirstOpen(s.table, s.pool.cells, key, path);
      (forall m :: 0 <= m < n ==> t[m]) && (n < 20 ==> !t[n])
  {
    hide FirstOpen;
    var n := FirstOpen(s.table, s.pool.cells, key, path);
    forall m | 0 <= m < n ensures t[m] {
      assert !Open(s.table, s.pool.cells, key, path[m]);
    }
  }

  ghost predicate BucketHolds(table: seq<nat>, cells: seq<Cell>, key: CString, bucket: nat) {
    || Holds(table, cells, key, 4 * bucket) || Holds(table, cells, key, 4 * bucket + 1)
    || Holds(table, cells, key, 4 * bucket + 2) || Holds(table, cells, key, 4 * bucket + 3)
  }

  /** The bucket at the a-th offset, as four slots of the path. */
  lemma BucketOnPath(table: seq<nat>, cells: seq<Cell>, key: CString, hash: u64, size: nat, a: nat)
    requires 0 < size && a < 5
    ensures var path, bucket := ProbePath(hash, size), BucketAt(hash, PROBE_OFFSETS[a], size);
      && (BucketFull(table, cells, key, bucket) <==>
            && Taken(table, cells, key, path[4 * a]) && Taken(table, cells, key, path[4 * a + 1])
            && Taken(table, cells, key, path[4 * a + 2]) && Taken(table, cells, key, path[4 * a + 3]))
      && (BucketHolds(table, cells, key, bucket) <==>
            || Holds(table, cells, key, path[4 * a]) || Holds(table, cells, key, path[4 * a + 1])
            || Holds(table, cells, key, path[4 * a + 2]) || Holds(table, cells, key, path[4 * a + 3]))
  {
    hide ProbePath, BucketAt, Taken, Holds;
    SlotProbed(hash, size, a, 0);
    SlotProbed(hash, size, a, 1);
    SlotProbed(hash, size, a, 2);
    SlotProbed(hash, size, a, 3);
  }

  lemma FullBucketsPassed(s: Store, key: CString, hash: u64)
    requires Inv(s) && 0 < s.size
    ensures FirstOpen(s.table, s.pool.cells, key, ProbePath(hash, s.size)) / 4 == FullBuckets(s, key, hash)
  {
    hide ProbePath, BucketAt, FirstOpen, Taken, Inv, BucketFull;
    var table, cells, path := s.table, s.pool.cells, ProbePath(hash, s.size);
    BucketOnPath(table, cells, key, hash, s.size, 0);
    BucketOnPath(table, cells, key, hash, s.size, 1);
    BucketOnPath(table, cells, key, hash, s.size, 2);
    BucketOnPath(table, cells, key, hash, s.size, 3);
    BucketOnPath(table, cells, key, hash, s.size, 4);
    var t := seq(20, m requires 0 <= m < 20 => Taken(table, cells, key, path[m]));
    FirstOpenIsUntaken(s, key, path, t);
    FirstGap(t, FirstOpen(table, cells, key, path));
  }

  /** A set counts as collisions exactly the full buckets it passes, whether or not it finds room. */
  lemma SetCollisions(cfg: Config, s: Store, key: CString, value: CString)
    requires Inv(s) && s.numEntries < Threshold(s.size)
    ensures SetSpec(cfg, s, key, value, cfg.hash(key)).store.numCollisions
         == s.numCollisions + FullBuckets(s, key, cfg.hash(key))
  {
    hide FullBuckets, ProbePath;
    FullBucketsPassed(s, key, cfg.hash(key));
  }

  /** A get finds the key exactly when some slot of those five buckets holds it. */
  lemma GetProbes(cfg: Config, s: Store, key: CString)
    requires Inv(s) && 0 < s.size && Readable(cfg, s.pool.cells)
    ensures var table, cells, hash := s.table, s.pool.cells, cfg.hash(key);
      Lookup(cfg, s, key).Some? <==>
      || BucketHolds(table, cells, key, BucketAt(hash, 0, s.size))
      || BucketHolds(table, cells, key, BucketAt(hash, 1, s.size))
      || BucketHolds(table, cells, key, BucketAt(hash, 4, s.size))
      || BucketHolds(table, cells, key, BucketAt(hash, 9, s.size))
      || BucketHolds(table, cells, key, BucketAt(hash, 16, s.size))
  {
    hide ProbePath, BucketAt, Holds, Lookup, Inv, Readable, BucketHolds;
    var path := ProbePath(cfg.hash(key), s.size);
    LookupFinds(cfg, s, key, path);
    BucketOnPath(s.table, s.pool.cells, key, cfg.hash(key), s.size, 0);
    BucketOnPath(s.table, s.pool.cells, key, cfg.hash(key), s.size, 1);
    BucketOnPath(s.table, s.pool.cells, key, cfg.hash(key), s.size, 2);
    BucketOnPath(s.table, s.pool.cells, key, cfg.hash(key), s.size, 3);
    BucketOnPath(s.table, s.pool.cells, key, cfg.hash(key), s.size, 4);
    AnyOfTwenty(seq(20, m requires 0 <= m < 20 => Holds(s.table, s.pool.cells, key, path[m])));
  }

  lemma LookupFinds(cfg: Config, s: Store, key: CString, path: seq<nat>)
    requires Inv(s) && Readable(cfg, s.pool.cells) && path == ProbePath(cfg.hash(key), s.size)
    ensures Lookup(cfg, s, key).Some? <==> exists m :: 0 <= m < 20 && Holds(s.table, s.pool.cells, key, path[m])
  {
    hide ProbePath;
  }

  lemma AnyOfTwenty(t: seq<bool>)
    requires |t| == 20
    ensures (exists m :: 0 <= m < 20 && t[m]) <==>
      || t[0] || t[1] || t[2] || t[3] || t[4] || t[5] || t[6] || t[7] || t[8] || t[9]
      || t[10] || t[11] || t[12] || t[13] || t[14] || t[15] || t[16] || t[17] || t[18] || t[19]
  {
  }

  lemma FailsIffFull(cfg: Config, s: Store, key: CString, value: CString, path: seq<nat>)
    requires Inv(s) && s.numEntries < Threshold(s.size) && IsPath(path, s.size)
    ensures InsertSpec(cfg, s, key, value, path).0 <==> !FullOfOthers(s.table, s.pool.cells, key, path)
  {
    var n := FirstOpen(s.table, s.pool.cells, key, path);
    if n == PROBES {
      assert forall m :: 0 <= m < PROBES ==> !Open(s.table, s.pool.cells, key, path[m]);
    }
  }

  // ---------- Counting keys ----------

  function KeysOnPath(table: seq<nat>, cells: seq<Cell>, path: seq<nat>, n: nat): set<CString>
    requires n <= |path|
    requires forall m :: 0 <= m < n ==> path[m] < |table| && table[path[m]] < |cells| && cells[table[path[m]]].Live?
  {
    if n == 0 then {} else KeysOnPath(table, cells, path, n - 1) + {cells[table[path[n - 1]]].key}
  }

  lemma KeysDiffer(paths: CString -> seq<nat>, table: seq<nat>, cells: seq<Cell>, key: CString, m: nat, n: nat)
    requires Tidy(paths, cells, table) && m < n < PROBES && Injective(paths(key))
    requires FullOfOthers(table, cells, key, paths(key))
    ensures cells[table[paths(key)[m]]].key != cells[table[paths(key)[n]]].key
  {
    var path := paths(key);
    if cells[table[path[m]]].key == cells[table[path[n]]].key {
      TidyKeys(paths, cells, table, cells[table[path[n]]].key, path[m], path[n]);
    }
  }

  lemma {:induction false} KeysOnPathCount(
      paths: CString -> seq<nat>, table: seq<nat>, cells: seq<Cell>, key: CString, n: nat, all: set<CString>)
    requires Tidy(paths, cells, table) && n <= PROBES && Injective(paths(key))
    requires FullOfOthers(table, cells, key, paths(key)) && UsesKeys(table, cells, all) && key in all
    ensures var ks := KeysOnPath(table, cells, paths(key), n);
      && |ks| == n && ks <= all - {key}
      && forall k :: k in ks ==> exists m :: 0 <= m < n && cells[table[paths(key)[m]]].key == k
  {
    hide AllSeated, DistinctKeys;
    if n > 0 {
      KeysOnPathCount(paths, table, cells, key, n - 1, all);
      var ks := KeysOnPath(table, cells, paths(key), n - 1);
      var path := paths(key);
      var last := cells[table[path[n - 1]]].key;
      forall k | k in ks ensures k != last {
        var m :| 0 <= m < n - 1 && cells[table[path[m]]].key == k;
        KeysDiffer(paths, table, cells, key, m, n - 1);
      }
    }
  }

  ghost predicate UsesKeys(table: seq<nat>, cells: seq<Cell>, all: set<CString>) {
    forall j :: 0 <= j < |table| && 0 < table[j] < |cells| && cells[table[j]].Live? ==> cells[table[j]].key in all
  }

  /** A full path in a tidy table means twenty other keys. */
  lemma FullPathNeedsManyKeys(
      paths: CString -> seq<nat>, table: seq<nat>, cells: seq<Cell>, key: CString, all: set<CString>)
    requires Tidy(paths, cells, table) && Injective(paths(key)) && UsesKeys(table, cells, all) && key in all
    requires |all| <= 20
    ensures !FullOfOthers(table, cells, key, paths(key))
  {
    if FullOfOthers(table, cells, key, paths(key)) {
      KeysOnPathCount(paths, table, cells, key, PROBES, all);
      SetSize(KeysOnPath(table, cells, paths(key), PROBES), all - {key});
      assert false;
    }
  }

  // ---------- Few keys ----------

  ghost predicate FewKeys(cfg: Config, all: set<CString>) {
    |all| <= 20 && forall k :: k in all ==> cfg.hash(k) + 16 < TWO_TO_THE_64
  }

  ghost predicate AllInjective(paths: CString -> seq<nat>, all: set<CString>) {
    forall k :: k in all ==> Injective(paths(k))
  }

  lemma FewKeysInjective(cfg: Config, size: nat, all: set<CString>)
    requires 17 <= size && FewKeys(cfg, all)
    ensures AllInjective(PathsFor(cfg, size), all)
  {
    forall k | k in all ensures Injective(PathsFor(cfg, size)(k)) {
      PathIsInjective(cfg.hash(k), size);
    }
  }

  lemma InsertHasRoom(
      paths: CString -> seq<nat>, cfg: Config, s: Store, key: CString, value: CString, all: set<CString>)
    requires Inv(s) && s.numEntries < Threshold(s.size) && Tidy(paths, s.pool.cells, s.table)
    requires |all| <= 20 && AllInjective(paths, all) && UsesKeys(s.table, s.pool.cells, all) && key in all
    ensures var (ok, r) := InsertSpec(cfg, s, key, value, paths(key));
      ok && UsesKeys(r.table, r.pool.cells, all)
  {
    FullPathNeedsManyKeys(paths, s.table, s.pool.cells, key, all);
    FailsIffFull(cfg, s, key, value, paths(key));
    var n := FirstOpen(s.table, s.pool.cells, key, paths(key));
    var i := PlacedCells(cfg, s, key, value, paths(key), n);
  }

  lemma MigrateHasRoom(
      paths: CString -> seq<nat>, cells: seq<Cell>, t: seq<nat>, key: CString, all: set<CString>)
    requires Tidy(paths, cells, t) && forall j: nat :: !Holds(t, cells, key, j)
    requires |all| <= 20 && Injective(paths(key)) && UsesKeys(t, cells, all) && key in all
    ensures FirstUnused(t, paths(key)) < PROBES
  {
    var path := paths(key);
    FullPathNeedsManyKeys(paths, t, cells, key, all);
    forall n | 0 <= n < PROBES && !Unused(t, path[n])
      ensures 0 < t[path[n]] < |cells| && cells[t[path[n]]].Live? && cells[t[path[n]]].key != key
    {
      assert Seated(paths, cells, t, path[n]);
      assert !Holds(t, cells, key, path[n]);
    }
  }

  lemma {:induction false} MigrationLosesNone(
      oldPaths: CString -> seq<nat>, paths: CString -> seq<nat>, cells: seq<Cell>, from: seq<nat>, size: nat, i: nat,
      all: set<CString>)
    requires i <= |from| && cells != [] && Tidy(oldPaths, cells, from) && ArePaths(paths, size)
    requires |all| <= 20 && AllInjective(paths, all) && UsesKeys(from, cells, all)
    ensures var m := MigrateTo(paths, cells, from, size, i);
      m.lost == 0 && UsesKeys(m.table, cells, all)
  {
    hide AllSeated, DistinctKeys;
    if i > 0 {
      MigrationLosesNone(oldPaths, paths, cells, from, size, i - 1, all);
      MigratedIsTidy(oldPaths, paths, cells, from, size, i - 1);
      var t := MigrateTo(paths, cells, from, size, i - 1).table;
      var e := from[i - 1];
      if e != 0 {
        NextKeyIsNew(oldPaths, paths, cells, from, size, i - 1, t);
        MigrateHasRoom(paths, cells, t, cells[e].key, all);
      }
    }
  }

  lemma ResizeLosesNone(
      oldPaths: CString -> seq<nat>, paths: CString -> seq<nat>, s: Store, all: set<CString>)
    requires CanResize(s) && Tidy(oldPaths, s.pool.cells, s.table) && ArePaths(paths, NextSize(s).value)
    requires |all| <= 20 && AllInjective(paths, all) && UsesKeys(s.table, s.pool.cells, all)
    ensures var (r, lost) := Resized(paths, s);
      lost == 0 && UsesKeys(r.table, r.pool.cells, all)
  {
    MigrationLosesNone(oldPaths, paths, s.pool.cells, s.table, NextSize(s).value, |s.table|, all);
    MigratedInPool(paths, s.pool.cells, s.table, NextSize(s).value, |s.table|);
  }

  lemma FewKeysSet(cfg: Config, s: Store, key: CString, value: CString, all: set<CString>)
    requires RoundTrips(cfg.codec) && TidyStore(cfg, s) && FewKeys(cfg, all) && 17 <= s.size
    requires key in all && UsesKeys(s.table, s.pool.cells, all)
    ensures var r := SetSpec(cfg, s, key, value, cfg.hash(key));
      && !r.outcome.NoRoom? && r.lost == 0 && 17 <= r.store.size
      && UsesKeys(r.store.table, r.store.pool.cells, all)
  {
    var paths := PathsFor(cfg, s.size);
    if !NeedsResize(s) {
      FewKeysInjective(cfg, s.size, all);
      InsertHasRoom(paths, cfg, s, key, value, all);
    } else if NextSize(s).Some? {
      var newPaths := PathsFor(cfg, NextSize(s).value);
      FewKeysInjective(cfg, NextSize(s).value, all);
      ResizeLosesNone(paths, newPaths, s, all);
      ResizedIsTidy(paths, newPaths, s);
      InsertHasRoom(newPaths, cfg, Resized(newPaths, s).0, key, value, all);
    }
  }

  /** A run without deletes over at most twenty keys never fails a set and never loses an entry in a resize. */
  lemma {:induction false} FewKeysNeverFail(cfg: Config, size: nat, growth: Growth, ops: seq<Op>, all: set<CString>)
    requires RoundTrips(cfg.codec) && 17 <= size && Grows(size, growth) && NoDel(ops) && FewKeys(cfg, all)
    requires forall i :: 0 <= i < |ops| ==> ops[i].key in all
    ensures var t := Run(cfg, Initial(size, growth), ops);
      && t.lost == 0
      && (forall i :: 0 <= i < |t.replies| && t.replies[i].SetReply? ==> t.replies[i].outcome.Stored?)
      && TidyStore(cfg, t.store) && 17 <= t.store.size && UsesKeys(t.store.table, t.store.pool.cells, all)
  {
    hide Tidy, Readable, Lookup, SetSpec, FewKeys;
    if ops == [] {
      InitialIsTidy(cfg, size, growth);
    } else {
      var n := |ops| - 1;
      FewKeysNeverFail(cfg, size, growth, ops[..n], all);
      var s := Run(cfg, Initial(size, growth), ops[..n]).store;
      if ops[n].OpSet? {
        FewKeysSet(cfg, s, ops[n].key, ops[n].value, all);
        SetKeepsTidy(cfg, s, ops[n].key, ops[n].value);
      }
    }
  }
}
