/** The hash store as the program keeps it: a bucket array and an entry pool, updated in place. */
module KeyValueStore {
  import opened Common
  import opened EntryPool
  import opened StoreModel

  lemma InsertSpecIs(cfg: Config, s: Store, key: CString, value: CString, path: seq<nat>, n: nat)
    requires Inv(s) && s.numEntries < Threshold(s.size) && IsPath(path, s.size)
    requires n == FirstOpen(s.table, s.pool.cells, key, path)
    ensures n < PROBES ==> InsertSpec(cfg, s, key, value, path) == (true, Placed(cfg, s, key, value, path, n))
    ensures n == PROBES ==>
      InsertSpec(cfg, s, key, value, path) == (false, s.(numCollisions := s.numCollisions + n / BUCKET_SIZE))
  {
  }

  lemma ResizeSpecIs(cfg: Config, s: Store, newSize: nat, table: seq<nat>, lost: nat)
    requires CanResize(s) && newSize == NextSize(s).value
    requires Migration(table, lost) == MigrateTo(PathsFor(cfg, newSize), s.pool.cells, s.table, newSize, |s.table|)
    ensures ResizeSpec(cfg, s) ==
      (s.(table := table, size := newSize, pool := Expanded(s.pool, newSize), numResizes := s.numResizes + 1,
          growth := RestOfGrowth(s.growth)), lost)
  {
  }

  /** The slots of the bucket probed at `attempt`, as a stretch of `path`. */
  method CalcIndex(hash: u64, attempt: nat, size: nat, ghost path: seq<nat>) returns (idx: nat)
    requires 0 < size && attempt < MAX_READ_WRITE_ATTEMPTS && path == ProbePath(hash, size)
    ensures idx < size && idx == BucketAt(hash, PROBE_OFFSETS[attempt], size)
    ensures forall n :: BUCKET_SIZE * attempt <= n < BUCKET_SIZE * (attempt + 1) ==>
      path[n] == BUCKET_SIZE * idx + (n - BUCKET_SIZE * attempt)
  {
    idx := (hash + attempt * attempt) % TWO_TO_THE_64 % size;
    assert idx == BucketIndex(hash, attempt, size);
    BucketIsAt(hash, attempt, size);
    hide BucketIndex, ProbeUpTo, BucketAt;
    forall n | BUCKET_SIZE * attempt <= n < BUCKET_SIZE * (attempt + 1)
      ensures path[n] == BUCKET_SIZE * idx + (n - BUCKET_SIZE * attempt)
    {
      ProbeUpToAt(hash, size, PROBES, n);
      SlotInBucket(attempt, n);
    }
  }

  lemma SlotInBucket(attempt: nat, n: nat)
    requires BUCKET_SIZE * attempt <= n < BUCKET_SIZE * (attempt + 1)
    ensures n / BUCKET_SIZE == attempt && n % BUCKET_SIZE == n - BUCKET_SIZE * attempt
  {
  }

  /** The key of the live entry slot `j` refers to, or None when the slot is empty or its entry was vacated. */
  method KeyAt(table: array<nat>, pool: array<Entry>, j: nat) returns (entryIdx: nat, key: Option<CString>)
    requires j < table.Length && InPool(table[..], Cells(pool[..]))
    ensures entryIdx == table[j] < pool.Length
    ensures key == (if entryIdx == 0 then None else pool[entryIdx].key)
    ensures forall k :: Holds(table[..], Cells(pool[..]), k, j) <==> key == Some(k)
    ensures forall k :: Open(table[..], Cells(pool[..]), k, j) <==> key.None? || key.value == k
  {
    entryIdx := table[j];
    assert table[..][j] == entryIdx;
    key := if entryIdx == 0 then None else pool[entryIdx].key;
  }

  /** The probe loop of `get` and `del`: the entry of the first slot that holds the key, or 0. */
  method FindEntry(table: array<nat>, pool: array<Entry>, size: nat, key: CString, hash: u64) returns (entryIdx: nat)
    requires 0 < size && table.Length == BUCKET_SIZE * size && InPool(table[..], Cells(pool[..]))
    ensures entryIdx == EntryFor(table[..], Cells(pool[..]), key, ProbePath(hash, size))
  {
    hide ProbePath, InPool;
    ghost var t, cells, path := table[..], Cells(pool[..]), ProbePath(hash, size);
    var attempt := 0;
    while attempt < MAX_READ_WRITE_ATTEMPTS
      invariant attempt <= MAX_READ_WRITE_ATTEMPTS
      invariant forall m :: 0 <= m < BUCKET_SIZE * attempt ==> !Holds(t, cells, key, path[m])
    {
      var idx := CalcIndex(hash, attempt, size, path);
      for i := 0 to BUCKET_SIZE
        invariant forall m :: 0 <= m < BUCKET_SIZE * attempt + i ==> !Holds(t, cells, key, path[m])
      {
        var entryKey;
        entryIdx, entryKey := KeyAt(table, pool, BUCKET_SIZE * idx + i);
        if entryKey == Some(key) {
          FirstHoldingIs(t, cells, key, path, BUCKET_SIZE * attempt + i);
          return;
        }
      }
      attempt := attempt + 1;
    }
    entryIdx := 0;
  }

  /** The probe loop of `set`: the first position it may take, or PROBES, and that position's slot. */
  method FindOpenSlot(table: array<nat>, pool: array<Entry>, size: nat, key: CString, hash: u64)
    returns (n: nat, j: nat, collisions: nat)
    requires 0 < size && table.Length == BUCKET_SIZE * size && InPool(table[..], Cells(pool[..]))
    ensures n == FirstOpen(table[..], Cells(pool[..]), key, ProbePath(hash, size))
    ensures n < PROBES ==> j == ProbePath(hash, size)[n]
    ensures collisions == n / BUCKET_SIZE
  {
    hide Open, ProbePath, InPool;
    ghost var t, cells, path := table[..], Cells(pool[..]), ProbePath(hash, size);
    var attempt := 0;
    collisions := 0;
    while attempt < MAX_READ_WRITE_ATTEMPTS
      invariant attempt == collisions <= MAX_READ_WRITE_ATTEMPTS
      invariant forall m :: 0 <= m < BUCKET_SIZE * attempt ==> !Open(t, cells, key, path[m])
    {
      var idx := CalcIndex(hash, attempt, size, path);
      for i := 0 to BUCKET_SIZE
        invariant forall m :: 0 <= m < BUCKET_SIZE * attempt + i ==> !Open(t, cells, key, path[m])
      {
        j := BUCKET_SIZE * idx + i;
        var _, entryKey := KeyAt(table, pool, j);
        if entryKey.None? || entryKey.value == key {
          FirstOpenIs(t, cells, key, path, BUCKET_SIZE * attempt + i);
          return BUCKET_SIZE * attempt + i, j, collisions;
        }
      }
      collisions := collisions + 1;
      attempt := attempt + 1;
    }
    n, j := PROBES, 0;
  }

  /** The probe loop of `migrateEntry`: the first empty position, or PROBES, and that position's slot. */
  method FindUnusedSlot(table: array<nat>, size: nat, hash: u64) returns (n: nat, j: nat)
    requires 0 < size && table.Length == BUCKET_SIZE * size
    ensures n == FirstUnused(table[..], ProbePath(hash, size))
    ensures n < PROBES ==> j == ProbePath(hash, size)[n]
  {
    ghost var t, path := table[..], ProbePath(hash, size);
    var attempt := 0;
    while attempt < MAX_READ_WRITE_ATTEMPTS
      invariant attempt <= MAX_READ_WRITE_ATTEMPTS
      invariant forall m :: 0 <= m < BUCKET_SIZE * attempt ==> !Unused(t, path[m])
    {
      var idx := CalcIndex(hash, attempt, size, path);
      for k := 0 to BUCKET_SIZE
        invariant forall m :: 0 <= m < BUCKET_SIZE * attempt + k ==> !Unused(t, path[m])
      {
        if table[BUCKET_SIZE * idx + k] == 0 {
          FirstUnusedIs(t, path, BUCKET_SIZE * attempt + k);
          return BUCKET_SIZE * attempt + k, BUCKET_SIZE * idx + k;
        }
      }
      attempt := attempt + 1;
    }
    n, j := PROBES, 0;
  }

  /** Answers whether the entry was given up, which the program reports on standard error. */
  method MigrateEntry(cfg: Config, pool: array<Entry>, newTable: array<nat>, newSize: nat, entryIdx: nat)
    returns (gaveUp: bool)
    requires 0 < newSize && newTable.Length == BUCKET_SIZE * newSize && entryIdx < pool.Length && entryIdx != 0
    modifies newTable
    ensures Migration(newTable[..], if gaveUp then 1 else 0)
         == Migrate(PathsFor(cfg, newSize), Cells(pool[..]), Migration(old(newTable[..]), 0), entryIdx)
  {
    gaveUp := false;
    var entry := pool[entryIdx];
    if entry.key.None? {
      return;
    }
    var n, j := FindUnusedSlot(newTable, newSize, cfg.hash(entry.key.value));
    if n < PROBES {
      newTable[j] := entryIdx;
    } else {
      gaveUp := true;
    }
  }

  /** One turn of the inner loop of `resize`: migrates what slot `p` of the old table refers to. */
  method MigrateSlot(
      cfg: Config, pool: array<Entry>, table: array<nat>, p: nat, newTable: array<nat>, newSize: nat, lost: nat)
    returns (lost': nat)
    requires 0 < newSize && newTable.Length == BUCKET_SIZE * newSize && newTable != table
    requires p < table.Length && InPool(table[..], Cells(pool[..]))
    modifies newTable
    ensures Migration(newTable[..], lost')
         == Migrate(PathsFor(cfg, newSize), Cells(pool[..]), Migration(old(newTable[..]), lost), table[p])
  {
    lost' := lost;
    var entryIdx := table[p];
    assert table[..][p] == entryIdx;
    if entryIdx != 0 {
      var gaveUp := MigrateEntry(cfg, pool, newTable, newSize, entryIdx);
      if gaveUp {
        lost' := lost + 1;
      }
    }
  }

  /** One turn of the outer loop: the four slots of bucket `i`. */
  method MigrateBucket(
      cfg: Config, pool: array<Entry>, table: array<nat>, i: nat, newTable: array<nat>, newSize: nat, lost: nat)
    returns (lost': nat)
    requires 0 < newSize && newTable.Length == BUCKET_SIZE * newSize && newTable != table
    requires BUCKET_SIZE * (i + 1) <= table.Length && InPool(table[..], Cells(pool[..]))
    requires Migration(newTable[..], lost)
          == MigrateTo(PathsFor(cfg, newSize), Cells(pool[..]), table[..], newSize, BUCKET_SIZE * i)
    modifies newTable
    ensures Migration(newTable[..], lost')
         == MigrateTo(PathsFor(cfg, newSize), Cells(pool[..]), table[..], newSize, BUCKET_SIZE * (i + 1))
  {
    hide MigrateTo, Migrate, InPool, PathsFor, Cells;
    ghost var paths, cells, from := PathsFor(cfg, newSize), Cells(pool[..]), table[..];
    lost' := lost;
    for j := 0 to BUCKET_SIZE
      invariant table[..] == from && Cells(pool[..]) == cells
      invariant Migration(newTable[..], lost') == MigrateTo(paths, cells, from, newSize, BUCKET_SIZE * i + j)
    {
      lost' := MigrateSlot(cfg, pool, table, BUCKET_SIZE * i + j, newTable, newSize, lost');
      MigrateToStep(paths, cells, from, newSize, BUCKET_SIZE * i + j);
    }
  }

  /** The nested loops of `resize` over the old buckets and their slots. */
  method MigrateAll(cfg: Config, pool: array<Entry>, table: array<nat>, size: nat, newTable: array<nat>, newSize: nat)
    returns (lost: nat)
    requires 0 < newSize && newTable.Length == BUCKET_SIZE * newSize && newTable != table
    requires table.Length == BUCKET_SIZE * size && InPool(table[..], Cells(pool[..]))
    requires newTable[..] == EmptyTable(newSize)
    modifies newTable
    ensures Migration(newTable[..], lost)
         == MigrateTo(PathsFor(cfg, newSize), Cells(pool[..]), table[..], newSize, table.Length)
  {
    hide MigrateTo, Migrate, InPool, PathsFor, Cells;
    ghost var paths, cells, from := PathsFor(cfg, newSize), Cells(pool[..]), table[..];
    lost := 0;
    NothingMigrated(paths, cells, from, newSize, "", []);
    for i := 0 to size
      invariant table[..] == from && Cells(pool[..]) == cells
      invariant Migration(newTable[..], lost) == MigrateTo(paths, cells, from, newSize, BUCKET_SIZE * i)
    {
      lost := MigrateBucket(cfg, pool, table, i, newTable, newSize, lost);
    }
  }

  method NewTable(size: nat) returns (table: array<nat>)
    ensures fresh(table) && table[..] == EmptyTable(size)
  {
    table := new nat[BUCKET_SIZE * size](_ => 0);
  }

  class KeyValueStore {
    const cfg: Config
    const usePrimeNumbers: bool
    const entryPool: MemoryPool
    var table: array<nat>
    var tableSize: nat
    var numEntries: nat
    var numCollisions: nat
    var numResizes: nat
    var isResizing: bool
    var primeQueue: seq<nat>

    ghost function Model(): Store
      reads this, table, entryPool, entryPool.pool
    {
      Store(table[..], tableSize, entryPool.Model(), numEntries, numCollisions, numResizes, isResizing, Sizes())
    }

    ghost function Sizes(): Growth
      reads this`primeQueue
    {
      if usePrimeNumbers then Primes(primeQueue) else Doubling
    }

    ghost predicate Valid()
      reads this, table, entryPool, entryPool.pool
    {
      entryPool.Valid() && Inv(Model())
    }

    constructor (cfg: Config, initialSize: nat, usePrimeNumbers: bool, primes: seq<nat>)
      requires 2 <= initialSize
      requires usePrimeNumbers ==> Grows(initialSize, Primes(primes))
      ensures Valid() && this.cfg == cfg && fresh(table) && fresh(entryPool) && fresh(entryPool.pool)
      ensures Model() == Initial(initialSize, if usePrimeNumbers then Primes(primes) else Doubling)
    {
      this.cfg := cfg;
      this.usePrimeNumbers := usePrimeNumbers;
      entryPool := new MemoryPool(initialSize, primes);
      table := new nat[BUCKET_SIZE * initialSize](_ => 0);
      tableSize := initialSize;
      numEntries, numCollisions, numResizes := 0, 0, 0;
      isResizing := false;
      primeQueue := primes;
      new;
      assert table[..] == EmptyTable(initialSize);
      assert Model() == Initial(initialSize, if usePrimeNumbers then Primes(primes) else Doubling);
    }

    method Get(key: CString, hash: u64) returns (value: Option<string>)
      requires Valid()
      ensures value == GetSpec(cfg, Model(), key, ProbePath(hash, tableSize))
    {
      var entryIdx := FindEntry(table, entryPool.pool, tableSize, key, hash);
      if entryIdx == 0 {
        return None;
      }
      var entry := entryPool.pool[entryIdx];
      value := if entry.compressed then cfg.codec.decompress(entry.value) else Some(entry.value);
    }

    method Del(key: CString, hash: u64) returns (found: bool)
      requires Valid()
      modifies entryPool, entryPool.pool
      ensures Valid() && entryPool.pool == old(entryPool.pool) && entryPool.primeQueue == old(entryPool.primeQueue)
      ensures (found, Model()) == DelSpec(old(Model()), key, ProbePath(hash, tableSize))
    {
      var entryIdx := FindEntry(table, entryPool.pool, tableSize, key, hash);
      found := entryIdx != 0;
      if found {
        entryPool.Deallocate(entryIdx);
      }
    }

    /** Takes a free entry and fills it, compressing the value when that is enabled and worth it. */
    method InsertEntry(key: CString, value: CString) returns (i: nat)
      requires entryPool.Valid() && entryPool.free != []
      modifies this`numEntries, entryPool, entryPool.pool
      ensures entryPool.Valid() && entryPool.pool == old(entryPool.pool)
      ensures entryPool.primeQueue == old(entryPool.primeQueue)
      ensures numEntries == old(numEntries) + 1 && i == old(entryPool.free)[0]
      ensures entryPool.Model() == Filled(Allocated(old(entryPool.Model())), i, CellFor(cfg, key, value))
    {
      var _, taken := entryPool.Allocate();
      i := taken;
      if cfg.compressionEnabled && |value| + 1 >= MIN_SIZE_TO_COMPRESS {
        match cfg.codec.compress(value)
        case Some(blob) => entryPool.Fill(i, key, blob, true);
        case None => entryPool.Fill(i, key, value, entryPool.pool[i].compressed);
      } else {
        entryPool.Fill(i, key, value, entryPool.pool[i].compressed);
      }
      numEntries := numEntries + 1;
    }

    /** Releases a live entry that `set` is about to replace. */
    method Reclaim(entryIdx: nat)
      requires entryPool.Valid() && entryIdx < entryPool.capacity
      modifies entryPool, entryPool.pool
      ensures entryPool.Valid() && entryPool.pool == old(entryPool.pool)
      ensures entryPool.primeQueue == old(entryPool.primeQueue)
      ensures entryPool.Model() == Reclaimed(old(entryPool.Model()), entryIdx)
    {
      if entryIdx != 0 && entryPool.pool[entryIdx].key.Some? {
        entryPool.Deallocate(entryIdx);
      }
    }

    /** Releases what the slot referred to and stores the new entry; the pool side of one `set`. */
    method Replace(entryIdx: nat, key: CString, value: CString) returns (i: nat)
      requires entryPool.Valid() && entryIdx < entryPool.capacity && entryPool.free != []
      modifies this`numEntries, entryPool, entryPool.pool
      ensures entryPool.Valid() && entryPool.pool == old(entryPool.pool)
      ensures entryPool.primeQueue == old(entryPool.primeQueue)
      ensures numEntries == old(numEntries) + 1
      ensures var p := Reclaimed(old(entryPool.Model()), entryIdx);
        i == p.free[0] && entryPool.Model() == Filled(Allocated(p), i, CellFor(cfg, key, value))
    {
      Reclaim(entryIdx);
      i := InsertEntry(key, value);
    }

    /** Writes the entry at the n-th slot of the path, after releasing the same-key entry found there. */
    method PlaceAt(key: CString, value: CString, n: nat, j: nat, collisions: nat, ghost path: seq<nat>)
      requires Valid() && numEntries < Threshold(tableSize)
      requires IsPath(path, tableSize) && n < PROBES && path[n] == j
      requires collisions == n / BUCKET_SIZE
      modifies this`numEntries, this`numCollisions, table, entryPool, entryPool.pool
      ensures entryPool.Valid() && entryPool.pool == old(entryPool.pool)
      ensures entryPool.primeQueue == old(entryPool.primeQueue)
      ensures Model() == Placed(cfg, old(Model()), key, value, path, n)
    {
      hide CellFor, Sound, Filled, Allocated, Reclaimed, Grows;
      ghost var s := Model();
      var i := Replace(table[j], key, value);
      table[j] := i;
      numCollisions := numCollisions + collisions;
      PlacedIs(cfg, s, key, value, path, n, i, entryPool.Model());
      assert table[..] == s.table[j := i];
    }

    /** The probe loop of `set`, once the table is large enough. */
    method Insert(key: CString, value: CString, hash: u64) returns (ok: bool)
      requires Valid() && numEntries < Threshold(tableSize)
      modifies this`numEntries, this`numCollisions, table, entryPool, entryPool.pool
      ensures Valid() && entryPool.pool == old(entryPool.pool) && entryPool.primeQueue == old(entryPool.primeQueue)
      ensures (ok, Model()) == InsertSpec(cfg, old(Model()), key, value, ProbePath(hash, tableSize))
    {
      hide Placed, FirstOpen, ProbePath, Sound, Grows;
      ghost var s, path := Model(), ProbePath(hash, tableSize);
      var n, j, collisions := FindOpenSlot(table, entryPool.pool, tableSize, key, hash);
      InsertSpecIs(cfg, s, key, value, path, n);
      ok := n < PROBES;
      if ok {
        PlaceAt(key, value, n, j, collisions, path);
      } else {
        numCollisions := numCollisions + collisions;
        assert Model() == s.(numCollisions := s.numCollisions + n / BUCKET_SIZE);
      }
    }

    /** The size to grow to, or None when the prime generator has run out and throws. */
    method PopNextSize() returns (size: Option<nat>)
      modifies this`primeQueue
      ensures size == NextSize(old(Model()))
      ensures Sizes() == RestOfGrowth(old(Sizes()))
    {
      if !usePrimeNumbers {
        return Some(tableSize * 2);
      }
      if primeQueue == [] {
        return None;
      }
      size := Some(primeQueue[0]);
      primeQueue := primeQueue[1..];
    }

    /** Grows the pool, then moves every live entry into a fresh table of the new size. */
    method GrowTo(newTableSize: nat) returns (lost: nat)
      requires entryPool.Valid() && entryPool.capacity == tableSize && table.Length == BUCKET_SIZE * tableSize
      requires InPool(table[..], entryPool.Model().cells) && tableSize < newTableSize
      modifies this`table, this`tableSize, entryPool
      ensures entryPool.Valid() && fresh(table) && fresh(entryPool.pool)
      ensures entryPool.primeQueue == old(entryPool.primeQueue) && tableSize == newTableSize
      ensures entryPool.Model() == Expanded(old(entryPool.Model()), newTableSize)
      ensures Migration(table[..], lost)
           == MigrateTo(PathsFor(cfg, newTableSize), old(entryPool.Model()).cells, old(table[..]), newTableSize,
                        old(table.Length))
    {
      ghost var from, cells := table[..], entryPool.Model().cells;
      entryPool.ExpandPool(newTableSize);
      var newTable := NewTable(newTableSize);
      lost := MigrateAll(cfg, entryPool.pool, table, tableSize, newTable, newTableSize);
      MigrateInGrownPool(PathsFor(cfg, newTableSize), cells, entryPool.Model().cells, from, newTableSize, |from|);
      table := newTable;
      tableSize := newTableSize;
    }

    /** What is left of `resize` once the new size is known; `s` is the store before it began. */
    method FinishResize(newTableSize: nat, ghost s: Store) returns (lost: nat)
      requires entryPool.Valid() && CanResize(s) && newTableSize == NextSize(s).value
      requires Model() == s.(isResizing := true, growth := RestOfGrowth(s.growth))
      modifies this`table, this`tableSize, this`isResizing, this`numResizes, entryPool
      ensures entryPool.Valid() && fresh(table) && fresh(entryPool.pool)
      ensures entryPool.primeQueue == old(entryPool.primeQueue)
      ensures (Model(), lost) == ResizeSpec(cfg, s)
    {
      hide Sound, MigrateTo, PathsFor;
      lost := GrowTo(newTableSize);
      isResizing := false;
      numResizes := numResizes + 1;
      ResizeSpecIs(cfg, s, tableSize, table[..], lost);
      assert Model() == ResizeSpec(cfg, s).0;
    }

    /** Answers false when the prime generator throws, which leaves `isResizing` set. */
    method Resize() returns (ok: bool, lost: nat)
      requires Valid() && NeedsResize(Model())
      modifies this, entryPool
      ensures entryPool.primeQueue == old(entryPool.primeQueue)
      ensures ok == old(NextSize(Model())).Some?
      ensures ok ==> Valid() && fresh(table) && fresh(entryPool.pool)
      ensures ok ==> (Model(), lost) == ResizeSpec(cfg, old(Model()))
      ensures !ok ==> Model() == old(Model()).(isResizing := true) && lost == 0
      ensures !ok ==> table == old(table) && entryPool.pool == old(entryPool.pool)
    {
      ghost var s := Model();
      isResizing := true;
      var newTableSize := PopNextSize();
      if newTableSize.None? {
        return false, 0;
      }
      lost := FinishResize(newTableSize.value, s);
      ok := true;
    }

    /** `set` on a table that is full enough to grow first. */
    method ResizeAndInsert(key: CString, value: CString, hash: u64) returns (outcome: SetOutcome, lost: nat)
      requires Valid() && NeedsResize(Model())
      modifies this, table, entryPool, entryPool.pool
      ensures !outcome.Exhausted? ==> Valid()
      ensures entryPool.primeQueue == old(entryPool.primeQueue)
      ensures SetResult(outcome, Model(), lost) == SetSpec(cfg, old(Model()), key, value, hash)
    {
      hide InsertSpec, ResizeSpec, ProbePath, Sound;
      var grown;
      grown, lost := Resize();
      if !grown {
        return Exhausted, lost;
      }
      var ok := Insert(key, value, hash);
      outcome := if ok then Stored else NoRoom;
    }

    /** The pool's own prime generator is never used: `allocate` always finds a free entry. */
    method Set(key: CString, value: CString, hash: u64) returns (outcome: SetOutcome, lost: nat)
      requires Valid()
      modifies this, table, entryPool, entryPool.pool
      ensures !outcome.Exhausted? ==> Valid()
      ensures entryPool.primeQueue == old(entryPool.primeQueue)
      ensures SetResult(outcome, Model(), lost) == SetSpec(cfg, old(Model()), key, value, hash)
    {
      if numEntries >= tableSize * RESIZE_THRESHOLD_PERCENTAGE / 100 && !isResizing {
        outcome, lost := ResizeAndInsert(key, value, hash);
      } else {
        lost := 0;
        var ok := Insert(key, value, hash);
        outcome := if ok then Stored else NoRoom;
      }
    }
  }
}
