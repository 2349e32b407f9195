/**
  The hash store as a value: what `set`, `get`, `del` and `resize` do to the bucket table and the
  pool. The class in KeyValueStore.dfy is proved to compute these functions.
 */
module StoreModel {
  import opened Common
  import opened EntryPool

  const BUCKET_SIZE := 4
  const MIN_SIZE_TO_COMPRESS := 30
  const MAX_READ_WRITE_ATTEMPTS := 5
  const RESIZE_THRESHOLD_PERCENTAGE := 70

  /** Slots a probe visits: five buckets of four. */
  const PROBES := 20

  // ---------- Hash and compressor, both arbitrary ----------

  /** `compress` answers None when the compressor reports an error, and so does `decompress`. */
  datatype Codec = Codec(compress: CString -> Option<string>, decompress: string -> Option<string>)

  ghost predicate RoundTrips(c: Codec) {
    forall v: CString :: v != "" && c.compress(v).Some? ==> c.decompress(c.compress(v).value) == Some(v)
  }

  datatype Config = Config(hash: CString -> u64, codec: Codec, compressionEnabled: bool)

  // ---------- State ----------

  datatype Growth = Doubling | Primes(queue: seq<nat>)

  /** `table` is the bucket array laid out flat: slot i of bucket b is `table[4 * b + i]`. */
  datatype Store = Store(
    table: seq<nat>,
    size: nat,
    pool: Pool,
    numEntries: nat,
    numCollisions: nat,
    numResizes: nat,
    isResizing: bool,
    growth: Growth)

  function Threshold(size: nat): nat {
    size * RESIZE_THRESHOLD_PERCENTAGE / 100
  }

  /** The sizes to come grow the table by at least two each time. */
  ghost predicate Grows(size: nat, g: Growth) {
    match g
    case Doubling => true
    case Primes(q) =>
      && (q != [] ==> size + 2 <= q[0])
      && (forall i :: 0 <= i < |q| - 1 ==> q[i] + 2 <= q[i + 1])
  }

  /** What every reachable state satisfies, whatever hashes callers pass. */
  ghost predicate Inv(s: Store) {
    && 2 <= s.size
    && |s.table| == BUCKET_SIZE * s.size
    && |s.pool.cells| == s.size
    && Sound(s.pool)
    && (forall j :: 0 <= j < |s.table| ==> s.table[j] < s.size)
    && s.numEntries <= Threshold(s.size) <= s.numEntries + |s.pool.free|
    && Grows(s.size, s.growth)
    && !s.isResizing
  }

  function EmptyTable(size: nat): (t: seq<nat>)
    ensures |t| == BUCKET_SIZE * size
    ensures forall j :: 0 <= j < |t| ==> t[j] == 0
  {
    seq(BUCKET_SIZE * size, _ => 0)
  }

  function Initial(size: nat, growth: Growth): (s: Store)
    requires 2 <= size && Grows(size, growth)
    ensures Inv(s)
  {
    Store(EmptyTable(size), size, Fresh(size), 0, 0, 0, false, growth)
  }

  // ---------- Probing ----------

  /** `calcIndex`; the sum wraps at 64 bits before the remainder is taken. */
  function BucketIndex(hash: u64, attempt: nat, size: nat): (b: nat)
    requires 0 < size
    ensures b < size
  {
    (hash + attempt * attempt) % TWO_TO_THE_64 % size
  }

  /** Twenty slots of a table of `size` buckets, in the order a probe visits them. */
  ghost predicate IsPath(path: seq<nat>, size: nat) {
    |path| == PROBES && forall n :: 0 <= n < PROBES ==> path[n] < BUCKET_SIZE * size
  }

  /** The first `n` slots a probe visits. */
  function ProbeUpTo(hash: u64, size: nat, n: nat): (path: seq<nat>)
    requires 0 < size
    ensures |path| == n
    ensures forall m :: 0 <= m < n ==> path[m] < BUCKET_SIZE * size
  {
    if n == 0 then []
    else
      ProbeUpTo(hash, size, n - 1)
      + [BUCKET_SIZE * BucketIndex(hash, (n - 1) / BUCKET_SIZE, size) + (n - 1) % BUCKET_SIZE]
  }

  function ProbePath(hash: u64, size: nat): (path: seq<nat>)
    requires 0 < size
    ensures IsPath(path, size)
  {
    ProbeUpTo(hash, size, PROBES)
  }

  lemma {:induction false} ProbeUpToAt(hash: u64, size: nat, n: nat, m: nat)
    requires 0 < size && m < n
    ensures ProbeUpTo(hash, size, n)[m] == BUCKET_SIZE * BucketIndex(hash, m / BUCKET_SIZE, size) + m % BUCKET_SIZE
  {
    if m < n - 1 {
      ProbeUpToAt(hash, size, n - 1, m);
    }
  }

  // ---------- The five buckets ----------

  /** How far from the hash the five buckets probed lie. */
  const PROBE_OFFSETS: seq<nat> := [0, 1, 4, 9, 16]

  /** The bucket at offset `d` from the hash, the 64-bit sum wrapped at most once. */
  function BucketAt(hash: u64, d: nat, size: nat): (b: nat)
    requires 0 < size && d <= 16
    ensures b < size
  {
    if hash + d < 0x1_0000_0000_0000_0000 then (hash + d) % size else (hash + d - 0x1_0000_0000_0000_0000) % size
  }

  lemma BucketIsAt(hash: u64, attempt: nat, size: nat)
    requires 0 < size && attempt < 5
    ensures BucketIndex(hash, attempt, size) == BucketAt(hash, PROBE_OFFSETS[attempt], size)
  {
    assert attempt * attempt == PROBE_OFFSETS[attempt];
  }

  /** The twenty slots probed, for every hash and table size: those of the buckets 0, 1, 4, 9 and 16 from the hash. */
  lemma ProbesFiveBuckets(hash: u64, size: nat, i: nat)
    requires 0 < size && i < 4
    ensures var path := ProbePath(hash, size);
      && |path| == 20
      && path[i] == 4 * BucketAt(hash, 0, size) + i
      && path[4 + i] == 4 * BucketAt(hash, 1, size) + i
      && path[8 + i] == 4 * BucketAt(hash, 4, size) + i
      && path[12 + i] == 4 * BucketAt(hash, 9, size) + i
      && path[16 + i] == 4 * BucketAt(hash, 16, size) + i
  {
    forall a: nat | a < 5 ensures ProbePath(hash, size)[4 * a + i] == 4 * BucketAt(hash, PROBE_OFFSETS[a], size) + i {
      SlotProbed(hash, size, a, i);
    }
    assert PROBE_OFFSETS[0] == 0 && PROBE_OFFSETS[1] == 1 && PROBE_OFFSETS[2] == 4;
    assert PROBE_OFFSETS[3] == 9 && PROBE_OFFSETS[4] == 16;
    assert 4 * 0 + i == i && 4 * 1 + i == 4 + i && 4 * 2 + i == 8 + i && 4 * 3 + i == 12 + i && 4 * 4 + i == 16 + i;
  }

  lemma SlotProbed(hash: u64, size: nat, a: nat, i: nat)
    requires 0 < size && a < 5 && i < 4
    ensures ProbePath(hash, size)[4 * a + i] == 4 * BucketAt(hash, PROBE_OFFSETS[a], size) + i
  {
    hide BucketIndex, ProbeUpTo, BucketAt;
    ProbeUpToAt(hash, size, PROBES, 4 * a + i);
    BucketIsAt(hash, a, size);
    assert (4 * a + i) / 4 == a && (4 * a + i) % 4 == i;
  }

  /** Every key's probe path in a table of `size` buckets. */
  function PathsFor(cfg: Config, size: nat): (paths: CString -> seq<nat>)
    requires 0 < size
    ensures ArePaths(paths, size)
    ensures forall key: CString :: paths(key) == ProbePath(cfg.hash(key), size)
  {
    var paths := (key: CString) => ProbePath(cfg.hash(key), size);
    assert forall key: CString :: paths(key) == ProbePath(cfg.hash(key), size);
    paths
  }

  ghost predicate ArePaths(paths: CString -> seq<nat>, size: nat) {
    forall key: CString :: IsPath(paths(key), size)
  }

  /** The least position from `n` on whose slot passes `test`, or the path's length. */
  function FirstFrom(path: seq<nat>, test: nat -> bool, n: nat): (r: nat)
    requires n <= |path|
    ensures n <= r <= |path|
    ensures r < |path| ==> test(path[r])
    ensures forall m :: n <= m < r ==> !test(path[m])
    decreases |path| - n
  {
    if n == |path| || test(path[n]) then n else FirstFrom(path, test, n + 1)
  }

  /** Slot `j` refers to a live entry for `key`. */
  predicate Holds(table: seq<nat>, cells: seq<Cell>, key: CString, j: nat) {
    && j < |table|
    && table[j] != 0
    && table[j] < |cells|
    && cells[table[j]].Live?
    && cells[table[j]].key == key
  }

  /** Slot `j` is one `set` may take for `key`: empty, vacated, or holding the key already. */
  predicate Open(table: seq<nat>, cells: seq<Cell>, key: CString, j: nat) {
    && j < |table|
    && (table[j] == 0 || (table[j] < |cells| && (cells[table[j]].Vacant? || cells[table[j]].key == key)))
  }

  predicate Unused(table: seq<nat>, j: nat) {
    j < |table| && table[j] == 0
  }

  function FirstHolding(table: seq<nat>, cells: seq<Cell>, key: CString, path: seq<nat>): (n: nat)
    ensures n <= |path|
    ensures n < |path| ==> Holds(table, cells, key, path[n])
    ensures forall m :: 0 <= m < n ==> !Holds(table, cells, key, path[m])
  {
    FirstFrom(path, (j: nat) => Holds(table, cells, key, j), 0)
  }

  function FirstOpen(table: seq<nat>, cells: seq<Cell>, key: CString, path: seq<nat>): (n: nat)
    ensures n <= |path|
    ensures n < |path| ==> Open(table, cells, key, path[n])
    ensures forall m :: 0 <= m < n ==> !Open(table, cells, key, path[m])
  {
    FirstFrom(path, (j: nat) => Open(table, cells, key, j), 0)
  }

  function FirstUnused(table: seq<nat>, path: seq<nat>): (n: nat)
    ensures n <= |path|
    ensures n < |path| ==> Unused(table, path[n])
    ensures forall m :: 0 <= m < n ==> !Unused(table, path[m])
  {
    FirstFrom(path, (j: nat) => Unused(table, j), 0)
  }

  lemma FirstHoldingIs(table: seq<nat>, cells: seq<Cell>, key: CString, path: seq<nat>, n: nat)
    requires n < |path| && Holds(table, cells, key, path[n])
    requires forall m :: 0 <= m < n ==> !Holds(table, cells, key, path[m])
    ensures FirstHolding(table, cells, key, path) == n
  {
    assert !(FirstHolding(table, cells, key, path) > n);
  }

  lemma FirstOpenIs(table: seq<nat>, cells: seq<Cell>, key: CString, path: seq<nat>, n: nat)
    requires n < |path| && Open(table, cells, key, path[n])
    requires forall m :: 0 <= m < n ==> !Open(table, cells, key, path[m])
    ensures FirstOpen(table, cells, key, path) == n
  {
    assert !(FirstOpen(table, cells, key, path) > n);
  }

  lemma FirstUnusedIs(table: seq<nat>, path: seq<nat>, n: nat)
    requires n < |path| && Unused(table, path[n])
    requires forall m :: 0 <= m < n ==> !Unused(table, path[m])
    ensures FirstUnused(table, path) == n
  {
    assert !(FirstUnused(table, path) > n);
  }

  // ---------- get ----------

  function CellFor(cfg: Config, key: CString, value: CString): Cell {
    if cfg.compressionEnabled && |value| + 1 >= MIN_SIZE_TO_COMPRESS then
      match cfg.codec.compress(value)
      case Some(blob) => Live(key, blob, true)
      case None => Live(key, value, false)
    else
      Live(key, value, false)
  }

  function ValueOf(cfg: Config, c: Cell): Option<string>
    requires c.Live?
  {
    if c.compressed then cfg.codec.decompress(c.blob) else Some(c.blob)
  }

  /** The pool index a lookup stops at, or 0. */
  function EntryFor(table: seq<nat>, cells: seq<Cell>, key: CString, path: seq<nat>): (e: nat)
    ensures e != 0 ==> e < |cells| && cells[e].Live? && cells[e].key == key
  {
    var n := FirstHolding(table, cells, key, path);
    if n < |path| then table[path[n]] else 0
  }

  function GetSpec(cfg: Config, s: Store, key: CString, path: seq<nat>): Option<string> {
    var e := EntryFor(s.table, s.pool.cells, key, path);
    if e != 0 then ValueOf(cfg, s.pool.cells[e]) else None
  }

  // ---------- del ----------

  function DelSpec(s: Store, key: CString, path: seq<nat>): (r: (bool, Store))
    requires Inv(s)
    ensures Inv(r.1)
  {
    var e := EntryFor(s.table, s.pool.cells, key, path);
    if e != 0 then (true, s.(pool := Deallocated(s.pool, e))) else (false, s)
  }

  // ---------- set without resizing ----------

  /** The pool after `set` took over a slot referring to `e`: a live `e` is released first. */
  function Reclaimed(p: Pool, e: nat): (q: Pool)
    requires Sound(p) && e < |p.cells|
    ensures Sound(q) && |p.free| <= |q.free| && |q.cells| == |p.cells|
  {
    if e != 0 && p.cells[e].Live? then Deallocated(p, e) else p
  }

  /** Releases the slot's entry when it holds the key, takes a free entry and fills it. */
  function Placed(cfg: Config, s: Store, key: CString, value: CString, path: seq<nat>, n: nat): (r: Store)
    requires Inv(s) && s.numEntries < Threshold(s.size)
    requires IsPath(path, s.size) && n < PROBES
    ensures Inv(r) && r.size == s.size
  {
    var p := Reclaimed(s.pool, s.table[path[n]]);
    var i := p.free[0];
    s.(table := s.table[path[n] := i],
       pool := Filled(Allocated(p), i, CellFor(cfg, key, value)),
       numEntries := s.numEntries + 1,
       numCollisions := s.numCollisions + n / BUCKET_SIZE)
  }

  lemma PlacedIs(
      cfg: Config, s: Store, key: CString, value: CString, path: seq<nat>, n: nat, i: nat, pool: Pool)
    requires Inv(s) && s.numEntries < Threshold(s.size) && IsPath(path, s.size) && n < PROBES
    requires var p := Reclaimed(s.pool, s.table[path[n]]);
      i == p.free[0] && pool == Filled(Allocated(p), i, CellFor(cfg, key, value))
    ensures Placed(cfg, s, key, value, path, n) == s.(table := s.table[path[n] := i], pool := pool,
      numEntries := s.numEntries + 1, numCollisions := s.numCollisions + n / BUCKET_SIZE)
  {
  }

  function InsertSpec(cfg: Config, s: Store, key: CString, value: CString, path: seq<nat>): (r: (bool, Store))
    requires Inv(s) && s.numEntries < Threshold(s.size)
    requires IsPath(path, s.size)
    ensures Inv(r.1) && r.1.size == s.size
  {
    var n := FirstOpen(s.table, s.pool.cells, key, path);
    if n < PROBES then
      (true, Placed(cfg, s, key, value, path, n))
    else
      (false, s.(numCollisions := s.numCollisions + MAX_READ_WRITE_ATTEMPTS))
  }

  // ---------- resize ----------

  /** `lost` counts the live entries that found no room and were left out of the new table. */
  datatype Migration = Migration(table: seq<nat>, lost: nat)

  function Migrate(paths: CString -> seq<nat>, cells: seq<Cell>, m: Migration, e: nat): (r: Migration)
    requires e < |cells|
    ensures |r.table| == |m.table|
  {
    if e == 0 || cells[e].Vacant? then m else
    var path := paths(cells[e].key);
    var n := FirstUnused(m.table, path);
    if n < |path| then m.(table := m.table[path[n] := e]) else m.(lost := m.lost + 1)
  }

  ghost predicate InPool(table: seq<nat>, cells: seq<Cell>) {
    forall j :: 0 <= j < |table| ==> table[j] < |cells|
  }

  /** The new table after the first `i` slots of the old one were migrated in order. */
  function MigrateTo(paths: CString -> seq<nat>, cells: seq<Cell>, from: seq<nat>, size: nat, i: nat): (r: Migration)
    requires i <= |from| && InPool(from, cells)
    ensures |r.table| == BUCKET_SIZE * size
  {
    if i == 0 then Migration(EmptyTable(size), 0)
    else Migrate(paths, cells, MigrateTo(paths, cells, from, size, i - 1), from[i - 1])
  }

  lemma NothingMigrated(
      paths: CString -> seq<nat>, cells: seq<Cell>, from: seq<nat>, size: nat, key: CString, path: seq<nat>)
    requires InPool(from, cells)
    ensures MigrateTo(paths, cells, from, size, 0) == Migration(EmptyTable(size), 0)
    ensures EntryFor(EmptyTable(size), cells, key, path) == 0
  {
    assert forall j: nat :: !Holds(EmptyTable(size), cells, key, j);
  }

  lemma MigrateToStep(paths: CString -> seq<nat>, cells: seq<Cell>, from: seq<nat>, size: nat, i: nat)
    requires i < |from| && InPool(from, cells)
    ensures MigrateTo(paths, cells, from, size, i + 1)
         == Migrate(paths, cells, MigrateTo(paths, cells, from, size, i), from[i])
    ensures MigrateTo(paths, cells, from, size, i).lost <= MigrateTo(paths, cells, from, size, i + 1).lost
  {
  }

  lemma {:induction false} MigratedInPool(
      paths: CString -> seq<nat>, cells: seq<Cell>, from: seq<nat>, size: nat, i: nat)
    requires i <= |from| && InPool(from, cells) && cells != []
    ensures InPool(MigrateTo(paths, cells, from, size, i).table, cells)
  {
    if i > 0 {
      MigratedInPool(paths, cells, from, size, i - 1);
    }
  }

  /** Growing the pool first does not change where entries are migrated to. */
  lemma {:induction false} MigrateInGrownPool(
      paths: CString -> seq<nat>, cells: seq<Cell>, grown: seq<Cell>, from: seq<nat>, size: nat, i: nat)
    requires i <= |from| && InPool(from, cells) && cells <= grown
    ensures MigrateTo(paths, grown, from, size, i) == MigrateTo(paths, cells, from, size, i)
  {
    if i > 0 {
      MigrateInGrownPool(paths, cells, grown, from, size, i - 1);
    }
  }

  /** The size after the next resize, or None once the prime queue has run out. */
  function NextSize(s: Store): Option<nat> {
    match s.growth
    case Doubling => Some(2 * s.size)
    case Primes(q) => if q == [] then None else Some(q[0])
  }

  function RestOfGrowth(g: Growth): Growth {
    match g
    case Doubling => Doubling
    case Primes(q) => if q == [] then g else Primes(q[1..])
  }

  ghost predicate CanResize(s: Store) {
    Inv(s) && NeedsResize(s) && NextSize(s).Some?
  }

  predicate NeedsResize(s: Store) {
    Threshold(s.size) <= s.numEntries
  }

  /** A resize that probes the new table along `paths`. */
  function Resized(paths: CString -> seq<nat>, s: Store): (r: (Store, nat))
    requires CanResize(s)
    ensures Inv(r.0) && r.0.numEntries < Threshold(r.0.size)
    ensures r.0.size == NextSize(s).value && s.pool.cells <= r.0.pool.cells
  {
    var newSize := NextSize(s).value;
    var m := MigrateTo(paths, s.pool.cells, s.table, newSize, |s.table|);
    MigratedInPool(paths, s.pool.cells, s.table, newSize, |s.table|);
    (s.(table := m.table,
        size := newSize,
        pool := Expanded(s.pool, newSize),
        numResizes := s.numResizes + 1,
        growth := RestOfGrowth(s.growth)),
     m.lost)
  }

  function ResizeSpec(cfg: Config, s: Store): (r: (Store, nat))
    requires CanResize(s)
    ensures Inv(r.0) && r.0.numEntries < Threshold(r.0.size) && r.0.size == NextSize(s).value
  {
    Resized(PathsFor(cfg, NextSize(s).value), s)
  }

  // ---------- set ----------

  /** Exhausted: the prime generator threw, and `isResizing` was left set. */
  datatype SetOutcome = Stored | NoRoom | Exhausted

  datatype SetResult = SetResult(outcome: SetOutcome, store: Store, lost: nat)

  function SetSpec(cfg: Config, s: Store, key: CString, value: CString, hash: u64): (r: SetResult)
    requires Inv(s)
    ensures r.outcome.Exhausted? ==> r.store == s.(isResizing := true) && r.lost == 0
    ensures !r.outcome.Exhausted? ==> Inv(r.store)
  {
    if !NeedsResize(s) then
      var (ok, s') := InsertSpec(cfg, s, key, value, ProbePath(hash, s.size));
      SetResult(if ok then Stored else NoRoom, s', 0)
    else if NextSize(s).None? then
      SetResult(Exhausted, s.(isResizing := true), 0)
    else
      var (grown, lost) := ResizeSpec(cfg, s);
      var (ok, s') := InsertSpec(cfg, grown, key, value, ProbePath(hash, grown.size));
      SetResult(if ok then Stored else NoRoom, s', lost)
  }
}
