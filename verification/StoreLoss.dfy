/** Which keys a resize loses: those whose entry a migration gave up on, and no others. */
module StoreLoss {
  import opened Common
  import opened EntryPool
  import opened StoreModel
  import opened StoreResize
  import opened StoreTidy

  /** The migration of entry `e` finds no empty slot. */
  predicate GivesUp(paths: CString -> seq<nat>, cells: seq<Cell>, table: seq<nat>, e: nat)
    requires e < |cells|
  {
    e != 0 && cells[e].Live? && FirstUnused(table, paths(cells[e].key)) == |paths(cells[e].key)|
  }

  /** The keys given up on among the first `i` slots. */
  function GaveUp(paths: CString -> seq<nat>, cells: seq<Cell>, from: seq<nat>, size: nat, i: nat): set<CString>
    requires i <= |from| && InPool(from, cells)
  {
    if i == 0 then {}
    else
      GaveUp(paths, cells, from, size, i - 1)
      + if GivesUp(paths, cells, MigrateTo(paths, cells, from, size, i - 1).table, from[i - 1])
        then {cells[from[i - 1]].key} else {}
  }

  lemma {:induction false} GaveUpDrawn(
      paths: CString -> seq<nat>, cells: seq<Cell>, from: seq<nat>, size: nat, i: nat, key: CString)
    requires i <= |from| && InPool(from, cells) && key in GaveUp(paths, cells, from, size, i)
    ensures FirstInTable(from, cells, key, i) != 0
  {
    if key in GaveUp(paths, cells, from, size, i - 1) {
      GaveUpDrawn(paths, cells, from, size, i - 1, key);
    } else {
      assert Holds(from, cells, key, i - 1);
    }
  }

  /** In a tidy table no earlier slot has the key of a later one. */
  lemma FirstTime(oldPaths: CString -> seq<nat>, cells: seq<Cell>, from: seq<nat>, i: nat)
    requires i < |from| && Tidy(oldPaths, cells, from) && from[i] != 0
    ensures cells[from[i]].Live? && FirstInTable(from, cells, cells[from[i]].key, i) == 0
  {
    assert Seated(oldPaths, cells, from, i);
    forall j | 0 <= j < i ensures !Holds(from, cells, cells[from[i]].key, j) {
      if from[j] != 0 {
        assert cells[from[j]].key != cells[from[i]].key;
      }
    }
  }

  lemma NotYetGivenUp(
      oldPaths: CString -> seq<nat>, paths: CString -> seq<nat>, cells: seq<Cell>, from: seq<nat>, size: nat, i: nat)
    requires i < |from| && Tidy(oldPaths, cells, from) && from[i] != 0
    ensures cells[from[i]].Live? && FirstInTable(from, cells, cells[from[i]].key, i) == 0
    ensures cells[from[i]].key !in GaveUp(paths, cells, from, size, i)
  {
    FirstTime(oldPaths, cells, from, i);
    if cells[from[i]].key in GaveUp(paths, cells, from, size, i) {
      GaveUpDrawn(paths, cells, from, size, i, cells[from[i]].key);
    }
  }

  lemma LostByOne(paths: CString -> seq<nat>, cells: seq<Cell>, m: Migration, e: nat)
    requires e < |cells|
    ensures Migrate(paths, cells, m, e).lost == m.lost + if GivesUp(paths, cells, m.table, e) then 1 else 0
  {
  }

  /** One more slot adds its key to those given up on, and one to the count, or changes neither. */
  lemma GaveUpGrows(
      oldPaths: CString -> seq<nat>, paths: CString -> seq<nat>, cells: seq<Cell>, from: seq<nat>, size: nat, i: nat)
    requires i < |from| && Tidy(oldPaths, cells, from)
    ensures |GaveUp(paths, cells, from, size, i + 1)| - |GaveUp(paths, cells, from, size, i)|
         == MigrateTo(paths, cells, from, size, i + 1).lost - MigrateTo(paths, cells, from, size, i).lost
  {
    hide Migrate, DistinctKeys, ArePaths, AllSeated, FirstUnused;
    MigrateToStep(paths, cells, from, size, i);
    LostByOne(paths, cells, MigrateTo(paths, cells, from, size, i), from[i]);
    if from[i] != 0 {
      NotYetGivenUp(oldPaths, paths, cells, from, size, i);
    }
  }

  /** As many keys are given up on as entries are reported lost. */
  lemma {:induction false} GaveUpCount(
      oldPaths: CString -> seq<nat>, paths: CString -> seq<nat>, cells: seq<Cell>, from: seq<nat>, size: nat, i: nat)
    requires i <= |from| && Tidy(oldPaths, cells, from)
    ensures |GaveUp(paths, cells, from, size, i)| == MigrateTo(paths, cells, from, size, i).lost
  {
    hide Migrate, GivesUp, AllSeated, ArePaths, DistinctKeys;
    if i > 0 {
      GaveUpCount(oldPaths, paths, cells, from, size, i - 1);
      GaveUpGrows(oldPaths, paths, cells, from, size, i - 1);
    }
  }

  /** One more slot migrated, when its key is not the one looked up or was given up on. */
  lemma MigrateOther(paths: CString -> seq<nat>, cells: seq<Cell>, m: Migration, e: nat, key: CString)
    requires e < |cells| && InPool(m.table, cells) && ArePaths(paths, |m.table| / BUCKET_SIZE)
    requires FullBefore(m.table, cells, key, paths(key))
    requires GivesUp(paths, cells, m.table, e) || e == 0 || cells[e].Vacant? || cells[e].key != key
    ensures EntryFor(Migrate(paths, cells, m, e).table, cells, key, paths(key))
         == EntryFor(m.table, cells, key, paths(key))
  {
    if !GivesUp(paths, cells, m.table, e) {
      MigrateEntry(paths, cells, m, e, key);
    }
  }

  /** What a lookup finds once the first `i` slots are migrated. */
  function Kept(paths: CString -> seq<nat>, cells: seq<Cell>, from: seq<nat>, size: nat, i: nat, key: CString): nat
    requires i <= |from| && InPool(from, cells)
  {
    if key in GaveUp(paths, cells, from, size, i) then 0 else FirstInTable(from, cells, key, i)
  }

  /** How what is kept changes with one more slot. */
  lemma KeptGrows(
      oldPaths: CString -> seq<nat>, paths: CString -> seq<nat>, cells: seq<Cell>, from: seq<nat>, size: nat, i: nat,
      key: CString)
    requires i < |from| && Tidy(oldPaths, cells, from)
    ensures var gives := GivesUp(paths, cells, MigrateTo(paths, cells, from, size, i).table, from[i]);
      var before, after := Kept(paths, cells, from, size, i, key), Kept(paths, cells, from, size, i + 1, key);
      if Holds(from, cells, key, i) then before == 0 && after == (if gives then 0 else from[i]) else after == before
  {
    if Holds(from, cells, key, i) {
      NotYetGivenUp(oldPaths, paths, cells, from, size, i);
    }
  }

  /** What a lookup finds changes in the same way. */
  lemma FoundGrows(paths: CString -> seq<nat>, cells: seq<Cell>, m: Migration, e: nat, key: CString, held: bool)
    requires e < |cells| && InPool(m.table, cells) && ArePaths(paths, |m.table| / BUCKET_SIZE)
    requires FullBefore(m.table, cells, key, paths(key))
    requires held == (e != 0 && cells[e].Live? && cells[e].key == key)
    requires held ==> EntryFor(m.table, cells, key, paths(key)) == 0
    ensures EntryFor(Migrate(paths, cells, m, e).table, cells, key, paths(key))
         == if held && !GivesUp(paths, cells, m.table, e) then e else EntryFor(m.table, cells, key, paths(key))
  {
    if GivesUp(paths, cells, m.table, e) || !held {
      MigrateOther(paths, cells, m, e, key);
    } else {
      MigrateEntry(paths, cells, m, e, key);
    }
  }

  lemma {:induction false} KeptEntry(
      oldPaths: CString -> seq<nat>, paths: CString -> seq<nat>, cells: seq<Cell>, from: seq<nat>, size: nat, i: nat,
      key: CString)
    requires i <= |from| && cells != [] && Tidy(oldPaths, cells, from) && ArePaths(paths, size)
    ensures EntryFor(MigrateTo(paths, cells, from, size, i).table, cells, key, paths(key))
         == Kept(paths, cells, from, size, i, key)
  {
    hide MigrateTo, Migrate, EntryFor, DistinctKeys, ArePaths, FullBefore, AllSeated, GivesUp, FirstInTable;
    if i == 0 {
      NothingMigrated(paths, cells, from, size, key, paths(key));
    } else {
      MigrateToStep(paths, cells, from, size, i - 1);
      var m := MigrateTo(paths, cells, from, size, i - 1);
      KeptEntry(oldPaths, paths, cells, from, size, i - 1, key);
      AllMigratedSeated(paths, cells, from, size, i - 1);
      SeatedIsFullBefore(paths, cells, m.table, key);
      KeptGrows(oldPaths, paths, cells, from, size, i - 1, key);
      FoundGrows(paths, cells, m, from[i - 1], key, Holds(from, cells, key, i - 1));
    }
  }

  // ---------- A whole resize ----------

  function LostKeys(paths: CString -> seq<nat>, s: Store): set<CString>
    requires CanResize(s)
  {
    GaveUp(paths, s.pool.cells, s.table, NextSize(s).value, |s.table|)
  }

  lemma FoundInGrownPool(table: seq<nat>, cells: seq<Cell>, grown: seq<Cell>, key: CString, path: seq<nat>)
    requires InPool(table, cells) && cells <= grown
    ensures EntryFor(table, grown, key, path) == EntryFor(table, cells, key, path)
  {
    assert forall j :: Holds(table, grown, key, j) == Holds(table, cells, key, j);
    assert FirstHolding(table, grown, key, path) == FirstHolding(table, cells, key, path);
  }

  /** In a tidy store a resize makes a lookup miss exactly the keys given up on, and find the same entry for others. */
  lemma ResizeKeepsEntries(oldPaths: CString -> seq<nat>, paths: CString -> seq<nat>, s: Store, key: CString)
    requires CanResize(s) && Tidy(oldPaths, s.pool.cells, s.table) && ArePaths(paths, NextSize(s).value)
    ensures var r := Resized(paths, s).0;
      EntryFor(r.table, r.pool.cells, key, paths(key)) ==
      if key in LostKeys(paths, s) then 0 else EntryFor(s.table, s.pool.cells, key, oldPaths(key))
  {
    var r, cells := Resized(paths, s).0, s.pool.cells;
    KeptEntry(oldPaths, paths, cells, s.table, r.size, |s.table|, key);
    MigratedInPool(paths, cells, s.table, r.size, |s.table|);
    FoundInGrownPool(r.table, cells, r.pool.cells, key, paths(key));
    TidyIsReachable(oldPaths, s);
    UniqueEntryFound(oldPaths, s, key);
  }

  /** So it makes exactly those keys read as null, and changes no other key's `get`. */
  lemma ResizeKeepsOthers(
      oldPaths: CString -> seq<nat>, paths: CString -> seq<nat>, cfg: Config, s: Store, key: CString)
    requires CanResize(s) && Tidy(oldPaths, s.pool.cells, s.table) && ArePaths(paths, NextSize(s).value)
    ensures GetSpec(cfg, Resized(paths, s).0, key, paths(key))
         == if key in LostKeys(paths, s) then None else GetSpec(cfg, s, key, oldPaths(key))
    ensures |LostKeys(paths, s)| == Resized(paths, s).1
  {
    ResizeKeepsEntries(oldPaths, paths, s, key);
    GaveUpCount(oldPaths, paths, s.pool.cells, s.table, NextSize(s).value, |s.table|);
  }
}
