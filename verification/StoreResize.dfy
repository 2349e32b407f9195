/** What a resize does to lookups, in tables with stale and aliased slots too. */
module StoreResize {
  import opened Common
  import opened EntryPool
  import opened StoreModel
  import opened StoreLookup

  /** The first entry for `key` in table order among the first `i` slots, or 0. */
  function FirstInTable(table: seq<nat>, cells: seq<Cell>, key: CString, i: nat): (e: nat)
    requires i <= |table|
    ensures e != 0 ==> e < |cells| && cells[e].Live? && cells[e].key == key && e in table[..i]
    ensures e == 0 <==> forall j :: 0 <= j < i ==> !Holds(table, cells, key, j)
  {
    if i == 0 then 0 else
    var e := FirstInTable(table, cells, key, i - 1);
    if e == 0 && Holds(table, cells, key, i - 1) then table[i - 1] else e
  }

  // ---------- Shape of a table ----------

  /** Slot `j` refers to a live entry, on that entry's path, and every earlier slot of the path is in use. */
  ghost predicate Seated(paths: CString -> seq<nat>, cells: seq<Cell>, table: seq<nat>, j: nat)
    requires j < |table| && InPool(table, cells) && ArePaths(paths, |table| / BUCKET_SIZE)
  {
    && cells[table[j]].Live?
    && var path := paths(cells[table[j]].key);
       exists n :: 0 <= n < PROBES && path[n] == j && forall m :: 0 <= m < n ==> table[path[m]] != 0
  }

  ghost predicate AllSeated(paths: CString -> seq<nat>, cells: seq<Cell>, table: seq<nat>)
    requires InPool(table, cells) && ArePaths(paths, |table| / BUCKET_SIZE)
  {
    forall j :: 0 <= j < |table| && table[j] != 0 ==> Seated(paths, cells, table, j)
  }

  /** No slot on `path` before the one that holds `key` is unused. */
  ghost predicate FullBefore(table: seq<nat>, cells: seq<Cell>, key: CString, path: seq<nat>) {
    var n := FirstHolding(table, cells, key, path);
    n < |path| ==> forall m :: 0 <= m < n ==> !Unused(table, path[m])
  }

  lemma SeatedIsFullBefore(paths: CString -> seq<nat>, cells: seq<Cell>, table: seq<nat>, key: CString)
    requires InPool(table, cells) && ArePaths(paths, |table| / BUCKET_SIZE) && AllSeated(paths, cells, table)
    ensures FullBefore(table, cells, key, paths(key))
  {
    var path := paths(key);
    var n := FirstHolding(table, cells, key, path);
    if n < |path| {
      assert Seated(paths, cells, table, path[n]);
      var k :| 0 <= k < PROBES && path[k] == path[n] && forall m :: 0 <= m < k ==> table[path[m]] != 0;
      assert n <= k;
    }
  }

  // ---------- One migration ----------

  lemma MigrateSeats(paths: CString -> seq<nat>, cells: seq<Cell>, m: Migration, e: nat)
    requires e < |cells| && InPool(m.table, cells) && ArePaths(paths, |m.table| / BUCKET_SIZE)
    requires AllSeated(paths, cells, m.table)
    ensures var r := Migrate(paths, cells, m, e);
      InPool(r.table, cells) && AllSeated(paths, cells, r.table)
  {
    var r := Migrate(paths, cells, m, e);
    if r.table != m.table {
      var path := paths(cells[e].key);
      var n := FirstUnused(m.table, path);
      forall j | 0 <= j < |r.table| && r.table[j] != 0 ensures Seated(paths, cells, r.table, j) {
        if j == path[n] {
          assert forall i :: 0 <= i < n ==> r.table[path[i]] != 0 by {
            assert forall i :: 0 <= i < n ==> !Unused(m.table, path[i]);
          }
        } else {
          assert Seated(paths, cells, m.table, j);
        }
      }
    }
  }

  /** An entry that is not lost becomes the one found for its key unless the key was found already. */
  lemma MigrateEntry(paths: CString -> seq<nat>, cells: seq<Cell>, m: Migration, e: nat, key: CString)
    requires e < |cells| && InPool(m.table, cells) && ArePaths(paths, |m.table| / BUCKET_SIZE)
    requires FullBefore(m.table, cells, key, paths(key))
    requires Migrate(paths, cells, m, e).lost == m.lost
    ensures var r := Migrate(paths, cells, m, e);
      var found := EntryFor(m.table, cells, key, paths(key));
      EntryFor(r.table, cells, key, paths(key)) ==
        if found == 0 && e != 0 && cells[e].Live? && cells[e].key == key then e else found
  {
    var r := Migrate(paths, cells, m, e);
    var path := paths(key);
    var n := FirstHolding(m.table, cells, key, path);
    if r.table != m.table {
      var at := paths(cells[e].key)[FirstUnused(m.table, paths(cells[e].key))];
      if cells[e].key == key {
        assert Holds(r.table, cells, key, at);
        if n < |path| {
          assert at != path[n] && FirstUnused(m.table, path) > n;
          assert forall i :: 0 <= i < n ==> path[i] != at;
        }
        assert forall i :: 0 <= i < |path| && path[i] != at ==>
          Holds(r.table, cells, key, path[i]) == Holds(m.table, cells, key, path[i]);
      } else {
        assert forall j :: 0 <= j < |m.table| ==> Holds(r.table, cells, key, j) == Holds(m.table, cells, key, j);
      }
    }
  }

  // ---------- A whole migration ----------

  lemma {:induction false} AllMigratedSeated(
      paths: CString -> seq<nat>, cells: seq<Cell>, from: seq<nat>, size: nat, i: nat)
    requires i <= |from| && InPool(from, cells) && cells != [] && ArePaths(paths, size)
    ensures var r := MigrateTo(paths, cells, from, size, i);
      InPool(r.table, cells) && AllSeated(paths, cells, r.table)
  {
    if i > 0 {
      AllMigratedSeated(paths, cells, from, size, i - 1);
      MigrateSeats(paths, cells, MigrateTo(paths, cells, from, size, i - 1), from[i - 1]);
    }
  }

  /** With nothing lost, a lookup in the new table finds the key's first entry in old table order. */
  lemma {:induction false} MigratedEntry(
      paths: CString -> seq<nat>, cells: seq<Cell>, from: seq<nat>, size: nat, i: nat, key: CString)
    requires i <= |from| && InPool(from, cells) && cells != [] && ArePaths(paths, size)
    requires MigrateTo(paths, cells, from, size, i).lost == 0
    ensures EntryFor(MigrateTo(paths, cells, from, size, i).table, cells, key, paths(key))
         == FirstInTable(from, cells, key, i)
  {
    hide MigrateTo, Migrate, EntryFor, ArePaths, FullBefore, AllSeated;
    if i == 0 {
      NothingMigrated(paths, cells, from, size, key, paths(key));
    } else {
      MigrateToStep(paths, cells, from, size, i - 1);
      var m := MigrateTo(paths, cells, from, size, i - 1);
      MigratedEntry(paths, cells, from, size, i - 1, key);
      AllMigratedSeated(paths, cells, from, size, i - 1);
      SeatedIsFullBefore(paths, cells, m.table, key);
      MigrateEntry(paths, cells, m, from[i - 1], key);
    }
  }

  // ---------- Reachability ----------

  /** Slot `j` refers to a live entry that also sits on that entry's own probe path. */
  ghost predicate OnOwnPath(paths: CString -> seq<nat>, s: Store, j: nat)
    requires Inv(s) && j < |s.table| && ArePaths(paths, s.size)
  {
    var c := s.pool.cells[s.table[j]];
    c.Live? ==> exists n :: 0 <= n < PROBES && s.table[paths(c.key)[n]] == s.table[j]
  }

  /** Every live entry that some slot refers to, even a stale slot, can be found by its key. */
  ghost predicate Reachable(paths: CString -> seq<nat>, s: Store)
    requires Inv(s) && ArePaths(paths, s.size)
  {
    forall j :: 0 <= j < |s.table| && s.table[j] != 0 ==> OnOwnPath(paths, s, j)
  }

  /** A slot still leads to an entry on that entry's own path after one slot and its entry were written. */
  lemma OnPathAfterWrite(
      paths: CString -> seq<nat>, s: Store, r: Store, key: CString, n: nat, i: nat, c: Cell, j: nat)
    requires Inv(s) && Inv(r) && r.size == s.size && ArePaths(paths, s.size) && Reachable(paths, s)
    requires n < PROBES && 0 < i < s.size && c.Live? && c.key == key
    requires r.table == s.table[paths(key)[n] := i] && r.pool.cells == s.pool.cells[i := c]
    requires s.table[paths(key)[n]] != 0 && s.pool.cells[s.table[paths(key)[n]]].Live? ==> i == s.table[paths(key)[n]]
    requires j < |r.table| && r.table[j] != 0
    ensures OnOwnPath(paths, r, j)
  {
    hide Sound, Grows, Threshold;
    if r.table[j] == i {
      assert r.table[paths(key)[n]] == i;
    } else {
      assert OnOwnPath(paths, s, j);
      var d := s.pool.cells[s.table[j]];
      if d.Live? {
        var m :| 0 <= m < PROBES && s.table[paths(d.key)[m]] == s.table[j];
        assert IsPath(paths(d.key), s.size);
        assert r.table[paths(d.key)[m]] == r.table[j];
      }
    }
  }

  lemma InsertKeepsReachable(paths: CString -> seq<nat>, cfg: Config, s: Store, key: CString, value: CString)
    requires RoundTrips(cfg.codec) && Inv(s) && s.numEntries < Threshold(s.size)
    requires ArePaths(paths, s.size) && Reachable(paths, s) && Readable(cfg, s.pool.cells)
    ensures var r := InsertSpec(cfg, s, key, value, paths(key)).1;
      Reachable(paths, r) && Readable(cfg, r.pool.cells)
  {
    hide Placed, CellFor, FirstOpen, Sound, Grows, RoundTrips, ValueOf;
    var path := paths(key);
    var n := FirstOpen(s.table, s.pool.cells, key, path);
    var r := InsertSpec(cfg, s, key, value, path).1;
    if n < PROBES {
      StoredValueReadsBack(cfg, key, value);
      var i := PlacedCells(cfg, s, key, value, path, n);
      forall j | 0 <= j < |r.table| && r.table[j] != 0 ensures OnOwnPath(paths, r, j) {
        OnPathAfterWrite(paths, s, r, key, n, i, CellFor(cfg, key, value), j);
      }
    } else {
      forall j | 0 <= j < |r.table| && r.table[j] != 0 ensures OnOwnPath(paths, r, j) {
        assert OnOwnPath(paths, s, j);
      }
    }
  }

  lemma DelKeepsReachable(paths: CString -> seq<nat>, cfg: Config, s: Store, key: CString)
    requires Inv(s) && ArePaths(paths, s.size) && Reachable(paths, s) && Readable(cfg, s.pool.cells)
    ensures var r := DelSpec(s, key, paths(key)).1;
      Reachable(paths, r) && Readable(cfg, r.pool.cells)
  {
    var r := DelSpec(s, key, paths(key)).1;
    forall j | 0 <= j < |r.table| && r.table[j] != 0 ensures OnOwnPath(paths, r, j) {
      assert OnOwnPath(paths, s, j);
    }
  }

  lemma SeatedIsReachable(paths: CString -> seq<nat>, s: Store)
    requires Inv(s) && ArePaths(paths, s.size) && AllSeated(paths, s.pool.cells, s.table)
    ensures Reachable(paths, s)
  {
    forall j | 0 <= j < |s.table| && s.table[j] != 0 ensures OnOwnPath(paths, s, j) {
      assert Seated(paths, s.pool.cells, s.table, j);
    }
  }

  lemma SeatedInGrownPool(paths: CString -> seq<nat>, cells: seq<Cell>, grown: seq<Cell>, table: seq<nat>)
    requires InPool(table, cells) && ArePaths(paths, |table| / BUCKET_SIZE) && cells <= grown
    requires AllSeated(paths, cells, table)
    ensures InPool(table, grown) && AllSeated(paths, grown, table)
  {
    forall j | 0 <= j < |table| && table[j] != 0 ensures Seated(paths, grown, table, j) {
      assert Seated(paths, cells, table, j);
    }
  }

  /** A resize leaves only live entries in the table, each on its own path, whether or not any was lost. */
  lemma ResizedIsSeated(paths: CString -> seq<nat>, cfg: Config, s: Store)
    requires CanResize(s) && ArePaths(paths, NextSize(s).value) && Readable(cfg, s.pool.cells)
    ensures var r := Resized(paths, s).0;
      && Reachable(paths, r) && Readable(cfg, r.pool.cells)
      && InPool(r.table, r.pool.cells) && AllSeated(paths, r.pool.cells, r.table)
  {
    hide Reachable, AllSeated, Sound, MigrateTo;
    var r := Resized(paths, s).0;
    AllMigratedSeated(paths, s.pool.cells, s.table, r.size, |s.table|);
    SeatedInGrownPool(paths, s.pool.cells, r.pool.cells, r.table);
    SeatedIsReachable(paths, r);
  }

  // ---------- Resize and lookups ----------

  function ValueAt(cfg: Config, s: Store, e: nat): Option<string>
    requires e != 0 ==> e < |s.pool.cells| && s.pool.cells[e].Live?
  {
    if e == 0 then None else ValueOf(cfg, s.pool.cells[e])
  }

  /** When no entry is lost, a resize makes a lookup find the key's first entry in table order. */
  lemma ResizedLookup(paths: CString -> seq<nat>, cfg: Config, s: Store, key: CString)
    requires CanResize(s) && ArePaths(paths, NextSize(s).value) && Resized(paths, s).1 == 0
    ensures GetSpec(cfg, Resized(paths, s).0, key, paths(key))
         == ValueAt(cfg, s, FirstInTable(s.table, s.pool.cells, key, |s.table|))
  {
    var r := Resized(paths, s).0;
    var path := paths(key);
    MigratedEntry(paths, s.pool.cells, s.table, r.size, |s.table|, key);
    MigratedInPool(paths, s.pool.cells, s.table, r.size, |s.table|);
    assert forall j :: 0 <= j < |r.table| ==>
      Holds(r.table, r.pool.cells, key, j) == Holds(r.table, s.pool.cells, key, j);
    assert FirstHolding(r.table, r.pool.cells, key, path) == FirstHolding(r.table, s.pool.cells, key, path);
  }

  /** Every slot that refers to a live entry for a key refers to the same one. */
  ghost predicate OneEntryPerKey(s: Store) {
    forall key: CString, i: nat, j: nat ::
      Holds(s.table, s.pool.cells, key, i) && Holds(s.table, s.pool.cells, key, j) ==> s.table[i] == s.table[j]
  }

  lemma UniqueEntryFound(paths: CString -> seq<nat>, s: Store, key: CString)
    requires Inv(s) && ArePaths(paths, s.size) && Reachable(paths, s) && OneEntryPerKey(s)
    ensures EntryFor(s.table, s.pool.cells, key, paths(key)) == FirstInTable(s.table, s.pool.cells, key, |s.table|)
  {
    var path := paths(key);
    var e := FirstInTable(s.table, s.pool.cells, key, |s.table|);
    var n := FirstHolding(s.table, s.pool.cells, key, path);
    if e != 0 {
      var j :| 0 <= j < |s.table| && s.table[j] == e;
      assert Holds(s.table, s.pool.cells, key, j);
      assert OnOwnPath(paths, s, j);
      var m :| 0 <= m < PROBES && s.table[path[m]] == e;
      assert Holds(s.table, s.pool.cells, key, path[m]);
    }
  }
}
