/** Tables no `del` has touched: every used slot is live, keys are distinct, and probe paths fill in order. */
module StoreTidy {
  import opened Common
  import opened EntryPool
  import opened StoreModel
  import opened StoreLookup
  import opened StoreResize

  ghost predicate DistinctKeys(cells: seq<Cell>, table: seq<nat>)
    requires InPool(table, cells)
  {
    forall i, j :: 0 <= i < j < |table| && table[i] != 0 && table[j] != 0 ==>
      cells[table[i]].Live? && cells[table[j]].Live? && cells[table[i]].key != cells[table[j]].key
  }

  ghost predicate Tidy(paths: CString -> seq<nat>, cells: seq<Cell>, table: seq<nat>) {
    && InPool(table, cells)
    && ArePaths(paths, |table| / BUCKET_SIZE)
    && AllSeated(paths, cells, table)
    && DistinctKeys(cells, table)
  }

  lemma TidyKeys(paths: CString -> seq<nat>, cells: seq<Cell>, table: seq<nat>, key: CString, i: nat, j: nat)
    requires Tidy(paths, cells, table)
    requires Holds(table, cells, key, i) && Holds(table, cells, key, j)
    ensures i == j
  {
  }

  lemma TidyIsReachable(paths: CString -> seq<nat>, s: Store)
    requires Inv(s) && Tidy(paths, s.pool.cells, s.table)
    ensures Reachable(paths, s) && OneEntryPerKey(s)
  {
    SeatedIsReachable(paths, s);
    forall key: CString, i: nat, j: nat | Holds(s.table, s.pool.cells, key, i) && Holds(s.table, s.pool.cells, key, j)
      ensures s.table[i] == s.table[j]
    {
      TidyKeys(paths, s.pool.cells, s.table, key, i, j);
    }
  }

  /** In a tidy table the slot `set` takes is the one that holds the key, if any slot does. */
  lemma OpenSlotInTidy(paths: CString -> seq<nat>, cells: seq<Cell>, table: seq<nat>, key: CString, j: nat)
    requires Tidy(paths, cells, table) && Holds(table, cells, key, j)
    ensures var n := FirstOpen(table, cells, key, paths(key));
      n < PROBES && paths(key)[n] == j
  {
    var path := paths(key);
    var n := FirstOpen(table, cells, key, path);
    assert Seated(paths, cells, table, j);
    var k :| 0 <= k < PROBES && path[k] == j && forall m :: 0 <= m < k ==> table[path[m]] != 0;
    assert Open(table, cells, key, path[k]);
    assert n <= k;
    if n < k {
      assert Seated(paths, cells, table, path[n]);
      assert Holds(table, cells, key, path[n]);
      TidyKeys(paths, cells, table, key, path[n], j);
    }
  }

  /** Writing an entry for a key held by no other slot, at the first usable slot of its path, keeps a table tidy. */
  lemma WriteKeepsTidy(
      paths: CString -> seq<nat>, cells: seq<Cell>, table: seq<nat>, n: nat, i: nat, c: Cell)
    requires Tidy(paths, cells, table) && n < PROBES && 0 < i < |cells| && c.Live?
    requires forall m :: 0 <= m < n ==> table[paths(c.key)[m]] != 0
    requires forall j :: 0 <= j < |table| && j != paths(c.key)[n] && table[j] != 0 ==>
      table[j] != i && cells[table[j]].Live? && cells[table[j]].key != c.key
    ensures Tidy(paths, cells[i := c], table[paths(c.key)[n] := i])
  {
    var path := paths(c.key);
    var cells', table' := cells[i := c], table[path[n] := i];
    forall j | 0 <= j < |table'| && table'[j] != 0 ensures Seated(paths, cells', table', j) {
      if j == path[n] {
        assert forall m :: 0 <= m < n ==> table'[path[m]] != 0;
      } else {
        assert Seated(paths, cells, table, j);
      }
    }
    assert forall j :: 0 <= j < |table| && j != path[n] && table[j] != 0 ==> cells'[table'[j]] == cells[table[j]];
  }

  lemma InsertKeepsTidy(paths: CString -> seq<nat>, cfg: Config, s: Store, key: CString, value: CString)
    requires Inv(s) && s.numEntries < Threshold(s.size) && Tidy(paths, s.pool.cells, s.table)
    ensures var r := InsertSpec(cfg, s, key, value, paths(key)).1;
      Tidy(paths, r.pool.cells, r.table)
  {
    var path := paths(key);
    var n := FirstOpen(s.table, s.pool.cells, key, path);
    if n < PROBES {
      var i := PlacedCells(cfg, s, key, value, path, n);
      forall j | 0 <= j < |s.table| && j != path[n] && s.table[j] != 0
        ensures s.table[j] != i && s.pool.cells[s.table[j]].Live? && s.pool.cells[s.table[j]].key != key
      {
        assert Seated(paths, s.pool.cells, s.table, j);
        if s.pool.cells[s.table[j]].key == key {
          assert Holds(s.table, s.pool.cells, key, j);
          OpenSlotInTidy(paths, s.pool.cells, s.table, key, j);
        }
      }
      assert forall m :: 0 <= m < n ==> !Open(s.table, s.pool.cells, key, path[m]);
      WriteKeepsTidy(paths, s.pool.cells, s.table, n, i, CellFor(cfg, key, value));
    }
  }

  /** Every key in the new table was already among the slots migrated so far. */
  ghost predicate DrawnFrom(table: seq<nat>, from: seq<nat>, i: nat)
    requires i <= |from|
  {
    forall j :: 0 <= j < |table| && table[j] != 0 ==> table[j] in from[..i]
  }

  lemma {:induction false} MigratedDrawnFrom(
      paths: CString -> seq<nat>, cells: seq<Cell>, from: seq<nat>, size: nat, i: nat)
    requires i <= |from| && InPool(from, cells) && cells != []
    ensures DrawnFrom(MigrateTo(paths, cells, from, size, i).table, from, i)
  {
    if i > 0 {
      MigratedDrawnFrom(paths, cells, from, size, i - 1);
      assert from[..i] == from[..i - 1] + [from[i - 1]];
    }
  }

  /** The entry about to be migrated has a key that is not in the new table yet. */
  lemma NextKeyIsNew(
      oldPaths: CString -> seq<nat>, paths: CString -> seq<nat>, cells: seq<Cell>, from: seq<nat>, size: nat, i: nat,
      t: seq<nat>)
    requires i < |from| && cells != [] && Tidy(oldPaths, cells, from) && from[i] != 0
    requires t == MigrateTo(paths, cells, from, size, i).table
    ensures cells[from[i]].Live?
    ensures forall j: nat :: !Holds(t, cells, cells[from[i]].key, j)
  {
    assert Seated(oldPaths, cells, from, i);
    MigratedDrawnFrom(paths, cells, from, size, i);
    var key := cells[from[i]].key;
    forall j: nat ensures !Holds(t, cells, key, j) {
      if j < |t| && t[j] != 0 {
        var k :| 0 <= k < i && from[k] == t[j];
        assert cells[from[k]].key != cells[from[i]].key;
      }
    }
  }

  lemma {:induction false} MigratedIsTidy(
      oldPaths: CString -> seq<nat>, paths: CString -> seq<nat>, cells: seq<Cell>, from: seq<nat>, size: nat, i: nat)
    requires i <= |from| && cells != [] && Tidy(oldPaths, cells, from) && ArePaths(paths, size)
    ensures Tidy(paths, cells, MigrateTo(paths, cells, from, size, i).table)
  {
    if i > 0 {
      MigratedIsTidy(oldPaths, paths, cells, from, size, i - 1);
      var t := MigrateTo(paths, cells, from, size, i - 1).table;
      var e := from[i - 1];
      if e != 0 {
        NextKeyIsNew(oldPaths, paths, cells, from, size, i - 1, t);
        var n := FirstUnused(t, paths(cells[e].key));
        forall j | 0 <= j < |t| && t[j] != 0 ensures cells[t[j]].Live? && cells[t[j]].key != cells[e].key {
          assert Seated(paths, cells, t, j);
          assert !Holds(t, cells, cells[e].key, j);
        }
        if n < PROBES {
          assert forall m :: 0 <= m < n ==> !Unused(t, paths(cells[e].key)[m]);
          WriteKeepsTidy(paths, cells, t, n, e, cells[e]);
          assert cells[e := cells[e]] == cells;
        }
      }
    }
  }

  lemma ResizedIsTidy(oldPaths: CString -> seq<nat>, paths: CString -> seq<nat>, s: Store)
    requires CanResize(s) && Tidy(oldPaths, s.pool.cells, s.table) && ArePaths(paths, NextSize(s).value)
    ensures var r := Resized(paths, s).0;
      Tidy(paths, r.pool.cells, r.table)
  {
    var r := Resized(paths, s).0;
    MigratedIsTidy(oldPaths, paths, s.pool.cells, s.table, r.size, |s.table|);
    SeatedInGrownPool(paths, s.pool.cells, r.pool.cells, r.table);
  }
}
