/** What each store operation does to every key's lookup, and the invariants that make it so. */
module StoreLookup {
  import opened Common
  import opened EntryPool
  import opened StoreModel

  /** Every live entry's value can be read back. */
  ghost predicate Readable(cfg: Config, cells: seq<Cell>) {
    forall e :: 0 <= e < |cells| && cells[e].Live? ==> ValueOf(cfg, cells[e]).Some?
  }

  // ---------- set ----------

  /** Whether a slot holds `key` is the same in both states, and so is the entry it refers to. */
  ghost predicate SameAt(s: Store, s': Store, key: CString, j: nat) {
    var held := Holds(s.table, s.pool.cells, key, j);
    && held == Holds(s'.table, s'.pool.cells, key, j)
    && (held ==> s.table[j] == s'.table[j] && s.pool.cells[s.table[j]] == s'.pool.cells[s.table[j]])
  }

  lemma SameLookup(cfg: Config, s: Store, s': Store, key: CString, path: seq<nat>)
    requires forall n :: 0 <= n < |path| ==> SameAt(s, s', key, path[n])
    ensures GetSpec(cfg, s, key, path) == GetSpec(cfg, s', key, path)
    ensures EntryFor(s.table, s.pool.cells, key, path) == EntryFor(s'.table, s'.pool.cells, key, path)
  {
    var n := FirstHolding(s.table, s.pool.cells, key, path);
    var n' := FirstHolding(s'.table, s'.pool.cells, key, path);
    assert n < |path| ==> SameAt(s, s', key, path[n]);
    assert n' < |path| ==> SameAt(s, s', key, path[n']);
  }

  lemma StoredValueReadsBack(cfg: Config, key: CString, value: CString)
    requires RoundTrips(cfg.codec)
    ensures CellFor(cfg, key, value).Live? && CellFor(cfg, key, value).key == key
    ensures ValueOf(cfg, CellFor(cfg, key, value)) == Some(value)
  {
  }

  /** The entry `Placed` fills was not live, unless it was the one the slot held for the same key. */
  lemma PlacedCells(cfg: Config, s: Store, key: CString, value: CString, path: seq<nat>, n: nat) returns (i: nat)
    requires Inv(s) && s.numEntries < Threshold(s.size)
    requires IsPath(path, s.size) && n < PROBES && Open(s.table, s.pool.cells, key, path[n])
    ensures var r := Placed(cfg, s, key, value, path, n);
      && 0 < i < s.size
      && r.table == s.table[path[n] := i]
      && r.pool.cells == s.pool.cells[i := CellFor(cfg, key, value)]
      && (s.pool.cells[i].Live? ==> i == s.table[path[n]] && s.pool.cells[i].key == key)
      && (forall e :: 0 <= e < s.size && e != i ==> r.pool.cells[e] == s.pool.cells[e])
      && (s.table[path[n]] != 0 && s.pool.cells[s.table[path[n]]].Live? ==> i == s.table[path[n]])
  {
    var p := Reclaimed(s.pool, s.table[path[n]]);
    i := p.free[0];
    assert p.free[0] in p.free && p.cells[i].Vacant?;
  }

  /** A set that finds room makes the entry a lookup stops at the one it filled. */
  lemma InsertedEntry(cfg: Config, s: Store, key: CString, value: CString, path: seq<nat>)
    requires RoundTrips(cfg.codec)
    requires Inv(s) && s.numEntries < Threshold(s.size) && IsPath(path, s.size)
    requires InsertSpec(cfg, s, key, value, path).0
    ensures var r := InsertSpec(cfg, s, key, value, path).1;
      var e := EntryFor(r.table, r.pool.cells, key, path);
      e != 0 && r.pool.cells[e] == CellFor(cfg, key, value)
  {
    var n := FirstOpen(s.table, s.pool.cells, key, path);
    var i := PlacedCells(cfg, s, key, value, path, n);
    var s' := Placed(cfg, s, key, value, path, n);
    StoredValueReadsBack(cfg, key, value);
    hide CellFor, Placed;
    assert Holds(s'.table, s'.pool.cells, key, path[n]);
    forall m | 0 <= m < n ensures !Holds(s'.table, s'.pool.cells, key, path[m]) {
      assert !Open(s.table, s.pool.cells, key, path[m]);
    }
    FirstHoldingIs(s'.table, s'.pool.cells, key, path, n);
  }

  /** A set that finds room makes its own value the one `get` returns. */
  lemma InsertedIsFound(cfg: Config, s: Store, key: CString, value: CString, path: seq<nat>)
    requires RoundTrips(cfg.codec)
    requires Inv(s) && s.numEntries < Threshold(s.size) && IsPath(path, s.size)
    ensures var (ok, s') := InsertSpec(cfg, s, key, value, path);
      GetSpec(cfg, s', key, path) == if ok then Some(value) else GetSpec(cfg, s, key, path)
  {
    if InsertSpec(cfg, s, key, value, path).0 {
      InsertedEntry(cfg, s, key, value, path);
      StoredValueReadsBack(cfg, key, value);
    } else {
      SameLookup(cfg, s, InsertSpec(cfg, s, key, value, path).1, key, path);
    }
  }

  /** A set, whether or not it finds room, changes no other key's lookup. */
  lemma InsertLeavesOthers(
      cfg: Config, s: Store, key: CString, value: CString, path: seq<nat>, other: CString, otherPath: seq<nat>)
    requires RoundTrips(cfg.codec)
    requires Inv(s) && s.numEntries < Threshold(s.size) && IsPath(path, s.size) && other != key
    ensures var s' := InsertSpec(cfg, s, key, value, path).1;
      && GetSpec(cfg, s', other, otherPath) == GetSpec(cfg, s, other, otherPath)
      && EntryFor(s'.table, s'.pool.cells, other, otherPath) == EntryFor(s.table, s.pool.cells, other, otherPath)
  {
    var n := FirstOpen(s.table, s.pool.cells, key, path);
    var s' := InsertSpec(cfg, s, key, value, path).1;
    if n < PROBES {
      var i := PlacedCells(cfg, s, key, value, path, n);
      StoredValueReadsBack(cfg, key, value);
      forall m | 0 <= m < |otherPath| ensures SameAt(s, s', other, otherPath[m]) {
      }
    }
    SameLookup(cfg, s, s', other, otherPath);
  }

  // ---------- del ----------

  /** The first slot on the path that holds the key through another entry than `e`. */
  function OtherEntryFor(s: Store, key: CString, path: seq<nat>, e: nat): nat {
    var n := FirstFrom(path, (j: nat) => Holds(s.table, s.pool.cells, key, j) && s.table[j] != e, 0);
    if n < |path| then s.table[path[n]] else 0
  }

  lemma DelLeavesOthers(cfg: Config, s: Store, key: CString, path: seq<nat>, other: CString, otherPath: seq<nat>)
    requires Inv(s) && other != key
    ensures GetSpec(cfg, DelSpec(s, key, path).1, other, otherPath) == GetSpec(cfg, s, other, otherPath)
  {
    var s' := DelSpec(s, key, path).1;
    forall m | 0 <= m < |otherPath| ensures SameAt(s, s', other, otherPath[m]) {
    }
    SameLookup(cfg, s, s', other, otherPath);
  }

  /**
    `del` answers true exactly when a probed slot holds the key, clears exactly the first such entry,
    and leaves the next different entry for the key, if any, as the one found next.
   */
  lemma DelExposesNext(s: Store, key: CString, path: seq<nat>)
    requires Inv(s)
    ensures var (found, s') := DelSpec(s, key, path);
      var e := EntryFor(s.table, s.pool.cells, key, path);
      && found == (exists n :: 0 <= n < |path| && Holds(s.table, s.pool.cells, key, path[n]))
      && s'.table == s.table
      && s'.pool.cells == (if found then s.pool.cells[e := Vacant] else s.pool.cells)
      && EntryFor(s'.table, s'.pool.cells, key, path) == OtherEntryFor(s, key, path, e)
  {
    var (found, s') := DelSpec(s, key, path);
    var e := EntryFor(s.table, s.pool.cells, key, path);
    if found {
      forall n | 0 <= n < |path|
        ensures Holds(s'.table, s'.pool.cells, key, path[n])
            == (Holds(s.table, s.pool.cells, key, path[n]) && s.table[path[n]] != e)
      {
      }
    }
  }

  predicate HoldsOnPath(s: Store, key: CString, path: seq<nat>, n: nat) {
    n < |path| && Holds(s.table, s.pool.cells, key, path[n])
  }

  /** After `del` a lookup finds nothing exactly when no probed slot held the key through a second entry. */
  lemma DelThenGet(cfg: Config, s: Store, key: CString, path: seq<nat>)
    requires Inv(s) && Readable(cfg, s.pool.cells)
    ensures var s' := DelSpec(s, key, path).1;
      GetSpec(cfg, s', key, path).None? <==>
      forall n, m :: 0 <= n < m < |path| && HoldsOnPath(s, key, path, n) && HoldsOnPath(s, key, path, m) ==>
        s.table[path[n]] == s.table[path[m]]
  {
    DelExposesNext(s, key, path);
    var s' := DelSpec(s, key, path).1;
    var e := EntryFor(s.table, s.pool.cells, key, path);
    var first := FirstHolding(s.table, s.pool.cells, key, path);
    var n := FirstHolding(s'.table, s'.pool.cells, key, path);
    if n < |path| {
      assert HoldsOnPath(s, key, path, n) && s.table[path[n]] != e;
      assert HoldsOnPath(s, key, path, first);
    } else if first < |path| {
      forall m | 0 <= m < |path| && HoldsOnPath(s, key, path, m) ensures s.table[path[m]] == e {
        assert !Holds(s'.table, s'.pool.cells, key, path[m]);
      }
    }
  }
}
