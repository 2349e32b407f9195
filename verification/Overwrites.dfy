/** Without deletes: exactly which later commands of a round cost a GET its response. */
module Overwrites {
  import opened Common
  import opened EntryPool
  import opened StoreModel
  import opened StoreLookup
  import opened StoreResize
  import opened StoreTidy
  import opened StoreLoss
  import opened StoreRuns
  import opened StoreRefinement
  import opened StoreMemory
  import opened Rounds
  import D = StoreDeletes
  import T = Transactions

  // ---------- Where an entry sits ----------

  /** A lookup of the key stops at entry `e`. */
  predicate Sits(cfg: Config, s: Store, key: CString, e: nat) {
    e != 0 && 0 < s.size && EntryFor(s.table, s.pool.cells, key, PathsFor(cfg, s.size)(key)) == e
  }

  /** The entry is live, but no slot refers to it. */
  ghost predicate Adrift(s: Store, e: nat) {
    0 < e < |s.pool.cells| && s.pool.cells[e].Live? && forall j :: 0 <= j < |s.table| ==> s.table[j] != e
  }

  lemma MissedIsAdrift(paths: CString -> seq<nat>, s: Store, key: CString, e: nat)
    requires Inv(s) && ArePaths(paths, s.size) && Reachable(paths, s)
    requires 0 < e < |s.pool.cells| && s.pool.cells[e].Live? && s.pool.cells[e].key == key
    requires EntryFor(s.table, s.pool.cells, key, paths(key)) == 0
    ensures Adrift(s, e)
  {
    hide FirstHolding;
    forall j | 0 <= j < |s.table| ensures s.table[j] != e {
      assert s.table[j] == e ==> Holds(s.table, s.pool.cells, key, j);
      if Holds(s.table, s.pool.cells, key, j) {
        D.HeldOnPath(paths, s, key, j);
      }
    }
  }

  /** A resize gives up on the key's entry and leaves it adrift, or leaves it where lookups find it. */
  lemma ResizeSeats(cfg: Config, s: Store, key: CString, e: nat)
    requires RoundTrips(cfg.codec) && TidyStore(cfg, s) && CanResize(s) && Sits(cfg, s, key, e)
    ensures var g := ResizeSpec(cfg, s).0;
      if key in LostKeys(PathsFor(cfg, NextSize(s).value), s) then Adrift(g, e) else Sits(cfg, g, key, e)
  {
    var paths := PathsFor(cfg, NextSize(s).value);
    var g := ResizeSpec(cfg, s).0;
    ResizeKeepsEntries(PathsFor(cfg, s.size), paths, s, key);
    ResizedIsTidy(PathsFor(cfg, s.size), paths, s);
    TidyIsReachable(paths, g);
    if key in LostKeys(paths, s) {
      MissedIsAdrift(paths, g, key, e);
    }
  }

  /** The slot a set takes in a tidy table is its key's own, so it replaces that key's entry and no other. */
  lemma FillingOwn(cfg: Config, s: Store, key: CString, e: nat)
    requires TidyStore(cfg, s) && s.numEntries < Threshold(s.size) && Sits(cfg, s, key, e)
    ensures Filling(cfg, s, key) == e
  {
    var path := PathsFor(cfg, s.size)(key);
    var n := FirstHolding(s.table, s.pool.cells, key, path);
    OpenSlotInTidy(PathsFor(cfg, s.size), s.pool.cells, s.table, key, path[n]);
  }

  lemma FillingOther(cfg: Config, s: Store, k: CString, v: CString, key: CString, e: nat)
    requires RoundTrips(cfg.codec) && Inv(s) && s.numEntries < Threshold(s.size) && Sits(cfg, s, key, e) && k != key
    ensures Filling(cfg, s, k) != e
    ensures Sits(cfg, InsertSpec(cfg, s, k, v, PathsFor(cfg, s.size)(k)).1, key, e)
  {
    var paths := PathsFor(cfg, s.size);
    InsertLeavesOthers(cfg, s, k, v, paths(k), key, paths(key));
    FillingTouches(cfg, s, k, v);
  }

  lemma FillingAdrift(cfg: Config, s: Store, k: CString, v: CString, e: nat)
    requires Inv(s) && s.numEntries < Threshold(s.size) && Adrift(s, e)
    ensures Filling(cfg, s, k) != e
    ensures Adrift(InsertSpec(cfg, s, k, v, PathsFor(cfg, s.size)(k)).1, e)
  {
    var path := PathsFor(cfg, s.size)(k);
    var n := FirstOpen(s.table, s.pool.cells, k, path);
    if n < PROBES {
      var i := PlacedCells(cfg, s, k, v, path, n);
      assert Placed(cfg, s, k, v, path, n).table[path[n]] == Reclaimed(s.pool, s.table[path[n]]).free[0];
    }
  }

  // ---------- A set, resize included ----------

  lemma RoomySeats(cfg: Config, s: Store, k: CString, v: CString, key: CString, e: nat)
    requires RoundTrips(cfg.codec) && TidyStore(cfg, s) && Roomy(cfg, s).Some? && Sits(cfg, s, key, e)
    ensures var g := Roomy(cfg, s).value;
      TidyStore(cfg, g) && if key in LostBy(cfg, s, OpSet(k, v)) then Adrift(g, e) else Sits(cfg, g, key, e)
  {
    if NeedsResize(s) {
      ResizeSeats(cfg, s, key, e);
      var paths := PathsFor(cfg, NextSize(s).value);
      ResizedIsTidy(PathsFor(cfg, s.size), paths, s);
      ResizedIsSeated(paths, cfg, s);
    }
  }

  /** The set goes into the roomy store. */
  lemma SetIsInsert(cfg: Config, s: Store, k: CString, v: CString)
    requires Inv(s) && Roomy(cfg, s).Some?
    ensures var g := Roomy(cfg, s).value;
      && SetSpec(cfg, s, k, v, cfg.hash(k)).store == InsertSpec(cfg, g, k, v, PathsFor(cfg, g.size)(k)).1
      && Touched(cfg, s, T.Set(k, v)) == Filling(cfg, g, k)
  {
  }

  /** Without deletes, a set replaces a key's entry exactly when it is a set of that key that does not give it up. */
  lemma SetSeats(cfg: Config, s: Store, k: CString, v: CString, key: CString, e: nat)
    requires RoundTrips(cfg.codec) && TidyStore(cfg, s) && Roomy(cfg, s).Some? && Sits(cfg, s, key, e)
    ensures var q, s' := T.Set(k, v), SetSpec(cfg, s, k, v, cfg.hash(k)).store;
      var lost := key in LostBy(cfg, s, OpSet(k, v));
      && (Touched(cfg, s, q) == e <==> k == key && !lost)
      && (Touched(cfg, s, q) != e ==> if lost then Adrift(s', e) else Sits(cfg, s', key, e))
  {
    RoomySeats(cfg, s, k, v, key, e);
    SetIsInsert(cfg, s, k, v);
    var g := Roomy(cfg, s).value;
    var lost := key in LostBy(cfg, s, OpSet(k, v));
    hide Sits, Adrift, SetSpec, Touched, Filling, InsertSpec, LostBy, Roomy;
    if lost {
      FillingAdrift(cfg, g, k, v, e);
    } else if k == key {
      FillingOwn(cfg, g, key, e);
    } else {
      FillingOther(cfg, g, k, v, key, e);
    }
  }

  lemma ResizeAdrift(cfg: Config, s: Store, e: nat)
    requires CanResize(s) && Adrift(s, e)
    ensures Adrift(ResizeSpec(cfg, s).0, e)
  {
    var paths := PathsFor(cfg, NextSize(s).value);
    var g := ResizeSpec(cfg, s).0;
    MigratedDrawnFrom(paths, s.pool.cells, s.table, g.size, |s.table|);
  }

  lemma SetAdrift(cfg: Config, s: Store, k: CString, v: CString, e: nat)
    requires Inv(s) && Roomy(cfg, s).Some? && Adrift(s, e)
    ensures Touched(cfg, s, T.Set(k, v)) != e && Adrift(SetSpec(cfg, s, k, v, cfg.hash(k)).store, e)
  {
    if NeedsResize(s) {
      ResizeAdrift(cfg, s, e);
    }
    FillingAdrift(cfg, Roomy(cfg, s).value, k, v, e);
  }

  // ---------- Shards no delete has touched ----------

  ghost predicate FromSet(cfg: Config, c: Cell) {
    c.Live? ==> exists v: CString :: c == CellFor(cfg, c.key, v)
  }

  /** Every live entry was filled by a set. */
  ghost predicate AllFromSets(cfg: Config, cells: seq<Cell>) {
    forall e :: 0 <= e < |cells| ==> FromSet(cfg, cells[e])
  }

  ghost predicate CalmShard(cfg: Config, s: Store) {
    TidyStore(cfg, s) && AllFromSets(cfg, s.pool.cells)
  }

  ghost predicate Calm(cfg: Config, sv: Server) {
    Ready(sv) && forall i :: 0 <= i < |sv.shards| ==> CalmShard(cfg, sv.shards[i].store)
  }

  /** Shards as the server creates them. */
  ghost predicate Started(sv: Server) {
    && sv.shards != [] && !sv.halted
    && forall i :: 0 <= i < |sv.shards| ==>
         exists size: nat, growth: Growth ::
           2 <= size && Grows(size, growth) && sv.shards[i] == Mem(Initial(size, growth), map[], 0)
  }

  lemma StartsCalm(cfg: Config, sv: Server)
    requires Started(sv)
    ensures Calm(cfg, sv)
  {
    forall i | 0 <= i < |sv.shards| ensures Tied(sv.shards[i]) && CalmShard(cfg, sv.shards[i].store) {
      var size: nat, growth: Growth :|
        2 <= size && Grows(size, growth) && sv.shards[i] == Mem(Initial(size, growth), map[], 0);
      InitialIsTidy(cfg, size, growth);
    }
  }

  lemma TouchKeepsFromSets(
      cfg: Config, cells: seq<Cell>, cells': seq<Cell>, e: nat, key: CString, value: CString)
    requires RoundTrips(cfg.codec) && AllFromSets(cfg, cells)
    requires OnlyTouched(cells, cells', e, CellFor(cfg, key, value))
    ensures AllFromSets(cfg, cells')
  {
    StoredValueReadsBack(cfg, key, value);
    hide CellFor;
    forall x | 0 <= x < |cells'| ensures FromSet(cfg, cells'[x]) {
      assert x < |cells| ==> FromSet(cfg, cells[x]);
    }
  }

  lemma SetKeepsCalm(cfg: Config, s: Store, q: T.Command)
    requires RoundTrips(cfg.codec) && CalmShard(cfg, s) && !q.Del? && Stepped(cfg, s, q).Some?
    ensures CalmShard(cfg, Stepped(cfg, s, q).value)
  {
    hide Inv, Readable, Tidy, SetSpec, Touched, CellFor, AllFromSets, OnlyTouched;
    if q.Set? {
      SetKeepsTidy(cfg, s, q.key, q.value);
      CommandTouches(cfg, s, q);
      TouchKeepsFromSets(
        cfg, s.pool.cells, Stepped(cfg, s, q).value.pool.cells, Touched(cfg, s, q), q.key, q.value);
    }
  }

  lemma PerformKeepsCalm(cfg: Config, sv: Server, q: T.Command)
    requires RoundTrips(cfg.codec) && Calm(cfg, sv) && !q.Del?
    ensures Calm(cfg, Perform(cfg, sv, q))
  {
    if !Perform(cfg, sv, q).halted {
      SetKeepsCalm(cfg, Home(cfg, sv, q).store, q);
    }
  }

  /** No DEL among the events. */
  predicate NoDeletes(events: seq<Event>) {
    forall j :: 0 <= j < |events| && CommandIn(events[j]).Some? ==> !CommandIn(events[j]).value.Del?
  }

  lemma {:induction false} StaysCalm(cfg: Config, sv: Server, events: seq<Event>)
    requires RoundTrips(cfg.codec) && Calm(cfg, sv) && NoDeletes(events)
    ensures Calm(cfg, After(cfg, sv, events))
  {
    if events != [] {
      var n := |events| - 1;
      StaysCalm(cfg, sv, events[..n]);
      if CommandIn(events[n]).Some? {
        PerformKeepsCalm(cfg, After(cfg, sv, events[..n]), CommandIn(events[n]).value);
      }
    }
  }

  // ---------- What an event does to the entry ----------

  /** The event is a SET of the key that is answered OK. */
  predicate Overwrites(cfg: Config, sv: Server, ev: Event, key: CString)
    requires Ready(sv)
  {
    match CommandIn(ev)
    case Some(q) => q.Set? && q.key == key && Happens(cfg, Home(cfg, sv, q).store, q) == Done
    case None => false
  }

  /** The event is a SET whose resize gives up on the key's entry. */
  predicate GivesUpOn(cfg: Config, sv: Server, ev: Event, key: CString)
    requires Ready(sv)
  {
    match CommandIn(ev)
    case Some(q) =>
      && q.Set? && ShardOf(cfg, sv, q.key) == ShardOf(cfg, sv, key)
      && key in LostBy(cfg, Home(cfg, sv, q).store, OpSet(q.key, q.value))
    case None => false
  }

  /** The key's lookups stop at the buffer's entry. */
  ghost predicate Seat(cfg: Config, sv: Server, h: Handle, key: CString) {
    Calm(cfg, sv) && h.shard == ShardOf(cfg, sv, key) && Sits(cfg, sv.shards[h.shard].store, key, h.entry)
  }

  ghost predicate Lost(cfg: Config, sv: Server, h: Handle) {
    Calm(cfg, sv) && h.shard < |sv.shards| && Adrift(sv.shards[h.shard].store, h.entry)
  }

  /** A command changes only its own shard's store. */
  lemma PerformSteps(cfg: Config, sv: Server, q: T.Command)
    requires Ready(sv) && !Perform(cfg, sv, q).halted
    ensures var i, s := ShardOf(cfg, sv, q.key), Home(cfg, sv, q).store;
      var r := Perform(cfg, sv, q);
      && Stepped(cfg, s, q).Some? && |r.shards| == |sv.shards| && r.shards[i].store == Stepped(cfg, s, q).value
      && (forall j :: 0 <= j < |sv.shards| && j != i ==> r.shards[j] == sv.shards[j])
      && (forall key: CString :: ShardOf(cfg, r, key) == ShardOf(cfg, sv, key))
  {
    hide Stepped, Touched, HeapAfter, NewCell;
  }

  lemma SeatAfterSet(cfg: Config, s: Store, k: CString, v: CString, key: CString, e: nat)
    requires RoundTrips(cfg.codec) && TidyStore(cfg, s) && Sits(cfg, s, key, e) && Stepped(cfg, s, T.Set(k, v)).Some?
    ensures var q := T.Set(k, v);
      var s', lost := Stepped(cfg, s, q).value, key in LostBy(cfg, s, OpSet(k, v));
      && (Touched(cfg, s, q) == e <==> k == key && Happens(cfg, s, q) == Done && !lost)
      && (Touched(cfg, s, q) != e ==> if lost then Adrift(s', e) else Sits(cfg, s', key, e))
  {
    assert Roomy(cfg, s).Some?;
    assert e != 0;
    hide TidyStore, Sits, Adrift, LostBy, Touched, SetSpec, OnlyTouched, Roomy, Inv;
    SetTouches(cfg, s, k, v);
    SetSeats(cfg, s, k, v, key, e);
  }

  /** What a command does to a seated entry: overwrites it, gives it up, or leaves it seated. */
  ghost predicate SeatMoves(cfg: Config, before: Server, q: T.Command, after: Server, h: Handle, key: CString)
    requires Ready(before)
  {
    var gives := GivesUpOn(cfg, before, Elsewhere(q), key);
    && (FreedBy(cfg, before, q, h) <==> Overwrites(cfg, before, Elsewhere(q), key) && !gives)
    && (!FreedBy(cfg, before, q, h) ==> if gives then Lost(cfg, after, h) else Seat(cfg, after, h, key))
  }

  lemma SeatAfterOwn(cfg: Config, before: Server, q: T.Command, h: Handle, key: CString, s: Store)
    requires RoundTrips(cfg.codec) && Seat(cfg, before, h, key) && q.Set? && !Perform(cfg, before, q).halted
    requires ShardOf(cfg, before, q.key) == h.shard && s == Home(cfg, before, q).store && TidyStore(cfg, s)
    ensures SeatMoves(cfg, before, q, Perform(cfg, before, q), h, key)
  {
    hide CalmShard, Adrift, LostBy, SetSpec, Inv, Perform, Happens, Touched, Sits, Stepped, ShardOf, Ready;
    PerformKeepsCalm(cfg, before, q);
    PerformSteps(cfg, before, q);
    SeatAfterSet(cfg, s, q.key, q.value, key, h.entry);
  }

  lemma SeatAfterElse(cfg: Config, before: Server, q: T.Command, h: Handle, key: CString)
    requires RoundTrips(cfg.codec) && Seat(cfg, before, h, key) && !q.Del? && !Perform(cfg, before, q).halted
    requires h.entry != 0 && (q.Set? ==> ShardOf(cfg, before, q.key) != h.shard)
    ensures SeatMoves(cfg, before, q, Perform(cfg, before, q), h, key)
  {
    hide CalmShard, Adrift, LostBy, SetSpec, Inv, Perform, Happens, Sits, ShardOf, Ready;
    PerformKeepsCalm(cfg, before, q);
    PerformSteps(cfg, before, q);
  }

  lemma SeatAfter(cfg: Config, before: Server, q: T.Command, h: Handle, key: CString)
    requires RoundTrips(cfg.codec) && Seat(cfg, before, h, key) && !q.Del? && !Perform(cfg, before, q).halted
    ensures SeatMoves(cfg, before, q, Perform(cfg, before, q), h, key)
  {
    hide SeatMoves, Perform, ShardOf, TidyStore, AllFromSets, Inv, Tied;
    if ShardOf(cfg, before, q.key) == h.shard && q.Set? {
      SeatAfterOwn(cfg, before, q, h, key, Home(cfg, before, q).store);
    } else {
      SeatAfterElse(cfg, before, q, h, key);
    }
  }

  lemma LostAfter(cfg: Config, before: Server, q: T.Command, h: Handle)
    requires RoundTrips(cfg.codec) && Lost(cfg, before, h) && !q.Del? && !Perform(cfg, before, q).halted
    ensures !FreedBy(cfg, before, q, h) && Lost(cfg, Perform(cfg, before, q), h)
  {
    PerformKeepsCalm(cfg, before, q);
    PerformSteps(cfg, before, q);
    if q.Set? && ShardOf(cfg, before, q.key) == h.shard {
      SetAdrift(cfg, Home(cfg, before, q).store, q.key, q.value, h.entry);
    }
  }

  // ---------- What becomes of the buffer ----------

  /** What is said of a buffer before event `j`, and of event `j`. */
  ghost predicate Drifts(
      seat: nat -> bool, lost: nat -> bool, frees: nat -> bool, writes: nat -> bool, loses: nat -> bool, j: nat) {
    && (seat(j) ==> (frees(j) <==> writes(j) && !loses(j)))
    && (seat(j) && !frees(j) ==> if loses(j) then lost(j + 1) else seat(j + 1))
    && (lost(j) ==> !frees(j) && lost(j + 1))
  }

  /** The least event from `i` on that frees the buffer, or `n`. */
  lemma {:induction false} FirstFreeing(frees: nat -> bool, i: nat, n: nat) returns (f: nat)
    requires i <= n
    ensures i <= f <= n && (f < n ==> frees(f)) && forall j :: i <= j < f ==> !frees(j)
    decreases n - i
  {
    if i == n || frees(i) {
      f := i;
    } else {
      f := FirstFreeing(frees, i + 1, n);
    }
  }

  lemma {:induction false} UntilFreed(
      seat: nat -> bool, lost: nat -> bool, frees: nat -> bool, writes: nat -> bool, loses: nat -> bool,
      i: nat, k: nat)
    requires i <= k && seat(i) && forall j :: i <= j < k ==> Drifts(seat, lost, frees, writes, loses, j) && !frees(j)
    ensures if exists j :: i <= j < k && loses(j) then lost(k) else seat(k)
    decreases k
  {
    if i < k {
      UntilFreed(seat, lost, frees, writes, loses, i, k - 1);
      assert Drifts(seat, lost, frees, writes, loses, k - 1);
    }
  }

  /** Some event writes the key, and neither it nor one before it gave up on the entry. */
  ghost predicate WrittenInPlace(writes: nat -> bool, loses: nat -> bool, i: nat, n: nat) {
    exists j :: i < j < n && writes(j) && forall m :: i < m <= j ==> !loses(m)
  }

  lemma FreedIffWritten(
      seat: nat -> bool, lost: nat -> bool, frees: nat -> bool, writes: nat -> bool, loses: nat -> bool,
      i: nat, n: nat)
    requires i <= n && seat(i) && !writes(i) && !loses(i)
    requires forall j :: i <= j < n ==> Drifts(seat, lost, frees, writes, loses, j)
    ensures (exists j :: i < j < n && frees(j)) <==> WrittenInPlace(writes, loses, i, n)
  {
    var f := FirstFreeing(frees, i, n);
    UntilFreed(seat, lost, frees, writes, loses, i, f);
    if f < n {
      assert Drifts(seat, lost, frees, writes, loses, f);
      assert frees(f) && seat(f) && writes(f) && !loses(f);
      assert f != i;
    } else {
      forall j | i < j < n ensures writes(j) ==> exists m :: i < m <= j && loses(m) {
        UntilFreed(seat, lost, frees, writes, loses, i, j);
        assert Drifts(seat, lost, frees, writes, loses, j);
      }
    }
  }

  // ---------- What is sent ----------

  /** Event `j` is a SET of the key that is answered OK. */
  ghost predicate OverwritesAt(cfg: Config, at: nat -> Server, events: seq<Event>, key: CString, j: nat) {
    j < |events| && Ready(at(j)) && Overwrites(cfg, at(j), events[j], key)
  }

  ghost predicate GivesUpAt(cfg: Config, at: nat -> Server, events: seq<Event>, key: CString, j: nat) {
    j < |events| && Ready(at(j)) && GivesUpOn(cfg, at(j), events[j], key)
  }

  /** The value is one `set` stores as it is. */
  predicate StoredAsIs(cfg: Config, v: string) {
    '\0' !in v && !CellFor(cfg, "", v).compressed
  }

  lemma EventDrifts(cfg: Config, events: seq<Event>, at: nat -> Server, h: Handle, key: CString, j: nat)
    requires RoundTrips(cfg.codec) && j < |events| && Moves(cfg, at(j), events[j], at(j + 1))
    requires CommandIn(events[j]).Some? ==> !CommandIn(events[j]).value.Del?
    ensures Seat(cfg, at(j), h, key) ==>
      && (FreesAt(cfg, at, events, j, h) <==>
            OverwritesAt(cfg, at, events, key, j) && !GivesUpAt(cfg, at, events, key, j))
      && (!FreesAt(cfg, at, events, j, h) ==>
            if GivesUpAt(cfg, at, events, key, j) then Lost(cfg, at(j + 1), h) else Seat(cfg, at(j + 1), h, key))
    ensures Lost(cfg, at(j), h) ==> !FreesAt(cfg, at, events, j, h) && Lost(cfg, at(j + 1), h)
  {
    hide Seat, Lost, Perform, FreedBy, Happens, LostBy, Ready;
    if CommandIn(events[j]).Some? {
      var q := CommandIn(events[j]).value;
      if Seat(cfg, at(j), h, key) {
        SeatAfter(cfg, at(j), q, h, key);
      }
      if Lost(cfg, at(j), h) {
        LostAfter(cfg, at(j), q, h);
      }
    }
  }

  /** Which events overwrite the key, and which give up on its entry. */
  ghost function Overwriting(cfg: Config, sv: Server, events: seq<Event>, key: CString): (f: nat -> bool)
    requires Ready(sv)
    ensures forall j: nat {:trigger f(j)} :: f(j) == OverwritesAt(cfg, States(cfg, sv, events), events, key, j)
  {
    (j: nat) => OverwritesAt(cfg, States(cfg, sv, events), events, key, j)
  }

  ghost function GivingUp(cfg: Config, sv: Server, events: seq<Event>, key: CString): (f: nat -> bool)
    requires Ready(sv)
    ensures forall j: nat {:trigger f(j)} :: f(j) == GivesUpAt(cfg, States(cfg, sv, events), events, key, j)
  {
    (j: nat) => GivesUpAt(cfg, States(cfg, sv, events), events, key, j)
  }

  lemma DriftsOn(
      cfg: Config, events: seq<Event>, at: nat -> Server, h: Handle, key: CString, i: nat, n: nat,
      seat: nat -> bool, lost: nat -> bool, frees: nat -> bool, writes: nat -> bool, loses: nat -> bool)
    requires RoundTrips(cfg.codec) && Runs(cfg, events, at) && NoDeletes(events) && n <= |events|
    requires forall j: nat {:trigger seat(j)} :: seat(j) == Seat(cfg, at(j), h, key)
    requires forall j: nat {:trigger lost(j)} :: lost(j) == Lost(cfg, at(j), h)
    requires forall j: nat {:trigger frees(j)} :: frees(j) == FreesAt(cfg, at, events, j, h)
    requires forall j: nat {:trigger writes(j)} :: writes(j) == OverwritesAt(cfg, at, events, key, j)
    requires forall j: nat {:trigger loses(j)} :: loses(j) == GivesUpAt(cfg, at, events, key, j)
    ensures forall j :: i <= j < n ==> Drifts(seat, lost, frees, writes, loses, j)
  {
    hide Seat, Lost, FreesAt, OverwritesAt, GivesUpAt, Moves;
    forall j | i <= j < n ensures Drifts(seat, lost, frees, writes, loses, j) {
      assert Moves(cfg, at(j), events[j], at(j + 1));
      EventDrifts(cfg, events, at, h, key, j);
    }
  }

  /** The GET found a value that is stored as it is exactly when its response points at the value's buffer. */
  lemma BorrowedIffAsIs(cfg: Config, sv: Server, key: CString)
    requires RoundTrips(cfg.codec) && Calm(cfg, sv)
    ensures var verdict := Happens(cfg, Home(cfg, sv, T.Get(key)).store, T.Get(key));
      var a := AnswerTo(cfg, sv, T.Get(key));
      && (a.buffer.Some? <==> verdict.Value? && StoredAsIs(cfg, verdict.v))
      && (a.buffer.Some? ==> Seat(cfg, sv, a.buffer.value, key))
  {
    var s := Home(cfg, sv, T.Get(key)).store;
    var e := EntryFor(s.table, s.pool.cells, key, PathsFor(cfg, s.size)(key));
    assert CalmShard(cfg, s);
    if e != 0 {
      assert FromSet(cfg, s.pool.cells[e]);
      var v: CString :| s.pool.cells[e] == CellFor(cfg, key, v);
      StoredValueReadsBack(cfg, key, v);
    }
  }

  /**
    Without deletes, the response to a GET is sent with other bytes than its own exactly when the value it
    found is not empty and stored as it is, and some later event handled before it is sent is a SET of the
    same key that is answered OK, unless that event or one before it resized the shard and gave up on the
    key's entry.
   */
  lemma LostExactlyWhenOverwritten(cfg: Config, sv: Server, events: seq<Event>, i: nat, n: nat, key: CString)
    requires RoundTrips(cfg.codec) && Calm(cfg, sv) && NoDeletes(events) && !After(cfg, sv, events).halted
    requires i < n <= |events| && CommandIn(events[i]) == Some(T.Get(key))
    ensures var verdict := Happens(cfg, Home(cfg, After(cfg, sv, events[..i]), T.Get(key)).store, T.Get(key));
      !Faithful(States(cfg, sv, events)(n), AnswerAt(cfg, sv, events, i)) <==>
      && verdict.Value? && verdict.v != [] && StoredAsIs(cfg, verdict.v)
      && WrittenInPlace(Overwriting(cfg, sv, events, key), GivingUp(cfg, sv, events, key), i, n)
  {
    var a, at := AnswerAt(cfg, sv, events, i), States(cfg, sv, events);
    StaysCalm(cfg, sv, events[..i]);
    BorrowedIffAsIs(cfg, at(i), key);
    SentOwnTextIff(cfg, sv, events, i, n);
    if a.buffer.Some? {
      var h := a.buffer.value;
      StatesRun(cfg, sv, events);
      var seat, lost := (j: nat) => Seat(cfg, at(j), h, key), (j: nat) => Lost(cfg, at(j), h);
      var frees := Freeing(cfg, sv, events, h);
      var writes, loses := Overwriting(cfg, sv, events, key), GivingUp(cfg, sv, events, key);
      DriftsOn(cfg, events, at, h, key, i, n, seat, lost, frees, writes, loses);
      FreedIffWritten(seat, lost, frees, writes, loses, i, n);
    }
  }
}
