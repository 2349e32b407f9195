/** The store together with the heap buffers its entries' values live in. */
module StoreMemory {
  import opened Common
  import opened EntryPool
  import opened StoreModel
  import opened StoreLookup
  import T = Transactions

  /** A value's buffer: no two allocations share an id, and the bytes do not change while it lives. */
  datatype Block = Block(id: nat, bytes: string)

  /** `heap` holds the buffer of every live entry; ids from `next` on were never given out. */
  datatype Mem = Mem(store: Store, heap: map<nat, Block>, next: nat)

  ghost predicate Fits(heap: map<nat, Block>, next: nat, cells: seq<Cell>) {
    && (forall e: nat :: e in heap <==> e < |cells| && cells[e].Live?)
    && (forall e: nat :: e in heap ==> heap[e].id < next && heap[e].bytes == cells[e].blob)
  }

  ghost predicate Tied(m: Mem) {
    Inv(m.store) && Fits(m.heap, m.next, m.store.pool.cells)
  }

  // ---------- The one entry a command touches ----------

  /** The store `set` inserts into, or None when the prime generator throws. */
  function Roomy(cfg: Config, s: Store): (r: Option<Store>)
    requires Inv(s)
    ensures r.Some? ==> Inv(r.value) && r.value.numEntries < Threshold(r.value.size)
  {
    if !NeedsResize(s) then Some(s) else if NextSize(s).None? then None else Some(ResizeSpec(cfg, s).0)
  }

  /** The entry `set` fills, or 0 when it finds no room. */
  function Filling(cfg: Config, s: Store, key: CString): nat
    requires Inv(s) && s.numEntries < Threshold(s.size)
  {
    var path := PathsFor(cfg, s.size)(key);
    var n := FirstOpen(s.table, s.pool.cells, key, path);
    if n < PROBES then Reclaimed(s.pool, s.table[path[n]]).free[0] else 0
  }

  /** The entry whose buffer the command frees or replaces, or 0. */
  function Touched(cfg: Config, s: Store, q: T.Command): nat
    requires Inv(s)
  {
    match q
    case Get(_) => 0
    case Del(key) => EntryFor(s.table, s.pool.cells, key, PathsFor(cfg, s.size)(key))
    case Set(key, _) =>
      var g := Roomy(cfg, s);
      if g.None? then 0 else Filling(cfg, g.value, key)
  }

  /** The store after a command; after a throw nothing further is answered. */
  function Stepped(cfg: Config, s: Store, q: T.Command): (r: Option<Store>)
    requires Inv(s)
    ensures r.Some? ==> Inv(r.value)
  {
    match q
    case Get(_) => Some(s)
    case Del(key) => Some(DelSpec(s, key, PathsFor(cfg, s.size)(key)).1)
    case Set(key, value) =>
      var r := SetSpec(cfg, s, key, value, cfg.hash(key));
      if r.outcome.Exhausted? then None else Some(r.store)
  }

  function NewCell(cfg: Config, q: T.Command): Cell {
    match q
    case Set(key, value) => CellFor(cfg, key, value)
    case _ => Vacant
  }

  /** Every entry but the touched one is as it was; entries a resize added are vacant. */
  ghost predicate OnlyTouched(cells: seq<Cell>, cells': seq<Cell>, e: nat, c: Cell) {
    && |cells| <= |cells'|
    && (forall x :: 0 <= x < |cells'| && (x != e || e == 0) ==> cells'[x] == if x < |cells| then cells[x] else Vacant)
    && (e != 0 ==> e < |cells'| && cells'[e] == c)
  }

  lemma GrownCells(cfg: Config, s: Store)
    requires Inv(s) && Roomy(cfg, s).Some?
    ensures var cells, cells' := s.pool.cells, Roomy(cfg, s).value.pool.cells;
      && cells <= cells'
      && forall x :: |cells| <= x < |cells'| ==> cells'[x] == Vacant
  {
  }

  lemma FillingTouches(cfg: Config, s: Store, key: CString, value: CString)
    requires Inv(s) && s.numEntries < Threshold(s.size)
    ensures var (ok, s') := InsertSpec(cfg, s, key, value, PathsFor(cfg, s.size)(key));
      var e := Filling(cfg, s, key);
      && OnlyTouched(s.pool.cells, s'.pool.cells, e, CellFor(cfg, key, value))
      && ok == (e != 0) && e < |s.pool.cells|
      && (e != 0 && s.pool.cells[e].Live? ==> s.pool.cells[e].key == key)
  {
    var path := PathsFor(cfg, s.size)(key);
    var n := FirstOpen(s.table, s.pool.cells, key, path);
    if n < PROBES {
      var i := PlacedCells(cfg, s, key, value, path, n);
      var p := Reclaimed(s.pool, s.table[path[n]]);
      assert p.free[0] in p.free;
      assert Placed(cfg, s, key, value, path, n).table[path[n]] == p.free[0];
    }
  }

  lemma SetTouches(cfg: Config, s: Store, key: CString, value: CString)
    requires Inv(s) && Roomy(cfg, s).Some?
    ensures var r := SetSpec(cfg, s, key, value, cfg.hash(key));
      var e := Touched(cfg, s, T.Set(key, value));
      && !r.outcome.Exhausted? && r.outcome.Stored? == (e != 0)
      && OnlyTouched(s.pool.cells, r.store.pool.cells, e, CellFor(cfg, key, value))
      && (e != 0 && e < |s.pool.cells| && s.pool.cells[e].Live? ==> s.pool.cells[e].key == key)
  {
    GrownCells(cfg, s);
    FillingTouches(cfg, Roomy(cfg, s).value, key, value);
  }

  /** A command frees a live buffer only of an entry for its own key. */
  lemma CommandTouches(cfg: Config, s: Store, q: T.Command)
    requires Inv(s) && Stepped(cfg, s, q).Some?
    ensures var e := Touched(cfg, s, q);
      && OnlyTouched(s.pool.cells, Stepped(cfg, s, q).value.pool.cells, e, NewCell(cfg, q))
      && (e != 0 && e < |s.pool.cells| && s.pool.cells[e].Live? ==> s.pool.cells[e].key == q.key && !q.Get?)
  {
    if q.Set? {
      SetTouches(cfg, s, q.key, q.value);
    }
  }

  // ---------- Buffers ----------

  /** `del` frees the entry's buffer; `set` frees what the entry had and allocates. */
  function HeapAfter(heap: map<nat, Block>, next: nat, e: nat, c: Cell): (map<nat, Block>, nat) {
    if e == 0 then (heap, next)
    else if c.Vacant? then (heap - {e}, next)
    else (heap[e := Block(next, c.blob)], next + 1)
  }

  function Performed(cfg: Config, m: Mem, q: T.Command): (r: Option<Mem>)
    requires Inv(m.store)
    ensures r.Some? ==> Inv(r.value.store)
  {
    var s := Stepped(cfg, m.store, q);
    if s.None? then None
    else
      var (heap, next) := HeapAfter(m.heap, m.next, Touched(cfg, m.store, q), NewCell(cfg, q));
      Some(Mem(s.value, heap, next))
  }

  lemma TouchKeepsFit(
      heap: map<nat, Block>, next: nat, cells: seq<Cell>, cells': seq<Cell>, e: nat, c: Cell)
    requires Fits(heap, next, cells) && OnlyTouched(cells, cells', e, c)
    ensures var (heap', next') := HeapAfter(heap, next, e, c);
      Fits(heap', next', cells')
  {
  }

  lemma StepStaysTied(cfg: Config, m: Mem, q: T.Command)
    requires Tied(m) && Performed(cfg, m, q).Some?
    ensures Tied(Performed(cfg, m, q).value)
  {
    CommandTouches(cfg, m.store, q);
    var s := Stepped(cfg, m.store, q).value;
    TouchKeepsFit(m.heap, m.next, m.store.pool.cells, s.pool.cells, Touched(cfg, m.store, q), NewCell(cfg, q));
  }

  /** The buffer with this id is still the entry's. */
  predicate Lives(m: Mem, e: nat, id: nat) {
    e in m.heap && m.heap[e].id == id
  }

  /** A command ends a buffer's life exactly when it touches the entry. */
  lemma StepFrees(cfg: Config, m: Mem, q: T.Command, e: nat, id: nat)
    requires Inv(m.store) && Performed(cfg, m, q).Some? && id < m.next && e != 0
    ensures Lives(Performed(cfg, m, q).value, e, id) <==> Lives(m, e, id) && Touched(cfg, m.store, q) != e
    ensures Lives(m, e, id) && Touched(cfg, m.store, q) != e ==> Performed(cfg, m, q).value.heap[e] == m.heap[e]
    ensures m.next <= Performed(cfg, m, q).value.next
  {
    hide Stepped, Touched, Inv, NewCell;
  }
}
