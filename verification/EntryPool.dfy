/** The pool of entries: an index-linked free list, and the stack of free indices it stands for. */
module EntryPool {
  import opened Common

  // ---------- The pool as a value ----------

  datatype Cell = Vacant | Live(key: CString, blob: string, compressed: bool)

  /** `free` lists the free indices in the order the linked list yields them. */
  datatype Pool = Pool(cells: seq<Cell>, free: seq<nat>)

  /** Free indices are distinct, non-zero, in range, and name entries without a key. */
  ghost predicate Sound(p: Pool) {
    && (forall i :: 0 <= i < |p.free| ==> 1 <= p.free[i] < |p.cells| && p.cells[p.free[i]].Vacant?)
    && (forall i, j :: 0 <= i < j < |p.free| ==> p.free[i] != p.free[j])
  }

  /** The indices from `first` up to but not including `end`. */
  function Indices(first: nat, end: nat): (r: seq<nat>)
    requires first <= end
    ensures |r| == end - first
    ensures forall i :: 0 <= i < |r| ==> r[i] == first + i
  {
    seq(end - first, i => first + i)
  }

  function Blanks(n: nat): (r: seq<Cell>)
    ensures |r| == n
    ensures forall i :: 0 <= i < n ==> r[i] == Vacant
  {
    seq(n, _ => Vacant)
  }

  function Fresh(capacity: nat): (p: Pool)
    requires capacity >= 2
    ensures Sound(p) && forall i :: 0 <= i < |p.free| ==> p.free[i] == 1 + i
  {
    Pool(Blanks(capacity), Indices(1, capacity))
  }

  function Allocated(p: Pool): (q: Pool)
    requires Sound(p) && p.free != []
    ensures Sound(q) && p.free[0] !in q.free
  {
    p.(free := p.free[1..])
  }

  function Deallocated(p: Pool, i: nat): (q: Pool)
    requires Sound(p) && 1 <= i < |p.cells| && p.cells[i].Live?
    ensures Sound(q) && q.free != [] && q.free[0] == i
  {
    Pool(p.cells[i := Vacant], [i] + p.free)
  }

  function Filled(p: Pool, i: nat, c: Cell): (q: Pool)
    requires Sound(p) && 1 <= i < |p.cells| && i !in p.free
    ensures Sound(q)
  {
    p.(cells := p.cells[i := c])
  }

  /** Only the new indices are free afterwards: what was left of the old free list is dropped. */
  function Expanded(p: Pool, newSize: nat): (q: Pool)
    requires Sound(p) && |p.cells| < newSize && 1 <= |p.cells|
    ensures Sound(q) && |q.cells| == newSize && p.cells <= q.cells
    ensures |q.free| == newSize - |p.cells| && forall i :: 0 <= i < |q.free| ==> q.free[i] == |p.cells| + i
  {
    Pool(p.cells + Blanks(newSize - |p.cells|), Indices(|p.cells|, newSize))
  }

  // ---------- The pool in memory ----------

  /** `key` is None for a null pointer. `value` is the stored blob, so its length is `vSize`. */
  datatype Entry = Entry(key: Option<CString>, value: string, compressed: bool, nextFree: nat)

  const BLANK_ENTRY := Entry(None, "", false, 0)

  function CellOf(e: Entry): Cell {
    if e.key.None? then Vacant else Live(e.key.value, e.value, e.compressed)
  }

  function Cells(es: seq<Entry>): (cs: seq<Cell>)
    ensures |cs| == |es|
    ensures forall i :: 0 <= i < |es| ==> cs[i] == CellOf(es[i])
  {
    seq(|es|, i requires 0 <= i < |es| => CellOf(es[i]))
  }

  function Successor(free: seq<nat>, i: nat): nat {
    if i + 1 < |free| then free[i + 1] else 0
  }

  /** Following `nextFree` from `head` visits exactly `free`, in order, and then reaches 0. */
  ghost predicate Links(es: seq<Entry>, head: nat, free: seq<nat>) {
    && head == (if free == [] then 0 else free[0])
    && (forall i :: 0 <= i < |free| ==> free[i] < |es|)
    && (forall i :: 0 <= i < |free| ==> es[free[i]].nextFree == Successor(free, i))
  }

  lemma LinksAfterPop(es: seq<Entry>, head: nat, free: seq<nat>)
    requires Links(es, head, free) && free != []
    ensures Links(es, es[head].nextFree, free[1..])
  {
    var rest := free[1..];
    assert es[free[0]].nextFree == Successor(free, 0);
    forall i | 0 <= i < |rest|
      ensures es[rest[i]].nextFree == Successor(rest, i)
    {
      assert rest[i] == free[i + 1];
      assert es[free[i + 1]].nextFree == Successor(free, i + 1);
    }
  }

  lemma LinksAfterPush(es: seq<Entry>, head: nat, free: seq<nat>, i: nat)
    requires Links(es, head, free) && 0 < i < |es| && i !in free
    ensures Links(es[i := Entry(None, "", false, head)], i, [i] + free)
  {
    var es', all := es[i := Entry(None, "", false, head)], [i] + free;
    forall k | 0 <= k < |all| ensures es'[all[k]].nextFree == Successor(all, k) {
      if k > 0 {
        assert all[k] == free[k - 1] && es[free[k - 1]].nextFree == Successor(free, k - 1);
      }
    }
  }

  lemma CellsAfterPush(es: seq<Entry>, head: nat, i: nat)
    requires i < |es|
    ensures Cells(es[i := Entry(None, "", false, head)]) == Cells(es)[i := Vacant]
  {
  }

  /** An entry without a key is fully reset; `insertEntry` relies on its cleared `compressed` flag. */
  ghost predicate VacantIsReset(es: seq<Entry>) {
    forall i :: 0 <= i < |es| && es[i].key.None? ==> es[i].value == "" && !es[i].compressed
  }

  /** Links the blank entries from `first` on into one chain that ends in 0. */
  method ChainFrom(es: array<Entry>, first: nat)
    requires first < es.Length
    requires forall j :: first <= j < es.Length ==> es[j] == BLANK_ENTRY
    modifies es
    ensures Links(es[..], first, Indices(first, es.Length)) <== first > 0
    ensures Cells(es[..]) == Cells(old(es[..first])) + Blanks(es.Length - first)
    ensures VacantIsReset(old(es[..first])) ==> VacantIsReset(es[..])
  {
    for i := first to es.Length - 1
      invariant es[..first] == old(es[..first])
      invariant forall j :: first <= j < i ==> es[j] == BLANK_ENTRY.(nextFree := j + 1)
      invariant forall j :: i <= j < es.Length ==> es[j] == BLANK_ENTRY
    {
      es[i] := es[i].(nextFree := i + 1);
    }
    es[es.Length - 1] := es[es.Length - 1].(nextFree := 0);
    assert forall j :: 0 <= j < first ==> es[..][j] == old(es[..first])[j] by {
      assert forall j :: 0 <= j < first ==> es[j] == es[..first][j];
    }
  }

  class MemoryPool {
    var pool: array<Entry>
    var capacity: nat
    var freeListHead: nat
    var primeQueue: seq<nat>
    ghost var free: seq<nat>

    ghost function Model(): Pool
      reads this, pool
    {
      Pool(Cells(pool[..]), free)
    }

    ghost predicate Valid()
      reads this, pool
    {
      && pool.Length == capacity
      && 2 <= capacity
      && Links(pool[..], freeListHead, free)
      && VacantIsReset(pool[..])
      && Sound(Model())
    }

    constructor (initialSize: nat, primes: seq<nat>)
      requires 2 <= initialSize
      ensures Valid() && fresh(pool)
      ensures Model() == Fresh(initialSize) && primeQueue == primes
    {
      hide Links, Sound;
      capacity := initialSize;
      pool := new Entry[initialSize](_ => BLANK_ENTRY);
      primeQueue := primes;
      free := Indices(1, initialSize);
      freeListHead := 1;
      new;
      ChainFrom(pool, 1);
      assert Model() == Fresh(initialSize);
    }

    method Pop() returns (i: nat)
      requires Valid() && free != []
      modifies this`freeListHead, this`free
      ensures Valid() && i == old(free)[0] && Model() == Allocated(old(Model()))
      ensures 1 <= i < capacity && Model().cells[i].Vacant? && i !in Model().free
    {
      i := freeListHead;
      assert free[0] == i && Sound(Model());
      LinksAfterPop(pool[..], freeListHead, free);
      freeListHead := pool[i].nextFree;
      free := free[1..];
    }

    /**
      Pops the head of the free list, first growing the pool from its own primes when the list is empty.
      `thrown` is set, and nothing changed, when those have run out.
     */
    method Allocate() returns (thrown: bool, i: nat)
      requires Valid()
      requires freeListHead == 0 && primeQueue != [] ==> capacity < primeQueue[0]
      modifies this, pool
      ensures Valid() && (pool == old(pool) || fresh(pool))
      ensures thrown <==> old(free) == [] && old(primeQueue) == []
      ensures thrown ==> pool == old(pool) && Model() == old(Model()) && primeQueue == []
      ensures !thrown ==> 1 <= i < capacity && Model().cells[i].Vacant? && i !in Model().free
      ensures old(free) != [] ==>
                && pool == old(pool) && primeQueue == old(primeQueue)
                && i == old(free)[0] && Model() == Allocated(old(Model()))
      ensures old(free) == [] && !thrown ==>
                && primeQueue == old(primeQueue)[1..]
                && i == old(capacity)
                && Model() == Allocated(Expanded(old(Model()), old(primeQueue)[0]))
    {
      assert freeListHead == 0 <==> free == [];
      if freeListHead == 0 {
        if primeQueue == [] {
          return true, 0;
        }
        var newCapacity := primeQueue[0];
        primeQueue := primeQueue[1..];
        ExpandPool(newCapacity);
      }
      i := Pop();
      thrown := false;
    }

    method Deallocate(i: nat)
      requires Valid()
      requires 1 <= i < capacity && pool[i].key.Some?
      modifies this, pool
      ensures Valid() && pool == old(pool) && primeQueue == old(primeQueue)
      ensures Model() == Deallocated(old(Model()), i)
    {
      assert i !in free by {
        assert Model().cells[i].Live?;
      }
      LinksAfterPush(pool[..], freeListHead, free, i);
      CellsAfterPush(pool[..], freeListHead, i);
      pool[i] := Entry(None, "", false, freeListHead);
      assert pool[..] == old(pool[..])[i := Entry(None, "", false, freeListHead)];
      freeListHead := i;
      free := [i] + free;
      assert Model() == Deallocated(old(Model()), i);
    }

    /** Fills an entry that is neither live nor free, as `insertEntry` does through the reference it got. */
    method Fill(i: nat, key: CString, value: string, compressed: bool)
      requires Valid()
      requires 1 <= i < capacity && pool[i].key.None? && i !in free
      modifies this, pool
      ensures Valid() && pool == old(pool) && primeQueue == old(primeQueue)
      ensures Model() == Filled(old(Model()), i, Live(key, value, compressed))
    {
      pool[i] := pool[i].(key := Some(key), value := value, compressed := compressed);
      assert Cells(pool[..]) == old(Cells(pool[..]))[i := Live(key, value, compressed)];
      assert Model() == Filled(old(Model()), i, Live(key, value, compressed));
    }

    method ExpandPool(newSize: nat)
      requires Valid()
      requires capacity < newSize
      modifies this
      ensures Valid() && fresh(pool) && primeQueue == old(primeQueue)
      ensures Model() == Expanded(old(Model()), newSize)
    {
      var newPool := new Entry[newSize](_ => BLANK_ENTRY);
      forall i | 0 <= i < capacity {
        newPool[i] := pool[i];
      }
      assert newPool[..capacity] == pool[..];
      ChainFrom(newPool, capacity);
      free := Indices(capacity, newSize);
      pool := newPool;
      freeListHead := capacity;
      capacity := newSize;
      assert Model() == Expanded(old(Model()), newSize);
    }
  }
}
