/** The 256-slot arena for small replies, and the reply packets its slots move between. */
module InlineArena {
  import opened Common

  const RESP_INLINE_SLOTS := 256
  const RESP_INLINE_INVALID := 65535

  function SanitizeCapacity(value: nat): (c: nat)
    ensures c > 0
  {
    if value == 0 then 1 else value
  }

  /** Where a packet's bytes are. */
  datatype Data =
    | NoData
    | InSlot(storage: array<char>, offset: nat)
    | OnHeap(buffer: array<char>)
    | Static(bytes: string)

  class ResponsePacket {
    var data: Data
    var size: nat
    var owned: array?<char>
    var inlineIndex: nat

    constructor ()
      ensures data == NoData && size == 0 && owned == null && inlineIndex == RESP_INLINE_INVALID
    {
      data, size, owned, inlineIndex := NoData, 0, null, RESP_INLINE_INVALID;
    }

    ghost function Memory(): set<object>
      reads this
    {
      MemoryOf(data)
    }

    /** The bytes seen through the packet. */
    ghost function Bytes(): string
      reads this, Memory()
    {
      Shown(data, size)
    }
  }

  ghost function MemoryOf(data: Data): set<object> {
    match data
    case InSlot(storage, _) => {storage}
    case OnHeap(buffer) => {buffer}
    case _ => {}
  }

  ghost function Shown(data: Data, size: nat): string
    reads MemoryOf(data)
  {
    match data
    case InSlot(storage, offset) => if offset + size <= storage.Length then storage[offset..offset + size] else []
    case OnHeap(buffer) => if size <= buffer.Length then buffer[..size] else []
    case Static(bytes) => bytes
    case NoData => []
  }

  // ---------- The stack of free slots ----------

  /** Distinct slots, none of them owned, and as many as are not owned. */
  ghost predicate FreeSlots(free: seq<nat>, owners: set<nat>) {
    && (forall i :: 0 <= i < |free| ==> free[i] < RESP_INLINE_SLOTS && free[i] !in owners)
    && (forall i, j :: 0 <= i < j < |free| ==> free[i] != free[j])
    && (forall k :: k in owners ==> k < RESP_INLINE_SLOTS)
    && |free| + |owners| == RESP_INLINE_SLOTS
  }

  function Members(s: seq<nat>): set<nat> {
    set x | x in s
  }

  function Below(n: nat): (s: set<nat>)
    ensures forall k: nat :: k in s <==> k < n
  {
    if n == 0 then {} else Below(n - 1) + {n - 1}
  }

  lemma {:induction false} DistinctCount(s: seq<nat>)
    requires forall i, j :: 0 <= i < j < |s| ==> s[i] != s[j]
    ensures |Members(s)| == |s|
  {
    if s != [] {
      var t, last := s[..|s| - 1], s[|s| - 1];
      DistinctCount(t);
      assert s == t + [last] && last !in t;
      assert Members(s) == Members(t) + {last};
    }
  }

  lemma SubsetOfSameSize(a: set<nat>, b: set<nat>)
    requires a <= b && |a| == |b|
    ensures a == b
  {
    if a != b {
      var x :| x in b && x !in a;
      SetSize(a, b - {x});
    }
  }

  lemma {:induction false} SlotCount(n: nat)
    ensures |Below(n)| == n
  {
    if n > 0 {
      SlotCount(n - 1);
    }
  }

  /** Every one of the 256 slots is free or owned, and none is both. */
  lemma SlotsArePartitioned(free: seq<nat>, owners: set<nat>)
    requires FreeSlots(free, owners)
    ensures Members(free) !! owners && Members(free) + owners == Below(RESP_INLINE_SLOTS)
  {
    DistinctCount(free);
    SlotCount(RESP_INLINE_SLOTS);
    assert |Members(free) + owners| == |Members(free)| + |owners|;
    SubsetOfSameSize(Members(free) + owners, Below(RESP_INLINE_SLOTS));
  }

  lemma SlotEnds(i: nat, j: nat, slotSize: nat)
    requires i < j
    ensures i * slotSize + slotSize <= j * slotSize
  {
    assert (i + 1) * slotSize == i * slotSize + slotSize;
  }

  /** A slot's bytes lie within the storage, and clear of every other slot's. */
  lemma RegionsDisjoint(i: nat, a: nat, j: nat, b: nat, slotSize: nat)
    requires i < RESP_INLINE_SLOTS && a <= slotSize && b <= slotSize
    ensures i * slotSize + a <= RESP_INLINE_SLOTS * slotSize
    ensures i != j ==> i * slotSize + a <= j * slotSize || j * slotSize + b <= i * slotSize
  {
    SlotEnds(i, RESP_INLINE_SLOTS, slotSize);
    if i < j {
      SlotEnds(i, j, slotSize);
    } else if j < i {
      SlotEnds(j, i, slotSize);
    }
  }

  lemma PushFree(free: seq<nat>, owners: set<nat>, index: nat)
    requires FreeSlots(free, owners) && index in owners
    ensures FreeSlots(free + [index], owners - {index})
  {
  }

  lemma PopFree(free: seq<nat>, owners: set<nat>)
    requires FreeSlots(free, owners) && free != []
    ensures var last := free[|free| - 1];
      last !in owners && FreeSlots(free[..|free| - 1], owners + {last})
  {
  }

  /** Slots in the order a reset pushes them, so that the lowest is taken first. */
  function AllFree(): (free: seq<nat>)
    ensures FreeSlots(free, {})
  {
    seq(RESP_INLINE_SLOTS, i requires 0 <= i < RESP_INLINE_SLOTS => RESP_INLINE_SLOTS - 1 - i)
  }

  /** After a reset the slots are taken from 0 upwards. */
  lemma LowestFirst()
    ensures |AllFree()| == 256 && forall i :: 0 <= i < 256 ==> AllFree()[i] == 255 - i
  {
  }

  method Fill(a: array<char>, offset: nat, bytes: seq<char>)
    requires offset + |bytes| <= a.Length
    modifies a
    ensures a[offset..offset + |bytes|] == bytes
    ensures forall i :: 0 <= i < a.Length && !(offset <= i < offset + |bytes|) ==> a[i] == old(a[i])
  {
    forall i | 0 <= i < |bytes| {
      a[offset + i] := bytes[i];
    }
  }

  /** Filling one stretch leaves a stretch apart from it as it was. */
  method FillApart(a: array<char>, offset: nat, bytes: seq<char>, ghost from: nat, ghost size: nat)
    requires offset + |bytes| <= a.Length && from + size <= a.Length
    requires offset + |bytes| <= from || from + size <= offset || size == 0
    modifies a
    ensures a[offset..offset + |bytes|] == bytes
    ensures a[from..from + size] == old(a[from..from + size])
  {
    Fill(a, offset, bytes);
  }

  /** The stretch of the storage a packet has, none if it has no slot. */
  ghost function Stretch(q: ResponsePacket): (nat, nat)
    reads q
  {
    if q.data.InSlot? then (q.data.offset, q.size) else (0, 0)
  }

  method FillPacket(p: ResponsePacket, bytes: seq<char>, ghost q: ResponsePacket)
    requires p.data.InSlot? && |bytes| == p.size && p.data.offset + p.size <= p.data.storage.Length
    requires q.data.InSlot? ==> q.data.storage == p.data.storage
    requires q.data.OnHeap? ==> q.data.buffer != p.data.storage
    requires var (from, size) := Stretch(q);
      && from + size <= p.data.storage.Length
      && (p.data.offset + p.size <= from || from + size <= p.data.offset || size == 0)
    modifies p.data.storage
    ensures p.Bytes() == bytes && q.Bytes() == old(q.Bytes())
  {
    FillApart(p.data.storage, p.data.offset, bytes, Stretch(q).0, Stretch(q).1);
  }

  class RespInlineArena {
    const freelist: array<nat>
    var storage: array<char>
    var slotSize: nat
    var freeCount: nat
    var capacity: nat                                     // the configured capacity
    ghost var free: seq<nat>                              // the free slots, last one taken first
    ghost var live: set<ResponsePacket>                   // packets not yet destroyed
    ghost var owner: map<nat, ResponsePacket>             // which packet each taken slot belongs to
    ghost var bufferOwner: map<array<char>, ResponsePacket>  // which packet each heap buffer belongs to

    /** The free list, the storage and the taken slots fit together. */
    ghost predicate SlotsOk()
      reads this, freelist
    {
      && freelist.Length == RESP_INLINE_SLOTS && freeCount == |free| <= RESP_INLINE_SLOTS
      && freelist[..freeCount] == free
      && 0 < slotSize && 0 < capacity && storage.Length == RESP_INLINE_SLOTS * slotSize
      && FreeSlots(free, owner.Keys)
      && storage !in bufferOwner
    }

    /** A packet that has a slot owns it, and its bytes are the slot's; a heap packet owns its buffer. */
    ghost predicate PacketOk(p: ResponsePacket)
      reads this, p
    {
      if p.inlineIndex != RESP_INLINE_INVALID then
        && p.inlineIndex in owner && owner[p.inlineIndex] == p
        && p.data == InSlot(storage, p.inlineIndex * slotSize) && p.size <= slotSize && p.owned == null
      else
        && !p.data.InSlot?
        && (p.owned != null ==>
              && p.data == OnHeap(p.owned) && p.size <= p.owned.Length
              && p.owned in bufferOwner && bufferOwner[p.owned] == p)
        && (p.owned == null ==> !p.data.OnHeap?)
    }

    ghost predicate PacketsOk()
      reads this, live
    {
      && (forall p :: p in live ==> PacketOk(p))
      && (forall k :: k in owner ==> owner[k] in live && owner[k].inlineIndex == k)
    }

    ghost predicate Valid()
      reads this, freelist, live
    {
      SlotsOk() && PacketsOk()
    }

    constructor (capacity: nat)
      ensures Valid() && live == {} && owner == map[] && fresh(storage) && fresh(freelist)
    {
      this.capacity := SanitizeCapacity(capacity);
      slotSize := SanitizeCapacity(capacity);
      storage := new char[SanitizeCapacity(capacity) * RESP_INLINE_SLOTS](_ => '\0');
      freelist := new nat[RESP_INLINE_SLOTS](i => RESP_INLINE_SLOTS - 1 - i);
      freeCount := RESP_INLINE_SLOTS;
      free := AllFree();
      live, owner, bufferOwner := {}, map[], map[];
    }

    /** Gives up the old storage for one of the configured slot size, with every slot free. */
    method ResetStorage()
      requires SlotsOk() && owner == map[]
      modifies this`storage, this`slotSize, this`freeCount, this`free, freelist
      ensures SlotsOk() && fresh(storage) && slotSize == capacity && free == AllFree()
    {
      slotSize := capacity;
      storage := new char[slotSize * RESP_INLINE_SLOTS](_ => '\0');
      freeCount := RESP_INLINE_SLOTS;
      free := AllFree();
      for i := 0 to RESP_INLINE_SLOTS
        modifies freelist
        invariant forall j :: 0 <= j < i ==> freelist[j] == RESP_INLINE_SLOTS - 1 - j
      {
        freelist[i] := RESP_INLINE_SLOTS - 1 - i;
      }
    }

    /** `setRespInlineCapacity`: takes effect the next time every slot is free. */
    method SetCapacity(value: nat)
      requires Valid()
      modifies this`capacity
      ensures Valid() && capacity == SanitizeCapacity(value)
    {
      capacity := SanitizeCapacity(value);
    }

    /** The storage is replaced exactly when no slot is owned and the configured capacity is another. */
    twostate predicate Renewed(freed: seq<nat>)
      reads this
    {
      if owner == map[] && capacity != old(slotSize) then
        fresh(storage) && slotSize == capacity && free == AllFree()
      else
        storage == old(storage) && slotSize == old(slotSize) && free == freed
    }

    /** `ensureCapacity`. */
    method EnsureCapacity()
      requires SlotsOk()
      modifies this`storage, this`slotSize, this`freeCount, this`free, freelist
      ensures SlotsOk() && Renewed(old(free))
    {
      NoneOwnedIff();
      if capacity != slotSize && freeCount == RESP_INLINE_SLOTS {
        assert owner.Keys == {};
        ResetStorage();
      }
    }

    lemma NoneOwnedIff()
      requires SlotsOk()
      ensures owner == map[] <==> freeCount == RESP_INLINE_SLOTS
    {
      assert owner == map[] <==> owner.Keys == {};
    }

    /** `release`: pushes a slot that is no longer owned, and resets the storage once every slot is free. */
    method Release(index: nat)
      requires SlotsOk() && index in owner
      modifies this`storage, this`slotSize, this`freeCount, this`free, this`owner, freelist
      ensures SlotsOk() && owner == old(owner) - {index} && Renewed(old(free) + [index])
    {
      hide AllFree, FreeSlots;
      PushFree(free, owner.Keys, index);
      freelist[freeCount] := index;
      freeCount := freeCount + 1;
      free := free + [index];
      owner := owner - {index};
      assert owner.Keys == old(owner.Keys) - {index};
      NoneOwnedIff();
      if freeCount == RESP_INLINE_SLOTS && capacity != slotSize {
        assert owner.Keys == {};
        ResetStorage();
      }
    }

    /** Pops the last free slot for `p`. */
    method PopSlot(ghost p: ResponsePacket) returns (index: nat)
      requires SlotsOk() && 0 < freeCount
      modifies this`freeCount, this`free, this`owner
      ensures SlotsOk()
      ensures index < RESP_INLINE_SLOTS && index !in old(owner) && owner == old(owner)[index := p]
      ensures old(free) == free + [index]
    {
      PopFree(free, owner.Keys);
      freeCount := freeCount - 1;
      index := freelist[freeCount];
      assert index == free[|free| - 1];
      free := free[..|free| - 1];
      owner := owner[index := p];
      assert owner.Keys == old(owner.Keys) + {index};
    }

    method NewPacket() returns (p: ResponsePacket)
      requires Valid()
      modifies this`live
      ensures Valid() && fresh(p) && live == old(live) + {p}
      ensures p.Bytes() == [] && p.inlineIndex == RESP_INLINE_INVALID
    {
      p := new ResponsePacket();
      live := live + {p};
    }

    method ClearSlot(p: ResponsePacket)
      requires Valid() && p in live && p.inlineIndex != RESP_INLINE_INVALID
      modifies this`storage, this`slotSize, this`freeCount, this`free, this`owner, freelist, p
      ensures Valid() && Empty(p)
      ensures owner == old(owner) - {old(p.inlineIndex)} && Renewed(old(free) + [old(p.inlineIndex)])
    {
      hide AllFree, FreeSlots;
      var index := p.inlineIndex;
      Release(index);
      p.inlineIndex, p.data, p.size := RESP_INLINE_INVALID, NoData, 0;
      forall q | q in live ensures PacketOk(q) {
        if q != p && q.inlineIndex != RESP_INLINE_INVALID {
          assert q.inlineIndex in owner;
        }
      }
    }

    ghost predicate Empty(p: ResponsePacket)
      reads p
    {
      p.inlineIndex == RESP_INLINE_INVALID && p.data == NoData && p.size == 0 && p.owned == null
    }

    /** No live packet other than `p` has a slot. */
    ghost predicate OthersHaveNoSlot(p: ResponsePacket)
      reads this, live
    {
      forall q :: q in live && q != p ==> q.inlineIndex == RESP_INLINE_INVALID
    }

    /** What every packet operation begins with: the packet gives back its slot or buffer and is empty. */
    method Clear(p: ResponsePacket)
      requires Valid() && p in live
      modifies this`storage, this`slotSize, this`freeCount, this`free, this`owner, freelist, p
      ensures Valid() && Empty(p)
      ensures owner == old(owner) - {old(p.inlineIndex)}
      ensures if old(p.inlineIndex) != RESP_INLINE_INVALID then Renewed(old(free) + [old(p.inlineIndex)])
              else storage == old(storage) && slotSize == old(slotSize) && free == old(free)
      ensures (storage == old(storage) && slotSize == old(slotSize)) || (fresh(storage) && owner == map[])
    {
      hide SlotsOk, PacketsOk;
      if p.inlineIndex != RESP_INLINE_INVALID {
        ClearSlot(p);
      } else {
        InvalidIsFree();
        assert owner == owner - {p.inlineIndex};
        ClearWithoutSlot(p);
      }
    }

    method ClearWithoutSlot(p: ResponsePacket)
      requires Valid() && p in live && p.inlineIndex == RESP_INLINE_INVALID
      modifies p
      ensures Valid() && Empty(p)
    {
      hide FreeSlots;
      p.owned, p.data, p.size := null, NoData, 0;
    }

    lemma InvalidIsFree()
      requires SlotsOk()
      ensures RESP_INLINE_INVALID !in owner
    {
    }

    /** `ensureCapacity`, seen with the packets: none of them has a slot when the storage is replaced. */
    method RefreshStorage()
      requires Valid()
      modifies this`storage, this`slotSize, this`freeCount, this`free, freelist
      ensures Valid() && Renewed(old(free))
    {
      EnsureCapacity();
      if storage != old(storage) {
        forall q | q in live ensures PacketOk(q) {
          assert q.inlineIndex !in owner;
        }
      }
    }

    /** The slot size and the free slots `acquire` works with, `owners` owning the others. */
    ghost function Slots(owners: map<nat, ResponsePacket>, size: nat, freed: seq<nat>): (nat, seq<nat>)
      reads this`capacity
    {
      if owners == map[] && capacity != size then (capacity, AllFree()) else (size, freed)
    }

    /** A slot was taken exactly when the bytes fit one and one was free: the last one given back, or the lowest. */
    ghost predicate Acquired(p: ResponsePacket, required: nat, ok: bool, size: nat, slots: seq<nat>)
      reads this, p
    {
      && slotSize == size && (ok <==> required <= size && slots != [])
      && (if ok then slots == free + [p.inlineIndex] else free == slots)
    }

    /** A slot given to an empty packet leaves everything else as it was. */
    twostate lemma SlotGiven(new p: ResponsePacket)
      requires p in old(live) && old(Empty(p)) && live == old(live)
      requires storage == old(storage) && slotSize == old(slotSize)
      requires bufferOwner == old(bufferOwner) && p.inlineIndex !in old(owner) && p.inlineIndex < RESP_INLINE_SLOTS
      requires owner == old(owner)[p.inlineIndex := p]
      requires p.data == InSlot(storage, p.inlineIndex * slotSize) && p.size <= slotSize && p.owned == null
      requires RESP_INLINE_INVALID !in old(owner) && forall q :: q in live && q != p ==> unchanged(q)
      requires SlotsOk() && old(Valid())
      ensures Valid()
    {
      hide FreeSlots;
      forall q | q in live && q != p ensures PacketOk(q) {
        assert old(PacketOk(q));
      }
    }

    /** Gives an empty packet the last free slot. */
    method OccupySlot(p: ResponsePacket, required: nat)
      requires Valid() && p in live && Empty(p) && 0 < freeCount && required <= slotSize
      modifies this`freeCount, this`free, this`owner, p
      ensures Valid() && p.data.InSlot? && p.size == required && p.inlineIndex !in old(owner)
      ensures old(free) == free + [p.inlineIndex]
    {
      hide SlotsOk, PacketsOk, PacketOk;
      InvalidIsFree();
      var index := PopSlot(p);
      p.inlineIndex, p.data, p.size := index, InSlot(storage, index * slotSize), required;
      SlotGiven(p);
    }


    /** `acquire`: gives an empty packet a slot, when one is free and large enough. */
    method PutSlot(p: ResponsePacket, required: nat) returns (ok: bool)
      requires Valid() && p in live && Empty(p)
      modifies this`storage, this`slotSize, this`freeCount, this`free, this`owner, freelist, p
      ensures Valid()
      ensures if ok then p.data.InSlot? && p.size == required else Empty(p)
      ensures storage == old(storage) || (fresh(storage) && old(owner) == map[])
      ensures var slots := Slots(old(owner), old(slotSize), old(free));
        Acquired(p, required, ok, slots.0, slots.1)
    {
      hide FreeSlots, PacketsOk, AllFree;
      RefreshStorage();
      ok := required <= slotSize && freeCount != 0;
      if ok {
        OccupySlot(p, required);
      }
    }

    method PutBuffer(p: ResponsePacket, buffer: array<char>, length: nat)
      requires Valid() && p in live && Empty(p) && length <= buffer.Length
      requires buffer != storage && buffer !in bufferOwner
      modifies this`bufferOwner, p
      ensures Valid() && p.Bytes() == buffer[..length] && p.inlineIndex == RESP_INLINE_INVALID
      ensures bufferOwner.Keys == old(bufferOwner.Keys) + {buffer}
    {
      hide FreeSlots;
      p.owned, p.data, p.size := buffer, OnHeap(buffer), length;
      bufferOwner := bufferOwner[buffer := p];
    }

    method PutStatic(p: ResponsePacket, bytes: string)
      requires Valid() && p in live && Empty(p)
      modifies p
      ensures Valid() && p.Bytes() == bytes && p.inlineIndex == RESP_INLINE_INVALID
    {
      p.data, p.size := Static(bytes), |bytes|;
    }

    /** `tryUseInline`: takes a slot for `required` bytes, when one is free and large enough. */
    method TryUseInline(p: ResponsePacket, required: nat) returns (ok: bool)
      requires Valid() && p in live
      modifies this`storage, this`slotSize, this`freeCount, this`free, this`owner, freelist, p
      ensures Valid()
      ensures if ok then p.data.InSlot? && p.size == required else Empty(p)
      ensures storage == old(storage) || (fresh(storage) && OthersHaveNoSlot(p))
      ensures var mine := old(p.inlineIndex);
        var slots := Slots(old(owner) - {mine}, old(slotSize),
                           old(free) + if mine == RESP_INLINE_INVALID then [] else [mine]);
        Acquired(p, required, ok, slots.0, slots.1)
    {
      hide SlotsOk, AllFree;
      Clear(p);
      ok := PutSlot(p, required);
    }

    /** `setOwnedBuffer`: the packet takes over a heap buffer that no other packet has. */
    method SetOwnedBuffer(p: ResponsePacket, buffer: array<char>, length: nat)
      requires Valid() && p in live && length <= buffer.Length
      requires buffer != storage && buffer !in bufferOwner
      modifies this`storage, this`slotSize, this`freeCount, this`free, this`owner, this`bufferOwner, freelist, p
      ensures Valid() && p.Bytes() == buffer[..length] && p.inlineIndex == RESP_INLINE_INVALID
      ensures bufferOwner.Keys == old(bufferOwner.Keys) + {buffer}
      ensures storage == old(storage) || (fresh(storage) && OthersHaveNoSlot(p))
    {
      Clear(p);
      PutBuffer(p, buffer, length);
    }

    /** `setStaticData`. */
    method SetStaticData(p: ResponsePacket, bytes: string)
      requires Valid() && p in live
      modifies this`storage, this`slotSize, this`freeCount, this`free, this`owner, freelist, p
      ensures Valid() && p.Bytes() == bytes && p.inlineIndex == RESP_INLINE_INVALID
      ensures storage == old(storage) || (fresh(storage) && OthersHaveNoSlot(p))
    {
      Clear(p);
      PutStatic(p, bytes);
    }

    method Destroy(p: ResponsePacket)
      requires Valid() && p in live
      modifies this`storage, this`slotSize, this`freeCount, this`free, this`owner, this`live, freelist, p
      ensures Valid() && live == old(live) - {p} && owner == old(owner - {p.inlineIndex})
      ensures storage == old(storage) || (fresh(storage) && OthersHaveNoSlot(p))
    {
      Clear(p);
      Forget(p);
    }

    method Forget(p: ResponsePacket)
      requires Valid() && p in live && Empty(p)
      modifies this`live
      ensures Valid() && live == old(live) - {p}
    {
      assert forall k :: k in owner ==> owner[k] != p;
      live := live - {p};
    }

    /** The move assignment: `p` takes over what `other` had, which is left empty. */
    method Assign(p: ResponsePacket, other: ResponsePacket)
      requires Valid() && p in live && other in live
      modifies this`storage, this`slotSize, this`freeCount, this`free, this`owner, this`bufferOwner, freelist, p, other
      ensures bufferOwner.Keys == old(bufferOwner.Keys)
      ensures Valid() && p.Bytes() == old(other.Bytes())
      ensures p != other ==> p.inlineIndex == old(other.inlineIndex)
      ensures p != other ==> other.data == NoData && other.inlineIndex == RESP_INLINE_INVALID
      ensures storage == old(storage) || (fresh(storage) && OthersHaveNoSlot(p))
    {
      hide SlotsOk, PacketsOk;
      if p != other {
        Replace(p, other);
        BytesMoved(p, other);
      }
    }

    method Replace(p: ResponsePacket, other: ResponsePacket)
      requires Valid() && p in live && other in live && p != other
      modifies this`storage, this`slotSize, this`freeCount, this`free, this`owner, this`bufferOwner, freelist, p, other
      ensures bufferOwner.Keys == old(bufferOwner.Keys)
      ensures Valid() && p.data == old(other.data) && p.size == old(other.size)
      ensures p.inlineIndex == old(other.inlineIndex)
      ensures other.data == NoData && other.inlineIndex == RESP_INLINE_INVALID
      ensures storage == old(storage) || (fresh(storage) && OthersHaveNoSlot(p))
    {
      hide AllFree, SlotsOk;
      Clear(p);
      assert storage == old(storage) || (fresh(storage) && OthersHaveNoSlot(p));
      Take(p, other);
    }

    /** What an empty packet takes over from another. */
    method Take(p: ResponsePacket, other: ResponsePacket)
      requires Valid() && p in live && other in live && p != other && Empty(p)
      modifies this`storage, this`slotSize, this`freeCount, this`free, this`owner, this`bufferOwner, freelist, p, other
      ensures bufferOwner.Keys == old(bufferOwner.Keys)
      ensures Valid() && p.data == old(other.data) && p.size == old(other.size)
      ensures p.inlineIndex == old(other.inlineIndex) && storage == old(storage)
      ensures other.data == NoData && other.inlineIndex == RESP_INLINE_INVALID
    {
      if other.inlineIndex != RESP_INLINE_INVALID {
        TakeSlot(p, other);
      } else if other.owned != null {
        TakeBuffer(p, other);
      } else {
        TakeStatic(p, other);
      }
    }

    /** `pointer`: the address of a taken slot; the storage cannot be replaced on the way. */
    method Pointer(index: nat) returns (data: Data)
      requires Valid() && index in owner
      modifies this`storage, this`slotSize, this`freeCount, this`free, freelist
      ensures Valid() && storage == old(storage) && slotSize == old(slotSize) && free == old(free)
      ensures data == InSlot(storage, index * slotSize)
    {
      EnsureCapacity();
      data := InSlot(storage, index * slotSize);
    }

    method TakeSlot(p: ResponsePacket, other: ResponsePacket)
      requires Valid() && p in live && other in live && p != other && Empty(p)
      requires other.inlineIndex != RESP_INLINE_INVALID
      modifies this`storage, this`slotSize, this`freeCount, this`free, this`owner, freelist, p, other
      ensures Valid() && p.data == old(other.data) && p.size == old(other.size)
      ensures p.inlineIndex == old(other.inlineIndex) && storage == old(storage)
      ensures other.data == NoData && other.inlineIndex == RESP_INLINE_INVALID
    {
      var data := Pointer(other.inlineIndex);
      ChangeHands(p, other, data);
    }

    /** Nothing but the owners, `p` and `other` was written to. */
    twostate predicate OnlyPackets(new p: ResponsePacket, new other: ResponsePacket)
      reads this, live, freelist
    {
      && live == old(live) && storage == old(storage) && slotSize == old(slotSize) && bufferOwner == old(bufferOwner)
      && free == old(free) && freeCount == old(freeCount) && capacity == old(capacity) && unchanged(freelist)
      && forall q :: q in live && q != p && q != other ==> unchanged(q)
    }

    /** A slot that changed hands leaves everything else as it was. */
    twostate lemma SlotMoved(new p: ResponsePacket, other: ResponsePacket)
      requires p in old(live) && other in old(live) && p != other && old(Valid()) && old(Empty(p))
      requires old(other.inlineIndex) != RESP_INLINE_INVALID && RESP_INLINE_INVALID !in old(owner)
      requires OnlyPackets(p, other) && owner == old(owner)[old(other.inlineIndex) := p]
      requires p.inlineIndex == old(other.inlineIndex) && p.data == old(other.data) && p.size == old(other.size)
      requires p.owned == null && Empty(other)
      ensures Valid()
    {
      hide FreeSlots;
      assert owner.Keys == old(owner.Keys);
      assert old(PacketOk(other));
      forall q | q in live && q != p && q != other ensures PacketOk(q) {
        assert old(PacketOk(q));
      }
    }

    /** Moving a slot: nothing is copied, the slot changes hands. */
    method ChangeHands(p: ResponsePacket, other: ResponsePacket, data: Data)
      requires Valid() && p in live && other in live && p != other && Empty(p)
      requires other.inlineIndex != RESP_INLINE_INVALID && data == other.data
      modifies this`owner, p, other
      ensures Valid() && p.data == data && p.size == old(other.size)
      ensures p.inlineIndex == old(other.inlineIndex)
      ensures other.data == NoData && other.inlineIndex == RESP_INLINE_INVALID
    {
      InvalidIsFree();
      assert PacketOk(other);
      hide SlotsOk, PacketsOk, PacketOk;
      p.inlineIndex, p.size, p.data := other.inlineIndex, other.size, data;
      owner := owner[p.inlineIndex := p];
      other.data, other.size, other.inlineIndex := NoData, 0, RESP_INLINE_INVALID;
      SlotMoved(p, other);
    }


    method TakeBuffer(p: ResponsePacket, other: ResponsePacket)
      requires Valid() && p in live && other in live && p != other && Empty(p)
      requires other.inlineIndex == RESP_INLINE_INVALID && other.owned != null
      modifies this`bufferOwner, p, other
      ensures bufferOwner.Keys == old(bufferOwner.Keys)
      ensures Valid() && p.data == old(other.data) && p.size == old(other.size)
      ensures p.inlineIndex == RESP_INLINE_INVALID
      ensures other.data == NoData && other.inlineIndex == RESP_INLINE_INVALID
    {
      hide FreeSlots;
      p.size, p.owned, p.data := other.size, other.owned, OnHeap(other.owned);
      bufferOwner := bufferOwner[p.owned := p];
      other.data, other.size, other.owned := NoData, 0, null;
      forall q | q in live ensures PacketOk(q) {
        if q != p && q != other {
          assert old(PacketOk(q));
        }
      }
    }

    /** Static bytes, or nothing. */
    method TakeStatic(p: ResponsePacket, other: ResponsePacket)
      requires Valid() && p in live && other in live && p != other && Empty(p)
      requires other.inlineIndex == RESP_INLINE_INVALID && other.owned == null
      modifies p, other
      ensures Valid() && p.data == old(other.data) && p.size == old(other.size)
      ensures p.inlineIndex == RESP_INLINE_INVALID
      ensures other.data == NoData && other.inlineIndex == RESP_INLINE_INVALID
    {
      p.size, p.data := other.size, other.data;
      other.data, other.size, other.owned := NoData, 0, null;
    }

    /** Where a slot's bytes lie in the storage; another slot's lie elsewhere. */
    lemma SlotWithin(p: ResponsePacket, q: ResponsePacket)
      requires Valid() && p in live && q in live && p.data.InSlot? && q.data.InSlot?
      ensures p.data.storage == storage == q.data.storage
      ensures p.data.offset + p.size <= storage.Length
      ensures p != q ==> p.data.offset + p.size <= q.data.offset || q.data.offset + q.size <= p.data.offset
    {
      assert PacketOk(p) && PacketOk(q);
      RegionsDisjoint(p.inlineIndex, p.size, q.inlineIndex, q.size, slotSize);
    }

    lemma StretchesApart(p: ResponsePacket, q: ResponsePacket)
      requires Valid() && p in live && q in live && p != q && p.data.InSlot?
      ensures var (from, size) := Stretch(q);
        && p.data.storage == storage && p.data.offset + p.size <= storage.Length && from + size <= storage.Length
        && (p.data.offset + p.size <= from || from + size <= p.data.offset || size == 0)
        && (q.data.InSlot? ==> q.data.storage == storage) && (q.data.OnHeap? ==> q.data.buffer != storage)
    {
      SlotWithin(p, p);
      assert PacketOk(q);
      OwnMemory(q);
      if q.data.InSlot? {
        SlotWithin(p, q);
        SlotWithin(q, q);
      }
    }

    /** An encoder filling the slot it was given; any other live packet `q` still shows the same bytes. */
    method WriteSlot(p: ResponsePacket, bytes: seq<char>, ghost q: ResponsePacket)
      requires Valid() && p in live && p.data.InSlot? && |bytes| == p.size && q in live && q != p
      modifies storage
      ensures Valid() && p.Bytes() == bytes && q.Bytes() == old(q.Bytes())
    {
      StretchesApart(p, q);
      FillPacket(p, bytes, q);
    }

    /** An encoder filling the heap buffer it fell back to. */
    method WriteBuffer(p: ResponsePacket, bytes: seq<char>, ghost q: ResponsePacket)
      requires Valid() && p in live && p.data.OnHeap? && |bytes| == p.size && q in live && q != p
      modifies p.data.buffer
      ensures Valid() && p.Bytes() == bytes && q.Bytes() == old(q.Bytes())
    {
      Fill(p.data.buffer, 0, bytes);
    }

    // ---------- Runs ----------

    /** Another packet's step left `q` alone, and replaced the storage only if `q` has no slot in it. */
    twostate predicate Undisturbed(q: ResponsePacket)
      reads this, q, q.Memory()
    {
      && q in live && q.Bytes() == old(q.Bytes()) && q.inlineIndex == old(q.inlineIndex)
      && (storage == old(storage) || (fresh(storage) && q.inlineIndex == RESP_INLINE_INVALID))
    }

    method UseInlineBeside(p: ResponsePacket, required: nat, ghost q: ResponsePacket) returns (ok: bool)
      requires Valid() && p in live && q in live && q != p
      modifies this`storage, this`slotSize, this`freeCount, this`free, this`owner, freelist, p
      ensures Valid() && Undisturbed(q)
    {
      hide SlotsOk;
      OwnMemory(q);
      ok := TryUseInline(p, required);
      BytesMoved(q, q);
    }

    method OwnBufferBeside(p: ResponsePacket, buffer: array<char>, length: nat, ghost q: ResponsePacket)
      requires Valid() && p in live && q in live && q != p && length <= buffer.Length
      requires buffer != storage && buffer !in bufferOwner
      modifies this`storage, this`slotSize, this`freeCount, this`free, this`owner, this`bufferOwner, freelist, p
      ensures Valid() && Undisturbed(q) && bufferOwner.Keys == old(bufferOwner.Keys) + {buffer}
    {
      hide SlotsOk;
      OwnMemory(q);
      SetOwnedBuffer(p, buffer, length);
      BytesMoved(q, q);
    }

    method StaticBeside(p: ResponsePacket, bytes: string, ghost q: ResponsePacket)
      requires Valid() && p in live && q in live && q != p
      modifies this`storage, this`slotSize, this`freeCount, this`free, this`owner, freelist, p
      ensures Valid() && Undisturbed(q)
    {
      hide SlotsOk;
      OwnMemory(q);
      SetStaticData(p, bytes);
      BytesMoved(q, q);
    }

    method AssignBeside(p: ResponsePacket, other: ResponsePacket, ghost q: ResponsePacket)
      requires Valid() && p in live && other in live && q in live && q != p && q != other
      modifies this`storage, this`slotSize, this`freeCount, this`free, this`owner, this`bufferOwner, freelist, p, other
      ensures Valid() && Undisturbed(q) && bufferOwner.Keys == old(bufferOwner.Keys)
    {
      hide SlotsOk;
      OwnMemory(q);
      Assign(p, other);
      BytesMoved(q, q);
    }

    method DestroyBeside(p: ResponsePacket, ghost q: ResponsePacket)
      requires Valid() && p in live && q in live && q != p
      modifies this`storage, this`slotSize, this`freeCount, this`free, this`owner, this`live, freelist, p
      ensures Valid() && Undisturbed(q) && live == old(live) - {p}
    {
      hide SlotsOk;
      OwnMemory(q);
      Destroy(p);
      BytesMoved(q, q);
    }

    /** `packets` are live and distinct, and `q` is a live packet beside them. */
    ghost predicate Beside(packets: seq<ResponsePacket>, q: ResponsePacket)
      reads this
    {
      && q in live && q !in packets
      && (forall i :: 0 <= i < |packets| ==> packets[i] in live)
      && (forall i, j :: 0 <= i < j < |packets| ==> packets[i] != packets[j])
    }

    /** All that steps on the packets may write to. */
    ghost function Footprint(packets: seq<ResponsePacket>): set<object>
      reads this
    {
      {this, freelist, storage} + (set p | p in packets :: p as object) + (set b | b in bufferOwner.Keys :: b as object)
    }

    /** Every buffer a packet owns was owned before or is new. */
    twostate predicate BuffersKept()
      reads this
    {
      forall b :: b in bufferOwner.Keys ==> b in old(bufferOwner.Keys) || fresh(b)
    }

    /** An encoder filling whatever memory of the right size the packet has; anything else is left alone. */
    method WriteBeside(p: ResponsePacket, bytes: seq<char>, ghost q: ResponsePacket)
      requires Valid() && p in live && q in live && q != p
      modifies storage, p.Memory()
      ensures Valid() && q.Bytes() == old(q.Bytes())
    {
      if |bytes| == p.size {
        if p.data.InSlot? {
          assert PacketOk(p);
          WriteSlot(p, bytes, q);
        } else if p.data.OnHeap? {
          assert PacketOk(p);
          WriteBuffer(p, bytes, q);
        }
      }
    }

    /** A packet's memory is the storage or a buffer it owns. */
    lemma OwnMemory(p: ResponsePacket)
      requires PacketOk(p)
      ensures p.data.InSlot? ==> p.data.storage == storage
      ensures p.data.OnHeap? ==> p.data.buffer in bufferOwner.Keys
    {
    }

    lemma InFootprint(packets: seq<ResponsePacket>, i: nat)
      requires Valid() && i < |packets| && packets[i] in live
      ensures (packets[i] as object) in Footprint(packets) && packets[i].Memory() <= Footprint(packets)
    {
      var p := packets[i];
      assert p in packets;
      OwnMemory(p);
      match p.data
      case InSlot(_, _) =>
        assert p.Memory() == {storage};
      case OnHeap(buffer) =>
        assert p.Memory() == {buffer};
        assert (buffer as object) in Footprint(packets);
      case _ =>
        assert p.Memory() == {};
    }

    method OwnNewBuffer(p: ResponsePacket, length: nat, ghost q: ResponsePacket)
      requires Valid() && p in live && q in live && q != p
      modifies this`storage, this`slotSize, this`freeCount, this`free, this`owner, this`bufferOwner, freelist, p
      ensures Valid() && Undisturbed(q) && BuffersKept()
    {
      hide SlotsOk, PacketsOk;
      var buffer := new char[length];
      OwnBufferBeside(p, buffer, length, q);
    }

    method MoveWithin(packets: seq<ResponsePacket>, i: nat, j: nat, ghost q: ResponsePacket)
      requires Valid() && Beside(packets, q) && i < |packets| && j < |packets|
      modifies Footprint(packets)
      ensures Valid() && Beside(packets, q) && Undisturbed(q) && BuffersKept()
    {
      InFootprint(packets, i);
      InFootprint(packets, j);
      AssignBeside(packets[i], packets[j], q);
    }

    /** A step on one packet that neither creates nor destroys any. */
    method ActOn(packets: seq<ResponsePacket>, a: Action, ghost q: ResponsePacket)
      requires Valid() && Beside(packets, q) && !a.Create? && !a.Destruct? && !a.Configure? && a.i < |packets|
      modifies Footprint(packets)
      ensures Valid() && Beside(packets, q) && Undisturbed(q) && BuffersKept()
    {
      hide SlotsOk, PacketsOk;
      InFootprint(packets, a.i);
      match a {
        case UseInline(i, required) => var _ := UseInlineBeside(packets[i], required, q);
        case OwnBuffer(i, length) => OwnNewBuffer(packets[i], length, q);
        case StaticData(i, bytes) => StaticBeside(packets[i], bytes, q);
        case Write(i, bytes) => WriteBeside(packets[i], bytes, q);
        case MoveFrom(i, j) =>
          if j < |packets| {
            MoveWithin(packets, i, j, q);
          }
      }
    }

    method Discard(packets: seq<ResponsePacket>, i: nat, ghost q: ResponsePacket) returns (after: seq<ResponsePacket>)
      requires Valid() && Beside(packets, q) && i < |packets|
      modifies Footprint(packets)
      ensures Valid() && Beside(after, q) && Undisturbed(q) && BuffersKept()
      ensures forall p :: p in after ==> p in packets
    {
      hide SlotsOk, PacketsOk;
      InFootprint(packets, i);
      DestroyBeside(packets[i], q);
      after := packets[..i] + packets[i + 1..];
      WithoutIndex(packets, i, after);
    }

    method Act(packets: seq<ResponsePacket>, a: Action, ghost q: ResponsePacket) returns (after: seq<ResponsePacket>)
      requires Valid() && Beside(packets, q)
      modifies Footprint(packets)
      ensures Valid() && Beside(after, q) && Undisturbed(q)
      ensures forall o :: o in Footprint(after) ==> o in old(Footprint(packets)) || fresh(o)
    {
      hide SlotsOk, PacketsOk;
      after := packets;
      if a.Create? {
        var p := NewPacket();
        after := packets + [p];
      } else if a.Destruct? {
        if a.i < |packets| {
          after := Discard(packets, a.i, q);
        }
      } else if a.Configure? {
        SetCapacity(a.value);
      } else if a.i < |packets| {
        ActOn(packets, a, q);
      }
    }

    /**
      However packets are created, filled, moved, reassigned and destroyed and the capacity is set, `q` beside
      them shows the same bytes in the same slot, and the arena stays valid.
     */
    method RunActions(packets: seq<ResponsePacket>, actions: seq<Action>, ghost q: ResponsePacket)
      returns (after: seq<ResponsePacket>)
      requires Valid() && Beside(packets, q)
      modifies Footprint(packets)
      ensures Valid() && Beside(after, q) && Undisturbed(q)
    {
      after := packets;
      for n := 0 to |actions|
        invariant Valid() && Beside(after, q) && Undisturbed(q)
        invariant forall o :: o in Footprint(after) ==> o in old(Footprint(packets)) || fresh(o)
      {
        after := Act(after, actions[n], q);
      }
    }
  }

  lemma WithoutIndex<T>(s: seq<T>, i: nat, t: seq<T>)
    requires i < |s| && t == s[..i] + s[i + 1..] && forall j, k :: 0 <= j < k < |s| ==> s[j] != s[k]
    ensures s[i] !in t && (forall x :: x in t ==> x in s) && forall j, k :: 0 <= j < k < |t| ==> t[j] != t[k]
  {
    assert forall j :: 0 <= j < |t| ==> t[j] == s[if j < i then j else j + 1];
  }

  /** A packet that took over another's data shows the other's bytes while their memory is not written. */
  twostate lemma BytesMoved(new p: ResponsePacket, other: ResponsePacket)
    requires p.data == old(other.data) && p.size == old(other.size)
    requires forall m: object :: m in old(other.Memory()) ==> unchanged(m)
    ensures p.Bytes() == old(other.Bytes())
  {
    match p.data
    case InSlot(storage, offset) =>
      assert storage in old(other.Memory());
      assert storage[..] == old(storage[..]);
      assert offset + p.size <= storage.Length ==>
        storage[offset..offset + p.size] == storage[..][offset..offset + p.size];
    case OnHeap(buffer) =>
      assert buffer in old(other.Memory());
      assert buffer[..] == old(buffer[..]);
      assert p.size <= buffer.Length ==> buffer[..p.size] == buffer[..][..p.size];
    case _ =>
  }

  datatype Action =
    | Create
    | UseInline(i: nat, required: nat)
    | OwnBuffer(i: nat, length: nat)
    | StaticData(i: nat, bytes: string)
    | Write(i: nat, bytes: seq<char>)
    | MoveFrom(i: nat, j: nat)
    | Destruct(i: nat)
    | Configure(value: nat)
}
