/** The object pool: slots carved out of slabs that double in size, kept on a free list and a used list. */
module ObjectPool {
  import opened BackIndex

  const SIZE_MAX := 0xFFFF_FFFF_FFFF_FFFF
  const UINT := 0x1_0000_0000

  /** The address of a slot: its slab and its place in it. */
  datatype Slot = Slot(slab: nat, index: nat)

  datatype Tag = IsFree | IsUsed

  /** The header of a slot: its tag, and whether the pool is entered as its owner. */
  datatype Node = Node(tag: Tag, owned: bool)

  const FREE := Node(IsFree, false)
  const USED := Node(IsUsed, true)

  datatype Allocation = Allocated(slot: Slot) | NoMemory

  // ---- what the pool promises ----------------------------------------------------------------

  function Sum(sizes: seq<nat>): nat {
    if sizes == [] then 0 else Sum(sizes[..|sizes| - 1]) + sizes[|sizes| - 1]
  }

  /** The size of slab `k`: twice the one before while that is below the maximum. */
  function SizeAt(first: nat, max: nat, k: nat): nat {
    if k == 0 then first else Grown(SizeAt(first, max, k - 1), max)
  }

  function Grown(size: nat, max: nat): nat {
    if size < max then 2 * size else size
  }

  function Pow2(k: nat): (p: nat)
    ensures p >= 1
  {
    if k == 0 then 1 else 2 * Pow2(k - 1)
  }

  /** Slab sizes are powers of two times the first: doubled `k` times, or until the maximum was reached. */
  lemma {:induction false} SizeIsPower(first: nat, max: nat, k: nat) returns (j: nat)
    ensures j <= k && SizeAt(first, max, k) == first * Pow2(j)
    ensures j < k ==> first * Pow2(j) >= max
    ensures j > 0 ==> first * Pow2(j - 1) < max
  {
    if k == 0 {
      j := 0;
    } else {
      j := SizeIsPower(first, max, k - 1);
      if SizeAt(first, max, k - 1) < max {
        Doubles(first, Pow2(j));
        j := j + 1;
      }
    }
  }

  lemma Doubles(x: nat, y: nat)
    ensures x * (2 * y) == 2 * (x * y)
  {
  }

  ghost predicate Doubling(slabs: seq<nat>, first: nat, max: nat) {
    forall k :: 0 <= k < |slabs| ==> slabs[k] == SizeAt(first, max, k)
  }

  /** The sizes that slabs record, in 32 bits, are those of the doubling sequence. */
  ghost predicate Recorded(slabs: seq<nat>, first: nat, max: nat) {
    forall k :: 0 <= k < |slabs| ==> slabs[k] == SizeAt(first, max, k) < UINT
  }

  lemma OneMoreRecorded(slabs: seq<nat>, first: nat, max: nat, size: nat)
    ensures Recorded(slabs + [size], first, max)
       <==> Recorded(slabs, first, max) && size == SizeAt(first, max, |slabs|) < UINT
  {
    var all := slabs + [size];
    assert all[|slabs|] == size && forall k :: 0 <= k < |slabs| ==> all[k] == slabs[k];
  }

  ghost predicate InSlabs(slabs: seq<nat>, s: Slot) {
    s.slab < |slabs| && s.index < slabs[s.slab]
  }

  /** Each slot of each slab is on exactly one of the two lists, once, with the tag to match. */
  ghost predicate Sorted(slabs: seq<nat>, nodes: map<Slot, Node>, free: seq<Slot>, used: seq<Slot>) {
    && Distinct(free) && Distinct(used)
    && (forall s :: s in nodes <==> InSlabs(slabs, s))
    && (forall s :: s in free <==> s in nodes && nodes[s] == FREE)
    && (forall s :: s in used <==> s in nodes && nodes[s] == USED)
    && (forall s :: s in nodes ==> nodes[s] == FREE || nodes[s] == USED)
  }

  /** The first free slot becomes used. */
  lemma TakeSorted(slabs: seq<nat>, nodes: map<Slot, Node>, free: seq<Slot>, used: seq<Slot>)
    requires Sorted(slabs, nodes, free, used) && free != []
    ensures Sorted(slabs, nodes[free[0] := USED], free[1..], used + [free[0]]) && free[0] !in used
  {
    var slot, rest := free[0], free[1..];
    assert free == [slot] + rest && nodes[slot] == FREE;
    assert slot !in rest;
    assert forall s :: s in used + [slot] <==> s == slot || s in used;
  }

  /** A used slot becomes free. */
  lemma GiveSorted(slabs: seq<nat>, nodes: map<Slot, Node>, free: seq<Slot>, used: seq<Slot>, slot: Slot)
    requires Sorted(slabs, nodes, free, used) && slot in used
    ensures Sorted(slabs, nodes[slot := FREE], free + [slot], Without(used, slot)) && IsRemoval(used, slot, Without(used, slot))
  {
    WithoutIsRemoval(used, slot);
    assert forall s :: s in free + [slot] <==> s == slot || s in free;
  }

  /** The slots of slab `k`, below `n`. */
  ghost predicate Fresh(free: seq<Slot>, k: nat, n: nat) {
    Distinct(free) && |free| == n && forall s :: s in free <==> s.slab == k && s.index < n
  }

  /** A new slab of free slots. */
  lemma GrowSorted(slabs: seq<nat>, nodes: map<Slot, Node>, used: seq<Slot>, size: nat, free: seq<Slot>, grown: map<Slot, Node>)
    requires Sorted(slabs, nodes, [], used) && Fresh(free, |slabs|, size)
    requires forall s :: s in grown <==> s in nodes || s in free
    requires forall s :: s in free ==> grown[s] == FREE
    requires forall s :: s in nodes ==> grown[s] == nodes[s]
    ensures Sorted(slabs + [size], grown, free, used)
  {
    forall s ensures s in grown <==> InSlabs(slabs + [size], s) {
      assert s in nodes <==> InSlabs(slabs, s);
    }
  }

  /** The slots of a new slab, one after the other. */
  method Carve(k: nat, size: nat, nodes: map<Slot, Node>) returns (list: seq<Slot>, headers: map<Slot, Node>)
    requires forall s :: s in nodes ==> s.slab < k
    ensures Fresh(list, k, size) && forall s :: s in headers <==> s in nodes || s in list
    ensures forall s :: s in list ==> headers[s] == FREE && s !in nodes
    ensures forall s :: s in nodes ==> headers[s] == nodes[s]
  {
    list, headers := [], nodes;
    for i := 0 to size
      invariant Fresh(list, k, i)
      invariant forall s :: s in headers <==> s in nodes || s in list
      invariant forall s :: s in list ==> headers[s] == FREE && s !in nodes
      invariant forall s :: s in nodes ==> headers[s] == nodes[s]
    {
      headers := headers[Slot(k, i) := FREE];
      list := list + [Slot(k, i)];
    }
  }

  lemma AllSeen(used: seq<Slot>, seen: set<Slot>)
    requires Distinct(used) && forall s :: s in seen <==> s in used
    ensures |seen| == |used|
  {
    DistinctCount(used);
    assert seen == set s | s in used;
  }

  class ObjectPool {
    const first: nat
    const max: nat
    const nodeSize: nat
    var next: nat
    var slabs: seq<nat>
    var nodes: map<Slot, Node>
    var free: seq<Slot>
    var used: seq<Slot>
    var capacity: nat
    var avail: nat

    ghost predicate Valid()
      reads this
    {
      && 0 < first <= max && nodeSize >= 2 && next > 0
      && Sorted(slabs, nodes, free, used)
      && capacity == Sum(slabs) && avail == |free| && avail + |used| == capacity
    }

    /** The slabs double up to the maximum, and so will the next one. */
    ghost predicate Doubles()
      reads this
    {
      Doubling(slabs, first, max) && next == SizeAt(first, max, |slabs|)
    }

    constructor (firstBucket: nat, maxBucket: nat, nodeSize: nat)
      requires 0 < firstBucket && (maxBucket == 0 ==> firstBucket <= SIZE_MAX) && (maxBucket > 0 ==> firstBucket <= maxBucket)
      requires nodeSize >= 2
      ensures Valid() && Doubles() && slabs == [] && first == firstBucket && max == if maxBucket > 0 then maxBucket else SIZE_MAX
    {
      first, max := firstBucket, if maxBucket > 0 then maxBucket else SIZE_MAX;
      this.nodeSize := nodeSize;
      next, slabs, nodes, free, used := firstBucket, [], map[], [], [];
      capacity, avail := 0, 0;
    }

    /** A new slab, all of its slots free; the next one is to be twice as large. */
    method Grow()
      requires Valid() && free == []
      modifies this`next, this`slabs, this`nodes, this`free, this`capacity, this`avail
      ensures Valid() && slabs == old(slabs) + [old(next)] && |free| == old(next)
      ensures old(Doubles()) ==> Doubles()
      ensures forall s :: s in free ==> s !in old(nodes)
    {
      var size := next;
      var list, headers := Carve(|slabs|, size, nodes);
      GrowSorted(slabs, nodes, used, size, list, headers);
      assert (slabs + [size])[..|slabs|] == slabs;
      slabs, nodes, free := slabs + [size], headers, list;
      capacity := capacity + size;
      avail := avail + size;
      if next < max {
        next := 2 * next;
      }
    }

    /** A slot that was free, from a new slab when none is left; `memory` tells whether the system has it. */
    method Malloc(memory: bool) returns (r: Allocation)
      requires Valid()
      modifies this`next, this`slabs, this`nodes, this`free, this`used, this`capacity, this`avail
      ensures Valid() && (old(Doubles()) ==> Doubles())
      ensures r.NoMemory? <==> old(free) == [] && !(memory && (1 + old(next)) * nodeSize <= SIZE_MAX)
      ensures r.NoMemory? ==> slabs == old(slabs) && nodes == old(nodes) && free == old(free) && used == old(used)
      ensures r.Allocated? ==> r.slot !in old(used) && used == old(used) + [r.slot]
      ensures slabs == if r.Allocated? && old(free) == [] then old(slabs) + [old(next)] else old(slabs)
      ensures r.Allocated? && old(free) != [] ==> [r.slot] + free == old(free)
    {
      if free == [] {
        if !memory || (1 + next) * nodeSize > SIZE_MAX {
          return NoMemory;
        }
        assert avail == 0;
        Grow();
      }
      var slot := free[0];
      assert nodes[slot].tag == IsFree && !nodes[slot].owned && avail > 0;
      TakeSorted(slabs, nodes, free, used);
      free := free[1..];
      used := used + [slot];
      nodes := nodes[slot := USED];
      avail := avail - 1;
      r := Allocated(slot);
    }

    /** A used slot goes to the end of the free list. */
    method Free(slot: Slot)
      requires Valid() && slot in used
      modifies this`nodes, this`free, this`used, this`avail
      ensures Valid() && (old(Doubles()) ==> Doubles()) && free == old(free) + [slot] && used == Without(old(used), slot)
    {
      GiveSorted(slabs, nodes, free, used, slot);
      assert nodes[slot].tag == IsUsed && nodes[slot].owned && avail < capacity;
      nodes := nodes[slot := FREE];
      used := Without(used, slot);
      free := free + [slot];
      avail := avail + 1;
    }

    /** `construct`: when the element's constructor throws, the slot is given back. */
    method Construct(memory: bool, throws: bool) returns (r: Allocation)
      requires Valid()
      modifies this`next, this`slabs, this`nodes, this`free, this`used, this`capacity, this`avail
      ensures Valid() && (old(Doubles()) ==> Doubles())
      ensures r.Allocated? ==> !throws && r.slot !in old(used) && used == old(used) + [r.slot]
      ensures r.NoMemory? ==> used == old(used)
      ensures r.NoMemory? <==> throws || (old(free) == [] && !(memory && (1 + old(next)) * nodeSize <= SIZE_MAX))
    {
      r := Malloc(memory);
      if r.Allocated? && throws {
        ghost var was := old(used);
        AppendThenWithout(was, r.slot);
        Free(r.slot);
        assert used == was;
        r := NoMemory;
      }
    }

    /** `destroy`: only an element in use is given back. */
    method Destroy(slot: Slot)
      requires Valid() && slot in nodes
      modifies this`nodes, this`free, this`used, this`avail
      ensures Valid() && (old(Doubles()) ==> Doubles())
      ensures slot in old(used) ==> free == old(free) + [slot] && used == Without(old(used), slot)
      ensures slot !in used
      ensures slot !in old(used) ==> free == old(free) && used == old(used) && nodes == old(nodes)
    {
      if nodes[slot].tag == IsUsed && nodes[slot].owned {
        WithoutIsRemoval(used, slot);
        Free(slot);
      }
    }

    /** `set_next_size`: the size of the next slab, which may leave the doubling sequence. */
    method SetNextSize(size: nat)
      requires Valid() && 0 < size < SIZE_MAX
      modifies this`next
      ensures Valid() && next == size
    {
      next := size;
    }

    /** The first `bucket` slots of one slab: each carries one of the two tags, and those in use their
        owner. */
    method CheckSlab(k: nat, bucket: nat) returns (inUse: nat, ghost seen: set<Slot>)
      requires Valid() && k < |slabs| && bucket <= slabs[k]
      ensures inUse == |seen| && forall s :: s in seen <==> s in used && s.slab == k && s.index < bucket
    {
      inUse, seen := 0, {};
      for i := 0 to bucket
        invariant inUse == |seen| && forall s :: s in seen <==> s in used && s.slab == k && s.index < i
      {
        var node := nodes[Slot(k, i)];
        assert node.tag == IsUsed || node.tag == IsFree;
        if node.tag == IsUsed {
          assert node.owned;
          inUse := inUse + 1;
          seen := seen + {Slot(k, i)};
        }
      }
    }

    /** `check`, and whether its assertions hold: those about tags, owners and the number in use always do,
        those about sizes exactly when every slab has the size of the doubling sequence and 32 bits are
        enough to record it.  The size of the next slab does not matter. */
    method Check() returns (ok: bool, total: nat, inUse: nat)
      requires Valid()
      ensures ok <==> Recorded(slabs, first, max)
      ensures ok ==> total == capacity && inUse == |used|
    {
      var bucket := first;
      ghost var seen: set<Slot> := {};
      total, inUse := 0, 0;
      for k := 0 to |slabs|
        invariant total <= Sum(slabs[..k]) && bucket == SizeAt(first, max, k)
        invariant total == Sum(slabs[..k]) <==> Recorded(slabs[..k], first, max)
        invariant inUse == |seen| && forall s :: s in seen ==> s in used && s.slab < k
        invariant Recorded(slabs[..k], first, max) ==> forall s :: s in used && s.slab < k ==> s in seen
      {
        assert slabs[..k + 1][..k] == slabs[..k] && slabs[..k + 1] == slabs[..k] + [slabs[k]];
        OneMoreRecorded(slabs[..k], first, max, slabs[k]);
        if bucket != slabs[k] % UINT {
          NotRecorded(slabs, first, max, k);
          return false, total, inUse;
        }
        var n; ghost var more;
        n, more := CheckSlab(k, bucket);
        assert seen !! more;
        total, inUse, seen := total + bucket, inUse + n, seen + more;
        if bucket < max {
          bucket := 2 * bucket;
        }
      }
      assert slabs[..|slabs|] == slabs;
      ok := total == capacity;
      if ok {
        AllSeen(used, seen);
        assert inUse == total - avail;
      }
    }

    /** When a slab more is made after `set_next_size`, the check holds after it exactly if it held before and
        that size was the one the check works out; until then nothing shows. */
    method GrowAsTold(size: nat) returns (before: bool, told: bool, after: bool)
      requires Valid() && 0 < size < SIZE_MAX && free == []
      modifies this`next, this`slabs, this`nodes, this`free, this`capacity, this`avail
      ensures Valid() && told == before
      ensures after <==> before && size == SizeAt(first, max, |old(slabs)|) < UINT
    {
      var total, inUse;
      before, total, inUse := Check();
      SetNextSize(size);
      told, total, inUse := Check();
      OneMoreRecorded(slabs, first, max, size);
      Grow();
      after, total, inUse := Check();
    }
  }

  lemma NotRecorded(slabs: seq<nat>, first: nat, max: nat, k: nat)
    requires k < |slabs| && SizeAt(first, max, k) != slabs[k] % UINT
    ensures !Recorded(slabs, first, max)
  {
  }
}
