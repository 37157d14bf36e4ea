/**
 * The reference table of GarbageCollector/refs.c as an object: the table of
 * value addresses, the two halves of the memory pool, and the values the
 * allocator has handed out. Each operation is proved against the functions
 * of RefSpec.
 */
module Refs {
  import opened Memory
  import opened RefSpec

  /** make_ref's size rounded up to a multiple of ALIGNMENT. */
  function RoundUp(size: nat): (r: nat)
    ensures r % ALIGNMENT == 0 && size <= r < size + ALIGNMENT
  {
    (size + 7) / 8 * 8
  }

  class RefTable {
    /** INITIAL_SIZE: the capacity the table gets when it first grows. */
    const initialSize: nat
    /** Half the memory pool, rounded down to a multiple of ALIGNMENT. */
    const poolSize: nat
    var fromSpace: nat
    var toSpace: nat
    /** ref_table[0 .. num_refs - 1]; NULL marks an unused reference. */
    var table: seq<Ptr>
    /** max_refs: the capacity of ref_table. */
    var maxRefs: nat
    /** The values the allocator has handed out, by address. */
    var store: map<nat, Value>
    /** The space the allocator currently serves and its next free address. */
    var pool: nat
    var top: nat

    function State(): Heap
      reads this
    {
      Heap(table, store, pool, poolSize, top)
    }

    /**
     * Between calls: the table is tracked, the allocator serves the from
     * space, the spaces are the two adjacent halves, every used reference
     * names a value in the from space, and the table fits its capacity.
     */
    ghost predicate Valid()
      reads this
    {
      Tracked(State()) && pool == fromSpace && initialSize > 0 && |table| <= maxRefs &&
      (toSpace == fromSpace + poolSize || fromSpace == toSpace + poolSize) &&
      forall i | 0 <= i < |table| :: table[i] == Null || InPool(State(), table[i])
    }

    /**
     * init_refs(memory_size, memory_pool): the from space is the first half
     * of the pool, the to space the second, and the table is empty.
     */
    constructor (memorySize: nat, memoryPool: nat, initialSize: nat)
      requires initialSize > 0
      ensures Valid() && this.initialSize == initialSize
      ensures poolSize == memorySize / 2 / ALIGNMENT * ALIGNMENT
      ensures fromSpace == memoryPool && toSpace == memoryPool + poolSize
      ensures table == [] && maxRefs == 0 && store == map[] && pool == memoryPool && top == memoryPool
    {
      this.initialSize := initialSize;
      poolSize := memorySize / 2 / ALIGNMENT * ALIGNMENT;
      pool, top := memoryPool, memoryPool;
      fromSpace := memoryPool;
      toSpace := memoryPool + memorySize / 2 / ALIGNMENT * ALIGNMENT;
      table, maxRefs, store := [], 0, map[];
    }

    /**
     * mm_malloc of the allocator refs.c relies on, as a bump allocator over
     * the space it currently serves: NULL when the space has no room left.
     */
    method PoolMalloc(size: nat) returns (p: Ptr)
      modifies this`top
      ensures old(top) + Footprint(size) <= pool + poolSize ==> p == Addr(old(top)) && top == old(top) + Footprint(size)
      ensures old(top) + Footprint(size) > pool + poolSize ==> p == Null && top == old(top)
    {
      if top + Footprint(size) <= pool + poolSize {
        p := Addr(top);
        top := top + Footprint(size);
      } else {
        p := Null;
      }
    }

    /**
     * assign_reference: the first unused slot takes p; if there is none, p
     * goes in a new slot at the end, and a full table doubles its capacity
     * first (or takes INITIAL_SIZE when it had none).
     */
    method AssignReference(p: Ptr) returns (r: int)
      requires |table| <= maxRefs && initialSize > 0
      modifies this`table, this`maxRefs
      ensures r == FirstNull(old(table)) && table == Assigned(old(table), p)
      ensures maxRefs == if r == |old(table)| == old(maxRefs) then
        (if old(maxRefs) == 0 then initialSize else 2 * old(maxRefs)) else old(maxRefs)
      ensures |table| <= maxRefs
    {
      var i := 0;
      while i < |table|
        invariant 0 <= i <= |table| && forall j | 0 <= j < i :: table[j] != Null
      {
        if table[i] == Null {
          table := table[i := p];
          return i;
        }
        i := i + 1;
      }
      if |table| == maxRefs {
        maxRefs := if maxRefs == 0 then initialSize else maxRefs * 2;
      }
      r := |table|;
      table := table + [p];
    }

    /**
     * make_ref(type, size): a value of the rounded-up size with a count of
     * one, under the slot assign_reference picks; NULL_REF, and nothing
     * changed, when the pool has no room.
     */
    method MakeRef(vtype: ValueType, size: nat) returns (r: int)
      requires Valid()
      modifies this
      ensures Valid() && fromSpace == old(fromSpace) && toSpace == old(toSpace) && pool == old(pool)
      ensures r == NULL_REF <==> old(top) + Footprint(RoundUp(size)) > pool + poolSize
      ensures r == NULL_REF ==> table == old(table) && store == old(store) && top == old(top) && maxRefs == old(maxRefs)
      ensures r != NULL_REF ==> maxRefs == if r == |old(table)| == old(maxRefs) then
        (if old(maxRefs) == 0 then initialSize else 2 * old(maxRefs)) else old(maxRefs)
      ensures r != NULL_REF ==>
        r == FirstNull(old(table)) && table == Assigned(old(table), Addr(old(top))) &&
        store == old(store)[old(top) := Value(vtype, 1, RoundUp(size), [])] && top == old(top) + Footprint(RoundUp(size))
    {
      ghost var h := State();
      var n := RoundUp(size);
      var p := PoolMalloc(n);
      if p == Null {
        return NULL_REF;
      }
      var v := Value(vtype, 1, n, []);
      MakeTracked(h, v);
      store := store[p.a := v];
      r := AssignReference(p);
    }

    /** deref(ref): the address of the value at a used slot, which must lie in the pool. */
    method Deref(r: int) returns (p: Ptr)
      requires Valid() && 0 <= r < |table| && InPool(State(), table[r])
      ensures p == table[r] && p.a in store
    {
      p := table[r];
    }

    /** get_ref(value): the lowest slot naming the value; some slot must. */
    method GetRef(p: Ptr) returns (r: int)
      requires p in table
      ensures 0 <= r < |table| && table[r] == p
      ensures forall j | 0 <= j < r :: table[j] != p
    {
      r := 0;
      while table[r] != p
        invariant 0 <= r < |table| && p in table[r..]
        invariant forall j | 0 <= j < r :: table[j] != p
        decreases |table| - r
      {
        assert table[r..] == [table[r]] + table[r + 1..];
        r := r + 1;
      }
    }

    /** refs_used: the number of used slots. */
    method RefsUsed() returns (n: nat)
      ensures n == |UsedBelow(table, |table|)|
    {
      n := 0;
      var i := 0;
      while i < |table|
        invariant 0 <= i <= |table| && n == |UsedBelow(table, i)|
      {
        UsedBelowStep(table, i);
        if table[i] != Null {
          n := n + 1;
        }
        i := i + 1;
      }
    }

    /** incref(ref): one more reference to the value at a used slot in the pool. */
    method Incref(r: int)
      requires Valid() && 0 <= r < |table| && InPool(State(), table[r])
      modifies this`store
      ensures Valid() && State() == IncRef(old(State()), r)
    {
      var a := table[r].a;
      store := store[a := store[a].(refCount := store[a].refCount + 1)];
      assert State() == IncRef(old(State()), r);
    }

    /**
     * decref(ref): see Release. The slot is not bounds-checked, so it must
     * be one of the table's.
     */
    method Decref(r: int)
      requires Tracked(State()) && 0 <= r < |table|
      modifies this`table, this`store
      ensures State() == Release(old(State()), r)
      decreases LiveCount(State()), 0
    {
      if InPool(State(), table[r]) {
        var a := table[r].a;
        var v := store[a].(refCount := store[a].refCount - 1);
        store := store[a := v];
        if v.refCount > 0 {
          return;
        }
        ClearSlot(old(State()), r, a, v);
        table := table[r := Null];
        TraverseDecref(v);
        store := store - {a};
      }
    }

    /** traverse_decref(value): decref of every reference the value owns, in order. */
    method TraverseDecref(v: Value)
      requires Tracked(State()) && ChildrenIn(v, |table|)
      modifies this`table, this`store
      ensures State() == ReleaseAll(old(State()), Children(v))
      decreases LiveCount(State()), 2
    {
      ghost var h := State();
      match v.vtype
      case ValList =>
        if |v.fields| >= 1 {
          assert v.fields[0] in Children(v);
          ReleaseOneTwo(h, v.fields[0], v.fields[0]);
          Decref(v.fields[0]);
        }
      case ValDict =>
        if |v.fields| >= 2 {
          assert Children(v) == [v.fields[0], v.fields[1]];
          assert v.fields[0] in Children(v) && v.fields[1] in Children(v);
          ReleaseOneTwo(h, v.fields[0], v.fields[1]);
          Decref(v.fields[0]);
          Decref(v.fields[1]);
        }
      case ValRefArray =>
        DecrefSlots(v.fields);
      case ValOther(_) =>
    }

    /** The loop of traverse_decref over a ref-array's slots: decref of each one that is not a sentinel. */
    method DecrefSlots(slots: seq<int>)
      requires Tracked(State()) && forall c | c in Held(slots) :: 0 <= c < |table|
      modifies this`table, this`store
      ensures State() == ReleaseAll(old(State()), Held(slots))
      decreases LiveCount(State()), 1
    {
      ghost var h := State();
      var i := 0;
      while i < |slots|
        invariant 0 <= i <= |slots|
        invariant forall c | c in Held(slots[..i]) :: 0 <= c < |h.table|
        invariant State() == ReleaseAll(h, Held(slots[..i]))
      {
        ReleaseSlot(h, slots, i, i + 1, State());
        if IsRef(slots[i]) {
          Decref(slots[i]);
        }
        i := i + 1;
      }
      assert slots[..i] == slots;
    }

    /**
     * copy_contents(name, ref): see Copy. The name parameter is unused by
     * the source and left out. The allocation is not checked for failure,
     * so the pool must have room for every value still outside it.
     */
    method CopyContents(r: int)
      requires CopyReady(State()) && 0 <= r < |table| && table[r].Addr?
      modifies this`table, this`store, this`top
      ensures State() == Copy(old(State()), r)
      decreases PendingCount(State()), 0
    {
      if !InPool(State(), table[r]) {
        ghost var h := State();
        var v := store[table[r].a];
        MoveValue(r);
        CopyChildren(v);
      }
    }

    /** The first half of copy_contents: the value is copied to a new block and the entry redirected to it. */
    method MoveValue(r: int)
      requires CopyReady(State()) && 0 <= r < |table| && Outside(table[r], pool, poolSize)
      modifies this`table, this`store, this`top
      ensures State() == CopyValue(old(State()), r)
      ensures CopyReady(State()) && PendingCount(State()) < PendingCount(old(State()))
      ensures Holds(State(), old(store[table[r].a]))
    {
      ghost var h := State();
      var v := store[table[r].a];
      BytesOutAt(table, store, pool, poolSize, r);
      var p := PoolMalloc(v.size);
      store := store[p.a := v];
      table := table[r := p];
      CopyOne(h, r);
    }

    /** The second half of copy_contents: copy_contents of each reference the copied value owns. */
    method CopyChildren(v: Value)
      requires CopyReady(State()) && Holds(State(), v)
      modifies this`table, this`store, this`top
      ensures State() == CopyAll(old(State()), Children(v))
      decreases PendingCount(State()), 2
    {
      match v.vtype
      case ValList =>
        if |v.fields| >= 1 {
          assert Children(v) == [v.fields[0]];
          assert v.fields[0] in Children(v);
          CopyOneTwo(State(), v.fields[0], v.fields[0]);
          CopyContents(v.fields[0]);
        }
      case ValDict =>
        if |v.fields| >= 2 {
          ghost var h := State();
          assert Children(v) == [v.fields[0], v.fields[1]];
          assert v.fields[0] in Children(v) && v.fields[1] in Children(v);
          CopyOneTwo(h, v.fields[0], v.fields[1]);
          CopyContents(v.fields[0]);
          MovedKeepsUsed(h, State(), v.fields[1]);
          CopyContents(v.fields[1]);
        }
      case ValRefArray =>
        CopySlots(v.fields);
      case ValOther(_) =>
    }

    /** The loop of copy_contents over a ref-array's slots: copy_contents of each one that is not a sentinel. */
    method CopySlots(slots: seq<int>)
      requires CopyReady(State()) && Used(State(), Held(slots))
      modifies this`table, this`store, this`top
      ensures State() == CopyAll(old(State()), Held(slots))
      decreases PendingCount(State()), 1
    {
      ghost var h := State();
      var i := 0;
      while i < |slots|
        invariant 0 <= i <= |slots|
        invariant State() == CopyAll(h, Held(slots[..i]))
      {
        CopySlot(h, slots, i, i + 1, State());
        if IsRef(slots[i]) {
          CopyContents(slots[i]);
        }
        i := i + 1;
      }
      assert slots[..i] == slots;
    }

    /** mm_init(pool_size, to_space): the allocator starts over on the to space. */
    method ResetPool()
      modifies this`pool, this`top, this`store
      ensures State() == Reset(old(State()), toSpace)
    {
      pool, top := toSpace, toSpace;
      store := map a | a in store && !(toSpace <= a < toSpace + poolSize) :: store[a];
    }

    /** foreach_global(copy_contents): copy_contents of each root in turn. */
    method CopyRoots(roots: seq<int>)
      requires CopyReady(State()) && Used(State(), roots)
      modifies this`table, this`store, this`top
      ensures State() == CopyAll(old(State()), roots)
      ensures |table| == |old(table)|
    {
      ghost var h := State();
      var k := 0;
      while k < |roots|
        invariant 0 <= k <= |roots|
        invariant State() == CopyAll(h, roots[..k])
      {
        CopyRoot(h, roots, k, k + 1, State());
        CopyContents(roots[k]);
        k := k + 1;
      }
      assert roots[..k] == roots;
    }

    /** The sweep of collect_garbage: see Sweep. */
    method SweepTable()
      requires Tracked(State())
      modifies this`table, this`store
      ensures State() == Sweep(old(State()), 0)
      ensures |table| == |old(table)|
    {
      ghost var swept := Sweep(State(), 0);
      var i := 0;
      while i < |table|
        invariant 0 <= i <= |table| && Tracked(State()) && |table| == |swept.table|
        invariant Sweep(State(), i) == swept
      {
        SweepStep(State(), i);
        if !InPool(State(), table[i]) && table[i] != Null {
          DiscardSlot(i);
        }
        i := i + 1;
      }
    }

    /** One slot of the sweep: traverse_decref of the garbage value, then the slot is cleared. */
    method DiscardSlot(i: nat)
      requires Tracked(State()) && i < |table| && Outside(table[i], pool, poolSize)
      modifies this`table, this`store
      ensures State() == Discard(old(State()), i)
    {
      TraverseDecref(store[table[i].a]);
      table := table[i := Null];
    }

    /**
     * collect_garbage: the allocator starts over on the to space, the roots
     * are copied, the spaces swap and the sweep discards everything the copy
     * did not reach. Every reference a value of the table owns must be a
     * used slot, and the to space must have room for a copy of every value
     * of the table.
     */
    method CollectGarbage(roots: seq<int>)
      requires Valid() && forall i | 0 <= i < |table| && table[i].Addr? :: Holds(State(), store[table[i].a])
      requires Used(State(), roots)
      requires BytesOut(table, store, toSpace, poolSize) <= poolSize
      modifies this
      ensures Valid() && State() == Collect(old(State()), old(toSpace), roots)
      ensures fromSpace == old(toSpace) && toSpace == old(fromSpace) && maxRefs == old(maxRefs)
    {
      ReadyToCollect(State(), toSpace, roots);
      CopyAndSweep(roots);
      CollectedValid(old(State()), old(toSpace), roots);
    }

    /** A table in the state collect_garbage leaves, with the spaces swapped, is valid. */
    lemma CollectedValid(h: Heap, to: nat, roots: seq<int>)
      requires CollectReady(h, to, roots) && State() == Collect(h, to, roots)
      requires fromSpace == to && initialSize > 0 && |h.table| <= maxRefs
      requires toSpace == fromSpace + poolSize || fromSpace == toSpace + poolSize
      ensures Valid()
    {
    }

    /** The phases of collect_garbage: mm_init on the to space, copy_contents of each root, the swap, and the sweep. */
    method CopyAndSweep(roots: seq<int>)
      requires CollectReady(State(), toSpace, roots)
      modifies this`table, this`store, this`pool, this`top, this`fromSpace, this`toSpace
      ensures State() == Collect(old(State()), old(toSpace), roots)
      ensures fromSpace == old(toSpace) && toSpace == old(fromSpace)
    {
      ResetReady(State(), toSpace);
      ResetPool();
      CopyRoots(roots);
      fromSpace, toSpace := toSpace, fromSpace;
      SweepTable();
    }
  }
}
