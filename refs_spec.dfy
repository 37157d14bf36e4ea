/**
 * The reference table and the two-space copying collector of the
 * interpreter's memory manager (GarbageCollector/refs.c), as pure functions
 * on a snapshot of its state: decref and traverse_decref as Release and
 * ReleaseAll, copy_contents as Copy and CopyAll, and the sweep of
 * collect_garbage as Sweep.
 */
module RefSpec {
  import opened Memory

  /** The sentinels a ref-array slot holds instead of a reference: never used, and deleted. */
  const NULL_REF: int := -1
  const TOMBSTONE_REF: int := -2
  /** Values are aligned to ALIGNMENT bytes in the pool. */
  const ALIGNMENT: nat := 8

  datatype ValueType = ValList | ValDict | ValRefArray | ValOther(code: nat)

  /**
   * A value in a pool: its type, its reference count, its size in bytes and
   * the reference fields it stores (a list's values, a dictionary's keys and
   * values, a ref-array's slots).
   */
  datatype Value = Value(vtype: ValueType, refCount: int, size: nat, fields: seq<int>)

  /**
   * The state refs.c works on: the reference table (NULL for an unused slot),
   * the values by address, and the pool the allocator currently serves,
   * [pool, pool + size), with its next free address top.
   */
  datatype Heap = Heap(table: seq<Ptr>, store: map<nat, Value>, pool: nat, size: nat, top: nat)

  // ---------------------------------------------------------------- values

  /** A ref-array slot that holds a reference rather than a sentinel. */
  predicate IsRef(slot: int)
  {
    slot != NULL_REF && slot != TOMBSTONE_REF
  }

  /** The slots of a ref-array that hold a reference, in index order. */
  function Held(slots: seq<int>): (r: seq<int>)
    ensures |r| <= |slots|
  {
    if slots == [] then []
    else Held(slots[..|slots| - 1]) + if IsRef(slots[|slots| - 1]) then [slots[|slots| - 1]] else []
  }

  /** Held keeps exactly the slots that are not sentinels. */
  lemma {:induction false} HeldMembers(slots: seq<int>, c: int)
    ensures c in Held(slots) <==> c in slots && IsRef(c)
  {
    if slots != [] {
      var n := |slots| - 1;
      HeldMembers(slots[..n], c);
      assert slots == slots[..n] + [slots[n]];
    }
  }

  /** One more slot scanned adds it to the held references unless it is a sentinel. */
  lemma HeldStep(slots: seq<int>, i: nat)
    requires i < |slots|
    ensures IsRef(slots[i]) ==> Held(slots[..i + 1]) == Held(slots[..i]) + [slots[i]]
    ensures !IsRef(slots[i]) ==> Held(slots[..i + 1]) == Held(slots[..i])
  {
    assert slots[..i + 1][..i] == slots[..i];
  }

  /** The slots scanned so far hold no reference the whole ref-array does not. */
  lemma HeldPrefix(slots: seq<int>, i: nat)
    requires i <= |slots|
    ensures forall c | c in Held(slots[..i]) :: c in Held(slots)
  {
    forall c | c in Held(slots[..i])
      ensures c in Held(slots)
    {
      HeldMembers(slots[..i], c);
      HeldMembers(slots, c);
    }
  }

  /**
   * The references a value owns, in the order traverse_decref and
   * copy_contents visit them. A value whose fields have not been stored yet
   * owns none.
   */
  function Children(v: Value): (r: seq<int>)
  {
    match v.vtype
    case ValList => if |v.fields| >= 1 then v.fields[..1] else []
    case ValDict => if |v.fields| >= 2 then v.fields[..2] else []
    case ValRefArray => Held(v.fields)
    case ValOther(_) => []
  }

  /** Every reference v owns is a slot of a table of n entries. */
  ghost predicate ChildrenIn(v: Value, n: nat)
  {
    forall c | c in Children(v) :: 0 <= c < n
  }

  /** Two versions of a value that differ at most in the reference count. */
  ghost predicate SameShape(v: Value, w: Value)
  {
    v.vtype == w.vtype && v.size == w.size && v.fields == w.fields
  }

  // ---------------------------------------------------------------- the pool

  /** is_pool_address: p lies in the pool the allocator currently serves. */
  predicate InPool(h: Heap, p: Ptr)
  {
    p.Addr? && h.pool <= p.a < h.pool + h.size
  }

  /** The bytes the allocator takes for a request of size bytes: never less than ALIGNMENT. */
  function Footprint(size: nat): (r: nat)
    ensures r >= size && r >= ALIGNMENT
  {
    if size < ALIGNMENT then ALIGNMENT else size
  }

  /**
   * The table's entries name values, distinct slots name distinct values,
   * every reference a value owns is a slot, and the allocator has handed out
   * nothing at or above top.
   */
  ghost predicate Tracked(h: Heap)
  {
    (forall i | 0 <= i < |h.table| && h.table[i].Addr? :: h.table[i].a in h.store) &&
    (forall a | a in h.store :: ChildrenIn(h.store[a], |h.table|)) &&
    (forall i, j | 0 <= i < j < |h.table| && h.table[i].Addr? :: h.table[i] != h.table[j]) &&
    h.pool <= h.top <= h.pool + h.size &&
    (forall a | a in h.store && h.pool <= a < h.pool + h.size :: a < h.top)
  }

  // ---------------------------------------------------------------- counting slots

  /** The number of entries of t inside [pool, pool + size). */
  function CountIn(t: seq<Ptr>, pool: nat, size: nat): (n: nat)
    ensures n <= |t|
  {
    if t == [] then 0
    else CountIn(t[..|t| - 1], pool, size) + if t[|t| - 1].Addr? && pool <= t[|t| - 1].a < pool + size then 1 else 0
  }

  /** The number of slots decref can still act on: those naming a value in the current pool. */
  function LiveCount(h: Heap): nat
  {
    CountIn(h.table, h.pool, h.size)
  }

  /** Clearing entries never adds to the count, and clearing one inside the range removes one. */
  lemma {:induction false} CountInCleared(t: seq<Ptr>, t': seq<Ptr>, pool: nat, size: nat)
    requires |t'| == |t| && forall i | 0 <= i < |t| :: t'[i] == t[i] || t'[i] == Null
    ensures CountIn(t', pool, size) <= CountIn(t, pool, size)
  {
    if t != [] {
      var n := |t| - 1;
      CountInCleared(t[..n], t'[..n], pool, size);
    }
  }

  lemma {:induction false} CountInClearOne(t: seq<Ptr>, r: nat, pool: nat, size: nat)
    requires r < |t| && t[r].Addr? && pool <= t[r].a < pool + size
    ensures CountIn(t[r := Null], pool, size) == CountIn(t, pool, size) - 1
  {
    var n := |t| - 1;
    var t' := t[r := Null];
    if r == n {
      assert t'[..n] == t[..n];
    } else {
      assert t'[..n] == t[..n][r := Null];
      CountInClearOne(t[..n], r, pool, size);
    }
  }

  // ---------------------------------------------------------------- decref

  /**
   * What decref leaves behind: the same table length and pool, entries either
   * kept or cleared to NULL, and every remaining value a former one with at
   * most its reference count changed.
   */
  ghost predicate Cleared(h: Heap, h': Heap)
  {
    |h'.table| == |h.table| && h'.pool == h.pool && h'.size == h.size && h'.top == h.top &&
    (forall i | 0 <= i < |h.table| :: h'.table[i] == h.table[i] || (h'.table[i] == Null && InPool(h, h.table[i]))) &&
    (forall a | a in h'.store :: a in h.store && SameShape(h.store[a], h'.store[a])) &&
    (forall a | a in h.store && !(h.pool <= a < h.pool + h.size) :: a in h'.store && h'.store[a] == h.store[a]) &&
    LiveCount(h') <= LiveCount(h)
  }

  lemma ClearedTrans(h: Heap, h': Heap, h'': Heap)
    requires Cleared(h, h') && Cleared(h', h'')
    ensures Cleared(h, h'')
  {
    forall i | 0 <= i < |h.table|
      ensures h''.table[i] == h.table[i] || (h''.table[i] == Null && InPool(h, h.table[i]))
    {
      assert h''.table[i] == h'.table[i] || (h''.table[i] == Null && InPool(h', h'.table[i]));
    }
  }

  /** The step of decref that changes a count: the value keeps its shape. */
  lemma Recount(h: Heap, a: nat, v: Value)
    requires Tracked(h) && a in h.store && h.pool <= a < h.pool + h.size && SameShape(h.store[a], v)
    ensures Tracked(h.(store := h.store[a := v])) && Cleared(h, h.(store := h.store[a := v]))
  {
    assert Children(v) == Children(h.store[a]);
  }

  /** The step of decref that drops a count to zero: the slot is cleared. */
  lemma ClearSlot(h: Heap, r: nat, a: nat, v: Value)
    requires Tracked(h) && r < |h.table| && h.table[r] == Addr(a) && InPool(h, h.table[r])
    requires SameShape(h.store[a], v)
    ensures var h' := h.(store := h.store[a := v], table := h.table[r := Null]);
      Tracked(h') && Cleared(h, h') && LiveCount(h') < LiveCount(h) &&
      forall i | 0 <= i < |h'.table| :: h'.table[i] != Addr(a)
  {
    CountInClearOne(h.table, r, h.pool, h.size);
    Recount(h, a, v);
    var h' := h.(store := h.store[a := v], table := h.table[r := Null]);
    forall i | 0 <= i < |h.table| && i != r
      ensures h.table[i] != Addr(a)
    {
      if i < r && h.table[i].Addr? {
        assert h.table[i] != h.table[r];
      } else if i > r {
        assert h.table[r] != h.table[i];
      }
    }
  }

  /** The last step of decref: mm_free of a value no entry names any more. */
  lemma FreeValue(h: Heap, h': Heap, a: nat)
    requires Tracked(h') && Cleared(h, h') && h.pool <= a < h.pool + h.size
    requires forall i | 0 <= i < |h'.table| :: h'.table[i] != Addr(a)
    ensures Tracked(h'.(store := h'.store - {a})) && Cleared(h, h'.(store := h'.store - {a}))
  {
  }

  /**
   * decref(r): nothing unless the entry is in the current pool; otherwise the
   * count drops by one, and on reaching zero the slot is cleared, the
   * value's references are released in order and the value is freed.
   */
  function Release(h: Heap, r: int): (h': Heap)
    requires Tracked(h) && 0 <= r < |h.table|
    ensures Tracked(h') && Cleared(h, h')
    ensures InPool(h, h.table[r]) && h.store[h.table[r].a].refCount <= 1 ==>
      h'.table[r] == Null && h.table[r].a !in h'.store
    decreases LiveCount(h), 0
  {
    if !InPool(h, h.table[r]) then h
    else
      var a := h.table[r].a;
      var v := h.store[a].(refCount := h.store[a].refCount - 1);
      if v.refCount > 0 then
        Recount(h, a, v);
        h.(store := h.store[a := v])
      else
        var h1 := h.(store := h.store[a := v], table := h.table[r := Null]);
        ClearSlot(h, r, a, v);
        var h2 := ReleaseAll(h1, Children(v));
        ClearedTrans(h, h1, h2);
        FreeValue(h, h2, a);
        h2.(store := h2.store - {a})
  }

  /** traverse_decref: decref of each reference in turn. */
  function ReleaseAll(h: Heap, rs: seq<int>): (h': Heap)
    requires Tracked(h) && forall c | c in rs :: 0 <= c < |h.table|
    ensures Tracked(h') && Cleared(h, h')
    decreases LiveCount(h), 1, |rs|
  {
    if rs == [] then h
    else
      assert rs[0] in rs;
      var h1 := Release(h, rs[0]);
      assert forall c | c in rs[1..] :: c in rs;
      var h2 := ReleaseAll(h1, rs[1..]);
      ClearedTrans(h, h1, h2);
      h2
  }

  // ---------------------------------------------------------------- copy_contents

  /** An entry copy_contents still has to move: a value outside the pool. */
  predicate Outside(p: Ptr, pool: nat, size: nat)
  {
    p.Addr? && !(pool <= p.a < pool + size)
  }

  /** The number of entries of t outside [pool, pool + size). */
  function CountOut(t: seq<Ptr>, pool: nat, size: nat): (n: nat)
    ensures n <= |t|
  {
    if t == [] then 0
    else CountOut(t[..|t| - 1], pool, size) + if Outside(t[|t| - 1], pool, size) then 1 else 0
  }

  /** The bytes copying every entry outside [pool, pool + size) would take from the allocator. */
  function BytesOut(t: seq<Ptr>, store: map<nat, Value>, pool: nat, size: nat): nat
  {
    if t == [] then 0
    else
      var p := t[|t| - 1];
      BytesOut(t[..|t| - 1], store, pool, size) +
        if Outside(p, pool, size) && p.a in store then Footprint(store[p.a].size) else 0
  }

  function PendingCount(h: Heap): nat
  {
    CountOut(h.table, h.pool, h.size)
  }

  /**
   * Before a collection may copy: the table is tracked, the references of
   * every value an entry names are used slots, and the pool has room for a
   * copy of every value still outside it.
   */
  ghost predicate CopyReady(h: Heap)
  {
    Tracked(h) &&
    (forall i | 0 <= i < |h.table| && h.table[i].Addr? :: Holds(h, h.store[h.table[i].a])) &&
    h.top + BytesOut(h.table, h.store, h.pool, h.size) <= h.pool + h.size
  }

  /** Every reference v owns names a used slot of h's table. */
  ghost predicate Holds(h: Heap, v: Value)
  {
    Used(h, Children(v))
  }

  /** Every one of rs is a used slot. */
  ghost predicate Used(h: Heap, rs: seq<int>)
  {
    forall c | c in rs :: 0 <= c < |h.table| && h.table[c].Addr?
  }

  /**
   * What copy_contents leaves behind: the same table length and pool, each
   * entry either kept or, if it was outside the pool, moved to a new address
   * in the pool holding an identical value, and every value that was stored
   * before still stored unchanged.
   */
  ghost predicate Moved(h: Heap, h': Heap)
  {
    |h'.table| == |h.table| && h'.pool == h.pool && h'.size == h.size && h.top <= h'.top &&
    (forall i | 0 <= i < |h.table| :: h'.table[i] == h.table[i] || MovedEntry(h, h', i)) &&
    (forall a | a in h.store :: a in h'.store && h'.store[a] == h.store[a]) &&
    PendingCount(h') <= PendingCount(h)
  }

  /** Entry i was outside the pool in h and names a copy of its value inside the pool in h'. */
  ghost predicate MovedEntry(h: Heap, h': Heap, i: int)
    requires 0 <= i < |h.table| && 0 <= i < |h'.table|
  {
    Outside(h.table[i], h.pool, h.size) && h.table[i].a in h.store &&
    InPool(h', h'.table[i]) && h'.table[i].a in h'.store &&
    h'.store[h'.table[i].a] == h.store[h.table[i].a]
  }

  /** Replacing the store changes nothing outside the range if the two agree there. */
  lemma {:induction false} BytesOutAgree(t: seq<Ptr>, s1: map<nat, Value>, s2: map<nat, Value>, pool: nat, size: nat)
    requires forall k | k in s1 && !(pool <= k < pool + size) :: k in s2 && s2[k] == s1[k]
    requires forall k | k in s2 && !(pool <= k < pool + size) :: k in s1
    ensures BytesOut(t, s1, pool, size) == BytesOut(t, s2, pool, size)
  {
    if t != [] {
      BytesOutAgree(t[..|t| - 1], s1, s2, pool, size);
    }
  }

  /** Moving entry r into the range takes it, and its bytes, off what is still outside. */
  lemma {:induction false} MoveOut(t: seq<Ptr>, store: map<nat, Value>, pool: nat, size: nat, r: nat, a: nat)
    requires r < |t| && Outside(t[r], pool, size) && t[r].a in store && pool <= a < pool + size
    ensures CountOut(t[r := Addr(a)], pool, size) + 1 == CountOut(t, pool, size)
    ensures BytesOut(t[r := Addr(a)], store, pool, size) + Footprint(store[t[r].a].size) == BytesOut(t, store, pool, size)
  {
    var n := |t| - 1;
    var t' := t[r := Addr(a)];
    if r == n {
      assert t'[..n] == t[..n];
    } else {
      assert t'[..n] == t[..n][r := Addr(a)];
      MoveOut(t[..n], store, pool, size, r, a);
    }
  }

  /** An entry still outside the range accounts for at least its own bytes. */
  lemma {:induction false} BytesOutAt(t: seq<Ptr>, store: map<nat, Value>, pool: nat, size: nat, r: nat)
    requires r < |t| && Outside(t[r], pool, size) && t[r].a in store
    ensures Footprint(store[t[r].a].size) <= BytesOut(t, store, pool, size)
  {
    if r < |t| - 1 {
      BytesOutAt(t[..|t| - 1], store, pool, size, r);
    }
  }

  /** The address the allocator hands out next is named by no entry. */
  lemma TopUnused(h: Heap)
    requires Tracked(h) && h.top < h.pool + h.size
    ensures forall j | 0 <= j < |h.table| :: h.table[j] != Addr(h.top)
  {
  }

  /**
   * The first step of copy_contents on an entry outside the pool: the value
   * is copied to the block the allocator hands out next and the entry is
   * redirected to the copy.
   */
  function CopyValue(h: Heap, r: int): Heap
    requires 0 <= r < |h.table| && h.table[r].Addr? && h.table[r].a in h.store
  {
    var v := h.store[h.table[r].a];
    h.(table := h.table[r := Addr(h.top)], store := h.store[h.top := v], top := h.top + Footprint(v.size))
  }

  /** One step of copy_contents: entry r's value is copied to the allocator's next block. */
  lemma CopyOne(h: Heap, r: nat)
    requires CopyReady(h) && r < |h.table| && Outside(h.table[r], h.pool, h.size)
    ensures var v := h.store[h.table[r].a];
      var h' := CopyValue(h, r);
      CopyReady(h') && Moved(h, h') && PendingCount(h') < PendingCount(h) && InPool(h', h'.table[r]) &&
      Holds(h', v)
  {
    var v := h.store[h.table[r].a];
    var h' := CopyValue(h, r);
    BytesOutAt(h.table, h.store, h.pool, h.size, r);
    MoveOut(h.table, h.store, h.pool, h.size, r, h.top);
    BytesOutAgree(h'.table, h.store, h'.store, h.pool, h.size);
    CopyOneTracked(h, r, v);
    CopyOneHolds(h, r, v);
  }

  lemma CopyOneTracked(h: Heap, r: nat, v: Value)
    requires Tracked(h) && r < |h.table| && h.top + Footprint(v.size) <= h.pool + h.size
    requires Outside(h.table[r], h.pool, h.size) && v == h.store[h.table[r].a]
    ensures Tracked(CopyValue(h, r))
  {
    TopUnused(h);
  }

  lemma CopyOneHolds(h: Heap, r: nat, v: Value)
    requires Tracked(h) && r < |h.table| && h.top < h.pool + h.size
    requires Outside(h.table[r], h.pool, h.size) && v == h.store[h.table[r].a]
    requires forall i | 0 <= i < |h.table| && h.table[i].Addr? :: Holds(h, h.store[h.table[i].a])
    ensures var h' := CopyValue(h, r);
      forall i | 0 <= i < |h'.table| && h'.table[i].Addr? :: Holds(h', h'.store[h'.table[i].a])
  {
    var h' := CopyValue(h, r);
    TopUnused(h);
    forall i | 0 <= i < |h'.table| && h'.table[i].Addr?
      ensures Holds(h', h'.store[h'.table[i].a])
    {
      var w := h.store[h.table[i].a];
      assert h'.store[h'.table[i].a] == w;
      assert Holds(h, w);
    }
  }

  lemma MovedTrans(h: Heap, h': Heap, h'': Heap)
    requires Tracked(h) && Moved(h, h') && Moved(h', h'')
    ensures Moved(h, h'')
  {
    forall i | 0 <= i < |h.table|
      ensures h''.table[i] == h.table[i] || MovedEntry(h, h'', i)
    {
      if h'.table[i] != h.table[i] {
        assert MovedEntry(h, h', i);
        assert h''.table[i] == h'.table[i];
      } else if h''.table[i] != h'.table[i] {
        assert MovedEntry(h', h'', i);
      }
    }
  }

  /**
   * copy_contents(r): nothing if the entry is already in the pool (it has
   * been copied); otherwise the value is copied to a new block, the entry is
   * redirected to it before anything else, and then each reference the value
   * owns is copied in turn. A slot that is not in use is left alone here.
   */
  function Copy(h: Heap, r: int): (h': Heap)
    requires CopyReady(h)
    ensures CopyReady(h') && Moved(h, h')
    ensures 0 <= r < |h.table| && h.table[r].Addr? ==> InPool(h', h'.table[r])
    decreases PendingCount(h), 0
  {
    if !(0 <= r < |h.table|) || h.table[r] == Null || InPool(h, h.table[r]) then h
    else
      var v := h.store[h.table[r].a];
      var h1 := CopyValue(h, r);
      CopyOne(h, r);
      var h2 := CopyAll(h1, Children(v));
      MovedTrans(h, h1, h2);
      h2
  }

  /** copy_contents of each reference in turn. */
  function CopyAll(h: Heap, rs: seq<int>): (h': Heap)
    requires CopyReady(h)
    ensures CopyReady(h') && Moved(h, h')
    ensures forall c | c in rs && 0 <= c < |h.table| && h.table[c].Addr? :: InPool(h', h'.table[c])
    decreases PendingCount(h), 1, |rs|
  {
    if rs == [] then h
    else
      var h1 := Copy(h, rs[0]);
      var h2 := CopyAll(h1, rs[1..]);
      CopyAllStep(h, h1, h2, rs);
      h2
  }

  /** Copying never clears a used slot. */
  lemma MovedKeepsUsed(h: Heap, h': Heap, x: int)
    requires Moved(h, h') && 0 <= x < |h.table| && h.table[x].Addr?
    ensures 0 <= x < |h'.table| && h'.table[x].Addr?
  {
    assert h'.table[x] == h.table[x] || MovedEntry(h, h', x);
  }

  lemma CopyAllStep(h: Heap, h1: Heap, h2: Heap, rs: seq<int>)
    requires Tracked(h) && Moved(h, h1) && Moved(h1, h2) && rs != []
    requires 0 <= rs[0] < |h.table| && h.table[rs[0]].Addr? ==> InPool(h1, h1.table[rs[0]])
    requires forall c | c in rs[1..] && 0 <= c < |h1.table| && h1.table[c].Addr? :: InPool(h2, h2.table[c])
    ensures Moved(h, h2)
    ensures forall c | c in rs && 0 <= c < |h.table| && h.table[c].Addr? :: InPool(h2, h2.table[c])
  {
    MovedTrans(h, h1, h2);
    forall c | c in rs && 0 <= c < |h.table| && h.table[c].Addr?
      ensures InPool(h2, h2.table[c])
    {
      assert h1.table[c] == h.table[c] || MovedEntry(h, h1, c);
      if c != rs[0] {
        assert c in rs[1..];
      }
    }
  }

  // ---------------------------------------------------------------- what copying reaches

  /** Every reference v owns names a slot whose entry is in the pool. */
  ghost predicate Reached(h: Heap, v: Value)
  {
    forall c | c in Children(v) :: 0 <= c < |h.table| && InPool(h, h.table[c])
  }

  /**
   * Every entry in the pool, other than those of the slots in gray, names a
   * value whose references all name entries in the pool.
   */
  ghost predicate ClosedExcept(h: Heap, gray: set<int>)
  {
    forall i | 0 <= i < |h.table| && i !in gray && InPool(h, h.table[i]) ::
      h.table[i].a in h.store && Reached(h, h.store[h.table[i].a])
  }

  lemma MovedKeepsReached(h: Heap, h': Heap, v: Value)
    requires Moved(h, h') && Reached(h, v)
    ensures Reached(h', v)
  {
    forall c | c in Children(v)
      ensures InPool(h', h'.table[c])
    {
      assert h'.table[c] == h.table[c] || MovedEntry(h, h', c);
    }
  }

  /** Moving entry r leaves every other entry in the pool as closed as it was. */
  lemma CopyOneCloses(h: Heap, r: nat, gray: set<int>)
    requires CopyReady(h) && r < |h.table| && Outside(h.table[r], h.pool, h.size)
    requires ClosedExcept(h, gray)
    ensures var v := h.store[h.table[r].a];
      var h' := CopyValue(h, r);
      ClosedExcept(h', gray + {r})
  {
    var v := h.store[h.table[r].a];
    var h' := CopyValue(h, r);
    CopyOne(h, r);
    TopUnused(h);
    forall i | 0 <= i < |h'.table| && i !in gray + {r} && InPool(h', h'.table[i])
      ensures h'.table[i].a in h'.store && Reached(h', h'.store[h'.table[i].a])
    {
      MovedKeepsReached(h, h', h.store[h.table[i].a]);
    }
  }

  /**
   * Copying entry r closes what it moves: entries in the pool that were
   * closed stay closed, and the copy of r's value and of everything it
   * references end up closed too.
   */
  lemma {:induction false} CopyCloses(h: Heap, r: int, gray: set<int>)
    requires CopyReady(h) && ClosedExcept(h, gray)
    ensures ClosedExcept(Copy(h, r), gray)
    decreases PendingCount(h), 0
  {
    if 0 <= r < |h.table| && h.table[r].Addr? && !InPool(h, h.table[r]) {
      var v := h.store[h.table[r].a];
      var h1 := CopyValue(h, r);
      CopyOne(h, r);
      CopyOneCloses(h, r, gray);
      CopyAllCloses(h1, Children(v), gray + {r});
      CloseGray(h1, CopyAll(h1, Children(v)), r, v, gray);
    }
  }

  /** Once everything v references is in the pool, the gray slot r naming v is closed too. */
  lemma CloseGray(h: Heap, h': Heap, r: nat, v: Value, gray: set<int>)
    requires Moved(h, h') && r < |h.table| && InPool(h, h.table[r])
    requires h.table[r].a in h.store && h.store[h.table[r].a] == v
    requires ClosedExcept(h', gray + {r}) && Holds(h, v)
    requires forall c | c in Children(v) && 0 <= c < |h.table| && h.table[c].Addr? :: InPool(h', h'.table[c])
    ensures ClosedExcept(h', gray)
  {
    assert h'.table[r] == h.table[r] || MovedEntry(h, h', r);
  }

  lemma {:induction false} CopyAllCloses(h: Heap, rs: seq<int>, gray: set<int>)
    requires CopyReady(h) && ClosedExcept(h, gray)
    ensures ClosedExcept(CopyAll(h, rs), gray)
    decreases PendingCount(h), 1, |rs|
  {
    if rs != [] {
      CopyCloses(h, rs[0], gray);
      var h1 := Copy(h, rs[0]);
      CopyAllCloses(h1, rs[1..], gray);
    }
  }

  /** Copying the roots of a table with nothing in the pool leaves the pool closed under references. */
  lemma CopyRootsCloses(h: Heap, roots: seq<int>)
    requires CopyReady(h) && forall i | 0 <= i < |h.table| :: !InPool(h, h.table[i])
    ensures ClosedExcept(CopyAll(h, roots), {})
  {
    CopyAllCloses(h, roots, {});
  }

  // ---------------------------------------------------------------- collect_garbage

  /**
   * mm_init(pool_size, to_space): the allocator serves the other space from
   * its start, and whatever was stored there is gone.
   */
  function Reset(h: Heap, to: nat): (h': Heap)
    ensures h'.table == h.table && h'.pool == to && h'.top == to && h'.size == h.size
    ensures forall a | a in h'.store :: !(to <= a < to + h.size)
    ensures forall a | a in h.store && !(to <= a < to + h.size) :: a in h'.store && h'.store[a] == h.store[a]
  {
    h.(pool := to, top := to, store := map a | a in h.store && !(to <= a < to + h.size) :: h.store[a])
  }

  /**
   * If no entry names a value in the other space and copies of all of them
   * fit there, switching the allocator to it leaves a state copy_contents
   * can work on, with nothing in the pool yet.
   */
  lemma ResetReady(h: Heap, to: nat)
    requires Tracked(h) && forall i | 0 <= i < |h.table| && h.table[i].Addr? :: Holds(h, h.store[h.table[i].a])
    requires forall i | 0 <= i < |h.table| :: !InPool(Reset(h, to), h.table[i])
    requires BytesOut(h.table, h.store, to, h.size) <= h.size
    ensures CopyReady(Reset(h, to))
  {
    var h' := Reset(h, to);
    BytesOutAgree(h.table, h.store, h'.store, to, h.size);
  }

  /**
   * The sweep of collect_garbage from slot i on: an entry still outside the
   * pool is garbage, so the references its value owns are released and the
   * slot is cleared.
   */
  function Sweep(h: Heap, i: nat): (h': Heap)
    requires Tracked(h) && i <= |h.table|
    ensures Tracked(h') && |h'.table| == |h.table| && h'.pool == h.pool && h'.size == h.size
    ensures forall j | 0 <= j < |h.table| :: h'.table[j] == h.table[j] || (h'.table[j] == Null && h.table[j].Addr?)
    ensures forall j | i <= j < |h.table| :: !Outside(h'.table[j], h.pool, h.size)
    decreases |h.table| - i
  {
    if i == |h.table| then h
    else if Outside(h.table[i], h.pool, h.size) then
      Sweep(Discard(h, i), i + 1)
    else
      Sweep(h, i + 1)
  }

  /** One step of the sweep: traverse_decref of the garbage value at slot i, then the slot is cleared. */
  function Discard(h: Heap, i: nat): (h': Heap)
    requires Tracked(h) && i < |h.table| && Outside(h.table[i], h.pool, h.size)
    ensures Tracked(h') && |h'.table| == |h.table| && h'.pool == h.pool && h'.size == h.size
    ensures h'.table[i] == Null
    ensures forall j | 0 <= j < |h.table| :: h'.table[j] == h.table[j] || (h'.table[j] == Null && h.table[j].Addr?)
  {
    var h1 := ReleaseAll(h, Children(h.store[h.table[i].a]));
    h1.(table := h1.table[i := Null])
  }

  /** The sweep from slot i is one step of it followed by the sweep from i + 1. */
  lemma SweepStep(h: Heap, i: nat)
    requires Tracked(h) && i < |h.table|
    ensures Outside(h.table[i], h.pool, h.size) ==> Sweep(h, i) == Sweep(Discard(h, i), i + 1)
    ensures !Outside(h.table[i], h.pool, h.size) ==> Sweep(h, i) == Sweep(h, i + 1)
  {
  }

  /**
   * collect_garbage: the allocator is switched to the other space at to, the
   * roots are copied in order, and the sweep discards what was not copied.
   */
  function Collect(h: Heap, to: nat, roots: seq<int>): (h': Heap)
    requires CollectReady(h, to, roots)
    ensures Tracked(h') && h'.pool == to && |h'.table| == |h.table|
    ensures forall j | 0 <= j < |h'.table| :: h'.table[j] == Null || InPool(h', h'.table[j])
  {
    ResetReady(h, to);
    var copied := CopyAll(Reset(h, to), roots);
    Sweep(copied, 0)
  }

  /**
   * What collect_garbage needs: every root is a used slot, every reference a
   * value of the table owns is a used slot, nothing is stored in the other
   * space yet, and copies of all values fit there.
   */
  ghost predicate CollectReady(h: Heap, to: nat, roots: seq<int>)
  {
    Tracked(h) &&
    (forall i | 0 <= i < |h.table| && h.table[i].Addr? :: Holds(h, h.store[h.table[i].a])) &&
    (forall i | 0 <= i < |h.table| :: !InPool(Reset(h, to), h.table[i])) &&
    BytesOut(h.table, h.store, to, h.size) <= h.size &&
    Used(h, roots)
  }

  /**
   * A table whose entries all lie in the pool, with the other space right
   * beside it, has nothing in the other space yet.
   */
  lemma ReadyToCollect(h: Heap, to: nat, roots: seq<int>)
    requires Tracked(h) && forall i | 0 <= i < |h.table| && h.table[i].Addr? :: Holds(h, h.store[h.table[i].a])
    requires forall i | 0 <= i < |h.table| :: h.table[i] == Null || InPool(h, h.table[i])
    requires to == h.pool + h.size || h.pool == to + h.size
    requires BytesOut(h.table, h.store, to, h.size) <= h.size
    requires Used(h, roots)
    ensures CollectReady(h, to, roots) && CopyReady(Reset(h, to))
    ensures Collect(h, to, roots) == Sweep(CopyAll(Reset(h, to), roots), 0)
  {
    ResetReady(h, to);
  }

  // ---------------------------------------------------------------- reachability

  /**
   * A chain of used slots in which each slot is a reference owned by the
   * value the slot before it names.
   */
  ghost predicate Path(h: Heap, p: seq<int>)
  {
    |p| >= 1 &&
    (forall k | 0 <= k < |p| :: 0 <= p[k] < |h.table| && h.table[p[k]].Addr? && h.table[p[k]].a in h.store) &&
    forall k | 0 <= k < |p| - 1 :: p[k + 1] in Children(h.store[h.table[p[k]].a])
  }

  /** Slot c is reached from one of the roots by following owned references. */
  ghost predicate Reachable(h: Heap, roots: seq<int>, c: int)
  {
    exists p | Path(h, p) :: p[0] in roots && p[|p| - 1] == c
  }

  /** A used root is reachable. */
  lemma RootReachable(h: Heap, roots: seq<int>, c: int)
    requires Tracked(h) && c in roots && 0 <= c < |h.table| && h.table[c].Addr?
    ensures Reachable(h, roots, c)
  {
    assert Path(h, [c]);
  }

  /** A used slot owned by the value of a reachable slot is reachable. */
  lemma ReachableStep(h: Heap, roots: seq<int>, i: int, c: int)
    requires Tracked(h) && Reachable(h, roots, i) && 0 <= i < |h.table| && h.table[i].Addr?
    requires c in Children(h.store[h.table[i].a]) && 0 <= c < |h.table| && h.table[c].Addr?
    ensures Reachable(h, roots, c)
  {
    var p :| Path(h, p) && p[0] in roots && p[|p| - 1] == i;
    var q := p + [c];
    assert forall k | 0 <= k < |p| :: q[k] == p[k];
    assert Path(h, q);
  }

  /** Every entry of g in the pool is reachable in b from the roots. */
  ghost predicate PoolReachable(g: Heap, b: Heap, roots: seq<int>)
  {
    forall i | 0 <= i < |g.table| && InPool(g, g.table[i]) :: Reachable(b, roots, i)
  }

  /**
   * copy_contents of a reachable slot moves only reachable slots: it moves
   * the slot itself, and then the references its value owns.
   */
  lemma {:induction false} CopyWithin(b: Heap, g: Heap, r: int, roots: seq<int>)
    requires CopyReady(b) && CopyReady(g) && Moved(b, g) && PoolReachable(g, b, roots)
    requires Reachable(b, roots, r)
    ensures PoolReachable(Copy(g, r), b, roots)
    decreases PendingCount(g), 0
  {
    if 0 <= r < |g.table| && g.table[r].Addr? && !InPool(g, g.table[r]) {
      var v := g.store[g.table[r].a];
      var g1 := CopyValue(g, r);
      CopyOne(g, r);
      MovedTrans(b, g, g1);
      assert g.table[r] == b.table[r] || MovedEntry(b, g, r);
      assert v == b.store[b.table[r].a];
      forall c | c in Children(v)
        ensures Reachable(b, roots, c)
      {
        ReachableStep(b, roots, r, c);
      }
      CopyAllWithin(b, g1, Children(v), roots);
    }
  }

  lemma {:induction false} CopyAllWithin(b: Heap, g: Heap, rs: seq<int>, roots: seq<int>)
    requires CopyReady(b) && CopyReady(g) && Moved(b, g) && PoolReachable(g, b, roots)
    requires forall c | c in rs :: Reachable(b, roots, c)
    ensures PoolReachable(CopyAll(g, rs), b, roots)
    decreases PendingCount(g), 1, |rs|
  {
    if rs != [] {
      CopyWithin(b, g, rs[0], roots);
      var g1 := Copy(g, rs[0]);
      MovedTrans(b, g, g1);
      CopyAllWithin(b, g1, rs[1..], roots);
    }
  }

  /**
   * Once the roots are in a closed pool that b had nothing in, the end of
   * every path from a root is in the pool.
   */
  lemma {:induction false} PathInPool(b: Heap, g: Heap, roots: seq<int>, p: seq<int>)
    requires Tracked(b) && Moved(b, g) && ClosedExcept(g, {})
    requires forall i | 0 <= i < |b.table| :: !InPool(b, b.table[i])
    requires forall c | c in roots && 0 <= c < |g.table| :: InPool(g, g.table[c])
    requires Path(b, p) && p[0] in roots
    ensures InPool(g, g.table[p[|p| - 1]])
    decreases |p|
  {
    if |p| > 1 {
      var q := p[..|p| - 1];
      assert Path(b, q);
      PathInPool(b, g, roots, q);
      var i := q[|q| - 1];
      assert g.table[i] == b.table[i] || MovedEntry(b, g, i);
      assert p[|p| - 1] in Children(b.store[b.table[i].a]);
    }
  }

  /** Switching the allocator to the other space changes no path of the table. */
  lemma PathReset(h: Heap, to: nat, p: seq<int>)
    requires CollectReady(h, to, [])
    ensures Path(h, p) <==> Path(Reset(h, to), p)
  {
    var b := Reset(h, to);
    assert forall i | 0 <= i < |h.table| && h.table[i].Addr? :: h.table[i].a in b.store && b.store[h.table[i].a] == h.store[h.table[i].a];
  }

  lemma ReachableReset(h: Heap, to: nat, roots: seq<int>, c: int)
    requires CollectReady(h, to, roots)
    ensures Reachable(h, roots, c) <==> Reachable(Reset(h, to), roots, c)
  {
    if Reachable(h, roots, c) {
      var p :| Path(h, p) && p[0] in roots && p[|p| - 1] == c;
      PathReset(h, to, p);
    }
    if Reachable(Reset(h, to), roots, c) {
      var p :| Path(Reset(h, to), p) && p[0] in roots && p[|p| - 1] == c;
      PathReset(h, to, p);
    }
  }

  /**
   * Copying used roots into a pool that held nothing moves exactly the
   * slots reachable from them.
   */
  lemma CopyRootsReachable(b: Heap, roots: seq<int>)
    requires CopyReady(b) && Used(b, roots) && forall i | 0 <= i < |b.table| :: !InPool(b, b.table[i])
    ensures var g := CopyAll(b, roots);
      forall c | 0 <= c < |b.table| :: InPool(g, g.table[c]) <==> Reachable(b, roots, c)
  {
    var g := CopyAll(b, roots);
    CopyRootsCloses(b, roots);
    forall c | c in roots
      ensures Reachable(b, roots, c)
    {
      RootReachable(b, roots, c);
    }
    CopyAllWithin(b, b, roots, roots);
    forall c | 0 <= c < |b.table| && Reachable(b, roots, c)
      ensures InPool(g, g.table[c])
    {
      var p :| Path(b, p) && p[0] in roots && p[|p| - 1] == c;
      PathInPool(b, g, roots, p);
    }
  }

  /**
   * Before the sweep, every root names a value in the new pool and
   * everything those values reference, directly or not, is in the new pool
   * too; every value copied is identical to its original. The entries in the
   * new pool are exactly those reachable from the roots.
   */
  lemma CollectCopiesReachable(h: Heap, to: nat, roots: seq<int>)
    requires CollectReady(h, to, roots)
    ensures var h' := (ResetReady(h, to); CopyAll(Reset(h, to), roots));
      Moved(Reset(h, to), h') && ClosedExcept(h', {}) &&
      (forall c | c in roots :: InPool(h', h'.table[c])) &&
      forall c | 0 <= c < |h.table| :: InPool(h', h'.table[c]) <==> Reachable(h, roots, c)
  {
    ResetReady(h, to);
    var b := Reset(h, to);
    CopyRootsCloses(b, roots);
    CopyRootsReachable(b, roots);
    forall c | 0 <= c < |h.table|
      ensures Reachable(h, roots, c) <==> Reachable(b, roots, c)
    {
      ReachableReset(h, to, roots, c);
    }
  }

  /** collect_garbage clears every entry that no root reaches. */
  lemma CollectClearsUnreached(h: Heap, to: nat, roots: seq<int>, j: int)
    requires CollectReady(h, to, roots) && 0 <= j < |h.table| && !Reachable(h, roots, j)
    ensures Collect(h, to, roots).table[j] == Null
  {
    CollectCopiesReachable(h, to, roots);
    ResetReady(h, to);
    var copied := CopyAll(Reset(h, to), roots);
  }

  /** With no roots, collect_garbage clears every entry of the table. */
  lemma CollectWithoutRoots(h: Heap, to: nat)
    requires CollectReady(h, to, [])
    ensures forall j | 0 <= j < |h.table| :: Collect(h, to, []).table[j] == Null
  {
    forall j | 0 <= j < |h.table|
      ensures Collect(h, to, []).table[j] == Null
    {
      CollectClearsUnreached(h, to, [], j);
    }
  }

  /**
   * No value still outside the pool owns a reference to a slot whose entry
   * is in the pool: what the copy did not reach refers only to what it did
   * not reach. This is not something refs.c checks or keeps. It stands in
   * for the consistency of the reference counts (a count covers every
   * holder, so the sweep's decref of garbage never takes a reachable value
   * to zero), which depends on the callers of incref and decref and is not
   * kept by this model.
   */
  ghost predicate GarbageIsolated(h: Heap)
  {
    forall j, c | 0 <= j < |h.table| && Outside(h.table[j], h.pool, h.size) && h.table[j].a in h.store &&
                  c in Children(h.store[h.table[j].a]) && 0 <= c < |h.table| :: !InPool(h, h.table[c])
  }

  /** decref of slots whose entries are not in the pool changes nothing. */
  lemma {:induction false} ReleaseAllSkips(h: Heap, rs: seq<int>)
    requires Tracked(h) && forall c | c in rs :: 0 <= c < |h.table| && !InPool(h, h.table[c])
    ensures ReleaseAll(h, rs) == h
    decreases |rs|
  {
    if rs != [] {
      assert rs[0] in rs;
      assert Release(h, rs[0]) == h;
      assert forall c | c in rs[1..] :: c in rs;
      ReleaseAllSkips(h, rs[1..]);
    }
  }

  /** With garbage isolated, discarding a garbage slot only clears it, and garbage stays isolated. */
  lemma DiscardIsolated(h: Heap, i: nat)
    requires Tracked(h) && GarbageIsolated(h) && i < |h.table| && Outside(h.table[i], h.pool, h.size)
    ensures Discard(h, i) == h.(table := h.table[i := Null])
    ensures GarbageIsolated(Discard(h, i))
  {
    var v := h.store[h.table[i].a];
    assert ChildrenIn(v, |h.table|);
    ReleaseAllSkips(h, Children(v));
  }

  /**
   * With garbage isolated, the sweep from slot i frees nothing and touches
   * no entry that is in the pool or NULL.
   */
  lemma {:induction false} SweepKeepsLive(h: Heap, i: nat)
    requires Tracked(h) && GarbageIsolated(h) && i <= |h.table|
    ensures var h' := Sweep(h, i);
      |h'.table| == |h.table| && h'.store == h.store &&
      forall j | 0 <= j < |h.table| && !Outside(h.table[j], h.pool, h.size) :: h'.table[j] == h.table[j]
    decreases |h.table| - i
  {
    if i < |h.table| {
      if Outside(h.table[i], h.pool, h.size) {
        DiscardIsolated(h, i);
        SweepKeepsLive(Discard(h, i), i + 1);
      } else {
        SweepKeepsLive(h, i + 1);
      }
    }
  }

  /**
   * With garbage isolated, a pool closed under references stays closed
   * through the sweep, and every entry in it keeps its handle and its value.
   */
  lemma SweepKeepsClosed(h: Heap)
    requires Tracked(h) && GarbageIsolated(h) && ClosedExcept(h, {})
    ensures var h' := Sweep(h, 0);
      ClosedExcept(h', {}) && h'.store == h.store &&
      forall j | 0 <= j < |h.table| && InPool(h, h.table[j]) :: j < |h'.table| && h'.table[j] == h.table[j]
  {
    SweepKeepsLive(h, 0);
  }

  /**
   * Handles survive collect_garbage when garbage refers only to garbage:
   * every root still names a value in the new pool, identical to the value
   * it named before, and everything the values in the new pool reference,
   * directly or not, is still in the new pool.
   */
  lemma CollectKeepsRoots(h: Heap, to: nat, roots: seq<int>)
    requires CollectReady(h, to, roots)
    requires GarbageIsolated((ResetReady(h, to); CopyAll(Reset(h, to), roots)))
    ensures var h' := Collect(h, to, roots);
      ClosedExcept(h', {}) &&
      forall c | c in roots :: InPool(h', h'.table[c]) && h'.table[c].a in h'.store &&
        h'.store[h'.table[c].a] == h.store[h.table[c].a]
  {
    ResetReady(h, to);
    var r := Reset(h, to);
    var copied := CopyAll(r, roots);
    CollectCopiesReachable(h, to, roots);
    SweepKeepsClosed(copied);
    forall c | c in roots
      ensures r.table[c].a in copied.store && copied.store[copied.table[c].a] == h.store[h.table[c].a]
    {
      assert !InPool(r, r.table[c]);
      assert MovedEntry(r, copied, c);
    }
  }

  /**
   * When garbage refers only to garbage, collect_garbage keeps exactly the
   * entries reachable from the roots in the new pool.
   */
  lemma CollectKeepsReachable(h: Heap, to: nat, roots: seq<int>)
    requires CollectReady(h, to, roots)
    requires GarbageIsolated((ResetReady(h, to); CopyAll(Reset(h, to), roots)))
    ensures var h' := Collect(h, to, roots);
      forall c | 0 <= c < |h.table| :: InPool(h', h'.table[c]) <==> Reachable(h, roots, c)
  {
    ResetReady(h, to);
    var copied := CopyAll(Reset(h, to), roots);
    CollectCopiesReachable(h, to, roots);
    SweepKeepsClosed(copied);
    forall c | 0 <= c < |h.table| && !Reachable(h, roots, c)
      ensures Collect(h, to, roots).table[c] == Null
    {
      CollectClearsUnreached(h, to, roots, c);
    }
  }

  /**
   * A table of three used slots: slots 0 and 1 name lists that hold each
   * other, and slot 2 names a value that holds nothing.
   */
  const CycleHeap: Heap := Heap([Addr(0), Addr(8), Addr(16)],
                                map[0 := Value(ValList, 1, 8, [1]), 8 := Value(ValList, 1, 8, [0]),
                                    16 := Value(ValOther(0), 1, 8, [])],
                                0, 32, 24)

  lemma CycleReady()
    ensures CollectReady(CycleHeap, 32, [2])
  {
    var h := CycleHeap;
    CycleTracked();
    assert h.table[..2] == [Addr(0), Addr(8)] && [Addr(0), Addr(8)][..1] == [Addr(0)] && [Addr(0)][..0] == [];
    assert BytesOut([Addr(0)], h.store, 32, 32) == 8;
    assert BytesOut([Addr(0), Addr(8)], h.store, 32, 32) == 16;
  }

  lemma CycleTracked()
    ensures Tracked(CycleHeap)
    ensures forall i | 0 <= i < |CycleHeap.table| && CycleHeap.table[i].Addr? :: Holds(CycleHeap, CycleHeap.store[CycleHeap.table[i].a])
  {
    var h := CycleHeap;
    assert Children(h.store[0]) == [1] && Children(h.store[8]) == [0] && Children(h.store[16]) == [];
  }

  /** From the root slot 2 nothing else is reachable. */
  lemma CycleUnreached(j: int)
    requires j != 2
    ensures !Reachable(CycleHeap, [2], j)
  {
    var h := CycleHeap;
    forall p | Path(h, p) && p[0] in [2]
      ensures p[|p| - 1] == 2
    {
      assert |p| > 1 ==> p[1] in Children(h.store[h.table[p[0]].a]);
    }
  }

  /** An unrooted cycle is reclaimed: after collect_garbage with root slot 2, both slots of the cycle are NULL. */
  lemma CollectReclaimsCycle()
    ensures CollectReady(CycleHeap, 32, [2])
    ensures Collect(CycleHeap, 32, [2]).table[0] == Null && Collect(CycleHeap, 32, [2]).table[1] == Null
  {
    CycleReady();
    CycleUnreached(0);
    CycleUnreached(1);
    CollectClearsUnreached(CycleHeap, 32, [2], 0);
    CollectClearsUnreached(CycleHeap, 32, [2], 1);
  }

  // ---------------------------------------------------------------- incref and decref together

  /** incref: the count of the value at slot r goes up by one. */
  function IncRef(h: Heap, r: int): (h': Heap)
    requires Tracked(h) && 0 <= r < |h.table| && InPool(h, h.table[r])
    ensures Tracked(h') && h'.table == h.table && h'.store.Keys == h.store.Keys
    ensures var a := h.table[r].a;
      h'.store[a].refCount == h.store[a].refCount + 1 && SameShape(h.store[a], h'.store[a])
    ensures forall b | b in h.store && b != h.table[r].a :: h'.store[b] == h.store[b]
  {
    var a := h.table[r].a;
    Recount(h, a, h.store[a].(refCount := h.store[a].refCount + 1));
    h.(store := h.store[a := h.store[a].(refCount := h.store[a].refCount + 1)])
  }

  /**
   * The cases of decref that end early: an entry outside the pool changes
   * nothing, and a count above one is only lowered, with the table and every
   * other value as they were.
   */
  lemma ReleaseCases(h: Heap, r: int)
    requires Tracked(h) && 0 <= r < |h.table|
    ensures !InPool(h, h.table[r]) ==> Release(h, r) == h
    ensures InPool(h, h.table[r]) && h.store[h.table[r].a].refCount > 1 ==>
      var a := h.table[r].a;
      Release(h, r).table == h.table && Release(h, r).store.Keys == h.store.Keys &&
      Release(h, r).store[a].refCount == h.store[a].refCount - 1 &&
      forall b | b in h.store && b != a :: Release(h, r).store[b] == h.store[b]
  {
  }

  /** decref undoes incref on a live value. */
  lemma ReleaseUndoesIncRef(h: Heap, r: int)
    requires Tracked(h) && 0 <= r < |h.table| && InPool(h, h.table[r]) && h.store[h.table[r].a].refCount >= 1
    ensures Release(IncRef(h, r), r) == h
  {
    var a := h.table[r].a;
    assert IncRef(h, r).store[a := h.store[a]] == h.store;
  }

  /** decref of each of xs and then of x is decref of each of xs + [x]. */
  lemma {:induction false} ReleaseAllSnoc(h: Heap, xs: seq<int>, x: int)
    requires Tracked(h) && 0 <= x < |h.table| && forall c | c in xs :: 0 <= c < |h.table|
    ensures ReleaseAll(h, xs + [x]) == Release(ReleaseAll(h, xs), x)
    decreases |xs|
  {
    if xs == [] {
      assert xs + [x] == [x];
    } else {
      assert (xs + [x])[1..] == xs[1..] + [x];
      assert xs[0] in xs;
      assert forall c | c in xs[1..] :: c in xs;
      ReleaseAllSnoc(Release(h, xs[0]), xs[1..], x);
    }
  }

  /** One slot of traverse_decref's loop over a ref-array. */
  lemma ReleaseSlot(h: Heap, slots: seq<int>, i: nat, n: nat, cur: Heap)
    requires Tracked(h) && i < |slots| && n == i + 1 && forall c | c in Held(slots) :: 0 <= c < |h.table|
    requires forall c | c in Held(slots[..i]) :: 0 <= c < |h.table|
    requires cur == ReleaseAll(h, Held(slots[..i]))
    ensures forall c | c in Held(slots[..n]) :: 0 <= c < |h.table|
    ensures IsRef(slots[i]) ==> 0 <= slots[i] < |cur.table| && Release(cur, slots[i]) == ReleaseAll(h, Held(slots[..n]))
    ensures !IsRef(slots[i]) ==> cur == ReleaseAll(h, Held(slots[..n]))
  {
    HeldStep(slots, i);
    HeldPrefix(slots, n);
    if IsRef(slots[i]) {
      HeldMembers(slots, slots[i]);
      ReleaseAllSnoc(h, Held(slots[..i]), slots[i]);
    }
  }

  /** copy_contents of each of xs and then of x is copy_contents of each of xs + [x]. */
  lemma {:induction false} CopyAllSnoc(h: Heap, xs: seq<int>, x: int)
    requires CopyReady(h)
    ensures CopyAll(h, xs + [x]) == Copy(CopyAll(h, xs), x)
    decreases |xs|
  {
    if xs == [] {
      assert xs + [x] == [x];
    } else {
      assert (xs + [x])[1..] == xs[1..] + [x];
      CopyAllSnoc(Copy(h, xs[0]), xs[1..], x);
    }
  }

  /** traverse_decref of a list or a dictionary: decref of its one or two references in order. */
  lemma ReleaseOneTwo(h: Heap, x: int, y: int)
    requires Tracked(h) && 0 <= x < |h.table| && 0 <= y < |h.table|
    ensures ReleaseAll(h, [x]) == Release(h, x)
    ensures ReleaseAll(h, [x, y]) == Release(Release(h, x), y)
  {
    ReleaseAllSnoc(h, [], x);
    ReleaseAllSnoc(h, [x], y);
    assert [x] + [y] == [x, y];
  }

  /** copy_contents of a list or a dictionary: of its one or two references in order. */
  lemma CopyOneTwo(h: Heap, x: int, y: int)
    requires CopyReady(h)
    ensures CopyAll(h, [x]) == Copy(h, x)
    ensures CopyAll(h, [x, y]) == Copy(Copy(h, x), y)
  {
    CopyAllSnoc(h, [], x);
    CopyAllSnoc(h, [x], y);
    assert [x] + [y] == [x, y];
  }

  /** One slot of copy_contents' loop over a ref-array. */
  lemma CopySlot(h: Heap, slots: seq<int>, i: nat, n: nat, cur: Heap)
    requires CopyReady(h) && i < |slots| && n == i + 1
    requires Used(h, Held(slots))
    requires cur == CopyAll(h, Held(slots[..i]))
    ensures IsRef(slots[i]) ==> (0 <= slots[i] < |cur.table| && cur.table[slots[i]].Addr? &&
      Copy(cur, slots[i]) == CopyAll(h, Held(slots[..n])))
    ensures !IsRef(slots[i]) ==> cur == CopyAll(h, Held(slots[..n]))
  {
    HeldStep(slots, i);
    if IsRef(slots[i]) {
      HeldMembers(slots, slots[i]);
      var x := slots[i];
      MovedKeepsUsed(h, cur, x);
      CopyAllSnoc(h, Held(slots[..i]), x);
    }
  }

  /** One root of the copy phase of collect_garbage. */
  lemma CopyRoot(h: Heap, roots: seq<int>, k: nat, n: nat, cur: Heap)
    requires CopyReady(h) && k < |roots| && n == k + 1
    requires Used(h, roots)
    requires cur == CopyAll(h, roots[..k])
    ensures 0 <= roots[k] < |cur.table| && cur.table[roots[k]].Addr? && Copy(cur, roots[k]) == CopyAll(h, roots[..n])
  {
    var x := roots[k];
    TakeNext(roots, k);
    assert x in roots;
    MovedKeepsUsed(h, cur, x);
    CopyAllSnoc(h, roots[..k], x);
  }

  lemma TakeNext(s: seq<int>, k: nat)
    requires k < |s|
    ensures s[..k + 1] == s[..k] + [s[k]]
  {
  }

  // ---------------------------------------------------------------- the table itself

  /**
   * make_ref's new state is tracked: a value that owns no references yet,
   * at the allocator's next block, under the slot assign_reference picks.
   */
  lemma MakeTracked(h: Heap, v: Value)
    requires Tracked(h) && h.top + Footprint(v.size) <= h.pool + h.size && Children(v) == []
    requires forall i | 0 <= i < |h.table| :: h.table[i] == Null || InPool(h, h.table[i])
    ensures var t := Assigned(h.table, Addr(h.top));
      var h' := Heap(t, h.store[h.top := v], h.pool, h.size, h.top + Footprint(v.size));
      Tracked(h') && forall i | 0 <= i < |t| :: t[i] == Null || InPool(h', t[i])
  {
    TopUnused(h);
  }

  /** The slot assign_reference hands out: the first unused one, or a new one at the end. */
  function FirstNull(t: seq<Ptr>): (i: nat)
    ensures i <= |t| && (i < |t| ==> t[i] == Null)
    ensures forall j | 0 <= j < i :: t[j] != Null
  {
    if t == [] || t[0] == Null then 0 else 1 + FirstNull(t[1..])
  }

  /**
   * The table after assign_reference(p): p in the first unused slot, or in
   * a new slot at the end; every other slot as it was.
   */
  function Assigned(t: seq<Ptr>, p: Ptr): (t': seq<Ptr>)
    ensures var r := FirstNull(t);
      |t'| == (if r < |t| then |t| else |t| + 1) && t'[r] == p &&
      forall j | 0 <= j < |t| && j != r :: t'[j] == t[j]
  {
    var r := FirstNull(t);
    if r < |t| then t[r := p] else t + [p]
  }

  /** The used slots below n. */
  function UsedBelow(t: seq<Ptr>, n: nat): set<int>
    requires n <= |t|
  {
    set j | 0 <= j < n && t[j] != Null
  }

  lemma UsedBelowStep(t: seq<Ptr>, n: nat)
    requires n < |t|
    ensures |UsedBelow(t, n + 1)| == |UsedBelow(t, n)| + if t[n] != Null then 1 else 0
  {
    var below, next := UsedBelow(t, n), UsedBelow(t, n + 1);
    if t[n] != Null {
      assert next == below + {n} by {
        forall j ensures j in next <==> j in below + {n} { }
      }
    } else {
      assert next == below by {
        forall j ensures j in next <==> j in below { }
      }
    }
  }
}
