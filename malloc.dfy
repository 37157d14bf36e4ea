/**
 * The explicit-free-list allocator of Malloc/mm.c. The four global pointers,
 * the heap break, the header and footer words and the free-list links are the
 * fields of one Allocator; mm_checkheap's checks are its invariant Valid().
 * Addresses count bytes from the start of the heap (mem_heap_lo).
 */
module Malloc {
  import opened Memory
  import opened MallocLayout

  function Min(a: nat, b: nat): nat
  {
    if a < b then a else b
  }

  /** 2^64: size_t arithmetic wraps modulo this. */
  const SIZE_T_MODULUS: nat := 0x1_0000_0000_0000_0000

  /** The heap between the padding and the break is tiled by bs, and first/last point at its end blocks. */
  ghost predicate Shaped(bs: seq<Block>, brk: nat, limit: nat, first: Ptr, last: Ptr)
  {
    HEAP_START <= brk <= limit &&
    Layout(bs, HEAP_START, brk) &&
    first == (if bs == [] then Null else Addr(bs[0].offset)) &&
    last == (if bs == [] then Null else Addr(bs[|bs| - 1].offset))
  }

  /** split keeps the heap tiled; the leftover becomes heap_last when the split block was last. */
  lemma SplitKeepsShaped(bs: seq<Block>, brk: nat, limit: nat, first: Ptr, last: Ptr, i: nat, n: nat)
    requires Shaped(bs, brk, limit, first, last) && i < |bs|
    requires n % ALIGNMENT == 0 && MIN_BLOCK_SIZE <= n <= Size(bs[i])
    ensures Shaped(SplitBlocks(bs, i, n), brk, limit, first,
      if SplitsOff(Size(bs[i]), n) && last == Addr(bs[i].offset) then Addr(bs[i].offset + n) else last)
  {
    LayoutSplit(bs, HEAP_START, brk, i, n);
    SplitEnds(bs, HEAP_START, brk, i, n);
  }

  /**
   * malloc(size) as a transition: first fit from the front of the free list,
   * split and marked allocated; otherwise a new allocated block of
   * get_block_size(size) bytes at the break; NULL when the break cannot grow.
   */
  ghost predicate MallocStep(bs: seq<Block>, fl: seq<nat>, brk: nat, limit: nat, size: nat,
                             p: Ptr, bs': seq<Block>, fl': seq<nat>, brk': nat)
    requires forall o | o in fl :: o in Offsets(bs)
  {
    var need := GetBlockSize(size);
    match FirstFit(bs, fl, need)
    case Some(k) =>
      var i := IndexOf(bs, fl[k]);
      p == Addr(Payload(bs[i])) && brk' == brk &&
      bs' == Mark(SplitBlocks(bs, i, need), i, true) && fl' == SplitList(bs, fl, i, need)
    case None =>
      if brk + need <= limit then
        p == Addr(brk + WORD) && brk' == brk + need && bs' == bs + [Tag(brk, need, true)] && fl' == fl
      else
        p == Null && brk' == brk && bs' == bs && fl' == fl
  }

  /**
   * free(p) as a transition: a payload inside the heap has its block marked
   * free, pushed on the list and coalesced; any other pointer changes nothing.
   */
  ghost predicate FreeStep(bs: seq<Block>, fl: seq<nat>, brk: nat, p: Ptr, bs': seq<Block>, fl': seq<nat>)
    requires p.Addr? && p.a < brk ==> p.a >= WORD && p.a - WORD in Offsets(bs)
  {
    if p.Addr? && p.a < brk then
      var i := IndexOf(bs, p.a - WORD);
      bs' == Coalesced(Mark(bs, i, false), i) && fl' == CoalescedList(Mark(bs, i, false), [bs[i].offset] + fl, i)
    else
      bs' == bs && fl' == fl
  }

  /** coalescing keeps the heap tiled; the merged block becomes heap_last when its absorbed neighbour was last. */
  lemma MergeKeepsShaped(bs: seq<Block>, brk: nat, limit: nat, first: Ptr, last: Ptr, i: nat)
    requires Shaped(bs, brk, limit, first, last) && i + 1 < |bs|
    ensures Shaped(MergeAt(bs, i), brk, limit, first, if last == Addr(bs[i + 1].offset) then Addr(bs[i].offset) else last)
  {
    LayoutMerge(bs, HEAP_START, brk, i);
    MergeEnds(bs, HEAP_START, brk, i);
  }

  /** set_header_and_footer on one block changes neither the tiling nor its ends. */
  lemma MarkKeepsShaped(bs: seq<Block>, brk: nat, limit: nat, first: Ptr, last: Ptr, i: nat, alloc: bool)
    requires Shaped(bs, brk, limit, first, last) && i < |bs|
    ensures Shaped(Mark(bs, i, alloc), brk, limit, first, last)
  {
    LayoutMark(bs, HEAP_START, brk, i, alloc);
  }

  /** Growing the heap by a new last block keeps it tiled; the block becomes heap_last, and heap_first if it is the only one. */
  lemma AppendKeepsShaped(bs: seq<Block>, brk: nat, limit: nat, first: Ptr, last: Ptr, n: nat)
    requires Shaped(bs, brk, limit, first, last)
    requires n % ALIGNMENT == 0 && n >= MIN_BLOCK_SIZE && brk + n <= limit
    ensures Shaped(bs + [Tag(brk, n, true)], brk + n, limit, if first == Null then Addr(brk) else first, Addr(brk))
  {
    LayoutAppend(bs, HEAP_START, brk, n, true);
  }

  /** A listed offset names a free heap block. */
  lemma ListedIsFree(bs: seq<Block>, fl: seq<nat>, start: nat, end: nat, o: nat)
    requires Layout(bs, start, end) && FreeListed(bs, fl) && o in fl
    ensures o in Offsets(bs) && !Allocated(bs[IndexOf(bs, o)])
  {
    LayoutBounds(bs, start, end);
    IndexOfBlock(bs, IndexOf(bs, o));
  }

  /** The checks mm_checkheap makes on the blocks and the free list, as values. */
  ghost predicate Checked(bs: seq<Block>, fl: seq<nat>, brk: nat)
  {
    Layout(bs, HEAP_START, brk) && FreeListed(bs, fl) && NoDuplicates(fl) && NoAdjacentFree(bs)
  }

  /**
   * What malloc promises its caller: NULL exactly when no listed block fits
   * and the break cannot grow; otherwise an ALIGNMENT-aligned payload, free
   * before the call, now reserved with room for size bytes.
   */
  lemma MallocReserves(bs: seq<Block>, fl: seq<nat>, brk: nat, limit: nat, size: nat,
                       p: Ptr, bs': seq<Block>, fl': seq<nat>, brk': nat)
    requires Checked(bs, fl, brk)
    requires MallocStep(bs, fl, brk, limit, size, p, bs', fl', brk')
    ensures p == Null <==> FirstFit(bs, fl, GetBlockSize(size)).None? && brk + GetBlockSize(size) > limit
    ensures p != Null ==> Reserved(bs', p.a, size) && p.a % ALIGNMENT == 0 && !Reserved(bs, p.a, 0)
  {
    var need := GetBlockSize(size);
    LayoutBounds(bs, HEAP_START, brk);
    PayloadsAligned(bs, HEAP_START, brk);
    match FirstFit(bs, fl, need)
    case Some(k) =>
      var i := IndexOf(bs, fl[k]);
      ListedIsFree(bs, fl, HEAP_START, brk, fl[k]);
      AllocateKeepsReserved(bs, i, need, Payload(bs[i]), size);
      FreeBlockNotReserved(bs, i);
    case None =>
      if brk + need <= limit {
        assert bs'[|bs|] == Tag(brk, need, true);
        if Reserved(bs, p.a, 0) {
          ReservedBelowEnd(bs, HEAP_START, brk, p.a, 0);
        }
      }
  }

  /** malloc leaves every earlier reservation in place. */
  lemma MallocKeepsReservation(bs: seq<Block>, fl: seq<nat>, brk: nat, limit: nat, size: nat,
                               p: Ptr, bs': seq<Block>, fl': seq<nat>, brk': nat, a: nat, n: nat)
    requires Layout(bs, HEAP_START, brk) && FreeListed(bs, fl)
    requires MallocStep(bs, fl, brk, limit, size, p, bs', fl', brk')
    requires Reserved(bs, a, n)
    ensures Reserved(bs', a, n)
  {
    var need := GetBlockSize(size);
    match FirstFit(bs, fl, need)
    case Some(k) =>
      var i := IndexOf(bs, fl[k]);
      ListedIsFree(bs, fl, HEAP_START, brk, fl[k]);
      AllocateKeepsReserved(bs, i, need, a, n);
    case None =>
      if brk + need <= limit {
        AppendKeepsReserved(bs, Tag(brk, need, true), a, n);
      }
  }

  /** A payload reserved before malloc is still reserved, and inside the heap, after it. */
  lemma StillReserved(bs: seq<Block>, fl: seq<nat>, brk: nat, limit: nat, size: nat,
                      p: Ptr, bs': seq<Block>, fl': seq<nat>, brk': nat, a: nat)
    requires Layout(bs, HEAP_START, brk) && FreeListed(bs, fl) && Layout(bs', HEAP_START, brk')
    requires MallocStep(bs, fl, brk, limit, size, p, bs', fl', brk')
    requires Reserved(bs, a, 0)
    ensures Reserved(bs', a, 0) && WORD <= a < brk' && a - WORD in Offsets(bs')
  {
    MallocKeepsReservation(bs, fl, brk, limit, size, p, bs', fl', brk', a, 0);
    ReservedInHeap(bs', HEAP_START, brk', a, 0);
  }

  /** What free promises its caller: a reserved payload inside the heap is released. */
  lemma FreeReleasesPayload(bs: seq<Block>, fl: seq<nat>, brk: nat, p: Ptr, bs': seq<Block>, fl': seq<nat>)
    requires p.Addr? && p.a < brk ==> p.a >= WORD && p.a - WORD in Offsets(bs)
    requires Layout(bs, HEAP_START, brk) && FreeStep(bs, fl, brk, p, bs', fl')
    ensures p.Addr? && p.a < brk ==> !Reserved(bs', p.a, 0)
    ensures !(p.Addr? && p.a < brk) ==> bs' == bs && fl' == fl
  {
    if p.Addr? && p.a < brk {
      LayoutBounds(bs, HEAP_START, brk);
      FreeReleases(bs, IndexOf(bs, p.a - WORD));
    }
  }

  /** free leaves every reservation of another payload in place. */
  lemma FreeKeepsReservation(bs: seq<Block>, fl: seq<nat>, brk: nat, p: Ptr, bs': seq<Block>, fl': seq<nat>, a: nat, n: nat)
    requires p.Addr? && p.a < brk ==> p.a >= WORD && p.a - WORD in Offsets(bs)
    requires FreeStep(bs, fl, brk, p, bs', fl')
    requires Reserved(bs, a, n) && p != Addr(a)
    ensures Reserved(bs', a, n)
  {
    if p.Addr? && p.a < brk {
      FreeKeepsReserved(bs, IndexOf(bs, p.a - WORD), a, n);
    }
  }

  /**
   * The moving case of realloc as a transition: malloc(size) takes the heap
   * from bs to mid; when it fails the result is NULL; otherwise
   * min(size, old block size) bytes are copied and free(p) takes mid to bs'.
   */
  ghost predicate Moved(bs: seq<Block>, fl: seq<nat>, brk: nat, limit: nat, p: Ptr, size: nat,
                        q: Ptr, copied: nat, mid: seq<Block>, midList: seq<nat>,
                        bs': seq<Block>, fl': seq<nat>, brk': nat)
    requires forall o | o in fl :: o in Offsets(bs)
    requires p.Addr? && p.a >= WORD && p.a - WORD in Offsets(bs)
  {
    MallocStep(bs, fl, brk, limit, size, q, mid, midList, brk') &&
    (q == Null ==> copied == 0 && bs' == bs && fl' == fl) &&
    (q != Null ==> copied == Min(size, SizeAt(bs, p.a - WORD)) && p.a < brk' && p.a - WORD in Offsets(mid) &&
                   FreeStep(mid, midList, brk', p, bs', fl'))
  }

  /** malloc keeps every check of mm_checkheap. */
  lemma MallocKeepsChecked(bs: seq<Block>, fl: seq<nat>, brk: nat, limit: nat, size: nat,
                           p: Ptr, bs': seq<Block>, fl': seq<nat>, brk': nat)
    requires Checked(bs, fl, brk)
    requires MallocStep(bs, fl, brk, limit, size, p, bs', fl', brk')
    ensures Checked(bs', fl', brk')
  {
    var need := GetBlockSize(size);
    match FirstFit(bs, fl, need)
    case Some(k) =>
      var i := IndexOf(bs, fl[k]);
      ListedIsFree(bs, fl, HEAP_START, brk, fl[k]);
      AllocateKeepsChecks(bs, fl, HEAP_START, brk, i, need);
    case None =>
      if brk + need <= limit {
        AppendKeepsChecks(bs, fl, HEAP_START, brk, need);
      }
  }

  /** free of a reserved payload, of NULL or of an address past the break keeps every check of mm_checkheap. */
  lemma FreeKeepsChecked(bs: seq<Block>, fl: seq<nat>, brk: nat, p: Ptr, bs': seq<Block>, fl': seq<nat>)
    requires Checked(bs, fl, brk)
    requires p.Addr? && p.a < brk ==> Reserved(bs, p.a, 0)
    requires p.Addr? && p.a < brk ==> p.a >= WORD && p.a - WORD in Offsets(bs)
    requires FreeStep(bs, fl, brk, p, bs', fl')
    ensures Checked(bs', fl', brk)
  {
    if p.Addr? && p.a < brk {
      FreeablePayload(bs, fl, HEAP_START, brk, p.a);
      FreeKeepsChecks(bs, fl, HEAP_START, brk, IndexOf(bs, p.a - WORD));
    }
  }

  /** Malloc into mid followed by free of the old payload is a move. */
  lemma MovedFrom(bs: seq<Block>, fl: seq<nat>, brk: nat, limit: nat, p: Ptr, size: nat,
                  q: Ptr, copied: nat, mid: seq<Block>, midList: seq<nat>,
                  bs': seq<Block>, fl': seq<nat>, brk': nat)
    requires forall o | o in fl :: o in Offsets(bs)
    requires p.Addr? && p.a >= WORD && p.a - WORD in Offsets(bs)
    requires MallocStep(bs, fl, brk, limit, size, q, mid, midList, brk')
    requires q != Null && copied == Min(size, SizeAt(bs, p.a - WORD)) && p.a < brk' && p.a - WORD in Offsets(mid)
    requires FreeStep(mid, midList, brk', p, bs', fl')
    ensures Moved(bs, fl, brk, limit, p, size, q, copied, mid, midList, bs', fl', brk')
  {
  }

  /**
   * What the moving case of realloc promises its caller: when the new
   * malloc succeeds, the new payload is reserved with room for size bytes,
   * the old one is released, every other reservation is kept, and
   * min(size, old block size) bytes are copied.
   */
  lemma MoveReserves(bs: seq<Block>, fl: seq<nat>, brk: nat, limit: nat, p: Ptr, size: nat,
                     q: Ptr, copied: nat, mid: seq<Block>, midList: seq<nat>,
                     bs': seq<Block>, fl': seq<nat>, brk': nat)
    requires p.Addr? && p.a >= WORD && p.a - WORD in Offsets(bs)
    requires forall o | o in fl :: o in Offsets(bs)
    requires Checked(bs, fl, brk) && Reserved(bs, p.a, 0)
    requires Moved(bs, fl, brk, limit, p, size, q, copied, mid, midList, bs', fl', brk')
    ensures q == Null ==> copied == 0 && bs' == bs && fl' == fl
    ensures q != Null ==>
      q != p && Reserved(bs', q.a, size) && !Reserved(bs', p.a, 0) &&
      copied == Min(size, SizeAt(bs, p.a - WORD)) &&
      forall a, n | Reserved(bs, a, n) && a != p.a :: Reserved(bs', a, n)
  {
    if q != Null {
      MallocReserves(bs, fl, brk, limit, size, q, mid, midList, brk');
      MallocKeepsChecked(bs, fl, brk, limit, size, q, mid, midList, brk');
      FreeKeepsReservation(mid, midList, brk', p, bs', fl', q.a, size);
      FreeReleasesPayload(mid, midList, brk', p, bs', fl');
      forall a, n | Reserved(bs, a, n) && a != p.a
        ensures Reserved(bs', a, n)
      {
        MallocKeepsReservation(bs, fl, brk, limit, size, q, mid, midList, brk', a, n);
        FreeKeepsReservation(mid, midList, brk', p, bs', fl', a, n);
      }
    }
  }

  // ---------------------------------------------------------------- malloc, free, malloc

  /** The block that ends where block i begins is block i - 1. */
  lemma BlockBefore(bs: seq<Block>, start: nat, end: nat, i: nat, j: nat)
    requires Layout(bs, start, end) && i < |bs| && j < |bs| && End(bs[j]) == bs[i].offset
    ensures i > 0 && j == i - 1
  {
    LayoutBounds(bs, start, end);
    assert j + 1 < |bs| ==> End(bs[j]) <= bs[j + 1].offset;
  }

  /** Coalescing a block with no free predecessor keeps its offset and does not shrink it. */
  lemma CoalescedKeepsStart(m: seq<Block>, i: nat)
    requires i < |m| && !FreePrev(m, i)
    ensures i < |Coalesced(m, i)| && Coalesced(m, i)[i].offset == m[i].offset
    ensures Size(Coalesced(m, i)[i]) >= Size(m[i])
  {
    if FreeNext(m, i) {
      MergeAtIndices(m, i);
    }
  }

  /** Coalescing a block with no free predecessor leaves it first on the list free pushed it onto. */
  lemma CoalescedListFront(m: seq<Block>, fl: seq<nat>, i: nat)
    requires i < |m| && !FreePrev(m, i) && (FreeNext(m, i) ==> m[i + 1].offset != m[i].offset)
    ensures var r := CoalescedList(m, [m[i].offset] + fl, i); r != [] && r[0] == m[i].offset
  {
    if FreeNext(m, i) {
      assert ([m[i].offset] + fl)[1..] == fl;
    }
  }

  /** In a tiled heap, the block at offset o is preceded by the block ending at o and followed by a block at another offset. */
  lemma FreedNeighbours(bs: seq<Block>, brk: nat, o: nat)
    requires o in Offsets(bs) && Layout(bs, HEAP_START, brk)
    requires forall j | 0 <= j < |bs| && End(bs[j]) == o :: Allocated(bs[j])
    ensures var i := IndexOf(bs, o);
      i < |bs| && bs[i].offset == o && (i > 0 ==> Allocated(bs[i - 1])) && (i + 1 < |bs| ==> bs[i + 1].offset != o)
  {
    var i := IndexOf(bs, o);
    assert i > 0 ==> End(bs[i - 1]) == bs[i].offset;
    assert i + 1 < |bs| ==> bs[i + 1].offset == End(bs[i]) && WellFormed(bs[i]);
  }

  /** Block i, freed with no free predecessor, keeps its offset, does not shrink, and heads the free list. */
  lemma FreedFront(bs: seq<Block>, fl: seq<nat>, i: nat)
    requires i < |bs| && (i > 0 ==> Allocated(bs[i - 1])) && (i + 1 < |bs| ==> bs[i + 1].offset != bs[i].offset)
    ensures var m := Mark(bs, i, false);
      var bs' := Coalesced(m, i);
      var fl' := CoalescedList(m, [bs[i].offset] + fl, i);
      i < |bs'| && fl' != [] && fl'[0] == bs[i].offset && bs'[i].offset == bs[i].offset && Size(bs'[i]) >= Size(bs[i])
  {
    var m := Mark(bs, i, false);
    assert i > 0 ==> m[i - 1] == bs[i - 1];
    assert i + 1 < |bs| ==> m[i + 1] == bs[i + 1];
    CoalescedKeepsStart(m, i);
    CoalescedListFront(m, fl, i);
  }

  /**
   * malloc(size), free of its result, then malloc(size) again gives back the
   * same payload when the block physically before the first result is not
   * free: free then merges nothing into an earlier block, so the freed block
   * keeps its offset and its size and sits at the front of the free list,
   * where find_fit looks first.
   */
  lemma FreeThenMallocReuses(bs: seq<Block>, fl: seq<nat>, brk: nat, limit: nat, size: nat,
                             p: Ptr, bs1: seq<Block>, fl1: seq<nat>, brk1: nat,
                             bs2: seq<Block>, fl2: seq<nat>,
                             q: Ptr, bs3: seq<Block>, fl3: seq<nat>, brk3: nat)
    requires Checked(bs, fl, brk)
    requires MallocStep(bs, fl, brk, limit, size, p, bs1, fl1, brk1) && p != Null
    requires p.a < brk1 ==> p.a >= WORD && p.a - WORD in Offsets(bs1)
    requires FreeStep(bs1, fl1, brk1, p, bs2, fl2)
    requires forall o | o in fl2 :: o in Offsets(bs2)
    requires MallocStep(bs2, fl2, brk1, limit, size, q, bs3, fl3, brk3)
    requires forall j | 0 <= j < |bs1| && End(bs1[j]) == p.a - WORD :: Allocated(bs1[j])
    ensures q == p
  {
    MallocRoom(bs, fl, brk, limit, size, p, bs1, fl1, brk1);
    FreedFits(bs1, fl1, brk1, p, bs2, fl2, GetBlockSize(size));
  }

  /** A non-NULL malloc result names an allocated block of at least get_block_size(size) bytes in a checked heap. */
  lemma MallocRoom(bs: seq<Block>, fl: seq<nat>, brk: nat, limit: nat, size: nat,
                   p: Ptr, bs': seq<Block>, fl': seq<nat>, brk': nat)
    requires Checked(bs, fl, brk)
    requires MallocStep(bs, fl, brk, limit, size, p, bs', fl', brk') && p != Null
    ensures Checked(bs', fl', brk') && Reserved(bs', p.a, 0) && p.a < brk'
    ensures p.a >= WORD && p.a - WORD in Offsets(bs') && Size(bs'[IndexOf(bs', p.a - WORD)]) >= GetBlockSize(size)
  {
    assert Checked(bs', fl', brk') by {
      MallocKeepsChecked(bs, fl, brk, limit, size, p, bs', fl', brk');
    }
    assert Reserved(bs', p.a, size) by {
      MallocReserves(bs, fl, brk, limit, size, p, bs', fl', brk');
    }
    ReservedRoom(bs', brk', p.a, size);
  }

  /**
   * Freeing a reserved payload of at least need bytes whose block has no
   * free predecessor leaves a free list that find_fit answers with it.
   */
  lemma FreedFits(bs: seq<Block>, fl: seq<nat>, brk: nat, p: Ptr, bs': seq<Block>, fl': seq<nat>, need: nat)
    requires Checked(bs, fl, brk) && p.Addr? && Reserved(bs, p.a, 0) && p.a < brk
    requires p.a >= WORD && p.a - WORD in Offsets(bs) && Size(bs[IndexOf(bs, p.a - WORD)]) >= need
    requires FreeStep(bs, fl, brk, p, bs', fl')
    requires forall j | 0 <= j < |bs| && End(bs[j]) == p.a - WORD :: Allocated(bs[j])
    ensures forall o | o in fl' :: o in Offsets(bs')
    ensures FirstFit(bs', fl', need) == Some(0) && Payload(bs'[IndexOf(bs', fl'[0])]) == p.a
  {
    var i := IndexOf(bs, p.a - WORD);
    FreedNeighbours(bs, brk, p.a - WORD);
    FreedFront(bs, fl, i);
    FreeKeepsChecked(bs, fl, brk, p, bs', fl');
    FrontFits(bs', fl', brk, i, need);
  }

  /** A payload reserved for size bytes lies in a block of at least get_block_size(size) bytes. */
  lemma ReservedRoom(bs: seq<Block>, brk: nat, a: nat, size: nat)
    requires Layout(bs, HEAP_START, brk) && Reserved(bs, a, size)
    ensures Reserved(bs, a, 0) && a < brk
    ensures a >= WORD && a - WORD in Offsets(bs) && Size(bs[IndexOf(bs, a - WORD)]) >= GetBlockSize(size)
  {
    ReservedInHeap(bs, HEAP_START, brk, a, size);
    var i := IndexOf(bs, a - WORD);
    assert WellFormed(bs[i]) && Payload(bs[i]) == a;
    BlockSizeIsLeast(size, Size(bs[i]));
  }

  /** When the head of the free list is block i and it fits, find_fit takes it. */
  lemma FrontFits(bs: seq<Block>, fl: seq<nat>, brk: nat, i: nat, need: nat)
    requires Checked(bs, fl, brk) && i < |bs| && fl != [] && fl[0] == bs[i].offset && Size(bs[i]) >= need
    ensures FirstFit(bs, fl, need) == Some(0) && IndexOf(bs, fl[0]) == i
  {
    LayoutBounds(bs, HEAP_START, brk);
    IndexOfBlock(bs, i);
    FirstFitAt(bs, fl, need, 0);
  }

  /** When the first malloc is served from the free list, the block before it is allocated, so free and malloc give it back. */
  lemma ListFitReused(bs: seq<Block>, fl: seq<nat>, brk: nat, limit: nat, size: nat,
                      p: Ptr, bs1: seq<Block>, fl1: seq<nat>, brk1: nat,
                      bs2: seq<Block>, fl2: seq<nat>,
                      q: Ptr, bs3: seq<Block>, fl3: seq<nat>, brk3: nat)
    requires Checked(bs, fl, brk) && FirstFit(bs, fl, GetBlockSize(size)).Some?
    requires MallocStep(bs, fl, brk, limit, size, p, bs1, fl1, brk1) && p != Null
    requires p.a < brk1 ==> p.a >= WORD && p.a - WORD in Offsets(bs1)
    requires FreeStep(bs1, fl1, brk1, p, bs2, fl2)
    requires forall o | o in fl2 :: o in Offsets(bs2)
    requires MallocStep(bs2, fl2, brk1, limit, size, q, bs3, fl3, brk3)
    ensures q == p
  {
    var need := GetBlockSize(size);
    var k := FirstFit(bs, fl, need).value;
    var i := IndexOf(bs, fl[k]);
    ListedIsFree(bs, fl, HEAP_START, brk, fl[k]);
    MallocKeepsChecked(bs, fl, brk, limit, size, p, bs1, fl1, brk1);
    forall j | 0 <= j < |bs1| && End(bs1[j]) == p.a - WORD
      ensures Allocated(bs1[j])
    {
      BlockBefore(bs1, HEAP_START, brk1, i, j);
      assert bs1[j] == bs[i - 1];
    }
    FreeThenMallocReuses(bs, fl, brk, limit, size, p, bs1, fl1, brk1, bs2, fl2, q, bs3, fl3, brk3);
  }

  /** When the first malloc grows the heap after an allocated last block, free and malloc give it back. */
  lemma AppendReused(bs: seq<Block>, fl: seq<nat>, brk: nat, limit: nat, size: nat,
                     p: Ptr, bs1: seq<Block>, fl1: seq<nat>, brk1: nat,
                     bs2: seq<Block>, fl2: seq<nat>,
                     q: Ptr, bs3: seq<Block>, fl3: seq<nat>, brk3: nat)
    requires Checked(bs, fl, brk) && FirstFit(bs, fl, GetBlockSize(size)).None?
    requires bs == [] || Allocated(bs[|bs| - 1])
    requires MallocStep(bs, fl, brk, limit, size, p, bs1, fl1, brk1) && p != Null
    requires p.a < brk1 ==> p.a >= WORD && p.a - WORD in Offsets(bs1)
    requires FreeStep(bs1, fl1, brk1, p, bs2, fl2)
    requires forall o | o in fl2 :: o in Offsets(bs2)
    requires MallocStep(bs2, fl2, brk1, limit, size, q, bs3, fl3, brk3)
    ensures q == p
  {
    MallocKeepsChecked(bs, fl, brk, limit, size, p, bs1, fl1, brk1);
    forall j | 0 <= j < |bs1| && End(bs1[j]) == p.a - WORD
      ensures Allocated(bs1[j])
    {
      BlockBefore(bs1, HEAP_START, brk1, |bs|, j);
    }
    FreeThenMallocReuses(bs, fl, brk, limit, size, p, bs1, fl1, brk1, bs2, fl2, q, bs3, fl3, brk3);
  }

  /** A heap of an allocated 32-byte block followed by a free 32-byte block. */
  const MergeHeap: seq<Block> := [Tag(8, 32, true), Tag(40, 32, false)]

  lemma MergeHeapChecked()
    ensures Checked(MergeHeap, [40], 72)
  {
  }

  /**
   * Reuse fails when the first malloc grows the heap after a free block:
   * malloc(100) appends a block at 72 and returns 80, free merges that block
   * into the free block at 40, and the next malloc(100) returns 48.
   */
  lemma MergeDefeatsReuse(p: Ptr, bs1: seq<Block>, fl1: seq<nat>, brk1: nat,
                          bs2: seq<Block>, fl2: seq<nat>,
                          q: Ptr, bs3: seq<Block>, fl3: seq<nat>, brk3: nat)
    requires (MergeHeapChecked(); MallocStep(MergeHeap, [40], 72, 1024, 100, p, bs1, fl1, brk1))
    requires p.Addr? && p.a < brk1 ==> p.a >= WORD && p.a - WORD in Offsets(bs1)
    requires FreeStep(bs1, fl1, brk1, p, bs2, fl2)
    requires forall o | o in fl2 :: o in Offsets(bs2)
    requires MallocStep(bs2, fl2, brk1, 1024, 100, q, bs3, fl3, brk3)
    ensures p == Addr(80) && q == Addr(48)
  {
  }

  /** The byte count calloc hands to malloc: nmemb * size in size_t, so the product wraps. */
  function CallocBytes(nmemb: nat, size: nat): (r: nat)
    ensures r < SIZE_T_MODULUS
    ensures nmemb * size < SIZE_T_MODULUS ==> r == nmemb * size
  {
    (nmemb * size) % SIZE_T_MODULUS
  }

  /** The product is not checked for overflow: calloc(2^32, 2^32) asks malloc for 0 bytes. */
  lemma CallocWraps()
    ensures CallocBytes(0x1_0000_0000, 0x1_0000_0000) == 0
  {
    assert 0x1_0000_0000 * 0x1_0000_0000 == SIZE_T_MODULUS;
  }

  class Allocator {
    /** The largest break mem_sbrk grants: growing the heap past it fails. */
    const limit: nat
    /** The current break: the heap occupies [0, brk). */
    var brk: nat
    /** The blocks in address order, as their header and footer words describe them. */
    var blocks: seq<Block>
    var heapFirst: Ptr
    var heapLast: Ptr
    /** The prev and next words stored in free blocks' payloads, by block offset. */
    var links: map<nat, Links>
    var freeFirst: Ptr
    var freeLast: Ptr
    /** The free list from freeFirst to freeLast, as the links spell it out. */
    ghost var freeList: seq<nat>

    /** The blocks tile the heap after the padding, and heap_first/heap_last name its ends. */
    ghost predicate HeapShape()
      reads this`brk, this`blocks, this`heapFirst, this`heapLast
    {
      Shaped(blocks, brk, limit, heapFirst, heapLast)
    }

    /** The links, free_block_first and free_block_last spell out freeList. */
    ghost predicate ListShape()
      reads this`links, this`freeFirst, this`freeLast, this`freeList
    {
      Linked(freeList, links, freeFirst, freeLast)
    }

    /**
     * mm_checkheap: header equals footer, free exactly when listed, the list
     * holds only heap blocks, no two free neighbours, consistent links, and
     * forward and backward walks over the same blocks.
     */
    ghost predicate Valid()
      reads this
    {
      HeapShape() && ListShape() && FreeListed(blocks, freeList) && NoAdjacentFree(blocks)
    }

    /**
     * ptr_in_range: a non-NULL address no higher than mem_heap_hi. The lower
     * test in the source subtracts the address of the function mem_heap_lo,
     * not the heap's start; addresses here count from the heap's start, so a
     * pointer below the heap cannot be expressed and that test is not
     * modelled.
     */
    predicate InHeap(p: Ptr)
      reads this
    {
      p.Addr? && p.a < brk
    }

    /** ptr_in_range accepts every payload malloc handed out and still reserved, and rejects NULL. */
    lemma InHeapAccepts(a: nat)
      requires Valid() && Reserved(blocks, a, 0)
      ensures InHeap(Addr(a)) && !InHeap(Null)
    {
      ReservedInHeap(blocks, HEAP_START, brk, a, 0);
    }

    constructor (limit: nat)
      requires limit >= HEAP_START
      ensures Valid() && this.limit == limit
      ensures brk == HEAP_START && blocks == [] && freeList == []
    {
      this.limit := limit;
      brk := HEAP_START;
      blocks := [];
      heapFirst, heapLast := Null, Null;
      links := map[];
      freeFirst, freeLast := Null, Null;
      freeList := [];
    }

    /** mm_init: pad the heap so the first payload is aligned; fails when mem_sbrk cannot. */
    static method Init(limit: nat) returns (a: Allocator?)
      ensures a == null <==> limit < HEAP_START
      ensures a != null ==> fresh(a) && a.Valid() && a.limit == limit
      ensures a != null ==> a.brk == HEAP_START && a.blocks == [] && a.freeList == []
    {
      if limit < HEAP_START {
        return null;
      }
      a := new Allocator(limit);
    }

    /** next_block: the block after block i, or NULL after heap_last. */
    function NextBlock(i: nat): (r: Ptr)
      reads this
      requires HeapShape() && i < |blocks|
      ensures r == if i + 1 < |blocks| then Addr(blocks[i + 1].offset) else Null
    {
      LayoutBounds(blocks, HEAP_START, brk);
      if Addr(blocks[i].offset) != heapLast then Addr(blocks[i].offset + Size(blocks[i])) else Null
    }

    /** prev_block: the block before block i, found through the footer below its header, or NULL at heap_first. */
    function PrevBlock(i: nat): (r: Ptr)
      reads this
      requires HeapShape() && i < |blocks|
      ensures r == if i > 0 then Addr(blocks[i - 1].offset) else Null
    {
      LayoutBounds(blocks, HEAP_START, brk);
      if Addr(blocks[i].offset) != heapFirst then Addr(blocks[i].offset - SizeOf(blocks[i - 1].footer)) else Null
    }

    /** remove_from_free_list: unlink b, repairing its neighbours' links and the list ends. */
    method RemoveFromFreeList(b: nat)
      requires ListShape() && b in freeList
      modifies this`links, this`freeFirst, this`freeLast, this`freeList
      ensures ListShape()
      ensures freeList == Without(old(freeList), b)
    {
      ghost var fl := freeList;
      ghost var k := ListIndex(fl, b);
      ListMember(fl, links, freeFirst, freeLast, k);
      var l := links[b];
      if Addr(b) == freeFirst || Addr(b) == freeLast {
        if freeFirst == freeLast {
          freeFirst, freeLast := Null, Null;
        } else if Addr(b) == freeFirst {
          UnlinkFirst(fl, links, freeFirst, freeLast);
          links := links[l.next.a := links[l.next.a].(prev := Null)];
          freeFirst := l.next;
        } else {
          UnlinkLast(fl, links, freeFirst, freeLast);
          links := links[l.prev.a := links[l.prev.a].(next := Null)];
          freeLast := l.prev;
        }
      } else {
        UnlinkInner(fl, links, freeFirst, freeLast, k);
        links := Connected(links, l.prev.a, l.next.a);
      }
      freeList := fl[..k] + fl[k + 1..];
    }

    /** add_to_start_free_list: push b on the front of the list. */
    method AddToStartFreeList(b: nat)
      requires ListShape() && b !in freeList
      requires freeList == [] ==> b in links && links[b] == Links(Null, Null)
      modifies this`links, this`freeFirst, this`freeLast, this`freeList
      ensures ListShape()
      ensures freeList == [b] + old(freeList)
    {
      if freeFirst != Null {
        PushLinked(freeList, links, freeFirst, freeLast, b);
        links := links[b := Links(Null, freeFirst)];
        links := links[freeFirst.a := links[freeFirst.a].(prev := Addr(b))];
      }
      freeFirst := Addr(b);
      if freeLast == Null {
        freeLast := Addr(b);
      }
      freeList := [b] + freeList;
    }

    /** coalesce_adjacent_blocks: the free block at b1 absorbs its free successor at b2. */
    method CoalesceAdjacentBlocks(b1: nat, b2: nat, i: nat)
      requires HeapShape() && ListShape()
      requires i + 1 < |blocks| && blocks[i].offset == b1 && blocks[i + 1].offset == b2 && b2 in freeList
      modifies this`blocks, this`heapLast, this`links, this`freeFirst, this`freeLast, this`freeList
      ensures HeapShape() && ListShape()
      ensures blocks == MergeAt(old(blocks), i) && freeList == Without(old(freeList), b2)
    {
      MergeKeepsShaped(blocks, brk, limit, heapFirst, heapLast, i);
      RemoveFromFreeList(b2);
      blocks := MergeAt(blocks, i);
      if heapLast == Addr(b2) {
        heapLast := Addr(b1);
      }
    }

    /** coalesce_free_block: the free block i absorbs a free successor, then a free predecessor absorbs it. */
    method CoalesceFreeBlock(b: nat, i: nat)
      requires HeapShape() && ListShape() && FreeListed(blocks, freeList)
      requires i < |blocks| && blocks[i].offset == b && !Allocated(blocks[i])
      modifies this`blocks, this`heapLast, this`links, this`freeFirst, this`freeLast, this`freeList
      ensures HeapShape() && ListShape()
      ensures blocks == Coalesced(old(blocks), i) && freeList == CoalescedList(old(blocks), old(freeList), i)
    {
      ghost var bs := blocks;
      var prev := PrevBlock(i);
      var next := NextBlock(i);
      if next != Null && !Allocated(blocks[i + 1]) {
        CoalesceAdjacentBlocks(b, next.a, i);
        MergeAtIndices(bs, i);
      }
      if prev != Null && !Allocated(blocks[i - 1]) {
        CoalesceAdjacentBlocks(prev.a, b, i - 1);
      }
    }

    /**
     * split: block i leaves the free list; when the leftover could hold a
     * minimum block, block i shrinks to n bytes and the leftover becomes a free
     * block at the front of the list (and heap_last if block i was last).
     */
    method Split(b: nat, i: nat, n: nat)
      requires HeapShape() && ListShape()
      requires i < |blocks| && blocks[i].offset == b && b in freeList
      requires n % ALIGNMENT == 0 && MIN_BLOCK_SIZE <= n <= Size(blocks[i])
      requires forall o | o in freeList :: o in Offsets(blocks)
      modifies this`blocks, this`heapLast, this`links, this`freeFirst, this`freeLast, this`freeList
      ensures HeapShape() && ListShape()
      ensures blocks == SplitBlocks(old(blocks), i, n) && freeList == SplitList(old(blocks), old(freeList), i, n)
    {
      var oldSize := SizeOf(blocks[i].header);
      if SplitsOff(oldSize, n) {
        LeftoverNotListed(blocks, freeList, HEAP_START, brk, i, n);
      }
      RemoveFromFreeList(b);
      if oldSize - n >= GetBlockSize(1) {
        CarveLeftover(b, i, n);
      }
    }

    /** The part of split that applies: block i keeps n bytes and the rest becomes a listed free block. */
    method CarveLeftover(b: nat, i: nat, n: nat)
      requires HeapShape() && ListShape()
      requires i < |blocks| && blocks[i].offset == b && b + n !in freeList
      requires n % ALIGNMENT == 0 && MIN_BLOCK_SIZE <= n && SplitsOff(Size(blocks[i]), n)
      modifies this`blocks, this`heapLast, this`links, this`freeFirst, this`freeLast, this`freeList
      ensures HeapShape() && ListShape()
      ensures blocks == SplitBlocks(old(blocks), i, n) && freeList == [b + n] + old(freeList)
    {
      ghost var bs := blocks;
      var rest := SizeOf(blocks[i].header) - n;
      SplitKeepsShaped(blocks, brk, limit, heapFirst, heapLast, i, n);
      blocks := blocks[..i] + [Tag(b, n, false), Tag(b + n, rest, false)] + blocks[i + 1..];
      assert blocks == SplitBlocks(bs, i, n);
      LinkedOutside(freeList, links, freeFirst, freeLast, b + n, Links(Null, Null));
      links := links[b + n := Links(Null, Null)];
      AddToStartFreeList(b + n);
      if heapLast == Addr(b) {
        heapLast := Addr(b + n);
      }
    }

    /**
     * find_fit: walk the free list from the front and split the first block of
     * at least need bytes; NULL, with nothing changed, when none is large enough.
     */
    method FindFit(need: nat) returns (r: Ptr, i: nat)
      requires Valid() && need % ALIGNMENT == 0 && need >= MIN_BLOCK_SIZE
      modifies this`blocks, this`heapLast, this`links, this`freeFirst, this`freeLast, this`freeList
      ensures HeapShape() && ListShape()
      ensures FirstFit(old(blocks), old(freeList), need).None? ==> r == Null && unchanged(this)
      ensures FirstFit(old(blocks), old(freeList), need).Some? ==>
        var o := old(freeList)[FirstFit(old(blocks), old(freeList), need).value];
        r == Addr(o) && i == IndexOf(old(blocks), o) &&
        blocks == SplitBlocks(old(blocks), i, need) && freeList == SplitList(old(blocks), old(freeList), i, need)
      ensures r != Null ==> i < |blocks| && blocks[i].offset == r.a
      ensures r != Null ==> FreeListed(Mark(blocks, i, true), freeList) && NoAdjacentFree(Mark(blocks, i, true))
    {
      var cur := freeFirst;
      ghost var k: nat := 0;
      while cur != Null
        invariant k <= |freeList|
        invariant cur == if k < |freeList| then Addr(freeList[k]) else Null
        invariant forall j | 0 <= j < k :: SizeAt(blocks, freeList[j]) < need
        decreases |freeList| - k
      {
        var j := IndexOf(blocks, cur.a);
        if SizeOf(blocks[j].header) >= need {
          FirstFitAt(blocks, freeList, need, k);
          ListedIsFree(blocks, freeList, HEAP_START, brk, cur.a);
          AllocateKeepsChecks(blocks, freeList, HEAP_START, brk, j, need);
          Split(cur.a, j, need);
          return cur, j;
        }
        cur := links[cur.a].next;
        k := k + 1;
      }
      return Null, 0;
    }

    /**
     * The hit path of malloc: find_fit, then the found block's header and
     * footer marked allocated; NULL, with nothing changed, when nothing fits.
     */
    method TakeFit(need: nat) returns (block: Ptr)
      requires Valid() && need % ALIGNMENT == 0 && need >= MIN_BLOCK_SIZE
      modifies this`blocks, this`heapLast, this`links, this`freeFirst, this`freeLast, this`freeList
      ensures Valid()
      ensures FirstFit(old(blocks), old(freeList), need).None? ==> block == Null && unchanged(this)
      ensures FirstFit(old(blocks), old(freeList), need).Some? ==>
        var o := old(freeList)[FirstFit(old(blocks), old(freeList), need).value];
        var i := IndexOf(old(blocks), o);
        block == Addr(o) && o == old(blocks)[i].offset &&
        blocks == Mark(SplitBlocks(old(blocks), i, need), i, true) && freeList == SplitList(old(blocks), old(freeList), i, need)
    {
      var i;
      block, i := FindFit(need);
      if block != Null {
        MarkBlock(block.a, i, true);
      }
    }

    /** set_header_and_footer(block, get_size(block), alloc) on block i. */
    method MarkBlock(b: nat, i: nat, alloc: bool)
      requires HeapShape() && i < |blocks| && blocks[i].offset == b
      modifies this`blocks
      ensures HeapShape() && blocks == Mark(old(blocks), i, alloc)
    {
      MarkKeepsShaped(blocks, brk, limit, heapFirst, heapLast, i, alloc);
      blocks := blocks[i := Tag(b, SizeOf(blocks[i].header), alloc)];
    }

    /**
     * malloc: a block of get_block_size(size) bytes, from the free list when a
     * listed block fits and from a heap extension otherwise; NULL when neither
     * is possible. heap_first is set by the first allocation.
     */
    method Malloc(size: nat) returns (p: Ptr)
      requires Valid()
      modifies this`brk, this`blocks, this`heapFirst, this`heapLast, this`links, this`freeFirst, this`freeLast, this`freeList
      ensures Valid()
      ensures MallocStep(old(blocks), old(freeList), old(brk), limit, size, p, blocks, freeList, brk)
      ensures p == Null ==> unchanged(this)
    {
      var need := GetBlockSize(size);
      var block := TakeFit(need);
      if block == Null {
        block := ExtendHeap(need);
        if block == Null {
          return Null;
        }
        if heapFirst == Null {
          heapFirst := block;
        }
      }
      p := Addr(block.a + WORD);
    }

    /**
     * free: a payload inside the heap has its block marked free, pushed on the
     * front of the list and coalesced with free neighbours; a pointer outside
     * the heap (NULL included) is ignored.
     */
    method Free(p: Ptr)
      requires Valid() && (InHeap(p) ==> Reserved(blocks, p.a, 0))
      modifies this`blocks, this`heapLast, this`links, this`freeFirst, this`freeLast, this`freeList
      ensures Valid()
      ensures old(InHeap(p)) ==> p.a >= WORD && p.a - WORD in Offsets(old(blocks))
      ensures FreeStep(old(blocks), old(freeList), old(brk), p, blocks, freeList)
      ensures !old(InHeap(p)) ==> unchanged(this)
    {
      if InHeap(p) {
        FreeablePayload(blocks, freeList, HEAP_START, brk, p.a);
        var b := p.a - WORD;
        var i := IndexOf(blocks, b);
        FreeBlock(b, i);
      }
    }

    /** The in-heap path of free: block i is marked free, pushed on the list and coalesced. */
    method FreeBlock(b: nat, i: nat)
      requires Valid() && i < |blocks| && blocks[i].offset == b && Allocated(blocks[i]) && b !in freeList
      modifies this`blocks, this`heapLast, this`links, this`freeFirst, this`freeLast, this`freeList
      ensures Valid()
      ensures blocks == Coalesced(Mark(old(blocks), i, false), i)
      ensures freeList == CoalescedList(Mark(old(blocks), i, false), [b] + old(freeList), i)
    {
      ghost var bs, fl := blocks, freeList;
      PushFreeListed(blocks, freeList, HEAP_START, brk, i);
      Release(b, i);
      CoalesceFreeBlock(b, i);
      FreedChecks(bs, fl, HEAP_START, brk, i, blocks, freeList);
    }

    /** The part of free before coalescing: block i is marked free and pushed on the list. */
    method Release(b: nat, i: nat)
      requires HeapShape() && ListShape() && i < |blocks| && blocks[i].offset == b && b !in freeList
      modifies this`blocks, this`links, this`freeFirst, this`freeLast, this`freeList
      ensures HeapShape() && ListShape()
      ensures blocks == Mark(old(blocks), i, false) && freeList == [b] + old(freeList)
    {
      MarkBlock(b, i, false);
      LinkedOutside(freeList, links, freeFirst, freeLast, b, Links(Null, Null));
      links := links[b := Links(Null, Null)];
      AddToStartFreeList(b);
    }

    /**
     * realloc: size 0 frees the block and gives NULL; NULL mallocs; a block
     * already of get_block_size(size) bytes is kept; otherwise a new block is
     * malloc'ed, min(size, old block size) bytes are copied to it (the old size
     * counts the header and the footer) and the old block is freed. When that
     * malloc fails, NULL is returned and nothing changes. copied is memcpy's
     * length.
     */
    method Realloc(p: Ptr, size: nat) returns (q: Ptr, copied: nat, ghost mid: seq<Block>, ghost midList: seq<nat>)
      requires Valid() && (p != Null && (size > 0 || InHeap(p)) ==> Reserved(blocks, p.a, 0))
      modifies this`brk, this`blocks, this`heapFirst, this`heapLast, this`links, this`freeFirst, this`freeLast, this`freeList
      ensures Valid()
      ensures p != Null && (size > 0 || old(InHeap(p))) ==> p.a >= WORD && p.a - WORD in Offsets(old(blocks))
      ensures size == 0 ==> q == Null && copied == 0 && brk == old(brk)
      ensures size == 0 ==> FreeStep(old(blocks), old(freeList), old(brk), p, blocks, freeList)
      ensures size > 0 && p == Null ==> copied == 0
      ensures size > 0 && p == Null ==> MallocStep(old(blocks), old(freeList), old(brk), limit, size, q, blocks, freeList, brk)
      ensures size > 0 && p != Null && SizeAt(old(blocks), p.a - WORD) >= GetBlockSize(size) ==>
        q == p && copied == 0 && unchanged(this)
      ensures size > 0 && p != Null && SizeAt(old(blocks), p.a - WORD) < GetBlockSize(size) ==>
        Moved(old(blocks), old(freeList), old(brk), limit, p, size, q, copied, mid, midList, blocks, freeList, brk) &&
        (q == Null ==> unchanged(this))
    {
      if size == 0 {
        if InHeap(p) {
          ReservedInHeap(blocks, HEAP_START, brk, p.a, 0);
        }
        Free(p);
        return Null, 0, blocks, freeList;
      }
      if p == Null {
        q := Malloc(size);
        return q, 0, blocks, freeList;
      }
      ReservedInHeap(blocks, HEAP_START, brk, p.a, 0);
      var oldSize := SizeOf(blocks[IndexOf(blocks, p.a - WORD)].header);
      if oldSize >= GetBlockSize(size) {
        return p, 0, blocks, freeList;
      }
      q, copied, mid, midList := Move(p, size, oldSize);
    }

    /** The last case of realloc: malloc a new block, copy, and free the old block. */
    method Move(p: Ptr, size: nat, oldSize: nat) returns (q: Ptr, copied: nat, ghost mid: seq<Block>, ghost midList: seq<nat>)
      requires Valid() && p.Addr? && Reserved(blocks, p.a, 0) && size > 0
      requires p.a >= WORD && p.a - WORD in Offsets(blocks) && oldSize == SizeAt(blocks, p.a - WORD)
      modifies this`brk, this`blocks, this`heapFirst, this`heapLast, this`links, this`freeFirst, this`freeLast, this`freeList
      ensures Valid()
      ensures Moved(old(blocks), old(freeList), old(brk), limit, p, size, q, copied, mid, midList, blocks, freeList, brk)
      ensures q == Null ==> unchanged(this)
    {
      ghost var bs, fl, brk0 := blocks, freeList, brk;
      q := Malloc(size);
      mid, midList := blocks, freeList;
      if q == Null {
        return Null, 0, mid, midList;
      }
      copied := if size < oldSize then size else oldSize;
      StillReserved(bs, fl, brk0, limit, size, q, mid, midList, brk, p.a);
      Free(p);
      MovedFrom(bs, fl, brk0, limit, p, size, q, copied, mid, midList, blocks, freeList, brk);
    }

    /**
     * calloc: malloc of nmemb * size bytes, the product taken in size_t
     * without an overflow check; the zeroing memset is not modelled.
     */
    method Calloc(nmemb: nat, size: nat) returns (p: Ptr)
      requires Valid()
      modifies this`brk, this`blocks, this`heapFirst, this`heapLast, this`links, this`freeFirst, this`freeLast, this`freeList
      ensures Valid()
      ensures MallocStep(old(blocks), old(freeList), old(brk), limit, CallocBytes(nmemb, size), p, blocks, freeList, brk)
      ensures p == Null ==> unchanged(this)
    {
      var bytes := (nmemb * size) % SIZE_T_MODULUS;
      p := Malloc(bytes);
    }

    /**
     * The miss path of malloc: mem_sbrk moves the break by n bytes, or fails
     * when that would pass the limit; the new block is allocated and becomes
     * heap_last.
     */
    method ExtendHeap(n: nat) returns (block: Ptr)
      requires Valid() && n % ALIGNMENT == 0 && n >= MIN_BLOCK_SIZE
      modifies this`brk, this`blocks, this`heapLast
      ensures block == Null <==> old(brk) + n > limit
      ensures block == Null ==> unchanged(this)
      ensures block != Null ==> block == Addr(old(brk)) && brk == old(brk) + n && blocks == old(blocks) + [Tag(old(brk), n, true)]
      ensures block != Null ==> FreeListed(blocks, freeList) && NoAdjacentFree(blocks) && ListShape()
      ensures block != Null ==> heapLast == block && Shaped(blocks, brk, limit, if heapFirst == Null then block else heapFirst, block)
    {
      if brk + n > limit {
        return Null;
      }
      AppendKeepsChecks(blocks, freeList, HEAP_START, brk, n);
      AppendKeepsShaped(blocks, brk, limit, heapFirst, heapLast, n);
      block := Addr(brk);
      blocks := blocks + [Tag(brk, n, true)];
      brk := brk + n;
      heapLast := block;
    }
  }
}
