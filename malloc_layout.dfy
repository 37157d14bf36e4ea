/**
 * The block layout of the explicit-free-list allocator (Malloc/mm.c) as pure
 * values: size arithmetic, header and footer words, the heap as a sequence of
 * blocks in address order, the free list as a sequence of block offsets, and
 * the ways split, coalesce, allocate and free reshape them.
 */
module MallocLayout {
  import opened Memory

  /** sizeof(size_t): a header, a footer, or one free-list link. */
  const WORD: nat := 8
  /** 2 * sizeof(size_t): block sizes and payload addresses are multiples of it. */
  const ALIGNMENT: nat := 16
  /** sizeof(free_list_t): the prev and next links a free block keeps in its payload. */
  const LINKS_SIZE: nat := 16
  /** mm_init pads the heap by ALIGNMENT - offsetof(block_t, payload) bytes. */
  const HEAP_START: nat := 8
  /** get_block_size(1): the smallest block the allocator ever makes. */
  const MIN_BLOCK_SIZE: nat := 32

  // ---------------------------------------------------------------- sizes

  /** round_up: the least multiple of n that is at least size. */
  function RoundUp(size: nat, n: nat): (r: nat)
    requires n > 0
    ensures r % n == 0 && size <= r < size + n
  {
    DivMulBounds(size + n - 1, n);
    (size + n - 1) / n * n
  }

  lemma DivMulBounds(x: nat, n: nat)
    requires n > 0
    ensures (x / n * n) % n == 0 && x - n < x / n * n <= x
  {
    var q := x / n;
    assert x == q * n + x % n;
    MulModZero(q, n);
  }

  lemma MulModZero(q: nat, n: nat)
    requires n > 0
    ensures (q * n) % n == 0
  {
    var m := q * n;
    var d := q - m / n;
    assert m == (m / n) * n + m % n;
    assert d * n == m % n;
    if d >= 1 {
      MulAtLeastOne(d, n);
    } else if d <= -1 {
      MulAtLeastOne(-d, n);
    }
  }

  lemma MulAtLeastOne(d: int, n: int)
    requires d >= 1 && n > 0
    ensures d * n >= n
  {
  }

  /** get_payload_size: a payload must be able to hold the two free-list links. */
  function GetPayloadSize(size: nat): (r: nat)
    ensures r >= size && r >= LINKS_SIZE
    ensures r == size || r == LINKS_SIZE
  {
    if size < LINKS_SIZE then LINKS_SIZE else size
  }

  /**
   * get_block_size: header + payload + footer, rounded up to ALIGNMENT. It is
   * the least aligned size that holds the header, the footer and a payload of
   * max(size, LINKS_SIZE) bytes.
   */
  function GetBlockSize(size: nat): (r: nat)
    ensures r % ALIGNMENT == 0
    ensures r >= size + 2 * WORD && r >= MIN_BLOCK_SIZE
    ensures r < 2 * WORD + (if size < LINKS_SIZE then LINKS_SIZE else size) + ALIGNMENT
  {
    RoundUp(WORD + GetPayloadSize(size) + WORD, ALIGNMENT)
  }

  /** No smaller aligned block would hold the header, footer and payload. */
  lemma BlockSizeIsLeast(size: nat, m: nat)
    requires m % ALIGNMENT == 0
    requires m >= 2 * WORD + (if size < LINKS_SIZE then LINKS_SIZE else size)
    ensures GetBlockSize(size) <= m
  {
  }

  lemma MinBlockSize()
    ensures GetBlockSize(1) == MIN_BLOCK_SIZE
  {
  }

  // ---------------------------------------------------------------- words

  /** block_size | is_allocated, for a block size whose low four bits are clear. */
  function Pack(size: nat, alloc: bool): nat
    requires size % ALIGNMENT == 0
  {
    size + if alloc then 1 else 0
  }

  /** w & ~0xF: the size field of a header or footer word. */
  function SizeOf(w: nat): (r: nat)
    ensures r % ALIGNMENT == 0 && r <= w < r + ALIGNMENT
  {
    w - w % ALIGNMENT
  }

  /** w & 0x1: the allocated bit of a header or footer word. */
  predicate AllocatedBit(w: nat)
  {
    w % 2 == 1
  }

  /** Reading back a packed word gives the size and the bit that were packed. */
  lemma PackRoundTrip(size: nat, alloc: bool)
    requires size % ALIGNMENT == 0
    ensures SizeOf(Pack(size, alloc)) == size
    ensures AllocatedBit(Pack(size, alloc)) == alloc
    ensures Pack(size, alloc) % ALIGNMENT == (if alloc then 1 else 0)
  {
    var q := size / 16;
    var w := Pack(size, alloc);
    assert w == 16 * q + (if alloc then 1 else 0);
    assert w % 16 == (if alloc then 1 else 0);
    assert w % 2 == (if alloc then 1 else 0) by {
      assert w == 2 * (8 * q) + (if alloc then 1 else 0);
    }
  }

  // ---------------------------------------------------------------- blocks

  /** A block as it sits in the heap: the offset of its header, its header word and its footer word. */
  datatype Block = Block(offset: nat, header: nat, footer: nat)

  /** get_size */
  function Size(b: Block): nat
  {
    SizeOf(b.header)
  }

  /** get_allocated */
  predicate Allocated(b: Block)
  {
    AllocatedBit(b.header)
  }

  /** The address of block->payload. */
  function Payload(b: Block): nat
  {
    b.offset + WORD
  }

  /** The first address past the block (where its successor's header starts). */
  function End(b: Block): nat
  {
    b.offset + Size(b)
  }

  /** set_header_and_footer: the block at offset with size | alloc in both boundary words. */
  function Tag(offset: nat, size: nat, alloc: bool): (b: Block)
    requires size % ALIGNMENT == 0
    ensures b.offset == offset && b.header == b.footer
    ensures Size(b) == size && Allocated(b) == alloc
    ensures b.header % ALIGNMENT == (if alloc then 1 else 0)
  {
    PackRoundTrip(size, alloc);
    Block(offset, Pack(size, alloc), Pack(size, alloc))
  }

  /** A block mm_checkheap accepts on its own: header equal to footer, no stray low bits, at least the minimum size. */
  ghost predicate WellFormed(b: Block)
  {
    b.header == b.footer && b.header % ALIGNMENT < 2 && Size(b) >= MIN_BLOCK_SIZE
  }

  /** The blocks tile [start, end) in address order, each starting where the previous one ends. */
  ghost predicate Layout(bs: seq<Block>, start: nat, end: nat)
  {
    (forall i | 0 <= i < |bs| :: WellFormed(bs[i])) &&
    (forall i, j | 0 <= i && j == i + 1 && j < |bs| :: bs[j].offset == End(bs[i])) &&
    (if bs == [] then end == start else bs[0].offset == start && End(bs[|bs| - 1]) == end)
  }

  ghost predicate Increasing(bs: seq<Block>)
  {
    forall i, j | 0 <= i < j < |bs| :: bs[i].offset < bs[j].offset
  }

  /** Block offsets in heap order. */
  function Offsets(bs: seq<Block>): (r: seq<nat>)
    ensures |r| == |bs| && forall i | 0 <= i < |bs| :: r[i] == bs[i].offset
  {
    seq(|bs|, i requires 0 <= i < |bs| => bs[i].offset)
  }

  /** Every block lies inside [start, end) and ends no later than any later block begins. */
  lemma {:induction false} LayoutBounds(bs: seq<Block>, start: nat, end: nat)
    requires Layout(bs, start, end)
    ensures start <= end
    ensures forall i | 0 <= i < |bs| :: start <= bs[i].offset && End(bs[i]) <= end
    ensures forall i, j | 0 <= i < j < |bs| :: End(bs[i]) <= bs[j].offset
    ensures Increasing(bs)
  {
    if bs != [] {
      var n := |bs| - 1;
      var init := bs[..n];
      assert Layout(init, start, bs[n].offset);
      LayoutBounds(init, start, bs[n].offset);
      assert forall i | 0 <= i < n :: init[i] == bs[i];
    }
  }

  /** Payloads start on an ALIGNMENT boundary when the heap starts ALIGNMENT - WORD past one. */
  lemma {:induction false} PayloadsAligned(bs: seq<Block>, start: nat, end: nat)
    requires Layout(bs, start, end) && start % ALIGNMENT == HEAP_START
    ensures end % ALIGNMENT == HEAP_START
    ensures forall i | 0 <= i < |bs| :: Payload(bs[i]) % ALIGNMENT == 0
  {
    if bs != [] {
      var n := |bs| - 1;
      var init := bs[..n];
      assert Layout(init, start, bs[n].offset);
      PayloadsAligned(init, start, bs[n].offset);
      AddAligned(bs[n].offset, Size(bs[n]));
      forall i | 0 <= i < |bs|
        ensures Payload(bs[i]) % ALIGNMENT == 0
      {
        if i < n {
          assert init[i] == bs[i];
        }
      }
    }
  }

  lemma AddAligned(a: nat, s: nat)
    requires s % ALIGNMENT == 0
    ensures (a + s) % ALIGNMENT == a % ALIGNMENT
  {
    var q := s / ALIGNMENT;
    assert s == ALIGNMENT * q;
  }

  /** The index of the block whose header is at offset o. */
  function IndexOf(bs: seq<Block>, o: nat): (i: nat)
    requires o in Offsets(bs)
    ensures i < |bs| && bs[i].offset == o
  {
    if bs[0].offset == o then 0
    else
      assert o in Offsets(bs[1..]) by {
        var j :| 0 <= j < |bs| && Offsets(bs)[j] == o;
        assert Offsets(bs[1..])[j - 1] == o;
      }
      1 + IndexOf(bs[1..], o)
  }

  /** IndexOf finds the first block at o. */
  lemma {:induction false} IndexOfFirst(bs: seq<Block>, o: nat)
    requires o in Offsets(bs)
    ensures forall j | 0 <= j < IndexOf(bs, o) :: bs[j].offset != o
  {
    if bs[0].offset != o {
      assert o in Offsets(bs[1..]) by {
        var j :| 0 <= j < |bs| && Offsets(bs)[j] == o;
        assert Offsets(bs[1..])[j - 1] == o;
      }
      IndexOfFirst(bs[1..], o);
    }
  }

  lemma IndexOfBlock(bs: seq<Block>, i: nat)
    requires Increasing(bs) && i < |bs|
    ensures Offsets(bs)[i] == bs[i].offset
    ensures IndexOf(bs, bs[i].offset) == i
  {
    IndexOfFirst(bs, bs[i].offset);
  }

  /** The size of the block whose header is at offset o. */
  function SizeAt(bs: seq<Block>, o: nat): nat
    requires o in Offsets(bs)
  {
    Size(bs[IndexOf(bs, o)])
  }

  // ---------------------------------------------------------------- the free list

  /** The prev and next link words a free block keeps at the start of its payload. */
  datatype Links = Links(prev: Ptr, next: Ptr)

  ghost predicate NoDuplicates(fl: seq<nat>)
  {
    forall i, j | 0 <= i < j < |fl| :: fl[i] != fl[j]
  }

  /**
   * The free list fl as memory holds it: first and last pointers at its two
   * ends, and each member's links naming its neighbours in fl (NULL at the ends).
   */
  ghost predicate Linked(fl: seq<nat>, links: map<nat, Links>, first: Ptr, last: Ptr)
  {
    NoDuplicates(fl) &&
    first == (if fl == [] then Null else Addr(fl[0])) &&
    last == (if fl == [] then Null else Addr(fl[|fl| - 1])) &&
    LinksMatch(fl, links)
  }

  /** Each member's stored links name its neighbours in fl. */
  ghost predicate LinksMatch(fl: seq<nat>, links: map<nat, Links>)
  {
    (forall o | o in fl :: o in links) &&
    forall k {:trigger links[fl[k]]} | 0 <= k < |fl| && fl[k] in links :: links[fl[k]] == Links(PrevOf(fl, k), NextOf(fl, k))
  }

  /** The neighbours a member of the list should link to: NULL past either end. */
  function PrevOf(fl: seq<nat>, k: nat): Ptr
    requires k < |fl|
  {
    if k == 0 then Null else Addr(fl[k - 1])
  }

  function NextOf(fl: seq<nat>, k: nat): Ptr
    requires k < |fl|
  {
    if k == |fl| - 1 then Null else Addr(fl[k + 1])
  }

  /** add_to_start_free_list on the links: b links forward to the old head, which links back to b. */
  lemma PushLinked(fl: seq<nat>, links: map<nat, Links>, first: Ptr, last: Ptr, b: nat)
    requires Linked(fl, links, first, last) && b !in fl && fl != []
    ensures Linked([b] + fl, links[b := Links(Null, first)][fl[0] := links[fl[0]].(prev := Addr(b))], Addr(b), last)
  {
    var links' := links[b := Links(Null, first)][fl[0] := links[fl[0]].(prev := Addr(b))];
    var fl' := [b] + fl;
    forall j | 0 <= j < |fl'|
      ensures fl'[j] in links' && links'[fl'[j]] == Links(PrevOf(fl', j), NextOf(fl', j))
    {
      if j > 0 {
        assert fl'[j] == fl[j - 1] && fl[j - 1] != b;
        assert fl[j - 1] == fl[0] <==> j == 1;
        assert links[fl[j - 1]] == Links(PrevOf(fl, j - 1), NextOf(fl, j - 1));
      }
    }
    assert LinksMatch(fl', links');
    assert NoDuplicates(fl') by {
      forall i, j | 0 <= i < j < |fl'|
        ensures fl'[i] != fl'[j]
      {
        assert fl'[j] == fl[j - 1];
        if i > 0 {
          assert fl'[i] == fl[i - 1];
        }
      }
    }
  }

  /** What the links say about member k: its stored neighbours, whether it is an end, and what is left without it. */
  lemma ListMember(fl: seq<nat>, links: map<nat, Links>, first: Ptr, last: Ptr, k: nat)
    requires Linked(fl, links, first, last) && k < |fl|
    ensures fl[k] in links && links[fl[k]] == Links(PrevOf(fl, k), NextOf(fl, k))
    ensures (Addr(fl[k]) == first) == (k == 0) && (Addr(fl[k]) == last) == (k == |fl| - 1)
    ensures first == last ==> |fl| == 1 && fl[..k] + fl[k + 1..] == []
    ensures Without(fl, fl[k]) == fl[..k] + fl[k + 1..]
    ensures k == 0 ==> fl[..k] + fl[k + 1..] == fl[1..]
    ensures k == |fl| - 1 ==> fl[..k] + fl[k + 1..] == fl[..k]
  {
    WithoutAt(fl, k);
    if k == 0 {
      assert fl[..k] + fl[k + 1..] == fl[1..];
    }
    if k == |fl| - 1 {
      assert fl[..k] + fl[k + 1..] == fl[..k];
    }
  }

  /** remove_from_free_list of the head of a longer list: the second member becomes the head. */
  lemma UnlinkFirst(fl: seq<nat>, links: map<nat, Links>, first: Ptr, last: Ptr)
    requires Linked(fl, links, first, last) && |fl| >= 2
    ensures Linked(fl[1..], links[fl[1] := links[fl[1]].(prev := Null)], Addr(fl[1]), last)
  {
    var links' := links[fl[1] := links[fl[1]].(prev := Null)];
    forall j | 0 <= j < |fl| - 1
      ensures fl[1..][j] in links' && links'[fl[1..][j]] == Links(PrevOf(fl[1..], j), NextOf(fl[1..], j))
    {
      assert fl[1..][j] == fl[j + 1];
      assert fl[j + 1] == fl[1] <==> j == 0;
      assert links[fl[j + 1]] == Links(PrevOf(fl, j + 1), NextOf(fl, j + 1));
    }
  }

  /** remove_from_free_list of the tail of a longer list: the second-to-last member becomes the tail. */
  lemma UnlinkLast(fl: seq<nat>, links: map<nat, Links>, first: Ptr, last: Ptr)
    requires Linked(fl, links, first, last) && |fl| >= 2
    ensures var n := |fl| - 1;
      Linked(fl[..n], links[fl[n - 1] := links[fl[n - 1]].(next := Null)], first, Addr(fl[n - 1]))
  {
    var n := |fl| - 1;
    var links' := links[fl[n - 1] := links[fl[n - 1]].(next := Null)];
    forall j | 0 <= j < n
      ensures fl[..n][j] in links' && links'[fl[..n][j]] == Links(PrevOf(fl[..n], j), NextOf(fl[..n], j))
    {
      assert fl[..n][j] == fl[j];
      assert fl[j] == fl[n - 1] <==> j == n - 1;
      assert links[fl[j]] == Links(PrevOf(fl, j), NextOf(fl, j));
    }
  }

  /** remove_from_free_list of an inner member: connect_free_blocks joins its two neighbours. */
  lemma UnlinkInner(fl: seq<nat>, links: map<nat, Links>, first: Ptr, last: Ptr, k: nat)
    requires Linked(fl, links, first, last) && 0 < k < |fl| - 1
    ensures Linked(fl[..k] + fl[k + 1..], Connected(links, fl[k - 1], fl[k + 1]), first, last)
  {
    var fl' := fl[..k] + fl[k + 1..];
    forall j | 0 <= j < |fl'|
      ensures fl'[j] in Connected(links, fl[k - 1], fl[k + 1])
      ensures Connected(links, fl[k - 1], fl[k + 1])[fl'[j]] == Links(PrevOf(fl', j), NextOf(fl', j))
    {
      UnlinkInnerEntry(fl, links, k, j);
    }
    assert LinksMatch(fl', Connected(links, fl[k - 1], fl[k + 1]));
    WithoutAt(fl, k);
    WithoutNoDuplicates(fl, fl[k]);
  }

  /** connect_free_blocks(p, q): p links forward to q and q back to p. */
  function Connected(links: map<nat, Links>, p: nat, q: nat): map<nat, Links>
    requires p in links && q in links
  {
    var links' := links[p := links[p].(next := Addr(q))];
    links'[q := links'[q].(prev := Addr(p))]
  }

  /** Entry j of the list left when member k is unlinked carries the links connect_free_blocks leaves it. */
  ghost predicate EntryAfterUnlink(fl: seq<nat>, links: map<nat, Links>, k: nat, j: nat)
    requires 0 < k < |fl| - 1 && j < |fl| - 1 && fl[k - 1] in links && fl[k + 1] in links
  {
    var fl' := fl[..k] + fl[k + 1..];
    var c := Connected(links, fl[k - 1], fl[k + 1]);
    fl'[j] in c && c[fl'[j]] == Links(PrevOf(fl', j), NextOf(fl', j))
  }

  lemma UnlinkInnerEntry(fl: seq<nat>, links: map<nat, Links>, k: nat, j: nat)
    requires NoDuplicates(fl) && LinksMatch(fl, links) && 0 < k < |fl| - 1 && j < |fl| - 1
    ensures EntryAfterUnlink(fl, links, k, j)
  {
    if j < k - 1 {
      UnlinkEntryBefore(fl, links, k, j);
    } else if j == k - 1 {
      UnlinkEntryPrev(fl, links, k);
    } else if j == k {
      UnlinkEntryNext(fl, links, k);
    } else {
      UnlinkEntryAfter(fl, links, k, j);
    }
  }

  lemma UnlinkEntryBefore(fl: seq<nat>, links: map<nat, Links>, k: nat, j: nat)
    requires NoDuplicates(fl) && LinksMatch(fl, links) && 0 < k < |fl| - 1 && j < k - 1
    ensures EntryAfterUnlink(fl, links, k, j)
  {
    var fl' := fl[..k] + fl[k + 1..];
    assert fl'[j] == fl[j] && fl'[j + 1] == fl[j + 1];
    assert fl[j] != fl[k - 1] && fl[j] != fl[k + 1];
    assert links[fl[j]] == Links(PrevOf(fl, j), NextOf(fl, j));
    if j > 0 {
      assert fl'[j - 1] == fl[j - 1];
    }
  }

  lemma UnlinkEntryPrev(fl: seq<nat>, links: map<nat, Links>, k: nat)
    requires NoDuplicates(fl) && LinksMatch(fl, links) && 0 < k < |fl| - 1
    ensures EntryAfterUnlink(fl, links, k, k - 1)
  {
    var fl' := fl[..k] + fl[k + 1..];
    assert fl'[k - 1] == fl[k - 1] && fl'[k] == fl[k + 1] && fl[k - 1] != fl[k + 1];
    assert links[fl[k - 1]] == Links(PrevOf(fl, k - 1), NextOf(fl, k - 1));
    if k > 1 {
      assert fl'[k - 2] == fl[k - 2];
    }
  }

  lemma UnlinkEntryNext(fl: seq<nat>, links: map<nat, Links>, k: nat)
    requires NoDuplicates(fl) && LinksMatch(fl, links) && 0 < k < |fl| - 1
    ensures EntryAfterUnlink(fl, links, k, k)
  {
    var fl' := fl[..k] + fl[k + 1..];
    assert fl'[k] == fl[k + 1] && fl'[k - 1] == fl[k - 1] && fl[k - 1] != fl[k + 1];
    assert links[fl[k + 1]] == Links(PrevOf(fl, k + 1), NextOf(fl, k + 1));
    if k + 1 < |fl'| {
      assert fl'[k + 1] == fl[k + 2];
    }
  }

  lemma UnlinkEntryAfter(fl: seq<nat>, links: map<nat, Links>, k: nat, j: nat)
    requires NoDuplicates(fl) && LinksMatch(fl, links) && 0 < k < j < |fl| - 1
    ensures EntryAfterUnlink(fl, links, k, j)
  {
    var fl' := fl[..k] + fl[k + 1..];
    assert fl'[j] == fl[j + 1] && fl'[j - 1] == fl[j];
    assert fl[j + 1] != fl[k - 1] && fl[j + 1] != fl[k + 1];
    assert links[fl[j + 1]] == Links(PrevOf(fl, j + 1), NextOf(fl, j + 1));
    if j + 1 < |fl'| {
      assert fl'[j + 1] == fl[j + 2];
    }
  }

  /** Writing the links of a block that is not on the list leaves the list as it was. */
  lemma LinkedOutside(fl: seq<nat>, links: map<nat, Links>, first: Ptr, last: Ptr, b: nat, l: Links)
    requires Linked(fl, links, first, last) && b !in fl
    ensures Linked(fl, links[b := l], first, last)
  {
  }

  /** fl with o taken out. */
  function Without(fl: seq<nat>, o: nat): (r: seq<nat>)
    ensures forall x :: x in r <==> x in fl && x != o
    ensures o !in fl ==> r == fl
  {
    if fl == [] then []
    else (if fl[0] == o then [] else [fl[0]]) + Without(fl[1..], o)
  }

  /** Taking out the member at index k closes the gap and keeps the rest in order. */
  lemma {:induction false} WithoutAt(fl: seq<nat>, k: nat)
    requires NoDuplicates(fl) && k < |fl|
    ensures Without(fl, fl[k]) == fl[..k] + fl[k + 1..]
  {
    var t := fl[1..];
    if k == 0 {
      assert fl[0] !in t;
      assert fl[..k] + fl[k + 1..] == t;
    } else {
      assert t[k - 1] == fl[k] && fl[0] != fl[k];
      assert NoDuplicates(t);
      WithoutAt(t, k - 1);
      assert fl[..k] + fl[k + 1..] == [fl[0]] + (t[..k - 1] + t[k..]);
    }
  }

  lemma WithoutNoDuplicates(fl: seq<nat>, o: nat)
    requires NoDuplicates(fl)
    ensures NoDuplicates(Without(fl, o))
  {
    if o in fl {
      var k :| 0 <= k < |fl| && fl[k] == o;
      WithoutAt(fl, k);
    }
  }

  /** The position of o in the list. */
  function ListIndex(fl: seq<nat>, o: nat): (k: nat)
    requires o in fl
    ensures k < |fl| && fl[k] == o
  {
    if fl[0] == o then 0 else 1 + ListIndex(fl[1..], o)
  }

  /**
   * mm_checkheap's membership checks: a block is free exactly when its offset
   * is on the free list, and the list holds nothing but heap blocks.
   */
  ghost predicate FreeListed(bs: seq<Block>, fl: seq<nat>)
  {
    (forall i | 0 <= i < |bs| :: !Allocated(bs[i]) <==> bs[i].offset in fl) &&
    (forall o | o in fl :: o in Offsets(bs))
  }

  /** mm_checkheap: no two free blocks are physical neighbours. */
  ghost predicate NoAdjacentFree(bs: seq<Block>)
  {
    forall i | 0 < i < |bs| :: Allocated(bs[i - 1]) || Allocated(bs[i])
  }

  /** The number of free blocks in the heap. */
  function CountFree(bs: seq<Block>): (n: nat)
    ensures n <= |bs|
  {
    if bs == [] then 0
    else CountFree(bs[..|bs| - 1]) + if Allocated(bs[|bs| - 1]) then 0 else 1
  }

  /** The payload at address a belongs to an allocated block with room for size bytes. */
  ghost predicate Reserved(bs: seq<Block>, a: nat, size: nat)
  {
    exists j | 0 <= j < |bs| :: Payload(bs[j]) == a && Allocated(bs[j]) && Size(bs[j]) >= size + 2 * WORD
  }

  // ---------------------------------------------------------------- reshaping the heap

  /** set_header_and_footer(block, get_size(block), alloc) on block i. */
  function Mark(bs: seq<Block>, i: nat, alloc: bool): seq<Block>
    requires i < |bs|
  {
    bs[i := Tag(bs[i].offset, Size(bs[i]), alloc)]
  }

  /** coalesce_adjacent_blocks: block i absorbs its physical successor. */
  function MergeAt(bs: seq<Block>, i: nat): seq<Block>
    requires i + 1 < |bs|
  {
    bs[..i] + [Tag(bs[i].offset, Size(bs[i]) + Size(bs[i + 1]), false)] + bs[i + 2..]
  }

  /** The test split applies: the leftover of a block of this size could hold a minimum block. */
  predicate SplitsOff(size: nat, n: nat)
  {
    size >= n + GetBlockSize(1)
  }

  /** split, on the heap: block i keeps its first n bytes and a free block takes the rest. */
  function SplitBlocks(bs: seq<Block>, i: nat, n: nat): (r: seq<Block>)
    requires i < |bs| && n % ALIGNMENT == 0 && n <= Size(bs[i])
    ensures |r| == |bs| + (if SplitsOff(Size(bs[i]), n) then 1 else 0)
    ensures r[i].offset == bs[i].offset
  {
    if SplitsOff(Size(bs[i]), n) then
      bs[..i] + [Tag(bs[i].offset, n, false), Tag(bs[i].offset + n, Size(bs[i]) - n, false)] + bs[i + 1..]
    else bs
  }

  /** split, on the free list: block i leaves it and the leftover block, if any, goes to its front. */
  function SplitList(bs: seq<Block>, fl: seq<nat>, i: nat, n: nat): seq<nat>
    requires i < |bs|
  {
    (if SplitsOff(Size(bs[i]), n) then [bs[i].offset + n] else []) + Without(fl, bs[i].offset)
  }

  /** Whether block i has a free successor, resp. a free predecessor. */
  predicate FreeNext(bs: seq<Block>, i: nat)
  {
    i + 1 < |bs| && !Allocated(bs[i + 1])
  }

  predicate FreePrev(bs: seq<Block>, i: nat)
    requires i < |bs|
  {
    i > 0 && !Allocated(bs[i - 1])
  }

  /** coalesce_free_block, on the heap: block i absorbs a free successor, then a free predecessor absorbs it. */
  function Coalesced(bs: seq<Block>, i: nat): seq<Block>
    requires i < |bs|
  {
    var afterNext := if FreeNext(bs, i) then MergeAt(bs, i) else bs;
    if FreePrev(bs, i) then MergeAt(afterNext, i - 1) else afterNext
  }

  /** coalesce_free_block, on the free list: every absorbed block leaves it. */
  function CoalescedList(bs: seq<Block>, fl: seq<nat>, i: nat): seq<nat>
    requires i < |bs|
  {
    var afterNext := if FreeNext(bs, i) then Without(fl, bs[i + 1].offset) else fl;
    if FreePrev(bs, i) then Without(afterNext, bs[i].offset) else afterNext
  }

  // ---------------------------------------------------------------- the layout is kept

  /** No block starts strictly inside another. */
  lemma InsideIsNoOffset(bs: seq<Block>, start: nat, end: nat, i: nat, x: nat)
    requires Layout(bs, start, end) && i < |bs| && bs[i].offset < x < End(bs[i])
    ensures x !in Offsets(bs)
  {
    LayoutBounds(bs, start, end);
  }

  lemma LayoutMark(bs: seq<Block>, start: nat, end: nat, i: nat, alloc: bool)
    requires Layout(bs, start, end) && i < |bs|
    ensures Layout(Mark(bs, i, alloc), start, end)
    ensures Offsets(Mark(bs, i, alloc)) == Offsets(bs)
  {
  }

  lemma LayoutMerge(bs: seq<Block>, start: nat, end: nat, i: nat)
    requires Layout(bs, start, end) && i + 1 < |bs|
    ensures Layout(MergeAt(bs, i), start, end)
    ensures Offsets(MergeAt(bs, i)) == Offsets(bs[..i + 1]) + Offsets(bs[i + 2..])
  {
    var r := MergeAt(bs, i);
    assert |r| == |bs| - 1;
    forall j | 0 < j < |r|
      ensures r[j].offset == End(r[j - 1])
    {
      if j > i + 1 {
        assert r[j] == bs[j + 1] && r[j - 1] == bs[j];
      } else if j == i + 1 {
        assert r[j] == bs[i + 2] && r[i].offset == bs[i].offset;
      }
    }
  }

  lemma LayoutSplit(bs: seq<Block>, start: nat, end: nat, i: nat, n: nat)
    requires Layout(bs, start, end) && i < |bs|
    requires n % ALIGNMENT == 0 && n >= MIN_BLOCK_SIZE && n <= Size(bs[i])
    ensures Layout(SplitBlocks(bs, i, n), start, end)
  {
    if SplitsOff(Size(bs[i]), n) {
      var r := SplitBlocks(bs, i, n);
      SplitIndices(bs, i, n);
      SplitWellFormed(bs, start, end, i, n);
      SplitChained(bs, start, end, i, n);
      if i + 1 < |bs| {
        assert r[|r| - 1] == bs[|bs| - 1];
      }
    }
  }

  lemma SplitWellFormed(bs: seq<Block>, start: nat, end: nat, i: nat, n: nat)
    requires Layout(bs, start, end) && i < |bs|
    requires n % ALIGNMENT == 0 && n >= MIN_BLOCK_SIZE && n <= Size(bs[i]) && SplitsOff(Size(bs[i]), n)
    ensures forall a | 0 <= a < |SplitBlocks(bs, i, n)| :: WellFormed(SplitBlocks(bs, i, n)[a])
  {
    var r := SplitBlocks(bs, i, n);
    SplitIndices(bs, i, n);
    forall a | 0 <= a < |r|
      ensures WellFormed(r[a])
    {
      if a > i + 1 {
        assert r[a] == bs[a - 1];
      } else if a < i {
        assert r[a] == bs[a];
      }
    }
  }

  lemma SplitChained(bs: seq<Block>, start: nat, end: nat, i: nat, n: nat)
    requires Layout(bs, start, end) && i < |bs|
    requires n % ALIGNMENT == 0 && n <= Size(bs[i]) && SplitsOff(Size(bs[i]), n)
    ensures var r := SplitBlocks(bs, i, n);
      forall a, c | 0 <= a && c == a + 1 && c < |r| :: r[c].offset == End(r[a])
  {
    var r := SplitBlocks(bs, i, n);
    SplitIndices(bs, i, n);
    forall a, c | 0 <= a && c == a + 1 && c < |r|
      ensures r[c].offset == End(r[a])
    {
      if a > i + 1 {
        assert r[c] == bs[a] && r[a] == bs[a - 1];
      } else if a == i + 1 {
        assert r[c] == bs[i + 1];
      } else if a < i {
        assert r[a] == bs[a] && r[c].offset == bs[c].offset;
      }
    }
  }

  lemma LayoutAppend(bs: seq<Block>, start: nat, end: nat, n: nat, alloc: bool)
    requires Layout(bs, start, end)
    requires n % ALIGNMENT == 0 && n >= MIN_BLOCK_SIZE
    ensures Layout(bs + [Tag(end, n, alloc)], start, end + n)
  {
  }

  // ---------------------------------------------------------------- mm_checkheap is kept

  lemma SplitIndices(bs: seq<Block>, i: nat, n: nat)
    requires i < |bs| && n % ALIGNMENT == 0 && n <= Size(bs[i]) && SplitsOff(Size(bs[i]), n)
    ensures |SplitBlocks(bs, i, n)| == |bs| + 1
    ensures forall j | 0 <= j < i :: SplitBlocks(bs, i, n)[j] == bs[j]
    ensures SplitBlocks(bs, i, n)[i] == Tag(bs[i].offset, n, false)
    ensures SplitBlocks(bs, i, n)[i + 1] == Tag(bs[i].offset + n, Size(bs[i]) - n, false)
    ensures forall j | i + 1 < j < |bs| + 1 :: SplitBlocks(bs, i, n)[j] == bs[j - 1]
  {
  }

  /** Splitting block i off the list and marking its front allocated keeps the list membership. */
  lemma AllocateKeepsFreeListed(bs: seq<Block>, fl: seq<nat>, i: nat, n: nat)
    requires Increasing(bs) && FreeListed(bs, fl) && NoDuplicates(fl)
    requires i < |bs| && !Allocated(bs[i])
    requires n % ALIGNMENT == 0 && n <= Size(bs[i])
    requires SplitsOff(Size(bs[i]), n) ==> bs[i].offset + n !in Offsets(bs)
    ensures FreeListed(Mark(SplitBlocks(bs, i, n), i, true), SplitList(bs, fl, i, n))
    ensures NoDuplicates(SplitList(bs, fl, i, n))
  {
    var r := Mark(SplitBlocks(bs, i, n), i, true);
    var fl' := SplitList(bs, fl, i, n);
    var off := bs[i].offset;
    WithoutNoDuplicates(fl, off);
    if SplitsOff(Size(bs[i]), n) {
      SplitIndices(bs, i, n);
      assert off + n !in fl;
      forall j | 0 <= j < |r|
        ensures !Allocated(r[j]) <==> r[j].offset in fl'
      {
        if j < i {
          assert r[j] == bs[j];
        } else if j > i + 1 {
          assert r[j] == bs[j - 1];
        }
      }
      forall o | o in fl'
        ensures o in Offsets(r)
      {
        if o == off + n {
          assert Offsets(r)[i + 1] == o;
        } else {
          var j :| 0 <= j < |bs| && Offsets(bs)[j] == o;
          if j < i {
            assert Offsets(r)[j] == o;
          } else {
            assert Offsets(r)[j + 1] == o;
          }
        }
      }
    } else {
      forall j | 0 <= j < |r|
        ensures !Allocated(r[j]) <==> r[j].offset in fl'
      {
        if j != i {
          assert r[j] == bs[j];
        }
      }
      assert Offsets(r) == Offsets(bs);
    }
  }

  /** Splitting a free block and allocating its front leaves no two free blocks side by side. */
  lemma AllocateKeepsNoAdjacentFree(bs: seq<Block>, i: nat, n: nat)
    requires NoAdjacentFree(bs) && i < |bs| && !Allocated(bs[i])
    requires n % ALIGNMENT == 0 && n <= Size(bs[i])
    ensures NoAdjacentFree(Mark(SplitBlocks(bs, i, n), i, true))
  {
    var r := Mark(SplitBlocks(bs, i, n), i, true);
    if SplitsOff(Size(bs[i]), n) {
      SplitIndices(bs, i, n);
      forall j | 0 < j < |r|
        ensures Allocated(r[j - 1]) || Allocated(r[j])
      {
        if j > i + 2 {
          assert r[j] == bs[j - 1] && r[j - 1] == bs[j - 2];
        } else if j == i + 2 {
          assert r[j] == bs[i + 1];
        } else if j < i {
          assert r[j] == bs[j] && r[j - 1] == bs[j - 1];
        }
      }
    } else {
      forall j | 0 < j < |r|
        ensures Allocated(r[j - 1]) || Allocated(r[j])
      {
        if j != i && j != i + 1 {
          assert r[j] == bs[j] && r[j - 1] == bs[j - 1];
        }
      }
    }
  }

  /** malloc on a hit: the fitting free block is split and its front marked allocated. */
  lemma AllocateKeepsChecks(bs: seq<Block>, fl: seq<nat>, start: nat, end: nat, i: nat, n: nat)
    requires Layout(bs, start, end) && FreeListed(bs, fl) && NoDuplicates(fl) && NoAdjacentFree(bs)
    requires i < |bs| && !Allocated(bs[i])
    requires n % ALIGNMENT == 0 && n >= MIN_BLOCK_SIZE && n <= Size(bs[i])
    ensures Layout(Mark(SplitBlocks(bs, i, n), i, true), start, end)
    ensures FreeListed(Mark(SplitBlocks(bs, i, n), i, true), SplitList(bs, fl, i, n))
    ensures NoDuplicates(SplitList(bs, fl, i, n))
    ensures NoAdjacentFree(Mark(SplitBlocks(bs, i, n), i, true))
  {
    LayoutBounds(bs, start, end);
    LayoutSplit(bs, start, end, i, n);
    LayoutMark(SplitBlocks(bs, i, n), start, end, i, true);
    if SplitsOff(Size(bs[i]), n) {
      InsideIsNoOffset(bs, start, end, i, bs[i].offset + n);
    }
    AllocateKeepsFreeListed(bs, fl, i, n);
    AllocateKeepsNoAdjacentFree(bs, i, n);
  }

  /** malloc on a miss: a new allocated block at the old end of the heap. */
  lemma AppendKeepsChecks(bs: seq<Block>, fl: seq<nat>, start: nat, end: nat, n: nat)
    requires Layout(bs, start, end) && FreeListed(bs, fl) && NoAdjacentFree(bs)
    requires n % ALIGNMENT == 0 && n >= MIN_BLOCK_SIZE
    ensures Layout(bs + [Tag(end, n, true)], start, end + n)
    ensures FreeListed(bs + [Tag(end, n, true)], fl)
    ensures NoAdjacentFree(bs + [Tag(end, n, true)])
  {
    LayoutBounds(bs, start, end);
    LayoutAppend(bs, start, end, n, true);
    var r := bs + [Tag(end, n, true)];
    assert forall j | 0 <= j < |bs| :: Offsets(bs)[j] < end;
    forall j | 0 <= j < |r|
      ensures !Allocated(r[j]) <==> r[j].offset in fl
    {
      if j < |bs| {
        assert r[j] == bs[j];
      }
    }
    forall o | o in fl
      ensures o in Offsets(r)
    {
      var j :| 0 <= j < |bs| && Offsets(bs)[j] == o;
      assert Offsets(r)[j] == o;
    }
  }

  /** coalesce_adjacent_blocks keeps the list membership: the absorbed block leaves the list. */
  lemma MergeKeepsFreeListed(bs: seq<Block>, fl: seq<nat>, i: nat)
    requires Increasing(bs) && FreeListed(bs, fl) && NoDuplicates(fl)
    requires i + 1 < |bs| && !Allocated(bs[i]) && !Allocated(bs[i + 1])
    ensures FreeListed(MergeAt(bs, i), Without(fl, bs[i + 1].offset))
    ensures NoDuplicates(Without(fl, bs[i + 1].offset))
  {
    WithoutNoDuplicates(fl, bs[i + 1].offset);
    var r := MergeAt(bs, i);
    var fl' := Without(fl, bs[i + 1].offset);
    assert |r| == |bs| - 1;
    forall j | 0 <= j < |r|
      ensures !Allocated(r[j]) <==> r[j].offset in fl'
    {
      if j < i {
        assert r[j] == bs[j];
      } else if j > i {
        assert r[j] == bs[j + 1];
      }
    }
    forall o | o in fl'
      ensures o in Offsets(r)
    {
      var j :| 0 <= j < |bs| && Offsets(bs)[j] == o;
      if j <= i {
        assert Offsets(r)[j] == o;
      } else {
        assert Offsets(r)[j - 1] == o;
      }
    }
  }

  /** Marking block i free and pushing its offset keeps the list membership. */
  lemma PushKeepsFreeListed(bs: seq<Block>, fl: seq<nat>, i: nat)
    requires Increasing(bs) && FreeListed(bs, fl) && NoDuplicates(fl)
    requires i < |bs| && Allocated(bs[i])
    ensures FreeListed(Mark(bs, i, false), [bs[i].offset] + fl)
    ensures NoDuplicates([bs[i].offset] + fl)
  {
    var m := Mark(bs, i, false);
    forall j | 0 <= j < |m|
      ensures !Allocated(m[j]) <==> m[j].offset in [bs[i].offset] + fl
    {
      if j != i {
        assert m[j] == bs[j];
      }
    }
    assert Offsets(m) == Offsets(bs);
  }

  lemma MergeAtIndices(bs: seq<Block>, i: nat)
    requires i + 1 < |bs|
    ensures |MergeAt(bs, i)| == |bs| - 1
    ensures forall j | 0 <= j < i :: MergeAt(bs, i)[j] == bs[j]
    ensures forall j | i < j < |bs| - 1 :: MergeAt(bs, i)[j] == bs[j + 1]
    ensures MergeAt(bs, i)[i] == Tag(bs[i].offset, Size(bs[i]) + Size(bs[i + 1]), false)
  {
  }

  /** Merging i and i + 1 keeps the first block's offset; the last is block i's exactly when i + 1 was last. */
  lemma MergeEnds(bs: seq<Block>, start: nat, end: nat, i: nat)
    requires Layout(bs, start, end) && i + 1 < |bs|
    ensures MergeAt(bs, i)[0].offset == bs[0].offset
    ensures (bs[|bs| - 1].offset == bs[i + 1].offset) == (i + 2 == |bs|)
    ensures MergeAt(bs, i)[|bs| - 2].offset == if i + 2 == |bs| then bs[i].offset else bs[|bs| - 1].offset
  {
    MergeAtIndices(bs, i);
    LayoutBounds(bs, start, end);
  }

  /** Splitting block i keeps the first block's offset; the leftover becomes last exactly when block i was. */
  lemma SplitEnds(bs: seq<Block>, start: nat, end: nat, i: nat, n: nat)
    requires Layout(bs, start, end) && i < |bs| && n % ALIGNMENT == 0 && n <= Size(bs[i])
    ensures SplitBlocks(bs, i, n)[0].offset == bs[0].offset
    ensures (bs[|bs| - 1].offset == bs[i].offset) == (i + 1 == |bs|)
    ensures var r := SplitBlocks(bs, i, n);
      r[|r| - 1].offset == if SplitsOff(Size(bs[i]), n) && i + 1 == |bs| then bs[i].offset + n else bs[|bs| - 1].offset
  {
    LayoutBounds(bs, start, end);
    if SplitsOff(Size(bs[i]), n) {
      SplitIndices(bs, i, n);
    }
  }

  /** The leftover of a split starts inside block i, so no listed block starts there. */
  lemma LeftoverNotListed(bs: seq<Block>, fl: seq<nat>, start: nat, end: nat, i: nat, n: nat)
    requires Layout(bs, start, end) && forall o | o in fl :: o in Offsets(bs)
    requires i < |bs| && 0 < n && SplitsOff(Size(bs[i]), n)
    ensures bs[i].offset + n !in fl
  {
    InsideIsNoOffset(bs, start, end, i, bs[i].offset + n);
  }

  /** Every pair of neighbours except (i - 1, i) has an allocated member. */
  ghost predicate FreePairsOnlyAt(bs: seq<Block>, i: nat)
  {
    forall j | 0 < j < |bs| && j != i :: Allocated(bs[j - 1]) || Allocated(bs[j])
  }

  /** Freeing block i and absorbing a free successor leaves two free neighbours at most at (i - 1, i). */
  lemma AbsorbNextKeepsPairs(bs: seq<Block>, i: nat)
    requires NoAdjacentFree(bs) && i < |bs|
    ensures var m := Mark(bs, i, false);
      var a := if FreeNext(m, i) then MergeAt(m, i) else m;
      i < |a| && !Allocated(a[i]) && FreePairsOnlyAt(a, i) && (i > 0 ==> a[i - 1] == bs[i - 1])
  {
    var m := Mark(bs, i, false);
    if FreeNext(m, i) {
      var a := MergeAt(m, i);
      MergeAtIndices(m, i);
      forall j | 0 < j < |a| && j != i
        ensures Allocated(a[j - 1]) || Allocated(a[j])
      {
        if j > i + 1 {
          assert a[j] == bs[j + 1] && a[j - 1] == bs[j];
        } else if j == i + 1 {
          assert a[j] == bs[i + 2];
        } else {
          assert a[j] == bs[j] && a[j - 1] == bs[j - 1];
        }
      }
    } else {
      forall j | 0 < j < |m| && j != i
        ensures Allocated(m[j - 1]) || Allocated(m[j])
      {
        if j != i + 1 {
          assert m[j] == bs[j] && m[j - 1] == bs[j - 1];
        }
      }
    }
  }

  /** A free predecessor absorbing block i closes the last pair of free neighbours. */
  lemma AbsorbIntoPrevKeepsPairs(a: seq<Block>, i: nat)
    requires i < |a| && !Allocated(a[i]) && FreePairsOnlyAt(a, i)
    ensures NoAdjacentFree(if i > 0 && !Allocated(a[i - 1]) then MergeAt(a, i - 1) else a)
  {
    if i > 0 && !Allocated(a[i - 1]) {
      var r := MergeAt(a, i - 1);
      MergeAtIndices(a, i - 1);
      forall j | 0 < j < |r|
        ensures Allocated(r[j - 1]) || Allocated(r[j])
      {
        if j > i {
          assert r[j] == a[j + 1] && r[j - 1] == a[j];
        } else if j == i {
          assert r[j] == a[i + 1];
        } else if j < i - 1 {
          assert r[j] == a[j] && r[j - 1] == a[j - 1];
        }
      }
    }
  }

  /** Coalescing a freed block leaves no two free blocks side by side. */
  lemma CoalesceKeepsNoAdjacentFree(bs: seq<Block>, i: nat)
    requires NoAdjacentFree(bs) && i < |bs|
    ensures NoAdjacentFree(Coalesced(Mark(bs, i, false), i))
  {
    AbsorbNextKeepsPairs(bs, i);
    var m := Mark(bs, i, false);
    var a := if FreeNext(m, i) then MergeAt(m, i) else m;
    AbsorbIntoPrevKeepsPairs(a, i);
  }

  lemma MergeKeepsIncreasing(bs: seq<Block>, i: nat)
    requires Increasing(bs) && i + 1 < |bs|
    ensures Increasing(MergeAt(bs, i))
  {
    MergeAtIndices(bs, i);
  }

  /** coalesce_free_block keeps the tiling. */
  lemma CoalesceKeepsLayout(m: seq<Block>, start: nat, end: nat, i: nat)
    requires Layout(m, start, end) && i < |m|
    ensures Layout(Coalesced(m, i), start, end)
  {
    var a := if FreeNext(m, i) then MergeAt(m, i) else m;
    if FreeNext(m, i) {
      LayoutMerge(m, start, end, i);
      MergeAtIndices(m, i);
    }
    if FreePrev(m, i) {
      LayoutMerge(a, start, end, i - 1);
    }
  }

  /** coalesce_free_block keeps the list membership: each absorbed block leaves the list. */
  lemma CoalesceKeepsFreeListed(m: seq<Block>, fl: seq<nat>, i: nat)
    requires Increasing(m) && FreeListed(m, fl) && NoDuplicates(fl)
    requires i < |m| && !Allocated(m[i])
    ensures FreeListed(Coalesced(m, i), CoalescedList(m, fl, i))
    ensures NoDuplicates(CoalescedList(m, fl, i))
  {
    var a := if FreeNext(m, i) then MergeAt(m, i) else m;
    var fl2 := if FreeNext(m, i) then Without(fl, m[i + 1].offset) else fl;
    if FreeNext(m, i) {
      MergeKeepsFreeListed(m, fl, i);
      MergeKeepsIncreasing(m, i);
      MergeAtIndices(m, i);
    }
    assert i < |a| && a[i].offset == m[i].offset && !Allocated(a[i]);
    if FreePrev(m, i) {
      assert a[i - 1] == m[i - 1];
      MergeKeepsFreeListed(a, fl2, i - 1);
    }
  }

  /** free: the block is marked free, pushed on the list, and coalesced with free neighbours. */
  lemma FreeKeepsChecks(bs: seq<Block>, fl: seq<nat>, start: nat, end: nat, i: nat)
    requires Layout(bs, start, end) && FreeListed(bs, fl) && NoDuplicates(fl) && NoAdjacentFree(bs)
    requires i < |bs| && Allocated(bs[i])
    ensures Layout(Coalesced(Mark(bs, i, false), i), start, end)
    ensures FreeListed(Coalesced(Mark(bs, i, false), i), CoalescedList(Mark(bs, i, false), [bs[i].offset] + fl, i))
    ensures NoDuplicates(CoalescedList(Mark(bs, i, false), [bs[i].offset] + fl, i))
    ensures NoAdjacentFree(Coalesced(Mark(bs, i, false), i))
  {
    LayoutBounds(bs, start, end);
    LayoutMark(bs, start, end, i, false);
    PushKeepsFreeListed(bs, fl, i);
    var m := Mark(bs, i, false);
    assert Increasing(m);
    CoalesceKeepsLayout(m, start, end, i);
    CoalesceKeepsFreeListed(m, [bs[i].offset] + fl, i);
    CoalesceKeepsNoAdjacentFree(bs, i);
  }

  /** A reserved payload names an allocated block, which is therefore not listed. */
  lemma FreeablePayload(bs: seq<Block>, fl: seq<nat>, start: nat, end: nat, a: nat)
    requires Layout(bs, start, end) && FreeListed(bs, fl)
    requires Reserved(bs, a, 0)
    ensures a >= WORD && a - WORD in Offsets(bs)
    ensures Allocated(bs[IndexOf(bs, a - WORD)]) && a - WORD !in fl
  {
    LayoutBounds(bs, start, end);
    ReservedBlock(bs, a, 0);
  }

  /** Marking an allocated block free and pushing it on the list keeps the list exact. */
  lemma PushFreeListed(bs: seq<Block>, fl: seq<nat>, start: nat, end: nat, i: nat)
    requires Layout(bs, start, end) && FreeListed(bs, fl) && NoDuplicates(fl)
    requires i < |bs| && Allocated(bs[i])
    ensures FreeListed(Mark(bs, i, false), [bs[i].offset] + fl)
  {
    LayoutBounds(bs, start, end);
    PushKeepsFreeListed(bs, fl, i);
  }

  /** After block i is freed and coalesced, the free list is still exact and no free blocks touch. */
  lemma FreedChecks(bs: seq<Block>, fl: seq<nat>, start: nat, end: nat, i: nat, bs': seq<Block>, fl': seq<nat>)
    requires Layout(bs, start, end) && FreeListed(bs, fl) && NoDuplicates(fl) && NoAdjacentFree(bs)
    requires i < |bs| && Allocated(bs[i])
    requires bs' == Coalesced(Mark(bs, i, false), i)
    requires fl' == CoalescedList(Mark(bs, i, false), [bs[i].offset] + fl, i)
    ensures FreeListed(bs', fl') && NoAdjacentFree(bs')
  {
    FreeKeepsChecks(bs, fl, start, end, i);
  }

  // ---------------------------------------------------------------- first fit, reservations, counts

  /** The position in fl of the first listed block of at least need bytes, if there is one. */
  function FirstFit(bs: seq<Block>, fl: seq<nat>, need: nat): (r: Option<nat>)
    requires forall o | o in fl :: o in Offsets(bs)
    ensures r.None? <==> forall k | 0 <= k < |fl| :: SizeAt(bs, fl[k]) < need
    ensures r.Some? ==> r.value < |fl| && SizeAt(bs, fl[r.value]) >= need
    ensures r.Some? ==> forall k | 0 <= k < r.value :: SizeAt(bs, fl[k]) < need
  {
    if fl == [] then None
    else if SizeAt(bs, fl[0]) >= need then Some(0)
    else match FirstFit(bs, fl[1..], need)
      case None => None
      case Some(k) => Some(k + 1)
  }

  /** A listed block of at least need bytes with only smaller ones before it is the first fit. */
  lemma FirstFitAt(bs: seq<Block>, fl: seq<nat>, need: nat, k: nat)
    requires forall o | o in fl :: o in Offsets(bs)
    requires k < |fl| && SizeAt(bs, fl[k]) >= need
    requires forall j | 0 <= j < k :: SizeAt(bs, fl[j]) < need
    ensures FirstFit(bs, fl, need) == Some(k)
  {
  }

  /** Allocating from free block i leaves every other reservation in place and reserves block i. */
  lemma AllocateKeepsReserved(bs: seq<Block>, i: nat, n: nat, a: nat, size: nat)
    requires i < |bs| && !Allocated(bs[i]) && n % ALIGNMENT == 0 && n <= Size(bs[i])
    ensures Reserved(bs, a, size) ==> Reserved(Mark(SplitBlocks(bs, i, n), i, true), a, size)
    ensures n >= size + 2 * WORD ==> Reserved(Mark(SplitBlocks(bs, i, n), i, true), Payload(bs[i]), size)
  {
    var r := Mark(SplitBlocks(bs, i, n), i, true);
    if SplitsOff(Size(bs[i]), n) {
      SplitIndices(bs, i, n);
    }
    assert Payload(r[i]) == Payload(bs[i]) && Allocated(r[i]) && Size(r[i]) >= n;
    if Reserved(bs, a, size) {
      var j :| 0 <= j < |bs| && Payload(bs[j]) == a && Allocated(bs[j]) && Size(bs[j]) >= size + 2 * WORD;
      if SplitsOff(Size(bs[i]), n) && j > i {
        assert r[j + 1] == bs[j];
      } else {
        assert r[j] == bs[j];
      }
    }
  }

  /** Growing the heap leaves every reservation in place. */
  lemma AppendKeepsReserved(bs: seq<Block>, b: Block, a: nat, size: nat)
    requires Reserved(bs, a, size)
    ensures Reserved(bs + [b], a, size)
  {
    var j :| 0 <= j < |bs| && Payload(bs[j]) == a && Allocated(bs[j]) && Size(bs[j]) >= size + 2 * WORD;
    assert (bs + [b])[j] == bs[j];
  }

  /** A merge of two free blocks leaves every reservation in place. */
  lemma MergeKeepsReserved(bs: seq<Block>, i: nat, a: nat, size: nat)
    requires i + 1 < |bs| && !Allocated(bs[i]) && !Allocated(bs[i + 1]) && Reserved(bs, a, size)
    ensures Reserved(MergeAt(bs, i), a, size)
  {
    MergeAtIndices(bs, i);
    var j :| 0 <= j < |bs| && Payload(bs[j]) == a && Allocated(bs[j]) && Size(bs[j]) >= size + 2 * WORD;
    if j < i {
      assert MergeAt(bs, i)[j] == bs[j];
    } else {
      assert MergeAt(bs, i)[j - 1] == bs[j];
    }
  }

  /** Freeing the block at another payload leaves a reservation in place. */
  lemma FreeKeepsReserved(bs: seq<Block>, i: nat, a: nat, size: nat)
    requires i < |bs| && Reserved(bs, a, size) && a != Payload(bs[i])
    ensures Reserved(Coalesced(Mark(bs, i, false), i), a, size)
  {
    var m := Mark(bs, i, false);
    var j :| 0 <= j < |bs| && Payload(bs[j]) == a && Allocated(bs[j]) && Size(bs[j]) >= size + 2 * WORD;
    assert m[j] == bs[j];
    var a' := if FreeNext(m, i) then MergeAt(m, i) else m;
    if FreeNext(m, i) {
      MergeKeepsReserved(m, i, a, size);
      MergeAtIndices(m, i);
    }
    if FreePrev(m, i) {
      assert a'[i - 1] == m[i - 1] && !Allocated(a'[i]);
      MergeKeepsReserved(a', i - 1, a, size);
    }
  }

  lemma NothingListedIn(fl: seq<nat>, s: seq<nat>)
    requires forall o | o in fl :: o in s
    ensures |s| == 0 ==> |fl| == 0
  {
    if |fl| != 0 {
      assert fl[0] in fl;
    }
  }

  /** Dropping the last block, and its offset from the list, keeps the list exact for the blocks before it. */
  lemma DropLastListed(bs: seq<Block>, fl: seq<nat>)
    requires Increasing(bs) && FreeListed(bs, fl) && NoDuplicates(fl) && bs != []
    ensures var n := |bs| - 1; var fl' := Without(fl, bs[n].offset);
      Increasing(bs[..n]) && FreeListed(bs[..n], fl') && NoDuplicates(fl') &&
      |fl| == |fl'| + if Allocated(bs[n]) then 0 else 1
  {
    var n := |bs| - 1;
    var init := bs[..n];
    var last := bs[n];
    var fl' := Without(fl, last.offset);
    WithoutNoDuplicates(fl, last.offset);
    forall j | 0 <= j < n
      ensures !Allocated(init[j]) <==> init[j].offset in fl'
    {
      assert init[j] == bs[j];
    }
    forall o | o in fl'
      ensures o in Offsets(init)
    {
      var j :| 0 <= j < |bs| && Offsets(bs)[j] == o;
      assert j != n;
      assert Offsets(init)[j] == o;
    }
    if !Allocated(last) {
      WithoutAt(fl, ListIndex(fl, last.offset));
    }
  }

  /** mm_checkheap's last check: the list holds as many blocks as the heap has free blocks. */
  lemma {:induction false} FreeCountsAgree(bs: seq<Block>, fl: seq<nat>)
    requires Increasing(bs) && FreeListed(bs, fl) && NoDuplicates(fl)
    ensures |fl| == CountFree(bs)
  {
    if bs == [] {
      NothingListedIn(fl, Offsets(bs));
    } else {
      var n := |bs| - 1;
      DropLastListed(bs, fl);
      FreeCountsAgree(bs[..n], Without(fl, bs[n].offset));
    }
  }

  /** The block behind a reserved payload. */
  lemma ReservedBlock(bs: seq<Block>, a: nat, size: nat)
    requires Increasing(bs) && Reserved(bs, a, size)
    ensures a >= WORD && a - WORD in Offsets(bs)
    ensures Allocated(bs[IndexOf(bs, a - WORD)]) && Size(bs[IndexOf(bs, a - WORD)]) >= size + 2 * WORD
  {
    var j :| 0 <= j < |bs| && Payload(bs[j]) == a && Allocated(bs[j]) && Size(bs[j]) >= size + 2 * WORD;
    IndexOfBlock(bs, j);
  }

  /** A reserved payload lies inside the heap and names an allocated block. */
  lemma ReservedInHeap(bs: seq<Block>, start: nat, end: nat, a: nat, size: nat)
    requires Layout(bs, start, end) && Reserved(bs, a, size)
    ensures start + WORD <= a < end && a - WORD in Offsets(bs)
    ensures Allocated(bs[IndexOf(bs, a - WORD)]) && Size(bs[IndexOf(bs, a - WORD)]) >= size + 2 * WORD
  {
    LayoutBounds(bs, start, end);
    ReservedBlock(bs, a, size);
  }

  /** Every reserved payload lies below the end of the heap. */
  lemma ReservedBelowEnd(bs: seq<Block>, start: nat, end: nat, a: nat, size: nat)
    requires Layout(bs, start, end) && Reserved(bs, a, size)
    ensures a < end
  {
    LayoutBounds(bs, start, end);
  }

  /** No payload of a free block is reserved. */
  lemma FreeBlockNotReserved(bs: seq<Block>, i: nat)
    requires Increasing(bs) && i < |bs| && !Allocated(bs[i])
    ensures !Reserved(bs, Payload(bs[i]), 0)
  {
  }

  /** After free, the freed payload is no longer reserved. */
  lemma FreeReleases(bs: seq<Block>, i: nat)
    requires Increasing(bs) && i < |bs|
    ensures !Reserved(Coalesced(Mark(bs, i, false), i), Payload(bs[i]), 0)
  {
    var m := Mark(bs, i, false);
    assert Increasing(m);
    var a := if FreeNext(m, i) then MergeAt(m, i) else m;
    if FreeNext(m, i) {
      MergeKeepsIncreasing(m, i);
      MergeAtIndices(m, i);
    }
    assert i < |a| && a[i].offset == bs[i].offset && !Allocated(a[i]);
    if FreePrev(m, i) {
      assert a[i - 1] == m[i - 1];
      AbsorbedNotReserved(a, i);
    } else {
      FreeBlockNotReserved(a, i);
    }
  }

  /** Once a free block i is absorbed by its free predecessor, no allocated block sits at its offset. */
  lemma AbsorbedNotReserved(a: seq<Block>, i: nat)
    requires Increasing(a) && 0 < i < |a| && !Allocated(a[i - 1]) && !Allocated(a[i])
    ensures !Reserved(MergeAt(a, i - 1), Payload(a[i]), 0)
  {
    MergeAtIndices(a, i - 1);
    var r := MergeAt(a, i - 1);
    forall j | 0 <= j < |r| && Allocated(r[j])
      ensures r[j].offset != a[i].offset
    {
      if j >= i {
        assert r[j] == a[j + 1];
      } else {
        assert r[j] == a[j];
      }
    }
  }

  /** The sizes of blocks laid back to back. */
  function SumSizes(bs: seq<Block>): (r: nat)
    ensures r % ALIGNMENT == 0
    ensures forall j | 0 <= j < |bs| :: Size(bs[j]) <= r
  {
    if bs == [] then 0 else SumSizes(bs[..|bs| - 1]) + Size(bs[|bs| - 1])
  }

  lemma SumSizesTwo(x: Block, y: Block)
    ensures SumSizes([x, y]) == Size(x) + Size(y)
  {
    assert [x][..0] == [];
    assert SumSizes([x]) == Size(x);
    assert [x, y][..1] == [x];
  }

  lemma SumSizesThree(x: Block, y: Block, z: Block)
    ensures SumSizes([x, y, z]) == Size(x) + Size(y) + Size(z)
  {
    assert [x, y, z][..2] == [x, y];
    SumSizesTwo(x, y);
  }

  /**
   * coalesce_free_block leaves a single free block where the absorbed blocks
   * were: at the offset of the first one, with the sum of their sizes.
   */
  lemma CoalescedCovers(m: seq<Block>, i: nat)
    requires i < |m|
    ensures var lo := if FreePrev(m, i) then i - 1 else i;
      var hi := if FreeNext(m, i) then i + 2 else i + 1;
      (FreePrev(m, i) || FreeNext(m, i)) ==>
        Coalesced(m, i) == m[..lo] + [Tag(m[lo].offset, SumSizes(m[lo..hi]), false)] + m[hi..]
    ensures !FreePrev(m, i) && !FreeNext(m, i) ==> Coalesced(m, i) == m
  {
    var lo := if FreePrev(m, i) then i - 1 else i;
    var hi := if FreeNext(m, i) then i + 2 else i + 1;
    var a := if FreeNext(m, i) then MergeAt(m, i) else m;
    if FreeNext(m, i) {
      MergeAtIndices(m, i);
    }
    if FreePrev(m, i) {
      MergeAtIndices(a, i - 1);
      if FreeNext(m, i) {
        assert m[lo..hi] == [m[i - 1], m[i], m[i + 1]];
        SumSizesThree(m[i - 1], m[i], m[i + 1]);
      } else {
        assert m[lo..hi] == [m[i - 1], m[i]];
        SumSizesTwo(m[i - 1], m[i]);
      }
      assert a[i + 1..] == m[hi..];
      assert a[..i - 1] == m[..lo];
    } else if FreeNext(m, i) {
      assert m[lo..hi] == [m[i], m[i + 1]];
      SumSizesTwo(m[i], m[i + 1]);
    }
  }
}
