/** Free blocks are fully coalesced: no free block has its buddy free at the
    same order. buddy_free's loop keeps this, and so does buddy_alloc's split.
    With the tiling invariant it forces the free lists of a state with nothing
    allocated to be the ones buddy_init builds. */
module Coalescing {
  import opened PowerOfTwo
  import opened Region
  import opened Blocks
  import opened FreeList
  import opened RequestOrder
  import opened BuddyAllocator
  import opened AllocShape
  import opened BuddyInvariant

  /** No free block below MaxOrder has its buddy on the same free list. */
  predicate Coalesced(s: Allocator)
    requires WellFormed(s)
  {
    forall o: Order, p :: o < MaxOrder && p in s.freeArea[o] ==> BuddyPage(p, o) !in s.freeArea[o]
  }

  lemma InitCoalesced()
    ensures Coalesced(Init())
  {
  }

  /** The buddy of a page at order o is another page, and the relation is symmetric. */
  lemma BuddyPageSymmetric(p: nat, q: nat, o: Order)
    ensures BuddyPage(p, o) != p
    ensures BuddyPage(p, o) == q <==> BuddyPage(q, o) == p
  {
    BuddyPageFlips(p, o);
    BuddyPageFlips(q, o);
    FlipBitValue(p, o - MinOrder);
    FlipBitInvolution(p, o - MinOrder);
    FlipBitInvolution(q, o - MinOrder);
  }

  /** buddy_alloc keeps the free blocks coalesced: each upper half it leaves
      behind has its buddy (the lower half) taken. */
  lemma AllocKeepsCoalesced(s: Allocator, size: int)
    requires WellFormed(s) && Coalesced(s) && size >= 1
    ensures Coalesced(Alloc(s, size).next)
  {
    var out := Alloc(s, size);
    if out.result.Address? {
      var i := FirstNonEmpty(s, BlockOrder(size)).value;
      AllocSplits(s, size, i);
      SplitKeepsCoalesced(s, BlockOrder(size), i, out.next);
    }
  }

  /** The free-list part of AllocKeepsCoalesced, on the shape AllocSplits gives. */
  lemma SplitKeepsCoalesced(s: Allocator, r: Order, i: Order, s': Allocator)
    requires WellFormed(s) && WellFormed(s') && Coalesced(s) && LowestNonEmpty(s, r, i)
    requires SplitShape(s, r, i, s')
    ensures Coalesced(s')
  {
    var p := s.freeArea[i][0];
    assert p in s.freeArea[i];
    forall o: Order, q | o < MaxOrder && q in s'.freeArea[o]
      ensures BuddyPage(q, o) !in s'.freeArea[o]
    {
      if r <= o < i {
        var k := o - MinOrder;
        AlignedBitClear(p, i - MinOrder, k);
        FlipBitValue(p, k);
        FlipBitInvolution(p, k);
        BuddyPageFlips(q, o);
        BuddyPageSymmetric(p, q, o);
      }
    }
  }

  /** The coalescing loop keeps the free blocks coalesced: it only pushes a
      block whose buddy is not free at its order. */
  lemma {:induction false} MergeKeepsCoalesced(s: Allocator, page: nat, i: Order)
    requires WellFormed(s) && Placed(Block(page, i)) && Coalesced(s)
    ensures Coalesced(Merge(s, page, i))
    decreases MaxOrder - i
  {
    if i < MaxOrder && BuddyPage(page, i) in s.freeArea[i] {
      MergedHeadPlaced(page, i);
      UnlinkKeepsCoalesced(s, BuddyPage(page, i), i);
      MergeKeepsCoalesced(Unlink(s, BuddyPage(page, i), i), MergedHead(page, i), i + 1);
    } else {
      PushKeepsCoalesced(s, page, i);
    }
  }

  /** Unlinking a page from a list keeps the lists coalesced. */
  lemma UnlinkKeepsCoalesced(s: Allocator, v: nat, i: Order)
    requires WellFormed(s) && Coalesced(s)
    ensures Coalesced(Unlink(s, v, i))
  {
  }

  /** The loop's final push keeps the lists coalesced when the pushed
      block's buddy is not free at its order. */
  lemma PushKeepsCoalesced(s: Allocator, page: nat, i: Order)
    requires WellFormed(s) && Placed(Block(page, i)) && Coalesced(s)
    requires i == MaxOrder || BuddyPage(page, i) !in s.freeArea[i]
    ensures Coalesced(Push(s, page, i))
  {
    var s' := Push(s, page, i);
    forall o: Order, q | o < MaxOrder && q in s'.freeArea[o]
      ensures BuddyPage(q, o) !in s'.freeArea[o]
    {
      if o == i {
        BuddyPageSymmetric(page, q, o);
      }
    }
  }

  /** buddy_free keeps the free blocks coalesced. */
  lemma FreeKeepsCoalesced(s: Allocator, addr: nat)
    requires WellFormed(s) && addr % PageSize == 0 && AddrToPage(addr) < NPages
    requires MinOrder <= s.pageOrder[AddrToPage(addr)] <= MaxOrder
    requires Placed(Block(AddrToPage(addr), s.pageOrder[AddrToPage(addr)]))
    requires Coalesced(s)
    ensures Coalesced(Free(s, addr))
  {
    var page := AddrToPage(addr);
    MergeKeepsCoalesced(s, page, s.pageOrder[page]);
  }

  /** With nothing allocated, no free list below `o` (inclusive) holds a
      block: the smallest free block's buddy would have to be free too. */
  lemma {:induction false} NothingFreeUpTo(s: Allocator, o: Order)
    requires Valid(s, {}) && Coalesced(s) && o < MaxOrder
    ensures forall o': Order :: o' <= o ==> s.freeArea[o'] == []
    decreases o
  {
    if o > MinOrder {
      NothingFreeUpTo(s, o - 1);
    }
    if s.freeArea[o] != [] {
      var p := s.freeArea[o][0];
      var x := Block(p, o);
      var b := FlipBit(p, o - MinOrder);
      FreeBlocksMember(s, x);
      BuddyPlaced(x);
      assert LiveBlocks(s, {}) == {};
      var bs := FreeBlocks(s) + LiveBlocks(s, {});
      assert Covered(bs, b);
      var c :| c in bs && Covers(c, b);
      FreeBlocksMember(s, c);
      BuddyCoverIsBuddy(bs, x, c);
      BuddyPageFlips(p, o);
    }
  }

  /** With nothing allocated, the free lists are exactly the ones buddy_init
      builds: the whole region as one block of order MaxOrder at page 0. */
  lemma NothingAllocatedIsInit(s: Allocator)
    requires Valid(s, {}) && Coalesced(s)
    ensures forall o: Order :: s.freeArea[o] == Init().freeArea[o]
  {
    NothingFreeUpTo(s, MaxOrder - 1);
    assert LiveBlocks(s, {}) == {};
    ConfigurationConsistent();
    assert FreeBlocks(s) + LiveBlocks(s, {}) == FreeBlocks(s);
    assert Covered(FreeBlocks(s), 0);
    var c :| c in FreeBlocks(s) && Covers(c, 0);
    FreeBlocksMember(s, c);
    var xs := s.freeArea[MaxOrder];
    forall j | 0 <= j < |xs|
      ensures xs[j] == 0
    {
      assert Placed(Block(xs[j], MaxOrder));
    }
    NoDupFirstTwo(xs);
    assert xs == [0];
  }
}
