/** The allocator's invariant and its preservation by init, alloc and free.
    `live` is the set of head pages of the blocks handed out by alloc and not
    yet freed: the caller's knowledge, which the C code does not store. */
module BuddyInvariant {
  import opened PowerOfTwo
  import opened Region
  import opened Blocks
  import opened FreeList
  import opened RequestOrder
  import opened BuddyAllocator
  import opened AllocShape

  /** The free blocks: one per entry of each order's list. */
  function FreeBlocks(s: Allocator): set<Block>
    requires WellFormed(s)
  {
    set o: Order, p: nat | MinOrder <= o <= MaxOrder && p in s.freeArea[o] :: Block(p, o)
  }

  /** The allocated blocks: each live head with the order recorded for it. */
  function LiveBlocks(s: Allocator, live: set<nat>): set<Block>
    requires |s.pageOrder| == NPages
  {
    set p | p in live && p < NPages && MinOrder <= s.pageOrder[p] <= MaxOrder :: Block(p, s.pageOrder[p])
  }

  lemma FreeBlocksMember(s: Allocator, b: Block)
    requires WellFormed(s)
    ensures b in FreeBlocks(s) <==> b.head in s.freeArea[b.order]
  {
    if b.head in s.freeArea[b.order] {
      assert b == Block(b.head, b.order);
    }
  }

  /** Allocated heads record a valid order and appear on no free list;
      no list holds a page twice; and the free and allocated blocks together
      tile the region, each aligned to its own size. */
  predicate Valid(s: Allocator, live: set<nat>) {
    && WellFormed(s)
    && (forall o: Order :: NoDup(s.freeArea[o]))
    && (forall p :: p in live ==> p < NPages && MinOrder <= s.pageOrder[p] <= MaxOrder)
    && (forall o: Order, p :: p in live && p in s.freeArea[o] ==> false)
    && Tiles(FreeBlocks(s) + LiveBlocks(s, live))
  }

  /** No page is on two free lists (the lists are disjoint). */
  lemma ListsDisjoint(s: Allocator, live: set<nat>, o1: Order, o2: Order, p: nat)
    requires Valid(s, live) && p in s.freeArea[o1] && p in s.freeArea[o2]
    ensures o1 == o2
  {
    FreeBlocksMember(s, Block(p, o1));
    FreeBlocksMember(s, Block(p, o2));
    SameHeadSameBlock(FreeBlocks(s) + LiveBlocks(s, live), Block(p, o1), Block(p, o2));
  }

  /** After buddy_init nothing is allocated and the invariant holds. */
  lemma InitValid()
    ensures Valid(Init(), {})
    ensures FreeBlocks(Init()) == {Block(0, MaxOrder)}
  {
    var s := Init();
    ConfigurationConsistent();
    forall b
      ensures b in FreeBlocks(s) <==> b == Block(0, MaxOrder)
    {
      FreeBlocksMember(s, b);
    }
    assert LiveBlocks(s, {}) == {};
    var bs := FreeBlocks(s) + LiveBlocks(s, {});
    assert Placed(Block(0, MaxOrder));
    forall page | 0 <= page < NPages
      ensures Covered(bs, page)
    {
      assert Covers(Block(0, MaxOrder), page);
    }
  }

  /** A live head lies outside every free block. */
  lemma LiveOutsideFree(s: Allocator, live: set<nat>, q: nat, b: Block)
    requires Valid(s, live) && q in live && b in FreeBlocks(s)
    ensures !Covers(b, q)
  {
    var a := Block(q, s.pageOrder[q]);
    assert a in LiveBlocks(s, live);
    FreeBlocksMember(s, b);
    assert a != b;
  }

  /** buddy_alloc preserves the invariant; the block it returns was not live
      and is live afterwards. */
  lemma AllocPreservesValid(s: Allocator, live: set<nat>, size: int)
    requires Valid(s, live) && size >= 1
    ensures var out := Alloc(s, size);
            && (out.result.Address? ==> AddrToPage(out.result.offset) !in live)
            && Valid(out.next, if out.result.Address? then live + {AddrToPage(out.result.offset)} else live)
  {
    var out := Alloc(s, size);
    var r := BlockOrder(size);
    if out.result.Address? {
      var f := FirstNonEmpty(s, r);
      var i := f.value;
      AllocSplits(s, size, i);
      var p := s.freeArea[i][0];
      PageAddrRoundTrip(p, 0);
      assert AddrToPage(out.result.offset) == p;
      AllocStepValid(s, live, r, i, out.next);
    }
  }

  /** The heart of AllocPreservesValid, on the shape AllocSplits gives. */
  lemma AllocStepValid(s: Allocator, live: set<nat>, r: Order, i: Order, s': Allocator)
    requires Valid(s, live) && WellFormed(s') && LowestNonEmpty(s, r, i)
    requires SplitShape(s, r, i, s')
    ensures s.freeArea[i][0] !in live
    ensures Valid(s', live + {s.freeArea[i][0]})
  {
    var p := s.freeArea[i][0];
    var x := Block(p, i);
    var live' := live + {p};
    var F, L := FreeBlocks(s), LiveBlocks(s, live);
    SplitLiveBlocks(s, live, r, i, s');
    SplitFreeBlocks(s, r, i, s');
    SplitListsValid(s, live, r, i, s');
    var C := (F - {x}) + L;
    assert C + {x} == F + L by {
      assert p in s.freeArea[i];
      FreeBlocksMember(s, x);
    }
    SplitDown(C, p, r, i);
    assert FreeBlocks(s') + LiveBlocks(s', live') == C + Halves(p, r, i) + {Block(p, r)};
  }

  /** Live heads lie outside the block being split, so their orders are
      kept, and the taken head becomes live with order r. */
  lemma SplitLiveBlocks(s: Allocator, live: set<nat>, r: Order, i: Order, s': Allocator)
    requires Valid(s, live) && WellFormed(s') && LowestNonEmpty(s, r, i)
    requires SplitShape(s, r, i, s')
    ensures s.freeArea[i][0] !in live
    ensures forall q :: q in live ==> s'.pageOrder[q] == s.pageOrder[q]
    ensures LiveBlocks(s', live + {s.freeArea[i][0]}) == LiveBlocks(s, live) + {Block(s.freeArea[i][0], r)}
  {
    var p := s.freeArea[i][0];
    var x := Block(p, i);
    assert p in s.freeArea[i];
    FreeBlocksMember(s, x);
    forall q | q in live
      ensures q != p && !HalfHead(q, p, r, i) && s'.pageOrder[q] == s.pageOrder[q]
    {
      LiveOutsideFree(s, live, q, x);
      if HalfHead(q, p, r, i) {
        HalfHeadInside(q, p, r, i);
      }
    }
  }

  /** The free blocks lose the block taken from list i and gain the upper halves. */
  lemma SplitFreeBlocks(s: Allocator, r: Order, i: Order, s': Allocator)
    requires WellFormed(s) && WellFormed(s') && LowestNonEmpty(s, r, i)
    requires NoDup(s.freeArea[i])
    requires SplitShape(s, r, i, s')
    ensures FreeBlocks(s') == (FreeBlocks(s) - {Block(s.freeArea[i][0], i)}) + Halves(s.freeArea[i][0], r, i)
  {
    var p := s.freeArea[i][0];
    NoDupTail(s.freeArea[i]);
    forall b
      ensures b in FreeBlocks(s') <==> b in (FreeBlocks(s) - {Block(p, i)}) + Halves(p, r, i)
    {
      FreeBlocksMember(s, b);
      FreeBlocksMember(s', b);
      HalvesMember(b, p, r, i);
    }
  }

  /** After the split no list holds a page twice and no live head, the
      taken one included, is on a free list. */
  lemma SplitListsValid(s: Allocator, live: set<nat>, r: Order, i: Order, s': Allocator)
    requires Valid(s, live) && WellFormed(s') && LowestNonEmpty(s, r, i)
    requires SplitShape(s, r, i, s')
    ensures forall o: Order :: NoDup(s'.freeArea[o])
    ensures forall o: Order, q :: q in live + {s.freeArea[i][0]} && q in s'.freeArea[o] ==> false
  {
    var p := s.freeArea[i][0];
    var x := Block(p, i);
    assert p in s.freeArea[i];
    FreeBlocksMember(s, x);
    NoDupTail(s.freeArea[i]);
    forall o: Order
      ensures NoDup(s'.freeArea[o])
    {
      if o != i && r <= o < i {
        assert s'.freeArea[o] == [p + Pages(o)];
      }
    }
    forall o: Order, q | q in live + {p} && q in s'.freeArea[o]
      ensures false
    {
      if r <= o < i {
        PagesMonotone(o, i);
        if q != p {
          LiveOutsideFree(s, live, q, x);
        }
      } else if q == p && o != i {
        ListsDisjoint(s, live, o, i, p);
      }
    }
  }

  /** The state during the coalescing loop: the block being freed, `pending`,
      is on no list and not live, and with it the free and live blocks tile
      the region. */
  predicate MergeReady(s: Allocator, live: set<nat>, pending: Block) {
    && WellFormed(s)
    && (forall o: Order :: NoDup(s.freeArea[o]))
    && (forall p :: p in live ==> p < NPages && MinOrder <= s.pageOrder[p] <= MaxOrder)
    && (forall o: Order, p :: p in live && p in s.freeArea[o] ==> false)
    && pending !in FreeBlocks(s) && pending !in LiveBlocks(s, live)
    && Tiles(FreeBlocks(s) + LiveBlocks(s, live) + {pending})
  }

  /** The pending block is neither live nor on a free list. */
  lemma PendingUnlisted(s: Allocator, live: set<nat>, page: nat, i: Order)
    requires MergeReady(s, live, Block(page, i))
    ensures Placed(Block(page, i))
    ensures page !in live
    ensures forall o: Order :: page !in s.freeArea[o]
  {
    var x := Block(page, i);
    var F, L := FreeBlocks(s), LiveBlocks(s, live);
    assert x in F + L + {x};
    if page in live {
      var a := Block(page, s.pageOrder[page]);
      assert a in L;
      SameHeadSameBlock(F + L + {x}, a, x);
    }
    forall o: Order | page in s.freeArea[o]
      ensures false
    {
      FreeBlocksMember(s, Block(page, o));
      SameHeadSameBlock(F + L + {x}, Block(page, o), x);
    }
  }

  /** One round of the coalescing loop: the buddy is unlinked and the pending
      block grows to the merged block. */
  lemma MergeRound(s: Allocator, live: set<nat>, page: nat, i: Order)
    requires MergeReady(s, live, Block(page, i))
    requires i < MaxOrder && BuddyPage(page, i) in s.freeArea[i]
    ensures MergeReady(Unlink(s, BuddyPage(page, i), i), live, Block(MergedHead(page, i), i + 1))
  {
    var x := Block(page, i);
    var F, L := FreeBlocks(s), LiveBlocks(s, live);
    var buddy := BuddyPage(page, i);
    var y := Block(buddy, i);
    BuddyPageFlips(page, i);
    FreeBlocksMember(s, y);
    RemoveDistinct(s.freeArea[i], buddy);
    var s1 := Unlink(s, buddy, i);
    forall b
      ensures b in FreeBlocks(s1) <==> b in F - {y}
    {
      FreeBlocksMember(s, b);
      FreeBlocksMember(s1, b);
    }
    assert LiveBlocks(s1, live) == L;
    assert buddy !in live;
    assert y !in L;
    MergeStep(F + L, x, y);
    assert (F + L) - {y} == FreeBlocks(s1) + LiveBlocks(s1, live);
    assert Merged(x, y) == Block(MergedHead(page, i), i + 1);
  }

  /** The end of the coalescing loop: pushing the pending block gives a valid state. */
  lemma PushValid(s: Allocator, live: set<nat>, page: nat, i: Order)
    requires MergeReady(s, live, Block(page, i))
    ensures Placed(Block(page, i))
    ensures Valid(Push(s, page, i), live)
  {
    var x := Block(page, i);
    var F, L := FreeBlocks(s), LiveBlocks(s, live);
    PendingUnlisted(s, live, page, i);
    var s' := Push(s, page, i);
    forall b
      ensures b in FreeBlocks(s') <==> b in F + {x}
    {
      FreeBlocksMember(s, b);
      FreeBlocksMember(s', b);
    }
    assert LiveBlocks(s', live) == L;
    assert NoDup(s'.freeArea[i]) by {
      NoDupPrepend(page, s.freeArea[i]);
    }
    assert FreeBlocks(s') + LiveBlocks(s', live) == F + L + {x};
  }

  /** The coalescing loop ends in a valid state. */
  lemma {:induction false} MergeValid(s: Allocator, live: set<nat>, page: nat, i: Order)
    requires MergeReady(s, live, Block(page, i))
    ensures Placed(Block(page, i))
    ensures Valid(Merge(s, page, i), live)
    decreases MaxOrder - i
  {
    PendingUnlisted(s, live, page, i);
    if i < MaxOrder && BuddyPage(page, i) in s.freeArea[i] {
      MergeRound(s, live, page, i);
      MergeValid(Unlink(s, BuddyPage(page, i), i), live, MergedHead(page, i), i + 1);
    } else {
      PushValid(s, live, page, i);
    }
  }

  /** buddy_free of a live block's address preserves the invariant, with that
      block no longer live. */
  lemma FreePreservesValid(s: Allocator, live: set<nat>, addr: nat)
    requires Valid(s, live) && addr % PageSize == 0 && AddrToPage(addr) in live
    ensures var page := AddrToPage(addr);
            && page < NPages && MinOrder <= s.pageOrder[page] <= MaxOrder
            && Placed(Block(page, s.pageOrder[page]))
            && Valid(Free(s, addr), live - {page})
  {
    var page := AddrToPage(addr);
    var x := Block(page, s.pageOrder[page]);
    var live' := live - {page};
    var F := FreeBlocks(s);
    assert x in LiveBlocks(s, live);
    assert LiveBlocks(s, live) == LiveBlocks(s, live') + {x};
    assert x !in F by {
      FreeBlocksMember(s, x);
    }
    assert x !in LiveBlocks(s, live');
    assert F + LiveBlocks(s, live) == F + LiveBlocks(s, live') + {x};
    MergeValid(s, live', page, s.pageOrder[page]);
  }
}
