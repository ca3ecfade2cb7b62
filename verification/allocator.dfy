/** The buddy allocator: buddy_init, buddy_alloc, buddy_free and buddy_dump
    over an explicit allocator state. */
module BuddyAllocator {
  import opened PowerOfTwo
  import opened Region
  import opened Blocks
  import opened Options
  import opened FreeList
  import opened RequestOrder

  /** The allocator's state. freeArea[o] is free_area[o]: the head pages of
      the free blocks of order o, most recently added first. pageOrder[p] is
      g_pages[p].blockOrder. Lists below MinOrder are never used. */
  datatype Allocator = Allocator(freeArea: seq<seq<nat>>, pageOrder: seq<int>)

  /** Array sizes, and every listed page heads a placed block of the list's order. */
  predicate WellFormed(s: Allocator) {
    && |s.freeArea| == MaxOrder + 1
    && |s.pageOrder| == NPages
    && forall o: Order, p :: p in s.freeArea[o] ==> Placed(Block(p, o))
  }

  /** What buddy_alloc hands back. The C code returns NULL for both failures. */
  datatype AllocResult = Address(offset: nat) | TooLarge | Exhausted

  datatype AllocOutcome = AllocOutcome(next: Allocator, result: AllocResult)

  /** buddy_init: the whole region is one free block of order MaxOrder headed
      by page 0; every recorded order is -1. */
  function Init(): (s: Allocator)
    ensures WellFormed(s)
    ensures forall o: Order :: s.freeArea[o] == (if o == MaxOrder then [0] else [])
    ensures forall p :: 0 <= p < NPages ==> s.pageOrder[p] == -1
  {
    ConfigurationConsistent();
    assert Aligned(0, MaxOrder - MinOrder);
    Allocator(seq(MaxOrder + 1, o => if o == MaxOrder then [0] else []), seq(NPages, p => -1))
  }

  /** The scan of buddy_alloc: the lowest order in [from, MaxOrder] whose list is non-empty. */
  function FirstNonEmpty(s: Allocator, from: Order): (r: Option<Order>)
    requires WellFormed(s)
    ensures r.Some? ==> from <= r.value && s.freeArea[r.value] != []
    ensures r.Some? ==> forall o :: from <= o < r.value ==> s.freeArea[o] == []
    ensures r.None? ==> forall o :: from <= o <= MaxOrder ==> s.freeArea[o] == []
    decreases MaxOrder - from
  {
    if s.freeArea[from] != [] then Some(from)
    else if from == MaxOrder then None
    else FirstNonEmpty(s, from + 1)
  }

  /** Page q is the head of one of the upper halves split off a block at
      `left` on the way from order `top` down to `bottom`. */
  predicate HalfHead(q: nat, left: nat, bottom: Order, top: Order)
    decreases top - bottom
  {
    bottom < top && (q == left + Pages(top - 1) || HalfHead(q, left, bottom, top - 1))
  }

  /** Every half head lies strictly inside the block being split. */
  lemma {:induction false} HalfHeadInside(q: nat, left: nat, bottom: Order, top: Order)
    requires HalfHead(q, left, bottom, top)
    ensures left < q < left + Pages(top)
    decreases top - bottom
  {
    PagesSucc(top - 1);
    if q != left + Pages(top - 1) {
      HalfHeadInside(q, left, bottom, top - 1);
    }
  }

  /** The split loop of buddy_alloc (lines 140-144): for j from `top` down to
      bottom + 1 the upper half of order j - 1 is recorded with order j - 1
      and pushed onto list j - 1. */
  function Split(s: Allocator, left: nat, top: Order, bottom: Order): (s': Allocator)
    requires |s.freeArea| == MaxOrder + 1 && |s.pageOrder| == NPages
    requires bottom <= top && Placed(Block(left, top))
    ensures |s'.freeArea| == MaxOrder + 1 && |s'.pageOrder| == NPages
    decreases top - bottom
  {
    if top == bottom then s
    else
      UpperHalfIsBuddy(left, top);
      var right := BuddyPage(left, top - 1);
      var s1 := s.(pageOrder := s.pageOrder[right := top - 1],
                   freeArea := s.freeArea[top - 1 := [right] + s.freeArea[top - 1]]);
      Split(s1, left, top - 1, bottom)
  }

  /** Split pushes the upper half split off at order o onto list o, for
      each o in [bottom, top), and leaves the other lists alone. */
  lemma {:induction false} SplitLists(s: Allocator, left: nat, top: Order, bottom: Order)
    requires |s.freeArea| == MaxOrder + 1 && |s.pageOrder| == NPages
    requires bottom <= top && Placed(Block(left, top))
    ensures forall o :: 0 <= o <= MaxOrder ==>
      Split(s, left, top, bottom).freeArea[o] ==
        if bottom <= o < top then [left + Pages(o)] + s.freeArea[o] else s.freeArea[o]
    decreases top - bottom
  {
    if top > bottom {
      UpperHalfIsBuddy(left, top);
      var right := BuddyPage(left, top - 1);
      var s1 := s.(pageOrder := s.pageOrder[right := top - 1],
                   freeArea := s.freeArea[top - 1 := [right] + s.freeArea[top - 1]]);
      assert Split(s, left, top, bottom) == Split(s1, left, top - 1, bottom);
      SplitLists(s1, left, top - 1, bottom);
    }
  }

  /** Every block Split lists is placed. */
  lemma {:induction false} SplitWellFormed(s: Allocator, left: nat, top: Order, bottom: Order)
    requires WellFormed(s) && bottom <= top && Placed(Block(left, top))
    ensures WellFormed(Split(s, left, top, bottom))
    decreases top - bottom
  {
    if top > bottom {
      UpperHalfIsBuddy(left, top);
      var right := BuddyPage(left, top - 1);
      var s1 := s.(pageOrder := s.pageOrder[right := top - 1],
                   freeArea := s.freeArea[top - 1 := [right] + s.freeArea[top - 1]]);
      assert WellFormed(s1);
      assert Split(s, left, top, bottom) == Split(s1, left, top - 1, bottom);
      SplitWellFormed(s1, left, top - 1, bottom);
    }
  }

  /** Split records order o for the head of the upper half split off at
      order o, and leaves every other page's recorded order alone. */
  lemma {:induction false} SplitOrders(s: Allocator, left: nat, top: Order, bottom: Order)
    requires |s.freeArea| == MaxOrder + 1 && |s.pageOrder| == NPages
    requires bottom <= top && Placed(Block(left, top))
    ensures forall o: Order :: bottom <= o < top ==>
      left + Pages(o) < NPages && Split(s, left, top, bottom).pageOrder[left + Pages(o)] == o
    ensures forall q :: 0 <= q < NPages && !HalfHead(q, left, bottom, top) ==>
      Split(s, left, top, bottom).pageOrder[q] == s.pageOrder[q]
    decreases top - bottom
  {
    if top > bottom {
      UpperHalfIsBuddy(left, top);
      var right := BuddyPage(left, top - 1);
      var s1 := s.(pageOrder := s.pageOrder[right := top - 1],
                   freeArea := s.freeArea[top - 1 := [right] + s.freeArea[top - 1]]);
      assert Split(s, left, top, bottom) == Split(s1, left, top - 1, bottom);
      SplitOrders(s1, left, top - 1, bottom);
      HalfHeadStep(left, bottom, top);
      var s' := Split(s1, left, top - 1, bottom);
      forall q | 0 <= q < NPages && !HalfHead(q, left, bottom, top)
        ensures s'.pageOrder[q] == s.pageOrder[q]
      {
        assert q != right && !HalfHead(q, left, bottom, top - 1);
      }
    }
  }

  /** The upper half of a placed block, as the split finds it through
      BUDDY_ADDR: the buddy of the lower half, Pages(top - 1) pages up. */
  lemma UpperHalfIsBuddy(left: nat, top: Order)
    requires Placed(Block(left, top)) && top > MinOrder
    ensures BuddyPage(left, top - 1) == left + Pages(top - 1) < NPages
    ensures Placed(Block(left, top - 1)) && Placed(Block(left + Pages(top - 1), top - 1))
  {
    var b := Block(left, top);
    HalvesPlaced(b);
    BuddyPageFlips(left, top - 1);
  }

  /** The upper half of order top - 1 is not among the half heads of a
      split that stops at top - 1. */
  lemma HalfHeadStep(left: nat, bottom: Order, top: Order)
    requires bottom < top
    ensures !HalfHead(left + Pages(top - 1), left, bottom, top - 1)
  {
    if HalfHead(left + Pages(top - 1), left, bottom, top - 1) {
      HalfHeadInside(left + Pages(top - 1), left, bottom, top - 1);
    }
  }

  /** buddy_alloc */
  function Alloc(s: Allocator, size: int): (out: AllocOutcome)
    requires WellFormed(s) && size >= 1
    ensures WellFormed(out.next)
    ensures out.result == TooLarge <==> BlockOrder(size) > MaxOrder
    ensures out.result == Exhausted <==>
      BlockOrder(size) <= MaxOrder && forall o :: BlockOrder(size) <= o <= MaxOrder ==> s.freeArea[o] == []
    ensures !out.result.Address? ==> out.next == s
    ensures out.result.Address? ==>
      var page := AddrToPage(out.result.offset);
      && out.result.offset == PageToAddr(page) && page < NPages
      && Aligned(out.result.offset, BlockOrder(size))
      && out.result.offset + Pow2(BlockOrder(size)) <= Pow2(MaxOrder)
      && out.next.pageOrder[page] == BlockOrder(size)
  {
    var r := BlockOrder(size);
    if r > MaxOrder then AllocOutcome(s, TooLarge)
    else
      match FirstNonEmpty(s, r)
      case None => AllocOutcome(s, Exhausted)
      case Some(i) =>
        var left := s.freeArea[i][0];
        var s1 := TakeHead(s, i, r);
        var s2 := Split(s1, left, i, r);
        SplitWellFormed(s1, left, i, r);
        SplitOrders(s1, left, i, r);
        assert !HalfHead(left, left, r, i) by {
          if HalfHead(left, left, r, i) {
            HalfHeadInside(left, left, r, i);
          }
        }
        AllocReturnsAligned(left, i, r);
        AllocOutcome(s2, Address(PageToAddr(left)))
  }

  /** Lines 133-136 of buddy_alloc: unlink the head of list i and record
      order r for it. */
  function TakeHead(s: Allocator, i: Order, r: Order): (s1: Allocator)
    requires WellFormed(s) && s.freeArea[i] != []
    ensures WellFormed(s1) && Placed(Block(s.freeArea[i][0], i))
    ensures s1.freeArea == s.freeArea[i := s.freeArea[i][1..]]
    ensures s1.pageOrder == s.pageOrder[s.freeArea[i][0] := r]
  {
    assert s.freeArea[i][0] in s.freeArea[i];
    s.(pageOrder := s.pageOrder[s.freeArea[i][0] := r], freeArea := s.freeArea[i := s.freeArea[i][1..]])
  }

  /** The address of the head of a placed block of order i, as an order-r
      block for r <= i, is 2^r-aligned and the block lies inside the region. */
  lemma AllocReturnsAligned(left: nat, i: Order, r: Order)
    requires Placed(Block(left, i)) && r <= i
    ensures AddrToPage(PageToAddr(left)) == left
    ensures Aligned(PageToAddr(left), r)
    ensures PageToAddr(left) + Pow2(r) <= Pow2(MaxOrder)
  {
    PageAddrRoundTrip(left, 0);
    AlignedWeaken(left, i - MinOrder, r - MinOrder);
    AddrAligned(left, r - MinOrder);
    ConfigurationConsistent();
    if r < i {
      PagesMonotone(r, i);
    }
    Pow2Add(r - MinOrder, MinOrder);
    assert Pow2(r) == Pages(r) * PageSize;
    assert (left + Pages(r)) * PageSize <= NPages * PageSize;
  }

  /** Lines 188-189: record the order and push the head onto its list. */
  function Push(s: Allocator, page: nat, o: Order): (s': Allocator)
    requires WellFormed(s) && Placed(Block(page, o))
    ensures WellFormed(s')
    ensures page in s'.freeArea[o] && s'.pageOrder[page] == o
  {
    s.(pageOrder := s.pageOrder[page := o], freeArea := s.freeArea[o := [page] + s.freeArea[o]])
  }

  /** Line 181 of buddy_free: list_del of the buddy's node from list o. */
  function Unlink(s: Allocator, buddy: nat, o: Order): (s1: Allocator)
    requires WellFormed(s)
    ensures WellFormed(s1) && s1.pageOrder == s.pageOrder
    ensures s1.freeArea == s.freeArea[o := Remove(s.freeArea[o], buddy)]
  {
    s.(freeArea := s.freeArea[o := Remove(s.freeArea[o], buddy)])
  }

  /** Lines 182-184 of buddy_free: the merged block is headed by the lower of
      the page and its buddy. */
  function MergedHead(page: nat, i: Order): (h: nat)
    ensures h == page || h == BuddyPage(page, i)
    ensures h <= page && h <= BuddyPage(page, i)
  {
    var buddy := BuddyPage(page, i);
    if page < buddy then page else buddy
  }

  /** A placed block and its buddy sit side by side inside the placed block
      of the next order headed by MergedHead. */
  lemma MergedHeadPlaced(page: nat, i: Order)
    requires Placed(Block(page, i)) && i < MaxOrder
    ensures var buddy := BuddyPage(page, i);
            && Placed(Block(buddy, i))
            && (buddy == page + Pages(i) || page == buddy + Pages(i))
            && Placed(Block(MergedHead(page, i), i + 1))
            && MergedHead(page, i) <= page && page + Pages(i) <= MergedHead(page, i) + Pages(i + 1)
            && MergedHead(page, i) <= buddy && buddy + Pages(i) <= MergedHead(page, i) + Pages(i + 1)
  {
    var buddy := BuddyPage(page, i);
    BuddyPageFlips(page, i);
    BuddyPlaced(Block(page, i));
    MergePlaced(Block(page, i), Block(buddy, i));
    PagesSucc(i);
  }

  /** The head of the order-j block that contains the placed order-i block
      at `page`: the block the coalescing loop holds once it has merged up
      to order j. */
  function ChainHead(page: nat, i: Order, j: Order): (h: nat)
    requires Placed(Block(page, i)) && i <= j
    ensures Placed(Block(h, j)) && h <= page && page + Pages(i) <= h + Pages(j)
    decreases j - i
  {
    if j == i then page
    else
      MergedHeadPlaced(page, i);
      ChainHead(MergedHead(page, i), i + 1, j)
  }

  /** The coalescing loop of buddy_free (lines 169-189), started at order i
      for the block headed by `page`. The freed block ends up inside a free
      block of order at least i whose head records that order. */
  function Merge(s: Allocator, page: nat, i: Order): (s': Allocator)
    requires WellFormed(s) && Placed(Block(page, i))
    ensures WellFormed(s')
    ensures exists o: Order, h :: i <= o && h in s'.freeArea[o] && s'.pageOrder[h] == o
                                  && h <= page && page + Pages(i) <= h + Pages(o)
    ensures forall o :: 0 <= o < i ==> s'.freeArea[o] == s.freeArea[o]
    decreases MaxOrder - i
  {
    if i == MaxOrder then Push(s, page, i)
    else if BuddyPage(page, i) in s.freeArea[i] then
      MergedHeadPlaced(page, i);
      Merge(Unlink(s, BuddyPage(page, i), i), MergedHead(page, i), i + 1)
    else Push(s, page, i)
  }

  /** Everything buddy_free relies on for the block at addr: a page-aligned
      offset in the region whose page heads a placed block of the order it records. */
  predicate FreeDefined(s: Allocator, addr: nat) {
    && WellFormed(s) && addr % PageSize == 0 && AddrToPage(addr) < NPages
    && MinOrder <= s.pageOrder[AddrToPage(addr)] <= MaxOrder
    && Placed(Block(AddrToPage(addr), s.pageOrder[AddrToPage(addr)]))
  }

  /** buddy_free: free the block at byte offset addr, whose head page records
      the order it was allocated at. */
  function Free(s: Allocator, addr: nat): (s': Allocator)
    requires FreeDefined(s, addr)
    ensures WellFormed(s')
    ensures exists o: Order, h :: s.pageOrder[AddrToPage(addr)] <= o && h in s'.freeArea[o]
                                  && s'.pageOrder[h] == o && PageToAddr(h) <= addr
                                  && addr + Pow2(s.pageOrder[AddrToPage(addr)]) <= PageToAddr(h) + Pow2(o)
  {
    var page := AddrToPage(addr);
    MergeCoversInBytes(s, page, s.pageOrder[page]);
    PageAddrRoundTrip(page, addr);
    Merge(s, page, s.pageOrder[page])
  }

  /** Merge's page-level containment, restated on byte offsets. */
  lemma MergeCoversInBytes(s: Allocator, page: nat, i: Order)
    requires WellFormed(s) && Placed(Block(page, i))
    ensures exists o: Order, h :: i <= o && h in Merge(s, page, i).freeArea[o]
                                  && Merge(s, page, i).pageOrder[h] == o && PageToAddr(h) <= PageToAddr(page)
                                  && PageToAddr(page) + Pow2(i) <= PageToAddr(h) + Pow2(o)
  {
    var s' := Merge(s, page, i);
    var o: Order, h :| i <= o && h in s'.freeArea[o] && s'.pageOrder[h] == o
                       && h <= page && page + Pages(i) <= h + Pages(o);
    ContainedInBytes(h, page, i, o);
  }

  datatype DumpLine = DumpLine(count: nat, kib: nat)

  /** buddy_dump: for each order from MinOrder to MaxOrder, the number of
      blocks on its free list and the block size in KiB. */
  method Dump(s: Allocator) returns (lines: seq<DumpLine>)
    requires WellFormed(s)
    ensures |lines| == MaxOrder - MinOrder + 1
    ensures forall o: Order :: lines[o - MinOrder].count == |s.freeArea[o]|
    ensures forall o: Order :: lines[o - MinOrder].kib * 1024 == Pow2(o)
  {
    lines := [];
    var o := MinOrder;
    while o <= MaxOrder
      invariant MinOrder <= o <= MaxOrder + 1
      invariant |lines| == o - MinOrder
      invariant forall o': Order :: o' < o ==> lines[o' - MinOrder].count == |s.freeArea[o']|
      invariant forall o': Order :: o' < o ==> lines[o' - MinOrder].kib * 1024 == Pow2(o')
    {
      var cnt := 0;
      var rest := s.freeArea[o];
      while rest != []
        invariant cnt + |rest| == |s.freeArea[o]|
      {
        cnt := cnt + 1;
        rest := rest[1..];
      }
      Pow2Add(o - 10, 10);
      assert Pow2(10) == 1024;
      lines := lines + [DumpLine(cnt, Pow2(o - 10))];
      o := o + 1;
    }
  }
}
