/** Runs of the allocator from buddy_init: any run that frees everything it
    allocated gets back the free lists buddy_init built, and the concrete
    one- and two-page runs from buddy_init. */
module Scenarios {
  import opened PowerOfTwo
  import opened Region
  import opened Blocks
  import opened Options
  import opened FreeList
  import opened RequestOrder
  import opened BuddyAllocator
  import opened AllocShape
  import opened BuddyInvariant
  import opened Coalescing
  import opened FreeShape

  /** A call a client makes: buddy_alloc(size) or buddy_free(addr). */
  datatype Op = AllocOp(size: int) | FreeOp(addr: nat)

  /** Replays ops from state s with `live` the heads allocated and not yet
      freed. None when an op is outside what the C code defines: a size
      below 1, or freeing an address that is not the start of a live block. */
  function Run(s: Allocator, live: set<nat>, ops: seq<Op>): (r: Option<(Allocator, set<nat>)>)
    requires WellFormed(s)
    ensures r.Some? ==> WellFormed(r.value.0)
    decreases |ops|
  {
    if ops == [] then Some((s, live))
    else match ops[0]
      case AllocOp(size) =>
        if size < 1 then None
        else
          var out := Alloc(s, size);
          Run(out.next, if out.result.Address? then live + {AddrToPage(out.result.offset)} else live, ops[1..])
      case FreeOp(addr) =>
        if !FreeDefined(s, addr) || AddrToPage(addr) !in live then None
        else Run(Free(s, addr), live - {AddrToPage(addr)}, ops[1..])
  }

  /** Every live block can be freed: buddy_free's demands on its argument
      hold for the address of any live head. */
  lemma LiveBlockFreeable(s: Allocator, live: set<nat>, addr: nat)
    requires Valid(s, live) && addr % PageSize == 0 && AddrToPage(addr) in live
    ensures FreeDefined(s, addr)
  {
    FreePreservesValid(s, live, addr);
  }

  /** Each step of a run keeps the invariant and the coalescing, so every
      state a run reaches satisfies both. */
  lemma {:induction false} RunKeepsInvariant(s: Allocator, live: set<nat>, ops: seq<Op>)
    requires Valid(s, live) && Coalesced(s) && Run(s, live, ops).Some?
    ensures Valid(Run(s, live, ops).value.0, Run(s, live, ops).value.1)
    ensures Coalesced(Run(s, live, ops).value.0)
    decreases |ops|
  {
    if ops != [] {
      match ops[0]
      case AllocOp(size) =>
        AllocPreservesValid(s, live, size);
        AllocKeepsCoalesced(s, size);
        var out := Alloc(s, size);
        RunKeepsInvariant(out.next, if out.result.Address? then live + {AddrToPage(out.result.offset)} else live, ops[1..]);
      case FreeOp(addr) =>
        FreePreservesValid(s, live, addr);
        FreeKeepsCoalesced(s, addr);
        RunKeepsInvariant(Free(s, addr), live - {AddrToPage(addr)}, ops[1..]);
    }
  }

  /** Run started from buddy_init. */
  function RunFromInit(ops: seq<Op>): (r: Option<(Allocator, set<nat>)>)
    ensures r.Some? ==> Valid(r.value.0, r.value.1) && Coalesced(r.value.0)
  {
    InitValid();
    InitCoalesced();
    RunKeepsInvariantSome(Init(), {}, ops);
    Run(Init(), {}, ops)
  }

  /** RunKeepsInvariant, stated for any outcome of the run. */
  lemma RunKeepsInvariantSome(s: Allocator, live: set<nat>, ops: seq<Op>)
    requires Valid(s, live) && Coalesced(s)
    ensures Run(s, live, ops).Some? ==>
      Valid(Run(s, live, ops).value.0, Run(s, live, ops).value.1) && Coalesced(Run(s, live, ops).value.0)
  {
    if Run(s, live, ops).Some? {
      RunKeepsInvariant(s, live, ops);
    }
  }

  /** Whatever was allocated and freed in between, once every allocated
      block has been freed the free lists are those of buddy_init: one free
      block of order MaxOrder at page 0. */
  lemma DrainedRunIsInit(ops: seq<Op>)
    requires RunFromInit(ops).Some? && RunFromInit(ops).value.1 == {}
    ensures forall o: Order :: RunFromInit(ops).value.0.freeArea[o] == Init().freeArea[o]
  {
    NothingAllocatedIsInit(RunFromInit(ops).value.0);
  }

  /** A one-page request is served at order MinOrder. */
  lemma PageOrder()
    ensures BlockOrder(PageSize) == MinOrder
  {
    ConfigurationConsistent();
    BlockOrderLeast(PageSize, MinOrder);
  }

  /** alloc(PAGE_SIZE) right after init returns offset 0 and splits the
      region all the way down: one free block at each order below MaxOrder
      (the upper half split off at that order) and none at MaxOrder. */
  lemma FirstPageAlloc()
    ensures var out := Alloc(Init(), PageSize);
            && out.result == Address(0)
            && (forall o: Order :: out.next.freeArea[o] == if o < MaxOrder then [Pages(o)] else [])
            && out.next.pageOrder[0] == MinOrder
  {
    PageOrder();
    AllocSplits(Init(), PageSize, MaxOrder);
  }

  /** One alloc(PAGE_SIZE) and the free of the page it returned. */
  function PageOps(): (ops: seq<Op>)
    ensures |ops| == 2
  {
    [AllocOp(PageSize), FreeOp(0)]
  }

  /** Read through buddy_dump's counts: after init and alloc(PAGE_SIZE) there
      is one free block at each order below MaxOrder and none at MaxOrder;
      freeing the page again gives back the lists of buddy_init. */
  lemma PageRoundTrip()
    ensures var s1 := Alloc(Init(), PageSize).next;
            forall o: Order :: |s1.freeArea[o]| == if o < MaxOrder then 1 else 0
    ensures RunFromInit(PageOps()).Some? && RunFromInit(PageOps()).value.1 == {}
    ensures forall o: Order :: RunFromInit(PageOps()).value.0.freeArea[o] == Init().freeArea[o]
  {
    var s1 := Alloc(Init(), PageSize).next;
    assert Alloc(Init(), PageSize) == AllocOutcome(s1, Address(0))
           && (forall o: Order :: |s1.freeArea[o]| == if o < MaxOrder then 1 else 0)
           && s1.pageOrder[0] == MinOrder by {
      FirstPageAlloc();
    }
    PageRun(Init(), s1, PageOps());
    DrainedRunIsInit(PageOps());
  }

  /** PageOps from a state whose alloc(PAGE_SIZE) returns offset 0. */
  lemma PageRun(s0: Allocator, s1: Allocator, ops: seq<Op>)
    requires WellFormed(s0) && WellFormed(s1) && Alloc(s0, PageSize) == AllocOutcome(s1, Address(0))
    requires s1.pageOrder[0] == MinOrder
    requires ops == PageOps()
    ensures Run(s0, {}, ops).Some? && Run(s0, {}, ops).value.1 == {}
  {
    RunAllocStep(s0, {}, ops, PageSize, s1, 0);
    assert AddrToPage(0) == 0 && {} + {0} == {0};
    assert FreeDefined(s1, 0) by {
      ConfigurationConsistent();
      assert Placed(Block(0, MinOrder));
    }
    ReleaseLast(s1, ops[1..], 0);
  }

  /** An alloc(PAGE_SIZE) served from a list MinOrder holding only page 1
      takes that page and leaves the list empty. */
  lemma AllocFromSinglePage(s1: Allocator)
    requires WellFormed(s1) && s1.freeArea[MinOrder] == [1] && s1.pageOrder[0] == MinOrder
    ensures Alloc(s1, PageSize).result == Address(PageSize)
    ensures Alloc(s1, PageSize).next.freeArea[MinOrder] == []
    ensures Alloc(s1, PageSize).next.pageOrder[0] == MinOrder
    ensures Alloc(s1, PageSize).next.pageOrder[1] == MinOrder
  {
    PageOrder();
    assert Pages(MinOrder) == 1;
    AllocSplits(s1, PageSize, MinOrder);
    ConfigurationConsistent();
  }

  /** The second alloc(PAGE_SIZE) returns the buddy of the first. */
  lemma SecondPageAllocIsBuddy()
    ensures Alloc(Alloc(Init(), PageSize).next, PageSize).result == Address(PageSize)
    ensures BuddyAddr(0, MinOrder) == PageSize
    ensures Alloc(Alloc(Init(), PageSize).next, PageSize).next.freeArea[MinOrder] == []
    ensures Alloc(Alloc(Init(), PageSize).next, PageSize).next.pageOrder[0] == MinOrder
    ensures Alloc(Alloc(Init(), PageSize).next, PageSize).next.pageOrder[1] == MinOrder
  {
    FirstPageLeavesBuddy();
    AllocFromSinglePage(Alloc(Init(), PageSize).next);
    FirstPageBuddy();
  }

  /** The part of FirstPageAlloc the second allocation depends on: page 1,
      the buddy of page 0, is alone on list MinOrder. */
  lemma FirstPageLeavesBuddy()
    ensures Alloc(Init(), PageSize).result == Address(0)
    ensures Alloc(Init(), PageSize).next.freeArea[MinOrder] == [1]
    ensures Alloc(Init(), PageSize).next.pageOrder[0] == MinOrder
  {
    FirstPageFrom(Init());
  }

  /** FirstPageLeavesBuddy, from any state with the free lists of buddy_init. */
  lemma FirstPageFrom(s0: Allocator)
    requires WellFormed(s0) && forall o: Order :: s0.freeArea[o] == (if o == MaxOrder then [0] else [])
    ensures Alloc(s0, PageSize).result == Address(0)
    ensures Alloc(s0, PageSize).next.freeArea[MinOrder] == [1]
    ensures Alloc(s0, PageSize).next.pageOrder[0] == MinOrder
  {
    assert s0.freeArea[MaxOrder][0] + Pages(MinOrder) == 1;
    PageOrder();
    AllocSplits(s0, PageSize, MaxOrder);
  }

  /** With both pages of the first order-MinOrder pair allocated, freeing
      either one finds its buddy allocated: the page is only listed. */
  lemma FreeLoneSibling(s2: Allocator, addr: nat)
    requires WellFormed(s2) && s2.freeArea[MinOrder] == []
    requires s2.pageOrder[0] == MinOrder && s2.pageOrder[1] == MinOrder
    requires addr == 0 || addr == PageSize
    ensures FreeDefined(s2, addr)
    ensures Free(s2, addr).freeArea[MinOrder] == [AddrToPage(addr)]
  {
    ConfigurationConsistent();
    var page := AddrToPage(addr);
    assert page == 0 || page == 1;
    assert Placed(Block(page, MinOrder));
    FreeWithoutBuddy(s2, addr);
    assert [page] + [] == [page];
  }

  /** After two alloc(PAGE_SIZE) calls, freeing either page first lists it
      alone at MinOrder. */
  lemma FirstSiblingFreeIsListed()
    ensures var s2 := Alloc(Alloc(Init(), PageSize).next, PageSize).next;
            && FreeDefined(s2, 0) && Free(s2, 0).freeArea[MinOrder] == [0]
            && FreeDefined(s2, PageSize) && Free(s2, PageSize).freeArea[MinOrder] == [1]
  {
    var s2 := Alloc(Alloc(Init(), PageSize).next, PageSize).next;
    assert WellFormed(s2) && s2.freeArea[MinOrder] == [] && s2.pageOrder[0] == MinOrder
           && s2.pageOrder[1] == MinOrder by {
      SecondPageAllocIsBuddy();
    }
    ConfigurationConsistent();
    FreeLoneSibling(s2, 0);
    FreeLoneSibling(s2, PageSize);
  }

  /** Two page allocations followed by frees of offsets a and b. */
  function SiblingOps(a: nat, b: nat): (ops: seq<Op>)
    ensures |ops| == 4
  {
    [AllocOp(PageSize), AllocOp(PageSize), FreeOp(a), FreeOp(b)]
  }

  /** The two page allocations of SiblingOps, from a state in which they
      return offsets 0 and PageSize. */
  lemma SiblingsAllocate(s0: Allocator, s1: Allocator, s2: Allocator, ops: seq<Op>)
    requires WellFormed(s0)
    requires Alloc(s0, PageSize) == AllocOutcome(s1, Address(0))
    requires Alloc(s1, PageSize) == AllocOutcome(s2, Address(PageSize))
    requires |ops| >= 2 && ops[0] == AllocOp(PageSize) && ops[1] == AllocOp(PageSize)
    ensures Run(s0, {}, ops) == Run(s2, {0, 1}, ops[2..])
  {
    RunAllocStep(s0, {}, ops, PageSize, s1, 0);
    RunAllocStep(s1, {0}, ops[1..], PageSize, s2, PageSize);
    assert AddrToPage(0) == 0 && AddrToPage(PageSize) == 1;
    assert {} + {0} == {0} && {0} + {1} == {0, 1};
    assert ops[1..][1..] == ops[2..];
  }

  /** One successful alloc step of Run. */
  lemma RunAllocStep(s: Allocator, live: set<nat>, ops: seq<Op>, size: int, s': Allocator, addr: nat)
    requires WellFormed(s) && ops != [] && ops[0] == AllocOp(size) && size >= 1
    requires Alloc(s, size) == AllocOutcome(s', Address(addr))
    ensures Run(s, live, ops) == Run(s', live + {AddrToPage(addr)}, ops[1..])
  {
  }

  /** One defined free step of Run. */
  lemma RunFreeStep(s: Allocator, live: set<nat>, ops: seq<Op>, addr: nat)
    requires WellFormed(s) && ops != [] && ops[0] == FreeOp(addr)
    requires FreeDefined(s, addr) && AddrToPage(addr) in live
    ensures Run(s, live, ops) == Run(Free(s, addr), live - {AddrToPage(addr)}, ops[1..])
  {
  }

  /** The first of the two frees: the page is listed alone and its
      sibling can still be freed. */
  lemma ReleaseFirst(s2: Allocator, ops: seq<Op>, a: nat, b: nat)
    requires WellFormed(s2) && s2.freeArea[MinOrder] == []
    requires s2.pageOrder[0] == MinOrder && s2.pageOrder[1] == MinOrder
    requires (a == 0 && b == PageSize) || (a == PageSize && b == 0)
    requires |ops| == 2 && ops[0] == FreeOp(a)
    ensures FreeDefined(s2, a) && FreeDefined(Free(s2, a), b)
    ensures Run(s2, {0, 1}, ops) == Run(Free(s2, a), {AddrToPage(b)}, ops[1..])
  {
    SiblingPages(a, b);
    FreeLoneSibling(s2, a);
    RunFreeStep(s2, {0, 1}, ops, a);
    SiblingStillFreeable(s2, a, b);
  }

  /** Offsets 0 and PageSize are pages 0 and 1: freeing one leaves the other live. */
  lemma SiblingPages(a: nat, b: nat)
    requires (a == 0 && b == PageSize) || (a == PageSize && b == 0)
    ensures AddrToPage(a) in {0, 1} && {0, 1} - {AddrToPage(a)} == {AddrToPage(b)}
  {
    var pa, pb := AddrToPage(a), AddrToPage(b);
    assert (pa == 0 && pb == 1) || (pa == 1 && pb == 0);
  }

  /** After the first of the two frees the other page can still be freed:
      the first free only listed its page and recorded no order. */
  lemma SiblingStillFreeable(s2: Allocator, a: nat, b: nat)
    requires WellFormed(s2) && s2.freeArea[MinOrder] == []
    requires s2.pageOrder[0] == MinOrder && s2.pageOrder[1] == MinOrder
    requires (a == 0 && b == PageSize) || (a == PageSize && b == 0)
    requires FreeDefined(s2, a)
    ensures FreeDefined(Free(s2, a), b)
  {
    FreeWithoutBuddy(s2, a);
    ConfigurationConsistent();
    assert Placed(Block(AddrToPage(b), MinOrder));
  }

  /** The second free, of the last live page. */
  lemma ReleaseLast(s3: Allocator, ops: seq<Op>, b: nat)
    requires WellFormed(s3) && FreeDefined(s3, b) && |ops| == 1 && ops[0] == FreeOp(b)
    ensures Run(s3, {AddrToPage(b)}, ops).Some? && Run(s3, {AddrToPage(b)}, ops).value.1 == {}
  {
    RunFreeStep(s3, {AddrToPage(b)}, ops, b);
    assert |ops[1..]| == 0 && {AddrToPage(b)} - {AddrToPage(b)} == {};
  }

  /** Freeing the two live sibling pages 0 and 1, in either order, from a
      state in which both are allocated at MinOrder. */
  lemma SiblingsRelease(s2: Allocator, ops: seq<Op>, a: nat, b: nat)
    requires WellFormed(s2) && s2.freeArea[MinOrder] == []
    requires s2.pageOrder[0] == MinOrder && s2.pageOrder[1] == MinOrder
    requires (a == 0 && b == PageSize) || (a == PageSize && b == 0)
    requires |ops| == 2 && ops[0] == FreeOp(a) && ops[1] == FreeOp(b)
    ensures Run(s2, {0, 1}, ops).Some? && Run(s2, {0, 1}, ops).value.1 == {}
  {
    ReleaseFirst(s2, ops, a, b);
    ReleaseLast(Free(s2, a), ops[1..], b);
  }

  /** Run from buddy_init, the two sibling pages freed in either order
      leave nothing allocated. */
  lemma SiblingsDrainFromInit(a: nat, b: nat)
    requires (a == 0 && b == PageSize) || (a == PageSize && b == 0)
    ensures RunFromInit(SiblingOps(a, b)).Some? && RunFromInit(SiblingOps(a, b)).value.1 == {}
  {
    var s1 := Alloc(Init(), PageSize).next;
    var s2 := Alloc(s1, PageSize).next;
    assert Alloc(Init(), PageSize) == AllocOutcome(s1, Address(0)) by {
      FirstPageAlloc();
    }
    assert && Alloc(s1, PageSize) == AllocOutcome(s2, Address(PageSize))
           && s2.freeArea[MinOrder] == [] && s2.pageOrder[0] == MinOrder && s2.pageOrder[1] == MinOrder by {
      SecondPageAllocIsBuddy();
    }
    SiblingsRun(Init(), s1, s2, SiblingOps(a, b), a, b);
  }

  /** Two page allocations that return the buddy pair 0, 1 at MinOrder,
      then the frees of the two in either order. */
  lemma SiblingsRun(s0: Allocator, s1: Allocator, s2: Allocator, ops: seq<Op>, a: nat, b: nat)
    requires WellFormed(s0) && Alloc(s0, PageSize) == AllocOutcome(s1, Address(0))
    requires WellFormed(s1) && Alloc(s1, PageSize) == AllocOutcome(s2, Address(PageSize))
    requires WellFormed(s2) && s2.freeArea[MinOrder] == []
    requires s2.pageOrder[0] == MinOrder && s2.pageOrder[1] == MinOrder
    requires (a == 0 && b == PageSize) || (a == PageSize && b == 0)
    requires ops == SiblingOps(a, b)
    ensures Run(s0, {}, ops).Some? && Run(s0, {}, ops).value.1 == {}
  {
    SiblingsAllocate(s0, s1, s2, ops);
    SiblingsReleaseTail(s2, ops, a, b);
  }

  /** SiblingsRelease, on the last two ops of SiblingOps. */
  lemma SiblingsReleaseTail(s2: Allocator, ops: seq<Op>, a: nat, b: nat)
    requires WellFormed(s2) && s2.freeArea[MinOrder] == []
    requires s2.pageOrder[0] == MinOrder && s2.pageOrder[1] == MinOrder
    requires (a == 0 && b == PageSize) || (a == PageSize && b == 0)
    requires ops == SiblingOps(a, b)
    ensures Run(s2, {0, 1}, ops[2..]).Some? && Run(s2, {0, 1}, ops[2..]).value.1 == {}
  {
    SiblingsRelease(s2, ops[2..], a, b);
  }

  /** The two pages of a buddy pair, allocated one after the other from
      buddy_init and freed in either order, merge all the way back: the free
      lists end as buddy_init left them. */
  lemma SiblingsMergeEitherOrder()
    ensures RunFromInit(SiblingOps(0, PageSize)).Some?
    ensures forall o: Order :: RunFromInit(SiblingOps(0, PageSize)).value.0.freeArea[o] == Init().freeArea[o]
    ensures RunFromInit(SiblingOps(PageSize, 0)).Some?
    ensures forall o: Order :: RunFromInit(SiblingOps(PageSize, 0)).value.0.freeArea[o] == Init().freeArea[o]
  {
    SiblingsDrainFromInit(0, PageSize);
    DrainedRunIsInit(SiblingOps(0, PageSize));
    SiblingsDrainFromInit(PageSize, 0);
    DrainedRunIsInit(SiblingOps(PageSize, 0));
  }
}
