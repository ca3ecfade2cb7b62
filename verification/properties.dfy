/** What one call of buddy_alloc does to the free lists and the recorded
    orders, stated exactly. */
module AllocShape {
  import opened PowerOfTwo
  import opened Region
  import opened Blocks
  import opened Options
  import opened FreeList
  import opened RequestOrder
  import opened BuddyAllocator

  /** i is the lowest order at or above r with a non-empty free list. */
  predicate LowestNonEmpty(s: Allocator, r: Order, i: Order)
    requires WellFormed(s)
  {
    r <= i && s.freeArea[i] != [] && forall o :: r <= o < i ==> s.freeArea[o] == []
  }

  /** A successful alloc takes the head p of the lowest non-empty list at order
      i >= r, records r for it and returns its address; list i loses p, each
      of the lists r..i-1 (all empty before) now holds the upper half split
      off at that order, recorded with that order, and nothing else changes. */
  lemma AllocSplits(s: Allocator, size: int, i: Order)
    requires WellFormed(s) && size >= 1 && BlockOrder(size) <= MaxOrder
    requires LowestNonEmpty(s, BlockOrder(size), i)
    ensures Alloc(s, size).result == Address(PageToAddr(s.freeArea[i][0]))
    ensures SplitShape(s, BlockOrder(size), i, Alloc(s, size).next)
  {
    var r := BlockOrder(size);
    var p := s.freeArea[i][0];
    assert FirstNonEmpty(s, r) == Some(i);
    assert Alloc(s, size) == AllocOutcome(Split(TakeHead(s, i, r), p, i, r), Address(PageToAddr(p)));
    TakeSplitLists(s, r, i);
    TakeSplitOrders(s, r, i);
  }

  /** The state s' after a request of order r served from list i of s: the
      head p of list i is taken and records r; list i loses p; each list in
      [r, i) holds just the upper half p + Pages(o) split off at its order,
      which records o; no other list or recorded order changes. */
  predicate SplitShape(s: Allocator, r: Order, i: Order, s': Allocator)
    requires WellFormed(s) && WellFormed(s') && LowestNonEmpty(s, r, i)
  {
    var p := s.freeArea[i][0];
    && p < NPages
    && s'.freeArea[i] == s.freeArea[i][1..]
    && (forall o: Order :: r <= o < i ==> s'.freeArea[o] == [p + Pages(o)])
    && (forall o :: 0 <= o <= MaxOrder && (o < r || i < o) ==> s'.freeArea[o] == s.freeArea[o])
    && s'.pageOrder[p] == r
    && (forall o: Order :: r <= o < i ==> p + Pages(o) < NPages && s'.pageOrder[p + Pages(o)] == o)
    && (forall q :: 0 <= q < NPages && q != p && !HalfHead(q, p, r, i) ==> s'.pageOrder[q] == s.pageOrder[q])
  }

  /** The free lists of AllocSplits, on the state buddy_alloc builds before returning. */
  lemma TakeSplitLists(s: Allocator, r: Order, i: Order)
    requires WellFormed(s) && LowestNonEmpty(s, r, i)
    ensures Split(TakeHead(s, i, r), s.freeArea[i][0], i, r).freeArea[i] == s.freeArea[i][1..]
    ensures forall o: Order :: r <= o < i ==>
      Split(TakeHead(s, i, r), s.freeArea[i][0], i, r).freeArea[o] == [s.freeArea[i][0] + Pages(o)]
    ensures forall o :: 0 <= o <= MaxOrder && (o < r || i < o) ==>
      Split(TakeHead(s, i, r), s.freeArea[i][0], i, r).freeArea[o] == s.freeArea[o]
  {
    TakeSplitKeeps(s, r, i);
    TakeSplitHalves(s, r, i);
  }

  /** List i loses its head and the lists outside [r, i] are untouched. */
  lemma TakeSplitKeeps(s: Allocator, r: Order, i: Order)
    requires WellFormed(s) && LowestNonEmpty(s, r, i)
    ensures Split(TakeHead(s, i, r), s.freeArea[i][0], i, r).freeArea[i] == s.freeArea[i][1..]
    ensures forall o :: 0 <= o <= MaxOrder && (o < r || i < o) ==>
      Split(TakeHead(s, i, r), s.freeArea[i][0], i, r).freeArea[o] == s.freeArea[o]
  {
    SplitLists(TakeHead(s, i, r), s.freeArea[i][0], i, r);
  }

  /** Each list in [r, i), empty before, holds exactly the upper half split off at its order. */
  lemma TakeSplitHalves(s: Allocator, r: Order, i: Order)
    requires WellFormed(s) && LowestNonEmpty(s, r, i)
    ensures forall o: Order :: r <= o < i ==>
      Split(TakeHead(s, i, r), s.freeArea[i][0], i, r).freeArea[o] == [s.freeArea[i][0] + Pages(o)]
  {
    var p := s.freeArea[i][0];
    var s1 := TakeHead(s, i, r);
    SplitLists(s1, p, i, r);
    forall o: Order | r <= o < i
      ensures Split(s1, p, i, r).freeArea[o] == [p + Pages(o)]
    {
      assert s1.freeArea[o] == [];
      assert [p + Pages(o)] + [] == [p + Pages(o)];
    }
  }

  /** The recorded orders of AllocSplits, on the state buddy_alloc builds before returning. */
  lemma TakeSplitOrders(s: Allocator, r: Order, i: Order)
    requires WellFormed(s) && LowestNonEmpty(s, r, i)
    ensures Split(TakeHead(s, i, r), s.freeArea[i][0], i, r).pageOrder[s.freeArea[i][0]] == r
    ensures forall o: Order :: r <= o < i ==>
      s.freeArea[i][0] + Pages(o) < NPages &&
      Split(TakeHead(s, i, r), s.freeArea[i][0], i, r).pageOrder[s.freeArea[i][0] + Pages(o)] == o
    ensures forall q :: 0 <= q < NPages && q != s.freeArea[i][0] && !HalfHead(q, s.freeArea[i][0], r, i) ==>
      Split(TakeHead(s, i, r), s.freeArea[i][0], i, r).pageOrder[q] == s.pageOrder[q]
  {
    var p := s.freeArea[i][0];
    var s1 := TakeHead(s, i, r);
    SplitOrders(s1, p, i, r);
    assert !HalfHead(p, p, r, i) by {
      if HalfHead(p, p, r, i) {
        HalfHeadInside(p, p, r, i);
      }
    }
  }
}
