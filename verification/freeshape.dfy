/** The two ways one call of buddy_free can go: the freed block's buddy is
    not free at its order and the block is simply listed, or the buddy is
    free and the two merge into a block of a higher order. */
module FreeShape {
  import opened PowerOfTwo
  import opened Region
  import opened Blocks
  import opened FreeList
  import opened BuddyAllocator

  /** When the block is of order MaxOrder or its buddy is not on the list of
      its order, the loop stops at once: the block is pushed onto that list,
      keeps its recorded order, and nothing else changes. */
  lemma FreeWithoutBuddy(s: Allocator, addr: nat)
    requires FreeDefined(s, addr)
    requires var page := AddrToPage(addr);
             var i := s.pageOrder[page];
             i == MaxOrder || BuddyPage(page, i) !in s.freeArea[i]
    ensures var page := AddrToPage(addr);
            var i := s.pageOrder[page];
            var s' := Free(s, addr);
            && s'.freeArea == s.freeArea[i := [page] + s.freeArea[i]]
            && s'.pageOrder == s.pageOrder
  {
  }

  /** When the buddy is free at the block's order, it is unlinked from that
      list and the freed block ends up inside a free block of a strictly
      higher order that also contains the buddy; lists of lower orders are
      unchanged. */
  lemma FreeMergesWithBuddy(s: Allocator, addr: nat)
    requires FreeDefined(s, addr)
    requires var page := AddrToPage(addr);
             var i := s.pageOrder[page];
             i < MaxOrder && BuddyPage(page, i) in s.freeArea[i]
    ensures var page := AddrToPage(addr);
            var i := s.pageOrder[page];
            var buddy := BuddyPage(page, i);
            && Free(s, addr).freeArea[i] == Remove(s.freeArea[i], buddy)
            && (forall o :: 0 <= o < i ==> Free(s, addr).freeArea[o] == s.freeArea[o])
            && (exists o: Order, h :: i < o && h in Free(s, addr).freeArea[o] && Free(s, addr).pageOrder[h] == o
                                      && h <= page && page + Pages(i) <= h + Pages(o)
                                      && h <= buddy && buddy + Pages(i) <= h + Pages(o))
            && exists o: Order :: i < o && MergesUpTo(s, page, i, o) && MergedAt(s, Free(s, addr), page, i, o)
  {
    var page := AddrToPage(addr);
    MergeWithBuddy(s, page, s.pageOrder[page]);
    MergeFrame(s, page, s.pageOrder[page]);
  }

  /** The loop started at order i for the block at page finds the buddy of
      the block it holds on the list of every order in [i, o), and stops at
      o: o is MaxOrder or the buddy at o is not on list o. */
  predicate MergesUpTo(s: Allocator, page: nat, i: Order, o: Order)
    requires WellFormed(s) && Placed(Block(page, i)) && i <= o
  {
    && (forall o' :: i <= o' < o ==> BuddyPage(ChainHead(page, i, o'), o') in s.freeArea[o'])
    && (o == MaxOrder || BuddyPage(ChainHead(page, i, o), o) !in s.freeArea[o])
  }

  /** The whole effect of a loop that merged from order i up to o: each
      list in [i, o) loses the buddy met there, list o gains the head of the
      order-o block containing the freed one, that head records o, and no
      other list or recorded order changes. */
  predicate MergedAt(s: Allocator, s': Allocator, page: nat, i: Order, o: Order)
    requires WellFormed(s) && WellFormed(s') && Placed(Block(page, i)) && i <= o
  {
    var h := ChainHead(page, i, o);
    && s'.pageOrder == s.pageOrder[h := o]
    && s'.freeArea[o] == [h] + s.freeArea[o]
    && forall o' :: 0 <= o' <= MaxOrder && o' != o ==>
         s'.freeArea[o'] == if i <= o' < o then Remove(s.freeArea[o'], BuddyPage(ChainHead(page, i, o'), o'))
                            else s.freeArea[o']
  }

  /** The coalescing loop merges exactly as far as the buddies are free, and
      its effect on the state is exactly MergedAt. */
  lemma {:induction false} MergeFrame(s: Allocator, page: nat, i: Order)
    requires WellFormed(s) && Placed(Block(page, i))
    ensures exists o: Order :: i <= o && MergesUpTo(s, page, i, o) && MergedAt(s, Merge(s, page, i), page, i, o)
    decreases MaxOrder - i
  {
    if i == MaxOrder || BuddyPage(page, i) !in s.freeArea[i] {
      MergeFrameStop(s, page, i);
    } else {
      MergedHeadPlaced(page, i);
      var s1, low, j := Unlink(s, BuddyPage(page, i), i), MergedHead(page, i), i + 1;
      MergeFrame(s1, low, j);
      MergeFrameCarry(s, page, i, s1, low, j);
    }
  }

  /** The induction step of MergeFrame: the frame of the loop restarted at
      j = i + 1 on the unlinked state s1 is the frame of the loop started at i. */
  lemma MergeFrameCarry(s: Allocator, page: nat, i: Order, s1: Allocator, low: nat, j: Order)
    requires WellFormed(s) && Placed(Block(page, i))
    requires i < MaxOrder && BuddyPage(page, i) in s.freeArea[i]
    requires s1 == Unlink(s, BuddyPage(page, i), i) && low == MergedHead(page, i) && j == i + 1
    requires Placed(Block(low, j))
    requires exists o: Order :: j <= o && MergesUpTo(s1, low, j, o) && MergedAt(s1, Merge(s1, low, j), low, j, o)
    ensures exists o: Order :: i <= o && MergesUpTo(s, page, i, o) && MergedAt(s, Merge(s, page, i), page, i, o)
  {
    var s' := Merge(s1, low, j);
    var o: Order :| j <= o && MergesUpTo(s1, low, j, o) && MergedAt(s1, s', low, j, o);
    ChainHeadStep(page, i);
    MergesUpToStep(s, page, i, o, s1, low);
    MergedAtStep(s, page, i, o, s1, low, s');
  }

  /** When the loop stops at once, it only pushes the block at its own order. */
  lemma MergeFrameStop(s: Allocator, page: nat, i: Order)
    requires WellFormed(s) && Placed(Block(page, i))
    requires i == MaxOrder || BuddyPage(page, i) !in s.freeArea[i]
    ensures MergesUpTo(s, page, i, i) && MergedAt(s, Merge(s, page, i), page, i, i)
  {
    assert Merge(s, page, i) == Push(s, page, i);
  }

  /** Above order i, the loop started at i holds the same blocks as the loop
      restarted at i + 1 from the merged head. */
  lemma ChainHeadStep(page: nat, i: Order)
    requires Placed(Block(page, i)) && i < MaxOrder
    ensures Placed(Block(MergedHead(page, i), i + 1))
    ensures forall o: Order :: i < o ==> ChainHead(page, i, o) == ChainHead(MergedHead(page, i), i + 1, o)
  {
    MergedHeadPlaced(page, i);
  }

  /** The buddies met from i + 1 on the unlinked state are those met from i
      on the original state, the first being the buddy at i. */
  lemma MergesUpToStep(s: Allocator, page: nat, i: Order, o: Order, s1: Allocator, low: nat)
    requires WellFormed(s) && Placed(Block(page, i))
    requires i < MaxOrder && BuddyPage(page, i) in s.freeArea[i]
    requires s1 == Unlink(s, BuddyPage(page, i), i) && low == MergedHead(page, i)
    requires Placed(Block(low, i + 1)) && i + 1 <= o
    requires forall o': Order :: i < o' ==> ChainHead(page, i, o') == ChainHead(low, i + 1, o')
    requires MergesUpTo(s1, low, i + 1, o)
    ensures MergesUpTo(s, page, i, o)
  {
    forall o' | i <= o' < o
      ensures BuddyPage(ChainHead(page, i, o'), o') in s.freeArea[o']
    {
      if o' > i {
        assert s1.freeArea[o'] == s.freeArea[o'];
      }
    }
    assert s1.freeArea[o] == s.freeArea[o];
  }

  /** The effect of the loop restarted at i + 1 on the unlinked state,
      together with the unlink, is MergedAt from i. */
  lemma MergedAtStep(s: Allocator, page: nat, i: Order, o: Order, s1: Allocator, low: nat, s': Allocator)
    requires WellFormed(s) && WellFormed(s') && Placed(Block(page, i))
    requires i < MaxOrder && BuddyPage(page, i) in s.freeArea[i]
    requires s1 == Unlink(s, BuddyPage(page, i), i) && low == MergedHead(page, i)
    requires Placed(Block(low, i + 1)) && i + 1 <= o
    requires forall o': Order :: i < o' ==> ChainHead(page, i, o') == ChainHead(low, i + 1, o')
    requires MergedAt(s1, s', low, i + 1, o)
    ensures MergedAt(s, s', page, i, o)
  {
    assert ChainHead(page, i, o) == ChainHead(low, i + 1, o);
    assert s1.freeArea[o] == s.freeArea[o];
    forall o' | 0 <= o' <= MaxOrder && o' != o
      ensures s'.freeArea[o'] == if i <= o' < o then Remove(s.freeArea[o'], BuddyPage(ChainHead(page, i, o'), o'))
                                 else s.freeArea[o']
    {
      if o' != i {
        assert s1.freeArea[o'] == s.freeArea[o'];
      }
    }
  }

  /** FreeMergesWithBuddy, for the coalescing loop started at order i. */
  lemma MergeWithBuddy(s: Allocator, page: nat, i: Order)
    requires WellFormed(s) && Placed(Block(page, i))
    requires i < MaxOrder && BuddyPage(page, i) in s.freeArea[i]
    ensures Merge(s, page, i).freeArea[i] == Remove(s.freeArea[i], BuddyPage(page, i))
    ensures forall o :: 0 <= o < i ==> Merge(s, page, i).freeArea[o] == s.freeArea[o]
    ensures exists o: Order, h :: i < o && h in Merge(s, page, i).freeArea[o] && Merge(s, page, i).pageOrder[h] == o
                                  && h <= page && page + Pages(i) <= h + Pages(o)
                                  && h <= BuddyPage(page, i) && BuddyPage(page, i) + Pages(i) <= h + Pages(o)
  {
    MergedHeadPlaced(page, i);
    assert Merge(s, page, i) == Merge(Unlink(s, BuddyPage(page, i), i), MergedHead(page, i), i + 1);
    MergedCovers(Unlink(s, BuddyPage(page, i), i), MergedHead(page, i), i + 1, page, BuddyPage(page, i));
  }

  /** The block the loop ends with contains both halves of the merged block. */
  lemma MergedCovers(s: Allocator, low: nat, j: Order, page: nat, buddy: nat)
    requires WellFormed(s) && Placed(Block(low, j)) && j > MinOrder
    requires low <= page && page + Pages(j - 1) <= low + Pages(j)
    requires low <= buddy && buddy + Pages(j - 1) <= low + Pages(j)
    ensures forall o :: 0 <= o < j ==> Merge(s, low, j).freeArea[o] == s.freeArea[o]
    ensures exists o: Order, h :: j <= o && h in Merge(s, low, j).freeArea[o] && Merge(s, low, j).pageOrder[h] == o
                                  && h <= page && page + Pages(j - 1) <= h + Pages(o)
                                  && h <= buddy && buddy + Pages(j - 1) <= h + Pages(o)
  {
    CoverWidens(Merge(s, low, j), low, j, page, buddy);
  }

  /** A listed block that contains the order-j block at low also contains
      both order-(j-1) halves of it. */
  lemma CoverWidens(s': Allocator, low: nat, j: Order, page: nat, buddy: nat)
    requires WellFormed(s') && j > MinOrder
    requires low <= page && page + Pages(j - 1) <= low + Pages(j)
    requires low <= buddy && buddy + Pages(j - 1) <= low + Pages(j)
    requires exists o: Order, h :: j <= o && h in s'.freeArea[o] && s'.pageOrder[h] == o
                                   && h <= low && low + Pages(j) <= h + Pages(o)
    ensures exists o: Order, h :: j <= o && h in s'.freeArea[o] && s'.pageOrder[h] == o
                                  && h <= page && page + Pages(j - 1) <= h + Pages(o)
                                  && h <= buddy && buddy + Pages(j - 1) <= h + Pages(o)
  {
    var o: Order, h :| j <= o && h in s'.freeArea[o] && s'.pageOrder[h] == o
                       && h <= low && low + Pages(j) <= h + Pages(o);
  }
}
