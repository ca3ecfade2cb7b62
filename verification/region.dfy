/** The managed region and its address arithmetic: the MIN_ORDER/MAX_ORDER
    configuration, page index <-> byte offset translation and the buddy
    address. Addresses are byte offsets from the start of the region. */
module Region {
  import opened PowerOfTwo

  /** log2 of the page size, and of the smallest block. */
  const MinOrder: nat := 12
  /** log2 of the region size, and of the largest block. */
  const MaxOrder: nat := 20
  /** 1 << MIN_ORDER */
  const PageSize: nat := 4096
  /** Number of page descriptors: (1 << MAX_ORDER) / PAGE_SIZE. */
  const NPages: nat := 256

  /** The orders a free list exists for. */
  type Order = o: int | MinOrder <= o <= MaxOrder witness MinOrder

  /** Number of pages in a block of order o. */
  function Pages(o: Order): nat {
    Pow2(o - MinOrder)
  }

  /** PAGE_TO_ADDR */
  function PageToAddr(page: nat): nat {
    page * PageSize
  }

  /** ADDR_TO_PAGE (unsigned division truncates, as Dafny's does on naturals). */
  function AddrToPage(addr: nat): nat {
    addr / PageSize
  }

  /** BUDDY_ADDR: the offset with bit o flipped, offset ^ (1 << o). */
  function BuddyAddr(offset: nat, o: nat): nat {
    FlipBit(offset, o)
  }

  /** The page descriptor of the buddy, as alloc and free look it up. */
  function BuddyPage(page: nat, o: Order): nat {
    AddrToPage(BuddyAddr(PageToAddr(page), o))
  }

  lemma ConfigurationConsistent()
    ensures PageSize == Pow2(MinOrder)
    ensures NPages == Pages(MaxOrder)
    ensures NPages * PageSize == Pow2(MaxOrder)
  {
    assert Pow2(8) == 256;
    assert Pow2(12) == 4096;
    assert Pow2(20) == 1048576;
  }

  /** Pages per block double with each order. */
  lemma PagesSucc(o: Order)
    requires o < MaxOrder
    ensures Pages(o + 1) == 2 * Pages(o)
  {
    assert o + 1 - MinOrder == (o - MinOrder) + 1;
  }

  /** A block of a lower order has strictly fewer pages. */
  lemma PagesMonotone(o1: Order, o2: Order)
    requires o1 < o2
    ensures 2 * Pages(o1) <= Pages(o2)
  {
    Pow2Monotone(o1 - MinOrder, o2 - MinOrder);
  }

  /** A block of order o spans Pages(o) pages of PageSize bytes. */
  lemma BlockBytes(o: Order)
    ensures Pow2(o) == Pages(o) * PageSize
  {
    Pow2Add(o - MinOrder, MinOrder);
    ConfigurationConsistent();
  }

  /** Page-level containment of a block of order i in one of order o, in bytes. */
  lemma ContainedInBytes(h: nat, page: nat, i: Order, o: Order)
    requires h <= page && page + Pages(i) <= h + Pages(o)
    ensures PageToAddr(h) <= PageToAddr(page)
    ensures PageToAddr(page) + Pow2(i) <= PageToAddr(h) + Pow2(o)
  {
    BlockBytes(i);
    BlockBytes(o);
  }

  /** ADDR_TO_PAGE undoes PAGE_TO_ADDR, and the converse holds for page-aligned offsets. */
  lemma PageAddrRoundTrip(page: nat, addr: nat)
    ensures AddrToPage(PageToAddr(page)) == page
    ensures addr % PageSize == 0 ==> PageToAddr(AddrToPage(addr)) == addr
  {
  }

  /** A page's byte offset is 2^(MinOrder + k) aligned exactly when the page index is 2^k aligned. */
  lemma AddrAligned(page: nat, k: nat)
    ensures Aligned(PageToAddr(page), k + MinOrder) == Aligned(page, k)
  {
    ConfigurationConsistent();
    ShiftBits(page, k, MinOrder);
  }

  /** BUDDY_ADDR on whole pages is bit (o - MinOrder) flipped in the page index. */
  lemma BuddyPageFlips(page: nat, o: Order)
    ensures BuddyAddr(PageToAddr(page), o) == PageToAddr(FlipBit(page, o - MinOrder))
    ensures BuddyPage(page, o) == FlipBit(page, o - MinOrder)
  {
    ConfigurationConsistent();
    ShiftBits(page, o - MinOrder, MinOrder);
  }

  /** Applying BUDDY_ADDR twice gives back the offset. */
  lemma BuddyAddrInvolution(offset: nat, o: nat)
    ensures BuddyAddr(BuddyAddr(offset, o), o) == offset
  {
    FlipBitInvolution(offset, o);
  }

  /** The buddy of the first page, at the smallest order, is the second page. */
  lemma FirstPageBuddy()
    ensures BuddyAddr(0, MinOrder) == PageSize
  {
    ConfigurationConsistent();
    FlipBitOfZero(MinOrder);
  }

  /** For a 2^o-aligned offset inside the region with o < MAX_ORDER, the buddy
      is 2^o-aligned, its whole block lies inside the region, it is 2^o away,
      and it is on another page. */
  lemma BuddyAddrInRegion(offset: nat, o: Order)
    requires Aligned(offset, o) && offset < Pow2(MaxOrder) && o < MaxOrder
    ensures Aligned(BuddyAddr(offset, o), o)
    ensures BuddyAddr(offset, o) + Pow2(o) <= Pow2(MaxOrder)
    ensures BuddyAddr(offset, o) == offset + Pow2(o) || BuddyAddr(offset, o) + Pow2(o) == offset
    ensures AddrToPage(BuddyAddr(offset, o)) != AddrToPage(offset)
  {
    var b := BuddyAddr(offset, o);
    FlipBitKeepsAligned(offset, o);
    FlipBitFits(offset, o, MaxOrder);
    assert PageSize <= Pow2(o) by {
      ConfigurationConsistent();
      if o > MinOrder {
        Pow2Monotone(MinOrder, o);
      }
    }
    if b > offset {
      PagesApart(offset, Pow2(o));
    } else {
      PagesApart(b, Pow2(o));
    }
  }

  /** Two offsets at least a page apart lie on different pages. */
  lemma PagesApart(x: nat, d: nat)
    requires d >= PageSize
    ensures AddrToPage(x) != AddrToPage(x + d)
  {
  }
}
