/** The block order a request of `size` bytes is served at. */
module RequestOrder {
  import opened PowerOfTwo
  import opened Region

  /** The order buddy_alloc computes, ceil(log2(size)), with no lower clamp. */
  function SourceOrder(size: int): (r: nat)
    requires size >= 1
    ensures size <= Pow2(r) && (r == 0 || Pow2(r - 1) < size)
  {
    CeilLog2(size)
  }

  /** Every request of at most half a page gets an order below MIN_ORDER,
      i.e. the index of a free list that buddy_init never initialised. */
  lemma SourceOrderBelowMin(size: int)
    requires size >= 1
    ensures SourceOrder(size) < MinOrder <==> size <= Pow2(MinOrder - 1)
  {
    var r := SourceOrder(size);
    if r < MinOrder {
      if r < MinOrder - 1 {
        Pow2Monotone(r, MinOrder - 1);
      }
    } else if r > 0 {
      if r - 1 > MinOrder - 1 {
        Pow2Monotone(MinOrder - 1, r - 1);
      }
    }
  }

  /** A 100-byte request is given order 7. */
  lemma SmallRequestOrder()
    ensures SourceOrder(100) == 7 && SourceOrder(100) < MinOrder
  {
    assert Pow2(7) == 128 && Pow2(6) == 64;
    CeilLog2Least(100, 7);
  }

  /** The order requests are served at here: the least order with
      2^order >= size, raised to MIN_ORDER for sub-page requests. */
  function BlockOrder(size: int): (r: nat)
    requires size >= 1
    ensures MinOrder <= r && size <= Pow2(r)
    ensures r == MinOrder || Pow2(r - 1) < size
  {
    var c := CeilLog2(size);
    if c < MinOrder then
      assert size <= Pow2(MinOrder) by {
        Pow2Monotone(c, MinOrder);
      }
      MinOrder
    else c
  }

  /** For every request the source handles (one of more than half a page),
      the clamped order is the source's order. */
  lemma BlockOrderMatchesSource(size: int)
    requires size > Pow2(MinOrder - 1)
    ensures BlockOrder(size) == SourceOrder(size)
  {
    SourceOrderBelowMin(size);
  }

  /** BlockOrder is the least admissible order: no order in [MIN_ORDER, r) holds size bytes. */
  lemma BlockOrderLeast(size: int, o: nat)
    requires size >= 1 && MinOrder <= o && size <= Pow2(o)
    ensures BlockOrder(size) <= o
  {
    CeilLog2Least(size, o);
  }
}
