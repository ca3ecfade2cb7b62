/** Blocks of the region and what it means for a set of them to tile it.
    A block is named by its head page and its order; the lemmas here are the
    two moves of the buddy scheme, splitting a block in half and merging a
    block with its buddy, stated on sets of blocks. */
module Blocks {
  import opened PowerOfTwo
  import opened Region

  datatype Block = Block(head: nat, order: Order)

  /** One past the last page of b. */
  function End(b: Block): nat {
    b.head + Pages(b.order)
  }

  predicate Covers(b: Block, page: int) {
    b.head <= page < End(b)
  }

  predicate Disjoint(a: Block, b: Block) {
    End(a) <= b.head || End(b) <= a.head
  }

  /** b is aligned to its own size and lies inside the region. */
  predicate Placed(b: Block) {
    Aligned(b.head, b.order - MinOrder) && End(b) <= NPages
  }

  predicate Covered(bs: set<Block>, page: int) {
    exists b :: b in bs && Covers(b, page)
  }

  /** The blocks partition the region: each is placed, no two overlap and
      every page lies in one of them. */
  predicate Tiles(bs: set<Block>) {
    && (forall b :: b in bs ==> Placed(b))
    && (forall a, b :: a in bs && b in bs && a != b ==> Disjoint(a, b))
    && (forall page :: 0 <= page < NPages ==> Covered(bs, page))
  }

  /** The lower half of a block of order > MinOrder. */
  function Lower(b: Block): Block
    requires b.order > MinOrder
  {
    Block(b.head, b.order - 1)
  }

  /** The upper half of a block of order > MinOrder. */
  function Upper(b: Block): Block
    requires b.order > MinOrder
  {
    Block(b.head + Pages(b.order - 1), b.order - 1)
  }

  /** The upper halves left behind when the block at `head` is split from
      order `top` down to order `bottom`, one per order in [bottom, top). */
  function Halves(head: nat, bottom: Order, top: Order): set<Block> {
    set o: Order | bottom <= o < top :: Block(head + Pages(o), o)
  }

  lemma HalvesMember(b: Block, head: nat, bottom: Order, top: Order)
    ensures b in Halves(head, bottom, top) <==> bottom <= b.order < top && b.head == head + Pages(b.order)
  {
    if bottom <= b.order < top && b.head == head + Pages(b.order) {
      assert b == Block(head + Pages(b.order), b.order);
    }
  }

  /** Two distinct members of a tiling cannot share a head page. */
  lemma SameHeadSameBlock(bs: set<Block>, a: Block, b: Block)
    requires Tiles(bs) && a in bs && b in bs && a.head == b.head
    ensures a == b
  {
  }

  /** The halves of a placed block are placed and sit side by side in it. */
  lemma HalvesPlaced(b: Block)
    requires Placed(b) && b.order > MinOrder
    ensures Placed(Lower(b)) && Placed(Upper(b))
    ensures End(Lower(b)) == Upper(b).head && End(Upper(b)) == End(b)
    ensures Upper(b).head == FlipBit(b.head, b.order - 1 - MinOrder)
  {
    var k := b.order - 1 - MinOrder;
    PagesSucc(b.order - 1);
    AlignedWeaken(b.head, k + 1, k);
    AlignedBitClear(b.head, k + 1, k);
    FlipBitValue(b.head, k);
    FlipBitKeepsAligned(b.head, k);
  }

  /** Splitting a member of a tiling into its two halves gives a tiling. */
  lemma SplitStep(rest: set<Block>, b: Block)
    requires b.order > MinOrder
    requires Tiles(rest + {b}) && b !in rest
    ensures Tiles(rest + {Lower(b), Upper(b)})
    ensures Lower(b) !in rest && Upper(b) !in rest && Lower(b) != Upper(b)
  {
    var lo, hi := Lower(b), Upper(b);
    assert Placed(b);
    HalvesPlaced(b);
    var bs' := rest + {lo, hi};
    forall x | x in rest
      ensures Disjoint(x, lo) && Disjoint(x, hi) && x != lo && x != hi
    {
      assert x != b && Disjoint(x, b);
    }
    forall page | 0 <= page < NPages
      ensures Covered(bs', page)
    {
      assert Covered(rest + {b}, page);
      var x :| x in rest + {b} && Covers(x, page);
      if x == b {
        if page < End(lo) {
          assert lo in bs' && Covers(lo, page);
        } else {
          assert hi in bs' && Covers(hi, page);
        }
      } else {
        assert x in bs';
      }
    }
  }

  /** Splitting a member of a tiling from order `top` down to `bottom`, keeping
      the lowest block and every upper half, gives a tiling. */
  lemma {:induction false} SplitDown(rest: set<Block>, head: nat, bottom: Order, top: Order)
    requires bottom <= top
    requires Tiles(rest + {Block(head, top)}) && Block(head, top) !in rest
    ensures Tiles(rest + Halves(head, bottom, top) + {Block(head, bottom)})
    ensures Block(head, bottom) !in rest + Halves(head, bottom, top)
    ensures rest !! Halves(head, bottom, top)
    decreases top - bottom
  {
    if bottom == top {
      assert Halves(head, bottom, top) == {};
      assert rest + Halves(head, bottom, top) + {Block(head, bottom)} == rest + {Block(head, top)};
    } else {
      var b := Block(head, top);
      SplitStep(rest, b);
      var hi := Upper(b);
      var rest' := rest + {hi};
      assert rest' + {Lower(b)} == rest + {Lower(b), hi};
      SplitDown(rest', head, bottom, top - 1);
      assert Halves(head, bottom, top) == Halves(head, bottom, top - 1) + {hi};
      assert rest + Halves(head, bottom, top) + {Block(head, bottom)}
          == rest' + Halves(head, bottom, top - 1) + {Block(head, bottom)};
    }
  }

  /** The block formed by merging b with its buddy `buddy`. */
  function Merged(b: Block, buddy: Block): Block
    requires b.order < MaxOrder
  {
    Block(if b.head < buddy.head then b.head else buddy.head, b.order + 1)
  }

  /** A placed block and its placed buddy merge into a placed block that
      covers exactly the pages of the two. */
  lemma MergePlaced(b: Block, buddy: Block)
    requires Placed(b) && Placed(buddy)
    requires b.order == buddy.order < MaxOrder
    requires buddy.head == FlipBit(b.head, b.order - MinOrder)
    ensures Placed(Merged(b, buddy))
    ensures Merged(b, buddy).head == (if b.head < buddy.head then b.head else buddy.head)
    ensures buddy.head == b.head + Pages(b.order) || b.head == buddy.head + Pages(b.order)
    ensures End(Merged(b, buddy)) == (if b.head < buddy.head then End(buddy) else End(b))
  {
    var k := b.order - MinOrder;
    PagesSucc(b.order);
    FlipBitValue(b.head, k);
    if Bit(b.head, k) {
      FlipBitFlips(b.head, k);
      AlignedExtend(buddy.head, k);
    } else {
      AlignedExtend(b.head, k);
    }
  }

  /** A block and its buddy, both in a tiling, merge into a block that
      together with the rest still tiles the region. */
  lemma MergeStep(rest: set<Block>, b: Block, buddy: Block)
    requires Tiles(rest + {b}) && b !in rest && buddy in rest
    requires b.order == buddy.order < MaxOrder
    requires buddy.head == FlipBit(b.head, b.order - MinOrder)
    ensures Tiles(rest - {buddy} + {Merged(b, buddy)})
    ensures Merged(b, buddy) !in rest - {buddy}
    ensures Covers(Merged(b, buddy), b.head) && End(b) <= End(Merged(b, buddy))
  {
    var m := Merged(b, buddy);
    assert Placed(b) && Placed(buddy);
    MergePlaced(b, buddy);
    var bs' := rest - {buddy} + {m};
    forall x | x in rest - {buddy}
      ensures Disjoint(x, m) && x != m
    {
      assert x != b && Disjoint(x, b);
      assert Disjoint(x, buddy);
    }
    forall page | 0 <= page < NPages
      ensures Covered(bs', page)
    {
      assert Covered(rest + {b}, page);
      var x :| x in rest + {b} && Covers(x, page);
      if x == b || x == buddy {
        assert m in bs' && Covers(m, page);
      } else {
        assert x in bs';
      }
    }
  }

  /** Aligned blocks nest: a placed block whose head lies in a placed block
      of the same or a higher order lies entirely inside it. */
  lemma Nested(a: Block, c: Block)
    requires Placed(a) && Placed(c) && a.order <= c.order && Covers(c, a.head)
    ensures End(a) <= End(c)
  {
    var ka, kc := a.order - MinOrder, c.order - MinOrder;
    AlignedWeaken(c.head, kc, ka);
    AlignedSub(c.head, a.head, ka);
    AlignedFits(a.head - c.head, ka, kc);
  }

  /** The buddy of a placed block below MaxOrder is placed. */
  lemma BuddyPlaced(b: Block)
    requires Placed(b) && b.order < MaxOrder
    ensures Placed(Block(FlipBit(b.head, b.order - MinOrder), b.order))
  {
    var k := b.order - MinOrder;
    FlipBitKeepsAligned(b.head, k);
    FlipBitValue(b.head, k);
    PagesSucc(b.order);
    if !Bit(b.head, k) {
      AlignedExtend(b.head, k);
      ConfigurationConsistent();
      AlignedFits(b.head, k + 1, MaxOrder - MinOrder);
    }
  }

  /** Two placed blocks of one order whose ranges meet have the same head. */
  lemma SameOrderOverlap(a: Block, c: Block)
    requires Placed(a) && Placed(c) && a.order == c.order && Covers(c, a.head)
    ensures c == a
  {
    var k := a.order - MinOrder;
    if c.head < a.head {
      AlignedSub(c.head, a.head, k);
      AlignedPositive(a.head - c.head, k);
    }
  }

  /** A placed block of a higher order that meets the buddy of b also covers b. */
  lemma HigherOrderCover(b: Block, c: Block)
    requires Placed(b) && Placed(c) && b.order < c.order
    requires Covers(c, FlipBit(b.head, b.order - MinOrder))
    ensures Covers(c, b.head)
  {
    var k := b.order - MinOrder;
    var y := Block(FlipBit(b.head, k), b.order);
    BuddyPlaced(b);
    var m := Merged(b, y);
    MergePlaced(b, y);
    AlignedWeaken(c.head, c.order - MinOrder, k + 1);
    PagesSucc(b.order);
    if c.head > m.head {
      AlignedSub(m.head, c.head, k + 1);
      AlignedPositive(c.head - m.head, k + 1);
    }
    Nested(m, c);
  }

  /** In a tiling, a member of order at least b.order that covers the first
      page of b's buddy is that buddy itself. */
  lemma BuddyCoverIsBuddy(bs: set<Block>, b: Block, c: Block)
    requires Tiles(bs) && b in bs && c in bs && b.order < MaxOrder && b.order <= c.order
    requires Covers(c, FlipBit(b.head, b.order - MinOrder))
    ensures c == Block(FlipBit(b.head, b.order - MinOrder), b.order)
  {
    var y := Block(FlipBit(b.head, b.order - MinOrder), b.order);
    BuddyPlaced(b);
    if c.order == b.order {
      SameOrderOverlap(y, c);
    } else {
      HigherOrderCover(b, c);
    }
  }
}
