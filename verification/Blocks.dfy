/** The discipline the arena and the fixed allocator share: blocks carved from a
    region by moving one boundary, each remembering where the boundary was. */
module Blocks {
  import opened Utility

  /** A block handed out: the boundary before it, its first user byte, its size. */
  datatype Block = Block(prev: nat, start: nat, len: nat)
  {
    function End(): nat { start + len }
  }

  /** Every block exclusively owns `[prev, start + len)`, header included, below
      the boundary `used`. */
  ghost predicate Owned(h: nat, live: set<Block>, used: nat) {
    && (forall b :: b in live ==> b.prev + h <= b.start && b.End() <= used)
    && (forall b, c :: b in live && c in live && b != c ==> Apart(b, c))
  }

  ghost predicate Apart(b: Block, c: Block) {
    b.End() <= c.prev || c.End() <= b.prev
  }

  /** A block's end is the boundary only for the topmost block. */
  lemma TopIsUnique(h: nat, live: set<Block>, used: nat, b: Block)
    requires h > 0 && Owned(h, live, used) && b in live && b.End() == used
    ensures forall c :: c in live && c != b ==> c.End() <= b.prev
  {
    forall c | c in live && c != b ensures c.End() <= b.prev {
      assert Apart(b, c);
    }
  }

  /** Moving the boundary back below the top block uncovers no other block. */
  lemma PopKeepsOwned(h: nat, live: set<Block>, used: nat, b: Block)
    requires h > 0 && Owned(h, live, used) && b in live && b.End() == used
    ensures Owned(h, live - {b}, b.prev)
  {
    TopIsUnique(h, live, used, b);
  }

  lemma PushKeepsOwned(h: nat, live: set<Block>, used: nat, b: Block)
    requires Owned(h, live, used) && used <= b.prev && b.prev + h <= b.start
    ensures Owned(h, live + {b}, b.End())
    ensures h > 0 ==> b !in live
  {
  }

  /** The top block may take any size; the boundary follows. */
  lemma ResizeTopKeepsOwned(h: nat, live: set<Block>, used: nat, b: Block, len: nat)
    requires h > 0 && Owned(h, live, used) && b in live && b.End() == used
    ensures Owned(h, live - {b} + {b.(len := len)}, b.start + len)
  {
    TopIsUnique(h, live, used, b);
    PushKeepsOwned(h, live - {b}, b.prev, b.(len := len));
  }

  /** Any block may be cut short in place. */
  lemma CutKeepsOwned(h: nat, live: set<Block>, used: nat, b: Block, len: nat)
    requires Owned(h, live, used) && b in live && len <= b.len
    ensures Owned(h, live - {b} + {b.(len := len)}, used)
  {
    forall c | c in live && c != b ensures Apart(b.(len := len), c) {
      assert Apart(b, c);
    }
  }

  /** A block may end later exactly when it stays below the blocks after it, and unless
      it is the top block below the boundary. */
  lemma StretchKeepsOwned(h: nat, live: set<Block>, used: nat, b: Block, len: nat)
    requires h > 0 && Owned(h, live, used) && b in live && len > b.len
    ensures
      var c, top := b.(len := len), b.End() == used;
      Owned(h, live - {b} + {c}, if top then c.End() else used) <==>
        (top || c.End() <= used) && forall d :: d in live && b.End() <= d.prev ==> c.End() <= d.prev
  {
    var c, top := b.(len := len), b.End() == used;
    var after := live - {b} + {c};
    assert c in after;
    if Owned(h, after, if top then c.End() else used) {
      forall d | d in live && b.End() <= d.prev ensures c.End() <= d.prev { assert d in after && Apart(c, d); }
    } else if top {
      ResizeTopKeepsOwned(h, live, used, b, len);
    } else if c.End() <= used && forall d :: d in live && b.End() <= d.prev ==> c.End() <= d.prev {
      forall d | d in live && d != b ensures Apart(c, d) && Apart(d, c) { assert Apart(b, d); }
    }
  }

  /** Where a request lands above the boundary: after the header, aligned. */
  function Place(h: nat, used: nat, align: nat): nat
    requires align > 0
  {
    AlignUp(used + h, align)
  }

  lemma PlaceIsTight(h: nat, used: nat, align: nat)
    requires IsPow2(align)
    ensures Place(h, used, align) % align == 0
    ensures used + h <= Place(h, used, align) < used + h + align
  {
    AlignUpIsLeastMultiple(used + h, align);
  }

  /** No lower start is aligned and leaves room for the header before it. */
  lemma PlaceIsLeast(h: nat, used: nat, align: nat, start: nat)
    requires IsPow2(align) && start % align == 0 && used + h <= start
    ensures Place(h, used, align) <= start
  {
    PlaceIsTight(h, used, align);
    LeastMultiple(used + h, align, Place(h, used, align), start);
  }
}
