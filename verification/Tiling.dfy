/** Tilings of the created page frames by aligned power-of-two blocks: to which block each frame
    belongs, and what splitting, merging and adding blocks does to that. */
module Tiling {
  import opened Bits

  const MAX_ORDER: nat := 10

  function BuddyPfn(pfn: nat, order: nat): nat { Xor(pfn, Pow2(order)) }

  function CombinedPfn(pfn: nat, buddy: nat): nat { And(pfn, buddy) }

  datatype Block = Block(head: nat, order: nat)

  type Tile = map<nat, Block>

  ghost predicate In(b: Block, f: nat) { b.head <= f < b.head + Pow2(b.order) }

  ghost predicate Solid(t: Tile, b: Block) { forall g: nat {:trigger In(b, g)} | In(b, g) :: g in t && t[g] == b }

  ghost predicate TileAt(t: Tile, f: nat) {
    f in t ==> In(t[f], f) && Aligned(t[f].head, t[f].order) && t[f].order <= MAX_ORDER && Solid(t, t[f])
  }

  /** Aligned blocks, no two overlapping, that cover exactly the keys. */
  ghost predicate TileOk(t: Tile) { forall f: nat {:trigger TileAt(t, f)} :: TileAt(t, f) }

  ghost predicate Head(t: Tile, f: nat) { f in t && t[f].head == f }

  ghost function SplitTile(t: Tile, h: nat, order: nat): Tile
    requires order > 0
  {
    var low, high := Block(h, order - 1), Block(h + Pow2(order - 1), order - 1);
    map f | f in t :: if In(low, f) then low else if In(high, f) then high else t[f]
  }

  ghost function MergeTile(t: Tile, h: nat, order: nat): Tile {
    var b := Block(h, order + 1);
    map f | f in t :: if In(b, f) then b else t[f]
  }

  lemma Inside(t: Tile, h: nat, f: nat)
    requires TileOk(t) && h in t && In(t[h], f)
    ensures f in t && t[f] == t[h]
  {
    assert TileAt(t, h);
  }

  lemma HeadIs(t: Tile, f: nat)
    requires TileOk(t) && f in t
    ensures Head(t, t[f].head) && t[t[f].head] == t[f]
  {
    assert TileAt(t, f);
    assert In(t[f], t[f].head);
  }

  lemma SplitOk(t: Tile, h: nat, order: nat)
    requires TileOk(t) && h in t && t[h] == Block(h, order) && order > 0
    ensures TileOk(SplitTile(t, h, order))
  {
    var n, b, low, high := SplitTile(t, h, order), t[h], Block(h, order - 1), Block(h + Pow2(order - 1), order - 1);
    assert TileAt(t, h);
    HalfAligned(h, order);
    forall g: nat | In(low, g) || In(high, g) ensures g in t { assert In(b, g); }
    assert Solid(n, low);
    assert Solid(n, high);
    forall f: nat ensures TileAt(n, f) {
      if f in t && !In(low, f) && !In(high, f) {
        SplitElsewhere(t, h, order, f);
        BlockIs(t, f);
      }
    }
  }

  lemma SplitElsewhere(t: Tile, h: nat, order: nat, f: nat)
    requires TileOk(t) && h in t && t[h] == Block(h, order) && order > 0 && f in t && !In(t[h], f)
    ensures Solid(SplitTile(t, h, order), t[f])
  {
    forall g: nat | In(t[f], g) ensures g in t && SplitTile(t, h, order)[g] == t[f] {
      Inside(t, f, g);
      InHalves(h, order, g);
      if In(t[h], g) {
        Inside(t, h, g);
        assert TileAt(t, f);
      }
    }
  }

  lemma MergeOk(t: Tile, h: nat, order: nat)
    requires TileOk(t) && order < MAX_ORDER && Aligned(h, order + 1)
    requires h in t && t[h] == Block(h, order)
    requires h + Pow2(order) in t && t[h + Pow2(order)] == Block(h + Pow2(order), order)
    ensures TileOk(MergeTile(t, h, order))
  {
    var n, b, low, high := MergeTile(t, h, order), Block(h, order + 1), t[h], t[h + Pow2(order)];
    assert TileAt(t, h) && TileAt(t, h + Pow2(order));
    forall g: nat | In(b, g) ensures g in t && (t[g] == low || t[g] == high) {
      assert In(low, g) || In(high, g);
    }
    assert Solid(n, b);
    forall f: nat ensures TileAt(n, f) {
      if f in t && !In(b, f) {
        assert TileAt(t, f);
        forall g: nat | In(t[f], g) ensures g in n && n[g] == t[f] {
          assert g in t && t[g] == t[f];
        }
      }
    }
  }

  lemma SplitHeads(t: Tile, h: nat, order: nat, f: nat)
    requires TileOk(t) && h in t && t[h] == Block(h, order) && order > 0
    requires f in t && f != h && f != h + Pow2(order - 1)
    ensures Head(SplitTile(t, h, order), f) <==> Head(t, f)
    ensures Head(t, f) ==> SplitTile(t, h, order)[f] == t[f]
  {
    InHalves(h, order, f);
    if In(t[h], f) { Inside(t, h, f); }
  }

  lemma InHalves(h: nat, order: nat, f: nat)
    requires order > 0
    ensures In(Block(h, order), f) <==> In(Block(h, order - 1), f) || In(Block(h + Pow2(order - 1), order - 1), f)
  {
    assert Pow2(order) == 2 * Pow2(order - 1);
  }

  lemma MergeHeads(t: Tile, c: nat, order: nat, f: nat)
    requires TileOk(t) && f in t && f != c && f != c + Pow2(order)
    requires c in t && t[c] == Block(c, order)
    requires c + Pow2(order) in t && t[c + Pow2(order)] == Block(c + Pow2(order), order)
    ensures Head(MergeTile(t, c, order), f) <==> Head(t, f)
    ensures Head(t, f) ==> MergeTile(t, c, order)[f] == t[f]
  {
    var high := c + Pow2(order);
    InHalves(c, order + 1, f);
    if In(t[c], f) {
      Inside(t, c, f);
    } else if In(t[high], f) {
      Inside(t, high, f);
    }
  }

  function BuddyBlock(b: Block): Block { Block(BuddyPfn(b.head, b.order), b.order) }

  ghost predicate GapAt(t: Tile, b: Block, g: nat) { In(b, g) && g !in t }

  ghost predicate Incomplete(t: Tile, b: Block) { exists g: nat :: GapAt(t, b, g) }

  lemma SameGaps(t: Tile, n: Tile, b: Block)
    requires n.Keys == t.Keys && Incomplete(t, b)
    ensures Incomplete(n, b)
  {
    var g: nat :| GapAt(t, b, g);
    assert GapAt(n, b, g);
  }

  lemma HalfBuddy(h: nat, order: nat, half: nat, f: nat)
    requires order > 0 && Aligned(h, order) && half == h + Pow2(order - 1)
    ensures BuddyPfn(half, order - 1) == h
    ensures BuddyPfn(f, order - 1) == half ==> f == h
  {
    HalfAligned(h, order);
    BuddyIs(h, order - 1);
    XorTwice(h, Pow2(order - 1));
    XorTwice(f, Pow2(order - 1));
  }

  /** A block at least as large as an aligned run contains it wholly once it contains one frame of it. */
  lemma Contains(b: Block, x: nat, order: nat, f: nat)
    requires Aligned(b.head, b.order) && order <= b.order && Aligned(x, order) && In(b, f) && In(Block(x, order), f)
    ensures In(b, x)
  {
    AlignedDown(b.head, b.order, order);
    if b.head > x { AlignedGap(x, b.head, order); }
  }

  lemma BlockIs(t: Tile, f: nat)
    requires TileOk(t) && f in t
    ensures In(t[f], f) && Aligned(t[f].head, t[f].order) && t[f].order <= MAX_ORDER
  {
    assert TileAt(t, f);
  }

  lemma HeadOf(t: Tile, x: nat, order: nat)
    requires TileOk(t) && x in t && t[x].order == order && Aligned(x, order)
    ensures t[x] == Block(x, order)
  {
    BlockIs(t, x);
    if t[x].head < x { AlignedGap(t[x].head, x, order); }
  }

  /** An allocated block with a frame in the buddy of a block lies in that buddy. */
  lemma OwnedInBuddy(t: Tile, b: Block, g: nat)
    requires TileOk(t) && b.head in t && t[b.head] == b && b.order < MAX_ORDER && In(BuddyBlock(b), g) && g in t
    ensures In(BuddyBlock(b), t[g].head)
  {
    var c, d := BuddyBlock(b), t[g];
    BlockIs(t, b.head);
    BlockIs(t, g);
    BuddyAligned(b.head, b.order);
    BuddyTwice(b);
    if d.order <= c.order {
      Contains(c, d.head, d.order, g);
    } else {
      Contains(d, c.head, c.order, g);
      BuddyInside(d, c);
      Inside(t, g, b.head);
    }
  }

  ghost function AddTile(t: Tile, b: Block): Tile {
    t + map f: nat | b.head <= f < b.head + Pow2(b.order) && In(b, f) :: b
  }

  lemma AddOk(t: Tile, b: Block)
    requires TileOk(t) && Aligned(b.head, b.order) && b.order <= MAX_ORDER
    requires forall f: nat {:trigger In(b, f)} | In(b, f) :: f !in t
    ensures TileOk(AddTile(t, b))
  {
    var n := AddTile(t, b);
    assert Solid(n, b);
    forall f: nat ensures TileAt(n, f) {
      if f in t { assert TileAt(t, f); }
    }
  }

  ghost predicate Within(b: Block, first: nat, last: nat) { first <= b.head && b.head + Pow2(b.order) <= last }

  /** Inside a larger aligned block, the buddy of a block is inside too. */
  lemma BuddyInside(b: Block, d: Block)
    requires Aligned(b.head, b.order) && Aligned(d.head, d.order) && d.order < b.order && In(b, d.head)
    ensures Within(BuddyBlock(d), b.head, b.head + Pow2(b.order))
  {
    BuddyIs(d.head, d.order);
    var low := if Aligned(d.head, d.order + 1) then d.head else d.head - Pow2(d.order);
    assert In(Block(low, d.order + 1), d.head);
    Contains(b, low, d.order + 1, d.head);
    PlusAligned(b.head, b.order);
    AlignedDown(b.head + Pow2(b.order), b.order, d.order + 1);
    AlignedGap(low, b.head + Pow2(b.order), d.order + 1);
  }

  lemma BuddyTwice(b: Block)
    ensures BuddyBlock(BuddyBlock(b)) == b
  {
    XorTwice(b.head, Pow2(b.order));
  }
}
