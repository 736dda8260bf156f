/** When a zone has no two free buddies, and keeps having none whatever is allocated and freed. */
module BuddyTight {
  import opened Bits
  import opened Tiling
  import opened BuddyView

  /** No block below the top order is free together with its buddy. */
  ghost predicate BuddyAt(v: View, f: nat) {
    FreeHead(v, f) && v.tile[f].order < MAX_ORDER ==> !FreeBlock(v, BuddyBlock(v.tile[f]))
  }

  ghost predicate NoBuddies(v: View) { forall f: nat {:trigger BuddyAt(v, f)} :: BuddyAt(v, f) }

  /** The buddy of a block whose stored order is wrong is not wholly created, so it never becomes one free block. */
  ghost predicate PristineAt(v: View, f: nat) {
    f in v.pristine && f in v.tile && 0 < v.tile[f].order < MAX_ORDER ==> Incomplete(v.tile, BuddyBlock(v.tile[f]))
  }

  /** There are no free buddies, and freeing blocks cannot bring any about. */
  ghost predicate Tight(v: View) { NoBuddies(v) && forall f: nat {:trigger PristineAt(v, f)} :: PristineAt(v, f) }

  lemma SplitTight(v: View, h: nat, order: nat)
    requires InHand(v, h, order) && order > 0 && Tight(v)
    ensures Tight(Split(v, h, order))
  {
    var n := Split(v, h, order);
    forall f: nat ensures BuddyAt(n, f) { SplitBuddy(v, h, order, f); }
    forall f: nat ensures PristineAt(n, f) {
      SplitFree(v, h, order, f);
      assert PristineAt(v, f) && PageAt(v, f);
      if f in v.pristine && 0 < v.tile[f].order < MAX_ORDER { SameGaps(v.tile, n.tile, BuddyBlock(v.tile[f])); }
    }
  }

  lemma SplitBuddy(v: View, h: nat, order: nat, f: nat)
    requires InHand(v, h, order) && order > 0 && Tight(v)
    ensures BuddyAt(Split(v, h, order), f)
  {
    BlockIs(v.tile, h);
    HalfBuddy(h, order, h + Pow2(order - 1), f);
    SplitFree(v, h, order, f);
    assert BuddyAt(v, f);
    if FreeHead(v, f) && v.tile[f].order < MAX_ORDER {
      SplitOther(v, h, order, f, BuddyPfn(f, v.tile[f].order));
    }
  }

  lemma SplitOther(v: View, h: nat, order: nat, f: nat, b: nat)
    requires InHand(v, h, order) && order > 0 && FreeHead(v, f) && !FreeBlock(v, Block(b, v.tile[f].order))
    requires b == h + Pow2(order - 1) && v.tile[f].order == order - 1 ==> f == h
    ensures !FreeBlock(Split(v, h, order), Block(b, v.tile[f].order))
  {
    SplitFree(v, h, order, b);
  }

  /** Taking blocks off the lists keeps the rest tight. */
  lemma FewerTight(v: View, n: View)
    requires Sound(n) && Tight(v) && n.tile.Keys == v.tile.Keys && n.pristine <= v.pristine
    requires forall f: nat | FreeHead(n, f) :: FreeHead(v, f) && n.tile[f] == v.tile[f]
    ensures Tight(n)
  {
    forall f: nat ensures BuddyAt(n, f) { assert BuddyAt(v, f); }
    forall f: nat ensures PristineAt(n, f) {
      assert PristineAt(v, f) && PageAt(n, f);
      if f in n.pristine && 0 < v.tile[f].order < MAX_ORDER { SameGaps(v.tile, n.tile, BuddyBlock(v.tile[f])); }
    }
  }

  lemma TakeTight(v: View, order: nat, h: nat, target: nat)
    requires Sound(v) && v.hand == -1 && Listed(v.areas, order, h) && order <= MAX_ORDER && Tight(v)
    requires v.areas[order].count > 0 && Sound(Take(v, order, h, target))
    ensures Tight(Take(v, order, h, target))
  {
    FewerTight(v, Take(v, order, h, target));
  }

  lemma GiveTight(v: View, h: nat, order: nat)
    requires InHand(v, h, order) && Tight(v) && Sound(Give(v, h))
    ensures Tight(Give(v, h))
  {
    FewerTight(v, Give(v, h));
  }

  lemma GrabTight(v: View, h: nat)
    requires Sound(v) && v.hand == -1 && h in Owned(v) && Tight(v) && Sound(v.(hand := h))
    ensures Tight(v.(hand := h))
  {
    FewerTight(v, v.(hand := h));
  }

  lemma MergeTight(v: View, h: nat, b: nat, c: nat, order: nat)
    requires Halves(v, h, b, c, order) && v.areas[order].count > 0 && Tight(v) && Sound(Merge(v, h, b, c, order))
    ensures Tight(Merge(v, h, b, c, order))
  {
    var n := Merge(v, h, b, c, order);
    forall f: nat ensures FreeHead(n, f) ==> FreeHead(v, f) && n.tile[f] == v.tile[f] { MergeFree(v, h, b, c, order, f); }
    FewerTight(v, n);
  }

  /** The coalescing loop stops only when the buddy is not a free block of the same true order. */
  lemma NoFreeBuddy(v: View, h: nat, order: nat)
    requires InHand(v, h, order) && Tight(v) && order < MAX_ORDER
    requires !Mergeable(v.pages, BuddyPfn(h, order), order)
    ensures !FreeBlock(v, Block(BuddyPfn(h, order), order))
  {
    CheckExact(v, h, order);
    XorTwice(h, Pow2(order));
    assert PristineAt(v, BuddyPfn(h, order)) && TileAt(v.tile, h);
  }

  lemma FinishTight(v: View, h: nat, order: nat)
    requires InHand(v, h, order) && Tight(v)
    requires order == MAX_ORDER || !Mergeable(v.pages, BuddyPfn(h, order), order)
    ensures Tight(Finish(v, h, order))
  {
    var n := Finish(v, h, order);
    assert TileAt(v.tile, h);
    BuddyIs(h, order);
    if order < MAX_ORDER { NoFreeBuddy(v, h, order); }
    forall f: nat ensures BuddyAt(n, f) {
      assert BuddyAt(v, f);
      if FreeHead(n, f) { XorTwice(f, Pow2(v.tile[f].order)); }
    }
    forall f: nat ensures PristineAt(n, f) { assert PristineAt(v, f); }
  }

  lemma {:induction false} RunInBlock(v: View, x: nat, order: nat)
    requires Sound(v) && v.hand == -1 && NoBuddies(v) && order <= MAX_ORDER && FreeRun(v, x, order)
    ensures x in v.tile && order <= v.tile[x].order
    decreases order
  {
    assert In(Block(x, order), x) && FreeFrame(v, x) && TileAt(v.tile, x);
    if order > 0 {
      HalfAligned(x, order);
      var y := x + Pow2(order - 1);
      assert FreeRun(v, x, order - 1) && FreeRun(v, y, order - 1);
      RunInBlock(v, x, order - 1);
      RunInBlock(v, y, order - 1);
      if v.tile[x].order < order { TwoHalves(v, x, order, y); }
    }
  }

  /** Two free halves of one aligned block cannot both be blocks of their own. */
  lemma TwoHalves(v: View, x: nat, order: nat, y: nat)
    requires Sound(v) && v.hand == -1 && NoBuddies(v) && 0 < order <= MAX_ORDER && Aligned(x, order)
    requires y == x + Pow2(order - 1) && FreeFrame(v, x) && FreeFrame(v, y)
    requires v.tile[x].order >= order - 1 && v.tile[y].order >= order - 1
    ensures v.tile[x].order >= order
  {
    HalfAligned(x, order);
    BlockIs(v.tile, y);
    if v.tile[y].order >= order {
      Contains(v.tile[y], x, order, y);
      Inside(v.tile, y, x);
    } else if v.tile[x].order == order - 1 {
      HeadOf(v.tile, x, order - 1);
      HeadOf(v.tile, y, order - 1);
      NotBoth(v, x, order, y);
    }
  }

  lemma NotBoth(v: View, x: nat, order: nat, y: nat)
    requires NoBuddies(v) && 0 < order <= MAX_ORDER && Aligned(x, order) && y == x + Pow2(order - 1)
    requires FreeFrame(v, x) && FreeFrame(v, y)
    ensures !(v.tile[x] == Block(x, order - 1) && v.tile[y] == Block(y, order - 1))
  {
    HalfAligned(x, order);
    BuddyIs(x, order - 1);
    assert BuddyAt(v, x);
  }

  /** If a run of free frames of the order exists, some list from that order up is not empty. */
  lemma RunIsListed(v: View, x: nat, order: nat)
    requires Sound(v) && v.hand == -1 && NoBuddies(v) && order <= MAX_ORDER && FreeRun(v, x, order)
    ensures exists o :: order <= o <= MAX_ORDER && v.areas[o].list != []
  {
    RunInBlock(v, x, order);
    assert In(Block(x, order), x) && FreeFrame(v, x) && TileAt(v.tile, x);
    assert PageAt(v, v.tile[x].head);
    HeadIs(v.tile, x);
    assert v.areas[v.tile[x].order].list != [];
  }

  /** Allocated blocks are untouched, and a zone without free buddies stays so. */
  ghost predicate Keeps(v: View, n: View) { SameOwned(v, n) && (Tight(v) ==> Tight(n)) }

  lemma KeepsSelf(v: View)
    ensures Keeps(v, v)
  {
    forall f: nat ensures SameAt(v, v, f) {}
  }

  lemma KeepsThen(u: View, v: View, n: View)
    requires Keeps(u, v) && Keeps(v, n)
    ensures Keeps(u, n)
  {
    SameThen(u, v, n);
  }

  lemma SplitStep(v: View, h: nat, order: nat)
    requires InHand(v, h, order) && order > 0
    ensures InHand(Split(v, h, order), h, order - 1) && Keeps(v, Split(v, h, order))
    ensures Get(Split(v, h, order).pages, h) == Get(v.pages, h)
  {
    SplitKeeps(v, h, order);
    if Tight(v) { SplitTight(v, h, order); }
  }

  lemma TakeStep(v: View, order: nat, h: nat, target: nat)
    requires Sound(v) && v.hand == -1 && Listed(v.areas, order, h) && order <= MAX_ORDER
    ensures v.areas[order].count > 0 && InHand(Take(v, order, h, target), h, order)
    ensures Keeps(v, Take(v, order, h, target)) && Get(v.pages, h).free
  {
    TakeKeeps(v, order, h, target);
    if Tight(v) { TakeTight(v, order, h, target); }
  }

  lemma MergeStep(v: View, h: nat, b: nat, c: nat, order: nat)
    requires Halves(v, h, b, c, order)
    ensures v.areas[order].count > 0 && InHand(Merge(v, h, b, c, order), c, order + 1)
    ensures Keeps(v, Merge(v, h, b, c, order)) && !Get(Merge(v, h, b, c, order).pages, c).free
  {
    MergeKeeps(v, h, b, c, order);
    if Tight(v) { MergeTight(v, h, b, c, order); }
  }

  lemma FinishStep(v: View, h: nat, order: nat)
    requires InHand(v, h, order)
    requires order == MAX_ORDER || !Mergeable(v.pages, BuddyPfn(h, order), order)
    ensures Sound(Finish(v, h, order)) && Keeps(v, Finish(v, h, order))
  {
    FinishKeeps(v, h, order);
    if Tight(v) { FinishTight(v, h, order); }
  }

  /** A block of wrong stored order stays where it is. */
  ghost predicate StaysAt(v: View, n: View, f: nat) {
    f in v.pristine && f in v.tile && v.tile[f].order > 0 ==> f in n.pristine && f in n.tile && n.tile[f] == v.tile[f]
  }

  ghost predicate Stays(v: View, n: View) { forall f: nat {:trigger StaysAt(v, n, f)} :: StaysAt(v, n, f) }

  lemma StaysThen(u: View, v: View, n: View)
    requires Stays(u, v) && Stays(v, n)
    ensures Stays(u, n)
  {
    forall f: nat ensures StaysAt(u, n, f) { assert StaysAt(u, v, f) && StaysAt(v, n, f); }
  }

  lemma MergeStays(v: View, h: nat, b: nat, c: nat, order: nat)
    requires Halves(v, h, b, c, order) && v.areas[order].count > 0 && (order == 0 || b !in v.pristine)
    ensures Stays(v, Merge(v, h, b, c, order))
  {
    forall f: nat ensures StaysAt(v, Merge(v, h, b, c, order), f) {
      assert PageAt(v, f) && PageAt(v, h);
      if f in v.tile && f != c && f != c + Pow2(order) { MergeHeads(v.tile, c, order, f); }
    }
  }

  /** One more turn of the coalescing loop that began in state u with the block at `head`. */
  lemma MergeFurther(u: View, v: View, h: nat, b: nat, c: nat, order: nat, head: nat)
    requires Halves(v, h, b, c, order) && (order == 0 || b !in v.pristine)
    requires Keeps(u, v) && Stays(u, v) && In(Block(h, order), head)
    ensures v.areas[order].count > 0 && InHand(Merge(v, h, b, c, order), c, order + 1)
    ensures var n := Merge(v, h, b, c, order);
            Keeps(u, n) && Stays(u, n) && !Get(n.pages, c).free && In(Block(c, order + 1), head)
  {
    MergeStep(v, h, b, c, order);
    MergeStays(v, h, b, c, order);
    KeepsThen(u, v, Merge(v, h, b, c, order));
    StaysThen(u, v, Merge(v, h, b, c, order));
    InHalves(c, order + 1, head);
  }

  /** A free block and a buddy whose frames are all free cannot be in a zone without free buddies. */
  lemma WholeBuddy(n: View, b: Block)
    requires Sound(n) && n.hand == -1 && FreeBlock(n, b) && b.order < MAX_ORDER
    requires forall g: nat | In(BuddyBlock(b), g) :: FreeFrame(n, g)
    ensures !NoBuddies(n)
  {
    BlockIs(n.tile, b.head);
    BuddyIs(b.head, b.order);
    var low := if Aligned(b.head, b.order + 1) then b.head else b.head - Pow2(b.order);
    forall g: nat | In(Block(low, b.order + 1), g) ensures FreeFrame(n, g) {
      if In(b, g) { Inside(n.tile, b.head, g); } else { assert In(BuddyBlock(b), g); }
    }
    if NoBuddies(n) {
      RunInBlock(n, low, b.order + 1);
      BlockIs(n.tile, low);
      HalfAligned(low, b.order + 1);
      BuddyInside(n.tile[low], Block(low, b.order));
      BuddyIs(low, b.order);
      Inside(n.tile, low, b.head);
    }
  }

  /** What is free stays free when fewer blocks are allocated. */
  lemma FewerOwned(v: View, n: View, g: nat)
    requires Sound(v) && Sound(n) && v.hand == -1 && n.hand == -1 && n.tile.Keys == v.tile.Keys && FreeFrame(v, g)
    requires forall h | h in Owned(n) :: h in Owned(v) && Owned(n)[h] == Owned(v)[h]
    ensures FreeFrame(n, g)
  {
    Conservation(v, g);
    Conservation(n, g);
  }

  /** A created frame of the buddy is free if no block is allocated there and all frames before it are free. */
  lemma FreeNext(v: View, b: Block, g: nat)
    requires Sound(v) && v.hand == -1 && b.head in v.tile && v.tile[b.head] == b && b.order < MAX_ORDER
    requires In(BuddyBlock(b), g) && g in v.tile && g !in Owned(v)
    requires forall x: nat | BuddyBlock(b).head <= x < g :: FreeFrame(v, x)
    ensures FreeFrame(v, g)
  {
    OwnedInBuddy(v.tile, b, g);
    HeadIs(v.tile, g);
    BlockIs(v.tile, g);
    var h := v.tile[g].head;
    if h < g { assert FreeFrame(v, h); }
  }

  /** The users of an allocated block may change its count and its LOCAL flag. */
  lemma UserPage(v: View, h: nat, refcount: nat, local: bool)
    requires Sound(v) && v.hand == -1 && h in Owned(v)
    ensures var n := v.(pages := v.pages[h := Get(v.pages, h).(refcount := refcount, local := local)]);
            Sound(n) && Owned(n) == Owned(v) && (Tight(v) ==> Tight(n))
  {
    var n := v.(pages := v.pages[h := Get(v.pages, h).(refcount := refcount, local := local)]);
    forall f: nat ensures PageAt(n, f) && (OwnedAt(n, f) <==> OwnedAt(v, f)) { assert PageAt(v, f); }
    forall o: nat, f: nat ensures ListAt(n, o, f) { assert ListAt(v, o, f); }
    if Tight(v) { FewerTight(v, n); }
  }
}
