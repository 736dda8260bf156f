/** The state of a buddy zone, page structures and free lists, beside the tiling that says what is
    true, and the single steps of allocating, freeing and creating blocks on it.

    The page structures alone do not tell the order of a block, because creating one leaves its
    stored order at 0. */
module BuddyView {
  import opened Wrappers
  import opened Bits
  import opened IntrusiveList
  import opened Tiling

  datatype RawPage = RawPage(order: nat, present: bool, buddy: bool, free: bool, local: bool, refcount: nat)

  const BLANK := RawPage(0, false, false, false, false, 0)

  datatype FreeArea = FreeArea(list: seq<nat>, count: nat)

  type Pages = map<nat, RawPage>

  /** The page array starts out zeroed. */
  function Get(pages: Pages, pfn: nat): RawPage { if pfn in pages then pages[pfn] else BLANK }

  /** The zone with its tiling.  The head in hand (if any) is between two states: off every list,
      its flags and stored order about to be settled.  Pristine heads were never handed out. */
  datatype View = View(pages: Pages, areas: seq<FreeArea>, tile: Tile, pristine: set<nat>, hand: int)

  ghost predicate Listed(areas: seq<FreeArea>, order: nat, f: nat) { order < |areas| && f in areas[order].list }

  /** What the page structure of a frame says. */
  ghost predicate PageAt(v: View, f: nat) {
    var p := Get(v.pages, f);
    if Head(v.tile, f) then
      && p.present && p.buddy
      && (if f == v.hand then p.refcount == 0 && f !in v.pristine
          else if p.free then
            && p.refcount == 0
            && Listed(v.areas, v.tile[f].order, f)
            && p.order == (if f in v.pristine then 0 else v.tile[f].order)
          else p.order == v.tile[f].order && f !in v.pristine)
    else
      && !p.free && !p.buddy && p.refcount == 0 && f !in v.pristine
      && (if f in v.tile then p.present else p.order == 0)
  }

  /** A listed frame is a free head of that order. */
  ghost predicate ListAt(v: View, order: nat, f: nat) {
    Listed(v.areas, order, f) ==>
      f in v.tile && v.tile[f] == Block(f, order) && Get(v.pages, f).free && f != v.hand
  }

  ghost predicate AreaOk(a: FreeArea) { a.count == |a.list| && NoDup(a.list) }

  ghost predicate AreasOk(areas: seq<FreeArea>) {
    |areas| == MAX_ORDER + 1 && forall o | 0 <= o <= MAX_ORDER :: AreaOk(areas[o])
  }

  ghost predicate Sound(v: View) {
    && TileOk(v.tile)
    && AreasOk(v.areas)
    && (forall f: nat {:trigger PageAt(v, f)} :: PageAt(v, f))
    && (forall o: nat, f: nat {:trigger ListAt(v, o, f)} :: ListAt(v, o, f))
  }

  ghost predicate InHand(v: View, h: nat, order: nat) {
    Sound(v) && v.hand == h && order <= MAX_ORDER && h in v.tile && v.tile[h] == Block(h, order)
  }

  ghost predicate OwnedAt(v: View, f: nat) { Head(v.tile, f) && f != v.hand && !Get(v.pages, f).free }

  /** The allocated blocks: head and order. */
  ghost function Owned(v: View): map<nat, nat> { map f | f in v.tile && OwnedAt(v, f) :: v.tile[f].order }

  function Push(areas: seq<FreeArea>, order: nat, f: nat): seq<FreeArea>
    requires order < |areas|
  {
    areas[order := FreeArea([f] + areas[order].list, areas[order].count + 1)]
  }

  lemma PushOk(areas: seq<FreeArea>, order: nat, f: nat)
    requires AreasOk(areas) && order <= MAX_ORDER && f !in areas[order].list
    ensures AreasOk(Push(areas, order, f))
    ensures forall o: nat, g: nat {:trigger Listed(Push(areas, order, f), o, g)} ::
              Listed(Push(areas, order, f), o, g) <==> Listed(areas, o, g) || (o == order && g == f)
  {}

  /** One turn of expand: the upper half of the block in hand goes on the list one order down. */
  ghost function Split(v: View, h: nat, order: nat): View
    requires 0 < order <= |v.areas|
  {
    var half := h + Pow2(order - 1);
    v.(pages := v.pages[half := Get(v.pages, half).(order := order - 1, buddy := true, free := true)],
       areas := Push(v.areas, order - 1, half), tile := SplitTile(v.tile, h, order))
  }

  lemma SplitKeeps(v: View, h: nat, order: nat)
    requires InHand(v, h, order) && order > 0
    ensures InHand(Split(v, h, order), h, order - 1)
    ensures SameOwned(v, Split(v, h, order))
  {
    var n, half := Split(v, h, order), h + Pow2(order - 1);
    SplitOk(v.tile, h, order);
    assert TileAt(v.tile, h) && In(v.tile[h], half) && In(Block(h, order - 1), h);
    assert ListAt(v, order - 1, half) && PageAt(v, half);
    PushOk(v.areas, order - 1, half);
    forall f: nat ensures PageAt(n, f) && SameAt(v, n, f) { SplitPage(v, h, order, f); }
    forall o: nat, f: nat ensures ListAt(n, o, f) { SplitList(v, h, order, o, f); }
  }

  lemma SplitList(v: View, h: nat, order: nat, o: nat, f: nat)
    requires InHand(v, h, order) && order > 0
    ensures ListAt(Split(v, h, order), o, f)
  {
    var half := h + Pow2(order - 1);
    Inside(v.tile, h, half);
    assert ListAt(v, o, f) && PageAt(v, half) && ListAt(v, order - 1, half);
    PushOk(v.areas, order - 1, half);
    assert In(Block(half, order - 1), half);
    if f in v.tile && f != h && f != half { SplitHeads(v.tile, h, order, f); }
  }

  lemma SplitPage(v: View, h: nat, order: nat, f: nat)
    requires InHand(v, h, order) && order > 0
    ensures PageAt(Split(v, h, order), f) && SameAt(v, Split(v, h, order), f)
  {
    var half := h + Pow2(order - 1);
    assert TileAt(v.tile, h) && In(v.tile[h], half);
    assert PageAt(v, f) && ListAt(v, order - 1, half);
    PushOk(v.areas, order - 1, half);
    if f in v.tile && f != h && f != half { SplitHeads(v.tile, h, order, f); }
  }

  /** Nothing an owner of an allocated block can see has changed. */
  ghost predicate SameOwned(v: View, n: View) { forall f: nat {:trigger SameAt(v, n, f)} :: SameAt(v, n, f) }

  ghost predicate SameAt(v: View, n: View, f: nat) {
    && (f in n.tile <==> f in v.tile)
    && (OwnedAt(n, f) <==> OwnedAt(v, f))
    && (OwnedAt(v, f) ==> n.tile[f] == v.tile[f] && Get(n.pages, f) == Get(v.pages, f))
  }

  lemma SameThen(u: View, v: View, n: View)
    requires SameOwned(u, v) && SameOwned(v, n)
    ensures SameOwned(u, n)
  {
    forall f: nat ensures SameAt(u, n, f) { assert SameAt(u, v, f) && SameAt(v, n, f); }
  }

  lemma SameIs(v: View, n: View)
    requires SameOwned(v, n)
    ensures Owned(n) == Owned(v) && n.tile.Keys == v.tile.Keys
    ensures forall f | f in Owned(v) :: Get(n.pages, f) == Get(v.pages, f)
  {
    forall f: nat ensures (f in n.tile <==> f in v.tile) && (f in Owned(n) <==> f in Owned(v)) { assert SameAt(v, n, f); }
    forall f | f in Owned(v) ensures Owned(n)[f] == Owned(v)[f] && Get(n.pages, f) == Get(v.pages, f) { assert SameAt(v, n, f); }
  }

  function Drop(areas: seq<FreeArea>, order: nat, f: nat): seq<FreeArea>
    requires order < |areas| && areas[order].count > 0
  {
    areas[order := FreeArea(Unlink(areas[order].list, f), areas[order].count - 1)]
  }

  lemma DropOk(areas: seq<FreeArea>, order: nat, f: nat)
    requires AreasOk(areas) && order <= MAX_ORDER && f in areas[order].list
    ensures areas[order].count > 0 && AreasOk(Drop(areas, order, f))
    ensures forall o: nat, g: nat {:trigger Listed(Drop(areas, order, f), o, g)} ::
              Listed(Drop(areas, order, f), o, g) <==> Listed(areas, o, g) && !(o == order && g == f)
  {
    UnlinkIs(areas[order].list, f);
  }

  /** Taking a listed block in hand, its order about to become `target`. */
  ghost function Take(v: View, order: nat, h: nat, target: nat): View
    requires order < |v.areas| && v.areas[order].count > 0
  {
    v.(pages := v.pages[h := Get(v.pages, h).(order := target)], areas := Drop(v.areas, order, h),
       pristine := v.pristine - {h}, hand := h)
  }

  lemma TakeKeeps(v: View, order: nat, h: nat, target: nat)
    requires Sound(v) && v.hand == -1 && Listed(v.areas, order, h) && order <= MAX_ORDER
    ensures v.areas[order].count > 0 && InHand(Take(v, order, h, target), h, order)
    ensures SameOwned(v, Take(v, order, h, target)) && Get(v.pages, h).free
  {
    DropOk(v.areas, order, h);
    var n := Take(v, order, h, target);
    assert ListAt(v, order, h) && PageAt(v, h);
    forall f: nat ensures PageAt(n, f) && SameAt(v, n, f) { assert PageAt(v, f); }
    forall o: nat, f: nat ensures ListAt(n, o, f) { assert ListAt(v, o, f); }
  }

  /** The block in hand becomes an allocated one. */
  ghost function Give(v: View, h: nat): View {
    var p := v.pages[h := Get(v.pages, h).(refcount := Get(v.pages, h).refcount + 1)];
    v.(pages := p[h := Get(p, h).(free := false)], hand := -1)
  }

  lemma GiveKeeps(v: View, h: nat, order: nat)
    requires InHand(v, h, order) && Get(v.pages, h).order == order
    ensures Sound(Give(v, h)) && h !in Owned(v) && Owned(Give(v, h)) == Owned(v)[h := order]
    ensures Get(Give(v, h).pages, h).refcount == 1
  {
    var n := Give(v, h);
    assert PageAt(v, h);
    forall f: nat ensures PageAt(n, f) && (OwnedAt(n, f) <==> OwnedAt(v, f) || f == h) { assert PageAt(v, f); }
    forall o: nat, f: nat ensures ListAt(n, o, f) { assert ListAt(v, o, f); }
  }

  lemma GrabKeeps(v: View, h: nat)
    requires Sound(v) && v.hand == -1 && h in Owned(v) && Get(v.pages, h).refcount == 0
    ensures InHand(v.(hand := h), h, Owned(v)[h]) && Owned(v.(hand := h)) == Owned(v) - {h}
  {
    var n := v.(hand := h);
    assert PageAt(v, h) && TileAt(v.tile, h);
    forall f: nat ensures PageAt(n, f) && (OwnedAt(n, f) <==> OwnedAt(v, f) && f != h) { assert PageAt(v, f); }
    forall o: nat, f: nat ensures ListAt(n, o, f) { assert ListAt(v, o, f); }
  }

  /** The block in hand goes on the free list of its order. */
  ghost function Finish(v: View, h: nat, order: nat): View
    requires order < |v.areas|
  {
    v.(pages := v.pages[h := Get(v.pages, h).(order := order, free := true)], areas := Push(v.areas, order, h), hand := -1)
  }

  lemma FinishKeeps(v: View, h: nat, order: nat)
    requires InHand(v, h, order)
    ensures Sound(Finish(v, h, order)) && SameOwned(v, Finish(v, h, order))
  {
    var n := Finish(v, h, order);
    assert PageAt(v, h) && ListAt(v, order, h);
    PushOk(v.areas, order, h);
    forall f: nat ensures PageAt(n, f) && SameAt(v, n, f) { assert PageAt(v, f); }
    forall o: nat, f: nat ensures ListAt(n, o, f) { assert ListAt(v, o, f); }
  }

  /** What buddy_check tests. */
  predicate Mergeable(pages: Pages, b: nat, order: nat) {
    Get(pages, b).present && Get(pages, b).free && Get(pages, b).order == order
  }

  /** The stored order of a created block is 0 whatever its true order, yet a buddy that passes the check truly
      has the order checked for and is on that list. */
  lemma BuddyMatches(v: View, h: nat, order: nat)
    requires InHand(v, h, order) && Mergeable(v.pages, BuddyPfn(h, order), order)
    ensures var b := BuddyPfn(h, order);
            b != h && b in v.tile && v.tile[b] == Block(b, order) && Listed(v.areas, order, b)
  {
    var b := BuddyPfn(h, order);
    assert TileAt(v.tile, h);
    BuddyIs(h, order);
    assert PageAt(v, b);
    assert TileAt(v.tile, b);
    assert v.tile[b].order > 0 ==> b % 2 == 0 && In(v.tile[b], b + 1);
  }

  /** The check finds every free buddy of the block in hand except one that was never handed out, of an order above 0. */
  lemma CheckExact(v: View, h: nat, order: nat)
    requires InHand(v, h, order)
    ensures var b := BuddyPfn(h, order);
            Mergeable(v.pages, b, order) <==> FreeBlock(v, Block(b, order)) && (order == 0 || b !in v.pristine)
  {
    var b := BuddyPfn(h, order);
    assert TileAt(v.tile, h) && PageAt(v, b);
    BuddyIs(h, order);
    if Mergeable(v.pages, b, order) { BuddyMatches(v, h, order); }
  }

  /** One turn of the coalescing loop: the block in hand h and its buddy b become the block at c. */
  ghost function Merge(v: View, h: nat, b: nat, c: nat, order: nat): View
    requires order < |v.areas| && v.areas[order].count > 0
  {
    var p := v.pages[h := Get(v.pages, h).(buddy := false)];
    var q := p[b := Get(p, b).(buddy := false)];
    var r := q[b := Get(q, b).(free := false)];
    View(r[c := Get(r, c).(buddy := true)], Drop(v.areas, order, b), MergeTile(v.tile, c, order), v.pristine - {b}, c)
  }

  /** The block in hand and a free buddy are the two halves of the aligned block at c. */
  ghost predicate Halves(v: View, h: nat, b: nat, c: nat, order: nat) {
    && InHand(v, h, order) && order < MAX_ORDER
    && !Get(v.pages, h).free && Get(v.pages, b).free && Listed(v.areas, order, b)
    && Aligned(c, order + 1)
    && ((c == h && b == c + Pow2(order)) || (c == b && h == c + Pow2(order)))
    && b in v.tile && v.tile[b] == Block(b, order)
  }

  lemma BuddyIsHalf(v: View, h: nat, order: nat)
    requires InHand(v, h, order) && order < MAX_ORDER && !Get(v.pages, h).free
    requires Mergeable(v.pages, BuddyPfn(h, order), order)
    ensures Halves(v, h, BuddyPfn(h, order), CombinedPfn(h, BuddyPfn(h, order)), order)
  {
    BuddyMatches(v, h, order);
    assert TileAt(v.tile, h);
    BuddyIs(h, order);
    if Aligned(h, order + 1) { CombinedIs(h, order); } else { CombinedIs(BuddyPfn(h, order), order); }
  }

  lemma MergePage(v: View, h: nat, b: nat, c: nat, order: nat, f: nat)
    requires Halves(v, h, b, c, order) && v.areas[order].count > 0
    ensures PageAt(Merge(v, h, b, c, order), f) && SameAt(v, Merge(v, h, b, c, order), f)
  {
    DropOk(v.areas, order, b);
    assert PageAt(v, f) && PageAt(v, h) && PageAt(v, b);
    if f in v.tile && f != c && f != c + Pow2(order) {
      MergeHeads(v.tile, c, order, f);
    } else {
      assert In(Block(c, order + 1), c) && In(Block(c, order + 1), c + Pow2(order));
    }
  }

  lemma MergeKeeps(v: View, h: nat, b: nat, c: nat, order: nat)
    requires Halves(v, h, b, c, order)
    ensures v.areas[order].count > 0
    ensures InHand(Merge(v, h, b, c, order), c, order + 1)
    ensures SameOwned(v, Merge(v, h, b, c, order))
    ensures !Get(Merge(v, h, b, c, order).pages, c).free
  {
    DropOk(v.areas, order, b);
    MergeOk(v.tile, c, order);
    var n := Merge(v, h, b, c, order);
    assert In(Block(c, order + 1), c);
    forall f: nat ensures PageAt(n, f) && SameAt(v, n, f) { MergePage(v, h, b, c, order, f); }
    forall o: nat, f: nat ensures ListAt(n, o, f) {
      assert ListAt(v, o, f) && ListAt(v, order, b);
      if f in v.tile && f != c && f != c + Pow2(order) { MergeHeads(v.tile, c, order, f); }
    }
  }

  ghost predicate FreeHead(v: View, f: nat) { Head(v.tile, f) && f != v.hand && Get(v.pages, f).free }

  ghost predicate FreeBlock(v: View, b: Block) { b.head in v.tile && v.tile[b.head] == b && FreeHead(v, b.head) }

  lemma SplitFree(v: View, h: nat, order: nat, f: nat)
    requires InHand(v, h, order) && order > 0
    ensures FreeHead(Split(v, h, order), f) <==> FreeHead(v, f) || f == h + Pow2(order - 1)
    ensures FreeHead(v, f) ==> f != h + Pow2(order - 1) && Split(v, h, order).tile[f] == v.tile[f]
    ensures f == h + Pow2(order - 1) ==> f in v.tile && Split(v, h, order).tile[f] == Block(f, order - 1)
  {
    var half := h + Pow2(order - 1);
    assert TileAt(v.tile, h) && In(v.tile[h], half);
    if f in v.tile && f != h && f != half { SplitHeads(v.tile, h, order, f); }
    assert In(Block(half, order - 1), half) && In(Block(h, order - 1), h);
  }

  lemma MergeFree(v: View, h: nat, b: nat, c: nat, order: nat, f: nat)
    requires Halves(v, h, b, c, order) && v.areas[order].count > 0
    ensures var n := Merge(v, h, b, c, order);
            (FreeHead(n, f) <==> FreeHead(v, f) && f != b) && (FreeHead(n, f) ==> n.tile[f] == v.tile[f])
  {
    if f in v.tile && f != c && f != c + Pow2(order) {
      MergeHeads(v.tile, c, order, f);
    } else {
      assert In(Block(c, order + 1), c) && In(Block(c, order + 1), c + Pow2(order));
    }
  }

  ghost predicate FreeFrame(v: View, f: nat) { f in v.tile && FreeHead(v, v.tile[f].head) }

  ghost predicate FreeRun(v: View, x: nat, order: nat) {
    Aligned(x, order) && forall f: nat {:trigger FreeFrame(v, f)} | In(Block(x, order), f) :: FreeFrame(v, f)
  }

  /** A newly allocated block was a run of free frames. */
  lemma FromFree(v: View, n: View, h: nat, order: nat)
    requires Sound(v) && Sound(n) && v.hand == -1 && n.hand == -1 && n.tile.Keys == v.tile.Keys
    requires h !in Owned(v) && Owned(n) == Owned(v)[h := order]
    ensures FreeRun(v, h, order)
  {
    assert h in Owned(n) && TileAt(n.tile, h);
    forall f: nat | In(Block(h, order), f) ensures FreeFrame(v, f) {
      assert f in n.tile.Keys && n.tile[f] == n.tile[h];
      HeadIs(v.tile, f);
      var x := v.tile[f].head;
      assert TileAt(v.tile, f) && TileAt(n.tile, x);
      assert x in Owned(v) ==> x in Owned(n);
    }
  }

  ghost predicate UncreatedAt(v: View, f: nat) { f !in v.tile && Get(v.pages, f).present }

  ghost predicate FreshBlock(v: View, b: Block) { forall f: nat {:trigger In(b, f)} | In(b, f) :: UncreatedAt(v, f) }

  ghost function Create(v: View, h: nat, order: nat): View
    requires order < |v.areas|
  {
    v.(pages := v.pages[h := Get(v.pages, h).(buddy := true, free := true)], areas := Push(v.areas, order, h),
       tile := AddTile(v.tile, Block(h, order)), pristine := v.pristine + {h})
  }

  lemma CreateKeeps(v: View, h: nat, order: nat)
    requires Sound(v) && v.hand == -1 && Aligned(h, order) && order <= MAX_ORDER
    requires FreshBlock(v, Block(h, order))
    ensures Sound(Create(v, h, order))
    ensures Owned(Create(v, h, order)) == Owned(v)
    ensures forall f | f in Owned(v) :: Get(Create(v, h, order).pages, f) == Get(v.pages, f)
  {
    var n, b := Create(v, h, order), Block(h, order);
    assert In(b, h);
    AddOk(v.tile, b);
    assert ListAt(v, order, h) && PageAt(v, h);
    PushOk(v.areas, order, h);
    forall f: nat ensures PageAt(n, f) && (OwnedAt(n, f) <==> OwnedAt(v, f)) { CreatePage(v, h, order, f); }
    forall o: nat, f: nat ensures ListAt(n, o, f) {
      assert ListAt(v, o, f);
      assert In(b, f) ==> UncreatedAt(v, f);
    }
  }

  lemma CreatePage(v: View, h: nat, order: nat, f: nat)
    requires Sound(v) && v.hand == -1 && order <= MAX_ORDER && FreshBlock(v, Block(h, order)) && !Listed(v.areas, order, h)
    ensures PageAt(Create(v, h, order), f) && (OwnedAt(Create(v, h, order), f) <==> OwnedAt(v, f))
  {
    PushOk(v.areas, order, h);
    assert PageAt(v, f) && In(Block(h, order), h);
    assert In(Block(h, order), f) ==> UncreatedAt(v, f);
  }

  lemma CreateFree(v: View, h: nat, order: nat, f: nat)
    requires Sound(v) && v.hand == -1 && order <= MAX_ORDER && FreshBlock(v, Block(h, order))
    ensures FreeHead(Create(v, h, order), f) <==> FreeHead(v, f) || f == h
    ensures FreeHead(v, f) ==> f != h && Create(v, h, order).tile[f] == v.tile[f]
    ensures f == h ==> Create(v, h, order).tile[f] == Block(h, order)
  {
    assert In(Block(h, order), h);
    assert In(Block(h, order), f) ==> UncreatedAt(v, f);
    assert PageAt(v, f);
  }

  /** Allocated blocks are aligned, created, and pairwise disjoint. */
  lemma OwnedDisjoint(v: View, a: nat, b: nat, f: nat)
    requires Sound(v) && a in Owned(v) && b in Owned(v)
    requires In(Block(a, Owned(v)[a]), f) && In(Block(b, Owned(v)[b]), f)
    ensures a == b && Aligned(a, Owned(v)[a]) && Owned(v)[a] <= MAX_ORDER && f in v.tile
  {
    BlockIs(v.tile, a);
    Inside(v.tile, a, f);
    Inside(v.tile, b, f);
  }

  /** Conservation: a created frame is free or in an allocated block, never both; no other frame is either. */
  lemma Conservation(v: View, f: nat)
    requires Sound(v) && v.hand == -1
    ensures f in v.tile <==> FreeFrame(v, f) || exists h :: h in Owned(v) && In(Block(h, Owned(v)[h]), f)
    ensures FreeFrame(v, f) ==> forall h | h in Owned(v) :: !In(Block(h, Owned(v)[h]), f)
  {
    if f in v.tile {
      HeadIs(v.tile, f);
      BlockIs(v.tile, f);
      var h := v.tile[f].head;
      assert !FreeHead(v, h) ==> h in Owned(v) && In(Block(h, Owned(v)[h]), f);
    }
    forall h | h in Owned(v) && In(Block(h, Owned(v)[h]), f) ensures f in v.tile && v.tile[f].head == h {
      Inside(v.tile, h, f);
    }
  }

  /** The flags tell: BUDDY marks the heads of blocks, FREE those of free blocks, which are on exactly the
      list of their true order; their stored order is that order, or 0 for a block never handed out. */
  lemma FlagsTell(v: View, f: nat, order: nat)
    requires Sound(v) && v.hand == -1
    ensures Get(v.pages, f).buddy <==> Head(v.tile, f)
    ensures Get(v.pages, f).free <==> FreeHead(v, f)
    ensures Listed(v.areas, order, f) <==> FreeHead(v, f) && v.tile[f].order == order
    ensures f in v.pristine ==> FreeHead(v, f)
    ensures FreeHead(v, f) ==> Get(v.pages, f).order == if f in v.pristine then 0 else v.tile[f].order
    ensures f in Owned(v) ==> Get(v.pages, f).order == Owned(v)[f]
  {
    assert PageAt(v, f) && ListAt(v, order, f);
  }
}
