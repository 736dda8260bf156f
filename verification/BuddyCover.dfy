/** The greedy cover of a range of frames by aligned blocks, and exactly when creating it leaves no
    two free buddies. */
module BuddyCover {
  import opened Bits
  import opened Tiling
  import opened BuddyView
  import opened BuddyTight

  /** The first whole frame at or above an address, and the frame an address ends below. */
  function FirstPfn(a: nat): nat { (a + 4095) / 4096 }

  function LastPfn(a: nat): nat { a / 4096 }

  /** All bytes of a frame lie in a range of physical addresses. */
  predicate FrameIn(start: nat, end: nat, f: nat) { start <= f * 4096 && (f + 1) * 4096 <= end }

  /** The frames a range of addresses gives are exactly those that lie in it as a whole. */
  lemma FramesOf(start: nat, end: nat, f: nat)
    ensures FirstPfn(start) <= f < LastPfn(end) <==> FrameIn(start, end, f)
  {}

  /** Four present frames, of which the first two, or all, are created in blocks of order 1. */
  ghost function FourFrames(): View {
    var blank := BLANK.(present := true);
    View(map[0 := blank, 1 := blank, 2 := blank, 3 := blank], seq(MAX_ORDER + 1, _ => FreeArea([], 0)), map[], {}, -1)
  }

  ghost function OnePair(): View { Create(FourFrames(), 0, 1) }

  ghost function TwoPairs(): View { Create(OnePair(), 2, 1) }

  lemma FourFramesOk()
    ensures Sound(FourFrames()) && FreshBlock(FourFrames(), Block(0, 1))
  {
    var v := FourFrames();
    assert Pow2(1) == 2;
    forall f: nat ensures TileAt(v.tile, f) && PageAt(v, f) {}
    forall o: nat, f: nat ensures ListAt(v, o, f) {}
  }

  lemma OnePairIs()
    ensures Sound(OnePair()) && FreeBlock(OnePair(), Block(0, 1)) && 0 in OnePair().pristine
    ensures FreshBlock(OnePair(), Block(2, 1))
  {
    FourFramesOk();
    assert Pow2(1) == 2;
    CreateKeeps(FourFrames(), 0, 1);
    CreateFree(FourFrames(), 0, 1, 0);
  }

  lemma TwoPairsIs()
    ensures Sound(TwoPairs()) && 0 in TwoPairs().pristine
    ensures FreeBlock(TwoPairs(), Block(0, 1)) && FreeBlock(TwoPairs(), Block(2, 1))
  {
    OnePairIs();
    assert Pow2(1) == 2;
    CreateKeeps(OnePair(), 2, 1);
    CreateFree(OnePair(), 2, 1, 0);
    CreateFree(OnePair(), 2, 1, 2);
  }

  /** Ranges that touch can spoil it: two blocks of order 1, created side by side, form an aligned free run that no
      list offers, and when one of them is in hand the check misses the other. */
  lemma TouchingRanges()
    ensures Spoils(OnePair(), 2, 4) && !NoBuddies(TwoPairs())
    ensures Sound(TwoPairs()) && FreeRun(TwoPairs(), 0, 2) && forall o | 2 <= o <= MAX_ORDER :: TwoPairs().areas[o].list == []
    ensures TwoPairs().areas[1].count > 0
    ensures var n := Take(TwoPairs(), 1, 2, 1);
            InHand(n, 2, 1) && FreeBlock(n, BuddyBlock(Block(2, 1))) && !Mergeable(n.pages, BuddyPfn(2, 1), 1)
  {
    var v := TwoPairs();
    TwoPairsIs();
    assert Pow2(1) == 2 && Pow2(2) == 4;
    forall f: nat | In(Block(0, 2), f) ensures FreeFrame(v, f) {
      if In(Block(0, 1), f) { Inside(v.tile, 0, f); } else { Inside(v.tile, 2, f); }
    }
    assert ListAt(v, 1, 2) && PageAt(v, 2);
    MissedBuddy(v);
    if NoBuddies(v) { RunIsListed(v, 0, 2); }
    OnePairIs();
    Inside(OnePair().tile, 0, 1);
    assert Aligned(0, 2);
    BuddyIs(0, 1);
    assert SpoiledAt(OnePair(), 2, 4, 1);
  }

  lemma MissedBuddy(v: View)
    requires Sound(v) && v.hand == -1 && 0 in v.pristine && FreeBlock(v, Block(0, 1)) && FreeBlock(v, Block(2, 1))
    ensures v.areas[1].count > 0
    ensures var n := Take(v, 1, 2, 1);
            InHand(n, 2, 1) && FreeBlock(n, BuddyBlock(Block(2, 1))) && !Mergeable(n.pages, BuddyPfn(2, 1), 1)
  {
    assert PageAt(v, 2);
    TakeKeeps(v, 1, 2, 1);
    assert Aligned(2, 1) && !Aligned(2, 2) && Pow2(1) == 2;
    BuddyIs(2, 1);
    CheckExact(Take(v, 1, 2, 1), 2, 1);
  }

  /** The largest aligned block that starts here and fits below the end. */
  ghost predicate Largest(at: nat, last: nat, order: nat) {
    && order <= MAX_ORDER && Aligned(at, order) && at + Pow2(order) <= last
    && (order == MAX_ORDER || !Aligned(at, order + 1) || at + Pow2(order + 1) > last)
  }

  /** A position reached from `first`: stepping back by its own alignment leaves the range, or stepping on does. */
  ghost predicate Reached(first: nat, last: nat, at: nat, j: nat) {
    Aligned(at, j) && !Aligned(at, j + 1) && j < MAX_ORDER ==> at < first + Pow2(j) || at + Pow2(j) > last
  }

  lemma NextReached(first: nat, last: nat, at: nat, order: nat, j: nat)
    requires first <= at && Largest(at, last, order) && Reached(first, last, at, order)
    ensures Reached(first, last, at + Pow2(order), j)
  {
    var next := at + Pow2(order);
    PlusAligned(at, order);
    if j < order {
      AlignedDown(next, order, j + 1);
    } else {
      PlusFlips(at, order);
      if j > order {
        Pow2Grows(order + 1, j);
        if Aligned(next, j) { AlignedDown(next, j, order + 1); }
      }
    }
  }

  /** The buddy of the block reaches over the first or the last frame of the range. */
  ghost predicate Sticks(b: Block, first: nat, last: nat) {
    b.order < MAX_ORDER ==> In(BuddyBlock(b), last) || (first > 0 && In(BuddyBlock(b), first - 1))
  }

  lemma StickOut(first: nat, last: nat, at: nat, order: nat)
    requires first <= at && Largest(at, last, order) && Reached(first, last, at, order)
    ensures Sticks(Block(at, order), first, last)
  {
    BuddyIs(at, order);
  }

  ghost predicate Uncreated(v: View, first: nat, last: nat) {
    forall f: nat {:trigger UncreatedAt(v, f)} | first <= f < last :: UncreatedAt(v, f)
  }

  ghost predicate NewAt(v: View, first: nat, last: nat, at: nat, f: nat) {
    f in v.tile && v.tile[f].head in v.pristine && Within(v.tile[f], first, at) && Sticks(v.tile[f], first, last)
  }

  ghost predicate OldAt(u: View, v: View, f: nat) {
    f in u.tile && f in v.tile && v.tile[f] == u.tile[f] && (FreeHead(v, f) <==> FreeHead(u, f)) && (f in v.pristine <==> f in u.pristine)
  }

  ghost predicate CoverAt(u: View, v: View, first: nat, last: nat, at: nat, f: nat) {
    if first <= f < at then NewAt(v, first, last, at, f)
    else if f in u.tile then OldAt(u, v, f)
    else f !in v.tile
  }

  ghost predicate AllReached(first: nat, last: nat, at: nat) {
    forall j: nat {:trigger Reached(first, last, at, j)} :: Reached(first, last, at, j)
  }

  /** Where the cover of a range has got to. */
  ghost predicate Covering(u: View, v: View, first: nat, last: nat, at: nat) {
    && Sound(u) && u.hand == -1 && Uncreated(u, first, last)
    && Sound(v) && v.hand == -1 && first <= at && (at <= last || at == first)
    && (forall f: nat {:trigger CoverAt(u, v, first, last, at, f)} :: CoverAt(u, v, first, last, at, f))
    && Uncreated(v, at, last) && AllReached(first, last, at)
    && Owned(v) == Owned(u)
    && (forall f | f in Owned(u) :: Get(v.pages, f) == Get(u.pages, f))
  }

  lemma AllNextReached(first: nat, last: nat, at: nat, order: nat, next: nat)
    requires first <= at && Largest(at, last, order) && AllReached(first, last, at) && next == at + Pow2(order)
    ensures AllReached(first, last, next)
  {
    assert Reached(first, last, at, order);
    forall j: nat ensures Reached(first, last, next, j) { NextReached(first, last, at, order, j); }
  }

  lemma CoverStep(u: View, v: View, first: nat, last: nat, at: nat, order: nat, next: nat)
    requires Covering(u, v, first, last, at) && Largest(at, last, order) && next == at + Pow2(order)
    ensures Covering(u, Create(v, at, order), first, last, next)
  {
    var n, b := Create(v, at, order), Block(at, order);
    assert FreshBlock(v, b) by { forall f: nat | In(b, f) ensures UncreatedAt(v, f) {} }
    CreateKeeps(v, at, order);
    forall f: nat ensures CoverAt(u, n, first, last, next, f) { CoverFrame(u, v, first, last, at, order, next, f); }
    forall f: nat | next <= f < last ensures UncreatedAt(n, f) {
      assert UncreatedAt(v, f) && !In(b, f);
    }
    AllNextReached(first, last, at, order, next);
  }

  lemma CoverFrame(u: View, v: View, first: nat, last: nat, at: nat, order: nat, next: nat, f: nat)
    requires Covering(u, v, first, last, at) && Largest(at, last, order) && next == at + Pow2(order)
    requires FreshBlock(v, Block(at, order))
    ensures CoverAt(u, Create(v, at, order), first, last, next, f)
  {
    var b := Block(at, order);
    assert CoverAt(u, v, first, last, at, f) && Reached(first, last, at, order);
    assert In(b, f) <==> at <= f < next;
    StickOut(first, last, at, order);
    CreateFree(v, at, order, f);
  }

  lemma CoverStart(u: View, first: nat, last: nat)
    requires Sound(u) && u.hand == -1 && Uncreated(u, first, last)
    ensures Covering(u, u, first, last, first)
  {
    forall f: nat ensures CoverAt(u, u, first, last, first, f) {}
    forall j: nat ensures Reached(first, last, first, j) {}
  }

  /** The whole range is covered. */
  ghost predicate Covered(u: View, v: View, first: nat, last: nat, at: nat) {
    Covering(u, v, first, last, at) && at == if first < last then last else first
  }

  lemma CoverEnd(u: View, v: View, first: nat, last: nat, at: nat)
    requires Covered(u, v, first, last, at)
    ensures forall f: nat :: f in v.tile <==> f in u.tile || first <= f < last
    ensures forall f: nat | first <= f < last :: FreeFrame(v, f)
  {
    forall f: nat ensures (f in v.tile <==> f in u.tile || first <= f < last) && (first <= f < last ==> FreeFrame(v, f)) {
      CoverIs(u, v, first, last, at, f);
    }
  }

  lemma CoverIs(u: View, v: View, first: nat, last: nat, at: nat, f: nat)
    requires Covered(u, v, first, last, at)
    ensures if first <= f < last then NewAt(v, first, last, at, f) && FreeFrame(v, f) && f !in u.tile
            else if f in u.tile then OldAt(u, v, f) else f !in v.tile
  {
    assert CoverAt(u, v, first, last, at, f) && (first <= f < last ==> UncreatedAt(u, f));
    if first <= f < last {
      HeadIs(v.tile, f);
      assert PageAt(v, v.tile[f].head);
    }
  }

  /** The aligned blocks of the range whose buddies leave it are the blocks of the cover. */
  lemma CoverBlock(u: View, v: View, first: nat, last: nat, at: nat, b: Block)
    requires Covered(u, v, first, last, at)
    requires Aligned(b.head, b.order) && b.order < MAX_ORDER && Within(b, first, last) && !Within(BuddyBlock(b), first, last)
    ensures b.head in v.tile && v.tile[b.head] == b && FreeHead(v, b.head) && b.head in v.pristine
  {
    CoverIs(u, v, first, last, at, b.head);
    var d := v.tile[b.head];
    BlockIs(v.tile, b.head);
    if d.order > b.order {
      BuddyInside(d, b);
    } else if d.order < b.order {
      assert In(b, b.head);
      Contains(b, d.head, d.order, b.head);
      BuddyInside(b, d);
    } else {
      HeadOf(v.tile, b.head, b.order);
    }
  }

  /** A free block of the zone at the frame reaches the range, and its buddy lies in the range. */
  ghost predicate SpoiledAt(u: View, first: nat, last: nat, x: nat) {
    FreeFrame(u, x) && u.tile[x].order < MAX_ORDER && Within(BuddyBlock(u.tile[x]), first, last)
  }

  /** What a caller can check before creating a range: whether a free neighbour finds its buddy in it. */
  ghost predicate Spoils(u: View, first: nat, last: nat) {
    SpoiledAt(u, first, last, last) || (first > 0 && SpoiledAt(u, first, last, first - 1))
  }

  lemma NewBuddy(u: View, v: View, first: nat, last: nat, at: nat, f: nat)
    requires Covered(u, v, first, last, at) && first <= f < last
    requires FreeHead(v, f) && v.tile[f].order < MAX_ORDER && FreeBlock(v, BuddyBlock(v.tile[f]))
    ensures Spoils(u, first, last)
  {
    CoverIs(u, v, first, last, at, f);
    var b := BuddyBlock(v.tile[f]);
    BuddyTwice(v.tile[f]);
    var x := if In(b, last) then last else first - 1;
    Inside(v.tile, b.head, x);
    CoverIs(u, v, first, last, at, x);
    HeadIs(u.tile, x);
    CoverIs(u, v, first, last, at, b.head);
    assert SpoiledAt(u, first, last, x);
  }

  lemma OldBuddy(u: View, v: View, first: nat, last: nat, at: nat, f: nat)
    requires Covered(u, v, first, last, at) && NoBuddies(u) && !Spoils(u, first, last)
    ensures BuddyAt(v, f)
  {
    assert BuddyAt(u, f);
    if FreeHead(v, f) && v.tile[f].order < MAX_ORDER && FreeBlock(v, BuddyBlock(v.tile[f])) {
      var c := BuddyBlock(v.tile[f]).head;
      BuddyTwice(v.tile[f]);
      CoverIs(u, v, first, last, at, f);
      CoverIs(u, v, first, last, at, c);
      if first <= f < last {
        NewBuddy(u, v, first, last, at, f);
      } else if first <= c < last {
        NewBuddy(u, v, first, last, at, c);
      }
    }
  }

  lemma SpoiledPair(u: View, v: View, first: nat, last: nat, at: nat, x: nat)
    requires Covered(u, v, first, last, at) && SpoiledAt(u, first, last, x) && (x == last || x + 1 == first)
    ensures !NoBuddies(v)
  {
    var b := u.tile[x];
    BlockIs(u.tile, x);
    BuddyTwice(b);
    HeadIs(u.tile, x);
    BuddyAligned(b.head, b.order);
    CoverBlock(u, v, first, last, at, BuddyBlock(b));
    CoverIs(u, v, first, last, at, b.head);
    assert !BuddyAt(v, b.head);
  }

  /** From a zone without free buddies, creating a range leaves none exactly when no free neighbour has its buddy in it. */
  lemma CreatedExactly(u: View, v: View, first: nat, last: nat, at: nat)
    requires Covered(u, v, first, last, at) && NoBuddies(u)
    ensures NoBuddies(v) <==> !Spoils(u, first, last)
  {
    if SpoiledAt(u, first, last, last) {
      SpoiledPair(u, v, first, last, at, last);
    } else if first > 0 && SpoiledAt(u, first, last, first - 1) {
      SpoiledPair(u, v, first, last, at, first - 1);
    } else {
      forall f: nat ensures BuddyAt(v, f) { OldBuddy(u, v, first, last, at, f); }
    }
  }

  /** A frame of the block that is created neither before nor with the range. */
  ghost predicate OpenAt(t: Tile, b: Block, first: nat, last: nat, g: nat) { GapAt(t, b, g) && !(first <= g < last) }

  ghost predicate StaysOpen(t: Tile, b: Block, first: nat, last: nat) { exists g: nat :: OpenAt(t, b, first, last, g) }

  ghost predicate OldOpenAt(u: View, first: nat, last: nat, f: nat) {
    f in u.pristine && f in u.tile && 0 < u.tile[f].order < MAX_ORDER ==> StaysOpen(u.tile, BuddyBlock(u.tile[f]), first, last)
  }

  ghost predicate NewOpenAt(u: View, first: nat, last: nat, b: Block) {
    Aligned(b.head, b.order) && 0 < b.order < MAX_ORDER && Within(b, first, last) && !Within(BuddyBlock(b), first, last) ==>
      StaysOpen(u.tile, BuddyBlock(b), first, last)
  }

  /** The range completes no buddy: no free neighbour has its buddy in it, and each block of stored order 0, old or new,
      keeps a buddy with a frame missing. */
  ghost predicate Clear(u: View, first: nat, last: nat) {
    && !Spoils(u, first, last)
    && (forall f: nat {:trigger OldOpenAt(u, first, last, f)} :: OldOpenAt(u, first, last, f))
    && (forall b: Block {:trigger NewOpenAt(u, first, last, b)} :: NewOpenAt(u, first, last, b))
  }

  lemma OpenIs(u: View, v: View, first: nat, last: nat, at: nat, b: Block)
    requires Covered(u, v, first, last, at)
    ensures StaysOpen(u.tile, b, first, last) <==> Incomplete(v.tile, b)
  {
    if StaysOpen(u.tile, b, first, last) {
      var g: nat :| OpenAt(u.tile, b, first, last, g);
      CoverIs(u, v, first, last, at, g);
      assert GapAt(v.tile, b, g);
    }
    if Incomplete(v.tile, b) {
      var g: nat :| GapAt(v.tile, b, g);
      CoverIs(u, v, first, last, at, g);
      assert OpenAt(u.tile, b, first, last, g);
    }
  }

  lemma ClearPristine(u: View, v: View, first: nat, last: nat, at: nat, f: nat)
    requires Covered(u, v, first, last, at) && Clear(u, first, last)
    ensures PristineAt(v, f)
  {
    if f in v.pristine && f in v.tile && 0 < v.tile[f].order < MAX_ORDER {
      var b := v.tile[f];
      BlockIs(v.tile, f);
      assert PageAt(v, f);
      OpenIs(u, v, first, last, at, BuddyBlock(b));
      CoverIs(u, v, first, last, at, f);
      if first <= f < last {
        assert NewOpenAt(u, first, last, b);
      } else {
        assert OldOpenAt(u, first, last, f);
      }
    }
  }

  lemma PristineClear(u: View, v: View, first: nat, last: nat, at: nat, f: nat, b: Block)
    requires Covered(u, v, first, last, at) && Tight(v)
    ensures OldOpenAt(u, first, last, f) && NewOpenAt(u, first, last, b)
  {
    CoverIs(u, v, first, last, at, f);
    assert PristineAt(v, f);
    if f in u.tile { OpenIs(u, v, first, last, at, BuddyBlock(u.tile[f])); }
    if Aligned(b.head, b.order) && 0 < b.order < MAX_ORDER && Within(b, first, last) && !Within(BuddyBlock(b), first, last) {
      CoverBlock(u, v, first, last, at, b);
      assert PristineAt(v, b.head);
      OpenIs(u, v, first, last, at, BuddyBlock(b));
    }
  }

  /** A tight zone stays tight exactly when the range is clear. */
  lemma TightExactly(u: View, v: View, first: nat, last: nat, at: nat)
    requires Covered(u, v, first, last, at) && Tight(u)
    ensures Tight(v) <==> Clear(u, first, last)
  {
    CreatedExactly(u, v, first, last, at);
    if Clear(u, first, last) {
      forall f: nat ensures PristineAt(v, f) { ClearPristine(u, v, first, last, at, f); }
    }
    if Tight(v) {
      forall f: nat ensures OldOpenAt(u, first, last, f) { PristineClear(u, v, first, last, at, f, Block(0, 0)); }
      forall b: Block ensures NewOpenAt(u, first, last, b) { PristineClear(u, v, first, last, at, 0, b); }
    }
  }
}
