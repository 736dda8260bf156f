/** The zone of the buddy allocator: power-of-two blocks of page frames on one free list per
    order, split on demand and merged with their buddies when freed.  A ghost tiling runs beside the
    array of page structures and the free lists. */
module Buddy {
  import opened Wrappers
  import opened Bits
  import opened IntrusiveList
  import opened Tiling
  import opened BuddyView
  import opened BuddyTight
  import opened BuddyCover

  ghost predicate FirstOn(areas: seq<FreeArea>, order: nat, h: nat) {
    order < |areas| && areas[order].list != [] && areas[order].list[0] == h
  }

  /** The block is the first of the smallest non-empty list of at least the order. */
  ghost predicate SmallestFirst(areas: seq<FreeArea>, order: nat, h: nat) {
    exists o: nat :: FirstOn(areas, o, h) && order <= o && forall p | order <= p < o :: areas[p].list == []
  }

  class Zone {
    var pages: Pages
    var areas: seq<FreeArea>
    ghost var tile: Tile
    ghost var pristine: set<nat>

    ghost function ViewOf(hand: int): View
      reads this
    {
      View(pages, areas, tile, pristine, hand)
    }

    ghost predicate Valid()
      reads this
    {
      Sound(ViewOf(-1))
    }

    method AddPages(order: nat, pfn: nat)
      requires order < |areas|
      modifies this`pages, this`areas
      ensures pages == old(pages[pfn := Get(pages, pfn).(free := true)])
      ensures areas == old(Push(areas, order, pfn))
    {
      areas := areas[order := FreeArea([pfn] + areas[order].list, areas[order].count + 1)];
      pages := pages[pfn := Get(pages, pfn).(free := true)];
    }

    method DelPages(order: nat, pfn: nat)
      requires order < |areas| && areas[order].count >= 1 && Get(pages, pfn).free
      modifies this`pages, this`areas
      ensures pages == old(pages[pfn := Get(pages, pfn).(free := false)])
      ensures areas == old(Drop(areas, order, pfn))
    {
      areas := areas[order := FreeArea(Unlink(areas[order].list, pfn), areas[order].count - 1)];
      pages := pages[pfn := Get(pages, pfn).(free := false)];
    }

    /** Lists the upper half of the block in hand. */
    method ListHalf(pfn: nat, half: nat, order: nat)
      requires InHand(ViewOf(pfn), pfn, order + 1) && half == pfn + Pow2(order)
      modifies this
      ensures InHand(ViewOf(pfn), pfn, order) && Keeps(old(ViewOf(pfn)), ViewOf(pfn))
      ensures Get(pages, pfn) == old(Get(pages, pfn))
    {
      SplitStep(ViewOf(pfn), pfn, order + 1);
      pages := pages[half := Get(pages, half).(order := order)];
      pages := pages[half := Get(pages, half).(buddy := true)];
      AddPages(order, half);
      tile := SplitTile(tile, pfn, order + 1);
      assert ViewOf(pfn) == old(Split(ViewOf(pfn), pfn, order + 1));
    }

    /** Splits the block in hand down to the target order. */
    method Expand(pfn: nat, from: nat, target: nat)
      requires InHand(ViewOf(pfn), pfn, from) && target <= from
      modifies this
      ensures InHand(ViewOf(pfn), pfn, target)
      ensures Keeps(old(ViewOf(pfn)), ViewOf(pfn))
      ensures Get(pages, pfn) == old(Get(pages, pfn))
    {
      var offset, order := Pow2(from), from;
      KeepsSelf(ViewOf(pfn));
      while order > target
        invariant target <= order <= from && offset == Pow2(order)
        invariant InHand(ViewOf(pfn), pfn, order)
        invariant Keeps(old(ViewOf(pfn)), ViewOf(pfn))
        invariant Get(pages, pfn) == old(Get(pages, pfn))
      {
        ghost var v := ViewOf(pfn);
        offset, order := offset / 2, order - 1;
        ListHalf(pfn, pfn + offset, order);
        KeepsThen(old(ViewOf(pfn)), v, ViewOf(pfn));
      }
    }

    /** Finds the smallest large enough block and takes it in hand, split down to the order asked for. */
    method GetFreePages(order: nat) returns (r: Option<nat>)
      requires Valid()
      modifies this
      ensures r.None? ==> unchanged(this) && forall o | order <= o <= MAX_ORDER :: areas[o].list == []
      ensures r.Some? ==> order <= MAX_ORDER && InHand(ViewOf(r.value), r.value, order)
      ensures r.Some? ==> Keeps(old(ViewOf(-1)), ViewOf(r.value))
      ensures r.Some? ==> Get(pages, r.value).order == order && Get(pages, r.value).free
      ensures r.Some? ==> SmallestFirst(old(areas), order, r.value)
    {
      var current := order;
      while current <= MAX_ORDER
        invariant order <= current
        invariant unchanged(this)
        invariant forall o | order <= o < current && o <= MAX_ORDER :: areas[o].list == []
      {
        if areas[current].list != [] {
          var pfn := Pop(current, order);
          assert FirstOn(old(areas), current, pfn);
          ghost var v := ViewOf(pfn);
          KeepsSelf(v);
          if current > order { Expand(pfn, current, order); }
          KeepsThen(old(ViewOf(-1)), v, ViewOf(pfn));
          assert PageAt(ViewOf(pfn), pfn);
          return Some(pfn);
        }
        current := current + 1;
      }
      return None;
    }

    /** Takes the first block off a list. */
    method Pop(order: nat, target: nat) returns (pfn: nat)
      requires Valid() && order <= MAX_ORDER && areas[order].list != []
      modifies this
      ensures InHand(ViewOf(pfn), pfn, order) && pfn == old(areas[order].list[0])
      ensures Keeps(old(ViewOf(-1)), ViewOf(pfn))
      ensures Get(pages, pfn).order == target && Get(pages, pfn).free
    {
      ghost var v := ViewOf(-1);
      pfn := areas[order].list[0];
      TakeStep(v, order, pfn, target);
      assert areas[order].count != 0;
      areas := areas[order := FreeArea(areas[order].list[1..], areas[order].count - 1)];
      pages := pages[pfn := Get(pages, pfn).(order := target)];
      pristine := pristine - {pfn};
      assert ViewOf(pfn) == Take(v, order, pfn, target);
    }


    /** buddy_check on the buddy of the block in hand: it is found exactly if it is a free block of the same true order,
        unless that is above 0 and the block was never handed out; the assertion that it has no users cannot fail. */
    method BuddyCheck(pfn: nat, buddy: nat, order: nat) returns (r: bool)
      requires InHand(ViewOf(pfn), pfn, order) && buddy == BuddyPfn(pfn, order)
      ensures r <==> FreeBlock(ViewOf(pfn), Block(buddy, order)) && (order == 0 || buddy !in pristine)
      ensures r ==> buddy in areas[order].list && Get(pages, buddy).refcount == 0
    {
      CheckExact(ViewOf(pfn), pfn, order);
      if !Get(pages, buddy).present { return false; }
      if !Get(pages, buddy).free { return false; }
      if Get(pages, buddy).order != order { return false; }
      assert PageAt(ViewOf(pfn), buddy);
      assert Get(pages, buddy).refcount == 0;
      return true;
    }

    /** Joins the block in hand with its buddy. */
    method Join(pfn: nat, buddy: nat, order: nat) returns (c: nat)
      requires order < |areas| && areas[order].count > 0 && Get(pages, buddy).free && buddy != pfn
      modifies this
      ensures c == CombinedPfn(pfn, buddy)
      ensures ViewOf(c) == old(Merge(ViewOf(pfn), pfn, buddy, c, order))
    {
      pages := pages[pfn := Get(pages, pfn).(buddy := false)];
      pages := pages[buddy := Get(pages, buddy).(buddy := false)];
      DelPages(order, buddy);
      c := CombinedPfn(pfn, buddy);
      pages := pages[c := Get(pages, c).(buddy := true)];
      tile, pristine := MergeTile(tile, c, order), pristine - {buddy};
    }

    /** Merges the block in hand upwards as far as buddies are free. */
    method Coalesce(head: nat, from: nat) returns (pfn: nat, order: nat)
      requires InHand(ViewOf(head), head, from) && !Get(pages, head).free
      modifies this
      ensures InHand(ViewOf(pfn), pfn, order) && Keeps(old(ViewOf(head)), ViewOf(pfn)) && Stays(old(ViewOf(head)), ViewOf(pfn))
      ensures In(Block(pfn, order), head)
      ensures order == MAX_ORDER || order == 0 || BuddyPfn(pfn, order) in pristine || !FreeBlock(ViewOf(pfn), BuddyBlock(Block(pfn, order)))
      ensures order == MAX_ORDER || !Mergeable(pages, BuddyPfn(pfn, order), order)
    {
      pfn, order := head, from;
      KeepsSelf(ViewOf(head));
      forall f: nat ensures StaysAt(ViewOf(head), ViewOf(head), f) {}
      while order < MAX_ORDER
        invariant InHand(ViewOf(pfn), pfn, order) && !Get(pages, pfn).free && In(Block(pfn, order), head)
        invariant Keeps(old(ViewOf(head)), ViewOf(pfn)) && Stays(old(ViewOf(head)), ViewOf(pfn))
      {
        var buddy := BuddyPfn(pfn, order);
        var ok := BuddyCheck(pfn, buddy, order);
        CheckExact(ViewOf(pfn), pfn, order);
        if !ok { return; }
        ghost var v := ViewOf(pfn);
        BuddyIsHalf(v, pfn, order);
        MergeFurther(old(ViewOf(head)), v, pfn, buddy, CombinedPfn(pfn, buddy), order, head);
        pfn := Join(pfn, buddy, order);
        order := order + 1;
      }
    }

    /** Returns an allocated block to the free lists. */
    method FreePages(head: nat)
      requires Valid() && head in Owned(ViewOf(-1)) && Get(pages, head).refcount == 0
      modifies this
      ensures Valid() && tile.Keys == old(tile.Keys)
      ensures Owned(ViewOf(-1)) == old(Owned(ViewOf(-1))) - {head}
      ensures FreeRun(ViewOf(-1), head, old(Owned(ViewOf(-1))[head]))
      ensures forall f | f in Owned(ViewOf(-1)) :: Get(pages, f) == old(Get(pages, f))
      ensures old(Tight(ViewOf(-1))) ==> Tight(ViewOf(-1))
      ensures Stays(old(ViewOf(-1)), ViewOf(-1))
      ensures head in tile && FirstOn(areas, tile[head].order, tile[head].head)
    {
      ghost var start := ViewOf(head);
      GrabKeeps(ViewOf(-1), head);
      if Tight(ViewOf(-1)) { GrabTight(ViewOf(-1), head); }
      assert PageAt(ViewOf(-1), head);
      assert Get(pages, head).present && !Get(pages, head).free;
      var pfn, order := Coalesce(head, Get(pages, head).order);
      ghost var v := ViewOf(pfn);
      FinishStep(v, pfn, order);
      Inside(tile, pfn, head);
      Finally(pfn, order);
      KeepsThen(start, v, ViewOf(-1));
      SameIs(start, ViewOf(-1));
      FromFree(ViewOf(-1), old(ViewOf(-1)), head, old(Owned(ViewOf(-1))[head]));
      forall f: nat ensures StaysAt(old(ViewOf(-1)), ViewOf(-1), f) { assert StaysAt(start, v, f); }
    }

    /** A zone that is not tight is found out by freeing alone: once every block in the buddy of a block of wrong stored
        order is freed, there are free buddies. */
    method FreeAround(f: nat, order: nat)
      requires Valid() && f in pristine && f in tile && tile[f] == Block(f, order) && 0 < order < MAX_ORDER
      requires !Incomplete(tile, BuddyBlock(Block(f, order)))
      modifies this
      ensures Valid() && tile.Keys == old(tile.Keys) && !NoBuddies(ViewOf(-1))
    {
      var at, end := BuddyPfn(f, order), BuddyPfn(f, order) + Pow2(order);
      ghost var b := Block(f, order);
      while at < end
        invariant BuddyBlock(b).head <= at <= end
        invariant Valid() && tile.Keys == old(tile.Keys) && f in pristine && f in tile && tile[f] == b
        invariant forall g: nat | BuddyBlock(b).head <= g < at :: FreeFrame(ViewOf(-1), g)
      {
        assert !GapAt(old(tile), BuddyBlock(b), at);
        var owned := HasManagementOver(at);
        if owned { Release(at, f); } else { FreeNext(ViewOf(-1), b, at); }
        at := at + 1;
      }
      assert PageAt(ViewOf(-1), f);
      WholeBuddy(ViewOf(-1), b);
    }

    /** The last user of an allocated block lets go of it. */
    method Release(head: nat, ghost f: nat)
      requires Valid() && head in Owned(ViewOf(-1)) && f in pristine && f in tile && tile[f].order > 0
      modifies this
      ensures Valid() && tile.Keys == old(tile.Keys) && f in pristine && f in tile && tile[f] == old(tile[f])
      ensures FreeFrame(ViewOf(-1), head) && forall g: nat | old(FreeFrame(ViewOf(-1), g)) :: FreeFrame(ViewOf(-1), g)
    {
      ghost var v := ViewOf(-1);
      UserPage(v, head, 0, Get(pages, head).local);
      pages := pages[head := Get(pages, head).(refcount := 0)];
      ghost var u := ViewOf(-1);
      assert u == v.(pages := v.pages[head := Get(v.pages, head).(refcount := 0, local := Get(v.pages, head).local)]);
      FreePages(head);
      assert StaysAt(u, ViewOf(-1), f);
      assert In(Block(head, Owned(v)[head]), head);
      forall g: nat | FreeFrame(v, g) ensures FreeFrame(ViewOf(-1), g) { FewerOwned(v, ViewOf(-1), g); }
    }

    method Finally(pfn: nat, order: nat)
      requires order < |areas|
      modifies this
      ensures ViewOf(-1) == old(Finish(ViewOf(pfn), pfn, order))
    {
      pages := pages[pfn := Get(pages, pfn).(order := order)];
      AddPages(order, pfn);
    }

    /** alloc_order: one aligned block of exactly the order asked for, out of free space. */
    method AllocOrder(order: nat) returns (r: Option<nat>)
      requires Valid()
      modifies this
      ensures Valid() && tile.Keys == old(tile.Keys)
      ensures r.None? ==> unchanged(this) && forall o | order <= o <= MAX_ORDER :: areas[o].list == []
      ensures r.Some? ==> FreeRun(old(ViewOf(-1)), r.value, order)
      ensures old(NoBuddies(ViewOf(-1))) && r.None? && order <= MAX_ORDER ==> forall x: nat :: !FreeRun(old(ViewOf(-1)), x, order)
      ensures r.Some? ==> order <= MAX_ORDER && r.value !in old(Owned(ViewOf(-1))) && Get(pages, r.value).refcount == 1
      ensures r.Some? ==> SmallestFirst(old(areas), order, r.value)
      ensures r.Some? ==> Owned(ViewOf(-1)) == old(Owned(ViewOf(-1)))[r.value := order]
      ensures forall f | f in old(Owned(ViewOf(-1))) :: Get(pages, f) == old(Get(pages, f))
      ensures old(Tight(ViewOf(-1))) ==> Tight(ViewOf(-1))
    {
      r := GetFreePages(order);
      if r.Some? {
        var h := r.value;
        ghost var v := ViewOf(h);
        GiveKeeps(v, h, order);
        if Tight(v) { GiveTight(v, h, order); }
        SameIs(old(ViewOf(-1)), v);
        pages := pages[h := Get(pages, h).(refcount := Get(pages, h).refcount + 1)];
        pages := pages[h := Get(pages, h).(free := false)];
        assert ViewOf(-1) == Give(v, h);
        FromFree(old(ViewOf(-1)), ViewOf(-1), h, order);
      } else if order <= MAX_ORDER && NoBuddies(ViewOf(-1)) {
        forall x: nat ensures !FreeRun(ViewOf(-1), x, order) {
          if FreeRun(ViewOf(-1), x, order) { RunIsListed(ViewOf(-1), x, order); }
        }
      }
    }


    /** The zone before any frame is created; which frames are present is told by the page array. */
    constructor (pages: Pages)
      requires forall f | f in pages :: pages[f] == BLANK.(present := pages[f].present)
      ensures Valid() && tile == map[] && Tight(ViewOf(-1)) && |areas| == 11
      ensures this.pages == pages
    {
      this.pages := pages;
      areas := seq(MAX_ORDER + 1, _ => FreeArea([], 0));
      tile, pristine := map[], {};
      new;
      forall f: nat ensures PageAt(ViewOf(-1), f) && BuddyAt(ViewOf(-1), f) && PristineAt(ViewOf(-1), f) {}
      forall f: nat ensures TileAt(tile, f) {}
      forall o: nat, f: nat ensures ListAt(ViewOf(-1), o, f) {}
    }

    /** has_management_over: exactly the heads of allocated blocks. */
    method HasManagementOver(pfn: nat) returns (r: bool)
      requires Valid()
      ensures r <==> pfn in Owned(ViewOf(-1))
    {
      assert PageAt(ViewOf(-1), pfn);
      return !Get(pages, pfn).free && Get(pages, pfn).buddy;
    }

    /** One block of the cover of [first, last). */
    method CreateBlock(pfn: nat, order: nat, ghost u: View, ghost first: nat, ghost last: nat)
      requires Covering(u, ViewOf(-1), first, last, pfn) && Largest(pfn, last, order)
      modifies this
      ensures Covering(u, ViewOf(-1), first, last, pfn + Pow2(order))
    {
      CoverStep(u, ViewOf(-1), first, last, pfn, order, pfn + Pow2(order));
      pages := pages[pfn := Get(pages, pfn).(buddy := true)];
      AddPages(order, pfn);
      tile, pristine := AddTile(tile, Block(pfn, order)), pristine + {pfn};
      assert ViewOf(-1) == old(Create(ViewOf(-1), pfn, order));
    }

    /** The order create_pages chooses at a position. */
    method ChooseOrder(at: nat, last: nat) returns (order: nat)
      requires at < last
      ensures Largest(at, last, order)
    {
      var zeros := TrailingZeros(at);
      order := if zeros < MAX_ORDER then zeros else MAX_ORDER;
      TrailingZerosAligns(at, order);
      if at > 0 { TrailingZerosExact(at); }
      while at + Pow2(order) > last
        invariant order <= MAX_ORDER && Aligned(at, order)
        invariant order == MAX_ORDER || !Aligned(at, order + 1) || at + Pow2(order + 1) > last
      {
        HalfAligned(at, order);
        order := order - 1;
      }
    }

    /** Frames [first, last) become free, in aligned blocks. */
    method CreateFrames(first: nat, last: nat)
      requires Valid() && Uncreated(ViewOf(-1), first, last)
      modifies this
      ensures Valid()
      ensures forall f: nat :: f in tile <==> f in old(tile) || first <= f < last
      ensures forall f: nat | first <= f < last :: FreeFrame(ViewOf(-1), f)
      ensures Owned(ViewOf(-1)) == old(Owned(ViewOf(-1)))
      ensures forall f | f in Owned(ViewOf(-1)) :: Get(pages, f) == old(Get(pages, f))
      ensures old(NoBuddies(ViewOf(-1))) ==> (NoBuddies(ViewOf(-1)) <==> !old(Spoils(ViewOf(-1), first, last)))
      ensures old(Tight(ViewOf(-1))) ==> (Tight(ViewOf(-1)) <==> old(Clear(ViewOf(-1), first, last)))
    {
      var at := first;
      ghost var u := ViewOf(-1);
      CoverStart(u, first, last);
      while at < last
        invariant Covering(u, ViewOf(-1), first, last, at)
      {
        var order := ChooseOrder(at, last);
        CreateBlock(at, order, u, first, last);
        at := at + Pow2(order);
      }
      CoverEnd(u, ViewOf(-1), first, last, at);
      if NoBuddies(u) { CreatedExactly(u, ViewOf(-1), first, last, at); }
      if Tight(u) { TightExactly(u, ViewOf(-1), first, last, at); }
    }

    /** create_pages over a physical address range: exactly the frames that lie in it as a whole become free. */
    method CreatePages(start: nat, end: nat)
      requires Valid() && forall f: nat | FrameIn(start, end, f) :: UncreatedAt(ViewOf(-1), f)
      modifies this
      ensures Valid()
      ensures forall f: nat :: f in tile <==> f in old(tile) || FrameIn(start, end, f)
      ensures forall f: nat | FrameIn(start, end, f) :: FreeFrame(ViewOf(-1), f)
      ensures Owned(ViewOf(-1)) == old(Owned(ViewOf(-1)))
      ensures forall f | f in Owned(ViewOf(-1)) :: Get(pages, f) == old(Get(pages, f))
      ensures old(NoBuddies(ViewOf(-1))) ==> (NoBuddies(ViewOf(-1)) <==> !old(Spoils(ViewOf(-1), FirstPfn(start), LastPfn(end))))
      ensures old(Tight(ViewOf(-1))) ==> (Tight(ViewOf(-1)) <==> old(Clear(ViewOf(-1), FirstPfn(start), LastPfn(end))))
    {
      forall f: nat ensures FirstPfn(start) <= f < LastPfn(end) <==> FrameIn(start, end, f) { FramesOf(start, end, f); }
      CreateFrames(FirstPfn(start), LastPfn(end));
    }
  }
}
