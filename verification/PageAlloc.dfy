/** The global page allocator over the buddy zone: per-CPU lists cache small blocks, larger ones go to
    the zone directly, and `Page` handles share a block through its reference count.

    Every allocated block of the zone is at exactly one place: on one list of one CPU, or held by a
    positive number of handles. */
module PageAlloc {
  import opened Wrappers
  import opened Bits
  import opened IntrusiveList
  import opened Tiling
  import opened BuddyView
  import opened BuddyTight
  import opened Buddy

  const COSTLY_ORDER: nat := 3
  const BATCH_SIZE: nat := 64

  type Lists = map<nat, seq<FreeArea>>

  /** The zone as its users see it, with the lists of every CPU; `home` names the CPU that caches a
      block, `handles` counts the live handles of a held one. */
  datatype State = State(pages: Pages, owned: map<nat, nat>, lists: Lists, home: map<nat, nat>, handles: map<nat, nat>)

  ghost predicate Cached(s: State, cpu: nat, order: nat, h: nat) {
    cpu in s.lists && order < |s.lists[cpu]| && h in s.lists[cpu][order].list
  }

  /** Where a block is, and what its reference count says about that. */
  ghost predicate PlaceAt(s: State, h: nat) {
    && (h in s.owned <==> h in s.home || h in s.handles)
    && !(h in s.home && h in s.handles)
    && (h in s.home ==>
          && s.owned[h] <= COSTLY_ORDER
          && Cached(s, s.home[h], s.owned[h], h)
          && Get(s.pages, h).refcount == 1 && Get(s.pages, h).local)
    && (h in s.handles ==>
          && Get(s.pages, h).refcount == s.handles[h] > 0
          && (s.owned[h] <= COSTLY_ORDER ==> Get(s.pages, h).local))
  }

  ghost predicate CachedAt(s: State, cpu: nat, order: nat, h: nat) {
    Cached(s, cpu, order, h) ==> h in s.home && s.home[h] == cpu && h in s.owned && s.owned[h] == order
  }

  ghost predicate ListsOk(lists: Lists) {
    forall cpu <- lists :: |lists[cpu]| == COSTLY_ORDER + 1 && forall o | 0 <= o <= COSTLY_ORDER :: AreaOk(lists[cpu][o])
  }

  ghost predicate Inv(s: State) {
    && ListsOk(s.lists)
    && (forall h: nat {:trigger PlaceAt(s, h)} :: PlaceAt(s, h))
    && (forall cpu: nat, o: nat, h: nat {:trigger CachedAt(s, cpu, o, h)} :: CachedAt(s, cpu, o, h))
  }

  function Insert(lists: Lists, cpu: nat, order: nat, h: nat): Lists
    requires cpu in lists && order < |lists[cpu]|
  {
    lists[cpu := Push(lists[cpu], order, h)]
  }

  /** Nothing has changed but one list of one CPU. */
  ghost predicate OnlyAt(l: Lists, m: Lists, cpu: nat, order: nat) {
    && m.Keys == l.Keys
    && forall c <- l :: |m[c]| == |l[c]| && forall o | 0 <= o < |l[c]| && (c != cpu || o != order) :: m[c][o] == l[c][o]
  }

  /** A block has come on top of the list; the block on top has been taken off. */
  ghost predicate Stacked(l: Lists, m: Lists, cpu: nat, order: nat, h: nat) {
    && OnlyAt(l, m, cpu, order) && cpu in l && order < |l[cpu]|
    && m[cpu][order].list == [h] + l[cpu][order].list
  }

  lemma InsertStacked(lists: Lists, cpu: nat, order: nat, h: nat)
    requires cpu in lists && order < |lists[cpu]|
    ensures Stacked(lists, Insert(lists, cpu, order, h), cpu, order, h)
  {}

  /** Blocks that were not allocated before have come on top of the list. */
  ghost predicate Grown(l: Lists, m: Lists, cpu: nat, order: nat, added: nat, owned: map<nat, nat>) {
    && OnlyAt(l, m, cpu, order) && cpu in l && order < |l[cpu]|
    && |m[cpu][order].list| == added + |l[cpu][order].list| && m[cpu][order].list[added..] == l[cpu][order].list
    && forall i | 0 <= i < added :: m[cpu][order].list[i] !in owned
  }

  lemma GrownThen(l: Lists, m: Lists, n: Lists, cpu: nat, order: nat, added: nat, owned: map<nat, nat>, h: nat)
    requires Grown(l, m, cpu, order, added, owned) && Stacked(m, n, cpu, order, h) && h !in owned
    ensures Grown(l, n, cpu, order, added + 1, owned)
  {
    var a, b := m[cpu][order].list, n[cpu][order].list;
    assert b[added + 1..] == a[added..];
    forall i | 0 <= i < added + 1 ensures b[i] !in owned {
      if i > 0 { assert b[i] == a[i - 1]; }
    }
  }

  /** A block newly taken from the zone, or returned by its last handle, goes on a list. */
  ghost function Cache(s: State, cpu: nat, order: nat, h: nat): State
    requires cpu in s.lists && order < |s.lists[cpu]|
  {
    State(s.pages[h := Get(s.pages, h).(refcount := 1, local := true)], s.owned[h := order],
          Insert(s.lists, cpu, order, h), s.home[h := cpu], s.handles - {h})
  }

  lemma CacheKeeps(s: State, cpu: nat, order: nat, h: nat)
    requires Inv(s) && cpu in s.lists && order <= COSTLY_ORDER && h !in s.home
    ensures Inv(Cache(s, cpu, order, h))
  {
    var n := Cache(s, cpu, order, h);
    assert PlaceAt(s, h) && CachedAt(s, cpu, order, h);
    forall g: nat ensures PlaceAt(n, g) { assert PlaceAt(s, g); }
    forall c: nat, o: nat, g: nat ensures CachedAt(n, c, o, g) { assert CachedAt(s, c, o, g); }
  }

  /** The first block of a list gets its first handle. */
  ghost function Uncache(s: State, cpu: nat, order: nat): State
    requires cpu in s.lists && order < |s.lists[cpu]| && s.lists[cpu][order].count > 0 && s.lists[cpu][order].list != []
  {
    var h := s.lists[cpu][order].list[0];
    s.(lists := s.lists[cpu := Drop(s.lists[cpu], order, h)], home := s.home - {h}, handles := s.handles[h := 1])
  }

  lemma UncacheKeeps(s: State, cpu: nat, order: nat)
    requires Inv(s) && cpu in s.lists && order <= COSTLY_ORDER && s.lists[cpu][order].list != []
    ensures s.lists[cpu][order].count > 0 && Inv(Uncache(s, cpu, order))
    ensures var h := s.lists[cpu][order].list[0]; h !in s.handles && h in s.owned && s.owned[h] == order
  {
    var n, h := Uncache(s, cpu, order), s.lists[cpu][order].list[0];
    UnlinkIs(s.lists[cpu][order].list, h);
    assert CachedAt(s, cpu, order, h) && PlaceAt(s, h);
    forall g: nat ensures PlaceAt(n, g) { assert PlaceAt(s, g); }
    forall c: nat, o: nat, g: nat ensures CachedAt(n, c, o, g) { assert CachedAt(s, c, o, g); }
  }

  /** A held block gets a new number of handles; a fresh large one its first. */
  ghost function Hold(s: State, h: nat, order: nat, count: nat): State {
    s.(pages := s.pages[h := Get(s.pages, h).(refcount := count)], owned := s.owned[h := order], handles := s.handles[h := count])
  }

  lemma HoldKeeps(s: State, h: nat, order: nat, count: nat)
    requires Inv(s) && h !in s.home && count > 0
    requires h in s.owned ==> s.owned[h] == order
    requires h !in s.owned ==> order > COSTLY_ORDER
    ensures Inv(Hold(s, h, order, count))
  {
    var n := Hold(s, h, order, count);
    assert PlaceAt(s, h);
    forall g: nat ensures PlaceAt(n, g) { assert PlaceAt(s, g); }
    forall c: nat, o: nat, g: nat ensures CachedAt(n, c, o, g) { assert CachedAt(s, c, o, g); }
  }

  lemma ReleaseKeeps(s: State, h: nat, pages: Pages)
    requires Inv(s) && h in s.handles
    requires forall f | f in s.owned && f != h :: Get(pages, f) == Get(s.pages, f)
    ensures Inv(State(pages, s.owned - {h}, s.lists, s.home, s.handles - {h}))
  {
    var n := State(pages, s.owned - {h}, s.lists, s.home, s.handles - {h});
    assert PlaceAt(s, h);
    forall g: nat ensures PlaceAt(n, g) { assert PlaceAt(s, g); }
    forall c: nat, o: nat, g: nat ensures CachedAt(n, c, o, g) { assert CachedAt(s, c, o, g); }
  }

  /** Only what the zone says about allocated blocks matters. */
  lemma SamePages(s: State, pages: Pages)
    requires Inv(s) && forall f | f in s.owned :: Get(pages, f) == Get(s.pages, f)
    ensures Inv(s.(pages := pages))
  {
    var n := s.(pages := pages);
    forall g: nat ensures PlaceAt(n, g) { assert PlaceAt(s, g); }
    forall c: nat, o: nat, g: nat ensures CachedAt(n, c, o, g) { assert CachedAt(s, c, o, g); }
  }

  /** A block fresh from the zone is put on a list. */
  lemma Newcomer(s: State, pages: Pages, cpu: nat, order: nat, h: nat)
    requires Inv(s) && (forall f | f in s.owned :: Get(pages, f) == Get(s.pages, f))
    requires h !in s.owned && cpu in s.lists && order <= COSTLY_ORDER
    ensures |s.lists[cpu]| > order && Inv(Cache(s.(pages := pages), cpu, order, h)) && h !in s.handles
  {
    SamePages(s, pages);
    assert PlaceAt(s, h);
    CacheKeeps(s.(pages := pages), cpu, order, h);
  }

  lemma BatchIsPositive(order: nat)
    requires order <= COSTLY_ORDER
    ensures BATCH_SIZE / Pow2(order) > 0
  {
    assert Pow2(0) == 1 && Pow2(1) == 2 && Pow2(2) == 4 && Pow2(3) == 8;
  }

  lemma NothingListed(v: View, order: nat)
    requires Sound(v) && v.hand == -1 && order <= MAX_ORDER && forall o | order <= o <= MAX_ORDER :: v.areas[o].list == []
    ensures Tight(v) ==> forall x: nat :: !FreeRun(v, x, order)
  {
    if Tight(v) {
      forall x: nat ensures !FreeRun(v, x, order) {
        if FreeRun(v, x, order) { RunIsListed(v, x, order); }
      }
    }
  }

  datatype Op = Alloc(cpu: nat, order: nat) | Dup(h: nat) | Release(cpu: nat, h: nat)

  /** What a step leaves of the live handles; a step on a block nobody holds is no step. */
  function After(handles: map<nat, nat>, cpus: set<nat>, op: Op, r: Option<nat>): map<nat, nat> {
    match op
    case Alloc(_, _) => if r.Some? then handles[r.value := 1] else handles
    case Dup(h) => if h in handles then handles[h := handles[h] + 1] else handles
    case Release(cpu, h) =>
      if h !in handles || cpu !in cpus then handles
      else if handles[h] > 1 then handles[h := handles[h] - 1] else handles - {h}
  }

  function Replay(handles: map<nat, nat>, cpus: set<nat>, ops: seq<Op>, out: seq<Option<nat>>): map<nat, nat>
    requires |out| == |ops|
  {
    if ops == [] then handles
    else
      var last := |ops| - 1;
      After(Replay(handles, cpus, ops[..last], out[..last]), cpus, ops[last], out[last])
  }

  /** No frame belongs to two places: blocks that share a frame are one block, cached or held but not both,
      and none of its frames is free in the zone. */
  lemma OneOwner(v: View, s: State, a: nat, b: nat, f: nat)
    requires Sound(v) && v.hand == -1 && s.owned == Owned(v) && Inv(s)
    requires a in Owned(v) && b in Owned(v)
    requires In(Block(a, Owned(v)[a]), f) && In(Block(b, Owned(v)[b]), f)
    ensures a == b && !FreeFrame(v, f)
    ensures (a in s.handles || a in s.home) && !(a in s.handles && a in s.home)
  {
    assert PlaceAt(s, a) && PlaceAt(s, b);
    OwnedDisjoint(v, a, b, f);
    Conservation(v, f);
  }

  class PageAllocator {
    const zone: Zone
    var lists: Lists
    ghost var home: map<nat, nat>
    ghost var handles: map<nat, nat>

    ghost function Zoned(): View
      reads this, zone
    {
      zone.ViewOf(-1)
    }

    ghost function Now(): State
      reads this, zone
    {
      State(zone.pages, Owned(Zoned()), lists, home, handles)
    }

    ghost predicate Valid()
      reads this, zone
    {
      zone.Valid() && Inv(Now())
    }

    /** The zone holds no two free buddies, and freeing cannot bring any about. */
    ghost predicate Merged()
      reads this, zone
    {
      Tight(Zoned())
    }

    constructor (zone: Zone, cpus: set<nat>)
      requires zone.Valid() && Owned(zone.ViewOf(-1)) == map[]
      ensures Valid() && handles == map[] && this.zone == zone && lists.Keys == cpus
    {
      this.zone := zone;
      lists := map cpu | cpu in cpus :: seq(COSTLY_ORDER + 1, _ => FreeArea([], 0));
      home, handles := map[], map[];
      new;
      forall h: nat ensures PlaceAt(Now(), h) {}
      forall c: nat, o: nat, h: nat ensures CachedAt(Now(), c, o, h) {}
    }

    /** Updates the count and the LOCAL flag of an allocated block. */
    method SetPage(h: nat, refcount: nat, local: bool)
      requires zone.Valid() && h in Owned(Zoned())
      modifies zone`pages
      ensures zone.Valid() && Owned(Zoned()) == old(Owned(Zoned()))
      ensures zone.pages == old(zone.pages[h := Get(zone.pages, h).(refcount := refcount, local := local)])
      ensures old(Merged()) ==> Merged()
    {
      UserPage(Zoned(), h, refcount, local);
      zone.pages := zone.pages[h := Get(zone.pages, h).(refcount := refcount, local := local)];
      assert Zoned() == old(Zoned().(pages := zone.pages[h := Get(zone.pages, h).(refcount := refcount, local := local)]));
    }

    /** The first block of a list of this CPU, if any. */
    method PopCached(cpu: nat, order: nat) returns (r: Option<nat>)
      requires Valid() && cpu in lists && order <= COSTLY_ORDER
      modifies this
      ensures Valid() && lists.Keys == old(lists.Keys)
      ensures r.None? ==> unchanged(this) && lists[cpu][order].list == []
      ensures r.Some? ==> r.value !in old(handles) && handles == old(handles)[r.value := 1]
      ensures r.Some? ==> r.value in Owned(Zoned()) && Owned(Zoned())[r.value] == order
      ensures r.Some? ==> Stacked(lists, old(lists), cpu, order, r.value)
    {
      if lists[cpu][order].list == [] { return None; }
      UncacheKeeps(Now(), cpu, order);
      var h := lists[cpu][order].list[0];
      var area := lists[cpu][order];
      lists := lists[cpu := lists[cpu][order := FreeArea(area.list[1..], area.count - 1)]];
      home, handles := home - {h}, handles[h := 1];
      assert Now() == old(Uncache(Now(), cpu, order));
      assert area.list == [h] + area.list[1..];
      return Some(h);
    }

    /** One block from the zone to a list of this CPU. */
    method Refill(cpu: nat, order: nat) returns (ok: bool)
      requires Valid() && cpu in lists && order <= COSTLY_ORDER
      modifies this, zone
      ensures Valid() && lists.Keys == old(lists.Keys) && handles == old(handles)
      ensures !ok ==> unchanged(this) && unchanged(zone) && forall o | order <= o <= MAX_ORDER :: zone.areas[o].list == []
      ensures ok ==> lists[cpu][order].list != [] && Stacked(old(lists), lists, cpu, order, lists[cpu][order].list[0])
      ensures ok ==> lists[cpu][order].list[0] !in old(Owned(Zoned()))
      ensures forall f | f in old(Owned(Zoned())) :: f in Owned(Zoned())
      ensures old(Merged()) ==> Merged()
    {
      var r := zone.AllocOrder(order);
      if r.None? { return false; }
      var h := r.value;
      ghost var s := old(Now()).(pages := zone.pages);
      Newcomer(old(Now()), zone.pages, cpu, order, h);
      SetPage(h, Get(zone.pages, h).refcount, true);
      InsertStacked(lists, cpu, order, h);
      lists := Insert(lists, cpu, order, h);
      home := home[h := cpu];
      assert Now() == Cache(s, cpu, order, h);
      return true;
    }


    /** alloc_order of one CPU's cache: a cached block, else a batch from the zone. */
    method AllocCached(cpu: nat, order: nat) returns (r: Option<nat>)
      requires Valid() && cpu in lists && order <= COSTLY_ORDER
      modifies this, zone
      ensures Valid() && lists.Keys == old(lists.Keys)
      ensures r.None? ==> handles == old(handles) && lists[cpu][order].list == []
      ensures r.None? ==> forall o | order <= o <= MAX_ORDER :: zone.areas[o].list == []
      ensures r.Some? ==> r.value !in old(handles) && handles == old(handles)[r.value := 1]
      ensures r.Some? ==> r.value in Owned(Zoned()) && Owned(Zoned())[r.value] == order
      ensures OnlyAt(old(lists), lists, cpu, order)
      ensures old(lists[cpu][order].list) != [] ==> r.Some? && Stacked(lists, old(lists), cpu, order, r.value) && unchanged(zone)
      ensures old(lists[cpu][order].list) == [] && r.Some? ==> r.value !in old(Owned(Zoned()))
      ensures old(lists[cpu][order].list) == [] && r.Some? ==> Batch(order, |lists[cpu][order].list| + 1)
      ensures old(Merged()) ==> Merged()
    {
      r := PopCached(cpu, order);
      if r.Some? { return; }
      RefillBatch(cpu, order);
      ghost var mid: Lists := lists;
      r := PopCached(cpu, order);
      assert r.Some? ==> mid[cpu][order].list[0] == r.value;
    }

    /** A whole batch of blocks, or as many as the zone had. */
    ghost predicate Batch(order: nat, count: nat)
      reads this, zone
    {
      count == 64 / Pow2(order) || (count < 64 / Pow2(order) && forall o | order <= o <= MAX_ORDER && o < |zone.areas| :: zone.areas[o].list == [])
    }

    /** Up to a batch of blocks, until the zone has none left. */
    method RefillBatch(cpu: nat, order: nat)
      requires Valid() && cpu in lists && order <= COSTLY_ORDER
      modifies this, zone
      ensures Valid() && lists.Keys == old(lists.Keys) && handles == old(handles)
      ensures lists[cpu][order].list == [] ==> forall o | order <= o <= MAX_ORDER :: zone.areas[o].list == []
      ensures |lists[cpu][order].list| >= |old(lists[cpu][order].list)|
      ensures var added := |lists[cpu][order].list| - |old(lists[cpu][order].list)|;
              Batch(order, added) && Grown(old(lists), lists, cpu, order, added, old(Owned(Zoned())))
      ensures old(Merged()) ==> Merged()
    {
      var i := 0;
      BatchIsPositive(order);
      while i < BATCH_SIZE / Pow2(order)
        invariant Valid() && lists.Keys == old(lists.Keys) && handles == old(handles)
        invariant i <= BATCH_SIZE / Pow2(order) && Grown(old(lists), lists, cpu, order, i, old(Owned(Zoned())))
        invariant forall f | f in old(Owned(Zoned())) :: f in Owned(Zoned())
        invariant old(Merged()) ==> Merged()
      {
        ghost var was := lists;
        var ok := Refill(cpu, order);
        if !ok { return; }
        GrownThen(old(lists), was, lists, cpu, order, i, old(Owned(Zoned())), lists[cpu][order].list[0]);
        i := i + 1;
      }
    }

    /** alloc_order of the global allocator: a block of the order asked for that nobody held, with one handle. */
    method AllocOrder(cpu: nat, order: nat) returns (r: Option<nat>)
      requires Valid() && cpu in lists
      modifies this, zone
      ensures Valid() && lists.Keys == old(lists.Keys)
      ensures r.None? ==> handles == old(handles)
      ensures r.None? && order <= MAX_ORDER && Merged() ==> forall x: nat :: !FreeRun(Zoned(), x, order)
      ensures r.Some? ==> r.value !in old(handles) && handles == old(handles)[r.value := 1]
      ensures r.Some? ==> r.value in Owned(Zoned()) && Owned(Zoned())[r.value] == order
      ensures order > 3 ==> lists == old(lists)
      ensures order <= 3 ==> OnlyAt(old(lists), lists, cpu, order)
      ensures order <= 3 && old(lists[cpu][order].list) != [] ==> r.Some? && Stacked(lists, old(lists), cpu, order, r.value) && unchanged(zone)
      ensures order > 3 || old(lists[cpu][order].list) == [] ==> r.Some? ==> r.value !in old(Owned(Zoned()))
      ensures old(Merged()) ==> Merged()
    {
      if order > COSTLY_ORDER {
        r := AllocLarge(order);
      } else {
        r := AllocCached(cpu, order);
        if r.None? { NothingListed(Zoned(), order); }
      }
    }

    method AllocLarge(order: nat) returns (r: Option<nat>)
      requires Valid() && order > COSTLY_ORDER
      modifies this, zone
      ensures Valid() && lists == old(lists)
      ensures r.None? ==> handles == old(handles)
      ensures r.None? && order <= MAX_ORDER && Merged() ==> forall x: nat :: !FreeRun(Zoned(), x, order)
      ensures r.Some? ==> r.value !in old(handles) && handles == old(handles)[r.value := 1]
      ensures r.Some? ==> r.value in Owned(Zoned()) && Owned(Zoned())[r.value] == order && r.value !in old(Owned(Zoned()))
      ensures old(Merged()) ==> Merged()
    {
      r := zone.AllocOrder(order);
      if r.Some? {
        var h := r.value;
        ghost var s := old(Now()).(pages := zone.pages);
        SamePages(old(Now()), zone.pages);
        assert PlaceAt(s, h);
        HoldKeeps(s, h, order, 1);
        handles := handles[h := 1];
        assert zone.pages == zone.pages[h := Get(zone.pages, h).(refcount := 1)];
        assert Now() == Hold(s, h, order, 1);
      }
    }

    /** Page::clone. */
    method Clone(h: nat)
      requires Valid() && h in handles
      modifies this`handles, zone`pages
      ensures Valid() && handles == old(handles)[h := old(handles)[h] + 1] && Owned(Zoned()) == old(Owned(Zoned()))
      ensures old(Merged()) ==> Merged()
    {
      ghost var s := Now();
      assert PlaceAt(s, h);
      HoldKeeps(s, h, s.owned[h], s.handles[h] + 1);
      SetPage(h, Get(zone.pages, h).refcount + 1, Get(zone.pages, h).local);
      handles := handles[h := handles[h] + 1];
      assert Now() == Hold(s, h, s.owned[h], s.handles[h] + 1);
    }

    /** has_management_over holds of every block with a handle: the assertions in from_raw and drop. */
    method HasManagementOver(h: nat) returns (r: bool)
      requires Valid()
      ensures h in handles ==> r
      ensures r ==> h in handles || h in home
    {
      assert PlaceAt(Now(), h) && PageAt(Zoned(), h);
      var b := zone.HasManagementOver(h);
      return b && (Get(zone.pages, h).order > COSTLY_ORDER || Get(zone.pages, h).local);
    }

    /** is_exclusive is exact. */
    method IsExclusive(h: nat) returns (r: bool)
      requires Valid() && h in handles
      ensures r <==> handles[h] == 1
    {
      assert PlaceAt(Now(), h);
      return Get(zone.pages, h).refcount == 1;
    }


    /** The handles are gone from the count, but the block is not given back yet. */
    ghost predicate Orphan(s: State, h: nat)
      reads this, zone
    {
      && zone.Valid() && Inv(s) && h in s.handles
      && Now() == s.(pages := s.pages[h := Get(s.pages, h).(refcount := 0)])
    }

    method DeallocLarge(h: nat, ghost s: State)
      requires Orphan(s, h)
      modifies this, zone
      ensures Valid() && lists == old(lists) && handles == old(handles) - {h}
      ensures FreeRun(Zoned(), h, old(Get(zone.pages, h).order)) && Owned(Zoned()) == old(Owned(Zoned())) - {h}
      ensures old(Merged()) ==> Merged()
    {
      assert PlaceAt(s, h) && PageAt(Zoned(), h);
      zone.FreePages(h);
      ReleaseKeeps(s, h, zone.pages);
      handles := handles - {h};
      assert Now() == State(zone.pages, s.owned - {h}, s.lists, s.home, s.handles - {h});
    }

    /** free_pages of one CPU's cache. */
    method FreeCached(cpu: nat, h: nat, order: nat, ghost s: State)
      requires Orphan(s, h) && cpu in lists && Get(zone.pages, h).order == order <= COSTLY_ORDER
      modifies this, zone
      ensures Valid() && lists.Keys == old(lists.Keys) && handles == old(handles) - {h}
      ensures Stacked(old(lists), lists, cpu, order, h) && zone.areas == old(zone.areas) && Owned(Zoned()) == old(Owned(Zoned()))
      ensures old(Merged()) ==> Merged()
    {
      assert PageAt(Zoned(), h) && PlaceAt(s, h);
      assert Get(zone.pages, h).refcount == 0;
      CacheKeeps(s, cpu, order, h);
      SetPage(h, 1, Get(zone.pages, h).local);
      InsertStacked(lists, cpu, order, h);
      lists := Insert(lists, cpu, order, h);
      home, handles := home[h := cpu], handles - {h};
      assert Now() == Cache(s, cpu, order, h);
    }

    /** Where a block goes that nobody holds any more: a small one on top of this CPU's list of its order, a larger one
        back to the zone; all other lists, and for a small one the zone's, are as they were. */
    ghost predicate GivenBack(cpu: nat, h: nat, owned: map<nat, nat>, was: Lists, areas: seq<FreeArea>)
      requires h in owned
      reads this, zone
    {
      if owned[h] <= 3
      then Stacked(was, lists, cpu, owned[h], h) && zone.areas == areas && Owned(Zoned()) == owned
      else lists == was && FreeRun(Zoned(), h, owned[h]) && Owned(Zoned()) == owned - {h}
    }

    /** dealloc of the last handle: small blocks go to this CPU's list, large ones back to the zone. */
    method Dealloc(cpu: nat, h: nat, ghost s: State)
      requires Orphan(s, h) && cpu in lists
      modifies this, zone
      ensures Valid() && lists.Keys == old(lists.Keys) && handles == old(handles) - {h}
      ensures h in old(Owned(Zoned())) && GivenBack(cpu, h, old(Owned(Zoned())), old(lists), old(zone.areas))
      ensures old(Merged()) ==> Merged()
    {
      assert PlaceAt(s, h) && PageAt(Zoned(), h);
      if Get(zone.pages, h).order > COSTLY_ORDER {
        DeallocLarge(h, s);
      } else {
        FreeCached(cpu, h, Get(zone.pages, h).order, s);
      }
    }

    /** Page::drop: one handle less; the last one gives the block back. */
    method Drop(cpu: nat, h: nat)
      requires Valid() && cpu in lists && h in handles
      modifies this, zone
      ensures Valid() && lists.Keys == old(lists.Keys)
      ensures handles == if old(handles)[h] > 1 then old(handles)[h := old(handles)[h] - 1] else old(handles) - {h}
      ensures h in old(Owned(Zoned()))
      ensures if old(handles)[h] > 1 then lists == old(lists) && zone.areas == old(zone.areas) && Owned(Zoned()) == old(Owned(Zoned()))
              else GivenBack(cpu, h, old(Owned(Zoned())), old(lists), old(zone.areas))
      ensures old(Merged()) ==> Merged()
    {
      ghost var s := Now();
      assert PlaceAt(s, h);
      var count := Get(zone.pages, h).refcount;
      assert count != 0;
      var managed := HasManagementOver(h);
      assert managed;
      SetPage(h, count - 1, Get(zone.pages, h).local);
      if count == 1 {
        Dealloc(cpu, h, s);
      } else {
        HoldKeeps(s, h, s.owned[h], count - 1);
        handles := handles[h := count - 1];
        assert Now() == Hold(s, h, s.owned[h], count - 1);
      }
    }


    /** A small block dropped by its last holder is what this CPU gets next for that order. */
    method DropThenAlloc(cpu: nat, h: nat, order: nat) returns (r: Option<nat>)
      requires Valid() && cpu in lists && h in handles && handles[h] == 1 && order <= 3
      requires h in Owned(Zoned()) && Owned(Zoned())[h] == order
      modifies this, zone
      ensures Valid() && r == Some(h) && handles == old(handles)
    {
      Drop(cpu, h);
      ghost var mid: Lists := lists;
      assert mid[cpu][order].list[0] == h;
      r := AllocOrder(cpu, order);
      assert mid[cpu][order].list[0] == r.value;
    }

    method Perform(op: Op, live: map<nat, nat>) returns (r: Option<nat>)
      requires Valid() && live == handles
      modifies this, zone
      ensures Valid() && lists.Keys == old(lists.Keys) && handles == After(live, lists.Keys, op, r)
      ensures old(Merged()) ==> Merged()
    {
      r := None;
      match op {
        case Alloc(cpu, order) => if cpu in lists { r := AllocOrder(cpu, order); }
        case Dup(h) => if h in live { Clone(h); }
        case Release(cpu, h) => if h in live && cpu in lists { Drop(cpu, h); }
      }
    }

    /** Any run of allocations, clones and drops on any CPUs: the allocator stays sound, and the reference
        count of every held block is the number of handles the history leaves alive. */
    method Execute(start: map<nat, nat>, ops: seq<Op>) returns (out: seq<Option<nat>>)
      requires Valid() && start == handles
      modifies this, zone
      ensures Valid() && |out| == |ops| && lists.Keys == old(lists.Keys)
      ensures handles == Replay(start, lists.Keys, ops, out)
      ensures forall h | h in handles :: Get(zone.pages, h).refcount == handles[h] > 0
      ensures old(Merged()) ==> Merged()
    {
      out := [];
      var i, live := 0, start;
      while i < |ops|
        invariant Valid() && i == |out| <= |ops| && lists.Keys == old(lists.Keys)
        invariant handles == live == Replay(start, lists.Keys, ops[..i], out)
        invariant old(Merged()) ==> Merged()
      {
        var r := Perform(ops[i], live);
        live := After(live, lists.Keys, ops[i], r);
        assert ops[..i + 1][..i] == ops[..i] && (out + [r])[..i] == out;
        out := out + [r];
        i := i + 1;
      }
      assert ops[..i] == ops;
      forall h | h in handles ensures Get(zone.pages, h).refcount == handles[h] > 0 { assert PlaceAt(Now(), h); }
    }
  }
}
