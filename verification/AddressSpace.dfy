/** How areas, page table entries and frames fit together with the flat memory they stand
    for, and what each pass over the entries does to them. */
module AddressSpace {
  import opened Wrappers
  import opened AddrRange
  import opened MMArea
  import opened AreaList
  import opened CowMemory
  import opened FlatMemory

  type Areas = map<nat, set<Area>>

  ghost predicate AllPrivate(areas: set<Area>) {
    forall a <- areas :: a.mapping == Anonymous && !a.shared
  }

  ghost predicate AreasOk(areas: Areas) {
    forall pid <- areas :: ValidSet(areas[pid]) && AllPrivate(areas[pid])
  }

  ghost function PermissionAt(areas: Areas, s: Slot): Option<Permission> {
    if s.space in areas && MeaningAt(areas[s.space], s.vpn * PAGE_SIZE).Some?
    then Some(MeaningAt(areas[s.space], s.vpn * PAGE_SIZE).value.permission) else None
  }

  /** Hardware write permission follows the area's, except that a copy-on-write entry has none. */
  predicate Agrees(a: Attr, p: Permission) {
    a.write == (!a.cow && p.write) && (p.read ==> a.read) && a.execute == p.execute
  }

  /** A page has an entry exactly when an area covers it, and then the flat memory has what
      the entry shows. */
  ghost predicate TiedAt(m: Mem, areas: Areas, v: Flat, s: Slot) {
    var p := PermissionAt(areas, s);
    && (s in m.ptes <==> p.Some?)
    && (s in v <==> p.Some?)
    && (p.Some? ==> Agrees(m.ptes[s].attr, p.value) && v[s] == FlatPage(Shown(m, s), p.value))
  }

  ghost predicate Tied(m: Mem, areas: Areas, v: Flat) {
    forall s {:trigger TiedAt(m, areas, v, s)} :: TiedAt(m, areas, v, s)
  }

  /** The whole invariant of the address spaces. */
  ghost predicate Sound(m: Mem, areas: Areas, v: Flat) {
    Inv(m, multiset{}) && AreasOk(areas) && Tied(m, areas, v)
  }

  lemma DataAt(m: Mem, n: Mem)
    ensures Data(m).Keys == m.ptes.Keys
    ensures forall s <- m.ptes :: Data(m)[s] == Shown(m, s)
    ensures Data(n).Keys == n.ptes.Keys
    ensures forall s <- n.ptes :: Data(n)[s] == Shown(n, s)
  {
  }

  // ----- pages of areas

  ghost function AreaPages(pid: nat, areas: set<Area>): (r: set<Slot>)
    ensures forall s :: s in r <==> s.space == pid && Mapped(areas, s.vpn * PAGE_SIZE)
  {
    var r := set a, s | a in areas && s in Pages(pid, a.range) :: s;
    assert forall s: Slot | s.space == pid && Mapped(areas, s.vpn * PAGE_SIZE) ::
        s in Pages(pid, AreaAt(areas, s.vpn * PAGE_SIZE).range);
    r
  }

  /** The pages of some areas that lie in a range. */
  ghost function PagesIn(pid: nat, areas: set<Area>, range: VRange): (r: set<Slot>)
    ensures forall s :: s in r <==> InRange(s, pid, range) && Mapped(areas, s.vpn * PAGE_SIZE)
  {
    set s | s in AreaPages(pid, areas) && InRange(s, pid, range)
  }

  /** The next area's pages are in use and not yet visited. */
  lemma NextArea(m: Mem, areas: Areas, v: Flat, pid: nat, done: set<Area>, a: Area)
    requires AreasOk(areas) && Tied(m, areas, v) && pid in areas
    requires done <= areas[pid] && a in areas[pid] - done
    ensures IsMask(a.range)
    ensures forall s <- Pages(pid, a.range) :: s !in AreaPages(pid, done) && s in m.ptes
    ensures AreaPages(pid, done + {a}) == AreaPages(pid, done) + Pages(pid, a.range)
  {
    forall s | s in Pages(pid, a.range) ensures s !in AreaPages(pid, done) && s in m.ptes {
      AreaAtUnique(areas[pid], a, s.vpn * PAGE_SIZE);
      assert TiedAt(m, areas, v, s);
    }
  }

  lemma MidPages(a: Area, pid: nat, range: VRange, s: Slot)
    requires a.Valid() && IsMask(range)
    ensures match a.range.MaskWith(range)
            case None => !(InRange(s, pid, a.range) && InRange(s, pid, range))
            case Some(mask) => IsMask(mask.mid)
                               && (InRange(s, pid, mask.mid) <==> InRange(s, pid, a.range) && InRange(s, pid, range))
  {
    MaskExact(a.range, range, s.vpn * PAGE_SIZE);
  }

  /** The next area's part of the range is page aligned, in use, and not yet visited. */
  lemma NextMid(m: Mem, areas: Areas, v: Flat, pid: nat, range: VRange, done: set<Area>, a: Area)
    requires AreasOk(areas) && Tied(m, areas, v) && pid in areas && IsMask(range)
    requires done <= areas[pid] && a in areas[pid] - done
    ensures match a.range.MaskWith(range)
            case None => PagesIn(pid, done + {a}, range) == PagesIn(pid, done, range)
            case Some(mask) =>
              && IsMask(mask.mid)
              && (forall s <- Pages(pid, mask.mid) :: s !in PagesIn(pid, done, range) && s in m.ptes)
              && PagesIn(pid, done + {a}, range) == PagesIn(pid, done, range) + Pages(pid, mask.mid)
  {
    NextArea(m, areas, v, pid, done, a);
    MidPages(a, pid, range, Slot(pid, 0));
    forall s { MidPages(a, pid, range, s); }
  }

  // ----- lookups

  lemma SamePage(areas: set<Area>, x: nat)
    requires ValidSet(areas)
    ensures Mapped(areas, x) <==> Mapped(areas, Floor(x))
    ensures Mapped(areas, x) ==> AreaAt(areas, x) == AreaAt(areas, Floor(x))
  {
    PageBoundaries(x);
    if Mapped(areas, x) {
      AreaAtUnique(areas, AreaAt(areas, x), Floor(x));
    }
    if Mapped(areas, Floor(x)) {
      AreaAtUnique(areas, AreaAt(areas, Floor(x)), x);
    }
  }

  lemma UsedAt(m: Mem, areas: Areas, v: Flat, pid: nat, x: nat)
    requires AreasOk(areas) && Tied(m, areas, v) && pid in areas
    ensures Mapped(areas[pid], x) <==> FlatMapped(v, pid, x)
  {
    SamePage(areas[pid], x);
    assert TiedAt(m, areas, v, Slot(pid, x / PAGE_SIZE));
  }

  /** Searching the areas for a point finds the one that holds it, if the flat memory has it. */
  lemma LookupIsFlat(m: Mem, areas: Areas, v: Flat, pid: nat, x: nat)
    requires AreasOk(areas) && Tied(m, areas, v) && pid in areas
    ensures (exists a <- areas[pid] :: Point(x).Cmp(a.range) == Equal) <==> FlatMapped(v, pid, x)
    ensures forall a <- areas[pid] :: Point(x).Cmp(a.range) == Equal <==> a.Has(x)
  {
    UsedAt(m, areas, v, pid, x);
  }

  lemma AreaIsFlat(m: Mem, areas: Areas, v: Flat, pid: nat, a: Area, from: nat, to: nat)
    requires AreasOk(areas) && Tied(m, areas, v) && pid in areas && a in areas[pid]
    requires a.range.start <= from <= to <= a.range.end
    ensures AllMapped(v, pid, from, to)
  {
    forall x | from <= x < to ensures FlatMapped(v, pid, x) {
      assert a.Has(x);
      UsedAt(m, areas, v, pid, x);
    }
  }

  lemma PageInArea(a: Area, current: nat, pageStart: nat)
    requires a.Valid() && a.Has(current) && Aligned(pageStart)
    requires current < pageStart + PAGE_SIZE && pageStart < a.range.end
    ensures a.Has(pageStart)
  {
  }

  /** A range holds a mapped byte exactly when one of its pages is in use. */
  lemma FoundIsUsed(m: Mem, areas: Areas, v: Flat, pid: nat, range: VRange)
    requires AreasOk(areas) && Tied(m, areas, v) && pid in areas && IsMask(range)
    ensures (exists x: nat :: range.Has(x) && Mapped(areas[pid], x)) <==> exists s <- Pages(pid, range) :: s in v
  {
    if x: nat :| range.Has(x) && Mapped(areas[pid], x) {
      PageBoundaries(x);
      UsedAt(m, areas, v, pid, x);
      assert Slot(pid, x / PAGE_SIZE) in Pages(pid, range);
    }
    if s :| s in Pages(pid, range) && s in v {
      UsedAt(m, areas, v, pid, s.vpn * PAGE_SIZE);
      assert range.Has(s.vpn * PAGE_SIZE);
    }
  }

  /** mmap's overlap check is exactly that no page of the range is in use. */
  lemma ClearIsUnused(m: Mem, areas: Areas, v: Flat, pid: nat, range: VRange)
    requires AreasOk(areas) && Tied(m, areas, v) && pid in areas && IsMask(range) && range.Proper()
    ensures Hits(areas[pid], range) == {} <==> forall s <- Pages(pid, range) :: s !in v
    ensures Hits(areas[pid], range) == {} ==> forall b <- areas[pid] :: b.range.Disjoint(range)
  {
    FoundIsUsed(m, areas, v, pid, range);
    forall b | b in areas[pid] ensures b in Hits(areas[pid], range) <==> !b.range.Disjoint(range) {
      HitIsOverlap(b, range);
    }
    if a :| a in Hits(areas[pid], range) {
      var x := if a.range.start < range.start then range.start else a.range.start;
      assert range.Has(x) && a.Has(x);
    }
    if x: nat :| range.Has(x) && Mapped(areas[pid], x) {
      assert AreaAt(areas[pid], x) in Hits(areas[pid], range);
    }
  }

  /** A start fits the areas exactly when the flat memory has no page in the way. */
  lemma FitsIsFlat(m: Mem, areas: Areas, v: Flat, pid: nat, at: nat, len: nat)
    requires AreasOk(areas) && Tied(m, areas, v) && pid in areas && len > 0
    ensures Fits(areas[pid], at, len) <==> FlatFits(v, pid, at, len)
  {
    if a :| a in areas[pid] && Hit(a, VRange(at, at + len)) { HitBlocks(m, areas, v, pid, at, len, a); }
    if s: Slot :| Blocks(s, pid, at, len) && s in v { BlockHits(m, areas, v, pid, at, len, s); }
  }

  lemma HitBlocks(m: Mem, areas: Areas, v: Flat, pid: nat, at: nat, len: nat, a: Area)
    requires AreasOk(areas) && Tied(m, areas, v) && pid in areas && len > 0 && a in areas[pid] && Hit(a, VRange(at, at + len))
    ensures !FlatFits(v, pid, at, len)
  {
    HitIsOverlap(a, VRange(at, at + len));
    var x := if a.range.start < at then at else a.range.start;
    UsedAt(m, areas, v, pid, x);
    assert Slot(pid, x / PAGE_SIZE) in v && Blocks(Slot(pid, x / PAGE_SIZE), pid, at, len);
  }

  lemma BlockHits(m: Mem, areas: Areas, v: Flat, pid: nat, at: nat, len: nat, s: Slot)
    requires AreasOk(areas) && Tied(m, areas, v) && pid in areas && len > 0 && Blocks(s, pid, at, len) && s in v
    ensures !Fits(areas[pid], at, len)
  {
    UsedAt(m, areas, v, pid, s.vpn * PAGE_SIZE);
    var a := AreaAt(areas[pid], s.vpn * PAGE_SIZE);
    PageBoundaries(a.range.end);
    HitIsOverlap(a, VRange(at, at + len));
  }

  // ----- mmap

  /** Slot `s` after the pages `ps` have been mapped to the empty page. */
  ghost predicate FilledAt(m: Mem, n: Mem, ps: set<Slot>, execute: bool, s: Slot) {
    if s in ps then s in n.ptes && n.ptes[s].attr == AnonymousAttr(execute) && Shown(n, s) == ZeroPage()
    else (s in n.ptes <==> s in m.ptes) && (s in n.ptes ==> n.ptes[s] == m.ptes[s] && Shown(n, s) == Shown(m, s))
  }

  ghost predicate Filled(m: Mem, n: Mem, ps: set<Slot>, execute: bool) {
    forall s {:trigger FilledAt(m, n, ps, execute, s)} :: FilledAt(m, n, ps, execute, s)
  }

  lemma FillOne(m: Mem, n: Mem, ps: set<Slot>, execute: bool, t: Slot)
    requires Filled(m, n, ps, execute) && Inv(n, multiset{}) && t !in m.ptes && t !in ps
    ensures Inv(SetAnonymous(n, t, execute), multiset{}) && Filled(m, SetAnonymous(n, t, execute), ps + {t}, execute)
  {
    assert FilledAt(m, n, ps, execute, t);
    SetAnonymousKeeps(n, multiset{}, t, execute);
    var k := SetAnonymous(n, t, execute);
    DataAt(n, k);
    forall s ensures FilledAt(m, k, ps + {t}, execute, s) {
      assert FilledAt(m, n, ps, execute, s);
      if s in n.ptes { assert Data(k)[s] == Data(n)[s]; }
    }
  }

  lemma MeaningInsert(areas: set<Area>, a: Area, x: nat)
    requires ValidSet(areas) && a.Valid() && forall b <- areas :: b.range.Disjoint(a.range)
    ensures ValidSet(areas + {a})
    ensures MeaningAt(areas + {a}, x) == if a.Has(x) then Some(a.At(x)) else MeaningAt(areas, x)
  {
    var more := areas + {a};
    if a.Has(x) {
      AreaAtUnique(more, a, x);
    } else if Mapped(areas, x) {
      AreaAtUnique(more, AreaAt(areas, x), x);
    }
  }

  lemma TiedMmap(m: Mem, n: Mem, areas: Areas, v: Flat, pid: nat, a: Area)
    requires AreasOk(areas) && Tied(m, areas, v) && pid in areas
    requires a.Valid() && a.mapping == Anonymous && !a.shared && forall b <- areas[pid] :: b.range.Disjoint(a.range)
    requires Filled(m, n, Pages(pid, a.range), a.permission.execute)
    ensures AreasOk(areas[pid := areas[pid] + {a}])
    ensures Tied(n, areas[pid := areas[pid] + {a}], FlatMmap(v, pid, a.range, a.permission))
  {
    var more, w := areas[pid := areas[pid] + {a}], FlatMmap(v, pid, a.range, a.permission);
    MeaningInsert(areas[pid], a, 0);
    forall s ensures TiedAt(n, more, w, s) {
      MeaningInsert(areas[pid], a, s.vpn * PAGE_SIZE);
      assert TiedAt(m, areas, v, s);
      assert FilledAt(m, n, Pages(pid, a.range), a.permission.execute, s);
    }
  }

  lemma TiedNew(m: Mem, areas: Areas, v: Flat, pid: nat)
    requires AreasOk(areas) && Tied(m, areas, v) && pid !in areas
    ensures AreasOk(areas[pid := {}]) && Tied(m, areas[pid := {}], v)
  {
    var more := areas[pid := {}];
    forall s ensures TiedAt(m, more, v, s) {
      assert TiedAt(m, areas, v, s);
    }
  }

  // ----- fork

  /** Slot `s` after the parent's pages `ps` have been shared copy-on-write with the child. */
  ghost predicate SharedAt(m: Mem, n: Mem, parent: nat, child: nat, ps: set<Slot>, s: Slot) {
    var from := Slot(parent, s.vpn);
    if s.space == child && from in ps then
      && s in n.ptes && from in m.ptes && Shown(n, s) == Shown(m, from)
      && n.ptes[s].attr == SharedAttr(m.ptes[from].attr).(accessed := false)
    else
      && (s in n.ptes <==> s in m.ptes)
      && (s in m.ptes ==>
            && Shown(n, s) == Shown(m, s)
            && n.ptes[s].attr == if s in ps then SharedAttr(m.ptes[s].attr) else m.ptes[s].attr)
  }

  ghost predicate Shared(m: Mem, n: Mem, parent: nat, child: nat, ps: set<Slot>) {
    forall s {:trigger SharedAt(m, n, parent, child, ps, s)} :: SharedAt(m, n, parent, child, ps, s)
  }

  ghost predicate Forking(m: Mem, parent: nat, child: nat) {
    parent != child && forall s <- m.ptes :: s.space != child
  }

  lemma MayFork(m: Mem, areas: Areas, v: Flat, parent: nat, child: nat)
    requires Tied(m, areas, v) && parent in areas && child !in areas
    ensures Forking(m, parent, child) && Unused(v, child)
  {
    forall s | s in m.ptes || s in v ensures s.space != child { assert TiedAt(m, areas, v, s); }
  }

  lemma ShareOneAt(m: Mem, n: Mem, k: Mem, parent: nat, child: nat, ps: set<Slot>, from: Slot, s: Slot)
    requires Forking(m, parent, child) && from in m.ptes && from.space == parent && from !in ps
    requires SharedAt(m, n, parent, child, ps, s) && SharedAt(m, n, parent, child, ps, from)
    requires n.ptes[from].pfn in n.frames && k == ShareCow(n, from, Slot(child, from.vpn))
    requires Data(k) == Data(n)[Slot(child, from.vpn) := Data(n)[from]]
    ensures SharedAt(m, k, parent, child, ps + {from}, s)
  {
    DataAt(n, k);
  }

  lemma ShareOne(m: Mem, n: Mem, parent: nat, child: nat, ps: set<Slot>, from: Slot)
    requires Shared(m, n, parent, child, ps) && Inv(n, multiset{}) && Forking(m, parent, child)
    requires from in m.ptes && from.space == parent && from !in ps
    ensures from in n.ptes && n.ptes[from].pfn in n.frames
    ensures var k := ShareCow(n, from, Slot(child, from.vpn));
            Inv(k, multiset{}) && Shared(m, k, parent, child, ps + {from})
  {
    var to := Slot(child, from.vpn);
    assert SharedAt(m, n, parent, child, ps, from) && SharedAt(m, n, parent, child, ps, to);
    ShareCowKeeps(n, multiset{}, from, to);
    var k := ShareCow(n, from, to);
    forall s ensures SharedAt(m, k, parent, child, ps + {from}, s) {
      assert SharedAt(m, n, parent, child, ps, s);
      ShareOneAt(m, n, k, parent, child, ps, from, s);
    }
  }

  lemma TiedFork(m: Mem, n: Mem, areas: Areas, v: Flat, parent: nat, child: nat)
    requires AreasOk(areas) && Tied(m, areas, v) && parent in areas && child !in areas && Unused(v, child)
    requires Shared(m, n, parent, child, AreaPages(parent, areas[parent]))
    ensures AreasOk(areas[child := areas[parent]])
    ensures Tied(n, areas[child := areas[parent]], FlatFork(v, parent, child))
  {
    var more, w := areas[child := areas[parent]], FlatFork(v, parent, child);
    forall s ensures TiedAt(n, more, w, s) {
      assert TiedAt(m, areas, v, s) && TiedAt(m, areas, v, Slot(parent, s.vpn));
      assert SharedAt(m, n, parent, child, AreaPages(parent, areas[parent]), s);
      FlatForkAt(v, parent, child, s);
    }
  }

  // ----- unmap and teardown

  /** Slot `s` after the entries `ps` have been taken. */
  ghost predicate TakenAt(m: Mem, n: Mem, ps: set<Slot>, s: Slot) {
    && (s in n.ptes <==> s in m.ptes && s !in ps)
    && (s in n.ptes ==> n.ptes[s] == m.ptes[s] && Shown(n, s) == Shown(m, s))
  }

  ghost predicate Taken(m: Mem, n: Mem, ps: set<Slot>) {
    forall s {:trigger TakenAt(m, n, ps, s)} :: TakenAt(m, n, ps, s)
  }

  lemma TakeOne(m: Mem, n: Mem, held: multiset<nat>, ps: set<Slot>, t: Slot)
    requires Taken(m, n, ps) && Inv(n, held) && t in m.ptes && t !in ps
    ensures t in n.ptes
    ensures Inv(Take(n, t), held + multiset{n.ptes[t].pfn}) && Taken(m, Take(n, t), ps + {t})
  {
    assert TakenAt(m, n, ps, t);
    TakeKeeps(n, held, t);
    var k := Take(n, t);
    DataAt(n, k);
    forall s ensures TakenAt(m, k, ps + {t}, s) {
      assert TakenAt(m, n, ps, s);
      if s in k.ptes { assert Data(k)[s] == Data(n)[s]; }
    }
  }

  lemma DropOne(m: Mem, n: Mem, held: multiset<nat>, ps: set<Slot>, f: nat)
    requires Taken(m, n, ps) && Inv(n, held) && f in held
    ensures f in n.frames && n.frames[f].refcount > 0
    ensures Inv(DropRef(n, f), held - multiset{f}) && Taken(m, DropRef(n, f), ps)
  {
    DropKeeps(n, held, f);
    var k := DropRef(n, f);
    DataAt(n, k);
    forall s ensures TakenAt(m, k, ps, s) {
      assert TakenAt(m, n, ps, s);
      if s in k.ptes { assert Data(k)[s] == Data(n)[s]; }
    }
  }

  lemma OutsidePrivate(areas: set<Area>, mask: VRange)
    requires ValidSet(areas) && IsMask(mask) && AllPrivate(areas)
    ensures AllPrivate(AllOutside(areas, mask))
  {
    forall p | p in AllOutside(areas, mask) ensures p.mapping == Anonymous && !p.shared {
      var a :| a in areas && p in Outside(a, mask);
      OutsidePieces(a, mask, p);
      assert p.At(p.range.start) == a.At(p.range.start);
    }
  }

  lemma TiedUnmap(m: Mem, n: Mem, areas: Areas, v: Flat, pid: nat, range: VRange)
    requires AreasOk(areas) && Tied(m, areas, v) && pid in areas && IsMask(range)
    requires Taken(m, n, PagesIn(pid, areas[pid], range))
    ensures AreasOk(areas[pid := AllOutside(areas[pid], range)])
    ensures Tied(n, areas[pid := AllOutside(areas[pid], range)], FlatUnmap(v, pid, range))
  {
    var less, w := areas[pid := AllOutside(areas[pid], range)], FlatUnmap(v, pid, range);
    OutsideIsValid(areas[pid], range);
    OutsidePrivate(areas[pid], range);
    forall s ensures TiedAt(n, less, w, s) {
      OutsideIsPointwise(areas[pid], range, s.vpn * PAGE_SIZE);
      assert TiedAt(m, areas, v, s);
      assert TakenAt(m, n, PagesIn(pid, areas[pid], range), s);
    }
  }

  lemma TiedExit(m: Mem, n: Mem, areas: Areas, v: Flat, pid: nat)
    requires AreasOk(areas) && Tied(m, areas, v) && pid in areas
    requires Taken(m, n, AreaPages(pid, areas[pid]))
    ensures AreasOk(areas - {pid}) && Tied(n, areas - {pid}, FlatExit(v, pid))
  {
    var less, w := areas - {pid}, FlatExit(v, pid);
    forall s ensures TiedAt(n, less, w, s) {
      assert PermissionAt(less, s) == if s.space == pid then None else PermissionAt(areas, s);
      assert TiedAt(m, areas, v, s);
      assert TakenAt(m, n, AreaPages(pid, areas[pid]), s);
    }
  }

  // ----- protect

  /** Slot `s` after the entries `ps` have been given a new permission. */
  ghost predicate ReprotectedAt(m: Mem, n: Mem, ps: set<Slot>, p: Permission, s: Slot) {
    && (s in n.ptes <==> s in m.ptes)
    && (s in n.ptes ==>
          && Shown(n, s) == Shown(m, s)
          && n.ptes[s] == if s in ps then Pte(m.ptes[s].pfn, ProtectedAttr(m.ptes[s].attr, p)) else m.ptes[s])
  }

  ghost predicate Reprotected(m: Mem, n: Mem, ps: set<Slot>, p: Permission) {
    forall s {:trigger ReprotectedAt(m, n, ps, p, s)} :: ReprotectedAt(m, n, ps, p, s)
  }

  lemma ProtectOneEntry(m: Mem, n: Mem, ps: set<Slot>, p: Permission, t: Slot)
    requires Reprotected(m, n, ps, p) && Inv(n, multiset{}) && t in m.ptes && t !in ps && (p.read || p.execute)
    ensures t in n.ptes
    ensures var k := n.(ptes := n.ptes[t := Pte(n.ptes[t].pfn, ProtectedAttr(n.ptes[t].attr, p))]);
            Inv(k, multiset{}) && Reprotected(m, k, ps + {t}, p)
  {
    assert ReprotectedAt(m, n, ps, p, t);
    Entry(n, multiset{}, t);
    SetAttrKeeps(n, multiset{}, t, ProtectedAttr(n.ptes[t].attr, p));
    var k := n.(ptes := n.ptes[t := Pte(n.ptes[t].pfn, ProtectedAttr(n.ptes[t].attr, p))]);
    forall s ensures ReprotectedAt(m, k, ps + {t}, p, s) {
      assert ReprotectedAt(m, n, ps, p, s);
    }
  }

  lemma ProtectedPrivate(areas: set<Area>, mask: VRange, p: Permission)
    requires ValidSet(areas) && IsMask(mask) && AllPrivate(areas)
    ensures AllPrivate(Protected(areas, mask, p))
  {
    OutsidePrivate(areas, mask);
    forall q | q in AllInside(areas, mask, p) ensures q.mapping == Anonymous && !q.shared {
      var a :| a in areas && q in Inside(a, mask, p);
      InsidePieces(a, mask, p, q);
      assert q.At(q.range.start) == a.At(q.range.start).(permission := p);
    }
  }

  lemma TiedProtect(m: Mem, n: Mem, areas: Areas, v: Flat, pid: nat, range: VRange, p: Permission)
    requires Sound(m, areas, v) && pid in areas && IsMask(range)
    requires Reprotected(m, n, PagesIn(pid, areas[pid], range), p) && (p.read || p.execute)
    ensures AreasOk(areas[pid := Protected(areas[pid], range, p)])
    ensures Tied(n, areas[pid := Protected(areas[pid], range, p)], FlatProtect(v, pid, range, p))
  {
    var next, w := areas[pid := Protected(areas[pid], range, p)], FlatProtect(v, pid, range, p);
    ProtectedIsValid(areas[pid], range, p);
    ProtectedPrivate(areas[pid], range, p);
    forall s ensures TiedAt(n, next, w, s) {
      ProtectedIsPointwise(areas[pid], range, p, s.vpn * PAGE_SIZE);
      assert TiedAt(m, areas, v, s);
      assert ReprotectedAt(m, n, PagesIn(pid, areas[pid], range), p, s);
    }
  }

  // ----- faults and stores

  /** A fault leaves the flat memory as it is and the entry not copy-on-write. */
  lemma SoundHandle(m: Mem, areas: Areas, v: Flat, s: Slot, area: Area, write: bool, spare: nat)
    requires Sound(m, areas, v) && spare !in m.frames
    requires s.space in areas && area in areas[s.space] && area.Has(s.vpn * PAGE_SIZE)
    ensures s in m.ptes && m.ptes[s].pfn in m.frames && m.frames[m.ptes[s].pfn].refcount > 0
    ensures var n := Handle(m, s, area.permission.write, write, spare);
            Sound(n, areas, v) && !n.ptes[s].attr.cow && n.ptes[s].attr.write == area.permission.write
  {
    AreaAtUnique(areas[s.space], area, s.vpn * PAGE_SIZE);
    assert TiedAt(m, areas, v, s);
    HandleKeeps(m, multiset{}, s, area.permission.write, write, spare);
    HandleEntry(m, s, area.permission.write, write, spare);
    var n := Handle(m, s, area.permission.write, write, spare);
    DataAt(m, n);
    forall k ensures TiedAt(n, areas, v, k) {
      assert TiedAt(m, areas, v, k);
      if k in m.ptes { assert Data(n)[k] == Data(m)[k]; }
    }
  }

  /** The entry shows a whole page, the one the flat memory has. */
  lemma ShownIsFlat(m: Mem, areas: Areas, v: Flat, s: Slot)
    requires Sound(m, areas, v) && s in m.ptes
    ensures s in v && v[s].data == Shown(m, s) && |Shown(m, s)| == PAGE_SIZE
  {
    assert TiedAt(m, areas, v, s);
    Entry(m, multiset{}, s);
  }

  lemma TiedStoreAt(m: Mem, areas: Areas, v: Flat, s: Slot, at: nat, data: seq<Byte>, k: Slot)
    requires Sound(m, areas, v) && s in m.ptes && at + |data| <= PAGE_SIZE
    requires m.ptes[s].pfn in m.frames && |Shown(m, s)| == PAGE_SIZE
    requires Data(Store(m, s, at, data)) == Data(m)[s := Overwrite(Data(m)[s], at, data)]
    ensures TiedAt(Store(m, s, at, data), areas, FlatWrite(v, s.space, s.vpn * PAGE_SIZE + at, data), k)
  {
    var n := Store(m, s, at, data);
    DataAt(m, n);
    assert TiedAt(m, areas, v, k);
    if k in m.ptes {
      ShownIsFlat(m, areas, v, k);
      assert Data(n)[k] == if k == s then Overwrite(Data(m)[s], at, data) else Data(m)[k];
      OverlayPage(v[k].data, k, s, at, data);
    }
  }

  /** A store through an entry that is not copy-on-write is a write to the flat memory. */
  lemma SoundStore(m: Mem, areas: Areas, v: Flat, s: Slot, at: nat, data: seq<Byte>)
    requires Sound(m, areas, v) && s in m.ptes && !m.ptes[s].attr.cow && at + |data| <= PAGE_SIZE
    ensures m.ptes[s].pfn in m.frames && |Shown(m, s)| == PAGE_SIZE
    ensures Sound(Store(m, s, at, data), areas, FlatWrite(v, s.space, s.vpn * PAGE_SIZE + at, data))
  {
    StoreKeeps(m, multiset{}, s, at, data);
    var n, w := Store(m, s, at, data), FlatWrite(v, s.space, s.vpn * PAGE_SIZE + at, data);
    forall k ensures TiedAt(n, areas, w, k) {
      TiedStoreAt(m, areas, v, s, at, data, k);
    }
  }
}
