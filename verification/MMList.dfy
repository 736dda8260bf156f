/** Address spaces: mmap, fork, faults, reads, writes, unmap, protect and teardown of
    private anonymous memory, proved to act as if every fork copied every byte. */
module MMList {
  import opened Wrappers
  import opened AddrRange
  import opened MMArea
  import opened AreaList
  import opened CowMemory
  import opened FlatMemory
  import opened AddressSpace

  class Kernel {
    var mem: Mem
    var areas: Areas
    /** The flat memory that the address spaces stand for. */
    ghost var flat: Flat

    ghost predicate Valid()
      reads this
    {
      Sound(mem, areas, flat)
    }

    /** Boot: the empty page is the only frame, and there are no address spaces. */
    constructor (empty: nat)
      ensures Valid() && flat == map[] && areas == map[]
    {
      mem := Mem(map[empty := Frame(ZeroPage(), 1)], map[], empty);
      areas := map[];
      flat := map[];
      new;
      assert FrameOk(mem, multiset{}, empty);
    }

    /** MMList::new. */
    method NewSpace(pid: nat)
      requires Valid() && pid !in areas
      modifies this`areas
      ensures Valid() && areas == old(areas)[pid := {}] && areas.Keys == old(areas.Keys) + {pid}
    {
      TiedNew(mem, areas, flat, pid);
      areas := areas[pid := {}];
    }

    // ----- mmap

    /** PageTableExt::set_anonymous. */
    method SetAnonymousRange(pid: nat, range: VRange, execute: bool)
      requires Inv(mem, multiset{}) && IsMask(range) && forall s <- Pages(pid, range) :: s !in mem.ptes
      modifies this`mem
      ensures Inv(mem, multiset{}) && Filled(old(mem), mem, Pages(pid, range), execute)
    {
      var v := range.start / PAGE_SIZE;
      ghost var done: set<Slot> := {};
      while v < range.end / PAGE_SIZE
        invariant range.start / PAGE_SIZE <= v <= range.end / PAGE_SIZE
        invariant done == Pages(pid, VRange(range.start, v * PAGE_SIZE))
        invariant Inv(mem, multiset{}) && Filled(old(mem), mem, done, execute)
      {
        var s := Slot(pid, v);
        assert s in Pages(pid, range) && s !in done;
        FillOne(old(mem), mem, done, execute, s);
        mem := SetAnonymous(mem, s, execute);
        done := done + {s};
        v := v + 1;
      }
      assert v * PAGE_SIZE == range.end;
    }

    /** MMListInner::mmap of private anonymous memory. */
    method Mmap(pid: nat, at: nat, len: nat, permission: Permission) returns (r: Result<()>)
      requires Valid() && pid in areas && Aligned(at) && Aligned(len) && len > 0
      modifies this
      ensures Valid() && areas.Keys == old(areas.Keys)
      ensures (flat, r) == FlatMapAt(old(flat), pid, at, len, permission)
      ensures r.Ok? ==> forall s {:trigger s in mem.ptes} | s in Pages(pid, VRange(at, at + len)) :: s in mem.ptes && mem.ptes[s].attr.read
    {
      var range := VRange(at, at + len);
      ClearIsUnused(mem, areas, flat, pid, range);
      FitsAligned(flat, pid, at, len);
      if !IsUser(range) || Hits(areas[pid], range) != {} {
        return Err(EEXIST);
      }
      forall s | s in Pages(pid, range) ensures s !in mem.ptes { assert TiedAt(mem, areas, flat, s); }
      var area := Area(range, Anonymous, permission, false);
      SetAnonymousRange(pid, range, permission.execute);
      TiedMmap(old(mem), mem, areas, flat, pid, area);
      forall s | s in Pages(pid, range) ensures s in mem.ptes && mem.ptes[s].attr.read {
        assert FilledAt(old(mem), mem, Pages(pid, range), permission.execute, s);
      }
      areas := areas[pid := areas[pid] + {area}];
      flat := FlatMmap(flat, pid, range, permission);
      r := Ok(());
    }

    // ----- fork

    /** PageTableExt::set_copy_on_write over one area. */
    method ShareRange(parent: nat, child: nat, range: VRange, ghost m: Mem, ghost ps: set<Slot>)
      requires Inv(mem, multiset{}) && IsMask(range) && Forking(m, parent, child)
      requires Shared(m, mem, parent, child, ps)
      requires forall s <- Pages(parent, range) :: s !in ps && s in m.ptes
      modifies this`mem
      ensures Inv(mem, multiset{}) && Shared(m, mem, parent, child, ps + Pages(parent, range))
    {
      var v := range.start / PAGE_SIZE;
      ghost var done := ps;
      while v < range.end / PAGE_SIZE
        invariant range.start / PAGE_SIZE <= v <= range.end / PAGE_SIZE
        invariant done == ps + Pages(parent, VRange(range.start, v * PAGE_SIZE))
        invariant Inv(mem, multiset{}) && Shared(m, mem, parent, child, done)
      {
        var from := Slot(parent, v);
        assert from in Pages(parent, range) && from !in done;
        ShareOne(m, mem, parent, child, done, from);
        mem := ShareCow(mem, from, Slot(child, v));
        done := done + {from};
        v := v + 1;
      }
      assert v * PAGE_SIZE == range.end;
    }

    /** MMList::new_cloned. */
    method Fork(parent: nat, child: nat)
      requires Valid() && parent in areas && child !in areas
      modifies this
      ensures Valid() && areas.Keys == old(areas.Keys) + {child}
      ensures Unused(old(flat), child) && flat == FlatFork(old(flat), parent, child)
    {
      MayFork(mem, areas, flat, parent, child);
      var rest := areas[parent];
      ghost var done: set<Area> := {};
      while rest != {}
        invariant areas == old(areas) && flat == old(flat) && done + rest == areas[parent] && done !! rest
        invariant Inv(mem, multiset{}) && Shared(old(mem), mem, parent, child, AreaPages(parent, done))
        decreases rest
      {
        var area :| area in rest;
        rest := rest - {area};
        NextArea(old(mem), areas, flat, parent, done, area);
        ShareRange(parent, child, area.range, old(mem), AreaPages(parent, done));
        done := done + {area};
      }
      assert done == areas[parent];
      TiedFork(old(mem), mem, areas, flat, parent, child);
      areas := areas[child := areas[parent]];
      flat := FlatFork(flat, parent, child);
    }

    // ----- unmap and teardown

    /** Unmapping's pass over the entries of one area: take each and keep its page for later. */
    method TakeRange(pid: nat, range: VRange, held: seq<nat>, ghost m: Mem, ghost ps: set<Slot>) returns (more: seq<nat>)
      requires Inv(mem, multiset(held)) && IsMask(range) && Taken(m, mem, ps)
      requires forall s <- Pages(pid, range) :: s !in ps && s in m.ptes
      modifies this`mem
      ensures Inv(mem, multiset(more)) && Taken(m, mem, ps + Pages(pid, range))
    {
      more := held;
      var v := range.start / PAGE_SIZE;
      ghost var done := ps;
      while v < range.end / PAGE_SIZE
        invariant range.start / PAGE_SIZE <= v <= range.end / PAGE_SIZE
        invariant done == ps + Pages(pid, VRange(range.start, v * PAGE_SIZE))
        invariant Inv(mem, multiset(more)) && Taken(m, mem, done)
      {
        var s := Slot(pid, v);
        assert s in Pages(pid, range) && s !in done;
        TakeOne(m, mem, multiset(more), done, s);
        more := more + [mem.ptes[s].pfn];
        mem := Take(mem, s);
        done := done + {s};
        v := v + 1;
      }
      assert v * PAGE_SIZE == range.end;
    }

    /** Unmapping's pass over the areas: take the entries in range of every overlapped area. */
    method TakePages(pid: nat, range: VRange) returns (held: seq<nat>)
      requires Valid() && pid in areas && IsMask(range)
      modifies this`mem
      ensures Inv(mem, multiset(held)) && Taken(old(mem), mem, PagesIn(pid, areas[pid], range))
    {
      held := [];
      var rest := areas[pid];
      ghost var done: set<Area> := {};
      while rest != {}
        invariant done + rest == areas[pid] && done !! rest
        invariant Inv(mem, multiset(held)) && Taken(old(mem), mem, PagesIn(pid, done, range))
        decreases rest
      {
        var area :| area in rest;
        rest := rest - {area};
        NextMid(old(mem), areas, flat, pid, range, done, area);
        var mask := area.range.MaskWith(range);
        if mask.Some? {
          held := TakeRange(pid, mask.value.mid, held, old(mem), PagesIn(pid, done, range));
        }
        done := done + {area};
      }
      assert done == areas[pid];
    }

    /** Dropping the pages that unmap kept. */
    method DropAll(held: seq<nat>, ghost m: Mem, ghost ps: set<Slot>)
      requires Inv(mem, multiset(held)) && Taken(m, mem, ps)
      modifies this`mem
      ensures Inv(mem, multiset{}) && Taken(m, mem, ps)
    {
      var i := 0;
      while i < |held|
        invariant i <= |held|
        invariant Inv(mem, multiset(held[i..])) && Taken(m, mem, ps)
      {
        ghost var left := multiset(held[i + 1..]);
        assert multiset(held[i..]) == left + multiset{held[i]} by {
          assert held[i..] == [held[i]] + held[i + 1..];
        }
        DropOne(m, mem, left + multiset{held[i]}, ps, held[i]);
        assert left + multiset{held[i]} - multiset{held[i]} == left;
        mem := DropRef(mem, held[i]);
        i := i + 1;
      }
      assert multiset(held[i..]) == multiset{};
    }

    /** MMList::unmap. */
    method Unmap(pid: nat, start: nat, len: nat) returns (r: Result<()>)
      requires Valid() && pid in areas && Aligned(start)
      modifies this
      ensures Valid() && areas.Keys == old(areas.Keys)
      ensures (flat, r) == FlatUnmapAt(old(flat), pid, VRange(start, Ceil(start + len)))
    {
      var range := VRange(start, Ceil(start + len));
      PageBoundaries(start + len);
      if !IsUser(range) {
        return Err(EINVAL);
      }
      var held := TakePages(pid, range);
      var left := UnmapAreas(areas[pid], range);
      DropAll(held, old(mem), PagesIn(pid, areas[pid], range));
      TiedUnmap(old(mem), mem, areas, flat, pid, range);
      areas := areas[pid := left];
      flat := FlatUnmap(flat, pid, range);
      r := Ok(());
    }

    method FreeRange(pid: nat, range: VRange, ghost m: Mem, ghost ps: set<Slot>)
      requires Inv(mem, multiset{}) && IsMask(range) && Taken(m, mem, ps)
      requires forall s <- Pages(pid, range) :: s !in ps && s in m.ptes
      modifies this`mem
      ensures Inv(mem, multiset{}) && Taken(m, mem, ps + Pages(pid, range))
    {
      var v := range.start / PAGE_SIZE;
      ghost var done := ps;
      while v < range.end / PAGE_SIZE
        invariant range.start / PAGE_SIZE <= v <= range.end / PAGE_SIZE
        invariant done == ps + Pages(pid, VRange(range.start, v * PAGE_SIZE))
        invariant Inv(mem, multiset{}) && Taken(m, mem, done)
      {
        var s := Slot(pid, v);
        assert s in Pages(pid, range) && s !in done;
        TakeOne(m, mem, multiset{}, done, s);
        var f := mem.ptes[s].pfn;
        assert multiset{} + multiset{f} == multiset{f};
        mem := Take(mem, s);
        done := done + {s};
        DropOne(m, mem, multiset{f}, done, f);
        assert multiset{f} - multiset{f} == multiset{};
        mem := DropRef(mem, f);
        v := v + 1;
      }
      assert v * PAGE_SIZE == range.end;
    }

    /** Drop for MMListInner: the address space goes away. */
    method Exit(pid: nat)
      requires Valid() && pid in areas
      modifies this
      ensures Valid() && areas.Keys == old(areas.Keys) - {pid}
      ensures flat == FlatExit(old(flat), pid)
    {
      var rest := areas[pid];
      ghost var done: set<Area> := {};
      while rest != {}
        invariant areas == old(areas) && flat == old(flat) && done + rest == areas[pid] && done !! rest
        invariant Inv(mem, multiset{}) && Taken(old(mem), mem, AreaPages(pid, done))
        decreases rest
      {
        var area :| area in rest;
        rest := rest - {area};
        NextArea(old(mem), areas, flat, pid, done, area);
        FreeRange(pid, area.range, old(mem), AreaPages(pid, done));
        done := done + {area};
      }
      assert done == areas[pid];
      TiedExit(old(mem), mem, areas, flat, pid);
      areas := areas - {pid};
      flat := FlatExit(flat, pid);
    }

    // ----- protect

    /** Protecting's pass over the entries of one area. */
    method ProtectRange(pid: nat, range: VRange, p: Permission, ghost m: Mem, ghost ps: set<Slot>)
      requires Inv(mem, multiset{}) && IsMask(range) && Reprotected(m, mem, ps, p) && (p.read || p.execute)
      requires forall s <- Pages(pid, range) :: s !in ps && s in m.ptes
      modifies this`mem
      ensures Inv(mem, multiset{}) && Reprotected(m, mem, ps + Pages(pid, range), p)
    {
      var v := range.start / PAGE_SIZE;
      ghost var done := ps;
      while v < range.end / PAGE_SIZE
        invariant range.start / PAGE_SIZE <= v <= range.end / PAGE_SIZE
        invariant done == ps + Pages(pid, VRange(range.start, v * PAGE_SIZE))
        invariant Inv(mem, multiset{}) && Reprotected(m, mem, done, p)
      {
        var s := Slot(pid, v);
        assert s in Pages(pid, range) && s !in done;
        ProtectOneEntry(m, mem, done, p, s);
        mem := mem.(ptes := mem.ptes[s := Pte(mem.ptes[s].pfn, ProtectedAttr(mem.ptes[s].attr, p))]);
        done := done + {s};
        v := v + 1;
      }
      assert v * PAGE_SIZE == range.end;
    }

    method ProtectPages(pid: nat, range: VRange, p: Permission)
      requires Valid() && pid in areas && IsMask(range) && (p.read || p.execute)
      modifies this`mem
      ensures Inv(mem, multiset{}) && Reprotected(old(mem), mem, PagesIn(pid, areas[pid], range), p)
    {
      var rest := areas[pid];
      ghost var done: set<Area> := {};
      while rest != {}
        invariant done + rest == areas[pid] && done !! rest
        invariant Inv(mem, multiset{}) && Reprotected(old(mem), mem, PagesIn(pid, done, range), p)
        decreases rest
      {
        var area :| area in rest;
        rest := rest - {area};
        NextMid(old(mem), areas, flat, pid, range, done, area);
        var mask := area.range.MaskWith(range);
        if mask.Some? {
          ProtectRange(pid, mask.value.mid, p, old(mem), PagesIn(pid, done, range));
        }
        done := done + {area};
      }
      assert done == areas[pid];
    }

    /** MMList::protect with a permission that allows reading or executing. */
    method Protect(pid: nat, start: nat, len: nat, p: Permission) returns (r: Result<()>)
      requires Valid() && pid in areas && Aligned(start) && len != 0 && (p.read || p.execute)
      modifies this
      ensures Valid() && areas.Keys == old(areas.Keys)
      ensures (flat, r) == FlatProtectAt(old(flat), pid, VRange(start, Ceil(start + len)), p)
    {
      var range := VRange(start, Ceil(start + len));
      PageBoundaries(start + len);
      if !IsUser(range) {
        return Err(EINVAL);
      }
      FoundIsUsed(mem, areas, flat, pid, range);
      ProtectPages(pid, range, p);
      var found, next := ProtectAreas(areas[pid], range, p);
      TiedProtect(old(mem), mem, areas, flat, pid, range, p);
      areas := areas[pid := next];
      flat := FlatProtect(flat, pid, range, p);
      r := if found then Ok(()) else Err(ENOMEM);
    }

    // ----- faults

    /** A fault on one page of an area. */
    method HandlePage(s: Slot, area: Area, write: bool)
      requires Valid() && s.space in areas && area in areas[s.space] && area.Has(s.vpn * PAGE_SIZE)
      modifies this`mem
      ensures Valid() && s in mem.ptes && !mem.ptes[s].attr.cow && mem.ptes[s].attr.write == area.permission.write
    {
      SpareExists(mem.frames);
      var spare: nat :| spare !in mem.frames;
      SoundHandle(mem, areas, flat, s, area, write, spare);
      mem := Handle(mem, s, area.permission.write, write, spare);
    }

    /** overlapping_addr: the search finds the area holding `x`, all of which is mapped. */
    method OverlappingAddr(pid: nat, x: nat) returns (area: Option<Area>)
      requires Valid() && pid in areas
      ensures area.None? <==> !FlatMapped(flat, pid, x)
      ensures area.Some? ==> area.value in areas[pid] && area.value.Has(x) && AllMapped(flat, pid, x, area.value.range.end)
    {
      LookupIsFlat(mem, areas, flat, pid, x);
      if !exists a <- areas[pid] :: Point(x).Cmp(a.range) == Equal {
        return None;
      }
      var a :| a in areas[pid] && Point(x).Cmp(a.range) == Equal;
      AreaIsFlat(mem, areas, flat, pid, a, x, a.range.end);
      area := Some(a);
    }

    // ----- reading

    /** Fault one page in for reading and copy a slice of it out. */
    method ReadPage(pid: nat, area: Area, vpn: nat, from: nat, to: nat) returns (data: seq<Byte>)
      requires Valid() && pid in areas && area in areas[pid] && area.Has(vpn * PAGE_SIZE) && from <= to <= PAGE_SIZE
      modifies this`mem
      ensures Valid() && data == Bytes(flat, pid, vpn * PAGE_SIZE + from, to - from)
    {
      var s := Slot(pid, vpn);
      HandlePage(s, area, false);
      ShownIsFlat(mem, areas, flat, s);
      PageBytes(flat, pid, vpn, from, to);
      data := Shown(mem, s)[from..to];
    }

    /** The slice of one page of an access to [current, end), and the record of the visit. */
    method ReadSlice(pid: nat, area: Area, current: nat, end: nat, vpn: nat, copied: nat, seen: seq<Visit>, ghost upTo: nat)
      returns (data: seq<Byte>, visits: seq<Visit>)
      requires Valid() && pid in areas && area in areas[pid] && area.Has(current) && current < end <= area.range.end
      requires Frontier(current, end, vpn, upTo) && vpn * PAGE_SIZE < end && copied <= current
      requires Tiled(seen, current - copied, copied + (upTo - current))
      modifies this`mem
      ensures Valid() && data == Bytes(flat, pid, upTo, |data|) && Frontier(current, end, vpn + 1, upTo + |data|)
      ensures Tiled(visits, current - copied, copied + (upTo - current) + |data|)
    {
      SliceIs(current, end, vpn, upTo);
      var from, to := SliceFrom(current, vpn), SliceTo(end, vpn);
      PageInArea(area, current, vpn * PAGE_SIZE);
      data := ReadPage(pid, area, vpn, from, to);
      var visit := Visit(copied + (vpn * PAGE_SIZE + from - current), vpn, from, to - from);
      TiledNext(seen, current - copied, copied + (upTo - current), visit);
      visits := seen + [visit];
    }

    /** read_bytes within one area: page by page, `copied` bytes being done already.  The
        chunks follow each other without gap or overlap. */
    method ReadArea(pid: nat, area: Area, current: nat, accessLen: nat, copied: nat, buffer: seq<Byte>, seen: seq<Visit>)
      returns (r: seq<Byte>, visits: seq<Visit>)
      requires Valid() && pid in areas && area in areas[pid]
      requires area.Has(current) && 0 < accessLen <= area.range.end - current && |buffer| == copied <= current
      requires Tiled(seen, current - copied, copied)
      modifies this`mem
      ensures Valid() && r == buffer + Bytes(flat, pid, current, accessLen)
      ensures Tiled(visits, current - copied, copied + accessLen)
    {
      var got: seq<Byte> := [];
      visits := seen;
      var vpn: nat := current / PAGE_SIZE;
      ghost var upTo: nat := current;
      while vpn * PAGE_SIZE < current + accessLen
        invariant Valid() && Frontier(current, current + accessLen, vpn, upTo)
        invariant got == Bytes(flat, pid, current, upTo - current)
        invariant Tiled(visits, current - copied, copied + (upTo - current))
        decreases current + accessLen - vpn * PAGE_SIZE
      {
        var data, next := ReadSlice(pid, area, current, current + accessLen, vpn, copied, visits, upTo);
        BytesConcat(flat, pid, current, upTo - current, upTo, |data|);
        got, visits := got + data, next;
        upTo, vpn := upTo + |data|, vpn + 1;
      }
      r := buffer + got;
    }

    /** MMList::read_bytes: all the bytes asked for, exactly when all of them are mapped. */
    method ReadBytes(pid: nat, start: nat, len: nat) returns (r: Result<seq<Byte>>, visits: seq<Visit>)
      requires Valid() && pid in areas
      modifies this`mem
      ensures Valid() && r == FlatRead(flat, pid, start, len)
      ensures r.Ok? ==> Tiled(visits, start, len)
    {
      visits := [];
      if !Accessible(start, len) {
        return Err(EINVAL), visits;
      }
      var buffer: seq<Byte> := [];
      var copied, remaining, current := 0, len, start;
      while remaining > 0
        invariant Valid() && remaining >= 0 && copied + remaining == len && current == start + copied
        invariant AllMapped(flat, pid, start, current)
        invariant buffer == Bytes(flat, pid, start, copied) && Tiled(visits, start, copied)
        decreases remaining
      {
        var found := OverlappingAddr(pid, current);
        if found.None? {
          assert start <= current < start + len && !FlatMapped(flat, pid, current);
          return Err(EFAULT), visits;
        }
        var area := found.value;
        var areaRemaining := area.range.end - current;
        var accessLen := if remaining < areaRemaining then remaining else areaRemaining;
        MappedConcat(flat, pid, start, current, current + accessLen);
        BytesConcat(flat, pid, start, copied, current, accessLen);
        buffer, visits := ReadArea(pid, area, current, accessLen, copied, buffer, visits);
        copied, remaining, current := copied + accessLen, remaining - accessLen, current + accessLen;
      }
      assert copied == len && current == start + len;
      r := Ok(buffer);
    }

    // ----- writing

    /** Fault one page in for writing and store into a slice of it. */
    method WritePage(pid: nat, area: Area, vpn: nat, at: nat, data: seq<Byte>)
      requires Valid() && pid in areas && area in areas[pid] && area.Has(vpn * PAGE_SIZE) && at + |data| <= PAGE_SIZE
      modifies this`mem, this`flat
      ensures Valid() && flat == FlatWrite(old(flat), pid, vpn * PAGE_SIZE + at, data)
    {
      var s := Slot(pid, vpn);
      HandlePage(s, area, true);
      SoundStore(mem, areas, flat, s, at, data);
      mem := Store(mem, s, at, data);
      flat := FlatWrite(flat, pid, vpn * PAGE_SIZE + at, data);
    }

    /** The slice of one page of an access to the data's range, stored into; and the record of the visit. */
    method WriteSlice(pid: nat, area: Area, current: nat, data: seq<Byte>, vpn: nat, done: nat, ghost upTo: nat, ghost was: Flat)
      returns (visit: Visit)
      requires Valid() && pid in areas && area in areas[pid] && area.Has(current) && 0 < |data| <= area.range.end - current
      requires Frontier(current, current + |data|, vpn, upTo) && vpn * PAGE_SIZE < current + |data| && done <= current
      requires flat == FlatWrite(was, pid, current, data[..upTo - current])
      modifies this`mem, this`flat
      ensures Frontier(current, current + |data|, vpn + 1, upTo + visit.len)
      ensures Valid() && flat == FlatWrite(was, pid, current, data[..upTo + visit.len - current])
      ensures visit.offset == done + (upTo - current) && visit.Fits(current - done)
    {
      SliceIs(current, current + |data|, vpn, upTo);
      var from, to := SliceFrom(current, vpn), SliceTo(current + |data|, vpn);
      var dataOffset := vpn * PAGE_SIZE + from - current;
      var n := to - from;
      PageInArea(area, current, vpn * PAGE_SIZE);
      assert dataOffset == upTo - current && vpn * PAGE_SIZE + from == upTo;
      WritePage(pid, area, vpn, from, data[dataOffset..dataOffset + n]);
      FlatWriteNext(was, pid, current, data, dataOffset, upTo, n);
      visit := Visit(done + dataOffset, vpn, from, n);
    }

    /** access_mut within one area, for a function that copies `data` into the slices. */
    method WriteArea(pid: nat, area: Area, current: nat, data: seq<Byte>, done: nat, seen: seq<Visit>) returns (visits: seq<Visit>)
      requires Valid() && pid in areas && area in areas[pid]
      requires area.Has(current) && 0 < |data| <= area.range.end - current
      requires done <= current && Tiled(seen, current - done, done)
      modifies this`mem, this`flat
      ensures Valid() && flat == FlatWrite(old(flat), pid, current, data)
      ensures Tiled(visits, current - done, done + |data|)
    {
      visits := seen;
      var vpn: nat := current / PAGE_SIZE;
      ghost var upTo: nat := current;
      FlatWriteNothing(flat, pid, current);
      while vpn * PAGE_SIZE < current + |data|
        invariant Frontier(current, current + |data|, vpn, upTo)
        invariant Valid() && flat == FlatWrite(old(flat), pid, current, data[..upTo - current])
        invariant Tiled(visits, current - done, done + (upTo - current))
        decreases current + |data| - vpn * PAGE_SIZE
      {
        var visit := WriteSlice(pid, area, current, data, vpn, done, upTo, old(flat));
        TiledNext(visits, current - done, done + (upTo - current), visit);
        visits := visits + [visit];
        upTo, vpn := upTo + visit.len, vpn + 1;
      }
      assert data[..upTo - current] == data;
    }

    /** MMList::access_mut: stores everything up to the first unmapped byte. */
    method AccessMut(pid: nat, start: nat, data: seq<Byte>) returns (r: Result<()>, visits: seq<Visit>)
      requires Valid() && pid in areas
      modifies this`mem, this`flat
      ensures Valid() && (flat, r) == FlatAccess(old(flat), pid, start, data)
      ensures r.Ok? ==> Tiled(visits, start, |data|)
    {
      visits := [];
      if !Accessible(start, |data|) {
        return Err(EINVAL), visits;
      }
      ghost var v := flat;
      var offset, remaining, current := 0, |data|, start;
      FlatWriteNothing(v, pid, start);
      while remaining > 0
        invariant remaining >= 0 && offset + remaining == |data| && current == start + offset
        invariant Valid() && flat == FlatWrite(v, pid, start, data[..offset])
        invariant AllMapped(v, pid, start, current) && Tiled(visits, start, offset)
        decreases remaining
      {
        var found := OverlappingAddr(pid, current);
        FlatWriteMapped(v, pid, start, data[..offset]);
        if found.None? {
          MappedLenIs(v, pid, start, |data|, offset);
          return Err(EFAULT), visits;
        }
        var area := found.value;
        var areaRemaining := area.range.end - current;
        var accessLen := if remaining < areaRemaining then remaining else areaRemaining;
        MappedConcat(v, pid, start, current, current + accessLen);
        FlatWriteNext(v, pid, start, data, offset, current, accessLen);
        visits := WriteArea(pid, area, current, data[offset..offset + accessLen], offset, visits);
        offset, remaining, current := offset + accessLen, remaining - accessLen, current + accessLen;
      }
      MappedLenIs(v, pid, start, |data|, offset);
      r := Ok(());
    }

    /** A user store: through the entry if it is writable, else after the page fault handler
        has checked the area and broken the sharing, which makes it writable. */
    method UserStore(pid: nat, a: nat, b: Byte) returns (r: Outcome)
      requires Valid() && pid in areas
      modifies this`mem, this`flat
      ensures Valid() && (flat, r) == FlatStore(old(flat), pid, a, b)
    {
      var s := Slot(pid, a / PAGE_SIZE);
      assert TiedAt(mem, areas, flat, s);
      if !(s in mem.ptes && mem.ptes[s].attr.write) {
        var found := OverlappingAddr(pid, a);
        if found.None? {
          return Sigbus;
        }
        SamePage(areas[pid], a);
        AreaAtUnique(areas[pid], found.value, a);
        if !found.value.permission.write {
          return Sigsegv;
        }
        HandlePage(s, found.value, true);
      }
      SoundStore(mem, areas, flat, s, a % PAGE_SIZE, [b]);
      mem := Store(mem, s, a % PAGE_SIZE, [b]);
      flat := FlatWrite(flat, pid, a, [b]);
      r := Done;
    }

    /** The hardware lets the load through: there is an entry, and it is readable. */
    ghost predicate Readable(pid: nat, a: nat)
      reads this
    {
      Slot(pid, a / PAGE_SIZE) in mem.ptes && mem.ptes[Slot(pid, a / PAGE_SIZE)].attr.read
    }

    /** A user load: through the entry if it is readable, else the fault handler answers.  An entry that is readable
        although its area is not, as mmap makes them, gives the byte where a signal is due. */
    method UserLoad(pid: nat, a: nat) returns (r: Load)
      requires Valid() && pid in areas
      ensures r == if Readable(pid, a) then Value(FlatByte(flat, pid, a)) else FlatLoad(flat, pid, a)
      ensures r == FlatLoad(flat, pid, a) <==> (FlatMapped(flat, pid, a) && Readable(pid, a) ==> flat[Slot(pid, a / PAGE_SIZE)].permission.read)
    {
      var s := Slot(pid, a / PAGE_SIZE);
      assert TiedAt(mem, areas, flat, s);
      if s in mem.ptes && mem.ptes[s].attr.read {
        Entry(mem, multiset{}, s);
        return Value(Shown(mem, s)[a % PAGE_SIZE]);
      }
      var found := OverlappingAddr(pid, a);
      if found.None? { return Fault(Sigbus); }
      SamePage(areas[pid], a);
      AreaAtUnique(areas[pid], found.value, a);
      if !found.value.permission.read { return Fault(Sigsegv); }
      assert false;
    }

    /** An instruction fetch: through the entry if it is executable, else the fault handler answers. */
    method UserFetch(pid: nat, a: nat) returns (r: Load)
      requires Valid() && pid in areas
      ensures r == FlatFetch(flat, pid, a)
    {
      var s := Slot(pid, a / PAGE_SIZE);
      assert TiedAt(mem, areas, flat, s);
      if s in mem.ptes && mem.ptes[s].attr.execute {
        Entry(mem, multiset{}, s);
        return Value(Shown(mem, s)[a % PAGE_SIZE]);
      }
      var found := OverlappingAddr(pid, a);
      if found.None? { return Fault(Sigbus); }
      SamePage(areas[pid], a);
      AreaAtUnique(areas[pid], found.value, a);
      if !found.value.permission.execute { return Fault(Sigsegv); }
      assert false;
    }

    method FindFree(pid: nat, hint: nat, len: nat) returns (found: Option<nat>)
      requires Valid() && pid in areas && len > 0
      ensures FirstFit(flat, pid, SearchFrom(hint), Ceil(len), found)
    {
      PageBoundaries(len);
      forall c ensures Fits(areas[pid], c, Ceil(len)) <==> FlatFits(flat, pid, c, Ceil(len)) {
        FitsIsFlat(mem, areas, flat, pid, c, Ceil(len));
      }
      found := FindAvailable(areas[pid], hint, len);
    }

    /** Searching and then mapping, with the lock held throughout: the mmap cannot fail. */
    method MmapFirstFit(pid: nat, hint: nat, len: nat, permission: Permission) returns (at: Option<nat>)
      requires Valid() && pid in areas && Aligned(hint) && Aligned(len) && len > 0
      modifies this
      ensures Valid() && areas.Keys == old(areas.Keys) && FirstFit(old(flat), pid, SearchFrom(hint), len, at)
      ensures flat == FlatMmapFound(old(flat), pid, at, len, permission)
    {
      PageBoundaries(len);
      at := FindFree(pid, hint, len);
      if at.Some? {
        var mapped := Mmap(pid, at.value, len, permission);
        assert mapped.Ok?;
      }
    }

    /** MMList::mmap_hint: the address is the first fit, which is the hint if it is free.
        None stands for ENOMEM. */
    method MmapHint(pid: nat, hint: nat, len: nat, permission: Permission) returns (at: Option<nat>)
      requires Valid() && pid in areas && Aligned(hint) && Aligned(len) && len > 0
      modifies this
      ensures Valid() && areas.Keys == old(areas.Keys) && FirstFit(old(flat), pid, SearchFrom(hint), len, at)
      ensures flat == FlatMmapFound(old(flat), pid, at, len, permission)
    {
      PageBoundaries(hint);
      if hint != 0 {
        var mapped := Mmap(pid, hint, len, permission);
        if mapped.Ok? {
          return Some(hint);
        }
        assert flat == old(flat);
      }
      at := MmapFirstFit(pid, hint, len, permission);
    }
  }

  /** Memory mapped without read permission: a load gives its zeros where a signal is due. */
  method LoadUnreadable() returns (k: Kernel, r: Load)
    ensures k.Valid() && FlatLoad(k.flat, 0, PAGE_SIZE) == Fault(Sigsegv) && r == Value(0)
  {
    k := new Kernel(0);
    k.NewSpace(0);
    assert k.flat == map[];
    FitsAligned(k.flat, 0, PAGE_SIZE, PAGE_SIZE);
    var mapped := k.Mmap(0, PAGE_SIZE, PAGE_SIZE, Permission(false, false, true));
    assert InRange(Slot(0, 1), 0, VRange(PAGE_SIZE, PAGE_SIZE + PAGE_SIZE));
    assert mapped.Ok? && k.flat[Slot(0, 1)] == FlatPage(ZeroPage(), Permission(false, false, true));
    assert Slot(0, 1) in Pages(0, VRange(PAGE_SIZE, PAGE_SIZE + PAGE_SIZE)) && Slot(0, 1) in k.mem.ptes;
    assert k.Readable(0, PAGE_SIZE) && FlatByte(k.flat, 0, PAGE_SIZE) == ZeroPage()[0];
    r := k.UserLoad(0, PAGE_SIZE);
  }
}
