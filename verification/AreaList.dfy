/** The loops over the area set: first-fit search, unmap and protect. */
module AreaList {
  import opened Wrappers
  import opened AddrRange
  import opened MMArea

  datatype Errno = EINVAL | ENOMEM | EEXIST | EFAULT
  datatype Result<+T> = Ok(value: T) | Err(error: Errno)

  // ----- find_available

  /** Whether the bounds of `range` select this area. */
  predicate Hit(a: Area, range: VRange)
    requires range.start <= range.end
  {
    WithinBounds(range.IntoBounds(), a.range)
  }

  lemma HitIsOverlap(a: Area, range: VRange)
    requires a.Valid() && range.start <= range.end
    ensures Hit(a, range) <==> if range.Proper() then a.range.Overlaps(range) else a.Has(range.start)
  {
  }

  function Hits(areas: set<Area>, range: VRange): set<Area>
    requires range.start <= range.end
  {
    set a | a in areas && Hit(a, range)
  }

  /** `len` bytes fit at `at`: inside user space and clear of every area. */
  ghost predicate Fits(areas: set<Area>, at: nat, len: nat) {
    IsUser(VRange(at, at + len)) && forall a <- areas :: !Hit(a, VRange(at, at + len))
  }

  lemma {:induction false} LastExists(s: set<Area>)
    requires s != {}
    ensures exists last <- s :: forall b <- s :: b.range.end <= last.range.end
  {
    var a :| a in s;
    if s != {a} {
      LastExists(s - {a});
      var last :| last in s - {a} && forall b <- s - {a} :: b.range.end <= last.range.end;
      var top := if last.range.end <= a.range.end then a else last;
      assert forall b <- s :: b.range.end <= top.range.end;
    }
  }

  /** Every start below the end of an overlapping area overlaps it too. */
  lemma JumpSkipsNothing(areas: set<Area>, at: nat, len: nat, last: Area, c: nat)
    requires ValidSet(areas) && last in areas && Hit(last, VRange(at, at + len))
    requires at <= c < last.range.end
    ensures !Fits(areas, c, len)
  {
    HitIsOverlap(last, VRange(at, at + len));
    HitIsOverlap(last, VRange(c, c + len));
  }

  /** First fit: the least address at or above the hint where the rounded-up length fits,
      and None exactly when there is none. */
  method FindAvailable(areas: set<Area>, hint: nat, len: nat) returns (r: Option<nat>)
    requires ValidSet(areas)
    ensures var from := if hint == 0 then RANDOM_START else Floor(hint);
            match r
            case Some(at) => from <= at && Aligned(at) && Fits(areas, at, Ceil(len))
                             && forall c | from <= c < at :: !Fits(areas, c, Ceil(len))
            case None => forall c | from <= c :: !Fits(areas, c, Ceil(len))
  {
    var need := Ceil(len);
    var from := if hint == 0 then RANDOM_START else Floor(hint);
    PageBoundaries(hint);
    var range := VRange(from, from + need);
    while true
      invariant from <= range.start && range.end == range.start + need && Aligned(range.start)
      invariant forall c | from <= c < range.start :: !Fits(areas, c, need)
      decreases USER_TOP - range.start
    {
      if !IsUser(range) {
        return None;
      }
      var hits := Hits(areas, range);
      if hits == {} {
        assert forall a <- areas :: Hit(a, range) ==> a in hits;
        return Some(range.start);
      }
      LastExists(hits);
      var last :| last in hits && forall b <- hits :: b.range.end <= last.range.end;
      HitIsOverlap(last, range);
      forall c | range.start <= c < last.range.end ensures !Fits(areas, c, need) {
        JumpSkipsNothing(areas, range.start, need, last, c);
      }
      PageBoundaries(last.range.end);
      range := VRange(Ceil(last.range.end), Ceil(last.range.end) + need);
    }
  }

  // ----- unmap

  function Opt(a: Option<Area>): set<Area> { if a.Some? then {a.value} else {} }

  /** What is left of an overlapped area, cut out of a copy of it with `Split`. */
  method Remains(area: Area, mask: VRange) returns (left: Option<Area>, right: Option<Area>)
    requires area.Valid() && IsMask(mask) && area.range.MaskWith(mask).Some?
    ensures left.Some? <==> area.range.start < mask.start
    ensures right.Some? <==> mask.end < area.range.end
    ensures Opt(left) + Opt(right) == Outside(area, mask)
  {
    var Mask(l, mid, r) := area.range.MaskWith(mask).value;
    left, right := None, None;
    if l.Some? && r.Some? {
      SplitKeepsMeaning(area, l.value.end);
      var (first, rest) := area.Split(l.value.end);
      SplitKeepsMeaning(rest.value, r.value.start);
      SplitKeepsMeaning(area, r.value.start);
      left, right := first, rest.value.Split(r.value.start).1;
      assert right.value == RightPiece(area, mask);
    } else if l.Some? {
      SplitKeepsMeaning(area, l.value.end);
      left := area.Split(l.value.end).0;
    } else if r.Some? {
      SplitKeepsMeaning(area, r.value.start);
      right := area.Split(r.value.start).1;
    }
  }

  ghost predicate CutBy(areas: set<Area>, at: nat) {
    exists a <- areas :: a.range.start < at < a.range.end
  }

  lemma AllOutsideAdd(areas: set<Area>, a: Area, mask: VRange)
    requires AllValid(areas) && a.Valid() && IsMask(mask)
    ensures AllOutside(areas + {a}, mask) == AllOutside(areas, mask) + Outside(a, mask)
  {
  }

  lemma Regroup(kept: set<Area>, l0: Option<Area>, r0: Option<Area>, l: Option<Area>, r: Option<Area>)
    requires l.Some? ==> l0.None?
    requires r.Some? ==> r0.None?
    ensures kept + Opt(if l.Some? then l else l0) + Opt(if r.Some? then r else r0)
         == kept + Opt(l0) + Opt(r0) + (Opt(l) + Opt(r))
  {
  }

  /** What the pass has gathered: the areas it keeps and the two cut-off ends. */
  datatype Pass = Pass(kept: set<Area>, left: Option<Area>, right: Option<Area>) {
    function All(): set<Area> { kept + Opt(left) + Opt(right) }
  }

  /** unmap's visit of one area: its assertions are that no earlier area was cut where this one is. */
  method Visit(area: Area, mask: VRange, p: Pass) returns (q: Pass)
    requires area.Valid() && IsMask(mask)
    requires CutBy({area}, mask.start) ==> p.left.None?
    requires CutBy({area}, mask.end) ==> p.right.None?
    ensures q.All() == p.All() + Outside(area, mask)
    ensures q.left.Some? ==> p.left.Some? || CutBy({area}, mask.start)
    ensures q.right.Some? ==> p.right.Some? || CutBy({area}, mask.end)
  {
    if area.range.MaskWith(mask).None? {
      q := p.(kept := p.kept + {area});
    } else {
      var left, right := Remains(area, mask);
      assert area in {area};
      assert left.Some? ==> p.left.None?;
      assert right.Some? ==> p.right.None?;
      Regroup(p.kept, p.left, p.right, left, right);
      q := p.(left := if left.Some? then left else p.left, right := if right.Some? then right else p.right);
    }
  }

  lemma CutOnce(areas: set<Area>, done: set<Area>, a: Area, at: nat)
    requires ValidSet(areas) && done <= areas && a in areas - done && CutBy({a}, at)
    ensures !CutBy(done, at)
  {
  }

  /** unmap's pass over the areas. */
  method UnmapAreas(areas: set<Area>, mask: VRange) returns (out: set<Area>)
    requires ValidSet(areas) && IsMask(mask)
    ensures out == AllOutside(areas, mask)
  {
    var rest, p := areas, Pass({}, None, None);
    ghost var done: set<Area> := {};
    while rest != {}
      invariant done + rest == areas && done !! rest
      invariant p.All() == AllOutside(done, mask)
      invariant p.left.Some? ==> CutBy(done, mask.start)
      invariant p.right.Some? ==> CutBy(done, mask.end)
      decreases rest
    {
      var area :| area in rest;
      if CutBy({area}, mask.start) { CutOnce(areas, done, area, mask.start); }
      if CutBy({area}, mask.end) { CutOnce(areas, done, area, mask.end); }
      AllOutsideAdd(done, area, mask);
      p := Visit(area, mask, p);
      rest := rest - {area};
      done := done + {area};
    }
    assert done == areas;
    out := p.All();
  }

  /** Removes exactly [start, ceil(start + len)) from the map of the address space. */
  method Unmap(areas: set<Area>, start: nat, len: nat) returns (r: Result<set<Area>>)
    requires ValidSet(areas) && Aligned(start)
    ensures r == Err(EINVAL) <==> !IsUser(VRange(start, Ceil(start + len)))
    ensures r.Err? ==> r.error == EINVAL
    ensures r.Ok? ==> ValidSet(r.value)
    ensures r.Ok? ==> forall x: nat :: MeaningAt(r.value, x) ==
                                  if start <= x < Ceil(start + len) then None else MeaningAt(areas, x)
  {
    PageBoundaries(start + len);
    var mask := VRange(start, Ceil(start + len));
    if !IsUser(mask) {
      return Err(EINVAL);
    }
    var out := UnmapAreas(areas, mask);
    OutsideIsValid(areas, mask);
    forall x: nat ensures MeaningAt(out, x) == if mask.Has(x) then None else MeaningAt(areas, x) {
      OutsideIsPointwise(areas, mask, x);
    }
    r := Ok(out);
  }

  // ----- protect

  lemma AllInsideAdd(areas: set<Area>, a: Area, mask: VRange, permission: Permission)
    requires AllValid(areas) && a.Valid() && IsMask(mask)
    ensures AllInside(areas + {a}, mask, permission) == AllInside(areas, mask, permission) + Inside(a, mask, permission)
  {
  }

  lemma ProtectedAdd(areas: set<Area>, a: Area, mask: VRange, permission: Permission)
    requires AllValid(areas) && a.Valid() && IsMask(mask)
    ensures Protected(areas + {a}, mask, permission) == Protected(areas, mask, permission) + (Outside(a, mask) + Inside(a, mask, permission))
    ensures a.range.MaskWith(mask).None? ==> Outside(a, mask) + Inside(a, mask, permission) == {a}
  {
    AllOutsideAdd(areas, a, mask);
    AllInsideAdd(areas, a, mask, permission);
  }

  /** protect's treatment of one overlapped area: cut off both sides, change the middle.
      The two unreachable arms are the `Some?` accesses. */
  method ProtectOne(area: Area, mask: VRange, permission: Permission) returns (pieces: set<Area>)
    requires area.Valid() && IsMask(mask) && area.range.MaskWith(mask).Some?
    ensures pieces == Outside(area, mask) + Inside(area, mask, permission)
  {
    var Mask(l, mid, r) := area.range.MaskWith(mask).value;
    var current := area;
    pieces := {};
    if l.Some? {
      SplitKeepsMeaning(current, l.value.end);
      var (left, right) := current.Split(l.value.end);
      pieces := pieces + {left.value};
      current := right.value;
    }
    if r.Some? {
      SplitKeepsMeaning(current, r.value.start);
      SplitKeepsMeaning(area, r.value.start);
      var (left, right) := current.Split(r.value.start);
      assert right.value == RightPiece(area, mask);
      pieces := pieces + {right.value};
      current := left.value;
    }
    pieces := pieces + {current.(permission := permission)};
  }

  /** Changes the permission of the mapped part of [start, ceil(start + len)) and nothing
      else; ENOMEM says that none of it is mapped. */
  method Protect(areas: set<Area>, start: nat, len: nat, permission: Permission) returns (r: Result<set<Area>>)
    requires ValidSet(areas) && Aligned(start) && len != 0
    ensures r == Err(EINVAL) <==> !IsUser(VRange(start, Ceil(start + len)))
    ensures r == Err(ENOMEM) <==> IsUser(VRange(start, Ceil(start + len)))
                                  && forall x | start <= x < Ceil(start + len) :: !Mapped(areas, x)
    ensures r.Err? ==> r.error in {EINVAL, ENOMEM}
    ensures r.Ok? ==> ValidSet(r.value)
    ensures r.Ok? ==> forall x: nat :: MeaningAt(r.value, x) ==
                                  if start <= x < Ceil(start + len) then WithPermission(MeaningAt(areas, x), permission)
                                  else MeaningAt(areas, x)
  {
    PageBoundaries(start + len);
    var mask := VRange(start, Ceil(start + len));
    if !IsUser(mask) {
      return Err(EINVAL);
    }
    var found, out := ProtectAreas(areas, mask, permission);
    ProtectedIsValid(areas, mask, permission);
    forall x: nat ensures MeaningAt(out, x) == if mask.Has(x) then WithPermission(MeaningAt(areas, x), permission)
                                               else MeaningAt(areas, x) {
      ProtectedIsPointwise(areas, mask, permission, x);
    }
    if !found {
      return Err(ENOMEM);
    }
    r := Ok(out);
  }

  method ProtectAreas(areas: set<Area>, mask: VRange, permission: Permission) returns (found: bool, out: set<Area>)
    requires ValidSet(areas) && IsMask(mask)
    ensures out == Protected(areas, mask, permission)
    ensures found <==> exists x :: mask.Has(x) && Mapped(areas, x)
  {
    var rest := areas;
    ghost var done: set<Area> := {};
    found, out := false, {};
    while rest != {}
      invariant done + rest == areas && done !! rest
      invariant out == Protected(done, mask, permission)
      invariant found <==> exists a <- done :: a.range.MaskWith(mask).Some?
      decreases rest
    {
      var area :| area in rest;
      ProtectedAdd(done, area, mask, permission);
      if area.range.MaskWith(mask).None? {
        out := out + {area};
      } else {
        found := true;
        var pieces := ProtectOne(area, mask, permission);
        out := out + pieces;
      }
      rest := rest - {area};
      done := done + {area};
    }
    assert done == areas;
    FoundIsMapped(areas, mask);
  }

  lemma FoundIsMapped(areas: set<Area>, mask: VRange)
    requires ValidSet(areas) && IsMask(mask)
    ensures (exists a <- areas :: a.range.MaskWith(mask).Some?) <==> exists x :: mask.Has(x) && Mapped(areas, x)
  {
    if a :| a in areas && a.range.MaskWith(mask).Some? {
      var x := if a.range.start < mask.start then mask.start else a.range.start;
      assert mask.Has(x) && a.Has(x);
    }
    if x :| mask.Has(x) && Mapped(areas, x) {
      var a := AreaAt(areas, x);
      MaskExact(a.range, mask, x);
    }
  }
}
