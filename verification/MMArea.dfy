/** The areas of an address space: what each address is mapped to, and the operations
    on the area set (find_available, and the area part of unmap and protect). */
module MMArea {
  import opened Wrappers
  import opened AddrRange

  const USER_TOP: nat := 0x8000_0000_0000
  const RANDOM_START: nat := 0x1234000

  datatype Permission = Permission(read: bool, write: bool, execute: bool)

  datatype Mapping =
    | Anonymous
    | File(file: nat, offset: nat, length: nat)

  /** What one address means: who may touch it and which byte of which file it shows. */
  datatype Meaning = Meaning(permission: Permission, shared: bool, backing: Backing)
  datatype Backing = Zeroes | FileByte(file: nat, offset: nat)

  predicate IsUser(r: VRange) { !(r.end > USER_TOP || r.start >= USER_TOP) }

  /** FileMapping::offset. */
  function Advance(m: Mapping, diff: nat): Mapping
    requires m.File?
  {
    if m.length <= diff then File(m.file, m.offset + m.length, 0)
    else File(m.file, m.offset + diff, m.length - diff)
  }

  datatype Area = Area(range: VRange, mapping: Mapping, permission: Permission, shared: bool) {

    predicate Has(a: nat) { range.Has(a) }

    function At(a: nat): Meaning
      requires Has(a)
    {
      Meaning(permission, shared,
              match mapping
              case Anonymous => Zeroes
              case File(f, off, _) => FileByte(f, off + (a - range.start)))
    }

    /** Areas are non-empty and page aligned; a file mapping is as long as its area,
        up to the rounding of its last page. */
    predicate Valid() {
      && range.Proper() && Aligned(range.start) && Aligned(range.end) && IsUser(range)
      && (mapping.File? ==> Aligned(mapping.offset) && range.end - range.start < mapping.length + PAGE_SIZE)
    }

    function Split(at: nat): (Option<Area>, Option<Area>)
      requires Aligned(at) && range.Proper()
    {
      match range.Cmp(Point(at))
      case Less => (Some(this), None)
      case Greater => (None, Some(this))
      case Equal =>
        if at == range.start then (None, Some(this))
        else
          var diff := at - range.start;
          var rightMapping := if mapping.Anonymous? then Anonymous else Advance(mapping, diff);
          (Some(this.(range := VRange(range.start, at))),
           Some(Area(VRange(at, range.end), rightMapping, permission, shared)))
    }
  }

  /** A cut strictly inside an area yields two valid halves that together mean what the
      area meant, at every address. */
  lemma SplitKeepsMeaning(a: Area, at: nat)
    requires a.Valid() && Aligned(at) && a.range.start < at < a.range.end
    ensures a.Split(at).0.Some? && a.Split(at).1.Some?
    ensures var (l, r) := (a.Split(at).0.value, a.Split(at).1.value);
            && l.Valid() && r.Valid()
            && l.range == VRange(a.range.start, at) && r.range == VRange(at, a.range.end)
            && (forall x | l.Has(x) :: l.At(x) == a.At(x))
            && (forall x | r.Has(x) :: r.At(x) == a.At(x))
  {
  }

  ghost predicate AllValid(areas: set<Area>) { forall a <- areas :: a.Valid() }

  ghost predicate ValidSet(areas: set<Area>) {
    && AllValid(areas)
    && (forall a, b | a in areas && b in areas && a != b :: a.range.Disjoint(b.range))
  }

  ghost predicate Mapped(areas: set<Area>, x: nat) { exists a <- areas :: a.Has(x) }

  ghost function AreaAt(areas: set<Area>, x: nat): (a: Area)
    requires Mapped(areas, x)
    ensures a in areas && a.Has(x)
  {
    var a :| a in areas && a.Has(x); a
  }

  ghost function MeaningAt(areas: set<Area>, x: nat): Option<Meaning> {
    if Mapped(areas, x) then Some(AreaAt(areas, x).At(x)) else None
  }

  lemma AreaAtUnique(areas: set<Area>, a: Area, x: nat)
    requires ValidSet(areas) && a in areas && a.Has(x)
    ensures Mapped(areas, x) && AreaAt(areas, x) == a
    ensures MeaningAt(areas, x) == Some(a.At(x))
  {
  }

  // ----- cutting a mask out of areas

  /** The pieces of one area that lie outside the mask, made with `Split` as unmap does. */
  function Outside(a: Area, mask: VRange): set<Area>
    requires a.Valid() && mask.start <= mask.end && Aligned(mask.start) && Aligned(mask.end)
  {
    match a.range.MaskWith(mask)
    case None => {a}
    case Some(m) =>
      (if m.left.Some? then {LeftPiece(a, mask)} else {}) + (if m.right.Some? then {RightPiece(a, mask)} else {})
  }

  function LeftPiece(a: Area, mask: VRange): Area
    requires a.Valid() && Aligned(mask.start) && a.range.start < mask.start < a.range.end
  {
    SplitKeepsMeaning(a, mask.start);
    a.Split(mask.start).0.value
  }

  function RightPiece(a: Area, mask: VRange): Area
    requires a.Valid() && Aligned(mask.end) && a.range.start < mask.end < a.range.end
  {
    SplitKeepsMeaning(a, mask.end);
    a.Split(mask.end).1.value
  }

  /** The middle of an area under a mask, cut out of it as protect does. */
  function MidPiece(a: Area, mask: VRange): Area
    requires a.Valid() && mask.start <= mask.end && Aligned(mask.start) && Aligned(mask.end)
    requires a.range.MaskWith(mask).Some?
  {
    var m := a.range.MaskWith(mask).value;
    var right := if m.left.Some? then SplitKeepsMeaning(a, mask.start); a.Split(mask.start).1.value else a;
    if m.right.Some? then SplitKeepsMeaning(right, mask.end); right.Split(mask.end).0.value else right
  }

  function Inside(a: Area, mask: VRange, permission: Permission): set<Area>
    requires a.Valid() && mask.start <= mask.end && Aligned(mask.start) && Aligned(mask.end)
  {
    if a.range.MaskWith(mask).Some? then {MidPiece(a, mask).(permission := permission)} else {}
  }

  ghost predicate IsMask(mask: VRange) {
    mask.start <= mask.end && Aligned(mask.start) && Aligned(mask.end)
  }

  ghost function AllOutside(areas: set<Area>, mask: VRange): set<Area>
    requires AllValid(areas) && IsMask(mask)
  {
    set a, p | a in areas && p in Outside(a, mask) :: p
  }

  ghost function AllInside(areas: set<Area>, mask: VRange, permission: Permission): set<Area>
    requires AllValid(areas) && IsMask(mask)
  {
    set a, p | a in areas && p in Inside(a, mask, permission) :: p
  }

  predicate Within(p: Area, a: Area) { a.range.start <= p.range.start && p.range.end <= a.range.end }

  lemma OutsidePieces(a: Area, mask: VRange, p: Area)
    requires a.Valid() && IsMask(mask) && p in Outside(a, mask)
    ensures p.Valid() && Within(p, a)
    ensures forall x | p.Has(x) :: !mask.Has(x) && p.At(x) == a.At(x)
  {
    var m := a.range.MaskWith(mask);
    if m.Some? && m.value.left.Some? { SplitKeepsMeaning(a, mask.start); }
    if m.Some? && m.value.right.Some? { SplitKeepsMeaning(a, mask.end); }
  }

  lemma OutsideCovers(a: Area, mask: VRange, x: nat) returns (p: Area)
    requires a.Valid() && IsMask(mask) && a.Has(x) && !mask.Has(x)
    ensures p in Outside(a, mask) && p.Has(x)
  {
    if a.range.MaskWith(mask).None? {
      p := a;
    } else if x < mask.start {
      SplitKeepsMeaning(a, mask.start);
      p := LeftPiece(a, mask);
    } else {
      SplitKeepsMeaning(a, mask.end);
      p := RightPiece(a, mask);
    }
  }

  lemma InsidePieces(a: Area, mask: VRange, permission: Permission, p: Area)
    requires a.Valid() && IsMask(mask) && p in Inside(a, mask, permission)
    ensures p.Valid() && Within(p, a) && mask.start <= p.range.start && p.range.end <= mask.end
    ensures forall x | p.Has(x) :: p.At(x) == a.At(x).(permission := permission)
    ensures forall x | a.Has(x) && mask.Has(x) :: p.Has(x)
  {
    var m := a.range.MaskWith(mask).value;
    var right := if m.left.Some? then a.Split(mask.start).1.value else a;
    if m.left.Some? { SplitKeepsMeaning(a, mask.start); }
    if m.right.Some? { SplitKeepsMeaning(right, mask.end); }
  }

  lemma OutsideDisjoint(areas: set<Area>, mask: VRange, a: Area, p: Area, b: Area, q: Area)
    requires ValidSet(areas) && IsMask(mask) && a in areas && b in areas
    requires p in Outside(a, mask) && q in Outside(b, mask) && p != q
    ensures p.range.Disjoint(q.range)
  {
    OutsidePieces(a, mask, p);
    OutsidePieces(b, mask, q);
    if a == b {
      SplitKeepsMeaning(a, mask.start);
      SplitKeepsMeaning(a, mask.end);
    }
  }

  /** The pieces outside a mask are again a valid area set. */
  lemma OutsideIsValid(areas: set<Area>, mask: VRange)
    requires ValidSet(areas) && IsMask(mask)
    ensures ValidSet(AllOutside(areas, mask))
  {
    var out := AllOutside(areas, mask);
    forall p | p in out ensures p.Valid() {
      var a :| a in areas && p in Outside(a, mask);
      OutsidePieces(a, mask, p);
    }
    forall p, q | p in out && q in out && p != q ensures p.range.Disjoint(q.range) {
      var a :| a in areas && p in Outside(a, mask);
      var b :| b in areas && q in Outside(b, mask);
      OutsideDisjoint(areas, mask, a, p, b, q);
    }
  }

  /** They mean exactly what the old set did with the masked addresses taken out. */
  lemma OutsideIsPointwise(areas: set<Area>, mask: VRange, x: nat)
    requires ValidSet(areas) && IsMask(mask)
    ensures MeaningAt(AllOutside(areas, mask), x) == if mask.Has(x) then None else MeaningAt(areas, x)
  {
    var out := AllOutside(areas, mask);
    OutsideIsValid(areas, mask);
    if Mapped(areas, x) && !mask.Has(x) {
      var a := AreaAt(areas, x);
      var p := OutsideCovers(a, mask, x);
      assert p in out;
      OutsidePieces(a, mask, p);
      AreaAtUnique(out, p, x);
    } else if Mapped(out, x) {
      var p := AreaAt(out, x);
      var a :| a in areas && p in Outside(a, mask);
      OutsidePieces(a, mask, p);
    }
  }

  ghost function Protected(areas: set<Area>, mask: VRange, permission: Permission): set<Area>
    requires AllValid(areas) && IsMask(mask)
  {
    AllOutside(areas, mask) + AllInside(areas, mask, permission)
  }

  ghost function WithPermission(m: Option<Meaning>, permission: Permission): Option<Meaning> {
    if m.Some? then Some(m.value.(permission := permission)) else None
  }

  lemma InsideIsValid(areas: set<Area>, mask: VRange, permission: Permission)
    requires ValidSet(areas) && IsMask(mask)
    ensures ValidSet(AllInside(areas, mask, permission))
  {
    var mid := AllInside(areas, mask, permission);
    forall p | p in mid ensures p.Valid() {
      var a :| a in areas && p in Inside(a, mask, permission);
      InsidePieces(a, mask, permission, p);
    }
    forall p, q | p in mid && q in mid && p != q ensures p.range.Disjoint(q.range) {
      var a :| a in areas && p in Inside(a, mask, permission);
      var b :| b in areas && q in Inside(b, mask, permission);
      InsidePieces(a, mask, permission, p);
      InsidePieces(b, mask, permission, q);
    }
  }

  lemma InsideMissesOutside(areas: set<Area>, mask: VRange, permission: Permission, p: Area, q: Area)
    requires ValidSet(areas) && IsMask(mask)
    requires p in AllOutside(areas, mask) && q in AllInside(areas, mask, permission)
    ensures p.range.Disjoint(q.range)
  {
    var a :| a in areas && p in Outside(a, mask);
    var b :| b in areas && q in Inside(b, mask, permission);
    OutsidePieces(a, mask, p);
    InsidePieces(b, mask, permission, q);
    var x := Max(p.range.start, q.range.start);
    assert p.Has(x) ==> !q.Has(x);
  }

  lemma ProtectedIsValid(areas: set<Area>, mask: VRange, permission: Permission)
    requires ValidSet(areas) && IsMask(mask)
    ensures ValidSet(Protected(areas, mask, permission))
  {
    OutsideIsValid(areas, mask);
    InsideIsValid(areas, mask, permission);
    forall p, q | p in AllOutside(areas, mask) && q in AllInside(areas, mask, permission)
      ensures p.range.Disjoint(q.range)
    {
      InsideMissesOutside(areas, mask, permission, p, q);
    }
  }

  /** Protecting changes the permission of the mapped addresses under the mask and nothing else. */
  lemma ProtectedIsPointwise(areas: set<Area>, mask: VRange, permission: Permission, x: nat)
    requires ValidSet(areas) && IsMask(mask)
    ensures MeaningAt(Protected(areas, mask, permission), x) ==
            if mask.Has(x) then WithPermission(MeaningAt(areas, x), permission) else MeaningAt(areas, x)
  {
    var all := Protected(areas, mask, permission);
    ProtectedIsValid(areas, mask, permission);
    OutsideIsPointwise(areas, mask, x);
    if Mapped(areas, x) {
      var a := AreaAt(areas, x);
      if mask.Has(x) {
        var p := MidPiece(a, mask).(permission := permission);
        assert p in Inside(a, mask, permission);
        assert p in all;
        InsidePieces(a, mask, permission, p);
        AreaAtUnique(all, p, x);
      } else {
        var p := OutsideCovers(a, mask, x);
        assert p in all;
        OutsidePieces(a, mask, p);
        AreaAtUnique(all, p, x);
      }
    } else if Mapped(all, x) {
      var p := AreaAt(all, x);
      if p in AllInside(areas, mask, permission) {
        var a :| a in areas && p in Inside(a, mask, permission);
        InsidePieces(a, mask, permission, p);
      } else {
        var a :| a in areas && p in Outside(a, mask);
        OutsidePieces(a, mask, p);
      }
    }
  }
}
