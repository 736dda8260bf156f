/** The memory that the kernel must appear to implement: per address space, a map from
    its pages to their bytes and permission.  It knows nothing of frames, sharing or
    reference counts; a fork here copies every byte. */
module FlatMemory {
  import opened Wrappers
  import opened AddrRange
  import opened MMArea
  import opened AreaList
  import opened CowMemory

  datatype FlatPage = FlatPage(data: seq<Byte>, permission: Permission)
  type Flat = map<Slot, FlatPage>

  predicate InRange(s: Slot, pid: nat, range: VRange) {
    s.space == pid && range.start <= s.vpn * PAGE_SIZE < range.end
  }

  ghost function Pages(pid: nat, range: VRange): (r: set<Slot>)
    ensures forall s :: s in r <==> InRange(s, pid, range)
  {
    var r := set v | range.start / PAGE_SIZE <= v <= range.end / PAGE_SIZE && InRange(Slot(pid, v), pid, range) :: Slot(pid, v);
    assert forall s | InRange(s, pid, range) :: Slot(pid, s.vpn) in r;
    r
  }

  ghost function FlatMmap(v: Flat, pid: nat, range: VRange, permission: Permission): Flat {
    map s | s in v.Keys + Pages(pid, range) :: if InRange(s, pid, range) then FlatPage(ZeroPage(), permission) else v[s]
  }

  ghost function FlatUnmap(v: Flat, pid: nat, range: VRange): Flat {
    map s | s in v && !InRange(s, pid, range) :: v[s]
  }

  ghost function FlatProtect(v: Flat, pid: nat, range: VRange, permission: Permission): Flat {
    map s | s in v :: if InRange(s, pid, range) then v[s].(permission := permission) else v[s]
  }

  ghost predicate Unused(v: Flat, pid: nat) { forall s <- v :: s.space != pid }

  /** Fork copies every page of the parent into the new address space `child`. */
  ghost function FlatFork(v: Flat, parent: nat, child: nat): Flat {
    map s | s in v.Keys + (set t | t in v && t.space == parent :: Slot(child, t.vpn)) ::
      if s.space == child && Slot(parent, s.vpn) in v then v[Slot(parent, s.vpn)] else v[s]
  }

  lemma FlatForkAt(v: Flat, parent: nat, child: nat, s: Slot)
    requires Unused(v, child)
    ensures var w, from := FlatFork(v, parent, child), Slot(parent, s.vpn);
            if s.space == child then (s in w <==> from in v) && (s in w ==> w[s] == v[from])
            else (s in w <==> s in v) && (s in w ==> w[s] == v[s])
  {
  }

  ghost function FlatExit(v: Flat, pid: nat): Flat {
    map s | s in v && s.space != pid :: v[s]
  }

  /** `data` laid over the memory of `pid` from address `start` on. */
  ghost function FlatWrite(v: Flat, pid: nat, start: nat, data: seq<Byte>): Flat {
    map s | s in v :: if s.space == pid then v[s].(data := Overlay(v[s].data, s.vpn * PAGE_SIZE, start, data)) else v[s]
  }

  ghost function Overlay(page: seq<Byte>, base: nat, start: nat, data: seq<Byte>): seq<Byte> {
    seq(|page|, i requires 0 <= i < |page| =>
      if start <= base + i < start + |data| then data[base + i - start] else page[i])
  }

  ghost predicate FlatMapped(v: Flat, pid: nat, a: nat) { Slot(pid, a / PAGE_SIZE) in v }

  ghost function FlatByte(v: Flat, pid: nat, a: nat): Byte {
    var s := Slot(pid, a / PAGE_SIZE);
    if s in v && a % PAGE_SIZE < |v[s].data| then v[s].data[a % PAGE_SIZE] else 0
  }

  ghost predicate AllMapped(v: Flat, pid: nat, start: nat, end: nat) {
    forall a | start <= a < end :: FlatMapped(v, pid, a)
  }

  /** Note that a range ending at the very top of user space is refused. */
  predicate Accessible(start: nat, len: nat) { start < USER_TOP && start + len < USER_TOP }

  /** What reading `len` bytes must give. */
  ghost function FlatRead(v: Flat, pid: nat, start: nat, len: nat): Result<seq<Byte>> {
    if !Accessible(start, len) then Err(EINVAL)
    else if AllMapped(v, pid, start, start + len) then Ok(Bytes(v, pid, start, len))
    else Err(EFAULT)
  }

  ghost function Bytes(v: Flat, pid: nat, start: nat, len: nat): seq<Byte> {
    seq(len, i requires 0 <= i => FlatByte(v, pid, start + i))
  }

  // ----- the operations with their error cases

  /** Page `s` is in the way of `len` bytes at `at`. */
  predicate Blocks(s: Slot, pid: nat, at: nat, len: nat) {
    s.space == pid && at < s.vpn * PAGE_SIZE + PAGE_SIZE && s.vpn * PAGE_SIZE < at + len
  }

  /** `len` bytes fit at `at`: in user space and clear of every page in use. */
  ghost predicate FlatFits(v: Flat, pid: nat, at: nat, len: nat) {
    IsUser(VRange(at, at + len)) && forall s {:trigger Blocks(s, pid, at, len)} | Blocks(s, pid, at, len) :: s !in v
  }

  lemma FitsAligned(v: Flat, pid: nat, at: nat, len: nat)
    requires Aligned(at) && Aligned(len)
    ensures FlatFits(v, pid, at, len) <==> IsUser(VRange(at, at + len)) && forall s <- Pages(pid, VRange(at, at + len)) :: s !in v
  {
    var ps := Pages(pid, VRange(at, at + len));
    assert forall s <- ps :: Blocks(s, pid, at, len);
    assert forall s | Blocks(s, pid, at, len) :: s in ps;
  }

  ghost function FlatMapAt(v: Flat, pid: nat, at: nat, len: nat, permission: Permission): (Flat, Result<()>) {
    if FlatFits(v, pid, at, len) then (FlatMmap(v, pid, VRange(at, at + len), permission), Ok(())) else (v, Err(EEXIST))
  }

  ghost function FlatUnmapAt(v: Flat, pid: nat, range: VRange): (Flat, Result<()>) {
    if IsUser(range) then (FlatUnmap(v, pid, range), Ok(())) else (v, Err(EINVAL))
  }

  ghost function FlatProtectAt(v: Flat, pid: nat, range: VRange, p: Permission): (Flat, Result<()>) {
    if !IsUser(range) then (v, Err(EINVAL))
    else (FlatProtect(v, pid, range, p), if exists s <- Pages(pid, range) :: s in v then Ok(()) else Err(ENOMEM))
  }

  /** A store instruction: done at once, or after one fault, or answered with a signal. */
  datatype Outcome = Done | Sigbus | Sigsegv

  ghost function FlatStore(v: Flat, pid: nat, a: nat, b: Byte): (Flat, Outcome) {
    if !FlatMapped(v, pid, a) then (v, Sigbus)
    else if !v[Slot(pid, a / PAGE_SIZE)].permission.write then (v, Sigsegv)
    else (FlatWrite(v, pid, a, [b]), Done)
  }

  /** A load instruction: a byte, or a signal. */
  datatype Load = Value(byte: Byte) | Fault(signal: Outcome)

  ghost function FlatLoad(v: Flat, pid: nat, a: nat): Load {
    if !FlatMapped(v, pid, a) then Fault(Sigbus)
    else if !v[Slot(pid, a / PAGE_SIZE)].permission.read then Fault(Sigsegv)
    else Value(FlatByte(v, pid, a))
  }

  ghost function FlatFetch(v: Flat, pid: nat, a: nat): Load {
    if !FlatMapped(v, pid, a) then Fault(Sigbus)
    else if !v[Slot(pid, a / PAGE_SIZE)].permission.execute then Fault(Sigsegv)
    else Value(FlatByte(v, pid, a))
  }

  function SearchFrom(hint: nat): nat { if hint == 0 then RANDOM_START else Floor(hint) }

  /** First fit: the least address from a start on where `len` bytes fit. */
  ghost predicate FirstFit(v: Flat, pid: nat, from: nat, len: nat, found: Option<nat>) {
    match found
    case Some(at) => from <= at && Aligned(at) && FlatFits(v, pid, at, len)
                     && forall c | from <= c < at :: !FlatFits(v, pid, c, len)
    case None => forall c | from <= c :: !FlatFits(v, pid, c, len)
  }

  lemma FirstFitUnique(v: Flat, pid: nat, from: nat, len: nat, a: Option<nat>, b: Option<nat>)
    requires FirstFit(v, pid, from, len, a) && FirstFit(v, pid, from, len, b)
    ensures a == b
  {}

  /** The first fit, if there is one. */
  ghost function FlatFound(v: Flat, pid: nat, from: nat, len: nat): Option<nat> {
    if found: Option<nat> :| FirstFit(v, pid, from, len, found) then found else None
  }

  ghost function FlatMmapFound(v: Flat, pid: nat, at: Option<nat>, len: nat, permission: Permission): Flat {
    if at.Some? then FlatMmap(v, pid, VRange(at.value, at.value + len), permission) else v
  }

  /** How many of the next `len` bytes from `start` on are mapped before the first hole. */
  ghost function MappedLen(v: Flat, pid: nat, start: nat, len: nat): (k: nat)
    ensures k <= len
    decreases len
  {
    if len > 0 && FlatMapped(v, pid, start) then 1 + MappedLen(v, pid, start + 1, len - 1) else 0
  }

  lemma {:induction false} MappedLenIs(v: Flat, pid: nat, start: nat, len: nat, k: nat)
    requires k <= len && AllMapped(v, pid, start, start + k) && (k < len ==> !FlatMapped(v, pid, start + k))
    ensures MappedLen(v, pid, start, len) == k
    decreases k
  {
    if k > 0 {
      assert FlatMapped(v, pid, start);
      MappedLenIs(v, pid, start + 1, len - 1, k - 1);
    }
  }

  /** What writing `data` must do: store everything up to the first hole. */
  ghost function FlatAccess(v: Flat, pid: nat, start: nat, data: seq<Byte>): (Flat, Result<()>) {
    if !Accessible(start, |data|) then (v, Err(EINVAL))
    else
      var k := MappedLen(v, pid, start, |data|);
      (FlatWrite(v, pid, start, data[..k]), if k == |data| then Ok(()) else Err(EFAULT))
  }

  lemma OverlayConcat(page: seq<Byte>, base: nat, start: nat, first: seq<Byte>, second: seq<Byte>)
    ensures Overlay(Overlay(page, base, start, first), base, start + |first|, second) == Overlay(page, base, start, first + second)
  {
  }

  /** Writing one piece after another is writing both at once. */
  lemma FlatWriteNext(v: Flat, pid: nat, start: nat, data: seq<Byte>, k: nat, mid: nat, n: nat)
    requires k + n <= |data| && mid == start + k
    ensures FlatWrite(FlatWrite(v, pid, start, data[..k]), pid, mid, data[k..k + n]) == FlatWrite(v, pid, start, data[..k + n])
  {
    var first, second := data[..k], data[k..k + n];
    assert data[..k + n] == first + second;
    forall s | s in v { OverlayConcat(v[s].data, s.vpn * PAGE_SIZE, start, first, second); }
  }

  lemma FlatWriteNothing(v: Flat, pid: nat, start: nat)
    ensures FlatWrite(v, pid, start, []) == v
  {
    forall s | s in v ensures Overlay(v[s].data, s.vpn * PAGE_SIZE, start, []) == v[s].data {}
  }

  lemma FlatWriteMapped(v: Flat, pid: nat, start: nat, data: seq<Byte>)
    ensures forall a :: FlatMapped(FlatWrite(v, pid, start, data), pid, a) <==> FlatMapped(v, pid, a)
  {
  }

  /** A write that stays in one page overwrites that page and leaves every other as it is. */
  lemma OverlayPage(page: seq<Byte>, k: Slot, s: Slot, at: nat, data: seq<Byte>)
    requires |page| == PAGE_SIZE && at + |data| <= PAGE_SIZE
    ensures Overlay(page, k.vpn * PAGE_SIZE, s.vpn * PAGE_SIZE + at, data) ==
            if k.vpn == s.vpn then Overwrite(page, at, data) else page
  {
    if k.vpn < s.vpn {
      assert k.vpn * PAGE_SIZE + PAGE_SIZE <= s.vpn * PAGE_SIZE;
    } else if k.vpn > s.vpn {
      assert s.vpn * PAGE_SIZE + PAGE_SIZE <= k.vpn * PAGE_SIZE;
    }
  }

  /** A slice of one page is a slice of the flat memory. */
  lemma PageBytes(v: Flat, pid: nat, vpn: nat, from: nat, to: nat)
    requires Slot(pid, vpn) in v && |v[Slot(pid, vpn)].data| == PAGE_SIZE && from <= to <= PAGE_SIZE
    ensures v[Slot(pid, vpn)].data[from..to] == Bytes(v, pid, vpn * PAGE_SIZE + from, to - from)
  {
    var page, bytes := v[Slot(pid, vpn)].data[from..to], Bytes(v, pid, vpn * PAGE_SIZE + from, to - from);
    forall i | 0 <= i < to - from ensures page[i] == bytes[i] {
      InPage(vpn, from + i);
      assert bytes[i] == FlatByte(v, pid, vpn * PAGE_SIZE + (from + i));
    }
  }

  lemma BytesConcat(v: Flat, pid: nat, start: nat, n: nat, mid: nat, k: nat)
    requires mid == start + n
    ensures Bytes(v, pid, start, n) + Bytes(v, pid, mid, k) == Bytes(v, pid, start, n + k)
  {
  }

  lemma MappedConcat(v: Flat, pid: nat, a: nat, b: nat, c: nat)
    requires AllMapped(v, pid, a, b) && AllMapped(v, pid, b, c)
    ensures AllMapped(v, pid, a, c)
  {
  }


  // ----- the slices an access visits

  /** A slice of one page, for the data at an offset. */
  datatype Visit = Visit(offset: nat, vpn: nat, from: nat, len: nat) {
    ghost predicate Has(x: nat) { offset <= x < offset + len }

    ghost predicate Fits(start: nat) { 0 < len <= PAGE_SIZE - from && vpn * PAGE_SIZE + from == start + offset }
  }

  /** The slices cover the first k bytes of the data in order, without gap or overlap, each at its place. */
  ghost predicate Tiled(visits: seq<Visit>, start: nat, k: nat)
    decreases |visits|
  {
    if visits == [] then k == 0
    else
      var n := |visits| - 1;
      visits[n].Fits(start) && visits[n].offset + visits[n].len == k && Tiled(visits[..n], start, visits[n].offset)
  }

  lemma TiledNext(visits: seq<Visit>, start: nat, k: nat, v: Visit)
    requires Tiled(visits, start, k) && v.offset == k && v.Fits(start)
    ensures Tiled(visits + [v], start, k + v.len)
  {
    assert (visits + [v])[..|visits|] == visits;
  }

  /** Where the slice of a page starts and ends within the page, for an access to [current, end). */
  function SliceFrom(current: nat, vpn: nat): nat { if vpn * PAGE_SIZE < current then current - vpn * PAGE_SIZE else 0 }

  function SliceTo(end: nat, vpn: nat): nat
    requires vpn * PAGE_SIZE < end
  {
    if vpn * PAGE_SIZE + PAGE_SIZE > end then end - vpn * PAGE_SIZE else PAGE_SIZE
  }

  /** The bytes below `upTo` are done and the page `vpn` is next. */
  ghost predicate Frontier(current: nat, end: nat, vpn: nat, upTo: nat) {
    && current <= upTo <= end
    && ((upTo == current && vpn == current / PAGE_SIZE) || upTo == vpn * PAGE_SIZE || upTo == end <= vpn * PAGE_SIZE)
  }

  /** The slice of the next page starts where the last one ended. */
  lemma SliceIs(current: nat, end: nat, vpn: nat, upTo: nat)
    requires Frontier(current, end, vpn, upTo) && current < end && vpn * PAGE_SIZE < end
    ensures SliceFrom(current, vpn) < SliceTo(end, vpn) <= PAGE_SIZE && vpn * PAGE_SIZE + SliceFrom(current, vpn) == upTo
    ensures Frontier(current, end, vpn + 1, vpn * PAGE_SIZE + SliceTo(end, vpn))
  {}

  /** Every byte is visited by exactly one slice, which holds it at its own address. */
  lemma {:induction false} VisitedOnce(visits: seq<Visit>, start: nat, k: nat, x: nat) returns (i: nat)
    requires Tiled(visits, start, k) && x < k
    ensures i < |visits| && visits[i].Has(x) && forall j | 0 <= j < |visits| && j != i :: !visits[j].Has(x)
    ensures visits[i].vpn * PAGE_SIZE + visits[i].from + (x - visits[i].offset) == start + x
    ensures visits[i].from + (x - visits[i].offset) < PAGE_SIZE
    decreases |visits|
  {
    var n := |visits| - 1;
    if visits[n].Has(x) {
      i := n;
      forall j | 0 <= j < n ensures !visits[j].Has(x) { VisitedBelow(visits[..n], start, visits[n].offset, j); }
    } else {
      i := VisitedOnce(visits[..n], start, visits[n].offset, x);
    }
  }

  lemma {:induction false} VisitedBelow(visits: seq<Visit>, start: nat, k: nat, j: nat)
    requires Tiled(visits, start, k) && j < |visits|
    ensures visits[j].offset + visits[j].len <= k
    decreases |visits|
  {
    var n := |visits| - 1;
    if j < n { VisitedBelow(visits[..n], start, visits[n].offset, j); }
  }
}
