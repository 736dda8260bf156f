/** What the flat memory is, address by address: which bytes each of its operations changes, and what is read back
    afterwards. */
module FlatLaws {
  import opened Wrappers
  import opened AddrRange
  import opened MMArea
  import opened AreaList
  import opened CowMemory
  import opened FlatMemory

  ghost predicate WholePages(v: Flat) { forall s <- v :: |v[s].data| == PAGE_SIZE }

  ghost function PermissionOf(v: Flat, pid: nat, x: nat): Option<Permission> {
    var s := Slot(pid, x / PAGE_SIZE);
    if s in v then Some(v[s].permission) else None
  }

  /** Nothing has changed at an address. */
  ghost predicate Same(v: Flat, w: Flat, q: nat, x: nat) {
    && (FlatMapped(w, q, x) <==> FlatMapped(v, q, x))
    && FlatByte(w, q, x) == FlatByte(v, q, x) && PermissionOf(w, q, x) == PermissionOf(v, q, x)
  }

  /** A range of whole pages has an address exactly if it has the page of the address. */
  lemma PageIn(range: VRange, pid: nat, x: nat)
    requires Aligned(range.start) && Aligned(range.end)
    ensures range.Has(x) <==> InRange(Slot(pid, x / PAGE_SIZE), pid, range)
  {}

  /** A range is in user space exactly if it starts there and all its addresses are. */
  lemma UserRanges(r: VRange)
    requires r.start <= r.end
    ensures IsUser(r) <==> r.start < 0x8000_0000_0000 && forall x | r.Has(x) :: x < 0x8000_0000_0000
  {
    if r.end > 0x8000_0000_0000 && r.start < 0x8000_0000_0000 { assert r.Has(0x8000_0000_0000); }
  }

  /** An access is allowed exactly if its bytes and the address after them are below the end of user space. */
  lemma Accesses(start: nat, len: nat)
    ensures Accessible(start, len) <==> start + len < 0x8000_0000_0000
  {}

  // ----- map, unmap, protect, exit, fork

  lemma FreeOfPages(v: Flat, pid: nat, at: nat, len: nat)
    requires Aligned(at) && Aligned(len)
    ensures (forall s <- Pages(pid, VRange(at, at + len)) :: s !in v) <==> forall x | at <= x < at + len :: !FlatMapped(v, pid, x)
  {
    var range := VRange(at, at + len);
    forall x | at <= x < at + len ensures Slot(pid, x / PAGE_SIZE) in Pages(pid, range) { PageIn(range, pid, x); }
    if forall x | at <= x < at + len :: !FlatMapped(v, pid, x) {
      forall s | s in Pages(pid, range) ensures s !in v { assert !FlatMapped(v, pid, s.vpn * PAGE_SIZE); }
    }
  }

  /** Mapping succeeds exactly on unmapped user space; then its bytes are zero with the permission, and nothing else
      has changed. */
  lemma MapLaw(v: Flat, pid: nat, at: nat, len: nat, p: Permission, q: nat, x: nat)
    requires Aligned(at) && Aligned(len) && len > 0
    ensures var (w, r) := FlatMapAt(v, pid, at, len, p);
            && (r == Ok(()) <==> at + len <= 0x8000_0000_0000 && forall y | at <= y < at + len :: !FlatMapped(v, pid, y))
            && (r != Ok(()) ==> r == Err(EEXIST) && w == v)
            && (if r == Ok(()) && q == pid && at <= x < at + len
                then FlatMapped(w, q, x) && FlatByte(w, q, x) == 0 && PermissionOf(w, q, x) == Some(p) else Same(v, w, q, x))
  {
    var range := VRange(at, at + len);
    FitsAligned(v, pid, at, len);
    FreeOfPages(v, pid, at, len);
    PageIn(range, pid, x);
  }

  /** Unmapping a range of user space unmaps exactly its addresses. */
  lemma UnmapLaw(v: Flat, pid: nat, range: VRange, q: nat, x: nat)
    requires Aligned(range.start) && Aligned(range.end)
    ensures var (w, r) := FlatUnmapAt(v, pid, range);
            && r == (if IsUser(range) then Ok(()) else Err(EINVAL))
            && (if r == Ok(()) && q == pid && range.Has(x) then !FlatMapped(w, q, x) else Same(v, w, q, x))
  {
    PageIn(range, pid, x);
  }

  /** Protecting a range of user space changes exactly the permission of its mapped addresses. */
  lemma ProtectLaw(v: Flat, pid: nat, range: VRange, p: Permission, q: nat, x: nat)
    requires Aligned(range.start) && Aligned(range.end)
    ensures var (w, r) := FlatProtectAt(v, pid, range, p);
            && r == (if !IsUser(range) then Err(EINVAL)
                     else if exists y :: range.Has(y) && FlatMapped(v, pid, y) then Ok(()) else Err(ENOMEM))
            && (if IsUser(range) && q == pid && range.Has(x) && FlatMapped(v, q, x)
                then FlatMapped(w, q, x) && FlatByte(w, q, x) == FlatByte(v, q, x) && PermissionOf(w, q, x) == Some(p)
                else Same(v, w, q, x))
  {
    PageIn(range, pid, x);
    if y :| range.Has(y) && FlatMapped(v, pid, y) { PageIn(range, pid, y); }
    if s :| s in Pages(pid, range) && s in v { assert range.Has(s.vpn * PAGE_SIZE) && FlatMapped(v, pid, s.vpn * PAGE_SIZE); }
  }

  lemma ExitLaw(v: Flat, pid: nat, q: nat, x: nat)
    ensures if q == pid then !FlatMapped(FlatExit(v, pid), q, x) else Same(v, FlatExit(v, pid), q, x)
  {}

  /** A fork gives the child every byte and permission of the parent, and changes nothing else. */
  lemma ForkLaw(v: Flat, parent: nat, child: nat, q: nat, x: nat)
    requires Unused(v, child)
    ensures var w := FlatFork(v, parent, child);
            if q == child
            then (FlatMapped(w, child, x) <==> FlatMapped(v, parent, x)) && FlatByte(w, child, x) == FlatByte(v, parent, x)
                 && PermissionOf(w, child, x) == PermissionOf(v, parent, x)
            else Same(v, w, q, x)
  {
    FlatForkAt(v, parent, child, Slot(q, x / PAGE_SIZE));
  }

  // ----- reads and writes

  lemma WriteLaw(v: Flat, pid: nat, start: nat, data: seq<Byte>, q: nat, x: nat)
    requires WholePages(v)
    ensures var w := FlatWrite(v, pid, start, data);
            && WholePages(w) && (FlatMapped(w, q, x) <==> FlatMapped(v, q, x)) && PermissionOf(w, q, x) == PermissionOf(v, q, x)
            && FlatByte(w, q, x) ==
               if q == pid && start <= x < start + |data| && FlatMapped(v, q, x) then data[x - start] else FlatByte(v, q, x)
  {
    var s, w := Slot(q, x / PAGE_SIZE), FlatWrite(v, pid, start, data);
    assert s.vpn * PAGE_SIZE + x % PAGE_SIZE == x;
    if s in v && q == pid { assert w[s].data == Overlay(v[s].data, s.vpn * PAGE_SIZE, start, data); }
  }

  /** Reading gives the bytes if all are mapped. */
  lemma ReadLaw(v: Flat, pid: nat, start: nat, len: nat)
    ensures FlatRead(v, pid, start, len) == Err(EINVAL) <==> !Accessible(start, len)
    ensures FlatRead(v, pid, start, len).Ok? <==> Accessible(start, len) && forall x | start <= x < start + len :: FlatMapped(v, pid, x)
    ensures FlatRead(v, pid, start, len).Ok? ==>
              && |FlatRead(v, pid, start, len).value| == len
              && forall i | 0 <= i < len :: FlatRead(v, pid, start, len).value[i] == FlatByte(v, pid, start + i)
  {}

  lemma MappedUpTo(v: Flat, pid: nat, start: nat, len: nat, i: nat)
    requires i < len
    ensures i < MappedLen(v, pid, start, len) <==> forall y | start <= y <= start + i :: FlatMapped(v, pid, y)
    decreases len
  {
    if FlatMapped(v, pid, start) {
      if i > 0 { MappedUpTo(v, pid, start + 1, len - 1, i - 1); }
    } else {
      assert !FlatMapped(v, pid, start);
    }
  }

  /** Writing stores exactly the bytes before the first unmapped one; it succeeds exactly if there is none. */
  lemma AccessLaw(v: Flat, pid: nat, start: nat, data: seq<Byte>, q: nat, x: nat)
    requires WholePages(v)
    ensures var (w, r) := FlatAccess(v, pid, start, data);
            && r == (if !Accessible(start, |data|) then Err(EINVAL)
                     else if forall y | start <= y < start + |data| :: FlatMapped(v, pid, y) then Ok(()) else Err(EFAULT))
            && (if Accessible(start, |data|) && q == pid && start <= x < start + |data| && (forall y | start <= y <= x :: FlatMapped(v, pid, y))
                then FlatMapped(w, q, x) && FlatByte(w, q, x) == data[x - start] && PermissionOf(w, q, x) == PermissionOf(v, q, x)
                else Same(v, w, q, x))
  {
    if Accessible(start, |data|) {
      var k := MappedLen(v, pid, start, |data|);
      WriteLaw(v, pid, start, data[..k], q, x);
      if start <= x < start + |data| { MappedUpTo(v, pid, start, |data|, x - start); }
      if |data| > 0 { MappedUpTo(v, pid, start, |data|, |data| - 1); }
    }
  }

  /** What was written is read back. */
  lemma ReadBack(v: Flat, pid: nat, start: nat, data: seq<Byte>)
    requires WholePages(v) && FlatAccess(v, pid, start, data).1 == Ok(())
    ensures FlatRead(FlatAccess(v, pid, start, data).0, pid, start, |data|) == Ok(data)
  {
    var w := FlatAccess(v, pid, start, data).0;
    AccessLaw(v, pid, start, data, pid, start);
    forall x | start <= x < start + |data| ensures FlatMapped(w, pid, x) && FlatByte(w, pid, x) == data[x - start] {
      AccessLaw(v, pid, start, data, pid, x);
    }
    ReadLaw(w, pid, start, |data|);
    assert Bytes(w, pid, start, |data|) == data;
  }

  /** A store changes one byte, with a signal exactly if it is unmapped or not writable; a load then gives that byte. */
  lemma StoreLaw(v: Flat, pid: nat, a: nat, b: Byte, q: nat, x: nat)
    requires WholePages(v)
    ensures var (w, r) := FlatStore(v, pid, a, b);
            && (r == Sigbus <==> !FlatMapped(v, pid, a))
            && (r == Sigsegv <==> PermissionOf(v, pid, a).Some? && !PermissionOf(v, pid, a).value.write)
            && (if r == Done && q == pid && x == a
                then FlatMapped(w, q, x) && FlatByte(w, q, x) == b && PermissionOf(w, q, x) == PermissionOf(v, q, x)
                else Same(v, w, q, x))
            && (r == Done && PermissionOf(v, pid, a).value.read ==> FlatLoad(w, pid, a) == Value(b))
  {
    WriteLaw(v, pid, a, [b], q, x);
    WriteLaw(v, pid, a, [b], pid, a);
  }

  /** So does an instruction fetch, by the execute permission. */
  lemma FetchLaw(v: Flat, pid: nat, a: nat)
    ensures FlatFetch(v, pid, a) == match PermissionOf(v, pid, a)
                                    case None => Fault(Sigbus)
                                    case Some(p) => if p.execute then Value(FlatByte(v, pid, a)) else Fault(Sigsegv)
  {}

  /** A load gives the byte, or a signal exactly if it is unmapped or not readable. */
  lemma LoadLaw(v: Flat, pid: nat, a: nat)
    ensures FlatLoad(v, pid, a) == match PermissionOf(v, pid, a)
                                   case None => Fault(Sigbus)
                                   case Some(p) => if p.read then Value(FlatByte(v, pid, a)) else Fault(Sigsegv)
  {}
}
