/** The laws between the operations of the kernel: what an operation answers after another one. */
module MMLaws {
  import opened Wrappers
  import opened AddrRange
  import opened MMArea
  import opened AreaList
  import opened CowMemory
  import opened FlatMemory
  import opened AddressSpace
  import opened FlatLaws
  import opened MMList

  lemma KernelWhole(k: Kernel)
    requires k.Valid()
    ensures WholePages(k.flat)
  {
    forall s | s in k.flat ensures |k.flat[s].data| == PAGE_SIZE {
      assert TiedAt(k.mem, k.areas, k.flat, s);
      Entry(k.mem, multiset{}, s);
    }
  }

  /** What a process writes it reads back, and no other byte of any process has changed. */
  method WriteThenRead(k: Kernel, pid: nat, start: nat, data: seq<Byte>) returns (w: Result<()>, r: Result<seq<Byte>>)
    requires k.Valid() && pid in k.areas
    modifies k
    ensures k.Valid() && (w.Ok? ==> r == Ok(data))
    ensures w.Ok? <==> start + |data| < 0x8000_0000_0000 && forall x | start <= x < start + |data| :: old(FlatMapped(k.flat, pid, x))
    ensures forall q: nat, x: nat | q != pid || x < start || x >= start + |data| :: FlatByte(k.flat, q, x) == old(FlatByte(k.flat, q, x))
  {
    ghost var v := k.flat;
    KernelWhole(k);
    var visits;
    w, visits := k.AccessMut(pid, start, data);
    r, visits := k.ReadBytes(pid, start, |data|);
    Accesses(start, |data|);
    AccessLaw(v, pid, start, data, pid, start);
    if w.Ok? { FlatLaws.ReadBack(v, pid, start, data); }
    forall q: nat, x: nat | q != pid || x < start || x >= start + |data| ensures FlatByte(k.flat, q, x) == FlatByte(v, q, x) {
      AccessLaw(v, pid, start, data, q, x);
    }
  }

  /** New memory reads as zeros. */
  method MapThenRead(k: Kernel, pid: nat, at: nat, len: nat, p: Permission, from: nat, n: nat) returns (m: Result<()>, r: Result<seq<Byte>>)
    requires k.Valid() && pid in k.areas && Aligned(at) && Aligned(len) && len > 0
    requires at <= from && from + n <= at + len && from + n < 0x8000_0000_0000
    modifies k
    ensures k.Valid() && (m.Ok? ==> r.Ok? && |r.value| == n && forall i | 0 <= i < n :: r.value[i] == 0)
    ensures m.Ok? <==> at + len <= 0x8000_0000_0000 && forall x | at <= x < at + len :: !old(FlatMapped(k.flat, pid, x))
  {
    ghost var v := k.flat;
    m := k.Mmap(pid, at, len, p);
    var visits;
    r, visits := k.ReadBytes(pid, from, n);
    MapLaw(v, pid, at, len, p, pid, at);
    Accesses(from, n);
    ReadLaw(k.flat, pid, from, n);
    if m.Ok? {
      forall x | from <= x < from + n ensures FlatMapped(k.flat, pid, x) && FlatByte(k.flat, pid, x) == 0 {
        MapLaw(v, pid, at, len, p, pid, x);
      }
    }
  }

  lemma SameRead(v: Flat, w: Flat, pid: nat, from: nat, n: nat)
    requires forall x: nat {:trigger Same(v, w, pid, x)} | from <= x < from + n :: Same(v, w, pid, x)
    ensures FlatRead(w, pid, from, n) == FlatRead(v, pid, from, n)
  {
    forall x: nat | from <= x < from + n ensures (FlatMapped(w, pid, x) <==> FlatMapped(v, pid, x)) && FlatByte(w, pid, x) == FlatByte(v, pid, x) {
      assert Same(v, w, pid, x);
    }
    assert Bytes(w, pid, from, n) == Bytes(v, pid, from, n);
  }

  /** Memory that was unmapped is gone, and all other memory is as it was. */
  method UnmapThenRead(k: Kernel, pid: nat, at: nat, len: nat, from: nat, n: nat) returns (u: Result<()>, r: Result<seq<Byte>>)
    requires k.Valid() && pid in k.areas && Aligned(at) && n > 0 && from + n < 0x8000_0000_0000
    modifies k
    ensures k.Valid() && (u.Ok? && len > 0 && from < Ceil(at + len) && at < from + n ==> r == Err(EFAULT))
    ensures u.Ok? && (from + n <= at || Ceil(at + len) <= from) ==> r == FlatRead(old(k.flat), pid, from, n)
  {
    ghost var v := k.flat;
    u := k.Unmap(pid, at, len);
    var visits;
    r, visits := k.ReadBytes(pid, from, n);
    PageBoundaries(at + len);
    if u.Ok? { UnmappedRead(v, k.flat, pid, at, Ceil(at + len), from, n); }
  }

  lemma UnmappedRead(v: Flat, w: Flat, pid: nat, at: nat, end: nat, from: nat, n: nat)
    requires Aligned(at) && Aligned(end) && (w, Ok(())) == FlatUnmapAt(v, pid, VRange(at, end)) && n > 0 && from + n < 0x8000_0000_0000
    ensures at < end && from < end && at < from + n ==> FlatRead(w, pid, from, n) == Err(EFAULT)
    ensures from + n <= at || end <= from ==> FlatRead(w, pid, from, n) == FlatRead(v, pid, from, n)
  {
    Accesses(from, n);
    ReadLaw(w, pid, from, n);
    if at < end && from < end && at < from + n {
      UnmapLaw(v, pid, VRange(at, end), pid, Max(from, at));
      assert !FlatMapped(w, pid, Max(from, at));
    } else if from + n <= at || end <= from {
      forall x: nat | from <= x < from + n ensures Same(v, w, pid, x) { UnmapLaw(v, pid, VRange(at, end), pid, x); }
      SameRead(v, w, pid, from, n);
    }
  }

  /** After a protection without write, a store to the range is answered with a signal; its bytes are as they were. */
  method ProtectThenStore(k: Kernel, pid: nat, at: nat, len: nat, p: Permission, a: nat, b: Byte) returns (m: Result<()>, r: Outcome)
    requires k.Valid() && pid in k.areas && Aligned(at) && len != 0 && (p.read || p.execute) && at <= a < at + len
    modifies k
    ensures k.Valid() && (m.Ok? ==> r == if !old(FlatMapped(k.flat, pid, a)) then Sigbus else if p.write then Done else Sigsegv)
    ensures m.Ok? && !p.write ==> FlatByte(k.flat, pid, a) == old(FlatByte(k.flat, pid, a))
  {
    ghost var v := k.flat;
    m := k.Protect(pid, at, len, p);
    ghost var w := k.flat;
    KernelWhole(k);
    r := k.UserStore(pid, a, b);
    PageBoundaries(at + len);
    ProtectLaw(v, pid, VRange(at, Ceil(at + len)), p, pid, a);
    StoreLaw(w, pid, a, b, pid, a);
  }

  /** A load gives the byte just stored, if the memory is readable. */
  method StoreThenLoad(k: Kernel, pid: nat, a: nat, b: Byte) returns (s: Outcome, r: Load)
    requires k.Valid() && pid in k.areas
    modifies k
    ensures k.Valid()
    ensures s == match old(PermissionOf(k.flat, pid, a)) case None => Sigbus case Some(p) => if p.write then Done else Sigsegv
    ensures s == Done && old(PermissionOf(k.flat, pid, a)).value.read ==> r == Value(b)
  {
    ghost var v := k.flat;
    KernelWhole(k);
    s := k.UserStore(pid, a, b);
    r := k.UserLoad(pid, a);
    StoreLaw(v, pid, a, b, pid, a);
    LoadLaw(k.flat, pid, a);
  }
}
