/** Frames, reference counts and page table entries, and the copy-on-write steps on them.

    A `Mem` holds every process's entries over one pool of frames.  The invariant says
    that a frame's count is the number of references to it, and that an entry which is
    not copy-on-write is the only reference to its frame.  From it follows that sharing
    is never seen: each step changes what at most one entry shows. */
module CowMemory {
  import opened Wrappers
  import opened AddrRange
  import opened MMArea

  function ZeroPage(): (z: seq<Byte>)
    ensures |z| == PAGE_SIZE && forall i | 0 <= i < PAGE_SIZE :: z[i] == 0
  {
    seq(PAGE_SIZE, i => 0)
  }

  datatype Frame = Frame(data: seq<Byte>, refcount: nat)

  /** The page attributes that matter for private anonymous memory. */
  datatype Attr = Attr(present: bool, read: bool, write: bool, execute: bool,
                       accessed: bool, dirty: bool, cow: bool) {
    /** as_page_attr: a present entry without any of R, W, X is read as a table. */
    predicate IsPage() { present ==> read || write || execute }
  }

  datatype Pte = Pte(pfn: nat, attr: Attr)

  /** One page of one address space. */
  datatype Slot = Slot(space: nat, vpn: nat)

  datatype Mem = Mem(frames: map<nat, Frame>, ptes: map<Slot, Pte>, empty: nat)

  /** The entries that name a frame. */
  ghost function Refs(ptes: map<Slot, Pte>, f: nat): set<Slot> {
    set s | s in ptes && ptes[s].pfn == f
  }

  /** Every reference to a frame: entries, the static EMPTY_PAGE, and handles on the stack. */
  ghost function RefCount(m: Mem, held: multiset<nat>, f: nat): nat {
    |Refs(m.ptes, f)| + (if f == m.empty then 1 else 0) + held[f]
  }

  ghost predicate FrameOk(m: Mem, held: multiset<nat>, f: nat)
    requires f in m.frames
  {
    m.frames[f].refcount == RefCount(m, held, f) > 0 && |m.frames[f].data| == PAGE_SIZE
  }

  /** Entries are present and readable as pages; only a sole owner may be writable or have been written to. */
  ghost predicate EntryOk(m: Mem, s: Slot)
    requires s in m.ptes
  {
    var Pte(f, a) := m.ptes[s];
    && f in m.frames
    && a.present && (a.read || a.execute)
    && (a.write ==> !a.cow) && (a.cow ==> !a.dirty)
    && (!a.cow ==> m.frames[f].refcount == 1)
  }

  ghost predicate Inv(m: Mem, held: multiset<nat>) {
    && m.empty in m.frames && m.frames[m.empty].data == ZeroPage()
    && (forall f | f in held :: f in m.frames)
    && (forall f {:trigger FrameOk(m, held, f)} | f in m.frames :: FrameOk(m, held, f))
    && (forall s {:trigger EntryOk(m, s)} | s in m.ptes :: EntryOk(m, s))
  }

  /** What an entry shows. */
  function Shown(m: Mem, s: Slot): seq<Byte>
    requires s in m.ptes
  {
    if m.ptes[s].pfn in m.frames then m.frames[m.ptes[s].pfn].data else []
  }

  /** What every entry shows: the memory as its users see it. */
  ghost function Data(m: Mem): map<Slot, seq<Byte>> {
    map s | s in m.ptes :: Shown(m, s)
  }

  lemma Entry(m: Mem, held: multiset<nat>, s: Slot)
    requires Inv(m, held) && s in m.ptes
    ensures EntryOk(m, s) && FrameOk(m, held, m.ptes[s].pfn)
  {
    assert EntryOk(m, s);
  }

  lemma DataIs(m: Mem, d: map<Slot, seq<Byte>>)
    requires m.ptes.Keys == d.Keys && forall s <- m.ptes :: Shown(m, s) == d[s]
    ensures Data(m) == d
  {
  }

  // ----- counting references

  lemma RefsInsert(ptes: map<Slot, Pte>, s: Slot, p: Pte, f: nat)
    requires s !in ptes
    ensures |Refs(ptes[s := p], f)| == |Refs(ptes, f)| + (if f == p.pfn then 1 else 0)
  {
    if f == p.pfn {
      assert Refs(ptes[s := p], f) == Refs(ptes, f) + {s};
    } else {
      assert Refs(ptes[s := p], f) == Refs(ptes, f);
    }
  }

  lemma RefsRemove(ptes: map<Slot, Pte>, s: Slot, f: nat)
    requires s in ptes
    ensures |Refs(ptes - {s}, f)| == |Refs(ptes, f)| - (if f == ptes[s].pfn then 1 else 0)
  {
    if f == ptes[s].pfn {
      assert Refs(ptes - {s}, f) == Refs(ptes, f) - {s};
    } else {
      assert Refs(ptes - {s}, f) == Refs(ptes, f);
    }
  }

  lemma RefsReplace(ptes: map<Slot, Pte>, s: Slot, p: Pte, f: nat)
    requires s in ptes
    ensures |Refs(ptes[s := p], f)| == |Refs(ptes, f)| - (if f == ptes[s].pfn then 1 else 0) + (if f == p.pfn then 1 else 0)
  {
    RefsRemove(ptes, s, f);
    assert ptes[s := p] == (ptes - {s})[s := p];
    RefsInsert(ptes - {s}, s, p, f);
  }

  /** A frame counted once has one entry naming it and no other reference. */
  lemma SoleOwner(m: Mem, held: multiset<nat>, s: Slot, k: Slot)
    requires Inv(m, held) && s in m.ptes && m.ptes[s].pfn in m.frames && m.frames[m.ptes[s].pfn].refcount == 1
    ensures m.ptes[s].pfn != m.empty && m.ptes[s].pfn !in held
    ensures k in m.ptes && k != s ==> m.ptes[k].pfn != m.ptes[s].pfn
  {
    var f := m.ptes[s].pfn;
    assert FrameOk(m, held, f);
    assert s in Refs(m.ptes, f);
    var rest := Refs(m.ptes, f) - {s};
    assert |rest| == |Refs(m.ptes, f)| - 1;
    assert k in m.ptes && m.ptes[k].pfn == f && k != s ==> k in rest;
  }

  // ----- reference counting primitives

  function Clone(m: Mem, f: nat): Mem
    requires f in m.frames
  {
    m.(frames := m.frames[f := m.frames[f].(refcount := m.frames[f].refcount + 1)])
  }

  /** Dropping a handle: the last one frees the frame. */
  function DropRef(m: Mem, f: nat): Mem
    requires f in m.frames && m.frames[f].refcount > 0
  {
    if m.frames[f].refcount == 1 then m.(frames := m.frames - {f})
    else m.(frames := m.frames[f := m.frames[f].(refcount := m.frames[f].refcount - 1)])
  }

  lemma HeldOk(m: Mem, held: multiset<nat>, f: nat)
    requires Inv(m, held) && f in held
    ensures f in m.frames && FrameOk(m, held, f)
  {
  }

  /** A held frame counted once is named by no entry. */
  lemma NoRefs(m: Mem, held: multiset<nat>, f: nat, s: Slot)
    requires Inv(m, held) && f in held && m.frames[f].refcount == 1 && s in m.ptes
    ensures m.ptes[s].pfn != f && f != m.empty
  {
    assert FrameOk(m, held, f);
    assert s in Refs(m.ptes, m.ptes[s].pfn);
  }

  /** Dropping a handle changes nothing that any entry shows. */
  lemma DropKeeps(m: Mem, held: multiset<nat>, f: nat)
    requires Inv(m, held) && f in held
    ensures f in m.frames && m.frames[f].refcount > 0
    ensures Inv(DropRef(m, f), held - multiset{f}) && Data(DropRef(m, f)) == Data(m)
  {
    HeldOk(m, held, f);
    var n, rest := DropRef(m, f), held - multiset{f};
    forall s | s in m.ptes ensures EntryOk(n, s) && Shown(n, s) == Shown(m, s) {
      Entry(m, held, s);
      if m.frames[f].refcount == 1 { NoRefs(m, held, f, s); }
      if !m.ptes[s].attr.cow { SoleOwner(m, held, s, s); }
    }
    forall g | g in n.frames ensures FrameOk(n, rest, g) {
      assert FrameOk(m, held, g);
    }
  }

  // ----- mmap: set_anonymous

  function AnonymousAttr(execute: bool): Attr {
    Attr(true, true, false, execute, false, false, true)
  }

  function SetAnonymous(m: Mem, s: Slot, execute: bool): Mem
    requires m.empty in m.frames
  {
    Clone(m, m.empty).(ptes := m.ptes[s := Pte(m.empty, AnonymousAttr(execute))])
  }

  lemma SetAnonymousKeeps(m: Mem, held: multiset<nat>, s: Slot, execute: bool)
    requires Inv(m, held) && s !in m.ptes
    ensures var n := SetAnonymous(m, s, execute);
            Inv(n, held) && Data(n) == Data(m)[s := ZeroPage()] && n.ptes[s].attr.execute == execute && !n.ptes[s].attr.accessed
  {
    var n := SetAnonymous(m, s, execute);
    forall f | f in n.frames ensures FrameOk(n, held, f) {
      RefsInsert(m.ptes, s, n.ptes[s], f);
      assert FrameOk(m, held, f);
    }
    forall k | k in n.ptes ensures EntryOk(n, k) && Shown(n, k) == if k == s then ZeroPage() else Shown(m, k) {
      if k != s {
        Entry(m, held, k);
        if !m.ptes[k].attr.cow { SoleOwner(m, held, k, k); }
      }
    }
  }

  // ----- fork: set_copy_on_write

  function SharedAttr(a: Attr): Attr { a.(write := false, dirty := false, cow := true) }

  function ShareCow(m: Mem, from: Slot, to: Slot): Mem
    requires from in m.ptes && m.ptes[from].pfn in m.frames
  {
    var Pte(f, a) := m.ptes[from];
    Clone(m, f).(ptes := m.ptes[to := Pte(f, SharedAttr(a).(accessed := false))][from := Pte(f, SharedAttr(a))])
  }

  lemma ShareCowFrames(m: Mem, held: multiset<nat>, from: Slot, to: Slot, f: nat)
    requires Inv(m, held) && from in m.ptes && to !in m.ptes && m.ptes[from].pfn in m.frames && f in m.frames
    ensures FrameOk(ShareCow(m, from, to), held, f)
  {
    var n := ShareCow(m, from, to);
    RefsInsert(m.ptes, to, n.ptes[to], f);
    RefsReplace(m.ptes[to := n.ptes[to]], from, n.ptes[from], f);
    assert FrameOk(m, held, f);
  }

  lemma ShareCowEntries(m: Mem, held: multiset<nat>, from: Slot, to: Slot, k: Slot)
    requires Inv(m, held) && from in m.ptes && to !in m.ptes && m.ptes[from].pfn in m.frames
    requires k in m.ptes || k == to
    ensures EntryOk(ShareCow(m, from, to), k)
    ensures Shown(ShareCow(m, from, to), k) == Shown(m, if k == to then from else k)
  {
    Entry(m, held, from);
    if k != to {
      Entry(m, held, k);
      if !m.ptes[k].attr.cow { SoleOwner(m, held, k, from); }
    }
  }

  /** Sharing makes the new entry show what the old one shows, and nothing else changes. */
  lemma ShareCowKeeps(m: Mem, held: multiset<nat>, from: Slot, to: Slot)
    requires Inv(m, held) && from in m.ptes && to !in m.ptes
    ensures m.ptes[from].pfn in m.frames
    ensures var n := ShareCow(m, from, to);
            Inv(n, held) && Data(n) == Data(m)[to := Data(m)[from]] && !n.ptes[to].attr.accessed
  {
    Entry(m, held, from);
    var n := ShareCow(m, from, to);
    forall f | f in n.frames ensures FrameOk(n, held, f) {
      ShareCowFrames(m, held, from, to, f);
    }
    forall k | k in n.ptes ensures EntryOk(n, k) && Shown(n, k) == Shown(m, if k == to then from else k) {
      ShareCowEntries(m, held, from, to, k);
    }
    DataIs(n, Data(m)[to := Data(m)[from]]);
  }

  // ----- page faults: handle_cow and handle

  /** A copy-on-write entry becomes the sole owner of its frame: of the frame it names if
      nothing else does, else of a private copy in the newly allocated frame `spare`. */
  function HandleCow(m: Mem, s: Slot, writable: bool, spare: nat): Mem
    requires s in m.ptes && m.ptes[s].pfn in m.frames && m.frames[m.ptes[s].pfn].refcount > 0
  {
    var Pte(f, a) := m.ptes[s];
    var b := a.(cow := false, write := writable);
    if m.frames[f].refcount == 1 then m.(ptes := m.ptes[s := Pte(f, b)])
    else
      var data := if f == m.empty then ZeroPage() else m.frames[f].data;
      Mem(m.frames[spare := Frame(data, 1)][f := m.frames[f].(refcount := m.frames[f].refcount - 1)],
          m.ptes[s := Pte(spare, b.(accessed := false))], m.empty)
  }

  lemma HandleCowFrames(m: Mem, held: multiset<nat>, s: Slot, writable: bool, spare: nat, f: nat)
    requires Inv(m, held) && s in m.ptes && EntryOk(m, s) && spare !in m.frames
    requires m.frames[m.ptes[s].pfn].refcount > 0 && f in HandleCow(m, s, writable, spare).frames
    ensures FrameOk(HandleCow(m, s, writable, spare), held, f)
  {
    var n := HandleCow(m, s, writable, spare);
    Entry(m, held, s);
    RefsReplace(m.ptes, s, n.ptes[s], f);
    if f in m.frames {
      assert FrameOk(m, held, f);
    } else {
      forall k | k in m.ptes ensures m.ptes[k].pfn != f { Entry(m, held, k); }
      assert Refs(m.ptes, f) == {};
    }
  }

  lemma HandleCowEntries(m: Mem, held: multiset<nat>, s: Slot, writable: bool, spare: nat, k: Slot)
    requires Inv(m, held) && s in m.ptes && EntryOk(m, s) && spare !in m.frames
    requires m.frames[m.ptes[s].pfn].refcount > 0 && k in m.ptes
    ensures EntryOk(HandleCow(m, s, writable, spare), k)
    ensures Shown(HandleCow(m, s, writable, spare), k) == Shown(m, k)
  {
    Entry(m, held, k);
    if k != s && !m.ptes[k].attr.cow { SoleOwner(m, held, k, s); }
  }

  /** A fault changes who owns what but nothing that any entry shows. */
  lemma HandleCowKeeps(m: Mem, held: multiset<nat>, s: Slot, writable: bool, spare: nat)
    requires Inv(m, held) && s in m.ptes && spare !in m.frames
    requires EntryOk(m, s) && m.frames[m.ptes[s].pfn].refcount > 0
    ensures var n := HandleCow(m, s, writable, spare);
            Inv(n, held) && Data(n) == Data(m)
  {
    var n := HandleCow(m, s, writable, spare);
    forall f | f in n.frames ensures FrameOk(n, held, f) {
      HandleCowFrames(m, held, s, writable, spare, f);
    }
    forall k | k in n.ptes ensures EntryOk(n, k) && Shown(n, k) == Shown(m, k) {
      HandleCowEntries(m, held, s, writable, spare, k);
    }
    DataIs(n, Data(m));
  }

  /** MMArea::handle on a private anonymous entry. */
  function Handle(m: Mem, s: Slot, writable: bool, write: bool, spare: nat): Mem
    requires s in m.ptes && m.ptes[s].pfn in m.frames && m.frames[m.ptes[s].pfn].refcount > 0
  {
    var n := if m.ptes[s].attr.cow then HandleCow(m, s, writable, spare) else m;
    var a := n.ptes[s].attr;
    n.(ptes := n.ptes[s := Pte(n.ptes[s].pfn, a.(accessed := true, dirty := a.dirty || write))])
  }

  /** Changing attributes keeps the invariant as long as the entry stays well formed. */
  lemma SetAttrKeeps(m: Mem, held: multiset<nat>, s: Slot, a: Attr)
    requires Inv(m, held) && s in m.ptes
    requires EntryOk(m.(ptes := m.ptes[s := Pte(m.ptes[s].pfn, a)]), s)
    ensures var n := m.(ptes := m.ptes[s := Pte(m.ptes[s].pfn, a)]);
            Inv(n, held) && Data(n) == Data(m)
  {
    var n := m.(ptes := m.ptes[s := Pte(m.ptes[s].pfn, a)]);
    forall f | f in n.frames ensures FrameOk(n, held, f) {
      RefsReplace(m.ptes, s, n.ptes[s], f);
      assert FrameOk(m, held, f);
    }
    forall k | k in n.ptes ensures EntryOk(n, k) && Shown(n, k) == Shown(m, k) {
      Entry(m, held, k);
    }
  }

  /** After handling, the entry is the sole owner of its frame and shows what it did. */
  lemma HandleKeeps(m: Mem, held: multiset<nat>, s: Slot, writable: bool, write: bool, spare: nat)
    requires Inv(m, held) && s in m.ptes && spare !in m.frames
    ensures m.ptes[s].pfn in m.frames && m.frames[m.ptes[s].pfn].refcount > 0
    ensures var n := Handle(m, s, writable, write, spare);
            Inv(n, held) && Data(n) == Data(m)
  {
    Entry(m, held, s);
    var n := m;
    if m.ptes[s].attr.cow {
      HandleCowKeeps(m, held, s, writable, spare);
      n := HandleCow(m, s, writable, spare);
    }
    assert EntryOk(n, s);
    var a := n.ptes[s].attr;
    SetAttrKeeps(n, held, s, a.(accessed := true, dirty := a.dirty || write));
  }

  lemma HandleEntry(m: Mem, s: Slot, writable: bool, write: bool, spare: nat)
    requires s in m.ptes && m.ptes[s].pfn in m.frames && m.frames[m.ptes[s].pfn].refcount > 0
    ensures var n := Handle(m, s, writable, write, spare);
            && n.ptes == m.ptes[s := n.ptes[s]]
            && !n.ptes[s].attr.cow && n.ptes[s].attr.read == m.ptes[s].attr.read && n.ptes[s].attr.execute == m.ptes[s].attr.execute
            && n.ptes[s].attr.accessed && n.ptes[s].attr.dirty == (m.ptes[s].attr.dirty || write)
            && n.ptes[s].attr.write == (if m.ptes[s].attr.cow then writable else m.ptes[s].attr.write)
  {
    var k := if m.ptes[s].attr.cow then HandleCow(m, s, writable, spare) else m;
    assert k.ptes == m.ptes[s := k.ptes[s]];
  }

  // ----- stores

  function Store(m: Mem, s: Slot, at: nat, data: seq<Byte>): Mem
    requires s in m.ptes && m.ptes[s].pfn in m.frames && at + |data| <= |Shown(m, s)|
  {
    var f := m.ptes[s].pfn;
    m.(frames := m.frames[f := m.frames[f].(data := Overwrite(m.frames[f].data, at, data))])
  }

  lemma StoreEntries(m: Mem, held: multiset<nat>, s: Slot, at: nat, data: seq<Byte>, k: Slot)
    requires Inv(m, held) && s in m.ptes && !m.ptes[s].attr.cow && at + |data| <= |Shown(m, s)|
    requires EntryOk(m, s) && k in m.ptes
    ensures EntryOk(Store(m, s, at, data), k)
    ensures Shown(Store(m, s, at, data), k) == if k == s then Overwrite(Shown(m, s), at, data) else Shown(m, k)
  {
    Entry(m, held, k);
    SoleOwner(m, held, s, k);
  }

  /** A store through an entry that is not copy-on-write is seen through it alone, and
      never lands in the empty page. */
  lemma StoreKeeps(m: Mem, held: multiset<nat>, s: Slot, at: nat, data: seq<Byte>)
    requires Inv(m, held) && s in m.ptes && !m.ptes[s].attr.cow && at + |data| <= PAGE_SIZE
    ensures m.ptes[s].pfn in m.frames && |Shown(m, s)| == PAGE_SIZE
    ensures var n := Store(m, s, at, data);
            Inv(n, held) && Data(n) == Data(m)[s := Overwrite(Data(m)[s], at, data)]
  {
    Entry(m, held, s);
    var n := Store(m, s, at, data);
    SoleOwner(m, held, s, s);
    forall f | f in n.frames ensures FrameOk(n, held, f) {
      assert FrameOk(m, held, f);
    }
    forall k | k in n.ptes
      ensures EntryOk(n, k) && Shown(n, k) == if k == s then Overwrite(Shown(m, s), at, data) else Shown(m, k)
    {
      StoreEntries(m, held, s, at, data, k);
    }
  }

  // ----- unmap: take_page_to_free

  function Take(m: Mem, s: Slot): Mem { m.(ptes := m.ptes - {s}) }

  /** Taking an entry turns its reference into a handle. */
  lemma TakeKeeps(m: Mem, held: multiset<nat>, s: Slot)
    requires Inv(m, held) && s in m.ptes
    ensures Inv(Take(m, s), held + multiset{m.ptes[s].pfn})
    ensures Data(Take(m, s)) == Data(m) - {s}
  {
    Entry(m, held, s);
    var n, more := Take(m, s), held + multiset{m.ptes[s].pfn};
    forall f | f in n.frames ensures FrameOk(n, more, f) {
      RefsRemove(m.ptes, s, f);
      assert FrameOk(m, held, f);
    }
    forall k | k in n.ptes ensures EntryOk(n, k) && Shown(n, k) == Shown(m, k) { Entry(m, held, k); }
  }

  // ----- protect

  function ProtectedAttr(a: Attr, p: Permission): Attr {
    if !p.read && !p.write && !p.execute then
      a.(present := false, read := false, write := false, execute := false)
    else
      a.(read := p.read, write := if a.cow then a.write else p.write, execute := p.execute)
  }

  /** After a protection an entry allows exactly what the permission does, except that a copy-on-write entry is not
      writable yet; without any permission it is not present. */
  lemma ProtectedAllows(a: Attr, p: Permission)
    requires a.write ==> !a.cow
    ensures var b := ProtectedAttr(a, p);
            && b.read == p.read && b.execute == p.execute && b.write == (p.write && !a.cow) && b.cow == a.cow
            && b.present == (a.present && (p.read || p.write || p.execute))
  {}

  /** Exactly the permissions that allow reading or executing leave every entry, and its
      copy-on-write image after a fork, readable as a present page.  Otherwise the entry
      looks absent or like a table, and unmap and fork no longer see its frame. */
  lemma ProtectIsSafeExactlyWhenReadable(p: Permission)
    ensures p.read || p.execute <==>
            forall a: Attr | a.present && (a.read || a.execute) && (a.write ==> !a.cow) ::
              var b := ProtectedAttr(a, p);
              b.present && b.IsPage() && SharedAttr(b).IsPage()
  {
    if !(p.read || p.execute) {
      var a := AnonymousAttr(false);
      assert !(ProtectedAttr(a, p).present && ProtectedAttr(a, p).IsPage());
    }
  }
}
