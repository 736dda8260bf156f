/** Whole runs: any sequence of operations on any number of address spaces answers exactly
    as the flat memory does, in which a fork copies every byte. */
module MMRun {
  import opened Wrappers
  import opened AddrRange
  import opened MMArea
  import opened AreaList
  import opened CowMemory
  import opened FlatMemory
  import opened AddressSpace
  import opened MMList

  datatype Op =
    | New(pid: nat)
    | Fork(parent: nat, child: nat)
    | Exit(pid: nat)
    | Map(pid: nat, at: nat, len: nat, permission: Permission)
    | MapHint(pid: nat, at: nat, len: nat, permission: Permission)
    | Unmap(pid: nat, at: nat, len: nat)
    | Protect(pid: nat, at: nat, len: nat, permission: Permission)
    | Read(pid: nat, at: nat, len: nat)
    | Write(pid: nat, at: nat, data: seq<Byte>)
    | Poke(pid: nat, at: nat, byte: Byte)
    | Fetch(pid: nat, at: nat)

  datatype Out = Silent | Answer(r: Result<()>) | Contents(bytes: Result<seq<Byte>>) | Signal(outcome: Outcome) | Found(at: Option<nat>) | Fetched(load: Load)

  datatype World = World(flat: Flat, spaces: set<nat>)

  /** The callers' side of the operations: live address spaces, aligned arguments, and a
      protection that leaves the pages readable or executable. */
  predicate Legal(spaces: set<nat>, op: Op) {
    match op
    case New(pid) => pid !in spaces
    case Fork(parent, child) => parent in spaces && child !in spaces
    case Exit(pid) => pid in spaces
    case Map(pid, at, len, _) => pid in spaces && Aligned(at) && Aligned(len) && len > 0
    case MapHint(pid, at, len, _) => pid in spaces && Aligned(at) && Aligned(len) && len > 0
    case Unmap(pid, at, _) => pid in spaces && Aligned(at)
    case Protect(pid, at, len, p) => pid in spaces && Aligned(at) && len != 0 && (p.read || p.execute)
    case Read(pid, _, _) => pid in spaces
    case Write(pid, _, _) => pid in spaces
    case Poke(pid, _, _) => pid in spaces
    case Fetch(pid, _) => pid in spaces
  }

  /** One operation on the flat memory; an illegal one is not issued. */
  ghost function Step(w: World, op: Op): (World, Out) {
    if !Legal(w.spaces, op) then (w, Silent) else
    match op
    case New(pid) => (w.(spaces := w.spaces + {pid}), Silent)
    case Fork(parent, child) => (World(FlatFork(w.flat, parent, child), w.spaces + {child}), Silent)
    case Exit(pid) => (World(FlatExit(w.flat, pid), w.spaces - {pid}), Silent)
    case Map(pid, at, len, p) => var (v, r) := FlatMapAt(w.flat, pid, at, len, p); (w.(flat := v), Answer(r))
    case MapHint(pid, hint, len, p) =>
      var at := FlatFound(w.flat, pid, SearchFrom(hint), len); (w.(flat := FlatMmapFound(w.flat, pid, at, len, p)), Found(at))
    case Unmap(pid, at, len) => var (v, r) := FlatUnmapAt(w.flat, pid, VRange(at, Ceil(at + len))); (w.(flat := v), Answer(r))
    case Protect(pid, at, len, p) => var (v, r) := FlatProtectAt(w.flat, pid, VRange(at, Ceil(at + len)), p); (w.(flat := v), Answer(r))
    case Read(pid, at, len) => (w, Contents(FlatRead(w.flat, pid, at, len)))
    case Write(pid, at, data) => var (v, r) := FlatAccess(w.flat, pid, at, data); (w.(flat := v), Answer(r))
    case Fetch(pid, at) => (w, Fetched(FlatFetch(w.flat, pid, at)))
    case Poke(pid, at, b) => var (v, r) := FlatStore(w.flat, pid, at, b); (w.(flat := v), Signal(r))
  }

  /** The memory after a run. */
  ghost function After(w: World, ops: seq<Op>): World {
    if ops == [] then w else Step(After(w, ops[..|ops| - 1]), ops[|ops| - 1]).0
  }

  /** The answers of a run. */
  ghost function Answers(w: World, ops: seq<Op>): seq<Out> {
    if ops == [] then []
    else
      var start := ops[..|ops| - 1];
      Answers(w, start) + [Step(After(w, start), ops[|ops| - 1]).1]
  }

  ghost function WorldOf(k: Kernel): World
    reads k
  {
    World(k.flat, k.areas.Keys)
  }

  /** The kernel carries out one operation. */
  method Perform(k: Kernel, op: Op) returns (out: Out)
    requires k.Valid()
    modifies k
    ensures k.Valid() && (WorldOf(k), out) == Step(old(WorldOf(k)), op)
  {
    out := Silent;
    if !Legal(k.areas.Keys, op) {
      return;
    }
    match op
    case New(pid) => k.NewSpace(pid);
    case Fork(parent, child) => k.Fork(parent, child);
    case Exit(pid) => k.Exit(pid);
    case Map(pid, at, len, p) => var r := k.Mmap(pid, at, len, p); out := Answer(r);
    case MapHint(pid, hint, len, p) =>
      var at := k.MmapHint(pid, hint, len, p);
      FirstFitUnique(old(k.flat), pid, SearchFrom(hint), len, at, FlatFound(old(k.flat), pid, SearchFrom(hint), len));
      out := Found(at);
    case Unmap(pid, at, len) => var r := k.Unmap(pid, at, len); out := Answer(r);
    case Protect(pid, at, len, p) => var r := k.Protect(pid, at, len, p); out := Answer(r);
    case Read(pid, at, len) => var r, _ := k.ReadBytes(pid, at, len); out := Contents(r);
    case Write(pid, at, data) => var r, _ := k.AccessMut(pid, at, data); out := Answer(r);
    case Fetch(pid, at) => var r := k.UserFetch(pid, at); out := Fetched(r);
    case Poke(pid, at, b) => var r := k.UserStore(pid, at, b); out := Signal(r);
  }

  /** Copy-on-write refines eager copying: over every run, the kernel's answers are those
      of the flat memory, and it ends up standing for the flat memory's final state. */
  method Execute(k: Kernel, ops: seq<Op>) returns (outs: seq<Out>)
    requires k.Valid()
    modifies k
    ensures k.Valid() && WorldOf(k) == After(old(WorldOf(k)), ops)
    ensures outs == Answers(old(WorldOf(k)), ops)
  {
    outs := [];
    var i := 0;
    while i < |ops|
      invariant 0 <= i <= |ops|
      invariant k.Valid() && WorldOf(k) == After(old(WorldOf(k)), ops[..i])
      invariant outs == Answers(old(WorldOf(k)), ops[..i])
    {
      assert ops[..i + 1][..i] == ops[..i];
      var out := Perform(k, ops[i]);
      outs := outs + [out];
      i := i + 1;
    }
    assert ops[..i] == ops;
  }

  // ----- isolation

  /** Whether an operation acts on address space `pid`. */
  predicate Touches(op: Op, pid: nat) {
    match op
    case Fork(parent, child) => child == pid
    case _ => op.pid == pid
  }

  ghost predicate SamePageAt(v: Flat, p: nat, w: Flat, q: nat, vpn: nat) {
    && (Slot(p, vpn) in v <==> Slot(q, vpn) in w)
    && (Slot(p, vpn) in v ==> v[Slot(p, vpn)].data == w[Slot(q, vpn)].data)
  }

  /** Space `p` of `v` holds the same bytes as space `q` of `w`. */
  ghost predicate SameSpace(v: Flat, p: nat, w: Flat, q: nat) {
    forall vpn: nat {:trigger SamePageAt(v, p, w, q, vpn)} :: SamePageAt(v, p, w, q, vpn)
  }

  lemma SameReads(v: Flat, p: nat, w: Flat, q: nat, at: nat, len: nat)
    requires SameSpace(v, p, w, q)
    ensures FlatRead(v, p, at, len) == FlatRead(w, q, at, len)
  {
    forall a: nat ensures (FlatMapped(v, p, a) <==> FlatMapped(w, q, a)) && FlatByte(v, p, a) == FlatByte(w, q, a) {
      assert SamePageAt(v, p, w, q, a / PAGE_SIZE);
    }
    assert AllMapped(v, p, at, at + len) <==> AllMapped(w, q, at, at + len);
    assert Bytes(v, p, at, len) == Bytes(w, q, at, len);
  }

  lemma StepKeeps(w: World, op: Op, pid: nat, vpn: nat)
    requires !Touches(op, pid)
    ensures SamePageAt(w.flat, pid, Step(w, op).0.flat, pid, vpn)
  {
    if op.Fork? && Legal(w.spaces, op) && Unused(w.flat, op.child) {
      FlatForkAt(w.flat, op.parent, op.child, Slot(pid, vpn));
    }
  }

  lemma {:induction false} RunKeeps(w: World, ops: seq<Op>, pid: nat)
    requires forall i | 0 <= i < |ops| :: !Touches(ops[i], pid)
    ensures SameSpace(w.flat, pid, After(w, ops).flat, pid)
  {
    if ops != [] {
      var start := ops[..|ops| - 1];
      RunKeeps(w, start, pid);
      forall vpn: nat ensures SamePageAt(w.flat, pid, After(w, ops).flat, pid, vpn) {
        assert SamePageAt(w.flat, pid, After(w, start).flat, pid, vpn);
        StepKeeps(After(w, start), ops[|ops| - 1], pid, vpn);
      }
    }
  }

  /** What the child reads later is what the parent had at the fork, whatever the parent and
      every other process do in between. */
  lemma ForkIsolates(w: World, parent: nat, child: nat, ops: seq<Op>, at: nat, len: nat)
    requires parent in w.spaces && child !in w.spaces && Unused(w.flat, child)
    requires forall i | 0 <= i < |ops| :: !Touches(ops[i], child)
    ensures FlatRead(After(Step(w, Fork(parent, child)).0, ops).flat, child, at, len) == FlatRead(w.flat, parent, at, len)
  {
    var forked := Step(w, Fork(parent, child)).0;
    RunKeeps(forked, ops, child);
    SameReads(forked.flat, child, After(forked, ops).flat, child, at, len);
    forall vpn: nat ensures SamePageAt(w.flat, parent, forked.flat, child, vpn) {
      FlatForkAt(w.flat, parent, child, Slot(child, vpn));
    }
    SameReads(w.flat, parent, forked.flat, child, at, len);
  }

  /** The same of the kernel: read the parent, fork, let any run go by that does not act on the child, read the child. */
  method ForkAndRun(k: Kernel, parent: nat, child: nat, ops: seq<Op>, at: nat, len: nat) returns (before: Result<seq<Byte>>, after: Result<seq<Byte>>)
    requires k.Valid() && parent in k.areas && child !in k.areas
    requires forall i | 0 <= i < |ops| :: !Touches(ops[i], child)
    modifies k
    ensures k.Valid() && after == before && before == FlatRead(old(k.flat), parent, at, len)
  {
    ghost var w := WorldOf(k);
    SpaceUnused(k, child);
    var visits;
    before, visits := k.ReadBytes(parent, at, len);
    var forked := Perform(k, Fork(parent, child));
    var outs := Execute(k, ops);
    ForkIsolates(w, parent, child, ops, at, len);
    RunHasSpace(Step(w, Fork(parent, child)).0, ops, child);
    after, visits := k.ReadBytes(child, at, len);
  }

  lemma SpaceUnused(k: Kernel, pid: nat)
    requires k.Valid() && pid !in k.areas
    ensures Unused(k.flat, pid)
  {
    forall s | s in k.flat ensures s.space != pid { assert TiedAt(k.mem, k.areas, k.flat, s); }
  }

  lemma {:induction false} RunHasSpace(w: World, ops: seq<Op>, pid: nat)
    requires pid in w.spaces && forall i | 0 <= i < |ops| :: !Touches(ops[i], pid)
    ensures pid in After(w, ops).spaces
  {
    if ops != [] { RunHasSpace(w, ops[..|ops| - 1], pid); }
  }
}
