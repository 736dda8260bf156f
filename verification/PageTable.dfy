/** The iterator over the leaf entries of a radix page table: it keeps the index vector of the current
    page and the table reached at every level, and after each page bumps the indices and re-reads the
    tables from the first changed level on, allocating tables that are missing. */
module PageTable {
  import opened Wrappers
  import opened AddrRange
  import opened MMArea
  import opened Bits

  // ----- quotient and remainder

  function Quot(a: nat, p: nat): nat
    requires p > 0
  {
    if a < p then 0 else 1 + Quot(a - p, p)
  }

  function Rem(a: nat, p: nat): (r: nat)
    requires p > 0
    ensures r < p
  {
    if a < p then a else Rem(a - p, p)
  }

  lemma {:induction false} QuotRem(a: nat, p: nat)
    requires p > 0
    ensures a == Quot(a, p) * p + Rem(a, p)
  {
    if a >= p {
      QuotRem(a - p, p);
      var q := Quot(a - p, p);
      assert (1 + q) * p == p + q * p;
    }
  }

  lemma DivRem(a: nat, p: nat, q: nat, r: nat)
    requires p > 0 && a == q * p + r && r < p
    ensures Quot(a, p) == q && Rem(a, p) == r
  {
    var d := Quot(a, p);
    QuotRem(a, p);
    if q < d {
      MulAtLeast(d, q, p);
    } else if d < q {
      MulAtLeast(q, d, p);
    }
  }

  /** Shifting right and masking, as the processor does them. */
  lemma QuotIsDiv(a: nat, p: nat)
    requires p > 0
    ensures Quot(a, p) == a / p && Rem(a, p) == a % p
  {
    DivRem(a, p, a / p, a % p);
  }

  lemma DivDiv(a: nat, p: nat, q: nat)
    requires p > 0 && q > 0
    ensures p * q > 0
    ensures Quot(a, p * q) == Quot(Quot(a, p), q)
    ensures Rem(a, p * q) == Rem(Quot(a, p), q) * p + Rem(a, p)
  {
    var m, z := Quot(a, p), Rem(a, p);
    QuotRem(a, p);
    QuotRem(m, q);
    DivDivBy(a, p, q, m, z, Quot(m, q), Rem(m, q));
  }

  lemma DivDivBy(a: nat, p: nat, q: nat, m: nat, z: nat, x: nat, y: nat)
    requires a == m * p + z && m == x * q + y && z < p && y < q
    ensures p * q > 0 && Quot(a, p * q) == x && Rem(a, p * q) == y * p + z
  {
    Regroup(m, x, y, z, p, q);
    DivRem(a, p * q, x, y * p + z);
  }

  lemma Regroup(m: nat, x: nat, y: nat, z: nat, p: nat, q: nat)
    requires m == x * q + y && y < q && z < p
    ensures m * p + z == x * (p * q) + (y * p + z) && y * p + z < p * q && p * q > 0
  {
    MulAtLeast(q, y, p);
    assert p * q == q * p;
    assert m * p == x * q * p + y * p;
    assert x * q * p == x * (p * q);
  }

  lemma {:induction false} Pow2Add(a: nat, b: nat)
    ensures Pow2(a + b) == Pow2(a) * Pow2(b)
  {
    if b > 0 { Pow2Add(a, b - 1); }
  }

  // ----- levels and index vectors

  datatype Level = Level(bit: nat, len: nat) {
    function PageSize(): nat { Pow2(bit) }
    function MaxIndex(): nat { Pow2(len) - 1 }
    function IndexOf(addr: nat): nat { Rem(Quot(addr, Pow2(bit)), Pow2(len)) }
  }

  /** One to eight levels whose bit fields touch, the lowest last. */
  predicate LevelsOk(levels: seq<Level>) {
    1 <= |levels| <= 8 && forall i | 0 <= i < |levels| - 1 :: levels[i].bit == levels[i + 1].bit + levels[i + 1].len
  }

  /** The mixed-radix digits of a page number, most significant first. */
  function Digits(levels: seq<Level>, u: nat): (d: seq<nat>)
    ensures |d| == |levels|
    ensures forall i | 0 <= i < |d| :: d[i] <= levels[i].MaxIndex()
  {
    if levels == [] then []
    else
      var n := |levels| - 1;
      Digits(levels[..n], Quot(u, Pow2(levels[n].len))) + [Rem(u, Pow2(levels[n].len))]
  }

  /** How many pages the levels can tell apart. */
  function Total(levels: seq<Level>): (t: nat)
    ensures t > 0
  {
    if levels == [] then 1
    else
      var n := |levels| - 1;
      Total(levels[..n]) * Pow2(levels[n].len)
  }

  function Value(levels: seq<Level>, d: seq<nat>): nat
    requires |d| == |levels|
  {
    if levels == [] then 0
    else
      var n := |levels| - 1;
      Value(levels[..n], d[..n]) * Pow2(levels[n].len) + d[n]
  }

  /** The index each level computes from an address is the digit of the page number. */
  lemma {:induction false} DigitsAreIndices(levels: seq<Level>, addr: nat, i: nat)
    requires LevelsOk(levels) && i < |levels|
    ensures Digits(levels, Quot(addr, levels[|levels| - 1].PageSize()))[i] == levels[i].IndexOf(addr)
    decreases |levels|
  {
    var n := |levels| - 1;
    if i < n {
      var up := levels[..n];
      DigitsAreIndices(up, addr, i);
      Pow2Add(levels[n].bit, levels[n].len);
      DivDiv(addr, Pow2(levels[n].bit), Pow2(levels[n].len));
    }
  }

  /** Digits and value are inverse, up to the pages the levels tell apart. */
  lemma {:induction false} DigitsValue(levels: seq<Level>, u: nat)
    ensures Value(levels, Digits(levels, u)) == Rem(u, Total(levels))
    decreases |levels|
  {
    if levels != [] {
      var n := |levels| - 1;
      var r, d := Pow2(levels[n].len), Digits(levels, u);
      DigitsValue(levels[..n], Quot(u, r));
      assert d[..n] == Digits(levels[..n], Quot(u, r));
      DivDiv(u, r, Total(levels[..n]));
    }
  }

  ghost predicate MaxFrom(levels: seq<Level>, d: seq<nat>, i: nat)
    requires |d| == |levels|
  {
    forall k | i <= k < |d| :: d[k] == levels[k].MaxIndex()
  }

  function Bumped(d: seq<nat>, i: nat): seq<nat>
    requires i < |d|
  {
    d[..i] + [d[i] + 1] + seq(|d| - 1 - i, _ => 0)
  }

  /** Adding one to the last index that is not at its maximum, and clearing those after it, counts on by one. */
  lemma {:induction false} BumpCounts(levels: seq<Level>, u: nat, i: nat)
    requires i < |levels| && MaxFrom(levels, Digits(levels, u), i + 1) && Digits(levels, u)[i] != levels[i].MaxIndex()
    ensures Digits(levels, u + 1) == Bumped(Digits(levels, u), i)
    decreases |levels|
  {
    var n := |levels| - 1;
    var r := Pow2(levels[n].len);
    var up := levels[..n];
    DigitsLast(levels, u, up, r);
    DigitsLast(levels, u + 1, up, r);
    if i == n {
      QuotRem(u, r);
      DivRem(u + 1, r, Quot(u, r), Rem(u, r) + 1);
    } else {
      MaxPrefix(levels, Digits(up, Quot(u, r)), Rem(u, r), i + 1);
      BumpCounts(up, Quot(u, r), i);
      BumpCarries(up, u, r, i);
    }
  }

  lemma DigitsLast(levels: seq<Level>, u: nat, up: seq<Level>, r: nat)
    requires levels != [] && up == levels[..|levels| - 1] && r == Pow2(levels[|levels| - 1].len)
    ensures Digits(levels, u) == Digits(up, Quot(u, r)) + [Rem(u, r)]
  {}

  /** The last index goes back to 0 and the count goes on above it. */
  lemma BumpCarries(up: seq<Level>, u: nat, r: nat, i: nat)
    requires r > 0 && Rem(u, r) == r - 1 && i < |up|
    requires Digits(up, Quot(u, r) + 1) == Bumped(Digits(up, Quot(u, r)), i)
    ensures Digits(up, Quot(u + 1, r)) + [Rem(u + 1, r)] == Bumped(Digits(up, Quot(u, r)) + [Rem(u, r)], i)
  {
    Carry(u, r);
    BumpedAppend(Digits(up, Quot(u, r)), i, r - 1);
  }

  lemma MaxPrefix(levels: seq<Level>, up: seq<nat>, last: nat, i: nat)
    requires |levels| == |up| + 1 && i < |levels| && MaxFrom(levels, up + [last], i)
    ensures MaxFrom(levels[..|up|], up, i) && last == levels[|up|].MaxIndex()
  {
    var d := up + [last];
    assert forall k | 0 <= k < |up| :: up[k] == d[k];
    assert d[|up|] == last;
  }

  lemma BumpedAppend(d: seq<nat>, i: nat, last: nat)
    requires i < |d|
    ensures Bumped(d + [last], i) == Bumped(d, i) + [0]
  {}

  lemma Carry(u: nat, r: nat)
    requires r > 0 && Rem(u, r) == r - 1
    ensures Quot(u + 1, r) == Quot(u, r) + 1 && Rem(u + 1, r) == 0
  {
    var q := Quot(u, r);
    QuotRem(u, r);
    assert (q + 1) * r == q * r + r;
    DivRem(u + 1, r, q + 1, 0);
  }

  ghost predicate AtLastPage(levels: seq<Level>, u: nat) { Rem(u, Total(levels)) == Total(levels) - 1 }

  /** All indices are at their maximum exactly at the last page of the address space. */
  lemma {:induction false} LastPage(levels: seq<Level>, u: nat)
    ensures MaxFrom(levels, Digits(levels, u), 0) <==> AtLastPage(levels, u)
    decreases |levels|
  {
    if levels != [] {
      var n := |levels| - 1;
      var r, t, d := Pow2(levels[n].len), Total(levels[..n]), Digits(levels, u);
      LastPage(levels[..n], Quot(u, r));
      assert forall k | 0 <= k < n :: Digits(levels[..n], Quot(u, r))[k] == d[k];
      assert MaxFrom(levels, d, 0) <==> MaxFrom(levels[..n], d[..n], 0) && d[n] == r - 1;
      DivDiv(u, r, t);
      LastDigit(Rem(Quot(u, r), t), Rem(u, r), r, t);
    }
  }

  lemma LastDigit(a: nat, b: nat, r: nat, t: nat)
    requires a < t && b < r
    ensures a * r + b == t * r - 1 <==> a == t - 1 && b == r - 1
  {
    MulAtLeast(t, a, r);
    if a < t - 1 { MulAtLeast(t - 1, a, r); }
  }


  // ----- tables and walks

  datatype Entry = Table(pfn: nat) | Leaf(data: int)

  /** Tables by frame; an absent index is a null entry. */
  type Mem = map<nat, map<nat, Entry>>

  function Child(mem: Mem, table: nat, index: nat): Option<nat> {
    if table in mem && index in mem[table] && mem[table][index].Table? then Some(mem[table][index].pfn) else None
  }

  /** The table reached from the root along a path of indices. */
  function Walk(mem: Mem, root: nat, path: seq<nat>): Option<nat> {
    if path == [] then Some(root)
    else
      var n := |path| - 1;
      var up := Walk(mem, root, path[..n]);
      if up.None? then None else Child(mem, up.value, path[n])
  }

  /** Tables above the last level hold only tables of the next one. */
  ghost predicate TypedAt(mem: Mem, depth: map<nat, nat>, n: nat, t: nat) {
    t in mem ==>
      && t in depth && depth[t] < n
      && (depth[t] < n - 1 ==>
            forall i | i in mem[t] :: mem[t][i].Table? && mem[t][i].pfn in mem && mem[t][i].pfn in depth
                                      && depth[mem[t][i].pfn] == depth[t] + 1)
  }

  ghost predicate Typed(mem: Mem, depth: map<nat, nat>, n: nat, root: nat) {
    && root in mem && root in depth && depth[root] == 0
    && forall t: nat {:trigger TypedAt(mem, depth, n, t)} :: TypedAt(mem, depth, n, t)
  }

  /** No table, no entry and no last-level table is changed; null entries above may have got tables. */
  ghost predicate GrowAt(mem: Mem, depth: map<nat, nat>, mem': Mem, depth': map<nat, nat>, n: nat, t: nat) {
    t in mem && t in depth ==>
      && t in mem' && t in depth' && depth'[t] == depth[t]
      && (depth[t] == n - 1 ==> mem'[t] == mem[t])
      && forall i | i in mem[t] :: i in mem'[t] && mem'[t][i] == mem[t][i]
  }

  ghost predicate Grows(mem: Mem, depth: map<nat, nat>, mem': Mem, depth': map<nat, nat>, n: nat) {
    forall t: nat {:trigger GrowAt(mem, depth, mem', depth', n, t)} :: GrowAt(mem, depth, mem', depth', n, t)
  }

  lemma GrowsThen(m1: Mem, d1: map<nat, nat>, m2: Mem, d2: map<nat, nat>, m3: Mem, d3: map<nat, nat>, n: nat)
    requires Grows(m1, d1, m2, d2, n) && Grows(m2, d2, m3, d3, n)
    ensures Grows(m1, d1, m3, d3, n)
  {
    forall t: nat ensures GrowAt(m1, d1, m3, d3, n, t) {
      assert GrowAt(m1, d1, m2, d2, n, t) && GrowAt(m2, d2, m3, d3, n, t);
    }
  }

  lemma GrowsSelf(m: Mem, d: map<nat, nat>, n: nat)
    ensures Grows(m, d, m, d, n)
  {
    forall t: nat ensures GrowAt(m, d, m, d, n, t) {}
  }

  /** A walk ends at a table of the depth of its path. */
  lemma {:induction false} WalkDepth(mem: Mem, depth: map<nat, nat>, n: nat, root: nat, path: seq<nat>)
    requires Typed(mem, depth, n, root) && |path| < n && Walk(mem, root, path).Some?
    ensures var t := Walk(mem, root, path).value; t in mem && t in depth && depth[t] == |path|
    decreases |path|
  {
    if path != [] {
      var k := |path| - 1;
      WalkDepth(mem, depth, n, root, path[..k]);
      assert TypedAt(mem, depth, n, Walk(mem, root, path[..k]).value);
    }
  }

  /** Walks survive growth. */
  lemma {:induction false} WalkGrows(mem: Mem, depth: map<nat, nat>, mem': Mem, depth': map<nat, nat>, n: nat, root: nat, path: seq<nat>)
    requires Typed(mem, depth, n, root) && Grows(mem, depth, mem', depth', n)
    requires |path| < n && Walk(mem, root, path).Some?
    ensures Walk(mem', root, path) == Walk(mem, root, path)
    decreases |path|
  {
    if path != [] {
      var k := |path| - 1;
      WalkGrows(mem, depth, mem', depth', n, root, path[..k]);
      WalkDepth(mem, depth, n, root, path[..k]);
      assert GrowAt(mem, depth, mem', depth', n, Walk(mem, root, path[..k]).value);
    }
  }

  function AddTable(mem: Mem, table: nat, index: nat, pfn: nat): Mem
    requires table in mem
  {
    mem[pfn := map[]][table := mem[table][index := Table(pfn)]]
  }

  lemma AddTableKeeps(mem: Mem, depth: map<nat, nat>, n: nat, root: nat, table: nat, index: nat, pfn: nat)
    requires Typed(mem, depth, n, root) && table in mem && table in depth && depth[table] < n - 1 && index !in mem[table] && pfn !in mem
    ensures var mem', depth' := AddTable(mem, table, index, pfn), depth[pfn := depth[table] + 1];
            Typed(mem', depth', n, root) && Grows(mem, depth, mem', depth', n) && Child(mem', table, index) == Some(pfn)
  {
    var mem', depth' := AddTable(mem, table, index, pfn), depth[pfn := depth[table] + 1];
    assert TypedAt(mem, depth, n, table);
    forall t: nat ensures TypedAt(mem', depth', n, t) { assert TypedAt(mem, depth, n, t); }
    forall t: nat ensures GrowAt(mem, depth, mem', depth', n, t) {}
  }


  // ----- the iterator

  /** The table kept for a level is the one the walk along the indices above it reaches. */
  ghost predicate LevelAt(mem: Mem, root: nat, indices: seq<nat>, tables: seq<Option<nat>>, k: nat) {
    k < |tables| && k <= |indices| && tables[k].Some? && tables[k] == Walk(mem, root, indices[..k])
  }

  ghost predicate Synced(mem: Mem, root: nat, indices: seq<nat>, tables: seq<Option<nat>>, upto: nat) {
    forall k: nat {:trigger LevelAt(mem, root, indices, tables, k)} | k <= upto :: LevelAt(mem, root, indices, tables, k)
  }

  /** Reading one more table keeps the ones above in step. */
  lemma SyncedNext(mem: Mem, depth: map<nat, nat>, mem': Mem, depth': map<nat, nat>, n: nat, root: nat,
                   indices: seq<nat>, tables: seq<Option<nat>>, k: nat, child: nat)
    requires Typed(mem, depth, n, root) && Grows(mem, depth, mem', depth', n) && k + 1 < n <= |indices| && n <= |tables|
    requires Synced(mem, root, indices, tables, k)
    requires tables[k].Some? && Child(mem', tables[k].value, indices[k]) == Some(child)
    ensures Synced(mem', root, indices, tables[k + 1 := Some(child)], k + 1)
  {
    var next := tables[k + 1 := Some(child)];
    forall j: nat | j <= k ensures LevelAt(mem', root, indices, next, j) {
      assert LevelAt(mem, root, indices, tables, j);
      WalkGrows(mem, depth, mem', depth', n, root, indices[..j]);
    }
    assert indices[..k + 1][..k] == indices[..k];
    assert LevelAt(mem', root, indices, next, k);
    assert LevelAt(mem', root, indices, next, k + 1);
  }

  class Tables {
    var mem: Mem
    ghost var depth: map<nat, nat>

    /** get_page_table: the table an entry names, allocated and zeroed if there is none. */
    method GetPageTable(table: nat, index: nat, ghost n: nat, ghost root: nat) returns (child: nat)
      requires Typed(mem, depth, n, root) && table in mem && table in depth && depth[table] < n - 1
      modifies this
      ensures Typed(mem, depth, n, root) && Grows(old(mem), old(depth), mem, depth, n)
      ensures Child(mem, table, index) == Some(child)
      ensures index in old(mem[table]) ==> unchanged(this)
    {
      assert TypedAt(mem, depth, n, table);
      if index in mem[table] {
        GrowsSelf(mem, depth, n);
        return mem[table][index].pfn;
      }
      SpareExists(mem);
      var pfn: nat :| pfn !in mem;
      AddTableKeeps(mem, depth, n, root, table, index, pfn);
      mem := AddTable(mem, table, index, pfn);
      depth := depth[pfn := depth[table] + 1];
      return pfn;
    }
  }

  /** What `next` gives: the end, the place of an entry, or the panic past the last index. */
  datatype Item = Done | At(table: nat, index: nat) | Panic

  /** The leaf entry a root walk finds for a page. */
  ghost function LeafOf(mem: Mem, root: nat, levels: seq<Level>, u: nat): Item
    requires levels != []
  {
    var d, n := Digits(levels, u), |levels| - 1;
    var t := Walk(mem, root, d[..n]);
    if t.None? then Panic else At(t.value, d[n])
  }

  /** The tables above a level do not depend on the indices from it on. */
  lemma SyncedPrefix(mem: Mem, root: nat, was: seq<nat>, indices: seq<nat>, tables: seq<Option<nat>>, i: nat)
    requires i <= |was| == |indices| && was[..i] == indices[..i] && i < |tables|
    requires forall k: nat {:trigger LevelAt(mem, root, was, tables, k)} | k <= i :: LevelAt(mem, root, was, tables, k)
    ensures Synced(mem, root, indices, tables, i)
  {
    forall k: nat | k <= i ensures LevelAt(mem, root, indices, tables, k) {
      assert LevelAt(mem, root, was, tables, k);
      assert was[..k] == was[..i][..k] == indices[..i][..k] == indices[..k];
    }
  }

  /** Each level's index of an address: the digits of its page. */
  method FillIndices(indices: array<nat>, levels: seq<Level>, addr: nat)
    requires LevelsOk(levels) && indices.Length == 8
    modifies indices
    ensures indices[..|levels|] == Digits(levels, Quot(addr, levels[|levels| - 1].PageSize()))
  {
    ghost var d := Digits(levels, Quot(addr, levels[|levels| - 1].PageSize()));
    for i := 0 to |levels|
      invariant forall k | 0 <= k < i :: indices[k] == d[k]
    {
      DigitsAreIndices(levels, addr, i);
      indices[i] := levels[i].IndexOf(addr);
    }
  }

  method BumpIndices(indices: array<nat>, n: nat, i: nat)
    requires i < n <= indices.Length
    modifies indices
    ensures indices[..n] == Bumped(old(indices[..n]), i)
    ensures indices[..i] == old(indices[..i])
  {
    indices[i] := indices[i] + 1;
    for k := i + 1 to n
      invariant forall j | 0 <= j < i :: indices[j] == old(indices[j])
      invariant indices[i] == old(indices[i]) + 1
      invariant forall j | i < j < k :: indices[j] == 0
    {
      indices[k] := 0;
    }
  }

  lemma PageBounds(start: nat, end: nat)
    requires start <= end
    ensures Floor(start) <= start <= end <= Ceil(end)
  {}

  /** The last table kept and the last index are where the root walk for the page ends. */
  lemma KeptIsLeaf(mem: Mem, root: nat, levels: seq<Level>, page: nat, indices: seq<nat>, tables: seq<Option<nat>>)
    requires LevelsOk(levels) && |levels| <= |indices| && indices[..|levels|] == Digits(levels, page)
    requires Synced(mem, root, indices, tables, |levels| - 1)
    ensures |levels| <= |tables| && tables[|levels| - 1].Some?
    ensures LeafOf(mem, root, levels, page) == At(tables[|levels| - 1].value, indices[|levels| - 1])
  {
    var n := |levels| - 1;
    assert LevelAt(mem, root, indices, tables, n);
    assert indices[..n] == indices[..|levels|][..n] && indices[n] == indices[..|levels|][n];
  }

  class TableIterator {
    const levels: seq<Level>
    const m: Tables
    const root: nat
    const indices: array<nat>
    const tables: array<Option<nat>>
    var remaining: nat
    ghost var page: nat

    ghost predicate Shape()
      reads this, m, indices, tables
    {
      && LevelsOk(levels) && indices.Length == tables.Length == 8
      && Typed(m.mem, m.depth, |levels|, root)
    }

    ghost predicate Valid()
      reads this, m, indices, tables
    {
      && Shape()
      && indices[..|levels|] == Digits(levels, page)
      && Synced(m.mem, root, indices[..], tables[..], |levels| - 1)
    }

    method ParseTablesFrom(start: nat)
      requires Shape() && start < |levels| && Synced(m.mem, root, indices[..], tables[..], start)
      modifies m, tables
      ensures Shape() && Synced(m.mem, root, indices[..], tables[..], |levels| - 1)
      ensures Grows(old(m.mem), old(m.depth), m.mem, m.depth, |levels|)
    {
      ghost var n := |levels|;
      var k := start;
      GrowsSelf(m.mem, m.depth, n);
      while k < |levels| - 1
        invariant start <= k < |levels| && Shape() && Synced(m.mem, root, indices[..], tables[..], k)
        invariant Grows(old(m.mem), old(m.depth), m.mem, m.depth, n)
      {
        assert LevelAt(m.mem, root, indices[..], tables[..], k);
        WalkDepth(m.mem, m.depth, n, root, indices[..][..k]);
        ghost var mem, depth, was := m.mem, m.depth, tables[..];
        var child := m.GetPageTable(tables[k].value, indices[k], n, root);
        SyncedNext(mem, depth, m.mem, m.depth, n, root, indices[..], was, k, child);
        GrowsThen(old(m.mem), old(m.depth), mem, depth, m.mem, m.depth, n);
        tables[k + 1] := Some(child);
        assert tables[..] == was[k + 1 := Some(child)];
        k := k + 1;
      }
    }


    constructor (m: Tables, root: nat, start: nat, end: nat, levels: seq<Level>)
      requires LevelsOk(levels) && Typed(m.mem, m.depth, |levels|, root) && start <= end
      modifies m
      ensures Valid() && fresh(indices) && fresh(tables)
      ensures this.m == m && this.root == root && this.levels == levels
      ensures page == Quot(Floor(start), levels[|levels| - 1].PageSize())
      ensures remaining == Quot(Ceil(end) - Floor(start), levels[|levels| - 1].PageSize())
      ensures Grows(old(m.mem), old(m.depth), m.mem, m.depth, |levels|)
    {
      this.m, this.root, this.levels := m, root, levels;
      PageBounds(start, end);
      remaining := Quot(Ceil(end) - Floor(start), levels[|levels| - 1].PageSize());
      page := Quot(Floor(start), levels[|levels| - 1].PageSize());
      indices := new nat[8](_ => 0);
      tables := new Option<nat>[8](_ => None);
      new;
      FillIndices(indices, levels, Floor(start));
      tables[0] := Some(root);
      assert LevelAt(m.mem, root, indices[..], tables[..], 0);
      ParseTablesFrom(0);
    }

    /** The last level whose index can still grow, counted from one; zero if there is none. */
    method LastBelowMax() returns (i: nat)
      requires Valid()
      ensures i <= |levels| && MaxFrom(levels, Digits(levels, page), i)
      ensures i > 0 ==> indices[i - 1] != levels[i - 1].MaxIndex()
      ensures i == 0 <==> MaxFrom(levels, Digits(levels, page), 0)
    {
      i := |levels|;
      ghost var d := Digits(levels, page);
      assert forall k | 0 <= k < |d| :: d[k] == indices[..|levels|][k] == indices[k];
      while i > 0 && indices[i - 1] == levels[i - 1].MaxIndex()
        invariant i <= |levels| && MaxFrom(levels, d, i)
      {
        i := i - 1;
      }
    }

    /** indices counts on by one from level i. */
    method Bump(i: nat)
      requires Valid() && i < |levels| && MaxFrom(levels, Digits(levels, page), i + 1) && indices[i] != levels[i].MaxIndex()
      modifies indices, this`page
      ensures Shape() && page == old(page) + 1 && indices[..|levels|] == Digits(levels, page)
      ensures Synced(m.mem, root, indices[..], tables[..], i)
    {
      ghost var was := indices[..];
      BumpCounts(levels, page, i);
      assert was[..|levels|][i] == was[i];
      BumpIndices(indices, |levels|, i);
      page := page + 1;
      SyncedPrefix(m.mem, root, was, indices[..], tables[..], i);
    }

    /** Moves on to the next page; there is none after the last of the address space. */
    method Advance() returns (ok: bool)
      requires Valid()
      modifies this`page, m, indices, tables
      ensures ok <==> !AtLastPage(levels, old(page))
      ensures ok ==> Valid() && page == old(page) + 1 && Grows(old(m.mem), old(m.depth), m.mem, m.depth, |levels|)
    {
      var i := LastBelowMax();
      LastPage(levels, page);
      if i == 0 { return false; }
      Bump(i - 1);
      ParseTablesFrom(i - 1);
      return true;
    }

    /** One step: the place of the current page's leaf entry.  The step is taken eagerly, so it panics
        on the last page of the address space instead of yielding it. */
    method Next() returns (r: Item)
      requires Valid()
      modifies this, m, indices, tables
      ensures old(remaining) == 0 ==> r == Done && unchanged(this) && unchanged(m) && Valid()
      ensures old(remaining) > 0 ==> (r == Panic <==> AtLastPage(levels, old(page)))
      ensures r.At? ==> Valid() && r == old(LeafOf(m.mem, root, levels, page))
      ensures r.At? ==> page == old(page) + 1 && remaining == old(remaining) - 1
      ensures r.At? ==> Grows(old(m.mem), old(m.depth), m.mem, m.depth, |levels|)
      ensures r == Done <==> old(remaining) == 0
    {
      if remaining == 0 { return Done; }
      remaining := remaining - 1;
      var last := |levels| - 1;
      KeptIsLeaf(m.mem, root, levels, page, indices[..], tables[..]);
      r := At(tables[last].value, indices[last]);
      var ok := Advance();
      if !ok { return Panic; }
    }
  }

  // ----- a whole iteration

  lemma LeafGrows(mem: Mem, depth: map<nat, nat>, mem': Mem, depth': map<nat, nat>, root: nat, levels: seq<Level>, u: nat)
    requires levels != [] && Typed(mem, depth, |levels|, root) && Grows(mem, depth, mem', depth', |levels|)
    requires LeafOf(mem, root, levels, u).At?
    ensures LeafOf(mem', root, levels, u) == LeafOf(mem, root, levels, u)
  {
    WalkGrows(mem, depth, mem', depth', |levels|, root, Digits(levels, u)[..|levels| - 1]);
  }

  lemma RemAhead(u: nat, k: nat, t: nat)
    requires t > 0 && Rem(u, t) + k < t
    ensures Rem(u + k, t) == Rem(u, t) + k
  {
    QuotRem(u, t);
    DivRem(u + k, t, Quot(u, t), Rem(u, t) + k);
  }

  ghost predicate Collected(mem: Mem, root: nat, levels: seq<Level>, first: nat, out: seq<Item>)
    requires levels != []
  {
    forall i | 0 <= i < |out| :: out[i].At? && out[i] == LeafOf(mem, root, levels, first + i)
  }

  lemma CollectedNext(mem: Mem, depth: map<nat, nat>, mem': Mem, depth': map<nat, nat>, root: nat, levels: seq<Level>,
                      first: nat, out: seq<Item>, r: Item)
    requires levels != [] && Typed(mem, depth, |levels|, root) && Grows(mem, depth, mem', depth', |levels|)
    requires Collected(mem, root, levels, first, out) && r.At? && r == LeafOf(mem, root, levels, first + |out|)
    ensures Collected(mem', root, levels, first, out + [r])
  {
    var next := out + [r];
    forall i | 0 <= i < |next| ensures next[i].At? && next[i] == LeafOf(mem', root, levels, first + i) {
      assert next[i] == if i < |out| then out[i] else r;
      LeafGrows(mem, depth, mem', depth', root, levels, first + i);
    }
  }

  /** All leaf entries of an address range.  It ends without a panic exactly when the range does not
      reach the last page of the address space; then the i-th entry is the one a root walk finds for
      the i-th page, and no table or leaf that existed before has changed. */
  method Collect(m: Tables, root: nat, start: nat, end: nat, levels: seq<Level>)
    returns (out: seq<Item>, ok: bool, ghost first: nat, ghost count: nat)
    requires LevelsOk(levels) && Typed(m.mem, m.depth, |levels|, root) && start <= end
    modifies m
    ensures first == Quot(Floor(start), levels[|levels| - 1].PageSize())
    ensures Floor(start) <= Ceil(end) && count == Quot(Ceil(end) - Floor(start), levels[|levels| - 1].PageSize())
    ensures ok <==> Rem(first, Total(levels)) + count < Total(levels)
    ensures ok ==> |out| == count && Collected(m.mem, root, levels, first, out)
    ensures ok ==> Grows(old(m.mem), old(m.depth), m.mem, m.depth, |levels|)
  {
    PageBounds(start, end);
    var it := new TableIterator(m, root, start, end, levels);
    first, count := it.page, it.remaining;
    ghost var total := Total(levels);
    out := [];
    while true
      invariant it.Valid() && it.m == m && it.root == root && it.levels == levels
      invariant fresh(it) && fresh(it.indices) && fresh(it.tables)
      invariant it.page == first + |out| && it.remaining == count - |out| && Rem(first, total) + |out| < total
      invariant Collected(m.mem, root, levels, first, out)
      invariant Grows(old(m.mem), old(m.depth), m.mem, m.depth, |levels|)
      decreases it.remaining
    {
      ghost var mem, depth := m.mem, m.depth;
      RemAhead(first, |out|, total);
      var r := it.Next();
      if r == Panic { return out, false, first, count; }
      if r == Done { return out, true, first, count; }
      CollectedNext(mem, depth, m.mem, m.depth, root, levels, first, out, r);
      GrowsThen(old(m.mem), old(m.depth), mem, depth, m.mem, m.depth, |levels|);
      out := out + [r];
    }
  }

  /** With 4 KiB pages at the last level, the pages yielded are exactly those of the rounded range. */
  lemma CoversRange(start: nat, end: nat, a: nat)
    requires start <= end
    ensures Floor(start) <= a < Ceil(end) <==>
            Quot(Floor(start), PAGE_SIZE) <= Quot(a, PAGE_SIZE) < Quot(Floor(start), PAGE_SIZE) + Quot(Ceil(end) - Floor(start), PAGE_SIZE)
  {
    QuotIsDiv(Floor(start), PAGE_SIZE);
    QuotIsDiv(a, PAGE_SIZE);
    QuotIsDiv(Ceil(end) - Floor(start), PAGE_SIZE);
  }

  /** Different pages below the total have different index vectors. */
  lemma PagesDiffer(levels: seq<Level>, u: nat, w: nat)
    requires Digits(levels, u) == Digits(levels, w)
    ensures Rem(u, Total(levels)) == Rem(w, Total(levels))
  {
    DigitsValue(levels, u);
    DigitsValue(levels, w);
  }

  const SV48 := [Level(39, 9), Level(30, 9), Level(21, 9), Level(12, 9)]

  function Width(levels: seq<Level>): nat {
    if levels == [] then 0 else Width(levels[..|levels| - 1]) + levels[|levels| - 1].len
  }

  lemma {:induction false} TotalIsPow2(levels: seq<Level>)
    ensures Total(levels) == Pow2(Width(levels))
    decreases |levels|
  {
    if levels != [] {
      var n := |levels| - 1;
      TotalIsPow2(levels[..n]);
      Pow2Add(Width(levels[..n]), levels[n].len);
    }
  }

  /** The layout the kernel uses is one of those covered, with 2^36 pages of 4 KiB. */
  lemma Sv48IsCovered()
    ensures LevelsOk(SV48) && Total(SV48) == Pow2(36) && SV48[3].PageSize() == PAGE_SIZE
  {
    TotalIsPow2(SV48);
    Sv48Width();
    Sv48PageSize();
  }

  lemma Sv48Width()
    ensures Width(SV48) == 36
  {
    WidthOf(SV48, 4);
    WidthOf(SV48, 3);
    WidthOf(SV48, 2);
    WidthOf(SV48, 1);
    assert SV48[..4] == SV48 && SV48[..0] == [];
  }

  lemma WidthOf(levels: seq<Level>, n: nat)
    requires 0 < n <= |levels|
    ensures Width(levels[..n]) == Width(levels[..n - 1]) + levels[n - 1].len
  {
    assert levels[..n][..n - 1] == levels[..n - 1];
  }

  lemma Sv48PageSize()
    ensures Pow2(12) == PAGE_SIZE
  {
    assert Pow2(6) == 64;
    Pow2Add(6, 6);
  }


  /** Sv48 addresses: bits 47 and up are equal. */
  const HALF: nat := 0x8000_0000_0000
  const WORD: nat := 0x1_0000_0000_0000_0000

  predicate Canonical(a: nat) { a < HALF || WORD - HALF <= a < WORD }

  /** The iterator panics exactly if the range, rounded to pages, reaches the end of the pages its levels tell apart. */
  ghost predicate Panics(start: nat, end: nat)
    requires start <= end
  {
    PageBounds(start, end);
    Rem(Quot(Floor(start), PAGE_SIZE), Total(SV48)) + Quot(Ceil(end) - Floor(start), PAGE_SIZE) >= Total(SV48)
  }

  lemma Sv48Total()
    ensures Total(SV48) == 0x10_0000_0000
  {
    TotalIsPow2(SV48);
    Sv48Width();
    Pow2Of36();
  }

  lemma Pow2Of36()
    ensures Pow2(36) == 0x10_0000_0000
  {
    assert Pow2(9) == 512;
    Pow2Add(9, 9);
    Pow2Add(18, 18);
  }

  lemma PanicsIs(start: nat, end: nat, k: nat)
    requires start <= end && k * 0x10_0000_0000 <= Floor(start) / PAGE_SIZE < (k + 1) * 0x10_0000_0000
    ensures Panics(start, end) <==> Ceil(end) / PAGE_SIZE >= (k + 1) * 0x10_0000_0000
  {
    PageBounds(start, end);
    Sv48Total();
    QuotIsDiv(Floor(start), PAGE_SIZE);
    QuotIsDiv(Ceil(end) - Floor(start), PAGE_SIZE);
    var u := Quot(Floor(start), PAGE_SIZE);
    DivRem(u, Total(SV48), k, u - k * 0x10_0000_0000);
  }

  /** No canonical range whose ceiling is a machine word makes the iterator panic: the end of the last page is not one. */
  lemma CanonicalRangesEnd(start: nat, end: nat)
    requires start <= end && Ceil(end) < WORD && forall a | Floor(start) <= a < Ceil(end) :: Canonical(a)
    ensures !Panics(start, end)
  {
    PageBounds(start, end);
    if Floor(start) == Ceil(end) {
      Sv48Total();
      QuotIsDiv(0, PAGE_SIZE);
      QuotRem(Quot(Floor(start), PAGE_SIZE), Total(SV48));
    } else if Floor(start) < HALF {
      assert !Canonical(HALF);
      PanicsIs(start, end, 0);
    } else {
      assert Canonical(Floor(start));
      PanicsIs(start, end, 0xFFFF);
    }
  }

  /** In particular no access to user space does. */
  lemma UserRangesEnd(start: nat, end: nat)
    requires start <= end && end <= USER_TOP
    ensures !Panics(start, end)
  {
    PageBounds(start, end);
    CanonicalRangesEnd(start, end);
  }

  /** A range that is not canonical can: the last page below 2^48. */
  lemma LastPagePanics()
    ensures Panics(0xFFFF_FFFF_F000, 0x1_0000_0000_0000)
  {
    PanicsIs(0xFFFF_FFFF_F000, 0x1_0000_0000_0000, 0);
  }

  /** iter_user and iter_kernel on the layout of the kernel: all leaves, unless the range panics. */
  method Iterate(m: Tables, root: nat, start: nat, end: nat) returns (out: seq<Item>, ok: bool)
    requires Typed(m.mem, m.depth, |SV48|, root) && start <= end
    modifies m
    ensures ok <==> !Panics(start, end)
    ensures ok ==> Collected(m.mem, root, SV48, Quot(Floor(start), PAGE_SIZE), out)
    ensures ok ==> Floor(start) <= Ceil(end) && |out| == Quot(Ceil(end) - Floor(start), PAGE_SIZE)
    ensures ok ==> Grows(old(m.mem), old(m.depth), m.mem, m.depth, |SV48|)
  {
    Sv48IsCovered();
    ghost var first, count;
    out, ok, first, count := Collect(m, root, start, end, SV48);
  }
}
