/** Slab caches: pages cut into equal slots, the free ones linked through their own first words.

    A page is on the empty, partial or full list of its cache as its counts call for.  The chain of
    free slots lives in page memory, next to slots that users write to. */
module Slab {
  import opened Wrappers
  import opened Bits
  import opened AddrRange
  import opened IntrusiveList

  type Words = map<nat, nat>

  /** The word at an address; a null pointer is 0. */
  function Word(words: Words, a: nat): nat { if a in words then words[a] else 0 }

  datatype SlabPage = SlabPage(next: nat, count: nat)

  datatype Pool = Pool(list: seq<nat>, count: nat)

  ghost predicate PoolOk(l: Pool) { l.count == |l.list| && NoDup(l.list) }

  function Put(l: Pool, p: nat): Pool { Pool([p] + l.list, l.count + 1) }

  function Take(l: Pool, p: nat): Pool
    requires l.count > 0
  {
    Pool(Unlink(l.list, p), l.count - 1)
  }

  lemma PutOk(l: Pool, p: nat)
    requires PoolOk(l) && p !in l.list
    ensures PoolOk(Put(l, p)) && forall q :: q in Put(l, p).list <==> q in l.list || q == p
  {}

  lemma TakeOk(l: Pool, p: nat)
    requires PoolOk(l) && p in l.list
    ensures l.count > 0 && PoolOk(Take(l, p)) && forall q :: q in Take(l, p).list <==> q in l.list && q != p
  {
    UnlinkIs(l.list, p);
  }

  // ----- slots

  /** Object sizes a cache accepts: at least two slots per page, each with room for a pointer. */
  predicate SizeOk(size: nat) { 8 <= size <= PAGE_SIZE / 2 }

  function Slots(size: nat): nat
    requires SizeOk(size)
  {
    PAGE_SIZE / size
  }

  function SlotAddr(size: nat, page: nat, i: nat): nat { page * PAGE_SIZE + i * size }

  ghost predicate IsSlot(size: nat, page: nat, a: nat)
    requires SizeOk(size)
  {
    exists i: nat :: i < Slots(size) && a == SlotAddr(size, page, i)
  }

  lemma SlotInPage(size: nat, page: nat, a: nat)
    requires SizeOk(size) && IsSlot(size, page, a)
    ensures page * PAGE_SIZE <= a && a + size <= (page + 1) * PAGE_SIZE && a / PAGE_SIZE == page
  {
    var i: nat :| i < Slots(size) && a == SlotAddr(size, page, i);
    SlotBound(size, i);
    InPage(page, i * size);
  }

  lemma SlotBound(size: nat, i: nat)
    requires SizeOk(size) && i < Slots(size)
    ensures i * size + size <= PAGE_SIZE
  {
    SlotsFit(size);
    MulAtLeast(Slots(size), i, size);
  }

  lemma SlotsFit(size: nat)
    requires SizeOk(size)
    ensures Slots(size) >= 2 && Slots(size) * size <= PAGE_SIZE
  {}

  /** Two slots of a page do not overlap. */
  lemma SlotsApart(size: nat, page: nat, a: nat, b: nat)
    requires SizeOk(size) && IsSlot(size, page, a) && IsSlot(size, page, b) && a != b
    ensures a + size <= b || b + size <= a
  {
    var i: nat :| i < Slots(size) && a == SlotAddr(size, page, i);
    var j: nat :| j < Slots(size) && b == SlotAddr(size, page, j);
    if i < j { MulAtLeast(j, i, size); } else if j < i { MulAtLeast(i, j, size); }
  }

  // ----- the free chain

  function First(chain: seq<nat>): nat { if chain == [] then 0 else chain[0] }

  /** Following the words from `next` visits exactly the chain and ends at null. */
  ghost predicate Linked(words: Words, next: nat, chain: seq<nat>)
    decreases |chain|
  {
    && next == First(chain)
    && (chain != [] ==> chain[0] != 0 && Linked(words, Word(words, chain[0]), chain[1..]))
  }

  lemma {:induction false} LinkedElsewhere(words: Words, next: nat, chain: seq<nat>, a: nat, w: nat)
    requires Linked(words, next, chain) && a !in chain
    ensures Linked(words[a := w], next, chain)
    decreases |chain|
  {
    if chain != [] { LinkedElsewhere(words, Word(words, chain[0]), chain[1..], a, w); }
  }

  /** The words of a page as slab_page_init leaves them. */
  function InitChain(size: nat, page: nat, i: nat, n: nat): (c: seq<nat>)
    requires i <= n
    ensures |c| == n - i
    ensures forall k | 0 <= k < |c| :: c[k] == SlotAddr(size, page, i + k)
    decreases n - i
  {
    if i == n then [] else [SlotAddr(size, page, i)] + InitChain(size, page, i + 1, n)
  }


  // ----- a cache

  datatype Cache = Cache(words: Words, slabs: map<nat, SlabPage>, empty: Pool, partial: Pool, full: Pool,
                         chains: map<nat, seq<nat>>, live: map<nat, set<nat>>)

  /** One page: its chain of free slots, its set of live ones, its counts, and the list it is on. */
  ghost predicate SlabAt(c: Cache, size: nat, p: nat)
    requires SizeOk(size)
  {
    if p in c.slabs then
      && p > 0 && p in c.chains && p in c.live
      && Linked(c.words, c.slabs[p].next, c.chains[p]) && NoDup(c.chains[p])
      && |c.live[p]| == c.slabs[p].count && |c.chains[p]| + c.slabs[p].count == Slots(size)
      && (p in c.empty.list <==> c.slabs[p].count == 0)
      && (p in c.full.list <==> c.chains[p] == [])
      && (p in c.partial.list <==> c.slabs[p].count > 0 && c.chains[p] != [])
    else p !in c.empty.list && p !in c.full.list && p !in c.partial.list
  }

  /** One address: a slot of a slab page is free or live and not both; nothing else is either. */
  ghost predicate AddrAt(c: Cache, size: nat, p: nat, a: nat)
    requires SizeOk(size)
  {
    p in c.slabs && p in c.chains && p in c.live ==>
      && (IsSlot(size, p, a) <==> a in c.chains[p] || a in c.live[p])
      && !(a in c.chains[p] && a in c.live[p])
  }

  ghost predicate CacheOk(c: Cache, size: nat) {
    && SizeOk(size) && PoolOk(c.empty) && PoolOk(c.partial) && PoolOk(c.full)
    && (forall p: nat {:trigger SlabAt(c, size, p)} :: SlabAt(c, size, p))
    && (forall p: nat, a: nat {:trigger AddrAt(c, size, p, a)} :: AddrAt(c, size, p, a))
  }

  ghost predicate Live(c: Cache, a: nat) {
    a / PAGE_SIZE in c.slabs && a / PAGE_SIZE in c.live && a in c.live[a / PAGE_SIZE]
  }

  /** alloc_slot on a page with a free slot; the lists are left alone. */
  ghost function Slotted(c: Cache, p: nat): Cache
    requires p in c.slabs && p in c.chains && p in c.live && c.chains[p] != []
  {
    var a := c.chains[p][0];
    c.(slabs := c.slabs[p := SlabPage(Word(c.words, a), c.slabs[p].count + 1)],
       chains := c.chains[p := c.chains[p][1..]], live := c.live[p := c.live[p] + {a}])
  }

  /** dealloc_slot; the lists are left alone. */
  ghost function Unslotted(c: Cache, p: nat, a: nat): Cache
    requires p in c.slabs && p in c.chains && p in c.live && c.slabs[p].count > 0
  {
    c.(words := c.words[a := c.slabs[p].next], slabs := c.slabs[p := SlabPage(a, c.slabs[p].count - 1)],
       chains := c.chains[p := [a] + c.chains[p]], live := c.live[p := c.live[p] - {a}])
  }

  ghost predicate ListedAs(c: Cache, n: Cache, q: nat) {
    && (q in n.empty.list <==> q in c.empty.list)
    && (q in n.partial.list <==> q in c.partial.list)
    && (q in n.full.list <==> q in c.full.list)
  }

  /** Only this page may have changed lists. */
  ghost predicate Moved(c: Cache, n: Cache, p: nat) {
    && PoolOk(n.empty) && PoolOk(n.partial) && PoolOk(n.full)
    && forall q: nat {:trigger ListedAs(c, n, q)} | q != p :: ListedAs(c, n, q)
  }

  lemma SlottedOk(c: Cache, size: nat, p: nat, n: Cache)
    requires CacheOk(c, size) && p in c.slabs && p in c.chains && p in c.live && c.chains[p] != []
    requires Slotted(c, p) == n.(empty := c.empty, partial := c.partial, full := c.full) && Moved(c, n, p)
    requires p !in n.empty.list && (p in n.full.list <==> |c.chains[p]| == 1) && (p in n.partial.list <==> |c.chains[p]| > 1)
    ensures CacheOk(n, size) && c.chains[p][0] !in c.live[p] && IsSlot(size, p, c.chains[p][0])
  {
    var a := c.chains[p][0];
    assert SlabAt(c, size, p) && AddrAt(c, size, p, a);
    forall q: nat ensures SlabAt(n, size, q) {
      assert SlabAt(c, size, q);
      assert q != p ==> ListedAs(c, n, q);
    }
    forall q: nat, b: nat ensures AddrAt(n, size, q, b) { assert AddrAt(c, size, q, b); }
  }

  lemma UnslottedOk(c: Cache, size: nat, p: nat, a: nat, n: Cache)
    requires CacheOk(c, size) && p in c.slabs && p in c.chains && p in c.live && a in c.live[p] && c.slabs[p].count > 0
    requires Unslotted(c, p, a) == n.(empty := c.empty, partial := c.partial, full := c.full) && Moved(c, n, p)
    requires p !in n.full.list && (p in n.empty.list <==> c.slabs[p].count == 1) && (p in n.partial.list <==> c.slabs[p].count > 1)
    ensures CacheOk(n, size)
  {
    assert SlabAt(c, size, p) && AddrAt(c, size, p, a);
    SlotInPage(size, p, a);
    forall q: nat ensures SlabAt(n, size, q) {
      assert SlabAt(c, size, q) && AddrAt(c, size, q, a);
      assert q != p ==> ListedAs(c, n, q);
      if q in c.slabs {
        if IsSlot(size, q, a) { SlotInPage(size, q, a); }
        LinkedElsewhere(c.words, c.slabs[q].next, c.chains[q], a, c.slabs[p].next);
      }
    }
    forall q: nat, b: nat ensures AddrAt(n, size, q, b) { assert AddrAt(c, size, q, b); }
  }

  const WORD: nat := 8

  /** Stores to the bytes [from, to) leave every word that shares no byte with them. */
  ghost predicate StoredIn(words: Words, other: Words, from: nat, to: nat) {
    forall b: nat {:trigger Word(other, b)} | b + WORD <= from || to <= b :: Word(other, b) == Word(words, b)
  }

  /** The word of a free slot shares no byte with a live slot. */
  lemma NotFree(c: Cache, size: nat, p: nat, a: nat, q: nat, b: nat)
    requires CacheOk(c, size) && p in c.slabs && p in c.live && a in c.live[p]
    requires q in c.slabs && q in c.chains && b in c.chains[q]
    ensures b + WORD <= a || a + size <= b
  {
    assert SlabAt(c, size, p) && AddrAt(c, size, p, a) && SlabAt(c, size, q) && AddrAt(c, size, q, b);
    SlotInPage(size, p, a);
    SlotInPage(size, q, b);
    if p == q {
      SlotsApart(size, p, a, b);
    } else if p < q {
      MulAtLeast(q, p, PAGE_SIZE);
    } else {
      MulAtLeast(p, q, PAGE_SIZE);
    }
  }

  /** Whatever a user stores into the bytes of a live slot disturbs no free chain. */
  lemma UserStoreOk(c: Cache, size: nat, p: nat, a: nat, from: nat, to: nat, words: Words)
    requires CacheOk(c, size) && p in c.slabs && p in c.live && a in c.live[p] && a <= from <= to <= a + size
    requires StoredIn(c.words, words, from, to)
    ensures CacheOk(c.(words := words), size)
  {
    var n := c.(words := words);
    forall q: nat ensures SlabAt(n, size, q) {
      assert SlabAt(c, size, q);
      if q in c.slabs {
        forall b | b in c.chains[q] ensures Word(words, b) == Word(c.words, b) { NotFree(c, size, p, a, q, b); }
        LinkedSame(c.words, words, c.slabs[q].next, c.chains[q]);
      }
    }
    forall q: nat, b: nat ensures AddrAt(n, size, q, b) { assert AddrAt(c, size, q, b); }
  }

  // ----- a new page

  lemma {:induction false} LinkedSame(words: Words, other: Words, next: nat, chain: seq<nat>)
    requires Linked(words, next, chain) && forall a | a in chain :: Word(other, a) == Word(words, a)
    ensures Linked(other, next, chain)
    decreases |chain|
  {
    if chain != [] { LinkedSame(words, other, Word(words, chain[0]), chain[1..]); }
  }

  ghost predicate LinkAt(words: Words, size: nat, page: nat, k: nat) {
    Word(words, SlotAddr(size, page, k)) == SlotAddr(size, page, k + 1)
  }

  /** Each slot names the next one, the last one null. */
  ghost predicate Threaded(words: Words, size: nat, page: nat, n: nat) {
    && (forall k: nat {:trigger LinkAt(words, size, page, k)} | k + 1 < n :: LinkAt(words, size, page, k))
    && (n > 0 ==> Word(words, SlotAddr(size, page, n - 1)) == 0)
  }

  lemma {:induction false} ThreadedIsLinked(words: Words, size: nat, page: nat, i: nat, n: nat)
    requires i < n && page > 0 && Threaded(words, size, page, n)
    ensures Linked(words, SlotAddr(size, page, i), InitChain(size, page, i, n))
    decreases n - i
  {
    var c := InitChain(size, page, i, n);
    assert c[0] == SlotAddr(size, page, i) && c[1..] == InitChain(size, page, i + 1, n);
    if i + 1 < n {
      assert LinkAt(words, size, page, i);
      ThreadedIsLinked(words, size, page, i + 1, n);
    }
  }

  lemma InitChainIs(size: nat, page: nat)
    requires SizeOk(size)
    ensures NoDup(InitChain(size, page, 0, Slots(size)))
    ensures forall a :: a in InitChain(size, page, 0, Slots(size)) <==> IsSlot(size, page, a)
  {
    var c := InitChain(size, page, 0, Slots(size));
    forall i, j | 0 <= i < j < |c| ensures c[i] != c[j] { MulAtLeast(j, i, size); }
    forall a | IsSlot(size, page, a) ensures a in c {
      var i: nat :| i < Slots(size) && a == SlotAddr(size, page, i);
      assert c[i] == a;
    }
  }

  ghost function WithPage(c: Cache, size: nat, p: nat, words: Words): Cache
    requires SizeOk(size)
  {
    c.(words := words, slabs := c.slabs[p := SlabPage(p * PAGE_SIZE, 0)], empty := Put(c.empty, p),
       chains := c.chains[p := InitChain(size, p, 0, Slots(size))], live := c.live[p := {}])
  }

  lemma WithPageOk(c: Cache, size: nat, p: nat, words: Words)
    requires CacheOk(c, size) && p !in c.slabs && p > 0 && Threaded(words, size, p, Slots(size))
    requires forall a: nat | a / PAGE_SIZE != p :: Word(words, a) == Word(c.words, a)
    ensures CacheOk(WithPage(c, size, p, words), size) && |InitChain(size, p, 0, Slots(size))| > 1
  {
    var n := WithPage(c, size, p, words);
    assert SlabAt(c, size, p);
    SlotsFit(size);
    PutOk(c.empty, p);
    InitChainIs(size, p);
    ThreadedIsLinked(words, size, p, 0, Slots(size));
    assert SlotAddr(size, p, 0) == p * PAGE_SIZE;
    forall q: nat ensures SlabAt(n, size, q) {
      assert SlabAt(c, size, q);
      if q in c.slabs {
        forall a | a in c.chains[q] ensures a / PAGE_SIZE == q {
          assert AddrAt(c, size, q, a);
          SlotInPage(size, q, a);
        }
        LinkedSame(c.words, words, c.slabs[q].next, c.chains[q]);
      }
    }
    forall q: nat, b: nat ensures AddrAt(n, size, q, b) { assert AddrAt(c, size, q, b); }
  }

  /** Stepping by the object size reaches the next slot, in the same page. */
  lemma NextSlot(size: nat, p: nat, i: nat, n: nat)
    requires SizeOk(size) && n == Slots(size) && i < n
    ensures SlotAddr(size, p, i + 1) == SlotAddr(size, p, i) + size
    ensures SlotAddr(size, p, i) / PAGE_SIZE == p
  {
    assert (i + 1) * size == i * size + size;
    SlotInPage(size, p, SlotAddr(size, p, i));
  }

  /** Writing a slot leaves the links of the slots before it. */
  lemma LinksKept(words: Words, size: nat, p: nat, i: nat, w: nat)
    requires size > 0 && forall k: nat {:trigger LinkAt(words, size, p, k)} | k < i :: LinkAt(words, size, p, k)
    ensures var other := words[SlotAddr(size, p, i) := w];
            forall k: nat {:trigger LinkAt(other, size, p, k)} | k < i :: LinkAt(other, size, p, k)
  {
    var other := words[SlotAddr(size, p, i) := w];
    forall k: nat | k < i ensures LinkAt(other, size, p, k) {
      assert LinkAt(words, size, p, k);
      MulAtLeast(i, k, size);
    }
  }

  /** The live slots are those before and one more. */
  ghost predicate Gained(c: Cache, n: Cache, a: nat) {
    && !Live(c, a) && Live(n, a)
    && forall b: nat {:trigger Live(n, b)} :: Live(n, b) <==> Live(c, b) || b == a
  }

  lemma GainedOk(c: Cache, size: nat, p: nat, n: Cache)
    requires CacheOk(c, size) && p in c.slabs && p in c.chains && p in c.live && c.chains[p] != []
    requires n.live == Slotted(c, p).live && n.slabs.Keys == c.slabs.Keys
    ensures Gained(c, n, c.chains[p][0])
  {
    var a := c.chains[p][0];
    assert SlabAt(c, size, p) && AddrAt(c, size, p, a);
    SlotInPage(size, p, a);
    forall b: nat ensures Live(n, b) <==> Live(c, b) || b == a {
      assert AddrAt(c, size, p, b);
      if IsSlot(size, p, b) { SlotInPage(size, p, b); }
    }
  }

  /** A page whose chain pointer has become null has no free slot left. */
  lemma ChainEnds(c: Cache, size: nat, p: nat)
    requires CacheOk(c, size) && p in c.slabs && p in c.chains && c.chains[p] != []
    ensures Word(c.words, c.chains[p][0]) == 0 <==> |c.chains[p]| == 1
  {
    assert SlabAt(c, size, p);
    assert Linked(c.words, Word(c.words, c.chains[p][0]), c.chains[p][1..]);
  }

  /** A new page with its first slot live, on the partial list. */
  ghost function NewSlot(c: Cache, size: nat, p: nat, words: Words): Cache
    requires SizeOk(size)
  {
    SlotsFit(size);
    Slotted(WithPage(c, size, p, words), p).(empty := c.empty, partial := Put(c.partial, p))
  }

  lemma NewSlotOk(c: Cache, size: nat, p: nat, words: Words)
    requires CacheOk(c, size) && p !in c.slabs && p > 0 && Threaded(words, size, p, Slots(size))
    requires forall a: nat | a / PAGE_SIZE != p :: Word(words, a) == Word(c.words, a)
    ensures InitChain(size, p, 0, Slots(size)) != [] && InitChain(size, p, 0, Slots(size))[0] == p * PAGE_SIZE
    ensures CacheOk(NewSlot(c, size, p, words), size) && Gained(c, NewSlot(c, size, p, words), p * PAGE_SIZE)
  {
    var w, n := WithPage(c, size, p, words), NewSlot(c, size, p, words);
    assert SlabAt(c, size, p);
    WithPageOk(c, size, p, words);
    PutOk(c.partial, p);
    PutOk(c.empty, p);
    forall q: nat | q != p ensures ListedAs(w, n, q) {}
    SlottedOk(w, size, p, n);
    GainedOk(w, size, p, n);
    forall b: nat ensures Live(w, b) <==> Live(c, b) {}
  }

  lemma CountPositive(c: Cache, size: nat, p: nat, a: nat)
    requires CacheOk(c, size) && p in c.slabs && p in c.live && a in c.live[p]
    ensures c.slabs[p].count > 0
    ensures p in c.chains && (c.slabs[p].next == 0 <==> c.chains[p] == [])
    ensures c.slabs[p].next == 0 ==> c.slabs[p].count > 1
  {
    assert SlabAt(c, size, p);
    SlotsFit(size);
    if c.live[p] == {} {}
  }

  lemma LostOk(c: Cache, size: nat, p: nat, a: nat, n: Cache)
    requires CacheOk(c, size) && p in c.slabs && p in c.chains && p in c.live && a in c.live[p] && c.slabs[p].count > 0
    requires n.live == Unslotted(c, p, a).live && n.slabs.Keys == c.slabs.Keys
    ensures Gained(n, c, a)
  {
    assert AddrAt(c, size, p, a) && SlabAt(c, size, p);
    SlotInPage(size, p, a);
    forall b: nat ensures Live(c, b) <==> Live(n, b) || b == a {}
  }

  lemma LiveInPage(c: Cache, size: nat, a: nat)
    requires CacheOk(c, size) && Live(c, a)
    ensures a + size <= (a / PAGE_SIZE + 1) * PAGE_SIZE
  {
    assert SlabAt(c, size, a / PAGE_SIZE) && AddrAt(c, size, a / PAGE_SIZE, a);
    SlotInPage(size, a / PAGE_SIZE, a);
  }

  /** Live slots do not overlap, whichever pages they are in. */
  lemma LiveApart(c: Cache, size: nat, a: nat, b: nat)
    requires CacheOk(c, size) && Live(c, a) && Live(c, b) && a != b
    ensures a + size <= b || b + size <= a
  {
    var p, q := a / PAGE_SIZE, b / PAGE_SIZE;
    assert SlabAt(c, size, p) && SlabAt(c, size, q) && AddrAt(c, size, p, a) && AddrAt(c, size, q, b);
    SlotInPage(size, p, a);
    SlotInPage(size, q, b);
    if p == q { SlotsApart(size, p, a, b); }
  }

  class SlabCache {
    const size: nat
    var words: Words
    var slabs: map<nat, SlabPage>
    var empty: Pool
    var partial: Pool
    var full: Pool
    ghost var chains: map<nat, seq<nat>>
    ghost var live: map<nat, set<nat>>

    ghost function Now(): Cache
      reads this
    {
      Cache(words, slabs, empty, partial, full, chains, live)
    }

    ghost predicate Valid()
      reads this
    {
      CacheOk(Now(), size)
    }

    constructor (size: nat)
      requires SizeOk(size)
      ensures Valid() && this.size == size && slabs == map[]
    {
      this.size := size;
      words, slabs, chains, live := map[], map[], map[], map[];
      empty, partial, full := Pool([], 0), Pool([], 0), Pool([], 0);
      new;
      forall p: nat ensures SlabAt(Now(), size, p) {}
      forall p: nat, a: nat ensures AddrAt(Now(), size, p, a) {}
    }

    /** alloc_slot: the head of the page's chain; its `unreachable!` arm is not reached. */
    method AllocSlot(p: nat) returns (a: nat)
      requires p in slabs && p in chains && p in live && chains[p] != [] && slabs[p].next == chains[p][0] != 0
      modifies this`slabs, this`chains, this`live
      ensures a == old(chains[p][0]) && Now() == old(Slotted(Now(), p))
    {
      a := slabs[p].next;
      assert a != 0;
      slabs := slabs[p := SlabPage(Word(words, a), slabs[p].count + 1)];
      live := live[p := live[p] + {a}];
      chains := chains[p := chains[p][1..]];
    }

    /** dealloc_slot: the slot becomes the head of the chain. */
    method DeallocSlot(p: nat, a: nat)
      requires p in slabs && p in chains && p in live && slabs[p].count > 0
      modifies this
      ensures Now() == old(Unslotted(Now(), p, a))
    {
      words := words[a := slabs[p].next];
      slabs := slabs[p := SlabPage(a, slabs[p].count - 1)];
      chains, live := chains[p := [a] + chains[p]], live[p := live[p] - {a}];
    }

    /** slab_page_init: threads all slots of a page. */
    method InitPage(p: nat) returns (next: nat)
      requires SizeOk(size) && p > 0
      modifies this`words
      ensures next == p * PAGE_SIZE && Threaded(words, size, p, Slots(size))
      ensures forall a: nat | a / PAGE_SIZE != p :: Word(words, a) == old(Word(words, a))
    {
      next := p * PAGE_SIZE;
      var slot, left := next, PAGE_SIZE / size;
      ghost var n, i := left, 0;
      SlotsFit(size);
      while left > 1
        invariant 1 <= left <= n && i == n - left && slot == SlotAddr(size, p, i)
        invariant forall k: nat {:trigger LinkAt(words, size, p, k)} | k < i :: LinkAt(words, size, p, k)
        invariant forall a: nat | a / PAGE_SIZE != p :: Word(words, a) == old(Word(words, a))
      {
        NextSlot(size, p, i, n);
        LinksKept(words, size, p, i, slot + size);
        words := words[slot := slot + size];
        slot := slot + size;
        left := left - 1;
        i := i + 1;
      }
      NextSlot(size, p, i, n);
      LinksKept(words, size, p, i, 0);
      words := words[slot := 0];
    }


    /** A slot off the partial list; the page may turn full. */
    method AllocPartial() returns (a: nat)
      requires Valid() && partial.list != []
      modifies this
      ensures Valid() && Gained(old(Now()), Now(), a) && words == old(words) && slabs.Keys == old(slabs.Keys)
      ensures var p := old(partial.list[0]);
              && p in old(slabs) && a == old(slabs)[p].next && p in slabs && empty == old(empty)
              && (if slabs[p].next == 0 then old(partial).count > 0 && partial == Take(old(partial), p) && full.list == [p] + old(full.list)
                  else partial == old(partial) && full == old(full))
    {
      ghost var c := Now();
      var p := partial.list[0];
      assert SlabAt(c, size, p);
      a := AllocSlot(p);
      if slabs[p].next == 0 {
        TakeOk(partial, p);
        PutOk(full, p);
        partial, full := Take(partial, p), Put(full, p);
      }
      ChainEnds(c, size, p);
      forall q: nat | q != p ensures ListedAs(c, Now(), q) {}
      SlottedOk(c, size, p, Now());
      GainedOk(c, size, p, Now());
    }

    /** A slot off the empty list; the page turns partial. */
    method AllocEmpty() returns (a: nat)
      requires Valid() && empty.list != []
      modifies this
      ensures Valid() && Gained(old(Now()), Now(), a) && words == old(words) && slabs.Keys == old(slabs.Keys)
      ensures var p := old(empty.list[0]);
              && p in old(slabs) && a == old(slabs)[p].next
              && old(empty).count > 0 && empty == Take(old(empty), p) && partial.list == [p] + old(partial.list) && full == old(full)
    {
      ghost var c := Now();
      var p := empty.list[0];
      assert SlabAt(c, size, p);
      SlotsFit(size);
      a := AllocSlot(p);
      TakeOk(empty, p);
      PutOk(partial, p);
      empty, partial := Take(empty, p), Put(partial, p);
      forall q: nat | q != p ensures ListedAs(c, Now(), q) {}
      SlottedOk(c, size, p, Now());
      GainedOk(c, size, p, Now());
    }

    /** A slot of a new page, which the page allocator does not use otherwise. */
    method AllocNew(p: nat) returns (a: nat)
      requires Valid() && p !in slabs && p > 0
      modifies this
      ensures Valid() && Gained(old(Now()), Now(), a) && slabs.Keys == old(slabs.Keys) + {p}
      ensures a == p * PAGE_SIZE && partial.list == [p] + old(partial.list) && empty == old(empty) && full == old(full)
      ensures forall b: nat | b / PAGE_SIZE != p :: Word(words, b) == old(Word(words, b))
    {
      ghost var c := Now();
      var next := InitPage(p);
      NewSlotOk(c, size, p, words);
      slabs := slabs[p := SlabPage(next, 0)];
      chains, live := chains[p := InitChain(size, p, 0, Slots(size))], live[p := {}];
      assert Now() == WithPage(c, size, p, words).(empty := c.empty);
      a := AllocSlot(p);
      partial := Put(partial, p);
      assert Now() == NewSlot(c, size, p, words);
    }

    /** A slot that was not live, and no other slot changes state or content. */
    method Alloc(taken: set<nat>) returns (a: nat)
      requires Valid() && slabs.Keys <= taken
      modifies this
      ensures Valid() && Gained(old(Now()), Now(), a)
      ensures slabs.Keys >= old(slabs.Keys) && forall p | p in slabs && p in taken :: p in old(slabs)
      ensures slabs.Keys != old(slabs.Keys) ==> old(partial.list) == [] && old(empty.list) == []
      ensures old(partial.list) != [] ==> old(partial.list[0] in slabs) && a == old(slabs[partial.list[0]].next)
      ensures old(partial.list) == [] && old(empty.list) != [] ==> old(empty.list[0] in slabs) && a == old(slabs[empty.list[0]].next)
      ensures old(partial.list) == [] && old(empty.list) == [] ==> a / PAGE_SIZE !in old(slabs) && a % PAGE_SIZE == 0
      ensures forall b: nat | b / PAGE_SIZE in old(slabs) :: Word(words, b) == old(Word(words, b))
    {
      assert partial.count == |partial.list| && empty.count == |empty.list|;
      if partial.count != 0 {
        a := AllocPartial();
      } else if empty.count != 0 {
        a := AllocEmpty();
      } else {
        var bound := FreshPage(taken);
        a := AllocNew(bound);
      }
    }

    method FreshPage(taken: set<nat>) returns (p: nat)
      ensures p !in taken && p > 0
    {
      ghost var bound := Above(taken + {0});
      assert bound !in taken + {0};
      p :| p !in taken + {0};
    }

    /** The slot is free again; its page is listed as its counts call for. */
    method Dealloc(a: nat)
      requires Valid() && Live(Now(), a)
      modifies this
      ensures Valid() && Gained(Now(), old(Now()), a) && slabs.Keys == old(slabs.Keys)
      ensures forall b: nat | b != a :: Word(words, b) == old(Word(words, b))
      ensures var p := a / PAGE_SIZE;
              && p in slabs && slabs[p].next == a && p in old(slabs)
              && (old(slabs)[p].next == 0 ==> partial.list == [p] + old(partial.list) && old(full).count > 0 && full == Take(old(full), p))
              && (slabs[p].count == 0 ==> empty.list == [p] + old(empty.list))
    {
      ghost var c := Now();
      var p := a / PAGE_SIZE;
      assert SlabAt(c, size, p) && AddrAt(c, size, p, a);
      CountPositive(c, size, p, a);
      if slabs[p].next == 0 {
        TakeOk(full, p);
        PutOk(partial, p);
        full, partial := Take(full, p), Put(partial, p);
      }
      ghost var m := Now();
      DeallocSlot(p, a);
      if slabs[p].count == 0 {
        TakeOk(partial, p);
        PutOk(empty, p);
        partial, empty := Take(partial, p), Put(empty, p);
      }
      forall q: nat | q != p ensures ListedAs(c, Now(), q) { assert ListedAs(c, m, q); }
      UnslottedOk(c, size, p, a, Now());
      LostOk(c, size, p, a, Now());
    }

    /** A slot freed in a full page is what the cache hands out next. */
    method FreeThenAlloc(a: nat, taken: set<nat>) returns (b: nat)
      requires Valid() && Live(Now(), a) && slabs.Keys <= taken && a / PAGE_SIZE in slabs && slabs[a / PAGE_SIZE].next == 0
      modifies this
      ensures Valid() && b == a
    {
      Dealloc(a);
      b := Alloc(taken);
    }

    /** A user's stores into its own slot: any change of the words that touch those bytes. */
    method UserStore(a: nat, from: nat, to: nat, stored: Words)
      requires Valid() && Live(Now(), a) && a <= from <= to <= a + size && StoredIn(words, stored, from, to)
      modifies this`words
      ensures Valid() && words == stored
    {
      UserStoreOk(Now(), size, a / PAGE_SIZE, a, from, to, stored);
      words := stored;
      assert Now() == old(Now()).(words := words);
    }
  }


  // ----- size classes

  function Log2Ceil(n: nat): nat { if n <= 1 then 0 else 1 + Log2Ceil((n + 1) / 2) }

  function NextPowerOfTwo(n: nat): nat { Pow2(Log2Ceil(n)) }

  lemma {:induction false} Log2CeilIs(n: nat)
    requires n > 0
    ensures Pow2(Log2Ceil(n)) >= n && (Log2Ceil(n) > 0 ==> Pow2(Log2Ceil(n) - 1) < n)
  {
    if n > 1 { Log2CeilIs((n + 1) / 2); }
  }

  lemma {:induction false} Log2CeilPow2(k: nat)
    ensures Log2Ceil(Pow2(k)) == k && TrailingZeros(Pow2(k)) == k
  {
    if k > 0 {
      Log2CeilPow2(k - 1);
      assert (Pow2(k) + 1) / 2 == Pow2(k - 1) == Pow2(k) / 2;
    }
  }

  const CACHES: nat := 9

  /** The cache for an allocation size; small sizes share the first. */
  function ClassOf(size: nat): int { TrailingZeros(NextPowerOfTwo(if size < 8 then 8 else size)) - 3 }

  /** Every size up to half a page has a cache whose slots hold it with less than half wasted. */
  lemma ClassFits(size: nat)
    requires size <= PAGE_SIZE / 2
    ensures 0 <= ClassOf(size) < CACHES
    ensures Pow2(ClassOf(size) + 3) >= size && (size > 8 ==> Pow2(ClassOf(size) + 3) < 2 * size)
  {
    var n := if size < 8 then 8 else size;
    var k := Log2Ceil(n);
    Log2CeilIs(n);
    Log2CeilPow2(k);
    SmallPowers();
    if k < 3 { Pow2Grows(k, 2); }
    if k > 11 { Pow2Grows(11, k - 1); }
  }

  lemma SmallPowers()
    ensures Pow2(2) == 4 && Pow2(3) == 8 && Pow2(11) == 2048
  {
    assert Pow2(2) == 4 && Pow2(5) == 32 && Pow2(8) == 256 && Pow2(11) == 2048;
  }

  lemma ClassSizeOk(i: nat)
    requires i < CACHES
    ensures SizeOk(Pow2(i + 3))
  {
    SmallPowers();
    Pow2Grows(3, i + 3);
    Pow2Grows(i + 3, 11);
  }

  /** Rounding the size up first, as the kernel's global allocator does, picks the same cache. */
  lemma ClassOfRounded(size: nat)
    requires size > 0
    ensures ClassOf(NextPowerOfTwo(size)) == ClassOf(size)
  {
    var k := Log2Ceil(size);
    Log2CeilPow2(k);
    SmallPowers();
    Log2CeilPow2(3);
    Log2CeilIs(size);
    if k < 3 {
      Pow2Grows(k, 2);
    } else {
      Pow2Grows(3, k);
      if size < 8 { Pow2Grows(2, k - 1); Log2CeilSmall(size); }
    }
  }

  lemma Log2CeilSmall(n: nat)
    requires 0 < n <= 8
    ensures Log2Ceil(n) <= 3
  {
    var k := Log2Ceil(n);
    Log2CeilIs(n);
    SmallPowers();
    if k > 3 { Pow2Grows(3, k - 1); }
  }

  class SlabAllocator {
    const caches: seq<SlabCache>

    ghost predicate CacheAt(i: nat)
      reads this, caches
    {
      i < |caches| ==> caches[i].Valid() && caches[i].size == Pow2(i + 3)
    }

    ghost predicate ApartAt(i: nat, j: nat)
      reads this, caches
    {
      i < j < |caches| ==> caches[i] != caches[j] && caches[i].slabs.Keys !! caches[j].slabs.Keys
    }

    ghost predicate Valid()
      reads this, caches
    {
      && |caches| == CACHES
      && (forall i: nat {:trigger CacheAt(i)} :: CacheAt(i))
      && (forall i: nat, j: nat {:trigger ApartAt(i, j)} :: ApartAt(i, j))
    }

    constructor ()
      ensures Valid()
    {
      var made: seq<SlabCache> := [];
      for i := 0 to CACHES
        invariant |made| == i && forall k | 0 <= k < i :: fresh(made[k]) && made[k].Valid() && made[k].size == Pow2(k + 3) && made[k].slabs == map[]
        invariant forall k, l | 0 <= k < l < i :: made[k] != made[l]
      {
        ClassSizeOk(i);
        var c := new SlabCache(Pow2(i + 3));
        made := made + [c];
      }
      caches := made;
      new;
      forall i: nat ensures CacheAt(i) {}
      forall i: nat, j: nat ensures ApartAt(i, j) {}
    }

    /** The pages in use by any cache. */
    method Taken() returns (t: set<nat>)
      ensures forall i: nat | i < |caches| :: caches[i].slabs.Keys <= t
    {
      t := {};
      for i := 0 to |caches|
        invariant forall k | 0 <= k < i :: caches[k].slabs.Keys <= t
      {
        t := t + caches[i].slabs.Keys;
      }
    }

    /** A slot at least as large as asked for, which was not live in its cache. */
    method Alloc(size: nat) returns (a: nat)
      requires Valid() && size <= PAGE_SIZE / 2
      modifies caches
      ensures Valid() && 0 <= ClassOf(size) < CACHES && size <= caches[ClassOf(size)].size
      ensures Gained(old(caches[ClassOf(size)].Now()), caches[ClassOf(size)].Now(), a)
      ensures forall j: nat | j < CACHES && j != ClassOf(size) :: unchanged(caches[j])
    {
      ClassFits(size);
      var i := ClassOf(size);
      var taken := Taken();
      assert CacheAt(i);
      Distinct(i);
      label before:
      a := caches[i].Alloc(taken);
      forall j: nat ensures CacheAt(j) { assert old@before(CacheAt(j)); }
      forall j: nat, k: nat ensures ApartAt(j, k) { assert old@before(ApartAt(j, k)); }
    }

    /** Given the size it was allocated with, a slot goes back to the cache it came from. */
    method Dealloc(a: nat, size: nat)
      requires Valid() && size <= PAGE_SIZE / 2
      requires 0 <= ClassOf(size) < CACHES && Live(caches[ClassOf(size)].Now(), a)
      modifies caches
      ensures Valid() && Gained(caches[ClassOf(size)].Now(), old(caches[ClassOf(size)].Now()), a)
      ensures forall j: nat | j < CACHES && j != ClassOf(size) :: unchanged(caches[j])
    {
      var i := ClassOf(size);
      assert CacheAt(i);
      Distinct(i);
      label before:
      caches[i].Dealloc(a);
      forall j: nat ensures CacheAt(j) { assert old@before(CacheAt(j)); }
      forall j: nat, k: nat ensures ApartAt(j, k) { assert old@before(ApartAt(j, k)); }
    }

    lemma Distinct(i: nat)
      requires Valid() && i < CACHES
      ensures forall j: nat | j < CACHES && j != i :: caches[j] != caches[i]
    {
      forall j: nat | j < CACHES && j != i ensures caches[j] != caches[i] {
        assert ApartAt(if i < j then i else j, if i < j then j else i);
      }
    }

    /** Live slots of different caches do not overlap either: they are in different pages. */
    lemma NoOverlap(i: nat, a: nat, j: nat, b: nat)
      requires Valid() && i < CACHES && j < CACHES && Live(caches[i].Now(), a) && Live(caches[j].Now(), b)
      requires i != j || a != b
      ensures a + caches[i].size <= b || b + caches[j].size <= a
    {
      assert CacheAt(i) && CacheAt(j);
      if i == j {
        LiveApart(caches[i].Now(), caches[i].size, a, b);
      } else {
        assert ApartAt(if i < j then i else j, if i < j then j else i);
        LiveInPage(caches[i].Now(), caches[i].size, a);
        LiveInPage(caches[j].Now(), caches[j].size, b);
      }
    }
  }
}
