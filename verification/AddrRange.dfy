/** Address ranges and the ordering that makes a set of memory areas searchable.

    A range is half open.  The ordering is unusual: a range that contains another
    one compares Equal to it, which lets the area set be searched with a point
    range.  It is an order exactly on sets of ranges in which no two clash: share a start,
    share an end while both are non-empty, or lie strictly one inside the other. */
module AddrRange {
  import opened Wrappers

  const PAGE_SIZE: nat := 4096

  datatype Ordering = Less | Equal | Greater

  function Floor(a: nat): nat { a / PAGE_SIZE * PAGE_SIZE }

  function Ceil(a: nat): nat { (a + PAGE_SIZE - 1) / PAGE_SIZE * PAGE_SIZE }

  predicate Aligned(a: nat) { a % PAGE_SIZE == 0 }

  /** Floor and Ceil are the nearest page boundaries on either side. */
  lemma PageBoundaries(a: nat)
    ensures Aligned(Floor(a)) && Floor(a) <= a < Floor(a) + PAGE_SIZE
    ensures Aligned(Ceil(a)) && a <= Ceil(a) < a + PAGE_SIZE
    ensures Aligned(a) ==> Floor(a) == a && Ceil(a) == a
  {
  }

  lemma InPage(page: nat, x: nat)
    requires x < PAGE_SIZE
    ensures (page * PAGE_SIZE + x) / PAGE_SIZE == page && (page * PAGE_SIZE + x) % PAGE_SIZE == x
  {
  }

  datatype VRange = VRange(start: nat, end: nat) {

    predicate Proper() { start < end }

    predicate Has(a: nat) { start <= a < end }

    predicate Overlaps(other: VRange) { start < other.end && end > other.start }

    predicate Disjoint(other: VRange) { end <= other.start || other.end <= start }

    function Cmp(other: VRange): Ordering {
      if start == other.start then Equal
      else if end == other.end then
        if start == end then Greater
        else if other.start == other.end then Less
        else Equal
      else if start < other.start then
        if other.end < end then Equal else Less
      else
        if end < other.end then Equal else Greater
    }

    /** The inclusive bounds handed to the tree's range search. */
    function IntoBounds(): (VRange, VRange)
      requires start <= end
    {
      if start == end then (Point(start), Point(start))
      else (Point(start), Point(end - 1))
    }

    function SplitAt(at: nat): (VRange, VRange)
      requires start < at < end
    {
      (VRange(start, at), VRange(at, end))
    }

    function MaskWith(mask: VRange): (r: Option<Mask>)
      requires start < end && mask.start <= mask.end
    {
      if mask.start == mask.end || !Overlaps(mask) then None
      else
        var cutLeft := start < mask.start && mask.start < end;
        var left := if cutLeft then Some(SplitAt(mask.start).0) else None;
        var rest := if cutLeft then SplitAt(mask.start).1 else this;
        if mask.end < end then
          var (mid, right) := rest.SplitAt(mask.end);
          Some(Mask(left, mid, Some(right)))
        else
          Some(Mask(left, rest, None))
    }
  }

  datatype Mask = Mask(left: Option<VRange>, mid: VRange, right: Option<VRange>)

  function Point(a: nat): VRange { VRange(a, a) }

  predicate In(r: Option<VRange>, a: nat) { r.Some? && r.value.Has(a) }

  /** Masking cuts a range into exactly the part below, inside and above the mask. */
  lemma MaskExact(r: VRange, mask: VRange, a: nat)
    requires r.Proper() && mask.start <= mask.end
    ensures var m := r.MaskWith(mask);
            match m
            case None => !(r.Has(a) && mask.Has(a))
            case Some(Mask(left, mid, right)) =>
              && mid.Proper()
              && (left.Some? ==> left.value.Proper() && left.value == VRange(r.start, mask.start))
              && (right.Some? ==> right.value.Proper() && right.value == VRange(mask.end, r.end))
              && (mid.Has(a) <==> r.Has(a) && mask.Has(a))
              && (In(left, a) <==> r.Has(a) && a < mask.start)
              && (In(right, a) <==> r.Has(a) && mask.end <= a)
  {
  }

  ghost predicate PairwiseDisjoint(s: set<VRange>) {
    && (forall r <- s :: r.Proper())
    && (forall r, q | r in s && q in s && r != q :: r.Disjoint(q))
  }

  /** On pairwise disjoint non-empty ranges the comparison is a strict total order:
      Less is "lies entirely before", Equal is identity, and both are transitive. */
  lemma CmpIsTotalOrder(s: set<VRange>, a: VRange, b: VRange, c: VRange)
    requires PairwiseDisjoint(s) && a in s && b in s && c in s
    ensures a.Cmp(b) == Less <==> a.end <= b.start
    ensures a.Cmp(b) == Greater <==> b.end <= a.start
    ensures a.Cmp(b) == Equal <==> a == b
    ensures a.Cmp(b) == Less <==> b.Cmp(a) == Greater
    ensures a.Cmp(b) == Less && b.Cmp(c) == Less ==> a.Cmp(c) == Less
  {
  }

  /** A strict total order with Equal as identity. */
  ghost predicate OrderedBy(s: set<VRange>) {
    && (forall a, b | a in s && b in s :: (a.Cmp(b) == Equal <==> a == b) && (a.Cmp(b) == Less <==> b.Cmp(a) == Greater))
    && (forall a, b, c | a in s && b in s && c in s && a.Cmp(b) == Less && b.Cmp(c) == Less :: a.Cmp(c) == Less)
  }

  predicate Clash(a: VRange, b: VRange) {
    || a.start == b.start
    || (a.end == b.end && a.Proper() && b.Proper())
    || (a.start < b.start && b.end < a.end)
    || (b.start < a.start && a.end < b.end)
  }

  /** Exactly when the comparison orders a set of ranges, overlapping and empty ones included. */
  lemma CmpIsOrderExactly(s: set<VRange>)
    requires forall r <- s :: r.start <= r.end
    ensures OrderedBy(s) <==> forall a, b | a in s && b in s && a != b :: !Clash(a, b)
  {
    forall a, b | a in s && b in s && a != b
      ensures Clash(a, b) <==> a.Cmp(b) == Equal
    {
    }
    if forall a, b | a in s && b in s && a != b :: !Clash(a, b) {
      forall a, b | a in s && b in s
        ensures a.Cmp(b) == if a.start < b.start then Less else if a == b then Equal else Greater
      {
      }
    }
  }

  /** Ranges that clash: Equal is not transitive.  Overlapping ranges need not clash. */
  lemma CmpIsNoOrderInGeneral()
    ensures VRange(0, 2).Cmp(VRange(0, 8)) == Equal
    ensures VRange(0, 8).Cmp(VRange(4, 6)) == Equal
    ensures VRange(0, 2).Cmp(VRange(4, 6)) == Less
    ensures VRange(0, 4).Overlaps(VRange(2, 6)) && OrderedBy({VRange(0, 4), VRange(2, 6)})
  {
    CmpIsOrderExactly({VRange(0, 4), VRange(2, 6)});
  }

  /** An empty range is found Equal to the area that starts where it stands, so a
      zero-length marker and its right neighbour cannot both be in one set. */
  lemma EmptyRangeClashesWithNeighbour(a: nat, r: VRange)
    requires r.Proper() && r.start == a
    ensures Point(a).Cmp(r) == Equal && Point(a).Disjoint(r)
  {
  }

  /** An ordered set of areas, as the tree keeps it. */
  ghost predicate Sorted(s: seq<VRange>) {
    && (forall i | 0 <= i < |s| :: s[i].Proper())
    && (forall i, j | 0 <= i < j < |s| :: s[i].end <= s[j].start)
  }

  /** Searching an ordered set for a point: everything before `k` compares Greater,
      everything from `k` on compares Less, except that `k` itself is Equal exactly
      when it contains the point.  So the search finds the one area holding `a`. */
  lemma {:induction false} PointSearch(s: seq<VRange>, a: nat) returns (k: nat)
    requires Sorted(s)
    ensures k <= |s|
    ensures forall i | 0 <= i < k :: Point(a).Cmp(s[i]) == Greater && !s[i].Has(a)
    ensures forall i | k < i < |s| :: Point(a).Cmp(s[i]) == Less && !s[i].Has(a)
    ensures k < |s| ==> Point(a).Cmp(s[k]) == if s[k].Has(a) then Equal else Less
  {
    k := 0;
    while k < |s| && s[k].end <= a
      invariant k <= |s|
      invariant forall i | 0 <= i < k :: s[i].end <= a
    {
      k := k + 1;
    }
    forall i | k < i < |s|
      ensures Point(a).Cmp(s[i]) == Less && !s[i].Has(a)
    {
      assert s[k].end <= s[i].start;
    }
  }

  predicate WithinBounds(bounds: (VRange, VRange), r: VRange) {
    bounds.0.Cmp(r) != Greater && bounds.1.Cmp(r) != Less
  }

  /** The bounds of a non-empty range select exactly the overlapping areas, and they are
      a contiguous slice.  The bounds of an empty one select the area holding its point,
      also when that area starts there, where `Overlaps` would say no. */
  lemma RangeSearch(s: seq<VRange>, r: VRange) returns (lo: nat, hi: nat)
    requires Sorted(s) && r.start <= r.end
    ensures lo <= hi <= |s|
    ensures forall i | 0 <= i < |s| :: lo <= i < hi <==> WithinBounds(r.IntoBounds(), s[i])
    ensures forall i | 0 <= i < |s| ::
              lo <= i < hi <==> if r.Proper() then s[i].Overlaps(r) else s[i].Has(r.start)
  {
    lo := PointSearch(s, r.start);
    var last := if r.Proper() then r.end - 1 else r.start;
    var k := PointSearch(s, last);
    hi := if k < |s| && s[k].Has(last) then k + 1 else k;
  }
}
