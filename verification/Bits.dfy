/** Powers of two and the bit operations the buddy allocator applies to frame numbers. */
module Bits {

  function Pow2(n: nat): (p: nat)
    ensures p > 0
  {
    if n == 0 then 1 else 2 * Pow2(n - 1)
  }

  function Xor(a: nat, b: nat): nat {
    if a == 0 && b == 0 then 0 else (a % 2 + b % 2) % 2 + 2 * Xor(a / 2, b / 2)
  }

  function And(a: nat, b: nat): nat {
    if a == 0 || b == 0 then 0 else (a % 2) * (b % 2) + 2 * And(a / 2, b / 2)
  }

  /** usize::trailing_zeros: 64 for zero. */
  function TrailingZeros(a: nat): nat {
    if a == 0 then 64 else if a % 2 == 1 then 0 else 1 + TrailingZeros(a / 2)
  }

  /** The low bits are clear. */
  predicate Aligned(a: nat, order: nat) {
    order == 0 || (a % 2 == 0 && Aligned(a / 2, order - 1))
  }

  lemma AlignedIsMultiple(a: nat, order: nat)
    ensures Aligned(a, order) <==> exists q: nat :: a == q * Pow2(order)
  {
    if Aligned(a, order) { var q := AlignedMultiple(a, order); }
    if q: nat :| a == q * Pow2(order) { MultipleAligned(a, order, q); }
  }

  lemma {:induction false} AlignedMultiple(a: nat, order: nat) returns (q: nat)
    requires Aligned(a, order)
    ensures a == q * Pow2(order)
    decreases order
  {
    if order == 0 {
      q := a;
    } else {
      q := AlignedMultiple(a / 2, order - 1);
      Twice(a, q, order);
    }
  }

  lemma {:induction false} MultipleAligned(a: nat, order: nat, q: nat)
    requires a == q * Pow2(order)
    ensures Aligned(a, order)
    decreases order
  {
    if order > 0 {
      Twice(a, q, order);
      MultipleAligned(a / 2, order - 1, q);
    }
  }

  lemma Twice(a: nat, q: nat, order: nat)
    requires order > 0
    ensures q * Pow2(order) == 2 * (q * Pow2(order - 1))
  {}

  lemma {:induction false} HalfAligned(a: nat, order: nat)
    requires order > 0 && Aligned(a, order)
    ensures Pow2(order) == 2 * Pow2(order - 1)
    ensures Aligned(a, order - 1) && Aligned(a + Pow2(order - 1), order - 1)
    decreases order
  {
    if order > 1 {
      HalfAligned(a / 2, order - 1);
      assert (a + Pow2(order - 1)) / 2 == a / 2 + Pow2(order - 2);
    }
  }

  lemma {:induction false} XorZero(a: nat)
    ensures Xor(a, 0) == a
  {
    if a > 0 { XorZero(a / 2); }
  }

  lemma XorDouble(a: nat, b: nat)
    ensures Xor(2 * a, 2 * b) == 2 * Xor(a, b)
  {}

  lemma {:induction false} AndSelf(a: nat)
    ensures And(a, a) == a
  {
    if a > 0 {
      AndSelf(a / 2);
      assert (a % 2) * (a % 2) == a % 2;
    }
  }

  lemma {:induction false} AndSwap(a: nat, b: nat)
    ensures And(a, b) == And(b, a)
  {
    if a > 0 && b > 0 { AndSwap(a / 2, b / 2); }
  }

  lemma AlignedDouble(a: nat, order: nat)
    ensures Aligned(2 * a, order + 1) <==> Aligned(a, order)
  {
    assert (2 * a) / 2 == a;
  }

  /** For an aligned frame the buddy is the neighbour that completes the block of the next order. */
  ghost predicate BuddyIsNeighbour(a: nat, order: nat) {
    if Aligned(a, order + 1) then Xor(a, Pow2(order)) == a + Pow2(order)
    else a >= Pow2(order) && Xor(a, Pow2(order)) == a - Pow2(order) && Aligned(a - Pow2(order), order + 1)
  }

  lemma {:induction false} BuddyIs(a: nat, order: nat)
    requires Aligned(a, order)
    ensures BuddyIsNeighbour(a, order)
    decreases order
  {
    if order == 0 {
      BuddyOfOne(a);
    } else {
      var h := a / 2;
      assert a == 2 * h;
      BuddyIs(h, order - 1);
      BuddyDouble(h, order - 1);
    }
  }

  lemma BuddyOfOne(a: nat)
    ensures BuddyIsNeighbour(a, 0)
  {
    XorZero(a / 2);
    assert Aligned(a, 1) <==> a % 2 == 0;
  }

  lemma BuddyDouble(h: nat, order: nat)
    requires BuddyIsNeighbour(h, order)
    ensures BuddyIsNeighbour(2 * h, order + 1)
  {
    var p := Pow2(order);
    XorDouble(h, p);
    AlignedDouble(h, order + 1);
    if !Aligned(h, order + 1) {
      AlignedDouble(h - p, order + 1);
      assert 2 * h - 2 * p == 2 * (h - p);
    }
  }

  lemma BuddyAligned(a: nat, order: nat)
    requires Aligned(a, order)
    ensures Aligned(Xor(a, Pow2(order)), order)
  {
    BuddyIs(a, order);
    if Aligned(a, order + 1) { PlusAligned(a, order); } else { HalfAligned(a - Pow2(order), order + 1); }
  }

  /** The combined frame is the lower of the two buddies. */
  lemma {:induction false} CombinedIs(a: nat, order: nat)
    requires Aligned(a, order + 1)
    ensures And(a, a + Pow2(order)) == a && And(a + Pow2(order), a) == a
    decreases order
  {
    AndSwap(a, a + Pow2(order));
    if order == 0 {
      AndSelf(a / 2);
      assert Pow2(0) == 1 && (a + 1) / 2 == a / 2;
    } else {
      assert Pow2(order) == 2 * Pow2(order - 1);
      CombinedIs(a / 2, order - 1);
    }
  }

  lemma {:induction false} TrailingZerosAligns(a: nat, order: nat)
    requires order <= TrailingZeros(a)
    ensures Aligned(a, order)
    decreases order
  {
    if order > 0 { TrailingZerosAligns(a / 2, order - 1); }
  }


  lemma XorOnce(x: nat, low: nat, b: nat)
    requires low < 2
    ensures Xor(low + 2 * x, b) == (low + b % 2) % 2 + 2 * Xor(x, b / 2)
  {}

  lemma LowBit(x: nat, y: nat)
    requires x < 2 && y < 2
    ensures ((x + y) % 2 + y) % 2 == x
  {}

  lemma {:induction false} XorTwice(a: nat, b: nat)
    ensures Xor(Xor(a, b), b) == a
  {
    if a > 0 || b > 0 {
      XorTwice(a / 2, b / 2);
      var x, low := Xor(a / 2, b / 2), (a % 2 + b % 2) % 2;
      calc {
        Xor(Xor(a, b), b);
        Xor(low + 2 * x, b);
        { XorOnce(x, low, b); }
        (low + b % 2) % 2 + 2 * Xor(x, b / 2);
        { LowBit(a % 2, b % 2); }
        a % 2 + 2 * (a / 2);
      }
    }
  }

  lemma {:induction false} AlignedDown(a: nat, order: nat, less: nat)
    requires Aligned(a, order) && less <= order
    ensures Aligned(a, less)
    decreases order
  {
    if less < order {
      HalfAligned(a, order);
      AlignedDown(a, order - 1, less);
    }
  }

  lemma {:induction false} AlignedGap(a: nat, b: nat, order: nat)
    requires Aligned(a, order) && Aligned(b, order) && a < b
    ensures a + Pow2(order) <= b
    decreases order
  {
    if order > 0 { AlignedGap(a / 2, b / 2, order - 1); }
  }


  lemma {:induction false} PlusAligned(a: nat, order: nat)
    requires Aligned(a, order)
    ensures Aligned(a + Pow2(order), order)
    decreases order
  {
    if order > 0 {
      PlusAligned(a / 2, order - 1);
      assert (a + Pow2(order)) / 2 == a / 2 + Pow2(order - 1);
    }
  }

  /** Stepping over a block of the given order makes the position aligned one order up, or no longer so. */
  lemma PlusFlips(a: nat, order: nat)
    requires Aligned(a, order)
    ensures Aligned(a + Pow2(order), order + 1) <==> !Aligned(a, order + 1)
  {
    BuddyIs(a, order);
    if Aligned(a, order + 1) {
      if Aligned(a + Pow2(order), order + 1) { AlignedGap(a, a + Pow2(order), order + 1); }
    } else {
      PlusAligned(a - Pow2(order), order + 1);
    }
  }

  lemma {:induction false} TrailingZerosExact(a: nat)
    requires a > 0
    ensures !Aligned(a, TrailingZeros(a) + 1)
  {
    if a % 2 == 0 { TrailingZerosExact(a / 2); }
  }

  lemma {:induction false} Pow2Grows(less: nat, order: nat)
    requires less <= order
    ensures Pow2(less) <= Pow2(order)
    decreases order
  {
    if less < order { Pow2Grows(less, order - 1); }
  }

  lemma MulAtLeast(x: nat, y: nat, p: nat)
    requires x > y
    ensures x * p >= y * p + p
  {
    var k := x - y - 1;
    assert x * p == (y + 1 + k) * p == y * p + p + k * p;
  }
}
