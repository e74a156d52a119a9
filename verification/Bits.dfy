/** Bit masks held in unsigned integers: `1 << k`, `m | (1 << k)`, `(1 << n) - 1`, and what the
    numeric comparisons that the radio unit makes on them say about the bits. */
module Bits {

  /** The mask of a fronthaul tick, 0xffff. */
  const TICK_MASK := 0xffff

  /** Bit k of m. */
  predicate Has(m: nat, k: nat) {
    if k == 0 then m % 2 == 1 else Has(m / 2, k - 1)
  }

  /** m | (1 << k) */
  function SetBit(m: nat, k: nat): nat {
    if k == 0 then (if m % 2 == 0 then m + 1 else m) else 2 * SetBit(m / 2, k - 1) + m % 2
  }

  /** (1 << n) - 1 */
  function Full(n: nat): nat {
    if n == 0 then 0 else 2 * Full(n - 1) + 1
  }

  lemma {:induction false} HasSetBit(m: nat, k: nat, j: nat)
    ensures Has(SetBit(m, k), j) <==> j == k || Has(m, j)
  {
    if k > 0 && j > 0 {
      HasSetBit(m / 2, k - 1, j - 1);
    }
  }

  lemma HasZero(k: nat)
    ensures !Has(0, k)
  {
  }

  lemma {:induction false} HasFull(n: nat, k: nat)
    ensures Has(Full(n), k) <==> k < n
  {
    if n == 0 {
      HasZero(k);
    } else if k > 0 {
      HasFull(n - 1, k - 1);
    }
  }

  lemma HasTick(k: nat)
    ensures Has(TICK_MASK, k) <==> k < 16
  {
    assert Full(8) == 255;
    assert Full(16) == 2 * Full(15) + 1 && Full(15) == 2 * Full(14) + 1 && Full(14) == 2 * Full(13) + 1
        && Full(13) == 2 * Full(12) + 1 && Full(12) == 2 * Full(11) + 1 && Full(11) == 2 * Full(10) + 1
        && Full(10) == 2 * Full(9) + 1 && Full(9) == 2 * Full(8) + 1;
    HasFull(16, k);
  }

  /** A positive number has a set bit. */
  lemma {:induction false} SomeBit(m: nat) returns (k: nat)
    requires m > 0
    ensures Has(m, k)
  {
    if m % 2 == 1 {
      k := 0;
    } else {
      var k' := SomeBit(m / 2);
      k := k' + 1;
    }
  }

  /** A number above (1 << n) - 1 has a bit at or above n. */
  lemma {:induction false} SomeBitAbove(m: nat, n: nat)
    requires m > Full(n)
    ensures exists k: nat :: k >= n && Has(m, k)
  {
    if n == 0 {
      var k := SomeBit(m);
    } else {
      SomeBitAbove(m / 2, n - 1);
      var k: nat :| k >= n - 1 && Has(m / 2, k);
      assert Has(m, k + 1);
    }
  }

  lemma {:induction false} BitAboveExceeds(m: nat, n: nat, k: nat)
    requires k >= n && Has(m, k)
    ensures m > Full(n)
  {
    if n > 0 {
      BitAboveExceeds(m / 2, n - 1, k - 1);
    } else {
      HasZero(k);
    }
  }

  /** Bits 0 to n-1 are all set. */
  ghost predicate AllBelow(m: nat, n: nat) {
    forall k: nat | k < n :: Has(m, k)
  }

  /** Some bit at or above n is set. */
  ghost predicate SomeFrom(m: nat, n: nat) {
    exists k: nat :: k >= n && Has(m, k)
  }

  lemma {:induction false} AllBelowReaches(m: nat, n: nat)
    requires AllBelow(m, n)
    ensures m >= Full(n)
  {
    if n > 0 {
      assert Has(m, 0);
      forall k: nat | k < n - 1 ensures Has(m / 2, k) {
        assert Has(m, k + 1);
      }
      AllBelowReaches(m / 2, n - 1);
    }
  }

  /** What the numeric test `m >= (1 << n) - 1` decides, for every mask: either all of the low n
      bits are set, or some bit at or above n is. */
  lemma AtLeastFull(m: nat, n: nat)
    ensures m >= Full(n) <==> SomeFrom(m, n) || AllBelow(m, n)
  {
    if m > Full(n) {
      SomeBitAbove(m, n);
    } else if m == Full(n) {
      forall k: nat | k < n ensures Has(m, k) {
        HasFull(n, k);
      }
    } else {
      forall k: nat | k >= n ensures !Has(m, k) {
        if Has(m, k) { BitAboveExceeds(m, n, k); }
      }
      if AllBelow(m, n) {
        AllBelowReaches(m, n);
      }
    }
  }

  /** The numeric test `m == (1 << n) - 1` decides that exactly the low n bits are set. */
  lemma IsFull(m: nat, n: nat)
    ensures m == Full(n) <==> AllBelow(m, n) && !SomeFrom(m, n)
  {
    if m == Full(n) {
      forall k: nat ensures Has(m, k) <==> k < n {
        HasFull(n, k);
      }
    } else if AllBelow(m, n) {
      AllBelowReaches(m, n);
      SomeBitAbove(m, n);
    }
  }
}
