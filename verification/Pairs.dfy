/** The packed symmetric score graph's index (`fpc_enrollment_pair_index`): one entry per
    unordered pair of slots, no diagonal. */
module Pairs {
  import opened Words

  /** Entries in the rows before row `low`: row k holds the pairs (k, j) with j > k. */
  function RowStart(n: nat, low: nat): nat
    requires low < n
  {
    if low == 0 then 0 else RowStart(n, low - 1) + (n - low)
  }

  predicate ValidPair(n: nat, a: nat, b: nat) {
    a < n && b < n && a != b
  }

  function PairIndex(n: nat, a: nat, b: nat): nat
    requires ValidPair(n, a, b)
  {
    var low, high := if a < b then a else b, if a < b then b else a;
    RowStart(n, low) + (high - low - 1)
  }

  lemma {:induction false} RowStartClosedForm(n: nat, low: nat)
    requires low < n
    ensures RowStart(n, low) == low * (n - 1) - low * (low - 1) / 2
  {
    if low > 0 {
      RowStartClosedForm(n, low - 1);
      assert low * (n - 1) == (low - 1) * (n - 1) + (n - 1);
      assert low * (low - 1) == (low - 1) * (low - 2) + 2 * (low - 1);
    }
  }

  /** The closed form the C code computes. */
  lemma PairIndexClosedForm(n: nat, a: nat, b: nat)
    requires ValidPair(n, a, b)
    ensures var low, high := if a < b then a else b, if a < b then b else a;
            PairIndex(n, a, b) == low * (n - 2) - low * (low - 1) / 2 + high - 1
  {
    var low := if a < b then a else b;
    RowStartClosedForm(n, low);
    assert low * (n - 1) == low * (n - 2) + low;
  }

  lemma {:induction false} RowsInOrder(n: nat, low: nat, next: nat)
    requires low < next < n
    ensures RowStart(n, low) + (n - 1 - low) <= RowStart(n, next)
    decreases next
  {
    if next > low + 1 {
      RowsInOrder(n, low, next - 1);
    }
  }

  lemma {:induction false} RowsLengthen(n: nat, low: nat)
    requires low < n
    ensures RowStart(n + 1, low) == RowStart(n, low) + low
  {
    if low > 0 {
      RowsLengthen(n, low - 1);
    }
  }

  lemma {:induction false} LastRow(n: nat)
    requires n > 0
    ensures RowStart(n, n - 1) == Triangle(n)
  {
    if n > 1 {
      LastRow(n - 1);
      RowsLengthen(n - 1, n - 2);
    }
  }

  /** Every pair has an entry in the packed array. */
  lemma PairIndexInRange(n: nat, a: nat, b: nat)
    requires ValidPair(n, a, b)
    ensures PairIndex(n, a, b) == PairIndex(n, b, a) < Triangle(n)
  {
    var low := if a < b then a else b;
    LastRow(n);
    RowsInOrder(n, low, n - 1);
  }

  /** No two unordered pairs share an entry. */
  lemma PairIndexInjective(n: nat, a: nat, b: nat, c: nat, d: nat)
    requires ValidPair(n, a, b) && ValidPair(n, c, d) && PairIndex(n, a, b) == PairIndex(n, c, d)
    ensures (a == c && b == d) || (a == d && b == c)
  {
    var low, other := if a < b then a else b, if c < d then c else d;
    if low < other {
      RowsInOrder(n, low, other);
    } else if other < low {
      RowsInOrder(n, other, low);
    }
  }

  /** No entry is unused. */
  lemma {:induction false} PairIndexOnto(n: nat, k: nat) returns (a: nat, b: nat)
    requires k < Triangle(n)
    ensures a < b < n && PairIndex(n, a, b) == k
  {
    LastRow(n);
    a := 0;
    while a + 1 < n && RowStart(n, a + 1) <= k
      invariant a < n && RowStart(n, a) <= k
    {
      a := a + 1;
    }
    if a == n - 1 {
      assert false;
    }
    b := a + 1 + (k - RowStart(n, a));
  }

  ghost predicate IsEntry(n: nat, k: nat) {
    exists a: nat, b: nat :: a < b < n && PairIndex(n, a, b) == k
  }

  /** The index is a bijection from unordered pairs onto 0 .. n(n-1)/2 - 1. */
  lemma PairIndexBijective(n: nat)
    ensures forall a: nat, b: nat | ValidPair(n, a, b) :: PairIndex(n, a, b) == PairIndex(n, b, a) < Triangle(n)
    ensures forall a: nat, b: nat, c: nat, d: nat |
              a < b < n && c < d < n && PairIndex(n, a, b) == PairIndex(n, c, d) ::
              a == c && b == d
    ensures forall k: nat | k < Triangle(n) :: IsEntry(n, k)
  {
    hide PairIndex;
    forall a: nat, b: nat | ValidPair(n, a, b) ensures PairIndex(n, a, b) == PairIndex(n, b, a) < Triangle(n) {
      PairIndexInRange(n, a, b);
    }
    forall a: nat, b: nat, c: nat, d: nat | a < b < n && c < d < n && PairIndex(n, a, b) == PairIndex(n, c, d)
      ensures a == c && b == d
    {
      PairIndexInjective(n, a, b, c, d);
    }
    forall k: nat | k < Triangle(n) ensures IsEntry(n, k) {
      var a, b := PairIndexOnto(n, k);
    }
  }
}
