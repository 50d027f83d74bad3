/** What the redundancy costs measure (`fpc_enrollment_select_capture`, `fpc_enrollment_initial_order`):
    sums of squared scores modulo 2^32. */
module RedundancyCosts {
  import opened Words
  import opened Pairs
  import opened Redundancy

  /** The difference of two squares. */
  function SquareChange(a: int, b: int): int {
    b * b - a * a
  }

  lemma EntryAfter(scores: seq<u16>, capacity: nat, i: nat, j: nat, b: u16, x: nat, y: nat)
    requires HoldsPairs(scores, capacity) && i < capacity && j < capacity && i != j
    requires x < capacity && y < capacity && x != y
    ensures PairIndex(capacity, i, j) < |scores|
    ensures Entry(scores[PairIndex(capacity, i, j) := b], capacity, x, y) ==
            if (x == i && y == j) || (x == j && y == i) then b else Entry(scores, capacity, x, y)
  {
    hide PairIndex;
    PairIndexInRange(capacity, i, j);
    PairIndexInRange(capacity, x, y);
    var lo, hi := if i < j then i else j, if i < j then j else i;
    var low, high := if x < y then x else y, if x < y then y else x;
    SymmetricIndex(capacity, i, j);
    SymmetricIndex(capacity, x, y);
    if PairIndex(capacity, lo, hi) == PairIndex(capacity, low, high) {
      PairIndexInjective(capacity, lo, hi, low, high);
    }
  }

  lemma SymmetricIndex(capacity: nat, i: nat, j: nat)
    requires i < capacity && j < capacity && i != j
    ensures PairIndex(capacity, i, j) == PairIndex(capacity, if i < j then i else j, if i < j then j else i)
  {
  }

  lemma {:induction false} PairSumFollows(scores: seq<u16>, capacity: nat, i: nat, j: nat, b: u16, k: nat)
    requires HoldsPairs(scores, capacity) && i < capacity && j < capacity && i != j && k <= capacity
    ensures PairIndex(capacity, i, j) < |scores|
    ensures PairSum(scores[PairIndex(capacity, i, j) := b], capacity, i, k) ==
            PairSum(scores, capacity, i, k) + if j < k then SquareChange(Entry(scores, capacity, i, j), b) else 0
  {
    hide PairIndex, Entry;
    PairIndexInRange(capacity, i, j);
    if k > 0 {
      PairSumFollows(scores, capacity, i, j, b, k - 1);
      if k - 1 != i {
        EntryAfter(scores, capacity, i, j, b, i, k - 1);
      }
    }
  }

  /** Changing one score between i and another slot from a to b changes the cost of i by b b - a a
      modulo 2^32. */
  lemma CostFollowsEntry(scores: seq<u16>, capacity: nat, latest: seq<u16>, count: nat, i: nat, j: nat, b: u16)
    requires HoldsPairs(scores, capacity) && i < count <= capacity && j < count && i != j && count <= |latest|
    ensures PairIndex(capacity, i, j) < |scores|
    ensures var a: int := Entry(scores, capacity, i, j);
            (Cost(scores[PairIndex(capacity, i, j) := b], capacity, latest, count, i)
             - Cost(scores, capacity, latest, count, i) - (b * b - a * a)) % 0x1_0000_0000 == 0
  {
    hide PairIndex, Entry, PairSum, Square;
    PairIndexInRange(capacity, i, j);
    PairSumFollows(scores, capacity, i, j, b, count);
    var was := Square(latest[i]) + PairSum(scores, capacity, i, count);
    SameRest(was, SquareChange(Entry(scores, capacity, i, j), b));
  }

  lemma SameRest(a: nat, d: int)
    requires a + d >= 0
    ensures (Wrap(a + d) - Wrap(a) - d) % 0x1_0000_0000 == 0
  {
    assert Wrap(a + d) == a + d - 0x1_0000_0000 * ((a + d) / 0x1_0000_0000);
    assert Wrap(a) == a - 0x1_0000_0000 * (a / 0x1_0000_0000);
    assert Wrap(a + d) - Wrap(a) - d == 0x1_0000_0000 * (a / 0x1_0000_0000 - (a + d) / 0x1_0000_0000);
  }

  lemma {:induction false} StrangerSum(scores: seq<u16>, capacity: nat, i: nat, k: nat)
    requires HoldsPairs(scores, capacity) && i < capacity && k <= capacity
    requires forall j: nat | j < k && j != i :: Entry(scores, capacity, i, j) == 0
    ensures PairSum(scores, capacity, i, k) == 0
  {
    if k > 0 {
      StrangerSum(scores, capacity, i, k - 1);
    }
  }

  /** A capture that matched no other one costs the square of its score against the newcomer. */
  lemma StrangersCost(scores: seq<u16>, capacity: nat, latest: seq<u16>, count: nat, i: nat)
    requires HoldsPairs(scores, capacity) && i < count <= capacity && count <= |latest|
    requires forall j: nat | j < count && j != i :: Entry(scores, capacity, i, j) == 0
    ensures Cost(scores, capacity, latest, count, i) == (latest[i] as int) * latest[i]
  {
    hide Entry;
    StrangerSum(scores, capacity, i, count);
  }

  lemma {:induction false} NewSumFollows(latest: seq<u16>, j: nat, b: u16, k: nat)
    requires j < |latest| && k <= |latest|
    ensures NewSum(latest[j := b], k) == NewSum(latest, k) + if j < k then SquareChange(latest[j], b) else 0
  {
    if k > 0 {
      NewSumFollows(latest, j, b, k - 1);
    }
  }

  /** The newcomer's cost follows its scores the same way, and is zero for one that matched nobody. */
  lemma NewcomerFollows(latest: seq<u16>, count: nat, j: nat, b: u16)
    requires j < count <= |latest|
    ensures var a: int := latest[j];
            (NewcomerCost(latest[j := b], count) - NewcomerCost(latest, count) - (b * b - a * a)) % 0x1_0000_0000 == 0
  {
    hide NewSum, Square;
    NewSumFollows(latest, j, b, count);
    SameRest(NewSum(latest, count), SquareChange(latest[j], b));
  }

  lemma {:induction false} NobodyCosts(latest: seq<u16>, count: nat)
    requires count <= |latest| && forall j | 0 <= j < count :: latest[j] == 0
    ensures NewcomerCost(latest, count) == 0
  {
    if count > 0 {
      NobodyCosts(latest, count - 1);
    }
  }
}
