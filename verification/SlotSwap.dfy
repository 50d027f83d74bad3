/** Exchanging two slots of the score graph (`fpc_enrollment_swap_capture_scores`). */
module SlotSwap {
  import opened Words
  import opened Pairs
  import opened Redundancy

  function Other(first: nat, second: nat, i: nat): nat {
    if i == first then second else if i == second then first else i
  }

  /** Slots below n have had their entries with the two slots exchanged. */
  ghost predicate PartlySwapped(before: seq<u16>, after: seq<u16>, capacity: nat, first: nat, second: nat, n: nat)
    requires HoldsPairs(before, capacity) && |after| == |before| && first < capacity && second < capacity
  {
    forall i: nat, j: nat | i < j < capacity ::
      Entry(after, capacity, i, j) ==
      if Exchanged(first, second, i, j, n) then
        Entry(before, capacity, Other(first, second, i), Other(first, second, j))
      else Entry(before, capacity, i, j)
  }

  /** The pair (i, j) joins one of the two slots with a third below n. */
  predicate Exchanged(first: nat, second: nat, i: nat, j: nat, n: nat) {
    || ((i == first || i == second) && j != first && j != second && j < n)
    || ((j == first || j == second) && i != first && i != second && i < n)
  }

  method SwapScores(scores: array<u16>, capacity: nat, first: nat, second: nat) returns (status: int)
    modifies scores
    ensures status == if capacity < 2 || capacity > 65535 || first >= capacity || second >= capacity
                         || !HoldsPairs(scores[..], capacity) then -1 else 0
    ensures status != 0 ==> scores[..] == old(scores[..])
    ensures status == 0 ==> IsSwapped(old(scores[..]), scores[..], capacity, first, second)
    ensures forall k | Triangle(capacity) <= k < scores.Length :: scores[k] == old(scores[k])
  {
    hide PairIndex, Triangle;
    if capacity < 2 || capacity > 65535 || first >= capacity || second >= capacity ||
        scores.Length < Triangle(capacity) {
      return -1;
    }
    ghost var before := scores[..];
    if first == second {
      AllSwapped(before, before, capacity, first, second);
      return 0;
    }
    for i := 0 to capacity
      invariant PartlySwapped(before, scores[..], capacity, first, second, i)
      invariant forall k | Triangle(capacity) <= k < scores.Length :: scores[k] == old(scores[k])
    {
      if i != first && i != second {
        PairIndexInRange(capacity, first, i);
        PairIndexInRange(capacity, second, i);
        var a, b := PairIndex(capacity, first, i), PairIndex(capacity, second, i);
        ghost var was := scores[..];
        scores[a], scores[b] := scores[b], scores[a];
        assert scores[..] == was[a := was[b]][b := was[a]];
        OneMore(before, was, scores[..], capacity, first, second, i);
      }
    }
    AllSwapped(before, scores[..], capacity, first, second);
    return 0;
  }

  lemma OneMore(before: seq<u16>, was: seq<u16>, now: seq<u16>, capacity: nat, first: nat, second: nat, n: nat)
    requires HoldsPairs(before, capacity) && |was| == |now| == |before| && first < capacity && second < capacity &&
             first != second
    requires n < capacity && n != first && n != second && PartlySwapped(before, was, capacity, first, second, n)
    requires var a, b := PairIndex(capacity, first, n), PairIndex(capacity, second, n);
             a < |was| && b < |was| && now == was[a := was[b]][b := was[a]]
    ensures PartlySwapped(before, now, capacity, first, second, n + 1)
  {
    hide PairIndex, Triangle;
    forall i: nat, j: nat | i < j < capacity
      ensures Entry(now, capacity, i, j) ==
              if Exchanged(first, second, i, j, n + 1) then
                Entry(before, capacity, Other(first, second, i), Other(first, second, j))
              else Entry(before, capacity, i, j)
    {
      EntryAfter(was, now, capacity, first, second, n, i, j);
      EntrySymmetric(was, capacity, first, n);
      EntrySymmetric(was, capacity, second, n);
      EntrySymmetric(before, capacity, first, n);
      EntrySymmetric(before, capacity, second, n);
    }
  }

  lemma AllSwapped(before: seq<u16>, after: seq<u16>, capacity: nat, first: nat, second: nat)
    requires HoldsPairs(before, capacity) && |after| == |before| && first < capacity && second < capacity
    requires first == second ==> after == before
    requires first != second ==> PartlySwapped(before, after, capacity, first, second, capacity)
    ensures IsSwapped(before, after, capacity, first, second)
  {
    hide Entry;
    if first != second {
      EntrySymmetric(before, capacity, first, second);
    }
  }

  /** Exchanging the same two slots again restores the graph. */
  lemma SwapTwice(a: seq<u16>, b: seq<u16>, c: seq<u16>, capacity: nat, first: nat, second: nat)
    requires IsSwapped(a, b, capacity, first, second) && IsSwapped(b, c, capacity, first, second)
    ensures c[..Triangle(capacity)] == a[..Triangle(capacity)]
  {
    hide PairIndex, Triangle;
    forall k: nat | k < Triangle(capacity) ensures c[k] == a[k] {
      var i, j := PairIndexOnto(capacity, k);
      var p, q := Other(first, second, i), Other(first, second, j);
      assert Entry(c, capacity, i, j) == Entry(b, capacity, p, q);
      EntrySymmetric(b, capacity, p, q);
      EntrySymmetric(a, capacity, i, j);
      assert Entry(b, capacity, p, q) == Entry(a, capacity, i, j);
    }
  }

  predicate SamePair(i: nat, j: nat, a: nat, b: nat) {
    (i == a && j == b) || (i == b && j == a)
  }

  lemma EntrySymmetric(scores: seq<u16>, capacity: nat, i: nat, j: nat)
    requires HoldsPairs(scores, capacity) && ValidPair(capacity, i, j)
    ensures Entry(scores, capacity, i, j) == Entry(scores, capacity, j, i)
  {
    hide PairIndex;
    PairIndexInRange(capacity, i, j);
  }

  /** The exchange of two cells, seen at one pair. */
  lemma EntryAfter(was: seq<u16>, now: seq<u16>, capacity: nat, first: nat, second: nat, n: nat, i: nat, j: nat)
    requires HoldsPairs(was, capacity) && |now| == |was| && i < j < capacity
    requires first < capacity && second < capacity && n < capacity && first != second && n != first && n != second
    requires var a, b := PairIndex(capacity, first, n), PairIndex(capacity, second, n);
             a < |was| && b < |was| && now == was[a := was[b]][b := was[a]]
    ensures Entry(now, capacity, i, j) ==
            if SamePair(i, j, first, n) then Entry(was, capacity, second, n)
            else if SamePair(i, j, second, n) then Entry(was, capacity, first, n)
            else Entry(was, capacity, i, j)
  {
    hide PairIndex, Triangle;
    var a, b, at := PairIndex(capacity, first, n), PairIndex(capacity, second, n), PairIndex(capacity, i, j);
    PairIndexInRange(capacity, i, j);
    PairIndexInRange(capacity, first, n);
    PairIndexInRange(capacity, second, n);
    if a == b {
      PairIndexInjective(capacity, first, n, second, n);
    }
    if at == a {
      PairIndexInjective(capacity, i, j, first, n);
    } else if at == b {
      PairIndexInjective(capacity, i, j, second, n);
    }
  }

  /** The graph with the two slots exchanged everywhere. */
  ghost predicate IsSwapped(before: seq<u16>, after: seq<u16>, capacity: nat, first: nat, second: nat) {
    && HoldsPairs(before, capacity) && |after| == |before| && first < capacity && second < capacity
    && forall i: nat, j: nat | i < j < capacity ::
         Entry(after, capacity, i, j) == Entry(before, capacity, Other(first, second, i), Other(first, second, j))
  }
}
