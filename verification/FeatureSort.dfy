/** The in-place descending quicksort of feature scores (`sort_feature_scores`). Its partition
    moves the pivot; both sides it leaves are nevertheless strictly smaller. */
module FeatureSort {
  /** Scores are ordered numbers: the C code refuses NaN before sorting. */
  datatype Ranked = Ranked(index: nat, score: real)

  ghost predicate Between(a: array<Ranked>, lo: int, hi: int, low: real, high: real)
    requires 0 <= lo && hi <= a.Length
    reads a
  {
    forall k | lo <= k < hi :: low <= a[k].score <= high
  }

  predicate Descending(s: seq<Ranked>) {
    forall i, j | 0 <= i < j < |s| :: s[i].score >= s[j].score
  }

  ghost predicate DescendingIn(a: array<Ranked>, lo: int, hi: int)
    requires 0 <= lo && hi <= a.Length
    reads a
  {
    forall i, j | lo <= i < j < hi :: a[i].score >= a[j].score
  }

  twostate predicate SameOutside(a: array<Ranked>, lo: int, hi: int)
    reads a
  {
    forall k | 0 <= k < a.Length && !(lo <= k < hi) :: a[k] == old(a[k])
  }

  /** The records of the array, whatever their order. */
  ghost predicate Holds(a: array<Ranked>, records: multiset<Ranked>)
    reads a
  {
    multiset(a[..]) == records
  }

  method Swap(a: array<Ranked>, i: nat, j: nat, ghost records: multiset<Ranked>)
    requires i < a.Length && j < a.Length && Holds(a, records)
    modifies a
    ensures Holds(a, records)
    ensures forall k | 0 <= k < a.Length :: a[k] == old(if k == i then a[j] else if k == j then a[i] else a[k])
  {
    a[i], a[j] := a[j], a[i];
  }

  /** One pass over [lo, hi): larger scores end up left, smaller ones right, at most one pivot
      between them, and neither side is the whole range. */
  method Partition(a: array<Ranked>, lo: nat, hi: nat, ghost low: real, ghost high: real,
                   ghost records: multiset<Ranked>)
    returns (left: int, right: int, ghost pivot: real)
    requires lo + 2 <= hi <= a.Length && Between(a, lo, hi, low, high) && Holds(a, records)
    modifies a
    ensures Holds(a, records) && SameOutside(a, lo, hi)
    ensures lo < left <= hi && lo - 1 <= right < hi - 1 && right < left <= right + 2
    ensures low <= pivot <= high
    ensures Between(a, lo, right + 1, pivot, high) && Between(a, right + 1, left, pivot, pivot) &&
            Between(a, left, hi, low, pivot)
  {
    hide Holds;
    left, right := lo, hi - 1;
    ghost var middle := lo + (hi - lo) / 2;
    var score := a[lo + (hi - lo) / 2].score;
    pivot := score;
    while left <= right
      invariant lo <= left <= hi && lo - 1 <= right < hi && left <= right + 2
      invariant Holds(a, records) && SameOutside(a, lo, hi)
      invariant Between(a, lo, hi, low, high)
      invariant forall k | lo <= k < left && k <= right :: a[k].score >= pivot
      invariant forall k | right < k < hi && left <= k :: a[k].score <= pivot
      invariant forall k | right < k < left :: a[k].score == pivot
      invariant left == lo ==> right >= middle && a[middle].score == pivot
      invariant right == hi - 1 ==> left <= middle && a[middle].score == pivot
      decreases right - left
    {
      if a[left].score <= score {
        if score <= a[right].score {
          Swap(a, left, right, records);
          left := left + 1;
        }
        right := right - 1;
      } else {
        left := left + 1;
      }
    }
  }

  /** Sorts [lo, hi) in place: the left part by recursion, then the right part by going on. */
  method SortRange(a: array<Ranked>, lo: nat, hi: nat, ghost low: real, ghost high: real,
                   ghost records: multiset<Ranked>)
    requires lo <= hi <= a.Length && Between(a, lo, hi, low, high) && Holds(a, records)
    modifies a
    ensures Holds(a, records) && SameOutside(a, lo, hi)
    ensures Between(a, lo, hi, low, high) && DescendingIn(a, lo, hi)
    decreases hi - lo
  {
    hide Holds;
    var from := lo;
    ghost var top := high;
    while hi - from >= 2
      invariant lo <= from <= hi
      invariant Holds(a, records) && SameOutside(a, lo, hi)
      invariant if lo == from then top == high else low <= top <= high
      invariant Between(a, lo, from, top, high) && Between(a, from, hi, low, top) && DescendingIn(a, lo, from)
      decreases hi - from
    {
      ghost var pivot;
      var left, right;
      left, right, pivot := Partition(a, from, hi, low, top, records);
      SortRange(a, from, right + 1, pivot, top, records);
      from := left;
      top := pivot;
    }
  }

  ghost function Lowest(s: seq<Ranked>): (r: real)
    ensures forall k | 0 <= k < |s| :: r <= s[k].score
  {
    if s == [] then 0.0
    else
      var rest := Lowest(s[1..]);
      if s[0].score < rest then s[0].score else rest
  }

  ghost function Highest(s: seq<Ranked>): (r: real)
    ensures forall k | 0 <= k < |s| :: s[k].score <= r
  {
    if s == [] then 0.0
    else
      var rest := Highest(s[1..]);
      if s[0].score > rest then s[0].score else rest
  }

  /** `fpc_sort_feature_scores`: the records permuted into descending order. */
  method SortFeatureScores(a: array<Ranked>) returns (status: int)
    modifies a
    ensures status == if a.Length > 2048 then -1 else 0
    ensures multiset(a[..]) == multiset(old(a[..]))
    ensures if status == 0 then Descending(a[..]) else a[..] == old(a[..])
  {
    if a.Length > 2048 {
      return -1;
    }
    SortRange(a, 0, a.Length, Lowest(a[..]), Highest(a[..]), multiset(a[..]));
    return 0;
  }
}
