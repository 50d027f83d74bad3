/** Redundancy costs, the initial order by cost, and the choice of a capture to replace
    (`fpc_enrollment_initial_order`, `fpc_enrollment_select_capture`). */
module Redundancy {
  import opened Words
  import opened Bytes
  import opened Pairs

  predicate HoldsPairs(scores: seq<u16>, capacity: nat) {
    |scores| >= Triangle(capacity)
  }

  /** The packed graph's entry for two slots. */
  function Entry(scores: seq<u16>, capacity: nat, i: nat, j: nat): u16
    requires HoldsPairs(scores, capacity) && ValidPair(capacity, i, j)
  {
    PairIndexInRange(capacity, i, j);
    scores[PairIndex(capacity, i, j)]
  }

  lemma {:induction false} SquareGrows(x: nat, y: nat)
    requires x <= y
    ensures 0 <= x * x <= y * y
    decreases y
  {
    if x < y {
      SquareGrows(x, y - 1);
      assert y * y == (y - 1) * (y - 1) + 2 * y - 1;
    }
  }

  /** A squared score; sixteen bits squared fit thirty-two. */
  function Square(v: u16): u32 {
    SquareGrows(v, 65535);
    v * v
  }

  /** Squared scores between slot i and the slots below k. */
  ghost function PairSum(scores: seq<u16>, capacity: nat, i: nat, k: nat): nat
    requires HoldsPairs(scores, capacity) && i < capacity && k <= capacity
  {
    if k == 0 then 0
    else PairSum(scores, capacity, i, k - 1) + if k - 1 == i then 0 else Square(Entry(scores, capacity, i, k - 1))
  }

  ghost function NewSum(latest: seq<u16>, k: nat): nat
    requires k <= |latest|
  {
    if k == 0 then 0 else NewSum(latest, k - 1) + Square(latest[k - 1])
  }

  /** Unsigned words hold sums modulo 2^32. */
  function Wrap(x: nat): u32 {
    x % 0x1_0000_0000
  }

  lemma AddWraps(a: nat, b: u32)
    ensures Add32(Wrap(a), b) == Wrap(a + b)
  {
  }

  /** Cost of keeping slot i: its squared scores against the newcomer and all other slots. */
  ghost function Cost(scores: seq<u16>, capacity: nat, latest: seq<u16>, count: nat, i: nat): u32
    requires HoldsPairs(scores, capacity) && i < count <= capacity && count <= |latest|
  {
    Wrap(Square(latest[i]) + PairSum(scores, capacity, i, count))
  }

  ghost function NewcomerCost(latest: seq<u16>, count: nat): u32
    requires count <= |latest|
  {
    Wrap(NewSum(latest, count))
  }

  /** Words after the pairs (a, b) with a < i, or a == i and b < j, were counted. */
  ghost predicate PartlyCosted(scores: seq<u16>, capacity: nat, base: seq<nat>, cost: seq<int>, count: nat, i: nat,
                               j: nat)
    requires HoldsPairs(scores, capacity) && count <= capacity && |base| >= count && |cost| >= count && i < j <= count
  {
    forall r | 0 <= r < count ::
      cost[r] == Wrap(base[r] + PairSum(scores, capacity, r,
                   if r < i then count else if r == i then j else if r < j then i + 1 else i))
  }

  ghost predicate Costed(scores: seq<u16>, capacity: nat, base: seq<nat>, cost: seq<int>, count: nat, i: nat)
    requires HoldsPairs(scores, capacity) && count <= capacity && |base| >= count && |cost| >= count && i <= count
  {
    forall r | 0 <= r < count :: cost[r] == Wrap(base[r] + PairSum(scores, capacity, r, if r < i then count else i))
  }

  lemma CostPair(scores: seq<u16>, capacity: nat, base: seq<nat>, cost: seq<u32>, count: nat, i: nat, j: nat)
    requires HoldsPairs(scores, capacity) && count <= capacity && |base| >= count && |cost| >= count && i < j < count
    requires PartlyCosted(scores, capacity, base, cost, count, i, j)
    ensures var square := Square(Entry(scores, capacity, i, j));
            PartlyCosted(scores, capacity, base, cost[i := Add32(cost[i], square)][j := Add32(cost[j], square)], count,
                         i, j + 1)
  {
    hide Wrap, Add32, Square, HoldsPairs, PairIndex;
    PairIndexInRange(capacity, i, j);
    assert Entry(scores, capacity, i, j) == Entry(scores, capacity, j, i);
    var square := Square(Entry(scores, capacity, i, j));
    AddWraps(base[i] + PairSum(scores, capacity, i, j), square);
    AddWraps(base[j] + PairSum(scores, capacity, j, i), square);
  }

  /** The shared double loop: adds every pair's squared score to both of its slots. */
  method AddPairCosts(scores: seq<u16>, capacity: nat, count: nat, ghost base: seq<nat>, cost: array<u32>)
    requires HoldsPairs(scores, capacity) && count <= capacity && |base| == count <= cost.Length
    requires forall r | 0 <= r < count :: cost[r] == Wrap(base[r])
    modifies cost
    ensures forall r | 0 <= r < count :: cost[r] == Wrap(base[r] + PairSum(scores, capacity, r, count))
    ensures forall r | count <= r < cost.Length :: cost[r] == old(cost[r])
  {
    hide Wrap, Add32, Square, HoldsPairs, PairIndex, Entry;
    for i := 0 to count
      invariant Costed(scores, capacity, base, cost[..], count, i)
      invariant forall r | count <= r < cost.Length :: cost[r] == old(cost[r])
    {
      assert PairSum(scores, capacity, i, i + 1) == PairSum(scores, capacity, i, i);
      for j := i + 1 to count
        invariant PartlyCosted(scores, capacity, base, cost[..], count, i, j)
        invariant forall r | count <= r < cost.Length :: cost[r] == old(cost[r])
      {
        CostPair(scores, capacity, base, cost[..], count, i, j);
        var square := Square(Entry(scores, capacity, i, j));
        ghost var was := cost[..];
        cost[i] := Add32(cost[i], square);
        cost[j] := Add32(cost[j], square);
        assert cost[..] == was[i := Add32(was[i], square)][j := Add32(was[j], square)];
      }
    }
  }

  // ----- Choosing a capture to replace -----

  /** Costs of all slots and, last, of the newcomer. */
  ghost function CostsOf(scores: seq<u16>, count: nat, latest: seq<u16>): seq<u32>
    requires HoldsPairs(scores, count) && count <= |latest|
  {
    seq(count + 1, i requires 0 <= i < count + 1 =>
      if i < count then Cost(scores, count, latest, count, i) else NewcomerCost(latest, count))
  }

  lemma AreCosts(cost: seq<u32>, scores: seq<u16>, count: nat, latest: seq<u16>)
    requires HoldsPairs(scores, count) && count <= |latest| && |cost| == count + 1
    requires forall i | 0 <= i < count :: cost[i] == Cost(scores, count, latest, count, i)
    requires cost[count] == NewcomerCost(latest, count)
    ensures cost == CostsOf(scores, count, latest)
  {
    hide Cost, NewcomerCost, HoldsPairs;
  }

  predicate Slots(order: seq<u16>, count: nat) {
    forall p | 0 <= p < |order| :: order[p] < count
  }

  predicate Eligible(order: seq<u16>, ages: seq<u16>, threshold: u16, agedOnly: bool, p: nat)
    requires p < |order| && order[p] < |ages|
  {
    !agedOnly || ages[order[p]] >= threshold
  }

  /** First position in [lo, hi) of largest cost among the eligible captures. */
  function MostRedundant(order: seq<u16>, ages: seq<u16>, cost: seq<u32>, threshold: u16, agedOnly: bool,
                         lo: nat, hi: nat): (r: Option<nat>)
    requires lo <= hi <= |order| && Slots(order, |ages|) && Slots(order, |cost|)
    ensures r.Some? ==> lo <= r.value < hi
  {
    if lo == hi then None
    else
      var before := MostRedundant(order, ages, cost, threshold, agedOnly, lo, hi - 1);
      if Eligible(order, ages, threshold, agedOnly, hi - 1) &&
         (before.None? || cost[order[before.value]] < cost[order[hi - 1]])
      then Some(hi - 1) else before
  }

  lemma {:induction false} MostRedundantIsFirstWorst(order: seq<u16>, ages: seq<u16>, cost: seq<u32>, threshold: u16,
                                                     agedOnly: bool,
                                                     lo: nat, hi: nat)
    requires lo <= hi <= |order| && Slots(order, |ages|) && Slots(order, |cost|)
    ensures match MostRedundant(order, ages, cost, threshold, agedOnly, lo, hi)
            case Some(r) =>
              && Eligible(order, ages, threshold, agedOnly, r)
              && forall p: nat | lo <= p < hi && Eligible(order, ages, threshold, agedOnly, p) ::
                   cost[order[p]] <= cost[order[r]] && (p < r ==> cost[order[p]] < cost[order[r]])
            case None => forall p: nat | lo <= p < hi :: !Eligible(order, ages, threshold, agedOnly, p)
    decreases hi
  {
    if lo < hi {
      MostRedundantIsFirstWorst(order, ages, cost, threshold, agedOnly, lo, hi - 1);
    }
  }

  /** Replacement policy when the collection is full: the first most redundant aged capture
      outside the protected prefix; else the first most redundant one above the newcomer. */
  function Victim(order: seq<u16>, ages: seq<u16>, cost: seq<u32>, newcomer: u32, threshold: u16, protection: nat): int
    requires Slots(order, |ages|) && Slots(order, |cost|)
  {
    if protection > |order| then -1
    else
      match MostRedundant(order, ages, cost, threshold, true, protection, |order|)
      case Some(p) => order[p]
      case None =>
        match MostRedundant(order, ages, cost, threshold, false, protection, |order|)
        case Some(p) => if newcomer < cost[order[p]] then order[p] else -1
        case None => -1
  }

  predicate AgedAt(order: seq<u16>, ages: seq<u16>, threshold: u16, protection: nat, p: nat)
    requires Slots(order, |ages|)
  {
    protection <= p < |order| && ages[order[p]] >= threshold
  }

  predicate WorseAt(order: seq<u16>, cost: seq<u32>, newcomer: u32, protection: nat, p: nat)
    requires Slots(order, |cost|)
  {
    protection <= p < |order| && cost[order[p]] > newcomer
  }

  /** p is the first position of largest cost among the unprotected, or the aged unprotected. */
  ghost predicate FirstWorst(order: seq<u16>, ages: seq<u16>, cost: seq<u32>, threshold: u16, agedOnly: bool,
                             protection: nat, p: nat)
    requires Slots(order, |ages|) && Slots(order, |cost|)
  {
    && protection <= p < |order| && Eligible(order, ages, threshold, agedOnly, p)
    && forall q: nat | protection <= q < |order| && Eligible(order, ages, threshold, agedOnly, q) ::
         cost[order[q]] <= cost[order[p]] && (q < p ==> cost[order[q]] < cost[order[p]])
  }

  /** The policy in terms of captures: protection, ageing and redundancy, each exactly. */
  lemma VictimExactly(order: seq<u16>, ages: seq<u16>, cost: seq<u32>, newcomer: u32, threshold: u16, protection: nat)
    requires Slots(order, |ages|) && Slots(order, |cost|)
    requires forall p, q | 0 <= p < q < |order| :: order[p] != order[q]
    ensures var v := Victim(order, ages, cost, newcomer, threshold, protection);
            var aged := exists p: nat :: AgedAt(order, ages, threshold, protection, p);
            var worse := exists p: nat :: WorseAt(order, cost, newcomer, protection, p);
            && (aged ==>
                  exists p: nat :: FirstWorst(order, ages, cost, threshold, true, protection, p) && v == order[p])
            && (!aged && worse ==> exists p: nat ::
                  FirstWorst(order, ages, cost, threshold, false, protection, p) && v == order[p] && cost[v] > newcomer)
            && (!aged && !worse ==> v == -1)
            && (forall p: nat | p < protection && p < |order| :: v != order[p])
  {
    if protection <= |order| {
      MostRedundantIsFirstWorst(order, ages, cost, threshold, true, protection, |order|);
      MostRedundantIsFirstWorst(order, ages, cost, threshold, false, protection, |order|);
      match MostRedundant(order, ages, cost, threshold, true, protection, |order|)
      case Some(p) =>
        assert Victim(order, ages, cost, newcomer, threshold, protection) == order[p];
        assert FirstWorst(order, ages, cost, threshold, true, protection, p);
        assert AgedAt(order, ages, threshold, protection, p);
      case None =>
        assert forall p: nat ::
                 AgedAt(order, ages, threshold, protection, p) ==> Eligible(order, ages, threshold, true, p);
        match MostRedundant(order, ages, cost, threshold, false, protection, |order|)
        case Some(p) =>
          assert FirstWorst(order, ages, cost, threshold, false, protection, p);
          assert WorseAt(order, cost, newcomer, protection, p) <==> newcomer < cost[order[p]];
          assert forall q: nat | protection <= q < |order| :: Eligible(order, ages, threshold, false, q);
        case None =>
    }
  }

  /** `fpc_enrollment_select_capture` on a full collection. The double scan of the C code
      computes the policy. `None` is its error return; `memory` is its one allocation. */
  method SelectVictim(scores: seq<u16>, count: nat, latest: seq<u16>, order: array<u16>, ages: array<u16>,
                      protection: nat, threshold: u16, memory: bool)
    returns (selected: Option<int>)
    requires HoldsPairs(scores, count) && count == order.Length <= ages.Length && count <= |latest|
    ensures var costs := CostsOf(scores, count, latest);
            selected == if memory && Slots(order[..], count)
                        then Some(Victim(order[..], ages[..], costs, costs[count], threshold, protection)) else None
  {
    hide HoldsPairs, Wrap, Square;
    var cost := new u32[count + 1](_ => 0);
    ghost var base := seq(count, i requires 0 <= i < count => Square(latest[i]));
    WrapSmall(0);
    for i := 0 to count
      invariant forall r | 0 <= r < i :: cost[r] == Wrap(base[r])
      invariant cost[count] == Wrap(NewSum(latest, i))
    {
      var square := Square(latest[i]);
      WrapSmall(square);
      cost[i] := square;
      AddWraps(NewSum(latest, i), square);
      cost[count] := Add32(cost[count], square);
    }
    AddPairCosts(scores, count, count, base, cost);
    AreCosts(cost[..], scores, count, latest);
    var valid := true;
    for i := 0 to count
      invariant valid <==> forall p | 0 <= p < i :: order[p] < count
    {
      if order[i] >= count {
        valid := false;
      }
    }
    if !memory || !valid {
      return None;
    }
    var victim := ScanVictim(count, cost, order, ages, protection, threshold);
    return Some(victim);
  }

  lemma WrapSmall(x: u32)
    ensures Wrap(x) == x
  {
  }

  /** The two consecutive scans: up to and including the first aged capture, then the rest. */
  method ScanVictim(count: nat, cost: array<u32>, order: array<u16>, ages: array<u16>, protection: nat, threshold: u16)
    returns (selected: int)
    requires count == order.Length <= ages.Length && cost.Length == count + 1 && Slots(order[..], count)
    ensures selected == Victim(order[..], ages[..], cost[..], cost[count], threshold, protection)
  {
    ghost var o, a, c := order[..], ages[..], cost[..];
    var best := cost[count];
    var aged := false;
    var i := protection;
    selected := -1;
    while i < count && !aged
      invariant protection <= i && (protection <= count ==> i <= count) &&
                (protection > count ==> i == protection && !aged)
      invariant protection <= count && !aged ==> MostRedundant(o, a, c, threshold, true, protection, i) == None
      invariant protection <= count && !aged ==>
                  match MostRedundant(o, a, c, threshold, false, protection, i)
                  case None => selected == -1 && best == cost[count]
                  case Some(p) => if cost[count] < c[o[p]] then selected == o[p] && best == c[o[p]]
                                  else selected == -1 && best == cost[count]
      invariant protection > count ==> selected == -1
      invariant aged ==> i > protection && MostRedundant(o, a, c, threshold, true, protection, i) == Some(i - 1)
                         && selected == o[i - 1] && best == c[o[i - 1]]
      decreases count - i, !aged
    {
      var capture := order[i];
      if best < cost[capture] || ages[capture] >= threshold {
        best := cost[capture];
        selected := capture;
        aged := ages[capture] >= threshold;
      }
      i := i + 1;
    }
    while i < count
      invariant protection <= i && (protection <= count ==> i <= count)
      invariant !aged ==> i >= count && selected == Victim(o, a, c, cost[count], threshold, protection)
      invariant aged ==> match MostRedundant(o, a, c, threshold, true, protection, i)
                         case None => false
                         case Some(p) => selected == o[p] && best == c[o[p]]
    {
      var capture := order[i];
      if best < cost[capture] && ages[capture] >= threshold {
        best := cost[capture];
        selected := capture;
      }
      i := i + 1;
    }
  }

  // ----- The initial order -----

  /** Cost of a slot inside the graph alone. */
  ghost function GraphCost(scores: seq<u16>, capacity: nat, used: nat, i: nat): u32
    requires HoldsPairs(scores, capacity) && i < used <= capacity
  {
    Wrap(PairSum(scores, capacity, i, used))
  }

  /** Distinct slots; the used ones come first, the others stay where they are. */
  predicate Arranges(order: seq<u16>, used: nat) {
    && used <= |order| <= 65535
    && (forall i | 0 <= i < used :: order[i] < used)
    && (forall i | used <= i < |order| :: order[i] == i)
    && (forall i, j | 0 <= i < j < |order| :: order[i] != order[j])
  }

  /** Ascending by key, equal keys by slot: the one stable order. */
  predicate StablyAscending(order: seq<u16>, key: seq<u32>, used: nat)
    requires Arranges(order, used) && |key| >= used
  {
    forall i, j | 0 <= i < j < used ::
      key[order[i]] < key[order[j]] || (key[order[i]] == key[order[j]] && order[i] < order[j])
  }

  /** Parallel arrays of the bubble sort: `cost` follows `order`, and equal costs keep slot order. */
  ghost predicate Bubbling(order: seq<u16>, cost: seq<u32>, key: seq<u32>, used: nat) {
    && Arranges(order, used) && |cost| >= used && |key| >= used
    && (forall i | 0 <= i < used :: cost[i] == key[order[i]])
    && (forall i, j | 0 <= i < j < used && cost[i] == cost[j] :: order[i] < order[j])
  }

  lemma SwapKeepsBubbling(order: seq<u16>, cost: seq<u32>, key: seq<u32>, used: nat, i: nat)
    requires Bubbling(order, cost, key, used) && 0 < i < used && cost[i - 1] > cost[i]
    ensures Bubbling(order[i - 1 := order[i]][i := order[i - 1]], cost[i - 1 := cost[i]][i := cost[i - 1]], key, used)
  {
  }

  /** From `start` on, every cost is at least as large as all costs before it. */
  predicate Settled(c: seq<u32>, start: nat, n: nat)
    requires n <= |c|
  {
    forall i, j | 0 <= i < j < n && start <= j :: c[i] <= c[j]
  }

  lemma SwapSettles(c: seq<u32>, last: nat, i: nat, end: nat, used: nat)
    requires last < i < end <= used <= |c| && Settled(c, end, used) && Settled(c, last, i) && c[i - 1] > c[i]
    ensures var d := c[i - 1 := c[i]][i := c[i - 1]]; Settled(d, end, used) && Settled(d, i, i + 1)
  {
  }

  lemma NextSettles(c: seq<u32>, last: nat, i: nat)
    requires last < i < |c| && Settled(c, last, i) && c[i - 1] <= c[i]
    ensures Settled(c, last, i + 1)
  {
  }

  /** One pass: bubbles the largest cost of the unsorted part up and reports the last swap. */
  method BubblePass(order: array<u16>, cost: array<u32>, ghost key: seq<u32>, used: nat, end: nat) returns (last: nat)
    requires order as object != cost && 1 < end <= used && Bubbling(order[..], cost[..], key, used)
    requires Settled(cost[..], end, used)
    modifies order, cost
    ensures Bubbling(order[..], cost[..], key, used)
    ensures last < end && Settled(cost[..], last, used)
  {
    BubblingFits(order[..], cost[..], key, used);
    hide Bubbling, Settled;
    last := 0;
    OneSettles(cost[..]);
    for i := 1 to end
      invariant Bubbling(order[..], cost[..], key, used)
      invariant last < i && Settled(cost[..], end, used) && Settled(cost[..], last, i)
    {
      if cost[i - 1] > cost[i] {
        ghost var o, c := order[..], cost[..];
        SwapKeepsBubbling(o, c, key, used, i);
        cost[i - 1], cost[i] := cost[i], cost[i - 1];
        order[i - 1], order[i] := order[i], order[i - 1];
        assert order[..] == o[i - 1 := o[i]][i := o[i - 1]] && cost[..] == c[i - 1 := c[i]][i := c[i - 1]];
        SwapSettles(c, last, i, end, used);
        last := i;
      } else {
        NextSettles(cost[..], last, i);
      }
    }
    SettledJoins(cost[..], last, end, used);
  }

  lemma BubblingFits(order: seq<u16>, cost: seq<u32>, key: seq<u32>, used: nat)
    requires Bubbling(order, cost, key, used)
    ensures used <= |order| && used <= |cost|
  {
  }

  lemma OneSettles(c: seq<u32>)
    requires c != []
    ensures Settled(c, 0, 1)
  {
  }

  lemma SettledJoins(c: seq<u32>, last: nat, end: nat, used: nat)
    requires last <= end <= used <= |c| && Settled(c, last, end) && Settled(c, end, used)
    ensures Settled(c, last, used)
  {
  }

  /** `fpc_enrollment_initial_order`: the last-swap bubble sort of all slots by cost. */
  method InitialOrder(scores: seq<u16>, used: nat, capacity: nat, order: array<u16>, memory: bool) returns (status: int)
    requires order.Length == capacity
    modifies order
    ensures status == -1 <==> capacity < 2 || capacity > 65535 || used > capacity || !HoldsPairs(scores, capacity)
    ensures status != -1 ==> status == if memory then 0 else 2
    ensures status == 0 ==> Arranges(order[..], used)
    ensures status == 0 ==>
              StablyAscending(order[..],
                              seq(used, i requires 0 <= i < used => GraphCost(scores, capacity, used, i)), used)
    ensures status != 0 ==> order[..] == old(order[..])
  {
    if capacity < 2 || capacity > 65535 || used > capacity || |scores| < Triangle(capacity) {
      return -1;
    }
    if !memory {
      return 2;
    }
    var cost := new u32[capacity](_ => 0);
    for i := 0 to capacity
      invariant forall k | 0 <= k < i :: order[k] == k
      modifies order
    {
      order[i] := i;
    }
    ghost var base: seq<nat> := seq(used, _ => 0);
    AddPairCosts(scores, capacity, used, base, cost);
    ghost var key := seq(used, i requires 0 <= i < used => GraphCost(scores, capacity, used, i));
    assert forall i | 0 <= i < used :: cost[i] == key[i];
    var end: nat := used;
    while end > 1
      invariant end <= used
      invariant Bubbling(order[..], cost[..], key, used)
      invariant Settled(cost[..], end, used)
    {
      end := BubblePass(order, cost, key, used, end);
    }
    return 0;
  }

  ghost function Image(a: seq<u16>, n: nat): set<nat>
    requires n <= |a|
  {
    if n == 0 then {} else Image(a, n - 1) + {a[n - 1]}
  }

  lemma {:induction false} FromImage(a: seq<u16>, n: nat, x: nat) returns (i: nat)
    requires n <= |a| && x in Image(a, n)
    ensures i < n && a[i] == x
  {
    if x == a[n - 1] {
      i := n - 1;
    } else {
      i := FromImage(a, n - 1, x);
    }
  }

  lemma {:induction false} ImageSize(a: seq<u16>, used: nat, n: nat)
    requires Arranges(a, used) && n <= used
    ensures |Image(a, n)| == n && Image(a, n) <= Below(used)
  {
    if n > 0 {
      ImageSize(a, used, n - 1);
      if a[n - 1] in Image(a, n - 1) {
        var i := FromImage(a, n - 1, a[n - 1]);
        assert false;
      }
    }
  }

  /** An arrangement places every used slot somewhere. */
  lemma PlaceOf(a: seq<u16>, used: nat, x: nat) returns (p: nat)
    requires Arranges(a, used) && x < used
    ensures p < used && a[p] == x
  {
    ImageSize(a, used, used);
    SubsetSize(Image(a, used), Below(used));
    p := FromImage(a, used, x);
  }

  /** Only one arrangement is stably ascending. */
  lemma {:induction false} StableOrderIsUnique(a: seq<u16>, b: seq<u16>, key: seq<u32>, used: nat, n: nat)
    requires Arranges(a, used) && Arranges(b, used) && |a| == |b| && |key| >= used && n <= used
    requires StablyAscending(a, key, used) && StablyAscending(b, key, used)
    ensures forall i | 0 <= i < n :: a[i] == b[i]
  {
    if n > 0 {
      StableOrderIsUnique(a, b, key, used, n - 1);
      var p := PlaceOf(a, used, b[n - 1]);
      var q := PlaceOf(b, used, a[n - 1]);
      assert p >= n - 1 && q >= n - 1;
    }
  }
}
