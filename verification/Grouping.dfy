/** Capture grouping (`fpc_rebuild_capture_groups`): maximum-weight growth over the
    packed table of pairwise matches. The proof target is that growth computes the
    connected components of the match graph. */
module Grouping {
  import opened Words

  /** One pairwise result; the fitted transform is opaque here and left out. */
  datatype CaptureMatch = CaptureMatch(success: bool, inliers: i32)

  // ----- The match graph -----

  /** Symmetric matrix of inliers: entry (i, j) is positive when i and j matched. */
  type Graph = seq<seq<int>>

  ghost predicate IsGraph(w: Graph) {
    && (forall i | 0 <= i < |w| :: |w[i]| == |w|)
    && (forall i, j | 0 <= i < |w| && 0 <= j < |w| :: w[i][j] >= 0)
    && (forall i, j | 0 <= i < |w| && 0 <= j < |w| :: w[i][j] == w[j][i])
    && (forall i | 0 <= i < |w| :: w[i][i] == 0)
  }

  ghost predicate Edge(w: Graph, i: nat, j: nat)
    requires IsGraph(w)
  {
    i < |w| && j < |w| && w[i][j] > 0
  }

  ghost predicate HasEdge(w: Graph, i: nat)
    requires IsGraph(w)
  {
    exists j: nat :: Edge(w, i, j)
  }

  ghost predicate Path(w: Graph, p: seq<nat>)
    requires IsGraph(w)
  {
    && p != []
    && (forall k | 0 <= k < |p| :: p[k] < |w|)
    && (forall k | 0 <= k < |p| - 1 :: Edge(w, p[k], p[k + 1]))
  }

  ghost predicate PathFromTo(w: Graph, p: seq<nat>, i: nat, j: nat)
    requires IsGraph(w)
  {
    Path(w, p) && p[0] == i && p[|p| - 1] == j
  }

  ghost predicate Linked(w: Graph, i: nat, j: nat)
    requires IsGraph(w)
  {
    exists p: seq<nat> :: PathFromTo(w, p, i, j)
  }

  lemma LinkedSelf(w: Graph, i: nat)
    requires IsGraph(w) && i < |w|
    ensures Linked(w, i, i)
  {
    assert PathFromTo(w, [i], i, i);
  }

  lemma LinkedStep(w: Graph, i: nat, j: nat, k: nat)
    requires IsGraph(w) && Linked(w, i, j) && Edge(w, j, k)
    ensures Linked(w, i, k)
  {
    var p: seq<nat> :| PathFromTo(w, p, i, j);
    assert PathFromTo(w, p + [k], i, k);
  }

  lemma LinkedTransitive(w: Graph, i: nat, j: nat, k: nat)
    requires IsGraph(w) && Linked(w, i, j) && Linked(w, j, k)
    ensures Linked(w, i, k)
  {
    var p: seq<nat> :| PathFromTo(w, p, i, j);
    var q: seq<nat> :| PathFromTo(w, q, j, k);
    var r := p + q[1..];
    forall x | 0 <= x < |r| - 1 ensures Edge(w, r[x], r[x + 1]) {
      if x >= |p| - 1 {
        assert r[x] == q[x - |p| + 1] && r[x + 1] == q[x - |p| + 1 + 1];
      }
    }
    assert PathFromTo(w, r, i, k);
  }

  lemma LinkedSymmetric(w: Graph, i: nat, j: nat)
    requires IsGraph(w) && Linked(w, i, j)
    ensures Linked(w, j, i)
  {
    var p: seq<nat> :| PathFromTo(w, p, i, j);
    var q := seq(|p|, k requires 0 <= k < |p| => p[|p| - 1 - k]);
    forall k | 0 <= k < |q| - 1 ensures Edge(w, q[k], q[k + 1]) {
      var m := |p| - 2 - k;
      assert Edge(w, p[m], p[m + 1]);
    }
    assert PathFromTo(w, q, j, i);
  }

  // ----- Weights -----

  ghost function Everyone(n: nat): seq<bool> {
    seq(n, _ => true)
  }

  /** Inliers between i and the captures below k that `open` admits. */
  ghost function Weight(w: Graph, open: seq<bool>, i: nat, k: nat): int
    requires IsGraph(w) && |open| == |w| && i < |w| && k <= |w|
  {
    if k == 0 then 0
    else Weight(w, open, i, k - 1) + if open[k - 1] then w[i][k - 1] else 0
  }

  ghost function FullWeight(w: Graph, i: nat): int
    requires IsGraph(w) && i < |w|
  {
    Weight(w, Everyone(|w|), i, |w|)
  }

  lemma {:induction false} WeightBound(w: Graph, open: seq<bool>, i: nat, k: nat, m: nat)
    requires IsGraph(w) && |open| == |w| && i < |w| && k <= m <= |w|
    ensures 0 <= Weight(w, open, i, k) <= Weight(w, Everyone(|w|), i, m)
    decreases m
  {
    if k < m {
      WeightBound(w, open, i, k, m - 1);
      assert w[i][m - 1] >= 0;
    } else if k > 0 {
      WeightBound(w, open, i, k - 1, m - 1);
      assert w[i][k - 1] >= 0;
    }
  }

  lemma {:induction false} WeightPositive(w: Graph, open: seq<bool>, i: nat, k: nat)
    requires IsGraph(w) && |open| == |w| && i < |w| && k <= |w|
    ensures Weight(w, open, i, k) >= 0
    ensures Weight(w, open, i, k) > 0 <==> exists j: nat | j < k :: open[j] && Edge(w, i, j)
  {
    if k > 0 {
      WeightPositive(w, open, i, k - 1);
      assert w[i][k - 1] >= 0;
      if open[k - 1] && w[i][k - 1] > 0 {
        assert Edge(w, i, k - 1);
      }
    }
  }

  // ----- The packed match table -----

  ghost predicate Covers(ms: seq<CaptureMatch>, n: nat) {
    |ms| >= Triangle(n)
  }

  ghost function Share(ms: seq<CaptureMatch>, n: nat, i: nat, j: nat): int
    requires Covers(ms, n) && i < n && j < n
  {
    if i == j then 0
    else
      var later, earlier := if i < j then j else i, if i < j then i else j;
      AppendSlotInRange(later, earlier, n);
      var pair := ms[AppendSlot(later, earlier)];
      if pair.success then pair.inliers else 0
  }

  ghost function GraphOf(ms: seq<CaptureMatch>, n: nat): (w: Graph)
    requires Covers(ms, n)
    ensures |w| == n && forall i | 0 <= i < n :: |w[i]| == n
    ensures forall i, j | 0 <= i < n && 0 <= j < n :: w[i][j] == Share(ms, n, i, j)
  {
    seq(n, i requires 0 <= i < n => seq(n, j requires 0 <= j < n => Share(ms, n, i, j)))
  }

  /** Successful pairs have non-negative inliers and no capture's total reaches 2^31. */
  ghost predicate WeightsFit(ms: seq<CaptureMatch>, n: nat)
    requires Covers(ms, n)
  {
    && IsGraph(GraphOf(ms, n))
    && (forall i: nat | i < n :: FullWeight(GraphOf(ms, n), i) < TWO_31)
  }

  ghost function OpenTo(groups: seq<int>, growing: bool): seq<bool> {
    seq(|groups|, j requires 0 <= j < |groups| => !growing || groups[j] != -1)
  }

  /** Words after the pairs of `later` with captures below `earlier` were counted. */
  ghost predicate PartlyWeighed(w: Graph, open: seq<bool>, visited: seq<bool>, weights: seq<int>, later: nat,
                                earlier: nat)
    requires IsGraph(w) && |open| == |visited| == |weights| == |w| && earlier <= later < |w|
  {
    forall i | 0 <= i < |w| ::
      weights[i] == if visited[i] || i > later then 0
                    else if i == later then Weight(w, open, i, earlier)
                    else Weight(w, open, i, if i < earlier then later + 1 else later)
  }

  ghost predicate Weighed(w: Graph, open: seq<bool>, visited: seq<bool>, weights: seq<int>, k: nat)
    requires IsGraph(w) && |open| == |visited| == |weights| == |w| && k <= |w|
  {
    forall i | 0 <= i < |w| :: weights[i] == if visited[i] || i >= k then 0 else Weight(w, open, i, k)
  }

  /** Adding one pair advances the partial weights; no word wraps. */
  lemma WeighPair(w: Graph, open: seq<bool>, visited: seq<bool>, weights: seq<int>, later: nat, earlier: nat)
    requires IsGraph(w) && |open| == |visited| == |weights| == |w| && earlier < later < |w|
    requires forall i: nat | i < |w| :: FullWeight(w, i) < TWO_31
    requires PartlyWeighed(w, open, visited, weights, later, earlier)
    ensures var x := w[later][earlier];
            var a := if !visited[later] && open[earlier] then x else 0;
            var b := if !visited[earlier] && open[later] then x else 0;
            && 0 <= weights[later] <= weights[later] + a < TWO_31
            && 0 <= weights[earlier] <= weights[earlier] + b < TWO_31
            && PartlyWeighed(w, open, visited, weights[later := weights[later] + a][earlier := weights[earlier] + b],
                             later, earlier + 1)
  {
    WeightBound(w, open, later, earlier, |w|);
    WeightBound(w, open, later, earlier + 1, |w|);
    WeightBound(w, open, earlier, later, |w|);
    WeightBound(w, open, earlier, later + 1, |w|);
    assert FullWeight(w, later) < TWO_31 && FullWeight(w, earlier) < TWO_31;
    assert w[later][earlier] == w[earlier][later] >= 0;
  }

  /** Adds the shares of one pair, word by word as the C code does. */
  method AddShares(success: bool, inliers: i32, toLater: bool, toEarlier: bool, weights: array<u32>, later: nat,
                   earlier: nat)
    requires earlier < later < weights.Length
    modifies weights
    ensures weights[..] ==
            old(weights[..])[later := Add32(old(weights[later]), if success && toLater then Unsigned32(inliers) else 0)]
                            [earlier := Add32(old(weights[earlier]),
                                              if success && toEarlier then Unsigned32(inliers) else 0)]
  {
    if success {
      if toLater {
        weights[later] := Add32(weights[later], Unsigned32(inliers));
      }
      if toEarlier {
        weights[earlier] := Add32(weights[earlier], Unsigned32(inliers));
      }
    }
  }

  /** Body of the nested weight loops for one pair. */
  method CountPair(ms: seq<CaptureMatch>, count: nat, growing: bool, visited: array<bool>, groups: array<int>,
                   weights: array<u32>, later: nat, earlier: nat)
    requires Covers(ms, count) && WeightsFit(ms, count)
    requires visited.Length == weights.Length == count && groups.Length >= count && weights as object != groups
    requires earlier < later < count
    requires PartlyWeighed(GraphOf(ms, count), OpenTo(groups[..count], growing), visited[..], weights[..], later,
                           earlier)
    modifies weights
    ensures PartlyWeighed(GraphOf(ms, count), OpenTo(groups[..count], growing), visited[..], weights[..], later,
                          earlier + 1)
  {
    ghost var w, open := GraphOf(ms, count), OpenTo(groups[..count], growing);
    AppendSlotInRange(later, earlier, count);
    var pair := ms[AppendSlot(later, earlier)];
    assert w[later][earlier] == if pair.success then pair.inliers else 0;
    WeighPair(w, open, visited[..], weights[..], later, earlier);
    ghost var was: seq<int> := weights[..];
    var toLater := !visited[later] && (!growing || groups[earlier] != -1);
    var toEarlier := !visited[earlier] && (!growing || groups[later] != -1);
    AddShares(pair.success, pair.inliers, toLater, toEarlier, weights, later, earlier);
  }

  /** The nested weight loops; `growing` selects the second copy, which counts grouped
      partners only. `WeightsFit` is what keeps the words from wrapping. */
  method Weigh(ms: seq<CaptureMatch>, count: nat, growing: bool, visited: array<bool>, groups: array<int>,
               weights: array<u32>)
    requires Covers(ms, count) && WeightsFit(ms, count)
    requires visited.Length == weights.Length == count && groups.Length >= count
    requires weights as object != groups
    modifies weights
    ensures Weighed(GraphOf(ms, count), OpenTo(groups[..count], growing), visited[..], weights[..], count)
  {
    hide Weight, IsGraph, GraphOf, Triangle, FullWeight, Weighed, PartlyWeighed;
    ghost var w, open := GraphOf(ms, count), OpenTo(groups[..count], growing);
    for i := 0 to count
      invariant forall k | 0 <= k < i :: weights[k] == 0
    {
      weights[i] := 0;
    }
    NothingWeighed(w, open, visited[..], weights[..]);
    if count == 0 {
      return;
    }
    for later := 1 to count
      invariant Weighed(w, open, visited[..], weights[..], later)
    {
      RowStarts(w, open, visited[..], weights[..], later);
      for earlier := 0 to later
        invariant PartlyWeighed(w, open, visited[..], weights[..], later, earlier)
      {
        CountPair(ms, count, growing, visited, groups, weights, later, earlier);
      }
      RowEnds(w, open, visited[..], weights[..], later);
    }
  }

  lemma NothingWeighed(w: Graph, open: seq<bool>, visited: seq<bool>, weights: seq<int>)
    requires IsGraph(w) && |open| == |visited| == |weights| == |w| && forall i | 0 <= i < |w| :: weights[i] == 0
    ensures Weighed(w, open, visited, weights, if |w| == 0 then 0 else 1)
  {
    if |w| > 0 {
      assert Weight(w, open, 0, 1) == 0;
    }
  }

  lemma RowStarts(w: Graph, open: seq<bool>, visited: seq<bool>, weights: seq<int>, later: nat)
    requires IsGraph(w) && |open| == |visited| == |weights| == |w| && later < |w|
    requires Weighed(w, open, visited, weights, later)
    ensures PartlyWeighed(w, open, visited, weights, later, 0)
  {
  }

  lemma RowEnds(w: Graph, open: seq<bool>, visited: seq<bool>, weights: seq<int>, later: nat)
    requires IsGraph(w) && |open| == |visited| == |weights| == |w| && later < |w|
    requires PartlyWeighed(w, open, visited, weights, later, later)
    ensures Weighed(w, open, visited, weights, later + 1)
  {
    assert w[later][later] == 0;
  }

  /** First index of the largest positive weight, or the length when there is none. */
  method Heaviest(weights: array<u32>) returns (selected: nat)
    requires forall i | 0 <= i < weights.Length :: weights[i] < TWO_31
    ensures selected <= weights.Length
    ensures selected == weights.Length <==> forall i | 0 <= i < weights.Length :: weights[i] == 0
    ensures selected < weights.Length ==>
              && weights[selected] > 0
              && forall i | 0 <= i < weights.Length ::
                   weights[i] <= weights[selected] && (i < selected ==> weights[i] < weights[selected])
  {
    var maximum := 0;
    selected := weights.Length;
    for i := 0 to weights.Length
      invariant selected == weights.Length || selected < i
      invariant selected == weights.Length ==> maximum == 0
      invariant selected < weights.Length ==> maximum == weights[selected] > 0
      invariant forall k | 0 <= k < i ::
                  weights[k] <= maximum && (k < selected < weights.Length ==> weights[k] < maximum)
    {
      if Signed32(weights[i]) > maximum {
        maximum := Signed32(weights[i]);
        selected := i;
      }
    }
  }

  // ----- What growth promises -----

  ghost predicate InRange(groups: seq<int>, n: nat, g: int) {
    |groups| == n && forall i | 0 <= i < n :: -1 <= groups[i] < g
  }

  /** No edge leaves a group below g. */
  ghost predicate Closed(w: Graph, groups: seq<int>, g: int)
    requires IsGraph(w) && |groups| == |w|
  {
    forall i: nat, j: nat | Edge(w, i, j) && 0 <= groups[i] < g :: groups[j] == groups[i]
  }

  ghost predicate RootsInGroups(groups: seq<int>, roots: seq<nat>) {
    forall h | 0 <= h < |roots| :: roots[h] < |groups| && groups[roots[h]] == h
  }

  /** Every grouped capture has an edge and is linked to the root of its group. */
  ghost predicate Rooted(w: Graph, groups: seq<int>, roots: seq<nat>)
    requires IsGraph(w) && InRange(groups, |w|, |roots|)
  {
    && RootsInGroups(groups, roots)
    && (forall i: nat | i < |w| && groups[i] >= 0 :: Linked(w, roots[groups[i]], i) && HasEdge(w, i))
  }

  /** a is a first capture of largest weight when compared with b. */
  ghost predicate Outweighs(w: Graph, a: nat, b: nat)
    requires IsGraph(w) && a < |w| && b < |w|
  {
    FullWeight(w, b) <= FullWeight(w, a) && (b < a ==> FullWeight(w, b) < FullWeight(w, a))
  }

  /** Root h outweighs every capture outside the groups before h. */
  ghost predicate HeavyRoots(w: Graph, groups: seq<int>, roots: seq<nat>)
    requires IsGraph(w) && |groups| == |w| && RootsInGroups(groups, roots)
  {
    forall h, i: nat | 0 <= h < |roots| && i < |w| && (groups[i] == -1 || groups[i] >= h) :: Outweighs(w, roots[h], i)
  }

  /** The promise of the grouping code: groups are exactly the components with an edge,
      numbered without gaps, heaviest root first. */
  ghost predicate IsGrouping(w: Graph, groups: seq<int>, roots: seq<nat>)
    requires IsGraph(w)
  {
    && InRange(groups, |w|, |roots|)
    && (forall i: nat | i < |w| :: groups[i] == -1 <==> !HasEdge(w, i))
    && (forall i: nat, j: nat | i < |w| && j < |w| ::
          (groups[i] >= 0 && groups[i] == groups[j]) <==> (HasEdge(w, i) && Linked(w, i, j)))
    && RootsInGroups(groups, roots)
    && HeavyRoots(w, groups, roots)
  }

  lemma {:induction false} PathStaysInGroup(w: Graph, groups: seq<int>, g: int, p: seq<nat>)
    requires IsGraph(w) && InRange(groups, |w|, g) && Closed(w, groups, g)
    requires Path(w, p) && groups[p[0]] >= 0
    ensures groups[p[|p| - 1]] == groups[p[0]]
  {
    if |p| > 1 {
      assert Edge(w, p[0], p[0 + 1]);
      assert Path(w, p[1..]);
      PathStaysInGroup(w, groups, g, p[1..]);
    }
  }

  /** Closed, rooted growth with no ungrouped capture on an edge is a grouping. */
  lemma GrowthIsGrouping(w: Graph, groups: seq<int>, roots: seq<nat>)
    requires IsGraph(w) && InRange(groups, |w|, |roots|)
    requires Closed(w, groups, |roots|) && Rooted(w, groups, roots) && HeavyRoots(w, groups, roots)
    requires forall i: nat | i < |w| && groups[i] == -1 :: !HasEdge(w, i)
    ensures IsGrouping(w, groups, roots)
  {
    forall i: nat, j: nat | i < |w| && j < |w|
      ensures (groups[i] >= 0 && groups[i] == groups[j]) <==> (HasEdge(w, i) && Linked(w, i, j))
    {
      if groups[i] >= 0 && groups[i] == groups[j] {
        LinkedSymmetric(w, roots[groups[i]], i);
        LinkedTransitive(w, i, roots[groups[i]], j);
      }
      if HasEdge(w, i) && Linked(w, i, j) {
        var p: seq<nat> :| PathFromTo(w, p, i, j);
        PathStaysInGroup(w, groups, |roots|, p);
      }
    }
  }

  /** Weight towards the groups is an edge into the newest one, all others being closed. */
  lemma WeightLinksToRoot(w: Graph, groups: seq<int>, roots: seq<nat>, selected: nat)
    requires IsGraph(w) && |roots| > 0 && InRange(groups, |w|, |roots|)
    requires Rooted(w, groups, roots) && Closed(w, groups, |roots| - 1)
    requires selected < |w| && groups[selected] == -1
    requires Weight(w, OpenTo(groups, true), selected, |w|) > 0
    ensures Linked(w, roots[|roots| - 1], selected) && HasEdge(w, selected)
  {
    hide Linked, HasEdge, Weight;
    WeightPositive(w, OpenTo(groups, true), selected, |w|);
    var j: nat :| j < |w| && OpenTo(groups, true)[j] && Edge(w, selected, j);
    assert Edge(w, j, selected);
    assert groups[j] == |roots| - 1;
    LinkedStep(w, roots[groups[j]], j, selected);
    EdgeWitness(w, selected, j);
  }

  lemma EdgeWitness(w: Graph, i: nat, j: nat)
    requires IsGraph(w) && Edge(w, i, j)
    ensures HasEdge(w, i)
  {
  }

  /** Admitting such a capture into the newest group keeps groups rooted and closed. */
  lemma JoinKeepsRooted(w: Graph, groups: seq<int>, roots: seq<nat>, selected: nat)
    requires IsGraph(w) && |roots| > 0 && InRange(groups, |w|, |roots|)
    requires Rooted(w, groups, roots) && Closed(w, groups, |roots| - 1)
    requires selected < |w| && groups[selected] == -1
    requires Weight(w, OpenTo(groups, true), selected, |w|) > 0
    ensures var after := groups[selected := |roots| - 1];
            InRange(after, |w|, |roots|) && Rooted(w, after, roots) && Closed(w, after, |roots| - 1)
  {
    hide Linked, HasEdge, Weight, IsGraph;
    WeightLinksToRoot(w, groups, roots, selected);
  }

  /** Once no outside capture has weight towards the groups, the newest one is closed too. */
  lemma NoWeightClosesGroup(w: Graph, groups: seq<int>, g: int)
    requires IsGraph(w) && InRange(groups, |w|, g) && Closed(w, groups, g - 1)
    requires forall i: nat | i < |w| && groups[i] == -1 :: Weight(w, OpenTo(groups, true), i, |w|) == 0
    ensures Closed(w, groups, g)
  {
    forall i: nat, j: nat | Edge(w, i, j) && 0 <= groups[i] < g
      ensures groups[j] == groups[i]
    {
      assert Edge(w, j, i) && OpenTo(groups, true)[i];
      WeightPositive(w, OpenTo(groups, true), j, |w|);
      if groups[j] < g - 1 && groups[j] >= 0 {
        assert groups[i] == groups[j];
      }
    }
  }

  /** Growth ends when nobody outside has any weight at all. */
  lemma NoWeightEndsGrowth(w: Graph, groups: seq<int>, roots: seq<nat>)
    requires IsGraph(w) && InRange(groups, |w|, |roots|)
    requires Closed(w, groups, |roots|) && Rooted(w, groups, roots) && HeavyRoots(w, groups, roots)
    requires forall i: nat | i < |w| && groups[i] == -1 :: FullWeight(w, i) == 0
    ensures IsGrouping(w, groups, roots)
  {
    forall i: nat | i < |w| && groups[i] == -1 ensures !HasEdge(w, i) {
      assert FullWeight(w, i) == 0;
      WeightPositive(w, Everyone(|w|), i, |w|);
    }
    GrowthIsGrouping(w, groups, roots);
  }

  lemma WeightGivesEdge(w: Graph, i: nat)
    requires IsGraph(w) && i < |w| && FullWeight(w, i) > 0
    ensures HasEdge(w, i)
  {
    WeightPositive(w, Everyone(|w|), i, |w|);
  }

  /** A new group opens at the heaviest capture still outside. */
  lemma OpenKeepsInvariants(w: Graph, groups: seq<int>, roots: seq<nat>, selected: nat)
    requires IsGraph(w) && InRange(groups, |w|, |roots|)
    requires Rooted(w, groups, roots) && Closed(w, groups, |roots|) && HeavyRoots(w, groups, roots)
    requires selected < |w| && groups[selected] == -1 && FullWeight(w, selected) > 0
    requires forall i: nat | i < |w| && groups[i] == -1 :: Outweighs(w, selected, i)
    ensures var after := groups[selected := |roots|];
            && InRange(after, |w|, |roots| + 1) && Rooted(w, after, roots + [selected])
            && Closed(w, after, |roots|) && HeavyRoots(w, after, roots + [selected])
  {
    hide Linked, HasEdge, Weight, IsGraph, Outweighs;
    WeightGivesEdge(w, selected);
    LinkedSelf(w, selected);
    var after, grown := groups[selected := |roots|], roots + [selected];
    forall i: nat | i < |w| && after[i] >= 0
      ensures Linked(w, grown[after[i]], i) && HasEdge(w, i)
    {
      if i != selected {
        assert grown[after[i]] == roots[groups[i]];
      }
    }
    forall h, i: nat | 0 <= h < |grown| && i < |w| && (after[i] == -1 || after[i] >= h)
      ensures Outweighs(w, grown[h], i)
    {
      if h < |roots| {
        assert groups[i] == -1 || groups[i] >= h;
      }
    }
  }

  /** Filling the newest group leaves every root the heaviest of what it chose from. */
  lemma HeavyRootsSurvive(w: Graph, before: seq<int>, after: seq<int>, roots: seq<nat>)
    requires IsGraph(w) && |before| == |after| == |w| && |roots| > 0
    requires RootsInGroups(before, roots) && RootsInGroups(after, roots) && HeavyRoots(w, before, roots)
    requires forall i | 0 <= i < |w| :: after[i] == before[i] || (before[i] == -1 && after[i] == |roots| - 1)
    ensures HeavyRoots(w, after, roots)
  {
  }

  /** A graph has one grouping: the code's choices leave no freedom in its result. */
  lemma {:induction false} GroupingIsUnique(w: Graph, g1: seq<int>, r1: seq<nat>, g2: seq<int>, r2: seq<nat>)
    requires IsGraph(w) && IsGrouping(w, g1, r1) && IsGrouping(w, g2, r2)
    ensures g1 == g2 && r1 == r2
  {
    if |r1| <= |r2| {
      SameUpTo(w, g1, r1, g2, r2, |r1|);
      LargerHasNoMore(w, g1, r1, g2, r2);
    } else {
      SameUpTo(w, g2, r2, g1, r1, |r2|);
      LargerHasNoMore(w, g2, r2, g1, r1);
    }
  }

  ghost predicate SameBelow(g1: seq<int>, g2: seq<int>, h: int) {
    |g1| == |g2| && forall i | 0 <= i < |g1| && (0 <= g1[i] < h || 0 <= g2[i] < h) :: g1[i] == g2[i]
  }

  lemma {:induction false} SameUpTo(w: Graph, g1: seq<int>, r1: seq<nat>, g2: seq<int>, r2: seq<nat>, h: nat)
    requires IsGraph(w) && IsGrouping(w, g1, r1) && IsGrouping(w, g2, r2) && h <= |r1| <= |r2|
    ensures SameBelow(g1, g2, h) && r1[..h] == r2[..h]
  {
    if h > 0 {
      SameUpTo(w, g1, r1, g2, r2, h - 1);
      assert g1[r1[h - 1]] == h - 1 && g2[r2[h - 1]] == h - 1;
      assert Outweighs(w, r1[h - 1], r2[h - 1]) && Outweighs(w, r2[h - 1], r1[h - 1]);
      var root := r1[h - 1];
      assert root == r2[h - 1];
      forall i: nat | i < |w| && (0 <= g1[i] < h || 0 <= g2[i] < h) ensures g1[i] == g2[i] {
        assert g1[root] == g1[i] <==> Linked(w, root, i);
        assert g2[root] == g2[i] <==> Linked(w, root, i);
      }
      assert r1[..h] == r1[..h - 1] + [root] && r2[..h] == r2[..h - 1] + [root];
    }
  }

  lemma LargerHasNoMore(w: Graph, g1: seq<int>, r1: seq<nat>, g2: seq<int>, r2: seq<nat>)
    requires IsGraph(w) && IsGrouping(w, g1, r1) && IsGrouping(w, g2, r2)
    requires |r1| <= |r2| && SameBelow(g1, g2, |r1|) && r1 == r2[..|r1|]
    ensures g1 == g2 && r1 == r2
  {
    forall i: nat | i < |w| ensures g1[i] == g2[i] {
      assert g1[i] == -1 <==> !HasEdge(w, i);
      assert g2[i] == -1 <==> !HasEdge(w, i);
    }
    if |r1| < |r2| {
      RootNumbered(g2, r2, |r1|);
      assert false;
    }
  }

  lemma RootNumbered(groups: seq<int>, roots: seq<nat>, h: nat)
    requires RootsInGroups(groups, roots) && h < |roots|
    ensures roots[h] < |groups| && groups[roots[h]] == h
  {
  }

  // ----- The growth loops -----

  /** `todo` holds the captures that are still outside every group. */
  ghost predicate Outside(todo: set<nat>, visited: seq<bool>, groups: seq<int>) {
    && |visited| == |groups|
    && (forall i: nat :: i in todo <==> i < |visited| && !visited[i])
    && (forall i | 0 <= i < |visited| :: visited[i] <==> groups[i] != -1)
  }

  lemma AdmitOutside(todo: set<nat>, visited: seq<bool>, groups: seq<int>, selected: nat, g: int)
    requires Outside(todo, visited, groups) && selected < |groups| && groups[selected] == -1 && g >= 0
    ensures Outside(todo - {selected}, visited[selected := true], groups[selected := g])
    ensures |todo - {selected}| == |todo| - 1
  {
  }

  /** What one weighing and one scan decide: nobody outside has weight, or the heaviest does. */
  ghost predicate Decides(w: Graph, open: seq<bool>, groups: seq<int>, selected: nat)
    requires IsGraph(w) && |open| == |groups| == |w|
  {
    if selected == |w| then
      forall i: nat | i < |w| && groups[i] == -1 :: Weight(w, open, i, |w|) == 0
    else
      && selected < |w| && groups[selected] == -1 && Weight(w, open, selected, |w|) > 0
      && (forall i: nat | i < |w| && groups[i] == -1 ::
            && Weight(w, open, i, |w|) <= Weight(w, open, selected, |w|)
            && (i < selected ==> Weight(w, open, i, |w|) < Weight(w, open, selected, |w|)))
  }

  /** One weighing followed by one scan for the heaviest capture outside. */
  method SelectNext(ms: seq<CaptureMatch>, count: nat, growing: bool, visited: array<bool>, groups: array<int>,
                    weights: array<u32>, ghost todo: set<nat>)
    returns (selected: nat)
    requires Covers(ms, count) && WeightsFit(ms, count)
    requires groups.Length >= count == visited.Length == weights.Length && weights as object != groups
    requires Outside(todo, visited[..], groups[..count])
    modifies weights
    ensures Decides(GraphOf(ms, count), OpenTo(groups[..count], growing), groups[..count], selected)
  {
    ghost var w, now, seen := GraphOf(ms, count), groups[..count], visited[..];
    ghost var open := OpenTo(now, growing);
    Weigh(ms, count, growing, visited, groups, weights);
    forall i: nat | i < count
      ensures 0 <= weights[i] < TWO_31
      ensures weights[i] == if now[i] != -1 then 0 else Weight(w, open, i, count)
    {
      WeightBound(w, open, i, count, count);
      assert FullWeight(w, i) < TWO_31;
      assert weights[..][i] == weights[i] && seen[i] == visited[i];
    }
    selected := Heaviest(weights);
  }

  /** State between steps of the growth loops. */
  ghost predicate Grown(w: Graph, groups: seq<int>, roots: seq<nat>, closed: int)
    requires IsGraph(w)
  {
    InRange(groups, |w|, |roots|) && Rooted(w, groups, roots) && Closed(w, groups, closed)
  }

  /** Only outside captures changed, and they went into group g. */
  ghost predicate OnlyJoined(before: seq<int>, after: seq<int>, g: int) {
    |before| == |after| && forall i | 0 <= i < |after| :: after[i] == before[i] || (before[i] == -1 && after[i] == g)
  }

  /** Inner loop: repeatedly admits the capture of largest weight into the newest group.
      The transform averaging is floating point; grouping only sees whether it fails. */
  method ExtendGroup(ms: seq<CaptureMatch>, count: nat, preserveTransforms: bool, groups: array<int>, groupNumber: nat,
                     ghost roots: seq<nat>, visited: array<bool>, weights: array<u32>, ghost before: set<nat>)
    returns (ok: bool, ghost todo: set<nat>)
    requires Covers(ms, count) && WeightsFit(ms, count)
    requires groups.Length >= count == visited.Length == weights.Length && weights as object != groups
    requires groupNumber == |roots| - 1 && Outside(before, visited[..], groups[..count])
    requires Grown(GraphOf(ms, count), groups[..count], roots, groupNumber)
    modifies groups, visited, weights
    ensures groups[count..] == old(groups[count..])
    ensures OnlyJoined(old(groups[..count]), groups[..count], groupNumber)
    ensures ok ==> Outside(todo, visited[..], groups[..count]) && |todo| <= |before|
    ensures ok ==> Grown(GraphOf(ms, count), groups[..count], roots, |roots|)
  {
    hide Rooted, Closed, Weight, IsGraph, GraphOf, Triangle;
    ghost var w := GraphOf(ms, count);
    todo := before;
    while true
      invariant Outside(todo, visited[..], groups[..count]) && |todo| <= |before|
      invariant Grown(w, groups[..count], roots, groupNumber)
      invariant groups[count..] == old(groups[count..])
      invariant OnlyJoined(old(groups[..count]), groups[..count], groupNumber)
      decreases |todo|
    {
      ghost var now, seen, rest := groups[..count], visited[..], groups[count..];
      var selected := SelectNext(ms, count, true, visited, groups, weights, todo);
      if selected == count {
        NoWeightClosesGroup(w, now, |roots|);
        return true, todo;
      }
      JoinKeepsRooted(w, now, roots, selected);
      AdmitOutside(todo, seen, now, selected, groupNumber);
      visited[selected] := true;
      // An outside capture has group -1, so the preserve flag never skips this.
      assert groups[selected] == now[selected] != groupNumber;
      if !preserveTransforms || groups[selected] != groupNumber {
        if * {
          return false, todo;
        }
        groups[selected] := groupNumber;
      }
      todo := todo - {selected};
      assert groups[..count] == now[selected := groupNumber] && visited[..] == seen[selected := true];
      assert groups[count..] == rest;
    }
  }

  /** Opens group `g` at its root. */
  method OpenGroup(count: nat, selected: nat, g: nat, visited: array<bool>, groups: array<int>, roots: array<nat>)
    requires selected < count == visited.Length <= groups.Length && g < roots.Length && groups as object != roots
    modifies visited, groups, roots
    ensures visited[..] == old(visited[..])[selected := true]
    ensures groups[..count] == old(groups[..count])[selected := g] && groups[count..] == old(groups[count..])
    ensures roots[..g + 1] == old(roots[..g]) + [selected]
    ensures forall k | g < k < roots.Length :: roots[k] == old(roots[k])
  {
    visited[selected] := true;
    roots[g] := selected;
    groups[selected] := g;
  }

  /** State between groups: all of them closed, every root the heaviest of its time. */
  ghost predicate BetweenGroups(w: Graph, todo: set<nat>, visited: seq<bool>, groups: seq<int>, roots: seq<nat>)
    requires IsGraph(w)
  {
    && |todo| + |roots| <= |w| && Outside(todo, visited, groups)
    && Grown(w, groups, roots, |roots|) && HeavyRoots(w, groups, roots)
  }

  /** One round of the outer loop: stops growth, or opens a group and fills it. */
  method GrowRound(ms: seq<CaptureMatch>, count: nat, preserveTransforms: bool, groups: array<int>, roots: array<nat>,
                   g: nat, visited: array<bool>, weights: array<u32>, ghost before: set<nat>)
    returns (ok: bool, more: bool, ghost todo: set<nat>)
    requires Covers(ms, count) && WeightsFit(ms, count)
    requires groups.Length >= count == visited.Length == weights.Length && roots.Length >= count
    requires groups as object != roots && weights as object != groups && weights as object != roots && g <= count
    requires BetweenGroups(GraphOf(ms, count), before, visited[..], groups[..count], roots[..g])
    modifies groups, roots, visited, weights
    ensures groups[count..] == old(groups[count..])
    ensures more ==> g < count
    ensures forall k | (if more then g + 1 else g) <= k < roots.Length :: roots[k] == old(roots[k])
    ensures ok && more ==> BetweenGroups(GraphOf(ms, count), todo, visited[..], groups[..count], roots[..g + 1])
    ensures ok && more ==> |todo| < |before|
    ensures ok && !more ==> IsGrouping(GraphOf(ms, count), groups[..count], roots[..g])
  {
    hide Closed, HeavyRoots, IsGrouping, Linked, HasEdge, Weight, IsGraph, GraphOf, Triangle;
    ghost var w, now, seen, chosen := GraphOf(ms, count), groups[..count], visited[..], roots[..g];
    todo := before;
    var selected := SelectNext(ms, count, false, visited, groups, weights, todo);
    assert OpenTo(now, false) == Everyone(count) && roots[..g] == chosen;
    if selected == count {
      NoWeightEndsGrowth(w, now, chosen);
      return true, false, todo;
    }
    OpenKeepsInvariants(w, now, chosen, selected);
    AdmitOutside(todo, seen, now, selected, g);
    OpenGroup(count, selected, g, visited, groups, roots);
    ghost var started, taken := now[selected := g], chosen + [selected];
    more := true;
    ok, todo := ExtendGroup(ms, count, preserveTransforms, groups, g, taken, visited, weights, todo - {selected});
    if ok {
      assert roots[..g + 1] == taken;
      HeavyRootsSurvive(w, started, groups[..count], taken);
    }
  }

  /** The outer growth loop: one group per round. */
  method GrowGroups(ms: seq<CaptureMatch>, count: nat, preserveTransforms: bool, groups: array<int>, roots: array<nat>)
    returns (ok: bool, groupCount: nat)
    requires Covers(ms, count) && WeightsFit(ms, count)
    requires groups.Length >= count && roots.Length >= count && groups as object != roots
    modifies groups, roots
    ensures groupCount <= count
    ensures ok ==> IsGrouping(GraphOf(ms, count), groups[..count], roots[..groupCount])
    ensures groups[count..] == old(groups[count..])
    ensures forall k | groupCount <= k < roots.Length :: roots[k] == old(roots[k])
  {
    var visited := new bool[count](_ => false);
    var weights := new u32[count](_ => 0);
    for i := 0 to count
      invariant forall k | 0 <= k < i :: groups[k] == -1
      invariant groups[count..] == old(groups[count..])
      modifies groups
    {
      groups[i] := -1;
    }
    groupCount := 0;
    ghost var todo := Below(count);
    assert visited[..] == seq(count, _ => false);
    var more := true;
    while more
      invariant groupCount <= count
      invariant more ==> BetweenGroups(GraphOf(ms, count), todo, visited[..], groups[..count], roots[..groupCount])
      invariant !more ==> IsGrouping(GraphOf(ms, count), groups[..count], roots[..groupCount])
      invariant groups[count..] == old(groups[count..])
      invariant forall k | groupCount <= k < roots.Length :: roots[k] == old(roots[k])
      decreases more, |todo|
    {
      ok, more, todo := GrowRound(ms, count, preserveTransforms, groups, roots, groupCount, visited, weights, todo);
      if more {
        groupCount := groupCount + 1;
      }
      if !ok {
        return;
      }
    }
    ok := true;
  }
}
