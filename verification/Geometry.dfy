/** Consensus geometry (`fpc_verify_geometry_profile300`): the sampling search with its moving
    limit, the greedy spatial filter, the movement filter and the membership score. */
module Geometry {
  import opened Words
  import opened Bytes
  import opened Similarity

  type Points = seq<Point>

  // ----- Counting -----

  function CountInliers(points: Points, t: Transform, n: nat): (r: nat)
    requires n <= |points|
    ensures r <= n
  {
    if n == 0 then 0 else CountInliers(points, t, n - 1) + if Inlier(points[n - 1], t) then 1 else 0
  }

  function CountTrue(flags: seq<bool>): (r: nat)
    ensures r <= |flags|
  {
    if flags == [] then 0 else CountTrue(flags[..|flags| - 1]) + if flags[|flags| - 1] then 1 else 0
  }

  lemma {:induction false} ClearingCounts(flags: seq<bool>, j: nat)
    requires j < |flags| && flags[j]
    ensures CountTrue(flags[j := false]) == CountTrue(flags) - 1
  {
    var n := |flags| - 1;
    if j == n {
      assert flags[j := false][..n] == flags[..n];
    } else {
      ClearingCounts(flags[..n], j);
      assert flags[j := false][..n] == flags[..n][j := false];
    }
  }

  // ----- The search -----

  const LIMITS: seq<nat> := [0x3334, 0x8000, 0x5dc0, 0x44c0, 0x3334, 0x2148, 0x1917, 0x13b7,
                             0x0eda, 0x0c09, 0x0979, 0x072c, 0x0419, 0x0290, 0x018a, 0x0107]

  function Quota(bucket: nat): (q: nat)
    requires bucket < 16
    ensures q <= 10000
  {
    10000 * LIMITS[bucket] / 0x8000
  }

  /** Iteration limit after a consensus of `inliers` out of `count`. */
  function LimitFor(inliers: nat, count: nat): (limit: nat)
    requires 0 < count
    ensures limit <= 10000
  {
    var bucket := inliers * (0x8000 / count) / 1024;
    Quota(if bucket > 15 then 15 else bucket)
  }

  datatype Search = Search(
    iteration: nat, limit: nat, seeds: Seeds, pairs: seq<(nat, nat)>,
    best: nat, transform: Transform, accepted: nat, progress: nat)

  const NO_TRANSFORM: Transform := Transform(0, 0, 0, 0)

  function Start(): Search {
    Search(0, 1500, Seeds(0xfffe, 0x8300), [], 0, NO_TRANSFORM, 0, 0)
  }

  predicate Sampled(points: Points, pairs: seq<(nat, nat)>) {
    |pairs| == 16 && forall i | 0 <= i < 16 :: pairs[i].0 < |points| && pairs[i].1 < |points|
  }

  /** Between iterations: the limit is within 10000 and the counters are far from overflowing. */
  ghost predicate Running(points: Points, s: Search) {
    && 0 < |points| && s.limit <= 10000 && s.iteration <= 10000
    && (s.iteration % 16 != 0 ==> Sampled(points, s.pairs))
    && s.accepted <= 32768 * s.iteration && s.progress == 4424 * s.iteration
    && s.best <= |points|
    && (s.best > 0 ==> s.best == CountInliers(points, s.transform, |points|))
  }

  /** A fresh batch of pairs every sixteenth iteration. */
  function Refill(points: Points, s: Search): Search {
    if s.iteration % 16 == 0 then s.(pairs := Sample(s.seeds, |points|).0, seeds := Sample(s.seeds, |points|).1) else s
  }

  /** What the iteration does with an acceptable pair. */
  function Consider(points: Points, s: Search, t: Transform): Search
    requires 0 < |points|
  {
    var accepted := s.accepted + 32768;
    if s.iteration > 1500 && accepted < s.progress then s.(accepted := accepted, limit := s.iteration)
    else
      var inliers := CountInliers(points, t, |points|);
      if inliers > s.best then
        s.(accepted := accepted, best := inliers, transform := t, limit := LimitFor(inliers, |points|))
      else s.(accepted := accepted)
  }

  lemma RefillIsSampled(points: Points, s: Search)
    requires Running(points, s)
    ensures Sampled(points, Refill(points, s).pairs)
  {
    hide Sample, CountInliers;
    if s.iteration % 16 == 0 {
      SampleInRange(s.seeds, |points|);
    }
  }

  /** One iteration. The fitter never rejects a pair the sampler accepted, so the error return
      in the C loop is unreachable. */
  ghost function Iterate(points: Points, s: Search): Search
    requires Running(points, s) && s.iteration < s.limit
  {
    RefillIsSampled(points, s);
    var r := Refill(points, s);
    var pair := r.pairs[s.iteration % 16];
    var a, b := points[pair.0], points[pair.1];
    var tried := if Acceptable(a, b) then
                   AcceptedPairFits(a, b);
                   Consider(points, r, Fit(a, b).value)
                 else r;
    tried.(iteration := s.iteration + 1, progress := s.progress + 4424)
  }

  lemma IterateRuns(points: Points, s: Search)
    requires Running(points, s) && s.iteration < s.limit
    ensures Running(points, Iterate(points, s)) && Iterate(points, s).iteration == s.iteration + 1
    ensures Iterate(points, s).best >= s.best
  {
    hide Sample, CountInliers, Acceptable, Fit, LimitFor;
    RefillIsSampled(points, s);
    if (s.iteration + 1) % 16 != 0 && s.iteration % 16 == 0 {
      assert Refill(points, s).pairs == Iterate(points, s).pairs;
    }
  }

  ghost function SearchFrom(points: Points, s: Search): Search
    requires Running(points, s)
    decreases 10000 - s.iteration
  {
    if s.iteration >= s.limit then s
    else
      IterateRuns(points, s);
      SearchFrom(points, Iterate(points, s))
  }

  /** Transforms whose inliers the search counted. */
  ghost function Counted(points: Points, s: Search): set<Transform>
    requires Running(points, s)
    decreases 10000 - s.iteration
  {
    if s.iteration >= s.limit then {}
    else
      IterateRuns(points, s);
      RefillIsSampled(points, s);
      var r := Refill(points, s);
      var pair := r.pairs[s.iteration % 16];
      var a, b := points[pair.0], points[pair.1];
      var rest := Counted(points, Iterate(points, s));
      if Acceptable(a, b) && !(s.iteration > 1500 && s.accepted + 32768 < s.progress) then
        AcceptedPairFits(a, b);
        rest + {Fit(a, b).value}
      else rest
  }

  /** The search ends within 10000 iterations, and nothing it counted beats what it returns. */
  lemma {:induction false} SearchEnds(points: Points, s: Search)
    requires Running(points, s)
    ensures var r := SearchFrom(points, s);
            && Running(points, r) && r.iteration >= r.limit && s.iteration <= r.iteration <= 10000 && r.best >= s.best
            && forall t :: t in Counted(points, s) ==> CountInliers(points, t, |points|) <= r.best
    decreases 10000 - s.iteration
  {
    hide Sample, CountInliers, Acceptable, Fit, LimitFor;
    if s.iteration < s.limit {
      IterateRuns(points, s);
      SearchEnds(points, Iterate(points, s));
    }
  }

  lemma StartRuns(points: Points)
    requires 0 < |points|
    ensures Running(points, Start())
  {
  }

  /** The search from its fixed start. */
  ghost function BestConsensus(points: Points): Search
    requires 0 < |points|
  {
    StartRuns(points);
    SearchFrom(points, Start())
  }

  /** Counting loop of the C code. */
  method CountConsensus(points: Points, t: Transform) returns (inliers: nat)
    ensures inliers == CountInliers(points, t, |points|)
  {
    inliers := 0;
    for i := 0 to |points|
      invariant inliers == CountInliers(points, t, i)
    {
      if Inlier(points[i], t) {
        inliers := inliers + 1;
      }
    }
  }

  lemma PairAt(points: Points, pairs: seq<(nat, nat)>, i: nat)
    requires Sampled(points, pairs) && i < 16
    ensures |pairs| == 16 && pairs[i].0 < |points| && pairs[i].1 < |points|
  {
  }

  lemma RunningEnds(points: Points, s: Search)
    requires Running(points, s) && s.iteration < s.limit
    ensures s.iteration < 10000
  {
  }

  /** The search loop. */
  method FindConsensus(points: Points) returns (best: nat, transform: Transform)
    requires 0 < |points|
    ensures best == BestConsensus(points).best && transform == BestConsensus(points).transform
  {
    hide Sample, CountInliers, Acceptable, Fit, LimitFor, Running, Sampled;
    var s := Start();
    StartRuns(points);
    while s.iteration < s.limit
      invariant Running(points, s) && SearchFrom(points, s) == SearchFrom(points, Start())
      decreases 10000 - s.iteration
    {
      IterateRuns(points, s);
      RefillIsSampled(points, s);
      PairAt(points, Refill(points, s).pairs, s.iteration % 16);
      RunningEnds(points, s);
      ghost var next := Iterate(points, s);
      s := Refill(points, s);
      var pair := s.pairs[s.iteration % 16];
      var a, b := points[pair.0], points[pair.1];
      if Acceptable(a, b) {
        AcceptedPairFits(a, b);
        var fitted := Fit(a, b).value;
        s := s.(accepted := s.accepted + 32768);
        if s.iteration > 1500 && s.accepted < s.progress {
          s := s.(limit := s.iteration);
        } else {
          var inliers := CountConsensus(points, fitted);
          if inliers > s.best {
            s := s.(best := inliers, transform := fitted, limit := LimitFor(inliers, |points|));
          }
        }
      }
      s := s.(iteration := s.iteration + 1, progress := s.progress + 4424);
      assert s == next;
    }
    return s.best, s.transform;
  }

  // ----- The spatial filter -----

  predicate Close(p: Point, q: Point) {
    SignedNorm(p.x - q.x, p.y - q.y) < 3584
  }

  /** Point j stays: it is in the consensus and no earlier point that stays is close to it. */
  ghost predicate Stays(points: Points, consensus: seq<bool>, j: nat)
    requires |consensus| == |points| && j < |points|
    decreases j
  {
    consensus[j] && forall i: nat | i < j :: Stays(points, consensus, i) ==> !Close(points[i], points[j])
  }

  /** After the rows below i, and row i up to column j. */
  ghost predicate Survives(points: Points, consensus: seq<bool>, rows: nat, k: nat)
    requires |consensus| == |points| && k < |points|
  {
    consensus[k] && forall i: nat | i < rows && i < k :: Stays(points, consensus, i) ==> !Close(points[i], points[k])
  }

  /** The double loop that unflags close followers; returns how many flags are left. */
  method FilterClose(points: Points, flags: array<bool>) returns (inliers: nat)
    requires flags.Length == |points|
    modifies flags
    ensures forall j: nat | j < |points| :: flags[j] == Stays(points, old(flags[..]), j)
    ensures inliers == CountTrue(flags[..])
  {
    hide Close;
    ghost var consensus := flags[..];
    inliers := CountFlags(flags);
    for i := 0 to |points|
      invariant forall k: nat | k < |points| :: flags[k] == Survives(points, consensus, i, k)
      invariant inliers == CountTrue(flags[..])
    {
      assert flags[i] == Stays(points, consensus, i);
      if flags[i] {
        for j := i + 1 to |points|
          invariant forall k: nat | k < |points| ::
                      flags[k] == Survives(points, consensus, if k < j then i + 1 else i, k)
          invariant inliers == CountTrue(flags[..])
        {
          if flags[j] && Close(points[i], points[j]) {
            ClearingCounts(flags[..], j);
            ghost var was := flags[..];
            flags[j] := false;
            assert flags[..] == was[j := false];
            inliers := inliers - 1;
          }
        }
      }
    }
  }

  method CountFlags(flags: array<bool>) returns (n: nat)
    ensures n == CountTrue(flags[..])
  {
    n := 0;
    for i := 0 to flags.Length
      invariant n == CountTrue(flags[..i])
    {
      assert flags[..i + 1][..i] == flags[..i];
      if flags[i] {
        n := n + 1;
      }
    }
    assert flags[..flags.Length] == flags[..];
  }

  ghost function SpatialFlags(points: Points, consensus: seq<bool>): seq<bool>
    requires |consensus| == |points|
  {
    seq(|points|, j requires 0 <= j < |points| => Stays(points, consensus, j))
  }

  /** Flags that keep far apart, and leave out only points close to an earlier kept one. */
  ghost predicate FirstComeMaximal(points: Points, consensus: seq<bool>, kept: seq<bool>) {
    && |consensus| == |kept| == |points|
    && (forall j | 0 <= j < |points| && kept[j] :: consensus[j])
    && (forall i, j | 0 <= i < j < |points| && kept[i] && kept[j] :: !Close(points[i], points[j]))
    && (forall j | 0 <= j < |points| && consensus[j] && !kept[j] ::
          exists i | 0 <= i < j :: kept[i] && Close(points[i], points[j]))
  }

  /** The filter computes the first-come maximal subset, which is unique. */
  lemma SpatialFlagsExactly(points: Points, consensus: seq<bool>, kept: seq<bool>)
    requires |consensus| == |kept| == |points|
    ensures FirstComeMaximal(points, consensus, kept) <==> kept == SpatialFlags(points, consensus)
  {
    hide Close;
    if FirstComeMaximal(points, consensus, kept) {
      MaximalIsStays(points, consensus, kept, |points|);
    }
    if kept == SpatialFlags(points, consensus) {
      forall j | 0 <= j < |points| && consensus[j] && !kept[j]
        ensures exists i | 0 <= i < j :: kept[i] && Close(points[i], points[j])
      {
        assert !Stays(points, consensus, j);
        var i: nat :| i < j && Stays(points, consensus, i) && Close(points[i], points[j]);
        assert kept[i];
      }
    }
  }

  lemma {:induction false} MaximalIsStays(points: Points, consensus: seq<bool>, kept: seq<bool>, n: nat)
    requires FirstComeMaximal(points, consensus, kept) && n <= |points|
    ensures forall j: nat | j < n :: kept[j] == Stays(points, consensus, j)
  {
    hide Close;
    if n > 0 {
      MaximalIsStays(points, consensus, kept, n - 1);
      var j := n - 1;
      if consensus[j] && !kept[j] {
        var i :| 0 <= i < j && kept[i] && Close(points[i], points[j]);
        assert Stays(points, consensus, i);
      }
    }
  }
}
