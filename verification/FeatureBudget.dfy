/** The feature budget of a capture (`fpc_limit_feature_budget`): each level keeps the smaller of
    its quota and its size, chosen spatially from its score ranking. */
module FeatureBudget {
  import opened Words
  import opened Similarity
  import opened FeatureSort
  import opened FeatureSelection

  /** A detected point; its descriptor-side fields play no part here. */
  datatype Keypoint = Keypoint(x: int, y: int, score: real)

  /** Floating-point mapping of a level's points to image coordinates, taken as given. */
  type Placement = Keypoint -> (i16, i16)

  // ----- Rankings -----

  function Records(points: seq<Keypoint>): (r: seq<Ranked>)
    ensures |r| == |points|
  {
    seq(|points|, i requires 0 <= i < |points| => Ranked(i, points[i].score))
  }

  /** The points' records in descending order of score. */
  ghost predicate Ranking(points: seq<Keypoint>, ranks: seq<Ranked>) {
    multiset(ranks) == multiset(Records(points)) && Descending(ranks)
  }

  lemma {:induction false} OnceEach(s: seq<Ranked>, x: Ranked)
    requires forall i, j | 0 <= i < j < |s| :: s[i] != s[j]
    ensures multiset(s)[x] <= 1
  {
    if s != [] {
      var n := |s| - 1;
      assert s == s[..n] + [s[n]];
      OnceEach(s[..n], x);
      if x == s[n] {
        assert x !in s[..n];
        assert multiset(s[..n])[x] == 0;
      }
    }
  }

  lemma TwiceIn(s: seq<Ranked>, i: nat, j: nat)
    requires i < j < |s| && s[i] == s[j]
    ensures multiset(s)[s[i]] >= 2
  {
    assert s == s[..j] + s[j..];
    assert s[..j][i] == s[i] && s[j..][0] == s[i];
    assert s[i] in multiset(s[..j]) && s[i] in multiset(s[j..]);
  }

  /** A ranking names every point, and none twice. */
  lemma RankingIsPermutation(points: seq<Keypoint>, ranks: seq<Ranked>)
    requires Ranking(points, ranks)
    ensures |ranks| == |points|
    ensures forall k | 0 <= k < |ranks| :: ranks[k].index < |points| && ranks[k].score == points[ranks[k].index].score
    ensures forall j, k | 0 <= j < k < |ranks| :: ranks[j].index != ranks[k].index
  {
    var records := Records(points);
    assert |ranks| == |multiset(ranks)| == |multiset(records)|;
    forall k | 0 <= k < |ranks| ensures ranks[k].index < |points| && ranks[k] == records[ranks[k].index] {
      assert ranks[k] in multiset(records);
      var i :| 0 <= i < |records| && records[i] == ranks[k];
    }
    forall j: nat, k: nat | j < k < |ranks| ensures ranks[j].index != ranks[k].index {
      if ranks[j].index == ranks[k].index {
        TwiceIn(ranks, j, k);
        OnceEach(records, ranks[j]);
        assert false;
      }
    }
  }

  function Locations(points: seq<Keypoint>, ranks: seq<Ranked>, place: Placement): (ls: seq<Location>)
    requires forall k | 0 <= k < |ranks| :: ranks[k].index < |points|
    ensures |ls| == |ranks|
  {
    seq(|ranks|, k requires 0 <= k < |ranks| =>
      var at := place(points[ranks[k].index]);
      Location(ranks[k].index, at.0, at.1))
  }

  /** The chosen points are a fair spatial selection from the ranking of all of them. */
  ghost predicate PickedByRank(points: seq<Keypoint>, place: Placement, f: Frame, chosen: seq<nat>) {
    exists ranks: seq<Ranked>, picks: seq<nat>, fronts: seq<nat> ::
        PickedFrom(points, place, f, chosen, ranks, picks, fronts)
  }

  ghost predicate PickedFrom(points: seq<Keypoint>, place: Placement, f: Frame, chosen: seq<nat>,
                             ranks: seq<Ranked>, picks: seq<nat>, fronts: seq<nat>) {
    && Ranking(points, ranks) && ProperFrame(f)
    && (forall k | 0 <= k < |ranks| :: ranks[k].index < |points|)
    && var ls := Locations(points, ranks, place);
    Selected(Cells(ls, f), |chosen|, picks, fronts) && Indexed(ls, picks, chosen)
  }

  function Pick(points: seq<Keypoint>, chosen: seq<nat>): (out: seq<Keypoint>)
    requires forall k | 0 <= k < |chosen| :: chosen[k] < |points|
    ensures |out| == |chosen|
  {
    seq(|chosen|, k requires 0 <= k < |chosen| => points[chosen[k]])
  }

  /** What one level contributes: all of its points, or its quota of different ones. */
  ghost predicate LevelChoice(points: seq<Keypoint>, place: Placement, f: Frame, quota: nat, chosen: seq<nat>) {
    && |chosen| == Smaller(quota, |points|) && Distinct(chosen)
    && (forall k | 0 <= k < |chosen| :: chosen[k] < |points|)
    && (quota >= |points| ==> chosen == seq(|points|, i => i))
    && (0 < quota < |points| ==> PickedByRank(points, place, f, chosen))
  }

  lemma PickedIsDistinct(points: seq<Keypoint>, place: Placement, f: Frame, chosen: seq<nat>,
                         ranks: seq<Ranked>, picks: seq<nat>, fronts: seq<nat>)
    requires PickedFrom(points, place, f, chosen, ranks, picks, fronts)
    ensures Distinct(chosen) && forall k | 0 <= k < |chosen| :: chosen[k] < |points|
  {
    hide Ranking, CellOf, CountIn;
    RankingIsPermutation(points, ranks);
  }

  // ----- One level -----

  method LimitLevel(points: seq<Keypoint>, place: Placement, quota: nat, f: Frame, memory: bool)
    returns (status: int, output: seq<Keypoint>, ghost chosen: seq<nat>)
    requires |points| <= 2048 && ProperFrame(f)
    ensures memory ==> status == 0
    ensures status == 0 ==> LevelChoice(points, place, f, quota, chosen) && output == Pick(points, chosen)
  {
    hide Ranking, Selected, CellOf, ProperFrame, Descending, PickedFrom;
    var q := Smaller(quota, |points|);
    chosen := [];
    if q == |points| {
      chosen := seq(|points|, i => i);
      return 0, points, chosen;
    }
    if q == 0 {
      return 0, [], chosen;
    }
    var records := new Ranked[|points|](i requires 0 <= i < |points| => Ranked(i, points[i].score));
    assert records[..] == Records(points);
    status := SortFeatureScores(records);
    IsRanking(points, records[..]);
    RankingIsPermutation(points, records[..]);
    var locations := Locations(points, records[..], place);
    var indices;
    ghost var picks, fronts;
    status, indices, picks, fronts := SelectSpatial(locations, q, f, memory);
    if status != 0 {
      return status, [], chosen;
    }
    Picked(points, place, f, indices, records[..], picks, fronts);
    PickedIsDistinct(points, place, f, indices, records[..], picks, fronts);
    chosen := indices;
    return 0, Pick(points, indices), chosen;
  }

  lemma IsRanking(points: seq<Keypoint>, ranks: seq<Ranked>)
    requires multiset(ranks) == multiset(Records(points)) && Descending(ranks)
    ensures Ranking(points, ranks)
  {
  }

  lemma Picked(points: seq<Keypoint>, place: Placement, f: Frame, chosen: seq<nat>, ranks: seq<Ranked>, picks: seq<nat>,
               fronts: seq<nat>)
    requires Ranking(points, ranks) && ProperFrame(f) && forall k | 0 <= k < |ranks| :: ranks[k].index < |points|
    requires Selected(Cells(Locations(points, ranks, place), f), |chosen|, picks, fronts)
    requires Indexed(Locations(points, ranks, place), picks, chosen)
    ensures PickedFrom(points, place, f, chosen, ranks, picks, fronts)
    ensures PickedByRank(points, place, f, chosen)
  {
    hide Ranking, Selected, Indexed, Cells;
  }

  // ----- All levels -----

  /** One or two levels; a level's points follow those of the level before. */
  predicate Levels(counts: seq<nat>, count: nat) {
    1 <= |counts| <= 2 && counts[0] <= count &&
        (if |counts| == 1 then counts[0] == count else counts[1] == count - counts[0])
  }

  /** Points a level may keep: half of a tight budget each, nothing taken from a loose one. */
  function QuotaOf(counts: seq<nat>, count: nat, budget: int, level: nat): (q: nat)
    requires Levels(counts, count) && level < |counts|
  {
    if budget >= 0 && count > budget then
      var second := if |counts| == 2 then budget * 50 / 100 else 0;
      if level == 1 then second else budget - second
    else counts[level]
  }

  function LevelOf(points: seq<Keypoint>, counts: seq<nat>, level: nat): seq<Keypoint>
    requires Levels(counts, |points|) && level < |counts|
  {
    if level == 0 then points[..counts[0]] else points[counts[0]..]
  }

  /** The levels are the points in order, as many in each as it counts. */
  lemma LevelsPartition(points: seq<Keypoint>, counts: seq<nat>)
    requires Levels(counts, |points|)
    ensures |LevelOf(points, counts, 0)| == counts[0]
    ensures |counts| == 1 ==> LevelOf(points, counts, 0) == points
    ensures |counts| == 2 ==> LevelOf(points, counts, 0) + LevelOf(points, counts, 1) == points
  {
  }

  /** A budget is never exceeded, and a loose or negative one keeps every point. */
  lemma BudgetHolds(counts: seq<nat>, count: nat, budget: int)
    requires Levels(counts, count)
    ensures var kept := Smaller(QuotaOf(counts, count, budget, 0), counts[0])
                        + if |counts| == 2 then Smaller(QuotaOf(counts, count, budget, 1), counts[1]) else 0;
            if 0 <= budget < count then kept <= budget else kept == count
  {
  }

  /** In numbers: of a budget smaller than the number of points a second level gets half, rounded
      down, and the first level the rest; any other budget leaves every level whole. */
  lemma QuotaExactly(counts: seq<nat>, count: nat, budget: int)
    requires Levels(counts, count)
    ensures var first := QuotaOf(counts, count, budget, 0);
            if budget < 0 || budget >= count then
              first == counts[0] && (|counts| == 2 ==> QuotaOf(counts, count, budget, 1) == counts[1])
            else if |counts| == 1 then first == budget
            else
              var second := QuotaOf(counts, count, budget, 1);
              first + second == budget && 2 * second <= budget <= 2 * second + 1
  {
  }

  /** `fpc_limit_feature_budget`. */
  method LimitFeatureBudget(points: seq<Keypoint>, counts: seq<nat>, places: seq<Placement>, width: nat, height: nat,
                            budget: int, capacity: nat, memory: nat -> bool)
    returns (status: int, output: seq<Keypoint>, kept: seq<nat>, ghost chosen: seq<seq<nat>>)
    requires |places| == |counts|
    ensures (forall k :: memory(k)) ==>
              (status == 0 <==>
                  Levels(counts, |points|) && |points| <= 2048 && 1 <= width <= 256 && 1 <= height <= 256 &&
                      capacity >= |points|)
    ensures status == 0 ==> AllInLevels(points, counts, chosen) && 1 <= width <= 256 && 1 <= height <= 256
    ensures status == 0 ==> |kept| == |chosen| == |counts| && forall l | 0 <= l < |counts| ::
              LevelDone(points, counts, places[l], Frame(0, 0, width - 1, height - 1), budget, l, kept[l], chosen[l])
    ensures status == 0 ==> output == Gather(points, counts, chosen)
  {
    hide LevelDone, LevelOf, QuotaOf, Levels, LevelChoice, InLevel, Pick;
    output, kept, chosen := [], [], [];
    if !Levels(counts, |points|) || |points| > 2048 || !(1 <= width <= 256) || !(1 <= height <= 256) ||
        capacity < |points| {
      return -1, output, kept, chosen;
    }
    var f := Frame(0, 0, width - 1, height - 1);
    LevelSizes(points, counts);
    for l := 0 to |counts|
      invariant |kept| == |chosen| == l
      invariant forall k | 0 <= k < l :: LevelDone(points, counts, places[k], f, budget, k, kept[k], chosen[k])
      invariant AllInLevels(points, counts, chosen) && output == Gather(points, counts, chosen)
    {
      var quota := QuotaOf(counts, |points|, budget, l);
      var limited, picks;
      ghost var where;
      limited, picks, where := LimitLevel(LevelOf(points, counts, l), places[l], quota, f, memory(l));
      if limited != 0 {
        return limited, output, kept, chosen;
      }
      IsDone(points, counts, places[l], f, budget, l, where);
      assert (chosen + [where])[..l] == chosen;
      output := output + picks;
      kept := kept + [Smaller(quota, counts[l])];
      chosen := chosen + [where];
    }
    return 0, output, kept, chosen;
  }

  /** One level's share: the smaller of quota and size, chosen as promised. */
  ghost predicate LevelDone(points: seq<Keypoint>, counts: seq<nat>, place: Placement, f: Frame, budget: int,
                            level: nat,
                            kept: nat, chosen: seq<nat>) {
    && Levels(counts, |points|) && level < |counts|
    && kept == Smaller(QuotaOf(counts, |points|, budget, level), counts[level]) == |chosen|
    && LevelChoice(LevelOf(points, counts, level), place, f, QuotaOf(counts, |points|, budget, level), chosen)
  }

  ghost predicate AllInLevels(points: seq<Keypoint>, counts: seq<nat>, chosen: seq<seq<nat>>) {
    && Levels(counts, |points|) && |chosen| <= |counts|
    && forall l | 0 <= l < |chosen| :: InLevel(LevelOf(points, counts, l), chosen[l])
  }

  /** The chosen points of the levels, one level after another. */
  ghost function Gather(points: seq<Keypoint>, counts: seq<nat>, chosen: seq<seq<nat>>): seq<Keypoint>
    requires AllInLevels(points, counts, chosen)
  {
    if chosen == [] then []
    else
      var l := |chosen| - 1;
      Gather(points, counts, chosen[..l]) + Pick(LevelOf(points, counts, l), chosen[l])
  }

  lemma LevelSizes(points: seq<Keypoint>, counts: seq<nat>)
    requires Levels(counts, |points|)
    ensures 1 <= |counts| <= 2 && forall l: nat | l < |counts| :: |LevelOf(points, counts, l)| == counts[l] <= |points|
  {
  }

  lemma IsDone(points: seq<Keypoint>, counts: seq<nat>, place: Placement, f: Frame, budget: int, level: nat,
               chosen: seq<nat>)
    requires Levels(counts, |points|) && level < |counts|
    requires LevelChoice(LevelOf(points, counts, level), place, f, QuotaOf(counts, |points|, budget, level), chosen)
    ensures LevelDone(points, counts, place, f, budget, level,
                      Smaller(QuotaOf(counts, |points|, budget, level), counts[level]), chosen)
    ensures InLevel(LevelOf(points, counts, level), chosen)
  {
    hide PickedByRank;
    LevelSizes(points, counts);
  }

  predicate InLevel(points: seq<Keypoint>, chosen: seq<nat>) {
    forall k | 0 <= k < |chosen| :: chosen[k] < |points|
  }
}
