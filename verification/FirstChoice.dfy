/** The first group an enrollment session follows (`fpc_rebuild_capture_groups` as the session calls
    it): while nothing is followed all groups are small, and one more capture enlarges only its own
    component, so at most one group can be large when the choice is made. */
module FirstChoice {
  import opened Words
  import opened PreparedCaptures
  import opened Grouping
  import opened GroupSelection
  import opened Enrollment

  // ----- Components without the newest capture -----

  lemma EdgeJoins(w: Graph, groups: seq<int>, roots: seq<nat>, a: nat, b: nat)
    requires IsGraph(w) && IsGrouping(w, groups, roots) && Edge(w, a, b)
    ensures groups[a] == groups[b] >= 0
  {
    assert PathFromTo(w, [a, b], a, b);
  }

  lemma {:induction false} PathKeepsGroup(w: Graph, groups: seq<int>, roots: seq<nat>, p: seq<nat>, k: nat)
    requires IsGraph(w) && IsGrouping(w, groups, roots) && Path(w, p) && k < |p| && groups[p[0]] >= 0
    ensures groups[p[k]] == groups[p[0]]
  {
    hide IsGraph, IsGrouping, Edge;
    if k > 0 {
      PathKeepsGroup(w, groups, roots, p, k - 1);
      assert Edge(w, p[k - 1], p[k - 1 + 1]);
      EdgeJoins(w, groups, roots, p[k - 1], p[k]);
    }
  }

  /** w2 is w1 with one more capture. */
  ghost predicate OneMore(w1: Graph, w2: Graph) {
    && IsGraph(w1) && IsGraph(w2) && |w2| == |w1| + 1
    && forall a, b | 0 <= a < |w1| && 0 <= b < |w1| :: w2[a][b] == w1[a][b]
  }

  /** A link within a group without the newest capture was there before it. */
  lemma OldLink(w1: Graph, w2: Graph, groups: seq<int>, roots: seq<nat>, i: nat, j: nat)
    requires OneMore(w1, w2) && IsGrouping(w2, groups, roots) && i < |w2| && Linked(w2, i, j)
    requires 0 <= groups[i] != groups[|w1|]
    ensures Linked(w1, i, j)
  {
    hide IsGrouping;
    var p: seq<nat> :| PathFromTo(w2, p, i, j);
    forall k | 0 <= k < |p| ensures p[k] < |w1| {
      PathKeepsGroup(w2, groups, roots, p, k);
    }
    assert forall k | 0 <= k < |p| - 1 :: Edge(w2, p[k], p[k + 1]);
    assert PathFromTo(w1, p, i, j);
  }

  lemma OldEdge(w1: Graph, w2: Graph, groups: seq<int>, roots: seq<nat>, i: nat)
    requires OneMore(w1, w2) && IsGrouping(w2, groups, roots) && i < |w2|
    requires 0 <= groups[i] != groups[|w1|]
    ensures i < |w1| && HasEdge(w1, i)
  {
    assert HasEdge(w2, i);
    var j: nat :| Edge(w2, i, j);
    EdgeJoins(w2, groups, roots, i, j);
    assert Edge(w1, i, j);
  }

  /** A group without the newest capture is no larger than some group before it came. */
  lemma OtherGroupsStay(w1: Graph, g1: seq<int>, r1: seq<nat>, w2: Graph, g2: seq<int>, r2: seq<nat>, g: nat)
    requires OneMore(w1, w2) && IsGrouping(w1, g1, r1) && IsGrouping(w2, g2, r2)
    requires g < |r2| && g2[|w1|] != g
    ensures exists h :: 0 <= h < |r1| && Size(g2, g) <= Size(g1, h)
  {
    hide Size, Linked, HasEdge, Edge, HeavyRoots;
    var m := r2[g];
    assert g2[m] == g;
    OldEdge(w1, w2, g2, r2, m);
    var h := g1[m];
    forall i | 0 <= i < |w1| && g2[i] == g ensures g1[i] == h {
      assert Linked(w2, m, i);
      OldLink(w1, w2, g2, r2, m, i);
    }
    assert 0 <= h < |r1|;
    assert g2[..|w1| + 1] == g2;
    SizeWithout(g2, g);
    SizeGrows(g2[..|w1|], g, g1, h);
  }

  lemma SizeWithout(groups: seq<int>, g: int)
    requires groups != [] && groups[|groups| - 1] != g
    ensures Size(groups, g) == Size(groups[..|groups| - 1], g)
  {
  }

  // ----- The choice in a session -----

  /** The groups of a capture's session before and after it is taken. */
  lemma GrownGraph(s: Session, fs: seq<Feature>, q: QualityState, t: Session) returns (r1: seq<nat>, r2: seq<nat>)
    requires Sound(s) && Takes(s, fs, q, t)
    ensures Grouped(s, r1) && Grouped(t, r2) && Reselected(s.grouping, t, r2) && OneMore(MatchGraph(s), MatchGraph(t))
  {
    hide FromFeatures, TablesMatch, AllEnrolledCaptures, IsGrouping, IsGraph, GraphOf, Triangle, EarlyEnough,
         ProgressOf;
    hide PairResult, PairSpatial, EnrolledCapture, LastLarge, Followed;
    r1 :| Grouped(s, r1);
    r2 :| Grouped(t, r2) && Reselected(s.grouping, t, r2);
    TableSize(s);
    GraphGrows(s.matches, |s.captures|, t.matches, |t.captures|);
  }

  /** While nothing is followed, at most the newest capture's own group is large after it is taken:
      that group is chosen exactly when it is large, and every other group is smaller. */
  lemma FirstChoiceIsLargest(s: Session, fs: seq<Feature>, q: QualityState, t: Session)
    requires Sound(s) && Takes(s, fs, q, t) && s.grouping.group == -1
    ensures |t.groups| == |s.captures| + 1
    ensures forall g | 0 <= g < t.grouping.groupCount && Size(t.groups, g) >= MINIMUM_GROUP ::
              g == t.groups[|s.captures|]
    ensures var own := t.groups[|s.captures|];
            t.grouping.group == if own >= 0 && Size(t.groups, own) >= MINIMUM_GROUP then own else -1
    ensures t.grouping.group >= 0 ==>
              forall g | 0 <= g < t.grouping.groupCount && g != t.grouping.group ::
                Size(t.groups, g) < MINIMUM_GROUP <= Size(t.groups, t.grouping.group)
  {
    hide Size, IsGrouping, IsGraph, GraphOf, Triangle, TablesMatch, AllEnrolledCaptures, Appends, ProgressOf,
         EarlyEnough, OneMore;
    var n := |s.captures|;
    var r1, r2 := GrownGraph(s, fs, q, t);
    GroupsPerCapture(t, r2);
    GroupNumbers(MatchGraph(t), t.groups, r2);
    forall g | 0 <= g < |r2| && g != t.groups[n] ensures Size(t.groups, g) < MINIMUM_GROUP {
      OtherGroupsStay(MatchGraph(s), s.groups, r1, MatchGraph(t), t.groups, r2, g);
    }
  }

  /** In every run, when a call makes the first choice, the chosen group is larger than all others. */
  lemma RunChoosesLargest(run: seq<Session>, i: nat)
    requires IsRun(run) && i + 1 < |run| && !run[i + 1].failed
    requires run[i].grouping.group == -1 && run[i + 1].grouping.group >= 0
    ensures var t := run[i + 1];
            forall g | 0 <= g < t.grouping.groupCount && g != t.grouping.group ::
              Size(t.groups, g) < Size(t.groups, t.grouping.group)
  {
    hide Sound, Takes, Size, Flags;
    var s, t := run[i], run[i + 1];
    RunIsSound(run, i);
    assert Step(s, t);
    var p, status :| Adds(s, p, t, status);
    var (code, q) := Judged(s.quality, p, |s.captures|, s.metrics);
    FirstChoiceIsLargest(s, p.features, q, t);
  }

  /** In numbers: while nothing is followed every group has at most three captures; a group followed
      has at least four. */
  lemma FollowedHasFour(run: seq<Session>, i: nat)
    requires IsRun(run) && i < |run| && !run[i].failed
    ensures var s := run[i];
            if s.grouping.group == -1 then forall g | 0 <= g < s.grouping.groupCount :: Size(s.groups, g) <= 3
            else Size(s.groups, s.grouping.group) >= 4
  {
    hide Size, TablesMatch, AllEnrolledCaptures, Grouped, ProgressOf;
    RunIsSound(run, i);
  }
}
