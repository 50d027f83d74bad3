/** What one enrollment session is and how it may change: the state after each accepted capture,
    and what holds over every run of captures offered to it. */
module Enrollment {
  import opened Words
  import opened CaptureCodec
  import opened Identification
  import opened PreparedCaptures
  import opened Grouping
  import opened GroupSelection

  const MAX_CAPTURES: nat := 13
  const MINIMUM_GROUP: int := 4

  // ----- Progress and quality -----

  /** Floating-point measurements of the aligned captures; where they come from is not modelled. */
  datatype Metrics = Metrics(area: real, motion: real, change: real)

  datatype Progress = Progress(percent: int, remaining: int, complete: bool)

  datatype QualityState = QualityState(attempts: u16, streak: u8, latched: bool, progress: Progress)

  predicate Measurable(m: Metrics) {
    m.area >= 0.0 && m.motion >= 0.0 && m.change >= 0.0
  }

  predicate EarlyEnough(count: nat, m: Metrics) {
    count >= 3 && m.motion > 0.4 && m.change < 0.085 && m.area >= 25000.0
  }

  /** Progress after `count` captures; the early latch completes a session from seven on. */
  function ProgressOf(count: nat, latched: bool): Progress {
    var percent := if count >= 13 || (count >= 7 && latched) then 100 else 100 * count / 13;
    Progress(percent, if percent >= 100 then 0 else 13 - count, percent >= 100)
  }

  /** Seven captures are the fewest that complete a session, thirteen always do, and progress
      never goes back. */
  lemma ProgressMeans(count: nat, latched: bool)
    ensures ProgressOf(count, latched).complete <==> count >= 13 || (count >= 7 && latched)
    ensures forall more: nat, later: bool | more >= count && (latched ==> later) ::
              ProgressOf(more, later).percent >= ProgressOf(count, latched).percent
  {
    assert count < 13 ==> 100 * count / 13 <= 92;
  }

  function Flags(p: PreparedCapture): nat {
    (if p.confidence < 25 then 1 else 0) + (if p.coverage < 60 then 16 else 0) + (if p.quality < 32 then 32768 else 0)
  }

  /** `fpc_enrollment_quality_profile300`: status and next state. */
  function Judged(q: QualityState, p: PreparedCapture, count: nat, m: Metrics): (int, QualityState) {
    if !Measurable(m) then (-1, q)
    else
      var tried := q.(attempts := (q.attempts + 1) % 0x1_0000);
      if Flags(p) == 0 then (0, tried.(streak := 0))
      else
        var latched := q.latched || EarlyEnough(count, m);
        var streak := (q.streak + 1) % 0x100;
        (if streak >= 10 then 112 else 0,
         tried.(streak := streak, latched := latched, progress := ProgressOf(count, latched)))
  }

  // ----- Sessions -----

  datatype Session = Session(
    captures: seq<CaptureView>, matches: seq<CaptureMatch>, spatial: seq<u16>, groups: seq<int>,
    grouping: Selection, metrics: Metrics, quality: QualityState, failed: bool)

  const NO_METRICS: Metrics := Metrics(0.0, 0.0, 0.0)

  function Created(): Session {
    Session([], [], [], [], Selection(0, -1, -1), NO_METRICS, QualityState(0, 0, false, Progress(0, 13, false)), false)
  }

  ghost predicate EnrolledCapture(v: CaptureView) {
    exists fs: seq<Feature> :: FromFeatures(v, fs, true)
  }

  lemma EnrolledCaptureIsUsable(v: CaptureView)
    requires EnrolledCapture(v)
    ensures Prepared(v) && Shaped(v) && Profile300(v) && Enrolled(v) && v.count <= 300
  {
    hide Enrolled, FromFeatures;
    var fs :| FromFeatures(v, fs, true);
    ViewIsUsable(v, fs, true);
  }

  /** The match record of a later capture against an earlier one. */
  ghost function PairResult(earlier: CaptureView, later: CaptureView): (m: CaptureMatch)
    requires EnrolledCapture(earlier) && EnrolledCapture(later)
    ensures 0 <= m.inliers <= 300
  {
    EnrolledCaptureIsUsable(earlier);
    EnrolledCaptureIsUsable(later);
    MatchedFits(earlier, later);
    var r := Matched(earlier, later);
    CaptureMatch(r.success, if r.success then r.inliers else 0)
  }

  ghost function PairSpatial(earlier: CaptureView, later: CaptureView): u16
    requires EnrolledCapture(earlier) && EnrolledCapture(later)
  {
    EnrolledCaptureIsUsable(earlier);
    EnrolledCaptureIsUsable(later);
    SpatialScore(earlier, later)
  }

  ghost predicate AllEnrolledCaptures(cs: seq<CaptureView>) {
    forall i | 0 <= i < |cs| :: EnrolledCapture(cs[i])
  }

  /** Both packed tables hold one record per pair of captures, in arrival order. */
  ghost predicate TablesMatch(cs: seq<CaptureView>, matches: seq<CaptureMatch>, spatial: seq<u16>)
    requires AllEnrolledCaptures(cs)
  {
    && |matches| == |spatial| == Triangle(|cs|)
    && forall later: nat, earlier: nat | earlier < later < |cs| ::
         && AppendSlot(later, earlier) < |matches|
         && matches[AppendSlot(later, earlier)] == PairResult(cs[earlier], cs[later])
         && spatial[AppendSlot(later, earlier)] == PairSpatial(cs[earlier], cs[later])
  }

  ghost function MatchGraph(s: Session): Graph
    requires |s.matches| >= Triangle(|s.captures|)
  {
    GraphOf(s.matches, |s.captures|)
  }

  /** Groups are the components of the match graph, the root list of which is unique. */
  ghost predicate Grouped(s: Session, roots: seq<nat>) {
    && |s.matches| >= Triangle(|s.captures|) && IsGraph(MatchGraph(s))
    && IsGrouping(MatchGraph(s), s.groups, roots) && s.grouping.groupCount == |roots|
  }

  /** Nothing selected means every group is small; otherwise the selected group is the one of
      the reference capture, and it is large. */
  predicate Followed(s: Session) {
    if s.grouping.group == -1 then
      s.grouping.reference == -1 && forall g | 0 <= g < s.grouping.groupCount :: Size(s.groups, g) < MINIMUM_GROUP
    else
      && 0 <= s.grouping.reference < |s.groups| && 0 <= s.grouping.group == s.groups[s.grouping.reference]
      && Size(s.groups, s.grouping.group) >= MINIMUM_GROUP
  }

  /** Invariant of a session that has not failed. */
  ghost predicate Sound(s: Session) {
    && |s.captures| <= MAX_CAPTURES && AllEnrolledCaptures(s.captures) && TablesMatch(s.captures, s.matches, s.spatial)
    && |s.groups| == |s.captures| && (exists roots :: Grouped(s, roots)) && Followed(s)
    && Measurable(s.metrics) && s.quality.progress == ProgressOf(|s.captures|, s.quality.latched)
  }

  // ----- One capture offered -----

  /** Which group is followed after regrouping. */
  ghost predicate Reselected(before: Selection, t: Session, roots: seq<nat>) {
    if before.group == -1 then
      && t.grouping.group == LastLarge(t.groups, |roots|, MINIMUM_GROUP)
      && t.grouping.reference == if t.grouping.group >= 0 then roots[t.grouping.group] else before.reference
    else
      && t.grouping.reference == before.reference && 0 <= before.reference < |t.groups|
      && t.grouping.group == t.groups[before.reference]
  }

  /** Behind the old records comes one record of v against each of the first n captures. */
  ghost predicate AppendsFirst(cs: seq<CaptureView>, v: CaptureView, m1: seq<CaptureMatch>, s1: seq<u16>,
                               m2: seq<CaptureMatch>, s2: seq<u16>, n: nat) {
    && n <= |cs| && |m2| == |m1| + n && m2[..|m1|] == m1 && |s2| == |s1| + n && s2[..|s1|] == s1
    && forall i: nat | i < n ::
         && EnrolledCapture(cs[i]) && EnrolledCapture(v)
         && m2[|m1| + i] == PairResult(cs[i], v) && s2[|s1| + i] == PairSpatial(cs[i], v)
  }

  /** Behind the old records comes one record of the new capture against each earlier one. */
  ghost predicate Appends(cs: seq<CaptureView>, v: CaptureView, m1: seq<CaptureMatch>, s1: seq<u16>,
                          m2: seq<CaptureMatch>, s2: seq<u16>) {
    AppendsFirst(cs, v, m1, s1, m2, s2, |cs|)
  }

  /** A capture is taken: its records are appended, the groups recomputed. */
  ghost predicate Takes(s: Session, fs: seq<Feature>, q: QualityState, t: Session) {
    && |t.captures| == |s.captures| + 1 && t.captures[..|s.captures|] == s.captures
    && FromFeatures(t.captures[|s.captures|], fs, true)
    && Appends(s.captures, t.captures[|s.captures|], s.matches, s.spatial, t.matches, t.spatial)
    && (exists roots :: Grouped(t, roots) && Reselected(s.grouping, t, roots))
    && Measurable(t.metrics)
    && (t.quality.latched <==> q.latched || EarlyEnough(|t.captures|, t.metrics))
    && t.quality == q.(latched := t.quality.latched, progress := ProgressOf(|t.captures|, t.quality.latched))
    && !t.failed
  }

  /** What was stored before is still there; at most one capture came behind it. */
  ghost predicate Extends(s: Session, t: Session) {
    && |s.captures| <= |t.captures| <= |s.captures| + 1 && t.captures[..|s.captures|] == s.captures
    && |s.matches| <= |t.matches| && t.matches[..|s.matches|] == s.matches
    && |s.spatial| <= |t.spatial| && t.spatial[..|s.spatial|] == s.spatial
  }

  /** `fpc_native_enrollment_add`, step by step. A failure part way leaves a failed session. */
  ghost predicate Adds(s: Session, p: PreparedCapture, t: Session, status: int) {
    if s.failed then t == s && status == -1
    else if |s.captures| >= MAX_CAPTURES then t == s && status == 111
    else
      var (code, q) := Judged(s.quality, p, |s.captures|, s.metrics);
      if code == -1 || Flags(p) != 0 then t == s.(quality := q) && status == code
      else if t.failed then status != 0 && t.quality == q && Extends(s, t)
      else status == 0 && Takes(s, p.features, q, t)
  }

  // ----- The growing match graph -----

  /** Table entries below the old size keep their place. */
  lemma GraphGrows(m1: seq<CaptureMatch>, n1: nat, m2: seq<CaptureMatch>, n2: nat)
    requires n1 <= n2 && |m1| == Triangle(n1) && |m1| <= |m2| && |m2| >= Triangle(n2) && m2[..|m1|] == m1
    ensures |m2| >= Triangle(n1)
    ensures forall i, j | 0 <= i < n1 && 0 <= j < n1 :: GraphOf(m2, n2)[i][j] == GraphOf(m1, n1)[i][j]
  {
    hide Triangle;
    TriangleMonotone(n1, n2);
    forall i: nat, j: nat | i < n1 && j < n1 ensures Share(m2, n2, i, j) == Share(m1, n1, i, j) {
      if i != j {
        AppendSlotInRange(if i < j then j else i, if i < j then i else j, n1);
      }
    }
  }

  /** Links survive in a larger graph. */
  lemma LinksPersist(w1: Graph, w2: Graph, i: nat, j: nat)
    requires IsGraph(w1) && IsGraph(w2) && |w1| <= |w2|
    requires forall a, b | 0 <= a < |w1| && 0 <= b < |w1| :: w2[a][b] == w1[a][b]
    requires Linked(w1, i, j)
    ensures Linked(w2, i, j)
  {
    var p: seq<nat> :| PathFromTo(w1, p, i, j);
    assert PathFromTo(w2, p, i, j);
  }

  lemma EdgesPersist(w1: Graph, w2: Graph, i: nat)
    requires IsGraph(w1) && IsGraph(w2) && |w1| <= |w2|
    requires forall a, b | 0 <= a < |w1| && 0 <= b < |w1| :: w2[a][b] == w1[a][b]
    requires HasEdge(w1, i)
    ensures HasEdge(w2, i)
  {
    var j: nat :| Edge(w1, i, j);
    assert Edge(w2, i, j);
  }

  /** Captures grouped together stay grouped together. */
  ghost predicate GroupsGrow(before: seq<int>, after: seq<int>) {
    && |before| <= |after|
    && forall i, j | 0 <= i < |before| && 0 <= j < |before| && before[i] >= 0 && before[i] == before[j] ::
         after[i] >= 0 && after[i] == after[j]
  }

  lemma ComponentsGrow(s: Session, r1: seq<nat>, t: Session, r2: seq<nat>)
    requires Grouped(s, r1) && Grouped(t, r2) && |s.captures| <= |t.captures|
    requires |s.matches| == Triangle(|s.captures|) <= |t.matches| && t.matches[..|s.matches|] == s.matches
    ensures GroupsGrow(s.groups, t.groups)
  {
    hide HasEdge, Linked, IsGraph, GraphOf, Triangle;
    var w1, w2 := MatchGraph(s), MatchGraph(t);
    GraphGrows(s.matches, |s.captures|, t.matches, |t.captures|);
    forall i: nat, j: nat | i < |s.groups| && j < |s.groups| && s.groups[i] >= 0 && s.groups[i] == s.groups[j]
      ensures t.groups[i] >= 0 && t.groups[i] == t.groups[j]
    {
      LinksPersist(w1, w2, i, j);
      EdgesPersist(w1, w2, i);
    }
  }

  lemma {:induction false} SizeGrows(before: seq<int>, g: int, after: seq<int>, h: int)
    requires |before| <= |after| && forall i | 0 <= i < |before| && before[i] == g :: after[i] == h
    ensures Size(before, g) <= Size(after, h)
    decreases |after|
  {
    if |before| < |after| {
      SizeGrows(before, g, after[..|after| - 1], h);
    } else if before != [] {
      SizeGrows(before[..|before| - 1], g, after[..|after| - 1], h);
    }
  }

  /** The followed group after a capture is taken: large, and still the reference's own. */
  lemma FollowedSurvives(s: Session, t: Session, q: QualityState, fs: seq<Feature>)
    requires Sound(s) && Takes(s, fs, q, t)
    ensures Followed(t)
    ensures GroupsGrow(s.groups, t.groups)
    ensures s.grouping.group >= 0 ==> t.grouping.reference == s.grouping.reference
  {
    hide FromFeatures, TablesMatch, AllEnrolledCaptures, IsGrouping, IsGraph, GraphOf, Triangle, Measurable,
         EarlyEnough, ProgressOf;
    var r1 :| Grouped(s, r1);
    var r2 :| Grouped(t, r2) && Reselected(s.grouping, t, r2);
    assert |s.matches| == Triangle(|s.captures|) by {
      TableSize(s);
    }
    ComponentsGrow(s, r1, t, r2);
    if s.grouping.group == -1 {
      if t.grouping.group >= 0 {
        RootsAreMembers(MatchGraph(t), t.groups, r2, t.grouping.group);
      }
    } else {
      SizeGrows(s.groups, s.grouping.group, t.groups, t.grouping.group);
    }
  }

  lemma TableSize(s: Session)
    requires Sound(s)
    ensures |s.matches| == |s.spatial| == Triangle(|s.captures|)
  {
  }

  /** Appending the records of one more capture keeps the tables complete. */
  lemma TablesExtend(s: Session, v: CaptureView, matches: seq<CaptureMatch>, spatial: seq<u16>)
    requires Sound(s) && EnrolledCapture(v) && Appends(s.captures, v, s.matches, s.spatial, matches, spatial)
    ensures AllEnrolledCaptures(s.captures + [v]) && TablesMatch(s.captures + [v], matches, spatial)
  {
    hide PairSpatial, EnrolledCapture, PairResult, Followed, Grouped, ProgressOf;
    var n, all := |s.captures|, s.captures + [v];
    TableSize(s);
    assert Triangle(n + 1) == Triangle(n) + n;
    hide Triangle;
    forall later: nat, earlier: nat | earlier < later < |all|
      ensures AppendSlot(later, earlier) < |matches|
      ensures matches[AppendSlot(later, earlier)] == PairResult(all[earlier], all[later])
      ensures spatial[AppendSlot(later, earlier)] == PairSpatial(all[earlier], all[later])
    {
      if later < n {
        AppendSlotInRange(later, earlier, n);
        assert matches[AppendSlot(later, earlier)] == matches[..|s.matches|][AppendSlot(later, earlier)];
        assert spatial[AppendSlot(later, earlier)] == spatial[..|s.spatial|][AppendSlot(later, earlier)];
      }
    }
  }

  lemma IsEnrolledCapture(v: CaptureView, fs: seq<Feature>)
    requires FromFeatures(v, fs, true)
    ensures EnrolledCapture(v)
  {
  }

  lemma GroupsPerCapture(s: Session, roots: seq<nat>)
    requires Grouped(s, roots)
    ensures |s.groups| == |s.captures|
  {
    GroupNumbers(MatchGraph(s), s.groups, roots);
  }

  /** A session that takes a capture stays sound: everything its invariant says of the new state
      follows from what it said of the old one and from what the call did. */
  lemma TakeIsSound(s: Session, fs: seq<Feature>, q: QualityState, t: Session)
    requires Sound(s) && Takes(s, fs, q, t) && |s.captures| < MAX_CAPTURES
    ensures Sound(t)
  {
    hide FromFeatures, Appends, AllEnrolledCaptures, TablesMatch, Grouped, Followed, Reselected, GroupsGrow,
         EarlyEnough, ProgressOf, Measurable;
    FollowedSurvives(s, t, q, fs);
    var v := t.captures[|s.captures|];
    IsEnrolledCapture(v, fs);
    TablesExtend(s, v, t.matches, t.spatial);
    assert t.captures == s.captures + [v];
    var roots :| Grouped(t, roots);
    GroupsPerCapture(t, roots);
  }

  /** Judging a capture touches nothing but the quality state, and keeps its progress current. */
  lemma JudgedIsSound(s: Session, p: PreparedCapture)
    requires Sound(s)
    ensures var (code, q) := Judged(s.quality, p, |s.captures|, s.metrics); Sound(s.(quality := q)) && code != -1
  {
    hide TablesMatch, AllEnrolledCaptures, EarlyEnough, ProgressOf, IsGrouping, GraphOf, IsGraph, Size, Triangle, Flags;
    var (code, q) := Judged(s.quality, p, |s.captures|, s.metrics);
    var roots :| Grouped(s, roots);
    assert Grouped(s.(quality := q), roots);
  }

  lemma RootsAreMembers(w: Graph, groups: seq<int>, roots: seq<nat>, g: nat)
    requires IsGraph(w) && IsGrouping(w, groups, roots) && g < |roots|
    ensures roots[g] < |groups| && groups[roots[g]] == g
  {
  }

  // ----- Runs -----

  /** One step of a run: one call of `fpc_native_enrollment_add`. */
  ghost predicate Step(s: Session, t: Session) {
    exists p, status :: Adds(s, p, t, status)
  }

  ghost predicate IsRun(run: seq<Session>) {
    run != [] && run[0] == Created() && forall i: nat | i + 1 < |run| :: Step(run[i], run[i + 1])
  }

  /** What one step can never undo. */
  ghost predicate Keeps(s: Session, t: Session) {
    && (s.failed ==> t.failed)
    && (s.quality.progress.complete ==> t.quality.progress.complete)
    && |s.captures| <= |t.captures| && t.captures[..|s.captures|] == s.captures
    && (!t.failed ==>
          && GroupsGrow(s.groups, t.groups)
          && (s.grouping.group >= 0 ==> t.grouping.group >= 0 && t.grouping.reference == s.grouping.reference))
  }

  lemma CreatedIsSound()
    ensures Sound(Created())
  {
    var s := Created();
    assert GraphOf(s.matches, 0) == [];
    assert Grouped(s, []);
  }

  lemma StepKeeps(s: Session, t: Session)
    requires (!s.failed ==> Sound(s)) && Step(s, t)
    ensures Keeps(s, t)
  {
    hide FromFeatures, TablesMatch, AllEnrolledCaptures, Grouped, EarlyEnough, Size;
    var p, status :| Adds(s, p, t, status);
    if !s.failed && |s.captures| < MAX_CAPTURES {
      var (code, q) := Judged(s.quality, p, |s.captures|, s.metrics);
      ProgressMeans(|s.captures|, s.quality.latched);
      if !(code == -1 || Flags(p) != 0) && !t.failed {
        FollowedSurvives(s, t, q, p.features);
        ProgressMeans(|t.captures|, t.quality.latched);
      } else {
        ProgressMeans(|s.captures|, q.latched);
      }
    }
  }

  /** A call leaves a sound session sound, or failed. */
  lemma StepIsSound(s: Session, t: Session)
    requires (!s.failed ==> Sound(s)) && Step(s, t)
    ensures !t.failed ==> Sound(t)
  {
    hide Sound, Takes, Extends, Flags;
    var p, status :| Adds(s, p, t, status);
    if !s.failed && |s.captures| < MAX_CAPTURES && !t.failed {
      var (code, q) := Judged(s.quality, p, |s.captures|, s.metrics);
      JudgedIsSound(s, p);
      if !(code == -1 || Flags(p) != 0) {
        TakeIsSound(s, p.features, q, t);
      }
    }
  }

  lemma {:induction false} RunIsSound(run: seq<Session>, i: nat)
    requires IsRun(run) && i < |run|
    ensures !run[i].failed ==> Sound(run[i])
  {
    hide Sound, Step, Created;
    CreatedIsSound();
    if i > 0 {
      RunIsSound(run, i - 1);
      assert Step(run[i - 1], run[i - 1 + 1]);
      StepIsSound(run[i - 1], run[i]);
    }
  }

  /** Over every run: a failed session stays failed, completion never reverts, captures are only
      appended, captures grouped together stay together, and once a reference is chosen it never
      changes and the followed group, which is always its component, only grows. */
  lemma {:induction false} RunKeeps(run: seq<Session>, i: nat, j: nat)
    requires IsRun(run) && i <= j < |run|
    ensures Keeps(run[i], run[j])
    decreases j
  {
    hide Sound, Step, ProgressOf, Created;
    if i < j {
      RunIsSound(run, j - 1);
      RunKeeps(run, i, j - 1);
      assert Step(run[j - 1], run[j - 1 + 1]);
      StepKeeps(run[j - 1], run[j]);
      KeepsComposes(run[i], run[j - 1], run[j]);
    }
  }

  lemma KeepsComposes(s: Session, t: Session, u: Session)
    requires Keeps(s, t) && Keeps(t, u)
    ensures Keeps(s, u)
  {
    assert u.captures[..|s.captures|] == u.captures[..|t.captures|][..|s.captures|];
  }

  /** The followed group is exactly what is linked to the reference capture. */
  ghost predicate FollowsComponent(s: Session) {
    && |s.matches| >= Triangle(|s.captures|) && IsGraph(MatchGraph(s))
    && 0 <= s.grouping.reference < |s.captures| == |s.groups|
    && forall k: nat | k < |s.groups| ::
        s.groups[k] == s.grouping.group <==> Linked(MatchGraph(s), s.grouping.reference, k)
  }

  /** In every state of every run: the pair table has n(n-1)/2 records, the followed group is
      exactly the set of captures linked to the reference, and a complete session holds seven to
      thirteen captures. */
  lemma RunStateMeans(run: seq<Session>, i: nat)
    requires IsRun(run) && i < |run| && !run[i].failed
    ensures var s := run[i]; var n := |s.captures|;
            && |s.matches| == |s.spatial| == n * (n - 1) / 2
            && (s.quality.progress.complete ==> 7 <= n <= 13)
            && (s.grouping.group >= 0 ==> FollowsComponent(s))
  {
    hide Triangle, IsGraph, GraphOf, Linked, HasEdge, FromFeatures, Size;
    var s := run[i];
    RunIsSound(run, i);
    TriangleClosedForm(|s.captures|);
    ProgressMeans(|s.captures|, s.quality.latched);
    var roots :| Grouped(s, roots);
    if s.grouping.group >= 0 {
      var w, reference := MatchGraph(s), s.grouping.reference;
      forall k: nat | k < |s.groups|
        ensures s.groups[k] == s.grouping.group <==> Linked(w, reference, k)
      {
        assert s.groups[reference] == -1 <==> !HasEdge(w, reference);
      }
    }
  }
}
