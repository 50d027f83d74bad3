/** Turning a completed session into a template (`fpc_retained_graph_create`,
    `fpc_native_enrollment_finish`), and what that template is the start of. */
module EnrollmentFinish {
  import opened Words
  import opened Bytes
  import opened Pairs
  import opened Redundancy
  import opened CaptureCodec
  import opened TemplateCodec
  import opened Retention
  import opened RetentionRuns
  import opened Identification
  import opened PreparedCaptures
  import Grouping
  import Enrollment
  import EnrollmentSession

  // ----- The retained graph -----

  function Larger(a: nat, b: nat): nat {
    if a > b then a else b
  }

  /** Scores of the pairs before (later, earlier), in arrival order, moved to the packed graph. */
  ghost predicate Moved(scores: seq<u16>, capacity: nat, pairs: seq<u16>, used: nat, later: nat, earlier: nat)
    requires |scores| == Triangle(capacity) && used <= capacity && |pairs| >= Triangle(used)
  {
    forall i: nat, j: nat | i < j < capacity ::
      Entry(scores, capacity, i, j) ==
      if j < used && (j < later || (j == later && i < earlier)) then PairScore(pairs, used, i, j) else 0
  }

  function PairScore(pairs: seq<u16>, used: nat, i: nat, j: nat): u16
    requires |pairs| >= Triangle(used) && i < j < used
  {
    AppendSlotInRange(j, i, used);
    pairs[AppendSlot(j, i)]
  }

  method MoveScore(scores: array<u16>, capacity: nat, pairs: seq<u16>, used: nat, later: nat, earlier: nat)
    requires scores.Length == Triangle(capacity) && used <= capacity && |pairs| >= Triangle(used) &&
             earlier < later < used
    requires Moved(scores[..], capacity, pairs, used, later, earlier)
    modifies scores
    ensures Moved(scores[..], capacity, pairs, used, later, earlier + 1)
  {
    hide PairIndex, Triangle;
    PairIndexInRange(capacity, earlier, later);
    ghost var was := scores[..];
    scores[PairIndex(capacity, earlier, later)] := PairScore(pairs, used, earlier, later);
    assert scores[..] == was[PairIndex(capacity, earlier, later) := PairScore(pairs, used, earlier, later)];
    forall i: nat, j: nat | i < j < capacity
      ensures Entry(scores[..], capacity, i, j) ==
              if (i, j) == (earlier, later) then PairScore(pairs, used, earlier, later) else Entry(was, capacity, i, j)
    {
      PairIndexInRange(capacity, i, j);
      if PairIndex(capacity, i, j) == PairIndex(capacity, earlier, later) {
        PairIndexInjective(capacity, i, j, earlier, later);
      }
    }
  }

  lemma RowMoved(scores: seq<u16>, capacity: nat, pairs: seq<u16>, used: nat, later: nat)
    requires |scores| == Triangle(capacity) && used <= capacity && |pairs| >= Triangle(used)
    requires Moved(scores, capacity, pairs, used, later, later)
    ensures Moved(scores, capacity, pairs, used, later + 1, 0)
  {
    hide Entry, PairScore, Triangle;
  }

  lemma BlankMoved(scores: seq<u16>, capacity: nat, pairs: seq<u16>, used: nat)
    requires |scores| == Triangle(capacity) && used <= capacity && |pairs| >= Triangle(used)
    requires forall k | 0 <= k < |scores| :: scores[k] == 0
    ensures Moved(scores, capacity, pairs, used, 1, 0)
  {
    hide PairIndex, Triangle;
    forall i: nat, j: nat | i < j < capacity ensures Entry(scores, capacity, i, j) == 0 {
      PairIndexInRange(capacity, i, j);
    }
  }

  /** A graph over the first `used` slots with nothing matched yet. */
  ghost predicate Fresh(g: Graph, pairs: seq<u16>, used: nat, retention: nat, protection: u16) {
    && GraphShape(g) && g.used == used && g.capacity == Larger(used, retention)
    && g.protectedCount == g.protectedLimit == protection && g.ageThreshold == 3 * g.capacity % 0x1_0000
    && g.order == seq(g.capacity, i requires 0 <= i < g.capacity => i)
    && g.ages == seq(g.capacity, i => 2 * retention % 0x1_0000)
    && |pairs| >= Triangle(used) && Moved(g.scores, g.capacity, pairs, used, Larger(1, used), 0)
  }

  /** `fpc_retained_graph_create`. */
  method GraphCreate(pairs: seq<u16>, used: nat, retention: u8, protection: u16, memory: bool)
    returns (status: int, g: Graph)
    ensures status == if used > 80 || (used > 1 && |pairs| < Triangle(used)) || Larger(used, retention) < 2 then -1
                      else if !memory then 2 else 0
    ensures status == 0 ==> Fresh(g, pairs, used, retention, protection)
  {
    hide Moved, Triangle;
    g := Graph(0, 0, 0, 0, 0, [], [], []);
    if used > 80 || (used > 1 && |pairs| < Triangle(used)) {
      return -1, g;
    }
    var capacity := Larger(used, retention);
    if capacity < 2 {
      return -1, g;
    }
    if !memory {
      return 2, g;
    }
    var scores := new u16[Triangle(capacity)](_ => 0);
    assert |pairs| >= Triangle(used) by {
      SmallTriangles();
    }
    BlankMoved(scores[..], capacity, pairs, used);
    for later := 1 to Larger(1, used)
      invariant Moved(scores[..], capacity, pairs, used, later, 0)
    {
      for earlier := 0 to later
        invariant Moved(scores[..], capacity, pairs, used, later, earlier)
      {
        MoveScore(scores, capacity, pairs, used, later, earlier);
      }
      RowMoved(scores[..], capacity, pairs, used, later);
    }
    g := Graph(used, capacity, protection, protection, 3 * capacity % 0x1_0000,
               seq(capacity, i requires 0 <= i < capacity => i), scores[..],
               seq(capacity, i => 2 * retention % 0x1_0000));
    return 0, g;
  }

  lemma SmallTriangles()
    ensures Triangle(0) == 0 && Triangle(1) == 0
  {
  }

  // ----- The template of a finished session -----

  /** Spatial score of two captures, as a total function. */
  ghost function LiveSpatial(): Spatial {
    (a: CaptureView, b: CaptureView) =>
      if Shaped(a) && Enrolled(a) && Shaped(b) && Profile300(b) then SpatialScore(a, b) else 0
  }

  /** What finishing a session with these captures establishes. */
  ghost predicate Established(cs: seq<CaptureView>, t: Template) {
    && Enrollment.AllEnrolledCaptures(cs) && t.collection == Collection(cs, 32) && t.metadata == 0
    && WellFormedTemplate(t, 32) && t.graph.used == |cs| && t.graph.capacity == 32
    && t.graph.protectedCount == t.graph.protectedLimit == 8 && t.graph.ageThreshold == 96
    && t.graph.ages == seq(32, i => 64)
    && Arranges(t.graph.order, |cs|)
    && StablyAscending(t.graph.order, Costs(t.graph.scores, |cs|), |cs|)
    && (forall i: nat, j: nat | i < j < |cs| :: Entry(t.graph.scores, 32, i, j) == LiveSpatial()(cs[i], cs[j]))
  }

  ghost function Costs(scores: seq<u16>, used: nat): (c: seq<u32>)
    requires used <= 32 && |scores| == Triangle(32)
    ensures |c| == used
  {
    seq(used, i requires 0 <= i < used => GraphCost(scores, 32, used, i))
  }

  lemma CapturesFit(cs: seq<CaptureView>)
    requires Enrollment.AllEnrolledCaptures(cs)
    ensures AllWellFormed(cs) && CapturesSize(cs) <= 5468 * |cs|
    decreases |cs|
  {
    hide WellFormed, Payload;
    forall i | 0 <= i < |cs| ensures WellFormed(cs[i], DEFAULT_FORMAT) && |PayloadOf(cs[i])| <= 5456 {
      assert Enrollment.EnrolledCapture(cs[i]);
      var fs :| FromFeatures(cs[i], fs, true);
      ViewIsUsable(cs[i], fs, true);
    }
    if cs != [] {
      CapturesFit(cs[1..]);
    }
  }

  lemma FreshIsWellFormed(cs: seq<CaptureView>, g: Graph)
    requires Enrollment.AllEnrolledCaptures(cs) && 1 <= |cs| <= 32
    requires GraphShape(g) && g.used == |cs| && g.capacity == 32 && |g.ages| == 32
    ensures WellFormedTemplate(Template(g, Collection(cs, 32), 0), 32)
  {
    hide WellFormed, Enrollment.AllEnrolledCaptures, Triangle, CapturesSize;
    CapturesFit(cs);
    TriangleClosedForm(32);
  }

  /** Entries agree with the live scores because the session's table does. */
  lemma EntriesAreLive(cs: seq<CaptureView>, matches: seq<Grouping.CaptureMatch>, spatial: seq<u16>, scores: seq<u16>)
    requires Enrollment.AllEnrolledCaptures(cs) && Enrollment.TablesMatch(cs, matches, spatial) && |cs| <= 32
    requires |scores| == Triangle(32) && Moved(scores, 32, spatial, |cs|, Larger(1, |cs|), 0)
    ensures forall i: nat, j: nat | i < j < |cs| :: Entry(scores, 32, i, j) == LiveSpatial()(cs[i], cs[j])
  {
    hide Triangle, Entry, SpatialScore, Enrollment.PairResult;
    forall i: nat, j: nat | i < j < |cs| ensures Entry(scores, 32, i, j) == LiveSpatial()(cs[i], cs[j]) {
      Enrollment.EnrolledCaptureIsUsable(cs[i]);
      Enrollment.EnrolledCaptureIsUsable(cs[j]);
      assert Enrollment.PairSpatial(cs[i], cs[j]) == SpatialScore(cs[i], cs[j]);
    }
  }

  /** `fpc_native_enrollment_finish`: succeeds, memory permitting, exactly on a complete session
      that has not failed, into a template not yet in use. */
  method Finish(s: EnrollmentSession.NativeEnrollment, inUse: bool, memory: nat -> bool)
    returns (status: int, t: Option<Template>)
    requires s.Valid()
    ensures status == 0 ==> !s.failed && s.quality.progress.complete && !inUse && t.Some?
    ensures !s.failed && s.quality.progress.complete && !inUse && (forall k :: memory(k)) ==> status == 0
    ensures status == 0 ==> 7 <= s.count <= 13 && Established(s.captures[..s.count], t.value)
  {
    hide FromFeatures, Enrollment.PairResult, Enrollment.PairSpatial, Enrollment.Grouped, Enrollment.Followed,
         Enrollment.ProgressOf, Triangle, Moved, Enrollment.EnrolledCapture, Print, Load, StablyAscending, GraphCost;
    t := None;
    if s.failed || !s.quality.progress.complete || inUse {
      return -1, t;
    }
    Enrollment.ProgressMeans(s.count, s.quality.latched);
    ghost var cs := s.captures[..s.count];
    var g;
    status, g := GraphCreate(s.spatial[..s.pairCount], s.count, 32, 8, memory(0));
    if status != 0 {
      return status, t;
    }
    var order := new u16[g.capacity](i requires 0 <= i < |g.order| => g.order[i]);
    status := InitialOrder(g.scores, g.used, g.capacity, order, memory(1));
    if status != 0 {
      return status, t;
    }
    g := g.(order := order[..]);
    EntriesAreLive(cs, s.matches[..s.pairCount], s.spatial[..s.pairCount], g.scores);
    FreshIsWellFormed(cs, g);
    var built := Template(g, Collection(s.captures[..s.count], 32), 0);
    if !memory(2) {
      return 2, t;
    }
    LoadOfPrint(built, 32);
    if !memory(3) {
      return 2, t;
    }
    return 0, Load(Print(built, 32), 32);
  }

  // ----- The first state of every run of updates -----

  /** History of a template fresh from enrollment: captures arrived in slot order, ages start
      at twice the retention capacity. */
  function FirstState(t: Template): Tracked {
    var n := |t.collection.captures|;
    Tracked(t, seq(n, i => i), n, seq(n, i => Mark(64, 0)), 0)
  }

  lemma EstablishedStartsRuns(cs: seq<CaptureView>, t: Template)
    requires Established(cs, t)
    ensures Linked(FirstState(t)) && Mirrors(FirstState(t), LiveSpatial())
    ensures AgesExact(FirstState(t)) && Distinct(t.graph.order)
  {
    hide WellFormed, CapturesSize, StablyAscending, Enrollment.AllEnrolledCaptures, Entry, Triangle;
  }

  /** From enrollment through every run of updates: the graph mirrors the captures, the ages are
      exact, and the captures in the first eight places of the initial order, the cheapest ones,
      are never replaced. */
  lemma EnrolledTemplateForLife(cs: seq<CaptureView>, t: Template, attempts: seq<Attempt>, policy: UpdatePolicy)
    requires Established(cs, t) && policy.protection == 8
    ensures Linked(FirstState(t))
    ensures var last := Run(FirstState(t), attempts, policy, LiveSpatial());
            && Linked(last) && Mirrors(last, LiveSpatial()) && AgesExact(last)
            && last.t.graph.order == t.graph.order
            && forall k | 0 <= k < 8 && t.graph.order[k] < |cs| ::
                 t.graph.order[k] < |last.t.collection.captures| &&
                     last.t.collection.captures[t.graph.order[k]] == cs[t.graph.order[k]]
  {
    hide Mirrors, AgesExact, Run, StablyAscending, Enrollment.AllEnrolledCaptures, WellFormed, CapturesSize;
    EstablishedStartsRuns(cs, t);
    RunKeepsMirror(FirstState(t), attempts, policy, LiveSpatial());
    RunKeepsAges(FirstState(t), attempts, policy, LiveSpatial());
    RunProtects(FirstState(t), attempts, policy, LiveSpatial());
  }
}
