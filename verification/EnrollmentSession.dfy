/** The enrollment session object (`fpc_native_enrollment`): its arrays, and the call that offers
    it one capture. */
module EnrollmentSession {
  import opened Words
  import opened Bytes
  import opened CaptureCodec
  import opened GeometryVerification
  import opened Identification
  import opened PreparedCaptures
  import opened Grouping
  import opened GroupSelection
  import opened Enrollment

  // ----- Facts about the tables -----

  lemma {:induction false} SmallWeights(w: Graph, open: seq<bool>, i: nat, k: nat, bound: nat)
    requires IsGraph(w) && |open| == |w| && i < |w| && k <= |w|
    requires forall a, b | 0 <= a < |w| && 0 <= b < |w| :: w[a][b] <= bound
    ensures Weight(w, open, i, k) <= k * bound
  {
    if k > 0 {
      SmallWeights(w, open, i, k - 1, bound);
      assert k * bound == (k - 1) * bound + bound;
    }
  }

  /** Inliers never exceed the feature count, so no weight of a session can wrap. */
  lemma TablesFit(cs: seq<CaptureView>, matches: seq<CaptureMatch>, spatial: seq<u16>)
    requires |cs| <= MAX_CAPTURES && AllEnrolledCaptures(cs) && TablesMatch(cs, matches, spatial)
    ensures WeightsFit(matches, |cs|)
  {
    hide PairSpatial, EnrolledCapture, Triangle;
    var n := |cs|;
    var w := GraphOf(matches, n);
    forall i: nat, j: nat | i < n && j < n
      ensures 0 <= Share(matches, n, i, j) <= 300 && Share(matches, n, i, j) == Share(matches, n, j, i)
    {
      if i != j {
        var later, earlier := if i < j then j else i, if i < j then i else j;
        assert matches[AppendSlot(later, earlier)] == PairResult(cs[earlier], cs[later]);
      }
    }
    assert IsGraph(w);
    forall i: nat | i < n ensures FullWeight(w, i) < TWO_31 {
      SmallWeights(w, Everyone(n), i, n, 300);
    }
  }

  lemma TriangleStep(n: nat)
    ensures Triangle(n + 1) == Triangle(n) + n
  {
  }

  lemma ThirteenCaptures(n: nat)
    requires n <= 13
    ensures Triangle(n) <= 78
  {
    TriangleMonotone(n, 13);
    TriangleClosedForm(13);
  }

  // ----- The session -----

  class NativeEnrollment {
    var count: nat
    var pairCount: nat
    const captures: array<CaptureView>
    const matches: array<CaptureMatch>
    const spatial: array<u16>
    const groups: array<int>
    const roots: array<nat>
    var grouping: Selection
    var metrics: Metrics
    var quality: QualityState
    var failed: bool

    ghost predicate Shape()
      reads this
    {
      && captures.Length == groups.Length == roots.Length == 13 && matches.Length == spatial.Length == 78
      && groups as object != roots && groups as object != spatial && roots as object != spatial
      && count <= 13 && pairCount <= 78
    }

    ghost function State(): Session
      requires Shape()
      reads this, captures, matches, spatial, groups
    {
      Session(captures[..count], matches[..pairCount], spatial[..pairCount], groups[..count], grouping, metrics,
              quality, failed)
    }

    ghost predicate Valid()
      reads this, captures, matches, spatial, groups
    {
      Shape() && (!failed ==> Sound(State()))
    }

    constructor ()
      ensures Valid() && State() == Created()
      ensures fresh(captures) && fresh(matches) && fresh(spatial) && fresh(groups) && fresh(roots)
    {
      count, pairCount, failed := 0, 0, false;
      captures := new CaptureView[13](_ => Bare(0));
      matches := new CaptureMatch[78](_ => CaptureMatch(false, 0));
      spatial := new u16[78](_ => 0);
      groups := new int[13](_ => -1);
      roots := new nat[13](_ => 0);
      grouping, metrics := Selection(0, -1, -1), NO_METRICS;
      quality := QualityState(0, 0, false, Progress(0, 13, false));
      new;
      CreatedIsSound();
    }

    /** Stores one record behind the others. */
    method Store(record: CaptureMatch, score: u16)
      requires Shape() && pairCount < 78
      modifies matches, spatial, this`pairCount
      ensures Shape() && pairCount == old(pairCount) + 1
      ensures matches[..pairCount] == old(matches[..pairCount]) + [record]
      ensures spatial[..pairCount] == old(spatial[..pairCount]) + [score]
    {
      matches[pairCount], spatial[pairCount] := record, score;
      pairCount := pairCount + 1;
    }

    /** Matches the incoming capture against every earlier one and appends the records. The
        incoming membership bytes are passed as the target; all their bits are set already. */
    method MatchEarlier(v: CaptureView, ghost fs: seq<Feature>, memory: nat -> bool) returns (ok: bool)
      requires Shape() && count < 13 && pairCount == Triangle(count)
      requires AllEnrolledCaptures(captures[..count]) && FromFeatures(v, fs, true)
      modifies matches, spatial, this`pairCount
      ensures Shape() && pairCount >= old(pairCount)
      ensures matches[..old(pairCount)] == old(matches[..pairCount]) &&
              spatial[..old(pairCount)] == old(spatial[..pairCount])
      ensures ok ==> Appends(captures[..count], v, old(matches[..pairCount]), old(spatial[..pairCount]),
                             matches[..pairCount], spatial[..pairCount])
      ensures (forall k :: memory(k)) ==> ok
    {
      hide FromFeatures, Member, EnrolledCapture, PairResult, PairSpatial, Triangle, AppendsFirst, Appends,
           AllEnrolledCaptures;
      ThirteenCaptures(count + 1);
      TriangleStep(count);
      IsEnrolledCapture(v, fs);
      ghost var n, before, cs := count, pairCount, captures[..count];
      ghost var m1, s1 := matches[..pairCount], spatial[..pairCount];
      NothingAppended(cs, v, m1, s1);
      ghost var marks := v.membership;
      var target := new u8[|v.membership|](k requires 0 <= k < |v.membership| => v.membership[k]);
      assert target[..] == marks;
      for i := 0 to count
        invariant count == n && pairCount == before + i
        invariant target[..] == marks
        invariant AppendsFirst(cs, v, m1, s1, matches[..pairCount], spatial[..pairCount], i)
        modifies matches, spatial, this`pairCount, target
      {
        EnrolledAt(cs, i);
        var done, record, score := Compare(captures[i], v, fs, target, memory(i));
        if !done {
          StillThere(cs, v, m1, s1, matches[..pairCount], spatial[..pairCount], i);
          return false;
        }
        OneMoreAppended(cs, v, m1, s1, matches[..pairCount], spatial[..pairCount], i);
        Store(record, score);
      }
      StillThere(cs, v, m1, s1, matches[..pairCount], spatial[..pairCount], n);
      return true;
    }

    /** Regroups after a capture was appended, and keeps following the same reference. */
    method Regroup(ghost s: Session) returns (ok: bool, ghost heavy: seq<nat>)
      requires Shape() && 0 < count && Sound(s) && |s.captures| < count && grouping == s.grouping
      requires AllEnrolledCaptures(captures[..count]) &&
               TablesMatch(captures[..count], matches[..pairCount], spatial[..pairCount])
      requires |s.matches| <= pairCount && matches[..|s.matches|] == s.matches
      modifies groups, roots, this`grouping
      ensures Shape()
      ensures ok ==> Grouped(State(), heavy) && Reselected(s.grouping, State(), heavy)
    {
      hide FromFeatures, IsGrouping, IsGraph, GraphOf, FullWeight, Triangle, Size, PairResult, PairSpatial,
           EnrolledCapture, TablesMatch, LastLarge;
      TablesFit(captures[..count], matches[..pairCount], spatial[..pairCount]);
      TablesSize(captures[..count], matches[..pairCount], spatial[..pairCount]);
      ghost var before := spatial[..pairCount];
      var chosen, state;
      ok, state, chosen, heavy :=
          RebuildGroups(matches[..pairCount], count, MINIMUM_GROUP, false, groups, roots, grouping);
      assert spatial[..pairCount] == before;
      grouping := state;
      if ok {
        assert Grouped(State(), heavy);
        ReferenceStays(s, State(), heavy);
      }
    }

    /** Appends the view and its records. */
    method Append(v: CaptureView, ghost fs: seq<Feature>, memory: nat -> bool) returns (ok: bool)
      requires Valid() && !failed && count < 13 && FromFeatures(v, fs, true)
      modifies captures, matches, spatial, this`count, this`pairCount
      ensures Shape() && Extends(old(State()), State())
      ensures ok ==> captures[..count] == old(captures[..count]) + [v] && count == old(count) + 1
      ensures ok ==> Appends(old(State()).captures, v, old(State()).matches, old(State()).spatial,
                             matches[..pairCount], spatial[..pairCount])
      ensures ok ==>
                AllEnrolledCaptures(captures[..count]) &&
                    TablesMatch(captures[..count], matches[..pairCount], spatial[..pairCount])
    {
      hide FromFeatures, EnrolledCapture, PairResult, PairSpatial, Triangle, Followed, Grouped, ProgressOf, Appends;
      ghost var s := State();
      TableSize(s);
      IsEnrolledCapture(v, fs);
      captures[count] := v;
      assert captures[..count] == s.captures && matches[..pairCount] == s.matches && spatial[..pairCount] == s.spatial;
      ok := MatchEarlier(v, fs, memory);
      if ok {
        TablesExtend(s, v, matches[..pairCount], spatial[..pairCount]);
        assert captures[..count + 1] == s.captures + [v];
        count := count + 1;
      }
    }

    /** Takes a capture that passed the quality gate. */
    method Take(p: PreparedCapture, memory: nat -> bool, measured: Option<Metrics>) returns (status: int)
      requires Valid() && !failed && count < 13
      modifies this, captures, matches, spatial, groups, roots
      ensures Shape()
      ensures status == 0 ==> !failed && Takes(old(State()), p.features, old(quality), State()) && Sound(State())
      ensures status != 0 ==> failed && quality == old(quality) && Extends(old(State()), State())
    {
      hide FromFeatures, TablesMatch, AllEnrolledCaptures, Grouped, Followed, ProgressOf, EarlyEnough, Extends, Appends;
      ghost var s := State();
      ExtendsStored(s, s, s);
      var view := FromPrepared(p, true, memory(0));
      var ok := view.Some?;
      ghost var heavy;
      if ok {
        ok := Append(view.value, p.features, (k: nat) => memory(k + 1));
      }
      ghost var appended := State();
      ExtendsStored(s, appended, appended);
      if ok {
        ok, heavy := Regroup(s);
      }
      if ok && measured.Some? {
        metrics := measured.value;
      }
      if !ok || measured.None? || !Measurable(metrics) {
        failed := true;
        ExtendsStored(s, appended, State());
        return -1;
      }
      var latched := quality.latched || EarlyEnough(count, metrics);
      quality := quality.(latched := latched, progress := ProgressOf(count, latched));
      ghost var t := State();
      GroupedIgnoresQuality(t, t.(metrics := s.metrics, quality := s.quality), s.grouping, heavy);
      TakeIsSound(s, p.features, s.quality, t);
      return 0;
    }

    /** `fpc_native_enrollment_add`; `memory(k)` tells whether allocation k succeeds, and
        `measured` carries the floating-point measurements, if they could be taken. */
    method Add(p: PreparedCapture, memory: nat -> bool, measured: Option<Metrics>) returns (status: int, flags: nat)
      requires Valid()
      modifies this, captures, matches, spatial, groups, roots
      ensures Valid() && Adds(old(State()), p, State(), status) && Step(old(State()), State())
      ensures flags == if old(failed) || old(count) >= MAX_CAPTURES then 0 else Flags(p)
    {
      hide FromFeatures, TablesMatch, AllEnrolledCaptures, Grouped, Followed, EarlyEnough, Reselected, Takes, Extends;
      ghost var s := State();
      if failed {
        return -1, 0;
      }
      if count >= MAX_CAPTURES {
        return 111, 0;
      }
      var (code, q) := Judged(quality, p, count, metrics);
      JudgedIsSound(State(), p);
      quality := q;
      flags := Flags(p);
      if code == -1 || flags != 0 {
        return code, flags;
      }
      assert State() == s.(quality := q);
      status := Take(p, memory, measured);
      TakingIgnoresQuality(s, q, p.features, State());
    }
  }

  /** One comparison; the bits it would set on the incoming capture are set already. */
  method Compare(earlier: CaptureView, v: CaptureView, ghost fs: seq<Feature>, target: array<u8>, memory: bool)
    returns (ok: bool, record: CaptureMatch, score: u16)
    requires EnrolledCapture(earlier) && EnrolledCapture(v) && FromFeatures(v, fs, true) &&
             target.Length == |v.membership|
    requires target[..] == v.membership
    modifies target
    ensures target[..] == v.membership
    ensures ok ==> record == PairResult(earlier, v) && score == PairSpatial(earlier, v)
    ensures memory ==> ok
  {
    hide Member, Matched, Prepared, Shaped, Profile300, EnrolledCapture, MatchMarks, Coordinates, DescriptorBytes;
    EnrolledCaptureIsUsable(v);
    EnrolledCaptureIsUsable(earlier);
    MatchedFits(earlier, v);
    EnrolledMarks(earlier, v, fs);
    var done, pairs, geometry := MatchCaptures(earlier, v, target, 300, memory);
    SameMembersSameBytes(target[..], v.membership);
    if !done {
      return false, CaptureMatch(false, 0), 0;
    }
    return true, CaptureMatch(geometry.success, if geometry.success then geometry.inliers else 0),
        geometry.spatialInliers;
  }

  lemma TablesSize(cs: seq<CaptureView>, matches: seq<CaptureMatch>, spatial: seq<u16>)
    requires AllEnrolledCaptures(cs) && TablesMatch(cs, matches, spatial)
    ensures |matches| == Triangle(|cs|)
  {
  }

  /** The reference capture keeps its links, so it stays in some group. */
  lemma ReferenceStays(s: Session, t: Session, heavy: seq<nat>)
    requires Sound(s) && Grouped(t, heavy) && |s.captures| <= |t.captures|
    requires |s.matches| <= |t.matches| && t.matches[..|s.matches|] == s.matches
    ensures s.grouping.group >= 0 ==> ReferenceGrouped(t.groups, s.grouping.reference)
  {
    hide FromFeatures, IsGrouping, IsGraph, GraphOf, Triangle, Size, AllEnrolledCaptures;
    var r1 :| Grouped(s, r1);
    ComponentsGrow(s, r1, t, heavy);
  }

  /** Only what is stored decides whether a session extends another. */
  lemma ExtendsStored(s: Session, t: Session, u: Session)
    requires t.captures == u.captures && t.matches == u.matches && t.spatial == u.spatial
    ensures Extends(s, s) && Extends(s, t) == Extends(s, u)
    ensures Extends(s, t) ==> |s.matches| <= |t.matches| && t.matches[..|s.matches|] == s.matches
  {
  }

  lemma EnrolledAt(cs: seq<CaptureView>, i: nat)
    requires AllEnrolledCaptures(cs) && i < |cs|
    ensures EnrolledCapture(cs[i])
  {
  }

  lemma NothingAppended(cs: seq<CaptureView>, v: CaptureView, m: seq<CaptureMatch>, s: seq<u16>)
    ensures AppendsFirst(cs, v, m, s, m, s, 0)
  {
  }

  lemma OneMoreAppended(cs: seq<CaptureView>, v: CaptureView, m1: seq<CaptureMatch>, s1: seq<u16>,
                        m2: seq<CaptureMatch>, s2: seq<u16>, n: nat)
    requires AppendsFirst(cs, v, m1, s1, m2, s2, n) && n < |cs| && EnrolledCapture(cs[n]) && EnrolledCapture(v)
    ensures AppendsFirst(cs, v, m1, s1, m2 + [PairResult(cs[n], v)], s2 + [PairSpatial(cs[n], v)], n + 1)
  {
    hide EnrolledCapture, PairResult, PairSpatial;
  }

  lemma StillThere(cs: seq<CaptureView>, v: CaptureView, m1: seq<CaptureMatch>, s1: seq<u16>,
                   m2: seq<CaptureMatch>, s2: seq<u16>, n: nat)
    requires AppendsFirst(cs, v, m1, s1, m2, s2, n)
    ensures n == |cs| ==> Appends(cs, v, m1, s1, m2, s2)
    ensures |m1| <= |m2| && m2[..|m1|] == m1 && |s1| <= |s2| && s2[..|s1|] == s1
  {
  }

  lemma GroupedIgnoresQuality(t: Session, u: Session, before: Selection, heavy: seq<nat>)
    requires t.matches == u.matches && t.captures == u.captures && t.groups == u.groups && t.grouping == u.grouping
    ensures Grouped(t, heavy) == Grouped(u, heavy) && Reselected(before, t, heavy) == Reselected(before, u, heavy)
  {
  }

  /** The judged quality state is not what taking a capture starts from. */
  lemma TakingIgnoresQuality(s: Session, q: QualityState, fs: seq<Feature>, t: Session)
    ensures Takes(s.(quality := q), fs, q, t) == Takes(s, fs, q, t) && Extends(s.(quality := q), t) == Extends(s, t)
  {
    hide FromFeatures, Appends, Grouped, Reselected, EarlyEnough, ProgressOf;
  }
}
