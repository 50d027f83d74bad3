/** The whole geometry check (`fpc_verify_geometry_profile300`): consensus, spatial filter,
    movement filter, membership score and the marks left on the target. */
module GeometryVerification {
  import opened Words
  import opened Bytes
  import opened Similarity
  import opened Geometry
  import opened Matching

  datatype GeometryResult = GeometryResult(
    transform: Transform, inliers: nat, spatialInliers: nat, lowMovement: bool, success: bool)

  const ZEROED: GeometryResult := GeometryResult(NO_TRANSFORM, 0, 0, false, false)

  // ----- Membership bits -----

  function Mask(k: nat): bv8 {
    if k == 0 then 1 else if k == 1 then 2 else if k == 2 then 4 else if k == 3 then 8
    else if k == 4 then 16 else if k == 5 then 32 else if k == 6 then 64 else 128
  }

  predicate IsSet(w: bv8, k: nat) {
    w & Mask(k) != 0
  }

  function Raised(w: bv8, k: nat): bv8 {
    w | Mask(k)
  }

  predicate Bit(b: u8, k: nat) {
    IsSet(Bits(b), k)
  }

  function WithBit(b: u8, k: nat): u8 {
    Value(Raised(Bits(b), k))
  }

  lemma MasksAreSeparate(w: bv8, k: nat, j: nat)
    requires k < 8 && j < 8
    ensures IsSet(Raised(w, k), j) <==> (j == k || IsSet(w, j))
  {
  }

  function Bits(b: u8): bv8 {
    b as bv8
  }

  function Value(w: bv8): u8 {
    w as int
  }

  lemma BitsOfValue(w: bv8)
    ensures Bits(Value(w)) == w
  {
  }

  lemma WithBitSetsOne(b: u8, k: nat, j: nat)
    requires k < 8 && j < 8
    ensures Bit(WithBit(b, k), j) <==> (j == k || Bit(b, j))
  {
    hide IsSet, Raised, Bits, Value;
    MasksAreSeparate(Bits(b), k, j);
    BitsOfValue(Raised(Bits(b), k));
  }

  /** Bit i of a membership string. */
  predicate Member(m: Bytes, i: nat) {
    i / 8 < |m| && Bit(m[i / 8], i % 8)
  }

  // ----- Movement -----

  function Horizontal(p: Point): nat {
    Magnitude(p.x - p.targetX)
  }

  function Vertical(p: Point): nat {
    Magnitude(p.y - p.targetY)
  }

  /** Summed displacement of the flagged points below n, along x and along y. */
  function Movement(points: Points, flags: seq<bool>, n: nat): (nat, nat)
    requires n <= |points| == |flags|
  {
    if n == 0 then (0, 0)
    else
      var (sx, sy) := Movement(points, flags, n - 1);
      if flags[n - 1] then (sx + Horizontal(points[n - 1]), sy + Vertical(points[n - 1])) else (sx, sy)
  }

  /** The sums stay below 2^31, so the C accumulators cannot overflow. */
  lemma {:induction false} MovementFits(points: Points, flags: seq<bool>, n: nat)
    requires n <= |points| == |flags|
    ensures Movement(points, flags, n).0 <= 0xffff * n && Movement(points, flags, n).1 <= 0xffff * n
    ensures n <= 32767 ==> Movement(points, flags, n).0 < 0x8000_0000 && Movement(points, flags, n).1 < 0x8000_0000
  {
    if n > 0 {
      MovementFits(points, flags, n - 1);
    }
  }

  /** Flagged points that move less than two pixels on average along one axis. */
  predicate Still(points: Points, flags: seq<bool>)
    requires |points| == |flags|
  {
    var n := CountTrue(flags);
    n > 0 && (Movement(points, flags, |points|).0 / n < 32 || Movement(points, flags, |points|).1 / n < 32)
  }

  function Cleared(n: nat): seq<bool> {
    seq(n, i => false)
  }

  lemma {:induction false} ClearedCount(n: nat)
    ensures CountTrue(Cleared(n)) == 0
  {
    if n > 0 {
      ClearedCount(n - 1);
      assert Cleared(n)[..n - 1] == Cleared(n - 1);
    }
  }

  // ----- Specification -----

  predicate Addressable(pairs: seq<Candidate>, sourceBytes: nat, targetBytes: nat) {
    forall i | 0 <= i < |pairs| :: pairs[i].first / 8 < sourceBytes && pairs[i].second / 8 < targetBytes
  }

  function ConsensusFlags(points: Points, t: Transform): (flags: seq<bool>)
    ensures |flags| == |points|
  {
    seq(|points|, i requires 0 <= i < |points| => Inlier(points[i], t))
  }

  /** Flags after the spatial filter. */
  ghost function Kept(points: Points): (flags: seq<bool>)
    requires 0 < |points|
    ensures |flags| == |points|
  {
    SpatialFlags(points, ConsensusFlags(points, BestConsensus(points).transform))
  }

  /** Flags after the movement filter. */
  ghost function Final(points: Points): (flags: seq<bool>)
    requires 0 < |points|
    ensures |flags| == |points|
  {
    if Still(points, Kept(points)) then Cleared(|points|) else Kept(points)
  }

  /** Flagged pairs below n whose first feature is enrolled. */
  function MemberCount(pairs: seq<Candidate>, flags: seq<bool>, source: Bytes, n: nat): (r: nat)
    requires n <= |pairs| == |flags|
  {
    if n == 0 then 0
    else MemberCount(pairs, flags, source, n - 1) + if flags[n - 1] && Member(source, pairs[n - 1].first) then 1 else 0
  }

  /** The result record. Nothing in it reads the target's membership. */
  ghost function Verified(points: Points, pairs: seq<Candidate>, source: Bytes, prior: GeometryResult): GeometryResult
    requires |pairs| == |points|
  {
    if |points| < 8 then prior.(success := false)
    else
      var search := BestConsensus(points);
      if search.best == 0 then
        prior.(transform := search.transform, inliers := 0, spatialInliers := 0, success := false)
      else
        var members := MemberCount(pairs, Final(points), source, |points|);
        GeometryResult(search.transform,
                       if members < 4 then members else CountTrue(Final(points)),
                       CountTrue(Kept(points)),
                       Still(points, Kept(points)),
                       search.best >= 8)
  }

  /** Point k leaves a mark on the target: it is flagged and displaced far enough. */
  ghost predicate Marking(points: Points, flags: seq<bool>, k: nat)
    requires |flags| == |points|
  {
    k < |points| && flags[k] && SignedNorm(points[k].x - points[k].targetX, points[k].y - points[k].targetY) >= 768
  }

  /** Target features that points below n mark. */
  ghost function Marks(points: Points, pairs: seq<Candidate>, flags: seq<bool>, n: nat): set<nat>
    requires n <= |points| == |pairs| == |flags|
  {
    set k: nat | k < n && Marking(points, flags, k) :: pairs[k].second as nat
  }

  /** Whether the check marks the target at all. */
  ghost predicate Updates(points: Points, pairs: seq<Candidate>, source: Bytes)
    requires |pairs| == |points|
  {
    |points| >= 8 && BestConsensus(points).best > 0 && MemberCount(pairs, Final(points), source, |points|) >= 4
  }

  ghost function NewMarks(points: Points, pairs: seq<Candidate>, source: Bytes): set<nat>
    requires |pairs| == |points|
  {
    if Updates(points, pairs, source) then Marks(points, pairs, Final(points), |points|) else {}
  }

  // ----- What the score says -----

  lemma {:induction false} SubsetCounts(a: seq<bool>, b: seq<bool>)
    requires |a| == |b| && forall i | 0 <= i < |a| && a[i] :: b[i]
    ensures CountTrue(a) <= CountTrue(b)
  {
    if a != [] {
      SubsetCounts(a[..|a| - 1], b[..|b| - 1]);
    }
  }

  lemma {:induction false} ConsensusCount(points: Points, t: Transform, n: nat)
    requires n <= |points|
    ensures CountTrue(ConsensusFlags(points, t)[..n]) == CountInliers(points, t, n)
  {
    hide Inlier;
    if n > 0 {
      ConsensusCount(points, t, n - 1);
      assert ConsensusFlags(points, t)[..n][..n - 1] == ConsensusFlags(points, t)[..n - 1];
    }
  }

  lemma {:induction false} MembersAmongFlags(pairs: seq<Candidate>, flags: seq<bool>, source: Bytes, n: nat)
    requires n <= |pairs| == |flags|
    ensures MemberCount(pairs, flags, source, n) <= CountTrue(flags[..n])
  {
    if n > 0 {
      MembersAmongFlags(pairs, flags, source, n - 1);
      assert flags[..n][..n - 1] == flags[..n - 1];
    }
  }

  /** The spatial score is the size of the first-come maximal well-separated subset of the best
      consensus; the score never exceeds it, it vanishes when the finger did not move, and it
      reaches four only when at least four flagged pairs are enrolled. */
  lemma ScoreMeaning(points: Points, pairs: seq<Candidate>, source: Bytes, prior: GeometryResult)
    requires |pairs| == |points| && |points| >= 8 && BestConsensus(points).best > 0
    ensures var r := Verified(points, pairs, source, prior);
            && r.spatialInliers == CountTrue(Kept(points))
            && FirstComeMaximal(points, ConsensusFlags(points, r.transform), Kept(points))
            && r.inliers <= r.spatialInliers <= BestConsensus(points).best ==
                CountTrue(ConsensusFlags(points, r.transform))
            && (r.lowMovement ==> r.inliers == 0)
            && (r.inliers >= 4 <==> MemberCount(pairs, Final(points), source, |points|) >= 4)
            && (r.success <==> CountTrue(ConsensusFlags(points, r.transform)) >= 8)
  {
    hide Inlier, BestConsensus, Movement, Member;
    BestIsRunning(points);
    var search := BestConsensus(points);
    var consensus := ConsensusFlags(points, search.transform);
    SpatialFlagsExactly(points, consensus, Kept(points));
    ConsensusCount(points, search.transform, |points|);
    assert consensus[..|points|] == consensus;
    SubsetCounts(Kept(points), consensus);
    ClearedCount(|points|);
    MembersAmongFlags(pairs, Final(points), source, |points|);
    assert Final(points)[..|points|] == Final(points);
  }

  lemma BestIsRunning(points: Points)
    requires 0 < |points|
    ensures Running(points, BestConsensus(points))
  {
    hide SearchFrom;
    StartRuns(points);
    SearchEnds(points, Start());
  }

  // ----- The check -----

  method SumMovement(points: Points, flags: array<bool>) returns (sx: nat, sy: nat)
    requires flags.Length == |points|
    ensures (sx, sy) == Movement(points, flags[..], |points|)
  {
    sx, sy := 0, 0;
    for i := 0 to |points|
      invariant (sx, sy) == Movement(points, flags[..], i)
    {
      if flags[i] {
        sx := sx + Horizontal(points[i]);
        sy := sy + Vertical(points[i]);
      }
    }
  }

  method CountMembers(pairs: seq<Candidate>, flags: array<bool>, source: Bytes) returns (members: nat)
    requires flags.Length == |pairs|
    ensures members == MemberCount(pairs, flags[..], source, |pairs|)
  {
    members := 0;
    for i := 0 to |pairs|
      invariant members == MemberCount(pairs, flags[..], source, i)
    {
      if flags[i] && Member(source, pairs[i].first) {
        members := members + 1;
      }
    }
  }

  lemma MarksGrow(points: Points, pairs: seq<Candidate>, flags: seq<bool>, n: nat)
    requires n < |points| == |pairs| == |flags|
    ensures Marks(points, pairs, flags, n + 1) ==
            Marks(points, pairs, flags, n) + if Marking(points, flags, n) then {pairs[n].second as nat} else {}
  {
    hide Marking;
    if Marking(points, flags, n) {
      assert pairs[n].second as nat in Marks(points, pairs, flags, n + 1);
    }
  }

  method MarkOne(target: array<u8>, at: nat)
    requires at / 8 < target.Length
    modifies target
    ensures forall i: nat :: Member(target[..], i) <==> (old(Member(target[..], i)) || i == at)
  {
    hide Bit, WithBit;
    target[at / 8] := WithBit(target[at / 8], at % 8);
    forall i: nat ensures Member(target[..], i) <==> (old(Member(target[..], i)) || i == at) {
      if i / 8 == at / 8 {
        WithBitSetsOne(old(target[at / 8]), at % 8, i % 8);
      }
    }
  }

  method MarkTargets(points: Points, pairs: seq<Candidate>, flags: array<bool>, target: array<u8>)
    requires flags.Length == |points| == |pairs|
    requires forall i | 0 <= i < |pairs| :: pairs[i].second / 8 < target.Length
    modifies target
    ensures forall i: nat :: Member(target[..], i) <==>
              (old(Member(target[..], i)) || i in Marks(points, pairs, flags[..], |points|))
  {
    hide Member, SignedNorm;
    for k := 0 to |points|
      invariant forall i: nat ::
                  Member(target[..], i) <==> (old(Member(target[..], i)) || i in Marks(points, pairs, flags[..], k))
    {
      MarksGrow(points, pairs, flags[..], k);
      if flags[k] && SignedNorm(points[k].x - points[k].targetX, points[k].y - points[k].targetY) >= 768 {
        MarkOne(target, pairs[k].second);
      }
    }
  }

  /** Drops every flag when the flagged points hardly move along one axis. */
  method FilterMovement(points: Points, flags: array<bool>, inliers: nat) returns (low: bool)
    requires flags.Length == |points| && inliers == CountTrue(flags[..])
    modifies flags
    ensures low == Still(points, old(flags[..]))
    ensures flags[..] == if low then Cleared(|points|) else old(flags[..])
  {
    hide Movement, CountTrue;
    low := false;
    if inliers > 0 {
      var sx, sy := SumMovement(points, flags);
      if sx / inliers < 32 || sy / inliers < 32 {
        forall i | 0 <= i < |points| {
          flags[i] := false;
        }
        low := true;
      }
    }
  }

  /** Flags the consensus and filters it. */
  method FlagPairs(points: Points, flags: array<bool>, transform: Transform)
    returns (spatial: nat, inliers: nat, low: bool)
    requires flags.Length == |points| && 0 < |points|
    requires transform == BestConsensus(points).transform
    modifies flags
    ensures flags[..] == Final(points) && spatial == CountTrue(Kept(points)) && inliers == CountTrue(Final(points))
    ensures low == Still(points, Kept(points))
  {
    hide Inlier, Stays, BestConsensus, Still, CountTrue;
    forall i | 0 <= i < |points| {
      flags[i] := Inlier(points[i], transform);
    }
    assert flags[..] == ConsensusFlags(points, transform);
    spatial := FilterClose(points, flags);
    assert flags[..] == Kept(points);
    low := FilterMovement(points, flags, spatial);
    inliers := spatial;
    if low {
      inliers := 0;
      ClearedCount(|points|);
    }
  }

  /** Flags, filters and scores the consensus, and marks the target. */
  method Refine(points: Points, pairs: seq<Candidate>, flags: array<bool>, source: Bytes, target: array<u8>,
                transform: Transform, prior: GeometryResult) returns (result: GeometryResult)
    requires flags.Length == |points| == |pairs| && 0 < |points|
    requires forall i | 0 <= i < |pairs| :: pairs[i].second / 8 < target.Length
    requires transform == BestConsensus(points).transform
    modifies flags, target
    ensures flags[..] == Final(points)
    ensures var members := MemberCount(pairs, Final(points), source, |points|);
            result == GeometryResult(prior.transform, if members < 4 then members else CountTrue(Final(points)),
                                     CountTrue(Kept(points)), Still(points, Kept(points)), prior.success)
    ensures forall i: nat :: Member(target[..], i) <==>
              (old(Member(target[..], i)) || (MemberCount(pairs, Final(points), source, |points|) >= 4
                                              && i in Marks(points, pairs, Final(points), |points|)))
  {
    hide *;
    var spatial, inliers, low := FlagPairs(points, flags, transform);
    result := prior.(spatialInliers := spatial, inliers := inliers, lowMovement := low);
    var members := CountMembers(pairs, flags, source);
    assert target[..] == old(target[..]);
    if members < 4 {
      result := result.(inliers := members);
    } else {
      MarkTargets(points, pairs, flags, target);
    }
  }

  /** The whole check, with the flags in an array of their own. A pair outside either membership
      string is an error and changes nothing. */
  method VerifyGeometry(points: Points, pairs: seq<Candidate>, flags: array<bool>, source: Bytes, target: array<u8>,
                        prior: GeometryResult) returns (ok: bool, result: GeometryResult)
    requires flags.Length == |points| == |pairs| <= 32767
    modifies flags, target
    ensures ok <==> Addressable(pairs, |source|, target.Length)
    ensures ok ==> result == Verified(points, pairs, source, prior)
    ensures !ok ==> result == prior
    ensures flags[..] == if ok && |points| >= 8 && BestConsensus(points).best > 0 then Final(points) else old(flags[..])
    ensures forall i: nat :: Member(target[..], i) <==>
              (old(Member(target[..], i)) || (ok && i in NewMarks(points, pairs, source)))
  {
    hide Member, SignedNorm, Marks, Inlier;
    result := prior;
    ok := true;
    for i := 0 to |pairs|
      invariant forall k | 0 <= k < i :: pairs[k].first / 8 < |source| && pairs[k].second / 8 < target.Length
    {
      if pairs[i].first / 8 >= |source| || pairs[i].second / 8 >= target.Length {
        return false, prior;
      }
    }
    result := result.(success := false);
    if |points| < 8 {
      return;
    }
    var best, transform := FindConsensus(points);
    result := result.(transform := transform, inliers := best, spatialInliers := best);
    if best > 0 {
      result := Refine(points, pairs, flags, source, target, transform, result);
    }
    result := result.(success := best >= 8);
  }
}
