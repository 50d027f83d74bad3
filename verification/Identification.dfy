/** Matching a query against captures, collections and lists of templates
    (`fpc_match_profile300_captures`, `fpc_match_profile300_collection`,
    `fpc_identify_profile300`). Every score is a function that does not read the query's
    membership bits, although matching keeps setting them. */
module Identification {
  import opened Words
  import opened Bytes
  import opened CaptureCodec
  import opened Similarity
  import opened Descriptors
  import opened Matching
  import opened Geometry
  import opened GeometryVerification

  // ----- Coordinates -----

  function Signed16(w: u16): i16 {
    Int16(w)
  }

  /** A compact coordinate in Q4 units: scaled by a Q10 factor, rounded down, shifted. */
  function Placed(scale: u16, coordinate: u8, offset: u16): i16 {
    Int16(Signed16(scale) * coordinate / 1024 + Signed16(offset))
  }

  /** In numbers, where nothing wraps: the coordinate times the scale, in units of 1/1024, rounded
      down, plus the offset. */
  lemma PlacedExactly(scale: u16, coordinate: u8, offset: u16)
    requires scale < 0x8000 && offset < 0x2000 && scale * (coordinate as int) < 1024 * 0x6000
    ensures var p := Placed(scale, coordinate, offset) - offset;
            1024 * p <= scale * (coordinate as int) < 1024 * (p + 1)
  {
    var q := scale * (coordinate as int) / 1024;
    Int16Small(q + offset);
  }

  /** Negative scales and offsets are the two's complements of their words. */
  lemma SignsExactly(w: u16)
    ensures Signed16(w) == if w < 32768 then w as int else w - 65536
  {
  }

  /** The C code's rounding down with a division that truncates. */
  method FloorKilo(p: int) returns (q: int)
    ensures q == p / 1024
  {
    q := if p >= 0 then Quotient(p, 1024) else -Quotient(-p + 1023, 1024);
  }

  /** Arrays are absent or as long as the header says. */
  predicate Shaped(v: CaptureView) {
    && (forall l <- v.levels :: |l.fields| == 5)
    && (v.compact == [] || |v.compact| == 2 * v.count)
    && (v.descriptors == [] || |v.descriptors| == v.count * v.descriptorBytes)
    && (v.membership == [] || |v.membership| == MembershipBytes(v.count))
  }

  /** `capture_compact_levels_valid`. */
  predicate CompactLevels(v: CaptureView)
    requires Shaped(v)
  {
    && v.levels != [] && (v.count > 0 ==> v.compact != [])
    && (forall l <- v.levels :: l.fields[0] <= 32767) && LevelSum(v.levels) == v.count
  }

  /** The level a feature index falls into. */
  function LevelOf(levels: seq<Level>, index: nat): (l: Level)
    requires (forall l <- levels :: |l.fields| == 5) && index < LevelSum(levels)
    ensures |l.fields| == 5
  {
    if index < levels[0].fields[0] then levels[0] else LevelOf(levels[1..], index - levels[0].fields[0])
  }

  function At(v: CaptureView, index: nat): (i16, i16)
    requires Shaped(v) && CompactLevels(v) && index < v.count
  {
    var fields := LevelOf(v.levels, index).fields;
    (Placed(fields[1], v.compact[2 * index], fields[3]), Placed(fields[2], v.compact[2 * index + 1], fields[4]))
  }

  /** The walk over the levels up to the one the index falls into. */
  method FindLevel(levels: seq<Level>, index: nat) returns (l: Level)
    requires (forall l <- levels :: |l.fields| == 5) && index < LevelSum(levels)
    ensures l == LevelOf(levels, index)
  {
    var level: nat, end: nat := 0, levels[0].fields[0];
    ghost var start: nat := 0;
    assert levels[0..] == levels;
    while index >= end
      invariant level < |levels| && start <= index && end == start + levels[level].fields[0]
      invariant index - start < LevelSum(levels[level..])
      invariant LevelOf(levels[level..], index - start) == LevelOf(levels, index)
      decreases |levels| - level
    {
      assert levels[level..][1..] == levels[level + 1..];
      start := end;
      level := level + 1;
      end := end + levels[level].fields[0];
    }
    return levels[level];
  }

  /** `capture_compact_point`. */
  method CompactPoint(v: CaptureView, index: nat) returns (x: i16, y: i16)
    requires Shaped(v) && CompactLevels(v) && index < v.count
    ensures (x, y) == At(v, index)
  {
    hide Int16, LevelOf, LevelSum;
    var level := FindLevel(v.levels, index);
    var fields := level.fields;
    var px := FloorKilo(Signed16(fields[1]) * v.compact[2 * index]);
    var py := FloorKilo(Signed16(fields[2]) * v.compact[2 * index + 1]);
    x, y := Int16(px + Signed16(fields[3])), Int16(py + Signed16(fields[4]));
  }

  predicate InRange(pairs: seq<Candidate>, firsts: nat, seconds: nat) {
    forall c <- pairs :: c.first < firsts && c.second < seconds
  }

  /** `fpc_capture_candidate_coordinates`. */
  function PointsOf(first: CaptureView, second: CaptureView, pairs: seq<Candidate>): (points: Points)
    requires Shaped(first) && CompactLevels(first) && Shaped(second) && CompactLevels(second)
    requires InRange(pairs, first.count, second.count)
    ensures |points| == |pairs|
  {
    seq(|pairs|, i requires 0 <= i < |pairs| =>
      var (x, y) := At(first, pairs[i].first);
      var (u, w) := At(second, pairs[i].second);
      Point(x, y, u, w))
  }

  /** The level row every prepared capture gets: scale 16 and half a unit of offset, so a byte
      coordinate lands at 16 c + 8 without wrapping. */
  const PREPARED_FIELDS: seq<u16> := [16384, 16384, 8, 8]

  lemma PreparedPlacement(c: u8)
    ensures Placed(PREPARED_FIELDS[0], c, PREPARED_FIELDS[2]) == 16 * c + 8
  {
    assert (16384 * (c as int)) / 1024 == 16 * c;
  }

  // ----- One capture against another -----

  function SplitDescriptors(d: Bytes, n: nat): (ds: seq<Descriptor>)
    requires |d| == 16 * n
    ensures |ds| == n
  {
    seq(n, i requires 0 <= i < n => d[16 * i..16 * i + 16])
  }

  predicate Profile300(v: CaptureView)
    requires Shaped(v)
  {
    && CompactLevels(v) && |v.levels| == 1 && v.mode == 1 && v.descriptorBytes == 16 && v.count <= 32767
    && (v.count > 0 ==> v.descriptors != [])
  }

  function DescriptorsOf(v: CaptureView): (ds: seq<Descriptor>)
    requires Shaped(v) && Profile300(v)
    ensures |ds| == v.count
  {
    if v.count == 0 then [] else SplitDescriptors(v.descriptors, v.count)
  }

  predicate Enrolled(v: CaptureView)
    requires Shaped(v)
  {
    Profile300(v) && (v.count > 0 ==> v.membership != [])
  }

  function PairsOf(first: CaptureView, second: CaptureView): (pairs: seq<Candidate>)
    requires Shaped(first) && Profile300(first) && Shaped(second) && Profile300(second)
    ensures |pairs| <= first.count && InRange(pairs, first.count, second.count)
  {
    var a, b := DescriptorsOf(first), DescriptorsOf(second);
    PairsInRange(a, b);
    DescriptorCandidates(a, b)
  }

  lemma PairsInRange(a: seq<Descriptor>, b: seq<Descriptor>)
    requires |a| <= 32767 && |b| <= 32767
    ensures |DescriptorCandidates(a, b)| <= |a| && InRange(DescriptorCandidates(a, b), |a|, |b|)
  {
    hide Distances;
    CandidatesOneToOne(Distances(a, b), |a|, |b|, MatchThreshold());
    CandidatesExactly(Distances(a, b), |a|, |b|, MatchThreshold());
  }

  /** What matching `second` against `first` reports. */
  ghost function Matched(first: CaptureView, second: CaptureView): GeometryResult
    requires Shaped(first) && Enrolled(first) && Shaped(second) && Profile300(second)
  {
    var pairs := PairsOf(first, second);
    Verified(PointsOf(first, second, pairs), pairs, first.membership, ZEROED)
  }

  /** Features of `second` that become members. */
  ghost function MatchMarks(first: CaptureView, second: CaptureView): set<nat>
    requires Shaped(first) && Enrolled(first) && Shaped(second) && Profile300(second)
  {
    var pairs := PairsOf(first, second);
    NewMarks(PointsOf(first, second, pairs), pairs, first.membership)
  }

  predicate Comparable(first: CaptureView, second: CaptureView, targetBytes: nat, capacity: nat)
    requires Shaped(first) && Shaped(second)
  {
    Enrolled(first) && Profile300(second) && capacity >= first.count && targetBytes >= MembershipBytes(second.count)
  }

  lemma PairsAreAddressable(pairs: seq<Candidate>, n: nat, m: nat, sourceBytes: nat, targetBytes: nat)
    requires InRange(pairs, n, m) && sourceBytes >= MembershipBytes(n) && targetBytes >= MembershipBytes(m)
    ensures Addressable(pairs, sourceBytes, targetBytes)
  {
    forall i | 0 <= i < |pairs| ensures pairs[i].first / 8 < sourceBytes && pairs[i].second / 8 < targetBytes {
      assert pairs[i] in pairs;
    }
  }

  /** Matching succeeds exactly on comparable captures, memory permitting, and reports and marks
      what the specification says. */
  method MatchCaptures(first: CaptureView, second: CaptureView, target: array<u8>, capacity: nat, memory: bool)
    returns (ok: bool, pairs: seq<Candidate>, result: GeometryResult)
    requires Shaped(first) && Shaped(second)
    modifies target
    ensures ok <==>
              Comparable(first, second, target.Length, capacity) && (first.count == 0 || second.count == 0 || memory)
    ensures ok ==> result == Matched(first, second) && pairs == PairsOf(first, second)
    ensures forall i: nat ::
              Member(target[..], i) <==> (old(Member(target[..], i)) || (ok && i in MatchMarks(first, second)))
  {
    hide Member, Verified, NewMarks, Distances, Candidates, LevelOf, LevelSum, SplitDescriptors;
    pairs, result := [], ZEROED;
    if !Comparable(first, second, target.Length, capacity) {
      return false, pairs, result;
    }
    var a, b := DescriptorsOf(first), DescriptorsOf(second);
    assert PairsOf(first, second) == DescriptorCandidates(a, b);
    if first.count == 0 || second.count == 0 {
      NothingToMatch(first, second);
      return true, pairs, result;
    }
    if !memory {
      return false, pairs, result;
    }
    var matrix := Distances(a, b);
    var status, output := MutualCandidates(matrix, first.count, second.count, MatchThreshold(), 0, 0, capacity, true);
    NoOffset(Candidates(matrix, first.count, second.count, MatchThreshold()));
    pairs := output;
    assert pairs == PairsOf(first, second);
    var points := PointsOf(first, second, pairs);
    PairsAreAddressable(pairs, first.count, second.count, |first.membership|, target.Length);
    var flags := new bool[|pairs|](_ => false);
    ok, result := VerifyGeometry(points, pairs, flags, first.membership, target, ZEROED);
  }

  lemma NothingToMatch(first: CaptureView, second: CaptureView)
    requires Shaped(first) && Enrolled(first) && Shaped(second) && Profile300(second)
    requires first.count == 0 || second.count == 0
    ensures PairsOf(first, second) == [] && Matched(first, second) == ZEROED && MatchMarks(first, second) == {}
  {
  }

  /** A score of four or more needs four enrolled features; no score exceeds the feature count,
      so none is cut at sixteen bits. */
  lemma MatchedFits(first: CaptureView, second: CaptureView)
    requires Shaped(first) && Enrolled(first) && Shaped(second) && Profile300(second)
    ensures Matched(first, second).inliers <= Matched(first, second).spatialInliers <= first.count <= 32767
  {
    hide Verified, Distances, Candidates, LevelOf, LevelSum, BestConsensus;
    var pairs := PairsOf(first, second);
    VerifiedFits(PointsOf(first, second, pairs), pairs, first.membership);
  }

  lemma VerifiedFits(points: Points, pairs: seq<Candidate>, source: Bytes)
    requires |points| == |pairs|
    ensures var r := Verified(points, pairs, source, ZEROED); r.inliers <= r.spatialInliers <= |points|
  {
    hide BestConsensus, Kept, Final, MemberCount, Still, FirstComeMaximal;
    if |points| >= 8 && BestConsensus(points).best > 0 {
      ScoreMeaning(points, pairs, source, ZEROED);
    }
  }

  /** A view built from a prepared capture. */
  predicate Prepared(v: CaptureView) {
    Shaped(v) && Profile300(v) && v.levels == [Level([v.count as u16] + PREPARED_FIELDS, [])]
  }

  lemma PreparedCoordinates(v: CaptureView, i: nat)
    requires Prepared(v) && i < v.count
    ensures At(v, i).0 == 16 * (v.compact[2 * i] as int) + 8 && At(v, i).1 == 16 * (v.compact[2 * i + 1] as int) + 8
  {
    hide Placed;
    assert LevelOf(v.levels, i) == v.levels[0];
    PreparedPlacement(v.compact[2 * i]);
    PreparedPlacement(v.compact[2 * i + 1]);
  }

  /** Point i of a match puts the pixel of its first feature against that of its second, in sixteenths,
      at the pixel's middle. */
  lemma PointsArePixels(first: CaptureView, second: CaptureView, pairs: seq<Candidate>, i: nat)
    requires Prepared(first) && Prepared(second) && InRange(pairs, first.count, second.count) && i < |pairs|
    ensures var p, j, k := PointsOf(first, second, pairs)[i], pairs[i].first, pairs[i].second;
            && j < first.count && k < second.count
            && p.x == 16 * (first.compact[2 * j] as int) + 8 && p.y == 16 * (first.compact[2 * j + 1] as int) + 8
            && p.targetX == 16 * (second.compact[2 * k] as int) + 8
            && p.targetY == 16 * (second.compact[2 * k + 1] as int) + 8
  {
    hide LevelOf, LevelSum, Placed;
    assert pairs[i] in pairs;
    PreparedCoordinates(first, pairs[i].first);
    PreparedCoordinates(second, pairs[i].second);
  }

  /** For prepared captures the spatial filter compares true squared distances: nothing wraps. */
  lemma PreparedSeparationIsExact(first: CaptureView, second: CaptureView, pairs: seq<Candidate>, i: nat, j: nat)
    requires Prepared(first) && Prepared(second) && InRange(pairs, first.count, second.count)
    requires i < |pairs| && j < |pairs|
    ensures var ps := PointsOf(first, second, pairs);
            var dx, dy := ps[i].x - ps[j].x, ps[i].y - ps[j].y;
            Close(ps[i], ps[j]) <==> dx * dx + dy * dy < 3584
  {
    hide SignedNorm, LevelOf, LevelSum, Placed;
    assert pairs[i] in pairs && pairs[j] in pairs;
    PreparedCoordinates(first, pairs[i].first);
    PreparedCoordinates(first, pairs[j].first);
    var ps := PointsOf(first, second, pairs);
    NormIsExact(ps[i].x - ps[j].x, ps[i].y - ps[j].y);
  }

  // ----- One collection against a query -----

  datatype CollectionMatch = CollectionMatch(
    scores: seq<u16>, spatial: seq<u16>, transforms: seq<Transform>, score: u16, selected: int)

  predicate AllShaped(captures: seq<CaptureView>) {
    forall v <- captures :: Shaped(v)
  }

  predicate AllEnrolled(captures: seq<CaptureView>)
    requires AllShaped(captures)
  {
    forall v <- captures :: Enrolled(v)
  }

  /** Everything identification needs of a collection and a query. */
  predicate Searchable(captures: seq<CaptureView>, query: CaptureView) {
    Shaped(query) && |captures| <= 80 && AllShaped(captures) && (captures != [] ==> Profile300(query)) &&
        AllEnrolled(captures)
  }

  /** Splits the last capture off. */
  lemma LastIsEnrolled(captures: seq<CaptureView>, query: CaptureView)
    requires captures != [] && Searchable(captures, query)
    ensures var n := |captures| - 1;
            Searchable(captures[..n], query) && Shaped(captures[n]) && Enrolled(captures[n]) && Shaped(query) &&
                Profile300(query)
  {
    hide Shaped, Enrolled, Profile300;
    var n := |captures| - 1;
    assert captures[n] in captures && forall c <- captures[..n] :: c in captures;
  }

  ghost function Score(v: CaptureView, query: CaptureView): u16
    requires Shaped(v) && Enrolled(v) && Shaped(query) && Profile300(query)
  {
    MatchedFits(v, query);
    Matched(v, query).inliers
  }

  ghost function SpatialScore(v: CaptureView, query: CaptureView): u16
    requires Shaped(v) && Enrolled(v) && Shaped(query) && Profile300(query)
  {
    MatchedFits(v, query);
    Matched(v, query).spatialInliers
  }

  ghost function Scores(captures: seq<CaptureView>, query: CaptureView): (s: seq<u16>)
    requires Searchable(captures, query)
    ensures |s| == |captures|
  {
    seq(|captures|, i requires 0 <= i < |captures| => Score(captures[i], query))
  }

  ghost function SpatialScores(captures: seq<CaptureView>, query: CaptureView): (s: seq<u16>)
    requires Searchable(captures, query)
    ensures |s| == |captures|
  {
    seq(|captures|, i requires 0 <= i < |captures| => SpatialScore(captures[i], query))
  }

  /** The transforms reported: an empty candidate list repeats the transform before it. */
  ghost function Transforms(captures: seq<CaptureView>, query: CaptureView): (ts: seq<Transform>)
    requires Searchable(captures, query)
    ensures |ts| == |captures|
  {
    if captures == [] then []
    else
      LastIsEnrolled(captures, query);
      var n := |captures| - 1;
      var before := Transforms(captures[..n], query);
      before + [if PairsOf(captures[n], query) != [] then Matched(captures[n], query).transform
                else if n == 0 then NO_TRANSFORM else before[n - 1]]
  }

  /** Highest score, and its first position; -1 when every score is zero. */
  function Top(scores: seq<u16>): (u16, int) {
    if scores == [] then (0, -1)
    else
      var (best, at) := Top(scores[..|scores| - 1]);
      if scores[|scores| - 1] > best then (scores[|scores| - 1], |scores| - 1) else (best, at)
  }

  /** Read as a property: the maximum, first reached there. */
  predicate IsTop(scores: seq<u16>, best: u16, at: int) {
    && (forall k | 0 <= k < |scores| :: scores[k] <= best)
    && (if at == -1 then best == 0
        else 0 <= at < |scores| && scores[at] == best > 0 && forall k | 0 <= k < at :: scores[k] < best)
  }

  lemma {:induction false} TopExactly(scores: seq<u16>, best: u16, at: int)
    ensures IsTop(scores, best, at) <==> (best, at) == Top(scores)
  {
    var (b, a) := Top(scores);
    assert IsTop(scores, b, a) by {
      if scores != [] {
        var rest := scores[..|scores| - 1];
        TopExactly(rest, Top(rest).0, Top(rest).1);
        assert forall k | 0 <= k < |rest| :: scores[k] == rest[k];
      }
    }
  }

  ghost function Best(captures: seq<CaptureView>, query: CaptureView): u16
    requires Searchable(captures, query)
  {
    Top(Scores(captures, query)).0
  }

  ghost function CollectionResult(captures: seq<CaptureView>, query: CaptureView): CollectionMatch
    requires Searchable(captures, query)
  {
    var scores := Scores(captures, query);
    CollectionMatch(scores, SpatialScores(captures, query), Transforms(captures, query), Top(scores).0, Top(scores).1)
  }

  /** Query features that become members. */
  ghost function CollectionMarks(captures: seq<CaptureView>, query: CaptureView): set<nat>
    requires Searchable(captures, query)
  {
    if captures == [] then {}
    else
      LastIsEnrolled(captures, query);
      CollectionMarks(captures[..|captures| - 1], query) + MatchMarks(captures[|captures| - 1], query)
  }

  lemma SearchableFront(captures: seq<CaptureView>, v: CaptureView, query: CaptureView)
    requires Searchable(captures + [v], query)
    ensures Searchable(captures, query) && Shaped(v) && Enrolled(v) && Shaped(query) && Profile300(query)
    ensures (captures + [v])[..|captures|] == captures && (captures + [v])[|captures|] == v
  {
    hide Shaped, Enrolled, Profile300;
    var all := captures + [v];
    assert all[|captures|] in all && all[..|captures|] == captures;
    assert forall c <- captures :: c in all;
  }

  lemma ScoresStep(captures: seq<CaptureView>, v: CaptureView, query: CaptureView)
    requires Searchable(captures + [v], query)
    ensures Searchable(captures, query) && Shaped(v) && Enrolled(v) && Shaped(query) && Profile300(query)
    ensures Scores(captures + [v], query) == Scores(captures, query) + [Score(v, query)]
    ensures SpatialScores(captures + [v], query) == SpatialScores(captures, query) + [SpatialScore(v, query)]
  {
    hide Searchable, Enrolled, Profile300, Score, SpatialScore;
    SearchableFront(captures, v, query);
  }

  /** One more capture. */
  lemma CollectionStep(captures: seq<CaptureView>, v: CaptureView, query: CaptureView)
    requires Searchable(captures + [v], query)
    ensures Searchable(captures, query) && Shaped(v) && Enrolled(v) && Shaped(query) && Profile300(query)
    ensures var r, s := CollectionResult(captures, query), Score(v, query);
            CollectionResult(captures + [v], query) == CollectionMatch(
              r.scores + [s], r.spatial + [SpatialScore(v, query)],
              r.transforms + [if PairsOf(v, query) != [] then Matched(v, query).transform
                              else if captures == [] then NO_TRANSFORM else r.transforms[|captures| - 1]],
              if s > r.score then s else r.score, if s > r.score then |captures| else r.selected)
    ensures CollectionMarks(captures + [v], query) == CollectionMarks(captures, query) + MatchMarks(v, query)
  {
    hide Searchable, Enrolled, Profile300, Score, SpatialScore, Scores, SpatialScores, Matched, PairsOf, MatchMarks;
    SearchableFront(captures, v, query);
    ScoresStep(captures, v, query);
    var scores := Scores(captures, query) + [Score(v, query)];
    assert scores[..|captures|] == Scores(captures, query);
  }

  lemma EmptyCollection(query: CaptureView)
    requires Shaped(query)
    ensures Searchable([], query) && CollectionResult([], query) == CollectionMatch([], [], [], 0, -1)
    ensures CollectionMarks([], query) == {}
  {
  }

  /** One more capture keeps the part before it searchable, and the result tells its fields. */
  lemma PrefixStep(captures: seq<CaptureView>, query: CaptureView, i: nat)
    requires i < |captures| <= 80 && Searchable(captures[..i], query)
    requires Shaped(captures[i]) && Enrolled(captures[i]) && Profile300(query)
    ensures captures[..i + 1] == captures[..i] + [captures[i]] && Searchable(captures[..i + 1], query)
    ensures var r, s := CollectionResult(captures[..i], query), Score(captures[i], query);
            |r.transforms| == i &&
            CollectionResult(captures[..i + 1], query) == CollectionMatch(
              r.scores + [s], r.spatial + [SpatialScore(captures[i], query)],
              r.transforms + [if PairsOf(captures[i], query) != [] then Matched(captures[i], query).transform
                              else if i == 0 then NO_TRANSFORM else r.transforms[i - 1]],
              if s > r.score then s else r.score, if s > r.score then i else r.selected)
    ensures CollectionMarks(captures[..i + 1], query) ==
            CollectionMarks(captures[..i], query) + MatchMarks(captures[i], query)
  {
    hide Shaped, Enrolled, Profile300, Score, SpatialScore, Scores, SpatialScores, Matched, PairsOf, MatchMarks,
         CollectionMarks;
    assert captures[..i + 1] == captures[..i] + [captures[i]];
    CollectionStep(captures[..i], captures[i], query);
  }

  lemma SearchableFits(captures: seq<CaptureView>, query: CaptureView)
    requires Searchable(captures, query)
    ensures |captures| <= 80 && forall v <- captures :: v.count <= 32767
  {
  }

  lemma SearchableAt(captures: seq<CaptureView>, query: CaptureView, i: nat)
    requires Searchable(captures, query) && i < |captures|
    ensures Enrolled(captures[i]) && Profile300(query)
  {
    hide Shaped, Enrolled, Profile300;
    assert captures[i] in captures;
  }

  /** Largest capture of a collection, or nothing when one is too large. */
  method Capacity(captures: seq<CaptureView>) returns (ok: bool, capacity: nat)
    ensures ok <==> forall v <- captures :: v.count <= 32767
    ensures ok ==> forall v <- captures :: v.count <= capacity
  {
    capacity := 0;
    for i := 0 to |captures|
      invariant forall k | 0 <= k < i :: captures[k].count <= capacity && captures[k].count <= 32767
    {
      if captures[i].count > 32767 {
        return false, capacity;
      }
      if captures[i].count > capacity {
        capacity := captures[i].count;
      }
    }
    return true, capacity;
  }

  /** `fpc_match_profile300_collection`; `memory(k)` tells whether allocation k succeeds. */
  method MatchCollection(captures: seq<CaptureView>, query: CaptureView, target: array<u8>, memory: nat -> bool)
    returns (ok: bool, result: CollectionMatch)
    requires Shaped(query) && AllShaped(captures)
    modifies target
    ensures ok ==> Searchable(captures, query) && result == CollectionResult(captures, query)
    ensures ok && captures != [] ==> target.Length >= MembershipBytes(query.count)
    ensures (forall k :: memory(k)) && Searchable(captures, query) && target.Length >= MembershipBytes(query.count) ==>
              ok
    ensures ok ==> forall i: nat :: Member(target[..], i) <==>
                     (old(Member(target[..], i)) || i in CollectionMarks(captures, query))
  {
    hide Member, Matched, MatchMarks, PairsOf, CompactLevels, Shaped, Enrolled, Profile300, Searchable,
         CollectionResult, CollectionMarks;
    if Searchable(captures, query) {
      SearchableFits(captures, query);
    }
    result := CollectionMatch([], [], [], 0, -1);
    if |captures| > 80 {
      return false, result;
    }
    var fits, capacity := Capacity(captures);
    if !fits || (capacity > 0 && !memory(0)) {
      return false, result;
    }
    var previous := NO_TRANSFORM;
    EmptyCollection(query);
    assert captures[..0] == [] && target[..] == old(target[..]);
    for i := 0 to |captures|
      invariant i > 0 ==> target.Length >= MembershipBytes(query.count)
      invariant Searchable(captures[..i], query) && result == CollectionResult(captures[..i], query)
      invariant |result.transforms| == i && previous == if i == 0 then NO_TRANSFORM else result.transforms[i - 1]
      invariant forall k: nat :: Member(target[..], k) <==>
                  (old(Member(target[..], k)) || k in CollectionMarks(captures[..i], query))
    {
      assert captures[i] in captures;
      if Searchable(captures, query) {
        SearchableAt(captures, query, i);
      }
      var matched, pairs, geometry := MatchCaptures(captures[i], query, target, capacity, memory(i + 1));
      if !matched {
        return false, result;
      }
      MatchedFits(captures[i], query);
      PrefixStep(captures, query, i);
      previous := if pairs == [] then previous else geometry.transform;
      result := CollectionMatch(result.scores + [geometry.inliers], result.spatial + [geometry.spatialInliers],
                                result.transforms + [previous],
                                if geometry.inliers > result.score then geometry.inliers else result.score,
                                if geometry.inliers > result.score then i else result.selected);
    }
    assert captures[..|captures|] == captures;
    return true, result;
  }

  // ----- Many templates against a query -----

  datatype Policy = Policy(threshold: int, reportedLimit: int, goodScore: int, goodQuality: int)

  datatype Verdict = Verdict(
    evaluated: nat, score: u16, selectedCapture: int, matched: bool, selectedTemplate: int, reported: u16, good: bool)

  predicate AllSearchable(collections: seq<seq<CaptureView>>, query: CaptureView) {
    forall c <- collections :: Searchable(c, query)
  }

  ghost function Bests(collections: seq<seq<CaptureView>>, query: CaptureView): (s: seq<u16>)
    requires AllSearchable(collections, query)
    ensures |s| == |collections|
  {
    seq(|collections|, i requires 0 <= i < |collections| => Best(collections[i], query))
  }

  /** Query features that become members while these templates are searched. */
  ghost function AllMarks(collections: seq<seq<CaptureView>>, query: CaptureView): set<nat>
    requires AllSearchable(collections, query)
  {
    if collections == [] then {}
    else
      var n := |collections| - 1;
      assert collections[n] in collections && forall c <- collections[..n] :: c in collections;
      AllMarks(collections[..n], query) + CollectionMarks(collections[n], query)
  }

  lemma MarksStep(collections: seq<seq<CaptureView>>, query: CaptureView, i: nat)
    requires i < |collections| && AllSearchable(collections[..i + 1], query)
    ensures AllSearchable(collections[..i], query) && Searchable(collections[i], query)
    ensures AllMarks(collections[..i + 1], query) ==
            AllMarks(collections[..i], query) + CollectionMarks(collections[i], query)
  {
    hide Searchable, CollectionMarks;
    var more := collections[..i + 1];
    assert more[..i] == collections[..i] && more[i] == collections[i] && more[i] in more;
    assert forall c <- collections[..i] :: c in more;
  }

  /** Exactly the given features became members. */
  ghost predicate Marked(before: Bytes, after: Bytes, marks: set<nat>) {
    forall i: nat :: Member(after, i) <==> (Member(before, i) || i in marks)
  }

  lemma MarkedTwice(a: Bytes, b: Bytes, c: Bytes, first: set<nat>, second: set<nat>)
    requires Marked(a, b, first) && Marked(b, c, second)
    ensures Marked(a, c, first + second)
  {
    hide Member;
  }

  /** The score a template must reach: the threshold, but never zero. */
  function Needed(policy: Policy): int {
    if policy.threshold < 1 then 1 else policy.threshold
  }

  /** What the verdict says: the first template reaching the needed score is selected, and
      nothing after it is looked at. */
  ghost predicate Identifies(collections: seq<seq<CaptureView>>, query: CaptureView, quality: int, policy: Policy,
                             v: Verdict) {
    && v.evaluated <= |collections| && AllSearchable(collections[..v.evaluated], query)
    && var bests := Bests(collections[..v.evaluated], query);
    && (forall i | 0 <= i < v.evaluated - 1 :: bests[i] < Needed(policy))
    && (if v.matched then 0 <= v.selectedTemplate == v.evaluated - 1 && bests[v.selectedTemplate] >= Needed(policy)
        else
          && v.selectedTemplate == -1 && v.evaluated == |collections|
          && forall i | 0 <= i < v.evaluated :: bests[i] < Needed(policy))
    && var (score, at) := Top(bests);
    && v.score == score
    && v.selectedCapture ==
        (if at < 0 || at >= v.evaluated then 0 else Top(Scores(collections[..v.evaluated][at], query)).1)
    && v.reported == (if score < policy.reportedLimit then score as int else policy.reportedLimit)
    && (v.good <==> score >= policy.goodScore || quality >= policy.goodQuality)
  }

  /** The verdict is determined by the templates and the query, whatever the membership bits:
      a second identification reproduces the first. */
  lemma VerdictIsUnique(collections: seq<seq<CaptureView>>, query: CaptureView, quality: int, policy: Policy,
                        v: Verdict, w: Verdict)
    requires Identifies(collections, query, quality, policy, v) && Identifies(collections, query, quality, policy, w)
    ensures v == w
  {
    hide Searchable, Best, Scores, Top;
    if v.evaluated < w.evaluated {
      SameBests(collections, query, v.evaluated, w.evaluated);
    } else if w.evaluated < v.evaluated {
      SameBests(collections, query, w.evaluated, v.evaluated);
    }
  }

  lemma SameBests(collections: seq<seq<CaptureView>>, query: CaptureView, m: nat, n: nat)
    requires m <= n <= |collections| && AllSearchable(collections[..n], query)
    ensures AllSearchable(collections[..m], query)
    ensures Bests(collections[..m], query) == Bests(collections[..n], query)[..m]
  {
    hide Searchable, Best;
    assert collections[..n][..m] == collections[..m];
    assert forall c <- collections[..m] :: c in collections[..n];
  }

  /** In full: a template is selected exactly when some template's best capture reaches the
      needed score, and it is the first such template; the score is then that template's. */
  lemma FirstTemplateWins(collections: seq<seq<CaptureView>>, query: CaptureView, quality: int, policy: Policy,
                          v: Verdict)
    requires AllSearchable(collections, query) && Identifies(collections, query, quality, policy, v)
    ensures var bests := Bests(collections, query);
            && (v.matched <==> exists i :: 0 <= i < |collections| && bests[i] >= Needed(policy))
            && (forall t | 0 <= t < |collections| ::
                  (v.matched && v.selectedTemplate == t) <==>
                  (bests[t] >= Needed(policy) && forall i | 0 <= i < t :: bests[i] < Needed(policy)))
            && (v.matched ==> v.score == bests[v.selectedTemplate])
            && (!v.matched ==> forall i | 0 <= i < |collections| :: bests[i] <= v.score)
  {
    hide Searchable, Best, Scores, Top;
    assert collections[..|collections|] == collections;
    SameBests(collections, query, v.evaluated, |collections|);
    var bests := Bests(collections, query);
    var front := Bests(collections[..v.evaluated], query);
    assert forall i | 0 <= i < v.evaluated :: front[i] == bests[i];
    TopExactly(front, v.score, Top(front).1);
  }

  /** Matching the selected template once more gives the verdict's score and capture again. */
  lemma SecondMatchAgrees(collections: seq<seq<CaptureView>>, query: CaptureView, quality: int, policy: Policy,
                          v: Verdict)
    requires Identifies(collections, query, quality, policy, v) && v.matched
    ensures Searchable(collections[v.selectedTemplate], query)
    ensures var r := CollectionResult(collections[v.selectedTemplate], query);
            r.score == v.score && r.selected == v.selectedCapture
  {
    hide Searchable, Scores, SpatialScores, Transforms, Top;
    var front := collections[..v.evaluated];
    assert front[v.selectedTemplate] in front && front[v.selectedTemplate] == collections[v.selectedTemplate];
    var bests := Bests(front, query);
    TopExactly(bests, v.score, Top(bests).1);
  }

  lemma BestsStep(collections: seq<seq<CaptureView>>, query: CaptureView, i: nat)
    requires i < |collections| && AllSearchable(collections[..i], query) && Searchable(collections[i], query)
    ensures AllSearchable(collections[..i + 1], query)
    ensures var all := Bests(collections[..i + 1], query);
            all[..i] == Bests(collections[..i], query) && all[i] == Best(collections[i], query)
  {
    hide Searchable, Best;
    assert collections[..i + 1] == collections[..i] + [collections[i]];
  }

  lemma NoneEvaluated(collections: seq<seq<CaptureView>>, query: CaptureView)
    ensures AllSearchable(collections[..0], query) && Top(Bests(collections[..0], query)) == (0, -1)
    ensures AllMarks(collections[..0], query) == {}
  {
  }

  /** One more template: it takes the lead only with a higher score. */
  lemma TopStep(collections: seq<seq<CaptureView>>, query: CaptureView, i: nat)
    requires i < |collections| && AllSearchable(collections[..i], query) && Searchable(collections[i], query)
    ensures AllSearchable(collections[..i + 1], query)
    ensures var best, lead := Best(collections[i], query), Top(Bests(collections[..i], query));
            var all := Bests(collections[..i + 1], query);
            Top(all) == (if best > lead.0 then (best, i) else lead) && forall k | 0 <= k < i :: all[k] <= lead.0
  {
    hide Searchable, Best;
    BestsStep(collections, query, i);
    var before := Bests(collections[..i], query);
    TopExactly(before, Top(before).0, Top(before).1);
    assert forall k | 0 <= k < i :: Bests(collections[..i + 1], query)[k] == before[k];
  }

  lemma FoundMeans(captures: seq<CaptureView>, query: CaptureView)
    requires Searchable(captures, query)
    ensures var found := CollectionResult(captures, query);
            found.score == Best(captures, query) && found.selected == Top(Scores(captures, query)).1
  {
    hide Searchable, Scores, SpatialScores, Transforms, Top;
  }

  /** What the search loop leaves behind is the verdict. */
  lemma Conclude(collections: seq<seq<CaptureView>>, query: CaptureView, quality: int, policy: Policy, v: Verdict,
                 at: int)
    requires v.evaluated <= |collections| && AllSearchable(collections[..v.evaluated], query)
    requires (v.score, at) == Top(Bests(collections[..v.evaluated], query)) && at < v.evaluated
    requires v.selectedCapture == if at < 0 then 0 else Top(Scores(collections[..v.evaluated][at], query)).1
    requires v.matched ==>
               0 < v.evaluated == v.selectedTemplate + 1 && at == v.selectedTemplate && v.score >= Needed(policy)
    requires v.matched ==>
               forall i | 0 <= i < v.evaluated - 1 :: Bests(collections[..v.evaluated], query)[i] < Needed(policy)
    requires !v.matched ==> v.selectedTemplate == -1 && v.evaluated == |collections| && v.score < Needed(policy)
    requires v.reported == if v.score < policy.reportedLimit then v.score as int else policy.reportedLimit
    requires v.good <==> v.score >= policy.goodScore || quality >= policy.goodQuality
    ensures Identifies(collections, query, quality, policy, v)
  {
    hide Searchable, Best, Scores, Top;
    TopExactly(Bests(collections[..v.evaluated], query), v.score, at);
  }

  /** `fpc_identify_profile300`. */
  method Identify(collections: seq<seq<CaptureView>>, query: CaptureView, quality: int, target: array<u8>,
                  policy: Policy, memory: (nat, nat) -> bool) returns (ok: bool, v: Verdict)
    requires Shaped(query) && forall c <- collections :: AllShaped(c)
    modifies target
    ensures ok ==>
              |collections| <= 100 && policy.reportedLimit >= 0 && Identifies(collections, query, quality, policy, v)
    ensures ok ==> Marked(old(target[..]), target[..], AllMarks(collections[..v.evaluated], query))
    ensures ((forall i, k :: memory(i, k)) && |collections| <= 100 && policy.reportedLimit >= 0
             && AllSearchable(collections, query) && target.Length >= MembershipBytes(query.count)) ==> ok
  {
    hide Searchable, Scores, SpatialScores, Transforms, CollectionMarks, Member, AllShaped, Identifies, Shaped, Top,
         Best, Bests, CollectionResult, AllMarks;
    v := Verdict(0, 0, 0, false, -1, 0, false);
    if |collections| > 100 || policy.reportedLimit < 0 {
      return false, v;
    }
    ghost var at := -1;
    NoneEvaluated(collections, query);
    ghost var start := target[..];
    for i := 0 to |collections|
      invariant v.evaluated == i && !v.matched && v.selectedTemplate == -1
      invariant AllSearchable(collections[..i], query)
      invariant (v.score, at) == Top(Bests(collections[..i], query)) && v.score < Needed(policy)
      invariant at < i && v.selectedCapture == if at < 0 then 0 else Top(Scores(collections[..i][at], query)).1
      invariant Marked(start, target[..], AllMarks(collections[..i], query))
    {
      assert collections[i] in collections;
      ghost var before := target[..];
      var done, found := MatchCollection(collections[i], query, target, (k: nat) => memory(i, k));
      if !done {
        return false, v;
      }
      TopStep(collections, query, i);
      MarksStep(collections, query, i);
      MarkedTwice(start, before, target[..], AllMarks(collections[..i], query), CollectionMarks(collections[i], query));
      FoundMeans(collections[i], query);
      v := v.(evaluated := i + 1);
      if found.score > v.score {
        at := i;
        v := v.(score := found.score, selectedCapture := found.selected);
        if found.score >= policy.threshold {
          v := v.(matched := true, selectedTemplate := i);
          break;
        }
      }
    }
    v := v.(reported := if v.score < policy.reportedLimit then v.score else policy.reportedLimit,
            good := v.score >= policy.goodScore || quality >= policy.goodQuality);
    Conclude(collections, query, quality, policy, v, at);
    return true, v;
  }
}
