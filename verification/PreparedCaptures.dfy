/** Captures as the preparation stage hands them over, and the views built from them
    (`fpc_capture_from_prepared`). Enrolled captures have every membership bit set; for them the
    membership score is the number of flagged pairs, and matching marks nothing new. */
module PreparedCaptures {
  import opened Words
  import opened Bytes
  import opened CaptureCodec
  import opened TemplateCodec
  import opened Similarity
  import Descriptors
  import opened Matching
  import opened Geometry
  import opened GeometryVerification
  import opened Identification

  datatype Feature = Feature(x: u8, y: u8, descriptor: Descriptors.Descriptor)

  /** Quality figures and features; masks and planes are not part of this model. */
  datatype PreparedCapture = PreparedCapture(confidence: int, coverage: int, quality: int, features: seq<Feature>)

  // ----- Membership strings -----

  lemma SameMasksSameBits(w: bv8, v: bv8)
    requires (w & 1 != 0) == (v & 1 != 0) && (w & 2 != 0) == (v & 2 != 0) && (w & 4 != 0) == (v & 4 != 0) &&
             (w & 8 != 0) == (v & 8 != 0)
    requires (w & 16 != 0) == (v & 16 != 0) && (w & 32 != 0) == (v & 32 != 0) && (w & 64 != 0) == (v & 64 != 0) &&
             (w & 128 != 0) == (v & 128 != 0)
    ensures w == v
  {
  }

  lemma ValueOfBits(b: u8)
    ensures Value(Bits(b)) == b
  {
    ByteThroughBits(b);
  }

  /** A byte is its eight bits. */
  lemma SameBitsSameByte(a: u8, b: u8)
    requires forall k: nat | k < 8 :: Bit(a, k) == Bit(b, k)
    ensures a == b
  {
    hide Bits, Value;
    assert Bit(a, 0) == Bit(b, 0) && Bit(a, 1) == Bit(b, 1) && Bit(a, 2) == Bit(b, 2) && Bit(a, 3) == Bit(b, 3);
    assert Bit(a, 4) == Bit(b, 4) && Bit(a, 5) == Bit(b, 5) && Bit(a, 6) == Bit(b, 6) && Bit(a, 7) == Bit(b, 7);
    SameMasksSameBits(Bits(a), Bits(b));
    ValueOfBits(a);
    ValueOfBits(b);
  }

  /** A membership string is its members. */
  lemma SameMembersSameBytes(a: Bytes, b: Bytes)
    requires |a| == |b| && forall i: nat :: Member(a, i) <==> Member(b, i)
    ensures a == b
  {
    hide Bit;
    forall j | 0 <= j < |a| ensures a[j] == b[j] {
      forall k: nat | k < 8 ensures Bit(a[j], k) == Bit(b[j], k) {
        assert (8 * j + k) / 8 == j && (8 * j + k) % 8 == k;
        assert Member(a, 8 * j + k) == Member(b, 8 * j + k);
      }
      SameBitsSameByte(a[j], b[j]);
    }
  }

  /** Membership of n features, all of them or none. */
  ghost predicate IsMembership(m: Bytes, n: nat, enrolled: bool) {
    |m| == MembershipBytes(n) && forall i: nat :: Member(m, i) <==> (enrolled && i < n)
  }

  lemma ZeroHasNoBits(k: nat)
    ensures !Bit(0, k)
  {
  }

  method SetMembership(n: nat, enrolled: bool) returns (m: array<u8>)
    ensures fresh(m) && IsMembership(m[..], n, enrolled)
  {
    hide Bit;
    m := new u8[MembershipBytes(n)](_ => 0);
    forall i: nat ensures !Member(m[..], i) {
      ZeroHasNoBits(i % 8);
    }
    if enrolled {
      for i := 0 to n
        invariant m.Length == MembershipBytes(n) && forall k: nat :: Member(m[..], k) <==> k < i
        modifies m
      {
        MarkOne(m, i);
      }
    }
  }

  // ----- Views -----

  function Coordinates(fs: seq<Feature>): (b: Bytes)
    ensures |b| == 2 * |fs|
  {
    if fs == [] then [] else Coordinates(fs[..|fs| - 1]) + [fs[|fs| - 1].x, fs[|fs| - 1].y]
  }

  function DescriptorBytes(fs: seq<Feature>): (b: Bytes)
    ensures |b| == 16 * |fs|
  {
    if fs == [] then [] else DescriptorBytes(fs[..|fs| - 1]) + fs[|fs| - 1].descriptor
  }

  /** The view of a prepared capture with the given membership string. */
  function ViewOf(fs: seq<Feature>, membership: Bytes): CaptureView
    requires |fs| <= 300
  {
    CaptureView(|fs|, 1, 16, 0, [Level([|fs| as u16] + PREPARED_FIELDS, [])], Coordinates(fs), [], [], [],
                DescriptorBytes(fs), membership)
  }

  ghost predicate FromFeatures(v: CaptureView, fs: seq<Feature>, enrolled: bool) {
    |fs| <= 300 && v == ViewOf(fs, v.membership) && IsMembership(v.membership, |fs|, enrolled)
  }

  /** There is one such view. */
  lemma ViewIsUnique(v: CaptureView, w: CaptureView, fs: seq<Feature>, enrolled: bool)
    requires FromFeatures(v, fs, enrolled) && FromFeatures(w, fs, enrolled)
    ensures v == w
  {
    hide Member, Coordinates, DescriptorBytes;
    SameMembersSameBytes(v.membership, w.membership);
  }

  /** It can be matched, stored and compared exactly. */
  lemma ViewIsUsable(v: CaptureView, fs: seq<Feature>, enrolled: bool)
    requires FromFeatures(v, fs, enrolled)
    ensures Prepared(v) && Enrolled(v) && WellFormed(v, DEFAULT_FORMAT) && v.count <= 300
    ensures |PayloadOf(v)| <= 5456
  {
    hide Member, Coordinates, DescriptorBytes, Join;
    FormatValues();
    assert LevelSum(v.levels) == v.count by {
      assert v.levels[1..] == [];
    }
    PayloadSize(v);
  }

  lemma FormatValues()
    ensures DEFAULT_FORMAT == Format(true, true, false, false, true, true)
  {
  }

  lemma PayloadSize(v: CaptureView)
    requires WellFormed(v, DEFAULT_FORMAT) && v.descriptorBytes == 16 && |v.levels| == 1 && v.tableWidth == 0
    ensures |PayloadOf(v)| == 18 + 18 * v.count + MembershipBytes(v.count)
  {
    hide LevelBytes, RowsSize, MembershipBytes, Join, Split, Total, Words32;
    FormatValues();
    SplitOfPayload(v, DEFAULT_FORMAT);
    SevenParts(RowsSize(1, 0), 2 * v.count, 0, 0, 0, 16 * v.count, MembershipBytes(v.count));
    RowsSizeClosedForm(1, 0);
  }

  lemma SevenParts(a: nat, b: nat, c: nat, d: nat, e: nat, f: nat, g: nat)
    ensures Total([a, b, c, d, e, f, g]) == a + b + c + d + e + f + g
  {
    assert [a, b, c, d, e, f, g][1..] == [b, c, d, e, f, g] && [b, c, d, e, f, g][1..] == [c, d, e, f, g];
    assert [c, d, e, f, g][1..] == [d, e, f, g] && [d, e, f, g][1..] == [e, f, g] && [e, f, g][1..] == [f, g] &&
           [f, g][1..] == [g];
    assert Total([g]) == g && Total([f, g]) == f + g && Total([e, f, g]) == e + f + g;
    assert Total([d, e, f, g]) == d + e + f + g && Total([c, d, e, f, g]) == c + d + e + f + g;
  }

  /** `fpc_capture_from_prepared`: the view goes through its payload and back unchanged. */
  method FromPrepared(p: PreparedCapture, enrolled: bool, memory: bool) returns (view: Option<CaptureView>)
    ensures view.None? <==> |p.features| > 300 || !memory
    ensures view.Some? ==> FromFeatures(view.value, p.features, enrolled)
  {
    hide Member, FromFeatures, Payload, Parse;
    if |p.features| > 300 {
      return None;
    }
    var coordinates, descriptors := [], [];
    for i := 0 to |p.features|
      invariant coordinates == Coordinates(p.features[..i]) && descriptors == DescriptorBytes(p.features[..i])
    {
      assert p.features[..i + 1][..i] == p.features[..i];
      coordinates := coordinates + [p.features[i].x, p.features[i].y];
      descriptors := descriptors + p.features[i].descriptor;
    }
    assert p.features[..|p.features|] == p.features;
    var membership := SetMembership(|p.features|, enrolled);
    var built := CaptureView(|p.features|, 1, 16, 0, [Level([|p.features| as u16] + PREPARED_FIELDS, [])],
                             coordinates, [], [], [], descriptors, membership[..]);
    Built(built, p.features, enrolled);
    ViewIsUsable(built, p.features, enrolled);
    if !memory {
      return None;
    }
    ParseOfPayload(built, DEFAULT_FORMAT);
    view := Parse(Payload(built, DEFAULT_FORMAT), DEFAULT_FORMAT);
  }

  lemma Built(v: CaptureView, fs: seq<Feature>, enrolled: bool)
    requires |fs| <= 300 && v == ViewOf(fs, v.membership) && IsMembership(v.membership, |fs|, enrolled)
    ensures FromFeatures(v, fs, enrolled)
  {
  }

  // ----- Enrolled captures against each other -----

  /** With every source feature enrolled the members are the flagged pairs. */
  lemma {:induction false} AllAreMembers(pairs: seq<Candidate>, flags: seq<bool>, source: Bytes, n: nat)
    requires n <= |pairs| == |flags|
    requires forall i | 0 <= i < |pairs| :: Member(source, pairs[i].first)
    ensures MemberCount(pairs, flags, source, n) == CountTrue(flags[..n])
  {
    hide Member;
    if n > 0 {
      AllAreMembers(pairs, flags, source, n - 1);
      assert flags[..n][..n - 1] == flags[..n - 1];
    }
  }

  /** The score against an enrolled capture is the number of pairs that survive the filters. */
  lemma EnrolledScore(first: CaptureView, fs: seq<Feature>, second: CaptureView)
    requires FromFeatures(first, fs, true) && Shaped(second) && Profile300(second)
    ensures Shaped(first) && Enrolled(first)
    ensures var points := PointsOf(first, second, PairsOf(first, second));
            Matched(first, second).inliers ==
            if |points| >= 8 && BestConsensus(points).best > 0 then CountTrue(Final(points)) else 0
  {
    hide Member, PairsOf, CompactLevels, BestConsensus, Final, Kept, Coordinates, DescriptorBytes, LevelOf, Still;
    ViewIsUsable(first, fs, true);
    var pairs := PairsOf(first, second);
    var points := PointsOf(first, second, pairs);
    forall i | 0 <= i < |pairs| ensures Member(first.membership, pairs[i].first) {
      assert pairs[i] in pairs;
    }
    if |points| >= 8 && BestConsensus(points).best > 0 {
      AllAreMembers(pairs, Final(points), first.membership, |points|);
      assert Final(points)[..|points|] == Final(points);
    }
  }

  /** Matching marks nothing new on an enrolled capture. */
  lemma EnrolledMarks(first: CaptureView, second: CaptureView, fs: seq<Feature>)
    requires Shaped(first) && Enrolled(first) && FromFeatures(second, fs, true)
    ensures Shaped(second) && Profile300(second)
    ensures forall i: nat | i in MatchMarks(first, second) :: Member(second.membership, i)
  {
    hide Member, PairsOf, Final, Updates, Marking, CompactLevels, Coordinates, DescriptorBytes, LevelOf;
    ViewIsUsable(second, fs, true);
    assert Profile300(second);
    var pairs := PairsOf(first, second);
    assert forall c <- pairs :: c.second < second.count;
  }
}
