/** Candidate pairs (`fpc_mutual_candidates`): first-index mutual nearest neighbours under a
    threshold, and why they do not depend on which way up a patch was sampled. */
module Matching {
  import opened Words
  import opened Crc
  import opened Descriptors

  datatype Candidate = Candidate(first: u16, second: u16, distance: u16, flag: u8)

  /** Distances, one row per first feature; rows may carry padding. */
  type Matrix = seq<seq<u8>>

  predicate Spans(m: Matrix, rows: nat, columns: nat) {
    |m| >= rows && forall i | 0 <= i < rows :: |m[i]| >= columns
  }

  function Column(m: Matrix, rows: nat, columns: nat, j: nat): (c: seq<u8>)
    requires Spans(m, rows, columns) && j < columns
    ensures |c| == rows
  {
    seq(rows, i requires 0 <= i < rows => m[i][j])
  }

  /** Index of the first minimum. */
  function FirstMin(v: seq<u8>): (r: nat)
    requires v != []
    ensures r < |v|
  {
    if |v| == 1 then 0
    else
      var r := FirstMin(v[..|v| - 1]);
      if v[|v| - 1] < v[r] then |v| - 1 else r
  }

  predicate IsFirstMin(v: seq<u8>, r: nat) {
    r < |v| && forall k | 0 <= k < |v| :: v[r] <= v[k] && (k < r ==> v[r] < v[k])
  }

  lemma {:induction false} FirstMinExactly(v: seq<u8>, r: nat)
    requires v != []
    ensures IsFirstMin(v, r) <==> r == FirstMin(v)
  {
    var f := FirstMin(v);
    assert IsFirstMin(v, f) by {
      if |v| > 1 {
        FirstMinExactly(v[..|v| - 1], FirstMin(v[..|v| - 1]));
        assert forall k | 0 <= k < |v| - 1 :: v[k] == v[..|v| - 1][k];
      }
    }
    if IsFirstMin(v, r) {
      assert v[r] <= v[f] && v[f] <= v[r];
    }
  }

  /** Row i takes part with its nearest column when that column's nearest row is i again. */
  predicate TakesPart(m: Matrix, rows: nat, columns: nat, threshold: nat, i: nat)
    requires Spans(m, rows, columns) && i < rows && columns > 0
  {
    var j := FirstMin(m[i][..columns]);
    FirstMin(Column(m, rows, columns, j)) == i && m[i][j] < threshold
  }

  /** Candidates of the rows below k, in row order. */
  function Mutual(m: Matrix, rows: nat, columns: nat, threshold: nat, k: nat): seq<Candidate>
    requires Spans(m, rows, columns) && k <= rows <= 32767 && 0 < columns <= 32767
  {
    if k == 0 then []
    else
      var before := Mutual(m, rows, columns, threshold, k - 1);
      if TakesPart(m, rows, columns, threshold, k - 1) then
        var j := FirstMin(m[k - 1][..columns]);
        before + [Candidate(k - 1, j, m[k - 1][j], 0)]
      else before
  }

  /** The result of the C function. */
  function Candidates(m: Matrix, rows: nat, columns: nat, threshold: nat): seq<Candidate>
    requires Spans(m, rows, columns) && rows <= 32767 && columns <= 32767
  {
    if rows == 0 || columns == 0 then [] else Mutual(m, rows, columns, threshold, rows)
  }

  /** Indices moved by the caller's offsets, modulo 2^16. */
  function Offset(cs: seq<Candidate>, firstOffset: u16, secondOffset: u16): (r: seq<Candidate>)
    ensures |r| == |cs|
  {
    seq(|cs|, i requires 0 <= i < |cs| =>
      cs[i].(first := ((cs[i].first as int) + firstOffset) % 0x1_0000,
             second := ((cs[i].second as int) + secondOffset) % 0x1_0000))
  }

  lemma OffsetAppend(cs: seq<Candidate>, i: nat, j: nat, d: u8, firstOffset: u16, secondOffset: u16)
    requires i <= 32767 && j <= 32767
    ensures Offset(cs + [Candidate(i, j, d, 0)], firstOffset, secondOffset) ==
            Offset(cs, firstOffset, secondOffset) +
            [Candidate((i + firstOffset) % 0x1_0000, (j + secondOffset) % 0x1_0000, d, 0)]
  {
  }

  lemma NoOffset(cs: seq<Candidate>)
    ensures Offset(cs, 0, 0) == cs
  {
  }

  /** Offsets move apart what was apart: still no feature is used twice. */
  lemma OffsetOneToOne(m: Matrix, rows: nat, columns: nat, threshold: nat, firstOffset: u16, secondOffset: u16)
    requires Spans(m, rows, columns) && rows <= 32767 && columns <= 32767
    ensures var cs := Offset(Candidates(m, rows, columns, threshold), firstOffset, secondOffset);
            forall x, y | 0 <= x < y < |cs| :: cs[x].first != cs[y].first && cs[x].second != cs[y].second
  {
    hide Candidates;
    CandidatesOneToOne(m, rows, columns, threshold);
  }

  /** i and j are each other's first nearest, closer than the threshold. */
  predicate MutuallyNearest(m: Matrix, rows: nat, columns: nat, threshold: nat, i: nat, j: nat)
    requires Spans(m, rows, columns)
  {
    i < rows && j < columns && m[i][j] < threshold
    && IsFirstMin(m[i][..columns], j) && IsFirstMin(Column(m, rows, columns, j), i)
  }

  lemma {:induction false} MutualMembers(m: Matrix, rows: nat, columns: nat, threshold: nat, k: nat, c: Candidate)
    requires Spans(m, rows, columns) && k <= rows <= 32767 && 0 < columns <= 32767
    ensures c in Mutual(m, rows, columns, threshold, k) <==>
              c.first < k && MutuallyNearest(m, rows, columns, threshold, c.first, c.second)
              && c.distance == m[c.first][c.second] && c.flag == 0
  {
    if k > 0 {
      MutualMembers(m, rows, columns, threshold, k - 1, c);
      var j := FirstMin(m[k - 1][..columns]);
      FirstMinExactly(m[k - 1][..columns], c.second);
      FirstMinExactly(Column(m, rows, columns, j), k - 1);
    }
  }

  /** The candidate list is exactly the set of mutually nearest pairs. */
  lemma CandidatesExactly(m: Matrix, rows: nat, columns: nat, threshold: nat)
    requires Spans(m, rows, columns) && rows <= 32767 && columns <= 32767
    ensures forall c :: c in Candidates(m, rows, columns, threshold) <==>
              MutuallyNearest(m, rows, columns, threshold, c.first, c.second)
              && c.distance == m[c.first][c.second] && c.flag == 0
  {
    if rows > 0 && columns > 0 {
      forall c ensures c in Candidates(m, rows, columns, threshold) <==>
                MutuallyNearest(m, rows, columns, threshold, c.first, c.second)
                && c.distance == m[c.first][c.second] && c.flag == 0
      {
        MutualMembers(m, rows, columns, threshold, rows, c);
      }
    }
  }

  lemma {:induction false} MutualAscends(m: Matrix, rows: nat, columns: nat, threshold: nat, k: nat)
    requires Spans(m, rows, columns) && k <= rows <= 32767 && 0 < columns <= 32767
    ensures var cs := Mutual(m, rows, columns, threshold, k);
            && |cs| <= k && (forall x | 0 <= x < |cs| :: cs[x].first < k)
            && (forall x, y | 0 <= x < y < |cs| :: cs[x].first < cs[y].first)
  {
    if k > 0 {
      MutualAscends(m, rows, columns, threshold, k - 1);
    }
  }

  /** No feature of either side is used twice. */
  lemma CandidatesOneToOne(m: Matrix, rows: nat, columns: nat, threshold: nat)
    requires Spans(m, rows, columns) && rows <= 32767 && columns <= 32767
    ensures var cs := Candidates(m, rows, columns, threshold);
            && |cs| <= rows
            && forall x, y | 0 <= x < y < |cs| :: cs[x].first < cs[y].first && cs[x].second != cs[y].second
  {
    if rows > 0 && columns > 0 {
      hide MutuallyNearest;
      var cs := Candidates(m, rows, columns, threshold);
      MutualAscends(m, rows, columns, threshold, rows);
      CandidatesExactly(m, rows, columns, threshold);
      forall x, y | 0 <= x < y < |cs| ensures cs[x].second != cs[y].second {
        assert cs[x] in cs && cs[y] in cs;
        if cs[x].second == cs[y].second {
          OneRowPerColumn(m, rows, columns, threshold, cs[x].first, cs[y].first, cs[x].second);
        }
      }
    }
  }

  lemma OneRowPerColumn(m: Matrix, rows: nat, columns: nat, threshold: nat, i: nat, k: nat, j: nat)
    requires Spans(m, rows, columns)
    requires MutuallyNearest(m, rows, columns, threshold, i, j) && MutuallyNearest(m, rows, columns, threshold, k, j)
    ensures i == k
  {
    FirstMinExactly(Column(m, rows, columns, j), i);
    FirstMinExactly(Column(m, rows, columns, j), k);
  }

  /** The scan both passes share: strictly smaller than the best so far, starting at 255. */
  method Nearest(v: seq<u8>) returns (at: nat, best: u8)
    requires v != []
    ensures at == FirstMin(v) && best == v[at]
  {
    best := 255;
    at := 0;
    for k := 0 to |v|
      invariant at < |v| && (k == 0 ==> at == 0 && best == 255)
      invariant k > 0 ==> at == FirstMin(v[..k]) && best == v[at]
    {
      if v[k] < best {
        best := v[k];
        at := k;
      }
      assert v[..k + 1][..k] == v[..k];
      if k == 0 {
        assert v[..1] == [v[0]];
      }
    }
    assert v[..|v|] == v;
  }

  /** `fpc_mutual_candidates`: column minima first, then one row at a time. */
  method MutualCandidates(m: Matrix, rows: nat, columns: nat, threshold: nat, firstOffset: u16, secondOffset: u16,
                          capacity: nat, memory: bool)
    returns (status: int, output: seq<Candidate>)
    requires Spans(m, rows, columns)
    ensures status ==
            if rows > 32767 || columns > 32767 || capacity < rows || (rows > 0 && columns > 0 && !memory) then -1 else 0
    ensures status == 0 ==> output == Offset(Candidates(m, rows, columns, threshold), firstOffset, secondOffset)
  {
    hide FirstMin, Column;
    assert Offset([], firstOffset, secondOffset) == [];
    hide Offset;
    output := [];
    if rows > 32767 || columns > 32767 || capacity < rows {
      return -1, output;
    }
    if rows == 0 || columns == 0 {
      return 0, output;
    }
    if !memory {
      return -1, output;
    }
    var nearest := new nat[columns](_ => 0);
    for j := 0 to columns
      invariant forall c | 0 <= c < j :: nearest[c] == FirstMin(Column(m, rows, columns, c))
    {
      var at, _ := Nearest(Column(m, rows, columns, j));
      nearest[j] := at;
    }
    for i := 0 to rows
      invariant forall c | 0 <= c < columns :: nearest[c] == FirstMin(Column(m, rows, columns, c))
      invariant output == Offset(Mutual(m, rows, columns, threshold, i), firstOffset, secondOffset)
    {
      var at, best := Nearest(m[i][..columns]);
      OffsetAppend(Mutual(m, rows, columns, threshold, i), i, at, best, firstOffset, secondOffset);
      if nearest[at] == i && best < threshold {
        output := output + [Candidate((i + firstOffset) % 0x1_0000, (at + secondOffset) % 0x1_0000, best, 0)];
      }
    }
    return 0, output;
  }

  // ----- Descriptors and patches -----

  lemma DistanceFits(a: Descriptor, b: Descriptor)
    ensures Distance(a, b) <= 128
  {
    hide Word, Gap;
    HammingWords(a, b, false);
    forall x, y ensures Gap(x, y) <= 32 {
      GapFits(x, y);
    }
  }

  lemma GapFits(x: bv32, y: bv32)
    ensures Gap(x, y) <= 32
  {
    GapIsOnes(x, y);
    OnesFit(Xor(x, y), 32);
  }

  lemma {:induction false} OnesFit(x: bv32, n: nat)
    ensures Ones(x, n) <= n
    decreases n
  {
    if n > 0 {
      OnesFit(Half(x), n - 1);
    }
  }

  function DistanceByte(a: Descriptor, b: Descriptor): u8 {
    DistanceFits(a, b);
    Distance(a, b)
  }

  /** The distance matrix of two feature lists. */
  function Distances(first: seq<Descriptor>, second: seq<Descriptor>): (m: Matrix)
    ensures Spans(m, |first|, |second|)
  {
    seq(|first|, i requires 0 <= i < |first| =>
      seq(|second|, j requires 0 <= j < |second| => DistanceByte(first[i], second[j])))
  }

  function MatchThreshold(): nat { 64 }

  function DescriptorCandidates(first: seq<Descriptor>, second: seq<Descriptor>): seq<Candidate>
    requires |first| <= 32767 && |second| <= 32767
  {
    Candidates(Distances(first, second), |first|, |second|, MatchThreshold())
  }

  /** Same descriptors up to swapped halves. */
  predicate SameUpToSwaps(a: seq<Descriptor>, b: seq<Descriptor>) {
    |a| == |b| && forall i | 0 <= i < |a| :: b[i] == a[i] || b[i] == Swapped(a[i])
  }

  lemma SwapsKeepCandidates(a: seq<Descriptor>, b: seq<Descriptor>, c: seq<Descriptor>, d: seq<Descriptor>)
    requires SameUpToSwaps(a, b) && SameUpToSwaps(c, d) && |a| <= 32767 && |c| <= 32767
    ensures DescriptorCandidates(a, c) == DescriptorCandidates(b, d)
  {
    hide Distance, Swapped;
    assert Distances(a, c) == Distances(b, d) by {
      forall i, j | 0 <= i < |a| && 0 <= j < |c| ensures Distance(a[i], c[j]) == Distance(b[i], d[j]) {
        DistanceIgnoresSwap(a[i], c[j]);
        DistanceIgnoresSwap(b[i], c[j]);
      }
      forall i | 0 <= i < |a| ensures Distances(a, c)[i] == Distances(b, d)[i] {
      }
    }
  }

  type Patch = seq<u8>

  predicate Projectable(weights: Weights, patches: seq<Patch>) {
    forall p <- patches :: WeightRows(weights, |p|, 8)
  }

  function Describe(weights: Weights, patches: seq<Patch>): seq<Descriptor>
    requires Projectable(weights, patches)
  {
    seq(|patches|, i requires 0 <= i < |patches| => Project(weights, patches[i], 8))
  }

  /** Same patches, any of them turned by 180 degrees. */
  predicate SameUpToTurns(a: seq<Patch>, b: seq<Patch>) {
    |a| == |b| && forall i | 0 <= i < |a| :: b[i] == a[i] || b[i] == Turned(a[i])
  }

  lemma TurnsAreSwaps(weights: Weights, a: seq<Patch>, b: seq<Patch>)
    requires Projectable(weights, a) && SameUpToTurns(a, b)
    ensures Projectable(weights, b) && SameUpToSwaps(Describe(weights, a), Describe(weights, b))
  {
    hide Project;
    forall i | 0 <= i < |a|
      ensures WeightRows(weights, |a[i]|, 8) && WeightRows(weights, |b[i]|, 8)
      ensures Project(weights, b[i], 8) == Project(weights, a[i], 8) ||
              Project(weights, b[i], 8) == Swapped(Project(weights, a[i], 8))
    {
      assert a[i] in a;
      TurnSwapsHalves(weights, a[i], 8);
    }
  }

  /** The candidate list does not depend on which way up any patch was read. */
  lemma TurnsKeepCandidates(weights: Weights, a: seq<Patch>, b: seq<Patch>, c: seq<Patch>, d: seq<Patch>)
    requires Projectable(weights, a) && Projectable(weights, c) && SameUpToTurns(a, b) && SameUpToTurns(c, d)
    requires |a| <= 32767 && |c| <= 32767
    ensures Projectable(weights, b) && Projectable(weights, d)
    ensures DescriptorCandidates(Describe(weights, a), Describe(weights, c)) ==
            DescriptorCandidates(Describe(weights, b), Describe(weights, d))
  {
    hide DescriptorCandidates;
    TurnsAreSwaps(weights, a, b);
    TurnsAreSwaps(weights, c, d);
    SwapsKeepCandidates(Describe(weights, a), Describe(weights, b), Describe(weights, c), Describe(weights, d));
  }
}
