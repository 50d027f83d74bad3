/** What a frame's score counts (`fpc_profile300_frame_score`): pixels that are black or white, and
    places where the picture differs from its surroundings by more than thirteen grey levels. */
module FrameScores {
  import opened Words
  import opened FrameRanking

  type Place = (int, int)

  /** Black or white pixels. */
  ghost function Extremes(p: seq<seq<u8>>): set<Place>
    requires IsFrame(p)
  {
    set y, x | 0 <= y < 88 && 0 <= x < 112 && p[y][x] in {0, 255} :: (y, x)
  }

  /** Places whose mean distance from the local mean exceeds thirteen levels, in sixteenths. */
  ghost function Contrasts(p: seq<seq<u8>>): set<Place>
    requires IsFrame(p)
  {
    set y, x | 0 <= y < 88 && 0 <= x < 112 && Contrast(p)[y][x] > 13 * 16 :: (y, x)
  }

  /** The places below row y, and in row y left of x, that a plane marks. */
  ghost function Below(f: u16 -> bool, p: Plane, y: nat, x: nat): set<Place>
    requires Rows(p, 88, 112) && y <= 88 && x <= 112 && (y == 88 ==> x == 0)
  {
    set v, u | 0 <= v < 88 && 0 <= u < 112 && (v < y || (v == y && u < x)) && f(p[v][u]) :: (v, u)
  }

  lemma BelowAt(f: u16 -> bool, p: Plane, y: nat, x: nat, q: Place)
    requires Rows(p, 88, 112) && y <= 88 && x <= 112 && (y == 88 ==> x == 0)
    ensures q in Below(f, p, y, x) <==>
              0 <= q.0 < 88 && 0 <= q.1 < 112 && (q.0 < y || (q.0 == y && q.1 < x)) && f(p[q.0][q.1])
  {
    assert q == (q.0, q.1);
  }

  lemma NextPlace(f: u16 -> bool, p: Plane, y: nat, x: nat)
    requires Rows(p, 88, 112) && y < 88 && 0 < x <= 112
    ensures Below(f, p, y, x) == Below(f, p, y, x - 1) + if f(p[y][x - 1]) then {(y, x - 1)} else {}
    ensures (y, x - 1) !in Below(f, p, y, x - 1)
  {
    hide Below;
    var more: set<Place> := if f(p[y][x - 1]) then {(y, x - 1)} else {};
    forall q: Place ensures q in Below(f, p, y, x) <==> q in Below(f, p, y, x - 1) + more {
      BelowAt(f, p, y, x, q);
      BelowAt(f, p, y, x - 1, q);
    }
    BelowAt(f, p, y, x - 1, (y, x - 1));
  }

  lemma {:induction false} RowCounts(f: u16 -> bool, p: Plane, y: nat, x: nat)
    requires Rows(p, 88, 112) && y < 88 && x <= 112
    ensures |Below(f, p, y, x)| == |Below(f, p, y, 0)| + CountRow(f, p[y], x)
  {
    hide Below;
    if x > 0 {
      RowCounts(f, p, y, x - 1);
      NextPlace(f, p, y, x);
    }
  }

  lemma NextRow(f: u16 -> bool, p: Plane, y: nat)
    requires Rows(p, 88, 112) && y < 88
    ensures Below(f, p, y + 1, 0) == Below(f, p, y, 112)
  {
    forall q: Place ensures q in Below(f, p, y + 1, 0) <==> q in Below(f, p, y, 112) {
      BelowAt(f, p, y + 1, 0, q);
      BelowAt(f, p, y, 112, q);
    }
  }

  /** The nested counts count places. */
  lemma {:induction false} PlaneCounts(f: u16 -> bool, p: Plane, y: nat)
    requires Rows(p, 88, 112) && y <= 88
    ensures CountPlane(f, p, 112, y) == |Below(f, p, y, 0)|
  {
    hide CountRow;
    if y == 0 {
      forall q: Place ensures q !in Below(f, p, 0, 0) {
        BelowAt(f, p, 0, 0, q);
      }
      assert Below(f, p, 0, 0) == {};
    } else {
      PlaneCounts(f, p, y - 1);
      RowCounts(f, p, y - 1, 112);
      NextRow(f, p, y - 1);
    }
  }

  lemma CountsPlaces(p: seq<seq<u8>>)
    requires IsFrame(p)
    ensures CountPlane(Saturated, p, WIDTH, HEIGHT) == |Extremes(p)|
    ensures CountPlane(Contrasting, Contrast(p), WIDTH, HEIGHT) == |Contrasts(p)|
  {
    hide CountPlane, Contrast;
    PlaneCounts(Saturated, p, 88);
    PlaneCounts(Contrasting, Contrast(p), 88);
    forall q: Place ensures q in Below(Saturated, p, 88, 0) <==> q in Extremes(p) {
      BelowAt(Saturated, p, 88, 0, q);
      assert q == (q.0, q.1);
    }
    assert Below(Saturated, p, 88, 0) == Extremes(p);
    forall q: Place ensures q in Below(Contrasting, Contrast(p), 88, 0) <==> q in Contrasts(p) {
      BelowAt(Contrasting, Contrast(p), 88, 0, q);
      assert q == (q.0, q.1);
    }
    assert Below(Contrasting, Contrast(p), 88, 0) == Contrasts(p);
  }

  /** A share in thousandths, rounded down. */
  predicate PerMille(share: nat, part: nat, whole: nat) {
    share * whole <= 1000 * part < (share + 1) * whole
  }

  lemma ShareExactly(share: nat, part: nat)
    ensures PerMille(share, part, 9856) <==> share == part * 1000 / 9856
  {
  }

  /** Three quarters of the score are the pixels that are neither black nor white, one quarter the
      places of contrast, both in thousandths, rounded to the nearest whole. */
  lemma ScoreExactly(p: seq<seq<u8>>, extreme: nat, contrast: nat)
    requires IsFrame(p)
    requires PerMille(extreme, |Extremes(p)|, 9856) && PerMille(contrast, |Contrasts(p)|, 9856)
    ensures 4 * ScoreOf(p) - 2 <= 3 * (1000 - extreme) + contrast <= 4 * ScoreOf(p) + 1
  {
    hide CountPlane, Extremes, Contrasts;
    CountsPlaces(p);
    ShareExactly(extreme, |Extremes(p)|);
    ShareExactly(contrast, |Contrasts(p)|);
  }

  // ----- The local mean -----

  /** Where a line is constant over the fifteen positions around x, its mean there is that value. */
  lemma MeanIsLocal(line: seq<u16>, x: nat, c: u16)
    requires |line| >= 15 && 7 <= x && x + 8 <= |line| && c <= 32768
    requires forall u | x - 7 <= u <= x + 7 :: line[u] == c
    ensures Boxed(line)[x] == c
  {
    hide Mean;
    var window := line[x - 7..x + 8];
    FlatSum(window, 0, 15, c);
    SameSum(line, x - 7, 15);
    BoxedMiddle(line, x);
    FlatMean(c);
  }

  /** In the middle of a line the mean is a fifteenth of the sum around x to the nearest whole, except
      that eight fifteenths above 2184 are rounded down. */
  lemma MeanRounds(line: seq<u16>, x: nat, q: nat, r: nat)
    requires |line| >= 15 && 7 <= x && x + 8 <= |line|
    requires SumOf(line, x - 7, 15) == 15 * q + r && r < 15 && q <= 4080
    ensures Boxed(line)[x] == if r >= 9 || (r == 8 && q <= 2184) then q + 1 else q
  {
    BoxedMiddle(line, x);
    assert (15 * q + r) * 4369 == 65535 * q + 4369 * r;
  }

  /** Near an end the mean is that of the last full window. */
  lemma EndsShare(line: seq<u16>, x: nat)
    requires |line| >= 15 && x < |line|
    ensures x < 7 ==> Boxed(line)[x] == Boxed(line)[7]
    ensures x > |line| - 8 ==> Boxed(line)[x] == Boxed(line)[|line| - 8]
  {
  }

  lemma {:induction false} SameSum(line: seq<u16>, start: nat, n: nat)
    requires start + n <= |line|
    ensures SumOf(line[start..start + n], 0, n) == SumOf(line, start, n)
  {
    if n > 0 {
      SameSum(line, start, n - 1);
      PrefixSum(line[start..start + n], n - 1);
      assert line[start..start + n][..n - 1] == line[start..start + (n - 1)];
    }
  }

  lemma {:induction false} PrefixSum(line: seq<u16>, n: nat)
    requires n <= |line|
    ensures SumOf(line[..n], 0, n) == SumOf(line, 0, n)
    decreases n
  {
    if n > 0 {
      PrefixSum(line, n - 1);
      PrefixSum(line[..n], n - 1);
      assert line[..n][..n - 1] == line[..n - 1];
    }
  }
}
