/** Where in the frame the nine cells lie (`fpc_select_spatial_features`): equal thirds of width and
    height, points outside the frame counted to the nearest third. */
module SpatialCells {
  import opened Words
  import opened Similarity
  import opened FeatureSort
  import opened FeatureSelection
  import opened FeatureBudget

  /** v lies in the k-th third of the `size` positions from `low` on. */
  predicate InThird(v: int, low: int, size: int, k: int) {
    k * size <= 3 * (v - low) < (k + 1) * size
  }

  /** Column or row of a coordinate: its third, or the outer one on its side of the frame. */
  predicate InPart(v: int, low: int, high: int, k: int) {
    && 0 <= k < 3
    && (if v < low then k == 0
        else if v > high then k == 2
        else InThird(v, low, high - low + 1, k))
  }

  lemma QuotientOf(a: int, d: nat)
    requires d > 0
    ensures if a >= 0 then Quotient(a, d) == a / d else Quotient(a, d) <= 0
  {
  }

  lemma ThirdExactly(v: i16, low: i16, high: i16, k: int)
    requires low <= high
    ensures k == Third(v, low, high) <==> InPart(v, low, high, k)
  {
    hide Quotient;
    var w := high - low + 1;
    var q := Quotient((v - low) * 3, w);
    QuotientOf((v - low) * 3, w);
    if v >= low {
      DivisionMeans((v - low) * 3, w, q);
      if v > high {
        MulMonotone(w, v - low, 3);
        DivisionAtLeast((v - low) * 3, w, 3);
      } else {
        OneThird(v, low, w, q, k);
      }
    }
  }

  lemma DivisionMeans(a: nat, d: nat, q: nat)
    requires d > 0 && q == a / d
    ensures q * d <= a < (q + 1) * d
  {
    assert (q + 1) * d == q * d + d;
  }

  lemma DivisionAtLeast(a: nat, d: nat, n: nat)
    requires d > 0 && n * d <= a
    ensures a / d >= n
  {
    if a / d < n {
      MulMonotone(a / d + 1, n, d);
    }
  }

  lemma OneThird(v: int, low: int, w: nat, q: nat, k: int)
    requires v >= low && w > 0 && v - low < w && q * w <= 3 * (v - low) < (q + 1) * w
    ensures q < 3 && (k == q <==> 0 <= k < 3 && InThird(v, low, w, k))
  {
    if q >= 3 {
      MulMonotone(3, q, w);
    }
    if 0 <= k < q {
      MulMonotone(k + 1, q, w);
    } else if k > q {
      MulMonotone(q + 1, k, w);
    }
  }

  /** A point lies in cell k + 3 m exactly when its column is k and its row is m. */
  lemma CellExactly(l: Location, f: Frame, k: int, m: int)
    requires ProperFrame(f) && 0 <= k < 3 && 0 <= m < 3
    ensures CellOf(l, f) == k + 3 * m <==>
              InPart(l.x, f.xmin, f.xmax, k) && InPart(l.y, f.ymin, f.ymax, m)
  {
    hide Third, InPart;
    ThirdExactly(l.x, f.xmin, f.xmax, k);
    ThirdExactly(l.y, f.ymin, f.ymax, m);
  }

  /** In a frame of w by h positions, for a point inside. */
  lemma InnerCellExactly(l: Location, f: Frame, w: int, h: int, k: int, m: int)
    requires ProperFrame(f) && w == f.xmax - f.xmin + 1 && h == f.ymax - f.ymin + 1 && 0 <= k < 3 && 0 <= m < 3
    requires f.xmin <= l.x <= f.xmax && f.ymin <= l.y <= f.ymax
    ensures CellOf(l, f) == k + 3 * m <==>
              k * w <= 3 * (l.x - f.xmin) < (k + 1) * w && m * h <= 3 * (l.y - f.ymin) < (m + 1) * h
  {
    hide CellOf;
    CellExactly(l, f, k, m);
  }

  /** Every point has one column and one row. */
  lemma CellHasPlace(l: Location, f: Frame) returns (k: int, m: int)
    requires ProperFrame(f)
    ensures 0 <= k < 3 && 0 <= m < 3 && CellOf(l, f) == k + 3 * m
    ensures InPart(l.x, f.xmin, f.xmax, k) && InPart(l.y, f.ymin, f.ymax, m)
  {
    hide Third, InPart;
    k, m := Third(l.x, f.xmin, f.xmax), Third(l.y, f.ymin, f.ymax);
    CellExactly(l, f, k, m);
  }

  // ----- What selection means in the frame -----

  /** Two points in the same column and the same row. */
  ghost predicate SamePlace(a: Location, b: Location, f: Frame) {
    exists k, m ::
      && InPart(a.x, f.xmin, f.xmax, k) && InPart(b.x, f.xmin, f.xmax, k)
      && InPart(a.y, f.ymin, f.ymax, m) && InPart(b.y, f.ymin, f.ymax, m)
  }

  lemma SameCellSamePlace(a: Location, b: Location, f: Frame)
    requires ProperFrame(f)
    ensures CellOf(a, f) == CellOf(b, f) <==> SamePlace(a, b, f)
  {
    hide CellOf, InPart;
    var k, m := CellHasPlace(a, f);
    CellExactly(b, f, k, m);
    if CellOf(a, f) == CellOf(b, f) {
      assert SamePlace(a, b, f);
    }
    if SamePlace(a, b, f) {
      var i, j :| InPart(a.x, f.xmin, f.xmax, i) && InPart(b.x, f.xmin, f.xmax, i)
                  && InPart(a.y, f.ymin, f.ymax, j) && InPart(b.y, f.ymin, f.ymax, j);
      PartsFit(a, f, i, j);
      CellExactly(a, f, i, j);
      CellExactly(b, f, i, j);
    }
  }

  lemma PartsFit(a: Location, f: Frame, i: int, j: int)
    requires InPart(a.x, f.xmin, f.xmax, i) && InPart(a.y, f.ymin, f.ymax, j)
    ensures 0 <= i < 3 && 0 <= j < 3
  {
  }

  lemma {:induction false} SomeCounted(cells: seq<nat>, c: nat, at: nat)
    requires at <= |cells| && CountIn(cells, c, at) > 0
    ensures exists i: nat :: i < at && cells[i] == c
    decreases at
  {
    if cells[at - 1] != c {
      SomeCounted(cells, c, at - 1);
    }
  }

  /** A point ranked before a chosen one in the same place is chosen too. */
  lemma BetterFirst(ranked: seq<Location>, f: Frame, wanted: nat, chosen: seq<nat>, fronts: seq<nat>, i: nat, j: nat)
    requires ProperFrame(f) && Selected(Cells(ranked, f), wanted, chosen, fronts)
    requires i in chosen && j < i && i < |ranked| && SamePlace(ranked[i], ranked[j], f)
    ensures j in chosen
  {
    hide CellOf, SamePlace;
    var cells := Cells(ranked, f);
    assert cells[i] == CellOf(ranked[i], f) && cells[j] == CellOf(ranked[j], f);
    SameCellSamePlace(ranked[i], ranked[j], f);
    var x :| 0 <= x < |chosen| && chosen[x] == i;
  }

  /** No place gets a second choice while another occupied place has none. */
  lemma PlacesShare(ranked: seq<Location>, f: Frame, wanted: nat, chosen: seq<nat>, fronts: seq<nat>,
                    a: nat, b: nat, j: nat) returns (k: nat)
    requires ProperFrame(f) && Selected(Cells(ranked, f), wanted, chosen, fronts)
    requires a in chosen && b in chosen && a < b < |ranked| && SamePlace(ranked[a], ranked[b], f) && j < |ranked|
    ensures k in chosen && k < |ranked| && SamePlace(ranked[k], ranked[j], f)
  {
    hide CellOf, SamePlace;
    var cells := Cells(ranked, f);
    assert forall i | 0 <= i < |ranked| :: cells[i] == CellOf(ranked[i], f);
    hide Cells;
    SameCellSamePlace(ranked[a], ranked[b], f);
    var c, d := cells[a], cells[j];
    var x :| 0 <= x < |chosen| && chosen[x] == b;
    OneMoreBelow(cells, c, a, b);
    OneMoreBelow(cells, c, b, fronts[c]);
    OneMoreBelow(cells, d, j, |cells|);
    assert CountIn(cells, d, fronts[d]) > 0;
    SomeCounted(cells, d, fronts[d]);
    k :| k < fronts[d] && cells[k] == d;
    SameCellSamePlace(ranked[k], ranked[j], f);
  }

  lemma RankOf(points: seq<Keypoint>, ranks: seq<Ranked>, j: nat) returns (q: nat)
    requires Ranking(points, ranks) && j < |points|
    ensures q < |ranks| && ranks[q].index == j
  {
    assert Records(points)[j] in multiset(Records(points));
    assert Records(points)[j] in multiset(ranks);
    q :| 0 <= q < |ranks| && ranks[q] == Records(points)[j];
  }

  lemma RanksDescend(points: seq<Keypoint>, ranks: seq<Ranked>, p: nat, q: nat)
    requires Ranking(points, ranks) && p <= q < |ranks|
    ensures ranks[p].score >= ranks[q].score
  {
  }

  /** Only coordinates matter. */
  lemma SameAgain(a: Location, b: Location, c: Location, d: Location, f: Frame)
    requires SamePlace(a, b, f) && c.x == a.x && c.y == a.y && d.x == b.x && d.y == b.y
    ensures SamePlace(c, d, f)
  {
    hide InPart;
  }

  /** Of two points of a level that fall into one column and row of the image, the one chosen is not
      the worse one. */
  lemma BestOfPlace(points: seq<Keypoint>, place: Placement, f: Frame, chosen: seq<nat>, i: nat, j: nat)
    requires PickedByRank(points, place, f, chosen) && i in chosen && i < |points| && j < |points| && j !in chosen
    requires var a, b := place(points[i]), place(points[j]); SamePlace(Location(i, a.0, a.1), Location(j, b.0, b.1), f)
    ensures points[j].score <= points[i].score
  {
    hide CellOf, Selected, Ranking, Cells, SamePlace;
    var ranks, picks, fronts :| PickedFrom(points, place, f, chosen, ranks, picks, fronts);
    RankingIsPermutation(points, ranks);
    var ls := Locations(points, ranks, place);
    var x :| 0 <= x < |chosen| && chosen[x] == i;
    var q := RankOf(points, ranks, j);
    var p := picks[x];
    assert p in picks;
    if q < p {
      var a, b := place(points[i]), place(points[j]);
      SameAgain(Location(i, a.0, a.1), Location(j, b.0, b.1), ls[p], ls[q], f);
      BetterFirst(ls, f, |chosen|, picks, fronts, p, q);
    } else {
      RanksDescend(points, ranks, p, q);
    }
  }
}
