/** What fitting means (`fpc_fit_similarity_pair`, `fpc_similarity_error`): points that all moved by
    one vector, or were turned by a quarter, are fitted exactly and are all inliers. */
module Displacement {
  import opened Words
  import opened Bytes
  import opened Similarity
  import opened Geometry

  // ----- Pairs that moved or turned -----

  /** The point moved by (dx, dy). */
  predicate Moved(p: Point, dx: int, dy: int) {
    p.targetX == p.x + dx && p.targetY == p.y + dy
  }

  /** The point was turned by a quarter about the origin, then moved by (dx, dy). */
  predicate Turned(p: Point, dx: int, dy: int) {
    p.targetX == dx - p.y && p.targetY == dy + p.x
  }

  /** m is the positive number n doubled until it reaches 2^30. */
  ghost predicate ScaledTo(n: nat, m: nat) {
    0x4000_0000 <= m < 0x8000_0000 && exists k: nat :: m == Doubled(n, k)
  }

  /** The dividend of the fitter, rounding included, stays below 2^31 once n is scaled. */
  ghost predicate Unwrapped(n: nat) {
    forall m: nat | ScaledTo(n, m) :: m + m / 0x8000 < 0x8000_0000
  }

  /** A squared distance the fitter can divide by: positive as a signed word, no dividend wraps. */
  ghost predicate Scalable(n: nat) {
    0 < n < 0x8000_0000 && Unwrapped(n)
  }

  lemma {:induction false} Pow2Grows(a: nat, b: nat)
    requires a <= b
    ensures Pow2(a) <= Pow2(b)
    decreases b
  {
    if a < b {
      Pow2Grows(a, b - 1);
    }
  }

  /** There is one such number. */
  lemma ScalingIsUnique(n: nat, j: nat, k: nat)
    requires 0x4000_0000 <= Doubled(n, j) < 0x8000_0000 && 0x4000_0000 <= Doubled(n, k) < 0x8000_0000
    ensures Doubled(n, j) == Doubled(n, k)
  {
    hide Doubled;
    if j < k {
      DoublesMore(n, j, k);
    } else if k < j {
      DoublesMore(n, k, j);
    }
  }

  lemma DoublesMore(n: nat, j: nat, k: nat)
    requires j < k
    ensures Doubled(n, k) >= 2 * Doubled(n, j)
  {
    Pow2Grows(j + 1, k);
    assert Pow2(j + 1) == 2 * Pow2(j);
    hide Pow2;
    MulMonotone(2 * Pow2(j), Pow2(k), n);
    assert n * (2 * Pow2(j)) == 2 * (n * Pow2(j));
  }

  // ----- The coefficients -----

  /** The scaled norm and its divisor. */
  lemma ScaledNorm(norm: u32) returns (m: nat)
    requires 0 < norm < 0x8000_0000
    ensures m == Doubled(norm, ShiftFor(norm)) && 0x4000_0000 <= m < 0x8000_0000 && ScaledTo(norm, m)
    ensures Divisor(norm) == m / 0x4000
    ensures Unwrapped(norm) <==> m + m / 0x8000 < 0x8000_0000
  {
    hide ShiftFor, Doubled;
    m := Doubled(norm, ShiftFor(norm));
    NormScales(norm);
    DivisorIs(norm, m);
    assert ScaledTo(norm, m);
    forall other: nat | ScaledTo(norm, other) ensures other == m {
      var k: nat :| other == Doubled(norm, k);
      ScalingIsUnique(norm, k, ShiftFor(norm));
    }
  }

  /** A product as large as the norm gives one, 2^14, exactly when the dividend does not wrap. */
  lemma WholeCoefficient(norm: u32)
    requires 0 < norm < 0x8000_0000
    ensures Divisor(norm) > 0 && (Coefficient(norm, norm) == 0x4000 <==> Unwrapped(norm))
  {
    hide Pow2, ShiftFor, Unwrapped, ScaledTo, Divisor, Coefficient, Doubled;
    var m := ScaledNorm(norm);
    DivisorRange(norm);
    WholeDividend(norm, m);
    WholeQuotient(m);
  }

  lemma WholeDividend(norm: u32, m: nat)
    requires norm > 0 && m == Doubled(norm, ShiftFor(norm)) && Divisor(norm) == m / 0x4000 > 0
    ensures Coefficient(norm, norm) == Quotient(Int32(m + m / 0x4000 / 2), m / 0x4000)
  {
    hide Pow2, ShiftFor, Divisor, Quotient, Int32;
    assert Low32(norm) == norm;
  }

  lemma WholeQuotient(m: nat)
    requires 0x4000_0000 <= m < 0x8000_0000
    ensures Quotient(Int32(m + m / 0x4000 / 2), m / 0x4000) == 0x4000 <==> m + m / 0x8000 < 0x8000_0000
  {
    var d := m / 0x4000;
    assert d / 2 == m / 0x8000;
    var a := m + d / 2;
    if a < 0x8000_0000 {
      Int32Small(a);
      assert a == d * 0x4000 + (m % 0x4000 + d / 2) && 0 <= m % 0x4000 + d / 2 < d;
      DividesOnce(a, d, 0x4000, m % 0x4000 + d / 2);
    } else {
      assert Int32(a) < 0;
      NegativeQuotient(Int32(a), d);
    }
  }

  lemma DividesOnce(a: nat, d: nat, q: nat, r: nat)
    requires d > 0 && a == d * q + r && r < d
    ensures a / d == q
  {
    if a / d < q {
      MulMonotone(a / d + 1, q, d);
    } else if a / d > q {
      MulMonotone(q + 1, a / d, d);
    }
  }

  lemma NegativeQuotient(a: int, d: nat)
    requires a < 0 < d
    ensures Quotient(a, d) <= 0
  {
  }

  /** No product gives nothing: the rounding half is below the divisor. */
  lemma NoCoefficient(norm: u32)
    requires 0 < norm < 0x8000_0000
    ensures Divisor(norm) > 0 && Coefficient(0, norm) == 0
  {
    hide Pow2, ShiftFor;
    DivisorRange(norm);
    var d := Divisor(norm);
    assert 0 * Pow2(ShiftFor(norm)) == 0;
    Int32Small(d / 2);
    DividesOnce(d / 2, d, 0, d / 2);
  }

  // ----- The fitted transform -----

  /** No turn, moved by (dx, dy). */
  function Shift(dx: i16, dy: i16): Transform {
    Transform(0x4000, 0, dx, dy)
  }

  /** A quarter turn, then moved by (dx, dy). */
  function QuarterTurn(dx: i16, dy: i16): Transform {
    Transform(0, 0x4000, dx, dy)
  }

  lemma LowCoefficient(product: int, norm: u32)
    requires norm > 0 && Divisor(norm) != 0 && Low32(product) == norm
    ensures Coefficient(product, norm) == Coefficient(norm, norm)
  {
    hide Divisor, ShiftFor, Pow2, Quotient, Int32;
  }

  lemma HalfOfOdd(d: i16)
    ensures Int16(Int32((2 * d + 1) * 0x4000) / 0x8000) == d
  {
    Int32Small((2 * d + 1) * 0x4000);
  }

  lemma MovedTranslation(a: Point, b: Point, dx: i16, dy: i16)
    requires Moved(a, dx, dy) && Moved(b, dx, dy)
    ensures Assembled(a, b, 0x4000, 0) == Shift(dx, dy)
  {
    hide Int32, Int16;
    Int16Small(0x4000);
    Int16Small(0);
    HalfOfOdd(dx);
    HalfOfOdd(dy);
    assert (a.targetX + b.targetX + 1) * 0x4000 - (a.x + b.x) * 0x4000 + (a.y + b.y) * 0 == (2 * dx + 1) * 0x4000;
    assert (a.targetY + b.targetY + 1) * 0x4000 - (a.x + b.x) * 0 - (a.y + b.y) * 0x4000 == (2 * dy + 1) * 0x4000;
  }

  lemma TurnedTranslation(a: Point, b: Point, dx: i16, dy: i16)
    requires Turned(a, dx, dy) && Turned(b, dx, dy)
    ensures Assembled(a, b, 0, 0x4000) == QuarterTurn(dx, dy)
  {
    hide Int32, Int16;
    Int16Small(0x4000);
    Int16Small(0);
    HalfOfOdd(dx);
    HalfOfOdd(dy);
    assert (a.targetX + b.targetX + 1) * 0x4000 - (a.x + b.x) * 0 + (a.y + b.y) * 0x4000 == (2 * dx + 1) * 0x4000;
    assert (a.targetY + b.targetY + 1) * 0x4000 - (a.x + b.x) * 0x4000 - (a.y + b.y) * 0 == (2 * dy + 1) * 0x4000;
  }

  /** The true squared distance of the two source points, modulo 2^32. */
  function Apart(a: Point, b: Point): u32 {
    Low32((b.x - a.x) * (b.x - a.x) + (b.y - a.y) * (b.y - a.y))
  }

  // ----- Pairs too far apart to be scaled -----

  lemma ShiftedOut(x: nat, r: int)
    requires -0x8000_0000 <= r < 0
    ensures (x * 0x8000_0000 + r) % 0x1_0000_0000 == if x % 2 == 0 then 0x1_0000_0000 + r else 0x8000_0000 + r
    ensures (x * 0x8000_0000) % 0x1_0000_0000 == if x % 2 == 0 then 0 else 0x8000_0000
  {
    var k := x / 2;
    assert x * 0x8000_0000 == k * 0x1_0000_0000 + (x % 2) * 0x8000_0000;
  }

  /** From a squared distance of 2^31 on, modulo 2^32, all but one bit is shifted out: whatever its
      two points say, no coefficient is 2^14. */
  lemma FarCoefficient(product: int, norm: u32)
    requires norm >= 0x8000_0000 && Divisor(norm) != 0
    ensures Coefficient(product, norm) in {0, -16383}
  {
    hide Pow2, Quotient;
    Pow2Values();
    assert ShiftFor(norm) == 31;
    ShiftedOut(norm, -1);
    assert Divisor(norm) == -131072;
    ShiftedOut(Low32(product), -65536);
    var a := Int32(Low32(product) * 0x8000_0000 - 65536);
    assert a == -65536 || a == 0x7fff_0000;
    FarQuotients();
  }

  lemma FarQuotients()
    ensures Quotient(-65536, -131072) == 0 && Quotient(0x7fff_0000, -131072) == -16383
  {
  }

  lemma FarPairMisses(a: Point, b: Point, dx: i16, dy: i16)
    requires Apart(a, b) == 0 || Apart(a, b) >= 0x8000_0000
    ensures Fit(a, b) != Some(Shift(dx, dy)) && Fit(a, b) != Some(QuarterTurn(dx, dy))
  {
    hide Coefficient, Divisor;
    var norm := SourceNorm(a, b);
    assert norm == Apart(a, b);
    if norm != 0 && Divisor(norm) != 0 {
      FarCoefficient(Dot(a, b), norm);
      FarCoefficient(Cross(a, b), norm);
    }
  }

  /** A pair that moved by one vector is fitted by exactly that move, except when its points coincide
      or lie too far apart, or scaling its squared distance brings the dividend past 2^31. */
  lemma MovedPairFits(a: Point, b: Point, dx: i16, dy: i16)
    requires Moved(a, dx, dy) && Moved(b, dx, dy)
    ensures Fit(a, b) == Some(Shift(dx, dy)) <==> Scalable(Apart(a, b))
  {
    hide Fit, Shift;
    if 0 < Apart(a, b) < 0x8000_0000 {
      NearMovedPairFits(a, b, dx, dy);
    } else {
      FarPairMisses(a, b, dx, dy);
    }
  }

  lemma NearMovedPairFits(a: Point, b: Point, dx: i16, dy: i16)
    requires Moved(a, dx, dy) && Moved(b, dx, dy) && 0 < Apart(a, b) < 0x8000_0000
    ensures Fit(a, b) == Some(Shift(dx, dy)) <==> Unwrapped(Apart(a, b))
  {
    hide Coefficient, Divisor, Int32, Int16, Unwrapped, Assembled;
    var norm := SourceNorm(a, b);
    assert norm == Apart(a, b);
    PositiveNormFits(a, b);
    var ex, ey := b.x - a.x, b.y - a.y;
    assert Dot(a, b) == ex * ex + ey * ey;
    assert Cross(a, b) == 0 by { assert ex * ey == ey * ex; }
    LowCoefficient(Dot(a, b), norm);
    WholeCoefficient(norm);
    NoCoefficient(norm);
    if Unwrapped(norm) {
      MovedTranslation(a, b, dx, dy);
    }
  }

  /** A pair turned by a quarter is fitted by that turn, under the same condition. */
  lemma TurnedPairFits(a: Point, b: Point, dx: i16, dy: i16)
    requires Turned(a, dx, dy) && Turned(b, dx, dy)
    ensures Fit(a, b) == Some(QuarterTurn(dx, dy)) <==> Scalable(Apart(a, b))
  {
    hide Fit, QuarterTurn;
    if 0 < Apart(a, b) < 0x8000_0000 {
      NearTurnedPairFits(a, b, dx, dy);
    } else {
      FarPairMisses(a, b, dx, dy);
    }
  }

  lemma NearTurnedPairFits(a: Point, b: Point, dx: i16, dy: i16)
    requires Turned(a, dx, dy) && Turned(b, dx, dy) && 0 < Apart(a, b) < 0x8000_0000
    ensures Fit(a, b) == Some(QuarterTurn(dx, dy)) <==> Unwrapped(Apart(a, b))
  {
    hide Coefficient, Divisor, Int32, Int16, Unwrapped, Assembled;
    var norm := SourceNorm(a, b);
    assert norm == Apart(a, b);
    PositiveNormFits(a, b);
    var ex, ey := b.x - a.x, b.y - a.y;
    assert b.targetX - a.targetX == -ey && b.targetY - a.targetY == ex;
    assert Cross(a, b) == ex * ex + ey * ey by { assert ey * (-ey) == -(ey * ey); }
    assert Dot(a, b) == 0 by { assert ex * (-ey) == -(ey * ex); }
    LowCoefficient(Cross(a, b), norm);
    WholeCoefficient(norm);
    NoCoefficient(norm);
    if Unwrapped(norm) {
      TurnedTranslation(a, b, dx, dy);
    }
  }

  // ----- Where the dividend wraps -----

  /** Prepared features lie 16 units apart; within such a grid no dividend wraps. */
  lemma GridNeverWraps(q: nat)
    requires 0 < q < 0x7fff
    ensures Unwrapped(256 * q)
  {
    forall m: nat | ScaledTo(256 * q, m) ensures m + m / 0x8000 < 0x8000_0000 {
      var k: nat :| m == Doubled(256 * q, k);
      assert Pow2(8) == 256;
      Pow2Adds(8, k);
      assert m == q * Pow2(k + 8) by { assert 256 * q * Pow2(k) == q * (256 * Pow2(k)); }
      GridLeavesRoom(q, k + 8, m);
    }
  }

  lemma GridLeavesRoom(q: nat, j: nat, m: nat)
    requires 0 < q < 0x8000 && m == q * Pow2(j) && 0x4000_0000 <= m < 0x8000_0000
    ensures m <= 0x8000_0000 - 0x1_0000
  {
    hide Pow2;
    Pow2Values();
    if j < 16 {
      Pow2Grows(j, 15);
      FifteenBits();
      MulMonotone(Pow2(j), 0x8000, q);
    } else if j <= 31 {
      Pow2Grows(16, j);
      FifteenBits();
      Pow2Adds(31 - j, j);
      if q >= Pow2(31 - j) {
        MulMonotone(Pow2(31 - j), q, Pow2(j));
      } else {
        MulMonotone(q + 1, Pow2(31 - j), Pow2(j));
        assert (q + 1) * Pow2(j) == q * Pow2(j) + Pow2(j);
      }
    } else {
      Pow2Grows(31, j);
      MulMonotone(1, q, Pow2(j));
    }
  }

  lemma FifteenBits()
    ensures Pow2(15) == 0x8000 && Pow2(16) == 0x1_0000
  {
    assert Pow2(8) == 256 && Pow2(7) == 128;
    Pow2Adds(8, 8);
    Pow2Adds(8, 7);
  }

  /** Off the grid it can: two points (2047, 63) apart that did not move are not fitted as such. */
  lemma WrapHappens()
    ensures var a, b := Point(0, 0, 0, 0), Point(2047, 63, 2047, 63);
            Moved(a, 0, 0) && Moved(b, 0, 0) && Acceptable(a, b) && Fit(a, b) != Some(Shift(0, 0))
  {
    var a, b := Point(0, 0, 0, 0), Point(2047, 63, 2047, 63);
    assert Apart(a, b) == 4194178;
    assert Acceptable(a, b) by {
      NormIsExact(2047, 63);
    }
    assert Pow2(9) == 512;
    assert ScaledTo(4194178, 4194178 * 512) by {
      assert Doubled(4194178, 9) == 4194178 * 512;
    }
    MovedPairFits(a, b, 0, 0);
  }

  // ----- Errors -----

  lemma MissedBy(p: Point, t: Transform, ux: int, uy: int)
    requires -0x8000 < ux < 0x8000 && -0x8000 < uy < 0x8000
    requires p.x * t.c - p.y * t.s + t.tx * 0x4000 - p.targetX * 0x4000 == -ux * 0x4000
    requires p.y * t.c + p.x * t.s + t.ty * 0x4000 - p.targetY * 0x4000 == -uy * 0x4000
    ensures Inlier(p, t) <==> ux * ux + uy * uy < 768
  {
    hide Int32, Norm, SignedNorm;
    Int32Small(-ux * 0x4000);
    Int32Small(-uy * 0x4000);
    NormIsExact(-ux, -uy);
    assert Error(p, t) == Norm(-ux, -uy);
    assert Signed32(Norm(-ux, -uy)) == SignedNorm(-ux, -uy) by { SignedIs(-ux, -uy); }
    assert (-ux) * (-ux) == ux * ux && (-uy) * (-uy) == uy * uy;
  }

  lemma SignedIs(dx: int, dy: int)
    ensures Signed32(Norm(dx, dy)) == SignedNorm(dx, dy)
  {
  }

  /** After a shift a point's error is the squared distance by which it missed. */
  lemma ShiftError(p: Point, dx: i16, dy: i16, ux: int, uy: int)
    requires p.targetX == p.x + dx + ux && p.targetY == p.y + dy + uy
    requires -0x8000 < ux < 0x8000 && -0x8000 < uy < 0x8000
    ensures Inlier(p, Shift(dx, dy)) <==> ux * ux + uy * uy < 768
  {
    hide Inlier;
    MissedBy(p, Shift(dx, dy), ux, uy);
  }

  /** So it is after a quarter turn. */
  lemma TurnError(p: Point, dx: i16, dy: i16, ux: int, uy: int)
    requires p.targetX == dx - p.y + ux && p.targetY == dy + p.x + uy
    requires -0x8000 < ux < 0x8000 && -0x8000 < uy < 0x8000
    ensures Inlier(p, QuarterTurn(dx, dy)) <==> ux * ux + uy * uy < 768
  {
    hide Inlier;
    MissedBy(p, QuarterTurn(dx, dy), ux, uy);
  }

  // ----- The consensus -----

  /** Index pairs whose fit the search counts inliers for. */
  ghost function Considered(points: Points, s: Search): set<(nat, nat)>
    requires Running(points, s)
    decreases 10000 - s.iteration
  {
    if s.iteration >= s.limit then {}
    else
      IterateRuns(points, s);
      RefillIsSampled(points, s);
      var pair := Refill(points, s).pairs[s.iteration % 16];
      var rest := Considered(points, Iterate(points, s));
      if Acceptable(points[pair.0], points[pair.1]) && !(s.iteration > 1500 && s.accepted + 32768 < s.progress) then
        rest + {pair}
      else rest
  }

  /** The pair of this iteration. */
  ghost function PairNow(points: Points, s: Search): (pair: (nat, nat))
    requires Running(points, s)
    ensures pair.0 < |points| && pair.1 < |points|
  {
    RefillIsSampled(points, s);
    PairAt(points, Refill(points, s).pairs, s.iteration % 16);
    Refill(points, s).pairs[s.iteration % 16]
  }

  /** Whether the inliers of its fit are counted. */
  ghost predicate Counts(points: Points, s: Search)
    requires Running(points, s)
  {
    var pair := PairNow(points, s);
    Acceptable(points[pair.0], points[pair.1]) && !(s.iteration > 1500 && s.accepted + 32768 < s.progress)
  }

  lemma OneIteration(points: Points, s: Search)
    requires Running(points, s) && s.iteration < s.limit
    ensures Running(points, Iterate(points, s)) && Iterate(points, s).iteration == s.iteration + 1
    ensures var pair, next := PairNow(points, s), Iterate(points, s);
            if Counts(points, s) then
              && Fit(points[pair.0], points[pair.1]).Some?
              && Considered(points, s) == Considered(points, next) + {pair}
              && Counted(points, s) == Counted(points, next) + {Fit(points[pair.0], points[pair.1]).value}
            else Considered(points, s) == Considered(points, next) && Counted(points, s) == Counted(points, next)
  {
    hide Fit, Acceptable, Running, Iterate, Sampled, Refill, Sample;
    IterateRuns(points, s);
    var pair := PairNow(points, s);
    if Acceptable(points[pair.0], points[pair.1]) {
      AcceptedPairFits(points[pair.0], points[pair.1]);
    }
  }

  /** What the fitter makes of such a pair is what the search counted. */
  lemma {:induction false} ConsideredIsCounted(points: Points, s: Search, pair: (nat, nat))
    requires Running(points, s) && pair in Considered(points, s)
    ensures pair.0 < |points| && pair.1 < |points| && Acceptable(points[pair.0], points[pair.1])
    ensures Fit(points[pair.0], points[pair.1]).Some? && Fit(points[pair.0], points[pair.1]).value in Counted(points, s)
    decreases 10000 - s.iteration
  {
    NothingPast(points, s);
    hide Fit, Acceptable, Iterate, Sample, Refill, Considered, Counted, PairNow;
    OneIteration(points, s);
    if pair in Considered(points, Iterate(points, s)) {
      ConsideredIsCounted(points, Iterate(points, s), pair);
    }
  }

  lemma NothingPast(points: Points, s: Search)
    requires Running(points, s) && Considered(points, s) != {}
    ensures s.iteration < s.limit
  {
    hide Fit, Acceptable, Iterate, Sample, Refill;
  }

  /** The first pair sampled is considered when it is acceptable. */
  lemma FirstPairIsConsidered(points: Points)
    requires 0 < |points|
    ensures Running(points, Start()) && |Sample(Start().seeds, |points|).0| == 16
    ensures var pair := Sample(Start().seeds, |points|).0[0];
            && pair.0 < |points| && pair.1 < |points|
            && (Acceptable(points[pair.0], points[pair.1]) ==> pair in Considered(points, Start()))
  {
    hide Sample, Acceptable, Iterate, Fit;
    StartRuns(points);
    SampleInRange(Start().seeds, |points|);
    RefillIsSampled(points, Start());
  }

  predicate AllMoved(points: Points, dx: int, dy: int) {
    forall i | 0 <= i < |points| :: Moved(points[i], dx, dy)
  }

  lemma {:induction false} AllInliers(points: Points, t: Transform, n: nat)
    requires n <= |points| && forall i | 0 <= i < n :: Inlier(points[i], t)
    ensures CountInliers(points, t, n) == n
  {
    if n > 0 {
      AllInliers(points, t, n - 1);
    }
  }

  /** All points moved by one vector, and one considered pair whose squared distance does not wrap:
      the consensus is everybody. */
  lemma MovedTogether(points: Points, dx: i16, dy: i16, pair: (nat, nat))
    requires 0 < |points| && AllMoved(points, dx, dy) && Running(points, Start())
    requires pair in Considered(points, Start()) && pair.0 < |points| && pair.1 < |points|
    requires Unwrapped(Apart(points[pair.0], points[pair.1]))
    ensures BestConsensus(points).best == |points|
    ensures forall i | 0 <= i < |points| :: Inlier(points[i], BestConsensus(points).transform)
  {
    hide Fit, Acceptable, Unwrapped, Considered, Counted, SearchFrom, Inlier, Shift, Sample, Iterate, Refill;
    ConsideredIsCounted(points, Start(), pair);
    AcceptableIsApart(points[pair.0], points[pair.1]);
    MovedPairFits(points[pair.0], points[pair.1], dx, dy);
    forall i | 0 <= i < |points| ensures Inlier(points[i], Shift(dx, dy)) {
      ShiftError(points[i], dx, dy, 0, 0);
    }
    AllInliers(points, Shift(dx, dy), |points|);
    SearchEnds(points, Start());
    EveryoneCounts(points, BestConsensus(points).transform, |points|);
  }

  lemma AcceptableIsApart(a: Point, b: Point)
    requires Acceptable(a, b)
    ensures 0 < Apart(a, b) < 0x8000_0000
  {
  }

  lemma {:induction false} EveryoneCounts(points: Points, t: Transform, n: nat)
    requires n <= |points| && CountInliers(points, t, n) == n
    ensures forall i | 0 <= i < n :: Inlier(points[i], t)
  {
    hide Inlier;
    if n > 0 {
      EveryoneCounts(points, t, n - 1);
    }
  }

  /** On the grid of prepared features one acceptable pair considered is enough. */
  lemma GridMovedTogether(points: Points, dx: i16, dy: i16, pair: (nat, nat), u: int, v: int)
    requires 0 < |points| && AllMoved(points, dx, dy) && Running(points, Start())
    requires pair in Considered(points, Start()) && pair.0 < |points| && pair.1 < |points|
    requires points[pair.1].x - points[pair.0].x == 16 * u && points[pair.1].y - points[pair.0].y == 16 * v
    requires -112 < u < 112 && -88 < v < 88
    ensures BestConsensus(points).best == |points|
  {
    hide Fit, Acceptable, Unwrapped, Considered, Counted, Running, Inlier, BestConsensus, Sample, Iterate, Refill,
         AllMoved;
    var a, b := points[pair.0], points[pair.1];
    ConsideredIsCounted(points, Start(), pair);
    AcceptableIsApart(a, b);
    GridSquares(u, v);
    assert 16 * u * (16 * u) + 16 * v * (16 * v) == 256 * (u * u + v * v);
    GridNeverWraps(u * u + v * v);
    MovedTogether(points, dx, dy, pair);
  }

  lemma GridSquares(u: int, v: int)
    requires -112 < u < 112 && -88 < v < 88
    ensures 0 <= u * u + v * v < 0x7fff
  {
    var m, n := if u < 0 then -u else u, if v < 0 then -v else v;
    assert u * u == m * m && v * v == n * n;
    MulMonotone(m, 111, m);
    MulMonotone(m, 111, 111);
    MulMonotone(n, 87, n);
    MulMonotone(n, 87, 87);
  }

  // ----- Which pairs are drawn -----

  /** The sixteen pairs of draws, out of 65536, that the search begins with. */
  const FIRST_DRAWS: seq<(nat, nat)> := [
    (32767, 16768), (16383, 8384), (8191, 4192), (4095, 2096), (2047, 1048), (1023, 524), (511, 262), (33023, 131),
    (16511, 65), (8255, 32), (4127, 32784), (2063, 49160), (1031, 24580), (515, 12290), (257, 6145), (128, 35840)]

  lemma FirstWords()
    ensures Stir(0xfffe) == 0x80fffe && Stir(0x8300) == 0xc008300
    ensures Stir(0x80ff) == 0x7c0080ff && Stir(0xc0083) == 0x438c0083
    ensures (0x80fffe as bv32) >> 8 == 0x80ff && (0xc008300 as bv32) >> 8 == 0xc0083
  {
  }

  lemma DrawsOfFirst()
    ensures forall k: nat | 1 <= k <= 8 :: Draw(0x80fffe, k) == FIRST_DRAWS[k - 1].0
    ensures forall k: nat | 1 <= k <= 8 :: Draw(0xc008300, k) == FIRST_DRAWS[k - 1].1
  {
    forall k: nat | 1 <= k <= 8
      ensures Draw(0x80fffe, k) == FIRST_DRAWS[k - 1].0 && Draw(0xc008300, k) == FIRST_DRAWS[k - 1].1
    {
      assert k in {1, 2, 3, 4, 5, 6, 7, 8};
    }
  }

  lemma DrawsOfSecond()
    ensures forall k: nat | 1 <= k <= 8 :: Draw(0x7c0080ff, k) == FIRST_DRAWS[k + 7].0
    ensures forall k: nat | 1 <= k <= 8 :: Draw(0x438c0083, k) == FIRST_DRAWS[k + 7].1
  {
    forall k: nat | 1 <= k <= 8
      ensures Draw(0x7c0080ff, k) == FIRST_DRAWS[k + 7].0 && Draw(0x438c0083, k) == FIRST_DRAWS[k + 7].1
    {
      assert k in {1, 2, 3, 4, 5, 6, 7, 8};
    }
  }

  /** The first sixteen index pairs of every search, for any number of points. */
  lemma FirstSixteen(count: nat, k: nat)
    requires k < 16
    ensures Sample(Start().seeds, count).0[k] ==
            (count * FIRST_DRAWS[k].0 / 0x1_0000, count * FIRST_DRAWS[k].1 / 0x1_0000)
  {
    FirstWords();
    DrawsOfFirst();
    DrawsOfSecond();
    hide Draw, Stir;
    var s, t := Start().seeds, Seeds(0x80ff, 0xc0083);
    assert NextSeeds(s) == t && Sample(s, count).0 == Batch(s, count) + Batch(t, count);
    if k < 8 {
      assert Batch(s, count)[k] == (IndexOf(Draw(0x80fffe, k + 1), count), IndexOf(Draw(0xc008300, k + 1), count));
    } else {
      assert Batch(t, count)[k - 8] ==
             (IndexOf(Draw(0x7c0080ff, k - 7), count), IndexOf(Draw(0x438c0083, k - 7), count));
    }
  }

  // ----- Which pairs are acceptable -----

  /** For vectors short enough not to wrap: the source is longer than 16 units, and the squared
      lengths differ by less than an eighth of the source's. */
  lemma AcceptableExactly(a: Point, b: Point)
    requires var ex, ey, fx, fy := b.x - a.x, b.y - a.y, b.targetX - a.targetX, b.targetY - a.targetY;
             -0x4000 < ex < 0x4000 && -0x4000 < ey < 0x4000 && -0x4000 < fx < 0x4000 && -0x4000 < fy < 0x4000
    ensures var ex, ey, fx, fy := b.x - a.x, b.y - a.y, b.targetX - a.targetX, b.targetY - a.targetY;
            var n, m := ex * ex + ey * ey, fx * fx + fy * fy;
            Acceptable(a, b) <==> n > 256 && (if m < n then n - m else m - n) < n / 8
  {
    var ex, ey, fx, fy := b.x - a.x, b.y - a.y, b.targetX - a.targetX, b.targetY - a.targetY;
    NormIsExact(ex, ey);
    NormIsExact(fx, fy);
    QuarterSquare(ex);
    QuarterSquare(ey);
    var n := ex * ex + ey * ey;
    Int32Small(n - n / 8);
    Int32Small(n + n / 8);
  }

  lemma QuarterSquare(d: int)
    requires -0x4000 < d < 0x4000
    ensures 0 <= d * d < 0x1000_0000
  {
    var m := if d < 0 then -d else d;
    assert d * d == m * m;
    MulMonotone(m, 0x3fff, m);
    MulMonotone(m, 0x3fff, 0x3fff);
  }

  // ----- How long the search goes on -----

  /** Limits by the share of inliers, in thirty-seconds: 10000 for the first, then fewer and fewer. */
  lemma QuotaValues()
    ensures seq(16, k requires 0 <= k < 16 => Quota(k)) ==
            [4000, 10000, 7324, 5371, 4000, 2600, 1960, 1540, 1160, 940, 740, 560, 320, 200, 120, 80]
  {
  }

  lemma QuotaFalls(a: nat, b: nat)
    requires 1 <= a <= b < 16
    ensures Quota(b) <= Quota(a)
  {
    QuotaValues();
    var q := seq(16, k requires 0 <= k < 16 => Quota(k));
    assert q[a] == Quota(a) && q[b] == Quota(b);
    hide Quota;
    FallingTable(a, b);
  }

  lemma FallingTable(a: nat, b: nat)
    requires 1 <= a <= b < 16
    ensures var q := [4000, 10000, 7324, 5371, 4000, 2600, 1960, 1540, 1160, 940, 740, 560, 320, 200, 120, 80];
            q[b] <= q[a]
  {
  }

  /** The share of inliers in thirty-seconds, as the integer arithmetic sees it. */
  function Share(inliers: nat, count: nat): nat
    requires count > 0
  {
    inliers * (0x8000 / count) / 1024
  }

  /** From one thirty-second on, a larger consensus never lengthens the search. */
  lemma LimitFalls(a: nat, b: nat, count: nat)
    requires count > 0 && a <= b && Share(a, count) >= 1
    ensures LimitFor(b, count) <= LimitFor(a, count)
  {
    hide Quota;
    MulMonotone(a, b, 0x8000 / count);
    var x, y := Share(a, count), Share(b, count);
    QuotaFalls(if x > 15 then 15 else x, if y > 15 then 15 else y);
  }

  /** When everybody agrees, eighty iterations are enough. */
  lemma EverybodyEnds(count: nat)
    requires 0 < count <= 0x4000
    ensures LimitFor(count, count) == 80
  {
    var r := 0x8000 / count;
    assert r * count <= 0x8000 < (r + 1) * count == r * count + count;
    assert count * r == r * count;
    QuotaValues();
    assert seq(16, k requires 0 <= k < 16 => Quota(k))[15] == Quota(15);
    hide Quota;
  }

  /** No two points the sampler would accept. */
  ghost predicate Barren(points: Points) {
    forall i, j | 0 <= i < |points| && 0 <= j < |points| :: !Acceptable(points[i], points[j])
  }

  lemma BarrenStep(points: Points, s: Search)
    requires Running(points, s) && s.iteration < s.limit && Barren(points)
    ensures var r := Iterate(points, s);
            && r.iteration == s.iteration + 1 && r.limit == s.limit && r.best == s.best
            && r.accepted == s.accepted && r.transform == s.transform
  {
    hide Sample, Acceptable, Fit, Consider;
    RefillIsSampled(points, s);
  }

  lemma {:induction false} BarrenFrom(points: Points, s: Search)
    requires Running(points, s) && s.iteration <= s.limit && Barren(points)
    ensures var r := SearchFrom(points, s);
            && r.iteration == r.limit == s.limit && r.best == s.best && r.accepted == s.accepted
            && r.transform == s.transform
    decreases 10000 - s.iteration
  {
    assert s.limit <= 10000;
    hide Sample, Acceptable, Fit, Iterate, Running, Barren;
    if s.iteration < s.limit {
      IterateRuns(points, s);
      BarrenStep(points, s);
      BarrenFrom(points, Iterate(points, s));
    }
  }

  /** Where no pair is acceptable the search tries 1500 times and finds nothing. */
  lemma BarrenSearch(points: Points)
    requires 0 < |points| && Barren(points)
    ensures var r := BestConsensus(points);
            && r.iteration == 1500 && r.best == 0 && r.accepted == 0 && r.progress == 4424 * 1500
            && r.transform == Transform(0, 0, 0, 0)
  {
    hide Sample, Acceptable, Fit, Iterate, Barren, SearchFrom;
    StartRuns(points);
    BarrenFrom(points, Start());
    SearchEnds(points, Start());
  }
}
