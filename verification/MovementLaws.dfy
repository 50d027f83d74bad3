/** When a match counts as movement (`fpc_verify_geometry_profile300`): averages of two pixels, and
    single displacements of more than twenty-seven sixteenths. */
module MovementLaws {
  import opened Words
  import opened Bytes
  import opened Similarity
  import opened Geometry
  import opened GeometryVerification
  import opened Matching
  import opened Displacement

  /** The movement filter drops everything exactly when some point is flagged and, along one axis,
      the flagged points moved less than 32 units, two pixels, on average. */
  lemma StillExactly(points: Points, flags: seq<bool>)
    requires |points| == |flags|
    ensures var n, m := CountTrue(flags), Movement(points, flags, |points|);
            Still(points, flags) <==> n > 0 && (m.0 < 32 * n || m.1 < 32 * n)
  {
    var n, m := CountTrue(flags), Movement(points, flags, |points|);
    if n > 0 {
      BelowAverage(m.0, n);
      BelowAverage(m.1, n);
    }
  }

  lemma BelowAverage(sum: nat, n: nat)
    requires n > 0
    ensures sum / n < 32 <==> sum < 32 * n
  {
    var q := sum / n;
    assert q * n <= sum < q * n + n;
    if q < 32 {
      MulMonotone(q + 1, 32, n);
    } else {
      MulMonotone(32, q, n);
    }
  }

  lemma {:induction false} MovedSums(points: Points, flags: seq<bool>, dx: int, dy: int, n: nat)
    requires n <= |points| == |flags| && AllMoved(points, dx, dy)
    ensures var k := CountTrue(flags[..n]);
            Movement(points, flags, n) == (k * Magnitude(dx), k * Magnitude(dy))
  {
    hide Magnitude, Horizontal, Vertical, Moved;
    if n > 0 {
      MovedSums(points, flags, dx, dy, n - 1);
      assert flags[..n][..n - 1] == flags[..n - 1];
      MovedBy(points[n - 1], dx, dy);
      var k := CountTrue(flags[..n - 1]);
      OneTimeMore(k, Magnitude(dx));
      OneTimeMore(k, Magnitude(dy));
    }
  }

  lemma MovedBy(p: Point, dx: int, dy: int)
    requires Moved(p, dx, dy)
    ensures Horizontal(p) == Magnitude(dx) && Vertical(p) == Magnitude(dy)
  {
  }

  lemma OneTimeMore(k: nat, d: nat)
    ensures (k + 1) * d == k * d + d
  {
  }

  /** Points that all moved by one vector are still exactly when it is shorter than two pixels along
      an axis. */
  lemma MovedTogetherIsStill(points: Points, flags: seq<bool>, dx: int, dy: int)
    requires |points| == |flags| && AllMoved(points, dx, dy) && CountTrue(flags) > 0
    ensures Still(points, flags) <==> -32 < dx < 32 || -32 < dy < 32
  {
    hide CountTrue, Still, Movement;
    var n := CountTrue(flags);
    StillExactly(points, flags);
    MovedSums(points, flags, dx, dy, |points|);
    assert flags[..|points|] == flags;
    Compare(Magnitude(dx), n);
    Compare(Magnitude(dy), n);
  }

  lemma Compare(d: nat, n: nat)
    requires n > 0
    ensures n * d < 32 * n <==> d < 32
  {
    if d < 32 {
      MulMonotone(d + 1, 32, n);
    } else {
      MulMonotone(32, d, n);
    }
  }

  /** A flagged point marks its feature exactly when it moved by a squared distance of 768 or more,
      for displacements that do not wrap. */
  lemma MarkingExactly(points: Points, flags: seq<bool>, k: nat, dx: int, dy: int)
    requires |flags| == |points| && k < |points| && Moved(points[k], dx, dy)
    requires -0x8000 < dx < 0x8000 && -0x8000 < dy < 0x8000
    ensures Marking(points, flags, k) <==> flags[k] && dx * dx + dy * dy >= 768
  {
    NormIsExact(-dx, -dy);
    assert (-dx) * (-dx) == dx * dx && (-dy) * (-dy) == dy * dy;
  }
}
