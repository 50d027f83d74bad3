/** The validity mask as a picture (`morph` and `capture_mask` in profile300.c): k passes reach k
    positions in every direction, so the mask can be described by distances alone. */
module MaskShape {
  import opened Morphology
  import opened CaptureMask

  /** At most k rows and k columns apart. */
  predicate Reach(p: Spot, q: Spot, k: int) {
    -k <= p.0 - q.0 <= k && -k <= p.1 - q.1 <= k
  }

  function Toward(from: int, goal: int): int {
    if from < goal then from + 1 else if from > goal then from - 1 else from
  }

  /** One step from p to q. */
  function StepTo(p: Spot, q: Spot): Spot {
    (Toward(p.0, q.0), Toward(p.1, q.1))
  }

  lemma StepsCloser(f: Frame, p: Spot, q: Spot, k: nat)
    requires Inside(f, p) && Inside(f, q) && Reach(p, q, k + 1)
    ensures Inside(f, StepTo(p, q)) && Near(p, StepTo(p, q)) && Reach(StepTo(p, q), q, k)
  {
  }

  /** k dilations turn on exactly what lies within k of a spot. */
  lemma {:induction false} GrownExactly(f: Frame, s: Shape, k: nat, p: Spot)
    requires Within(s, f)
    ensures p in Grown(f, s, k) <==> Inside(f, p) && exists q :: q in s && Reach(p, q, k)
  {
    hide Dilate, Erode;
    if k == 0 {
      if p in s {
        assert Reach(p, p, 0);
      }
      if q :| q in s && Reach(p, q, 0) {
        assert q == (q.0, q.1) == p;
      }
    } else {
      var g := Grown(f, s, k - 1);
      OperatorsAt(f, g, p);
      if p in Dilate(f, g) {
        var r :| r in g && Near(p, r);
        GrownExactly(f, s, k - 1, r);
        var q :| q in s && Reach(r, q, k - 1);
        assert Reach(p, q, k);
      }
      if q :| Inside(f, p) && q in s && Reach(p, q, k) {
        StepsCloser(f, p, q, k - 1);
        GrownExactly(f, s, k - 1, StepTo(p, q));
      }
    }
  }

  /** k erosions keep exactly the spots of which the frame is on within k. */
  lemma {:induction false} ShrunkExactly(f: Frame, s: Shape, k: nat, p: Spot)
    requires Within(s, f)
    ensures p in Shrunk(f, s, k) <==> Inside(f, p) && forall q | Inside(f, q) && Reach(p, q, k) :: q in s
  {
    hide Dilate, Erode;
    if k == 0 {
      assert Reach(p, p, 0);
      forall q | Reach(p, q, 0) ensures q == p {
        assert q == (q.0, q.1) && p == (p.0, p.1);
      }
    } else {
      var g := Shrunk(f, s, k - 1);
      OperatorsAt(f, g, p);
      if p in Erode(f, g) {
        forall q | Inside(f, q) && Reach(p, q, k) ensures q in s {
          StepsCloser(f, p, q, k - 1);
          ShrunkExactly(f, s, k - 1, StepTo(p, q));
        }
      }
      if Inside(f, p) && forall q | Inside(f, q) && Reach(p, q, k) :: q in s {
        forall r | Inside(f, r) && Near(p, r) ensures r in g {
          ShrunkExactly(f, s, k - 1, r);
          assert forall q | Reach(r, q, k - 1) :: Reach(p, q, k);
        }
      }
    }
  }

  // ----- The mask -----

  /** Near enough to the input: wherever one looks within five, a spot of s lies within five of it. */
  ghost predicate Closes(f: Frame, s: Shape, p: Spot) {
    Inside(f, p) && forall q | Inside(f, q) && Reach(p, q, 5) :: exists r :: r in s && Reach(q, r, 5)
  }

  /** Closed, or between two closed spots of its column. */
  ghost predicate ClosesDown(f: Frame, s: Shape, p: Spot) {
    && Inside(f, p)
    && (exists a :: a <= p.0 && Closes(f, s, (a, p.1))) && (exists b :: p.0 <= b && Closes(f, s, (b, p.1)))
  }

  /** Filled down, or between two such spots of its row. */
  ghost predicate Solid(f: Frame, s: Shape, p: Spot) {
    && Inside(f, p)
    && (exists a :: a <= p.1 && ClosesDown(f, s, (p.0, a))) && (exists b :: p.1 <= b && ClosesDown(f, s, (p.0, b)))
  }

  /** In the margin around the h rows and w columns from (6, 6). */
  predicate InMargin(p: Spot, h: nat, w: nat) {
    !(6 <= p.0 < h + 6 && 6 <= p.1 < w + 6)
  }

  lemma ClosedExactly(f: Frame, s: Shape, p: Spot)
    requires Within(s, f)
    ensures p in Closed(f, s, 5) <==> Closes(f, s, p)
  {
    RepeatedWithin(f, s, 5);
    hide Grown, Shrunk;
    ShrunkExactly(f, Grown(f, s, 5), 5, p);
    forall q | Inside(f, q) ensures q in Grown(f, s, 5) <==> exists r :: r in s && Reach(q, r, 5) {
      GrownExactly(f, s, 5, q);
    }
  }

  lemma ColumnsExactly(f: Frame, s: Shape, p: Spot)
    requires Within(s, f)
    ensures p in ColumnsFilled(f, Closed(f, s, 5)) <==> ClosesDown(f, s, p)
  {
    hide Closes, Closed, ColumnsFilled, RowsFilled;
    var c := Closed(f, s, 5);
    FilledAt(f, c, p);
    forall a: int ensures (a, p.1) in c <==> Closes(f, s, (a, p.1)) {
      ClosedExactly(f, s, (a, p.1));
    }
  }

  lemma SolidExactly(f: Frame, s: Shape, p: Spot)
    requires Within(s, f)
    ensures p in RowsFilled(f, ColumnsFilled(f, Closed(f, s, 5))) <==> Solid(f, s, p)
  {
    hide Closed, ColumnsFilled, RowsFilled, ClosesDown;
    var c := ColumnsFilled(f, Closed(f, s, 5));
    FilledAt(f, c, p);
    forall a: int ensures (p.0, a) in c <==> ClosesDown(f, s, (p.0, a)) {
      ColumnsExactly(f, s, (p.0, a));
    }
  }

  /** The final mask: a spot stays on exactly when everything within ten of it is solid or margin. */
  lemma MaskExactly(f: Frame, s: Shape, h: nat, w: nat, p: Spot)
    requires Within(s, f)
    ensures p in Masked(f, s, h, w) <==>
              Inside(f, p) && forall q | Inside(f, q) && Reach(p, q, 10) :: Solid(f, s, q) || InMargin(q, h, w)
  {
    hide Closed, ColumnsFilled, RowsFilled, Solid, Shrunk, Border;
    var solid := RowsFilled(f, ColumnsFilled(f, Closed(f, s, 5)));
    FilledWithin(f, ColumnsFilled(f, Closed(f, s, 5)));
    BorderExactly(f, h, w);
    ShrunkExactly(f, solid + Border(f, h, w), 10, p);
    forall q | Inside(f, q) ensures q in solid + Border(f, h, w) <==> Solid(f, s, q) || InMargin(q, h, w) {
      SolidExactly(f, s, q);
    }
  }

  lemma BorderExactly(f: Frame, h: nat, w: nat)
    ensures forall q :: q in Border(f, h, w) <==> Inside(f, q) && InMargin(q, h, w)
  {
    forall q ensures q in Border(f, h, w) <==> Inside(f, q) && InMargin(q, h, w) {
      assert q == (q.0, q.1);
    }
  }

  /** With everything on inside the margin, all of it stays. */
  lemma FullMaskStays(h: nat, w: nat, s: Shape, p: Spot)
    requires var f := Frame(h + 12, w + 16);
             && Within(s, f) && (forall q | Inside(f, q) && !InMargin(q, h, w) :: q in s)
             && Inside(f, p) && !InMargin(p, h, w)
    ensures p in Masked(Frame(h + 12, w + 16), s, h, w)
  {
    hide Masked;
    var f := Frame(h + 12, w + 16);
    forall q | Inside(f, q) && Reach(p, q, 10) && !InMargin(q, h, w) ensures Solid(f, s, q) {
      InputIsSolid(f, s, q);
    }
    MaskExactly(f, s, h, w, p);
  }

  lemma InputIsSolid(f: Frame, s: Shape, q: Spot)
    requires Within(s, f) && q in s
    ensures Solid(f, s, q)
  {
    hide Closes;
    ClosingExtends(f, s, 5);
    ClosedExactly(f, s, q);
    assert q == (q.0, q.1);
    assert Closes(f, s, (q.0, q.1));
    assert ClosesDown(f, s, (q.0, q.1));
  }

  /** With nothing on, everything within ten of an inner position goes. */
  lemma EmptyMaskClears(h: nat, w: nat, p: Spot, q: Spot)
    requires var f := Frame(h + 12, w + 16); Inside(f, q) && !InMargin(q, h, w) && Reach(p, q, 10)
    ensures p !in Masked(Frame(h + 12, w + 16), {}, h, w)
  {
    hide Masked, Solid;
    NothingIsSolid(Frame(h + 12, w + 16), q);
    MaskExactly(Frame(h + 12, w + 16), {}, h, w, p);
  }

  lemma NothingIsSolid(f: Frame, p: Spot)
    ensures !Solid(f, {}, p)
  {
    forall q ensures !Closes(f, {}, q) {
      assert Reach(q, q, 5);
    }
  }
}
