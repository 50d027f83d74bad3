/** Binary morphology on a grid (`morph` in profile300.c): the two-pass operator is the 3x3
    neighbourhood operator, dilation and erosion with its edge rules are adjoint, and repeated
    dilation followed by as many erosions is a closing. */
module Morphology {
  type Spot = (int, int)
  type Shape = set<Spot>

  datatype Frame = Frame(rows: nat, columns: nat)

  predicate Inside(f: Frame, p: Spot) {
    0 <= p.0 < f.rows && 0 <= p.1 < f.columns
  }

  predicate Near(p: Spot, q: Spot) {
    -1 <= p.0 - q.0 <= 1 && -1 <= p.1 - q.1 <= 1
  }

  ghost predicate Within(s: Shape, f: Frame) {
    forall p :: p in s ==> Inside(f, p)
  }

  // ----- The operators -----

  /** Some neighbour in the frame is on; outside counts as off. */
  ghost predicate Touches(s: Shape, p: Spot) {
    exists q :: q in s && Near(p, q)
  }

  /** All neighbours in the frame are on; outside counts as on. */
  ghost predicate Covered(f: Frame, s: Shape, p: Spot) {
    forall q :: Inside(f, q) && Near(p, q) ==> q in s
  }

  ghost function Dilate(f: Frame, s: Shape): Shape {
    set y, x | 0 <= y < f.rows && 0 <= x < f.columns && Touches(s, (y, x)) :: (y, x)
  }

  ghost function Erode(f: Frame, s: Shape): Shape {
    set y, x | 0 <= y < f.rows && 0 <= x < f.columns && Covered(f, s, (y, x)) :: (y, x)
  }

  lemma OperatorsAt(f: Frame, s: Shape, p: Spot)
    ensures p in Dilate(f, s) <==> Inside(f, p) && Touches(s, p)
    ensures p in Erode(f, s) <==> Inside(f, p) && Covered(f, s, p)
  {
    hide Touches, Covered;
    assert p == (p.0, p.1);
  }

  lemma OperatorsWithin(f: Frame, s: Shape)
    ensures Within(Dilate(f, s), f) && Within(Erode(f, s), f)
  {
    hide Dilate, Erode, Touches, Covered;
    forall p ensures (p in Dilate(f, s) ==> Inside(f, p)) && (p in Erode(f, s) ==> Inside(f, p)) {
      OperatorsAt(f, s, p);
    }
  }

  /** Dilating s stays within t exactly when s stays within t eroded. */
  lemma Adjoint(f: Frame, s: Shape, t: Shape)
    requires Within(s, f)
    ensures Dilate(f, s) <= t <==> s <= Erode(f, t)
  {
    hide Dilate, Erode;
    if Dilate(f, s) <= t {
      forall p | p in s ensures p in Erode(f, t) {
        forall q | Inside(f, q) && Near(p, q) ensures q in t {
          assert Touches(s, q) by {
            assert Near(q, p);
          }
          OperatorsAt(f, s, q);
        }
        OperatorsAt(f, t, p);
      }
    }
    if s <= Erode(f, t) {
      forall p | p in Dilate(f, s) ensures p in t {
        OperatorsAt(f, s, p);
        var q :| q in s && Near(p, q);
        OperatorsAt(f, t, q);
        assert Near(q, p);
      }
    }
  }

  // ----- Repetition -----

  ghost function Grown(f: Frame, s: Shape, k: nat): Shape {
    if k == 0 then s else Dilate(f, Grown(f, s, k - 1))
  }

  ghost function Shrunk(f: Frame, s: Shape, k: nat): Shape {
    if k == 0 then s else Erode(f, Shrunk(f, s, k - 1))
  }

  lemma RepeatedWithin(f: Frame, s: Shape, k: nat)
    requires Within(s, f)
    ensures Within(Grown(f, s, k), f) && Within(Shrunk(f, s, k), f)
  {
    hide Within, Dilate, Erode;
    if k > 0 {
      OperatorsWithin(f, Grown(f, s, k - 1));
      OperatorsWithin(f, Shrunk(f, s, k - 1));
    }
  }

  lemma {:induction false} ShrinkFirst(f: Frame, s: Shape, k: nat)
    ensures Shrunk(f, Erode(f, s), k) == Shrunk(f, s, k + 1)
  {
    hide Erode;
    if k > 0 {
      ShrinkFirst(f, s, k - 1);
    }
  }

  lemma {:induction false} AdjointRepeated(f: Frame, s: Shape, t: Shape, k: nat)
    requires Within(s, f)
    ensures Grown(f, s, k) <= t <==> s <= Shrunk(f, t, k)
    decreases k
  {
    hide Dilate, Erode, Within;
    if k > 0 {
      RepeatedWithin(f, s, k - 1);
      Adjoint(f, Grown(f, s, k - 1), t);
      AdjointRepeated(f, s, Erode(f, t), k - 1);
      ShrinkFirst(f, t, k - 1);
    }
  }

  /** k dilations, then k erosions. */
  ghost function Closed(f: Frame, s: Shape, k: nat): Shape {
    Shrunk(f, Grown(f, s, k), k)
  }

  lemma ClosingExtends(f: Frame, s: Shape, k: nat)
    requires Within(s, f)
    ensures s <= Closed(f, s, k)
  {
    AdjointRepeated(f, s, Grown(f, s, k), k);
  }

  lemma GrowingIsMonotone(f: Frame, s: Shape, t: Shape, k: nat)
    requires s <= t && Within(t, f)
    ensures Grown(f, s, k) <= Grown(f, t, k)
  {
    hide Grown, Shrunk;
    AdjointRepeated(f, t, Grown(f, t, k), k);
    AdjointRepeated(f, s, Grown(f, t, k), k);
  }

  lemma ShrinkingIsMonotone(f: Frame, s: Shape, t: Shape, k: nat)
    requires s <= t && Within(s, f)
    ensures Shrunk(f, s, k) <= Shrunk(f, t, k)
  {
    hide Grown, Shrunk;
    RepeatedWithin(f, s, k);
    AdjointRepeated(f, Shrunk(f, s, k), s, k);
    AdjointRepeated(f, Shrunk(f, s, k), t, k);
  }

  lemma ClosingIsMonotone(f: Frame, s: Shape, t: Shape, k: nat)
    requires s <= t && Within(t, f)
    ensures Closed(f, s, k) <= Closed(f, t, k)
  {
    hide Grown, Shrunk;
    GrowingIsMonotone(f, s, t, k);
    RepeatedWithin(f, s, k);
    ShrinkingIsMonotone(f, Grown(f, s, k), Grown(f, t, k), k);
  }

  lemma ClosingIsIdempotent(f: Frame, s: Shape, k: nat)
    requires Within(s, f)
    ensures Closed(f, Closed(f, s, k), k) == Closed(f, s, k)
  {
    hide Grown, Shrunk;
    var c := Closed(f, s, k);
    RepeatedWithin(f, s, k);
    RepeatedWithin(f, Grown(f, s, k), k);
    RepeatedWithin(f, c, k);
    ClosingExtends(f, c, k);
    AdjointRepeated(f, c, Grown(f, s, k), k);
    ShrinkingIsMonotone(f, Grown(f, c, k), Grown(f, s, k), k);
  }

  // ----- Grids -----

  ghost function FrameOf(g: array2<bool>): Frame {
    Frame(g.Length0, g.Length1)
  }

  ghost function On(g: array2<bool>): (s: Shape)
    reads g
    ensures forall p :: p in s <==> Inside(FrameOf(g), p) && g[p.0, p.1]
    ensures Within(s, FrameOf(g))
  {
    set y, x | 0 <= y < g.Length0 && 0 <= x < g.Length1 && g[y, x] :: (y, x)
  }

  function Three(a: bool, b: bool, c: bool, dilate: bool): bool {
    if dilate then a || b || c else a && b && c
  }

  /** First pass: a spot and its neighbours in the row. */
  ghost predicate RowValue(f: Frame, s: Shape, dilate: bool, y: int, x: int) {
    Three((y, x) in s, if x > 0 then (y, x - 1) in s else !dilate,
          if x < f.columns - 1 then (y, x + 1) in s else !dilate, dilate)
  }

  /** Second pass: the first pass's values in the column. */
  ghost predicate CellValue(f: Frame, s: Shape, dilate: bool, y: int, x: int) {
    Three(RowValue(f, s, dilate, y, x),
          if y > 0 then RowValue(f, s, dilate, y - 1, x) else !dilate,
          if y < f.rows - 1 then RowValue(f, s, dilate, y + 1, x) else !dilate, dilate)
  }

  /** The two passes together look at the whole neighbourhood. */
  lemma TwoPasses(f: Frame, s: Shape, dilate: bool, y: int, x: int)
    requires Within(s, f) && Inside(f, (y, x))
    ensures CellValue(f, s, dilate, y, x) <==> (y, x) in if dilate then Dilate(f, s) else Erode(f, s)
  {
    hide CellValue, Dilate, Erode, Touches, Covered;
    OperatorsAt(f, s, (y, x));
    if dilate {
      DilationReads(f, s, y, x);
    } else {
      ErosionReads(f, s, y, x);
    }
  }

  lemma DilationReads(f: Frame, s: Shape, y: int, x: int)
    requires Within(s, f) && Inside(f, (y, x))
    ensures CellValue(f, s, true, y, x) <==> Touches(s, (y, x))
  {
    if Touches(s, (y, x)) {
      var q :| q in s && Near((y, x), q);
      assert q == (q.0, q.1) && Inside(f, q);
      assert RowValue(f, s, true, q.0, x);
    }
    if CellValue(f, s, true, y, x) {
      var v :| -1 <= v - y <= 1 && 0 <= v < f.rows && RowValue(f, s, true, v, x);
      var u :| -1 <= u - x <= 1 && (v, u) in s;
      assert Near((y, x), (v, u));
    }
  }

  lemma ErosionReads(f: Frame, s: Shape, y: int, x: int)
    requires Within(s, f) && Inside(f, (y, x))
    ensures CellValue(f, s, false, y, x) <==> Covered(f, s, (y, x))
  {
    if CellValue(f, s, false, y, x) {
      forall q | Inside(f, q) && Near((y, x), q) ensures q in s {
        assert q == (q.0, q.1);
        assert RowValue(f, s, false, q.0, x);
      }
    }
    if Covered(f, s, (y, x)) {
      forall v | -1 <= v - y <= 1 && 0 <= v < f.rows ensures RowValue(f, s, false, v, x) {
        assert Inside(f, (v, x)) && Near((y, x), (v, x));
        assert x > 0 ==> Inside(f, (v, x - 1)) && Near((y, x), (v, x - 1));
        assert x < f.columns - 1 ==> Inside(f, (v, x + 1)) && Near((y, x), (v, x + 1));
      }
    }
  }

  method FirstPass(grid: array2<bool>, temporary: array2<bool>, dilate: bool)
    requires grid != temporary && temporary.Length0 == grid.Length0 && temporary.Length1 == grid.Length1
    modifies temporary
    ensures forall y, x | 0 <= y < grid.Length0 && 0 <= x < grid.Length1 ::
              temporary[y, x] == RowValue(FrameOf(grid), On(grid), dilate, y, x)
  {
    for y := 0 to grid.Length0
      invariant forall v, u | 0 <= v < y && 0 <= u < grid.Length1 ::
                  temporary[v, u] == RowValue(FrameOf(grid), On(grid), dilate, v, u)
    {
      for x := 0 to grid.Length1
        invariant forall v, u | 0 <= v < y && 0 <= u < grid.Length1 ::
                    temporary[v, u] == RowValue(FrameOf(grid), On(grid), dilate, v, u)
        invariant forall u | 0 <= u < x :: temporary[y, u] == RowValue(FrameOf(grid), On(grid), dilate, y, u)
      {
        var a := if x > 0 then grid[y, x - 1] else !dilate;
        var b := if x < grid.Length1 - 1 then grid[y, x + 1] else !dilate;
        temporary[y, x] := Three(grid[y, x], a, b, dilate);
      }
    }
  }

  method SecondPass(grid: array2<bool>, temporary: array2<bool>, dilate: bool, ghost s: Shape)
    requires grid != temporary && temporary.Length0 == grid.Length0 && temporary.Length1 == grid.Length1
    requires forall y, x | 0 <= y < grid.Length0 && 0 <= x < grid.Length1 ::
               temporary[y, x] == RowValue(FrameOf(grid), s, dilate, y, x)
    modifies grid
    ensures forall y, x | 0 <= y < grid.Length0 && 0 <= x < grid.Length1 ::
              grid[y, x] == CellValue(FrameOf(grid), s, dilate, y, x)
  {
    hide RowValue;
    for y := 0 to grid.Length0
      invariant forall v, u | 0 <= v < y && 0 <= u < grid.Length1 ::
                  grid[v, u] == CellValue(FrameOf(grid), s, dilate, v, u)
    {
      for x := 0 to grid.Length1
        invariant forall v, u | 0 <= v < y && 0 <= u < grid.Length1 ::
                    grid[v, u] == CellValue(FrameOf(grid), s, dilate, v, u)
        invariant forall u | 0 <= u < x :: grid[y, u] == CellValue(FrameOf(grid), s, dilate, y, u)
      {
        var a := if y > 0 then temporary[y - 1, x] else !dilate;
        var b := if y < grid.Length0 - 1 then temporary[y + 1, x] else !dilate;
        grid[y, x] := Three(temporary[y, x], a, b, dilate);
      }
    }
  }

  /** `morph`: one dilation or erosion in place. */
  method Morph(grid: array2<bool>, temporary: array2<bool>, dilate: bool)
    requires grid != temporary && temporary.Length0 == grid.Length0 && temporary.Length1 == grid.Length1
    modifies grid, temporary
    ensures On(grid) == if dilate then Dilate(FrameOf(grid), old(On(grid))) else Erode(FrameOf(grid), old(On(grid)))
  {
    hide RowValue, CellValue, Dilate, Erode;
    ghost var s, f := On(grid), FrameOf(grid);
    FirstPass(grid, temporary, dilate);
    SecondPass(grid, temporary, dilate, s);
    OperatorsWithin(f, s);
    forall p ensures p in On(grid) <==> p in if dilate then Dilate(f, s) else Erode(f, s) {
      if Inside(f, p) {
        TwoPasses(f, s, dilate, p.0, p.1);
      }
    }
  }
}
