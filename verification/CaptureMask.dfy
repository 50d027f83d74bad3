/** The validity mask of a capture (`capture_mask` in profile300.c): closing, span filling, border
    and erosion on a padded grid, then the byte mask, the packed mask and the valid count. */
module CaptureMask {
  import opened Words
  import opened Morphology
  import opened PackedMasks

  // ----- Spans -----

  /** Spots of s on both sides of p in its column. */
  ghost predicate BetweenRows(s: Shape, p: Spot) {
    (exists a :: (a, p.1) in s && a <= p.0) && (exists b :: (b, p.1) in s && p.0 <= b)
  }

  ghost predicate BetweenColumns(s: Shape, p: Spot) {
    (exists a :: (p.0, a) in s && a <= p.1) && (exists b :: (p.0, b) in s && p.1 <= b)
  }

  /** Everything between the first and the last spot of each column. */
  ghost function ColumnsFilled(f: Frame, s: Shape): Shape {
    set y, x | 0 <= y < f.rows && 0 <= x < f.columns && BetweenRows(s, (y, x)) :: (y, x)
  }

  ghost function RowsFilled(f: Frame, s: Shape): Shape {
    set y, x | 0 <= y < f.rows && 0 <= x < f.columns && BetweenColumns(s, (y, x)) :: (y, x)
  }

  lemma FilledAt(f: Frame, s: Shape, p: Spot)
    ensures p in ColumnsFilled(f, s) <==> Inside(f, p) && BetweenRows(s, p)
    ensures p in RowsFilled(f, s) <==> Inside(f, p) && BetweenColumns(s, p)
  {
    hide BetweenRows, BetweenColumns;
    assert p == (p.0, p.1);
  }

  lemma FillingIsMonotone(f: Frame, s: Shape, t: Shape)
    requires s <= t
    ensures ColumnsFilled(f, s) <= ColumnsFilled(f, t) && RowsFilled(f, s) <= RowsFilled(f, t)
  {
    hide ColumnsFilled, RowsFilled;
    forall p
      ensures (p in ColumnsFilled(f, s) ==> p in ColumnsFilled(f, t)) &&
              (p in RowsFilled(f, s) ==> p in RowsFilled(f, t))
    {
      FilledAt(f, s, p);
      FilledAt(f, t, p);
    }
  }

  /** First and last spot of a column, the number of rows standing for none. */
  ghost predicate ColumnEnds(f: Frame, s: Shape, x: int, upto: int, first: int, last: int) {
    if first == f.rows then forall a | 0 <= a < upto :: (a, x) !in s
    else && 0 <= first <= last < upto && (first, x) in s && (last, x) in s
         && (forall a | 0 <= a < first :: (a, x) !in s) && (forall b | last < b < upto :: (b, x) !in s)
  }

  ghost predicate RowEnds(f: Frame, s: Shape, y: int, upto: int, first: int, last: int) {
    if first == f.columns then forall a | 0 <= a < upto :: (y, a) !in s
    else && 0 <= first <= last < upto && (y, first) in s && (y, last) in s
         && (forall a | 0 <= a < first :: (y, a) !in s) && (forall b | last < b < upto :: (y, b) !in s)
  }

  lemma ColumnSpan(f: Frame, s: Shape, x: int, first: int, last: int)
    requires Within(s, f) && 0 <= x < f.columns && ColumnEnds(f, s, x, f.rows, first, last)
    ensures forall v | 0 <= v < f.rows :: BetweenRows(s, (v, x)) <==> (first != f.rows && first <= v <= last)
    ensures forall v | 0 <= v < f.rows && (v, x) in s :: first != f.rows && first <= v <= last
  {
    assert forall a :: (a, x) in s ==> Inside(f, (a, x));
  }

  lemma RowSpan(f: Frame, s: Shape, y: int, first: int, last: int)
    requires Within(s, f) && 0 <= y < f.rows && RowEnds(f, s, y, f.columns, first, last)
    ensures forall u | 0 <= u < f.columns :: BetweenColumns(s, (y, u)) <==> (first != f.columns && first <= u <= last)
    ensures forall u | 0 <= u < f.columns && (y, u) in s :: first != f.columns && first <= u <= last
  {
    assert forall a :: (y, a) in s ==> Inside(f, (y, a));
  }

  /** Fills one column between its first and its last spot. */
  method FillColumn(g: array2<bool>, x: nat, ghost s: Shape)
    requires x < g.Length1 && Within(s, FrameOf(g))
    requires forall v | 0 <= v < g.Length0 :: g[v, x] <==> (v, x) in s
    modifies g
    ensures forall v | 0 <= v < g.Length0 :: g[v, x] <==> BetweenRows(s, (v, x))
    ensures forall v, u | 0 <= v < g.Length0 && 0 <= u < g.Length1 && u != x :: g[v, u] == old(g[v, u])
  {
    hide BetweenRows, Within;
    var first, last := g.Length0, 0;
    for y := 0 to g.Length0
      invariant ColumnEnds(FrameOf(g), s, x, y, first, last)
      modifies {}
    {
      if g[y, x] {
        if first == g.Length0 {
          first := y;
        }
        last := y;
      }
    }
    ColumnSpan(FrameOf(g), s, x, first, last);
    hide ColumnEnds;
    if first != g.Length0 {
      for y := first to last + 1
        invariant forall v | 0 <= v < g.Length0 :: g[v, x] <==> (v, x) in s || first <= v < y
        invariant forall v, u | 0 <= v < g.Length0 && 0 <= u < g.Length1 && u != x :: g[v, u] == old(g[v, u])
      {
        g[y, x] := true;
      }
    }
  }

  method FillRow(g: array2<bool>, y: nat, ghost s: Shape)
    requires y < g.Length0 && Within(s, FrameOf(g))
    requires forall u | 0 <= u < g.Length1 :: g[y, u] <==> (y, u) in s
    modifies g
    ensures forall u | 0 <= u < g.Length1 :: g[y, u] <==> BetweenColumns(s, (y, u))
    ensures forall v, u | 0 <= v < g.Length0 && 0 <= u < g.Length1 && v != y :: g[v, u] == old(g[v, u])
  {
    hide BetweenColumns, Within;
    var first, last := g.Length1, 0;
    for x := 0 to g.Length1
      invariant RowEnds(FrameOf(g), s, y, x, first, last)
      modifies {}
    {
      if g[y, x] {
        if first == g.Length1 {
          first := x;
        }
        last := x;
      }
    }
    RowSpan(FrameOf(g), s, y, first, last);
    hide RowEnds;
    if first != g.Length1 {
      for x := first to last + 1
        invariant forall u | 0 <= u < g.Length1 :: g[y, u] <==> (y, u) in s || first <= u < x
        invariant forall v, u | 0 <= v < g.Length0 && 0 <= u < g.Length1 && v != y :: g[v, u] == old(g[v, u])
      {
        g[y, x] := true;
      }
    }
  }

  method FillColumns(g: array2<bool>)
    modifies g
    ensures On(g) == ColumnsFilled(FrameOf(g), old(On(g)))
  {
    hide BetweenRows, ColumnsFilled;
    ghost var s, f := On(g), FrameOf(g);
    for x := 0 to g.Length1
      invariant forall v, u | 0 <= v < g.Length0 && 0 <= u < g.Length1 ::
                  g[v, u] <==> if u < x then BetweenRows(s, (v, u)) else (v, u) in s
    {
      FillColumn(g, x, s);
    }
    forall p ensures p in On(g) <==> p in ColumnsFilled(f, s) {
      FilledAt(f, s, p);
      assert p == (p.0, p.1);
    }
  }

  method FillRows(g: array2<bool>)
    modifies g
    ensures On(g) == RowsFilled(FrameOf(g), old(On(g)))
  {
    hide BetweenColumns, RowsFilled;
    ghost var s, f := On(g), FrameOf(g);
    for y := 0 to g.Length0
      invariant forall v, u | 0 <= v < g.Length0 && 0 <= u < g.Length1 ::
                  g[v, u] <==> if v < y then BetweenColumns(s, (v, u)) else (v, u) in s
    {
      FillRow(g, y, s);
    }
    forall p ensures p in On(g) <==> p in RowsFilled(f, s) {
      FilledAt(f, s, p);
      assert p == (p.0, p.1);
    }
  }

  // ----- The whole mask -----

  /** Spots outside the window of height h and width w. */
  ghost function Border(f: Frame, h: nat, w: nat): Shape {
    set y, x | 0 <= y < f.rows && 0 <= x < f.columns && (y < 6 || y >= h + 6 || x < 6 || x >= w + 6) :: (y, x)
  }

  /** What remains on in the padded frame: close five times, fill spans, border, erode ten times. */
  ghost function Masked(f: Frame, s: Shape, h: nat, w: nat): Shape {
    Shrunk(f, RowsFilled(f, ColumnsFilled(f, Closed(f, s, 5))) + Border(f, h, w), 10)
  }

  lemma FilledWithin(f: Frame, s: Shape)
    ensures Within(ColumnsFilled(f, s), f) && Within(RowsFilled(f, s), f)
  {
    hide ColumnsFilled, RowsFilled, BetweenRows, BetweenColumns;
    forall p ensures (p in ColumnsFilled(f, s) ==> Inside(f, p)) && (p in RowsFilled(f, s) ==> Inside(f, p)) {
      FilledAt(f, s, p);
    }
  }

  /** A larger input mask never gives a smaller result. */
  lemma MaskIsMonotone(f: Frame, s: Shape, t: Shape, h: nat, w: nat)
    requires s <= t && Within(t, f)
    ensures Masked(f, s, h, w) <= Masked(f, t, h, w)
  {
    hide Closed, Shrunk, ColumnsFilled, RowsFilled;
    ClosingIsMonotone(f, s, t, 5);
    FillingIsMonotone(f, Closed(f, s, 5), Closed(f, t, 5));
    FillingIsMonotone(f, ColumnsFilled(f, Closed(f, s, 5)), ColumnsFilled(f, Closed(f, t, 5)));
    FilledWithin(f, ColumnsFilled(f, Closed(f, s, 5)));
    ShrinkingIsMonotone(f, RowsFilled(f, ColumnsFilled(f, Closed(f, s, 5))) + Border(f, h, w),
                        RowsFilled(f, ColumnsFilled(f, Closed(f, t, 5))) + Border(f, h, w), 10);
  }

  method Repeat(grid: array2<bool>, temporary: array2<bool>, dilate: bool, times: nat)
    requires grid != temporary && temporary.Length0 == grid.Length0 && temporary.Length1 == grid.Length1
    modifies grid, temporary
    ensures On(grid) ==
            if dilate then Grown(FrameOf(grid), old(On(grid)), times) else Shrunk(FrameOf(grid), old(On(grid)), times)
  {
    hide Dilate, Erode, On;
    for i := 0 to times
      invariant On(grid) ==
                if dilate then Grown(FrameOf(grid), old(On(grid)), i) else Shrunk(FrameOf(grid), old(On(grid)), i)
    {
      Morph(grid, temporary, dilate);
    }
  }

  method DrawBorder(g: array2<bool>, h: nat, w: nat)
    modifies g
    ensures On(g) == old(On(g)) + Border(FrameOf(g), h, w)
  {
    for y := 0 to g.Length0
      invariant forall v, u | 0 <= v < g.Length0 && 0 <= u < g.Length1 ::
                  g[v, u] == (old(g[v, u]) || (v < y && (v < 6 || v >= h + 6 || u < 6 || u >= w + 6)))
    {
      for x := 0 to g.Length1
        invariant forall v, u | 0 <= v < g.Length0 && 0 <= u < g.Length1 ::
                    g[v, u] ==
                        (old(g[v, u]) || ((v < y || (v == y && u < x)) && (v < 6 || v >= h + 6 || u < 6 || u >= w + 6)))
      {
        if y < 6 || y >= h + 6 || x < 6 || x >= w + 6 {
          g[y, x] := true;
        }
      }
    }
    forall p ensures p in On(g) <==> p in old(On(g)) + Border(FrameOf(g), h, w) {
      assert p == (p.0, p.1);
    }
  }

  // ----- Packing -----

  lemma SameWord(stride: nat, y: nat, p: nat, v: nat, q: nat)
    requires p < stride && q < stride && y * stride + p == v * stride + q
    ensures y == v && p == q
  {
    if y < v {
      RowsApart(stride, y, v);
    } else if v < y {
      RowsApart(stride, v, y);
    }
  }

  lemma RowsApart(stride: nat, y: nat, v: nat)
    requires y < v
    ensures y * stride + stride <= v * stride
  {
    assert (v - y - 1) * stride >= 0;
    assert (v - y - 1) * stride == v * stride - y * stride - stride;
  }

  lemma SamePosition(stride: nat, y: nat, x: nat, v: nat, u: nat)
    requires x < 32 * stride && u < 32 * stride
    requires y * stride + x / 32 == v * stride + u / 32 && x % 32 == u % 32
    ensures y == v && x == u
  {
    SameWord(stride, y, x / 32, v, u / 32);
  }

  lemma WithPixel(was: seq<bv32>, stride: nat, height: nat, y: nat, x: nat, v: nat, u: nat)
    requires y < height && x < 32 * stride && v < height && u < 32 * stride && height * stride <= |was|
    ensures y * stride + x / 32 < |was|
    ensures var at := y * stride + x / 32;
            Pixel(was[at := WithBit(was[at], x % 32)], stride, v, u) <==>
                (Pixel(was, stride, v, u) || (v == y && u == x))
  {
    hide Bit, WithBit;
    WordInRange(stride, height, y, x);
    WordInRange(stride, height, v, u);
    var at := y * stride + x / 32;
    if v * stride + u / 32 == at {
      WithBitSetsOne(was[at], x % 32, u % 32);
      if u % 32 == x % 32 {
        SamePosition(stride, y, x, v, u);
      }
    }
  }

  /** Sets one pixel of a packed image and no other. */
  method SetPixel(packed: array<bv32>, stride: nat, height: nat, y: nat, x: nat)
    requires y < height && x < 32 * stride && height * stride <= packed.Length
    modifies packed
    ensures forall v: nat, u: nat | v < height && u < 32 * stride ::
              Pixel(packed[..], stride, v, u) <==> (old(Pixel(packed[..], stride, v, u)) || (v == y && u == x))
  {
    hide Pixel, WithBit;
    WordInRange(stride, height, y, x);
    ghost var was := packed[..];
    var at := y * stride + x / 32;
    packed[at] := WithBit(packed[at], x % 32);
    assert packed[..] == was[at := WithBit(was[at], x % 32)];
    forall v: nat, u: nat | v < height && u < 32 * stride
      ensures Pixel(packed[..], stride, v, u) <==> (old(Pixel(packed[..], stride, v, u)) || (v == y && u == x))
    {
      WithPixel(was, stride, height, y, x, v, u);
    }
  }

  /** Spots of the window in a row, left of n. */
  ghost function WindowRow(r: Shape, y: nat, n: nat): nat {
    if n == 0 then 0 else WindowRow(r, y, n - 1) + if (y + 6, n - 1 + 6) in r then 1 else 0
  }

  ghost function WindowCount(r: Shape, w: nat, rows: nat): nat {
    if rows == 0 then 0 else WindowCount(r, w, rows - 1) + WindowRow(r, rows - 1, w)
  }

  /** The packed image shows the window of r. */
  ghost predicate Shows(words: seq<bv32>, stride: nat, r: Shape, h: nat, w: nat) {
    forall v: nat, u: nat | v < h && u < w :: Pixel(words, stride, v, u) <==> (v + 6, u + 6) in r
  }

  lemma {:induction false} RowCountsAgree(words: seq<bv32>, stride: nat, r: Shape, h: nat, w: nat, y: nat, n: nat)
    requires Shows(words, stride, r, h, w) && y < h && n <= w
    ensures RowCount(words, stride, y, n) == WindowRow(r, y, n)
  {
    hide Pixel;
    if n > 0 {
      RowCountsAgree(words, stride, r, h, w, y, n - 1);
    }
  }

  lemma {:induction false} CountsAgree(words: seq<bv32>, stride: nat, r: Shape, h: nat, w: nat, rows: nat)
    requires Shows(words, stride, r, h, w) && rows <= h
    ensures PixelCount(words, stride, w, rows) == WindowCount(r, w, rows)
  {
    hide Shows;
    if rows > 0 {
      CountsAgree(words, stride, r, h, w, rows - 1);
      RowCountsAgree(words, stride, r, h, w, rows - 1, w);
    }
  }

  /** The packed image shows the window of r in the rows above y, and in row y left of x. */
  ghost predicate PartlyShows(words: seq<bv32>, stride: nat, r: Shape, h: nat, w: nat, y: nat, x: nat) {
    forall v: nat, u: nat | v < h && u < w ::
      Pixel(words, stride, v, u) <==> ((v < y || (v == y && u < x)) && (v + 6, u + 6) in r)
  }

  lemma ShowsMore(before: seq<bv32>, after: seq<bv32>, stride: nat, r: Shape, h: nat, w: nat, y: nat, x: nat)
    requires PartlyShows(before, stride, r, h, w, y, x) && y < h && x < w
    requires forall v: nat, u: nat | v < h && u < w ::
               Pixel(after, stride, v, u) <==>
               (Pixel(before, stride, v, u) || (v == y && u == x && (y + 6, x + 6) in r))
    ensures PartlyShows(after, stride, r, h, w, y, x + 1)
  {
    hide Pixel;
  }

  lemma RowShown(words: seq<bv32>, stride: nat, r: Shape, h: nat, w: nat, y: nat)
    requires PartlyShows(words, stride, r, h, w, y, w)
    ensures PartlyShows(words, stride, r, h, w, y + 1, 0)
  {
    hide Pixel;
  }

  lemma AllShown(words: seq<bv32>, stride: nat, r: Shape, h: nat, w: nat)
    requires PartlyShows(words, stride, r, h, w, h, 0)
    ensures Shows(words, stride, r, h, w)
  {
    hide Pixel;
  }

  /** Writes the window of the grid to the byte mask and the packed mask, and counts it. */
  method WriteMasks(grid: array2<bool>, mask: array2<u8>, packed: array<bv32>) returns (valid: nat)
    requires grid.Length0 >= mask.Length0 + 12 && grid.Length1 >= mask.Length1 + 12
    requires mask.Length0 * Stride(mask.Length1) <= packed.Length
    requires forall k | 0 <= k < packed.Length :: packed[k] == 0
    modifies mask, packed
    ensures forall v: nat, u: nat | v < mask.Length0 && u < mask.Length1 ::
              mask[v, u] == if (v + 6, u + 6) in On(grid) then 255 else 0
    ensures Shows(packed[..], Stride(mask.Length1), On(grid), mask.Length0, mask.Length1)
    ensures valid == WindowCount(On(grid), mask.Length1, mask.Length0)
  {
    hide Pixel, On;
    ghost var r, h, w := On(grid), mask.Length0, mask.Length1;
    var stride := Stride(mask.Length1);
    BlankPixels(packed[..], stride);
    assert PartlyShows(packed[..], stride, r, h, w, 0, 0);
    hide PartlyShows, Shows;
    InGrid(grid);
    valid := 0;
    for y := 0 to mask.Length0
      invariant valid == WindowCount(r, w, y)
      invariant forall v: nat, u: nat | v < y && u < w :: mask[v, u] == if (v + 6, u + 6) in r then 255 else 0
      invariant PartlyShows(packed[..], stride, r, h, w, y, 0)
    {
      for x := 0 to mask.Length1
        invariant valid == WindowCount(r, w, y) + WindowRow(r, y, x)
        invariant forall v: nat, u: nat | v < y && u < w :: mask[v, u] == if (v + 6, u + 6) in r then 255 else 0
        invariant forall u: nat | u < x :: mask[y, u] == if (y + 6, u + 6) in r then 255 else 0
        invariant PartlyShows(packed[..], stride, r, h, w, y, x)
      {
        ghost var before := packed[..];
        mask[y, x] := if grid[y + 6, x + 6] then 255 else 0;
        if mask[y, x] != 0 {
          SetPixel(packed, stride, mask.Length0, y, x);
          valid := valid + 1;
        }
        ShowsMore(before, packed[..], stride, r, h, w, y, x);
      }
      RowShown(packed[..], stride, r, h, w, y);
    }
    AllShown(packed[..], stride, r, h, w);
  }

  lemma InGrid(grid: array2<bool>)
    ensures forall y: nat, x: nat | y < grid.Length0 && x < grid.Length1 :: (y, x) in On(grid) <==> grid[y, x]
  {
  }

  lemma BlankPixels(words: seq<bv32>, stride: nat)
    requires forall k | 0 <= k < |words| :: words[k] == 0
    ensures forall y: nat, x: nat :: !Pixel(words, stride, y, x)
  {
    hide Bit;
    forall y: nat, x: nat ensures !Pixel(words, stride, y, x) {
      ZeroHasNoBits(x % 32);
    }
  }

  /** The input mask, moved into the padded frame. */
  ghost function Padded(mask: array2<u8>): (s: Shape)
    reads mask
  {
    set y, x | 0 <= y < mask.Length0 && 0 <= x < mask.Length1 && mask[y, x] != 0 :: (y + 6, x + 6)
  }

  method LoadGrid(mask: array2<u8>) returns (grid: array2<bool>)
    ensures fresh(grid) && grid.Length0 == mask.Length0 + 12 && grid.Length1 == mask.Length1 + 16
    ensures On(grid) == Padded(mask)
  {
    grid := new bool[mask.Length0 + 12, mask.Length1 + 16]((_, _) => false);
    for y := 0 to mask.Length0
      invariant forall v, u | 0 <= v < grid.Length0 && 0 <= u < grid.Length1 ::
                  grid[v, u] == (6 <= v < y + 6 && 6 <= u < mask.Length1 + 6 && mask[v - 6, u - 6] != 0)
      modifies grid
    {
      for x := 0 to mask.Length1
        invariant forall v, u | 0 <= v < grid.Length0 && 0 <= u < grid.Length1 ::
                    grid[v, u] ==
                        (6 <= u < mask.Length1 + 6 && (6 <= v < y + 6 || (v == y + 6 && u < x + 6)) &&
                         mask[v - 6, u - 6] != 0)
        modifies grid
      {
        grid[y + 6, x + 6] := mask[y, x] != 0;
      }
    }
    forall p ensures p in On(grid) <==> p in Padded(mask) {
      if p in On(grid) {
        assert p == (p.0 - 6 + 6, p.1 - 6 + 6);
      }
    }
  }

  /** `capture_mask`: the byte mask is 255 exactly on the final shape, the packed mask shows the
      same pixels, and the valid count is the packed mask's count. */
  method MakeMask(mask: array2<u8>, packed: array<bv32>) returns (valid: nat)
    requires mask.Length0 * Stride(mask.Length1) <= packed.Length
    requires forall k | 0 <= k < packed.Length :: packed[k] == 0
    modifies mask, packed
    ensures var h, w := mask.Length0, mask.Length1;
            var r := Masked(Frame(h + 12, w + 16), old(Padded(mask)), h, w);
            && (forall v: nat, u: nat | v < h && u < w :: mask[v, u] == if (v + 6, u + 6) in r then 255 else 0)
            && (forall v: nat, u: nat | v < h && u < w :: Pixel(packed[..], Stride(w), v, u) <==> mask[v, u] == 255)
            && valid == PixelCount(packed[..], Stride(w), w, h)
  {
    hide On, Padded, Pixel, ColumnsFilled, RowsFilled, Border, Grown, Shrunk;
    var grid := LoadGrid(mask);
    var temporary := new bool[grid.Length0, grid.Length1]((_, _) => false);
    Repeat(grid, temporary, true, 5);
    Repeat(grid, temporary, false, 5);
    FillColumns(grid);
    FillRows(grid);
    DrawBorder(grid, mask.Length0, mask.Length1);
    Repeat(grid, temporary, false, 10);
    valid := WriteMasks(grid, mask, packed);
    CountsAgree(packed[..], Stride(mask.Length1), On(grid), mask.Length0, mask.Length1, mask.Length0);
  }
}
