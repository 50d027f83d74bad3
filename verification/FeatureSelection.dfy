/** Spatial feature selection and the per-level budget (`fpc_select_spatial_features`,
    `fpc_limit_feature_budget`): nine cells with linked lists in ranking order, visited round
    robin in a shuffled order. */
module FeatureSelection {
  import opened Words
  import opened Similarity
  import opened FeatureSort

  datatype Location = Location(index: nat, x: i16, y: i16)

  // ----- Cells -----

  /** Third of an axis, ends clamped. The C code divides in single precision, exactly enough for
      operands this small. */
  function Third(v: i16, low: i16, high: i16): (t: nat)
    requires low <= high
    ensures t < 3
  {
    var third := Quotient((v - low) * 3, high - low + 1);
    if third < 0 then 0 else if third > 2 then 2 else third
  }

  datatype Frame = Frame(xmin: i16, ymin: i16, xmax: i16, ymax: i16)

  predicate ProperFrame(f: Frame) {
    f.xmin <= f.xmax && f.ymin <= f.ymax
  }

  function CellOf(l: Location, f: Frame): (c: nat)
    requires ProperFrame(f)
    ensures c < 9
  {
    Third(l.x, f.xmin, f.xmax) + 3 * Third(l.y, f.ymin, f.ymax)
  }

  function Cells(ranked: seq<Location>, f: Frame): (cs: seq<nat>)
    requires ProperFrame(f)
    ensures |cs| == |ranked| && forall i | 0 <= i < |cs| :: cs[i] < 9
  {
    seq(|ranked|, i requires 0 <= i < |ranked| => CellOf(ranked[i], f))
  }

  /** First position from `at` on that lies in the cell, or -1. */
  function NextIn(cells: seq<nat>, cell: nat, at: nat): int
    requires at <= |cells|
    decreases |cells| - at
  {
    if at == |cells| then -1 else if cells[at] == cell then at else NextIn(cells, cell, at + 1)
  }

  lemma {:induction false} NextInMeans(cells: seq<nat>, cell: nat, at: nat)
    requires at <= |cells|
    ensures var n := NextIn(cells, cell, at);
            if n < 0 then n == -1 && forall i | at <= i < |cells| :: cells[i] != cell
            else at <= n < |cells| && cells[n] == cell && forall i | at <= i < n :: cells[i] != cell
    decreases |cells| - at
  {
    if at < |cells| && cells[at] != cell {
      NextInMeans(cells, cell, at + 1);
    }
  }

  /** Positions of the cell below `at`. */
  function CountIn(cells: seq<nat>, cell: nat, at: nat): (n: nat)
    requires at <= |cells|
    ensures n <= at
  {
    if at == 0 then 0 else CountIn(cells, cell, at - 1) + if cells[at - 1] == cell then 1 else 0
  }

  lemma {:induction false} CountSkips(cells: seq<nat>, cell: nat, start: nat, end: nat)
    requires start <= end <= |cells| && forall i | start <= i < end :: cells[i] != cell
    ensures CountIn(cells, cell, end) == CountIn(cells, cell, start)
    decreases end
  {
    if start < end {
      CountSkips(cells, cell, start, end - 1);
    }
  }

  lemma {:induction false} CountGrows(cells: seq<nat>, cell: nat, start: nat, end: nat)
    requires start <= end <= |cells|
    ensures CountIn(cells, cell, start) <= CountIn(cells, cell, end)
    decreases end
  {
    if start < end {
      CountGrows(cells, cell, start, end - 1);
    }
  }

  // ----- The lists -----

  /** `heads` and `next` link the positions from `at` on, cell by cell, in ranking order. */
  ghost predicate LinkedFrom(cells: seq<nat>, heads: seq<int>, next: seq<int>, at: nat)
    requires at <= |cells|
  {
    && |heads| == 9 && |next| == |cells|
    && (forall c: nat | c < 9 :: heads[c] == NextIn(cells, c, at))
    && (forall i: nat | at <= i < |cells| :: next[i] == NextIn(cells, cells[i], i + 1))
  }

  lemma NothingLinked(cells: seq<nat>, heads: seq<int>, next: seq<int>)
    requires |heads| == 9 && |next| == |cells| && forall c | 0 <= c < 9 :: heads[c] == -1
    requires forall i | 0 <= i < |cells| :: cells[i] < 9
    ensures LinkedFrom(cells, heads, next, |cells|)
  {
  }

  lemma OneMoreLinked(cells: seq<nat>, heads: seq<int>, next: seq<int>, i: nat)
    requires i < |cells| && cells[i] < 9 && LinkedFrom(cells, heads, next, i + 1)
    ensures LinkedFrom(cells, heads[cells[i] := i], next[i := heads[cells[i]]], i)
  {
  }

  method BuildLists(ranked: seq<Location>, f: Frame, heads: array<int>, next: array<int>)
    requires ProperFrame(f) && heads.Length == 9 && next.Length == |ranked| && heads != next
    modifies heads, next
    ensures LinkedFrom(Cells(ranked, f), heads[..], next[..], 0)
  {
    hide CellOf, NextIn;
    ghost var cells := Cells(ranked, f);
    assert forall i | 0 <= i < |ranked| :: cells[i] == CellOf(ranked[i], f);
    hide Cells;
    for c := 0 to 9
      invariant forall k | 0 <= k < c :: heads[k] == -1
    {
      heads[c] := -1;
    }
    NothingLinked(cells, heads[..], next[..]);
    hide LinkedFrom;
    for i := |ranked| downto 0
      invariant LinkedFrom(cells, heads[..], next[..], i)
    {
      ghost var before, after := heads[..], next[..];
      var cell := CellOf(ranked[i], f);
      next[i] := heads[cell];
      heads[cell] := i;
      assert next[..] == after[i := before[cell]] && heads[..] == before[cell := i];
      OneMoreLinked(cells, before, after, i);
    }
  }

  // ----- The shuffled visiting order -----

  predicate IsOrder(order: seq<nat>) {
    |order| == 9 && (forall i | 0 <= i < 9 :: order[i] < 9) && (forall i, j | 0 <= i < j < 9 :: order[i] != order[j])
  }

  /** One step of the 64-bit generator, as its two words. */
  function NextState(low: u32, high: u32): (u32, u32) {
    var state := 4164903690 * low + high;
    StateFits(low, high);
    (state % 0x1_0000_0000, state / 0x1_0000_0000)
  }

  lemma StateFits(low: u32, high: u32)
    ensures 0 <= (4164903690 * low + high) / 0x1_0000_0000 < 0x1_0000_0000
  {
  }

  lemma StartingOrder(order: seq<nat>)
    requires |order| == 9 && forall i | 0 <= i < 9 :: order[i] == i
    ensures IsOrder(order)
  {
  }

  lemma SwapKeepsOrder(order: seq<nat>, a: nat, b: nat)
    requires IsOrder(order) && a < 9 && b < 9
    ensures IsOrder(order[a := order[b]][b := order[a]])
  {
  }

  /** Multiply with carry: the two words, taken as one number, move on by the inverse of 2^32 modulo
      the multiplier times 2^32 less one. */
  lemma CarriesOn(low: u32, high: u32)
    ensures var s := NextState(low, high);
            (s.0 + s.1 * 0x1_0000_0000) * 0x1_0000_0000 ==
            (low + high * 0x1_0000_0000) + low * (4164903690 * 0x1_0000_0000 - 1)
  {
  }

  /** The order after n swaps of two places drawn by the generator, and its two words. */
  function Shuffled(order: seq<nat>, low: u32, high: u32, n: nat): (r: (seq<nat>, u32, u32))
    requires IsOrder(order)
    ensures IsOrder(r.0)
  {
    if n == 0 then (order, low, high)
    else
      var (before, l, h) := Shuffled(order, low, high, n - 1);
      var s := NextState(l, h);
      var t := NextState(s.0, s.1);
      var a, b := s.0 % 9, t.0 % 9;
      SwapKeepsOrder(before, a, b);
      (before[a := before[b]][b := before[a]], t.0, t.1)
  }

  /** The order in which the cells are visited: ninety swaps from the plain order. */
  function VisitingOrder(): (order: seq<nat>)
    ensures IsOrder(order)
  {
    StartingOrder([0, 1, 2, 3, 4, 5, 6, 7, 8]);
    Shuffled([0, 1, 2, 3, 4, 5, 6, 7, 8], 0xffff_ffff, 0, 90).0
  }

  method Shuffle() returns (order: array<nat>)
    ensures fresh(order) && order[..] == VisitingOrder()
  {
    hide NextState, IsOrder;
    order := new nat[9](i => i);
    StartingOrder(order[..]);
    assert order[..] == [0, 1, 2, 3, 4, 5, 6, 7, 8];
    var low: u32, high: u32 := 0xffff_ffff, 0;
    for i := 0 to 90
      invariant IsOrder(order[..]) && IsOrder([0, 1, 2, 3, 4, 5, 6, 7, 8])
      invariant (order[..], low, high) == Shuffled([0, 1, 2, 3, 4, 5, 6, 7, 8], 0xffff_ffff, 0, i)
      modifies order
    {
      var s := NextState(low, high);
      var t := NextState(s.0, s.1);
      var a, b := s.0 % 9, t.0 % 9;
      SwapKeepsOrder(order[..], a, b);
      ghost var before := order[..];
      order[a], order[b] := order[b], order[a];
      assert order[..] == before[a := before[b]][b := before[a]];
      low, high := t.0, t.1;
    }
  }

  // ----- Round robin -----

  /** Times a list has been visited when `cursor` is next in round `round`. */
  function Visits(position: nat, round: nat, cursor: nat): nat {
    if position < cursor then round + 1 else round
  }

  function Smaller(a: nat, b: nat): nat {
    if a < b then a else b
  }

  /** `fronts` tells how far each cell's list has been used up: the positions below are chosen.
      Each visit took one more position, as long as there was one. */
  ghost predicate Fair(cells: seq<nat>, order: seq<nat>, fronts: seq<nat>, round: nat, cursor: nat) {
    && IsOrder(order) && |fronts| == 9 && cursor < 9
    && (forall c | 0 <= c < 9 :: fronts[c] <= |cells|)
    && (forall p | 0 <= p < 9 ::
          CountIn(cells, order[p], fronts[order[p]]) ==
              Smaller(Visits(p, round, cursor), CountIn(cells, order[p], |cells|)))
  }

  /** Chosen are exactly the positions below their cell's front, each once. */
  ghost predicate Chosen(cells: seq<nat>, fronts: seq<nat>, chosen: seq<nat>) {
    && |fronts| == 9 && (forall i | 0 <= i < |cells| :: cells[i] < 9)
    && (forall k | 0 <= k < |chosen| :: chosen[k] < |cells| && chosen[k] < fronts[cells[chosen[k]]])
    && (forall j, k | 0 <= j < k < |chosen| :: chosen[j] != chosen[k])
    && (forall i: nat | i < |cells| && i < fronts[cells[i]] :: i in chosen)
  }

  ghost predicate Indexed(ranked: seq<Location>, chosen: seq<nat>, indices: seq<nat>) {
    && |indices| == |chosen| &&
        (forall k | 0 <= k < |chosen| :: chosen[k] < |ranked| && indices[k] == ranked[chosen[k]].index)
  }

  /** What spatial selection promises: the wanted number of different positions; in every cell a
      prefix of the ranking; and a cell that gives two fewer than another is exhausted. */
  ghost predicate Selected(cells: seq<nat>, wanted: nat, chosen: seq<nat>, fronts: seq<nat>) {
    && |chosen| == wanted && Chosen(cells, fronts, chosen)
    && (forall c | 0 <= c < 9 :: fronts[c] <= |cells|)
    && forall a, b | 0 <= a < 9 && 0 <= b < 9 && CountIn(cells, a, fronts[a]) + 2 <= CountIn(cells, b, fronts[b]) ::
         CountIn(cells, a, fronts[a]) == CountIn(cells, a, |cells|)
  }

  // ----- Counting -----

  ghost function Members(s: seq<nat>): (r: set<nat>)
    ensures forall x :: x in r <==> x in s
    ensures |r| <= |s|
  {
    if s == [] then {}
    else
      assert s == s[..|s| - 1] + [s[|s| - 1]];
      Members(s[..|s| - 1]) + {s[|s| - 1]}
  }

  predicate Distinct(s: seq<nat>) {
    forall i, j | 0 <= i < j < |s| :: s[i] != s[j]
  }

  lemma {:induction false} DistinctMembers(s: seq<nat>)
    requires Distinct(s)
    ensures |Members(s)| == |s|
  {
    if s != [] {
      DistinctMembers(s[..|s| - 1]);
    }
  }

  /** A list without gaps below n is at least n long. */
  lemma CoveringIsLong(s: seq<nat>, n: nat)
    requires forall i: nat | i < n :: i in s
    ensures |s| >= n
  {
    SubsetSize(Below(n), Members(s));
  }

  lemma OrderIsOnto(order: seq<nat>, c: nat) returns (p: nat)
    requires IsOrder(order) && c < 9
    ensures p < 9 && order[p] == c
  {
    DistinctMembers(order);
    SubsetSize(Members(order), Below(9));
    assert c in Members(order);
    p :| p < 9 && order[p] == c;
  }

  // ----- One visit -----

  ghost predicate AtFronts(cells: seq<nat>, heads: seq<int>, next: seq<int>, fronts: seq<nat>) {
    && |heads| == |fronts| == 9 && |next| == |cells|
    && (forall c: nat | c < 9 :: fronts[c] <= |cells| && heads[c] == NextIn(cells, c, fronts[c]))
    && (forall i: nat | i < |cells| :: next[i] == NextIn(cells, cells[i], i + 1))
  }

  /** The position at the head of a cell's list is the first one at or above the cell's front. */
  lemma HeadMeans(cells: seq<nat>, heads: seq<int>, next: seq<int>, fronts: seq<nat>, c: nat)
    requires AtFronts(cells, heads, next, fronts) && c < 9 && heads[c] >= 0
    ensures var at := heads[c];
            && fronts[c] <= at < |cells| && cells[at] == c && next[at] == NextIn(cells, c, at + 1)
            && (forall i | fronts[c] <= i < at :: cells[i] != c)
            && CountIn(cells, c, at + 1) == CountIn(cells, c, fronts[c]) + 1 <= CountIn(cells, c, |cells|)
  {
    hide NextIn;
    NextInMeans(cells, c, fronts[c]);
    CountSkips(cells, c, fronts[c], heads[c]);
    CountGrows(cells, c, heads[c] + 1, |cells|);
  }

  lemma ChosenGrows(cells: seq<nat>, fronts: seq<nat>, chosen: seq<nat>, c: nat, at: nat)
    requires Chosen(cells, fronts, chosen) && c < 9 && fronts[c] <= at < |cells| && cells[at] == c
    requires forall i | fronts[c] <= i < at :: cells[i] != c
    ensures Chosen(cells, fronts[c := at + 1], chosen + [at])
  {
    var after := fronts[c := at + 1];
    forall i: nat | i < |cells| && i < after[cells[i]] ensures i in chosen + [at] {
      if cells[i] == c && i != at {
        assert i < fronts[c];
      }
    }
  }

  /** Visiting a cell: its next position, if there is one, is taken off its list. */
  lemma VisitTakes(cells: seq<nat>, order: seq<nat>, heads: seq<int>, next: seq<int>, fronts: seq<nat>,
                   chosen: seq<nat>, round: nat, cursor: nat)
    requires AtFronts(cells, heads, next, fronts) && Fair(cells, order, fronts, round, cursor) &&
             Chosen(cells, fronts, chosen)
    requires heads[order[cursor]] >= 0
    ensures var c, at := order[cursor], heads[order[cursor]];
            && at < |cells| && cells[at] == c
            && AtFronts(cells, heads[c := next[at]], next, fronts[c := at + 1])
            && Chosen(cells, fronts[c := at + 1], chosen + [at])
            && Advanced(cells, order, fronts[c := at + 1], round, cursor)
  {
    hide NextIn, CountIn, Chosen;
    var c, at := order[cursor], heads[order[cursor]];
    HeadMeans(cells, heads, next, fronts, c);
    ChosenGrows(cells, fronts, chosen, c, at);
    assert forall p | 0 <= p < 9 && p != cursor :: order[p] != c;
  }

  lemma VisitSkips(cells: seq<nat>, order: seq<nat>, heads: seq<int>, next: seq<int>, fronts: seq<nat>, round: nat,
                   cursor: nat)
    requires AtFronts(cells, heads, next, fronts) && Fair(cells, order, fronts, round, cursor) &&
             heads[order[cursor]] < 0
    ensures Advanced(cells, order, fronts, round, cursor)
  {
    hide NextIn;
    var c := order[cursor];
    NextInMeans(cells, c, fronts[c]);
    CountSkips(cells, c, fronts[c], |cells|);
  }

  /** The state after the visit at `cursor`, with the cursor moved on. */
  ghost predicate Advanced(cells: seq<nat>, order: seq<nat>, fronts: seq<nat>, round: nat, cursor: nat) {
    if cursor == 8 then Fair(cells, order, fronts, round + 1, 0) else Fair(cells, order, fronts, round, cursor + 1)
  }

  /** After as many rounds as there are positions everything is chosen. */
  lemma RoundsSuffice(cells: seq<nat>, order: seq<nat>, fronts: seq<nat>, chosen: seq<nat>, round: nat, cursor: nat)
    requires Fair(cells, order, fronts, round, cursor) && Chosen(cells, fronts, chosen) && round >= |cells|
    ensures |chosen| >= |cells|
  {
    hide CountIn, NextIn;
    forall i: nat | i < |cells| ensures i in chosen {
      var p := OrderIsOnto(order, cells[i]);
      ExhaustedFront(cells, cells[i], fronts[cells[i]], i);
    }
    CoveringIsLong(chosen, |cells|);
  }

  /** A cell counted up to its full size has no member at or above its front. */
  lemma ExhaustedFront(cells: seq<nat>, c: nat, front: nat, i: nat)
    requires front <= |cells| && i < |cells| && cells[i] == c
    requires CountIn(cells, c, front) == CountIn(cells, c, |cells|)
    ensures i < front
  {
    if i >= front {
      CountGrows(cells, c, front, i);
      CountGrows(cells, c, i + 1, |cells|);
      assert false;
    }
  }

  lemma FairIsSelected(cells: seq<nat>, order: seq<nat>, fronts: seq<nat>, chosen: seq<nat>, round: nat, cursor: nat)
    requires Fair(cells, order, fronts, round, cursor) && Chosen(cells, fronts, chosen)
    ensures Selected(cells, |chosen|, chosen, fronts)
  {
    hide CountIn, NextIn;
    forall a, b | 0 <= a < 9 && 0 <= b < 9 && CountIn(cells, a, fronts[a]) + 2 <= CountIn(cells, b, fronts[b])
      ensures CountIn(cells, a, fronts[a]) == CountIn(cells, a, |cells|)
    {
      var p := OrderIsOnto(order, a);
      var q := OrderIsOnto(order, b);
    }
  }

  // ----- Turns -----

  /** Place of a cell in the order. */
  ghost function PlaceIn(order: seq<nat>, c: nat): (p: nat)
    requires IsOrder(order) && c < 9
    ensures p < 9 && order[p] == c
  {
    EveryCellHasPlace(order, c);
    var p: nat :| p < 9 && order[p] == c;
    p
  }

  lemma EveryCellHasPlace(order: seq<nat>, c: nat)
    requires IsOrder(order) && c < 9
    ensures exists p: nat :: p < 9 && order[p] == c
  {
    var p := OrderIsOnto(order, c);
  }

  /** When position i is up: first by its rank in its cell, then by its cell's place in the order. */
  ghost function Turn(cells: seq<nat>, order: seq<nat>, i: nat): nat
    requires IsOrder(order) && i < |cells| && cells[i] < 9
  {
    9 * CountIn(cells, cells[i], i) + PlaceIn(order, cells[i])
  }

  /** The chosen are the positions that are up first, in the order of their turns. */
  ghost predicate InTurns(cells: seq<nat>, order: seq<nat>, chosen: seq<nat>) {
    && IsOrder(order) && (forall i | 0 <= i < |cells| :: cells[i] < 9)
    && (forall k | 0 <= k < |chosen| :: chosen[k] < |cells|)
    && (forall j, k | 0 <= j < k < |chosen| :: Turn(cells, order, chosen[j]) < Turn(cells, order, chosen[k]))
    && (forall i: nat, k: nat | i < |cells| && k < |chosen| && i !in chosen ::
          Turn(cells, order, chosen[k]) < Turn(cells, order, i))
  }

  /** Turns of the chosen are over, all others are still to come. */
  lemma TurnsSoFar(cells: seq<nat>, order: seq<nat>, fronts: seq<nat>, chosen: seq<nat>, round: nat, cursor: nat,
                   i: nat)
    requires Fair(cells, order, fronts, round, cursor) && Chosen(cells, fronts, chosen) && i < |cells|
    ensures Turn(cells, order, i) < 9 * round + cursor <==> i in chosen
  {
    hide IsOrder;
    var c := cells[i];
    var p := PlaceIn(order, c);
    if i < fronts[c] {
      OneMoreBelow(cells, c, i, fronts[c]);
    } else {
      assert i !in chosen;
      CountGrows(cells, c, fronts[c], i);
      OneMoreBelow(cells, c, i, |cells|);
    }
  }

  lemma {:induction false} OneMoreBelow(cells: seq<nat>, c: nat, i: nat, at: nat)
    requires i < at <= |cells| && cells[i] == c
    ensures CountIn(cells, c, at) >= 1 + CountIn(cells, c, i)
    decreases at
  {
    if i + 1 < at {
      OneMoreBelow(cells, c, i, at - 1);
    }
  }

  /** The position taken by a visit is up now. */
  lemma VisitIsTurn(cells: seq<nat>, order: seq<nat>, heads: seq<int>, next: seq<int>, fronts: seq<nat>, round: nat,
                    cursor: nat)
    requires AtFronts(cells, heads, next, fronts) && Fair(cells, order, fronts, round, cursor)
    requires heads[order[cursor]] >= 0 && forall i | 0 <= i < |cells| :: cells[i] < 9
    ensures heads[order[cursor]] < |cells| && Turn(cells, order, heads[order[cursor]]) == 9 * round + cursor
  {
    hide NextIn;
    var c, at := order[cursor], heads[order[cursor]];
    HeadMeans(cells, heads, next, fronts, c);
    CountSkips(cells, c, fronts[c], at);
    assert PlaceIn(order, c) == cursor;
  }

  /** The turns of what was chosen so far increase. */
  ghost predicate Ascends(cells: seq<nat>, order: seq<nat>, chosen: seq<nat>) {
    && IsOrder(order) && (forall i | 0 <= i < |cells| :: cells[i] < 9)
    && (forall k | 0 <= k < |chosen| :: chosen[k] < |cells|)
    && (forall j, k | 0 <= j < k < |chosen| :: Turn(cells, order, chosen[j]) < Turn(cells, order, chosen[k]))
  }

  lemma AscendsOn(cells: seq<nat>, order: seq<nat>, heads: seq<int>, next: seq<int>, fronts: seq<nat>,
                  chosen: seq<nat>, round: nat, cursor: nat)
    requires AtFronts(cells, heads, next, fronts) && Fair(cells, order, fronts, round, cursor)
    requires Chosen(cells, fronts, chosen) && Ascends(cells, order, chosen) && heads[order[cursor]] >= 0
    ensures heads[order[cursor]] < |cells| && Ascends(cells, order, chosen + [heads[order[cursor]]])
  {
    hide NextIn, Turn, IsOrder;
    VisitIsTurn(cells, order, heads, next, fronts, round, cursor);
    forall j | 0 <= j < |chosen| ensures Turn(cells, order, chosen[j]) < 9 * round + cursor {
      TurnsSoFar(cells, order, fronts, chosen, round, cursor, chosen[j]);
    }
  }

  lemma AscendingIsInTurns(cells: seq<nat>, order: seq<nat>, fronts: seq<nat>, chosen: seq<nat>, round: nat,
                           cursor: nat)
    requires Fair(cells, order, fronts, round, cursor) && Chosen(cells, fronts, chosen) && Ascends(cells, order, chosen)
    ensures InTurns(cells, order, chosen)
  {
    hide Turn, IsOrder, CountIn;
    forall i: nat | i < |cells| ensures Turn(cells, order, i) < 9 * round + cursor <==> i in chosen {
      TurnsSoFar(cells, order, fronts, chosen, round, cursor, i);
    }
  }

  /** There is only one such choice of a given size. */
  lemma {:induction false} TurnsDecide(cells: seq<nat>, order: seq<nat>, a: seq<nat>, b: seq<nat>, n: nat)
    requires InTurns(cells, order, a) && InTurns(cells, order, b) && |a| == |b| && n <= |a|
    ensures a[..n] == b[..n]
  {
    hide Turn, IsOrder;
    if n > 0 {
      TurnsDecide(cells, order, a, b, n - 1);
      var x, y := a[n - 1], b[n - 1];
      NextIsEarliest(cells, order, a, b, n - 1);
      NextIsEarliest(cells, order, b, a, n - 1);
      TurnsDiffer(cells, order, x, y);
      assert a[..n] == a[..n - 1] + [x] && b[..n] == b[..n - 1] + [y];
    }
  }

  lemma NextIsEarliest(cells: seq<nat>, order: seq<nat>, a: seq<nat>, b: seq<nat>, n: nat)
    requires InTurns(cells, order, a) && InTurns(cells, order, b) && n < |a| == |b| && a[..n] == b[..n]
    ensures Turn(cells, order, a[n]) <= Turn(cells, order, b[n])
  {
    hide Turn, IsOrder;
    var y := b[n];
    if y in a {
      var k :| 0 <= k < |a| && a[k] == y;
      NotBefore(cells, order, a, b, n, k);
    }
  }

  lemma NotBefore(cells: seq<nat>, order: seq<nat>, a: seq<nat>, b: seq<nat>, n: nat, k: nat)
    requires InTurns(cells, order, b) && n < |a| == |b| && a[..n] == b[..n] && k < |a| && a[k] == b[n]
    ensures k >= n
  {
    hide Turn, IsOrder;
    assert forall i | 0 <= i < n :: a[..n][i] == a[i] && b[..n][i] == b[i];
  }

  lemma TurnsDiffer(cells: seq<nat>, order: seq<nat>, i: nat, j: nat)
    requires IsOrder(order) && i < |cells| && j < |cells| && cells[i] < 9 && cells[j] < 9
    requires Turn(cells, order, i) == Turn(cells, order, j)
    ensures i == j
  {
    hide IsOrder;
    if i < j && cells[i] == cells[j] {
      OneMoreBelow(cells, cells[i], i, j);
    } else if j < i && cells[i] == cells[j] {
      OneMoreBelow(cells, cells[i], j, i);
    }
  }

  // ----- Selection -----

  /** `fpc_select_spatial_features`. The round-robin loop ends because the wanted number does not
      exceed the number of features. */
  method SelectSpatial(ranked: seq<Location>, wanted: nat, f: Frame, memory: bool)
    returns (status: int, indices: seq<nat>, ghost chosen: seq<nat>, ghost fronts: seq<nat>)
    ensures status ==
            if ranked == [] || |ranked| > 2048 || wanted > |ranked| || !ProperFrame(f) || !memory then -1 else 0
    ensures status == 0 ==>
              Selected(Cells(ranked, f), wanted, chosen, fronts) && Indexed(ranked, chosen, indices) &&
                  |indices| == wanted
    ensures status == 0 ==> InTurns(Cells(ranked, f), VisitingOrder(), chosen)
  {
    hide CellOf, NextIn, CountIn, Fair, Cells, ProperFrame, Chosen, AtFronts, LinkedFrom, Selected, InTurns, Ascends,
         VisitingOrder;
    indices, chosen, fronts := [], [], seq(9, _ => 0);
    if ranked == [] || |ranked| > 2048 || wanted > |ranked| || !ProperFrame(f) {
      return -1, indices, chosen, fronts;
    }
    if !memory {
      return -1, indices, chosen, fronts;
    }
    var next, heads := new int[|ranked|], new int[9];
    BuildLists(ranked, f, heads, next);
    var order := Shuffle();
    ghost var cells := Cells(ranked, f);
    ghost var round := 0;
    var cursor: nat := 0;
    NothingTaken(cells, order[..], heads[..], next[..], fronts);
    NothingAscends(cells, order[..]);
    while |indices| < wanted
      invariant cursor < 9 && |fronts| == 9 && |indices| <= wanted && |chosen| == |indices| && IsOrder(order[..])
      invariant order[..] == VisitingOrder() && Ascends(cells, order[..], chosen)
      invariant AtFronts(cells, heads[..], next[..], fronts) && Fair(cells, order[..], fronts, round, cursor)
      invariant Chosen(cells, fronts, chosen) && Indexed(ranked, chosen, indices)
      modifies heads
      decreases 9 * |cells| - 9 * round - cursor
    {
      if round >= |cells| {
        RoundsSuffice(cells, order[..], fronts, chosen, round, cursor);
      }
      var cell := order[cursor];
      var at := heads[cell];
      if at >= 0 {
        VisitTakes(cells, order[..], heads[..], next[..], fronts, chosen, round, cursor);
        AscendsOn(cells, order[..], heads[..], next[..], fronts, chosen, round, cursor);
        indices := indices + [ranked[at].index];
        chosen := chosen + [at];
        fronts := fronts[cell := at + 1];
        ghost var before := heads[..];
        heads[cell] := next[at];
        assert heads[..] == before[cell := next[at]];
      } else {
        VisitSkips(cells, order[..], heads[..], next[..], fronts, round, cursor);
      }
      round := if cursor == 8 then round + 1 else round;
      cursor := (cursor + 1) % 9;
    }
    FairIsSelected(cells, order[..], fronts, chosen, round, cursor);
    AscendingIsInTurns(cells, order[..], fronts, chosen, round, cursor);
    return 0, indices, chosen, fronts;
  }

  lemma NothingAscends(cells: seq<nat>, order: seq<nat>)
    requires IsOrder(order) && forall i | 0 <= i < |cells| :: cells[i] < 9
    ensures Ascends(cells, order, [])
  {
  }

  lemma NothingTaken(cells: seq<nat>, order: seq<nat>, heads: seq<int>, next: seq<int>, fronts: seq<nat>)
    requires IsOrder(order) && fronts == seq(9, _ => 0) && forall i | 0 <= i < |cells| :: cells[i] < 9
    requires LinkedFrom(cells, heads, next, 0)
    ensures Fair(cells, order, fronts, 0, 0) && Chosen(cells, fronts, []) && AtFronts(cells, heads, next, fronts)
  {
    hide NextIn;
  }
}
