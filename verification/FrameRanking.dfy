/** Ranking raw frames (`box15`, `fpc_profile300_frame_score` and `fpc_profile300_rank_frames` in
    profile300.c): a 15x15 mean by running window sums, the score of a frame from its saturation
    and local contrast, and a stable insertion sort by score. */
module FrameRanking {
  import opened Words

  // ----- The box mean -----

  function SumOf(line: seq<u16>, start: nat, n: nat): (s: nat)
    requires start + n <= |line|
    ensures s <= 0xffff * n
  {
    if n == 0 then 0 else SumOf(line, start, n - 1) + line[start + n - 1]
  }

  /** Sliding the window by one drops its first value and takes the next. */
  lemma {:induction false} WindowSlides(line: seq<u16>, start: nat, n: nat)
    requires start + n < |line|
    ensures SumOf(line, start + 1, n) ==
            SumOf(line, start, n) - (if n == 0 then 0 else line[start]) + (if n == 0 then 0 else line[start + n])
  {
    if n > 1 {
      WindowSlides(line, start, n - 1);
    }
  }

  /** A fifteenth, rounded, by multiplication; the product stays below 2^32. */
  function Mean(sum: nat): u16
    requires sum <= 15 * 0xffff
  {
    (sum * 4369 + 32768) / 65536
  }

  /** A flat window keeps its value, up to one unit for values above 32768. */
  lemma FlatMean(c: u16)
    ensures Mean(15 * c) == if c <= 32768 then c else c - 1
    ensures 15 * c * 4369 + 32768 < 0x1_0000_0000
  {
    var sum := 15 * c;
    assert sum * 4369 == 65535 * c;
  }

  /** The window's centre for position x: positions near an end share the last full window. */
  function Centre(x: nat, length: nat): (c: nat)
    requires length >= 15 && x < length
    ensures 7 <= c <= length - 8
  {
    if x < 7 then 7 else if x > length - 8 then length - 8 else x
  }

  function Boxed(line: seq<u16>): (r: seq<u16>)
    requires |line| >= 15
    ensures |r| == |line|
  {
    seq(|line|, x requires 0 <= x < |line| => Mean(SumOf(line, Centre(x, |line|) - 7, 15)))
  }

  function Row(image: array2<u16>, y: nat): (r: seq<u16>)
    requires y < image.Length0
    reads image
    ensures |r| == image.Length1
  {
    seq(image.Length1, x requires 0 <= x < image.Length1 reads image => image[y, x])
  }

  function Column(image: array2<u16>, x: nat): (r: seq<u16>)
    requires x < image.Length1
    reads image
    ensures |r| == image.Length0
  {
    seq(image.Length0, y requires 0 <= y < image.Length0 reads image => image[y, x])
  }

  lemma BoxedMiddle(line: seq<u16>, x: nat)
    requires 7 <= x && x + 8 <= |line| && |line| >= 15
    ensures Boxed(line)[x] == Mean(SumOf(line, x - 7, 15))
  {
    hide Mean, SumOf;
  }

  /** Positions near an end share the last full window. */
  lemma BoxedEnds(line: seq<u16>)
    requires |line| >= 15
    ensures forall x: nat | x < 7 :: Boxed(line)[x] == Boxed(line)[7]
    ensures forall x: nat | |line| - 8 < x < |line| :: Boxed(line)[x] == Boxed(line)[|line| - 8]
  {
    hide Mean, SumOf;
  }

  method BoxRow(image: array2<u16>, temporary: array2<u16>, y: nat)
    requires image != temporary && image.Length0 == temporary.Length0 && image.Length1 == temporary.Length1
    requires y < image.Length0 && image.Length1 >= 15
    modifies temporary
    ensures forall x: nat | x < image.Length1 :: temporary[y, x] == Boxed(Row(image, y))[x]
    ensures forall v: nat, x: nat | v < image.Length0 && x < image.Length1 && v != y ::
              temporary[v, x] == old(temporary[v, x])
  {
    hide Mean, Boxed;
    ghost var line := Row(image, y);
    BoxedEnds(line);
    var w := image.Length1;
    var sum: nat := 0;
    for x := 0 to 15
      invariant sum == SumOf(line, 0, x)
      modifies {}
    {
      sum := sum + image[y, x];
    }
    for x := 7 to w - 7
      invariant x <= w - 8 ==> sum == SumOf(line, x - 7, 15)
      invariant forall u: nat | 7 <= u < x :: temporary[y, u] == Boxed(line)[u]
      invariant forall v: nat, u: nat | v < image.Length0 && u < w && v != y :: temporary[v, u] == old(temporary[v, u])
    {
      BoxedMiddle(line, x);
      temporary[y, x] := Mean(sum);
      if x < w - 8 {
        WindowSlides(line, x - 7, 15);
        sum := sum - image[y, x - 7] + image[y, x + 8];
      }
    }
    for x := 0 to 7
      invariant forall u: nat | u < x || 7 <= u < w - 7 :: temporary[y, u] == Boxed(line)[u]
      invariant forall v: nat, u: nat | v < image.Length0 && u < w && v != y :: temporary[v, u] == old(temporary[v, u])
    {
      temporary[y, x] := temporary[y, 7];
    }
    for x := w - 7 to w
      invariant forall u: nat | u < x :: temporary[y, u] == Boxed(line)[u]
      invariant forall v: nat, u: nat | v < image.Length0 && u < w && v != y :: temporary[v, u] == old(temporary[v, u])
    {
      temporary[y, x] := temporary[y, w - 8];
    }
  }

  method BoxColumn(temporary: array2<u16>, image: array2<u16>, x: nat)
    requires image != temporary && image.Length0 == temporary.Length0 && image.Length1 == temporary.Length1
    requires x < image.Length1 && image.Length0 >= 15
    modifies image
    ensures forall y: nat | y < image.Length0 :: image[y, x] == Boxed(Column(temporary, x))[y]
    ensures forall y: nat, u: nat | y < image.Length0 && u < image.Length1 && u != x :: image[y, u] == old(image[y, u])
  {
    hide Mean, Boxed;
    ghost var line := Column(temporary, x);
    BoxedEnds(line);
    var h := image.Length0;
    var sum: nat := 0;
    for y := 0 to 15
      invariant sum == SumOf(line, 0, y)
      modifies {}
    {
      sum := sum + temporary[y, x];
    }
    for y := 7 to h - 7
      invariant y <= h - 8 ==> sum == SumOf(line, y - 7, 15)
      invariant forall v: nat | 7 <= v < y :: image[v, x] == Boxed(line)[v]
      invariant forall v: nat, u: nat | v < h && u < image.Length1 && u != x :: image[v, u] == old(image[v, u])
    {
      BoxedMiddle(line, y);
      image[y, x] := Mean(sum);
      if y < h - 8 {
        WindowSlides(line, y - 7, 15);
        sum := sum - temporary[y - 7, x] + temporary[y + 8, x];
      }
    }
    for y := 0 to 7
      invariant forall v: nat | v < y || 7 <= v < h - 7 :: image[v, x] == Boxed(line)[v]
      invariant forall v: nat, u: nat | v < h && u < image.Length1 && u != x :: image[v, u] == old(image[v, u])
    {
      image[y, x] := image[7, x];
    }
    for y := h - 7 to h
      invariant forall v: nat | v < y :: image[v, x] == Boxed(line)[v]
      invariant forall v: nat, u: nat | v < h && u < image.Length1 && u != x :: image[v, u] == old(image[v, u])
    {
      image[y, x] := image[h - 8, x];
    }
  }

  /** An image as rows of equal length. */
  type Plane = seq<seq<u16>>

  predicate Rows(p: seq<seq<int>>, h: nat, w: nat) {
    |p| == h && forall y | 0 <= y < h :: |p[y]| == w
  }

  function PlaneOf(image: array2<u16>): (p: Plane)
    reads image
    ensures Rows(p, image.Length0, image.Length1)
    ensures forall y: nat, x: nat | y < image.Length0 && x < image.Length1 :: p[y][x] == image[y, x]
  {
    seq(image.Length0, y requires 0 <= y < image.Length0 reads image => Row(image, y))
  }

  function ColumnOf(p: Plane, w: nat, x: nat): (c: seq<u16>)
    requires Rows(p, |p|, w) && x < w
    ensures |c| == |p|
  {
    seq(|p|, y requires 0 <= y < |p| => p[y][x])
  }

  function RowMeans(p: Plane, w: nat): (r: Plane)
    requires Rows(p, |p|, w) && w >= 15
    ensures Rows(r, |p|, w)
  {
    seq(|p|, y requires 0 <= y < |p| => Boxed(p[y]))
  }

  function ColumnMeans(p: Plane, w: nat): (r: Plane)
    requires Rows(p, |p|, w) && |p| >= 15
    ensures Rows(r, |p|, w)
  {
    seq(|p|, y requires 0 <= y < |p| => seq(w, x requires 0 <= x < w => Boxed(ColumnOf(p, w, x))[y]))
  }

  /** The mean over a 15x15 window around every pixel, edge windows shared. */
  function BoxMean(p: Plane, w: nat): (r: Plane)
    requires Rows(p, |p|, w) && w >= 15 && |p| >= 15
    ensures Rows(r, |p|, w)
  {
    ColumnMeans(RowMeans(p, w), w)
  }

  /** `box15`: rows into the temporary plane, its columns back into the image. */
  method Box15(image: array2<u16>, temporary: array2<u16>)
    requires image != temporary && image.Length0 == temporary.Length0 && image.Length1 == temporary.Length1
    requires image.Length0 >= 15 && image.Length1 >= 15
    modifies image, temporary
    ensures PlaneOf(image) == BoxMean(old(PlaneOf(image)), image.Length1)
  {
    hide Boxed;
    ghost var h, w := image.Length0, image.Length1;
    ghost var rows := RowMeans(PlaneOf(image), w);
    for y := 0 to image.Length0
      invariant forall v: nat, x: nat | v < y && x < w :: temporary[v, x] == rows[v][x]
      modifies temporary
    {
      assert PlaneOf(image)[y] == Row(image, y);
      BoxRow(image, temporary, y);
    }
    assert forall x: nat | x < w :: Column(temporary, x) == ColumnOf(rows, w, x);
    for x := 0 to image.Length1
      invariant forall y: nat, u: nat | y < h && u < x :: image[y, u] == Boxed(ColumnOf(rows, w, u))[y]
      modifies image
    {
      BoxColumn(temporary, image, x);
    }
    assert forall y: nat | y < h :: PlaneOf(image)[y] == ColumnMeans(rows, w)[y];
  }

  // ----- The score of a frame -----

  const HEIGHT: nat := 88
  const WIDTH: nat := 112

  /** A frame of raw pixels. */
  predicate IsFrame(p: seq<seq<u8>>) {
    Rows(p, HEIGHT, WIDTH)
  }

  predicate Saturated(v: u16) {
    v == 0 || v == 255
  }

  predicate Contrasting(v: u16) {
    v > 208
  }

  function CountRow(f: u16 -> bool, line: seq<u16>, n: nat): (c: nat)
    requires n <= |line|
    ensures c <= n
  {
    if n == 0 then 0 else CountRow(f, line, n - 1) + if f(line[n - 1]) then 1 else 0
  }

  function CountPlane(f: u16 -> bool, p: Plane, w: nat, rows: nat): (c: nat)
    requires Rows(p, |p|, w) && rows <= |p|
    ensures c <= rows * w
  {
    if rows == 0 then 0
    else
      assert rows * w == (rows - 1) * w + w;
      CountPlane(f, p, w, rows - 1) + CountRow(f, p[rows - 1], w)
  }

  /** A pixel in sixteenths. */
  function Unit(v: u8): u16 {
    16 * (v as int)
  }

  function Scaled(p: seq<seq<u8>>): (r: Plane)
    requires IsFrame(p)
    ensures Rows(r, HEIGHT, WIDTH)
  {
    seq(HEIGHT, y requires 0 <= y < HEIGHT => seq(WIDTH, x requires 0 <= x < WIDTH => Unit(p[y][x])))
  }

  function Gap(a: int, b: int): nat {
    if a < b then b - a else a - b
  }

  /** How far a plane is from another, pixel by pixel. */
  function Apart(a: Plane, b: Plane): (r: Plane)
    requires Rows(a, HEIGHT, WIDTH) && Rows(b, HEIGHT, WIDTH)
    ensures Rows(r, HEIGHT, WIDTH)
  {
    seq(HEIGHT, y requires 0 <= y < HEIGHT => seq(WIDTH, x requires 0 <= x < WIDTH => Gap(a[y][x], b[y][x])))
  }

  /** Local contrast: the mean distance from the local mean. */
  function Contrast(p: seq<seq<u8>>): (r: Plane)
    requires IsFrame(p)
    ensures Rows(r, HEIGHT, WIDTH)
  {
    BoxMean(Apart(BoxMean(Scaled(p), WIDTH), Scaled(p)), WIDTH)
  }

  function Weighted(saturated: nat, contrast: nat): int {
    (3072 * (1000 - saturated * 1000 / 9856) + 1024 * (contrast * 1000 / 9856) + 2048) / 4096
  }

  function ScoreOf(p: seq<seq<u8>>): int
    requires IsFrame(p)
  {
    Weighted(CountPlane(Saturated, p, WIDTH, HEIGHT), CountPlane(Contrasting, Contrast(p), WIDTH, HEIGHT))
  }

  /** A score is never negative and never above 1000: ranking fails only without memory. */
  lemma ScoreInRange(p: seq<seq<u8>>)
    requires IsFrame(p)
    ensures 0 <= ScoreOf(p) <= 1000
  {
    hide CountPlane, Contrast;
    var saturated := CountPlane(Saturated, p, WIDTH, HEIGHT);
    var contrast := CountPlane(Contrasting, Contrast(p), WIDTH, HEIGHT);
    WeightedFits(saturated, contrast);
  }

  lemma WeightedFits(saturated: nat, contrast: nat)
    requires saturated <= 9856 && contrast <= 9856
    ensures 0 <= Weighted(saturated, contrast) <= 1000
  {
  }

  predicate Flat(p: seq<seq<int>>, c: int) {
    forall y | 0 <= y < |p| :: forall x | 0 <= x < |p[y]| :: p[y][x] == c
  }

  lemma {:induction false} FlatSum(line: seq<u16>, start: nat, n: nat, c: u16)
    requires start + n <= |line| && forall x | 0 <= x < |line| :: line[x] == c
    ensures SumOf(line, start, n) == n * c
  {
    if n > 0 {
      FlatSum(line, start, n - 1, c);
      assert n * c == (n - 1) * c + c;
    }
  }

  lemma FlatBoxed(line: seq<u16>, c: u16)
    requires |line| >= 15 && c <= 32768 && forall x | 0 <= x < |line| :: line[x] == c
    ensures forall x | 0 <= x < |line| :: Boxed(line)[x] == c
  {
    hide Mean;
    forall x | 0 <= x < |line| ensures Boxed(line)[x] == c {
      FlatSum(line, Centre(x, |line|) - 7, 15, c);
      FlatMean(c);
    }
  }

  /** The box mean of a flat plane is that plane. */
  lemma FlatBoxMean(p: Plane, w: nat, c: u16)
    requires Rows(p, |p|, w) && w >= 15 && |p| >= 15 && Flat(p, c) && c <= 32768
    ensures Flat(BoxMean(p, w), c)
  {
    hide Boxed;
    var rows := RowMeans(p, w);
    forall y | 0 <= y < |p| ensures forall x | 0 <= x < w :: rows[y][x] == c {
      FlatBoxed(p[y], c);
    }
    forall x: nat | x < w ensures forall y | 0 <= y < |p| :: Boxed(ColumnOf(rows, w, x))[y] == c {
      FlatBoxed(ColumnOf(rows, w, x), c);
    }
  }

  lemma {:induction false} FlatCountRow(f: u16 -> bool, line: seq<u16>, n: nat, c: u16)
    requires n <= |line| && forall x | 0 <= x < |line| :: line[x] == c
    ensures CountRow(f, line, n) == if f(c) then n else 0
  {
    if n > 0 {
      FlatCountRow(f, line, n - 1, c);
    }
  }

  lemma {:induction false} FlatCount(f: u16 -> bool, p: Plane, w: nat, rows: nat, c: u16)
    requires Rows(p, |p|, w) && rows <= |p| && Flat(p, c)
    ensures CountPlane(f, p, w, rows) == if f(c) then rows * w else 0
  {
    if rows > 0 {
      FlatCount(f, p, w, rows - 1, c);
      FlatCountRow(f, p[rows - 1], w, c);
      assert rows * w == (rows - 1) * w + w;
    }
  }

  /** A frame of one value has no contrast: it scores 750, or nothing when it is black or white. */
  lemma FlatFrame(p: seq<seq<u8>>, c: u8)
    requires IsFrame(p) && Flat(p, c)
    ensures ScoreOf(p) == if c == 0 || c == 255 then 0 else 750
  {
    hide BoxMean, CountPlane;
    FlatBoxMean(Scaled(p), WIDTH, 16 * c);
    var gaps := Apart(BoxMean(Scaled(p), WIDTH), Scaled(p));
    FlatBoxMean(gaps, WIDTH, 0);
    FlatCount(Contrasting, Contrast(p), WIDTH, HEIGHT, 0);
    FlatCount(Saturated, p, WIDTH, HEIGHT, c);
  }

  method CountPixels(p: seq<seq<u8>>) returns (saturated: nat)
    requires IsFrame(p)
    ensures saturated == CountPlane(Saturated, p, WIDTH, HEIGHT)
  {
    saturated := 0;
    for y := 0 to HEIGHT
      invariant saturated == CountPlane(Saturated, p, WIDTH, y)
    {
      for x := 0 to WIDTH
        invariant saturated == CountPlane(Saturated, p, WIDTH, y) + CountRow(Saturated, p[y], x)
      {
        if p[y][x] == 0 || p[y][x] == 255 {
          saturated := saturated + 1;
        }
      }
    }
  }

  method CountContrast(image: array2<u16>) returns (contrast: nat)
    requires image.Length0 == HEIGHT && image.Length1 == WIDTH
    ensures contrast == CountPlane(Contrasting, PlaneOf(image), WIDTH, HEIGHT)
  {
    contrast := 0;
    ghost var p := PlaneOf(image);
    for y := 0 to HEIGHT
      invariant contrast == CountPlane(Contrasting, p, WIDTH, y)
    {
      for x := 0 to WIDTH
        invariant contrast == CountPlane(Contrasting, p, WIDTH, y) + CountRow(Contrasting, p[y], x)
      {
        if image[y, x] > 208 {
          contrast := contrast + 1;
        }
      }
    }
  }

  /** Loads the pixels, sixteen units each. */
  method LoadPixels(p: seq<seq<u8>>, image: array2<u16>)
    requires IsFrame(p) && image.Length0 == HEIGHT && image.Length1 == WIDTH
    modifies image
    ensures PlaneOf(image) == Scaled(p)
  {
    for y := 0 to HEIGHT
      invariant forall v: nat, x: nat | v < y && x < WIDTH :: image[v, x] == Unit(p[v][x])
    {
      for x := 0 to WIDTH
        invariant forall v: nat, u: nat | v < HEIGHT && u < WIDTH && (v < y || (v == y && u < x)) ::
                    image[v, u] == Unit(p[v][u])
      {
        image[y, x] := Unit(p[y][x]);
      }
    }
    assert forall y: nat | y < HEIGHT :: PlaneOf(image)[y] == Scaled(p)[y];
  }

  /** Replaces every mean by its distance from the pixel. */
  method Subtract(p: seq<seq<u8>>, image: array2<u16>)
    requires IsFrame(p) && image.Length0 == HEIGHT && image.Length1 == WIDTH
    modifies image
    ensures PlaneOf(image) == Apart(old(PlaneOf(image)), Scaled(p))
  {
    ghost var was := PlaneOf(image);
    for y := 0 to HEIGHT
      invariant forall v: nat, x: nat | v < HEIGHT && x < WIDTH ::
                  image[v, x] == if v < y then Gap(was[v][x], Unit(p[v][x])) else was[v][x]
    {
      for x := 0 to WIDTH
        invariant forall v: nat, u: nat | v < HEIGHT && u < WIDTH ::
                    image[v, u] == if v < y || (v == y && u < x) then Gap(was[v][u], Unit(p[v][u])) else was[v][u]
      {
        var difference := (image[y, x] as int) - Unit(p[y][x]);
        image[y, x] := if difference < 0 then -difference else difference;
      }
    }
    assert forall y: nat | y < HEIGHT :: PlaneOf(image)[y] == Apart(was, Scaled(p))[y];
  }

  /** `fpc_profile300_frame_score`; -1 without memory for its planes. */
  method FrameScore(p: seq<seq<u8>>, memory: bool) returns (score: int)
    requires IsFrame(p)
    ensures score == if memory then ScoreOf(p) else -1
  {
    hide BoxMean, CountPlane, Apart, Scaled;
    if !memory {
      return -1;
    }
    var image, temporary := new u16[HEIGHT, WIDTH]((_, _) => 0), new u16[HEIGHT, WIDTH]((_, _) => 0);
    LoadPixels(p, image);
    Box15(image, temporary);
    Subtract(p, image);
    Box15(image, temporary);
    var contrast := CountContrast(image);
    var saturated := CountPixels(p);
    return (3072 * (1000 - saturated * 1000 / 9856) + 1024 * (contrast * 1000 / 9856) + 2048) / 4096;
  }

  // ----- Ranking -----

  /** The first n frames in order of descending score, equal scores in frame order. */
  predicate Ranks(order: seq<nat>, scores: seq<int>, n: nat) {
    && |order| == n <= |scores| && (forall i | 0 <= i < n :: order[i] < n)
    && (forall i, j | 0 <= i < j < n ::
          scores[order[i]] > scores[order[j]] || (scores[order[i]] == scores[order[j]] && order[i] < order[j]))
  }

  /** Moves frame i down to its place among the frames before it. */
  method InsertFrame(order: array<nat>, scores: seq<int>, i: nat)
    requires 0 < i < |scores| <= order.Length && Ranks(order[..i], scores, i) && order[i] == i
    modifies order
    ensures Ranks(order[..i + 1], scores, i + 1)
    ensures forall k | i < k < order.Length :: order[k] == old(order[k])
  {
    hide Ranks;
    ghost var before := order[..i];
    RanksInRange(before, scores, i);
    var j := i;
    var selected := order[i];
    while j > 0 && scores[selected] > scores[order[j - 1]]
      invariant 0 <= j <= i && (j > 0 ==> order[j - 1] < |scores|)
      invariant forall k | 0 <= k < j :: order[k] == before[k]
      invariant forall k | j < k <= i :: order[k] == before[k - 1]
      invariant forall k | j <= k < i :: scores[selected] > scores[before[k]]
      invariant forall k | i < k < order.Length :: order[k] == old(order[k])
    {
      order[j] := order[j - 1];
      j := j - 1;
    }
    order[j] := selected;
    assert order[..i + 1] == before[..j] + [i] + before[j..];
    InsertedRanks(before, order[..i + 1], scores, i, j);
  }

  lemma RanksInRange(order: seq<nat>, scores: seq<int>, n: nat)
    requires Ranks(order, scores, n)
    ensures |order| == n && forall k | 0 <= k < n :: order[k] < n
  {
  }

  function Scores(frames: seq<seq<seq<u8>>>): (s: seq<int>)
    requires forall f <- frames :: IsFrame(f)
    ensures |s| == |frames|
  {
    seq(|frames|, i requires 0 <= i < |frames| => ScoreOf(frames[i]))
  }

  /** `fpc_profile300_rank_frames`: one to five frames by descending score, equal scores in frame
      order; `memory(i)` tells whether the planes for frame i can be had. */
  method RankFrames(frames: seq<seq<seq<u8>>>, order: array<nat>, memory: nat -> bool) returns (status: int)
    requires order.Length == 5 && forall f <- frames :: IsFrame(f)
    modifies order
    ensures status == if |frames| == 0 || |frames| > 5 || (exists i :: 0 <= i < |frames| && !memory(i)) then -1 else 0
    ensures status == 0 ==> Ranks(order[..|frames|], Scores(frames), |frames|)
  {
    hide ScoreOf, IsFrame;
    var n := |frames|;
    if n == 0 || n > 5 {
      return -1;
    }
    var scores := [];
    for i := 0 to n
      invariant |scores| == i && forall k | 0 <= k < i :: order[k] == k && scores[k] == Scores(frames)[k] && memory(k)
    {
      var score := FrameScore(frames[i], memory(i));
      ScoreInRange(frames[i]);
      if score < 0 {
        return -1;
      }
      scores := scores + [score];
      order[i] := i;
    }
    assert scores == Scores(frames);
    for i := 1 to n
      invariant Ranks(order[..i], scores, i)
      invariant forall k | i <= k < n :: order[k] == k
    {
      InsertFrame(order, scores, i);
    }
    return 0;
  }

  /** A later frame goes behind every frame whose score it does not beat. */
  lemma InsertedRanks(before: seq<nat>, after: seq<nat>, scores: seq<int>, n: nat, j: nat)
    requires Ranks(before, scores, n) && n < |scores| && j <= n
    requires after == before[..j] + [n] + before[j..]
    requires forall k | j <= k < n :: scores[n] > scores[before[k]]
    requires j > 0 ==> scores[before[j - 1]] >= scores[n]
    ensures Ranks(after, scores, n + 1)
  {
    forall k | 0 <= k < j ensures scores[before[k]] >= scores[n] {
      assert k < j - 1 ==> scores[before[k]] >= scores[before[j - 1]];
    }
  }
}
