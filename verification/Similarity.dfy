/** Fitting and scoring a similarity transform in wrapped 32-bit arithmetic
    (`fpc_fit_similarity_pair`, `fpc_similarity_error`) and sampling the pairs to fit
    (`fpc_sample_geometry_pairs`). */
module Similarity {
  import opened Words
  import opened Bytes

  type i16 = x: int | -0x8000 <= x < 0x8000

  /** A correspondence in signed Q4 units: source point and target point. */
  datatype Point = Point(x: i16, y: i16, targetX: i16, targetY: i16)

  /** Q14 cosine and sine, Q4 translation. */
  datatype Transform = Transform(c: i16, s: i16, tx: i16, ty: i16)

  /** Any integer reduced to an unsigned 32-bit word. */
  function Low32(x: int): u32 {
    x % 0x1_0000_0000
  }

  /** Any integer reduced to a signed 32-bit word. */
  function Int32(x: int): i32 {
    Signed32(Low32(x))
  }

  function Int16(x: int): i16 {
    var w := x % 0x1_0000;
    if w < 0x8000 then w else w - 0x1_0000
  }

  lemma Int16Small(x: i16)
    ensures Int16(x) == x
  {
  }

  lemma Int32Small(x: i32)
    ensures Int32(x) == x
  {
  }

  function Magnitude(a: int): nat {
    if a < 0 then -a else a
  }

  /** C division, which truncates toward zero. */
  function Quotient(a: int, d: int): int
    requires d != 0
  {
    var q := Magnitude(a) / Magnitude(d);
    if (a < 0) != (d < 0) then -q else q
  }

  function Pow2(n: nat): nat {
    if n == 0 then 1 else 2 * Pow2(n - 1)
  }

  lemma DoubleProduct(x: nat, y: nat)
    ensures (2 * x) * y == 2 * (x * y)
  {
  }

  lemma {:induction false} Pow2Adds(a: nat, b: nat)
    ensures Pow2(a + b) == Pow2(a) * Pow2(b)
  {
    if a > 0 {
      Pow2Adds(a - 1, b);
      DoubleProduct(Pow2(a - 1), Pow2(b));
    }
  }

  lemma Pow2Values()
    ensures Pow2(14) == 0x4000 && Pow2(30) == 0x4000_0000 && Pow2(31) == 0x8000_0000 && Pow2(32) == 0x1_0000_0000
  {
    assert Pow2(8) == 256;
    Pow2Adds(8, 8);
    Pow2Adds(16, 16);
    Pow2Adds(16, 14);
    Pow2Adds(8, 6);
    assert Pow2(6) == 64;
    assert Pow2(31) == 2 * Pow2(30);
  }

  /** Leading zero bits of a non-zero word, counted from `from`. */
  function LeadingZeros(w: u32, from: nat): (n: nat)
    requires from <= 31 && Pow2(31 - from) <= 0x8000_0000
    requires 0 < w
    ensures from <= n <= 31
    ensures w >= Pow2(31 - n)
    ensures n > from ==> w < Pow2(32 - n)
    decreases 31 - from
  {
    if from == 31 || w >= Pow2(31 - from) then from else LeadingZeros(w, from + 1)
  }

  function Norm(dx: int, dy: int): u32 {
    Low32(dx * dx + dy * dy)
  }

  /** Squared length as the C code compares it. */
  function SignedNorm(dx: int, dy: int): i32 {
    Signed32(Norm(dx, dy))
  }

  /** Below 2^15 per axis nothing wraps: the comparison sees the true squared length. */
  lemma NormIsExact(dx: int, dy: int)
    requires -0x8000 < dx < 0x8000 && -0x8000 < dy < 0x8000
    ensures SignedNorm(dx, dy) == dx * dx + dy * dy
  {
    SquareBound(dx);
    SquareBound(dy);
  }

  lemma SquareBound(d: int)
    requires -0x8000 < d < 0x8000
    ensures 0 <= d * d <= 0x3fff_0001
  {
    var m := if d < 0 then -d else d;
    assert d * d == m * m;
    assert (0x7fff - m) * (0x7fff + m) >= 0;
    assert (0x7fff - m) * (0x7fff + m) == 0x7fff * 0x7fff - m * m;
  }

  // ----- Fitting -----

  /** Exponent that brings a positive norm into [2^30, 2^31). */
  function ShiftFor(norm: u32): nat
    requires norm > 0
  {
    Pow2Values();
    var leading := LeadingZeros(norm, 0);
    if leading == 0 then 31 else leading - 1
  }

  function Divisor(norm: u32): int
    requires norm > 0
  {
    Int32(norm * Pow2(ShiftFor(norm))) / 0x4000
  }

  /** A scaled product, rounded and divided. */
  function Coefficient(product: int, norm: u32): int
    requires norm > 0 && Divisor(norm) != 0
  {
    var divisor := Divisor(norm);
    Quotient(Int32(Low32(product) * Pow2(ShiftFor(norm)) + divisor / 2), divisor)
  }

  function SourceNorm(a: Point, b: Point): u32 {
    Norm(b.x - a.x, b.y - a.y)
  }

  function Dot(a: Point, b: Point): int {
    (b.x - a.x) * (b.targetX - a.targetX) + (b.y - a.y) * (b.targetY - a.targetY)
  }

  function Cross(a: Point, b: Point): int {
    (b.x - a.x) * (b.targetY - a.targetY) - (b.y - a.y) * (b.targetX - a.targetX)
  }

  predicate Fits32(x: int) {
    -0x8000_0000 <= x <= 0x7fff_ffff
  }

  /** `fpc_fit_similarity_pair`. */
  function Fit(a: Point, b: Point): Option<Transform> {
    var norm := SourceNorm(a, b);
    if norm == 0 || Divisor(norm) == 0 then None
    else
      var c, s := Coefficient(Dot(a, b), norm), Coefficient(Cross(a, b), norm);
      if !Fits32(c) || !Fits32(s) then None else Some(Assembled(a, b, c, s))
  }

  /** Coefficients cut to sixteen bits, and the translation that maps midpoint to midpoint. */
  function Assembled(a: Point, b: Point, c: int, s: int): Transform {
    var sx, sy := a.x + b.x, a.y + b.y;
    var tx := Int32((a.targetX + b.targetX + 1) * 0x4000 - sx * c + sy * s);
    var ty := Int32((a.targetY + b.targetY + 1) * 0x4000 - sx * s - sy * c);
    Transform(Int16(c), Int16(s), Int16(tx / 0x8000), Int16(ty / 0x8000))
  }

  /** Fitting succeeds and the rotation is the computed pair of quotients, nothing cut off. */
  predicate FitsUncut(a: Point, b: Point) {
    var norm := SourceNorm(a, b);
    && norm > 0 && Divisor(norm) != 0 && Fit(a, b).Some?
    && Fit(a, b).value.c == Coefficient(Dot(a, b), norm) && Fit(a, b).value.s == Coefficient(Cross(a, b), norm)
  }

  lemma MulMonotone(a: nat, b: nat, c: nat)
    requires a <= b
    ensures a * c <= b * c
  {
    assert (b - a) * c >= 0;
    assert (b - a) * c == b * c - a * c;
  }

  /** n doubled k times. */
  function Doubled(n: nat, k: nat): nat {
    n * Pow2(k)
  }

  lemma DivisorIs(norm: u32, m: nat)
    requires norm > 0 && m == Doubled(norm, ShiftFor(norm)) && m < 0x8000_0000
    ensures Divisor(norm) == m / 0x4000
  {
    hide Pow2, ShiftFor;
    Int32Small(m);
  }

  lemma NormScales(norm: u32)
    requires 0 < norm < 0x8000_0000
    ensures 0x4000_0000 <= Doubled(norm, ShiftFor(norm)) < 0x8000_0000
  {
    hide Pow2;
    Pow2Values();
    var n := LeadingZeros(norm, 0);
    assert n > 0;
    var shift := n - 1;
    Pow2Adds(31 - n, shift);
    Pow2Adds(32 - n, shift);
    MulMonotone(Pow2(31 - n), norm, Pow2(shift));
    MulMonotone(norm + 1, Pow2(32 - n), Pow2(shift));
    assert (norm + 1) * Pow2(shift) == norm * Pow2(shift) + Pow2(shift);
    Pow2Positive(shift);
  }

  /** A norm that is positive as a signed word is scaled into [2^30, 2^31), so its divisor
      lies in [2^16, 2^17). */
  lemma DivisorRange(norm: u32)
    requires 0 < norm < 0x8000_0000
    ensures 0x1_0000 <= Divisor(norm) < 0x2_0000
  {
    hide Doubled, ShiftFor, Divisor;
    NormScales(norm);
    DivisorIs(norm, Doubled(norm, ShiftFor(norm)));
  }

  lemma {:induction false} Pow2Positive(n: nat)
    ensures Pow2(n) >= 1
  {
    if n > 0 {
      Pow2Positive(n - 1);
    }
  }

  /** A 32-bit dividend over such a divisor fits sixteen bits. */
  lemma QuotientFits(a: i32, d: nat)
    requires 0x1_0000 <= d
    ensures -0x8000 <= Quotient(a, d) <= 0x7fff
  {
    var m := Magnitude(a);
    var q := m / d;
    assert q * d <= m;
    MulMonotone(0x1_0000, d, q);
  }

  lemma CoefficientFits(product: int, norm: u32)
    requires 0 < norm < 0x8000_0000
    ensures Divisor(norm) > 0 && -0x8000 <= Coefficient(product, norm) <= 0x7fff
  {
    hide Int32, Pow2, ShiftFor;
    DivisorRange(norm);
    QuotientFits(Int32(Low32(product) * Pow2(ShiftFor(norm)) + Divisor(norm) / 2), Divisor(norm));
  }

  // ----- Sampling -----

  /** What the sampler accepts: source length above 16 units, squared target length within an
      eighth of the squared source length (tolerance shift 3, the only one in use). */
  predicate Acceptable(a: Point, b: Point) {
    var n := SignedNorm(b.x - a.x, b.y - a.y);
    var m := SignedNorm(b.targetX - a.targetX, b.targetY - a.targetY);
    var tolerance := n / 8;
    n > 256 && Int32(n - tolerance) < m && m < Int32(n + tolerance)
  }

  /** An accepted pair is never rejected by the fitter, and its rotation coefficients are the
      computed quotients themselves: nothing is cut off at sixteen bits. */
  lemma AcceptedPairFits(a: Point, b: Point)
    requires Acceptable(a, b)
    ensures FitsUncut(a, b)
  {
    assert 0 < SourceNorm(a, b) < 0x8000_0000;
    PositiveNormFits(a, b);
  }

  lemma PositiveNormFits(a: Point, b: Point)
    requires 0 < SourceNorm(a, b) < 0x8000_0000
    ensures FitsUncut(a, b)
  {
    hide Coefficient, Divisor, SourceNorm, Dot, Cross, Int32, Int16;
    var norm := SourceNorm(a, b);
    CoefficientFits(Dot(a, b), norm);
    CoefficientFits(Cross(a, b), norm);
    Int16Small(Coefficient(Dot(a, b), norm));
    Int16Small(Coefficient(Cross(a, b), norm));
  }

  /** Two words of generator state. */
  datatype Seeds = Seeds(a: bv32, b: bv32)

  function Stir(w: bv32): bv32 {
    w | (((w ^ (w << 5)) & 0x1fe0) << 18)
  }

  function Draw(w: bv32, k: nat): u16
    requires k <= 16
  {
    (((w >> k) & 0xffff) as bv16) as int
  }

  /** A draw scaled to an index. */
  function IndexOf(draw: u16, count: nat): nat {
    count * draw / 0x1_0000
  }

  lemma IndexInRange(draw: u16, count: nat)
    requires count > 0
    ensures IndexOf(draw, count) < count
  {
    MulMonotone(draw, 0xffff, count);
    assert count * draw <= 0xffff * count;
  }

  /** The eight index pairs of one batch. */
  function Batch(s: Seeds, count: nat): (pairs: seq<(nat, nat)>)
    ensures |pairs| == 8
  {
    seq(8, k requires 0 <= k < 8 => (IndexOf(Draw(Stir(s.a), k + 1), count), IndexOf(Draw(Stir(s.b), k + 1), count)))
  }

  function NextSeeds(s: Seeds): Seeds {
    Seeds(Stir(s.a) >> 8, Stir(s.b) >> 8)
  }

  /** Sixteen index pairs and the state behind them. */
  function Sample(s: Seeds, count: nat): (seq<(nat, nat)>, Seeds) {
    (Batch(s, count) + Batch(NextSeeds(s), count), NextSeeds(NextSeeds(s)))
  }

  lemma BatchInRange(s: Seeds, count: nat)
    requires count > 0
    ensures forall k | 0 <= k < 8 :: Batch(s, count)[k].0 < count && Batch(s, count)[k].1 < count
  {
    hide Draw, Stir, IndexOf;
    forall k | 0 <= k < 8 ensures Batch(s, count)[k].0 < count && Batch(s, count)[k].1 < count {
      IndexInRange(Draw(Stir(s.a), k + 1), count);
      IndexInRange(Draw(Stir(s.b), k + 1), count);
    }
  }

  lemma SampleInRange(s: Seeds, count: nat)
    requires count > 0
    ensures |Sample(s, count).0| == 16
    ensures forall i | 0 <= i < 16 :: Sample(s, count).0[i].0 < count && Sample(s, count).0[i].1 < count
  {
    hide Batch;
    BatchInRange(s, count);
    BatchInRange(NextSeeds(s), count);
  }

  // ----- Scoring -----

  /** `fpc_similarity_error`. */
  function Error(p: Point, t: Transform): u32 {
    var vx := Int32(p.x * t.c - p.y * t.s + t.tx * 0x4000 - p.targetX * 0x4000);
    var vy := Int32(p.y * t.c + p.x * t.s + t.ty * 0x4000 - p.targetY * 0x4000);
    Norm(vx / 0x4000, vy / 0x4000)
  }

  predicate Inlier(p: Point, t: Transform) {
    Signed32(Error(p, t)) < 768
  }
}
