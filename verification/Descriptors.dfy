/** Binary projection descriptors and the half-swap distance (`fpc_project_descriptor`,
    `popcount32`, `fpc_descriptor_distance128`). */
module Descriptors {
  import opened Words
  import opened Crc

  // ----- Population count -----

  /** Ones among the n low bits. */
  function Ones(x: bv32, n: nat): nat
    decreases n
  {
    if n == 0 then 0 else (if Odd(x) then 1 else 0) + Ones(Half(x), n - 1)
  }

  function Pairwise(x: bv32): bv32 {
    x - ((x >> 1) & 0x55555555)
  }

  function Nibblewise(v: bv32): bv32 {
    (v & 0x33333333) + ((v >> 2) & 0x33333333)
  }

  function Bytewise(v: bv32): bv32 {
    (v + (v >> 4)) & 0x0f0f0f0f
  }

  /** `popcount32`: the parallel count. */
  function PopCount(x: bv32): bv32 {
    Multiplied(Bytewise(Nibblewise(Pairwise(x))))
  }

  function Multiplied(u: bv32): bv32 {
    (u * 0x01010101) >> 24
  }

  function Byte(x: bv32): bv8 {
    (x & 0xff) as bv8
  }

  function Shr8(x: bv32): bv32 {
    x >> 8
  }

  /** The eight bits of a byte added up. */
  function ByteOnes(b: bv8): bv8 {
    (b & 1) + ((b >> 1) & 1) + ((b >> 2) & 1) + ((b >> 3) & 1) + ((b >> 4) & 1) + ((b >> 5) & 1) + ((b >> 6) & 1) +
        ((b >> 7) & 1)
  }

  lemma FirstLane(x: bv32)
    ensures Byte(Bytewise(Nibblewise(Pairwise(x)))) == ByteOnes(Byte(x))
  {
  }

  lemma SecondLane(x: bv32)
    ensures Byte(Shr8(Bytewise(Nibblewise(Pairwise(x))))) == ByteOnes(Byte(Shr8(x)))
  {
  }

  lemma ThirdLane(x: bv32)
    ensures Byte(Shr8(Shr8(Bytewise(Nibblewise(Pairwise(x)))))) == ByteOnes(Byte(Shr8(Shr8(x))))
  {
  }

  lemma FourthLane(x: bv32)
    ensures Byte(Shr8(Shr8(Shr8(Bytewise(Nibblewise(Pairwise(x))))))) == ByteOnes(Byte(Shr8(Shr8(Shr8(x)))))
  {
  }

  lemma BytewiseLow(v: bv32)
    ensures SmallLanes(Bytewise(v))
  {
  }

  lemma MultiplyAddsLanes(u: bv32)
    requires u & 0xf0f0f0f0 == 0
    ensures (u * 0x01010101) >> 24 == (((u & 0xff) + ((u >> 8) & 0xff)) + ((u >> 16) & 0xff)) + ((u >> 24) & 0xff)
  {
  }

  function Low8(u: bv32): bv32 {
    u & 0xff
  }

  predicate SmallLanes(u: bv32) {
    u & 0xf0f0f0f0 == 0
  }

  lemma LanesAreSmall(u: bv32)
    requires SmallLanes(u)
    ensures Low8(u) < 16 && Low8(Shr8(u)) < 16 && Low8(Shr8(Shr8(u))) < 16 && Low8(Shr8(Shr8(Shr8(u)))) < 16
  {
  }

  function Narrow(a: bv32): bv8
    requires a < 256
  {
    a as bv8
  }

  function Plus(x: bv8, y: bv8): bv8 {
    x + y
  }

  function Sum(a: bv32, b: bv32): bv32 {
    a + b
  }

  lemma NarrowSum(a: bv32, b: bv32)
    requires a < 64 && b < 64
    ensures Sum(a, b) < 128 && Narrow(Sum(a, b)) == Plus(Narrow(a), Narrow(b))
  {
  }

  lemma NarrowLow(u: bv32)
    ensures Low8(u) < 256 && Narrow(Low8(u)) == Byte(u)
  {
  }

  lemma SumBelow(a: bv32, b: bv32)
    requires a < 48 && b < 16
    ensures Sum(a, b) < 64
  {
  }

  lemma ThirtyTwo(a: bv32, b: bv32)
    requires a < 16 && b < 16
    ensures Sum(a, b) < 48
  {
  }

  lemma MultiplySumsLanes(u: bv32)
    requires SmallLanes(u)
    ensures Multiplied(u) == Sum(Sum(Sum(Low8(u), Low8(Shr8(u))), Low8(Shr8(Shr8(u)))), Low8(Shr8(Shr8(Shr8(u)))))
  {
    MultiplyAddsLanes(u);
  }

  // Sums of small bytes, counted up one by one, have the sum as their value.

  function Inc(x: bv8): bv8 {
    1 + x
  }

  function Dec(x: bv8): bv8 {
    x - 1
  }

  lemma IncValue(x: bv8)
    requires x as int < 255
    ensures Inc(x) as int == x as int + 1
  {
    BelowTop(x);
    SuccessorValue(x);
  }

  lemma SuccessorValue(x: bv8)
    requires x < 255
    ensures (1 + x) as int == x as int + 1
  {
  }

  lemma BelowTop(x: bv8)
    requires x as int < 255
    ensures x < 255
  {
  }

  lemma DecBelow(x: bv8)
    requires x as int > 0
    ensures x == Inc(Dec(x)) && Dec(x) < 255
  {
  }

  lemma BelowValue(x: bv8)
    requires x < 255
    ensures x as int < 255
  {
  }

  lemma PlusInc(x: bv8, y: bv8)
    ensures Plus(Inc(x), y) == Inc(Plus(x, y))
  {
  }

  lemma PlusZero(x: bv8, y: bv8)
    requires x as int == 0
    ensures Plus(x, y) == y
  {
    ZeroByte(x);
  }

  lemma ZeroByte(x: bv8)
    requires x as int == 0
    ensures x == 0
  {
  }

  lemma {:induction false} PlusValue(x: bv8, y: bv8)
    requires x as int + y as int < 256
    ensures Plus(x, y) as int == x as int + y as int
    decreases x as int
  {
    hide Plus, Inc, Dec;
    if x as int > 0 {
      var p := Dec(x);
      DecBelow(x);
      BelowValue(p);
      IncValue(p);
      PlusInc(p, y);
      PlusValue(p, y);
      IncValue(Plus(p, y));
    } else {
      PlusZero(x, y);
    }
  }

  lemma PlusEight(b0: bv8, b1: bv8, b2: bv8, b3: bv8, b4: bv8, b5: bv8, b6: bv8, b7: bv8)
    requires b0 as int <= 1 && b1 as int <= 1 && b2 as int <= 1 && b3 as int <= 1
    requires b4 as int <= 1 && b5 as int <= 1 && b6 as int <= 1 && b7 as int <= 1
    ensures Plus(Plus(Plus(Plus(Plus(Plus(Plus(b0, b1), b2), b3), b4), b5), b6), b7) as int ==
            b0 as int + b1 as int + b2 as int + b3 as int + b4 as int + b5 as int + b6 as int + b7 as int
  {
    hide Plus;
    PlusValue(b0, b1);
    var s1 := Plus(b0, b1);
    PlusValue(s1, b2);
    var s2 := Plus(s1, b2);
    PlusValue(s2, b3);
    var s3 := Plus(s2, b3);
    PlusValue(s3, b4);
    var s4 := Plus(s3, b4);
    PlusValue(s4, b5);
    var s5 := Plus(s4, b5);
    PlusValue(s5, b6);
    PlusValue(Plus(s5, b6), b7);
  }

  lemma ByteOnesByPlus(b: bv8)
    ensures ByteOnes(b) ==
            Plus(Plus(Plus(Plus(Plus(Plus(Plus(b & 1, (b >> 1) & 1), (b >> 2) & 1), (b >> 3) & 1), (b >> 4) & 1),
                           (b >> 5) & 1), (b >> 6) & 1), (b >> 7) & 1)
  {
  }

  lemma BitValue(x: bv32)
    ensures (Byte(x) & 1) as int == if Odd(x) then 1 else 0
  {
  }

  lemma BitsOfByte(x: bv32)
    ensures (Byte(x) >> 1) & 1 == Byte(x >> 1) & 1 && (Byte(x) >> 2) & 1 == Byte(x >> 2) & 1
    ensures (Byte(x) >> 3) & 1 == Byte(x >> 3) & 1 && (Byte(x) >> 4) & 1 == Byte(x >> 4) & 1
    ensures (Byte(x) >> 5) & 1 == Byte(x >> 5) & 1 && (Byte(x) >> 6) & 1 == Byte(x >> 6) & 1
    ensures (Byte(x) >> 7) & 1 == Byte(x >> 7) & 1
  {
  }

  lemma HalvesOf(x: bv32)
    ensures Half(x) == x >> 1 && Half(x >> 1) == x >> 2 && Half(x >> 2) == x >> 3 && Half(x >> 3) == x >> 4
    ensures Half(x >> 4) == x >> 5 && Half(x >> 5) == x >> 6 && Half(x >> 6) == x >> 7 && Half(x >> 7) == x >> 8
  {
  }

  function Low(x: bv32): bv8 {
    Byte(x) & 1
  }

  lemma OnesUnfold(x: bv32, n: nat)
    requires n > 0
    ensures Ones(x, n) == Low(x) as int + Ones(Half(x), n - 1) && Low(x) as int <= 1
  {
    BitValue(x);
  }

  lemma NoOnes(x: bv32)
    ensures Ones(x, 0) == 0
  {
  }

  lemma ByteOnesSpread(x: bv32)
    ensures ByteOnes(Byte(x)) ==
            Plus(Plus(Plus(Plus(Plus(Plus(Plus(Low(x), Low(x >> 1)), Low(x >> 2)), Low(x >> 3)), Low(x >> 4)),
                           Low(x >> 5)), Low(x >> 6)), Low(x >> 7))
  {
    hide Plus, ByteOnes, Byte;
    ByteOnesByPlus(Byte(x));
    BitsOfByte(x);
  }

  lemma ByteOnesValue(x: bv32)
    ensures ByteOnes(Byte(x)) as int == Ones(x, 8) <= 8
  {
    hide Plus, ByteOnes, Byte, Low, Half, Ones;
    ByteOnesSpread(x);
    HalvesOf(x);
    OnesUnfold(x, 8);
    OnesUnfold(x >> 1, 7);
    OnesUnfold(x >> 2, 6);
    OnesUnfold(x >> 3, 5);
    OnesUnfold(x >> 4, 4);
    OnesUnfold(x >> 5, 3);
    OnesUnfold(x >> 6, 2);
    OnesUnfold(x >> 7, 1);
    NoOnes(x >> 8);
    PlusEight(Low(x), Low(x >> 1), Low(x >> 2), Low(x >> 3), Low(x >> 4), Low(x >> 5), Low(x >> 6), Low(x >> 7));
  }

  /** The multiplication adds the four lanes. */
  lemma LaneSum(u: bv32)
    requires SmallLanes(u)
    ensures Multiplied(u) < 128
    ensures Narrow(Multiplied(u)) ==
            Plus(Plus(Plus(Byte(u), Byte(Shr8(u))), Byte(Shr8(Shr8(u)))), Byte(Shr8(Shr8(Shr8(u)))))
  {
    hide Plus, Sum, Low8, Shr8, Byte, Multiplied, Narrow, SmallLanes;
    LanesAreSmall(u);
    MultiplySumsLanes(u);
    var a, b, c, d := Low8(u), Low8(Shr8(u)), Low8(Shr8(Shr8(u))), Low8(Shr8(Shr8(Shr8(u))));
    NarrowLow(u);
    NarrowLow(Shr8(u));
    NarrowLow(Shr8(Shr8(u)));
    NarrowLow(Shr8(Shr8(Shr8(u))));
    NarrowSum(a, b);
    ThirtyTwo(a, b);
    NarrowSum(Sum(a, b), c);
    SumBelow(Sum(a, b), c);
    NarrowSum(Sum(Sum(a, b), c), d);
  }

  lemma NarrowValue(x: bv32)
    requires x < 128
    ensures Narrow(x) as int == x as int
  {
  }

  lemma EightHalves(x: bv32)
    ensures Halves(x, 8) == Shr8(x)
  {
    hide Half;
    HalvesOf(x);
  }

  lemma {:induction false} OnesSplit(x: bv32, m: nat, n: nat)
    ensures Ones(x, m + n) == Ones(x, m) + Ones(Halves(x, m), n)
    decreases m
  {
    hide Odd, Half;
    if m > 0 {
      OnesSplit(Half(x), m - 1, n);
    }
  }

  lemma OnesByBytes(x: bv32)
    ensures Ones(x, 32) == Ones(x, 8) + Ones(Shr8(x), 8) + Ones(Shr8(Shr8(x)), 8) + Ones(Shr8(Shr8(Shr8(x))), 8)
  {
    hide Ones, Halves, Shr8;
    EightHalves(x);
    EightHalves(Shr8(x));
    EightHalves(Shr8(Shr8(x)));
    OnesSplit(x, 8, 24);
    OnesSplit(Shr8(x), 8, 16);
    OnesSplit(Shr8(Shr8(x)), 8, 8);
  }

  /** The parallel count counts the ones. */
  lemma PopCountIsOnes(x: bv32)
    ensures PopCount(x) as int == Ones(x, 32)
  {
    hide Pairwise, Nibblewise, Bytewise, Byte, ByteOnes, Plus, Ones, Multiplied, Shr8, Narrow, SmallLanes;
    var u := Bytewise(Nibblewise(Pairwise(x)));
    BytewiseLow(Nibblewise(Pairwise(x)));
    LaneSum(u);
    FirstLane(x);
    SecondLane(x);
    ThirdLane(x);
    FourthLane(x);
    ByteOnesValue(x);
    ByteOnesValue(Shr8(x));
    ByteOnesValue(Shr8(Shr8(x)));
    ByteOnesValue(Shr8(Shr8(Shr8(x))));
    var b0, b1, b2, b3 := Byte(u), Byte(Shr8(u)), Byte(Shr8(Shr8(u))), Byte(Shr8(Shr8(Shr8(u))));
    PlusValue(b0, b1);
    PlusValue(Plus(b0, b1), b2);
    PlusValue(Plus(Plus(b0, b1), b2), b3);
    NarrowValue(Multiplied(u));
    OnesByBytes(x);
  }

  // ----- Distance -----

  lemma XorBits(a: bv32, b: bv32)
    ensures Half(Xor(a, b)) == Xor(Half(a), Half(b))
  {
  }

  lemma XorParity(a: bv32, b: bv32)
    ensures Odd(Xor(a, b)) <==> Odd(a) != Odd(b)
  {
  }

  lemma {:induction false} OnesTriangle(a: bv32, b: bv32, c: bv32, n: nat)
    ensures Ones(Xor(a, c), n) <= Ones(Xor(a, b), n) + Ones(Xor(b, c), n)
    decreases n
  {
    hide Xor, Odd, Half;
    if n > 0 {
      XorBits(a, c);
      XorBits(a, b);
      XorBits(b, c);
      XorParity(a, c);
      XorParity(a, b);
      XorParity(b, c);
      OnesTriangle(Half(a), Half(b), Half(c), n - 1);
    }
  }

  type Descriptor = d: seq<u8> | |d| == 16 witness seq(16, _ => 0)

  /** Little-endian word k of a descriptor. */
  function Word(d: Descriptor, k: nat): bv32
    requires k < 4
  {
    Window(d[4 * k..4 * k + 4])
  }

  /** Differing bits of two words. */
  function Gap(x: bv32, y: bv32): nat {
    PopCount(Xor(x, y)) as int
  }

  lemma GapIsOnes(x: bv32, y: bv32)
    ensures Gap(x, y) == Ones(Xor(x, y), 32)
  {
    PopCountIsOnes(Xor(x, y));
  }

  /** Differing bits of the words below k; `crossed` compares against the other half. */
  function Hamming(a: Descriptor, b: Descriptor, crossed: bool, k: nat): nat
    requires k <= 4
  {
    if k == 0 then 0
    else Hamming(a, b, crossed, k - 1) + Gap(Word(a, k - 1), Word(b, if crossed then (k + 1) % 4 else k - 1))
  }

  /** `fpc_descriptor_distance128`: the better of the two half alignments. */
  function Distance(a: Descriptor, b: Descriptor): nat {
    var normal, rotated := Hamming(a, b, false, 4), Hamming(a, b, true, 4);
    if normal < rotated then normal else rotated
  }

  /** The word loop of the C code; byte i of one side meets byte i or byte i^8 of the other. */
  method ComputeDistance(first: Descriptor, second: Descriptor) returns (d: nat)
    ensures d == Distance(first, second)
  {
    hide Gap, Word;
    var normal, rotated := 0, 0;
    for k := 0 to 4
      invariant normal == Hamming(first, second, false, k) && rotated == Hamming(first, second, true, k)
    {
      normal := normal + Gap(Word(first, k), Word(second, k));
      var other := if k < 2 then k + 2 else k - 2;
      assert other == (k + 2) % 4;
      rotated := rotated + Gap(Word(first, k), Word(second, other));
    }
    return if normal < rotated then normal else rotated;
  }

  function Swapped(d: Descriptor): Descriptor {
    d[8..] + d[..8]
  }

  lemma WordOfSwapped(d: Descriptor, k: nat)
    requires k < 4
    ensures Word(Swapped(d), k) == Word(d, (k + 2) % 4)
  {
    hide Window;
    var s := Swapped(d);
    assert s[4 * k..4 * k + 4] == d[4 * ((k + 2) % 4)..4 * ((k + 2) % 4) + 4];
  }

  lemma GapSymmetric(x: bv32, y: bv32)
    ensures Gap(x, y) == Gap(y, x)
  {
    hide Xor, PopCount;
    XorCommutes(x, y);
  }

  lemma GapTriangle(x: bv32, y: bv32, z: bv32)
    ensures Gap(x, z) <= Gap(x, y) + Gap(y, z)
  {
    hide Gap, Ones, Xor;
    GapIsOnes(x, z);
    GapIsOnes(x, y);
    GapIsOnes(y, z);
    OnesTriangle(x, y, z, 32);
  }

  /** All four word comparisons of one alignment. */
  lemma HammingWords(a: Descriptor, b: Descriptor, crossed: bool)
    ensures Hamming(a, b, crossed, 4) ==
            if crossed then
              Gap(Word(a, 0), Word(b, 2)) + Gap(Word(a, 1), Word(b, 3)) +
              Gap(Word(a, 2), Word(b, 0)) + Gap(Word(a, 3), Word(b, 1))
            else
              Gap(Word(a, 0), Word(b, 0)) + Gap(Word(a, 1), Word(b, 1)) +
              Gap(Word(a, 2), Word(b, 2)) + Gap(Word(a, 3), Word(b, 3))
  {
    hide Gap, Word;
    assert Hamming(a, b, crossed, 1) == Gap(Word(a, 0), Word(b, if crossed then 2 else 0));
    assert Hamming(a, b, crossed, 2) == Hamming(a, b, crossed, 1) + Gap(Word(a, 1), Word(b, if crossed then 3 else 1));
    assert Hamming(a, b, crossed, 3) == Hamming(a, b, crossed, 2) + Gap(Word(a, 2), Word(b, if crossed then 0 else 2));
  }

  lemma DistanceSymmetric(a: Descriptor, b: Descriptor)
    ensures Distance(a, b) == Distance(b, a)
  {
    hide Gap, Word, Hamming;
    HammingWords(a, b, false);
    HammingWords(a, b, true);
    HammingWords(b, a, false);
    HammingWords(b, a, true);
    forall x, y ensures Gap(x, y) == Gap(y, x) {
      GapSymmetric(x, y);
    }
  }

  /** Swapping the halves of either descriptor changes nothing. */
  lemma DistanceIgnoresSwap(a: Descriptor, b: Descriptor)
    ensures Distance(a, Swapped(b)) == Distance(a, b) == Distance(Swapped(a), b)
  {
    hide Gap, Word, Hamming, Swapped;
    SwapExchanges(a, b);
    SwapExchanges(b, a);
    DistanceSymmetric(a, b);
    DistanceSymmetric(Swapped(a), b);
  }

  lemma SwapExchanges(a: Descriptor, b: Descriptor)
    ensures Hamming(a, Swapped(b), false, 4) == Hamming(a, b, true, 4)
    ensures Hamming(a, Swapped(b), true, 4) == Hamming(a, b, false, 4)
  {
    hide Gap, Word, Hamming, Swapped;
    HammingWords(a, b, false);
    HammingWords(a, b, true);
    HammingWords(a, Swapped(b), false);
    HammingWords(a, Swapped(b), true);
    WordOfSwapped(b, 0);
    WordOfSwapped(b, 1);
    WordOfSwapped(b, 2);
    WordOfSwapped(b, 3);
  }

  lemma HammingTriangle(a: Descriptor, b: Descriptor, c: Descriptor)
    ensures Hamming(a, c, false, 4) <= Hamming(a, b, false, 4) + Hamming(b, c, false, 4)
  {
    hide Gap, Word, Hamming;
    HammingWords(a, c, false);
    HammingWords(a, b, false);
    HammingWords(b, c, false);
    GapTriangle(Word(a, 0), Word(b, 0), Word(c, 0));
    GapTriangle(Word(a, 1), Word(b, 1), Word(c, 1));
    GapTriangle(Word(a, 2), Word(b, 2), Word(c, 2));
    GapTriangle(Word(a, 3), Word(b, 3), Word(c, 3));
  }

  /** The better alignment still obeys the triangle inequality. */
  lemma DistanceTriangle(a: Descriptor, b: Descriptor, c: Descriptor)
    ensures Distance(a, c) <= Distance(a, b) + Distance(b, c)
  {
    hide Gap, Word, Hamming, Swapped;
    // Alignments compose: straight then straight, straight then crossed, and so on.
    SwapExchanges(a, c);
    SwapExchanges(b, c);
    SwapExchanges(a, b);
    SwapExchanges(Swapped(b), c);
    HammingTriangle(a, b, c);
    HammingTriangle(a, b, Swapped(c));
    HammingTriangle(a, Swapped(b), c);
    HammingTriangle(a, Swapped(b), Swapped(c));
    CrossedBoth(b, c);
  }

  /** Swapping both sides leaves each alignment as it was. */
  lemma CrossedBoth(b: Descriptor, c: Descriptor)
    ensures Hamming(Swapped(b), c, false, 4) == Hamming(b, c, true, 4)
    ensures Hamming(Swapped(b), Swapped(c), false, 4) == Hamming(b, c, false, 4)
  {
    hide Gap, Word, Hamming, Swapped;
    HammingWords(Swapped(b), c, false);
    HammingWords(Swapped(b), Swapped(c), false);
    HammingWords(b, c, true);
    HammingWords(b, c, false);
    WordOfSwapped(b, 0);
    WordOfSwapped(b, 1);
    WordOfSwapped(b, 2);
    WordOfSwapped(b, 3);
    WordOfSwapped(c, 0);
    WordOfSwapped(c, 1);
    WordOfSwapped(c, 2);
    WordOfSwapped(c, 3);
  }

  // ----- Projection -----

  /** One row of signed weights per pixel, one column per projected bit. */
  type Weights = seq<seq<int>>

  predicate WeightRows(weights: Weights, pixels: nat, half: nat) {
    |weights| == pixels && forall row <- weights :: |row| == 8 * half
  }

  /** Projection of a patch, read forwards or backwards, onto one column. */
  function Projection(weights: Weights, patch: seq<u8>, half: nat, backwards: bool, column: nat, n: nat): int
    requires WeightRows(weights, |patch|, half) && column < 8 * half && n <= |patch|
  {
    if n == 0 then 0
    else
      assert weights[n - 1] in weights;
      Projection(weights, patch, half, backwards, column, n - 1)
      + weights[n - 1][column] * patch[if backwards then |patch| - n else n - 1]
  }

  function Bits(weights: Weights, patch: seq<u8>, half: nat, backwards: bool, byte: nat, n: nat): nat
    requires WeightRows(weights, |patch|, half) && byte < half && n <= 8
  {
    if n == 0 then 0
    else Bits(weights, patch, half, backwards, byte, n - 1)
         + if Projection(weights, patch, half, backwards, 8 * byte + n - 1, |patch|) > 0 then Power2(n - 1) else 0
  }

  function Power2(n: nat): nat {
    if n == 0 then 1 else 2 * Power2(n - 1)
  }

  /** Bit n of a number. */
  predicate BitOf(v: nat, n: nat) {
    if n == 0 then v % 2 == 1 else BitOf(v / 2, n - 1)
  }

  lemma {:induction false} TopBit(v: nat, n: nat, k: nat)
    requires v < Power2(n) && k <= n
    ensures BitOf(v + Power2(n), k) <==> k == n || BitOf(v, k)
    ensures !BitOf(v, n)
  {
    if n == 0 {
      assert v == 0;
    } else {
      assert (v + Power2(n)) / 2 == v / 2 + Power2(n - 1) && (v + Power2(n)) % 2 == v % 2;
      TopBit(v / 2, n - 1, if k == 0 then 0 else k - 1);
    }
  }

  /** Bit k of a descriptor byte is set exactly when its projection is positive. */
  lemma {:induction false} BitsExactly(weights: Weights, patch: seq<u8>, half: nat, backwards: bool, byte: nat, n: nat,
                                       k: nat)
    requires WeightRows(weights, |patch|, half) && byte < half && k < n <= 8
    ensures BitOf(Bits(weights, patch, half, backwards, byte, n), k) <==>
              Projection(weights, patch, half, backwards, 8 * byte + k, |patch|) > 0
  {
    hide Projection;
    var before := Bits(weights, patch, half, backwards, byte, n - 1);
    BitsFit(weights, patch, half, backwards, byte, n - 1);
    TopBit(before, n - 1, k);
    if k < n - 1 {
      BitsExactly(weights, patch, half, backwards, byte, n - 1, k);
    }
  }

  /** One pixel alone projects to its value times its weight. */
  lemma {:induction false} PixelProjects(weights: Weights, patch: seq<u8>, half: nat, column: nat, at: nat, n: nat)
    requires WeightRows(weights, |patch|, half) && column < 8 * half && at < |patch| && n <= |patch|
    requires forall i | 0 <= i < |patch| && i != at :: patch[i] == 0
    ensures |weights[at]| == 8 * half
    ensures Projection(weights, patch, half, false, column, n) == if at < n then weights[at][column] * patch[at] else 0
  {
    assert weights[at] in weights;
    if n > 0 {
      PixelProjects(weights, patch, half, column, at, n - 1);
      assert weights[n - 1] in weights;
    }
  }

  lemma {:induction false} BitsFit(weights: Weights, patch: seq<u8>, half: nat, backwards: bool, byte: nat, n: nat)
    requires WeightRows(weights, |patch|, half) && byte < half && n <= 8
    ensures Bits(weights, patch, half, backwards, byte, n) < Power2(n)
  {
    if n > 0 {
      BitsFit(weights, patch, half, backwards, byte, n - 1);
    }
  }

  function DescriptorByte(weights: Weights, patch: seq<u8>, half: nat, backwards: bool, byte: nat): u8
    requires WeightRows(weights, |patch|, half) && byte < half
  {
    BitsFit(weights, patch, half, backwards, byte, 8);
    assert Power2(8) == 256;
    Bits(weights, patch, half, backwards, byte, 8)
  }

  /** `fpc_project_descriptor`: the forward projections, then those of the reversed patch. */
  function Project(weights: Weights, patch: seq<u8>, half: nat): (d: seq<u8>)
    requires WeightRows(weights, |patch|, half)
    ensures |d| == 2 * half
  {
    seq(half, b requires 0 <= b < half => DescriptorByte(weights, patch, half, false, b))
    + seq(half, b requires 0 <= b < half => DescriptorByte(weights, patch, half, true, b))
  }

  /** In bits: of the first half, bit k of byte b is set exactly when the forward projection onto
      column 8 b + k is positive; of the second half, when the backward one is. */
  lemma DescriptorBits(weights: Weights, patch: seq<u8>, half: nat, b: nat, k: nat)
    requires WeightRows(weights, |patch|, half) && b < half && k < 8
    ensures var d := Project(weights, patch, half);
            && (BitOf(d[b], k) <==> Projection(weights, patch, half, false, 8 * b + k, |patch|) > 0)
            && (BitOf(d[half + b], k) <==> Projection(weights, patch, half, true, 8 * b + k, |patch|) > 0)
  {
    hide Bits, Projection, BitOf;
    BitsExactly(weights, patch, half, false, b, 8, k);
    BitsExactly(weights, patch, half, true, b, 8, k);
  }

  /** What `fpc_project_descriptor` accepts: two to sixteen bytes, an even number, and one weight
      per pixel and projection. */
  predicate Describable(weights: Weights, patch: seq<u8>, bytes: nat) {
    patch != [] && 0 < bytes <= 16 && bytes % 2 == 0 && WeightRows(weights, |patch|, bytes / 2)
  }

  /** `fpc_project_descriptor`; the descriptor is left alone when its arguments are refused. */
  method ProjectDescriptor(weights: Weights, patch: seq<u8>, descriptor: array<u8>) returns (status: int)
    modifies descriptor
    ensures status == if Describable(weights, patch, descriptor.Length) then 0 else -1
    ensures descriptor[..] ==
            if status == 0 then Project(weights, patch, descriptor.Length / 2) else old(descriptor[..])
  {
    if !Describable(weights, patch, descriptor.Length) {
      return -1;
    }
    FillDescriptor(weights, patch, descriptor.Length / 2, descriptor);
    return 0;
  }

  method FillDescriptor(weights: Weights, patch: seq<u8>, half: nat, descriptor: array<u8>)
    requires WeightRows(weights, |patch|, half) && descriptor.Length == 2 * half
    modifies descriptor
    ensures descriptor[..] == Project(weights, patch, half)
  {
    for byte := 0 to half
      invariant forall b | 0 <= b < byte ::
                  && descriptor[b] == DescriptorByte(weights, patch, half, false, b)
                  && descriptor[b + half] == DescriptorByte(weights, patch, half, true, b)
    {
      var forward, reverse, bitValue := 0, 0, 1;
      for bit := 0 to 8
        invariant bitValue == Power2(bit)
        invariant forward == Bits(weights, patch, half, false, byte, bit)
        invariant reverse == Bits(weights, patch, half, true, byte, bit)
      {
        var a, b := 0, 0;
        for pixel := 0 to |patch|
          invariant a == Projection(weights, patch, half, false, 8 * byte + bit, pixel)
          invariant b == Projection(weights, patch, half, true, 8 * byte + bit, pixel)
        {
          assert weights[pixel] in weights;
          var weight := weights[pixel][8 * byte + bit];
          a := a + weight * patch[pixel];
          b := b + weight * patch[|patch| - 1 - pixel];
        }
        if a > 0 {
          forward := forward + bitValue;
        }
        if b > 0 {
          reverse := reverse + bitValue;
        }
        bitValue := 2 * bitValue;
      }
      BitsFit(weights, patch, half, false, byte, 8);
      BitsFit(weights, patch, half, true, byte, 8);
      assert Power2(8) == 256;
      descriptor[byte] := forward;
      descriptor[byte + half] := reverse;
    }
  }

  function Turned(patch: seq<u8>): seq<u8> {
    seq(|patch|, i requires 0 <= i < |patch| => patch[|patch| - 1 - i])
  }

  lemma {:induction false} ProjectionOfTurned(weights: Weights, patch: seq<u8>, half: nat, backwards: bool, column: nat,
                                              n: nat)
    requires WeightRows(weights, |patch|, half) && column < 8 * half && n <= |patch|
    ensures Projection(weights, Turned(patch), half, backwards, column, n) ==
            Projection(weights, patch, half, !backwards, column, n)
  {
    if n > 0 {
      ProjectionOfTurned(weights, patch, half, backwards, column, n - 1);
    }
  }

  lemma {:induction false} BitsOfTurned(weights: Weights, patch: seq<u8>, half: nat, backwards: bool, byte: nat, n: nat)
    requires WeightRows(weights, |patch|, half) && byte < half && n <= 8
    ensures Bits(weights, Turned(patch), half, backwards, byte, n) == Bits(weights, patch, half, !backwards, byte, n)
  {
    if n > 0 {
      BitsOfTurned(weights, patch, half, backwards, byte, n - 1);
      ProjectionOfTurned(weights, patch, half, backwards, 8 * byte + n - 1, |patch|);
    }
  }

  /** Turning a patch by 180 degrees swaps the halves of its descriptor. */
  lemma TurnSwapsHalves(weights: Weights, patch: seq<u8>, half: nat)
    requires WeightRows(weights, |patch|, half)
    ensures Project(weights, Turned(patch), half) ==
            Project(weights, patch, half)[half..] + Project(weights, patch, half)[..half]
  {
    hide Bits, Projection;
    forall b: nat, backwards | b < half
      ensures DescriptorByte(weights, Turned(patch), half, backwards, b) ==
              DescriptorByte(weights, patch, half, !backwards, b)
    {
      BitsOfTurned(weights, patch, half, backwards, b, 8);
    }
  }
}
