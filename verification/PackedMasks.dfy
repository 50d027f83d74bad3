/** Bit masks packed thirty-two pixels to a word (`fpc_expand_mask`, `fpc_count_packed_mask`). */
module PackedMasks {
  import opened Words
  import opened Crc
  import opened Descriptors

  // ----- Bits of a word -----

  function Amount(k: nat): bv8
    requires k < 32
  {
    k as bv8
  }

  lemma AmountBack(k: int)
    requires 0 <= k < 32
    ensures ((k as bv8) as int) == k
  {
  }

  lemma AmountFits(k: nat)
    requires k < 32
    ensures Amount(k) < 32
  {
  }

  lemma AmountStep(k: nat)
    requires k < 31
    ensures Amount(k + 1) == Amount(k) + 1
  {
  }

  lemma AmountsDiffer(j: nat, k: nat)
    requires j < 32 && k < 32 && Amount(j) == Amount(k)
    ensures j == k
  {
    AmountBack(j);
    AmountBack(k);
  }

  lemma AmountOrder(j: nat, k: nat)
    requires j < 32 && k < 32
    ensures Amount(j) < Amount(k) <==> j < k
  {
    AmountBack(j);
    AmountBack(k);
    ValueOrder(Amount(j), Amount(k));
  }

  lemma ValueOrder(a: bv8, b: bv8)
    ensures a < b <==> a as int < b as int
  {
  }

  predicate BitAt(w: bv32, k: bv8)
    requires k < 32
  {
    (w >> k) & 1 == 1
  }

  predicate Bit(w: bv32, k: nat)
    requires k < 32
  {
    AmountFits(k);
    BitAt(w, Amount(k))
  }

  function SetAt(w: bv32, k: bv8): bv32
    requires k < 32
  {
    w | (1 << k)
  }

  function WithBit(w: bv32, k: nat): bv32
    requires k < 32
  {
    AmountFits(k);
    SetAt(w, Amount(k))
  }

  lemma SetAtSetsOne(w: bv32, k: bv8, j: bv8)
    requires k < 32 && j < 32
    ensures BitAt(SetAt(w, k), j) <==> (j == k || BitAt(w, j))
  {
  }

  lemma WithBitSetsOne(w: bv32, k: nat, j: nat)
    requires k < 32 && j < 32
    ensures Bit(WithBit(w, k), j) <==> (j == k || Bit(w, j))
  {
    hide BitAt, SetAt, Amount;
    AmountFits(k);
    AmountFits(j);
    SetAtSetsOne(w, Amount(k), Amount(j));
    if Amount(j) == Amount(k) {
      AmountsDiffer(j, k);
    }
  }

  lemma ZeroHasNoBits(k: nat)
    requires k < 32
    ensures !Bit(0, k)
  {
    hide Amount;
    AmountFits(k);
    NoBitsAt(Amount(k));
  }

  lemma NoBitsAt(k: bv8)
    requires k < 32
    ensures !BitAt(0, k)
  {
  }

  function AllBelow(r: bv8): bv32
    requires r < 32
  {
    (1 << r) - 1
  }

  function MaskAt(w: bv32, r: bv8): bv32
    requires r < 32
  {
    w & AllBelow(r)
  }

  /** The r low bits of a word. */
  function LowBits(w: bv32, r: nat): bv32
    requires r < 32
  {
    AmountFits(r);
    MaskAt(w, Amount(r))
  }

  lemma AllBelowBits(r: bv8, k: bv8)
    requires r < 32 && k < 32
    ensures BitAt(AllBelow(r), k) <==> k < r
  {
  }

  lemma AndBits(w: bv32, m: bv32, k: bv8)
    requires k < 32
    ensures BitAt(w & m, k) <==> (BitAt(w, k) && BitAt(m, k))
  {
  }

  lemma MaskAtKeepsLow(w: bv32, r: bv8, k: bv8)
    requires r < 32 && k < 32
    ensures BitAt(MaskAt(w, r), k) <==> (k < r && BitAt(w, k))
  {
    hide BitAt, AllBelow;
    AndBits(w, AllBelow(r), k);
    AllBelowBits(r, k);
  }

  lemma LowBitsKeepsLow(w: bv32, r: nat, k: nat)
    requires r < 32 && k < 32
    ensures Bit(LowBits(w, r), k) <==> (k < r && Bit(w, k))
  {
    hide BitAt, MaskAt, Amount;
    AmountFits(r);
    AmountFits(k);
    MaskAtKeepsLow(w, Amount(r), Amount(k));
    AmountOrder(k, r);
  }

  lemma HalfBitAt(w: bv32, k: bv8)
    requires k < 31
    ensures BitAt(Half(w), k) <==> BitAt(w, k + 1)
  {
  }

  lemma HalfBit(w: bv32, k: nat)
    requires k < 31
    ensures Bit(Half(w), k) <==> Bit(w, k + 1)
  {
    hide BitAt, Half, Amount;
    AmountFits(k);
    AmountFits(k + 1);
    AmountStep(k);
    AmountOrder(k, 31);
    TopAmount();
    HalfBitAt(w, Amount(k));
  }

  lemma TopAmount()
    ensures Amount(31) == 31 && Amount(0) == 0
  {
  }

  lemma LowestBit(w: bv32)
    ensures Bit(w, 0) <==> Odd(w)
  {
    TopAmount();
  }

  // ----- Counting -----

  /** Set bits below n. */
  function CountBits(w: bv32, n: nat): (c: nat)
    requires n <= 32
    ensures c <= n
  {
    if n == 0 then 0 else CountBits(w, n - 1) + if Bit(w, n - 1) then 1 else 0
  }

  lemma {:induction false} CountFromBelow(w: bv32, n: nat)
    requires 0 < n <= 32
    ensures CountBits(w, n) == (if Odd(w) then 1 else 0) + CountBits(Half(w), n - 1)
  {
    hide Bit, Odd, Half;
    if n == 1 {
      LowestBit(w);
    } else {
      CountFromBelow(w, n - 1);
      HalfBit(w, n - 2);
    }
  }

  lemma {:induction false} OnesCountsBits(w: bv32, n: nat)
    requires n <= 32
    ensures Ones(w, n) == CountBits(w, n)
    decreases n
  {
    hide Bit, Odd, Half;
    if n > 0 {
      CountFromBelow(w, n);
      OnesCountsBits(Half(w), n - 1);
    }
  }

  lemma {:induction false} CountLowBits(w: bv32, r: nat, n: nat)
    requires r < 32 && n <= 32
    ensures CountBits(LowBits(w, r), n) == CountBits(w, if n < r then n else r)
  {
    hide Bit, LowBits;
    if n > 0 {
      CountLowBits(w, r, n - 1);
      LowBitsKeepsLow(w, r, n - 1);
    }
  }

  /** The count of one word, cut off at `remaining` pixels. */
  function WordCount(w: bv32, remaining: nat): nat {
    PopCount(if remaining < 32 then LowBits(w, remaining) else w) as int
  }

  lemma WordCountCounts(w: bv32, remaining: nat)
    ensures WordCount(w, remaining) == CountBits(w, if remaining < 32 then remaining else 32)
  {
    hide PopCount, LowBits, Bit;
    var value := if remaining < 32 then LowBits(w, remaining) else w;
    PopCountIsOnes(value);
    OnesCountsBits(value, 32);
    if remaining < 32 {
      CountLowBits(w, remaining, 32);
    }
  }

  // ----- Packed images -----

  /** Words of one row. */
  function Stride(width: nat): nat {
    (width + 31) / 32
  }

  /** Pixel (y, x) of an image with `stride` words a row. */
  predicate Pixel(words: seq<bv32>, stride: nat, y: nat, x: nat) {
    y * stride + x / 32 < |words| && Bit(words[y * stride + x / 32], x % 32)
  }

  lemma WordInRange(stride: nat, height: nat, y: nat, x: nat)
    requires y < height && x < 32 * stride
    ensures y * stride + x / 32 < height * stride
  {
    assert (height - 1 - y) * stride >= 0;
    assert (height - 1 - y) * stride == height * stride - stride - y * stride;
  }

  function RowCount(words: seq<bv32>, stride: nat, y: nat, n: nat): (c: nat)
    ensures c <= n
  {
    if n == 0 then 0 else RowCount(words, stride, y, n - 1) + if Pixel(words, stride, y, n - 1) then 1 else 0
  }

  /** Set pixels of the first rows. */
  function PixelCount(words: seq<bv32>, stride: nat, width: nat, rows: nat): nat {
    if rows == 0 then 0 else PixelCount(words, stride, width, rows - 1) + RowCount(words, stride, rows - 1, width)
  }

  /** A row's count grows word by word. */
  lemma {:induction false} RowCountByWords(words: seq<bv32>, stride: nat, y: nat, block: nat, n: nat)
    requires n <= 32 && y * stride + block < |words|
    ensures RowCount(words, stride, y, 32 * block + n) ==
            RowCount(words, stride, y, 32 * block) + CountBits(words[y * stride + block], n)
  {
    hide Bit;
    if n > 0 {
      RowCountByWords(words, stride, y, block, n - 1);
      var x := 32 * block + n - 1;
      assert x / 32 == block && x % 32 == n - 1;
    }
  }

  /** `fpc_count_packed_mask`, on the words its caller owes it. */
  method CountPacked(words: seq<bv32>, width: nat, height: nat, strideBits: nat) returns (status: int, count: nat)
    requires height * Stride(width) <= |words|
    ensures status ==
            if width == 0 || strideBits != 32 * Stride(width) || height * width >= 0x1_0000_0000 then -1 else 0
    ensures status == 0 ==> count == PixelCount(words, Stride(width), width, height)
  {
    hide PopCount, LowBits, CountBits, Pixel;
    count := 0;
    if width == 0 || strideBits != 32 * Stride(width) || height * width >= 0x1_0000_0000 {
      return -1, count;
    }
    var stride := Stride(width);
    for y := 0 to height
      invariant count == PixelCount(words, stride, width, y)
    {
      for block := 0 to stride
        invariant count ==
                  PixelCount(words, stride, width, y) +
                      RowCount(words, stride, y, if 32 * block < width then 32 * block else width)
      {
        WordInRange(stride, height, y, 32 * block);
        var word := words[y * stride + block];
        var remaining := width - 32 * block;
        WordCountCounts(word, remaining);
        RowCountByWords(words, stride, y, block, if remaining < 32 then remaining else 32);
        count := count + WordCount(word, remaining);
      }
    }
    return 0, count;
  }

  lemma BitPosition(stride: nat, y: nat, x: nat)
    ensures (y * (32 * stride) + x) / 32 == y * stride + x / 32 && (y * (32 * stride) + x) % 32 == x % 32
  {
    assert y * (32 * stride) == 32 * (y * stride);
  }

  /** `fpc_expand_mask` into rows of bytes; the size arithmetic does not overflow here. */
  method ExpandMask(words: seq<bv32>, bitStride: nat, originX: nat, originY: nat, width: nat, height: nat,
                    output: array2<u8>)
    returns (status: int)
    requires output.Length0 >= height
    modifies output
    ensures status == if width == 0 || height == 0 || bitStride % 32 != 0 || originX + width > bitStride ||
            output.Length1 < width
                         || (originY + height) * (bitStride / 32) > |words| then -1 else 0
    ensures status == 0 ==> forall y: nat, x: nat | y < height && x < width ::
              output[y, x] == if Pixel(words, bitStride / 32, originY + y, originX + x) then 255 else 0
    ensures status != 0 ==>
              forall y: nat, x: nat | y < output.Length0 && x < output.Length1 :: output[y, x] == old(output[y, x])
  {
    hide Bit;
    if width == 0 || height == 0 || bitStride % 32 != 0 || originX + width > bitStride || output.Length1 < width
       || (originY + height) * (bitStride / 32) > |words| {
      return -1;
    }
    var stride := bitStride / 32;
    for y := 0 to height
      invariant forall v: nat, x: nat | v < y && x < width ::
                  output[v, x] == if Pixel(words, stride, originY + v, originX + x) then 255 else 0
    {
      for x := 0 to width
        invariant forall v: nat, u: nat | (v < y && u < width) || (v == y && u < x) ::
                    output[v, u] == if Pixel(words, stride, originY + v, originX + u) then 255 else 0
      {
        WordInRange(stride, originY + height, originY + y, originX + x);
        BitPosition(stride, originY + y, originX + x);
        var bit := (originY + y) * (32 * stride) + originX + x;
        output[y, x] := if Bit(words[bit / 32], bit % 32) then 255 else 0;
      }
    }
    return 0;
  }
}
