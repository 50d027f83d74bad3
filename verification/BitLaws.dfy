/** Which bit is which: membership bytes and mask words store their bits least significant first,
    and a descriptor distance of nothing means equal patches (`fpc_descriptor_distance128`). */
module BitLaws {
  import opened Words
  import opened Bytes
  import CaptureCodec
  import Crc
  import opened Descriptors
  import GeometryVerification
  import PackedMasks
  import Matching

  // ----- Membership -----

  /** Bit k of a byte has the value 2^k. */
  lemma ByteBit(b: u8, k: nat)
    requires k < 8
    ensures GeometryVerification.Bit(b, k) <==> BitOf(b, k)
  {
    ByteThroughBits(b);
    var w := b as bv8;
    assert GeometryVerification.Bit(b, k) == GeometryVerification.IsSet(w, k);
    hide GeometryVerification.IsSet;
    SetBit(w, k);
  }

  lemma {:induction false} SetBit(w: bv8, k: nat)
    requires k < 8
    ensures GeometryVerification.IsSet(w, k) <==> BitOf(w as int, k)
    decreases k
  {
    var half := w >> 1;
    HalfByte(w, half);
    if k > 0 {
      SetBit(half, k - 1);
      SetMoves(w, half, k);
    } else {
      LowSet(w);
    }
  }

  lemma LowSet(w: bv8)
    ensures GeometryVerification.IsSet(w, 0) <==> w & 1 != 0
  {
  }

  lemma SetMoves(w: bv8, half: bv8, k: nat)
    requires half == w >> 1 && 0 < k < 8
    ensures GeometryVerification.IsSet(w, k) <==> GeometryVerification.IsSet(half, k - 1)
  {
  }

  lemma HalfByte(w: bv8, half: bv8)
    requires half == w >> 1
    ensures half as int == (w as int) / 2 && (w & 1 != 0 <==> (w as int) % 2 == 1)
  {
  }

  /** Feature i is a member exactly when bit i % 8 of byte i / 8 is set. */
  lemma MemberExactly(m: Bytes, i: nat)
    ensures GeometryVerification.Member(m, i) <==> i / 8 < |m| && BitOf(m[i / 8], i % 8)
  {
    if i / 8 < |m| {
      ByteBit(m[i / 8], i % 8);
    }
  }

  // ----- Mask words -----

  /** The word 1 shows its first pixel alone, shifting left moves every pixel one on, and joining
      words joins what they show: so pixel k of a word has the value 2^k. */
  lemma WordBits(w: bv32, v: bv32, k: nat)
    requires k < 32
    ensures PackedMasks.Bit(1, k) <==> k == 0
    ensures k < 31 ==> (PackedMasks.Bit(w << 1, k + 1) <==> PackedMasks.Bit(w, k))
    ensures !PackedMasks.Bit(w << 1, 0)
    ensures PackedMasks.Bit(w | v, k) <==> PackedMasks.Bit(w, k) || PackedMasks.Bit(v, k)
  {
    hide PackedMasks.Amount, PackedMasks.BitAt;
    PackedMasks.AmountFits(k);
    PackedMasks.AmountFits(0);
    NoAmount();
    JoinedAt(w, v, PackedMasks.Amount(k));
    FirstAt(PackedMasks.Amount(k));
    NothingAtFirst(w);
    if k > 0 {
      if PackedMasks.Amount(k) == PackedMasks.Amount(0) {
        PackedMasks.AmountsDiffer(k, 0);
      }
    }
    if k < 31 {
      PackedMasks.AmountFits(k + 1);
      PackedMasks.AmountStep(k);
      AmountSmall(k);
      MovedAt(w, PackedMasks.Amount(k));
    }
  }

  lemma NoAmount()
    ensures PackedMasks.Amount(0) == 0
  {
  }

  lemma JoinedAt(w: bv32, v: bv32, k: bv8)
    requires k < 32
    ensures PackedMasks.BitAt(w | v, k) <==> PackedMasks.BitAt(w, k) || PackedMasks.BitAt(v, k)
  {
  }

  lemma FirstAt(k: bv8)
    requires k < 32
    ensures PackedMasks.BitAt(1, k) <==> k == 0
  {
  }

  lemma NothingAtFirst(w: bv32)
    ensures !PackedMasks.BitAt(w << 1, 0)
  {
  }

  lemma MovedAt(w: bv32, k: bv8)
    requires k < 31
    ensures PackedMasks.BitAt(w << 1, k + 1) <==> PackedMasks.BitAt(w, k)
  {
  }

  lemma AmountSmall(k: nat)
    requires k < 31
    ensures PackedMasks.Amount(k) < 31
  {
    PackedMasks.AmountBack(k);
    PackedMasks.AmountBack(31);
    PackedMasks.ValueOrder(PackedMasks.Amount(k), 31);
  }

  /** A row of w pixels takes as many words as it needs. */
  lemma StrideExactly(w: nat)
    ensures w <= 32 * PackedMasks.Stride(w) < w + 32
  {
  }

  // ----- Distances -----

  lemma {:induction false} NoOnes(x: bv32, n: nat)
    requires n <= 32 && Ones(x, n) == 0
    ensures Crc.Clear(x, n)
    decreases n
  {
    if n > 0 {
      NoOnes(Crc.Half(x), n - 1);
    }
  }

  lemma NoGap(x: bv32, y: bv32)
    ensures Gap(x, y) == 0 <==> x == y
  {
    GapIsOnes(x, y);
    if Gap(x, y) == 0 {
      NoOnes(Crc.Xor(x, y), 32);
      NothingLeft(Crc.Xor(x, y));
      AllClear(Crc.Xor(x, y), 32);
      SameIfNoXor(x, y);
    }
    if x == y {
      SameIfNoXor(x, y);
      ZeroOnes(32);
    }
  }

  lemma SameIfNoXor(x: bv32, y: bv32)
    ensures Crc.Xor(x, y) == 0 <==> x == y
  {
    hide Crc.Xor;
    Crc.XorTwice(x, y);
    NoXor(y);
  }

  lemma NoXor(y: bv32)
    ensures Crc.Xor(0, y) == y && Crc.Xor(y, y) == 0
  {
  }

  lemma {:induction false} ZeroOnes(n: nat)
    ensures Ones(0, n) == 0
    decreases n
  {
    if n > 0 {
      ZeroOnes(n - 1);
      assert Crc.Half(0) == 0 && !Crc.Odd(0);
    }
  }

  lemma {:induction false} AllClear(x: bv32, n: nat)
    requires Crc.Clear(x, n) && Crc.Halves(x, n) == 0
    ensures x == 0
    decreases n
  {
    hide Crc.Half, Crc.Odd;
    if n > 0 {
      AllClear(Crc.Half(x), n - 1);
      EvenHalf(x);
    }
  }

  lemma {:induction false} HalvesAdd(x: bv32, a: nat, b: nat)
    ensures Crc.Halves(x, a + b) == Crc.Halves(Crc.Halves(x, a), b)
    decreases a
  {
    hide Crc.Half;
    if a > 0 {
      HalvesAdd(Crc.Half(x), a - 1, b);
    }
  }

  lemma EightHalves(x: bv32)
    ensures Crc.Halves(x, 8) == x >> 8
  {
    EightShifts(x);
    hide Crc.Half;
    assert Crc.Halves(x >> 7, 1) == x >> 8 && Crc.Halves(x >> 6, 2) == x >> 8 && Crc.Halves(x >> 5, 3) == x >> 8;
    assert Crc.Halves(x >> 4, 4) == x >> 8 && Crc.Halves(x >> 3, 5) == x >> 8 && Crc.Halves(x >> 2, 6) == x >> 8;
    assert Crc.Halves(x >> 1, 7) == x >> 8;
  }

  lemma EightShifts(x: bv32)
    ensures Crc.Half(x) == x >> 1 && Crc.Half(x >> 1) == x >> 2 && Crc.Half(x >> 2) == x >> 3
    ensures Crc.Half(x >> 3) == x >> 4 && Crc.Half(x >> 4) == x >> 5 && Crc.Half(x >> 5) == x >> 6
    ensures Crc.Half(x >> 6) == x >> 7 && Crc.Half(x >> 7) == x >> 8
  {
  }

  /** Thirty-two halvings leave nothing. */
  lemma NothingLeft(x: bv32)
    ensures Crc.Halves(x, 32) == 0
  {
    FourBytes(x);
    hide Crc.Halves;
    HalvesAdd(x, 8, 24);
    HalvesAdd(x >> 8, 8, 16);
    HalvesAdd((x >> 8) >> 8, 8, 8);
    EightHalves(x);
    EightHalves(x >> 8);
    EightHalves((x >> 8) >> 8);
    EightHalves(((x >> 8) >> 8) >> 8);
  }

  lemma FourBytes(x: bv32)
    ensures (((x >> 8) >> 8) >> 8) >> 8 == 0
  {
  }

  lemma EvenHalf(x: bv32)
    requires !Crc.Odd(x) && Crc.Half(x) == 0
    ensures x == 0
  {
  }

  /** Descriptors are at distance nothing exactly when they are equal, or equal with the halves of
      one exchanged. */
  lemma DistanceZeroExactly(a: Descriptor, b: Descriptor)
    ensures Distance(a, b) == 0 <==> a == b || a == Swapped(b)
  {
    hide Gap, Word, Hamming;
    HammingWords(a, b, false);
    HammingWords(a, b, true);
    forall x, y ensures Gap(x, y) == 0 <==> x == y {
      NoGap(x, y);
    }
    SameWordsSame(a, b);
    SameWordsSame(a, Swapped(b));
    WordOfSwapped(b, 0);
    WordOfSwapped(b, 1);
    WordOfSwapped(b, 2);
    WordOfSwapped(b, 3);
  }

  lemma SameWordsSame(a: Descriptor, b: Descriptor)
    ensures (Word(a, 0) == Word(b, 0) && Word(a, 1) == Word(b, 1) && Word(a, 2) == Word(b, 2) &&
             Word(a, 3) == Word(b, 3))
            <==> a == b
  {
    hide Crc.Window;
    if Word(a, 0) == Word(b, 0) && Word(a, 1) == Word(b, 1) && Word(a, 2) == Word(b, 2) && Word(a, 3) == Word(b, 3) {
      Crc.WindowInjective(a[0..4], b[0..4]);
      Crc.WindowInjective(a[4..8], b[4..8]);
      Crc.WindowInjective(a[8..12], b[8..12]);
      Crc.WindowInjective(a[12..16], b[12..16]);
      assert a == a[0..4] + a[4..8] + a[8..12] + a[12..16] && b == b[0..4] + b[4..8] + b[8..12] + b[12..16];
    }
  }

  /** Feature j is the first of the closest in b to a[i]. */
  ghost predicate FirstClosest(a: seq<Descriptor>, b: seq<Descriptor>, i: nat, j: nat)
    requires i < |a| && j < |b|
  {
    forall k: nat | k < |b| ::
      if k < j then Distance(a[i], b[j]) < Distance(a[i], b[k]) else Distance(a[i], b[j]) <= Distance(a[i], b[k])
  }

  /** Two features are a pair exactly when each is the first of the closest to the other and they are
      less than 64 bits apart. */
  lemma PairsExactly(a: seq<Descriptor>, b: seq<Descriptor>, c: Matching.Candidate)
    requires |a| <= 32767 && |b| <= 32767
    ensures c in Matching.DescriptorCandidates(a, b) <==>
              && c.first < |a| && c.second < |b| && c.distance == Distance(a[c.first], b[c.second]) < 64 && c.flag == 0
              && FirstClosest(a, b, c.first, c.second) && FirstClosest(b, a, c.second, c.first)
  {
    hide Distance;
    Matching.CandidatesExactly(Matching.Distances(a, b), |a|, |b|, Matching.MatchThreshold());
    if c.first < |a| && c.second < |b| {
      MinimaAre(a, b, c.first, c.second);
    }
  }

  lemma MinimaAre(a: seq<Descriptor>, b: seq<Descriptor>, i: nat, j: nat)
    requires i < |a| && j < |b|
    ensures var m := Matching.Distances(a, b);
            && (Matching.IsFirstMin(m[i][..|b|], j) <==> FirstClosest(a, b, i, j))
            && (Matching.IsFirstMin(Matching.Column(m, |a|, |b|, j), i) <==> FirstClosest(b, a, j, i))
  {
    hide Distance;
    var m := Matching.Distances(a, b);
    var row, column := m[i][..|b|], Matching.Column(m, |a|, |b|, j);
    forall k: nat | k < |b| ensures row[k] == Distance(a[i], b[k]) {
    }
    forall k: nat | k < |a| ensures column[k] == Distance(b[j], a[k]) {
      DistanceSymmetric(a[k], b[j]);
    }
  }
}
