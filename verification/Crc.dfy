/** The block checksum (`fpc_crc32`): the CRC-32 of section 8 of RFC 1952, and the
    guarantee it gives against short bursts of damage. */
module Crc {
  import opened Words
  import opened Bytes

  const POLYNOMIAL: bv32 := 0xedb88320

  /** One bit of the shift register. */
  function Step(c: bv32): bv32 {
    if c & 1 == 1 then (c >> 1) ^ 0xedb88320 else c >> 1
  }

  function Unstep(s: bv32): bv32 {
    if s & 0x80000000 != 0 then ((s ^ 0xedb88320) << 1) | 1 else s << 1
  }

  function Steps(c: bv32, n: nat): bv32
    decreases n
  {
    if n == 0 then c else Steps(Step(c), n - 1)
  }

  function Xor(a: bv32, b: bv32): bv32 {
    a ^ b
  }

  /** A byte in the low end of the register. */
  function ByteBits(b: u8): bv32 {
    (b as bv8) as bv32
  }

  function Feed(c: bv32, b: u8): bv32 {
    Steps(Xor(c, ByteBits(b)), 8)
  }

  function Run(c: bv32, data: seq<u8>): bv32
    decreases data
  {
    if data == [] then c else Run(Feed(c, data[0]), data[1..])
  }

  /** The checksum of a byte string. */
  function Crc32(data: seq<u8>): bv32 {
    !Run(0xffffffff, data)
  }

  lemma {:induction false} RunAppend(c: bv32, a: seq<u8>, b: seq<u8>)
    ensures Run(c, a + b) == Run(Run(c, a), b)
    decreases a
  {
    if a == [] {
      assert a + b == b;
    } else {
      assert (a + b)[0] == a[0] && (a + b)[1..] == a[1..] + b;
      RunAppend(Feed(c, a[0]), a[1..], b);
    }
  }

  /** The bit loop of `fpc_crc32`. */
  method ShiftByte(c: bv32) returns (state: bv32)
    ensures state == Steps(c, 8)
  {
    state := c;
    for j := 0 to 8
      invariant Steps(c, 8) == Steps(state, 8 - j)
    {
      state := if state & 1 == 1 then (state >> 1) ^ POLYNOMIAL else state >> 1;
    }
  }

  /** `fpc_crc32`: the byte loop. */
  method ComputeCrc32(data: seq<u8>) returns (crc: bv32)
    ensures crc == Crc32(data)
  {
    hide Steps, ByteBits, Xor;
    var state: bv32 := 0xffffffff;
    for i := 0 to |data|
      invariant state == Run(0xffffffff, data[..i])
    {
      assert data[..i + 1] == data[..i] + [data[i]];
      RunAppend(0xffffffff, data[..i], [data[i]]);
      RunOne(state, data[i]);
      state := ShiftByte(Xor(state, ByteBits(data[i])));
    }
    assert data[..|data|] == data;
    return !state;
  }

  lemma RunOne(c: bv32, b: u8)
    ensures Run(c, [b]) == Steps(Xor(c, ByteBits(b)), 8)
  {
    hide Steps, ByteBits, Xor;
    assert [b][1..] == [];
    assert Run(c, [b]) == Run(Feed(c, b), []);
  }

  // ----- The register update is a bijection -----

  lemma StepUndone(c: bv32)
    ensures Unstep(Step(c)) == c
  {
  }

  lemma UnstepUndone(s: bv32)
    ensures Step(Unstep(s)) == s
  {
    if s & 0x80000000 != 0 {
      HighBitReturns(s ^ 0xedb88320);
      assert s == (s ^ 0xedb88320) ^ 0xedb88320;
    } else {
      LowBitReturns(s);
    }
  }

  lemma HighBitReturns(t: bv32)
    requires t & 0x80000000 == 0
    ensures ((t << 1) | 1) & 1 == 1 && ((t << 1) | 1) >> 1 == t
  {
  }

  lemma LowBitReturns(s: bv32)
    requires s & 0x80000000 == 0
    ensures (s << 1) & 1 == 0 && (s << 1) >> 1 == s
  {
  }

  lemma {:induction false} StepsInjective(x: bv32, y: bv32, n: nat)
    requires Steps(x, n) == Steps(y, n)
    ensures x == y
    decreases n
  {
    hide Step, Unstep;
    if n > 0 {
      StepsInjective(Step(x), Step(y), n - 1);
      StepUndone(x);
      StepUndone(y);
    }
  }

  lemma {:induction false} StepsOnto(y: bv32, n: nat) returns (x: bv32)
    ensures Steps(x, n) == y
    decreases n
  {
    hide Step, Unstep;
    if n == 0 {
      return y;
    }
    var z := StepsOnto(y, n - 1);
    UnstepUndone(z);
    return Unstep(z);
  }

  ghost predicate Reached(y: bv32, b: u8) {
    exists x :: Feed(x, b) == y
  }

  /** Feeding a byte permutes the 2^32 register values. */
  lemma FeedBijective(b: u8)
    ensures forall x, y :: Feed(x, b) == Feed(y, b) ==> x == y
    ensures forall y :: Reached(y, b)
  {
    hide Feed;
    forall x, y | Feed(x, b) == Feed(y, b) ensures x == y {
      FeedInjective(x, y, b);
    }
    forall y ensures Reached(y, b) {
      FeedOnto(y, b);
    }
  }

  lemma FeedOnto(y: bv32, b: u8)
    ensures Reached(y, b)
  {
    hide Steps, ByteBits, Xor;
    var z := StepsOnto(y, 8);
    var x := Xor(z, ByteBits(b));
    XorTwice(z, ByteBits(b));
    assert Feed(x, b) == y;
  }

  lemma XorTwice(x: bv32, bits: bv32)
    ensures Xor(Xor(x, bits), bits) == x
  {
  }

  lemma FeedInjective(x: bv32, y: bv32, b: u8)
    requires Feed(x, b) == Feed(y, b)
    ensures x == y
  {
    hide Steps, ByteBits, Xor;
    StepsInjective(Xor(x, ByteBits(b)), Xor(y, ByteBits(b)), 8);
    XorTwice(x, ByteBits(b));
    XorTwice(y, ByteBits(b));
  }

  lemma {:induction false} RunInjectiveInState(x: bv32, y: bv32, data: seq<u8>)
    requires Run(x, data) == Run(y, data)
    ensures x == y
    decreases data
  {
    hide Feed;
    if data != [] {
      RunInjectiveInState(Feed(x, data[0]), Feed(y, data[0]), data[1..]);
      FeedInjective(x, y, data[0]);
    }
  }

  // ----- Bursts -----

  function Half(c: bv32): bv32 {
    c >> 1
  }

  function Double(c: bv32): bv32 {
    c << 1
  }

  predicate Odd(c: bv32) {
    c & 1 == 1
  }

  /** `high` after n right shifts. */
  function Halves(high: bv32, n: nat): bv32
    decreases n
  {
    if n == 0 then high else Halves(Half(high), n - 1)
  }

  /** The n low bits are zero. */
  predicate Clear(high: bv32, n: nat)
    decreases n
  {
    n == 0 || (!Odd(high) && Clear(Half(high), n - 1))
  }

  lemma HalfDoubled(high: bv32)
    requires !Odd(high)
    ensures Double(Half(high)) == high && Half(high) & 0x80000000 == 0
  {
  }

  lemma AbsorbDoubled(x: bv32, y: bv32)
    requires y & 0x80000000 == 0
    ensures Xor(Step(x), y) == Step(Xor(x, Double(y)))
  {
    hide Step, Xor, Double, Half, Odd;
    ParityMeetsXor(x, y);
    ShiftMeetsXor(x, y);
    XorSwap(Half(x), 0xedb88320, y);
    StepByParity(x);
    StepByParity(Xor(x, Double(y)));
  }

  lemma ParityMeetsXor(x: bv32, y: bv32)
    ensures Odd(Xor(x, Double(y))) == Odd(x)
  {
  }

  lemma ShiftMeetsXor(x: bv32, y: bv32)
    requires y & 0x80000000 == 0
    ensures Half(Xor(x, Double(y))) == Xor(Half(x), y)
  {
  }

  lemma XorSwap(a: bv32, b: bv32, c: bv32)
    ensures Xor(Xor(a, b), c) == Xor(Xor(a, c), b)
  {
    hide Xor;
    XorAssociates(a, b, c);
    XorCommutes(b, c);
    XorAssociates(a, c, b);
  }

  lemma XorCommutes(a: bv32, b: bv32)
    ensures Xor(a, b) == Xor(b, a)
  {
  }

  lemma StepByParity(c: bv32)
    ensures Step(c) == if Odd(c) then Xor(Half(c), 0xedb88320) else Half(c)
  {
  }

  lemma AbsorbStep(x: bv32, high: bv32)
    requires !Odd(high)
    ensures Step(Xor(x, high)) == Xor(Step(x), Half(high))
  {
    hide Step, Xor, Half, Double, Odd;
    HalfDoubled(high);
    AbsorbDoubled(x, Half(high));
  }

  /** Bits above the next n shifts may be added before or after those shifts. */
  lemma {:induction false} Absorb(x: bv32, high: bv32, n: nat)
    requires Clear(high, n)
    ensures Xor(Steps(x, n), Halves(high, n)) == Steps(Xor(x, high), n)
    decreases n
  {
    hide Step, Xor, Half, Odd;
    if n > 0 {
      AbsorbStep(x, high);
      Absorb(Step(x), Half(high), n - 1);
    }
  }

  /** One byte higher. */
  function Up(v: bv32): bv32 {
    v << 8
  }

  lemma HalfDouble(y: bv32)
    requires y & 0x80000000 == 0
    ensures Half(Double(y)) == y
  {
  }

  lemma Room(v: bv32)
    requires v & 0xff000000 == 0
    ensures v & 0x80000000 == 0 && (v << 1) & 0x80000000 == 0 && (v << 2) & 0x80000000 == 0 &&
            (v << 3) & 0x80000000 == 0
    ensures (v << 4) & 0x80000000 == 0 && (v << 5) & 0x80000000 == 0 && (v << 6) & 0x80000000 == 0 &&
            (v << 7) & 0x80000000 == 0
  {
  }

  lemma Doublings(v: bv32)
    ensures Double(v) == v << 1 && Double(v << 1) == v << 2 && Double(v << 2) == v << 3 && Double(v << 3) == v << 4
    ensures Double(v << 4) == v << 5 && Double(v << 5) == v << 6 && Double(v << 6) == v << 7 && Double(v << 7) == v << 8
  {
  }

  lemma Evens(v: bv32)
    ensures !Odd(v << 1) && !Odd(v << 2) && !Odd(v << 3) && !Odd(v << 4)
    ensures !Odd(v << 5) && !Odd(v << 6) && !Odd(v << 7) && !Odd(v << 8)
  {
  }

  /** Eight shifts of a raised word drop only zeros and give the word back. */
  lemma UpIsClear(v: bv32)
    requires v & 0xff000000 == 0
    ensures Clear(Up(v), 8) && Halves(Up(v), 8) == v
  {
    hide Half, Double, Odd;
    Room(v);
    Doublings(v);
    Evens(v);
    HalfDouble(v);
    HalfDouble(v << 1);
    HalfDouble(v << 2);
    HalfDouble(v << 3);
    HalfDouble(v << 4);
    HalfDouble(v << 5);
    HalfDouble(v << 6);
    HalfDouble(v << 7);
    assert Halves(v << 1, 1) == v && Halves(v << 2, 2) == v && Halves(v << 3, 3) == v && Halves(v << 4, 4) == v;
    assert Clear(v << 1, 1) && Clear(v << 2, 2) && Clear(v << 3, 3) && Clear(v << 4, 4);
  }

  lemma ByteIsLow(b: u8)
    ensures var v := ByteBits(b);
            v & 0xff000000 == 0 && Up(v) & 0xff000000 == 0 && Up(Up(v)) & 0xff000000 == 0
  {
    ByteFits(b as bv8);
  }

  lemma ByteFits(x: bv8)
    ensures (x as bv32) & 0xffffff00 == 0
  {
  }

  /** `le32`: the word four bytes form, least significant byte first. The lanes do not overlap,
      so exclusive or joins them as well as or does. */
  function Window(w: seq<u8>): bv32
    requires |w| == 4
  {
    Xor(Xor(Xor(ByteBits(w[0]), Up(ByteBits(w[1]))), Up(Up(ByteBits(w[2])))), Up(Up(Up(ByteBits(w[3])))))
  }

  lemma XorAssociates(a: bv32, b: bv32, c: bv32)
    ensures Xor(Xor(a, b), c) == Xor(a, Xor(b, c))
  {
  }

  function Shift8(c: bv32): bv32 {
    Steps(c, 8)
  }

  /** A low word added after a byte shift may be added one byte higher before it. */
  lemma Raise(x: bv32, v: bv32)
    requires v & 0xff000000 == 0
    ensures Xor(Shift8(x), v) == Shift8(Xor(x, Up(v)))
  {
    hide Steps, Xor, Clear, Halves, Up;
    UpIsClear(v);
    Absorb(x, Up(v), 8);
  }

  /** Four bytes fed one by one are one word added before 32 shifts. */
  lemma WindowAbsorbed(c: bv32, w: seq<u8>)
    requires |w| == 4
    ensures Run(c, w) == Shift8(Shift8(Shift8(Shift8(Xor(c, Window(w))))))
  {
    hide Shift8, Xor, Up, ByteBits, Steps, Feed;
    var b0, b1, b2, b3 := ByteBits(w[0]), ByteBits(w[1]), ByteBits(w[2]), ByteBits(w[3]);
    ByteIsLow(w[1]);
    ByteIsLow(w[2]);
    ByteIsLow(w[3]);
    RunFour(c, w);
    var x1 := Xor(c, b0);
    Raise(x1, b1);
    var x2 := Xor(x1, Up(b1));
    Raise(Shift8(x2), b2);
    Raise(x2, Up(b2));
    var x3 := Xor(x2, Up(Up(b2)));
    Raise(Shift8(Shift8(x3)), b3);
    Raise(Shift8(x3), Up(b3));
    Raise(x3, Up(Up(b3)));
    XorAssociates(c, b0, Up(b1));
    XorAssociates(c, Xor(b0, Up(b1)), Up(Up(b2)));
    XorAssociates(c, Xor(Xor(b0, Up(b1)), Up(Up(b2))), Up(Up(Up(b3))));
  }

  lemma RunFour(c: bv32, w: seq<u8>)
    requires |w| == 4
    ensures Run(c, w) ==
            Shift8(Xor(Shift8(Xor(Shift8(Xor(Shift8(Xor(c, ByteBits(w[0]))), ByteBits(w[1]))), ByteBits(w[2]))),
                       ByteBits(w[3])))
  {
    hide Steps, Xor, ByteBits;
    assert w == [w[0]] + ([w[1]] + ([w[2]] + [w[3]]));
    RunAppend(c, [w[0]], [w[1]] + ([w[2]] + [w[3]]));
    RunOne(c, w[0]);
    var c1 := Run(c, [w[0]]);
    RunAppend(c1, [w[1]], [w[2]] + [w[3]]);
    RunOne(c1, w[1]);
    var c2 := Run(c1, [w[1]]);
    RunAppend(c2, [w[2]], [w[3]]);
    RunOne(c2, w[2]);
    RunOne(Run(c2, [w[2]]), w[3]);
  }

  lemma ByteBitsInjective(a: u8, b: u8)
    requires ByteBits(a) == ByteBits(b)
    ensures a == b
  {
    ByteThroughBits(a);
    ByteThroughBits(b);
    Widened(a as bv8, b as bv8);
  }

  lemma Widened(x: bv8, y: bv8)
    requires x as bv32 == y as bv32
    ensures x == y
  {
  }

  predicate OneByte(v: bv32) {
    v & 0xffffff00 == 0
  }

  function Lanes(a: bv32, b: bv32, c: bv32, d: bv32): bv32 {
    Xor(Xor(Xor(a, Up(b)), Up(Up(c))), Up(Up(Up(d))))
  }

  lemma LanesInjective(a: bv32, b: bv32, c: bv32, d: bv32, e: bv32, f: bv32, g: bv32, h: bv32)
    requires OneByte(a) && OneByte(b) && OneByte(c) && OneByte(d)
    requires OneByte(e) && OneByte(f) && OneByte(g) && OneByte(h)
    requires Lanes(a, b, c, d) == Lanes(e, f, g, h)
    ensures a == e && b == f && c == g && d == h
  {
  }

  lemma WindowInjective(v: seq<u8>, w: seq<u8>)
    requires |v| == |w| == 4 && Window(v) == Window(w)
    ensures v == w
  {
    hide ByteBits, Xor, Up, OneByte;
    forall b: u8 ensures OneByte(ByteBits(b)) {
      ByteBitsLow(b);
    }
    LanesInjective(ByteBits(v[0]), ByteBits(v[1]), ByteBits(v[2]), ByteBits(v[3]),
                   ByteBits(w[0]), ByteBits(w[1]), ByteBits(w[2]), ByteBits(w[3]));
    forall k | 0 <= k < 4 ensures v[k] == w[k] {
      ByteBitsInjective(v[k], w[k]);
    }
  }

  lemma ByteBitsLow(b: u8)
    ensures OneByte(ByteBits(b))
  {
    ByteFits(b as bv8);
  }

  // ----- Stored words -----

  /** The bytes of a word by masks and shifts; they are its little-endian bytes (`store_le32`). */
  function LowBytes(x: bv32): (w: seq<u8>)
    ensures |w| == 4
  {
    [LowByte(x), LowByte(x >> 8), LowByte(x >> 16), LowByte(x >> 24)]
  }

  function LowByte(x: bv32): u8 {
    ((x & 0xff) as bv8) as int
  }

  lemma LowByteBits(x: bv32)
    ensures ByteBits(LowByte(x)) == x & 0xff
  {
    ByteNumber((x & 0xff) as bv8);
  }

  lemma ByteNumber(x: bv8)
    ensures (x as int) as bv8 == x
  {
  }

  lemma LanesRebuild(x: bv32)
    ensures Lanes(x & 0xff, (x >> 8) & 0xff, (x >> 16) & 0xff, (x >> 24) & 0xff) == x
  {
  }

  lemma UpTwice(c: bv32)
    ensures Up(Up(c)) == c << 16 && Up(Up(Up(c))) == c << 24
  {
  }

  /** The lanes by plain shifts. */
  function Shifted(a: bv32, b: bv32, c: bv32, d: bv32): bv32 {
    Xor(Xor(Xor(a, b << 8), c << 16), d << 24)
  }

  lemma LanesAreShifted(a: bv32, b: bv32, c: bv32, d: bv32)
    ensures Lanes(a, b, c, d) == Shifted(a, b, c, d)
  {
    UpTwice(c);
    UpTwice(d);
    assert Up(b) == b << 8;
    hide Up, Xor;
  }

  lemma XorThrice(a: bv32, b: bv32, c: bv32, d: bv32)
    ensures Xor(Xor(Xor(a, b), c), d) == a ^ b ^ c ^ d
  {
  }

  lemma ShiftsAdd(a: bv8, b: bv8, c: bv8, d: bv8, sum: bv32)
    requires sum == (a as bv32) ^ ((b as bv32) << 8) ^ ((c as bv32) << 16) ^ ((d as bv32) << 24)
    ensures sum as int == a as int + 256 * (b as int) + 65536 * (c as int) + 16777216 * (d as int)
  {
  }

  lemma ShiftedAdd(a: bv8, b: bv8, c: bv8, d: bv8)
    ensures Shifted(a as bv32, b as bv32, c as bv32, d as bv32) as int ==
            a as int + 256 * (b as int) + 65536 * (c as int) + 16777216 * (d as int)
  {
    XorThrice(a as bv32, (b as bv32) << 8, (c as bv32) << 16, (d as bv32) << 24);
    hide Xor;
    ShiftsAdd(a, b, c, d, Shifted(a as bv32, b as bv32, c as bv32, d as bv32));
  }

  /** The register's view of four bytes is the number they store. */
  lemma WindowIsWord32(w: seq<u8>)
    requires |w| == 4
    ensures Window(w) as int == Word32(w, 0)
  {
    hide Lanes, Shifted, Window;
    WindowIsLanes(w);
    var a, b, c, d := w[0] as bv8, w[1] as bv8, w[2] as bv8, w[3] as bv8;
    LanesAreShifted(a as bv32, b as bv32, c as bv32, d as bv32);
    ShiftedAdd(a, b, c, d);
    ByteThroughBits(w[0]);
    ByteThroughBits(w[1]);
    ByteThroughBits(w[2]);
    ByteThroughBits(w[3]);
  }

  lemma WindowIsLanes(w: seq<u8>)
    requires |w| == 4
    ensures Window(w) ==
            Lanes((w[0] as bv8) as bv32, (w[1] as bv8) as bv32, (w[2] as bv8) as bv32, (w[3] as bv8) as bv32)
  {
    hide Up, Xor;
  }

  lemma LowBytesThenWindow(x: bv32)
    ensures Window(LowBytes(x)) == x
  {
    hide Xor, Up, ByteBits, LowByte;
    LowByteBits(x);
    LowByteBits(x >> 8);
    LowByteBits(x >> 16);
    LowByteBits(x >> 24);
    LanesRebuild(x);
  }

  /** `le32` undoes `store_le32`, and the other way round. */
  lemma StoreThenLoad(x: bv32)
    ensures Window(Le32(x as int)) == x
  {
    hide Window, LowBytes, Le32, Word32;
    LowBytesThenWindow(x);
    WindowIsWord32(LowBytes(x));
    Le32OfWord32(LowBytes(x));
  }

  lemma LoadThenStore(w: seq<u8>)
    requires |w| == 4
    ensures Le32(Window(w) as int) == w
  {
    hide Window, Le32, Word32;
    WindowIsWord32(w);
    Le32OfWord32(w);
  }

  lemma FourBytesInjective(c: bv32, v: seq<u8>, w: seq<u8>)
    requires |v| == |w| == 4 && Run(c, v) == Run(c, w)
    ensures v == w
  {
    hide Run, Window, Xor, Steps;
    WindowAbsorbed(c, v);
    WindowAbsorbed(c, w);
    ShiftsInjective(Xor(c, Window(v)), Xor(c, Window(w)));
    XorLeft(c, Window(v), Window(w));
    WindowInjective(v, w);
  }

  lemma XorLeft(c: bv32, x: bv32, y: bv32)
    requires Xor(c, x) == Xor(c, y)
    ensures x == y
  {
    assert c ^ (c ^ x) == x && c ^ (c ^ y) == y;
  }

  /** a and b agree except inside the four bytes from p. */
  predicate BurstAt(a: seq<u8>, b: seq<u8>, p: nat) {
    |a| == |b| && p + 4 <= |a| && a[..p] == b[..p] && a[p + 4..] == b[p + 4..]
  }

  /** The register after a message tells apart all messages that differ by one burst. */
  lemma BurstChangesRun(c: bv32, a: seq<u8>, b: seq<u8>, p: nat)
    requires BurstAt(a, b, p) && Run(c, a) == Run(c, b)
    ensures a == b
  {
    hide Run;
    assert a == a[..p] + (a[p..p + 4] + a[p + 4..]);
    assert b == b[..p] + (b[p..p + 4] + b[p + 4..]);
    RunAppend(c, a[..p], a[p..p + 4] + a[p + 4..]);
    RunAppend(c, b[..p], b[p..p + 4] + b[p + 4..]);
    var s := Run(c, a[..p]);
    RunAppend(s, a[p..p + 4], a[p + 4..]);
    RunAppend(s, b[p..p + 4], b[p + 4..]);
    RunInjectiveInState(Run(s, a[p..p + 4]), Run(s, b[p..p + 4]), a[p + 4..]);
    FourBytesInjective(s, a[p..p + 4], b[p..p + 4]);
  }

  /** A message followed by its stored checksum. */
  predicate Sealed(block: seq<u8>)
    requires |block| >= 4
  {
    Crc32(block[..|block| - 4]) == Window(block[|block| - 4..])
  }

  /** Register value after every sealed message. */
  function Residue(): bv32 {
    Shift8(Shift8(Shift8(Shift8(0xffffffff))))
  }

  lemma SealedByResidue(block: seq<u8>)
    requires |block| >= 4
    ensures Sealed(block) <==> Run(0xffffffff, block) == Residue()
  {
    hide Run, Window, Shift8;
    var data, tail := block[..|block| - 4], block[|block| - 4..];
    assert block == data + tail;
    RunAppend(0xffffffff, data, tail);
    var s := Run(0xffffffff, data);
    WindowAbsorbed(s, tail);
    ResidueReached(s, Window(tail));
  }

  lemma ResidueReached(s: bv32, stored: bv32)
    ensures Shift8(Shift8(Shift8(Shift8(Xor(s, stored))))) == Residue() <==> stored == !s
  {
    hide Steps;
    if Shift8(Shift8(Shift8(Shift8(Xor(s, stored))))) == Residue() {
      ShiftsInjective(Xor(s, stored), 0xffffffff);
      assert s ^ (s ^ stored) == stored;
    }
    if stored == !s {
      assert Xor(s, stored) == 0xffffffff;
    }
  }

  lemma ShiftsInjective(x: bv32, y: bv32)
    requires Shift8(Shift8(Shift8(Shift8(x)))) == Shift8(Shift8(Shift8(Shift8(y))))
    ensures x == y
  {
    hide Steps;
    StepsInjective(Shift8(Shift8(Shift8(x))), Shift8(Shift8(Shift8(y))), 8);
    StepsInjective(Shift8(Shift8(x)), Shift8(Shift8(y)), 8);
    StepsInjective(Shift8(x), Shift8(y), 8);
    StepsInjective(x, y, 8);
  }

  /** A sealed block with any one burst of up to four bytes changed, in its body, in its
      checksum or across both, is no longer sealed. */
  lemma BurstBreaksSeal(a: seq<u8>, b: seq<u8>, p: nat)
    requires BurstAt(a, b, p) && Sealed(a) && Sealed(b)
    ensures a == b
  {
    hide Run, Sealed;
    SealedByResidue(a);
    SealedByResidue(b);
    BurstChangesRun(0xffffffff, a, b, p);
  }
}
