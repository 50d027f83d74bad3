/** How long a capture payload is, in numbers (`fpc_capture_payload`, `fpc_capture_load_payload`). */
module PayloadSizes {
  import opened Words
  import opened Bytes
  import opened CaptureCodec
  import opened TemplateCodec

  /** m bytes hold n bits, and one byte less would not. */
  predicate HoldsBits(m: nat, n: nat) {
    n <= 8 * m < n + 8
  }

  lemma MembershipExactly(n: nat)
    ensures HoldsBits(MembershipBytes(n), n)
    ensures forall m: nat | HoldsBits(m, n) :: m == MembershipBytes(n)
  {
  }

  /** Words of one level row: five, and the extra table words. */
  predicate RowWords(words: nat, tableWidth: u8) {
    words == if tableWidth < 2 then 5 else tableWidth + 4
  }

  /** Bytes per feature, membership bits aside. */
  function PerFeature(f: Format, descriptorBytes: u8): nat {
    (if f.compact then 2 else 8) + (if f.scores then 4 else 0) + (if f.angles then 4 else 0)
    + (if f.descriptors then descriptorBytes else 0)
  }

  /** A full payload of `size` bytes for n features. */
  ghost predicate SizeFits(size: nat, n: nat, descriptorBytes: u8, levels: u8, tableWidth: u8, f: Format) {
    exists m: nat, words: nat :: Adds(size, n, descriptorBytes, levels, tableWidth, f, m, words)
  }

  /** Header, `levels` rows of `words` words, the arrays of n features, and m bytes of membership. */
  predicate Adds(size: nat, n: nat, descriptorBytes: u8, levels: u8, tableWidth: u8, f: Format, m: nat, words: nat) {
    && RowWords(words, tableWidth) && (if f.membership then HoldsBits(m, n) else m == 0)
    && size == 8 + 2 * (levels * words) + n * PerFeature(f, descriptorBytes) + m
  }

  /** The one pair of numbers that can witness a size. */
  function OwnWords(tableWidth: u8): nat {
    if tableWidth < 2 then 5 else tableWidth + 4
  }

  function OwnBits(n: nat, f: Format): nat {
    if f.membership then MembershipBytes(n) else 0
  }

  lemma WitnessIsOwn(size: nat, n: nat, descriptorBytes: u8, levels: u8, tableWidth: u8, f: Format)
    ensures SizeFits(size, n, descriptorBytes, levels, tableWidth, f) <==>
            size == 8 + 2 * (levels * OwnWords(tableWidth)) + n * PerFeature(f, descriptorBytes) + OwnBits(n, f)
  {
    MembershipExactly(n);
    hide MembershipBytes, PerFeature, HoldsBits;
    if m: nat, words: nat :| Adds(size, n, descriptorBytes, levels, tableWidth, f, m, words) {
      assert words == OwnWords(tableWidth) && m == OwnBits(n, f);
    } else {
      assert !Adds(size, n, descriptorBytes, levels, tableWidth, f, OwnBits(n, f), OwnWords(tableWidth));
    }
  }

  lemma TotalExactly(n: nat, descriptorBytes: u8, levels: u8, tableWidth: u8, f: Format, size: nat)
    ensures SizeFits(size, n, descriptorBytes, levels, tableWidth, f) <==>
            size == 8 + Total(PartSizes(n, descriptorBytes, levels, tableWidth, f))
  {
    hide RowsSize, SizeFits, MembershipBytes, PerFeature, DescriptorSize;
    var sizes := PartSizes(n, descriptorBytes, levels, tableWidth, f);
    RowsSizeClosedForm(levels, ExtraWords(tableWidth));
    TotalOfSeven(sizes);
    FeaturesAdd(n, f, descriptorBytes);
    WitnessIsOwn(size, n, descriptorBytes, levels, tableWidth, f);
    assert 5 + ExtraWords(tableWidth) == OwnWords(tableWidth);
  }

  lemma FeaturesAdd(n: nat, f: Format, d: u8)
    ensures n * PerFeature(f, d) ==
            (if f.compact then 2 * n else 8 * n) + (if f.scores then 4 * n else 0) + (if f.angles then 4 * n else 0)
            + (if f.descriptors then DescriptorSize(n, d) else 0)
  {
  }

  /** A capture prints to exactly that size. */
  lemma PrintedSize(v: CaptureView, f: Format)
    requires WellFormed(v, f) && f.full
    ensures SizeFits(|Payload(v, f)|, v.count, v.descriptorBytes, |v.levels|, v.tableWidth, f)
  {
    hide SizeFits, PartSizes, Total, Header, Join, Parts;
    SplitOfPayload(v, f);
    TotalExactly(v.count, v.descriptorBytes, |v.levels|, v.tableWidth, f, |Payload(v, f)|);
  }

  /** The number four bytes store, least significant first. */
  function Stored(data: Bytes): nat
    requires |data| >= 4
  {
    (data[0] as int) + 256 * (data[1] as int) + 65536 * (data[2] as int) + 16777216 * (data[3] as int)
  }

  /** Bytes of any other size, for what their header announces, are refused. */
  lemma OtherSizesRefused(data: Bytes, f: Format)
    requires f.full && |data| >= 8 && Parse(data, f).Some?
    ensures SizeFits(|data|, Stored(data), data[5], data[6], data[7], f)
  {
    hide Assemble, Split, CountsFit, PartSizes, Total;
    TotalExactly(Stored(data), data[5], data[6], data[7], f, |data|);
  }

  /** A stored capture of one level with 16-byte descriptors takes 18 bytes per feature beside its
      membership bits, 18 bytes of its own, and no other size. */
  lemma OneLevelSize(v: CaptureView)
    requires WellFormed(v, DEFAULT_FORMAT) && |v.levels| == 1 && v.tableWidth < 2 && v.descriptorBytes == 16
    ensures exists m: nat :: HoldsBits(m, v.count) && |Payload(v, DEFAULT_FORMAT)| == 18 + 18 * v.count + m
  {
    hide Payload, WellFormed;
    DefaultIs();
    PrintedSize(v, DEFAULT_FORMAT);
  }

  lemma DefaultIs()
    ensures DEFAULT_FORMAT == Format(true, true, false, false, true, true)
  {
  }

  /** In full for one level: such bytes are a capture exactly when they have that size, announce at
      most 32767 features, and the level counts them all. */
  lemma OneLevelExactly(data: Bytes)
    requires |data| >= 8 && data[6] == 1 && data[7] < 2
    ensures Parse(data, DEFAULT_FORMAT).Some? <==>
              && Stored(data) <= 32767
              && (exists m: nat :: HoldsBits(m, Stored(data)) && |data| == 18 + (2 + data[5]) * Stored(data) + m)
              && (data[8] as int) + 256 * (data[9] as int) == Stored(data)
  {
    hide SizeFits, HoldsBits, PartSizes, Total, Split, ReadLevels, CountsFit, RowsSize;
    DefaultIs();
    var n := Stored(data);
    OneRow();
    TotalExactly(n, data[5], data[6], data[7], DEFAULT_FORMAT, |data|);
    OneLevelFits(|data|, n, data[5], data[7]);
    if |data| == 8 + Total(PartSizes(n, data[5], data[6], data[7], DEFAULT_FORMAT)) {
      OneLevelCounts(data, n);
    }
  }

  lemma OneRow()
    ensures RowsSize(1, 0) == 10
  {
    assert RowsSize(0, 0) == 0;
  }

  lemma OneLevelFits(size: nat, n: nat, d: u8, tableWidth: u8)
    requires tableWidth < 2
    ensures SizeFits(size, n, d, 1, tableWidth, Format(true, true, false, false, true, true)) <==>
              exists m: nat :: HoldsBits(m, n) && size == 18 + (2 + d) * n + m
  {
    hide HoldsBits;
    assert PerFeature(Format(true, true, false, false, true, true), d) == 2 + d;
    if m: nat :| HoldsBits(m, n) && size == 18 + (2 + d) * n + m {
      assert Adds(size, n, d, 1, tableWidth, Format(true, true, false, false, true, true), m, 5);
    }
  }

  lemma OneLevelCounts(data: Bytes, n: nat)
    requires |data| >= 8 && data[6] == 1 && data[7] < 2
    requires |data| == 8 + Total(PartSizes(n, data[5], data[6], data[7], DEFAULT_FORMAT))
    ensures |data| >= 18
    ensures var parts := Split(data[8..], PartSizes(n, data[5], data[6], data[7], DEFAULT_FORMAT));
            && |parts| == 7 && |parts[0]| == RowsSize(1, 0)
            && (CountsFit(ReadLevels(parts[0], 1, 0), n) <==>
                  n <= 32767 && (data[8] as int) + 256 * (data[9] as int) == n)
  {
    DefaultIs();
    var sizes := PartSizes(n, data[5], data[6], data[7], DEFAULT_FORMAT);
    assert RowsSize(1, 0) == RowsSize(0, 0) + RowSize(0) == 10;
    TotalOfSeven(sizes);
    var row := Split(data[8..], sizes)[0];
    assert row == data[8..][..10] && row[..10] == row;
    assert ReadWords16(row)[0] == Word16(row, 0);
    var l := ReadLevel(row);
    assert ReadLevels(row, 1, 0) == [l] + ReadLevels(row[10..], 0, 0) == [l];
    assert [l][1..] == [] && LevelSum([l]) == l.fields[0] == Word16(row, 0);
    assert l in [l] && row[0] == data[8] && row[1] == data[9];
  }

  // ----- Flags -----

  function When(on: bool, bit: nat): nat {
    if on then bit else 0
  }

  /** Each flag bit switches on one part, whatever the others are. */
  lemma FlagsExactly(f: Format)
    ensures FormatOf(When(f.full, 1024) + When(f.compact, 32) + When(f.scores, 4) + When(f.angles, 2)
                     + When(f.descriptors, 2048) + When(f.membership, 128)) == f
  {
  }

  /** Without the full flag a payload is four bytes and its capture has nothing but a count. */
  lemma BareExactly(data: Bytes, f: Format)
    requires !f.full
    ensures match Parse(data, f)
            case None => |data| != 4 || Stored(data) > 32767
            case Some(v) =>
              && |data| == 4 && v.count == Stored(data) && v.mode == v.descriptorBytes == v.tableWidth == 0
              && v.levels == [] && v.compact == v.descriptors == v.membership == []
              && v.coordinates == v.scores == v.angles == []
  {
  }
}
