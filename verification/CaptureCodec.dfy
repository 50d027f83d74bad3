/** Capture payloads (`fpc_capture_payload`, `fpc_capture_load_payload`). */
module CaptureCodec {
  import opened Words
  import opened Bytes

  /** What the sixteen flag bits switch on. */
  datatype Format = Format(full: bool, compact: bool, scores: bool, angles: bool, descriptors: bool, membership: bool)

  function FormatOf(flags: u16): Format {
    Format(flags / 0x400 % 2 == 1, flags / 0x20 % 2 == 1, flags / 4 % 2 == 1,
           flags / 2 % 2 == 1, flags / 0x800 % 2 == 1, flags / 0x80 % 2 == 1)
  }

  const DEFAULT_FLAGS: u16 := 0xce1

  /** One serialized row: five level fields, then the extra table words. */
  datatype Level = Level(fields: seq<u16>, extra: seq<u16>)

  datatype CaptureView = CaptureView(
    count: nat, mode: u8, descriptorBytes: u8, tableWidth: u8, levels: seq<Level>,
    compact: Bytes, coordinates: seq<u32>, scores: seq<u32>, angles: seq<u32>,
    descriptors: Bytes, membership: Bytes)

  function Bare(n: nat): CaptureView {
    CaptureView(n, 0, 0, 0, [], [], [], [], [], [], [])
  }

  function ExtraWords(tableWidth: u8): nat {
    if tableWidth == 0 then 0 else tableWidth - 1
  }

  function LevelSum(levels: seq<Level>): nat
    requires forall l <- levels :: |l.fields| == 5
  {
    if levels == [] then 0 else levels[0].fields[0] + LevelSum(levels[1..])
  }

  predicate LevelShapes(levels: seq<Level>, extra: nat) {
    forall l <- levels :: |l.fields| == 5 && |l.extra| == extra
  }

  function MembershipBytes(n: nat): nat {
    (n + 7) / 8
  }

  function DescriptorSize(n: nat, bytes: u8): nat {
    n * bytes
  }

  /** The arrays are as long as the header of the view says. */
  predicate Sized(v: CaptureView, f: Format) {
    && |v.levels| < 256 && LevelShapes(v.levels, ExtraWords(v.tableWidth))
    && |v.compact| == (if f.compact then 2 * v.count else 0)
    && |v.coordinates| == (if f.compact then 0 else 2 * v.count)
    && |v.scores| == (if f.scores then v.count else 0)
    && |v.angles| == (if f.angles then v.count else 0)
    && |v.descriptors| == (if f.descriptors then DescriptorSize(v.count, v.descriptorBytes) else 0)
    && |v.membership| == (if f.membership then MembershipBytes(v.count) else 0)
  }

  /** What a loaded view always satisfies. */
  predicate WellFormed(v: CaptureView, f: Format) {
    && v.count <= 32767
    && if !f.full then v == Bare(v.count)
       else Sized(v, f) && CountsFit(v.levels, v.count)
  }

  // ----- Printing -----

  function LevelBytes(levels: seq<Level>): Bytes {
    if levels == [] then [] else Words16(levels[0].fields + levels[0].extra) + LevelBytes(levels[1..])
  }

  function Header(v: CaptureView): (b: Bytes)
    requires v.count <= 32767 && |v.levels| < 256
    ensures |b| == 8
  {
    Le32(v.count) + [v.mode, v.descriptorBytes, |v.levels|, v.tableWidth]
  }

  /** Everything after the header, part by part. */
  function Parts(v: CaptureView): seq<Bytes> {
    [LevelBytes(v.levels), v.compact, Words32(v.coordinates), Words32(v.scores), Words32(v.angles), v.descriptors,
     v.membership]
  }

  function Payload(v: CaptureView, f: Format): Bytes
    requires v.count <= 32767 && (f.full ==> Sized(v, f))
  {
    if !f.full then Le32(v.count) else Header(v) + Join(Parts(v))
  }

  // ----- Parsing -----

  /** Bytes of n level rows. */
  function RowsSize(n: nat, extra: nat): nat {
    if n == 0 then 0 else RowsSize(n - 1, extra) + RowSize(extra)
  }

  function RowSize(extra: nat): nat {
    2 * (5 + extra)
  }

  lemma {:induction false} RowsSizeClosedForm(n: nat, extra: nat)
    ensures RowsSize(n, extra) == 2 * (n * (5 + extra))
  {
    if n > 0 {
      RowsSizeClosedForm(n - 1, extra);
      assert n * (5 + extra) == (n - 1) * (5 + extra) + (5 + extra);
    }
  }

  function ReadLevel(b: Bytes): (l: Level)
    requires |b| >= 10 && |b| % 2 == 0
    ensures |l.fields| == 5 && |l.extra| == |b| / 2 - 5
  {
    var words := ReadWords16(b);
    Level(words[..5], words[5..])
  }

  /** Reads n rows of 5 + extra words. */
  function ReadLevels(b: Bytes, n: nat, extra: nat): (levels: seq<Level>)
    requires |b| == RowsSize(n, extra)
    ensures |levels| == n && LevelShapes(levels, extra)
    decreases n
  {
    if n == 0 then []
    else [ReadLevel(b[..RowSize(extra)])] + ReadLevels(b[RowSize(extra)..], n - 1, extra)
  }

  /** Byte lengths of the parts of a full payload, in order. */
  function PartSizes(n: nat, descriptorBytes: u8, levels: u8, tableWidth: u8, f: Format): (sizes: seq<nat>)
    ensures |sizes| == 7
  {
    [RowsSize(levels, ExtraWords(tableWidth)),
     if f.compact then 2 * n else 0, if f.compact then 0 else 8 * n,
     if f.scores then 4 * n else 0, if f.angles then 4 * n else 0,
     if f.descriptors then DescriptorSize(n, descriptorBytes) else 0,
     if f.membership then MembershipBytes(n) else 0]
  }

  /** Reads a view from the parts of its body. */
  function Assemble(data: Bytes, parts: seq<Bytes>, n: nat): CaptureView
    requires |data| >= 8 && |parts| == 7 && |parts[0]| == RowsSize(data[6], ExtraWords(data[7]))
    requires |parts[2]| % 4 == |parts[3]| % 4 == |parts[4]| % 4 == 0
  {
    CaptureView(n, data[4], data[5], data[7], ReadLevels(parts[0], data[6], ExtraWords(data[7])),
                parts[1], ReadWords32(parts[2]), ReadWords32(parts[3]), ReadWords32(parts[4]), parts[5], parts[6])
  }

  predicate CountsFit(levels: seq<Level>, n: nat)
    requires forall l <- levels :: |l.fields| == 5
  {
    (forall l <- levels :: l.fields[0] <= 32767) && LevelSum(levels) == n
  }

  /** The C reader: every size is computed up front and must add up exactly. */
  function Parse(data: Bytes, f: Format): Option<CaptureView> {
    if |data| < 4 then None
    else
      var n := Word32(data, 0);
      if n > 32767 then None
      else if !f.full then (if |data| != 4 then None else Some(Bare(n)))
      else if |data| < 8 then None
      else
        var sizes := PartSizes(n, data[5], data[6], data[7], f);
        if |data| != 8 + Total(sizes) then None
        else
          var v := Assemble(data, Split(data[8..], sizes), n);
          if CountsFit(v.levels, n) then Some(v) else None
  }

  // ----- The two directions -----

  lemma {:induction false} LevelBytesSize(levels: seq<Level>, extra: nat)
    requires LevelShapes(levels, extra)
    ensures |LevelBytes(levels)| == RowsSize(|levels|, extra)
  {
    if levels != [] {
      assert levels[0] in levels;
      LevelBytesSize(levels[1..], extra);
    }
  }

  lemma ReadBackLevel(l: Level)
    requires |l.fields| == 5
    ensures ReadLevel(Words16(l.fields + l.extra)) == l
  {
    hide Words16, ReadWords16;
    var words := l.fields + l.extra;
    ReadBackWords16(words);
    assert words[..5] == l.fields && words[5..] == l.extra;
  }

  lemma WriteBackLevel(b: Bytes)
    requires |b| >= 10 && |b| % 2 == 0
    ensures var l := ReadLevel(b); Words16(l.fields + l.extra) == b
  {
    hide Words16, ReadWords16;
    WriteBackWords16(b);
    var words := ReadWords16(b);
    assert words[..5] + words[5..] == words;
  }

  lemma {:induction false} ReadBackLevels(levels: seq<Level>, extra: nat)
    requires LevelShapes(levels, extra)
    ensures |LevelBytes(levels)| == RowsSize(|levels|, extra)
    ensures ReadLevels(LevelBytes(levels), |levels|, extra) == levels
  {
    hide Words16, ReadLevel;
    LevelBytesSize(levels, extra);
    if levels != [] {
      assert levels[0] in levels;
      ReadBackLevels(levels[1..], extra);
      ReadBackLevel(levels[0]);
      SplitFront(Words16(levels[0].fields + levels[0].extra), LevelBytes(levels[1..]));
    }
  }

  lemma {:induction false} WriteBackLevels(b: Bytes, n: nat, extra: nat)
    requires |b| == RowsSize(n, extra)
    ensures LevelBytes(ReadLevels(b, n, extra)) == b
    decreases n
  {
    hide Words16, ReadLevel;
    if n > 0 {
      var row := RowSize(extra);
      WriteBackLevel(b[..row]);
      WriteBackLevels(b[row..], n - 1, extra);
      var levels := ReadLevels(b, n, extra);
      assert levels[0] == ReadLevel(b[..row]) && levels[1..] == ReadLevels(b[row..], n - 1, extra);
    }
  }

  /** Splitting the body of a printed view gives its parts. */
  lemma SplitOfPayload(v: CaptureView, f: Format)
    requires f.full && v.count <= 32767 && Sized(v, f)
    ensures var sizes := PartSizes(v.count, v.descriptorBytes, |v.levels|, v.tableWidth, f);
            |Join(Parts(v))| == Total(sizes) && Split(Join(Parts(v)), sizes) == Parts(v)
  {
    hide Words32, LevelBytes, RowsSize, DescriptorSize, MembershipBytes, Join, Split, Total;
    LevelBytesSize(v.levels, ExtraWords(v.tableWidth));
    SplitOfJoin(Parts(v));
    assert Sizes(Parts(v)) == PartSizes(v.count, v.descriptorBytes, |v.levels|, v.tableWidth, f);
  }

  /** Reading the parts of a view gives the view. */
  lemma AssembleOfParts(data: Bytes, v: CaptureView, f: Format)
    requires f.full && v.count <= 32767 && Sized(v, f) && |data| >= 8
    requires data[4] == v.mode && data[5] == v.descriptorBytes && data[6] == |v.levels| && data[7] == v.tableWidth
    ensures |Parts(v)[0]| == RowsSize(data[6], ExtraWords(data[7]))
    ensures Assemble(data, Parts(v), v.count) == v
  {
    hide Words32, ReadWords32, LevelBytes, ReadLevels, RowsSize, DescriptorSize, MembershipBytes;
    ReadBackLevels(v.levels, ExtraWords(v.tableWidth));
    ReadBackWords32(v.coordinates);
    ReadBackWords32(v.scores);
    ReadBackWords32(v.angles);
  }

  lemma HeaderBytes(v: CaptureView, rest: Bytes)
    requires v.count <= 32767 && |v.levels| < 256
    ensures var data := Header(v) + rest;
            && data[..8] == Header(v) && data[8..] == rest && Word32(data, 0) == v.count
            && data[4] == v.mode && data[5] == v.descriptorBytes && data[6] == |v.levels| && data[7] == v.tableWidth
  {
    var data := Header(v) + rest;
    Word32OfLe32(v.count, data[4..]);
    assert data == Le32(v.count) + data[4..];
  }

  /** Loading what was printed gives back the view. */
  lemma ParseOfPayload(v: CaptureView, f: Format)
    requires WellFormed(v, f)
    ensures Parse(Payload(v, f), f) == Some(v)
  {
    if !f.full {
      Word32OfLe32(v.count, []);
      assert Le32(v.count) + [] == Le32(v.count);
    } else {
      hide Parts, Assemble, Split, Join, Total, PartSizes, Header, Le32, Word32;
      HeaderBytes(v, Join(Parts(v)));
      SplitOfPayload(v, f);
      AssembleOfParts(Payload(v, f), v, f);
    }
  }

  lemma WholeWords(n: nat)
    ensures (8 * n) % 4 == 0 && (4 * n) % 4 == 0
  {
  }

  /** The parts of an assembled view are the parts it was read from. */
  lemma PartsOfAssemble(data: Bytes, parts: seq<Bytes>, n: nat, f: Format)
    requires |data| >= 8 && |parts| == 7 && Sizes(parts) == PartSizes(n, data[5], data[6], data[7], f)
    ensures |parts[0]| == RowsSize(data[6], ExtraWords(data[7]))
    ensures |parts[2]| % 4 == |parts[3]| % 4 == |parts[4]| % 4 == 0
    ensures Sized(Assemble(data, parts, n), f) && Parts(Assemble(data, parts, n)) == parts
  {
    hide Words32, ReadWords32, LevelBytes, ReadLevels, RowsSize, DescriptorSize, MembershipBytes;
    var sizes := PartSizes(n, data[5], data[6], data[7], f);
    forall i | 0 <= i < 7 ensures |parts[i]| == sizes[i] {
      assert Sizes(parts)[i] == |parts[i]|;
    }
    assert |parts[0]| == sizes[0] && |parts[1]| == sizes[1] && |parts[2]| == sizes[2] && |parts[3]| == sizes[3];
    assert |parts[4]| == sizes[4] && |parts[5]| == sizes[5] && |parts[6]| == sizes[6];
    assert parts == [parts[0], parts[1], parts[2], parts[3], parts[4], parts[5], parts[6]];
    WholeWords(n);
    WriteBackLevels(parts[0], data[6], ExtraWords(data[7]));
    WriteBackWords32(parts[2]);
    WriteBackWords32(parts[3]);
    WriteBackWords32(parts[4]);
  }

  /** Printing what was loaded gives back the bytes, for every accepted byte string. */
  lemma PayloadOfParse(data: Bytes, f: Format)
    requires Parse(data, f).Some?
    ensures WellFormed(Parse(data, f).value, f) && Payload(Parse(data, f).value, f) == data
  {
    if !f.full {
      Le32OfWord32(data);
    } else {
      hide Parts, Split, Join, Total, PartSizes, Header, Le32, Word32, Sized, ReadLevels, ReadWords32;
      var n := Word32(data, 0);
      var sizes := PartSizes(n, data[5], data[6], data[7], f);
      var parts := Split(data[8..], sizes);
      assert Sizes(parts) == sizes;
      PartsOfAssemble(data, parts, n, f);
      JoinOfSplit(data[8..], sizes);
      HeaderOfBytes(data, Assemble(data, parts, n));
    }
  }

  lemma HeaderOfBytes(data: Bytes, v: CaptureView)
    requires |data| >= 8 && v.count == Word32(data, 0) <= 32767 && |v.levels| == data[6]
    requires v.mode == data[4] && v.descriptorBytes == data[5] && v.tableWidth == data[7]
    ensures data == Header(v) + data[8..]
  {
    Le32OfWord32(data[..4]);
    assert Word32(data, 0) == Word32(data[..4], 0);
    assert data[..4] == Le32(v.count);
  }
}
