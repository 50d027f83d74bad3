/** Blocks and templates (`fpc_template_validate`, `checked_block`, the graph, collection and
    template printers and loaders). */
module TemplateCodec {
  import opened Words
  import opened Bytes
  import opened Crc
  import opened CaptureCodec

  const TAG_META: u32 := 305398016
  const TAG_GRAPH: u32 := 305398528
  const TAG_AGES: u32 := 305398784
  const TAG_COLLECTION: u32 := 1540161792
  const TAG_CAPTURE: u32 := 1540162048
  const MAX_TOTAL: int := 0x7fff_ffff
  const DEFAULT_FORMAT: Format := FormatOf(DEFAULT_FLAGS)

  // ----- Blocks -----

  /** Tag, total length, payload, checksum. */
  function Block(tag: u32, payload: Bytes): (b: Bytes)
    requires |payload| + 12 < 0x1_0000_0000
    ensures |b| == |payload| + 12
  {
    var body := Le32(tag) + Le32(|payload| + 12) + payload;
    body + Le32(Crc32(body) as int)
  }

  /** Length field of the block at the front, when the C code accepts it. */
  predicate FramedBy(data: Bytes, length: nat) {
    && |data| >= 12 && length == Word32(data, 4) && 12 <= length <= |data|
    && Sealed(data[..length])
  }

  /** `checked_block`: payload of the block at the front, and what follows it. */
  function OpenBlock(data: Bytes, tag: u32): Option<(Bytes, Bytes)> {
    if |data| < 12 || Word32(data, 0) != tag then None
    else
      var length := Word32(data, 4);
      if !FramedBy(data, length) then None else Some((data[8..length - 4], data[length..]))
  }

  /** The block walk of `fpc_template_validate`. */
  predicate Walk(data: Bytes)
    decreases |data|
  {
    data == [] || (|data| >= 12 && FramedBy(data, Word32(data, 4)) && Walk(data[Word32(data, 4)..]))
  }

  predicate Validates(data: Bytes) {
    8 <= |data| <= MAX_TOTAL && Word32(data, 4) == |data| && Walk(data[8..])
  }

  lemma BlockIsFramed(tag: u32, payload: Bytes, rest: Bytes)
    requires |payload| + 12 < 0x1_0000_0000
    ensures var data := Block(tag, payload) + rest;
            && |data| >= 12 && Word32(data, 0) == tag && FramedBy(data, |payload| + 12)
            && data[8..|payload| + 8] == payload && data[|payload| + 12..] == rest
  {
    hide Crc32, Window, Le32, Word32;
    var body := Le32(tag) + Le32(|payload| + 12) + payload;
    var data := Block(tag, payload) + rest;
    StoreThenLoad(Crc32(body));
    assert data[..|body|] == body && data[..|payload| + 12] == Block(tag, payload);
    assert Block(tag, payload)[..|payload| + 8] == body;
    Word32OfLe32(tag, data[4..]);
    assert data == Le32(tag) + data[4..];
    Word32OfLe32(|payload| + 12, data[8..]);
    assert data[4..] == Le32(|payload| + 12) + data[8..];
    Word32Shift(data, 4);
  }

  lemma Word32Shift(data: Bytes, at: nat)
    requires at + 4 <= |data|
    ensures Word32(data, at) == Word32(data[at..], 0)
  {
  }

  /** Opening a printed block gives its payload and the rest. */
  lemma OpenOfBlock(tag: u32, payload: Bytes, rest: Bytes)
    requires |payload| + 12 < 0x1_0000_0000
    ensures OpenBlock(Block(tag, payload) + rest, tag) == Some((payload, rest))
    ensures Walk(Block(tag, payload) + rest) == Walk(rest)
  {
    hide Block, Sealed, Word32;
    BlockIsFramed(tag, payload, rest);
  }

  /** Whatever opens was printed. */
  lemma BlockOfOpen(data: Bytes, tag: u32)
    requires OpenBlock(data, tag).Some?
    ensures var (payload, rest) := OpenBlock(data, tag).value;
            |payload| + 12 < 0x1_0000_0000 && data == Block(tag, payload) + rest
  {
    hide Crc32, Window, Le32, Word32;
    var length := Word32(data, 4);
    var payload := data[8..length - 4];
    var body := data[..length - 4];
    Le32OfWord32(data[..4]);
    Le32OfWord32(data[4..8]);
    assert Word32(data[..4], 0) == Word32(data, 0) && Word32(data[4..8], 0) == Word32(data, 4) by {
      WordOfSlice(data, 0);
      WordOfSlice(data, 4);
    }
    assert body == Le32(tag) + Le32(length) + payload;
    LoadThenStore(data[length - 4..length]);
    assert data[..length][..length - 4] == body && data[..length][length - 4..] == data[length - 4..length];
    assert data == (body + data[length - 4..length]) + data[length..];
  }

  lemma WordOfSlice(data: Bytes, at: nat)
    requires at + 4 <= |data|
    ensures Word32(data[at..at + 4], 0) == Word32(data, at)
  {
  }

  // ----- The score graph -----

  datatype Graph = Graph(
    used: u16, capacity: u16, protectedCount: u16, protectedLimit: u16, ageThreshold: u16,
    order: seq<u16>, scores: seq<u16>, ages: seq<u16>)

  predicate GraphShape(g: Graph) {
    2 <= g.capacity && g.used <= g.capacity && |g.order| == g.capacity && |g.scores| == Triangle(g.capacity)
  }

  function GraphWords(g: Graph, pending: u16): seq<u16> {
    [g.used, g.capacity, g.protectedCount, g.protectedLimit, g.ageThreshold, pending] + g.order + g.scores
  }

  /** `fpc_retained_graph_payload`. */
  function GraphPayload(g: Graph, pending: u16): Bytes {
    Words16(GraphWords(g, pending))
  }

  /** `fpc_retained_graph_load_payload`; ages come from their own block. */
  function ParseGraph(data: Bytes): Option<(Graph, u16)> {
    if |data| < 12 || |data| % 2 == 1 then None
    else
      var w := ReadWords16(data);
      if w[0] == 0 || w[1] < 2 || w[0] > w[1] || w[0] > 80 || w[5] > 10 then None
      else if |w| != 6 + w[1] + Triangle(w[1]) then None
      else Some((Graph(w[0], w[1], w[2], w[3], w[4], w[6..6 + w[1]], w[6 + w[1]..], []), w[5]))
  }

  lemma ParseOfGraph(g: Graph, pending: u16)
    requires GraphShape(g) && 1 <= g.used <= 80 && pending <= 10 && g.ages == []
    ensures ParseGraph(GraphPayload(g, pending)) == Some((g, pending))
  {
    hide Words16, ReadWords16, Triangle;
    ReadBackWords16(GraphWords(g, pending));
    var w := GraphWords(g, pending);
    assert w[6..6 + g.capacity] == g.order && w[6 + g.capacity..] == g.scores;
  }

  lemma GraphOfParse(data: Bytes)
    requires ParseGraph(data).Some?
    ensures var (g, pending) := ParseGraph(data).value;
            GraphShape(g) && 1 <= g.used <= 80 && g.ages == [] && GraphPayload(g, pending) == data
  {
    hide Words16, ReadWords16, Triangle;
    WriteBackWords16(data);
    var (g, pending) := ParseGraph(data).value;
    var w := ReadWords16(data);
    assert GraphWords(g, pending) == w;
  }

  // ----- The capture collection -----

  function PayloadOf(v: CaptureView): Bytes
    requires WellFormed(v, DEFAULT_FORMAT)
  {
    Payload(v, DEFAULT_FORMAT)
  }

  predicate AllWellFormed(captures: seq<CaptureView>) {
    forall v <- captures :: WellFormed(v, DEFAULT_FORMAT)
  }

  function CapturesSize(captures: seq<CaptureView>): nat
    requires AllWellFormed(captures)
  {
    if captures == [] then 0 else |PayloadOf(captures[0])| + 12 + CapturesSize(captures[1..])
  }

  function CaptureBlocks(captures: seq<CaptureView>, first: nat): (b: Bytes)
    requires AllWellFormed(captures) && CapturesSize(captures) <= MAX_TOTAL && first + |captures| <= 80
    ensures |b| == CapturesSize(captures)
  {
    if captures == [] then []
    else Block(TAG_CAPTURE + first, PayloadOf(captures[0])) + CaptureBlocks(captures[1..], first + 1)
  }

  function ReadCaptures(data: Bytes, n: nat, first: nat): Option<(seq<CaptureView>, Bytes)>
    requires first + n <= 80
    decreases n
  {
    if n == 0 then Some(([], data))
    else
      match OpenBlock(data, TAG_CAPTURE + first)
      case None => None
      case Some((payload, rest)) =>
        match Parse(payload, DEFAULT_FORMAT)
        case None => None
        case Some(v) =>
          match ReadCaptures(rest, n - 1, first + 1)
          case None => None
          case Some((more, end)) => Some(([v] + more, end))
  }

  lemma {:induction false} ReadBackCaptures(captures: seq<CaptureView>, first: nat, rest: Bytes)
    requires AllWellFormed(captures) && CapturesSize(captures) <= MAX_TOTAL && first + |captures| <= 80
    ensures ReadCaptures(CaptureBlocks(captures, first) + rest, |captures|, first) == Some((captures, rest))
    ensures Walk(CaptureBlocks(captures, first) + rest) == Walk(rest)
  {
    hide Block, OpenBlock, Payload, Parse, WellFormed, Walk;
    if captures == [] {
      assert CaptureBlocks(captures, first) + rest == rest;
    } else {
      var payload := PayloadOf(captures[0]);
      var more := CaptureBlocks(captures[1..], first + 1) + rest;
      assert CaptureBlocks(captures, first) + rest == Block(TAG_CAPTURE + first, payload) + more;
      OpenOfBlock(TAG_CAPTURE + first, payload, more);
      ParseOfPayload(captures[0], DEFAULT_FORMAT);
      ReadBackCaptures(captures[1..], first + 1, rest);
      assert [captures[0]] + captures[1..] == captures;
    }
  }

  lemma {:induction false} CapturesOfRead(data: Bytes, n: nat, first: nat)
    requires first + n <= 80 && |data| <= MAX_TOTAL && ReadCaptures(data, n, first).Some?
    ensures var (captures, rest) := ReadCaptures(data, n, first).value;
            && |captures| == n && AllWellFormed(captures) && CapturesSize(captures) <= |data|
            && data == CaptureBlocks(captures, first) + rest
    decreases n
  {
    hide Block, OpenBlock, Payload, Parse, WellFormed;
    if n > 0 {
      var (payload, next) := OpenBlock(data, TAG_CAPTURE + first).value;
      var v := Parse(payload, DEFAULT_FORMAT).value;
      var (more, rest) := ReadCaptures(next, n - 1, first + 1).value;
      BlockOfOpen(data, TAG_CAPTURE + first);
      PayloadOfParse(payload, DEFAULT_FORMAT);
      CapturesOfRead(next, n - 1, first + 1);
      var captures := [v] + more;
      assert captures[0] == v && captures[1..] == more;
      assert data == CaptureBlocks(captures, first) + rest;
    }
  }

  datatype Collection = Collection(captures: seq<CaptureView>, capacity: u32)

  predicate CollectionShape(c: Collection) {
    && 1 <= |c.captures| <= 80 && |c.captures| <= c.capacity <= 65535
    && AllWellFormed(c.captures) && CapturesSize(c.captures) <= MAX_TOTAL
  }

  function CollectionHead(c: Collection): (b: Bytes)
    requires |c.captures| <= 80
    ensures |b| == 12
  {
    Le32(DEFAULT_FLAGS) + Le32(|c.captures|) + Le32(c.capacity)
  }

  function CollectionBytes(c: Collection): Bytes
    requires CollectionShape(c)
  {
    Block(TAG_COLLECTION, CollectionHead(c)) + CaptureBlocks(c.captures, 0)
  }

  /** `fpc_collection_load_default`. */
  function ParseCollection(data: Bytes): Option<(Collection, Bytes)> {
    match OpenBlock(data, TAG_COLLECTION)
    case None => None
    case Some((head, rest)) =>
      if |head| != 12 || Word32(head, 0) != DEFAULT_FLAGS then None
      else
        var count, capacity := Word32(head, 4), Word32(head, 8);
        if count == 0 || count > 80 || count > capacity || capacity > 65535 then None
        else
          match ReadCaptures(rest, count, 0)
          case None => None
          case Some((captures, end)) => Some((Collection(captures, capacity), end))
  }

  lemma HeadWords(c: Collection)
    requires |c.captures| <= 80
    ensures var h := CollectionHead(c);
            Word32(h, 0) == DEFAULT_FLAGS && Word32(h, 4) == |c.captures| && Word32(h, 8) == c.capacity
  {
    hide Word32, Le32;
    var h := CollectionHead(c);
    assert h == Le32(DEFAULT_FLAGS) + h[4..] && h[4..] == Le32(|c.captures|) + h[8..] &&
           h[8..] == Le32(c.capacity) + [];
    Word32OfLe32(DEFAULT_FLAGS, h[4..]);
    Word32OfLe32(|c.captures|, h[8..]);
    Word32OfLe32(c.capacity, []);
    Word32Shift(h, 4);
    Word32Shift(h, 8);
  }

  lemma WordsOfHead(h: Bytes)
    requires |h| == 12
    ensures h == Le32(Word32(h, 0)) + Le32(Word32(h, 4)) + Le32(Word32(h, 8))
  {
    hide Word32, Le32;
    Le32OfWord32(h[0..4]);
    Le32OfWord32(h[4..8]);
    Le32OfWord32(h[8..12]);
    WordOfSlice(h, 0);
    WordOfSlice(h, 4);
    WordOfSlice(h, 8);
    assert h == h[0..4] + h[4..8] + h[8..12];
  }

  lemma ParseOfCollection(c: Collection, rest: Bytes)
    requires CollectionShape(c)
    ensures ParseCollection(CollectionBytes(c) + rest) == Some((c, rest))
    ensures Walk(CollectionBytes(c) + rest) == Walk(rest)
  {
    hide Block, OpenBlock, Walk, Word32, Le32, ReadCaptures, CaptureBlocks, WellFormed;
    var more := CaptureBlocks(c.captures, 0) + rest;
    assert CollectionBytes(c) + rest == Block(TAG_COLLECTION, CollectionHead(c)) + more;
    OpenOfBlock(TAG_COLLECTION, CollectionHead(c), more);
    HeadWords(c);
    ReadBackCaptures(c.captures, 0, rest);
  }

  lemma CollectionOfParse(data: Bytes)
    requires |data| <= MAX_TOTAL && ParseCollection(data).Some?
    ensures var (c, rest) := ParseCollection(data).value;
            CollectionShape(c) && data == CollectionBytes(c) + rest
  {
    hide Block, OpenBlock, Word32, Le32, ReadCaptures, CaptureBlocks, WellFormed;
    var (head, next) := OpenBlock(data, TAG_COLLECTION).value;
    BlockOfOpen(data, TAG_COLLECTION);
    CapturesOfRead(next, Word32(head, 4), 0);
    WordsOfHead(head);
    var (c, rest) := ParseCollection(data).value;
    assert data == CollectionBytes(c) + rest;
  }

  // ----- Templates -----

  datatype Template = Template(graph: Graph, collection: Collection, metadata: u16)

  function BareGraph(g: Graph): Graph {
    g.(ages := [])
  }

  function TemplateSize(t: Template): nat
    requires AllWellFormed(t.collection.captures)
  {
    24 + 12 + 2 * (6 + t.graph.capacity + Triangle(t.graph.capacity)) + 24 + CapturesSize(t.collection.captures)
    + 12 + 2 * |t.graph.ages|
  }

  /** What every loaded template satisfies, and what makes a template printable. */
  predicate WellFormedTemplate(t: Template, retention: u8) {
    && GraphShape(t.graph) && 1 <= t.graph.used == |t.collection.captures|
    && CollectionShape(t.collection)
    && 0 < retention == |t.graph.ages|
    && TemplateSize(t) <= MAX_TOTAL
  }

  function MetaPayload(t: Template): (b: Bytes)
    requires |t.collection.captures| <= 80
    ensures |b| == 4
  {
    Le16(t.metadata) + Le16(|t.collection.captures|)
  }

  function TemplateBody(t: Template, retention: u8): (b: Bytes)
    requires WellFormedTemplate(t, retention)
    ensures |b| == TemplateSize(t) - 8
  {
    Block(TAG_META, MetaPayload(t)) + (Block(TAG_GRAPH, GraphPayload(t.graph, 0)) +
    (CollectionBytes(t.collection) + Block(TAG_AGES, Words16(t.graph.ages))))
  }

  /** `fpc_template_serialize_default`. */
  function Print(t: Template, retention: u8): (b: Bytes)
    requires WellFormedTemplate(t, retention)
    ensures |b| == TemplateSize(t)
  {
    [26, 0, 0, 0] + Le32(TemplateSize(t)) + TemplateBody(t, retention)
  }

  function LoadMeta(data: Bytes): Option<(u16, u16, Bytes)> {
    match OpenBlock(data, TAG_META)
    case None => None
    case Some((meta, rest)) =>
      if |meta| != 4 || Word16(meta, 2) == 0 then None else Some((Word16(meta, 0), Word16(meta, 2), rest))
  }

  function LoadGraph(data: Bytes, count: u16): Option<(Graph, Bytes)> {
    match OpenBlock(data, TAG_GRAPH)
    case None => None
    case Some((payload, rest)) =>
      match ParseGraph(payload)
      case None => None
      case Some((graph, pending)) => if pending != 0 || graph.used != count then None else Some((graph, rest))
  }

  function LoadAges(data: Bytes, retention: u8): Option<seq<u16>> {
    match OpenBlock(data, TAG_AGES)
    case None => None
    case Some((ages, rest)) => if rest != [] || |ages| != 2 * retention then None else Some(ReadWords16(ages))
  }

  /** `fpc_template_load_default`, allocation failures aside. */
  function Load(data: Bytes, retention: u8): Option<Template> {
    if retention == 0 || !Validates(data) || data[..4] != [26, 0, 0, 0] then None
    else
      match LoadMeta(data[8..])
      case None => None
      case Some((metadata, count, r1)) =>
        match LoadGraph(r1, count)
        case None => None
        case Some((graph, r2)) =>
          match ParseCollection(r2)
          case None => None
          case Some((collection, r3)) =>
            if |collection.captures| != count then None
            else
              match LoadAges(r3, retention)
              case None => None
              case Some(ages) => Some(Template(graph.(ages := ages), collection, metadata))
  }

  lemma LoadOfMeta(t: Template, rest: Bytes)
    requires 1 <= |t.collection.captures| <= 80
    ensures LoadMeta(Block(TAG_META, MetaPayload(t)) + rest) == Some((t.metadata, |t.collection.captures|, rest))
    ensures Walk(Block(TAG_META, MetaPayload(t)) + rest) == Walk(rest)
  {
    hide Block, OpenBlock, Walk;
    OpenOfBlock(TAG_META, MetaPayload(t), rest);
    Word16OfLe16(t.metadata, Le16(|t.collection.captures|));
    assert Word16(MetaPayload(t), 2) == Word16(Le16(|t.collection.captures|), 0);
  }

  lemma LoadOfGraph(g: Graph, rest: Bytes)
    requires GraphShape(g) && 1 <= g.used <= 80 && 2 * (6 + g.capacity + Triangle(g.capacity)) <= MAX_TOTAL
    ensures |GraphPayload(g, 0)| + 12 < 0x1_0000_0000
    ensures LoadGraph(Block(TAG_GRAPH, GraphPayload(g, 0)) + rest, g.used) == Some((BareGraph(g), rest))
    ensures Walk(Block(TAG_GRAPH, GraphPayload(g, 0)) + rest) == Walk(rest)
  {
    hide Block, OpenBlock, Walk, Words16, ParseGraph, Triangle;
    OpenOfBlock(TAG_GRAPH, GraphPayload(g, 0), rest);
    assert GraphPayload(g, 0) == GraphPayload(BareGraph(g), 0);
    ParseOfGraph(BareGraph(g), 0);
  }

  lemma LoadOfAges(ages: seq<u16>, retention: u8)
    requires |ages| == retention
    ensures LoadAges(Block(TAG_AGES, Words16(ages)), retention) == Some(ages)
    ensures Walk(Block(TAG_AGES, Words16(ages)))
  {
    hide Block, OpenBlock, Words16, ReadWords16;
    assert Block(TAG_AGES, Words16(ages)) + [] == Block(TAG_AGES, Words16(ages));
    OpenOfBlock(TAG_AGES, Words16(ages), []);
    ReadBackWords16(ages);
  }

  /** Loading a printed template gives it back, through every layer. */
  lemma LoadOfPrint(t: Template, retention: u8)
    requires WellFormedTemplate(t, retention)
    ensures Load(Print(t, retention), retention) == Some(t)
  {
    hide Block, Walk, GraphPayload, CollectionBytes, Words16, LoadMeta, LoadGraph, ParseCollection, LoadAges, Word32,
         Triangle;
    var data := Print(t, retention);
    var b4 := Block(TAG_AGES, Words16(t.graph.ages));
    var b3 := CollectionBytes(t.collection) + b4;
    var b2 := Block(TAG_GRAPH, GraphPayload(t.graph, 0)) + b3;
    LoadOfMeta(t, b2);
    LoadOfGraph(t.graph, b3);
    ParseOfCollection(t.collection, b4);
    LoadOfAges(t.graph.ages, retention);
    assert data[..4] == [26, 0, 0, 0] && data[8..] == TemplateBody(t, retention);
    assert data[4..] == Le32(TemplateSize(t)) + data[8..];
    Word32OfLe32(TemplateSize(t), data[8..]);
    Word32Shift(data, 4);
    assert BareGraph(t.graph).(ages := t.graph.ages) == t.graph;
  }

  lemma MetaOfLoad(data: Bytes)
    requires LoadMeta(data).Some?
    ensures var (metadata, count, rest) := LoadMeta(data).value;
            count > 0 && data == Block(TAG_META, Le16(metadata) + Le16(count)) + rest
  {
    hide Block, OpenBlock;
    var (meta, rest) := OpenBlock(data, TAG_META).value;
    BlockOfOpen(data, TAG_META);
    Le16OfWord16(meta[..2]);
    Le16OfWord16(meta[2..]);
    assert meta == meta[..2] + meta[2..];
  }

  lemma GraphOfLoad(data: Bytes, count: u16)
    requires LoadGraph(data, count).Some?
    ensures var (g, rest) := LoadGraph(data, count).value;
            && GraphShape(g) && g.used == count && g.ages == [] && |GraphPayload(g, 0)| + 12 < 0x1_0000_0000
            && data == Block(TAG_GRAPH, GraphPayload(g, 0)) + rest
  {
    hide Block, OpenBlock, ParseGraph, GraphPayload;
    var (payload, rest) := OpenBlock(data, TAG_GRAPH).value;
    BlockOfOpen(data, TAG_GRAPH);
    GraphOfParse(payload);
  }

  lemma AgesOfLoad(data: Bytes, retention: u8)
    requires LoadAges(data, retention).Some?
    ensures var ages := LoadAges(data, retention).value;
            |ages| == retention && data == Block(TAG_AGES, Words16(ages))
  {
    hide Block, OpenBlock, Words16, ReadWords16;
    var (payload, rest) := OpenBlock(data, TAG_AGES).value;
    BlockOfOpen(data, TAG_AGES);
    WriteBackWords16(payload);
    assert Block(TAG_AGES, payload) + [] == Block(TAG_AGES, payload);
  }

  /** Printing a loaded template gives back exactly the accepted bytes. */
  lemma PrintOfLoad(data: Bytes, retention: u8)
    requires Load(data, retention).Some?
    ensures var t := Load(data, retention).value;
            WellFormedTemplate(t, retention) && Print(t, retention) == data
  {
    hide Block, Walk, CollectionBytes, Words16, LoadMeta, LoadGraph, ParseCollection, LoadAges, Word32, Triangle,
         AllWellFormed, CapturesSize, CaptureBlocks;
    var t := Load(data, retention).value;
    var (metadata, count, r1) := LoadMeta(data[8..]).value;
    var (graph, r2) := LoadGraph(r1, count).value;
    var (collection, r3) := ParseCollection(r2).value;
    MetaOfLoad(data[8..]);
    GraphOfLoad(r1, count);
    CollectionOfParse(r2);
    AgesOfLoad(r3, retention);
    assert GraphPayload(t.graph, 0) == GraphPayload(graph, 0);
    assert |CollectionBytes(collection)| == 24 + CapturesSize(collection.captures) by {
      CollectionSize(collection);
    }
    assert |r3| == 12 + 2 * retention;
    assert |GraphPayload(t.graph, 0)| == 2 * (6 + t.graph.capacity + Triangle(t.graph.capacity));
    assert |data| == TemplateSize(t);
    assert data[8..] == TemplateBody(t, retention);
    Le32OfWord32(data[4..8]);
    WordOfSlice(data, 4);
    assert data == data[..4] + data[4..8] + data[8..];
  }

  lemma CollectionSize(c: Collection)
    requires CollectionShape(c)
    ensures |CollectionBytes(c)| == 24 + CapturesSize(c.captures)
  {
  }

  /** The accepted byte strings are exactly the printed well-formed templates. */
  lemma AcceptedExactly(data: Bytes, retention: u8)
    requires retention > 0
    ensures Load(data, retention).Some? <==>
            exists t :: WellFormedTemplate(t, retention) && Print(t, retention) == data
  {
    hide Print, WellFormedTemplate;
    if Load(data, retention).Some? {
      PrintOfLoad(data, retention);
    }
    forall t | WellFormedTemplate(t, retention) && Print(t, retention) == data
      ensures Load(data, retention).Some?
    {
      LoadOfPrint(t, retention);
    }
  }

  // ----- Damage -----

  /** The walk over a finds the same length fields in b. */
  predicate SameFraming(a: Bytes, b: Bytes)
    requires Walk(a)
    decreases |a|
  {
    |a| == |b| && (a == [] || (Word32(b, 4) == Word32(a, 4) && SameFraming(a[Word32(a, 4)..], b[Word32(a, 4)..])))
  }

  /** One burst of up to four bytes that leaves the length fields alone is always caught by
      the walk, wherever it falls: in a tag, a payload, a checksum, or across two blocks. */
  lemma {:induction false} BurstStopsWalk(a: Bytes, b: Bytes, p: nat)
    requires Walk(a) && Walk(b) && SameFraming(a, b) && BurstAt(a, b, p)
    ensures a == b
    decreases |a|
  {
    hide Sealed, Word32;
    var length := Word32(a, 4);
    var a1, b1, a2, b2 := a[..length], b[..length], a[length..], b[length..];
    assert a == a1 + a2 && b == b1 + b2;
    if p + 4 <= length {
      assert BurstAt(a1, b1, p) by {
        assert a1[..p] == a[..p] && b1[..p] == b[..p];
        assert a1[p + 4..] == a[p + 4..][..length - p - 4] && b1[p + 4..] == b[p + 4..][..length - p - 4];
      }
      BurstBreaksSeal(a1, b1, p);
      assert a2 == a[p + 4..][length - p - 4..] && b2 == b[p + 4..][length - p - 4..];
    } else if p >= length {
      assert a1 == a[..p][..length] && b1 == b[..p][..length];
      assert BurstAt(a2, b2, p - length) by {
        assert a2[..p - length] == a[..p][length..] && b2[..p - length] == b[..p][length..];
        assert a2[p - length + 4..] == a[p + 4..] && b2[p - length + 4..] == b[p + 4..];
      }
      BurstStopsWalk(a2, b2, p - length);
    } else {
      assert BurstAt(a1, b1, length - 4) by {
        assert a1[..length - 4] == a[..p][..length - 4] && b1[..length - 4] == b[..p][..length - 4];
        assert a1[length..] == [] == b1[length..];
      }
      BurstBreaksSeal(a1, b1, length - 4);
      assert BurstAt(a2, b2, 0) by {
        assert a2[4..] == a[p + 4..][length - p..] && b2[4..] == b[p + 4..][length - p..];
      }
      BurstStopsWalk(a2, b2, 0);
    }
  }

  /** A valid template damaged by one such burst behind its header no longer validates. */
  lemma BurstFailsValidation(a: Bytes, b: Bytes, p: nat)
    requires Validates(a) && 8 <= p && BurstAt(a, b, p) && a != b && SameFraming(a[8..], b[8..])
    ensures !Validates(b)
  {
    hide Word32, Walk, SameFraming;
    if Validates(b) {
      assert BurstAt(a[8..], b[8..], p - 8) by {
        assert a[8..][..p - 8] == a[..p][8..] && b[8..][..p - 8] == b[..p][8..];
        assert a[8..][p - 4..] == a[p + 4..] && b[8..][p - 4..] == b[p + 4..];
      }
      BurstStopsWalk(a[8..], b[8..], p - 8);
    }
  }
}
