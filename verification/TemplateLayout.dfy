/** Where things lie in a stored template and in the record file, in numbers
    (`fpc_template_serialize_default`, `fpc_collection_serialize_default`, `FingerprintStorage::save`). */
module TemplateLayout {
  import opened Words
  import opened Bytes
  import opened Crc
  import opened CaptureCodec
  import opened TemplateCodec
  import StoreCodec

  /** The number two bytes store, least significant first. */
  function Two(b: Bytes, at: nat): nat
    requires at + 2 <= |b|
  {
    (b[at] as int) + 256 * (b[at + 1] as int)
  }

  function Four(b: Bytes, at: nat): nat
    requires at + 4 <= |b|
  {
    (b[at] as int) + 256 * (b[at + 1] as int) + 65536 * (b[at + 2] as int) + 16777216 * (b[at + 3] as int)
  }

  lemma FourAt(front: Bytes, v: u32, back: Bytes)
    ensures Four(front + Le32(v) + back, |front|) == v
  {
    hide Le32;
    var b := front + Le32(v) + back;
    assert b[|front|..] == Le32(v) + back;
    Word32OfLe32(v, back);
    assert Four(b, |front|) == Word32(b[|front|..], 0);
  }

  lemma TwoAt(front: Bytes, v: u16, back: Bytes)
    ensures Two(front + Le16(v) + back, |front|) == v
  {
    hide Le16;
    var b := front + Le16(v) + back;
    assert b[|front|..] == Le16(v) + back;
    Word16OfLe16(v, back);
    assert Two(b, |front|) == Word16(b[|front|..], 0);
  }

  /** A block inside a buffer: tag, length, payload, checksum of what comes before it. */
  predicate HasBlock(b: Bytes, at: nat, tag: nat, payload: Bytes) {
    && at + |payload| + 12 <= |b|
    && Four(b, at) == tag && Four(b, at + 4) == |payload| + 12
    && b[at + 8..at + 8 + |payload|] == payload
    && Four(b, at + 8 + |payload|) == Crc32(b[at..at + 8 + |payload|]) as int
  }

  /** A length and that many bytes. */
  lemma FieldLies(front: Bytes, w: u32, body: Bytes, back: Bytes)
    ensures var b, at := front + Le32(w) + body + back, |front|;
            Four(b, at) == w && b[at + 4..at + 4 + |body|] == body
  {
    hide Le32, Four;
    FourAt(front, w, body + back);
    assert front + Le32(w) + body + back == front + Le32(w) + (body + back);
  }

  lemma BlockCuts(front: Bytes, t: Bytes, n: Bytes, payload: Bytes, sum: Bytes, back: Bytes)
    ensures front + (t + n + payload + sum) + back == front + t + [] + (n + payload + sum + back)
    ensures front + (t + n + payload + sum) + back == (front + t) + n + payload + (sum + back)
    ensures front + (t + n + payload + sum) + back == (front + t + n + payload) + sum + [] + back
    ensures var b := front + (t + n + payload + sum) + back;
            |t| + |n| + |payload| + |front| <= |b| && b[|front|..|front| + |t| + |n| + |payload|] == t + n + payload
  {
  }

  lemma BlockLies(front: Bytes, tag: u32, payload: Bytes, back: Bytes)
    requires |payload| + 12 < 0x1_0000_0000
    ensures HasBlock(front + Block(tag, payload) + back, |front|, tag, payload)
  {
    hide Le32, Crc32, Four;
    var t, n := Le32(tag), Le32(|payload| + 12);
    var sum := Crc32(t + n + payload) as int;
    assert Block(tag, payload) == t + n + payload + Le32(sum);
    BlockCuts(front, t, n, payload, Le32(sum), back);
    FieldLies(front, tag, [], n + payload + Le32(sum) + back);
    FieldLies(front + t, |payload| + 12, payload, Le32(sum) + back);
    FieldLies(front + t + n + payload, sum, [], back);
  }

  /** Words of a payload, two bytes each. */
  predicate StoresWords(payload: Bytes, words: seq<u16>) {
    |payload| == 2 * |words| && forall i: nat | i < |words| :: Two(payload, 2 * i) == words[i]
  }

  lemma WordsAreStored(words: seq<u16>)
    ensures StoresWords(Words16(words), words)
  {
    forall i: nat | i < |words| ensures Two(Words16(words), 2 * i) == words[i] {
    }
  }

  ghost predicate HasMeta(b: Bytes, at: nat, t: Template) {
    exists meta: Bytes ::
      && |meta| == 4 && HasBlock(b, at, 305398016, meta)
      && Two(meta, 0) == t.metadata && Two(meta, 2) == |t.collection.captures|
  }

  ghost predicate HasGraph(b: Bytes, at: nat, g: Graph) {
    exists graph: Bytes ::
      && HasBlock(b, at, 305398528, graph)
      && StoresWords(graph, [g.used, g.capacity, g.protectedCount, g.protectedLimit, g.ageThreshold, 0]
                            + g.order + g.scores)
  }

  ghost predicate HasCollection(b: Bytes, at: nat, c: Collection) {
    exists head: Bytes ::
      && |head| == 12 && HasBlock(b, at, 1540161792, head)
      && Four(head, 0) == 0xce1 && Four(head, 4) == |c.captures| && Four(head, 8) == c.capacity
  }

  ghost predicate HasAges(b: Bytes, at: nat, ages: seq<u16>) {
    exists payload: Bytes :: HasBlock(b, at, 305398784, payload) && StoresWords(payload, ages)
  }

  /** The four parts of a template behind its eight bytes of head; the collection starts behind the
      graph's words, the ages are last. */
  ghost predicate LaidOut(b: Bytes, t: Template, collection: nat, ages: nat) {
    && |b| >= 8 && b[..4] == [26, 0, 0, 0] && Four(b, 4) == |b|
    && HasMeta(b, 8, t) && HasGraph(b, 24, t.graph) && HasCollection(b, collection, t.collection)
    && HasAges(b, ages, t.graph.ages)
  }

  lemma MetaLies(t: Template)
    requires |t.collection.captures| <= 80
    ensures var meta := MetaPayload(t); Two(meta, 0) == t.metadata && Two(meta, 2) == |t.collection.captures|
  {
    hide Le16, Two;
    TwoAt([], t.metadata, Le16(|t.collection.captures|));
    TwoAt(Le16(t.metadata), |t.collection.captures|, []);
    assert [] + Le16(t.metadata) + Le16(|t.collection.captures|) == MetaPayload(t);
    assert Le16(t.metadata) + Le16(|t.collection.captures|) + [] == MetaPayload(t);
  }

  lemma HeadLies(c: Collection)
    requires |c.captures| <= 80
    ensures var head := CollectionHead(c);
            Four(head, 0) == 0xce1 && Four(head, 4) == |c.captures| && Four(head, 8) == c.capacity
  {
    hide Le32, Four;
    var n := |c.captures|;
    FourAt([], 0xce1, Le32(n) + Le32(c.capacity));
    FourAt(Le32(0xce1), n, Le32(c.capacity));
    FourAt(Le32(0xce1) + Le32(n), c.capacity, []);
    assert [] + Le32(0xce1) + (Le32(n) + Le32(c.capacity)) == CollectionHead(c);
    assert Le32(0xce1) + Le32(n) + Le32(c.capacity) == CollectionHead(c);
    assert Le32(0xce1) + Le32(n) + Le32(c.capacity) + [] == CollectionHead(c);
  }

  lemma MetaIsThere(front: Bytes, t: Template, back: Bytes)
    requires |t.collection.captures| <= 80
    ensures HasMeta(front + Block(TAG_META, MetaPayload(t)) + back, |front|, t)
  {
    hide Block, HasBlock, Two, MetaPayload;
    BlockLies(front, 305398016, MetaPayload(t), back);
    MetaLies(t);
  }

  lemma GraphIsThere(front: Bytes, g: Graph, back: Bytes)
    requires |GraphPayload(g, 0)| + 12 < 0x1_0000_0000
    ensures HasGraph(front + Block(TAG_GRAPH, GraphPayload(g, 0)) + back, |front|, g)
  {
    hide Block, HasBlock, StoresWords, Words16;
    BlockLies(front, 305398528, GraphPayload(g, 0), back);
    WordsAreStored(GraphWords(g, 0));
  }

  lemma CollectionIsThere(front: Bytes, c: Collection, back: Bytes)
    requires |c.captures| <= 80
    ensures HasCollection(front + Block(TAG_COLLECTION, CollectionHead(c)) + back, |front|, c)
  {
    hide Block, HasBlock, Four, CollectionHead;
    BlockLies(front, 1540161792, CollectionHead(c), back);
    HeadLies(c);
  }

  lemma AgesAreThere(front: Bytes, ages: seq<u16>)
    requires 2 * |ages| + 12 < 0x1_0000_0000
    ensures HasAges(front + Block(TAG_AGES, Words16(ages)), |front|, ages)
  {
    hide Block, HasBlock, StoresWords, Words16;
    BlockLies(front, 305398784, Words16(ages), []);
    assert front + Block(305398784, Words16(ages)) + [] == front + Block(TAG_AGES, Words16(ages));
    WordsAreStored(ages);
  }

  /** Five parts in a row, cut in front of each. */
  lemma Cuts(h: Bytes, m: Bytes, g: Bytes, f: Bytes, c: Bytes, a: Bytes)
    ensures h + (m + (g + ((f + c) + a))) == h + m + (g + ((f + c) + a))
    ensures h + (m + (g + ((f + c) + a))) == (h + m) + g + ((f + c) + a)
    ensures h + (m + (g + ((f + c) + a))) == (h + m + g) + f + (c + a)
    ensures h + (m + (g + ((f + c) + a))) == (h + m + g + f + c) + a
  {
  }

  /** A printed template lies like that. */
  lemma PrintLies(t: Template, retention: u8)
    requires WellFormedTemplate(t, retention)
    ensures var b, cap: nat := Print(t, retention), t.graph.capacity;
            |b| >= 12 + 2 * retention && LaidOut(b, t, 48 + 2 * cap + 2 * Triangle(cap), |b| - 12 - 2 * retention)
  {
    hide Block, Le32, Triangle, Words16, CapturesSize, CaptureBlocks, AllWellFormed, CollectionHead, MetaPayload, Print,
         GraphPayload, HasMeta, HasGraph, HasCollection, HasAges, Four, TemplateSize, CollectionBytes;
    PrintIs(t, retention);
    GraphSize(t.graph);
    var h, m := [26, 0, 0, 0] + Le32(TemplateSize(t)), Block(TAG_META, MetaPayload(t));
    var g, f := Block(TAG_GRAPH, GraphPayload(t.graph, 0)), Block(TAG_COLLECTION, CollectionHead(t.collection));
    var c, a := CaptureBlocks(t.collection.captures, 0), Block(TAG_AGES, Words16(t.graph.ages));
    Cuts(h, m, g, f, c, a);
    FourAt([26, 0, 0, 0], TemplateSize(t), m + (g + ((f + c) + a)));
    HeadComesFirst(t, h, m + (g + ((f + c) + a)));
    MetaIsThere(h, t, g + ((f + c) + a));
    GraphIsThere(h + m, t.graph, (f + c) + a);
    CollectionIsThere(h + m + g, t.collection, c + a);
    AgesAreThere(h + m + g + f + c, t.graph.ages);
  }

  lemma PrintIs(t: Template, retention: u8)
    requires WellFormedTemplate(t, retention)
    ensures |t.collection.captures| <= 80 && AllWellFormed(t.collection.captures) && |t.graph.ages| == retention
    ensures TemplateSize(t) <= MAX_TOTAL && CapturesSize(t.collection.captures) <= MAX_TOTAL
    ensures |GraphPayload(t.graph, 0)| + 12 < 0x1_0000_0000
    ensures var h, m := [26, 0, 0, 0] + Le32(TemplateSize(t)), Block(TAG_META, MetaPayload(t));
            var g, f := Block(TAG_GRAPH, GraphPayload(t.graph, 0)), Block(TAG_COLLECTION, CollectionHead(t.collection));
            var c, a := CaptureBlocks(t.collection.captures, 0), Block(TAG_AGES, Words16(t.graph.ages));
            && Print(t, retention) == h + (m + (g + ((f + c) + a))) && |Print(t, retention)| == TemplateSize(t)
            && |h| == 8 && |m| == 16 && |g| == |GraphPayload(t.graph, 0)| + 12 && |a| == 12 + 2 * retention
  {
    hide Block, Le32, Triangle, Words16, CapturesSize, CaptureBlocks, AllWellFormed, CollectionHead;
    GraphSize(t.graph);
  }

  lemma HeadComesFirst(t: Template, h: Bytes, rest: Bytes)
    requires AllWellFormed(t.collection.captures) && TemplateSize(t) <= MAX_TOTAL
    requires h == [26, 0, 0, 0] + Le32(TemplateSize(t))
    ensures (h + rest)[..4] == [26, 0, 0, 0] && h + rest == [26, 0, 0, 0] + Le32(TemplateSize(t)) + rest
  {
    hide TemplateSize;
  }

  lemma GraphSize(g: Graph)
    requires GraphShape(g)
    ensures |GraphPayload(g, 0)| == 2 * (6 + g.capacity + Triangle(g.capacity))
  {
    hide Triangle;
  }

  /** Captures follow one another, tagged in order, each as long as its payload and twelve. */
  lemma CaptureLies(captures: seq<CaptureView>, first: nat, rest: Bytes)
    requires AllWellFormed(captures) && CapturesSize(captures) <= MAX_TOTAL && first + |captures| <= 80
    requires captures != []
    ensures WellFormed(captures[0], DEFAULT_FORMAT) && AllWellFormed(captures[1..]) &&
            CapturesSize(captures[1..]) <= MAX_TOTAL
    ensures var b, payload := CaptureBlocks(captures, first) + rest, PayloadOf(captures[0]);
            && HasBlock(b, 0, 1540162048 + first, payload)
            && b[|payload| + 12..] == CaptureBlocks(captures[1..], first + 1) + rest
  {
    hide Block, HasBlock, Payload, WellFormed;
    var payload := PayloadOf(captures[0]);
    var block := Block(1540162048 + first, payload);
    BlockLies([], 1540162048 + first, payload, CaptureBlocks(captures[1..], first + 1) + rest);
    assert [] + block + (CaptureBlocks(captures[1..], first + 1) + rest) == CaptureBlocks(captures, first) + rest;
  }

  // ----- The record file -----

  /** Format version, features, width, height, template version, sensor and number of records. */
  lemma FileHead(list: seq<StoreCodec.Fingerprint>, hardware: u16)
    requires |list| <= 1000 && forall f <- list :: StoreCodec.Printable(f)
    ensures var b := StoreCodec.Encode(list, hardware);
            && |b| >= 28 && Four(b, 0) == 1 && Four(b, 4) == 300 && Four(b, 8) == 112 && Four(b, 12) == 88
            && Four(b, 16) == 26 && Four(b, 20) == hardware && Four(b, 24) == |list|
            && b[28..] == StoreCodec.RecordsBytes(list)
  {
    hide Le32, Four, StoreCodec.RecordsBytes;
    var w := StoreCodec.Profile(hardware);
    var back := Le32(|list|) + StoreCodec.RecordsBytes(list);
    var b := StoreCodec.Encode(list, hardware);
    SixWords(w);
    assert b == Le32(w[0]) + Le32(w[1]) + Le32(w[2]) + Le32(w[3]) + Le32(w[4]) + Le32(w[5]) + back;
    FourAt([], w[0], Le32(w[1]) + Le32(w[2]) + Le32(w[3]) + Le32(w[4]) + Le32(w[5]) + back);
    assert b == [] + Le32(w[0]) + (Le32(w[1]) + Le32(w[2]) + Le32(w[3]) + Le32(w[4]) + Le32(w[5]) + back);
    var p1 := Le32(w[0]);
    FourAt(p1, w[1], Le32(w[2]) + Le32(w[3]) + Le32(w[4]) + Le32(w[5]) + back);
    assert b == p1 + Le32(w[1]) + (Le32(w[2]) + Le32(w[3]) + Le32(w[4]) + Le32(w[5]) + back);
    var p2 := p1 + Le32(w[1]);
    FourAt(p2, w[2], Le32(w[3]) + Le32(w[4]) + Le32(w[5]) + back);
    assert b == p2 + Le32(w[2]) + (Le32(w[3]) + Le32(w[4]) + Le32(w[5]) + back);
    var p3 := p2 + Le32(w[2]);
    FourAt(p3, w[3], Le32(w[4]) + Le32(w[5]) + back);
    assert b == p3 + Le32(w[3]) + (Le32(w[4]) + Le32(w[5]) + back);
    var p4 := p3 + Le32(w[3]);
    FourAt(p4, w[4], Le32(w[5]) + back);
    assert b == p4 + Le32(w[4]) + (Le32(w[5]) + back);
    var p5 := p4 + Le32(w[4]);
    FourAt(p5, w[5], back);
    assert b == p5 + Le32(w[5]) + back;
    var p6 := p5 + Le32(w[5]);
    FourAt(p6, |list|, StoreCodec.RecordsBytes(list));
    assert b == p6 + Le32(|list|) + StoreCodec.RecordsBytes(list);
  }

  lemma SixWords(w: seq<u32>)
    requires |w| == 6
    ensures StoreCodec.WordsBytes(w) == Le32(w[0]) + Le32(w[1]) + Le32(w[2]) + Le32(w[3]) + Le32(w[4]) + Le32(w[5])
  {
    hide Le32;
    var w1, w2, w3 := w[1..], w[1..][1..], w[1..][1..][1..];
    var w4, w5 := w3[1..], w3[1..][1..];
    assert w5[1..] == [] && StoreCodec.WordsBytes(w5[1..]) == [];
    assert StoreCodec.WordsBytes(w5) == Le32(w[5]) + [];
    assert StoreCodec.WordsBytes(w4) == Le32(w[4]) + StoreCodec.WordsBytes(w5);
    assert StoreCodec.WordsBytes(w3) == Le32(w[3]) + StoreCodec.WordsBytes(w4);
    assert StoreCodec.WordsBytes(w2) == Le32(w[2]) + StoreCodec.WordsBytes(w3);
    assert StoreCodec.WordsBytes(w1) == Le32(w[1]) + StoreCodec.WordsBytes(w2);
  }

  lemma RecordCuts(r: Bytes, lu: Bytes, u: Bytes, ln: Bytes, n: Bytes, lt: Bytes, t: Bytes, rest: Bytes)
    ensures (r + ((lu + u) + ((ln + n) + (lt + t)))) + rest == [] + r + [] + (lu + u + ln + n + lt + t + rest)
    ensures (r + ((lu + u) + ((ln + n) + (lt + t)))) + rest == r + lu + u + (ln + n + lt + t + rest)
    ensures (r + ((lu + u) + ((ln + n) + (lt + t)))) + rest == (r + lu + u) + ln + n + (lt + t + rest)
    ensures (r + ((lu + u) + ((ln + n) + (lt + t)))) + rest == (r + lu + u + ln + n) + lt + t + rest
  {
  }

  /** One record: registration, user, name and template, each with its length before it. */
  lemma RecordLies(f: StoreCodec.Fingerprint, rest: Bytes)
    requires StoreCodec.Printable(f)
    ensures var b := StoreCodec.RecordBytes(f) + rest;
            var name := 8 + |f.user|;
            var native := name + 4 + |f.name|;
            && 1 <= |f.user| <= 256 && 1 <= |f.name| <= 256 && |f.native| <= 200000 && 0 !in f.user && 0 !in f.name
            && |b| == native + 4 + |f.native| + |rest|
            && Four(b, 0) == f.registration
            && Four(b, 4) == |f.user| && b[8..name] == f.user
            && Four(b, name) == |f.name| && b[name + 4..native] == f.name
            && Four(b, native) == |f.native| && b[native + 4..native + 4 + |f.native|] == f.native
  {
    hide Le32, Four;
    var r, lu, u := Le32(f.registration), Le32(|f.user|), f.user;
    var ln, n, lt, t := Le32(|f.name|), f.name, Le32(|f.native|), f.native;
    RecordCuts(r, lu, u, ln, n, lt, t, rest);
    FieldLies([], f.registration, [], lu + u + ln + n + lt + t + rest);
    FieldLies(r, |f.user|, u, ln + n + lt + t + rest);
    FieldLies(r + lu + u, |f.name|, n, lt + t + rest);
    FieldLies(r + lu + u + ln + n, |f.native|, t, rest);
  }
}
