/** The codec's loops: writing templates into a buffer, walking and loading them from one
    (`fpc_template_serialize_default`, `fpc_template_validate`, `fpc_template_load_default` and the
    payload writers below them), each against the function that specifies it. */
module TemplateBuffers {
  import opened Words
  import opened Bytes
  import opened Crc
  import opened CaptureCodec
  import opened TemplateCodec

  // ----- Writing at an offset -----

  method Put(out: array<u8>, at: nat, b: Bytes)
    requires at + |b| <= out.Length
    modifies out
    ensures out[..at + |b|] == old(out[..at]) + b
  {
    for i := 0 to |b|
      invariant forall k | 0 <= k < at :: out[k] == old(out[k])
      invariant forall k | 0 <= k < i :: out[at + k] == b[k]
    {
      out[at + i] := b[i];
    }
  }

  /** Tag and length of a block whose payload takes `size` bytes. */
  method BeginBlock(out: array<u8>, at: nat, tag: u32, size: nat)
    requires at + size + 12 <= out.Length && size + 12 < 0x1_0000_0000
    modifies out
    ensures out[..at + 8] == old(out[..at]) + (Le32(tag) + Le32(size + 12))
  {
    hide Le32;
    ghost var before := out[..at];
    Put(out, at, Le32(tag));
    Put(out, at + 4, Le32(size + 12));
    assert before + Le32(tag) + Le32(size + 12) == before + (Le32(tag) + Le32(size + 12));
  }

  /** The checksum over what was written since `BeginBlock`. */
  method EndBlock(out: array<u8>, at: nat, tag: u32, size: nat, ghost before: Bytes, ghost payload: Bytes)
    requires at + size + 12 <= out.Length && size + 12 < 0x1_0000_0000 && |payload| == size && |before| == at
    requires out[..at + 8 + size] == before + (Le32(tag) + Le32(size + 12)) + payload
    modifies out
    ensures out[..at + size + 12] == before + Block(tag, payload)
  {
    hide Le32, Crc32;
    ghost var body := Le32(tag) + Le32(size + 12) + payload;
    assert out[..at + 8 + size] == before + body;
    assert out[at..at + 8 + size] == out[..at + 8 + size][at..] == body;
    var crc := ComputeCrc32(out[at..at + 8 + size]);
    Put(out, at + 8 + size, Le32(crc as int));
    assert before + body + Le32(crc as int) == before + (body + Le32(crc as int));
  }

  // ----- Captures -----

  lemma JoinStep(p: seq<Bytes>, i: nat)
    requires i < |p|
    ensures Join(p[i..]) == p[i] + Join(p[i + 1..])
  {
    assert p[i..][1..] == p[i + 1..];
  }

  /** Parts put one after another behind a header are the header and the joined parts. */
  lemma {:induction false} AppendedParts(start: Bytes, p: seq<Bytes>, i: nat)
    requires i <= |p|
    ensures Appended(start, p, i) + Join(p[i..]) == start + Join(p)
  {
    if i == 0 {
      assert p[0..] == p;
    } else {
      AppendedParts(start, p, i - 1);
      JoinStep(p, i - 1);
      assert Appended(start, p, i - 1) + (p[i - 1] + Join(p[i..])) == Appended(start, p, i) + Join(p[i..]);
    }
  }

  function Appended(start: Bytes, p: seq<Bytes>, i: nat): Bytes
    requires i <= |p|
  {
    if i == 0 then start else Appended(start, p, i - 1) + p[i - 1]
  }

  lemma PayloadIsAppended(before: Bytes, v: CaptureView, f: Format)
    requires f.full && v.count <= 32767 && |v.levels| < 256 && Sized(v, f)
    ensures Appended(before + Header(v), Parts(v), 7) == before + Payload(v, f)
  {
    hide Header, LevelBytes, Words32, Sized, Appended;
    AppendedParts(before + Header(v), Parts(v), 7);
    assert Parts(v)[7..] == [];
    assert before + Header(v) + Join(Parts(v)) == before + (Header(v) + Join(Parts(v)));
  }

  /** Each part keeps the total below the payload's size. */
  lemma {:induction false} PartsFit(start: Bytes, p: seq<Bytes>, i: nat)
    requires i <= |p|
    ensures |Appended(start, p, i)| <= |Appended(start, p, |p|)|
    decreases |p| - i
  {
    if i < |p| {
      PartsFit(start, p, i + 1);
    }
  }

  lemma {:induction false} LevelBytesAppend(a: seq<Level>, l: Level)
    ensures LevelBytes(a + [l]) == LevelBytes(a) + Words16(l.fields + l.extra)
  {
    hide Words16;
    if a == [] {
      assert [l][1..] == [];
    } else {
      assert (a + [l])[1..] == a[1..] + [l];
      LevelBytesAppend(a[1..], l);
    }
  }

  /** Writes the level rows one after another. */
  method PutLevels(out: array<u8>, at: nat, levels: seq<Level>)
    requires at + |LevelBytes(levels)| <= out.Length
    modifies out
    ensures out[..at + |LevelBytes(levels)|] == old(out[..at]) + LevelBytes(levels)
  {
    hide Words16;
    ghost var before := out[..at];
    var offset := at;
    for i := 0 to |levels|
      invariant offset == at + |LevelBytes(levels[..i])| && at <= offset <= out.Length
      invariant out[..offset] == before + LevelBytes(levels[..i])
    {
      assert levels[..i + 1] == levels[..i] + [levels[i]];
      LevelBytesAppend(levels[..i], levels[i]);
      LevelPrefix(levels, i + 1);
      Put(out, offset, Words16(levels[i].fields + levels[i].extra));
      offset := offset + |Words16(levels[i].fields + levels[i].extra)|;
    }
    assert levels[..|levels|] == levels;
  }

  lemma {:induction false} LevelPrefix(levels: seq<Level>, n: nat)
    requires n <= |levels|
    ensures |LevelBytes(levels[..n])| <= |LevelBytes(levels)|
    decreases |levels| - n
  {
    hide Words16;
    if n == |levels| {
      assert levels[..n] == levels;
    } else {
      assert levels[..n + 1] == levels[..n] + [levels[n]];
      LevelBytesAppend(levels[..n], levels[n]);
      LevelPrefix(levels, n + 1);
    }
  }

  /** The parts from the second on, each behind the ones before it. */
  method PutParts(out: array<u8>, at: nat, ghost start: Bytes, p: seq<Bytes>)
    requires |p| >= 1 && at == |Appended(start, p, 1)| && |Appended(start, p, |p|)| <= out.Length
    requires at <= out.Length && out[..at] == Appended(start, p, 1)
    modifies out
    ensures out[..|Appended(start, p, |p|)|] == Appended(start, p, |p|)
  {
    var offset := at;
    for i := 1 to |p|
      invariant offset == |Appended(start, p, i)| <= out.Length && out[..offset] == Appended(start, p, i)
    {
      PartsFit(start, p, i + 1);
      Put(out, offset, p[i]);
      offset := offset + |p[i]|;
    }
  }

  /** `fpc_capture_payload` at an offset of a larger buffer: header, level rows, then coordinates,
      scores, angles, descriptors and membership. */
  method PutCapture(out: array<u8>, at: nat, v: CaptureView, f: Format)
    requires v.count <= 32767 && (f.full ==> Sized(v, f)) && at + |Payload(v, f)| <= out.Length
    modifies out
    ensures out[..at + |Payload(v, f)|] == old(out[..at]) + Payload(v, f)
  {
    hide Le32, Words32, LevelBytes, Payload, Join, Header, Appended;
    if !f.full {
      BarePayload(v, f);
      Put(out, at, Le32(v.count));
      return;
    }
    var p := Parts(v);
    ghost var start := out[..at] + Header(v);
    PayloadIsAppended(out[..at], v, f);
    PartsFit(start, p, 1);
    StartOfParts(start, p);
    Put(out, at, Header(v));
    PutLevels(out, at + 8, v.levels);
    PutParts(out, at + 8 + |LevelBytes(v.levels)|, start, p);
  }

  lemma BarePayload(v: CaptureView, f: Format)
    requires v.count <= 32767 && !f.full
    ensures Payload(v, f) == Le32(v.count)
  {
  }

  lemma StartOfParts(start: Bytes, p: seq<Bytes>)
    requires |p| == 7
    ensures Appended(start, p, 0) == start && Appended(start, p, 1) == start + p[0]
  {
  }

  lemma {:induction false} BlocksAppend(a: seq<CaptureView>, v: CaptureView, first: nat)
    requires AllWellFormed(a + [v]) && CapturesSize(a + [v]) <= MAX_TOTAL && first + |a| + 1 <= 80
    ensures AllWellFormed(a) && WellFormed(v, DEFAULT_FORMAT) && |PayloadOf(v)| + 12 < 0x1_0000_0000
    ensures CapturesSize(a + [v]) == CapturesSize(a) + |PayloadOf(v)| + 12
    ensures CaptureBlocks(a + [v], first) == CaptureBlocks(a, first) + Block(TAG_CAPTURE + first + |a|, PayloadOf(v))
  {
    hide WellFormed, Payload, Block;
    assert (a + [v])[|a|] == v && forall c <- a :: c in a + [v];
    if a == [] {
      assert [v][1..] == [];
    } else {
      assert (a + [v])[1..] == a[1..] + [v];
      BlocksAppend(a[1..], v, first + 1);
      var b0, last := Block(TAG_CAPTURE + first, PayloadOf(a[0])), Block(TAG_CAPTURE + first + |a|, PayloadOf(v));
      var middle := CaptureBlocks(a[1..], first + 1);
      assert b0 + (middle + last) == (b0 + middle) + last;
    }
  }

  lemma {:induction false} SizesGrow(cs: seq<CaptureView>, n: nat)
    requires AllWellFormed(cs) && n <= |cs|
    ensures AllWellFormed(cs[..n]) && CapturesSize(cs[..n]) <= CapturesSize(cs)
  {
    hide WellFormed, Payload;
    if n > 0 {
      assert cs[..n][1..] == cs[1..][..n - 1] && cs[..n][0] == cs[0];
      SizesGrow(cs[1..], n - 1);
    }
  }

  /** One capture as a block at an offset. */
  method PutCaptureBlock(out: array<u8>, at: nat, tag: u32, v: CaptureView)
    requires WellFormed(v, DEFAULT_FORMAT) && |PayloadOf(v)| + 12 < 0x1_0000_0000 &&
             at + |PayloadOf(v)| + 12 <= out.Length
    modifies out
    ensures out[..at + |PayloadOf(v)| + 12] == old(out[..at]) + Block(tag, PayloadOf(v))
  {
    hide Le32, Payload, WellFormed, Block;
    ghost var before := out[..at];
    var size := |PayloadOf(v)|;
    BeginBlock(out, at, tag, size);
    WellFormedIsSized(v);
    PutCapture(out, at + 8, v, DEFAULT_FORMAT);
    EndBlock(out, at, tag, size, before, PayloadOf(v));
  }

  /** `fpc_collection_serialize_default` at an offset. */
  method PutCollection(out: array<u8>, at: nat, c: Collection)
    requires CollectionShape(c) && at + 24 + CapturesSize(c.captures) <= out.Length
    modifies out
    ensures out[..at + 24 + CapturesSize(c.captures)] == old(out[..at]) + CollectionBytes(c)
  {
    hide Le32, Payload, WellFormed, Block, CaptureBlocks, AllWellFormed, CapturesSize, CollectionHead;
    ghost var before := out[..at];
    BeginBlock(out, at, TAG_COLLECTION, 12);
    Put(out, at + 8, CollectionHead(c));
    EndBlock(out, at, TAG_COLLECTION, 12, before, CollectionHead(c));
    ghost var start := before + Block(TAG_COLLECTION, CollectionHead(c));
    var offset := at + 24;
    NoBlocks(c.captures);
    for i := 0 to |c.captures|
      invariant AllWellFormed(c.captures[..i]) && CapturesSize(c.captures[..i]) <= CapturesSize(c.captures)
      invariant offset == at + 24 + CapturesSize(c.captures[..i])
      invariant out[..offset] == start + CaptureBlocks(c.captures[..i], 0)
    {
      var v := c.captures[i];
      SizesGrow(c.captures, i + 1);
      assert c.captures[..i + 1] == c.captures[..i] + [v];
      BlocksAppend(c.captures[..i], v, 0);
      PutCaptureBlock(out, offset, TAG_CAPTURE + i, v);
      offset := offset + |PayloadOf(v)| + 12;
    }
    assert c.captures[..|c.captures|] == c.captures;
  }

  lemma NoBlocks(cs: seq<CaptureView>)
    ensures cs[..0] == [] && AllWellFormed([]) && CapturesSize([]) == 0 && CaptureBlocks([], 0) == []
  {
  }

  lemma WellFormedIsSized(v: CaptureView)
    requires WellFormed(v, DEFAULT_FORMAT)
    ensures v.count <= 32767 && (DEFAULT_FORMAT.full ==> Sized(v, DEFAULT_FORMAT))
  {
  }

  // ----- The retained graph and the template -----

  /** `fpc_retained_graph_payload` at an offset: the header, order and score words in one loop. */
  method PutGraph(out: array<u8>, at: nat, g: Graph, pending: u16)
    requires GraphShape(g) && at + |GraphPayload(g, pending)| <= out.Length
    modifies out
    ensures out[..at + |GraphPayload(g, pending)|] == old(out[..at]) + GraphPayload(g, pending)
  {
    hide Triangle;
    var header := [g.used, g.capacity, g.protectedCount, g.protectedLimit, g.ageThreshold, pending];
    ghost var words, before := GraphWords(g, pending), out[..at];
    for i := 0 to 6 + g.capacity + |g.scores|
      invariant forall k | 0 <= k < at :: out[k] == before[k]
      invariant forall k: nat | k < i :: out[at + 2 * k] == words[k] % 256 && out[at + 2 * k + 1] == words[k] / 256
    {
      var value := if i < 6 then header[i]
                   else if i < 6 + g.capacity then g.order[i - 6]
                   else g.scores[i - 6 - g.capacity];
      assert value == words[i];
      out[at + 2 * i] := value % 256;
      out[at + 2 * i + 1] := value / 256;
    }
    WordsInPlace(out[..], at, words, before);
  }

  lemma WordsInPlace(b: Bytes, at: nat, words: seq<u16>, before: Bytes)
    requires |before| == at && at + 2 * |words| <= |b| && forall k | 0 <= k < at :: b[k] == before[k]
    requires forall k: nat | k < |words| :: b[at + 2 * k] == words[k] % 256 && b[at + 2 * k + 1] == words[k] / 256
    ensures b[..at + 2 * |words|] == before + Words16(words)
  {
    forall j | 0 <= j < 2 * |words| ensures b[at + j] == Words16(words)[j] {
      var k := j / 2;
      assert j == 2 * k || j == 2 * k + 1;
    }
  }

  /** The ages written with `retention` entries, whatever more there are. */
  function Cut(t: Template, retention: u8): Template
    requires retention <= |t.graph.ages|
  {
    t.(graph := t.graph.(ages := t.graph.ages[..retention]))
  }

  /** What serializing refuses beyond the shapes of its arguments. */
  predicate Serializable(t: Template, retention: u8)
    requires GraphShape(t.graph) && AllWellFormed(t.collection.captures)
  {
    && t.graph.used > 0 && t.graph.used == |t.collection.captures| <= 80 &&
        |t.collection.captures| <= t.collection.capacity
    && 0 < retention <= |t.graph.ages|
    && TemplateSize(Cut(t, retention)) <= MAX_TOTAL
  }

  lemma CutIsWellFormed(t: Template, retention: u8)
    requires GraphShape(t.graph) && AllWellFormed(t.collection.captures) && Serializable(t, retention)
    requires t.collection.capacity <= 65535
    ensures WellFormedTemplate(Cut(t, retention), retention)
  {
    hide AllWellFormed, CapturesSize, Triangle;
  }

  /** `fpc_template_serialize_default`: refuses, or fills the buffer with the printed template. */
  method Serialize(t: Template, retention: u8, out: array<u8>) returns (status: int, written: nat)
    requires GraphShape(t.graph) && AllWellFormed(t.collection.captures) && t.collection.capacity <= 65535
    modifies out
    ensures status == 0 <==> Serializable(t, retention) && TemplateSize(Cut(t, retention)) <= out.Length
    ensures status == 0 ==> WellFormedTemplate(Cut(t, retention), retention)
    ensures status == 0 ==> written <= out.Length && out[..written] == Print(Cut(t, retention), retention)
    ensures status != 0 ==> status == -1 && out[..] == old(out[..])
  {
    hide AllWellFormed, CapturesSize, Triangle, Le32, Block, CollectionBytes, GraphPayload, Words16, CollectionShape,
         GraphShape;
    written := 0;
    if !Serializable(t, retention) {
      return -1, written;
    }
    CutIsWellFormed(t, retention);
    var c := Cut(t, retention);
    var total := TemplateSize(c);
    if out.Length < total {
      return -1, written;
    }
    written := total;
    PutTemplate(out, c, retention);
    return 0, written;
  }

  /** A block whose payload is at hand. */
  method PutBlock(out: array<u8>, at: nat, tag: u32, payload: Bytes)
    requires |payload| + 12 < 0x1_0000_0000 && at + |payload| + 12 <= out.Length
    modifies out
    ensures out[..at + |payload| + 12] == old(out[..at]) + Block(tag, payload)
  {
    hide Le32, Block;
    ghost var before := out[..at];
    BeginBlock(out, at, tag, |payload|);
    Put(out, at + 8, payload);
    EndBlock(out, at, tag, |payload|, before, payload);
  }

  method PutGraphBlock(out: array<u8>, at: nat, g: Graph)
    requires GraphShape(g) && |GraphPayload(g, 0)| + 12 < 0x1_0000_0000 && at + |GraphPayload(g, 0)| + 12 <= out.Length
    modifies out
    ensures out[..at + |GraphPayload(g, 0)| + 12] == old(out[..at]) + Block(TAG_GRAPH, GraphPayload(g, 0))
  {
    hide Le32, Block, GraphPayload;
    ghost var before := out[..at];
    var size := |GraphPayload(g, 0)|;
    BeginBlock(out, at, TAG_GRAPH, size);
    PutGraph(out, at + 8, g, 0);
    EndBlock(out, at, TAG_GRAPH, size, before, GraphPayload(g, 0));
  }

  method PutTemplate(out: array<u8>, t: Template, retention: u8)
    requires WellFormedTemplate(t, retention) && TemplateSize(t) <= out.Length
    modifies out
    ensures out[..TemplateSize(t)] == Print(t, retention)
  {
    hide AllWellFormed, CapturesSize, Triangle, Le32, Block, CollectionBytes, GraphPayload, Words16, MetaPayload;
    Sizes(t);
    Put(out, 0, [26, 0, 0, 0]);
    Put(out, 4, Le32(TemplateSize(t)));
    PutBlock(out, 8, TAG_META, MetaPayload(t));
    PutGraphBlock(out, 24, t.graph);
    var at := 36 + |GraphPayload(t.graph, 0)|;
    PutCollection(out, at, t.collection);
    at := at + 24 + CapturesSize(t.collection.captures);
    PutBlock(out, at, TAG_AGES, Words16(t.graph.ages));
    Regroup([26, 0, 0, 0] + Le32(TemplateSize(t)), Block(TAG_META, MetaPayload(t)),
            Block(TAG_GRAPH, GraphPayload(t.graph, 0)),
            CollectionBytes(t.collection), Block(TAG_AGES, Words16(t.graph.ages)));
  }

  lemma Sizes(t: Template)
    requires GraphShape(t.graph) && CollectionShape(t.collection)
    ensures |GraphPayload(t.graph, 0)| == 2 * (6 + t.graph.capacity + Triangle(t.graph.capacity))
    ensures |CollectionBytes(t.collection)| == 24 + CapturesSize(t.collection.captures)
  {
    hide Triangle, CapturesSize, AllWellFormed, Block;
  }

  lemma Regroup(a: Bytes, b: Bytes, c: Bytes, d: Bytes, e: Bytes)
    ensures a + b + c + d + e == a + (b + (c + (d + e)))
  {
  }
}
