/** The codec's reading loops (`fpc_template_validate`, `checked_block`,
    `fpc_capture_load_payload`, `fpc_collection_load_default`, `fpc_template_load_default`), each
    against the function that specifies it; an allocation may fail anywhere. */
module TemplateReader {
  import opened Words
  import opened Bytes
  import opened Crc
  import opened CaptureCodec
  import opened TemplateCodec

  /** Malformed stands for the C status 140, NoMemory for 2. */
  datatype Loaded<T> = Ok(value: T) | Malformed | NoMemory

  // ----- Blocks -----

  lemma WordInSlice(data: Bytes, offset: nat, at: nat)
    requires offset + at + 4 <= |data|
    ensures Word32(data, offset + at) == Word32(data[offset..], at)
  {
  }

  method CheckSeal(data: Bytes, offset: nat, length: nat) returns (ok: bool)
    requires 12 <= length && offset + length <= |data|
    ensures ok == Sealed(data[offset..][..length])
  {
    hide Crc32, Window;
    var crc := ComputeCrc32(data[offset..offset + length - 4]);
    assert data[offset..][..length][..length - 4] == data[offset..offset + length - 4];
    assert data[offset..][..length][length - 4..] == data[offset + length - 4..offset + length];
    ok := crc == Window(data[offset + length - 4..offset + length]);
  }

  /** The walk over all blocks, and the header in front of it. */
  method Validate(data: Bytes) returns (ok: bool)
    ensures ok == Validates(data)
  {
    hide Sealed, Word32;
    if |data| < 8 || |data| > MAX_TOTAL || Word32(data, 4) != |data| {
      return false;
    }
    var offset := 8;
    while offset < |data|
      invariant 8 <= offset <= |data| && Walk(data[8..]) == Walk(data[offset..])
    {
      var remaining := |data| - offset;
      if remaining < 12 {
        return false;
      }
      WordInSlice(data, offset, 4);
      var length := Word32(data, offset + 4);
      if length < 12 || length > remaining {
        return false;
      }
      var sealed := CheckSeal(data, offset, length);
      if !sealed {
        return false;
      }
      assert data[offset..][length..] == data[offset + length..];
      offset := offset + length;
    }
    assert data[offset..] == [];
    return true;
  }

  /** `checked_block` at an offset: the block's length, if it is there. */
  method CheckedBlock(data: Bytes, offset: nat, tag: u32) returns (length: Option<nat>)
    requires offset <= |data|
    ensures match OpenBlock(data[offset..], tag)
            case None => length == None
            case Some((payload, rest)) =>
              && length.Some? && 12 <= length.value && offset + length.value <= |data|
              && payload == data[offset + 8..offset + length.value - 4] && rest == data[offset + length.value..]
  {
    hide Sealed, Word32;
    var size := |data| - offset;
    if size < 12 {
      return None;
    }
    WordInSlice(data, offset, 0);
    WordInSlice(data, offset, 4);
    if Word32(data, offset) != tag {
      return None;
    }
    var bytes := Word32(data, offset + 4);
    if bytes < 12 || bytes > size {
      return None;
    }
    var sealed := CheckSeal(data, offset, bytes);
    if !sealed {
      return None;
    }
    assert data[offset..][8..bytes - 4] == data[offset + 8..offset + bytes - 4];
    assert data[offset..][bytes..] == data[offset + bytes..];
    return Some(bytes);
  }

  // ----- Captures -----

  lemma {:induction false} RowsAdd(l: nat, n: nat, extra: nat)
    ensures RowsSize(l + n, extra) == RowsSize(l, extra) + RowsSize(n, extra)
  {
    if n > 0 {
      RowsAdd(l, n - 1, extra);
    }
  }

  lemma FirstCount(row: Bytes)
    requires |row| >= 10 && |row| % 2 == 0
    ensures ReadLevel(row).fields[0] == Word16(row, 0)
  {
    assert ReadWords16(row)[0] == Word16(row, 0);
  }

  lemma WordInFront(b: Bytes, row: nat)
    requires 2 <= row <= |b|
    ensures Word16(b[..row], 0) == Word16(b, 0)
  {
  }

  lemma WordInTail(b: Bytes, row: nat, at: nat)
    requires row + at + 2 <= |b|
    ensures Word16(b[row..], at) == Word16(b, row + at)
  {
  }

  /** The first word of row l is that level's count. */
  lemma {:induction false} CountInRow(b: Bytes, n: nat, extra: nat, l: nat)
    requires |b| == RowsSize(n, extra) && l < n
    ensures RowsSize(l, extra) + RowSize(extra) <= |b|
    ensures ReadLevels(b, n, extra)[l].fields[0] == Word16(b, RowsSize(l, extra))
    decreases n
  {
    hide ReadWords16, ReadLevel, Word16;
    RowsAdd(l, n - l, extra);
    RowsAdd(1, n - l - 1, extra);
    var row := RowSize(extra);
    var levels := ReadLevels(b, n, extra);
    if l == 0 {
      FirstCount(b[..row]);
      WordInFront(b, row);
    } else {
      RowsAdd(1, l - 1, extra);
      CountInRow(b[row..], n - 1, extra, l - 1);
      assert levels[1..] == ReadLevels(b[row..], n - 1, extra);
      WordInTail(b, row, RowsSize(l - 1, extra));
    }
  }

  lemma {:induction false} SumAppend(a: seq<Level>, l: Level)
    requires (forall x <- a :: |x.fields| == 5) && |l.fields| == 5
    ensures (forall x <- a + [l] :: |x.fields| == 5) && LevelSum(a + [l]) == LevelSum(a) + l.fields[0]
  {
    if a == [] {
      assert [l][1..] == [];
    } else {
      assert (a + [l])[1..] == a[1..] + [l];
      SumAppend(a[1..], l);
    }
  }

  /** The loop over the level rows: no count above 32767, and the counts add up to n. */
  method CheckLevels(b: Bytes, levels: nat, extra: nat, n: nat) returns (ok: bool)
    requires |b| == RowsSize(levels, extra)
    ensures ok == CountsFit(ReadLevels(b, levels, extra), n)
  {
    hide RowsSize, ReadLevels, Word16;
    ghost var rows := ReadLevels(b, levels, extra);
    var sum: nat, offset: nat := 0, 0;
    assert rows[..0] == [];
    StartOfRows(extra);
    for l := 0 to levels
      invariant offset == RowsSize(l, extra) && sum == LevelSum(rows[..l])
      invariant forall k | 0 <= k < l :: rows[k].fields[0] <= 32767
    {
      CountInRow(b, levels, extra, l);
      RowSizes(l, extra);
      var count: nat := Word16(b, offset);
      assert rows[l] in rows;
      if count > 32767 {
        return false;
      }
      assert rows[..l + 1] == rows[..l] + [rows[l]];
      SumAppend(rows[..l], rows[l]);
      sum := sum + count;
      offset := offset + 2 * (5 + extra);
    }
    assert rows[..levels] == rows;
    return sum == n;
  }

  lemma StartOfRows(extra: nat)
    ensures RowsSize(0, extra) == 0
  {
  }

  lemma RowSizes(l: nat, extra: nat)
    ensures RowsSize(l + 1, extra) == RowsSize(l, extra) + 2 * (5 + extra) && RowSize(extra) >= 10
  {
  }

  lemma PartsReady(data: Bytes, n: nat, f: Format)
    requires |data| >= 8
    requires var sizes := PartSizes(n, data[5], data[6], data[7], f); |data| == 8 + Total(sizes)
    ensures var parts := Split(data[8..], PartSizes(n, data[5], data[6], data[7], f));
            && |parts| == 7 && |parts[0]| == RowsSize(data[6], ExtraWords(data[7]))
            && |parts[2]| % 4 == |parts[3]| % 4 == |parts[4]| % 4 == 0
  {
    hide Split, Total, RowsSize;
    WholeWords(n);
  }

  lemma ParseInSteps(data: Bytes, f: Format)
    requires f.full && |data| >= 8 && Word32(data, 0) <= 32767
    requires |data| == 8 + Total(PartSizes(Word32(data, 0), data[5], data[6], data[7], f))
    ensures var n := Word32(data, 0);
            var parts := Split(data[8..], PartSizes(n, data[5], data[6], data[7], f));
            && |parts| == 7 && |parts[0]| == RowsSize(data[6], ExtraWords(data[7]))
            && |parts[2]| % 4 == |parts[3]| % 4 == |parts[4]| % 4 == 0
            && var fit := CountsFit(ReadLevels(parts[0], data[6], ExtraWords(data[7])), n);
            Parse(data, f) == if fit then Some(Assemble(data, parts, n)) else None
  {
    hide Split, Total, RowsSize, ReadLevels, CountsFit, ReadWords32, PartSizes, Word32;
    PartsReady(data, Word32(data, 0), f);
  }

  lemma ParseRefuses(data: Bytes, f: Format)
    ensures |data| < 4 ==> Parse(data, f) == None
    ensures |data| >= 4 && Word32(data, 0) > 32767 ==> Parse(data, f) == None
    ensures |data| >= 4 && Word32(data, 0) <= 32767 && !f.full ==>
              Parse(data, f) == if |data| != 4 then None else Some(Bare(Word32(data, 0)))
    ensures 4 <= |data| < 8 && f.full ==> Parse(data, f) == None
    ensures f.full && |data| >= 8 && |data| != 8 + Total(PartSizes(Word32(data, 0), data[5], data[6], data[7], f)) ==>
              Parse(data, f) == None
  {
    hide Split, Total, RowsSize, ReadLevels, CountsFit, ReadWords32, PartSizes, Word32;
  }

  /** `fpc_capture_load_payload`. */
  method LoadCapture(data: Bytes, f: Format, memory: bool) returns (v: Loaded<CaptureView>)
    ensures v == match Parse(data, f)
                 case None => Malformed
                 case Some(view) => if memory || !f.full then Ok(view) else NoMemory
  {
    hide Split, Total, RowsSize, ReadLevels, Word32, CountsFit, ReadWords32, PartSizes, Parse, Assemble;
    ParseRefuses(data, f);
    if |data| < 4 {
      return Malformed;
    }
    var n := Word32(data, 0);
    if n > 32767 {
      return Malformed;
    }
    if !f.full {
      return if |data| != 4 then Malformed else Ok(Bare(n));
    }
    if |data| < 8 {
      return Malformed;
    }
    var sizes := PartSizes(n, data[5], data[6], data[7], f);
    if |data| != 8 + Total(sizes) {
      return Malformed;
    }
    ParseInSteps(data, f);
    var parts := Split(data[8..], sizes);
    var fits := CheckLevels(parts[0], data[6], ExtraWords(data[7]), n);
    if !fits {
      return Malformed;
    }
    if !memory {
      return NoMemory;
    }
    return Ok(Assemble(data, parts, n));
  }

  // ----- Collections and templates -----

  /** The capture loop of `fpc_collection_load_default`, from an offset on. */
  method LoadCaptures(data: Bytes, start: nat, count: nat, memory: nat -> bool)
    returns (captures: Loaded<seq<CaptureView>>, end: nat)
    requires start <= |data| && count <= 80
    ensures end <= |data|
    ensures captures.Ok? ==> ReadCaptures(data[start..], count, 0) == Some((captures.value, data[end..]))
    ensures captures.Malformed? ==> ReadCaptures(data[start..], count, 0) == None
    ensures captures.NoMemory? ==> exists k: nat :: !memory(k)
  {
    hide OpenBlock, Parse;
    var done: seq<CaptureView> := [];
    end := start;
    assert DEFAULT_FORMAT.full;
    BehindNothing(ReadCaptures(data[start..], count, 0));
    for i := 0 to count
      invariant |done| == i && start <= end <= |data|
      invariant ReadCaptures(data[start..], count, 0) == Behind(done, ReadCaptures(data[end..], count - i, i))
    {
      var length := CheckedBlock(data, end, TAG_CAPTURE + i);
      if length.None? {
        return Malformed, end;
      }
      var v := LoadCapture(data[end + 8..end + length.value - 4], DEFAULT_FORMAT, memory(i));
      if !v.Ok? {
        return if v.Malformed? then Malformed else NoMemory, end;
      }
      BehindStep(done, v.value, ReadCaptures(data[end + length.value..], count - i - 1, i + 1));
      done := done + [v.value];
      end := end + length.value;
    }
    assert done + [] == done;
    return Ok(done), end;
  }

  lemma BehindNothing(more: Option<(seq<CaptureView>, Bytes)>)
    ensures Behind([], more) == more
  {
    match more
    case None =>
    case Some((captures, rest)) => assert [] + captures == captures;
  }

  /** A reading with captures read before it. */
  function Behind(done: seq<CaptureView>, more: Option<(seq<CaptureView>, Bytes)>): Option<(seq<CaptureView>, Bytes)> {
    match more
    case None => None
    case Some((captures, rest)) => Some((done + captures, rest))
  }

  lemma BehindStep(done: seq<CaptureView>, v: CaptureView, more: Option<(seq<CaptureView>, Bytes)>)
    ensures Behind(done + [v], more) ==
            match more
            case None => None
            case Some((captures, rest)) => Some((done + ([v] + captures), rest))
  {
    match more
    case None =>
    case Some((captures, rest)) => assert (done + [v]) + captures == done + ([v] + captures);
  }

  method LoadCollection(data: Bytes, start: nat, memory: nat -> bool) returns (c: Loaded<Collection>, end: nat)
    requires start <= |data|
    ensures end <= |data|
    ensures c.Ok? ==> ParseCollection(data[start..]) == Some((c.value, data[end..]))
    ensures c.Malformed? ==> ParseCollection(data[start..]) == None
    ensures c.NoMemory? ==> exists k: nat :: !memory(k)
  {
    hide OpenBlock, ReadCaptures, Word32;
    end := start;
    var length := CheckedBlock(data, start, TAG_COLLECTION);
    if length.None? || length.value != 24 {
      return Malformed, end;
    }
    var head := data[start + 8..start + 20];
    if Word32(head, 0) != DEFAULT_FLAGS {
      return Malformed, end;
    }
    var count, capacity := Word32(head, 4), Word32(head, 8);
    if count == 0 || count > 80 || count > capacity || capacity > 65535 {
      return Malformed, end;
    }
    if !memory(0) {
      return NoMemory, end;
    }
    var captures;
    captures, end := LoadCaptures(data, start + 24, count, (k: nat) => memory(k + 1));
    match captures
    case Ok(cs) => return Ok(Collection(cs, capacity)), end;
    case Malformed => return Malformed, end;
    case NoMemory => return NoMemory, end;
  }

  /** `fpc_template_load_default`: succeeds exactly on what `Load` accepts, memory permitting. */
  method LoadTemplate(data: Bytes, retention: u8, memory: (nat, nat) -> bool) returns (t: Loaded<Template>)
    ensures t.Ok? ==> Load(data, retention) == Some(t.value)
    ensures t.Malformed? ==> Load(data, retention) == None
    ensures (forall i, k :: memory(i, k)) ==> !t.NoMemory?
  {
    hide OpenBlock, Word32, Walk, ParseGraph, ParseCollection, ReadWords16, LoadMeta, LoadGraph, LoadAges, Word16;
    var valid := Validate(data);
    if retention == 0 || !valid || data[..4] != [26, 0, 0, 0] {
      return Malformed;
    }
    var meta := ReadMeta(data);
    if meta.None? {
      return Malformed;
    }
    var (metadata, count, offset) := meta.value;
    var graph;
    graph, offset := ReadGraph(data, offset, count, memory(0, 0));
    if !graph.Ok? {
      return if graph.Malformed? then Malformed else NoMemory;
    }
    var collection;
    collection, offset := LoadCollection(data, offset, (k: nat) => memory(1, k));
    if !collection.Ok? {
      return if collection.Malformed? then Malformed else NoMemory;
    }
    if |collection.value.captures| != count {
      return Malformed;
    }
    var ages := ReadAges(data, offset, retention, memory(2, 0));
    match ages
    case Ok(values) => return Ok(Template(graph.value.(ages := values), collection.value, metadata));
    case Malformed => return Malformed;
    case NoMemory => return NoMemory;
  }

  method ReadMeta(data: Bytes) returns (meta: Option<(u16, u16, nat)>)
    requires |data| >= 8
    ensures match LoadMeta(data[8..])
            case None => meta == None
            case Some((metadata, count, rest)) =>
              meta.Some? && meta.value.0 == metadata && meta.value.1 == count && meta.value.2 <= |data| &&
                  rest == data[meta.value.2..]
  {
    hide OpenBlock, Word16;
    var length := CheckedBlock(data, 8, TAG_META);
    if length.None? || length.value != 16 {
      return None;
    }
    var payload := data[16..20];
    return if Word16(payload, 2) == 0 then None else Some((Word16(payload, 0), Word16(payload, 2), 24));
  }

  method ReadGraph(data: Bytes, start: nat, count: u16, memory: bool) returns (graph: Loaded<Graph>, end: nat)
    requires start <= |data|
    ensures end <= |data|
    ensures graph.Ok? ==> LoadGraph(data[start..], count) == Some((graph.value, data[end..]))
    ensures graph.Malformed? ==> LoadGraph(data[start..], count) == None
    ensures graph.NoMemory? ==> !memory
  {
    hide OpenBlock, ParseGraph;
    end := start;
    var length := CheckedBlock(data, start, TAG_GRAPH);
    if length.None? {
      return Malformed, end;
    }
    var parsed := ParseGraph(data[start + 8..start + length.value - 4]);
    if parsed.None? {
      return Malformed, end;
    }
    if !memory {
      return NoMemory, end;
    }
    if parsed.value.1 != 0 || parsed.value.0.used != count {
      return Malformed, end;
    }
    return Ok(parsed.value.0), start + length.value;
  }

  method ReadAges(data: Bytes, start: nat, retention: u8, memory: bool) returns (ages: Loaded<seq<u16>>)
    requires start <= |data|
    ensures ages.Ok? ==> LoadAges(data[start..], retention) == Some(ages.value)
    ensures ages.Malformed? ==> LoadAges(data[start..], retention) == None
    ensures ages.NoMemory? ==> !memory
  {
    hide OpenBlock, Word16;
    var length := CheckedBlock(data, start, TAG_AGES);
    if length.None? || start + length.value != |data| || length.value - 12 != 2 * retention {
      return Malformed;
    }
    if !memory {
      return NoMemory;
    }
    var values := new u16[retention](_ => 0);
    var payload := data[start + 8..start + length.value - 4];
    for i := 0 to retention as int
      invariant forall k | 0 <= k < i :: values[k] == Word16(payload, 2 * k)
    {
      values[i] := Word16(payload, 2 * i);
    }
    assert values[..] == ReadWords16(payload);
    return Ok(values[..]);
  }
}
