/** Little-endian words over byte strings, as all native payloads use them. */
module Bytes {
  import opened Words

  type Bytes = seq<u8>

  datatype Option<T> = None | Some(value: T)

  function Le16(v: u16): (b: Bytes)
    ensures |b| == 2
  {
    [v % 256, v / 256]
  }

  function Le32(v: u32): (b: Bytes)
    ensures |b| == 4
  {
    [v % 256, v / 256 % 256, v / 65536 % 256, v / 16777216]
  }

  function Word16(b: Bytes, at: nat): u16
    requires at + 2 <= |b|
  {
    (b[at] as int) + 256 * (b[at + 1] as int)
  }

  function Word32(b: Bytes, at: nat): u32
    requires at + 4 <= |b|
  {
    (b[at] as int) + 256 * (b[at + 1] as int) + 65536 * (b[at + 2] as int) + 16777216 * (b[at + 3] as int)
  }

  lemma Word16OfLe16(v: u16, rest: Bytes)
    ensures Word16(Le16(v) + rest, 0) == v
  {
  }

  lemma Word32OfLe32(v: u32, rest: Bytes)
    ensures Word32(Le32(v) + rest, 0) == v
  {
    assert v / 65536 == v / 65536 % 256 + 256 * (v / 65536 / 256) && v / 65536 / 256 == v / 16777216;
    assert v / 256 == v / 256 % 256 + 256 * (v / 256 / 256) && v / 256 / 256 == v / 65536;
  }

  lemma Le16OfWord16(b: Bytes)
    requires |b| == 2
    ensures Le16(Word16(b, 0)) == b
  {
  }

  lemma Le32OfWord32(b: Bytes)
    requires |b| == 4
    ensures Le32(Word32(b, 0)) == b
  {
    var b1, b2, b3: int := b[1], b[2], b[3];
    var v := Word32(b, 0);
    assert v / 256 == b1 + 256 * b2 + 65536 * b3;
    assert v / 65536 == b2 + 256 * b3;
  }

  // ----- Arrays of words -----

  function Words16(ws: seq<u16>): (b: Bytes)
    ensures |b| == 2 * |ws|
  {
    seq(2 * |ws|, i requires 0 <= i < 2 * |ws| => if i % 2 == 0 then ws[i / 2] % 256 else ws[i / 2] / 256)
  }

  function ReadWords16(b: Bytes): (ws: seq<u16>)
    requires |b| % 2 == 0
    ensures |ws| == |b| / 2
  {
    seq(|b| / 2, i requires 0 <= i < |b| / 2 => Word16(b, 2 * i))
  }

  lemma Pick16(ws: seq<u16>, i: nat)
    requires i < |ws|
    ensures Words16(ws)[2 * i] == ws[i] % 256 && Words16(ws)[2 * i + 1] == ws[i] / 256
  {
    assert (2 * i) / 2 == i && (2 * i + 1) / 2 == i && (2 * i) % 2 == 0 && (2 * i + 1) % 2 == 1;
  }

  lemma ReadBackWords16(ws: seq<u16>)
    ensures ReadWords16(Words16(ws)) == ws
  {
    forall i | 0 <= i < |ws| ensures ReadWords16(Words16(ws))[i] == ws[i] {
      Pick16(ws, i);
      Word16OfLe16(ws[i], []);
    }
  }

  lemma WriteBackWords16(b: Bytes)
    requires |b| % 2 == 0
    ensures Words16(ReadWords16(b)) == b
  {
    forall i | 0 <= i < |b| ensures Words16(ReadWords16(b))[i] == b[i] {
      var low, high: int := b[2 * (i / 2)], b[2 * (i / 2) + 1];
      assert ReadWords16(b)[i / 2] == low + 256 * high;
    }
  }

  /** Byte k of a 32-bit word. */
  function Lane(v: u32, k: nat): u8
    requires k < 4
  {
    if k == 0 then v % 256 else if k == 1 then v / 256 % 256 else if k == 2 then v / 65536 % 256 else v / 16777216
  }

  function Words32(ws: seq<u32>): (b: Bytes)
    ensures |b| == 4 * |ws|
  {
    seq(4 * |ws|, i requires 0 <= i < 4 * |ws| => Lane(ws[i / 4], i % 4))
  }

  function ReadWords32(b: Bytes): (ws: seq<u32>)
    requires |b| % 4 == 0
    ensures |ws| == |b| / 4
  {
    seq(|b| / 4, i requires 0 <= i < |b| / 4 => Word32(b, 4 * i))
  }

  lemma Pick32(ws: seq<u32>, i: nat)
    requires i < |ws|
    ensures Words32(ws)[4 * i] == Lane(ws[i], 0) && Words32(ws)[4 * i + 1] == Lane(ws[i], 1)
    ensures Words32(ws)[4 * i + 2] == Lane(ws[i], 2) && Words32(ws)[4 * i + 3] == Lane(ws[i], 3)
  {
    hide Lane;
    assert (4 * i) / 4 == i && (4 * i + 1) / 4 == i && (4 * i + 2) / 4 == i && (4 * i + 3) / 4 == i;
    assert (4 * i) % 4 == 0 && (4 * i + 1) % 4 == 1 && (4 * i + 2) % 4 == 2 && (4 * i + 3) % 4 == 3;
  }

  lemma WordOfLanes(b: Bytes, at: nat, v: u32)
    requires at + 4 <= |b|
    requires b[at] == Lane(v, 0) && b[at + 1] == Lane(v, 1) && b[at + 2] == Lane(v, 2) && b[at + 3] == Lane(v, 3)
    ensures Word32(b, at) == v
  {
    Word32OfLe32(v, []);
    assert Le32(v) + [] == Le32(v);
  }

  lemma ReadBackWords32(ws: seq<u32>)
    ensures ReadWords32(Words32(ws)) == ws
  {
    hide Words32, Lane, Word32;
    forall i | 0 <= i < |ws| ensures ReadWords32(Words32(ws))[i] == ws[i] {
      Pick32(ws, i);
      WordOfLanes(Words32(ws), 4 * i, ws[i]);
    }
  }

  lemma WriteBackWords32(b: Bytes)
    requires |b| % 4 == 0
    ensures Words32(ReadWords32(b)) == b
  {
    forall i | 0 <= i < |b| ensures Words32(ReadWords32(b))[i] == b[i] {
      var at := 4 * (i / 4);
      Le32OfWord32(b[at..at + 4]);
      assert Word32(b, at) == Word32(b[at..at + 4], 0);
      assert Lane(Word32(b, at), i % 4) == Le32(Word32(b, at))[i % 4];
    }
  }

  // ----- Fixed-size parts -----

  function Total(sizes: seq<nat>): nat {
    if sizes == [] then 0 else sizes[0] + Total(sizes[1..])
  }

  lemma TotalOfSeven(s: seq<nat>)
    requires |s| == 7
    ensures Total(s) == s[0] + s[1] + s[2] + s[3] + s[4] + s[5] + s[6]
  {
    var s2, s4, s6 := s[1..][1..], s[1..][1..][1..][1..], s[1..][1..][1..][1..][1..][1..];
    assert s6 == [s[6]] && Total(s6) == s[6];
    assert Total(s4) == s[4] + s[5] + Total(s6);
    assert Total(s2) == s[2] + s[3] + Total(s4);
  }

  function Sizes(parts: seq<Bytes>): (sizes: seq<nat>)
    ensures |sizes| == |parts| && forall i | 0 <= i < |parts| :: sizes[i] == |parts[i]|
  {
    seq(|parts|, i requires 0 <= i < |parts| => |parts[i]|)
  }

  function Join(parts: seq<Bytes>): Bytes {
    if parts == [] then [] else parts[0] + Join(parts[1..])
  }

  /** Cuts a byte string into parts of the given sizes. */
  function Split(b: Bytes, sizes: seq<nat>): (parts: seq<Bytes>)
    requires |b| == Total(sizes)
    ensures |parts| == |sizes| && forall i | 0 <= i < |sizes| :: |parts[i]| == sizes[i]
    decreases |sizes|
  {
    if sizes == [] then [] else [b[..sizes[0]]] + Split(b[sizes[0]..], sizes[1..])
  }

  lemma {:induction false} SplitOfJoin(parts: seq<Bytes>)
    ensures |Join(parts)| == Total(Sizes(parts)) && Split(Join(parts), Sizes(parts)) == parts
  {
    if parts != [] {
      SplitOfJoin(parts[1..]);
      assert Sizes(parts)[1..] == Sizes(parts[1..]);
      SplitFront(parts[0], Join(parts[1..]));
    }
  }

  lemma {:induction false} JoinOfSplit(b: Bytes, sizes: seq<nat>)
    requires |b| == Total(sizes)
    ensures Join(Split(b, sizes)) == b
    decreases |sizes|
  {
    if sizes != [] {
      JoinOfSplit(b[sizes[0]..], sizes[1..]);
      assert Split(b, sizes)[1..] == Split(b[sizes[0]..], sizes[1..]);
    }
  }

  /** Taking a known-length part off the front of a concatenation. */
  lemma SplitFront(a: Bytes, b: Bytes)
    ensures (a + b)[..|a|] == a && (a + b)[|a|..] == b
  {
  }
}
