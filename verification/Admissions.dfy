/** What the operations accept, in numbers: argument checks of the matcher, the projector, the
    grouping, the serializer and the record file. */
module Admissions {
  import opened Words
  import opened Bytes
  import opened CaptureCodec
  import opened TemplateCodec
  import StoreCodec
  import Storage
  import TemplateBuffers
  import TemplateLayout
  import Identification
  import Descriptors
  import Grouping
  import GroupSelection

  // ----- Matching -----

  /** A capture can be compared when its one level counts all its features, they carry 16-byte
      descriptors of mode 1, and nothing is missing. */
  lemma ComparableExactly(v: CaptureView)
    requires Identification.Shaped(v)
    ensures Identification.Profile300(v) <==>
              && |v.levels| == 1 && v.levels[0].fields[0] == v.count <= 32767 && v.mode == 1 && v.descriptorBytes == 16
              && (v.count == 0 || (|v.compact| == 2 * v.count && |v.descriptors| == 16 * v.count))
  {
    if |v.levels| == 1 {
      assert v.levels[0] in v.levels && v.levels[1..] == [] && LevelSum([]) == 0;
      assert LevelSum(v.levels) == v.levels[0].fields[0];
    }
  }

  /** A descriptor is computed for a patch and an even number of bytes from 2 to 16, with half as
      many projections of each pixel as there are bits. */
  lemma DescribableExactly(weights: Descriptors.Weights, patch: seq<u8>, bytes: nat)
    ensures Descriptors.Describable(weights, patch, bytes) <==>
              && |patch| > 0 && bytes in {2, 4, 6, 8, 10, 12, 14, 16} && |weights| == |patch|
              && forall i | 0 <= i < |weights| :: |weights[i]| == 4 * bytes
  {
    if bytes % 2 == 0 {
      assert 8 * (bytes / 2) == 4 * bytes;
      assert (forall row <- weights :: |row| == 4 * bytes) <==>
             (forall i | 0 <= i < |weights| :: |weights[i]| == 4 * bytes);
    }
  }

  /** Captures are grouped when there are 1 to 32767 of them and a record for every pair. */
  lemma GroupableExactly(ms: seq<Grouping.CaptureMatch>, count: nat)
    ensures GroupSelection.Accepted(ms, count) <==> 1 <= count <= 32767 && count * (count - 1) <= 2 * |ms|
  {
    TwoTriangles(count);
  }

  lemma {:induction false} TwoTriangles(n: nat)
    ensures 2 * Triangle(n) == n * (n - 1)
  {
    if n > 0 {
      TwoTriangles(n - 1);
      assert n * (n - 1) == (n - 1) * (n - 2) + 2 * (n - 1);
    }
  }

  // ----- Serializing -----

  /** What can be serialized is exactly what could be loaded again. */
  lemma SerializableExactly(t: Template, retention: u8)
    requires GraphShape(t.graph) && AllWellFormed(t.collection.captures) && t.collection.capacity <= 65535
    ensures TemplateBuffers.Serializable(t, retention) <==>
              retention <= |t.graph.ages| && WellFormedTemplate(TemplateBuffers.Cut(t, retention), retention)
  {
    hide AllWellFormed, Triangle, CapturesSize;
  }

  // ----- Stored templates -----

  /** Each of the 32 slots occurs in the order. */
  predicate EverySlot(order: seq<u16>) {
    |order| == 32 && forall slot: u16 | slot < 32 :: slot in order
  }

  ghost function Values(s: seq<u16>): (r: set<u16>)
    ensures forall v :: v in r <==> v in s
    ensures |r| <= |s|
  {
    if s == [] then {}
    else
      var n := |s| - 1;
      assert s == s[..n] + [s[n]];
      Values(s[..n]) + {s[n]}
  }

  predicate AllDiffer(s: seq<u16>) {
    forall i, j | 0 <= i < j < |s| :: s[i] != s[j]
  }

  lemma OneMoreDiffers(s: seq<u16>, n: nat)
    requires |s| == n + 1
    ensures AllDiffer(s) <==> AllDiffer(s[..n]) && s[n] !in s[..n]
  {
    if AllDiffer(s[..n]) && s[n] !in s[..n] {
      forall i, j | 0 <= i < j < |s| ensures s[i] != s[j] {
        assert s[i] == s[..n][i] && s[..n][i] in s[..n];
        if j < n {
          assert s[j] == s[..n][j];
        }
      }
    }
  }

  lemma OneMore(before: set<u16>, v: u16)
    ensures |before + {v}| == |before| + if v in before then 0 else 1
  {
    if v in before {
      assert before + {v} == before;
    }
  }

  lemma {:induction false} ValuesDiffer(s: seq<u16>)
    ensures |Values(s)| == |s| <==> AllDiffer(s)
  {
    if s != [] {
      var n := |s| - 1;
      var before := Values(s[..n]);
      assert Values(s) == before + {s[n]};
      hide AllDiffer, Values;
      OneMoreDiffers(s, n);
      ValuesDiffer(s[..n]);
      OneMore(before, s[n]);
    }
  }

  ghost function UpTo(n: nat): (r: set<u16>)
    requires n <= 65536
    ensures |r| == n && forall v: u16 :: v in r <==> v < n
  {
    if n == 0 then {} else UpTo(n - 1) + {(n - 1) as u16}
  }

  lemma SameSize(a: set<u16>, b: set<u16>)
    requires a <= b && |a| == |b|
    ensures a == b
  {
    assert b == a + (b - a);
  }

  lemma PermutationCovers(order: seq<u16>)
    requires StoreCodec.Permutation32(order)
    ensures EverySlot(order)
  {
    var values, slots := Values(order), UpTo(32);
    ValuesDiffer(order);
    forall v | v in values ensures v in slots {
      var i :| 0 <= i < |order| && order[i] == v;
    }
    SameSize(values, slots);
    forall slot: u16 | slot < 32 ensures slot in order {
      assert slot in slots;
    }
  }

  lemma CoverPermutes(order: seq<u16>)
    requires EverySlot(order)
    ensures StoreCodec.Permutation32(order)
  {
    var values, slots := Values(order), UpTo(32);
    ValuesDiffer(order);
    SmallerSubset(slots, values);
    SameSize(slots, values);
    forall i | 0 <= i < 32 ensures order[i] < 32 {
      assert order[i] in values;
    }
  }

  lemma SmallerSubset(a: set<u16>, b: set<u16>)
    requires a <= b
    ensures |a| <= |b|
  {
    assert b == a + (b - a);
  }

  /** What the store demands of a template beyond being well-formed. */
  predicate Storable(t: Template) {
    && t.graph.capacity == 32 && t.collection.capacity == 32 && EverySlot(t.graph.order)
    && t.graph.protectedCount <= 32 && t.graph.protectedLimit <= 32 && |t.collection.captures| <= 32
    && forall i | 0 <= i < |t.collection.captures| ::
         var v := t.collection.captures[i];
         v.mode == 1 && v.descriptorBytes == 16 && |v.levels| == 1 && v.count <= 300
  }

  lemma StorableIs(t: Template)
    ensures StoreCodec.StorableTemplate(t) <==> Storable(t)
  {
    hide EverySlot, StoreCodec.Permutation32;
    if EverySlot(t.graph.order) {
      CoverPermutes(t.graph.order);
    }
    if StoreCodec.Permutation32(t.graph.order) {
      PermutationCovers(t.graph.order);
    }
    var cs := t.collection.captures;
    assert (forall v <- cs :: StoreCodec.StorableCapture(v)) <==>
           (forall i | 0 <= i < |cs| :: StoreCodec.StorableCapture(cs[i]));
  }

  /** The store takes exactly the printed templates of that kind that fit 200000 bytes. */
  lemma StoredExactly(native: Bytes)
    ensures StoreCodec.Accepted(native) <==>
              |native| <= 200000 && exists t :: WellFormedTemplate(t, 32) && Storable(t) && native == Print(t, 32)
  {
    hide WellFormedTemplate, Print, Load, Storable, StoreCodec.StorableTemplate;
    if StoreCodec.Accepted(native) {
      PrintOfLoad(native, 32);
      var t := Load(native, 32).value;
      StorableIs(t);
      assert WellFormedTemplate(t, 32) && Storable(t) && native == Print(t, 32);
    }
    if t :| |native| <= 200000 && WellFormedTemplate(t, 32) && Storable(t) && native == Print(t, 32) {
      LoadOfPrint(t, 32);
      StorableIs(t);
    }
  }

  // ----- The record file -----

  /** Bytes the records take: sixteen each for registration and lengths, and what they hold. */
  function Space(list: seq<StoreCodec.Fingerprint>): nat {
    if list == [] then 0 else 16 + |list[0].user| + |list[0].name| + |list[0].native| + Space(list[1..])
  }

  lemma {:induction false} RecordsTake(list: seq<StoreCodec.Fingerprint>)
    requires forall f <- list :: StoreCodec.Printable(f)
    ensures |StoreCodec.RecordsBytes(list)| == Space(list)
  {
    hide StoreCodec.RecordBytes, StoreCodec.Printable;
    if list != [] {
      assert list[0] in list;
      TemplateLayout.RecordLies(list[0], []);
      assert StoreCodec.RecordBytes(list[0]) + [] == StoreCodec.RecordBytes(list[0]);
      RecordsTake(list[1..]);
    }
  }

  predicate Named(s: Bytes) {
    1 <= |s| <= 256 && forall i | 0 <= i < |s| :: s[i] != 0
  }

  lemma PrintableIs(list: seq<StoreCodec.Fingerprint>)
    ensures StoreCodec.AllPrintable(list) <==>
              forall i | 0 <= i < |list| :: Named(list[i].user) && Named(list[i].name) && |list[i].native| <= 200000
  {
    forall i | 0 <= i < |list|
      ensures StoreCodec.Printable(list[i]) <==>
              Named(list[i].user) && Named(list[i].name) && |list[i].native| <= 200000
    {
      NamedIs(list[i].user);
      NamedIs(list[i].name);
    }
    hide StoreCodec.Printable, Named;
    assert StoreCodec.AllPrintable(list) <==> forall i | 0 <= i < |list| :: StoreCodec.Printable(list[i]);
  }

  lemma NamedIs(s: Bytes)
    ensures StoreCodec.Writable(s) <==> Named(s)
  {
  }

  /** Records can be saved exactly when there are at most 1000 of them, named and not too long, and
      they leave room for 28 bytes before them and 36 around them in 2^24. */
  lemma SavableExactly(list: seq<StoreCodec.Fingerprint>, hardware: u16)
    ensures Storage.Fits(list, hardware) <==>
              && |list| <= 1000 && Space(list) <= 16777152
              && forall i | 0 <= i < |list| :: Named(list[i].user) && Named(list[i].name) && |list[i].native| <= 200000
  {
    hide StoreCodec.RecordsBytes, StoreCodec.Encode, Space;
    PrintableIs(list);
    if |list| <= 1000 && forall f <- list :: StoreCodec.Printable(f) {
      TemplateLayout.FileHead(list, hardware);
      RecordsTake(list);
      assert |StoreCodec.Encode(list, hardware)| == 28 + Space(list);
    }
  }

  /** No larger file is read. */
  lemma LargeFilesRefused(file: Storage.File, key: Bytes, hardware: u16)
    ensures |file.plain| > 16777180 ==> Storage.DiskIndex(Some(file), key, hardware) == None
    ensures |file.plain| <= 16777180 && file.key == key ==>
              Storage.DiskIndex(Some(file), key, hardware) == StoreCodec.Decode(file.plain, hardware)
  {
  }
}
