/** The record file: what a stored template must look like (`validate`), the plaintext layout
    `save` writes and the reader `load` uses. Encryption is not part of this model. */
module StoreCodec {
  import opened Words
  import opened Bytes
  import opened CaptureCodec
  import opened TemplateCodec

  // ----- Stored templates -----

  predicate Permutation32(order: seq<u16>) {
    |order| == 32 && (forall i | 0 <= i < 32 :: order[i] < 32) &&
        (forall i, j | 0 <= i < j < 32 :: order[i] != order[j])
  }

  predicate StorableCapture(v: CaptureView) {
    v.mode == 1 && v.descriptorBytes == 16 && |v.levels| == 1 && v.count <= 300
  }

  predicate StorableTemplate(t: Template) {
    && t.graph.capacity == 32 && t.collection.capacity == 32 && |t.collection.captures| <= 32
    && Permutation32(t.graph.order) && t.graph.protectedCount <= 32 && t.graph.protectedLimit <= 32
    && forall v <- t.collection.captures :: StorableCapture(v)
  }

  /** `validate` accepts the bytes. */
  predicate Accepted(native: Bytes) {
    |native| <= 200000 && Load(native, 32).Some? && StorableTemplate(Load(native, 32).value)
  }

  /** One stored capture takes at most 5964 bytes, whatever its level table holds. */
  lemma StoredCaptureFits(v: CaptureView)
    requires WellFormed(v, DEFAULT_FORMAT) && StorableCapture(v)
    ensures |PayloadOf(v)| <= 5964
  {
    hide LevelBytes, RowsSize, Join, Split, Total, Words32;
    assert DEFAULT_FORMAT == Format(true, true, false, false, true, true);
    SplitOfPayload(v, DEFAULT_FORMAT);
    var sizes := PartSizes(v.count, 16, 1, v.tableWidth, DEFAULT_FORMAT);
    RowsSizeClosedForm(1, ExtraWords(v.tableWidth));
    TotalOfSeven(sizes);
  }

  lemma {:induction false} StoredCapturesFit(cs: seq<CaptureView>)
    requires AllWellFormed(cs) && forall v <- cs :: StorableCapture(v)
    ensures CapturesSize(cs) <= 5976 * |cs|
  {
    hide WellFormed, StorableCapture;
    if cs != [] {
      assert cs[0] in cs;
      StoredCaptureFits(cs[0]);
      StoredCapturesFit(cs[1..]);
    }
  }

  /** Thirty-two captures of up to 300 features always print within 200000 bytes, so a storable
      template is accepted back. */
  lemma StorableIsAccepted(t: Template)
    requires WellFormedTemplate(t, 32) && StorableTemplate(t)
    ensures Accepted(Print(t, 32)) && |Print(t, 32)| <= 192436
  {
    hide WellFormed, StorableCapture, Triangle, Permutation32, Load, CapturesSize;
    StoredCapturesFit(t.collection.captures);
    TriangleClosedForm(32);
    LoadOfPrint(t, 32);
  }

  // ----- Records -----

  datatype Fingerprint = Fingerprint(user: Bytes, name: Bytes, native: Bytes, registration: u32)

  type Key = (Bytes, Bytes)

  /** Records by user and finger, empty users aside. */
  type Index = map<Key, Fingerprint>

  function Ascii(s: string): (b: Bytes)
    ensures |b| == |s|
  {
    seq(|s|, i requires 0 <= i < |s| => if 0 < s[i] as int < 128 then s[i] as int else 63)
  }

  const FINGERS: seq<string> := [
    "left-thumb", "left-index-finger", "left-middle-finger", "left-ring-finger", "left-little-finger",
    "right-thumb", "right-index-finger", "right-middle-finger", "right-ring-finger", "right-little-finger"]

  predicate ValidName(name: Bytes) {
    exists i | 0 <= i < |FINGERS| :: name == Ascii(FINGERS[i])
  }

  /** What `append_string` writes and the reader takes. */
  predicate Writable(s: Bytes) {
    1 <= |s| <= 256 && 0 !in s
  }

  lemma ValidNamesAreWritable(name: Bytes)
    requires ValidName(name)
    ensures Writable(name)
  {
    var i :| 0 <= i < |FINGERS| && name == Ascii(FINGERS[i]);
    assert forall k | 0 <= k < |name| :: name[k] > 0;
  }

  predicate StorableRecord(f: Fingerprint) {
    f.registration > 0 && ValidName(f.name) && Accepted(f.native)
  }

  ghost predicate DistinctRegistrations(index: Index) {
    forall a, b :: a in index && b in index && a != b ==> index[a].registration != index[b].registration
  }

  /** What the store keeps in memory; user names may still turn out not to be writable. */
  ghost predicate Sound(index: Index) {
    && (forall k :: k in index ==> k == (index[k].user, index[k].name) && StorableRecord(index[k]))
    && DistinctRegistrations(index)
  }

  // ----- Writing -----

  function StringBytes(s: Bytes): Bytes
    requires |s| <= 256
  {
    Le32(|s|) + s
  }

  predicate Printable(f: Fingerprint) {
    Writable(f.user) && Writable(f.name) && |f.native| <= 200000
  }

  function RecordBytes(f: Fingerprint): Bytes
    requires Printable(f)
  {
    Le32(f.registration) + (StringBytes(f.user) + (StringBytes(f.name) + (Le32(|f.native|) + f.native)))
  }

  function RecordsBytes(list: seq<Fingerprint>): Bytes
    requires forall f <- list :: Printable(f)
  {
    if list == [] then [] else RecordBytes(list[0]) + RecordsBytes(list[1..])
  }

  function WordsBytes(words: seq<u32>): Bytes {
    if words == [] then [] else Le32(words[0]) + WordsBytes(words[1..])
  }

  /** Format version, features, width, height, template version, sensor. */
  function Profile(hardware: u16): seq<u32> {
    [1, 300, 112, 88, 26, hardware]
  }

  function Preamble(hardware: u16, count: u32): Bytes {
    WordsBytes(Profile(hardware)) + Le32(count)
  }

  /** Plaintext of the file. */
  function Encode(list: seq<Fingerprint>, hardware: u16): Bytes
    requires |list| <= 1000 && forall f <- list :: Printable(f)
  {
    Preamble(hardware, |list|) + RecordsBytes(list)
  }

  // ----- Reading -----

  function ReadWord(b: Bytes): Option<(u32, Bytes)> {
    if |b| < 4 then None else Some((Word32(b, 0), b[4..]))
  }

  function Take(b: Bytes, n: nat): Option<(Bytes, Bytes)> {
    if n > |b| then None else Some((b[..n], b[n..]))
  }

  function ReadString(b: Bytes): Option<(Bytes, Bytes)> {
    match ReadWord(b)
    case None => None
    case Some((n, rest)) =>
      if n == 0 || n > 256 then None
      else
        match Take(rest, n)
        case None => None
        case Some((s, more)) => if 0 in s then None else Some((s, more))
  }

  function ReadNative(b: Bytes): Option<(Bytes, Bytes)> {
    match ReadWord(b)
    case None => None
    case Some((n, rest)) =>
      if n > 200000 then None
      else
        match Take(rest, n)
        case None => None
        case Some((native, more)) => if Accepted(native) then Some((native, more)) else None
  }

  function ReadRecord(b: Bytes): Option<(Fingerprint, Bytes)> {
    match ReadWord(b)
    case None => None
    case Some((registration, r1)) =>
      if registration == 0 then None
      else
        match ReadString(r1)
        case None => None
        case Some((user, r2)) =>
          match ReadString(r2)
          case None => None
          case Some((name, r3)) =>
            if !ValidName(name) then None
            else
              match ReadNative(r3)
              case None => None
              case Some((native, r4)) => Some((Fingerprint(user, name, native, registration), r4))
  }

  predicate Registered(index: Index, registration: u32) {
    exists k | k in index :: index[k].registration == registration
  }

  function KeyOf(f: Fingerprint): Key {
    (f.user, f.name)
  }

  function ReadRecords(b: Bytes, n: nat, index: Index): Option<(Index, Bytes)>
    decreases n
  {
    if n == 0 then Some((index, b))
    else
      match ReadRecord(b)
      case None => None
      case Some((f, rest)) =>
        if Registered(index, f.registration) || KeyOf(f) in index then None
        else ReadRecords(rest, n - 1, index[KeyOf(f) := f])
  }

  /** Reads the given words, in order. */
  function Expect(b: Bytes, words: seq<u32>): Option<Bytes>
    decreases |words|
  {
    if words == [] then Some(b)
    else
      match ReadWord(b)
      case None => None
      case Some((w, rest)) => if w != words[0] then None else Expect(rest, words[1..])
  }

  /** Everything `load` does behind decryption. */
  function Decode(plain: Bytes, hardware: u16): Option<Index> {
    match Expect(plain, Profile(hardware))
    case None => None
    case Some(rest) =>
      match ReadWord(rest)
      case None => None
      case Some((count, records)) =>
        if count > 1000 then None
        else
          match ReadRecords(records, count, map[])
          case None => None
          case Some((index, trailing)) => if trailing == [] then Some(index) else None
  }

  // ----- The round trip -----

  lemma ReadWordBack(v: u32, rest: Bytes)
    ensures ReadWord(Le32(v) + rest) == Some((v, rest))
  {
    hide Le32, Word32;
    Word32OfLe32(v, rest);
  }

  lemma TakeBack(s: Bytes, rest: Bytes)
    ensures Take(s + rest, |s|) == Some((s, rest))
  {
  }

  lemma ReadStringBack(s: Bytes, rest: Bytes)
    requires Writable(s)
    ensures ReadString(StringBytes(s) + rest) == Some((s, rest))
  {
    hide ReadWord, Take, Le32;
    assert StringBytes(s) + rest == Le32(|s|) + (s + rest);
    ReadWordBack(|s|, s + rest);
    TakeBack(s, rest);
  }

  lemma ReadNativeBack(native: Bytes, rest: Bytes)
    requires Accepted(native)
    ensures ReadNative(Le32(|native|) + native + rest) == Some((native, rest))
  {
    hide ReadWord, Take, Le32, Load, StorableTemplate;
    assert Le32(|native|) + native + rest == Le32(|native|) + (native + rest);
    ReadWordBack(|native|, native + rest);
    TakeBack(native, rest);
  }

  lemma ReadRecordBack(f: Fingerprint, rest: Bytes)
    requires Printable(f) && StorableRecord(f)
    ensures ReadRecord(RecordBytes(f) + rest) == Some((f, rest))
  {
    hide ReadWord, ReadString, ReadNative, StringBytes, Le32, Accepted, ValidName;
    var r4 := rest;
    var r3 := Le32(|f.native|) + f.native + r4;
    var r2 := StringBytes(f.name) + r3;
    var r1 := StringBytes(f.user) + r2;
    assert RecordBytes(f) + rest == Le32(f.registration) + r1;
    ReadWordBack(f.registration, r1);
    ReadStringBack(f.user, r2);
    ReadStringBack(f.name, r3);
    ReadNativeBack(f.native, r4);
  }

  /** The records of an index, each exactly once, in some order. */
  ghost predicate Lists(list: seq<Fingerprint>, index: Index) {
    && (forall i | 0 <= i < |list| :: KeyOf(list[i]) in index && index[KeyOf(list[i])] == list[i])
    && (forall i, j | 0 <= i < j < |list| :: KeyOf(list[i]) != KeyOf(list[j]))
    && (forall k | k in index :: exists i :: 0 <= i < |list| && KeyOf(list[i]) == k)
  }

  /** The part of an index that the first n records make up. */
  ghost function Part(list: seq<Fingerprint>, n: nat): Index
    requires n <= |list|
  {
    if n == 0 then map[] else Part(list, n - 1)[KeyOf(list[n - 1]) := list[n - 1]]
  }

  ghost predicate Among(list: seq<Fingerprint>, n: nat, k: Key)
    requires n <= |list|
  {
    exists i :: 0 <= i < n && KeyOf(list[i]) == k
  }

  lemma {:induction false} PartMeans(list: seq<Fingerprint>, index: Index, n: nat)
    requires Lists(list, index) && n <= |list|
    ensures forall k :: k in Part(list, n) <==> Among(list, n, k)
    ensures forall k :: k in Part(list, n) ==> k in index && Part(list, n)[k] == index[k]
  {
    hide KeyOf;
    if n > 0 {
      PartMeans(list, index, n - 1);
      forall k ensures Among(list, n, k) <==> (Among(list, n - 1, k) || k == KeyOf(list[n - 1])) {
      }
    }
  }

  lemma {:induction false} ReadRecordsBack(list: seq<Fingerprint>, index: Index, n: nat)
    requires Lists(list, index) && Sound(index) && n <= |list| && forall f <- list :: Printable(f)
    ensures ReadRecords(RecordsBytes(list[n..]), |list| - n, Part(list, n)) == Some((index, []))
    decreases |list| - n
  {
    hide Printable, StorableRecord, ReadRecord, RecordBytes, Part;
    PartMeans(list, index, n);
    if n == |list| {
      assert Part(list, n) == index by {
        assert forall k | k in index :: k in Part(list, n);
      }
    } else {
      var f := list[n];
      assert f in list && list[n..][0] == f && list[n..][1..] == list[n + 1..];
      assert StorableRecord(f) by {
        assert KeyOf(f) in index;
      }
      ReadRecordBack(f, RecordsBytes(list[n + 1..]));
      NextIsNew(list, index, n);
      PartStep(list, n);
      ReadRecordsBack(list, index, n + 1);
    }
  }

  lemma PartStep(list: seq<Fingerprint>, n: nat)
    requires n < |list|
    ensures Part(list, n + 1) == Part(list, n)[KeyOf(list[n]) := list[n]]
  {
  }

  lemma NextIsNew(list: seq<Fingerprint>, index: Index, n: nat)
    requires Lists(list, index) && Sound(index) && n < |list|
    ensures KeyOf(list[n]) !in Part(list, n) && !Registered(Part(list, n), list[n].registration)
  {
    hide StorableRecord, Part;
    PartMeans(list, index, n);
    assert index[KeyOf(list[n])] == list[n];
  }

  lemma ExpectBack(words: seq<u32>, rest: Bytes)
    ensures Expect(WordsBytes(words) + rest, words) == Some(rest)
    decreases |words|
  {
    hide Le32, ReadWord;
    if words == [] {
      assert WordsBytes(words) + rest == rest;
    } else {
      assert WordsBytes(words) + rest == Le32(words[0]) + (WordsBytes(words[1..]) + rest);
      ReadWordBack(words[0], WordsBytes(words[1..]) + rest);
      ExpectBack(words[1..], rest);
    }
  }

  /** Loading a saved file gives back its records, in whatever order they were written. */
  lemma DecodeOfEncode(list: seq<Fingerprint>, index: Index, hardware: u16)
    requires Lists(list, index) && Sound(index) && |list| <= 1000 && forall f <- list :: Printable(f)
    ensures Decode(Encode(list, hardware), hardware) == Some(index)
  {
    hide Le32, ReadWord, Printable, ReadRecords, RecordsBytes, Sound, Lists, Expect;
    assert Encode(list, hardware) == WordsBytes(Profile(hardware)) + (Le32(|list|) + RecordsBytes(list));
    ExpectBack(Profile(hardware), Le32(|list|) + RecordsBytes(list));
    ReadWordBack(|list|, RecordsBytes(list));
    ReadRecordsBack(list, index, 0);
    assert list[0..] == list;
  }

  /** Whatever loads is sound: valid templates, distinct registrations, none zero. */
  lemma {:induction false} ReadRecordsAreSound(b: Bytes, n: nat, index: Index)
    requires Sound(index) && ReadRecords(b, n, index).Some?
    ensures Sound(ReadRecords(b, n, index).value.0)
    decreases n
  {
    hide StorableRecord, ReadRecord;
    if n > 0 {
      var (f, rest) := ReadRecord(b).value;
      RecordIsStorable(b);
      ReadRecordsAreSound(rest, n - 1, index[KeyOf(f) := f]);
    }
  }

  lemma ReadStringsAreWritable(b: Bytes)
    ensures ReadString(b).Some? ==> Writable(ReadString(b).value.0)
  {
    hide Word32;
  }

  lemma RecordIsStorable(b: Bytes)
    requires ReadRecord(b).Some?
    ensures StorableRecord(ReadRecord(b).value.0) && Printable(ReadRecord(b).value.0)
  {
    hide ReadWord, ReadString, ValidName, Load, StorableTemplate;
    var (registration, r1) := ReadWord(b).value;
    ReadStringsAreWritable(r1);
    ReadStringsAreWritable(ReadString(r1).value.1);
  }

  lemma DecodedIsSound(plain: Bytes, hardware: u16)
    requires Decode(plain, hardware).Some?
    ensures Sound(Decode(plain, hardware).value)
  {
    hide ReadRecords, Expect, ReadWord;
    var rest := Expect(plain, Profile(hardware)).value;
    var (count, records) := ReadWord(rest).value;
    ReadRecordsAreSound(records, count, map[]);
  }

  // ----- The order records are written in does not matter for the size -----

  function Removed(list: seq<Fingerprint>, i: nat): seq<Fingerprint>
    requires i < |list|
  {
    list[..i] + list[i + 1..]
  }

  predicate AllPrintable(list: seq<Fingerprint>) {
    forall f <- list :: Printable(f)
  }

  lemma {:induction false} RemovedSize(list: seq<Fingerprint>, i: nat)
    requires i < |list| && AllPrintable(list)
    ensures AllPrintable(Removed(list, i))
    ensures |RecordsBytes(list)| == |RecordsBytes(Removed(list, i))| + |RecordBytes(list[i])|
  {
    hide RecordBytes, Printable;
    if i == 0 {
      assert Removed(list, i) == list[1..];
    } else {
      assert Removed(list, i) == [list[0]] + Removed(list[1..], i - 1);
      RemovedSize(list[1..], i - 1);
    }
  }

  lemma RemovedLists(list: seq<Fingerprint>, index: Index, i: nat)
    requires Lists(list, index) && i < |list|
    ensures Lists(Removed(list, i), index - {KeyOf(list[i])})
  {
    hide KeyOf;
    var rest, smaller := Removed(list, i), index - {KeyOf(list[i])};
    forall k | k in smaller ensures exists j :: 0 <= j < |rest| && KeyOf(rest[j]) == k {
      var j :| 0 <= j < |list| && KeyOf(list[j]) == k;
      assert KeyOf(rest[if j < i then j else j - 1]) == k;
    }
  }

  lemma ListedIsThere(list: seq<Fingerprint>, index: Index, i: nat)
    requires Lists(list, index) && i < |list|
    ensures KeyOf(list[i]) in index
  {
  }

  lemma NothingToList(list: seq<Fingerprint>, index: Index)
    requires Lists([], index) && Lists(list, index)
    ensures list == []
  {
    assert index == map[];
    hide Lists;
    if list != [] {
      ListedIsThere(list, index, 0);
    }
  }

  lemma RemovedPrintable(list: seq<Fingerprint>, i: nat)
    requires i < |list| && AllPrintable(Removed(list, i)) && Printable(list[i])
    ensures AllPrintable(list)
  {
    hide Printable;
    forall f | f in list ensures Printable(f) {
      assert f in Removed(list, i) || f == list[i];
    }
  }

  /** A record stands in every listing. */
  lemma Corresponding(a: seq<Fingerprint>, b: seq<Fingerprint>, index: Index) returns (i: nat)
    requires Lists(a, index) && Lists(b, index) && a != []
    ensures i < |b| && b[i] == a[0]
  {
    hide KeyOf;
    assert KeyOf(a[0]) in index;
    i :| 0 <= i < |b| && KeyOf(b[i]) == KeyOf(a[0]);
  }

  /** All listings of the same records are printable or none is, and take the same space. */
  lemma {:induction false} ListingsAgree(a: seq<Fingerprint>, b: seq<Fingerprint>, index: Index)
    requires Lists(a, index) && Lists(b, index) && AllPrintable(a)
    ensures |a| == |b| && AllPrintable(b) && |RecordsBytes(a)| == |RecordsBytes(b)|
    decreases |a|
  {
    hide Lists, Printable, KeyOf, RecordBytes;
    if a == [] {
      NothingToList(b, index);
    } else {
      var i := Corresponding(a, b, index);
      assert Removed(a, 0) == a[1..];
      RemovedLists(a, index, 0);
      RemovedLists(b, index, i);
      ListingsAgree(a[1..], Removed(b, i), index - {KeyOf(a[0])});
      assert a[0] in a;
      RemovedPrintable(b, i);
      RemovedSize(b, i);
    }
  }

  // ----- A file belongs to one kind of reader -----

  lemma {:induction false} ExpectOne(b: Bytes, v: seq<u32>, w: seq<u32>)
    requires |v| == |w| && Expect(b, v).Some? && Expect(b, w).Some?
    ensures v == w
    decreases |v|
  {
    hide Word32;
    if v != [] {
      ExpectOne(ReadWord(b).value.1, v[1..], w[1..]);
      assert v == [v[0]] + v[1..] && w == [w[0]] + w[1..];
    }
  }

  /** Plaintext that loads under one hardware id loads under no other. */
  lemma OneReader(plain: Bytes, h: u16, k: u16)
    requires Decode(plain, h).Some? && Decode(plain, k).Some?
    ensures h == k
  {
    hide Expect;
    ExpectOne(plain, Profile(h), Profile(k));
    assert Profile(h)[5] == h && Profile(k)[5] == k;
  }
}
