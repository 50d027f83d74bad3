/** The fingerprint store (`FingerprintStorage`) apart from verification: reading the file, saving,
    and the operations that change records, with their rollback. */
module Store {
  import opened Words
  import opened Bytes
  import opened StoreCodec

  // ----- Records in memory -----

  type Records = map<Bytes, map<Bytes, Fingerprint>>

  /** The records, users without any left aside. */
  ghost function Flat(r: Records): Index {
    map u, n | u in r && n in r[u] :: (u, n) := r[u][n]
  }

  function Put(r: Records, user: Bytes, name: Bytes, f: Fingerprint): Records {
    r[user := (if user in r then r[user] else map[])[name := f]]
  }

  lemma InFlat(r: Records, k: Key)
    ensures k in Flat(r) <==> Holds(r, k.0, k.1)
    ensures k in Flat(r) ==> Flat(r)[k] == r[k.0][k.1]
  {
    assert k == (k.0, k.1);
  }

  lemma FlatPut(r: Records, user: Bytes, name: Bytes, f: Fingerprint)
    ensures Flat(Put(r, user, name, f)) == Flat(r)[(user, name) := f]
  {
    hide Flat;
    var a, b := Flat(Put(r, user, name, f)), Flat(r)[(user, name) := f];
    forall k: Key ensures (k in a <==> k in b) && (k in a ==> a[k] == b[k]) {
      InFlat(Put(r, user, name, f), k);
      InFlat(r, k);
    }
  }

  lemma FlatErase(r: Records, user: Bytes, name: Bytes)
    requires user in r
    ensures Flat(r[user := r[user] - {name}]) == Flat(r) - {(user, name)}
  {
    hide Flat;
    var after := r[user := r[user] - {name}];
    forall k: Key
      ensures (k in Flat(after) <==> k in Flat(r) - {(user, name)}) &&
              (k in Flat(after) ==> Flat(after)[k] == Flat(r)[k]) {
      InFlat(after, k);
      InFlat(r, k);
    }
  }

  ghost function WithoutUser(index: Index, user: Bytes): Index {
    map k | k in index && k.0 != user :: index[k]
  }

  lemma FlatEraseUser(r: Records, user: Bytes)
    ensures Flat(r - {user}) == WithoutUser(Flat(r), user)
  {
    hide Flat;
    var after := r - {user};
    forall k: Key
      ensures (k in Flat(after) <==> k in WithoutUser(Flat(r), user)) &&
              (k in Flat(after) ==> Flat(after)[k] == Flat(r)[k])
    {
      InFlat(after, k);
      InFlat(r, k);
    }
  }

  lemma SoundPart(index: Index, part: Index)
    requires Sound(index) && forall k :: k in part ==> k in index && part[k] == index[k]
    ensures Sound(part)
  {
    hide StorableRecord;
  }

  predicate Holds(r: Records, user: Bytes, name: Bytes) {
    user in r && name in r[user]
  }

  // ----- The reader -----

  class Reader {
    const bytes: Bytes
    var offset: nat

    ghost predicate Valid()
      reads this
    {
      offset <= |bytes|
    }

    ghost function Rest(): Bytes
      requires Valid()
      reads this
    {
      bytes[offset..]
    }

    constructor (bytes: Bytes)
      ensures Valid() && Rest() == bytes && this.bytes == bytes
    {
      this.bytes := bytes;
      offset := 0;
    }

    method Word() returns (w: Option<u32>)
      requires Valid()
      modifies this
      ensures Valid()
      ensures match ReadWord(old(Rest()))
              case None => w == None
              case Some((value, rest)) => w == Some(value) && Rest() == rest
    {
      if |bytes| - offset < 4 {
        return None;
      }
      w := Some(Word32(bytes, offset));
      offset := offset + 4;
    }

    method TakeBytes(n: nat) returns (taken: Option<Bytes>)
      requires Valid()
      modifies this
      ensures Valid()
      ensures match Take(old(Rest()), n)
              case None => taken == None
              case Some((value, rest)) => taken == Some(value) && Rest() == rest
    {
      if n > |bytes| - offset {
        return None;
      }
      taken := Some(bytes[offset..offset + n]);
      assert bytes[offset..][..n] == bytes[offset..offset + n] && bytes[offset..][n..] == bytes[offset + n..];
      offset := offset + n;
    }

    method String() returns (s: Option<Bytes>)
      requires Valid()
      modifies this
      ensures Valid()
      ensures match ReadString(old(Rest()))
              case None => s == None
              case Some((value, rest)) => s == Some(value) && Rest() == rest
    {
      hide ReadWord, Take;
      var n := Word();
      if n.None? || n.value == 0 || n.value > 256 {
        return None;
      }
      s := TakeBytes(n.value);
      if s.Some? && 0 in s.value {
        s := None;
      }
    }

    method Native() returns (s: Option<Bytes>)
      requires Valid()
      modifies this
      ensures Valid()
      ensures match ReadNative(old(Rest()))
              case None => s == None
              case Some((value, rest)) => s == Some(value) && Rest() == rest
    {
      hide ReadWord, Take, Accepted;
      var n := Word();
      if n.None? || n.value > 200000 {
        return None;
      }
      s := TakeBytes(n.value);
      if s.Some? && !Accepted(s.value) {
        s := None;
      }
    }

    method Record() returns (f: Option<Fingerprint>)
      requires Valid()
      modifies this
      ensures Valid()
      ensures match ReadRecord(old(Rest()))
              case None => f == None
              case Some((value, rest)) => f == Some(value) && Rest() == rest
    {
      hide ReadWord, ReadString, ReadNative, ValidName;
      var registration := Word();
      if registration.None? || registration.value == 0 {
        return None;
      }
      var user := String();
      if user.None? {
        return None;
      }
      var name := String();
      if name.None? || !ValidName(name.value) {
        return None;
      }
      var native := Native();
      if native.None? {
        return None;
      }
      return Some(Fingerprint(user.value, name.value, native.value, registration.value));
    }

    method Words(words: seq<u32>) returns (ok: bool)
      requires Valid()
      modifies this
      ensures Valid()
      ensures match Expect(old(Rest()), words)
              case None => !ok
              case Some(rest) => ok && Rest() == rest
    {
      hide ReadWord;
      for i := 0 to |words|
        invariant Valid() && Expect(old(Rest()), words) == Expect(Rest(), words[i..])
      {
        assert words[i..][1..] == words[i + 1..];
        var w := Word();
        if w.None? || w.value != words[i] {
          return false;
        }
      }
      return true;
    }
  }

  /** The record loop of `load`: fills the nested map, and refuses a repeated registration or key. */
  method ReadAll(reader: Reader, count: nat) returns (parsed: Option<Records>)
    requires reader.Valid()
    modifies reader
    ensures reader.Valid()
    ensures match ReadRecords(old(reader.Rest()), count, map[])
            case None => parsed == None
            case Some((index, rest)) => parsed.Some? && Flat(parsed.value) == index && reader.Rest() == rest
  {
    hide ReadRecord, Flat, Put, Registered, ReadWord;
    var records: Records := map[];
    var registrations: set<u32> := {};
    ghost var index: Index := map[];
    NothingYet();
    for i := 0 to count
      invariant reader.Valid() && Flat(records) == index
      invariant forall r :: r in registrations <==> Registered(index, r)
      invariant ReadRecords(old(reader.Rest()), count, map[]) == ReadRecords(reader.Rest(), count - i, index)
    {
      var f := reader.Record();
      if f.None? {
        return None;
      }
      InFlat(records, KeyOf(f.value));
      if f.value.registration in registrations || Holds(records, f.value.user, f.value.name) {
        return None;
      }
      RegisteredGrows(index, f.value);
      FlatPut(records, f.value.user, f.value.name, f.value);
      registrations := registrations + {f.value.registration};
      records := Put(records, f.value.user, f.value.name, f.value);
      index := index[KeyOf(f.value) := f.value];
    }
    return Some(records);
  }

  lemma NothingYet()
    ensures Flat(map[]) == map[] && forall r :: !Registered(map[], r)
  {
  }

  lemma RegisteredGrows(index: Index, f: Fingerprint)
    requires KeyOf(f) !in index
    ensures forall r :: Registered(index[KeyOf(f) := f], r) <==> Registered(index, r) || r == f.registration
  {
    var grown := index[KeyOf(f) := f];
    forall r ensures Registered(grown, r) <==> Registered(index, r) || r == f.registration {
      if Registered(index, r) {
        var k :| k in index && index[k].registration == r;
        assert k in grown && grown[k].registration == r;
      }
      assert KeyOf(f) in grown && grown[KeyOf(f)] == f;
    }
  }

  /** The parsing half of `load`. */
  method Parse(plain: Bytes, hardware: u16) returns (parsed: Option<Records>)
    ensures match Decode(plain, hardware)
            case None => parsed == None
            case Some(index) => parsed.Some? && Flat(parsed.value) == index
  {
    hide Expect, ReadWord, ReadRecords;
    var reader := new Reader(plain);
    var matched := reader.Words(Profile(hardware));
    if !matched {
      return None;
    }
    var count := reader.Word();
    if count.None? || count.value > 1000 {
      return None;
    }
    parsed := ReadAll(reader, count.value);
    if parsed.Some? && reader.offset != |plain| {
      parsed := None;
    }
  }
}
