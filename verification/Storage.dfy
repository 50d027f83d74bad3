/** `FingerprintStorage`: the records in memory, the file on disk, and the operations that keep
    the one equal to what loading the other would give. */
module Storage {
  import opened Words
  import opened Bytes
  import opened StoreCodec
  import opened Store

  const MAX_FILE: nat := 0x100_0000
  const OVERHEAD: nat := 36

  /** A file as the key holder sees it: the key it was sealed with and the plaintext. */
  datatype File = File(key: Bytes, plain: Bytes)

  /** What a file was written with: the key it is sealed with and the hardware id inside. */
  datatype Origin = Origin(key: Bytes, hardware: u16)

  datatype Reply = Done(value: bool) | Thrown

  /** What loading would put into memory; a missing file loads as an empty store. */
  function DiskIndex(disk: Option<File>, key: Bytes, hardware: u16): Option<Index> {
    match disk
    case None => Some(map[])
    case Some(file) =>
      if |file.plain| + OVERHEAD > MAX_FILE || file.key != key then None else Decode(file.plain, hardware)
  }

  // ----- Walking over the records -----

  /** The list holds the records outside `pending`, each once. */
  ghost predicate ListsOutside(list: seq<Fingerprint>, index: Index, pending: set<Key>) {
    Lists(list, index - pending)
  }

  lemma ListOneMore(list: seq<Fingerprint>, index: Index, pending: set<Key>, k: Key)
    requires ListsOutside(list, index, pending) && k in pending && k in index && KeyOf(index[k]) == k
    ensures ListsOutside(list + [index[k]], index, pending - {k})
  {
    var more, rest := list + [index[k]], index - (pending - {k});
    forall key | key in rest ensures exists i :: 0 <= i < |more| && KeyOf(more[i]) == key {
      if key == k {
        assert KeyOf(more[|list|]) == key;
      } else {
        assert key in index - pending;
        var i :| 0 <= i < |list| && KeyOf(list[i]) == key;
        assert KeyOf(more[i]) == key;
      }
    }
  }

  ghost function PendingKeys(index: Index, users: set<Bytes>, user: Bytes, names: set<Bytes>): set<Key> {
    set k | k in index && (k.0 in users || (k.0 == user && k.1 in names))
  }

  /** One record appended; its key is no longer pending. */
  lemma ListName(list: seq<Fingerprint>, r: Records, users: set<Bytes>, user: Bytes, names: set<Bytes>, name: Bytes)
    requires Sound(Flat(r)) && user in r && user !in users && names <= r[user].Keys && name in names
    requires ListsOutside(list, Flat(r), PendingKeys(Flat(r), users, user, names))
    ensures ListsOutside(list + [r[user][name]], Flat(r), PendingKeys(Flat(r), users, user, names - {name}))
  {
    hide Flat, StorableRecord, ListsOutside;
    InFlat(r, (user, name));
    ListOneMore(list, Flat(r), PendingKeys(Flat(r), users, user, names), (user, name));
    assert PendingKeys(Flat(r), users, user, names - {name}) ==
           PendingKeys(Flat(r), users, user, names) - {(user, name)};
  }

  /** The order of the walk is left open: any listing will do. */
  method ListRecords(r: Records) returns (list: seq<Fingerprint>)
    requires Sound(Flat(r))
    ensures Lists(list, Flat(r))
  {
    hide Flat, Sound, Lists, ListsOutside, PendingKeys;
    list := [];
    var users := r.Keys;
    StartOfWalk(r);
    while users != {}
      invariant users <= r.Keys && ListsOutside(list, Flat(r), PendingKeys(Flat(r), users, [], {}))
      decreases |users|
    {
      var user :| user in users;
      ghost var before := users;
      users := users - {user};
      assert before == users + {user};
      var names := r[user].Keys;
      StartOfUser(list, r, users, user);
      while names != {}
        invariant names <= r[user].Keys && ListsOutside(list, Flat(r), PendingKeys(Flat(r), users, user, names))
        decreases |names|
      {
        var name :| name in names;
        ListName(list, r, users, user, names, name);
        list := list + [r[user][name]];
        names := names - {name};
      }
      EndOfUser(Flat(r), users, user);
    }
    EndOfWalk(list, Flat(r));
  }

  lemma EndOfUser(index: Index, users: set<Bytes>, user: Bytes)
    ensures PendingKeys(index, users, user, {}) == PendingKeys(index, users, [], {})
  {
  }

  lemma EndOfWalk(list: seq<Fingerprint>, index: Index)
    requires ListsOutside(list, index, PendingKeys(index, {}, [], {}))
    ensures Lists(list, index)
  {
    hide Lists;
    assert PendingKeys(index, {}, [], {}) == {};
    assert index - {} == index;
  }

  lemma StartOfWalk(r: Records)
    ensures ListsOutside([], Flat(r), PendingKeys(Flat(r), r.Keys, [], {}))
  {
    hide Flat;
    forall k: Key | k in Flat(r) ensures k.0 in r.Keys {
      InFlat(r, k);
    }
    assert PendingKeys(Flat(r), r.Keys, [], {}) == Flat(r).Keys;
    assert Flat(r) - Flat(r).Keys == map[];
  }

  lemma StartOfUser(list: seq<Fingerprint>, r: Records, users: set<Bytes>, user: Bytes)
    requires user in r && ListsOutside(list, Flat(r), PendingKeys(Flat(r), users + {user}, [], {}))
    ensures ListsOutside(list, Flat(r), PendingKeys(Flat(r), users, user, r[user].Keys))
  {
    hide Flat, ListsOutside;
    forall k: Key | k in Flat(r) && k.0 == user ensures k.1 in r[user].Keys {
      InFlat(r, k);
    }
    assert PendingKeys(Flat(r), users + {user}, [], {}) == PendingKeys(Flat(r), users, user, r[user].Keys);
  }

  // ----- The store -----

  class FingerprintStorage {
    var named: bool
    var key: Bytes
    var records: Records
    /** The reader's hardware id, part of what is written and of what a file must show. */
    var hardware: u16
    /** The file the name stands for; changed by nothing but a completed rename. */
    var disk: Option<File>
    /** The key and the hardware id at the last save or load that succeeded. */
    ghost var basis: Origin

    /** Memory equals what loading the file would give with the key and the id it was written with,
        empty users aside. */
    ghost predicate Valid()
      reads this
    {
      named && |key| == 32 && Sound(Flat(records)) && DiskIndex(disk, basis.key, basis.hardware) == Some(Flat(records))
    }

    /** The reader reports its hardware id; memory and file stay as they are. */
    method Identified(id: u16)
      requires Valid()
      modifies this`hardware
      ensures Valid() && hardware == id
    {
      hide Flat, Sound, DiskIndex;
      hardware := id;
    }

    constructor (hardware: u16, disk: Option<File>)
      ensures this.hardware == hardware && this.disk == disk && records == map[] && !named
    {
      this.hardware, this.disk, basis := hardware, disk, Origin([], hardware);
      named, key, records := false, [], map[];
    }

    /** `init` with a file name: a key of the wrong length or a file that does not load throws. */
    method Init(key: Bytes) returns (reply: Reply)
      modifies this
      ensures disk == old(disk)
      ensures reply == Done(true) || reply == Thrown
      ensures hardware == old(hardware)
      ensures old(Valid()) ==> Valid()
      ensures reply == Done(true) <==> |key| == 32 && DiskIndex(disk, key, hardware).Some?
      ensures reply == Done(true) ==> Valid() && this.key == key && basis == Origin(key, hardware)
      ensures reply == Thrown ==> records == old(records)
    {
      hide Flat, Sound, Decode;
      if |key| != 32 {
        return Thrown;
      }
      named, this.key := true, key;
      reply := LoadFile();
      if reply == Done(true) {
        basis := Origin(key, hardware);
      }
    }

    method LoadFile() returns (reply: Reply)
      modifies this`records
      ensures reply == if DiskIndex(disk, key, hardware).Some? then Done(true) else Thrown
      ensures reply == Done(true) ==> Sound(Flat(records)) && DiskIndex(disk, key, hardware) == Some(Flat(records))
      ensures reply == Thrown ==> records == old(records)
    {
      hide Flat, Sound, Decode;
      if disk.None? {
        records := map[];
        NothingIsSound();
        return Done(true);
      }
      if |disk.value.plain| + OVERHEAD > MAX_FILE || disk.value.key != key {
        return Thrown;
      }
      var parsed := Parse(disk.value.plain, hardware);
      if parsed.None? {
        return Thrown;
      }
      DecodedIsSound(disk.value.plain, hardware);
      records := parsed.value;
      return Done(true);
    }

    /** Writes all records to a new file and renames it into place; `io` says whether that works.
        Nothing else is on disk afterwards, and a failed save leaves the file alone. */
    method Save(io: bool) returns (ok: bool)
      requires Sound(Flat(records))
      modifies this`disk, this`basis
      ensures ok <==> named && |key| == 32 && io && Savable(Flat(records), hardware)
      ensures ok ==> DiskIndex(disk, key, hardware) == Some(Flat(records)) && basis == Origin(key, hardware)
      ensures !ok ==> disk == old(disk) && basis == old(basis)
    {
      hide Flat, Sound, Decode, Encode, Lists, Printable, Savable;
      if |key| != 32 || !named {
        return false;
      }
      var list := ListRecords(records);
      OneListingDecides(list, Flat(records), hardware);
      if |list| > 1000 {
        return false;
      }
      for i := 0 to |list|
        invariant forall k | 0 <= k < i :: Printable(list[k])
        modifies {}
      {
        RecordIsPrintable(list, Flat(records), i);
        if !Writable(list[i].user) {
          return false;
        }
      }
      var plain := Encode(list, hardware);
      if |plain| > MAX_FILE - OVERHEAD || !io {
        return false;
      }
      DecodeOfEncode(list, Flat(records), hardware);
      disk, basis := Some(File(key, plain)), Origin(key, hardware);
      return true;
    }

    predicate Check(user: Bytes, name: Bytes)
      reads this
    {
      Holds(records, user, name)
    }

    method DeleteAll(user: Bytes, io: bool) returns (ok: bool)
      requires Valid()
      modifies this`records, this`disk, this`basis
      ensures Valid()
      ensures ok <==> io && Savable(WithoutUser(old(Flat(records)), user), hardware)
      ensures ok ==> Flat(records) == WithoutUser(old(Flat(records)), user) && basis == Origin(key, hardware)
      ensures !ok ==> records == old(records) && disk == old(disk) && basis == old(basis)
    {
      hide Flat, Sound, DiskIndex;
      var before := records;
      FlatEraseUser(records, user);
      SoundPart(Flat(records), WithoutUser(Flat(records), user));
      records := records - {user};
      ok := Save(io);
      if !ok {
        records := before;
      }
    }

    method Delete(user: Bytes, name: Bytes, io: bool) returns (ok: bool)
      requires Valid()
      modifies this`records, this`disk, this`basis
      ensures Valid()
      ensures ok <==> io && old(Check(user, name)) && Savable(old(Flat(records)) - {(user, name)}, hardware)
      ensures ok ==> Flat(records) == old(Flat(records)) - {(user, name)} && basis == Origin(key, hardware)
      ensures !ok ==> records == old(records) && disk == old(disk) && basis == old(basis)
    {
      hide Flat, Sound, DiskIndex;
      if !Check(user, name) {
        return false;
      }
      var before := records;
      FlatErase(records, user, name);
      SoundPart(Flat(records), Flat(records) - {(user, name)});
      records := records[user := records[user] - {name}];
      ok := Save(io);
      if !ok {
        records := before;
      }
    }

    /** Highest registration in use, zero when there is none. */
    method LastRegistration() returns (last: u32)
      requires Sound(Flat(records))
      ensures last == 0 || Registered(Flat(records), last)
      ensures forall k | k in Flat(records) :: Flat(records)[k].registration <= last
    {
      hide Flat, Sound;
      var list := ListRecords(records);
      last := 0;
      for i := 0 to |list|
        invariant last == 0 || Registered(Flat(records), last)
        invariant forall k | 0 <= k < i :: list[k].registration <= last
      {
        assert KeyOf(list[i]) in Flat(records) && Flat(records)[KeyOf(list[i])] == list[i];
        if list[i].registration > last {
          last := list[i].registration;
        }
      }
    }

    /** An unusable name or template throws; a known finger keeps its registration, a new one
        gets the next. Whatever goes wrong, memory and file stay equal. */
    method InsertOrUpdate(user: Bytes, name: Bytes, native: Bytes, io: bool) returns (reply: Reply)
      requires Valid()
      modifies this`records, this`disk, this`basis
      ensures Valid()
      ensures reply == Thrown <==> !ValidName(name) || !Accepted(native)
      ensures reply == Done(true) ==>
                io && basis == Origin(key, hardware) && Savable(Flat(records), hardware) &&
                Registers(old(Flat(records)), Flat(records), user, name, native)
      ensures reply == Done(false) ==>
                !io || NoneLeft(old(Flat(records)), user, name) ||
                    Overflows(old(Flat(records)), user, name, native, hardware)
      ensures reply != Done(true) ==> records == old(records) && disk == old(disk) && basis == old(basis)
    {
      hide Flat, Sound, DiskIndex, ValidName, Accepted, Registered;
      if !ValidName(name) || !Accepted(native) {
        return Thrown;
      }
      var before := records;
      InFlat(records, (user, name));
      var registration: u32;
      if Check(user, name) {
        registration := records[user][name].registration;
      } else {
        var last := LastRegistration();
        if last == 0xffff_ffff {
          assert NoneLeft(Flat(records), user, name);
          return Done(false);
        }
        registration := last + 1;
      }
      var f := Fingerprint(user, name, native, registration);
      assert NextRegistration(Flat(before), (user, name), registration);
      SoundPut(Flat(records), f);
      FlatPut(records, user, name, f);
      records := Put(records, user, name, f);
      assert Registers(Flat(before), Flat(records), user, name, native);
      var ok := Save(io);
      if !ok {
        records := before;
      }
      return Done(ok);
    }

    /** Replaces the template of one record, as adaptation after a match does. */
    method ReplaceNative(user: Bytes, name: Bytes, native: Bytes, io: bool) returns (ok: bool)
      requires Valid() && Check(user, name) && Accepted(native)
      modifies this`records, this`disk, this`basis
      ensures Valid()
      ensures (user, name) in old(Flat(records))
      ensures ok <==> io && Savable(Renewed(old(Flat(records)), (user, name), native), hardware)
      ensures ok ==> Flat(records) == Renewed(old(Flat(records)), (user, name), native)
      ensures ok ==> basis == Origin(key, hardware)
      ensures !ok ==> records == old(records) && disk == old(disk) && basis == old(basis)
    {
      hide Flat, DiskIndex, ValidName, Accepted, Registered;
      var before := records;
      InFlat(records, (user, name));
      var f := records[user][name].(native := native);
      assert KeyOf(f) == (user, name);
      SoundPut(Flat(records), f);
      FlatPut(records, user, name, f);
      records := Put(records, user, name, f);
      ok := Save(io);
      if !ok {
        records := before;
      }
    }
  }

  /** The registration a key keeps or is given: one above the highest in use. */
  ghost predicate NextRegistration(index: Index, k: Key, r: u32) {
    if k in index then r == index[k].registration
    else r > 0 && (r == 1 || Registered(index, r - 1)) && forall j | j in index :: index[j].registration < r
  }

  /** A new record finds the highest registration taken. */
  ghost predicate NoneLeft(index: Index, user: Bytes, name: Bytes) {
    (user, name) !in index && Registered(index, 0xffff_ffff)
  }

  /** The record would be registered, but all records together could not be written. */
  ghost predicate Overflows(index: Index, user: Bytes, name: Bytes, native: Bytes, hardware: u16) {
    exists after :: Registers(index, after, user, name, native) && !Savable(after, hardware)
  }

  /** One record set to the given template, under the registration it keeps or is given. */
  ghost predicate Registers(before: Index, after: Index, user: Bytes, name: Bytes, native: Bytes) {
    exists r: u32 ::
      NextRegistration(before, (user, name), r) && after == before[(user, name) := Fingerprint(user, name, native, r)]
  }

  /** The records with the template of one of them replaced. */
  ghost function Renewed(index: Index, k: Key, native: Bytes): Index
    requires k in index
  {
    index[k := index[k].(native := native)]
  }

  lemma SoundPut(index: Index, f: Fingerprint)
    requires Sound(index) && ValidName(f.name) && Accepted(f.native) &&
             NextRegistration(index, KeyOf(f), f.registration)
    ensures Sound(index[KeyOf(f) := f])
  {
    hide ValidName, Accepted, Registered;
  }

  predicate Fits(list: seq<Fingerprint>, hardware: u16) {
    |list| <= 1000 && AllPrintable(list) && |Encode(list, hardware)| <= MAX_FILE - OVERHEAD
  }

  /** Few enough records, writable user names, and a file within the size limit. */
  ghost predicate Savable(index: Index, hardware: u16) {
    forall list | Lists(list, index) :: Fits(list, hardware)
  }

  /** Whatever order the walk takes, it decides whether the records can be saved. */
  lemma OneListingDecides(list: seq<Fingerprint>, index: Index, hardware: u16)
    requires Lists(list, index)
    ensures Savable(index, hardware) <==> Fits(list, hardware)
  {
    hide Lists, RecordsBytes, Printable;
    if Fits(list, hardware) {
      forall other | Lists(other, index) ensures Fits(other, hardware) {
        ListingsAgree(list, other, index);
      }
    }
  }

  /** After key or hardware id has changed, loading gives what is in memory exactly when there is
      no file or both are again those the file was written with; otherwise it does not load. */
  lemma LoadsOnlyAsWritten(disk: Option<File>, basis: Origin, now: Origin)
    requires DiskIndex(disk, basis.key, basis.hardware).Some?
    ensures DiskIndex(disk, now.key, now.hardware) == DiskIndex(disk, basis.key, basis.hardware) <==>
              disk.None? || now == basis
    ensures disk.Some? && now != basis ==> DiskIndex(disk, now.key, now.hardware) == None
  {
    hide Decode;
    if disk.Some? && DiskIndex(disk, now.key, now.hardware).Some? {
      OneReader(disk.value.plain, basis.hardware, now.hardware);
    }
  }

  lemma NothingIsSound()
    ensures Flat(map[]) == map[] && Sound(map[])
  {
  }

  lemma RecordIsPrintable(list: seq<Fingerprint>, index: Index, i: nat)
    requires Lists(list, index) && Sound(index) && i < |list|
    ensures Printable(list[i]) <==> Writable(list[i].user)
  {
    hide ValidName;
    assert KeyOf(list[i]) in index;
    ValidNamesAreWritable(list[i].name);
  }
}
