/** Verifying a finger against the stored templates (`FingerprintStorage::verify` and `foreach`),
    and adapting the template that matched. */
module StoreVerification {
  import opened Words
  import opened Bytes
  import opened Pairs
  import opened Redundancy
  import opened CaptureCodec
  import opened TemplateCodec
  import opened Retention
  import opened RetentionRuns
  import opened Identification
  import opened PreparedCaptures
  import opened StoreCodec
  import opened Store
  import opened Storage
  import GeometryVerification
  import Matching
  import EnrollmentFinish

  // ----- Stored templates can be searched and adapted -----

  lemma StoredIsUsable(v: CaptureView)
    requires WellFormed(v, DEFAULT_FORMAT) && StorableCapture(v)
    ensures Shaped(v) && Profile300(v) && Enrolled(v)
  {
    hide LevelSum;
    FormatValues();
  }

  lemma StoredAreUsable(cs: seq<CaptureView>)
    requires AllWellFormed(cs) && forall v <- cs :: StorableCapture(v)
    ensures AllShaped(cs) && AllEnrolled(cs)
  {
    hide WellFormed, StorableCapture, Shaped, Profile300, Enrolled;
    forall v <- cs ensures Shaped(v) && Enrolled(v) {
      StoredIsUsable(v);
    }
  }

  function TemplateOf(f: Fingerprint): Template
    requires Accepted(f.native)
  {
    Load(f.native, 32).value
  }

  /** An accepted record never makes a search fail. */
  lemma AcceptedIsSearchable(f: Fingerprint, query: CaptureView)
    requires Accepted(f.native) && Shaped(query) && Profile300(query)
    ensures WellFormedTemplate(TemplateOf(f), 32) && StorableTemplate(TemplateOf(f))
    ensures Searchable(TemplateOf(f).collection.captures, query)
  {
    hide Load, AllWellFormed, StorableCapture, AllShaped, AllEnrolled, Shaped, Profile300, Permutation32, Print,
         CapturesSize, Triangle;
    PrintOfLoad(f.native, 32);
    StoredAreUsable(TemplateOf(f).collection.captures);
  }

  const POLICY: UpdatePolicy := UpdatePolicy(25, 8, Quality(25, 60, 32))

  /** Protection fields come from the policy or stay. */
  lemma StepProtection(t: Template, a: Attempt, policy: UpdatePolicy, spatial: Spatial)
    requires GraphShape(t.graph)
    ensures var g := Step(t, a, policy, spatial).template.graph;
            (g.protectedCount == g.protectedLimit == policy.protection)
            || (g.protectedCount == t.graph.protectedCount && g.protectedLimit == t.graph.protectedLimit)
  {
    hide Victim, CostsOf, PutScores, ChooseSlot, Triangle, AgeUsed;
  }

  /** An adapted template is accepted again, whatever the update did. */
  lemma AdaptedIsAccepted(t: Template, a: Attempt, spatial: Spatial)
    requires WellFormedTemplate(t, 32) && StorableTemplate(t)
    requires WellFormed(a.incoming, DEFAULT_FORMAT) && StorableCapture(a.incoming)
    ensures var after := Step(t, a, POLICY, spatial).template;
            WellFormedTemplate(after, 32) && StorableTemplate(after) && Accepted(Print(after, 32))
  {
    hide Step, Kept, PutScores, Triangle, WellFormed, StorableCapture, Permutation32, CapturesSize, Load, Print;
    StepPlaces(t, a, POLICY, spatial);
    StepProtection(t, a, POLICY, spatial);
    var after := Step(t, a, POLICY, spatial).template;
    assert forall v <- after.collection.captures :: v == a.incoming || v in t.collection.captures;
    StoredCapturesFit(after.collection.captures);
    TriangleClosedForm(32);
    StorableIsAccepted(after);
  }

  /** The template of a finished enrollment can be stored. */
  lemma EnrolledIsAccepted(cs: seq<CaptureView>, t: Template)
    requires EnrollmentFinish.Established(cs, t)
    ensures StorableTemplate(t) && Accepted(Print(t, 32))
  {
    hide Triangle, WellFormed, CapturesSize, Load, Print, StablyAscending, Entry, FromFeatures, Coordinates,
         DescriptorBytes;
    forall v <- t.collection.captures ensures StorableCapture(v) {
      var i :| 0 <= i < |cs| && cs[i] == v;
      assert EnrollmentFinish.Enrollment.EnrolledCapture(cs[i]);
      EnrolledIsStorable(v);
    }
    StorableIsAccepted(t);
  }

  lemma EnrolledIsStorable(v: CaptureView)
    requires EnrollmentFinish.Enrollment.EnrolledCapture(v)
    ensures StorableCapture(v)
  {
    hide Coordinates, DescriptorBytes, IsMembership;
  }

  // ----- The order of the search -----

  predicate IsAny(name: Bytes) {
    name == [] || name == Ascii("any")
  }

  predicate Wanted(f: Fingerprint, user: Bytes, name: Bytes) {
    f.user == user && (IsAny(name) || f.name == name)
  }

  predicate Ascending(list: seq<Fingerprint>) {
    forall i, j | 0 <= i < j < |list| :: list[i].registration < list[j].registration
  }

  /** The wanted records, each once, in registration order. */
  ghost predicate InOrder(list: seq<Fingerprint>, index: Index, user: Bytes, name: Bytes) {
    && (forall i | 0 <= i < |list| ::
        KeyOf(list[i]) in index && index[KeyOf(list[i])] == list[i] && Wanted(list[i], user, name))
    && Ascending(list)
    && (forall k | k in index && Wanted(index[k], user, name) :: index[k] in list)
  }

  function Insert(list: seq<Fingerprint>, f: Fingerprint): (r: seq<Fingerprint>) {
    if list == [] || f.registration < list[0].registration then [f] + list else [list[0]] + Insert(list[1..], f)
  }

  lemma {:induction false} InsertMeans(list: seq<Fingerprint>, f: Fingerprint)
    requires Ascending(list) && forall i | 0 <= i < |list| :: list[i].registration != f.registration
    ensures Ascending(Insert(list, f)) && forall g :: g in Insert(list, f) <==> g == f || g in list
  {
    if list != [] && f.registration >= list[0].registration {
      InsertMeans(list[1..], f);
      var rest := Insert(list[1..], f);
      assert forall g :: g in list <==> g == list[0] || g in list[1..];
      forall i | 0 <= i < |rest| ensures list[0].registration < rest[i].registration {
        assert rest[i] in rest;
      }
    }
  }

  /** `foreach` with the name filter of `verify`: the user's records sorted by registration. */
  method Select(store: FingerprintStorage, user: Bytes, name: Bytes) returns (list: seq<Fingerprint>)
    requires Sound(Flat(store.records))
    ensures InOrder(list, Flat(store.records), user, name)
  {
    hide Flat, StorableRecord, Insert;
    list := [];
    var r := store.records;
    if user !in r {
      NoSuchUser(r, user);
      return;
    }
    ghost var index := Flat(r);
    NamesOfUser(r, user);
    var names := r[user].Keys;
    while names != {}
      invariant names <= r[user].Keys && Ascending(list)
      invariant forall g ::
                  g in list <==> KeyOf(g) in index && index[KeyOf(g)] == g && Wanted(g, user, name) && g.name !in names
      decreases |names|
    {
      var n :| n in names;
      var f := r[user][n];
      InFlat(r, (user, n));
      names := names - {n};
      if IsAny(name) || name == f.name {
        InsertMeans(list, f);
        list := Insert(list, f);
      }
    }
    forall k | k in index && Wanted(index[k], user, name) ensures index[k] in list {
      assert KeyOf(index[k]) == k;
    }
  }

  lemma NamesOfUser(r: Records, user: Bytes)
    requires user in r
    ensures forall k :: k in Flat(r) && k.0 == user ==> k.1 in r[user].Keys
  {
    hide Flat;
    forall k | k in Flat(r) && k.0 == user ensures k.1 in r[user].Keys {
      InFlat(r, k);
    }
  }

  lemma NoSuchUser(r: Records, user: Bytes)
    requires user !in r
    ensures forall k :: k in Flat(r) ==> k.0 != user
  {
    hide Flat;
    forall k | k in Flat(r) ensures k.0 != user {
      InFlat(r, k);
    }
  }

  // ----- The search -----

  predicate AllAccepted(list: seq<Fingerprint>) {
    forall f <- list :: Accepted(f.native)
  }

  function CollectionsOf(list: seq<Fingerprint>): (cs: seq<seq<CaptureView>>)
    requires AllAccepted(list)
    ensures |cs| == |list|
  {
    seq(|list|, i requires 0 <= i < |list| => TemplateOf(list[i]).collection.captures)
  }

  lemma InOrderIsAccepted(list: seq<Fingerprint>, index: Index, user: Bytes, name: Bytes)
    requires InOrder(list, index, user, name) && Sound(index)
    ensures AllAccepted(list)
  {
    hide Accepted, Wanted, ValidName;
    forall f <- list ensures Accepted(f.native) {
      var i :| 0 <= i < |list| && list[i] == f;
      assert KeyOf(f) in index && index[KeyOf(f)] == f;
    }
  }

  lemma CollectionsAreSearchable(list: seq<Fingerprint>, probe: CaptureView)
    requires AllAccepted(list) && Shaped(probe) && Profile300(probe)
    ensures AllSearchable(CollectionsOf(list), probe)
    ensures forall c <- CollectionsOf(list) :: AllShaped(c)
  {
    hide Accepted, TemplateOf, Searchable, Shaped, Profile300, AllShaped;
    forall i | 0 <= i < |list| ensures Searchable(CollectionsOf(list)[i], probe) && AllShaped(CollectionsOf(list)[i]) {
      assert list[i] in list;
      AcceptedIsSearchable(list[i], probe);
      SearchableIsShaped(CollectionsOf(list)[i], probe);
    }
  }

  lemma SearchableIsShaped(cs: seq<CaptureView>, probe: CaptureView)
    requires Searchable(cs, probe)
    ensures AllShaped(cs)
  {
  }

  /** Scores do not read the membership bits of the probe. */
  lemma MembershipIsNotRead(v: CaptureView, probe: CaptureView, marked: Bytes)
    requires Shaped(v) && Enrolled(v) && Shaped(probe) && Profile300(probe) && |marked| == |probe.membership|
    ensures var p := probe.(membership := marked);
            Shaped(p) && Profile300(p) && SpatialScore(v, p) == SpatialScore(v, probe)
  {
    hide GeometryVerification.Verified, Matching.Candidates, Matching.Distances, LevelOf, LevelSum;
    var p := probe.(membership := marked);
    assert Shaped(p) && Profile300(p);
    assert PairsOf(v, p) == PairsOf(v, probe);
    assert PointsOf(v, p, PairsOf(v, p)) == PointsOf(v, probe, PairsOf(v, probe));
  }

  const IDENTIFICATION: Policy := Policy(18, 1000, 5, 20)

  /** State an update starts from after this verdict. */
  function StateFor(v: Verdict): UpdateState {
    UpdateState(102, 1, 1, 1, v.reported, v.selectedCapture, false, -1)
  }

  /** What verifying decides: some wanted record's best capture scores at least 18, and the one
      chosen is the first such record in registration order. */
  ghost predicate Decides(list: seq<Fingerprint>, probe: CaptureView, quality: int, v: Verdict)
    requires AllAccepted(list)
  {
    Identifies(CollectionsOf(list), probe, quality, IDENTIFICATION, v)
  }

  ghost predicate Verdicts(index: Index, user: Bytes, name: Bytes, query: PreparedCapture,
                           list: seq<Fingerprint>, probe: CaptureView, v: Verdict) {
    && InOrder(list, index, user, name) && AllAccepted(list) && FromFeatures(probe, query.features, false)
    && Decides(list, probe, query.confidence, v)
  }

  /** The adapted template of the record found: one update of the retained graph with the live
      scores, the probe carrying the membership bits that searching set. */
  ghost predicate Adapts(f: Fingerprint, probe: CaptureView, marks: set<nat>, query: PreparedCapture, v: Verdict,
                         memory: Memory, native: Bytes) {
    && Accepted(f.native)
    && exists marked: Bytes ::
         var a := Attempt(probe.(membership := marked), Quality(query.confidence, query.coverage, query.quality),
                          StateFor(v), memory);
         && |marked| == |probe.membership| && Marked(probe.membership, marked, marks)
         && WellFormedTemplate(TemplateOf(f), 32)
         && var r := Step(TemplateOf(f), a, POLICY, EnrollmentFinish.LiveSpatial());
         r.status == 0 && WellFormedTemplate(r.template, 32) && native == Print(r.template, 32)
  }

  /** Updates the template of a matched record; nothing when the update fails or memory is short. */
  method Adapt(f: Fingerprint, probe: CaptureView, ghost marks: set<nat>, marked: Bytes, query: PreparedCapture,
               v: Verdict, spatial: seq<u16>, memory: Memory)
    returns (native: Option<Bytes>)
    requires Accepted(f.native) && FromFeatures(probe, query.features, false) && |marked| == |probe.membership|
    requires Marked(probe.membership, marked, marks)
    requires Searchable(TemplateOf(f).collection.captures, probe)
    requires spatial == SpatialScores(TemplateOf(f).collection.captures, probe)
    ensures native.Some? ==> Adapts(f, probe, marks, query, v, memory, native.value) && Accepted(native.value)
    ensures memory.costs && memory.slot ==> native.Some?
  {
    hide Accepted, TemplateOf, FromFeatures, Updated, Print, SpatialScore, Coordinates, DescriptorBytes,
         StorableTemplate, Searchable, Enrolled, Profile300, Shaped, Marked;
    ProbeIsStorable(probe, query.features, marked);
    AcceptedIsSearchable(f, probe);
    var t := TemplateOf(f);
    var loaded := new LoadedTemplate(t);
    var incoming := probe.(membership := marked);
    ghost var live := EnrollmentFinish.LiveSpatial();
    var q := Quality(query.confidence, query.coverage, query.quality);
    ScoresAreLive(t, probe, marked);
    ghost var a := Attempt(incoming, q, StateFor(v), memory);
    AdaptedIsAccepted(t, a, live);
    UpdateSucceeds(t, incoming, q, spatial, StateFor(v), memory);
    var after, status, changed := loaded.Update(incoming, q, spatial, POLICY, StateFor(v), memory);
    if status != 0 {
      return None;
    }
    ghost var r := Step(t, a, POLICY, live);
    assert r == Report(loaded.Value(), after, status, changed);
    var g := TemplateCodec.Graph(loaded.used, loaded.capacity, loaded.protectedCount, loaded.protectedLimit,
                                 loaded.ageThreshold,
                   loaded.order[..], loaded.scores[..], loaded.ages[..]);
    native := Some(Print(Template(g, Collection(loaded.captures, loaded.collectionCapacity), loaded.metadata), 32));
  }

  /** With memory, updating a stored template succeeds: it has a score for every capture, and its
      order names slots only. */
  lemma UpdateSucceeds(t: Template, incoming: CaptureView, q: Quality, latest: seq<u16>, state: UpdateState,
                       memory: Memory)
    requires WellFormedTemplate(t, 32) && StorableTemplate(t) && state.code == 102
    requires |latest| == |t.collection.captures|
    ensures memory.costs && memory.slot ==> Updated(t, incoming, q, latest, POLICY, state, memory).status == 0
  {
    hide Victim, CostsOf, PutScores, AgeUsed, Triangle, CapturesSize;
  }

  lemma ProbeIsStorable(probe: CaptureView, fs: seq<Feature>, marked: Bytes)
    requires FromFeatures(probe, fs, false) && |marked| == |probe.membership|
    ensures Shaped(probe) && Profile300(probe)
    ensures WellFormed(probe.(membership := marked), DEFAULT_FORMAT) && StorableCapture(probe.(membership := marked))
  {
    hide LevelSum, Coordinates, DescriptorBytes;
    ViewIsUsable(probe, fs, false);
  }

  lemma ScoresAreLive(t: Template, probe: CaptureView, marked: Bytes)
    requires Searchable(t.collection.captures, probe) && Shaped(probe) && Profile300(probe) &&
             |marked| == |probe.membership|
    ensures Matches(t, EnrollmentFinish.LiveSpatial(), probe.(membership := marked)) ==
            SpatialScores(t.collection.captures, probe)
  {
    hide SpatialScore, Shaped, Profile300, Enrolled;
    var cs := t.collection.captures;
    forall i | 0 <= i < |cs|
      ensures EnrollmentFinish.LiveSpatial()(cs[i], probe.(membership := marked)) == SpatialScores(cs, probe)[i]
    {
      assert cs[i] in cs;
      MembershipIsNotRead(cs[i], probe, marked);
    }
  }

  /** The verdict in full: a finger is accepted exactly when some wanted record reaches 18, and
      the record adapted is the first of those in registration order. */
  lemma VerdictMeans(index: Index, user: Bytes, name: Bytes, query: PreparedCapture, list: seq<Fingerprint>,
                     probe: CaptureView, v: Verdict)
    requires Verdicts(index, user, name, query, list, probe, v) && Shaped(probe) && Profile300(probe)
    ensures AllSearchable(CollectionsOf(list), probe)
    ensures var bests := Bests(CollectionsOf(list), probe);
            && (v.matched <==> exists i :: 0 <= i < |list| && bests[i] >= 18)
            && (v.matched ==> 0 <= v.selectedTemplate < |list| && v.score == bests[v.selectedTemplate] >= 18
                              && forall i | 0 <= i < v.selectedTemplate :: bests[i] < 18)
  {
    hide Searchable, Best, Identifies, InOrder, FromFeatures, Shaped, Profile300, CollectionsOf;
    CollectionsAreSearchable(list, probe);
    FirstTemplateWins(CollectionsOf(list), probe, query.confidence, IDENTIFICATION, v);
    SelectedInRange(CollectionsOf(list), probe, query.confidence, v);
  }

  lemma SelectedInRange(collections: seq<seq<CaptureView>>, probe: CaptureView, quality: int, v: Verdict)
    requires Identifies(collections, probe, quality, IDENTIFICATION, v)
    ensures v.matched ==> 0 <= v.selectedTemplate < |collections|
  {
  }

  /** Identifies the probe and, on a match, adapts and saves the template found. `memory` and
      `again` tell whether allocations succeed in the first and the second pass. */
  method Verify(store: FingerprintStorage, user: Bytes, name: Bytes, query: PreparedCapture,
                shortage: bool, memory: (nat, nat) -> bool, again: nat -> bool, update: Memory, io: bool)
    returns (reply: Reply, ghost list: seq<Fingerprint>, ghost probe: CaptureView, ghost v: Verdict, ghost saved: bool)
    requires store.Valid()
    modifies store`records, store`disk, store`basis
    ensures store.Valid()
    ensures reply.Done? ==>
              Verdicts(old(Flat(store.records)), user, name, query, list, probe, v) && (reply.value <==> v.matched)
    ensures reply.Done? ==> !shortage && |query.features| <= 300 && |list| <= 100
    ensures !shortage && |query.features| <= 300 && (forall i, k :: memory(i, k)) && (forall k :: again(k)) &&
            update.costs && update.slot ==>
              InOrder(list, old(Flat(store.records)), user, name) && (reply.Done? <==> |list| <= 100)
    ensures reply == Done(true) ==>
              0 <= v.selectedTemplate < |list| &&
              Adapted(old(Flat(store.records)), Flat(store.records), list[v.selectedTemplate], probe,
                      MarksOf(list, probe, query.confidence, v), query, v, update, saved, io, store.hardware)
    ensures reply != Done(true) ==> !saved
    ensures !saved ==>
              store.records == old(store.records) && store.disk == old(store.disk) && store.basis == old(store.basis)
  {
    hide Flat, Sound, DiskIndex, Accepted, TemplateOf, FromFeatures, Identifies, Adapts, CollectionResult, Searchable,
         Shaped, Profile300, Enrolled, GeometryVerification.Member, CollectionMarks, AllShaped, InOrder, CollectionsOf;
    list, v, saved := [], Verdict(0, 0, 0, false, -1, 0, false), false;
    var built := FromPrepared(query, false, !shortage);
    if built.None? {
      probe := Bare(0);
      return Thrown, list, probe, v, false;
    }
    probe := built.value;
    ProbeIsUsable(built.value, query.features);
    var records := Select(store, user, name);
    list := records;
    InOrderIsAccepted(records, Flat(store.records), user, name);
    CollectionsAreSearchable(records, built.value);
    var collections := CollectionsOf(records);
    var bits := built.value.membership;
    var target := new u8[|bits|](k requires 0 <= k < |bits| => bits[k]);
    assert target[..] == bits;
    var ok, verdict := Identify(collections, built.value, query.confidence, target, IDENTIFICATION, memory);
    v := verdict;
    if !ok {
      return Thrown, list, probe, v, false;
    }
    if !verdict.matched {
      return Done(false), list, probe, v, false;
    }
    SelectedInRange(collections, built.value, query.confidence, verdict);
    var f := records[verdict.selectedTemplate];
    assert f in records;
    ghost var searched := target[..];
    var found;
    ok, found := MatchCollection(collections[verdict.selectedTemplate], built.value, target, again);
    if !ok {
      return Thrown, list, probe, v, false;
    }
    SelectedCollection(records, verdict.selectedTemplate, built.value);
    MarksAgain(list, probe, query.confidence, v, bits, searched, target[..]);
    ghost var marks := MarksOf(list, probe, query.confidence, v);
    var native := Adapt(f, built.value, marks, target[..], query, verdict, found.spatial, update);
    if native.None? {
      return Thrown, list, probe, v, false;
    }
    SelectedIsStored(store.records, records, user, name, verdict.selectedTemplate);
    var replaced := store.ReplaceNative(f.user, f.name, native.value, io);
    return Done(true), list, probe, v, replaced;
  }

  /** The record found changes to its adapted template exactly when all records can then be saved;
      otherwise nothing changes. */
  ghost predicate Adapted(before: Index, after: Index, f: Fingerprint, probe: CaptureView, marks: set<nat>,
                          query: PreparedCapture, v: Verdict, memory: Memory, saved: bool, io: bool, hardware: u16) {
    && KeyOf(f) in before
    && exists native: Bytes ::
         && Adapts(f, probe, marks, query, v, memory, native)
         && (saved <==> io && Savable(Renewed(before, KeyOf(f), native), hardware))
         && after == if saved then Renewed(before, KeyOf(f), native) else before
  }

  /** Probe features that became members while the records were searched. */
  ghost function MarksOf(list: seq<Fingerprint>, probe: CaptureView, quality: int, v: Verdict): set<nat>
    requires AllAccepted(list) && Decides(list, probe, quality, v)
  {
    AllMarks(CollectionsOf(list)[..v.evaluated], probe)
  }

  /** Matching the record found once more marks nothing new. */
  lemma MarksAgain(list: seq<Fingerprint>, probe: CaptureView, quality: int, v: Verdict, start: Bytes, searched: Bytes,
                   again: Bytes)
    requires AllAccepted(list) && Decides(list, probe, quality, v) && v.matched
    requires Marked(start, searched, MarksOf(list, probe, quality, v))
    requires Searchable(CollectionsOf(list)[v.selectedTemplate], probe)
    requires Marked(searched, again, CollectionMarks(CollectionsOf(list)[v.selectedTemplate], probe))
    ensures Marked(start, again, MarksOf(list, probe, quality, v))
  {
    hide Searchable, CollectionMarks, Marked, CollectionsOf, Accepted, AllMarks, Identifies;
    var collections, n := CollectionsOf(list), v.selectedTemplate;
    SelectedIsLast(collections, probe, quality, v);
    MarksStep(collections, probe, n);
    var all, last := AllMarks(collections[..n + 1], probe), CollectionMarks(collections[n], probe);
    MarkedTwice(start, searched, again, all, last);
    assert all + last == all;
  }

  lemma SelectedIsLast(collections: seq<seq<CaptureView>>, probe: CaptureView, quality: int, v: Verdict)
    requires Identifies(collections, probe, quality, IDENTIFICATION, v) && v.matched
    ensures 0 <= v.selectedTemplate < |collections| && v.evaluated == v.selectedTemplate + 1
    ensures AllSearchable(collections[..v.selectedTemplate + 1], probe)
  {
    hide Searchable, Best, Scores, Top;
  }

  lemma ProbeIsUsable(probe: CaptureView, fs: seq<Feature>)
    requires FromFeatures(probe, fs, false)
    ensures Shaped(probe) && Profile300(probe) && |probe.membership| == MembershipBytes(probe.count)
  {
    hide LevelSum, Coordinates, DescriptorBytes;
    ViewIsUsable(probe, fs, false);
  }

  lemma SelectedCollection(list: seq<Fingerprint>, i: nat, probe: CaptureView)
    requires AllAccepted(list) && i < |list| && Searchable(CollectionsOf(list)[i], probe)
    ensures list[i] in list && CollectionsOf(list)[i] == TemplateOf(list[i]).collection.captures
    ensures CollectionResult(CollectionsOf(list)[i], probe).spatial == SpatialScores(CollectionsOf(list)[i], probe)
  {
  }

  lemma SelectedIsStored(r: Records, list: seq<Fingerprint>, user: Bytes, name: Bytes, i: nat)
    requires InOrder(list, Flat(r), user, name) && i < |list|
    ensures Holds(r, list[i].user, list[i].name)
  {
    hide Flat;
    InFlat(r, KeyOf(list[i]));
  }
}
