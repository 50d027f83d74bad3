/** Which records a verification compares, and which matches it keeps (`FingerprintStorage::verify`,
    `is_any`, and the policies it passes), in plain terms. */
module WantedRecords {
  import opened Words
  import opened Bytes
  import opened CaptureCodec
  import opened TemplateCodec
  import opened Redundancy
  import opened Retention
  import opened RetentionRuns
  import RetentionGate
  import opened Identification
  import opened PreparedCaptures
  import opened StoreCodec
  import opened Store
  import opened StoreVerification
  import EnrollmentFinish

  /** The letters a, n, y. */
  const ANY: Bytes := [97, 110, 121]

  lemma AnyIs()
    ensures Ascii("any") == ANY
  {
  }

  /** With no name, or the name "any", every record of the user is compared, and no others. */
  lemma AnyMeansAll(list: seq<Fingerprint>, index: Index, user: Bytes, name: Bytes)
    requires InOrder(list, index, user, name) && (name == [] || name == ANY)
    requires forall k | k in index :: KeyOf(index[k]) == k
    ensures forall k | k in index :: index[k] in list <==> k.0 == user
  {
    AnyIs();
    forall k | k in index ensures index[k] in list <==> k.0 == user {
      if index[k] in list {
        var i :| 0 <= i < |list| && list[i] == index[k];
      }
    }
  }

  /** With any other name, exactly the record of that name. */
  lemma NameMeansOne(list: seq<Fingerprint>, index: Index, user: Bytes, name: Bytes)
    requires InOrder(list, index, user, name) && name != [] && name != ANY
    requires forall k | k in index :: KeyOf(index[k]) == k
    ensures list == if (user, name) in index then [index[(user, name)]] else []
  {
    AnyIs();
    forall i | 0 <= i < |list| ensures (user, name) in index && list[i] == index[(user, name)] {
      OnlyThat(list, index, user, name, i);
    }
    if list != [] {
      OnlyThat(list, index, user, name, 0);
    }
    if |list| >= 2 {
      TwoDiffer(list);
      assert false;
    }
    if (user, name) in index {
      assert Wanted(index[(user, name)], user, name);
      assert index[(user, name)] in list;
      assert list == [list[0]];
    }
  }

  lemma OnlyThat(list: seq<Fingerprint>, index: Index, user: Bytes, name: Bytes, i: nat)
    requires InOrder(list, index, user, name) && !IsAny(name) && i < |list|
    ensures (user, name) in index && list[i] == index[(user, name)]
  {
    assert Wanted(list[i], user, name);
  }

  lemma TwoDiffer(list: seq<Fingerprint>)
    requires Ascending(list) && |list| >= 2
    ensures list[0] != list[1]
  {
  }

  /** No finger is called "any". */
  lemma AnyIsNoFinger()
    ensures !ValidName(ANY)
  {
    AnyIs();
    forall i | 0 <= i < |FINGERS| ensures Ascii(FINGERS[i]) != ANY {
      LongNames(i);
    }
  }

  const SIDES: seq<string> := ["left-", "right-"]
  const PARTS: seq<string> := ["thumb", "index-finger", "middle-finger", "ring-finger", "little-finger"]

  /** A finger is named by a hand and one of its five fingers. */
  lemma FingersExactly(name: Bytes)
    ensures ValidName(name) <==>
              exists h, p :: 0 <= h < 2 && 0 <= p < 5 && name == Ascii(SIDES[h] + PARTS[p])
  {
    hide Ascii;
    if ValidName(name) {
      var i :| 0 <= i < |FINGERS| && name == Ascii(FINGERS[i]);
      FingerIs(i / 5, i % 5);
    }
    if h, p :| 0 <= h < 2 && 0 <= p < 5 && name == Ascii(SIDES[h] + PARTS[p]) {
      FingerIs(h, p);
    }
  }

  lemma FingerIs(h: int, p: int)
    requires 0 <= h < 2 && 0 <= p < 5
    ensures |FINGERS| == 10 && SIDES[h] + PARTS[p] == FINGERS[5 * h + p]
  {
    if h == 0 {
      LeftFinger(p);
    } else {
      RightFinger(p);
    }
  }

  lemma LeftFinger(p: int)
    requires 0 <= p < 5
    ensures |FINGERS| == 10 && SIDES[0] + PARTS[p] == FINGERS[p]
  {
    assert "left-" + "thumb" == "left-thumb" && "left-" + "index-finger" == "left-index-finger";
    assert "left-" + "middle-finger" == "left-middle-finger" && "left-" + "ring-finger" == "left-ring-finger";
    assert "left-" + "little-finger" == "left-little-finger";
  }

  lemma RightFinger(p: int)
    requires 0 <= p < 5
    ensures |FINGERS| == 10 && SIDES[1] + PARTS[p] == FINGERS[5 + p]
  {
    assert "right-" + "thumb" == "right-thumb" && "right-" + "index-finger" == "right-index-finger";
    assert "right-" + "middle-finger" == "right-middle-finger" && "right-" + "ring-finger" == "right-ring-finger";
    assert "right-" + "little-finger" == "right-little-finger";
  }

  lemma LongNames(i: nat)
    requires i < |FINGERS|
    ensures |Ascii(FINGERS[i])| > 3
  {
  }

  /** The captures of an adapted template differ from those before only after a score of at least 25
      by a capture of confidence 25, coverage 60 and quality 32 or more. */
  lemma AdaptationNeeds(t: Template, a: Attempt, spatial: Spatial)
    requires GraphShape(t.graph) && |t.collection.captures| == t.graph.used
    requires Step(t, a, POLICY, spatial).template.collection.captures != t.collection.captures
    ensures a.state.reportedScore >= 25 && a.quality.confidence >= 25 && a.quality.coverage >= 60
            && a.quality.quality >= 32
  {
    hide Step;
    RetentionGate.ChangedMeansReached(t, a, POLICY, spatial);
  }

  /** Where there is room, they differ then: the probe becomes the last capture. */
  lemma AdaptationHappens(t: Template, a: Attempt, spatial: Spatial, v: Verdict)
    requires WellFormedTemplate(t, 32) && StorableTemplate(t) && |t.collection.captures| < 32 && a.memory.slot
    requires a.state == StateFor(v) && v.reported >= 25
    requires a.quality.confidence >= 25 && a.quality.coverage >= 60 && a.quality.quality >= 32
    ensures var after := Step(t, a, POLICY, spatial).template;
            && after.collection.captures == t.collection.captures + [a.incoming]
            && after.graph.protectedCount == after.graph.protectedLimit == 8
  {
    hide Step, Triangle, CapturesSize;
    RetentionGate.GateOpen(t, a, POLICY, spatial);
  }

  /** Without all four figures no slot is reported as filled. */
  lemma NoSlotReported(t: Template, a: Attempt, spatial: Spatial, v: Verdict)
    requires GraphShape(t.graph) && |t.collection.captures| == t.graph.used && a.state == StateFor(v)
    requires !RetentionGate.Reaches(a, POLICY)
    ensures Step(t, a, POLICY, spatial).state.retainedSlot == -1
  {
    hide Step;
    RetentionGate.GateShut(t, a, POLICY, spatial);
  }

  /** What the verdict reports besides the match: the score cut at 1000, and whether the probe is
      good, by a score of 5 or a confidence of 20. */
  lemma VerdictReports(list: seq<Fingerprint>, probe: CaptureView, confidence: int, v: Verdict)
    requires AllAccepted(list) && Decides(list, probe, confidence, v)
    ensures v.reported == (if v.score < 1000 then v.score as int else 1000)
    ensures v.good <==> v.score >= 5 || confidence >= 20
  {
    hide Searchable, Best, Scores, Top, CollectionsOf;
  }
}
