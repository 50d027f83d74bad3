/** What holds over every run of template updates: the packed graph mirrors the captures it
    summarises, ages count updates, and protected captures stay. */
module RetentionRuns {
  import opened Words
  import opened Bytes
  import opened Pairs
  import opened Redundancy
  import opened CaptureCodec
  import opened TemplateCodec
  import opened Retention

  /** Spatial score of an incoming capture matched against a stored one. */
  type Spatial = (CaptureView, CaptureView) -> u16

  datatype Attempt = Attempt(incoming: CaptureView, quality: Quality, state: UpdateState, memory: Memory)

  /** When a slot's capture was last matched or inserted, and the age it had then. */
  datatype Mark = Mark(age: nat, at: nat)

  /** A template with the history its graph and ages are supposed to reflect. */
  datatype Tracked = Tracked(t: Template, stamps: seq<nat>, clock: nat, marks: seq<Mark>, ticks: nat)

  function Matches(t: Template, spatial: Spatial, incoming: CaptureView): seq<u16> {
    seq(|t.collection.captures|, i requires 0 <= i < |t.collection.captures| =>
        spatial(t.collection.captures[i], incoming))
  }

  ghost function Step(t: Template, a: Attempt, policy: UpdatePolicy, spatial: Spatial): Report
    requires GraphShape(t.graph)
  {
    Updated(t, a.incoming, a.quality, Matches(t, spatial, a.incoming), policy, a.state, a.memory)
  }

  predicate Ticks(t: Template, a: Attempt) {
    a.state.code == 102 && Permitted(a.state) && t.graph.used <= |t.graph.ages|
  }

  /** Slot that the incoming capture took, if it was retained. */
  ghost function Kept(t: Template, a: Attempt, policy: UpdatePolicy, spatial: Spatial): Option<nat>
    requires GraphShape(t.graph)
  {
    if Ticks(t, a) && GoodEnough(a.state.reportedScore, a.quality, policy) then
      var r := Retained(Aged(t, a.state.selectedCapture), a.incoming, Matches(t, spatial, a.incoming),
                        policy.protection, a.memory);
      if r.status == 0 && r.selected >= 0 then Some(r.selected) else None
    else None
  }

  function Put<T>(s: seq<T>, i: nat, x: T): seq<T>
    requires i <= |s|
  {
    if i == |s| then s + [x] else s[i := x]
  }

  function Touch(marks: seq<Mark>, i: int, now: nat): seq<Mark> {
    if 0 <= i < |marks| then marks[i := Mark(0, now)] else marks
  }

  ghost predicate Linked(tr: Tracked) {
    && GraphShape(tr.t.graph) && |tr.t.collection.captures| == tr.t.graph.used == |tr.stamps| == |tr.marks|
    && tr.t.graph.capacity <= |tr.t.graph.ages|
  }

  lemma KeptFits(t: Template, a: Attempt, policy: UpdatePolicy, spatial: Spatial)
    requires GraphShape(t.graph)
    ensures Kept(t, a, policy, spatial).Some? ==>
              Ticks(t, a) && Kept(t, a, policy, spatial).value <= t.graph.used &&
                  Kept(t, a, policy, spatial).value < t.graph.capacity
  {
    hide Victim, CostsOf, PutScores, ChooseSlot, AgeUsed, Triangle;
    var aged := Aged(t, a.state.selectedCapture);
    if RetainReady(aged, Matches(t, spatial, a.incoming)) {
      SlotFits(aged.graph, Matches(t, spatial, a.incoming), policy.protection, a.memory);
    }
  }

  /** The history advances alongside the update. */
  ghost function Advance(tr: Tracked, a: Attempt, policy: UpdatePolicy, spatial: Spatial): Tracked
    requires Linked(tr)
  {
    KeptFits(tr.t, a, policy, spatial);
    var ticks := if Ticks(tr.t, a) then tr.ticks + 1 else tr.ticks;
    var touched := if Ticks(tr.t, a) then Touch(tr.marks, a.state.selectedCapture, ticks) else tr.marks;
    var after := Step(tr.t, a, policy, spatial).template;
    match Kept(tr.t, a, policy, spatial)
    case None => Tracked(after, tr.stamps, tr.clock, touched, ticks)
    case Some(slot) =>
      Tracked(after, Put(tr.stamps, slot, tr.clock), tr.clock + 1, Put(touched, slot, Mark(0, ticks)), ticks)
  }

  // ----- One update, seen from outside -----

  /** An update either places the newcomer, capture and scores together, or leaves both alone. */
  lemma StepPlaces(t: Template, a: Attempt, policy: UpdatePolicy, spatial: Spatial)
    requires GraphShape(t.graph) && |t.collection.captures| == t.graph.used
    ensures var after := Step(t, a, policy, spatial).template;
            var latest := Matches(t, spatial, a.incoming);
            && after.graph.order == t.graph.order && after.graph.capacity == t.graph.capacity
            && |after.graph.ages| == |t.graph.ages| && GraphShape(after.graph)
            && after.collection.capacity == t.collection.capacity && after.metadata == t.metadata
            && after.graph.ageThreshold == t.graph.ageThreshold
            && match Kept(t, a, policy, spatial)
               case None =>
                 && after.graph.scores == t.graph.scores && after.graph.used == t.graph.used
                 && after.collection.captures == t.collection.captures
               case Some(slot) =>
                 && slot <= t.graph.used && slot < t.graph.capacity
                 && after.graph.scores == PutScores(t.graph.scores, t.graph.capacity, slot, latest, t.graph.used)
                 && after.graph.used == (if slot == t.graph.used then t.graph.used + 1 else t.graph.used)
                 && after.collection.captures == TakeInto(t.collection.captures, slot, a.incoming)
  {
    hide Victim, CostsOf, PutScores, ChooseSlot, Triangle, AgeUsed;
    KeptFits(t, a, policy, spatial);
  }

  /** A failed update, an allocation failure among them, never splits captures from scores. */
  lemma FailureNeverSplits(t: Template, a: Attempt, policy: UpdatePolicy, spatial: Spatial)
    requires GraphShape(t.graph) && |t.collection.captures| == t.graph.used && Step(t, a, policy, spatial).status != 0
    ensures var after := Step(t, a, policy, spatial).template;
            && after.graph.scores == t.graph.scores && after.graph.used == t.graph.used
            && after.collection == t.collection
  {
    hide Victim, CostsOf, PutScores, ChooseSlot, AgeUsed, Triangle;
    StepPlaces(t, a, policy, spatial);
    assert Kept(t, a, policy, spatial) == None;
  }

  // ----- The mirror -----

  /** Entry of slots i and j: the score the later capture got against the earlier one. */
  ghost predicate Mirrors(tr: Tracked, spatial: Spatial)
    requires Linked(tr)
  {
    && (forall i | 0 <= i < |tr.stamps| :: tr.stamps[i] < tr.clock)
    && (forall i, j | 0 <= i < |tr.stamps| && 0 <= j < |tr.stamps| && i != j :: tr.stamps[i] != tr.stamps[j])
    && (forall i: nat, j: nat | i < tr.t.graph.used && j < tr.t.graph.used && tr.stamps[i] < tr.stamps[j] ::
          Entry(tr.t.graph.scores, tr.t.graph.capacity, i, j) ==
              spatial(tr.t.collection.captures[i], tr.t.collection.captures[j]))
  }

  lemma AdvanceKeepsLinked(tr: Tracked, a: Attempt, policy: UpdatePolicy, spatial: Spatial)
    requires Linked(tr)
    ensures Linked(Advance(tr, a, policy, spatial))
  {
    hide Step, Kept;
    KeptFits(tr.t, a, policy, spatial);
    StepPlaces(tr.t, a, policy, spatial);
  }

  lemma AdvanceKeepsMirror(tr: Tracked, a: Attempt, policy: UpdatePolicy, spatial: Spatial)
    requires Linked(tr) && Mirrors(tr, spatial)
    ensures Linked(Advance(tr, a, policy, spatial)) && Mirrors(Advance(tr, a, policy, spatial), spatial)
  {
    hide Step, Kept, PutScores, Entry;
    KeptFits(tr.t, a, policy, spatial);
    StepPlaces(tr.t, a, policy, spatial);
    AdvanceKeepsLinked(tr, a, policy, spatial);
    var next := Advance(tr, a, policy, spatial);
    match Kept(tr.t, a, policy, spatial)
    case None =>
    case Some(slot) =>
      var g, latest := tr.t.graph, Matches(tr.t, spatial, a.incoming);
      forall i: nat, j: nat | i < next.t.graph.used && j < next.t.graph.used && next.stamps[i] < next.stamps[j]
        ensures Entry(next.t.graph.scores, next.t.graph.capacity, i, j) ==
                spatial(next.t.collection.captures[i], next.t.collection.captures[j])
      {
        PutEntry(g.scores, g.capacity, slot, latest, g.used, i, j);
        assert i != slot;
      }
  }

  ghost function Run(tr: Tracked, attempts: seq<Attempt>, policy: UpdatePolicy, spatial: Spatial): Tracked
    requires Linked(tr)
    decreases |attempts|
  {
    if attempts == [] then tr
    else
      AdvanceKeepsLinked(tr, attempts[0], policy, spatial);
      Run(Advance(tr, attempts[0], policy, spatial), attempts[1..], policy, spatial)
  }

  /** Over every run of updates the graph keeps mirroring the captures. */
  lemma {:induction false} RunKeepsMirror(tr: Tracked, attempts: seq<Attempt>, policy: UpdatePolicy, spatial: Spatial)
    requires Linked(tr) && Mirrors(tr, spatial)
    ensures Linked(Run(tr, attempts, policy, spatial)) && Mirrors(Run(tr, attempts, policy, spatial), spatial)
    decreases |attempts|
  {
    hide Advance, Mirrors;
    if attempts != [] {
      AdvanceKeepsMirror(tr, attempts[0], policy, spatial);
      RunKeepsMirror(Advance(tr, attempts[0], policy, spatial), attempts[1..], policy, spatial);
    }
  }

  // ----- Ages -----

  /** Each age is the saturated number of updates since the mark, on top of the marked age. */
  ghost predicate AgesExact(tr: Tracked)
    requires Linked(tr)
  {
    forall i | 0 <= i < |tr.marks| ::
      && tr.marks[i].at <= tr.ticks
      && tr.t.graph.ages[i] == Saturate(tr.marks[i].age + (tr.ticks - tr.marks[i].at))
  }

  function Saturate(x: nat): u16 {
    if x < 65535 then x else 65535
  }

  /** Ages after an update, whatever it did to captures and scores. */
  lemma StepAges(t: Template, a: Attempt, policy: UpdatePolicy, spatial: Spatial)
    requires GraphShape(t.graph) && |t.collection.captures| == t.graph.used && t.graph.capacity <= |t.graph.ages|
    ensures var after := Step(t, a, policy, spatial).template;
            after.graph.ages ==
            if !Ticks(t, a) then t.graph.ages
            else
              var aged := Aged(t, a.state.selectedCapture).graph.ages;
              match Kept(t, a, policy, spatial)
              case None => aged
              case Some(slot) => if slot < |aged| then aged[slot := 0] else aged
  {
    hide Victim, CostsOf, PutScores, ChooseSlot, AgeUsed, Triangle;
    KeptFits(t, a, policy, spatial);
  }

  lemma AdvanceKeepsAges(tr: Tracked, a: Attempt, policy: UpdatePolicy, spatial: Spatial)
    requires Linked(tr) && AgesExact(tr)
    ensures Linked(Advance(tr, a, policy, spatial)) && AgesExact(Advance(tr, a, policy, spatial))
  {
    hide Step, Kept, PutScores;
    KeptFits(tr.t, a, policy, spatial);
    StepPlaces(tr.t, a, policy, spatial);
    StepAges(tr.t, a, policy, spatial);
    AdvanceKeepsLinked(tr, a, policy, spatial);
    var next := Advance(tr, a, policy, spatial);
    forall i | 0 <= i < |next.marks|
      ensures next.marks[i].at <= next.ticks
      ensures next.t.graph.ages[i] == Saturate(next.marks[i].age + (next.ticks - next.marks[i].at))
    {
      if i < |tr.marks| {
        assert tr.t.graph.ages[i] == Saturate(tr.marks[i].age + (tr.ticks - tr.marks[i].at));
      }
    }
  }

  lemma {:induction false} RunKeepsAges(tr: Tracked, attempts: seq<Attempt>, policy: UpdatePolicy, spatial: Spatial)
    requires Linked(tr) && AgesExact(tr)
    ensures Linked(Run(tr, attempts, policy, spatial)) && AgesExact(Run(tr, attempts, policy, spatial))
    decreases |attempts|
  {
    hide Advance, AgesExact;
    if attempts != [] {
      AdvanceKeepsAges(tr, attempts[0], policy, spatial);
      RunKeepsAges(Advance(tr, attempts[0], policy, spatial), attempts[1..], policy, spatial);
    }
  }

  // ----- Protection -----

  predicate Distinct(order: seq<u16>) {
    forall p, q | 0 <= p < q < |order| :: order[p] != order[q]
  }

  /** Captures in the first `protection` positions of the order are the same. */
  predicate ProtectedSame(before: Template, after: Template, protection: u16) {
    forall k | 0 <= k < protection && k < |before.graph.order| &&
        before.graph.order[k] < |before.collection.captures| ::
      && before.graph.order[k] < |after.collection.captures|
      && after.collection.captures[before.graph.order[k]] == before.collection.captures[before.graph.order[k]]
  }

  lemma StepProtects(t: Template, a: Attempt, policy: UpdatePolicy, spatial: Spatial)
    requires GraphShape(t.graph) && |t.collection.captures| == t.graph.used && Distinct(t.graph.order)
    ensures ProtectedSame(t, Step(t, a, policy, spatial).template, policy.protection)
  {
    hide Step, PutScores, Victim, Cost, NewcomerCost;
    StepPlaces(t, a, policy, spatial);
    match Kept(t, a, policy, spatial)
    case None =>
    case Some(slot) =>
      if slot < t.graph.used {
        var g := Aged(t, a.state.selectedCapture).graph;
        var costs := CostsOf(g.scores, g.used, Matches(t, spatial, a.incoming));
        assert slot == Victim(g.order, g.ages, costs, costs[g.used], g.ageThreshold, policy.protection);
        VictimExactly(g.order, g.ages, costs, costs[g.used], g.ageThreshold, policy.protection);
      }
  }

  /** Protected captures survive every run, and the protecting order itself never changes. */
  lemma {:induction false} RunProtects(tr: Tracked, attempts: seq<Attempt>, policy: UpdatePolicy, spatial: Spatial)
    requires Linked(tr) && Distinct(tr.t.graph.order)
    ensures Run(tr, attempts, policy, spatial).t.graph.order == tr.t.graph.order
    ensures ProtectedSame(tr.t, Run(tr, attempts, policy, spatial).t, policy.protection)
    decreases |attempts|
  {
    hide Step, Kept;
    if attempts != [] {
      KeptFits(tr.t, attempts[0], policy, spatial);
      StepPlaces(tr.t, attempts[0], policy, spatial);
      StepProtects(tr.t, attempts[0], policy, spatial);
      AdvanceKeepsLinked(tr, attempts[0], policy, spatial);
      RunProtects(Advance(tr, attempts[0], policy, spatial), attempts[1..], policy, spatial);
    }
  }
}
