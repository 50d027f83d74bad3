/** When a matched capture enters the template (`fpc_update_template_after_match`), in numbers. */
module RetentionGate {
  import opened Words
  import opened Bytes
  import opened CaptureCodec
  import opened TemplateCodec
  import opened Redundancy
  import opened Retention
  import opened RetentionRuns

  /** The match and the newcomer reach all four minima. */
  predicate Reaches(a: Attempt, policy: UpdatePolicy) {
    && a.state.reportedScore >= policy.minimumScore && a.quality.confidence >= policy.minimum.confidence
    && a.quality.coverage >= policy.minimum.coverage && a.quality.quality >= policy.minimum.quality
  }

  /** The state asks for an update after a match. */
  predicate Asked(state: UpdateState) {
    state.code == 102 && state.matched == 1 && state.updateAllowed == 1 && state.ageUpdateAllowed == 1
  }

  /** Captures and everything the graph says of them, ages and protection apart. */
  predicate SameContents(t: Template, u: Template) {
    && u.collection == t.collection && u.metadata == t.metadata
    && u.graph.used == t.graph.used && u.graph.capacity == t.graph.capacity && u.graph.scores == t.graph.scores
    && u.graph.order == t.graph.order && u.graph.ageThreshold == t.graph.ageThreshold
  }

  /** Nothing but ages changes unless the update was asked for and all four minima are reached. */
  lemma GateShut(t: Template, a: Attempt, policy: UpdatePolicy, spatial: Spatial)
    requires GraphShape(t.graph) && |t.collection.captures| == t.graph.used
    requires !Asked(a.state) || !Reaches(a, policy)
    ensures var r := Step(t, a, policy, spatial);
            && SameContents(t, r.template)
            && r.template.graph.protectedCount == t.graph.protectedCount
            && r.template.graph.protectedLimit == t.graph.protectedLimit
            && r.state.retainedSlot == a.state.retainedSlot
            && (!Asked(a.state) ==> r.template == t)
  {
    hide AgeUsed, Triangle;
  }

  /** Read the other way: a changed capture, score or protection had all four minima. */
  lemma ChangedMeansReached(t: Template, a: Attempt, policy: UpdatePolicy, spatial: Spatial)
    requires GraphShape(t.graph) && |t.collection.captures| == t.graph.used
    requires !SameContents(t, Step(t, a, policy, spatial).template)
    ensures Asked(a.state) && Reaches(a, policy)
  {
    hide Step, SameContents, Triangle;
    if !(Asked(a.state) && Reaches(a, policy)) {
      GateShut(t, a, policy, spatial);
    }
  }

  /** Asked for, all minima reached, a free slot and memory: the newcomer is the last capture, its
      slot is reported, its age is zero and the template is protected by the policy. */
  lemma GateOpen(t: Template, a: Attempt, policy: UpdatePolicy, spatial: Spatial)
    requires GraphShape(t.graph) && |t.collection.captures| == t.graph.used < t.graph.capacity
    requires t.graph.used <= 80 && t.graph.capacity <= |t.graph.ages| && t.graph.capacity <= t.collection.capacity
    requires Asked(a.state) && Reaches(a, policy) && a.memory.slot
    ensures var r := Step(t, a, policy, spatial);
            && r.status == 0 && r.changed && r.state.retainedSlot == t.graph.used
            && r.template.collection == t.collection.(captures := t.collection.captures + [a.incoming])
            && r.template.graph.used == t.graph.used + 1 && r.template.graph.ages[t.graph.used] == 0
            && r.template.graph.protectedCount == r.template.graph.protectedLimit == policy.protection
  {
    hide Victim, CostsOf, PutScores, Triangle;
  }

  /** What the caller is told: 103 once an update was asked for in the right state, 1041 otherwise;
      the template counts as changed exactly when it was asked for or did before. */
  lemma Reported(t: Template, a: Attempt, policy: UpdatePolicy, spatial: Spatial)
    requires GraphShape(t.graph) && t.graph.used <= |t.graph.ages|
    ensures var r := Step(t, a, policy, spatial);
            && (a.state.code != 102 ==> r.status == 1041 && r.state == a.state && !r.changed)
            && (a.state.code == 102 ==>
                  r.state.code == 103 && r.changed == r.state.changed &&
                      (r.changed <==> Asked(a.state) || a.state.changed))
  {
    hide Victim, CostsOf, PutScores, ChooseSlot, AgeUsed, Triangle;
  }

  /** Every asked-for update ages the used slots by one, up to 65535, except the slots it matched
      or filled, which are young again. */
  lemma AgesAdvance(t: Template, a: Attempt, policy: UpdatePolicy, spatial: Spatial, i: nat)
    requires GraphShape(t.graph) && |t.collection.captures| == t.graph.used <= |t.graph.ages|
    requires Asked(a.state) && i < t.graph.used && i != a.state.selectedCapture
    ensures var r := Step(t, a, policy, spatial);
            && i < |r.template.graph.ages|
            && r.template.graph.ages[i] ==
               if Reaches(a, policy) && r.status == 0 && r.state.retainedSlot == i then 0
               else if t.graph.ages[i] == 65535 then 65535 else t.graph.ages[i] + 1
  {
    hide Victim, CostsOf, PutScores, ChooseSlot, Triangle;
  }

  /** A matched slot is young again. */
  lemma MatchedIsYoung(t: Template, a: Attempt, policy: UpdatePolicy, spatial: Spatial)
    requires GraphShape(t.graph) && |t.collection.captures| == t.graph.used <= |t.graph.ages|
    requires Asked(a.state) && 0 <= a.state.selectedCapture < t.graph.used
    ensures Step(t, a, policy, spatial).template.graph.ages[a.state.selectedCapture] == 0
  {
    hide Victim, CostsOf, PutScores, ChooseSlot, Triangle;
  }
}
