/** The retained template: score graph, capture collection and ages, as changed after a match
    (`fpc_update_template_after_match` and what it calls). */
module Retention {
  import opened Words
  import opened Bytes
  import opened Pairs
  import opened Redundancy
  import opened CaptureCodec
  import opened TemplateCodec

  datatype Quality = Quality(confidence: int, coverage: int, quality: int)

  datatype UpdatePolicy = UpdatePolicy(minimumScore: u16, protection: u16, minimum: Quality)

  datatype UpdateState = UpdateState(
    code: int, matched: int, updateAllowed: int, ageUpdateAllowed: int,
    reportedScore: u16, selectedCapture: int, changed: bool, retainedSlot: int)

  /** Outcomes of the two allocations an update may need. */
  datatype Memory = Memory(costs: bool, slot: bool)

  datatype Outcome = Outcome(template: Template, status: int, selected: int)

  // ----- What each operation does to the value of a template -----

  /** The next free slot, or the victim of the replacement policy, or -1. */
  ghost function ChooseSlot(g: Graph, latest: seq<u16>, protection: u16, memory: Memory): Option<int>
    requires GraphShape(g) && g.used <= |latest| && (g.used == g.capacity ==> g.used <= |g.ages|)
  {
    if g.used < g.capacity then Some(g.used)
    else if memory.costs && Slots(g.order, g.used) then
      var costs := CostsOf(g.scores, g.used, latest);
      Some(Victim(g.order, g.ages, costs, costs[g.used], g.ageThreshold, protection))
    else None
  }

  /** Graph entries of `slot` against the slots below k, taken from the newcomer's scores. */
  function PutScores(scores: seq<u16>, capacity: nat, slot: nat, latest: seq<u16>, k: nat): (s: seq<u16>)
    requires |scores| == Triangle(capacity) && slot < capacity && k <= capacity && k <= |latest|
    ensures |s| == |scores|
  {
    if k == 0 then scores
    else
      var s := PutScores(scores, capacity, slot, latest, k - 1);
      if k - 1 == slot then s
      else
        PairIndexInRange(capacity, k - 1, slot);
        s[PairIndex(capacity, k - 1, slot) := latest[k - 1]]
  }

  /** Exactly the pairs of `slot` with the slots below k changed. */
  lemma {:induction false} PutEntry(scores: seq<u16>, capacity: nat, slot: nat, latest: seq<u16>, k: nat, i: nat,
                                    j: nat)
    requires |scores| == Triangle(capacity) && slot < capacity && k <= capacity && k <= |latest|
    requires ValidPair(capacity, i, j)
    ensures Entry(PutScores(scores, capacity, slot, latest, k), capacity, i, j) ==
            if j == slot && i < k then latest[i] else if i == slot && j < k then latest[j]
            else Entry(scores, capacity, i, j)
  {
    hide PairIndex;
    if k > 0 {
      PutEntry(scores, capacity, slot, latest, k - 1, i, j);
      PairIndexInRange(capacity, i, j);
      if k - 1 != slot {
        PairIndexInRange(capacity, k - 1, slot);
        if PairIndex(capacity, i, j) == PairIndex(capacity, k - 1, slot) {
          PairIndexInjective(capacity, i, j, k - 1, slot);
        }
      }
    }
  }

  function TakeInto(captures: seq<CaptureView>, index: nat, incoming: CaptureView): seq<CaptureView>
    requires index <= |captures|
  {
    if index == |captures| then captures + [incoming] else captures[index := incoming]
  }

  /** Capture and graph entries of one slot replaced together. */
  function Place(t: Template, slot: nat, incoming: CaptureView, latest: seq<u16>): Template
    requires GraphShape(t.graph) && |t.collection.captures| == t.graph.used <= |latest|
    requires slot <= t.graph.used && slot < t.graph.capacity
  {
    var g := t.graph;
    t.(graph := g.(scores := PutScores(g.scores, g.capacity, slot, latest, g.used),
                   used := if slot == g.used then g.used + 1 else g.used),
       collection := t.collection.(captures := TakeInto(t.collection.captures, slot, incoming)))
  }

  predicate RetainReady(t: Template, latest: seq<u16>) {
    && t.graph.used <= 80 && |t.collection.captures| == t.graph.used
    && t.graph.capacity <= t.collection.capacity && t.graph.used <= |latest|
    && (t.graph.used == t.graph.capacity ==> t.graph.used <= |t.graph.ages|)
  }

  function Protect(t: Template, protection: u16): Template {
    t.(graph := t.graph.(protectedCount := protection, protectedLimit := protection))
  }

  /** `fpc_loaded_template_retain_capture`. */
  ghost function Retained(t: Template, incoming: CaptureView, latest: seq<u16>, protection: u16,
                          memory: Memory): Outcome
    requires GraphShape(t.graph)
  {
    if !RetainReady(t, latest) then Outcome(t, 1, -1)
    else
      var p := Protect(t, protection);
      match ChooseSlot(t.graph, latest, protection, memory)
      case None => Outcome(p, 1, -1)
      case Some(slot) =>
        if slot < 0 then Outcome(p, 0, -1)
        else if slot == t.graph.used && !memory.slot then Outcome(p, 2, slot)
        else
          SlotFits(t.graph, latest, protection, memory);
          Outcome(Place(p, slot, incoming, latest), 0, slot)
  }

  /** A chosen slot is the next free one or a used one, never past the capacity. */
  lemma SlotFits(g: Graph, latest: seq<u16>, protection: u16, memory: Memory)
    requires GraphShape(g) && g.used <= |latest| && (g.used == g.capacity ==> g.used <= |g.ages|)
    ensures match ChooseSlot(g, latest, protection, memory)
            case Some(slot) => -1 <= slot <= g.used && slot < g.capacity
            case None => true
  {
  }

  lemma ChoiceIgnoresFields(t: Template, latest: seq<u16>, protection: u16, memory: Memory)
    requires GraphShape(t.graph) && t.graph.used <= |latest| &&
             (t.graph.used == t.graph.capacity ==> t.graph.used <= |t.graph.ages|)
    ensures ChooseSlot(Protect(t, protection).graph, latest, protection, memory) ==
            ChooseSlot(t.graph, latest, protection, memory)
  {
    hide Victim, CostsOf;
  }

  function AgeUsed(ages: seq<u16>, used: nat): (r: seq<u16>)
    ensures |r| == |ages|
  {
    seq(|ages|, i requires 0 <= i < |ages| => if i < used && ages[i] != 65535 then ages[i] + 1 else ages[i])
  }

  /** `fpc_retained_graph_reset_age`, with its boundary at `used` itself. */
  function ResetAge(t: Template, index: int): Template {
    if index < 0 || index > t.graph.used || index >= |t.graph.ages| then t
    else t.(graph := t.graph.(ages := t.graph.ages[index := 0]))
  }

  /** Ages advanced, the matched capture young again. */
  function Aged(t: Template, matched: int): Template {
    ResetAge(t.(graph := t.graph.(ages := AgeUsed(t.graph.ages, t.graph.used))), matched)
  }

  predicate GoodEnough(score: u16, q: Quality, policy: UpdatePolicy) {
    && score >= policy.minimumScore && q.confidence >= policy.minimum.confidence
    && q.coverage >= policy.minimum.coverage && q.quality >= policy.minimum.quality
  }

  predicate Permitted(s: UpdateState) {
    s.matched == 1 && s.updateAllowed == 1 && s.ageUpdateAllowed == 1
  }

  datatype Report = Report(template: Template, state: UpdateState, status: int, changed: bool)

  /** `fpc_update_template_after_match`. */
  ghost function Updated(t: Template, incoming: CaptureView, q: Quality, latest: seq<u16>, policy: UpdatePolicy,
                         state: UpdateState, memory: Memory): Report
    requires GraphShape(t.graph)
  {
    if state.code != 102 then Report(t, state, 1041, false)
    else
      var s := state.(code := 103);
      if !Permitted(s) then Report(t, s, 0, s.changed)
      else if t.graph.used > |t.graph.ages| then Report(t, s, 1, false)
      else
        var aged := Aged(t, s.selectedCapture);
        if !GoodEnough(s.reportedScore, q, policy) then Report(aged, s.(changed := true), 0, true)
        else
          var r := Retained(aged, incoming, latest, policy.protection, memory);
          var after := if r.status == 0 && r.selected >= 0 then ResetAge(r.template, r.selected) else r.template;
          Report(after, s.(retainedSlot := r.selected, changed := true), r.status, true)
  }

  // ----- The object -----

  class LoadedTemplate {
    var used: u16
    var capacity: u16
    var protectedCount: u16
    var protectedLimit: u16
    var ageThreshold: u16
    var order: array<u16>
    var scores: array<u16>
    var ages: array<u16>
    var captures: seq<CaptureView>
    var collectionCapacity: u32
    var metadata: u16

    ghost predicate Valid()
      reads this
    {
      && order != scores && order != ages && scores != ages
      && 2 <= capacity && used <= capacity && order.Length == capacity && scores.Length == Triangle(capacity)
    }

    ghost function Value(): (t: Template)
      requires Valid()
      reads this, order, scores, ages
      ensures GraphShape(t.graph)
    {
      Template(Graph(used, capacity, protectedCount, protectedLimit, ageThreshold, order[..], scores[..], ages[..]),
               Collection(captures, collectionCapacity), metadata)
    }

    /** Takes over a loaded value. */
    constructor (t: Template)
      requires GraphShape(t.graph)
      ensures Valid() && Value() == t && fresh(order) && fresh(scores) && fresh(ages)
    {
      var g := t.graph;
      var o := new u16[|g.order|](i requires 0 <= i < |g.order| => g.order[i]);
      var s := new u16[|g.scores|](i requires 0 <= i < |g.scores| => g.scores[i]);
      var a := new u16[|g.ages|](i requires 0 <= i < |g.ages| => g.ages[i]);
      used, capacity := g.used, g.capacity;
      protectedCount, protectedLimit, ageThreshold := g.protectedCount, g.protectedLimit, g.ageThreshold;
      order, scores, ages := o, s, a;
      captures, collectionCapacity, metadata := t.collection.captures, t.collection.capacity, t.metadata;
      new;
      assert order[..] == g.order && scores[..] == g.scores && ages[..] == g.ages;
    }

    method IncrementAges() returns (status: int)
      requires Valid()
      modifies ages
      ensures Valid()
      ensures status == if used > ages.Length then 1 else 0
      ensures Value() == if used > ages.Length then old(Value())
                         else old(Value()).(graph := old(Value()).graph.(ages := AgeUsed(old(ages[..]), used)))
    {
      if used > ages.Length {
        return 1;
      }
      for i := 0 to used
        invariant forall k | 0 <= k < ages.Length ::
                    ages[k] == if k < i && old(ages[k]) != 65535 then old(ages[k]) + 1 else old(ages[k])
      {
        if ages[i] != 65535 {
          ages[i] := ages[i] + 1;
        }
      }
      assert ages[..] == AgeUsed(old(ages[..]), used);
      return 0;
    }

    method ResetOneAge(index: int)
      requires Valid()
      modifies ages
      ensures Valid() && Value() == ResetAge(old(Value()), index)
    {
      if index < 0 || index > used || index >= ages.Length {
        return;
      }
      ages[index] := 0;
      assert ages[..] == old(ages[..])[index := 0];
    }

    /** `fpc_enrollment_write_capture_scores`: the loop over the other used slots. */
    method WriteScores(slot: nat, latest: seq<u16>) returns (status: int)
      requires Valid()
      modifies this`used, scores
      ensures Valid()
      ensures status == if slot > old(used) || slot >= capacity || |latest| < old(used) then -1 else 0
      ensures status == 0 ==> scores[..] == PutScores(old(scores[..]), capacity, slot, latest, old(used))
      ensures status != 0 ==> scores[..] == old(scores[..])
      ensures used == if status == 0 && slot == old(used) then old(used) + 1 else old(used)
    {
      if slot > used || slot >= capacity || |latest| < used {
        return -1;
      }
      for i := 0 to used
        invariant scores[..] == PutScores(old(scores[..]), capacity, slot, latest, i)
        invariant used == old(used)
      {
        if i != slot {
          PairIndexInRange(capacity, i, slot);
          ghost var was := scores[..];
          scores[PairIndex(capacity, i, slot)] := latest[i];
          assert scores[..] == was[PairIndex(capacity, i, slot) := latest[i]];
        }
      }
      if slot == used {
        used := used + 1;
      }
      return 0;
    }

    /** `fpc_loaded_collection_take_capture`: append into a grown array, or replace in place. */
    method TakeCapture(incoming: CaptureView, index: int, memory: Memory) returns (status: int)
      modifies this`captures
      ensures status == if |captures| > collectionCapacity || index < 0 || index >= collectionCapacity ||
              index > old(|captures|)
                        then 1 else if index == old(|captures|) && !memory.slot then 2 else 0
      ensures captures == if status == 0 then TakeInto(old(captures), index, incoming) else old(captures)
    {
      if |captures| > collectionCapacity || index < 0 || index >= collectionCapacity || index > |captures| {
        return 1;
      }
      if index == |captures| {
        if !memory.slot {
          return 2;
        }
        captures := captures + [incoming];
      } else {
        captures := captures[index := incoming];
      }
      return 0;
    }

    /** Selection only; -1 rejects the newcomer. */
    method SelectSlot(latest: seq<u16>, protection: u16, memory: Memory) returns (selected: Option<int>)
      requires Valid() && used <= |latest| && (used == capacity ==> used <= ages.Length)
      ensures selected == ChooseSlot(Value().graph, latest, protection, memory)
    {
      if used < capacity {
        return Some(used);
      }
      selected := SelectVictim(scores[..], used, latest, order, ages, protection, ageThreshold, memory.costs);
    }

    method Retain(incoming: CaptureView, latest: seq<u16>, protection: u16, memory: Memory)
      returns (status: int, selected: int)
      requires Valid()
      modifies this, scores
      ensures Valid() && order == old(order) && scores == old(scores) && ages == old(ages)
      ensures Outcome(Value(), status, selected) == Retained(old(Value()), incoming, latest, protection, memory)
    {
      hide Victim, CostsOf, PutScores, ChooseSlot, Triangle;
      if used > 80 || |captures| != used || collectionCapacity < capacity || |latest| < used
         || (used == capacity && ages.Length < used) {
        return 1, -1;
      }
      ghost var before := Value();
      protectedCount, protectedLimit := protection, protection;
      var choice := SelectSlot(latest, protection, memory);
      assert Value() == Protect(before, protection);
      ChoiceIgnoresFields(before, latest, protection, memory);
      SlotFits(before.graph, latest, protection, memory);
      if choice.None? {
        return 1, -1;
      }
      selected := choice.value;
      if selected < 0 {
        return 0, -1;
      }
      status := TakeCapture(incoming, selected, memory);
      if status != 0 {
        return;
      }
      var written := WriteScores(selected, latest);
      // The capture was already moved: the error return behind this write is unreachable.
      assert written == 0;
      if written != 0 {
        return 1, selected;
      }
      return 0, selected;
    }

    method Update(incoming: CaptureView, q: Quality, latest: seq<u16>, policy: UpdatePolicy, state: UpdateState,
                  memory: Memory)
      returns (after: UpdateState, status: int, changed: bool)
      requires Valid()
      modifies this, scores, ages
      ensures Valid() && order == old(order) && scores == old(scores) && ages == old(ages)
      ensures Report(Value(), after, status, changed) ==
              Updated(old(Value()), incoming, q, latest, policy, state, memory)
    {
      after := state;
      if after.code != 102 {
        return after, 1041, false;
      }
      after := after.(code := 103);
      status := 0;
      if Permitted(after) {
        var aging := IncrementAges();
        if aging != 0 {
          return after, 1, false;
        }
        ResetOneAge(after.selectedCapture);
        if GoodEnough(after.reportedScore, q, policy) {
          var selected;
          status, selected := Retain(incoming, latest, policy.protection, memory);
          if status == 0 && selected >= 0 {
            ResetOneAge(selected);
          }
          after := after.(retainedSlot := selected);
        }
        after := after.(changed := true);
      }
      return after, status, after.changed;
    }
  }
}
