/** The whole grouping call: growth, then the choice of the group an enrollment follows, or
    the return to the one already chosen (`fpc_rebuild_capture_groups`). */
module GroupSelection {
  import opened Words
  import opened Grouping

  /** Group count, selected group and its reference capture; -1 while nothing is selected. */
  datatype Selection = Selection(groupCount: int, group: int, reference: int)

  function Size(groups: seq<int>, g: int): nat {
    if groups == [] then 0 else Size(groups[..|groups| - 1], g) + if groups[|groups| - 1] == g then 1 else 0
  }

  /** The last of the first k groups with enough members. */
  function LastLarge(groups: seq<int>, k: nat, minimum: int): (g: int)
    ensures -1 <= g < k
    ensures g >= 0 ==> Size(groups, g) >= minimum
    ensures forall h | g < h < k :: Size(groups, h) < minimum
  {
    if k == 0 then -1 else if Size(groups, k - 1) >= minimum then k - 1 else LastLarge(groups, k - 1, minimum)
  }

  /** The chosen group is a largest one exactly when no large group before it has more members. */
  lemma LastLargeIsLargestExactly(groups: seq<int>, k: nat, minimum: int)
    requires LastLarge(groups, k, minimum) >= 0
    ensures var g := LastLarge(groups, k, minimum);
            (forall h | 0 <= h < k :: Size(groups, h) <= Size(groups, g)) <==>
            (forall h | 0 <= h < g && Size(groups, h) >= minimum :: Size(groups, h) <= Size(groups, g))
  {
    hide Size;
    var g := LastLarge(groups, k, minimum);
    if forall h | 0 <= h < g && Size(groups, h) >= minimum :: Size(groups, h) <= Size(groups, g) {
      forall h | 0 <= h < k ensures Size(groups, h) <= Size(groups, g) {
        assert h > g ==> Size(groups, h) < minimum;
      }
    }
  }

  /** Five captures in one group, four in the next: the smaller group is chosen. */
  lemma LastLargeMayBeSmaller()
    ensures var groups := [0, 0, 0, 0, 0, 1, 1, 1, 1];
            LastLarge(groups, 2, 4) == 1 && Size(groups, 0) == 5 && Size(groups, 1) == 4
  {
    var a, b := seq(5, _ => 0), seq(4, _ => 1);
    assert [0, 0, 0, 0, 0, 1, 1, 1, 1] == a + b;
    SizeJoins(a, b, 0);
    SizeJoins(a, b, 1);
    SizeSame(0, 5, 0);
    SizeSame(0, 5, 1);
    SizeSame(1, 4, 0);
    SizeSame(1, 4, 1);
  }

  lemma {:induction false} SizeJoins(a: seq<int>, b: seq<int>, g: int)
    ensures Size(a + b, g) == Size(a, g) + Size(b, g)
    decreases b
  {
    if b == [] {
      assert a + b == a;
    } else {
      assert (a + b)[..|a + b| - 1] == a + b[..|b| - 1];
      SizeJoins(a, b[..|b| - 1], g);
    }
  }

  lemma {:induction false} SizeSame(value: int, n: nat, g: int)
    ensures Size(seq(n, _ => value), g) == if value == g then n else 0
  {
    if n > 0 {
      assert seq(n, _ => value)[..n - 1] == seq(n - 1, _ => value);
      SizeSame(value, n - 1, g);
    }
  }

  method CountMembers(groups: array<int>, count: nat, g: int) returns (members: nat)
    requires count <= groups.Length
    ensures members == Size(groups[..count], g)
  {
    members := 0;
    for i := 0 to count
      invariant members == Size(groups[..i], g)
    {
      assert groups[..i + 1][..i] == groups[..i];
      if groups[i] == g {
        members := members + 1;
      }
    }
  }

  /** Scan for a group to follow: every large one replaces the choice before it. The bounds of
      a group are floating point; here they only may fail. */
  method SelectGroup(groups: array<int>, count: nat, roots: array<nat>, groupCount: nat, minimum: int, prior: Selection)
    returns (ok: bool, state: Selection, chosen: bool)
    requires count <= groups.Length && groupCount <= roots.Length && prior.group == -1
    ensures ok ==>
              state.groupCount == prior.groupCount && state.group == LastLarge(groups[..count], groupCount, minimum)
    ensures ok ==> (chosen <==> state.group >= 0)
    ensures ok ==> state.reference == if state.group >= 0 then roots[state.group] else prior.reference
  {
    state, chosen := prior, false;
    for g := 0 to groupCount
      invariant state.groupCount == prior.groupCount && state.group == LastLarge(groups[..count], g, minimum)
      invariant chosen <==> state.group >= 0
      invariant state.reference == if state.group >= 0 then roots[state.group] else prior.reference
    {
      var members := CountMembers(groups, count, g);
      if members >= minimum {
        if * {
          return false, state, chosen;
        }
        state := state.(group := g, reference := roots[g]);
        chosen := true;
      }
    }
    ok := true;
  }

  predicate Accepted(ms: seq<CaptureMatch>, count: nat) {
    1 <= count <= 32767 && |ms| >= Triangle(count)
  }

  /** The reference capture still belongs to a group. */
  predicate ReferenceGrouped(groups: seq<int>, reference: int) {
    0 <= reference < |groups| && groups[reference] >= 0
  }

  /** `fpc_rebuild_capture_groups`. Roots come out heaviest first, except that a group followed
      before keeps its reference capture as its root. */
  method RebuildGroups(ms: seq<CaptureMatch>, count: nat, minimum: int, preserveTransforms: bool,
                       groups: array<int>, roots: array<nat>, prior: Selection)
    returns (ok: bool, state: Selection, chosen: bool, ghost heavy: seq<nat>)
    requires groups.Length >= count && roots.Length >= count && groups as object != roots
    requires Accepted(ms, count) ==> WeightsFit(ms, count)
    modifies groups, roots
    ensures ok ==> Accepted(ms, count)
    ensures ok ==>
              IsGrouping(GraphOf(ms, count), groups[..count], heavy) && |heavy| <= count && state.groupCount == |heavy|
    ensures ok && prior.group == -1 ==>
              && roots[..|heavy|] == heavy && state.group == LastLarge(groups[..count], |heavy|, minimum)
              && state.reference == (if state.group >= 0 then heavy[state.group] else prior.reference)
              && (chosen <==> state.group >= 0)
    ensures ok && prior.group != -1 && ReferenceGrouped(groups[..count], prior.reference) ==>
              && !chosen && state.group == groups[prior.reference] && state.reference == prior.reference
              && roots[..|heavy|] == heavy[state.group := prior.reference]
    ensures ok && prior.group != -1 && !ReferenceGrouped(groups[..count], prior.reference) ==>
              !chosen && state.group == 0 && state.reference == roots[0] && roots[..|heavy|] == heavy
    ensures !Accepted(ms, count) ==> state == prior && groups[..] == old(groups[..]) && roots[..] == old(roots[..])
    ensures groups[count..] == old(groups[count..])
  {
    hide IsGrouping, IsGraph, FullWeight, GraphOf, LastLarge, Triangle;
    state, chosen, heavy := prior, false, [];
    if !Accepted(ms, count) {
      return false, state, chosen, heavy;
    }
    var grown, groupCount := GrowGroups(ms, count, preserveTransforms, groups, roots);
    if !grown {
      return false, state, chosen, heavy;
    }
    heavy := roots[..groupCount];
    GroupNumbers(GraphOf(ms, count), groups[..count], heavy);
    state := state.(groupCount := groupCount);
    if state.group == -1 {
      ok, state, chosen := SelectGroup(groups, count, roots, groupCount, minimum, state);
    } else {
      state := state.(group := -1);
      if 0 <= state.reference < count && groups[state.reference] >= 0 {
        assert groups[..count][state.reference] == groups[state.reference];
        state := state.(group := groups[state.reference]);
        roots[groups[state.reference]] := state.reference;
      }
      if state.group == -1 {
        state := state.(group := 0, reference := roots[0]);
      }
      ok := true;
    }
  }

  lemma GroupNumbers(w: Graph, groups: seq<int>, roots: seq<nat>)
    requires IsGraph(w) && IsGrouping(w, groups, roots)
    ensures |groups| == |w| && forall i | 0 <= i < |groups| :: -1 <= groups[i] < |roots|
  {
  }
}
