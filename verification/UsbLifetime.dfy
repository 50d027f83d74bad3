/** USB transfers and handles (usb_transfer.hpp): a handle is tracked while transfers are in
    flight on it, and its closing is deferred until they have all come back. Every operation is a
    step of a state machine; libusb's completions may come at any time. */
module UsbLifetime {
  import opened Bytes

  /** Entry of the shared table. */
  datatype Tracked = Tracked(transfers: int, closing: bool)

  datatype Status = Fresh | InFlight | Done | Freed

  datatype Transfer = Transfer(handle: nat, status: Status)

  /** A transfer object of the driver: the libusb transfer it holds, and its pending flag. */
  datatype Owner = Owner(transfer: Option<nat>, pending: bool)

  /** `held` are the handles the driver still owns; `closes` and `frees` count calls into libusb. */
  datatype State = State(
    next: nat, held: set<nat>, handles: map<nat, Tracked>, closes: multiset<nat>,
    transfers: seq<Transfer>, owners: seq<Owner>, frees: multiset<nat>)

  function Initial(): State {
    State(0, {}, map[], multiset{}, [], [], multiset{})
  }

  datatype Step =
    | Open
    | NewOwner
    | Allocate(owner: nat, handle: nat, memory: bool)
    | Submit(owner: nat, accepted: bool)
    | Complete(transfer: nat)
    | Release(owner: nat)
    | DeferClose(handle: nat)
    | Drain

  // ----- Operations -----

  function Free(s: State, t: nat): State
    requires t < |s.transfers|
  {
    s.(transfers := s.transfers[t := s.transfers[t].(status := Freed)], frees := s.frees + multiset{t})
  }

  /** `release`: a pending transfer is orphaned and cancelled, any other one freed. */
  function Released(s: State, o: nat): State
    requires o < |s.owners|
  {
    var owner := s.owners[o];
    if owner.transfer.None? || owner.transfer.value >= |s.transfers| then s
    else
      var emptied := s.(owners := s.owners[o := Owner(None, false)]);
      if owner.pending then emptied else Free(emptied, owner.transfer.value)
  }

  /** A new transfer taken, or freed again without memory for its buffer. */
  function Grown(r: State, o: nat, h: nat, memory: bool): State
    requires o < |r.owners|
  {
    var t := |r.transfers|;
    var grown := r.(transfers := r.transfers + [Transfer(h, Fresh)]);
    if memory then grown.(owners := r.owners[o := Owner(Some(t), false)]) else Free(grown, t)
  }

  /** `allocate`: releases what was held and takes a new transfer; without memory for its buffer
      that is freed again. */
  function Allocated(s: State, o: nat, h: nat, memory: bool): State
    requires o < |s.owners|
  {
    Grown(Released(s, o), o, h, memory)
  }

  function Entry(s: State, h: nat): Tracked {
    if h in s.handles then s.handles[h] else Tracked(0, false)
  }

  /** The guard of `submit`: only a handle marked as closing refuses. */
  predicate Refuses(s: State, h: nat) {
    Entry(s, h).closing
  }

  predicate CanSubmit(s: State, o: nat) {
    && o < |s.owners| && s.owners[o].transfer.Some? && s.owners[o].transfer.value < |s.transfers|
    && s.transfers[s.owners[o].transfer.value].status == Fresh
  }

  /** `submit`; `accepted` is libusb's answer. */
  function Submitted(s: State, o: nat, accepted: bool): State
    requires CanSubmit(s, o)
  {
    var t := s.owners[o].transfer.value;
    var h := s.transfers[t].handle;
    var entry := Entry(s, h);
    if entry.closing || !accepted then
      s.(transfers := s.transfers[t := Transfer(h, Done)],
         handles := if !entry.closing && entry.transfers == 0 then s.handles - {h} else s.handles[h := entry])
    else
      s.(transfers := s.transfers[t := Transfer(h, InFlight)],
         handles := s.handles[h := entry.(transfers := entry.transfers + 1)],
         owners := s.owners[o := Owner(Some(t), true)])
  }

  /** `finish_usb_transfer`. */
  function Finished(handles: map<nat, Tracked>, h: nat): map<nat, Tracked> {
    if h !in handles then handles
    else
      var left := handles[h].(transfers := handles[h].transfers - 1);
      if left.transfers == 0 && !left.closing then handles - {h} else handles[h := left]
  }

  /** The completion callback: an orphaned transfer is freed, an owned one is no longer pending. */
  function Completed(s: State, t: nat): State
    requires t < |s.transfers|
  {
    var r := s.(handles := Finished(s.handles, s.transfers[t].handle));
    if exists o :: 0 <= o < |s.owners| && s.owners[o].transfer == Some(t) then
      r.(transfers := s.transfers[t := s.transfers[t].(status := Done)],
         owners := seq(|s.owners|, o requires 0 <= o < |s.owners| =>
           if s.owners[o].transfer == Some(t) then s.owners[o].(pending := false) else s.owners[o]))
    else Free(r, t)
  }

  /** `defer_usb_close`: an untracked handle closes at once. */
  function CloseDeferred(s: State, h: nat): State {
    var given := s.(held := s.held - {h});
    if h !in s.handles then given.(closes := s.closes + multiset{h})
    else given.(handles := s.handles[h := s.handles[h].(closing := true)])
  }

  function Closable(handles: map<nat, Tracked>): set<nat> {
    set h | h in handles && handles[h].closing && handles[h].transfers == 0
  }

  /** `drain_usb_closes`. */
  function Drained(s: State): State {
    s.(handles := s.handles - Closable(s.handles), closes := s.closes + multiset(Closable(s.handles)))
  }

  // ----- The shared table -----

  /** The table of tracked handles, and the calls into libusb that closed one. */
  datatype Table = Table(handles: map<nat, Tracked>, closes: multiset<nat>)

  /** What the driver asks of the table: track a submission, note a completion, give a handle up,
      or walk it for handles to close. */
  datatype TableCall = Attempt(handle: nat, accepted: bool) | Finish(handle: nat) | GiveUp(handle: nat) | Walk

  function After(t: Table, call: TableCall): Table {
    match call
    case Attempt(h, accepted) =>
      var entry := if h in t.handles then t.handles[h] else Tracked(0, false);
      if entry.closing then t
      else if accepted then t.(handles := t.handles[h := entry.(transfers := entry.transfers + 1)])
      else if entry.transfers == 0 then t.(handles := t.handles - {h})
      else t
    case Finish(h) => t.(handles := Finished(t.handles, h))
    case GiveUp(h) =>
      if h in t.handles then t.(handles := t.handles[h := t.handles[h].(closing := true)])
      else t.(closes := t.closes + multiset{h})
    case Walk => Table(t.handles - Closable(t.handles), t.closes + multiset(Closable(t.handles)))
  }

  function Replay(t: Table, calls: seq<TableCall>): Table {
    if calls == [] then t else After(Replay(t, calls[..|calls| - 1]), calls[|calls| - 1])
  }

  /** The shared table as an object, and its four operations. */
  class PendingHandles {
    var handles: map<nat, Tracked>
    var closes: multiset<nat>

    ghost function Value(): Table
      reads this
    {
      Table(handles, closes)
    }

    constructor ()
      ensures Value() == Table(map[], multiset{})
    {
      handles, closes := map[], multiset{};
    }

    /** The table's part in `submit`: an entry first, and none left behind by a refused transfer. */
    method Submit(h: nat, accepted: bool) returns (flying: bool)
      modifies this`handles
      ensures Value() == After(old(Value()), Attempt(h, accepted))
      ensures flying <==> accepted && !(h in old(handles) && old(handles)[h].closing)
    {
      if h !in handles {
        handles := handles[h := Tracked(0, false)];
      }
      if handles[h].closing {
        return false;
      }
      if !accepted {
        if handles[h].transfers == 0 {
          handles := handles - {h};
        }
        return false;
      }
      handles := handles[h := handles[h].(transfers := handles[h].transfers + 1)];
      return true;
    }

    method FinishTransfer(h: nat)
      modifies this`handles
      ensures Value() == After(old(Value()), Finish(h))
    {
      if h !in handles {
        return;
      }
      handles := handles[h := handles[h].(transfers := handles[h].transfers - 1)];
      if handles[h].transfers == 0 && !handles[h].closing {
        handles := handles - {h};
      }
    }

    method DeferClose(h: nat)
      modifies this
      ensures Value() == After(old(Value()), GiveUp(h))
    {
      if h !in handles {
        closes := closes + multiset{h};
        return;
      }
      handles := handles[h := handles[h].(closing := true)];
    }

    /** The walk over the table, in any order. */
    method DrainCloses()
      modifies this
      ensures Value() == After(old(Value()), Walk)
    {
      ghost var was := Value();
      var rest := handles.Keys;
      WalkStarts(was);
      hide Walked, Closable;
      while rest != {}
        invariant Walked(was, Value(), rest)
        decreases |rest|
      {
        var h :| h in rest;
        WalkStep(was, Value(), rest, h);
        rest := rest - {h};
        if handles[h].closing && handles[h].transfers == 0 {
          handles := handles - {h};
          closes := closes + multiset{h};
        }
      }
      WalkEnds(was, Value());
    }

    /** Any calls, one after the other. */
    method Perform(calls: seq<TableCall>)
      modifies this
      ensures Value() == Replay(old(Value()), calls)
    {
      hide After;
      for i := 0 to |calls|
        invariant Value() == Replay(old(Value()), calls[..i])
      {
        assert calls[..i + 1][..i] == calls[..i];
        match calls[i]
        case Attempt(h, accepted) => var _ := Submit(h, accepted);
        case Finish(h) => FinishTransfer(h);
        case GiveUp(h) => DeferClose(h);
        case Walk => DrainCloses();
      }
      assert calls[..|calls|] == calls;
    }
  }

  /** The walk has yet to come to the handles in `rest`; the others were closed if they could be. */
  ghost predicate Walked(was: Table, t: Table, rest: set<nat>) {
    && rest <= was.handles.Keys
    && t == Table(was.handles - (Closable(was.handles) - rest), was.closes + multiset(Closable(was.handles) - rest))
  }

  lemma WalkStarts(was: Table)
    ensures Walked(was, was, was.handles.Keys)
  {
    assert Closable(was.handles) - was.handles.Keys == {};
  }

  lemma WalkStep(was: Table, t: Table, rest: set<nat>, h: nat)
    requires Walked(was, t, rest) && h in rest
    ensures h in t.handles
    ensures Walked(was,
                   if t.handles[h].closing && t.handles[h].transfers == 0 then
                     Table(t.handles - {h}, t.closes + multiset{h})
                   else t, rest - {h})
  {
    var gone := Closable(was.handles) - rest;
    if h in Closable(was.handles) {
      assert Closable(was.handles) - (rest - {h}) == gone + {h};
      assert multiset(gone + {h}) == multiset(gone) + multiset{h};
    } else {
      assert Closable(was.handles) - (rest - {h}) == gone;
    }
  }

  lemma WalkEnds(was: Table, t: Table)
    requires Walked(was, t, {})
    ensures t == After(was, Walk)
  {
    assert Closable(was.handles) - {} == Closable(was.handles);
  }

  /** One step; a step that is not enabled changes nothing. A handle is handed to the deferred
      close once, by the owner that gives it up. */
  function Next(s: State, step: Step): State {
    match step
    case Open => s.(next := s.next + 1, held := s.held + {s.next})
    case NewOwner => s.(owners := s.owners + [Owner(None, false)])
    case Allocate(o, h, memory) => if o < |s.owners| && h < s.next then Allocated(s, o, h, memory) else s
    case Submit(o, accepted) => if CanSubmit(s, o) then Submitted(s, o, accepted) else s
    case Complete(t) => if t < |s.transfers| && s.transfers[t].status == InFlight then Completed(s, t) else s
    case Release(o) => if o < |s.owners| then Released(s, o) else s
    case DeferClose(h) => if h in s.held then CloseDeferred(s, h) else s
    case Drain => Drained(s)
  }

  // ----- The invariant -----

  /** Transfers in flight on a handle. */
  function Flying(ts: seq<Transfer>, h: nat): (n: nat)
    ensures n <= |ts|
  {
    if ts == [] then 0
    else
      var last := ts[|ts| - 1];
      Flying(ts[..|ts| - 1], h) + if last.handle == h && last.status == InFlight then 1 else 0
  }

  lemma {:induction false} FlyingChanges(ts: seq<Transfer>, t: nat, status: Status, h: nat)
    requires t < |ts|
    ensures Flying(ts[t := ts[t].(status := status)], h) ==
            Flying(ts, h) + (if ts[t].handle == h && status == InFlight then 1 else 0)
                          - (if ts[t].handle == h && ts[t].status == InFlight then 1 else 0)
  {
    var n := |ts| - 1;
    var after := ts[t := ts[t].(status := status)];
    if t == n {
      assert after[..n] == ts[..n];
    } else {
      assert after[..n] == ts[..n][t := ts[t].(status := status)];
      FlyingChanges(ts[..n], t, status, h);
    }
  }

  lemma FlyingGrows(ts: seq<Transfer>, t: Transfer, h: nat)
    ensures Flying(ts + [t], h) == Flying(ts, h) + if t.handle == h && t.status == InFlight then 1 else 0
  {
    assert (ts + [t])[..|ts|] == ts;
  }

  /** The table counts what is in flight, and tracks no idle handle that is not closing. */
  ghost predicate CountsRight(handles: map<nat, Tracked>, ts: seq<Transfer>) {
    forall h: nat ::
        if h in handles then handles[h].transfers == Flying(ts, h) && (handles[h].closing || Flying(ts, h) > 0)
                     else Flying(ts, h) == 0
  }

  /** Each transfer is held by one object, orphaned in flight, or freed once. */
  ghost predicate OwnedOnce(s: State) {
    && (forall o | 0 <= o < |s.owners| && s.owners[o].transfer.Some? ::
          && s.owners[o].transfer.value < |s.transfers| && s.transfers[s.owners[o].transfer.value].status != Freed
          && (s.owners[o].pending <==> s.transfers[s.owners[o].transfer.value].status == InFlight))
    && (forall o, p | 0 <= o < p < |s.owners| && s.owners[o].transfer.Some? ::
        s.owners[o].transfer != s.owners[p].transfer)
    && (forall t: nat :: s.frees[t] == if t < |s.transfers| && s.transfers[t].status == Freed then 1 else 0)
    && (forall t: nat | t < |s.transfers| && s.transfers[t].status != Freed ::
        s.transfers[t].status == InFlight || HasOwner(s, t))
  }

  ghost predicate HasOwner(s: State, t: nat) {
    exists o :: 0 <= o < |s.owners| && s.owners[o].transfer == Some(t)
  }

  /** A held handle is not closed or closing; one given up is exactly one of the two. */
  ghost predicate ClosedOnce(s: State) {
    && (forall h: nat | h in s.held :: h < s.next && s.closes[h] == 0 && !Entry(s, h).closing)
    && (forall h: nat | h < s.next && h !in s.held :: s.closes[h] == if Entry(s, h).closing then 0 else 1)
    && (forall h: nat | h >= s.next :: s.closes[h] == 0 && h !in s.handles)
    && (forall t <- s.transfers :: t.handle < s.next)
  }

  ghost predicate Inv(s: State) {
    CountsRight(s.handles, s.transfers) && OwnedOnce(s) && ClosedOnce(s)
  }

  // ----- Preservation -----

  lemma SameFlying(s: State, ts: seq<Transfer>)
    requires CountsRight(s.handles, s.transfers) && forall h: nat :: Flying(ts, h) == Flying(s.transfers, h)
    ensures CountsRight(s.handles, ts)
  {
  }

  lemma FreeingKeepsCounts(s: State, t: nat, status: Status)
    requires CountsRight(s.handles, s.transfers) && t < |s.transfers| && s.transfers[t].status != InFlight &&
             status != InFlight
    ensures CountsRight(s.handles, s.transfers[t := s.transfers[t].(status := status)])
  {
    hide Flying;
    forall h: nat ensures Flying(s.transfers[t := s.transfers[t].(status := status)], h) == Flying(s.transfers, h) {
      FlyingChanges(s.transfers, t, status, h);
    }
    SameFlying(s, s.transfers[t := s.transfers[t].(status := status)]);
  }

  lemma ReleaseKeeps(s: State, o: nat)
    requires Inv(s) && o < |s.owners|
    ensures Inv(Released(s, o)) && Released(s, o).owners[o].transfer.None? && |Released(s, o).owners| == |s.owners|
    ensures Released(s, o).next == s.next && Released(s, o).held == s.held && Released(s, o).handles == s.handles
    ensures Released(s, o).closes == s.closes
  {
    hide Flying, CountsRight;
    var owner := s.owners[o];
    if owner.transfer.Some? {
      if !owner.pending {
        FreeingKeepsCounts(s, owner.transfer.value, Freed);
      }
      ReleaseKeepsOwners(s, o);
    }
  }

  lemma ReleaseKeepsOwners(s: State, o: nat)
    requires OwnedOnce(s) && ClosedOnce(s) && o < |s.owners| && s.owners[o].transfer.Some?
    ensures OwnedOnce(Released(s, o)) && ClosedOnce(Released(s, o))
  {
    var r, t := Released(s, o), s.owners[o].transfer.value;
    forall u: nat | u < |r.transfers| && r.transfers[u].status != Freed
      ensures r.transfers[u].status == InFlight || HasOwner(r, u)
    {
      if r.transfers[u].status != InFlight {
        assert u != t && HasOwner(s, u);
        var p :| 0 <= p < |s.owners| && s.owners[p].transfer == Some(u);
        assert r.owners[p].transfer == Some(u);
      }
    }
  }

  lemma AllocateKeeps(s: State, o: nat, h: nat, memory: bool)
    requires Inv(s) && o < |s.owners| && h < s.next
    ensures Inv(Allocated(s, o, h, memory)) && Allocated(s, o, h, memory).closes == s.closes
  {
    hide Flying, CountsRight, OwnedOnce, ClosedOnce, Released;
    ReleaseKeeps(s, o);
    GrowKeeps(Released(s, o), o, h, memory);
  }

  lemma GrowKeeps(r: State, o: nat, h: nat, memory: bool)
    requires Inv(r) && o < |r.owners| && r.owners[o].transfer.None? && h < r.next
    ensures Inv(Grown(r, o, h, memory))
  {
    hide Flying, OwnedOnce, ClosedOnce;
    GrowKeepsCounts(r, h, memory);
    GrowKeepsOwners(r, o, h, memory);
    GrowKeepsClosings(r, o, h, memory);
    assert (r.transfers + [Transfer(h, Fresh)])[|r.transfers| := Transfer(h, Freed)] ==
           r.transfers + [Transfer(h, Freed)];
  }

  lemma GrowKeepsCounts(r: State, h: nat, memory: bool)
    requires CountsRight(r.handles, r.transfers)
    ensures CountsRight(r.handles, r.transfers + [Transfer(h, Fresh)]) &&
            CountsRight(r.handles, r.transfers + [Transfer(h, Freed)])
  {
    hide Flying;
    forall k: nat
      ensures Flying(r.transfers + [Transfer(h, Fresh)], k) ==
              Flying(r.transfers + [Transfer(h, Freed)], k) == Flying(r.transfers, k)
    {
      FlyingGrows(r.transfers, Transfer(h, Fresh), k);
      FlyingGrows(r.transfers, Transfer(h, Freed), k);
    }
  }

  lemma GrowKeepsClosings(r: State, o: nat, h: nat, memory: bool)
    requires ClosedOnce(r) && o < |r.owners| && h < r.next
    ensures ClosedOnce(Grown(r, o, h, memory))
  {
    ClosingsStay(r, Grown(r, o, h, memory));
  }

  lemma GrowKeepsOwners(r: State, o: nat, h: nat, memory: bool)
    requires OwnedOnce(r) && o < |r.owners| && r.owners[o].transfer.None?
    ensures OwnedOnce(Grown(r, o, h, memory))
  {
    var t, after := |r.transfers|, Grown(r, o, h, memory);
    forall u: nat | u < |after.transfers| && after.transfers[u].status != Freed
      ensures after.transfers[u].status == InFlight || HasOwner(after, u)
    {
      if u < t && after.transfers[u].status != InFlight {
        assert HasOwner(r, u);
        var p :| 0 <= p < |r.owners| && r.owners[p].transfer == Some(u);
        assert after.owners[p].transfer == Some(u);
      } else if u == t {
        assert after.owners[o].transfer == Some(t);
      }
    }
  }

  /** A status change of an owned transfer that stays owned. */
  lemma OwnersStay(s: State, after: State, o: nat, t: nat)
    requires OwnedOnce(s) && o < |s.owners| && s.owners[o].transfer == Some(t) && t < |s.transfers|
    requires |after.transfers| == |s.transfers| && after.frees == s.frees && |after.owners| == |s.owners|
    requires after.transfers[t].status != Freed && (after.owners[o].pending <==> after.transfers[t].status == InFlight)
    requires forall u | 0 <= u < |s.transfers| && u != t :: after.transfers[u] == s.transfers[u]
    requires forall p | 0 <= p < |s.owners| ::
               after.owners[p].transfer == s.owners[p].transfer &&
                   (p != o ==> after.owners[p].pending == s.owners[p].pending)
    ensures OwnedOnce(after)
  {
    assert s.transfers[t].status != Freed;
    forall u: nat | u < |after.transfers| && after.transfers[u].status != Freed
      ensures after.transfers[u].status == InFlight || HasOwner(after, u)
    {
      if u == t {
        assert after.owners[o].transfer == Some(t);
      } else if after.transfers[u].status != InFlight {
        assert HasOwner(s, u);
        var p :| 0 <= p < |s.owners| && s.owners[p].transfer == Some(u);
        assert after.owners[p].transfer == Some(u);
      }
    }
  }

  lemma FreshIsNotPending(s: State, o: nat)
    requires OwnedOnce(s) && CanSubmit(s, o)
    ensures !s.owners[o].pending
  {
  }

  /** Same handles given up, same closing marks. */
  lemma ClosingsStay(s: State, after: State)
    requires ClosedOnce(s) && after.next == s.next && after.held == s.held && after.closes == s.closes
    requires forall h: nat :: Entry(after, h).closing == Entry(s, h).closing && (h >= s.next ==> h !in after.handles)
    requires forall t <- after.transfers :: t.handle < s.next
    ensures ClosedOnce(after)
  {
    hide Entry;
  }

  lemma SubmitKeeps(s: State, o: nat, accepted: bool)
    requires Inv(s) && CanSubmit(s, o)
    ensures Inv(Submitted(s, o, accepted)) && Submitted(s, o, accepted).closes == s.closes
  {
    hide Flying, OwnedOnce, ClosedOnce;
    FreshIsNotPending(s, o);
    var after, t := Submitted(s, o, accepted), s.owners[o].transfer.value;
    var h := s.transfers[t].handle;
    var status := after.transfers[t].status;
    assert after.transfers == s.transfers[t := s.transfers[t].(status := status)];
    forall k: nat
      ensures Flying(after.transfers, k) == Flying(s.transfers, k) + if k == h && status == InFlight then 1 else 0
    {
      FlyingChanges(s.transfers, t, status, k);
    }
    HandlesInRange(s, t, status);
    ClosingsStay(s, after);
    OwnersStay(s, after, o, t);
  }

  lemma HandlesInRange(s: State, t: nat, status: Status)
    requires ClosedOnce(s) && t < |s.transfers|
    ensures s.transfers[t].handle < s.next && forall h: nat | h >= s.next :: h !in s.handles
    ensures forall x <- s.transfers[t := s.transfers[t].(status := status)] :: x.handle < s.next
  {
    assert s.transfers[t] in s.transfers;
    forall x | x in s.transfers[t := s.transfers[t].(status := status)] ensures x.handle < s.next {
      assert x in s.transfers || x == s.transfers[t].(status := status);
    }
  }

  lemma CompleteKeeps(s: State, t: nat)
    requires Inv(s) && t < |s.transfers| && s.transfers[t].status == InFlight
    ensures Inv(Completed(s, t)) && Completed(s, t).closes == s.closes
  {
    hide Flying, OwnedOnce, ClosedOnce;
    var after, h := Completed(s, t), s.transfers[t].handle;
    var status := after.transfers[t].status;
    assert after.transfers == s.transfers[t := s.transfers[t].(status := status)];
    forall k: nat ensures Flying(after.transfers, k) == Flying(s.transfers, k) - if k == h then 1 else 0 {
      FlyingChanges(s.transfers, t, status, k);
    }
    HandlesInRange(s, t, status);
    ClosingsStay(s, after);
    CompleteKeepsOwners(s, t);
  }

  lemma CompleteKeepsOwners(s: State, t: nat)
    requires OwnedOnce(s) && t < |s.transfers| && s.transfers[t].status == InFlight
    ensures OwnedOnce(Completed(s, t))
  {
    hide Finished;
    var after := Completed(s, t);
    if o :| 0 <= o < |s.owners| && s.owners[o].transfer == Some(t) {
      OwnersStay(s, after, o, t);
    } else {
      forall u: nat | u < |after.transfers| && after.transfers[u].status != Freed
        ensures after.transfers[u].status == InFlight || HasOwner(after, u)
      {
        if after.transfers[u].status != InFlight {
          assert HasOwner(s, u);
          var p :| 0 <= p < |s.owners| && s.owners[p].transfer == Some(u);
          assert after.owners[p].transfer == Some(u);
        }
      }
    }
  }

  lemma CloseKeeps(s: State, h: nat)
    requires Inv(s) && h in s.held
    ensures Inv(CloseDeferred(s, h))
    ensures forall k: nat :: CloseDeferred(s, h).closes[k] > s.closes[k] ==> Flying(s.transfers, k) == 0
  {
    hide Flying, OwnedOnce;
    OwnersUntouched(s, CloseDeferred(s, h));
    CloseKeepsCounts(s, h);
    CloseKeepsClosings(s, h);
  }

  lemma CloseKeepsCounts(s: State, h: nat)
    requires CountsRight(s.handles, s.transfers)
    ensures CountsRight(CloseDeferred(s, h).handles, s.transfers)
    ensures h !in s.handles ==> Flying(s.transfers, h) == 0
  {
    hide Flying;
  }

  lemma CloseKeepsClosings(s: State, h: nat)
    requires ClosedOnce(s) && h in s.held
    ensures ClosedOnce(CloseDeferred(s, h))
  {
  }

  lemma OwnersUntouched(s: State, after: State)
    requires OwnedOnce(s) && after.transfers == s.transfers && after.owners == s.owners && after.frees == s.frees
    ensures OwnedOnce(after)
  {
    forall t: nat | t < |after.transfers| && after.transfers[t].status != Freed
      ensures after.transfers[t].status == InFlight || HasOwner(after, t)
    {
      if s.transfers[t].status != InFlight {
        assert HasOwner(s, t);
      }
    }
  }

  lemma DrainKeeps(s: State)
    requires Inv(s)
    ensures Inv(Drained(s))
    ensures forall h: nat :: Drained(s).closes[h] > s.closes[h] ==> Flying(s.transfers, h) == 0
  {
    hide Flying;
    OwnersUntouched(s, Drained(s));
    var gone := Closable(s.handles);
    var added: multiset<nat> := multiset(gone);
    assert forall h: nat :: added[h] == if h in gone then 1 else 0;
  }

  lemma StepKeeps(s: State, step: Step)
    requires Inv(s)
    ensures Inv(Next(s, step))
    ensures forall h: nat :: Next(s, step).closes[h] > s.closes[h] ==> Flying(s.transfers, h) == 0
  {
    hide Flying, CountsRight, Released, Allocated, Submitted, Completed, CloseDeferred, Drained;
    match step
    case Open => OwnersUntouched(s, Next(s, step));
    case NewOwner => OwnerAdded(s);
    case Allocate(o, h, memory) => if o < |s.owners| && h < s.next { AllocateKeeps(s, o, h, memory); }
    case Submit(o, accepted) => if CanSubmit(s, o) { SubmitKeeps(s, o, accepted); }
    case Complete(t) => if t < |s.transfers| && s.transfers[t].status == InFlight { CompleteKeeps(s, t); }
    case Release(o) => if o < |s.owners| { ReleaseKeeps(s, o); }
    case DeferClose(h) => if h in s.held { CloseKeeps(s, h); }
    case Drain => DrainKeeps(s);
  }

  lemma OwnerAdded(s: State)
    requires OwnedOnce(s)
    ensures OwnedOnce(s.(owners := s.owners + [Owner(None, false)]))
  {
    var after := s.(owners := s.owners + [Owner(None, false)]);
    forall t: nat | t < |after.transfers| && after.transfers[t].status != Freed
      ensures after.transfers[t].status == InFlight || HasOwner(after, t)
    {
      if s.transfers[t].status != InFlight {
        assert HasOwner(s, t);
        var p :| 0 <= p < |s.owners| && s.owners[p].transfer == Some(t);
        assert after.owners[p].transfer == Some(t);
      }
    }
  }

  // ----- Runs -----

  function Run(s: State, steps: seq<Step>): State
    decreases |steps|
  {
    if steps == [] then s else Run(Next(s, steps[0]), steps[1..])
  }

  lemma {:induction false} RunKeeps(s: State, steps: seq<Step>)
    requires Inv(s)
    ensures Inv(Run(s, steps))
    decreases |steps|
  {
    hide Next, Inv;
    if steps != [] {
      StepKeeps(s, steps[0]);
      RunKeeps(Next(s, steps[0]), steps[1..]);
    }
  }

  /** In every state of every run: the table counts exactly the transfers in flight, no handle was
      closed twice, no transfer freed twice, none in use freed, and none lost. */
  lemma LifetimesAreSound(steps: seq<Step>)
    ensures var s := Run(Initial(), steps);
            && CountsRight(s.handles, s.transfers) && OwnedOnce(s)
            && (forall h: nat :: s.closes[h] <= 1) && (forall t: nat :: s.frees[t] <= 1)
  {
    hide Next, CountsRight;
    InitialInv();
    RunKeeps(Initial(), steps);
  }

  lemma InitialInv()
    ensures Inv(Initial())
  {
  }

  /** A closed handle had nothing in flight at the moment of closing. */
  lemma ClosingIsQuiet(steps: seq<Step>, step: Step, h: nat)
    ensures var s := Run(Initial(), steps); Next(s, step).closes[h] > s.closes[h] ==> Flying(s.transfers, h) == 0
  {
    hide Next;
    InitialInv();
    RunKeeps(Initial(), steps);
    StepKeeps(Run(Initial(), steps), step);
  }

  // ----- The object follows the run -----

  function TableOf(s: State): Table {
    Table(s.handles, s.closes)
  }

  /** The calls a step makes on the table. */
  function CallsOf(s: State, step: Step): seq<TableCall> {
    match step
    case Submit(o, accepted) =>
      if CanSubmit(s, o) then [Attempt(s.transfers[s.owners[o].transfer.value].handle, accepted)] else []
    case Complete(t) =>
      if t < |s.transfers| && s.transfers[t].status == InFlight then [Finish(s.transfers[t].handle)] else []
    case DeferClose(h) => if h in s.held then [GiveUp(h)] else []
    case Drain => [Walk]
    case _ => []
  }

  function AllCalls(s: State, steps: seq<Step>): seq<TableCall>
    decreases |steps|
  {
    if steps == [] then [] else CallsOf(s, steps[0]) + AllCalls(Next(s, steps[0]), steps[1..])
  }

  lemma ReplayOne(t: Table, call: TableCall)
    ensures Replay(t, [call]) == After(t, call)
  {
    hide After;
    assert [call][..0] == [];
    assert Replay(t, []) == t;
  }

  lemma QuietSteps(s: State, o: nat, h: nat, memory: bool)
    requires o < |s.owners|
    ensures TableOf(Released(s, o)) == TableOf(s) && TableOf(Allocated(s, o, h, memory)) == TableOf(s)
  {
  }

  lemma SubmitFollows(s: State, o: nat, accepted: bool)
    requires CountsRight(s.handles, s.transfers) && CanSubmit(s, o)
    ensures TableOf(Submitted(s, o, accepted)) ==
            After(TableOf(s), Attempt(s.transfers[s.owners[o].transfer.value].handle, accepted))
  {
    hide Flying;
  }

  lemma StepFollows(s: State, step: Step)
    requires CountsRight(s.handles, s.transfers)
    ensures TableOf(Next(s, step)) == Replay(TableOf(s), CallsOf(s, step))
  {
    hide Flying, Replay, CountsRight, Released, Allocated, Submitted, After;
    assert Replay(TableOf(s), []) == TableOf(s) by {
      ReplayNone(TableOf(s));
    }
    match step
    case Allocate(o, h, memory) => if o < |s.owners| { QuietSteps(s, o, h, memory); }
    case Release(o) => if o < |s.owners| { QuietSteps(s, o, 0, true); }
    case Submit(o, accepted) =>
      if CanSubmit(s, o) {
        SubmitFollows(s, o, accepted);
        ReplayOne(TableOf(s), CallsOf(s, step)[0]);
      }
    case Complete(t) =>
      if t < |s.transfers| && s.transfers[t].status == InFlight {
        CompleteFollows(s, t);
        ReplayOne(TableOf(s), CallsOf(s, step)[0]);
      }
    case DeferClose(h) =>
      if h in s.held {
        CloseFollows(s, h);
        ReplayOne(TableOf(s), GiveUp(h));
      }
    case Drain =>
      DrainFollows(s);
      ReplayOne(TableOf(s), Walk);
    case _ =>
  }

  lemma ReplayNone(t: Table)
    ensures Replay(t, []) == t
  {
  }

  lemma CompleteFollows(s: State, t: nat)
    requires t < |s.transfers|
    ensures TableOf(Completed(s, t)) == After(TableOf(s), Finish(s.transfers[t].handle))
  {
  }

  lemma CloseFollows(s: State, h: nat)
    ensures TableOf(CloseDeferred(s, h)) == After(TableOf(s), GiveUp(h))
  {
  }

  lemma DrainFollows(s: State)
    ensures TableOf(Drained(s)) == After(TableOf(s), Walk)
  {
  }

  lemma {:induction false} ReplayAppend(t: Table, a: seq<TableCall>, b: seq<TableCall>)
    ensures Replay(t, a + b) == Replay(Replay(t, a), b)
    decreases |b|
  {
    hide After;
    if b == [] {
      assert a + b == a;
    } else {
      assert (a + b)[..|a + b| - 1] == a + b[..|b| - 1];
      ReplayAppend(t, a, b[..|b| - 1]);
    }
  }

  lemma {:induction false} RunFollows(s: State, steps: seq<Step>)
    requires Inv(s)
    ensures TableOf(Run(s, steps)) == Replay(TableOf(s), AllCalls(s, steps))
    decreases |steps|
  {
    hide Next, CallsOf, After, CountsRight, OwnedOnce, ClosedOnce;
    if steps != [] {
      var t := Next(s, steps[0]);
      StepFollows(s, steps[0]);
      StepKeeps(s, steps[0]);
      RunFollows(t, steps[1..]);
      ReplayAppend(TableOf(s), CallsOf(s, steps[0]), AllCalls(t, steps[1..]));
    }
  }

  /** The table object, driven by the calls of a whole run, ends with exactly the transfers in
      flight counted and no handle closed twice. */
  method FollowRun(table: PendingHandles, ghost steps: seq<Step>, calls: seq<TableCall>)
    requires table.Value() == Table(map[], multiset{}) && calls == AllCalls(Initial(), steps)
    modifies table
    ensures table.Value() == TableOf(Run(Initial(), steps))
    ensures CountsRight(table.handles, Run(Initial(), steps).transfers) && forall h: nat :: table.closes[h] <= 1
  {
    hide Next, CountsRight, OwnedOnce, After, CallsOf;
    table.Perform(calls);
    InitialInv();
    RunFollows(Initial(), steps);
    LifetimesAreSound(steps);
  }

  // ----- Submission after closing has started -----

  /** The step puts a transfer in flight on handle h. */
  predicate Launches(s: State, step: Step, h: nat) {
    && step.Submit? && step.accepted && CanSubmit(s, step.owner)
    && s.transfers[s.owners[step.owner].transfer.value].handle == h && !Refuses(s, h)
  }

  /** After a handle was given up, a submission goes through exactly when the handle has been
      closed already: the guard only knows handles that are still waiting to close. */
  lemma LateLaunchExactly(steps: seq<Step>, o: nat, h: nat)
    requires var s := Run(Initial(), steps);
             h < s.next && h !in s.held && CanSubmit(s, o) && s.transfers[s.owners[o].transfer.value].handle == h
    ensures var s := Run(Initial(), steps); Launches(s, Submit(o, true), h) <==> s.closes[h] == 1
  {
    hide Next, CountsRight, OwnedOnce;
    InitialInv();
    RunKeeps(Initial(), steps);
  }

  /** Such a submission can happen: a transfer allocated before the handle is given up, with
      nothing in flight, and submitted afterwards. */
  lemma LateLaunchHappens() returns (steps: seq<Step>)
    ensures var s := Run(Initial(), steps); 0 !in s.held && s.closes[0] == 1 && Launches(s, Submit(0, true), 0)
  {
    steps := [Open, NewOwner, Allocate(0, 0, true), DeferClose(0)];
    var s1 := Next(Initial(), Open);
    var s2 := Next(s1, NewOwner);
    var s3 := Next(s2, Allocate(0, 0, true));
    assert s3.transfers == [Transfer(0, Fresh)] && s3.owners == [Owner(Some(0), false)];
    var s4 := Next(s3, DeferClose(0));
    assert steps[1..] == [NewOwner, Allocate(0, 0, true), DeferClose(0)];
    assert steps[1..][1..] == [Allocate(0, 0, true), DeferClose(0)] && steps[1..][1..][1..] == [DeferClose(0)];
    assert Run(Initial(), steps) == Run(s1, steps[1..]) == Run(s2, steps[1..][1..]) == Run(s3, [DeferClose(0)]);
    assert [DeferClose(0)][1..] == [];
    assert Run(s3, [DeferClose(0)]) == s4;
  }

  /** What a caller can check: transfers are allocated on handles it still owns, and a handle is
      given up only when no unsubmitted transfer refers to it. */
  predicate Careful(s: State, step: Step) {
    && (step.Allocate? ==> step.handle in s.held)
    && (step.DeferClose? ==> forall t <- s.transfers :: t.handle == step.handle ==> t.status != Fresh)
  }

  /** Every unsubmitted transfer refers to a handle that is still owned. */
  ghost predicate FreshIsHeld(s: State) {
    forall t <- s.transfers :: t.status == Fresh ==> t.handle in s.held
  }

  lemma NoNewFresh(ts: seq<Transfer>, t: nat, status: Status)
    requires t < |ts| && status != Fresh
    ensures forall x <- ts[t := ts[t].(status := status)] :: x.status == Fresh ==> x in ts
  {
  }

  lemma ReleaseNoNewFresh(s: State, o: nat)
    requires o < |s.owners|
    ensures forall x <- Released(s, o).transfers :: x.status == Fresh ==> x in s.transfers
  {
    var owner := s.owners[o];
    if owner.transfer.Some? && owner.transfer.value < |s.transfers| {
      NoNewFresh(s.transfers, owner.transfer.value, Freed);
    }
  }

  /** Only allocation makes unsubmitted transfers. */
  lemma FreshComesFrom(s: State, step: Step)
    ensures forall x <- Next(s, step).transfers ::
              x.status == Fresh ==> x in s.transfers || (step.Allocate? && x == Transfer(step.handle, Fresh))
  {
    hide Released, Finished, Closable;
    match step
    case Allocate(o, h, memory) => if o < |s.owners| && h < s.next { ReleaseNoNewFresh(s, o); }
    case Submit(o, accepted) =>
      if CanSubmit(s, o) {
        NoNewFresh(s.transfers, s.owners[o].transfer.value, Done);
        NoNewFresh(s.transfers, s.owners[o].transfer.value, InFlight);
      }
    case Complete(t) =>
      if t < |s.transfers| {
        NoNewFresh(s.transfers, t, Done);
        NoNewFresh(s.transfers, t, Freed);
      }
    case Release(o) => if o < |s.owners| { ReleaseNoNewFresh(s, o); }
    case _ =>
  }

  lemma HeldShrinksByClosing(s: State, step: Step)
    ensures forall h | h in s.held && !(step.DeferClose? && step.handle == h) :: h in Next(s, step).held
  {
  }

  lemma CarefulStepKeepsFresh(s: State, step: Step)
    requires FreshIsHeld(s) && Careful(s, step)
    ensures FreshIsHeld(Next(s, step))
  {
    hide Next;
    FreshComesFrom(s, step);
    HeldShrinksByClosing(s, step);
  }

  ghost predicate CarefulRun(s: State, steps: seq<Step>)
    decreases |steps|
  {
    steps == [] || (Careful(s, steps[0]) && CarefulRun(Next(s, steps[0]), steps[1..]))
  }

  /** With that care no transfer is ever submitted on a handle whose closing has started. */
  lemma {:induction false} CarefulRunsNeverLaunchLate(s: State, steps: seq<Step>, step: Step, h: nat)
    requires FreshIsHeld(s) && CarefulRun(s, steps)
    ensures FreshIsHeld(Run(s, steps))
    ensures Launches(Run(s, steps), step, h) ==> h in Run(s, steps).held
    decreases |steps|
  {
    hide Next;
    if steps != [] {
      CarefulStepKeepsFresh(s, steps[0]);
      CarefulRunsNeverLaunchLate(Next(s, steps[0]), steps[1..], step, h);
    }
  }
}
