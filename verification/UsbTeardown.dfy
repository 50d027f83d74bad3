/** What the owners of transfers and handles can rely on (`UsbTransfer` in usb_transfer.hpp), step by
    step, and that tearing everything down leaves nothing behind. */
module UsbTeardown {
  import opened Bytes
  import opened UsbLifetime

  // ----- Single steps -----

  /** A new transfer belongs to its owner, not yet submitted; without memory it is freed at once. */
  lemma AllocateGives(s: State, o: nat, h: nat, memory: bool)
    requires Inv(s) && o < |s.owners| && h < s.next
    ensures var r, t := Next(s, Allocate(o, h, memory)), |s.transfers|;
            && |r.transfers| == t + 1 && |r.owners| == |s.owners| && r.transfers[t].handle == h
            && r.transfers[t].status == (if memory then Fresh else Freed)
            && r.owners[o].transfer == (if memory then Some(t) else None)
  {
    hide CountsRight;
    ReleaseKeeps(s, o);
  }

  /** Opening makes a new handle, held by whoever opened it. */
  lemma OpenGives(s: State)
    requires Inv(s)
    ensures var r := Next(s, Open); r.next == s.next + 1 && r.held == s.held + {s.next} && s.next !in s.held
    ensures |Next(s, NewOwner).owners| == |s.owners| + 1
  {
    hide CountsRight, OwnedOnce;
  }

  /** Letting go of a transfer frees it, unless it is in flight: then it goes on without an owner. */
  lemma ReleaseLetsGo(s: State, o: nat)
    requires Inv(s) && o < |s.owners|
    ensures var r := Next(s, Release(o));
            && r.owners == s.owners[o := r.owners[o]] && r.owners[o].transfer.None?
            && |r.transfers| == |s.transfers| && r.next == s.next && r.held == s.held
            && forall t: nat | t < |s.transfers| ::
                 r.transfers[t].status == if s.owners[o].transfer == Some(t) && s.transfers[t].status != InFlight
                                          then Freed else s.transfers[t].status
  {
    hide CountsRight, ClosedOnce;
    assert Inv(s) && OwnedOnce(s);
    ReleaseKeeps(s, o);
  }

  /** A completed transfer goes back to its owner, or is freed when there is none any more. */
  lemma CompleteReturns(s: State, t: nat)
    requires Inv(s) && t < |s.transfers| && s.transfers[t].status == InFlight
    ensures var r := Next(s, Complete(t));
            && |r.transfers| == |s.transfers| && |r.owners| == |s.owners| && r.next == s.next && r.held == s.held
            && r.transfers == s.transfers[t := r.transfers[t]]
            && r.transfers[t].status == (if HasOwner(s, t) then Done else Freed)
            && forall o: nat | o < |s.owners| ::
                 && r.owners[o].transfer == s.owners[o].transfer
                 && r.owners[o].pending == (s.owners[o].pending && s.owners[o].transfer != Some(t))
  {
    hide CountsRight, ClosedOnce, Finished;
    assert Inv(s) && OwnedOnce(s);
  }

  // ----- Tearing down -----

  /** Every owner lets go. */
  function ReleaseAll(s: State, n: nat): State {
    if n == 0 then s else Next(ReleaseAll(s, n - 1), Release(n - 1))
  }

  /** Every transfer still in flight completes, or is cancelled, which is the same here. */
  function CompleteAll(s: State, n: nat): State {
    if n == 0 then s else Next(CompleteAll(s, n - 1), Complete(n - 1))
  }

  /** Every handle still held is given up. */
  function CloseAll(s: State, n: nat): State {
    if n == 0 then s else Next(CloseAll(s, n - 1), DeferClose(n - 1))
  }

  function Teardown(s: State): State {
    var released := ReleaseAll(s, |s.owners|);
    var completed := CompleteAll(released, |released.transfers|);
    Next(CloseAll(completed, completed.next), Drain)
  }

  lemma {:induction false} ReleasesEmpty(s: State, n: nat)
    requires Inv(s) && n <= |s.owners|
    ensures var r := ReleaseAll(s, n);
            && Inv(r) && |r.owners| == |s.owners| && r.next == s.next
            && forall o | 0 <= o < n :: r.owners[o].transfer.None?
  {
    hide Inv, Next;
    if n > 0 {
      ReleasesEmpty(s, n - 1);
      ReleaseLetsGo(ReleaseAll(s, n - 1), n - 1);
      StepKeeps(ReleaseAll(s, n - 1), Release(n - 1));
    }
  }

  ghost predicate Unowned(s: State) {
    forall o | 0 <= o < |s.owners| :: s.owners[o].transfer.None?
  }

  /** Without owners, what is not in flight is freed. */
  lemma UnownedIsFlying(s: State, t: nat)
    requires Inv(s) && Unowned(s) && t < |s.transfers| && s.transfers[t].status != Freed
    ensures s.transfers[t].status == InFlight && !HasOwner(s, t)
  {
    hide CountsRight, ClosedOnce;
  }

  lemma {:induction false} CompletesFree(s: State, n: nat)
    requires Inv(s) && Unowned(s) && n <= |s.transfers|
    ensures var r := CompleteAll(s, n);
            && Inv(r) && Unowned(r) && |r.transfers| == |s.transfers| && r.next == s.next
            && forall t | 0 <= t < n :: r.transfers[t].status == Freed
  {
    hide Inv, Next, HasOwner;
    if n > 0 {
      var before := CompleteAll(s, n - 1);
      CompletesFree(s, n - 1);
      StepKeeps(before, Complete(n - 1));
      if before.transfers[n - 1].status != Freed {
        UnownedIsFlying(before, n - 1);
        CompleteReturns(before, n - 1);
      } else {
        IdleCompletes(before, n - 1);
      }
    }
  }

  lemma IdleCompletes(s: State, t: nat)
    requires t < |s.transfers| && s.transfers[t].status != InFlight
    ensures Next(s, Complete(t)) == s
  {
  }

  lemma GiveUp(s: State, h: nat)
    ensures var r := Next(s, DeferClose(h));
            r.transfers == s.transfers && r.owners == s.owners && r.next == s.next && r.held == s.held - {h}
            && r.frees == s.frees
  {
  }

  lemma {:induction false} ClosesGiveUp(s: State, n: nat)
    requires Inv(s)
    ensures var r := CloseAll(s, n);
            && Inv(r) && r.transfers == s.transfers && r.next == s.next
            && forall h: nat | h < n :: h !in r.held
  {
    hide Inv, Next;
    if n > 0 {
      ClosesGiveUp(s, n - 1);
      StepKeeps(CloseAll(s, n - 1), DeferClose(n - 1));
      GiveUp(CloseAll(s, n - 1), n - 1);
    }
  }

  lemma {:induction false} NothingFlies(ts: seq<Transfer>, h: nat)
    requires forall t <- ts :: t.status == Freed
    ensures Flying(ts, h) == 0
  {
    if ts != [] {
      NothingFlies(ts[..|ts| - 1], h);
    }
  }

  /** With every transfer freed and no handle held, the drain closes what is left. */
  lemma DrainEmpties(s: State)
    requires Inv(s) && (forall t <- s.transfers :: t.status == Freed) && forall h: nat | h < s.next :: h !in s.held
    ensures var r := Next(s, Drain);
            r.handles == map[] && r.held == {} && forall h: nat :: r.closes[h] == if h < s.next then 1 else 0
  {
    hide Flying, OwnedOnce;
    forall h: nat ensures Flying(s.transfers, h) == 0 {
      NothingFlies(s.transfers, h);
    }
    DrainKeeps(s);
  }

  /** From every reachable state: let go of all transfers, complete those in flight, give up all
      handles and drain. Then every transfer was freed exactly once, every handle was closed exactly
      once, and the table is empty. */
  lemma TeardownLeavesNothing(steps: seq<Step>)
    ensures var s, r := Run(Initial(), steps), Teardown(Run(Initial(), steps));
            && r.next == s.next && r.handles == map[] && r.held == {}
            && (forall h: nat :: r.closes[h] == if h < r.next then 1 else 0)
            && (forall t: nat :: r.frees[t] == if t < |r.transfers| then 1 else 0)
  {
    hide Run, Next, ReleaseAll, CompleteAll, CloseAll;
    RunKeeps(Initial(), steps);
    var s := Run(Initial(), steps);
    ReleasesEmpty(s, |s.owners|);
    var released := ReleaseAll(s, |s.owners|);
    CompletesFree(released, |released.transfers|);
    var completed := CompleteAll(released, |released.transfers|);
    ClosesGiveUp(completed, completed.next);
    var closed := CloseAll(completed, completed.next);
    DrainEmpties(closed);
    DrainLeaves(closed);
    StepKeeps(closed, Drain);
  }

  lemma DrainLeaves(s: State)
    ensures Next(s, Drain).transfers == s.transfers && Next(s, Drain).next == s.next
  {
  }
}
