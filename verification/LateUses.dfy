/** When the generation of a stage is still current as its image is used: over every run, exactly
    when nothing but the stage's own progress happened in between (`WorkerEnrollVerify`). */
module LateUses {
  import opened CaptureProtocol

  // ----- Positions in a run -----

  /** The state after the first k steps. */
  function At(steps: seq<Step>, k: nat): State
    requires k <= |steps|
  {
    Run(Initial(), steps[..k])
  }

  lemma {:induction false} RunExtends(s: State, steps: seq<Step>, step: Step)
    ensures Run(s, steps + [step]) == Next(Run(s, steps), step)
    decreases |steps|
  {
    hide Next;
    if steps == [] {
      assert steps + [step] == [step] && [step][1..] == [];
    } else {
      assert (steps + [step])[1..] == steps[1..] + [step];
      RunExtends(Next(s, steps[0]), steps[1..], step);
    }
  }

  lemma OneStep(steps: seq<Step>, k: nat)
    requires k < |steps|
    ensures At(steps, k + 1) == Next(At(steps, k), steps[k])
  {
    hide Next;
    assert steps[..k + 1] == steps[..k] + [steps[k]];
    RunExtends(Initial(), steps[..k], steps[k]);
  }

  lemma AtStart(steps: seq<Step>)
    ensures At(steps, 0) == Initial()
  {
  }

  // ----- Raising the generation -----

  predicate Takes(s: State, i: nat) {
    i < |s.workers| && s.workers[i].phase == Waiting && s.images != []
  }

  /** The steps that make a new generation current. */
  predicate Raises(s: State, step: Step) {
    match step
    case Begin => true
    case Sleep => true
    case WorkerRuns(i) => i < |s.workers| && s.workers[i].phase.Signalling?
    case WorkerTakes(i, _) => Takes(s, i) && s.images[0] == StopRequest
    case Cancel(i, _) => i < |s.workers| && s.workers[i].phase != Gone && s.workers[i].generation == s.current
    case ControllerRuns => s.controller.busy == Recovering
    case _ => false
  }

  lemma RaisesByOne(s: State, step: Step)
    ensures Next(s, step).current == s.current + if Raises(s, step) then 1 else 0
  {
  }

  /** No step from a up to b makes a new generation current. */
  predicate Quiet(steps: seq<Step>, a: nat, b: nat)
    requires a <= b <= |steps|
  {
    forall k: nat | a <= k < b :: !Raises(At(steps, k), steps[k])
  }

  lemma {:induction false} CurrentExactly(steps: seq<Step>, a: nat, b: nat)
    requires a <= b <= |steps|
    ensures At(steps, b).current >= At(steps, a).current
    ensures At(steps, b).current == At(steps, a).current <==> Quiet(steps, a, b)
    decreases b
  {
    hide At, Next, Raises;
    if a < b {
      CurrentExactly(steps, a, b - 1);
      OneStep(steps, b - 1);
      RaisesByOne(At(steps, b - 1), steps[b - 1]);
    }
  }

  // ----- Stages -----

  /** Worker i starts a stage with this step. */
  predicate Begins(s: State, step: Step, i: nat) {
    match step
    case Begin => i == |s.workers|
    case WorkerRuns(j) => j == i < |s.workers| && s.workers[i].phase == Signalling(false)
    case _ => false
  }

  lemma BeginningIsCurrent(s: State, step: Step, i: nat)
    requires Begins(s, step, i)
    ensures var t := Next(s, step); i < |t.workers| && t.workers[i].generation == t.current
  {
  }

  /** Any other step leaves the worker's stage as it was, and a finished stage finished. */
  lemma StageStays(s: State, step: Step, i: nat)
    requires !Begins(s, step, i)
    ensures var t := Next(s, step);
            && (i < |t.workers| <==> i < |s.workers|)
            && (i < |s.workers| ==>
                  && t.workers[i].generation == s.workers[i].generation
                  && (Spent(s.workers[i].phase) ==> Spent(t.workers[i].phase)))
  {
    hide Handle, RunController, RunWorker, TakeDelivery, CancelWorker, Spent;
    ControllerKeepsWorkers(s);
    match step
    case WorkerRuns(j) => if j < |s.workers| { RunStays(s, j); }
    case WorkerTakes(j, terminal) => if Takes(s, j) { TakeStays(s, j, terminal); }
    case Cancel(j, disconnected) => if j < |s.workers| { CancelStays(s, j, disconnected); }
    case _ =>
  }

  /** Worker j moved on within its stage, or not at all, and no other worker did. */
  predicate Moved(s: State, t: State, j: nat)
    requires j < |s.workers|
  {
    && |t.workers| == |s.workers| && t.workers[j].generation == s.workers[j].generation
    && (Spent(s.workers[j].phase) ==> Spent(t.workers[j].phase))
    && forall i | 0 <= i < |s.workers| && i != j :: t.workers[i] == s.workers[i]
  }

  lemma RunStays(s: State, j: nat)
    requires j < |s.workers|
    ensures s.workers[j].phase != Signalling(false) ==> Moved(s, RunWorker(s, j), j)
    ensures forall i | 0 <= i < |s.workers| && i != j :: RunWorker(s, j).workers[i] == s.workers[i]
    ensures |RunWorker(s, j).workers| == |s.workers|
  {
  }

  lemma TakeStays(s: State, j: nat, terminal: bool)
    requires Takes(s, j)
    ensures Moved(s, TakeDelivery(s, j, terminal), j)
  {
  }

  lemma CancelStays(s: State, j: nat, disconnected: bool)
    requires j < |s.workers|
    ensures Moved(s, CancelWorker(s, j, disconnected), j)
  {
  }

  lemma ControllerKeepsWorkers(s: State)
    ensures RunController(s).workers == s.workers
    ensures forall m, operating :: Handle(s, m, operating).workers == s.workers
    ensures s.events != [] ==>
              forall m, operating :: Handle(s.(events := s.events[1..]), m, operating).workers == s.workers
  {
  }

  /** Worker i starts no stage from a up to b. */
  predicate SameStage(steps: seq<Step>, i: nat, a: nat, b: nat)
    requires a <= b <= |steps|
  {
    forall k: nat | a <= k < b :: !Begins(At(steps, k), steps[k], i)
  }

  lemma {:induction false} StageLasts(steps: seq<Step>, i: nat, a: nat, b: nat)
    requires a <= b <= |steps| && SameStage(steps, i, a, b) && i < |At(steps, a).workers|
    ensures var s, t := At(steps, a), At(steps, b);
            && i < |t.workers| && t.workers[i].generation == s.workers[i].generation
            && (Spent(s.workers[i].phase) ==> Spent(t.workers[i].phase))
    decreases b
  {
    hide At, Next, Begins, Spent;
    if a < b {
      StageLasts(steps, i, a, b - 1);
      OneStep(steps, b - 1);
      StageStays(At(steps, b - 1), steps[b - 1], i);
    }
  }

  /** The stage worker i is in at position k began with this step. */
  predicate BeganAt(steps: seq<Step>, i: nat, begun: nat, k: nat) {
    && begun < k <= |steps| && Begins(At(steps, begun), steps[begun], i) && SameStage(steps, i, begun + 1, k)
  }

  lemma StageOf(steps: seq<Step>, i: nat, begun: nat, k: nat)
    requires BeganAt(steps, i, begun, k)
    ensures i < |At(steps, k).workers| && At(steps, k).workers[i].generation == At(steps, begun + 1).current
  {
    hide At, Next, Begins, Spent;
    OneStep(steps, begun);
    BeginningIsCurrent(At(steps, begun), steps[begun], i);
    StageLasts(steps, i, begun + 1, k);
  }

  /** Every worker's stage has a beginning. */
  lemma {:induction false} HasBegun(steps: seq<Step>, i: nat, k: nat) returns (begun: nat)
    requires k <= |steps| && i < |At(steps, k).workers|
    ensures BeganAt(steps, i, begun, k)
    decreases k
  {
    hide At, Run, Next, Begins;
    AtStart(steps);
    OneStep(steps, k - 1);
    if Begins(At(steps, k - 1), steps[k - 1], i) {
      begun := k - 1;
    } else {
      StageStays(At(steps, k - 1), steps[k - 1], i);
      begun := HasBegun(steps, i, k - 1);
    }
  }

  // ----- Uses -----

  /** Worker i uses an image with this step. */
  predicate UsesImage(s: State, step: Step, i: nat) {
    && step.WorkerTakes? && step.worker == i && Takes(s, i)
    && s.images[0].Image? && s.images[0].generation == s.workers[i].generation
  }

  lemma UseIsRecorded(s: State, step: Step, i: nat)
    requires UsesImage(s, step, i)
    ensures Next(s, step).uses ==
            s.uses + [Use(s.images[0].id, s.workers[i].generation, s.workers[i].generation, s.current)]
  {
  }

  lemma OnlyUsesAreRecorded(s: State, step: Step)
    ensures Next(s, step).uses == s.uses || exists i :: UsesImage(s, step, i)
  {
    if step.WorkerTakes? && Takes(s, step.worker) && s.images[0].Image? &&
       s.images[0].generation == s.workers[step.worker].generation {
      assert UsesImage(s, step, step.worker);
    }
  }

  // ----- What can come between -----

  /** A step not of worker i's own making that can make its stage's generation stale while the
      stage may still use an image. */
  predicate Foreign(step: Step, i: nat) {
    match step
    case Begin => true
    case Sleep => true
    case WorkerRuns(j) => j != i
    case WorkerTakes(j, _) => j != i
    case Cancel(j, _) => j != i
    case _ => false
  }

  /** All images on their way are of generation `floor` or later. */
  predicate ImagesFrom(s: State, floor: nat) {
    && s.current >= floor && (forall d <- s.images :: d.Image? ==> d.generation >= floor)
    && (s.controller.busy.PuttingImage? ==> s.controller.busy.generation >= floor)
  }

  lemma DeliveriesStay(s: State, i: nat, terminal: bool, floor: nat)
    requires ImagesFrom(s, floor) && Takes(s, i)
    ensures ImagesFrom(TakeDelivery(s, i, terminal), floor)
  {
    assert forall d <- s.images[1..] :: d in s.images;
  }

  lemma HandlingStays(s: State, m: Message, operating: bool, floor: nat)
    requires ImagesFrom(s, floor) && s.controller.busy == Idle
    ensures ImagesFrom(Handle(s, m, operating), floor)
  {
  }

  lemma RunningStays(s: State, i: nat, floor: nat)
    requires ImagesFrom(s, floor) && i < |s.workers|
    ensures ImagesFrom(RunWorker(s, i), floor)
  {
  }

  lemma CancellingStays(s: State, i: nat, disconnected: bool, floor: nat)
    requires ImagesFrom(s, floor) && i < |s.workers|
    ensures ImagesFrom(CancelWorker(s, i, disconnected), floor)
  {
  }

  lemma ControlStays(s: State, floor: nat)
    requires ImagesFrom(s, floor)
    ensures ImagesFrom(RunController(s), floor)
  {
  }

  lemma ImagesStayFrom(s: State, step: Step, floor: nat)
    requires ImagesFrom(s, floor)
    ensures ImagesFrom(Next(s, step), floor)
  {
    hide TakeDelivery, Handle, RunWorker, CancelWorker, RunController;
    match step
    case WorkerRuns(i) => if i < |s.workers| { RunningStays(s, i, floor); }
    case WorkerTakes(i, terminal) => if Takes(s, i) { DeliveriesStay(s, i, terminal, floor); }
    case Cancel(i, disconnected) => if i < |s.workers| { CancellingStays(s, i, disconnected, floor); }
    case ControllerRuns => ControlStays(s, floor);
    case ControllerTakes(operating) =>
      if s.controller.busy == Idle && s.events != [] {
        HandlingStays(s.(events := s.events[1..]), s.events[0], operating, floor);
      }
    case _ =>
  }

  lemma {:induction false} ImagesRemainFrom(steps: seq<Step>, a: nat, b: nat, floor: nat)
    requires a <= b <= |steps| && ImagesFrom(At(steps, a), floor)
    ensures ImagesFrom(At(steps, b), floor)
    decreases b
  {
    hide At, Next, ImagesFrom;
    if a < b {
      ImagesRemainFrom(steps, a, b - 1, floor);
      OneStep(steps, b - 1);
      ImagesStayFrom(At(steps, b - 1), steps[b - 1], floor);
    }
  }

  lemma RecoveryClears(s: State)
    requires s.controller.busy == Recovering
    ensures var t := Next(s, ControllerRuns); t.current == s.current + 1 && ImagesFrom(t, t.current)
  {
  }

  /** After a recovery no image of an older stage is left to be used. */
  lemma NoRecovery(steps: seq<Step>, i: nat, begun: nat, k: nat, used: nat)
    requires BeganAt(steps, i, begun, used) && begun < k < used < |steps|
    requires UsesImage(At(steps, used), steps[used], i)
    ensures !(steps[k] == ControllerRuns && At(steps, k).controller.busy == Recovering)
  {
    hide At, Next, Begins;
    var s := At(steps, k);
    if steps[k] == ControllerRuns && s.controller.busy == Recovering {
      OneStep(steps, k);
      RecoveryClears(s);
      ImagesRemainFrom(steps, k + 1, used, s.current + 1);
      StageOf(steps, i, begun, used);
      CurrentExactly(steps, begun + 1, k);
    }
  }

  /** A worker's own step that raises the generation without starting a stage ends its stage. */
  lemma OwnRaiseSpends(s: State, step: Step, i: nat)
    requires Raises(s, step) && !Begins(s, step, i) && !Foreign(step, i) && !step.ControllerRuns?
    ensures i < |s.workers| && Spent(Next(s, step).workers[i].phase)
  {
  }

  /** Between the beginning of a stage and its use only sleep, another operation's beginning or
      another worker raises the generation: a recovery drops the image, and the worker's own
      raising steps end its stage. */
  lemma OnlyForeignRaises(steps: seq<Step>, i: nat, begun: nat, k: nat, used: nat)
    requires BeganAt(steps, i, begun, used) && begun < k < used < |steps|
    requires UsesImage(At(steps, used), steps[used], i) && Raises(At(steps, k), steps[k])
    ensures Foreign(steps[k], i)
  {
    var s := At(steps, k);
    OneStep(steps, k);
    assert SameStage(steps, i, begun + 1, used);
    hide At, Next, Begins;
    if steps[k] == ControllerRuns {
      NoRecovery(steps, i, begun, k, used);
      assert false;
    }
    if !Foreign(steps[k], i) {
      OwnRaiseSpends(s, steps[k], i);
      assert i < |At(steps, k + 1).workers| by {
        assert SameStage(steps, i, begun + 1, k + 1);
        StageOf(steps, i, begun, k + 1);
      }
      StageLasts(steps, i, k + 1, used);
    }
  }

  /** Nothing foreign from a up to b makes a new generation current. */
  predicate Undisturbed(steps: seq<Step>, i: nat, a: nat, b: nat)
    requires a <= b <= |steps|
  {
    forall k: nat | a <= k < b && Foreign(steps[k], i) :: !Raises(At(steps, k), steps[k])
  }

  // ----- The exact condition -----

  /** The use u was made at step `used`, by worker i, for the stage that began at step `begun`. */
  predicate MadeAt(steps: seq<Step>, u: Use, i: nat, begun: nat, used: nat) {
    && used < |steps| && UsesImage(At(steps, used), steps[used], i) && BeganAt(steps, i, begun, used)
    && u.stage == At(steps, used).workers[i].generation && u.now == At(steps, used).current
  }

  /** The generation is still current at the use exactly when no step since the stage began made
      a new one current; of all steps only sleep, another operation's beginning and other workers'
      steps can have done so. */
  lemma CurrentAtUseExactly(steps: seq<Step>, u: Use, i: nat, begun: nat, used: nat)
    requires MadeAt(steps, u, i, begun, used)
    ensures u.now == u.stage <==> Quiet(steps, begun + 1, used)
    ensures u.now == u.stage <==> Undisturbed(steps, i, begun + 1, used)
  {
    hide At, Next, Begins, Raises, UsesImage, Foreign;
    StageOf(steps, i, begun, used);
    CurrentExactly(steps, begun + 1, used);
    if !Quiet(steps, begun + 1, used) {
      var k: nat :| begun + 1 <= k < used && Raises(At(steps, k), steps[k]);
      OnlyForeignRaises(steps, i, begun, k, used);
    }
  }

  /** Every use of every run was made at some step for a stage with a beginning, so the condition
      above decides it. */
  lemma {:induction false} EveryUseIsMade(steps: seq<Step>, n: nat, u: Use) returns (i: nat, begun: nat, used: nat)
    requires n <= |steps| && u in At(steps, n).uses
    ensures used < n && MadeAt(steps, u, i, begun, used)
    decreases n
  {
    hide At, Run, Next, UsesImage, Begins;
    AtStart(steps);
    var s := At(steps, n - 1);
    OneStep(steps, n - 1);
    OnlyUsesAreRecorded(s, steps[n - 1]);
    if u in s.uses {
      i, begun, used := EveryUseIsMade(steps, n - 1, u);
    } else {
      i :| UsesImage(s, steps[n - 1], i);
      UseIsRecorded(s, steps[n - 1], i);
      assert i < |s.workers| by {
        UserExists(s, steps[n - 1], i);
      }
      used := n - 1;
      begun := HasBegun(steps, i, used);
    }
  }

  lemma UserExists(s: State, step: Step, i: nat)
    requires UsesImage(s, step, i)
    ensures i < |s.workers|
  {
  }

  // ----- Late uses happen -----

  /** A run that reaches a state, one step longer. */
  lemma Extend(steps: seq<Step>, s: State, step: Step) returns (longer: seq<Step>)
    requires Run(Initial(), steps) == s
    ensures Run(Initial(), longer) == Next(s, step) && longer == steps + [step]
  {
    hide Next;
    longer := steps + [step];
    RunExtends(Initial(), steps, step);
  }

  function Waiter(images: seq<Delivery>, events: seq<Message>, c: Controller, receipts: seq<Receipt>): State {
    State(1, false, events, images, c, [Worker(1, Waiting)], receipts, [])
  }

  lemma OneWaits() returns (steps: seq<Step>)
    ensures Run(Initial(), steps) == Waiter([], [StartSensor], Controller(true, false, 0, true, false, false, Idle), [])
    ensures Sleep !in steps
  {
    steps := [];
    steps := Extend(steps, Initial(), DeviceSends(SensorReady));
    steps := Extend(steps, Initial().(events := [SensorReady]), ControllerTakes(false));
    var c := Controller(true, false, 0, true, false, false, Transfer);
    steps := Extend(steps, Initial().(controller := c), ControllerRuns);
    var ready := Initial().(controller := c.(busy := Idle));
    steps := Extend(steps, ready, Begin);
    steps := Extend(steps, ready.(current := 1, workers := [Worker(1, Starting)]), WorkerRuns(0));
    steps := Extend(steps, ready.(current := 1, workers := [Worker(1, Requesting)]), WorkerRuns(0));
  }

  lemma OneImageArrives() returns (steps: seq<Step>)
    ensures Run(Initial(), steps) ==
            Waiter([Image(1, 7)], [], Controller(true, false, 1, true, false, false, Idle), [Receipt(7, 1, 1)])
    ensures Sleep !in steps
  {
    steps := OneWaits();
    var c := Controller(true, false, 0, true, false, false, Idle);
    steps := Extend(steps, Waiter([], [StartSensor], c, []), ControllerTakes(true));
    var armed := c.(active := true, generation := 1, busy := BeforeArm);
    steps := Extend(steps, Waiter([], [], armed, []), ControllerRuns);
    steps := Extend(steps, Waiter([], [], armed.(busy := Transfer), []), ControllerRuns);
    steps := Extend(steps, Waiter([], [], armed.(busy := Idle), []), DeviceSends(ImageEvent(7)));
    steps := Extend(steps, Waiter([], [ImageEvent(7)], armed.(busy := Idle), []), ControllerTakes(true));
    var putting := armed.(active := false, busy := PuttingImage(1, 7));
    steps := Extend(steps, Waiter([], [], putting, [Receipt(7, 1, 1)]), ControllerRuns);
  }

  /** The system may go to sleep between the controller's put and the worker's take. */
  lemma SleepMayPrecedeUse() returns (steps: seq<Step>)
    ensures Run(Initial(), steps).uses == [Use(7, 1, 1, 2)] && Sleep in steps
  {
    steps := OneImageArrives();
    var s := Waiter([Image(1, 7)], [], Controller(true, false, 1, true, false, false, Idle), [Receipt(7, 1, 1)]);
    steps := Extend(steps, s, Sleep);
    steps := Extend(steps, s.(current := 2, sleeping := true, events := [Suspend]), WorkerTakes(0, true));
  }

  /** Without sleep: the client asks for a stop and starts another operation before the first
      worker takes the image that is already queued ahead of the stop request. */
  lemma NewOperationMayPrecedeUse() returns (steps: seq<Step>)
    ensures Run(Initial(), steps).uses == [Use(7, 1, 1, 2)] && Sleep !in steps
  {
    steps := OneImageArrives();
    var s := Waiter([Image(1, 7)], [], Controller(true, false, 1, true, false, false, Idle), [Receipt(7, 1, 1)]);
    steps := Extend(steps, s, AskStop);
    var asked := s.(images := [Image(1, 7), StopRequest]);
    steps := Extend(steps, asked, Begin);
    steps :=
        Extend(steps, asked.(current := 2, workers := [Worker(1, Waiting), Worker(2, Starting)]), WorkerTakes(0, true));
  }
}
