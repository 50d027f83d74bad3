/** What the workers and the power watcher make the controller do (`WorkerEnrollVerify`,
    `WorkerPower`, `WorkerControl`): the sensor is started for every stage and stopped at the end of
    every operation. */
module SensorOrders {
  import opened CaptureProtocol
  import opened LateUses

  /** The order m has joined the controller's queue. */
  predicate Ordered(s: State, t: State, m: Message) {
    t.events == s.events + [m]
  }

  /** A stage asks for the sensor before it waits, an operation stops it before it is gone, and the
      power watcher tells of sleep and wake-up. */
  lemma OrdersGiven(s: State, i: nat)
    requires i < |s.workers|
    ensures s.workers[i].phase == Requesting ==>
              var t := Next(s, WorkerRuns(i)); Ordered(s, t, StartSensor) && t.workers[i].phase == Waiting
    ensures s.workers[i].phase == Stopping ==>
              var t := Next(s, WorkerRuns(i)); Ordered(s, t, StopSensor) && t.workers[i].phase == Gone
    ensures var t := Next(s, Sleep); Ordered(s, t, Suspend) && t.sleeping && t.current == s.current + 1
    ensures var t := Next(s, Wake); Ordered(s, t, Resume) && !t.sleeping && t.current == s.current
    ensures var t := Next(s, Cancel(i, true)); Ordered(s, t, StopSensor) && t.images == [] && t.workers[i].phase == Gone
  {
  }

  /** A worker only gets into its waiting phase by asking for the sensor, and past stopping only by
      stopping it or by being cancelled. */
  lemma NoOtherWay(s: State, step: Step, i: nat)
    requires i < |s.workers|
    ensures var t := Next(s, step);
            && (t.workers[i].phase == Waiting && s.workers[i].phase != Waiting ==> Ordered(s, t, StartSensor))
            && (t.workers[i].phase == Gone && s.workers[i].phase != Gone && !step.Cancel? ==> Ordered(s, t, StopSensor))
  {
    hide Handle, RunController, TakeDelivery, CancelWorker;
    ControllerKeepsWorkers(s);
    match step
    case WorkerTakes(j, terminal) => if Takes(s, j) { TakingWaits(s, j, terminal, i); }
    case Cancel(j, disconnected) => if j < |s.workers| { CancellingWaits(s, j, disconnected, i); }
    case _ =>
  }

  lemma TakingWaits(s: State, j: nat, terminal: bool, i: nat)
    requires Takes(s, j) && i < |s.workers|
    ensures var t := TakeDelivery(s, j, terminal);
            && |t.workers| == |s.workers|
            && (t.workers[i].phase == Waiting ==> s.workers[i].phase == Waiting)
            && (t.workers[i].phase == Gone ==> s.workers[i].phase == Gone)
  {
  }

  lemma CancellingWaits(s: State, j: nat, disconnected: bool, i: nat)
    requires j < |s.workers| && i < |s.workers|
    ensures var t := CancelWorker(s, j, disconnected);
            |t.workers| == |s.workers| && (t.workers[i].phase == Waiting ==> s.workers[i].phase == Waiting)
  {
  }

  /** What the controller makes of the orders. A stop ends the capture whatever the session's state;
      a start arms it for the generation then current, unless the session is not ready or asleep. */
  lemma OrdersTaken(s: State, operating: bool)
    requires s.controller.busy == Idle && s.events != []
    ensures var t := Next(s, ControllerTakes(operating));
            && (s.events[0] == StopSensor ==> !t.controller.active)
            && (s.events[0] == Suspend ==> !t.controller.active && t.controller.suspended && !t.controller.ready)
            && (s.events[0] == StartSensor ==>
                  if s.controller.ready && !s.sleeping
                  then t.controller.active && t.controller.generation == t.current
                  else t.controller == s.controller)
            && t.events == s.events[1..]
  {
  }

  /** An image the device sends is passed on exactly when a capture of the current generation is
      under way and the image is not a stale one; the capture is then over. */
  lemma ImagesTaken(s: State, operating: bool, id: nat)
    requires s.controller.busy == Idle && s.events != [] && s.events[0] == ImageEvent(id)
    ensures var c, t := s.controller, Next(s, ControllerTakes(operating));
            if c.active && c.generation == s.current && !c.stale then
              t.controller.busy == PuttingImage(s.current, id) && !t.controller.active
            else t.controller.busy != PuttingImage(s.current, id) && t.receipts == s.receipts
  {
  }

  /** A touch is stale exactly when it is the first one awaited and comes early; a stale image is
      thrown away and the sensor armed again. */
  lemma StaleTouches(s: State, operating: bool, early: bool)
    requires s.controller.busy == Idle && s.events != [] && s.events[0] == FingerEvent(early)
    requires s.controller.ready && s.controller.active && s.controller.generation == s.current
    ensures var t := Next(s, ControllerTakes(operating));
            && (t.controller.stale <==> s.controller.awaitingTouch && early) && !t.controller.awaitingTouch
            && (!t.controller.stale ==> t.controller.busy == PuttingFinger(s.current))
  {
  }

  lemma StaleImages(s: State, operating: bool, id: nat)
    requires s.controller.busy == Idle && s.events != [] && s.events[0] == ImageEvent(id)
    requires s.controller.active && s.controller.generation == s.current && s.controller.stale
    ensures var t := Next(s, ControllerTakes(operating));
            t.controller.active && t.controller.generation == t.current && !t.controller.stale
            && t.controller.busy == BeforeArm && t.images == s.images
  {
  }

  /** A lost session tells a running operation, which then ends. */
  lemma LossEnds(s: State, operating: bool)
    requires s.controller.busy == Idle && s.events != [] && s.events[0] in {TransportFailed, BadEvent, Suspend}
    ensures var t := Next(s, ControllerTakes(operating));
            && t.images == (if operating then s.images + [Failure] else s.images)
            && !t.controller.ready && t.controller.busy == Recovering
  {
  }

  /** After recovery both queues are empty, a new generation is current and nothing is active. */
  lemma RecoveryResets(s: State)
    requires s.controller.busy == Recovering
    ensures var t := Next(s, ControllerRuns);
            && t.events == [] && t.images == [] && t.current == s.current + 1
            && !t.controller.ready && !t.controller.active && t.controller.busy == Idle
            && t.controller.suspended == s.sleeping
  {
  }

  // ----- Before the first session -----

  /** The session has not become ready and nothing waits that could make it so. */
  ghost predicate Unready(s: State) {
    !s.controller.ready && !s.controller.active && SensorReady !in s.events && s.receipts == []
  }

  lemma HandledUnready(s: State, m: Message, operating: bool)
    requires Unready(s) && m != SensorReady
    ensures Unready(Handle(s, m, operating))
  {
  }

  /** What workers do to the rest of the state: nothing but an order, if that. */
  predicate OnlyOrders(s: State, t: State) {
    && t.controller == s.controller && t.receipts == s.receipts && t.sleeping == s.sleeping
    && (t.events == s.events || Ordered(s, t, StartSensor) || Ordered(s, t, StopSensor))
  }

  lemma RunningOrders(s: State, i: nat)
    requires i < |s.workers|
    ensures OnlyOrders(s, RunWorker(s, i))
  {
  }

  lemma TakingOrders(s: State, i: nat, terminal: bool)
    requires Takes(s, i)
    ensures OnlyOrders(s, TakeDelivery(s, i, terminal))
  {
  }

  lemma CancellingOrders(s: State, i: nat, disconnected: bool)
    requires i < |s.workers|
    ensures OnlyOrders(s, CancelWorker(s, i, disconnected))
  {
  }

  lemma StaysUnready(s: State, step: Step)
    requires Unready(s) && step != DeviceSends(SensorReady)
    ensures Unready(Next(s, step))
  {
    hide Handle, RunWorker, TakeDelivery, CancelWorker;
    match step
    case WorkerRuns(i) => if i < |s.workers| { RunningOrders(s, i); }
    case WorkerTakes(i, terminal) => if Takes(s, i) { TakingOrders(s, i, terminal); }
    case Cancel(i, disconnected) => if i < |s.workers| { CancellingOrders(s, i, disconnected); }
    case ControllerTakes(operating) =>
      if s.events != [] {
        assert s.events[0] in s.events;
        HandledUnready(s.(events := s.events[1..]), s.events[0], operating);
      }
    case _ =>
  }

  lemma {:induction false} UnreadyRuns(s: State, steps: seq<Step>)
    requires Unready(s) && DeviceSends(SensorReady) !in steps
    ensures Unready(Run(s, steps))
    decreases |steps|
  {
    hide Unready, Next;
    if steps != [] {
      StaysUnready(s, steps[0]);
      UnreadyRuns(Next(s, steps[0]), steps[1..]);
    }
  }

  lemma NoReceiptNoUse(s: State)
    requires Safe(s)
    ensures |s.uses| > 0 ==> |s.receipts| > 0
  {
    if |s.uses| > 0 {
      var u := s.uses[0];
      assert u in s.uses;
    }
  }

  /** Until the device reports a session no capture is armed, whatever the workers ask for, and no
      image is taken in or used. */
  lemma NothingBeforeSession(steps: seq<Step>)
    requires DeviceSends(SensorReady) !in steps
    ensures var t := Run(Initial(), steps);
            !t.controller.ready && !t.controller.active && t.receipts == [] && t.uses == []
  {
    hide Run;
    UnreadyRuns(Initial(), steps);
    RunIsSafe(Initial(), steps);
    NoReceiptNoUse(Run(Initial(), steps));
  }

  ghost predicate Awake(s: State) {
    !s.sleeping && !s.controller.suspended && Suspend !in s.events
  }

  lemma StaysAwake(s: State, step: Step)
    requires Awake(s) && step != Sleep && step != DeviceSends(Suspend)
    ensures Awake(Next(s, step))
  {
    hide Handle, RunWorker, TakeDelivery, CancelWorker;
    match step
    case WorkerRuns(i) => if i < |s.workers| { RunningOrders(s, i); }
    case WorkerTakes(i, terminal) => if Takes(s, i) { TakingOrders(s, i, terminal); }
    case Cancel(i, disconnected) => if i < |s.workers| { CancellingOrders(s, i, disconnected); }
    case ControllerTakes(operating) =>
      if s.events != [] {
        assert s.events[0] in s.events;
        HandledAwake(s.(events := s.events[1..]), s.events[0], operating);
      }
    case _ =>
  }

  lemma HandledAwake(s: State, m: Message, operating: bool)
    requires Awake(s) && m != Suspend
    ensures Awake(Handle(s, m, operating))
  {
  }

  lemma {:induction false} AwakeRuns(s: State, steps: seq<Step>)
    requires Awake(s) && Sleep !in steps && DeviceSends(Suspend) !in steps
    ensures Awake(Run(s, steps))
    decreases |steps|
  {
    hide Awake, Next;
    if steps != [] {
      StaysAwake(s, steps[0]);
      AwakeRuns(Next(s, steps[0]), steps[1..]);
    }
  }

  /** Until the first sleep nothing is suspended. */
  lemma AwakeUntilSleep(steps: seq<Step>)
    requires Sleep !in steps && DeviceSends(Suspend) !in steps
    ensures var t := Run(Initial(), steps); !t.sleeping && !t.controller.suspended
  {
    hide Run;
    AwakeRuns(Initial(), steps);
  }

  // ----- What runs can do -----

  /** A session is ready and quiet: no capture under way, nothing on the queues. */
  predicate Quiescent(s: State) {
    && s.controller.ready && !s.controller.active && !s.controller.stale && !s.controller.awaitingTouch
    && s.controller.busy == Idle && !s.sleeping && s.events == [] && s.images == []
  }

  /** From the beginning of an operation until its worker waits. */
  function Asking(i: nat): seq<Step> {
    [Begin, WorkerRuns(i), WorkerRuns(i)]
  }

  /** From the start order until the sensor is armed. */
  function Arming(): seq<Step> {
    [ControllerTakes(true), ControllerRuns, ControllerRuns]
  }

  /** From the touch until the worker knows of it. */
  function Touching(i: nat, terminal: bool): seq<Step> {
    [DeviceSends(FingerEvent(false)), ControllerTakes(true), ControllerRuns, WorkerTakes(i, terminal)]
  }

  /** From fetching the image until the device sends it. */
  function Fetching(id: nat): seq<Step> {
    [ControllerRuns, ControllerRuns, DeviceSends(ImageEvent(id))]
  }

  /** From the image until the worker has used it. */
  function Using(i: nat, terminal: bool): seq<Step> {
    [ControllerTakes(true), ControllerRuns, WorkerTakes(i, terminal)]
  }

  lemma {:induction false} RunJoins(s: State, a: seq<Step>, b: seq<Step>)
    ensures Run(s, a + b) == Run(Run(s, a), b)
    decreases |a|
  {
    hide Next;
    if a == [] {
      assert a + b == b;
    } else {
      assert (a + b)[1..] == a[1..] + b;
      RunJoins(Next(s, a[0]), a[1..], b);
    }
  }

  lemma RunOfOne(s: State, step: Step)
    ensures Run(s, [step]) == Next(s, step)
  {
    hide Next;
    assert Run(Next(s, step), []) == Next(s, step);
  }

  /** The first step, then the rest. */
  lemma RunFirst(s: State, step: Step, rest: seq<Step>)
    ensures Run(s, [step] + rest) == Run(Next(s, step), rest)
  {
    RunJoins(s, [step], rest);
    RunOfOne(s, step);
  }

  /** Steps of a worker that is not waiting for a delivery. */
  lemma WorkerGoes(s: State, i: nat, g: nat)
    requires i < |s.workers|
    ensures s.workers[i] == Worker(g, Starting) && s.images == [] ==>
              Next(s, WorkerRuns(i)) == s.(workers := s.workers[i := Worker(g, Requesting)])
    ensures s.workers[i] == Worker(g, Requesting) ==>
              Next(s, WorkerRuns(i)) ==
              s.(workers := s.workers[i := Worker(g, Waiting)], events := s.events + [StartSensor])
  {
    hide Handle, RunController, TakeDelivery, CancelWorker;
  }

  /** Steps of a controller that is busy. */
  lemma ControllerGoes(s: State)
    ensures s.controller.busy == BeforeArm && Capturing(s) ==>
              Next(s, ControllerRuns) == s.(controller := s.controller.(busy := Transfer))
    ensures s.controller.busy == BeforeImage && Capturing(s) ==>
              Next(s, ControllerRuns) == s.(controller := s.controller.(busy := Transfer))
    ensures s.controller.busy == Transfer ==> Next(s, ControllerRuns) == s.(controller := s.controller.(busy := Idle))
    ensures s.controller.busy == PuttingFinger(s.current) ==>
              Next(s, ControllerRuns) ==
              s.(images := s.images + [FingerDown(s.current)], controller := s.controller.(busy := BeforeImage))
    ensures s.controller.busy.PuttingImage? && s.controller.busy.generation == s.current ==>
              Next(s, ControllerRuns) ==
              s.(images := s.images + [Image(s.current, s.controller.busy.id)],
                 controller := s.controller.(busy := Idle))
  {
    hide Handle, RunWorker, TakeDelivery, CancelWorker;
  }

  lemma ThreeSteps(s: State, a: Step, b: Step, c: Step)
    ensures Run(s, [a, b, c]) == Next(Next(Next(s, a), b), c)
  {
    hide Next, Run;
    assert [a, b, c] == [a] + [b, c] && [b, c] == [b] + [c];
    RunFirst(s, a, [b, c]);
    RunFirst(Next(s, a), b, [c]);
    RunOfOne(Next(Next(s, a), b), c);
  }

  lemma WorkerAsks(s: State)
    requires Quiescent(s)
    ensures Run(s, Asking(|s.workers|)) ==
            s.(current := s.current + 1, workers := s.workers + [Worker(s.current + 1, Waiting)],
               events := [StartSensor])
  {
    hide Run;
    var i, g := |s.workers|, s.current + 1;
    var s1 := s.(current := g, workers := s.workers + [Worker(g, Starting)]);
    assert Next(s, Begin) == s1 by {
      hide Handle, RunController, RunWorker, TakeDelivery, CancelWorker;
    }
    hide Next;
    var s2 := s1.(workers := s.workers + [Worker(g, Requesting)]);
    WorkerGoes(s1, i, g);
    assert s1.workers[i := Worker(g, Requesting)] == s2.workers;
    WorkerGoes(s2, i, g);
    assert s2.workers[i := Worker(g, Waiting)] == s.workers + [Worker(g, Waiting)];
    assert s2.events + [StartSensor] == [StartSensor];
    ThreeSteps(s, Begin, WorkerRuns(i), WorkerRuns(i));
  }

  lemma StartSeen(s: State)
    requires s.controller.ready && !s.sleeping && s.controller.busy == Idle && s.events == [StartSensor]
    ensures Next(s, ControllerTakes(true)) ==
            s.(events := [],
               controller := s.controller.(active := true, generation := s.current, busy := BeforeArm))
  {
    hide RunController, RunWorker, CancelWorker, TakeDelivery;
  }

  lemma SensorArms(s: State)
    requires Quiescent(s.(events := [])) && s.events == [StartSensor]
    ensures Run(s, Arming()) == s.(events := [], controller := s.controller.(active := true, generation := s.current))
  {
    hide Next, Run;
    var c := s.controller.(active := true, generation := s.current);
    var s1 := s.(events := [], controller := c.(busy := BeforeArm));
    StartSeen(s);
    ControllerGoes(s1);
    ControllerGoes(s1.(controller := c.(busy := Transfer)));
    ThreeSteps(s, ControllerTakes(true), ControllerRuns, ControllerRuns);
  }

  /** Worker i waits for its stage's image, the sensor armed for it. */
  predicate Waits(s: State, i: nat) {
    && i < |s.workers| && s.workers[i] == Worker(s.current, Waiting) && s.controller.generation == s.current
    && s.controller.active && Quiescent(s.(controller := s.controller.(active := false)))
  }

  lemma TouchSeen(s: State, i: nat, terminal: bool)
    requires Waits(s, i)
    ensures Next(s, DeviceSends(FingerEvent(false))) == s.(events := [FingerEvent(false)])
    ensures Next(s.(events := [FingerEvent(false)]), ControllerTakes(true)) ==
            s.(controller := s.controller.(busy := PuttingFinger(s.current)))
  {
    hide RunController, RunWorker, CancelWorker, TakeDelivery;
  }

  lemma TouchTaken(s: State, i: nat, terminal: bool)
    requires i < |s.workers| && s.workers[i].phase == Waiting && s.images == [FingerDown(s.current)]
    ensures Next(s, WorkerTakes(i, terminal)) == s.(images := [])
  {
    hide Handle, RunController, RunWorker, CancelWorker;
  }

  lemma TouchTold(s: State, i: nat, terminal: bool)
    requires Waits(s, i)
    ensures Run(s, Touching(i, terminal)) == s.(controller := s.controller.(busy := BeforeImage))
  {
    hide Next, Run;
    var s2 := s.(controller := s.controller.(busy := PuttingFinger(s.current)));
    var s3 := s.(images := [FingerDown(s.current)], controller := s.controller.(busy := BeforeImage));
    TouchSeen(s, i, terminal);
    ControllerGoes(s2);
    assert s2.images + [FingerDown(s.current)] == [FingerDown(s.current)];
    TouchTaken(s3, i, terminal);
    ThreeSteps(s, DeviceSends(FingerEvent(false)), ControllerTakes(true), ControllerRuns);
    var first := [DeviceSends(FingerEvent(false)), ControllerTakes(true), ControllerRuns];
    assert Touching(i, terminal) == first + [WorkerTakes(i, terminal)];
    RunJoins(s, first, [WorkerTakes(i, terminal)]);
    RunOfOne(s3, WorkerTakes(i, terminal));
  }

  lemma ImageComes(s: State, id: nat)
    requires s.events == []
    ensures Next(s, DeviceSends(ImageEvent(id))) == s.(events := [ImageEvent(id)])
  {
    hide Handle, RunController, RunWorker, CancelWorker, TakeDelivery;
  }

  lemma ImageFetched(s: State, i: nat, id: nat)
    requires Waits(s.(controller := s.controller.(busy := Idle)), i) && s.controller.busy == BeforeImage
    ensures Run(s, Fetching(id)) == s.(controller := s.controller.(busy := Idle), events := [ImageEvent(id)])
  {
    hide Next, Run;
    var s1 := s.(controller := s.controller.(busy := Transfer));
    ControllerGoes(s);
    ControllerGoes(s1);
    ImageComes(s.(controller := s.controller.(busy := Idle)), id);
    ThreeSteps(s, ControllerRuns, ControllerRuns, DeviceSends(ImageEvent(id)));
  }

  lemma ImageTaken(s: State, i: nat, id: nat, terminal: bool)
    requires i < |s.workers| && s.workers[i] == Worker(s.current, Waiting) && s.images == [Image(s.current, id)]
    ensures Next(s, WorkerTakes(i, terminal)) ==
            s.(images := [], uses := s.uses + [Use(id, s.current, s.current, s.current)],
               workers := s.workers[i := Worker(s.current, Signalling(terminal))])
  {
    hide Handle, RunController, RunWorker, CancelWorker;
  }

  lemma ImageSeen(s: State, id: nat)
    requires Capturing(s) && !s.controller.stale && s.controller.busy == Idle && s.events == [ImageEvent(id)]
    ensures Next(s, ControllerTakes(true)) ==
            s.(events := [], controller := s.controller.(active := false, busy := PuttingImage(s.current, id)),
               receipts := s.receipts + [Receipt(id, s.current, s.current)])
  {
    hide RunController, RunWorker, CancelWorker, TakeDelivery;
  }

  lemma ImageUsed(s: State, i: nat, id: nat, terminal: bool)
    requires Waits(s.(events := []), i) && s.events == [ImageEvent(id)]
    ensures Run(s, Using(i, terminal)) ==
            s.(events := [], controller := s.controller.(active := false),
               receipts := s.receipts + [Receipt(id, s.current, s.current)],
               uses := s.uses + [Use(id, s.current, s.current, s.current)],
               workers := s.workers[i := Worker(s.current, Signalling(terminal))])
  {
    hide Next, Run;
    var c := s.controller;
    var s1 := s.(events := [], controller := c.(active := false, busy := PuttingImage(s.current, id)),
                 receipts := s.receipts + [Receipt(id, s.current, s.current)]);
    var s2 := s1.(images := [Image(s.current, id)], controller := c.(active := false));
    ImageSeen(s, id);
    ControllerGoes(s1);
    assert s1.images + [Image(s.current, id)] == [Image(s.current, id)];
    ImageTaken(s2, i, id, terminal);
    ThreeSteps(s, ControllerTakes(true), ControllerRuns, WorkerTakes(i, terminal));
  }

  /** From any ready and quiet session an operation can begin, arm the sensor, be told of the touch
      and use the image, and the session is ready and quiet again. */
  lemma StageCompletes(s: State, id: nat, terminal: bool)
    requires Quiescent(s)
    ensures var i, g := |s.workers|, s.current + 1;
            var t := Run(s, Asking(i) + Arming() + Touching(i, terminal) + Fetching(id) + Using(i, terminal));
            && Quiescent(t) && t.current == g && t.uses == s.uses + [Use(id, g, g, g)]
            && t.workers == s.workers + [Worker(g, Signalling(terminal))]
  {
    var i := |s.workers|;
    var a, b, c, d, e := Asking(i), Arming(), Touching(i, terminal), Fetching(id), Using(i, terminal);
    WorkerAsks(s);
    hide Next, Run, Asking, Arming, Touching, Fetching, Using;
    var s1 := Run(s, a);
    SensorArms(s1);
    var s2 := Run(s1, b);
    TouchTold(s2, i, terminal);
    var s3 := Run(s2, c);
    ImageFetched(s3, i, id);
    var s4 := Run(s3, d);
    ImageUsed(s4, i, id, terminal);
    RunJoins(s, a, b);
    RunJoins(s, a + b, c);
    RunJoins(s, a + b + c, d);
    RunJoins(s, a + b + c + d, e);
  }

  // ----- How operations end -----

  /** A failure, an asked-for stop, or a last signal ends the operation, and its end stops the
      sensor. */
  lemma EndingStops(s: State, i: nat, terminal: bool)
    requires Takes(s, i) && s.images[0] in {Failure, StopRequest}
    ensures var t := Next(s, WorkerTakes(i, terminal));
            && i < |t.workers| && t.images == s.images[1..]
            && t.workers[i].phase == (if s.images[0] == StopRequest then Stopping else Signalling(true))
            && (t.workers[i].phase == Signalling(true) ==>
                  var u := Next(t, WorkerRuns(i)); i < |u.workers| && u.workers[i].phase == Stopping)
  {
  }

  /** A worker that goes on takes a new generation and asks for the sensor again. */
  lemma GoingOn(s: State, i: nat)
    requires i < |s.workers| && s.workers[i].phase == Signalling(false)
    ensures var t := Next(s, WorkerRuns(i));
            t.workers == s.workers[i := Worker(s.current + 1, Requesting)] && t.current == s.current + 1
  {
  }

  /** What was on the image queue before an operation is gone when it asks for the sensor. */
  lemma BeginsEmpty(s: State, i: nat)
    requires i < |s.workers| && s.workers[i].phase == Starting
    ensures Next(s, WorkerRuns(i)).images == []
  {
  }

  /** A session that becomes ready waits for a first touch; waking up ends the suspension; a failing
      transfer is a lost session. */
  lemma SessionsComeAndGo(s: State, operating: bool)
    ensures s.controller.busy == Idle && s.events != [] && s.events[0] == SensorReady ==>
              var c := Next(s, ControllerTakes(operating)).controller; c.ready && c.awaitingTouch && !c.stale
    ensures s.controller.busy == Idle && s.events != [] && s.events[0] == Resume ==>
              !Next(s, ControllerTakes(operating)).controller.suspended
    ensures s.controller.busy == Transfer ==>
              var t := Next(s, ControllerFails(operating));
              && !t.controller.ready && t.controller.busy == Recovering
              && t.images == (if operating then s.images + [Failure] else s.images)
  {
  }
}
