/** The capture-generation protocol between the enroll/verify workers and the device controller
    (`WorkerEnrollVerify`, `WorkerControl`), as a state machine over its asynchronous steps. Queues
    are first in, first out; every await is a point where any other step may come in between. */
module CaptureProtocol {
  /** Messages on the controller's event queue. */
  datatype Message =
    | SensorReady | StartSensor | StopSensor | TransportFailed | Suspend | Resume
    | FingerEvent(early: bool) | ImageEvent(id: nat) | BadEvent

  /** Messages on the workers' image queue. */
  datatype Delivery = FingerDown(generation: nat) | Image(generation: nat, id: nat) | StopRequest | Failure

  datatype Phase = Starting | Requesting | Waiting | Signalling(terminal: bool) | Stopping | Gone

  /** One enroll or verify operation with the generation of its present stage. */
  datatype Worker = Worker(generation: nat, phase: Phase)

  /** What the controller is in the middle of; it takes messages only when idle. */
  datatype Busy =
    | Idle | PuttingFinger(finger: nat) | BeforeImage | BeforeArm
    | PuttingImage(generation: nat, id: nat) | Transfer | Recovering

  datatype Controller = Controller(
    ready: bool, active: bool, generation: nat, awaitingTouch: bool, stale: bool, suspended: bool, busy: Busy)

  /** An image the controller took in: its tag, and the generation current at that moment. */
  datatype Receipt = Receipt(id: nat, generation: nat, current: nat)

  /** An image a worker used, the generation of the stage it was used for, and the one current
      by then. */
  datatype Use = Use(id: nat, generation: nat, stage: nat, now: nat)

  datatype State = State(
    current: nat, sleeping: bool, events: seq<Message>, images: seq<Delivery>,
    controller: Controller, workers: seq<Worker>, receipts: seq<Receipt>, uses: seq<Use>)

  function Initial(): State {
    State(0, false, [], [], Controller(false, false, 0, false, false, false, Idle), [], [], [])
  }

  datatype Step =
    | Begin
    | WorkerRuns(worker: nat)
    | WorkerTakes(worker: nat, terminal: bool)
    | Cancel(worker: nat, disconnected: bool)
    | AskStop
    | Sleep
    | Wake
    | DeviceSends(message: Message)
    | ControllerTakes(operating: bool)
    | ControllerRuns
    | ControllerFails(operating: bool)

  // ----- Workers -----

  function Bump(s: State): State {
    s.(current := s.current + 1)
  }

  function SetWorker(s: State, i: nat, w: Worker): State
    requires i < |s.workers|
  {
    s.(workers := s.workers[i := w])
  }

  /** A worker goes on after an await: clears the image queue and asks for the sensor, or follows
      a status signal with the next capture or the stop. */
  function RunWorker(s: State, i: nat): State
    requires i < |s.workers|
  {
    var w := s.workers[i];
    match w.phase
    case Starting => SetWorker(s.(images := []), i, w.(phase := Requesting))
    case Requesting => SetWorker(s.(events := s.events + [StartSensor]), i, w.(phase := Waiting))
    case Signalling(terminal) =>
      if terminal then SetWorker(Bump(s), i, w.(phase := Stopping))
      else SetWorker(Bump(s), i, Worker(s.current + 1, Requesting))
    case Stopping => SetWorker(s.(events := s.events + [StopSensor]), i, w.(phase := Gone))
    case _ => s
  }

  /** A waiting worker takes the next delivery. Images of other generations are dropped; what an
      image leads to is left open in `terminal`. */
  function TakeDelivery(s: State, i: nat, terminal: bool): State
    requires i < |s.workers| && s.workers[i].phase == Waiting && s.images != []
  {
    var w, rest := s.workers[i], s.(images := s.images[1..]);
    match s.images[0]
    case FingerDown(_) => rest
    case Image(generation, id) =>
      if generation != w.generation then rest
      else SetWorker(rest.(uses := s.uses + [Use(id, generation, w.generation, s.current)]), i,
                     w.(phase := Signalling(terminal)))
    case StopRequest => SetWorker(Bump(rest), i, w.(phase := Stopping))
    case Failure => SetWorker(rest, i, w.(phase := Signalling(true)))
  }

  /** A cancelled worker gives its generation up if it is still current. A vanished client also
      clears the image queue and stops the sensor. */
  function CancelWorker(s: State, i: nat, disconnected: bool): State
    requires i < |s.workers|
  {
    var w := s.workers[i];
    var after := if w.phase == Gone then s
                 else SetWorker(if w.generation == s.current then Bump(s) else s, i, w.(phase := Gone));
    if disconnected then after.(images := [], events := after.events + [StopSensor]) else after
  }

  // ----- The controller -----

  function SetController(s: State, c: Controller): State {
    s.(controller := c)
  }

  predicate Capturing(s: State) {
    s.controller.active && s.controller.generation == s.current
  }

  function Armed(s: State): Controller {
    s.controller.(active := true, generation := s.current, busy := BeforeArm)
  }

  /** The session is lost: an operation under way is told, then everything is torn down. */
  function Fail(s: State, c: Controller, operating: bool): State {
    s.(controller := c.(ready := false, busy := Recovering),
       images := if operating then s.images + [Failure] else s.images)
  }

  function Handle(s: State, m: Message, operating: bool): State {
    var c := s.controller;
    match m
    case SensorReady => SetController(s, c.(ready := true, awaitingTouch := true, stale := false, busy := Transfer))
    case StartSensor => if !c.ready || s.sleeping then s else SetController(s, Armed(s))
    case StopSensor => SetController(s, c.(active := false, busy := if c.ready then Transfer else Idle))
    case TransportFailed => Fail(s, c, operating)
    case Suspend => Fail(s, c.(suspended := true, active := false), operating)
    case Resume => if c.suspended then SetController(s, c.(suspended := false)) else s
    case FingerEvent(early) =>
      if !c.ready || !Capturing(s) then s
      else
        var stale := c.awaitingTouch && early;
        SetController(s, c.(stale := stale, awaitingTouch := false,
                            busy := if stale then BeforeImage else PuttingFinger(c.generation)))
    case ImageEvent(id) =>
      if !Capturing(s) then s
      else if c.stale then SetController(s, Armed(s).(stale := false))
      else
        SetController(s, c.(active := false, busy := PuttingImage(c.generation, id)))
          .(receipts := s.receipts + [Receipt(id, c.generation, s.current)])
    case BadEvent => Fail(s, c, operating)
  }

  /** The controller goes on after a sleep, a put, a transfer or a recovery. */
  function RunController(s: State): State {
    var c := s.controller;
    match c.busy
    case Idle => s
    case PuttingFinger(finger) => SetController(s.(images := s.images + [FingerDown(finger)]), c.(busy := BeforeImage))
    case BeforeImage => SetController(s, c.(busy := if Capturing(s) then Transfer else Idle))
    case BeforeArm => SetController(s, c.(busy := if Capturing(s) then Transfer else Idle))
    case PuttingImage(generation, id) =>
      SetController(s.(images := s.images + [Image(generation, id)]), c.(busy := Idle))
    case Transfer => SetController(s, c.(busy := Idle))
    case Recovering =>
      SetController(Bump(s).(events := [], images := []),
                    c.(ready := false, active := false, suspended := s.sleeping, busy := Idle))
  }

  /** One step; a step that is not enabled changes nothing. */
  function Next(s: State, step: Step): State {
    match step
    case Begin => Bump(s).(workers := s.workers + [Worker(s.current + 1, Starting)])
    case WorkerRuns(i) => if i < |s.workers| then RunWorker(s, i) else s
    case WorkerTakes(i, terminal) =>
      if i < |s.workers| && s.workers[i].phase == Waiting && s.images != [] then TakeDelivery(s, i, terminal) else s
    case Cancel(i, disconnected) => if i < |s.workers| then CancelWorker(s, i, disconnected) else s
    case AskStop => s.(images := s.images + [StopRequest])
    case Sleep => Bump(s).(sleeping := true, events := s.events + [Suspend])
    case Wake => s.(sleeping := false, events := s.events + [Resume])
    case DeviceSends(m) => s.(events := s.events + [m])
    case ControllerTakes(operating) =>
      if s.controller.busy == Idle && s.events != [] then Handle(s.(events := s.events[1..]), s.events[0], operating)
      else s
    case ControllerRuns => RunController(s)
    case ControllerFails(operating) => if s.controller.busy.Transfer? then Fail(s, s.controller, operating) else s
  }

  function Run(s: State, steps: seq<Step>): State
    decreases |steps|
  {
    if steps == [] then s else Run(Next(s, steps[0]), steps[1..])
  }

  // ----- Safety -----

  ghost predicate Received(s: State, id: nat, generation: nat) {
    Receipt(id, generation, generation) in s.receipts
  }

  /** Images on their way, and images used, were all taken in while their generation was current. */
  ghost predicate ImagesReceived(s: State) {
    && (forall d <- s.images :: d.Image? ==> Received(s, d.id, d.generation))
    && (s.controller.busy.PuttingImage? ==> Received(s, s.controller.busy.id, s.controller.busy.generation))
    && (forall u <- s.uses :: u.stage == u.generation <= u.now && Received(s, u.id, u.generation))
  }

  /** A stage that used its image is over: its worker has left the waiting phases. */
  predicate Spent(p: Phase) {
    p.Signalling? || p.Stopping? || p.Gone?
  }

  ghost predicate StagesOnce(s: State) {
    && (forall i | 0 <= i < |s.workers| :: s.workers[i].generation <= s.current)
    && (forall i, j | 0 <= i < j < |s.workers| :: s.workers[i].generation != s.workers[j].generation)
    && (forall i | 0 <= i < |s.uses| :: s.uses[i].stage <= s.current)
    && (forall i, j | 0 <= i < j < |s.uses| :: s.uses[i].stage != s.uses[j].stage)
    && (forall i, j | 0 <= i < |s.uses| && 0 <= j < |s.workers| && s.workers[j].generation == s.uses[i].stage ::
        Spent(s.workers[j].phase))
  }

  ghost predicate Safe(s: State) {
    ImagesReceived(s) && StagesOnce(s)
  }

  /** Nothing was used, and no worker's stage reopened. */
  lemma StagesKept(s: State, t: State)
    requires StagesOnce(s) && t.workers == s.workers && t.uses == s.uses && t.current >= s.current
    ensures StagesOnce(t)
  {
  }

  /** One worker moved on within its stage, or to a new generation nobody had before. */
  lemma StageMoved(s: State, t: State, i: nat, w: Worker)
    requires StagesOnce(s) && i < |s.workers| && t.workers == s.workers[i := w] && t.uses == s.uses &&
             t.current >= s.current
    requires if w.generation == s.workers[i].generation then Spent(s.workers[i].phase) ==> Spent(w.phase)
             else w.generation == t.current > s.current
    ensures StagesOnce(t)
  {
  }

  /** A waiting worker used an image of its stage and left that stage's waiting phases. */
  lemma StageUsed(s: State, t: State, i: nat, w: Worker, u: Use)
    requires StagesOnce(s) && i < |s.workers| && s.workers[i].phase == Waiting && u.stage == s.workers[i].generation
    requires t.workers == s.workers[i := w] && w.generation == u.stage && Spent(w.phase)
    requires t.uses == s.uses + [u] && t.current == s.current
    ensures StagesOnce(t)
  {
  }

  /** No new image is on its way and nothing was used. */
  lemma ImagesKept(s: State, t: State)
    requires ImagesReceived(s) && t.receipts == s.receipts && t.uses == s.uses
    requires forall d <- t.images :: d.Image? ==> d in s.images
    requires t.controller.busy == s.controller.busy || !t.controller.busy.PuttingImage?
    ensures ImagesReceived(t)
  {
  }

  lemma WorkerIsBounded(s: State, i: nat)
    requires StagesOnce(s) && i < |s.workers|
    ensures s.workers[i].generation <= s.current
  {
  }

  lemma WorkerStepIsSafe(s: State, i: nat)
    requires Safe(s) && i < |s.workers|
    ensures Safe(RunWorker(s, i))
  {
    hide ImagesReceived, StagesOnce;
    ImagesKept(s, RunWorker(s, i));
    WorkerIsBounded(s, i);
    StageMoved(s, RunWorker(s, i), i, RunWorker(s, i).workers[i]);
  }

  lemma DeliveryIsSafe(s: State, i: nat, terminal: bool)
    requires Safe(s) && i < |s.workers| && s.workers[i].phase == Waiting && s.images != []
    ensures Safe(TakeDelivery(s, i, terminal))
  {
    hide ImagesReceived, StagesOnce;
    var t, w := TakeDelivery(s, i, terminal), s.workers[i];
    if s.images[0].Image? && s.images[0].generation == w.generation {
      StageUsed(s, t, i, w.(phase := Signalling(terminal)), Use(s.images[0].id, w.generation, w.generation, s.current));
      ImageUsed(s, t, i);
    } else {
      ImagesKept(s, t);
      StageMoved(s, t, i, t.workers[i]);
    }
  }

  lemma ImageUsed(s: State, t: State, i: nat)
    requires Safe(s) && i < |s.workers| && s.images != [] && s.images[0].Image? &&
             s.images[0].generation == s.workers[i].generation
    requires t.receipts == s.receipts && t.images == s.images[1..] && t.controller == s.controller
    requires t.uses == s.uses + [Use(s.images[0].id, s.workers[i].generation, s.workers[i].generation, s.current)]
    ensures ImagesReceived(t)
  {
    assert s.images[0] in s.images && forall d <- t.images :: d in s.images;
  }

  lemma CancelIsSafe(s: State, i: nat, disconnected: bool)
    requires Safe(s) && i < |s.workers|
    ensures Safe(CancelWorker(s, i, disconnected))
  {
    hide ImagesReceived, StagesOnce;
    var t := CancelWorker(s, i, disconnected);
    ImagesKept(s, t);
    StageMoved(s, t, i, t.workers[i]);
  }

  lemma HandlingIsSafe(s: State, m: Message, operating: bool)
    requires Safe(s) && s.controller.busy == Idle
    ensures Safe(Handle(s, m, operating))
  {
    hide ImagesReceived, StagesOnce;
    var t := Handle(s, m, operating);
    StagesKept(s, t);
    if m.ImageEvent? && Capturing(s) && !s.controller.stale {
      ImageTaken(s, t, m.id);
    } else {
      ImagesKept(s, t);
    }
  }

  lemma ImageTaken(s: State, t: State, id: nat)
    requires ImagesReceived(s) && t.images == s.images && t.uses == s.uses
    requires t.receipts == s.receipts + [Receipt(id, s.current, s.current)]
    requires t.controller.busy == PuttingImage(s.current, id)
    ensures ImagesReceived(t)
  {
  }

  lemma ControllerStepIsSafe(s: State)
    requires Safe(s)
    ensures Safe(RunController(s))
  {
    hide ImagesReceived, StagesOnce;
    var t := RunController(s);
    StagesKept(s, t);
    if s.controller.busy.PuttingImage? {
      ImagePut(s, t);
    } else {
      ImagesKept(s, t);
    }
  }

  lemma ImagePut(s: State, t: State)
    requires ImagesReceived(s) && s.controller.busy.PuttingImage? && t.controller.busy == Idle
    requires t.receipts == s.receipts && t.uses == s.uses
    requires t.images == s.images + [Image(s.controller.busy.generation, s.controller.busy.id)]
    ensures ImagesReceived(t)
  {
  }

  lemma StepIsSafe(s: State, step: Step)
    requires Safe(s)
    ensures Safe(Next(s, step))
  {
    hide RunWorker, TakeDelivery, CancelWorker, Handle, RunController, Capturing, ImagesReceived, StagesOnce;
    match step
    case Begin =>
      ImagesKept(s, Next(s, step));
      StageBegun(s, Next(s, step));
    case WorkerRuns(i) => if i < |s.workers| { WorkerStepIsSafe(s, i); }
    case WorkerTakes(i, terminal) =>
      if i < |s.workers| && s.workers[i].phase == Waiting && s.images != [] { DeliveryIsSafe(s, i, terminal); }
    case Cancel(i, disconnected) => if i < |s.workers| { CancelIsSafe(s, i, disconnected); }
    case ControllerTakes(operating) =>
      if s.controller.busy == Idle && s.events != [] {
        var rest := s.(events := s.events[1..]);
        ImagesKept(s, rest);
        StagesKept(s, rest);
        HandlingIsSafe(rest, s.events[0], operating);
      }
    case ControllerRuns => ControllerStepIsSafe(s);
    case _ =>
      ImagesKept(s, Next(s, step));
      StagesKept(s, Next(s, step));
  }

  lemma StageBegun(s: State, t: State)
    requires StagesOnce(s) && t.current == s.current + 1 && t.uses == s.uses
    requires t.workers == s.workers + [Worker(s.current + 1, Starting)]
    ensures StagesOnce(t)
  {
  }

  lemma {:induction false} RunIsSafe(s: State, steps: seq<Step>)
    requires Safe(s)
    ensures Safe(Run(s, steps))
    decreases |steps|
  {
    hide Next, Safe;
    if steps != [] {
      StepIsSafe(s, steps[0]);
      RunIsSafe(Next(s, steps[0]), steps[1..]);
    }
  }

  /** In every interleaving: an image is used only for a stage whose generation was current when
      the controller took the image in, and no two uses have the same generation. */
  lemma GenerationsProtectCaptures(steps: seq<Step>)
    ensures var s := Run(Initial(), steps);
            && (forall u <- s.uses :: u.stage == u.generation <= u.now && Receipt(u.id, u.stage, u.stage) in s.receipts)
            && (forall i, j | 0 <= i < j < |s.uses| :: s.uses[i].stage != s.uses[j].stage)
  {
    hide Next;
    assert Safe(Initial());
    RunIsSafe(Initial(), steps);
  }
}
