/** The race of `UnlockHandler::GetResult`: one worker per server, each polling its server until it has
    a result, and the main thread waiting on a condition variable. Every shared access is one step. */
module UnlockRace {
  import opened Prelude
  import opened PacketCrypt
  import opened UnlockServer

  /** The user asking, the stored devices, and for each server its device and its random unlock token. */
  datatype Config = Config(user: string, stored: seq<Device>, devices: seq<Device>, tokens: seq<string>) {
    ghost predicate Valid() {
      && 0 < |devices| == |tokens|
      && devices == DevicesForUser(stored, user)
    }
  }

  /** The connection thread of a server: it stores the response data before it publishes the state. */
  datatype Connection = Connecting | Publishing(packet: Packet) | Closed

  /** `received` keeps the one response that came in, for the statements below. */
  datatype Server = Server(connection: Connection, state: UnlockState, data: ResponseData, received: Option<Packet>)

  datatype Worker =
    | Starting
    | Testing                            // top of the poll loop: is it cancelled?
    | Polling                            // about to read the server's state
    | Idling                             // no result yet: timeout, keys, or sleep
    | Leaving(state: UnlockState)        // about to collect device and password
    | Counting(result: UnlockResult)     // about to increment `completed`
    | Storing(result: UnlockResult)      // about to store a success
    | Comparing(result: UnlockResult)    // about to compare `completed` with the number of servers
    | Rechecking(result: UnlockResult)   // last one: about to load the current result
    | Overwriting(result: UnlockResult)  // last one: about to store its own result
    | Locking                            // waiting for the mutex
    | Notifying
    | Unlocking
    | Done

  datatype Main =
    | Begin                       // about to lock
    | Examine                     // holds the mutex, about to evaluate the wait condition
    | FallAsleep                  // holds the mutex, the condition was false
    | Asleep
    | Woken                       // about to lock again
    | Load                        // holds the mutex, the condition was true
    | Join(result: UnlockResult)  // holds the mutex while joining the workers
    | Returned(result: UnlockResult)

  datatype Owner = Free | ByMain | ByWorker(i: nat)

  datatype World = World(
    servers: seq<Server>,
    workers: seq<Worker>,
    current: UnlockResult,
    completed: nat,
    mutex: Owner,
    main: Main)

  /** What the environment decides in a worker's step. */
  datatype Choice = Proceed | StartFails | Cancelled | TimesOut | KeysPressed

  datatype Action =
    | Disconnect(i: nat, state: UnlockState)  // the connection thread gives up
    | Receive(i: nat, packet: Packet)
    | Publish(i: nat)
    | Work(i: nat, choice: Choice)
    | MainStep
    | SpuriousWakeup

  function Init(cfg: Config): World {
    World(seq(|cfg.devices|, _ => Server(Connecting, UNKNOWN, NO_RESPONSE, None)), seq(|cfg.devices|, _ => Starting),
          NO_RESULT, 0, Free, Begin)
  }

  function SetWorker(s: World, i: nat, w: Worker): World
    requires i < |s.workers|
  {
    s.(workers := s.workers[i := w])
  }

  /** The polling part of a worker, `RunServer`. */
  function RunStep(cfg: Config, s: World, i: nat, choice: Choice): Option<World>
    requires i < |s.workers| && i < |s.servers| && i < |cfg.devices|
  {
    match s.workers[i]
    case Starting =>
      if choice == StartFails then Some(SetWorker(s, i, Counting(UnlockResult(START_ERROR, NO_DEVICE, ""))))
      else Some(SetWorker(s, i, Testing))
    case Testing =>
      if s.current.state == SUCCESS || choice == Cancelled then Some(SetWorker(s, i, Leaving(CANCELED)))
      else Some(SetWorker(s, i, Polling))
    case Polling =>
      var state := s.servers[i].state;
      Some(SetWorker(s, i, if state != UNKNOWN then Leaving(state) else Idling))
    case Idling =>
      if choice == TimesOut then Some(SetWorker(s, i, Leaving(TIMEOUT)))
      else if choice == KeysPressed then Some(SetWorker(s, i, Leaving(CANCELED)))
      else Some(SetWorker(s, i, Testing))
    case Leaving(state) =>
      Some(SetWorker(s, i, Counting(UnlockResult(state, cfg.devices[i], s.servers[i].data.password))))
    case _ => None
  }

  /** The part of a worker after `RunServer`. */
  function EpilogueStep(cfg: Config, s: World, i: nat): Option<World>
    requires i < |s.workers|
  {
    match s.workers[i]
    case Counting(r) =>
      Some(SetWorker(s, i, if r.state == SUCCESS then Storing(r) else Comparing(r)).(completed := s.completed + 1))
    case Storing(r) => Some(SetWorker(s, i, Comparing(r)).(current := r))
    case Comparing(r) => Some(SetWorker(s, i, if s.completed == |cfg.devices| then Rechecking(r) else Done))
    case Rechecking(r) => Some(SetWorker(s, i, if s.current.state != SUCCESS then Overwriting(r) else Locking))
    case Overwriting(r) => Some(SetWorker(s, i, Locking).(current := r))
    case Locking => if s.mutex == Free then Some(SetWorker(s, i, Notifying).(mutex := ByWorker(i))) else None
    case Notifying => Some(SetWorker(s, i, Unlocking).(main := if s.main == Asleep then Woken else s.main))
    case Unlocking => Some(SetWorker(s, i, Done).(mutex := Free))
    case _ => None
  }

  predicate AllDone(s: World) {
    forall i :: 0 <= i < |s.workers| ==> s.workers[i] == Done
  }

  function MainThreadStep(cfg: Config, s: World): Option<World> {
    match s.main
    case Begin => if s.mutex == Free then Some(s.(mutex := ByMain, main := Examine)) else None
    case Examine => Some(s.(main := if s.completed == |cfg.devices| then Load else FallAsleep))
    case FallAsleep => Some(s.(mutex := Free, main := Asleep))
    case Woken => if s.mutex == Free then Some(s.(mutex := ByMain, main := Examine)) else None
    case Load => Some(s.(main := Join(s.current)))
    case Join(r) => if AllDone(s) then Some(s.(mutex := Free, main := Returned(r))) else None
    case _ => None
  }

  predicate GivesUp(state: UnlockState) {
    state == UNK_ERROR || state == CONNECT_ERROR || state == CANCELED
  }

  /** The connection thread of server `i`. */
  function ConnectionStep(cfg: Config, s: World, a: Action): Option<World>
    requires a.Disconnect? || a.Receive? || a.Publish?
    requires a.i < |s.servers| && a.i < |cfg.tokens|
  {
    var server := s.servers[a.i];
    match a
    case Disconnect(i, state) =>
      if server.connection.Connecting? && GivesUp(state)
      then Some(s.(servers := s.servers[i := server.(connection := Closed, state := state)])) else None
    case Receive(i, p) =>
      if !server.connection.Connecting? then None
      else if StoresData(p)
      then Some(s.(servers := s.servers[i := Server(Publishing(p), server.state, p.fields, Some(p))]))
      else Some(s.(servers := s.servers[i := Server(Closed, StateAfter(cfg.tokens[i], p), server.data, Some(p))]))
    case Publish(i) =>
      if server.connection.Publishing?
      then
        var state := StateAfter(cfg.tokens[i], server.connection.packet);
        Some(s.(servers := s.servers[i := server.(connection := Closed, state := state)]))
      else None
  }

  /** One step of the system; `None` when the action is not possible. */
  function Step(cfg: Config, s: World, a: Action): Option<World> {
    match a
    case MainStep => MainThreadStep(cfg, s)
    case SpuriousWakeup => if s.main == Asleep then Some(s.(main := Woken)) else None
    case Work(i, choice) =>
      if i >= |s.workers| || i >= |s.servers| || i >= |cfg.devices| then None
      else if RunStep(cfg, s, i, choice).Some? then RunStep(cfg, s, i, choice)
      else EpilogueStep(cfg, s, i)
    case _ => if a.i < |s.servers| && a.i < |cfg.tokens| then ConnectionStep(cfg, s, a) else None
  }

  function Run(cfg: Config, s: World, actions: seq<Action>): Option<World>
    decreases |actions|
  {
    if actions == [] then Some(s)
    else
      match Step(cfg, s, actions[0])
      case None => None
      case Some(next) => Run(cfg, next, actions[1..])
  }

  // ----- The invariant of every run -----

  predicate Counted(w: Worker) {
    w.Storing? || w.Comparing? || w.Rechecking? || w.Overwriting? || w.Locking? || w.Notifying? || w.Unlocking?
    || w.Done?
  }

  function CountedWorkers(ws: seq<Worker>): nat {
    if ws == [] then 0 else CountedWorkers(ws[..|ws| - 1]) + if Counted(ws[|ws| - 1]) then 1 else 0
  }

  lemma {:induction false} CountAfterSet(ws: seq<Worker>, i: nat, w: Worker)
    requires i < |ws|
    ensures CountedWorkers(ws[i := w])
         == CountedWorkers(ws) + (if Counted(w) then 1 else 0) - (if Counted(ws[i]) then 1 else 0)
  {
    var n := |ws| - 1;
    if i < n {
      CountAfterSet(ws[..n], i, w);
      assert ws[i := w][..n] == ws[..n][i := w];
    } else {
      assert ws[i := w][..n] == ws[..n];
    }
  }

  lemma {:induction false} SomeoneUncounted(ws: seq<Worker>)
    ensures CountedWorkers(ws) <= |ws|
    ensures CountedWorkers(ws) < |ws| ==> exists i :: 0 <= i < |ws| && !Counted(ws[i])
  {
    if ws != [] {
      SomeoneUncounted(ws[..|ws| - 1]);
      if CountedWorkers(ws) < |ws| && Counted(ws[|ws| - 1]) {
        var i :| 0 <= i < |ws| - 1 && !Counted(ws[..|ws| - 1][i]);
        assert !Counted(ws[i]);
      }
    }
  }

  lemma {:induction false} AllCounted(ws: seq<Worker>, i: nat)
    requires CountedWorkers(ws) == |ws| && i < |ws|
    ensures Counted(ws[i])
  {
    SomeoneUncounted(ws[..|ws| - 1]);
    if i < |ws| - 1 {
      AllCounted(ws[..|ws| - 1], i);
    }
  }

  /** This worker will still notify, or make sure that a later one does. */
  predicate WillNotify(w: Worker) {
    !w.Unlocking? && !w.Done?
  }

  predicate MainHolds(m: Main) {
    m.Examine? || m.FallAsleep? || m.Load? || m.Join?
  }

  ghost predicate MutexOk(s: World) {
    && (s.mutex == ByMain <==> MainHolds(s.main))
    && forall i :: 0 <= i < |s.workers| ==>
         (s.mutex == ByWorker(i) <==> s.workers[i].Notifying? || s.workers[i].Unlocking?)
  }

  ghost predicate WakeupOk(s: World) {
    s.main.FallAsleep? || s.main.Asleep? ==> exists i :: 0 <= i < |s.workers| && WillNotify(s.workers[i])
  }

  ghost predicate CountOk(cfg: Config, s: World) {
    && s.completed == CountedWorkers(s.workers)
    && (s.main.Load? || s.main.Join? || s.main.Returned? ==> s.completed == |cfg.devices|)
  }

  /** Worker `i`'s own, unmixed success: the device is its server's, and the password came with the
      server's own token in the decrypted response that the server received. */
  ghost predicate Genuine(cfg: Config, servers: seq<Server>, i: nat, r: UnlockResult) {
    && i < |cfg.devices| && i < |cfg.tokens| && i < |servers|
    && r.device == cfg.devices[i]
    && servers[i].received.Some? && Proves(cfg.tokens[i], servers[i].received.value, r.password)
  }

  ghost predicate ServerOk(cfg: Config, i: nat, v: Server)
    requires i < |cfg.devices| == |cfg.tokens|
  {
    && (v.connection.Connecting? ==> v.state == UNKNOWN && v.received == None)
    && (v.connection.Publishing? ==>
          v.state == UNKNOWN && StoresData(v.connection.packet) && v.data == v.connection.packet.fields
          && v.received == Some(v.connection.packet))
    && (v.state == SUCCESS ==> v.received.Some? && Proves(cfg.tokens[i], v.received.value, v.data.password))
  }

  predicate HasResult(w: Worker) {
    w.Counting? || w.Storing? || w.Comparing? || w.Rechecking? || w.Overwriting?
  }

  ghost predicate WorkerOk(cfg: Config, servers: seq<Server>, i: nat, w: Worker)
    requires i < |servers|
  {
    && (w.Leaving? ==> w.state != UNKNOWN && (w.state == SUCCESS ==> servers[i].state == SUCCESS))
    && (HasResult(w) ==>
          w.result.state != UNKNOWN && (w.result.state == SUCCESS ==> Genuine(cfg, servers, i, w.result)))
    && (w.Storing? ==> w.result.state == SUCCESS)
  }

  ghost predicate CellOk(cfg: Config, servers: seq<Server>, r: UnlockResult) {
    r.state == SUCCESS ==> exists i: nat :: Genuine(cfg, servers, i, r)
  }

  ghost predicate Shaped(cfg: Config, s: World) {
    |cfg.devices| == |cfg.tokens| == |s.servers| == |s.workers|
  }

  /** Scheduling: the mutex, the count of finished workers, and that a sleeping main will be notified. */
  ghost predicate SyncInv(cfg: Config, s: World) {
    && Shaped(cfg, s) && MutexOk(s) && CountOk(cfg, s) && WakeupOk(s)
    && (s.main.Returned? ==> AllDone(s))
  }

  /** Data: every success in sight is genuine. */
  ghost predicate DataInv(cfg: Config, s: World) {
    && Shaped(cfg, s)
    && (forall i :: 0 <= i < |s.servers| ==> ServerOk(cfg, i, s.servers[i]))
    && (forall i :: 0 <= i < |s.workers| ==> WorkerOk(cfg, s.servers, i, s.workers[i]))
    && CellOk(cfg, s.servers, s.current)
    && (s.main.Join? || s.main.Returned? ==> CellOk(cfg, s.servers, s.main.result))
  }

  // ----- Preservation -----

  lemma CountInit(n: nat)
    ensures CountedWorkers(seq(n, _ => Starting)) == 0
  {
    if n > 0 {
      assert seq(n, _ => Starting)[..n - 1] == seq(n - 1, _ => Starting);
      CountInit(n - 1);
    }
  }

  lemma InitOk(cfg: Config)
    requires cfg.Valid()
    ensures SyncInv(cfg, Init(cfg)) && DataInv(cfg, Init(cfg))
  {
    CountInit(|cfg.devices|);
    assert Init(cfg).workers[0] == Starting;
  }

  /** Changing one worker keeps the count in step when the change is the increment or does not count. */
  lemma SetWorkerKeepsSync(cfg: Config, s: World, i: nat, w: Worker)
    requires SyncInv(cfg, s) && i < |s.workers| && !s.workers[i].Done?
    requires Counted(w) == Counted(s.workers[i]) && WillNotify(w) && WillNotify(s.workers[i])
    requires !w.Notifying? && !s.workers[i].Notifying?
    ensures SyncInv(cfg, SetWorker(s, i, w))
  {
    CountAfterSet(s.workers, i, w);
    var t := SetWorker(s, i, w);
    assert t.workers[i] == w;
    if s.main.FallAsleep? || s.main.Asleep? {
      assert WillNotify(t.workers[i]);
    }
  }

  lemma RunStepKeepsSync(cfg: Config, s: World, i: nat, choice: Choice)
    requires SyncInv(cfg, s) && i < |s.workers| && RunStep(cfg, s, i, choice).Some?
    ensures SyncInv(cfg, RunStep(cfg, s, i, choice).value)
  {
    var t := RunStep(cfg, s, i, choice).value;
    SetWorkerKeepsSync(cfg, s, i, t.workers[i]);
    assert t == SetWorker(s, i, t.workers[i]);
  }

  lemma EpilogueStepKeepsWakeup(cfg: Config, s: World, i: nat)
    requires SyncInv(cfg, s) && i < |s.workers| && EpilogueStep(cfg, s, i).Some?
    ensures WakeupOk(EpilogueStep(cfg, s, i).value)
  {
    hide CountedWorkers;
    var t := EpilogueStep(cfg, s, i).value;
    if t.main.FallAsleep? || t.main.Asleep? {
      if WillNotify(t.workers[i]) {
      } else if s.workers[i].Comparing? {
        // not the last one: somebody has not counted yet
        SomeoneUncounted(s.workers);
        var j :| 0 <= j < |s.workers| && !Counted(s.workers[j]);
        assert WillNotify(t.workers[j]);
      } else {
        var j :| 0 <= j < |s.workers| && WillNotify(s.workers[j]);
        assert WillNotify(t.workers[j]);
      }
    }
  }

  lemma EpilogueStepKeepsSync(cfg: Config, s: World, i: nat)
    requires SyncInv(cfg, s) && i < |s.workers| && EpilogueStep(cfg, s, i).Some?
    ensures SyncInv(cfg, EpilogueStep(cfg, s, i).value)
  {
    hide CountedWorkers;
    var t := EpilogueStep(cfg, s, i).value;
    CountAfterSet(s.workers, i, t.workers[i]);
    SomeoneUncounted(t.workers);
    EpilogueStepKeepsWakeup(cfg, s, i);
  }

  lemma MainStepKeepsSync(cfg: Config, s: World)
    requires SyncInv(cfg, s) && MainThreadStep(cfg, s).Some?
    ensures SyncInv(cfg, MainThreadStep(cfg, s).value)
  {
    SomeoneUncounted(s.workers);
    if s.main.Examine? && s.completed != |cfg.devices| {
      var j :| 0 <= j < |s.workers| && !Counted(s.workers[j]);
      assert WillNotify(s.workers[j]);
    }
  }

  lemma StepKeepsSync(cfg: Config, s: World, a: Action)
    requires SyncInv(cfg, s) && Step(cfg, s, a).Some?
    ensures SyncInv(cfg, Step(cfg, s, a).value)
  {
    match a
    case MainStep => MainStepKeepsSync(cfg, s);
    case Work(i, choice) =>
      if RunStep(cfg, s, i, choice).Some? {
        RunStepKeepsSync(cfg, s, i, choice);
      } else {
        EpilogueStepKeepsSync(cfg, s, i);
      }
    case SpuriousWakeup =>
    case _ =>
  }

  /** Responses that came in stay, so what was genuine stays genuine. */
  lemma GenuineStays(cfg: Config, s: World, a: Action, i: nat, r: UnlockResult)
    requires DataInv(cfg, s) && Step(cfg, s, a).Some? && Genuine(cfg, s.servers, i, r)
    ensures Genuine(cfg, Step(cfg, s, a).value.servers, i, r)
  {
  }

  lemma CellStays(cfg: Config, s: World, a: Action, r: UnlockResult)
    requires DataInv(cfg, s) && Step(cfg, s, a).Some? && CellOk(cfg, s.servers, r)
    ensures CellOk(cfg, Step(cfg, s, a).value.servers, r)
  {
    if r.state == SUCCESS {
      var i: nat :| Genuine(cfg, s.servers, i, r);
      GenuineStays(cfg, s, a, i, r);
    }
  }

  lemma WorkerStays(cfg: Config, s: World, a: Action, i: nat)
    requires DataInv(cfg, s) && Step(cfg, s, a).Some? && i < |s.workers|
    requires Step(cfg, s, a).value.workers == s.workers
    ensures WorkerOk(cfg, Step(cfg, s, a).value.servers, i, s.workers[i])
  {
    var w := s.workers[i];
    if HasResult(w) && w.result.state == SUCCESS {
      GenuineStays(cfg, s, a, i, w.result);
    }
  }

  lemma ConnectionStepKeepsData(cfg: Config, s: World, a: Action)
    requires DataInv(cfg, s) && Step(cfg, s, a).Some? && (a.Disconnect? || a.Receive? || a.Publish?)
    ensures DataInv(cfg, Step(cfg, s, a).value)
  {
    var t := Step(cfg, s, a).value;
    forall i | 0 <= i < |s.workers|
      ensures WorkerOk(cfg, t.servers, i, t.workers[i])
    {
      WorkerStays(cfg, s, a, i);
    }
    CellStays(cfg, s, a, s.current);
    if s.main.Join? || s.main.Returned? {
      CellStays(cfg, s, a, s.main.result);
    }
    assert ServerOk(cfg, a.i, t.servers[a.i]);
  }

  lemma RunStepKeepsData(cfg: Config, s: World, i: nat, choice: Choice)
    requires DataInv(cfg, s) && i < |s.workers| && RunStep(cfg, s, i, choice).Some?
    ensures DataInv(cfg, RunStep(cfg, s, i, choice).value)
  {
    var t := RunStep(cfg, s, i, choice).value;
    assert WorkerOk(cfg, s.servers, i, s.workers[i]) && ServerOk(cfg, i, s.servers[i]);
    assert WorkerOk(cfg, t.servers, i, t.workers[i]);
    assert t == SetWorker(s, i, t.workers[i]);
  }

  lemma EpilogueStepKeepsData(cfg: Config, s: World, i: nat)
    requires DataInv(cfg, s) && i < |s.workers| && EpilogueStep(cfg, s, i).Some?
    ensures DataInv(cfg, EpilogueStep(cfg, s, i).value)
  {
    var t := EpilogueStep(cfg, s, i).value;
    assert WorkerOk(cfg, s.servers, i, s.workers[i]);
    assert WorkerOk(cfg, t.servers, i, t.workers[i]);
    assert CellOk(cfg, t.servers, t.current);
    forall j | 0 <= j < |t.workers|
      ensures WorkerOk(cfg, t.servers, j, t.workers[j])
    {
      assert j != i ==> t.workers[j] == s.workers[j];
    }
  }

  lemma StepKeepsData(cfg: Config, s: World, a: Action)
    requires DataInv(cfg, s) && Step(cfg, s, a).Some?
    ensures DataInv(cfg, Step(cfg, s, a).value)
  {
    match a
    case MainStep =>
    case SpuriousWakeup =>
    case Work(i, choice) =>
      if RunStep(cfg, s, i, choice).Some? {
        RunStepKeepsData(cfg, s, i, choice);
      } else {
        EpilogueStepKeepsData(cfg, s, i);
      }
    case _ => ConnectionStepKeepsData(cfg, s, a);
  }

  lemma {:induction false} RunKeeps(cfg: Config, s: World, actions: seq<Action>)
    requires SyncInv(cfg, s) && DataInv(cfg, s) && Run(cfg, s, actions).Some?
    ensures SyncInv(cfg, Run(cfg, s, actions).value) && DataInv(cfg, Run(cfg, s, actions).value)
    decreases |actions|
  {
    if actions != [] {
      StepKeepsSync(cfg, s, actions[0]);
      StepKeepsData(cfg, s, actions[0]);
      RunKeeps(cfg, Step(cfg, s, actions[0]).value, actions[1..]);
    }
  }

  // ----- Fine-grained results -----

  /** A response that a server has received came in through one of the run's actions. */
  lemma {:induction false} ReceivedCameIn(cfg: Config, s: World, actions: seq<Action>, i: nat)
    requires Run(cfg, s, actions).Some? && i < |s.servers| && s.servers[i].received == None
    ensures var t := Run(cfg, s, actions).value;
            i < |t.servers| && (t.servers[i].received.Some? ==> Receive(i, t.servers[i].received.value) in actions)
    decreases |actions|
  {
    if actions != [] {
      var next := Step(cfg, s, actions[0]).value;
      if next.servers[i].received.Some? {
        ReceivedStays(cfg, next, actions[1..], i);
        assert actions[0] == Receive(i, next.servers[i].received.value);
      } else {
        ReceivedCameIn(cfg, next, actions[1..], i);
      }
    }
  }

  lemma {:induction false} ReceivedStays(cfg: Config, s: World, actions: seq<Action>, i: nat)
    requires Run(cfg, s, actions).Some? && i < |s.servers|
    requires s.servers[i].received.Some? && !s.servers[i].connection.Connecting?
    ensures var t := Run(cfg, s, actions).value; i < |t.servers| && t.servers[i].received == s.servers[i].received
    decreases |actions|
  {
    if actions != [] {
      ReceivedStays(cfg, Step(cfg, s, actions[0]).value, actions[1..], i);
    }
  }

  /** Authenticity, in every interleaving: a SUCCESS that `GetResult` returns is one worker's own result.
      Its server received a response that decrypted under the device's key and carried that server's own
      token, the password is from that same response, and the device belongs to the requested user. */
  lemma SuccessIsAuthentic(cfg: Config, actions: seq<Action>)
    requires cfg.Valid() && Run(cfg, Init(cfg), actions).Some?
    requires var s := Run(cfg, Init(cfg), actions).value; s.main.Returned? && s.main.result.state == SUCCESS
    ensures var r := Run(cfg, Init(cfg), actions).value.main.result;
            exists i, p :: 0 <= i < |cfg.devices| && Receive(i, p) in actions
                           && p.crypt == OK && p.Fields? && p.fields == ResponseData(cfg.tokens[i], r.password)
                           && r.device == cfg.devices[i] && r.device in cfg.stored && r.device.userName == cfg.user
  {
    InitOk(cfg);
    RunKeeps(cfg, Init(cfg), actions);
    var s := Run(cfg, Init(cfg), actions).value;
    var i: nat :| Genuine(cfg, s.servers, i, s.main.result);
    ReceivedCameIn(cfg, Init(cfg), actions, i);
    DevicesAreUsers(cfg.stored, cfg.user);
    assert Receive(i, s.servers[i].received.value) in actions;
  }

  /** No lost wake-up: main never sleeps while every worker has finished. */
  lemma NoLostWakeup(cfg: Config, actions: seq<Action>)
    requires cfg.Valid() && Run(cfg, Init(cfg), actions).Some?
    ensures var s := Run(cfg, Init(cfg), actions).value; !(s.main.Asleep? && AllDone(s))
  {
    InitOk(cfg);
    RunKeeps(cfg, Init(cfg), actions);
  }
}
