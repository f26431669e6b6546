/** Where a result of `GetResult` comes from: each worker's final state has its cause in what happened, the
    cause decides the state, and the result that is returned is one of them. */
module UnlockCauses {
  import opened Prelude
  import opened UnlockServer
  import opened UnlockRace
  import opened UnlockOutcome

  predicate IsPolling(w: Worker) {
    w.Starting? || w.Testing? || w.Polling? || w.Idling?
  }

  /** What makes worker `i` stop polling when it takes a step in this world, and as what; `None` if it goes on. */
  function CauseAt(s: World, i: nat, choice: Choice): Option<UnlockState>
    requires i < |s.workers| && i < |s.servers|
  {
    match s.workers[i]
    case Starting => if choice == StartFails then Some(START_ERROR) else None
    case Testing => if choice == Cancelled || s.current.state == SUCCESS then Some(CANCELED) else None
    case Polling => if s.servers[i].state == UNKNOWN then None else Some(s.servers[i].state)
    case Idling =>
      (match choice
       case TimesOut => Some(TIMEOUT)
       case KeysPressed => Some(CANCELED)
       case _ => None)
    case _ => None
  }

  /** The state with which a worker has stopped polling, as long as it knows it. */
  function StateOf(w: Worker): Option<UnlockState> {
    if w.Leaving? then Some(w.state) else if HasResult(w) then Some(w.result.state) else None
  }

  /** After `before`, the action `a` makes worker `i` stop polling. */
  ghost predicate StopsAt(cfg: Config, before: seq<Action>, a: Action, i: nat, state: UnlockState) {
    match Run(cfg, Init(cfg), before)
    case None => false
    case Some(s) =>
      a.Work? && a.i == i && i < |s.workers| && i < |s.servers| && CauseAt(s, i, a.choice) == Some(state)
  }

  /** In this run, worker `i` has stopped polling as `state`. */
  ghost predicate Stopped(cfg: Config, actions: seq<Action>, i: nat, state: UnlockState) {
    exists k :: 0 <= k < |actions| && StopsAt(cfg, actions[..k], actions[k], i, state)
  }

  /** A step of a polling worker: it goes on polling, or has stopped as the cause says. */
  lemma StepByCause(cfg: Config, s: World, i: nat, choice: Choice)
    requires Shaped(cfg, s) && i < |s.workers| && IsPolling(s.workers[i])
    ensures var t := Step(cfg, s, Work(i, choice));
            && t.Some? && |t.value.workers| == |s.workers|
            && (CauseAt(s, i, choice).Some? <==> !IsPolling(t.value.workers[i]))
            && StateOf(t.value.workers[i]) == CauseAt(s, i, choice)
  {
  }

  lemma StoppedStays(cfg: Config, actions: seq<Action>, a: Action, i: nat, state: UnlockState)
    requires Stopped(cfg, actions, i, state)
    ensures Stopped(cfg, actions + [a], i, state)
  {
    hide StopsAt;
    var all := actions + [a];
    var k :| 0 <= k < |actions| && StopsAt(cfg, actions[..k], actions[k], i, state);
    assert all[..k] == actions[..k] && all[k] == actions[k];
  }

  lemma StopsNow(cfg: Config, actions: seq<Action>, a: Action, i: nat, state: UnlockState)
    requires StopsAt(cfg, actions, a, i, state)
    ensures Stopped(cfg, actions + [a], i, state)
  {
    hide StopsAt;
    assert (actions + [a])[..|actions|] == actions;
  }

  /** The last step of a run. */
  lemma LastStep(cfg: Config, actions: seq<Action>)
    requires actions != [] && Run(cfg, Init(cfg), actions).Some?
    ensures var before, a := actions[..|actions| - 1], actions[|actions| - 1];
            && actions == before + [a] && Run(cfg, Init(cfg), before).Some?
            && Run(cfg, Init(cfg), actions) == Step(cfg, Run(cfg, Init(cfg), before).value, a)
  {
    var before, a := actions[..|actions| - 1], actions[|actions| - 1];
    assert actions == before + [a];
    PrefixRuns(cfg, Init(cfg), before, a);
  }

  lemma {:induction false} PrefixRuns(cfg: Config, s: World, before: seq<Action>, a: Action)
    requires Run(cfg, s, before + [a]).Some?
    ensures Run(cfg, s, before).Some? && Run(cfg, s, before + [a]) == Step(cfg, Run(cfg, s, before).value, a)
    decreases |before|
  {
    var all := before + [a];
    if before == [] {
      assert all == [a] && all[1..] == [];
      var t := Step(cfg, s, a).value;
      assert Run(cfg, t, []) == Some(t);
    } else {
      assert all[1..] == before[1..] + [a];
      PrefixRuns(cfg, Step(cfg, s, before[0]).value, before[1..], a);
    }
  }

  // ----- What the servers' states come from -----

  /** A disconnection or a response of server `i` has brought this state. */
  ghost predicate Brought(cfg: Config, actions: seq<Action>, i: nat, state: UnlockState) {
    i < |cfg.tokens|
    && (Disconnect(i, state) in actions
        || exists p :: Receive(i, p) in actions && state == StateAfter(cfg.tokens[i], p))
  }

  lemma BroughtStays(cfg: Config, actions: seq<Action>, a: Action, i: nat, state: UnlockState)
    requires Brought(cfg, actions, i, state)
    ensures Brought(cfg, actions + [a], i, state)
  {
    if Disconnect(i, state) !in actions {
      var p :| Receive(i, p) in actions && state == StateAfter(cfg.tokens[i], p);
      assert Receive(i, p) in actions + [a];
    }
  }

  ghost predicate ServerExplained(cfg: Config, actions: seq<Action>, i: nat, v: Server) {
    && (v.state != UNKNOWN ==> Brought(cfg, actions, i, v.state))
    && (v.connection.Publishing? ==> Receive(i, v.connection.packet) in actions)
    && v.state != START_ERROR && v.state != TIMEOUT
  }

  lemma ConnectionExplained(cfg: Config, s: World, actions: seq<Action>, a: Action)
    requires Shaped(cfg, s) && (a.Disconnect? || a.Receive? || a.Publish?) && Step(cfg, s, a).Some?
    requires ServerExplained(cfg, actions, a.i, s.servers[a.i])
    ensures ServerExplained(cfg, actions + [a], a.i, Step(cfg, s, a).value.servers[a.i])
  {
    var v, t := s.servers[a.i], Step(cfg, s, a).value.servers[a.i];
    assert a in actions + [a];
    if v.state != UNKNOWN {
      BroughtStays(cfg, actions, a, a.i, v.state);
    }
    match a
    case Disconnect(i, state) => assert t.state == state;
    case Receive(i, p) => assert t.state == v.state || t.state == StateAfter(cfg.tokens[i], p);
    case Publish(i) => assert Receive(i, v.connection.packet) in actions + [a];
  }

  lemma {:induction false} ServersExplained(cfg: Config, actions: seq<Action>, i: nat)
    requires cfg.Valid() && Run(cfg, Init(cfg), actions).Some? && i < |cfg.devices|
    ensures var s := Run(cfg, Init(cfg), actions).value;
            Shaped(cfg, s) && ServerExplained(cfg, actions, i, s.servers[i])
    decreases |actions|
  {
    InitOk(cfg);
    RunKeeps(cfg, Init(cfg), actions);
    if actions != [] {
      LastStep(cfg, actions);
      var before, a := actions[..|actions| - 1], actions[|actions| - 1];
      ServersExplained(cfg, before, i);
      hide Run;
      var s := Run(cfg, Init(cfg), before).value;
      ServerStep(cfg, s, before, a, i);
    }
  }

  lemma ServerStep(cfg: Config, s: World, before: seq<Action>, a: Action, i: nat)
    requires Shaped(cfg, s) && Step(cfg, s, a).Some? && i < |s.servers| && ServerExplained(cfg, before, i, s.servers[i])
    ensures i < |Step(cfg, s, a).value.servers|
    ensures ServerExplained(cfg, before + [a], i, Step(cfg, s, a).value.servers[i])
  {
    if (a.Disconnect? || a.Receive? || a.Publish?) && a.i == i {
      ConnectionExplained(cfg, s, before, a);
    } else {
      assert Step(cfg, s, a).value.servers[i] == s.servers[i];
      if s.servers[i].state != UNKNOWN {
        BroughtStays(cfg, before, a, i, s.servers[i].state);
      }
    }
  }

  // ----- Every result has its cause -----

  ghost predicate Explained(cfg: Config, actions: seq<Action>, r: UnlockResult) {
    r.state != UNKNOWN ==> exists i: nat :: Stopped(cfg, actions, i, r.state)
  }

  ghost predicate CauseInv(cfg: Config, actions: seq<Action>, s: World) {
    && (forall i :: 0 <= i < |s.workers| ==>
          IsPolling(s.workers[i]) || StateOf(s.workers[i]) == None
          || Stopped(cfg, actions, i, StateOf(s.workers[i]).value))
    && Explained(cfg, actions, s.current)
    && (s.main.Join? || s.main.Returned? ==> Explained(cfg, actions, s.main.result))
  }

  lemma ExplainedStays(cfg: Config, actions: seq<Action>, a: Action, r: UnlockResult)
    requires Explained(cfg, actions, r)
    ensures Explained(cfg, actions + [a], r)
  {
    hide Stopped;
    if r.state != UNKNOWN {
      var i: nat :| Stopped(cfg, actions, i, r.state);
      StoppedStays(cfg, actions, a, i, r.state);
    }
  }

  /** A worker that is not polling keeps its state. */
  lemma StateStays(cfg: Config, s: World, i: nat, choice: Choice)
    requires Shaped(cfg, s) && i < |s.workers| && !IsPolling(s.workers[i]) && Step(cfg, s, Work(i, choice)).Some?
    ensures var t := Step(cfg, s, Work(i, choice)).value;
            && |t.workers| == |s.workers| && !IsPolling(t.workers[i])
            && (StateOf(t.workers[i]) == None || StateOf(t.workers[i]) == StateOf(s.workers[i]))
            && (t.current == s.current
                || (HasResult(s.workers[i]) && t.current == s.workers[i].result))
  {
  }

  /** What one step does to the workers, the cell and main's result. */
  lemma OthersStay(cfg: Config, s: World, a: Action)
    requires Shaped(cfg, s) && Step(cfg, s, a).Some?
    ensures var t := Step(cfg, s, a).value;
            && |t.workers| == |s.workers|
            && (forall i :: 0 <= i < |s.workers| && !(a.Work? && a.i == i) ==> t.workers[i] == s.workers[i])
            && (!a.Work? ==> t.current == s.current)
            && (t.main.Join? || t.main.Returned? ==>
                  t.main.result == s.current || ((s.main.Join? || s.main.Returned?) && t.main.result == s.main.result))
  {
  }

  lemma PollingKeepsCell(cfg: Config, s: World, i: nat, choice: Choice)
    requires Shaped(cfg, s) && i < |s.workers| && IsPolling(s.workers[i]) && Step(cfg, s, Work(i, choice)).Some?
    ensures Step(cfg, s, Work(i, choice)).value.current == s.current
  {
  }

  lemma WorkExplained(cfg: Config, before: seq<Action>, s: World, i: nat, choice: Choice)
    requires Run(cfg, Init(cfg), before) == Some(s) && Shaped(cfg, s) && CauseInv(cfg, before, s)
    requires Step(cfg, s, Work(i, choice)).Some?
    ensures var t, all := Step(cfg, s, Work(i, choice)).value, before + [Work(i, choice)];
            && i < |t.workers|
            && (IsPolling(t.workers[i]) || StateOf(t.workers[i]) == None
                || Stopped(cfg, all, i, StateOf(t.workers[i]).value))
            && Explained(cfg, all, t.current)
  {
    hide Run, Stopped;
    var a := Work(i, choice);
    assert i < |s.workers|;
    var t := Step(cfg, s, a).value;
    if IsPolling(s.workers[i]) {
      StepByCause(cfg, s, i, choice);
      PollingKeepsCell(cfg, s, i, choice);
      ExplainedStays(cfg, before, a, s.current);
      if CauseAt(s, i, choice).Some? {
        StopsNow(cfg, before, a, i, CauseAt(s, i, choice).value);
      }
    } else {
      StateStays(cfg, s, i, choice);
      hide Step;
      ExplainedStays(cfg, before, a, s.current);
      if StateOf(s.workers[i]).Some? {
        StoppedStays(cfg, before, a, i, StateOf(s.workers[i]).value);
      }
    }
  }

  lemma StepExplained(cfg: Config, before: seq<Action>, s: World, a: Action)
    requires Run(cfg, Init(cfg), before) == Some(s) && Shaped(cfg, s) && CauseInv(cfg, before, s)
    requires Step(cfg, s, a).Some?
    ensures CauseInv(cfg, before + [a], Step(cfg, s, a).value)
  {
    hide Run, Stopped, Explained;
    OthersStay(cfg, s, a);
    ExplainedStays(cfg, before, a, s.current);
    if s.main.Join? || s.main.Returned? {
      ExplainedStays(cfg, before, a, s.main.result);
    }
    if a.Work? {
      WorkExplained(cfg, before, s, a.i, a.choice);
    }
    hide Step;
    var t := Step(cfg, s, a).value;
    forall i | 0 <= i < |t.workers| && !IsPolling(t.workers[i]) && StateOf(t.workers[i]).Some?
      ensures Stopped(cfg, before + [a], i, StateOf(t.workers[i]).value)
    {
      if !(a.Work? && a.i == i) {
        StoppedStays(cfg, before, a, i, StateOf(s.workers[i]).value);
      }
    }
  }

  lemma {:induction false} RunExplained(cfg: Config, actions: seq<Action>)
    requires cfg.Valid() && Run(cfg, Init(cfg), actions).Some?
    ensures var s := Run(cfg, Init(cfg), actions).value; Shaped(cfg, s) && CauseInv(cfg, actions, s)
    decreases |actions|
  {
    InitOk(cfg);
    RunKeeps(cfg, Init(cfg), actions);
    if actions != [] {
      LastStep(cfg, actions);
      var before, a := actions[..|actions| - 1], actions[|actions| - 1];
      RunExplained(cfg, before);
      hide Run, CauseInv;
      StepExplained(cfg, before, Run(cfg, Init(cfg), before).value, a);
    }
  }

  // ----- The cause decides -----

  lemma {:induction false} CauseDecides(cfg: Config, actions: seq<Action>, i: nat, state: UnlockState)
    requires cfg.Valid() && Run(cfg, Init(cfg), actions).Some? && Stopped(cfg, actions, i, state)
    ensures var s := Run(cfg, Init(cfg), actions).value;
            && i < |s.workers| && !IsPolling(s.workers[i])
            && (StateOf(s.workers[i]) == None || StateOf(s.workers[i]) == Some(state))
    decreases |actions|
  {
    RunExplained(cfg, actions);
    LastStep(cfg, actions);
    var before, a := actions[..|actions| - 1], actions[|actions| - 1];
    RunExplained(cfg, before);
    var s := Run(cfg, Init(cfg), before).value;
    var k :| 0 <= k < |actions| && StopsAt(cfg, actions[..k], actions[k], i, state);
    if k == |before| {
      StepByCause(cfg, s, i, a.choice);
    } else {
      assert actions[..k] == before[..k] && actions[k] == before[k];
      assert Stopped(cfg, before, i, state);
      CauseDecides(cfg, before, i, state);
      hide Run, Stopped, CauseInv;
      OthersStay(cfg, s, a);
      if a.Work? && a.i == i {
        StateStays(cfg, s, i, a.choice);
      }
    }
  }

  /** No worker stops twice, and so none as two different states. */
  lemma OneCause(cfg: Config, actions: seq<Action>, i: nat, a: UnlockState, b: UnlockState)
    requires cfg.Valid() && Run(cfg, Init(cfg), actions).Some?
    requires Stopped(cfg, actions, i, a) && Stopped(cfg, actions, i, b)
    ensures a == b
  {
    var j :| 0 <= j < |actions| && StopsAt(cfg, actions[..j], actions[j], i, a);
    var k :| 0 <= k < |actions| && StopsAt(cfg, actions[..k], actions[k], i, b);
    if j < k {
      StoppedBefore(cfg, actions, j, k, i, a);
    } else if k < j {
      StoppedBefore(cfg, actions, k, j, i, b);
    }
  }

  lemma StoppedBefore(cfg: Config, actions: seq<Action>, j: nat, k: nat, i: nat, a: UnlockState)
    requires cfg.Valid() && j < k < |actions| && StopsAt(cfg, actions[..j], actions[j], i, a)
    requires Run(cfg, Init(cfg), actions[..k]).Some?
    ensures var s := Run(cfg, Init(cfg), actions[..k]).value;
            i < |s.workers| && !IsPolling(s.workers[i])
  {
    var before := actions[..k];
    assert before[..j] == actions[..j] && before[j] == actions[j];
    assert Stopped(cfg, before, i, a);
    CauseDecides(cfg, before, i, a);
  }

  // ----- The choices made in a worker's steps -----

  /** The choices of worker `i`'s own steps, in order. */
  function Own(actions: seq<Action>, i: nat): seq<Choice> {
    if actions == [] then []
    else
      var a := actions[|actions| - 1];
      Own(actions[..|actions| - 1], i) + if a.Work? && a.i == i then [a.choice] else []
  }

  lemma OwnLast(actions: seq<Action>, a: Action, i: nat)
    ensures Own(actions + [a], i) == Own(actions, i) + if a.Work? && a.i == i then [a.choice] else []
  {
    assert (actions + [a])[..|actions|] == actions;
  }

  lemma {:induction false} OwnPrefix(actions: seq<Action>, k: nat, i: nat)
    requires k <= |actions|
    ensures Own(actions[..k], i) <= Own(actions, i)
  {
    if k == |actions| {
      assert actions[..k] == actions;
    } else {
      var n := |actions| - 1;
      OwnPrefix(actions[..n], k, i);
      assert actions[..n][..k] == actions[..k];
    }
  }

  /** A worker starts with its first step, and then tests, polls and waits in turn as long as it polls. */
  predicate InTurn(w: Worker, n: nat) {
    if n == 0 then w.Starting?
    else if n % 3 == 1 then w.Testing?
    else if n % 3 == 2 then w.Polling?
    else w.Idling?
  }

  lemma TurnStep(cfg: Config, s: World, i: nat, choice: Choice, n: nat)
    requires Shaped(cfg, s) && i < |s.workers| && IsPolling(s.workers[i]) && InTurn(s.workers[i], n)
    requires Step(cfg, s, Work(i, choice)).Some?
    ensures var w := Step(cfg, s, Work(i, choice)).value.workers[i]; IsPolling(w) ==> InTurn(w, n + 1)
  {
    NextPlace(cfg, s, i, choice);
    hide Step;
    Remainders(n);
  }

  lemma NextPlace(cfg: Config, s: World, i: nat, choice: Choice)
    requires Shaped(cfg, s) && i < |s.workers| && IsPolling(s.workers[i]) && Step(cfg, s, Work(i, choice)).Some?
    ensures var v, w := s.workers[i], Step(cfg, s, Work(i, choice)).value.workers[i];
            IsPolling(w) ==> if v.Testing? then w.Polling? else if v.Polling? then w.Idling? else w.Testing?
  {
  }

  lemma Remainders(n: nat)
    ensures (n + 1) % 3 == if n % 3 == 2 then 0 else n % 3 + 1
  {
  }

  lemma {:induction false} PollsInTurn(cfg: Config, actions: seq<Action>, i: nat)
    requires cfg.Valid() && Run(cfg, Init(cfg), actions).Some? && i < |cfg.devices|
    ensures var s := Run(cfg, Init(cfg), actions).value;
            Shaped(cfg, s) && (IsPolling(s.workers[i]) ==> InTurn(s.workers[i], |Own(actions, i)|))
    decreases |actions|
  {
    RunExplained(cfg, actions);
    if actions != [] {
      LastStep(cfg, actions);
      var before, a := actions[..|actions| - 1], actions[|actions| - 1];
      PollsInTurn(cfg, before, i);
      hide Run, CauseInv;
      var s := Run(cfg, Init(cfg), before).value;
      OwnLast(before, a, i);
      OthersStay(cfg, s, a);
      if a.Work? && a.i == i {
        if IsPolling(s.workers[i]) {
          TurnStep(cfg, s, i, a.choice, |Own(before, i)|);
        } else {
          StateStays(cfg, s, i, a.choice);
        }
      }
    }
  }

  /** What the step with number `n` among a worker's own, and the choice made in it, say of the state as which
      the worker stops there. */
  ghost predicate DecidedBy(cfg: Config, actions: seq<Action>, i: nat, n: nat, choice: Choice, state: UnlockState) {
    && (n == 0 ==> choice == StartFails && state == START_ERROR)
    && (n > 0 && n % 3 == 1 ==>
          state == CANCELED && (choice == Cancelled || exists j: nat :: Brought(cfg, actions, j, SUCCESS)))
    && (n % 3 == 2 ==> state != START_ERROR && state != TIMEOUT && Brought(cfg, actions, i, state))
    && (n > 0 && n % 3 == 0 ==>
          (choice == TimesOut && state == TIMEOUT) || (choice == KeysPressed && state == CANCELED))
  }

  lemma {:induction false} BroughtLater(cfg: Config, before: seq<Action>, more: seq<Action>, i: nat, state: UnlockState)
    requires Brought(cfg, before, i, state)
    ensures Brought(cfg, before + more, i, state)
  {
    if Disconnect(i, state) !in before {
      var p :| Receive(i, p) in before && state == StateAfter(cfg.tokens[i], p);
      assert Receive(i, p) in before + more;
    }
  }

  lemma StopIsBrought(cfg: Config, before: seq<Action>, a: Action, i: nat, state: UnlockState)
    requires cfg.Valid() && StopsAt(cfg, before, a, i, state)
    requires state != START_ERROR && state != TIMEOUT && state != CANCELED
    ensures i < |cfg.devices| && Brought(cfg, before, i, state)
  {
    RunExplained(cfg, before);
    hide Run, Brought;
    ServersExplained(cfg, before, i);
  }

  /** A state as which no choice makes a worker stop is one of its server's. */
  lemma ServerStateWasBrought(cfg: Config, actions: seq<Action>, i: nat, state: UnlockState)
    requires cfg.Valid() && Run(cfg, Init(cfg), actions).Some? && Stopped(cfg, actions, i, state)
    requires state != START_ERROR && state != TIMEOUT && state != CANCELED
    ensures i < |cfg.devices| && Brought(cfg, actions, i, state)
  {
    var k :| 0 <= k < |actions| && StopsAt(cfg, actions[..k], actions[k], i, state);
    CauseDecides(cfg, actions, i, state);
    hide Run, CauseAt, StateOf;
    StopIsBrought(cfg, actions[..k], actions[k], i, state);
    hide StopsAt, Brought;
    assert actions[..k] + actions[k..] == actions;
    BroughtLater(cfg, actions[..k], actions[k..], i, state);
  }

  /** A success in the shared cell has come in as a response of some server. */
  lemma SuccessWasBrought(cfg: Config, actions: seq<Action>)
    requires cfg.Valid() && Run(cfg, Init(cfg), actions).Some?
    requires Run(cfg, Init(cfg), actions).value.current.state == SUCCESS
    ensures exists j: nat :: Brought(cfg, actions, j, SUCCESS)
  {
    RunExplained(cfg, actions);
    var j: nat :| Stopped(cfg, actions, j, SUCCESS);
    ServerStateWasBrought(cfg, actions, j, SUCCESS);
  }

  lemma StopIsDecided(cfg: Config, before: seq<Action>, a: Action, i: nat, state: UnlockState)
    requires cfg.Valid() && i < |cfg.devices| && StopsAt(cfg, before, a, i, state)
    ensures DecidedBy(cfg, before, i, |Own(before, i)|, a.choice, state)
  {
    PollsInTurn(cfg, before, i);
    ServersExplained(cfg, before, i);
    var s := Run(cfg, Init(cfg), before).value;
    if s.workers[i].Testing? && s.current.state == SUCCESS {
      SuccessWasBrought(cfg, before);
    }
    hide Run, Brought;
  }

  /** The choice that decides: worker `i` has stopped as `state` at the step with number `n` of its own. */
  lemma StoppedByChoice(cfg: Config, actions: seq<Action>, i: nat, state: UnlockState)
    requires cfg.Valid() && Run(cfg, Init(cfg), actions).Some? && Stopped(cfg, actions, i, state)
    ensures i < |cfg.devices|
    ensures exists n :: 0 <= n < |Own(actions, i)| && DecidedBy(cfg, actions, i, n, Own(actions, i)[n], state)
  {
    var k :| 0 <= k < |actions| && StopsAt(cfg, actions[..k], actions[k], i, state);
    CauseDecides(cfg, actions, i, state);
    RunExplained(cfg, actions);
    StopIsOwn(cfg, actions, k, i, state);
    hide DecidedBy, Own, CauseInv, Run;
  }

  lemma StopIsOwn(cfg: Config, actions: seq<Action>, k: nat, i: nat, state: UnlockState)
    requires cfg.Valid() && k < |actions| && i < |cfg.devices| && StopsAt(cfg, actions[..k], actions[k], i, state)
    ensures var n := |Own(actions[..k], i)|;
            n < |Own(actions, i)| && DecidedBy(cfg, actions, i, n, Own(actions, i)[n], state)
  {
    var before, a := actions[..k], actions[k];
    assert a == Work(i, a.choice);
    StopIsDecided(cfg, before, a, i, state);
    hide DecidedBy, Own, StopsAt;
    OwnPrefix(actions, k + 1, i);
    OwnLast(before, a, i);
    assert actions[..k + 1] == before + [a] && before + actions[k..] == actions;
    DecidedLater(cfg, before, actions[k..], i, |Own(before, i)|, a.choice, state);
  }

  /** While a worker leaves, its last choice is the one that decides. */
  lemma LastChoiceDecides(cfg: Config, actions: seq<Action>, i: nat)
    requires cfg.Valid() && Run(cfg, Init(cfg), actions).Some? && i < |cfg.devices|
    requires i < |Run(cfg, Init(cfg), actions).value.workers| && Run(cfg, Init(cfg), actions).value.workers[i].Leaving?
    ensures var own, state := Own(actions, i), Run(cfg, Init(cfg), actions).value.workers[i].state;
            && own != [] && DecidedBy(cfg, actions, i, |own| - 1, own[|own| - 1], state)
            && (state == TIMEOUT <==> IsTimeout(|own| - 1, own[|own| - 1]))
  {
    LastChoice(cfg, actions, i);
    var own := Own(actions, i);
    TimeoutIff(cfg, actions, i, |own| - 1, own[|own| - 1], Run(cfg, Init(cfg), actions).value.workers[i].state);
    hide Run, Own, DecidedBy;
  }

  lemma {:induction false} LastChoice(cfg: Config, actions: seq<Action>, i: nat)
    requires cfg.Valid() && Run(cfg, Init(cfg), actions).Some? && i < |cfg.devices|
    requires i < |Run(cfg, Init(cfg), actions).value.workers| && Run(cfg, Init(cfg), actions).value.workers[i].Leaving?
    ensures var own, state := Own(actions, i), Run(cfg, Init(cfg), actions).value.workers[i].state;
            own != [] && DecidedBy(cfg, actions, i, |own| - 1, own[|own| - 1], state)
    decreases |actions|
  {
    RunExplained(cfg, actions);
    LastStep(cfg, actions);
    var before, a := actions[..|actions| - 1], actions[|actions| - 1];
    assert actions == before + [a];
    OwnLast(before, a, i);
    RunExplained(cfg, before);
    var s := Run(cfg, Init(cfg), before).value;
    hide Run, Own, CauseInv, DecidedBy, Step, CauseAt, Brought;
    if a.Work? && a.i == i {
      LeavesNow(cfg, before, s, i, a.choice);
      DecidedLater(cfg, before, [a], i, |Own(before, i)|, a.choice, CauseAt(s, i, a.choice).value);
    } else {
      OthersStay(cfg, s, a);
      LastChoice(cfg, before, i);
      var own := Own(before, i);
      DecidedLater(cfg, before, [a], i, |own| - 1, own[|own| - 1], s.workers[i].state);
    }
  }

  /** At a step in which the worker waits, the time is up. */
  predicate IsTimeout(n: nat, choice: Choice) {
    n > 0 && n % 3 == 0 && choice == TimesOut
  }

  lemma TimeoutIff(cfg: Config, actions: seq<Action>, i: nat, n: nat, choice: Choice, state: UnlockState)
    requires DecidedBy(cfg, actions, i, n, choice, state)
    ensures state == TIMEOUT <==> IsTimeout(n, choice)
    ensures state == START_ERROR <==> n == 0
  {
    hide Brought;
  }

  lemma LeavesNow(cfg: Config, before: seq<Action>, s: World, i: nat, choice: Choice)
    requires cfg.Valid() && i < |cfg.devices| && Run(cfg, Init(cfg), before) == Some(s) && Shaped(cfg, s)
    requires Step(cfg, s, Work(i, choice)).Some? && Step(cfg, s, Work(i, choice)).value.workers[i].Leaving?
    ensures CauseAt(s, i, choice) == Some(Step(cfg, s, Work(i, choice)).value.workers[i].state)
    ensures DecidedBy(cfg, before, i, |Own(before, i)|, choice, CauseAt(s, i, choice).value)
  {
    StepByCause(cfg, s, i, choice);
    StopIsDecided(cfg, before, Work(i, choice), i, CauseAt(s, i, choice).value);
  }

  lemma DecidedLater(cfg: Config, before: seq<Action>, more: seq<Action>, i: nat, n: nat, choice: Choice,
    state: UnlockState)
    requires DecidedBy(cfg, before, i, n, choice, state)
    ensures DecidedBy(cfg, before + more, i, n, choice, state)
  {
    hide Brought;
    if n % 3 == 2 {
      BroughtLater(cfg, before, more, i, state);
    }
    if j: nat :| Brought(cfg, before, j, SUCCESS) {
      BroughtLater(cfg, before, more, j, SUCCESS);
    }
  }

  // ----- What is returned -----

  /** Why worker `i` can have ended as `state`, in terms of what happened. */
  ghost predicate HasCause(cfg: Config, actions: seq<Action>, i: nat, state: UnlockState) {
    var own := Own(actions, i);
    match state
    case START_ERROR => own != [] && own[0] == StartFails
    case TIMEOUT => exists n :: 0 < n < |own| && n % 3 == 0 && own[n] == TimesOut
    case CANCELED =>
      || (exists n :: 0 < n < |own| && n % 3 == 1 && own[n] == Cancelled)
      || (exists n :: 0 < n < |own| && n % 3 == 0 && own[n] == KeysPressed)
      || (exists j: nat :: Brought(cfg, actions, j, SUCCESS))
      || Brought(cfg, actions, i, CANCELED)
    case _ => Brought(cfg, actions, i, state)
  }

  lemma DecidedHasCause(cfg: Config, actions: seq<Action>, i: nat, n: nat, state: UnlockState)
    requires n < |Own(actions, i)| && DecidedBy(cfg, actions, i, n, Own(actions, i)[n], state)
    ensures HasCause(cfg, actions, i, state)
  {
    hide Brought, Own;
  }

  /** A worker that fails to start ends as START_ERROR, and only such a worker does. */
  lemma {:induction false} StartErrorIff(cfg: Config, actions: seq<Action>, i: nat)
    requires cfg.Valid() && Run(cfg, Init(cfg), actions).Some? && i < |cfg.devices|
    ensures Stopped(cfg, actions, i, START_ERROR) <==> Own(actions, i) != [] && Own(actions, i)[0] == StartFails
    decreases |actions|
  {
    if Stopped(cfg, actions, i, START_ERROR) {
      StoppedByChoice(cfg, actions, i, START_ERROR);
      var n :| 0 <= n < |Own(actions, i)| && DecidedBy(cfg, actions, i, n, Own(actions, i)[n], START_ERROR);
      assert n == 0;
    } else if Own(actions, i) != [] && Own(actions, i)[0] == StartFails {
      LastStep(cfg, actions);
      var before, a := actions[..|actions| - 1], actions[|actions| - 1];
      OwnLast(before, a, i);
      if Own(before, i) == [] {
        PollsInTurn(cfg, before, i);
        StartFailsStops(cfg, before, a, i);
      } else {
        StartErrorIff(cfg, before, i);
        StoppedStays(cfg, before, a, i, START_ERROR);
      }
    }
  }

  lemma StartFailsStops(cfg: Config, before: seq<Action>, a: Action, i: nat)
    requires cfg.Valid() && Run(cfg, Init(cfg), before).Some? && a == Work(i, StartFails)
    requires i < |cfg.devices| && Own(before, i) == []
    ensures Stopped(cfg, before + [a], i, START_ERROR)
  {
    PollsInTurn(cfg, before, i);
    NoStepNoStop(cfg, before, i);
    StopsNow(cfg, before, a, i, START_ERROR);
  }

  /** A worker that has taken no step is starting. */
  lemma {:induction false} NoStepNoStop(cfg: Config, actions: seq<Action>, i: nat)
    requires cfg.Valid() && Run(cfg, Init(cfg), actions).Some? && i < |cfg.devices| && Own(actions, i) == []
    ensures Shaped(cfg, Run(cfg, Init(cfg), actions).value)
    ensures Run(cfg, Init(cfg), actions).value.workers[i].Starting?
    decreases |actions|
  {
    RunExplained(cfg, actions);
    if actions != [] {
      LastStep(cfg, actions);
      var before, a := actions[..|actions| - 1], actions[|actions| - 1];
      OwnLast(before, a, i);
      NoStepNoStop(cfg, before, i);
      hide Run, CauseInv;
      OthersStay(cfg, Run(cfg, Init(cfg), before).value, a);
    }
  }

  /** In every interleaving, the state that `GetResult` returns is that of a worker, and has its cause: the
      server could not be started, the time was up, it was cancelled by the caller, the keys, another's success
      or the phone, or the phone's response or the connection's end has brought it. */
  lemma ReturnedHasCause(cfg: Config, actions: seq<Action>)
    requires cfg.Valid() && Run(cfg, Init(cfg), actions).Some?
    requires Run(cfg, Init(cfg), actions).value.main.Returned?
    ensures var state := Run(cfg, Init(cfg), actions).value.main.result.state;
            exists i: nat :: i < |cfg.devices| && Stopped(cfg, actions, i, state) && HasCause(cfg, actions, i, state)
  {
    var r := Run(cfg, Init(cfg), actions).value.main.result;
    RunExplained(cfg, actions);
    ReturnedIsKnown(cfg, actions);
    var i: nat :| Stopped(cfg, actions, i, r.state);
    StoppedByChoice(cfg, actions, i, r.state);
    var n :| 0 <= n < |Own(actions, i)| && DecidedBy(cfg, actions, i, n, Own(actions, i)[n], r.state);
    DecidedHasCause(cfg, actions, i, n, r.state);
  }

  /** A connection that ends without a response brings one of three states, and can bring each. */
  lemma DisconnectStates(cfg: Config, i: nat, state: UnlockState)
    requires cfg.Valid() && i < |cfg.devices|
    ensures Run(cfg, Init(cfg), [Disconnect(i, state)]).Some?
       <==> state == UNK_ERROR || state == CONNECT_ERROR || state == CANCELED
  {
    assert [Disconnect(i, state)][1..] == [];
  }

  /** While no worker is done, main goes to sleep, and when it is woken up, it looks again. */
  lemma MainSleeps(cfg: Config)
    requires cfg.Valid()
    ensures var toSleep := [MainStep, MainStep, MainStep];
            && Run(cfg, Init(cfg), toSleep) == Some(Init(cfg).(main := Asleep))
            && Run(cfg, Init(cfg).(main := Asleep), [SpuriousWakeup] + toSleep[..1])
               == Some(Init(cfg).(main := Examine, mutex := ByMain))
  {
    var s := Init(cfg);
    OneMore(cfg, s.(main := FallAsleep, mutex := ByMain), MainStep, []);
    OneMore(cfg, s.(main := Examine, mutex := ByMain), MainStep, [MainStep]);
    OneMore(cfg, s, MainStep, [MainStep, MainStep]);
    OneMore(cfg, s.(main := Woken), MainStep, []);
    OneMore(cfg, s.(main := Asleep), SpuriousWakeup, [MainStep]);
    hide Run;
    assert [MainStep] + [MainStep, MainStep] == [MainStep, MainStep, MainStep];
    assert [MainStep] + [MainStep] == [MainStep, MainStep] && [MainStep] + [] == [MainStep];
    assert [MainStep, MainStep, MainStep][..1] == [MainStep];
  }

  lemma OneMore(cfg: Config, s: World, a: Action, more: seq<Action>)
    ensures Run(cfg, s, [a] + more) == match Step(cfg, s, a)
                                       case None => None
                                       case Some(next) => Run(cfg, next, more)
    ensures Run(cfg, s, []) == Some(s)
  {
    assert ([a] + more)[1..] == more;
  }

  /** With one server, the cause is the only one there is: what is returned is what its worker has stopped as. */
  lemma OneServerReturnsItsState(cfg: Config, actions: seq<Action>, state: UnlockState)
    requires cfg.Valid() && |cfg.devices| == 1 && Run(cfg, Init(cfg), actions).Some?
    requires Run(cfg, Init(cfg), actions).value.main.Returned?
    ensures Run(cfg, Init(cfg), actions).value.main.result.state == state <==> Stopped(cfg, actions, 0, state)
  {
    ReturnedHasCause(cfg, actions);
    var r := Run(cfg, Init(cfg), actions).value.main.result;
    assert Stopped(cfg, actions, 0, r.state);
    if Stopped(cfg, actions, 0, state) {
      OneCause(cfg, actions, 0, state, r.state);
    }
  }
}
