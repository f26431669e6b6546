/** The ownership protocol of a plain HTTP client's socket: `send_` frames (a redirect nests one inside
    another on the same thread) interleaved with `stop` from any thread. Each critical section of the
    socket mutex is one step. */
module ClientSocket {
  import opened Prelude

  type Thread = nat

  /** A call of `send_`: it has the request mutex, and later also counts as in flight. */
  datatype Frame = Opening | InFlight

  /** `frames` is the stack of active `send_` calls, all of the thread that holds the request mutex. An open
      socket that was shut down can no longer be written to, nor read beyond what has arrived. */
  datatype Client = Client(
    holder: Option<Thread>,
    frames: seq<Frame>,
    inFlight: int,
    owner: Option<Thread>,
    closeWhenDone: bool,
    isOpen: bool,
    isShut: bool)

  datatype Action =
    | Send(t: Thread)                                     // `send_` is called, possibly from a redirect
    | Enter(t: Thread, isAlive: bool, connects: bool)     // its first critical section
    | CloseAsTold(t: Thread)                              // the response said "Connection: close"
    | End(t: Thread, mustClose: bool)                     // its last one; not keep-alive, or it failed
    | Stop(t: Thread)

  const FRESH := Client(None, [], 0, None, false, false, false)

  function Top(s: Client): Option<Frame> {
    if s.frames == [] then None else Some(s.frames[|s.frames| - 1])
  }

  function Pop(s: Client): Client
    requires s.frames != []
  {
    var rest := s.frames[..|s.frames| - 1];
    s.(frames := rest, holder := if rest == [] then None else s.holder)
  }

  /** The condition that `close_socket` and `shutdown_ssl` assert for the calling thread. */
  predicate MayClose(s: Client, t: Thread) {
    s.inFlight == 0 || s.owner == Some(t)
  }

  /** The socket as `send_` finds it: a dead one is closed, and a missing one is replaced. */
  function EnterStep(s: Client, t: Thread, isAlive: bool, connects: bool): Client
    requires s.frames != []
  {
    var live := s.isOpen && isAlive;
    if !live && !connects then Pop(s.(closeWhenDone := false, isOpen := false, isShut := false))
    else s.(closeWhenDone := false, isOpen := true, isShut := live && s.isShut,
            inFlight := s.inFlight + 1, owner := Some(t), frames := s.frames[..|s.frames| - 1] + [InFlight])
  }

  function EndStep(s: Client, mustClose: bool): Client
    requires s.frames != []
  {
    var left, closes := s.inFlight - 1, s.closeWhenDone || mustClose;
    Pop(s.(inFlight := left,
           owner := if left <= 0 then None else s.owner,
           isOpen := s.isOpen && !closes,
           isShut := s.isShut && !closes))
  }

  function StopStep(s: Client): Client {
    if s.inFlight > 0 then s.(closeWhenDone := true, isShut := s.isOpen) else s.(isOpen := false, isShut := false)
  }

  predicate Enabled(s: Client, a: Action) {
    match a
    case Send(t) => s.holder == None || (s.holder == Some(t) && Top(s) == Some(InFlight))
    case Enter(t, _, _) => s.holder == Some(t) && Top(s) == Some(Opening)
    case CloseAsTold(t) => s.holder == Some(t) && Top(s) == Some(InFlight)
    case End(t, _) => s.holder == Some(t) && Top(s) == Some(InFlight)
    case Stop(_) => true
  }

  function Step(s: Client, a: Action): Client
    requires Enabled(s, a)
  {
    match a
    case Send(t) => s.(holder := Some(t), frames := s.frames + [Opening])
    case Enter(t, isAlive, connects) => EnterStep(s, t, isAlive, connects)
    case CloseAsTold(_) => s.(isOpen := false, isShut := false)
    case End(_, mustClose) => EndStep(s, mustClose)
    case Stop(_) => StopStep(s)
  }

  /** Every assertion that the source makes in this step, evaluated where it makes it. */
  predicate AssertionsHold(s: Client, a: Action)
    requires Enabled(s, a)
  {
    match a
    case Send(_) => true
    case Enter(t, isAlive, connects) =>
      && (s.isOpen && !isAlive ==> MayClose(s, t))
      && ((s.isOpen && isAlive) || connects ==> (s.inFlight > 1 ==> s.owner == Some(t)))
    case CloseAsTold(t) => MayClose(s, t)
    case End(t, mustClose) =>
      var after := EndStep(s, mustClose);
      (after.inFlight <= 0 ==> after.inFlight == 0) && (s.closeWhenDone || mustClose ==> MayClose(after, t))
    case Stop(t) => s.inFlight > 0 || MayClose(s, t)
  }

  function Run(actions: seq<Action>): Option<Client> {
    if actions == [] then Some(FRESH)
    else
      match Run(actions[..|actions| - 1])
      case None => None
      case Some(s) =>
        var a := actions[|actions| - 1];
        if Enabled(s, a) then Some(Step(s, a)) else None
  }

  // ----- Safety in every run -----

  /** The number of `send_` calls in flight. */
  function ActiveCalls(frames: seq<Frame>): nat {
    if frames == [] then 0
    else ActiveCalls(frames[..|frames| - 1]) + if frames[|frames| - 1] == InFlight then 1 else 0
  }

  /** Only the innermost call can be one that is not in flight yet. */
  ghost predicate Inv(s: Client) {
    && (forall k :: 0 <= k < |s.frames| - 1 ==> s.frames[k] == InFlight)
    && s.inFlight == |s.frames| - (if Top(s) == Some(Opening) then 1 else 0)
    && (s.frames == [] <==> s.holder == None)
    && s.owner == if s.inFlight == 0 then None else s.holder
  }

  lemma {:induction false} InFlightIsActiveCalls(frames: seq<Frame>)
    requires forall k :: 0 <= k < |frames| - 1 ==> frames[k] == InFlight
    ensures ActiveCalls(frames) == |frames| - if frames != [] && frames[|frames| - 1] == Opening then 1 else 0
  {
    if frames != [] {
      InFlightIsActiveCalls(frames[..|frames| - 1]);
    }
  }

  lemma StepKeepsInv(s: Client, a: Action)
    requires Inv(s) && Enabled(s, a)
    ensures Inv(Step(s, a)) && AssertionsHold(s, a)
  {
  }

  lemma {:induction false} RunKeepsInv(actions: seq<Action>)
    requires Run(actions).Some?
    ensures Inv(Run(actions).value)
  {
    if actions != [] {
      var before := actions[..|actions| - 1];
      RunKeepsInv(before);
      StepKeepsInv(Run(before).value, actions[|actions| - 1]);
    }
  }

  /** In every run, the counter is the number of `send_` calls in flight, they all belong to the owning
      thread, and whatever is done next, every assertion of the source holds. */
  lemma AssertionsNeverFail(actions: seq<Action>, a: Action)
    requires Run(actions).Some? && Enabled(Run(actions).value, a)
    ensures var s := Run(actions).value;
            && s.inFlight == ActiveCalls(s.frames)
            && (s.inFlight > 0 ==> s.owner == s.holder != None)
            && AssertionsHold(s, a)
  {
    RunKeepsInv(actions);
    StepKeepsInv(Run(actions).value, a);
    InFlightIsActiveCalls(Run(actions).value.frames);
  }

  lemma InFlightIff(s: Client)
    requires Inv(s)
    ensures s.inFlight > 0 <==> InFlight in s.frames
  {
    if s.inFlight > 0 {
      assert s.frames[0] == InFlight;
    } else {
      assert s.frames == [] || s.frames == [Opening];
    }
  }

  /** `stop` closes the socket if and only if no request is in flight, and otherwise shuts it down. */
  lemma StopSparesSocketInUse(actions: seq<Action>, t: Thread)
    requires Run(actions).Some? && Run(actions).value.isOpen
    ensures var s := Run(actions).value;
            (Step(s, Stop(t)).isOpen <==> InFlight in s.frames) && (Step(s, Stop(t)).isShut <==> InFlight in s.frames)
  {
    RunKeepsInv(actions);
    InFlightIff(Run(actions).value);
  }

  // ----- Who can do what -----

  /** Once `send_` was called, that thread enters before anything else is done but a `stop`. */
  lemma AfterSend(actions: seq<Action>, t: Thread, a: Action)
    requires Run(actions + [Send(t)]).Some?
    ensures Enabled(Run(actions + [Send(t)]).value, a) <==> a.Stop? || (a.Enter? && a.t == t)
  {
    assert (actions + [Send(t)])[..|actions|] == actions;
  }

  /** Once it is in flight, it may be told to close, may end, or may be called again by its own thread. */
  lemma AfterEnter(actions: seq<Action>, t: Thread, isAlive: bool, connects: bool, a: Action)
    requires var entered := actions + [Enter(t, isAlive, connects)]; Run(entered).Some?
    requires (Run(actions).Some? && Run(actions).value.isOpen && isAlive) || connects
    ensures Enabled(Run(actions + [Enter(t, isAlive, connects)]).value, a)
       <==> a.Stop? || (a.t == t && (a.Send? || a.CloseAsTold? || a.End?))
  {
    assert (actions + [Enter(t, isAlive, connects)])[..|actions|] == actions;
  }

  /** When it ends, its thread goes on with the call around it, if there is one; otherwise anyone may begin. */
  lemma AfterEnd(actions: seq<Action>, t: Thread, mustClose: bool, a: Action)
    requires Run(actions + [End(t, mustClose)]).Some?
    ensures Run(actions).Some?
    ensures Enabled(Run(actions + [End(t, mustClose)]).value, a)
       <==> a.Stop? || if |Run(actions).value.frames| > 1 then a.t == t && (a.Send? || a.CloseAsTold? || a.End?)
                       else a.Send?
  {
    var ended := actions + [End(t, mustClose)];
    assert ended[..|actions|] == actions;
    RunKeepsInv(actions);
    RunKeepsInv(ended);
    var s := Run(actions).value;
    assert |s.frames| > 1 ==> s.frames[..|s.frames| - 1][|s.frames| - 2] == InFlight;
  }

  // ----- A stop during a request -----

  /** A `stop` found a request in flight, and no `send_` has entered its critical section since. */
  predicate StopPending(actions: seq<Action>) {
    if actions == [] then false
    else
      var before, a := actions[..|actions| - 1], actions[|actions| - 1];
      if a.Enter? then false
      else if a.Stop? && Run(before).Some? && Run(before).value.inFlight > 0 then true
      else StopPending(before)
  }

  lemma {:induction false} FlagIsStopPending(actions: seq<Action>)
    requires Run(actions).Some?
    ensures Run(actions).value.closeWhenDone <==> StopPending(actions)
  {
    if actions != [] {
      FlagIsStopPending(actions[..|actions| - 1]);
    }
  }

  /** When a request ends, exactly a pending `stop` (or the request's own need) closes the socket. */
  lemma EndClosesIffStopPending(actions: seq<Action>, t: Thread, mustClose: bool)
    requires Run(actions).Some? && Enabled(Run(actions).value, End(t, mustClose))
    ensures var s := Run(actions).value;
            Step(s, End(t, mustClose)).isOpen <==> s.isOpen && !mustClose && !StopPending(actions)
  {
    FlagIsStopPending(actions);
  }

  lemma {:induction false} StopStaysPending(actions: seq<Action>, more: seq<Action>)
    requires StopPending(actions) && forall a :: a in more ==> !a.Enter?
    ensures StopPending(actions + more)
  {
    var all := actions + more;
    if more == [] {
      assert all == actions;
    } else {
      StopStaysPending(actions, more[..|more| - 1]);
      assert all[..|all| - 1] == actions + more[..|more| - 1];
      assert all[|all| - 1] in more;
    }
  }

  /** A `stop` during a request that makes no further (nested) `send_` call closes the socket when that
      request ends. */
  lemma StopIsHonoured(actions: seq<Action>, stopper: Thread, more: seq<Action>, t: Thread, mustClose: bool)
    requires Run(actions).Some? && Run(actions).value.inFlight > 0
    requires forall a :: a in more ==> !a.Enter?
    requires var all := actions + [Stop(stopper)] + more; Run(all).Some? && Enabled(Run(all).value, End(t, mustClose))
    ensures !Step(Run(actions + [Stop(stopper)] + more).value, End(t, mustClose)).isOpen
  {
    var stopped := actions + [Stop(stopper)];
    assert stopped[..|stopped| - 1] == actions;
    StopStaysPending(stopped, more);
    EndClosesIffStopPending(stopped + more, t, mustClose);
  }

  // ----- When the socket is open -----

  /** What was done at `j` leaves the client without a connection: the response told it to close, a request
      ended that had to close or had a stop pending, a dead connection could not be replaced, or `stop` came
      with no request in flight. */
  predicate Closes(actions: seq<Action>, j: nat)
    requires j < |actions|
  {
    match actions[j]
    case Send(_) => false
    case Enter(_, isAlive, connects) => !isAlive && !connects
    case CloseAsTold(_) => true
    case End(_, mustClose) => mustClose || StopPending(actions[..j])
    case Stop(_) => Run(actions[..j]).Some? && Run(actions[..j]).value.inFlight == 0
  }

  predicate Connects(a: Action) {
    a.Enter? && a.connects
  }

  /** Since the action `k`, nothing has closed the connection. */
  ghost predicate NotClosedSince(actions: seq<Action>, k: nat) {
    forall j :: k < j < |actions| ==> !Closes(actions, j)
  }

  ghost predicate HasConnection(actions: seq<Action>) {
    exists k :: 0 <= k < |actions| && Connects(actions[k]) && NotClosedSince(actions, k)
  }

  lemma EarlierActions(before: seq<Action>, a: Action, j: nat)
    requires j < |before|
    ensures (before + [a])[j] == before[j] && (before + [a])[..j] == before[..j]
    ensures Closes(before + [a], j) <==> Closes(before, j)
  {
  }

  lemma ConnectionStep(before: seq<Action>, a: Action)
    ensures HasConnection(before + [a]) <==> Connects(a) || (HasConnection(before) && !Closes(before + [a], |before|))
  {
    var all, n := before + [a], |before|;
    hide Closes;
    forall j | 0 <= j < n
      ensures all[j] == before[j] && (Closes(all, j) <==> Closes(before, j))
    {
      EarlierActions(before, a, j);
    }
    if Connects(a) {
      assert Connects(all[n]) && NotClosedSince(all, n);
    } else if HasConnection(before) && !Closes(all, n) {
      var k :| 0 <= k < n && Connects(before[k]) && NotClosedSince(before, k);
      assert Connects(all[k]) && NotClosedSince(all, k);
    }
    if HasConnection(all) && !Connects(a) {
      var k :| 0 <= k < |all| && Connects(all[k]) && NotClosedSince(all, k);
      assert k < n && Connects(before[k]) && NotClosedSince(before, k) && !Closes(all, n);
    }
  }

  /** In every run, the socket is open exactly if some `send_` has connected it, and nothing has closed the
      connection since. */
  lemma {:induction false} IsOpenIff(actions: seq<Action>)
    requires Run(actions).Some?
    ensures Run(actions).value.isOpen <==> HasConnection(actions)
  {
    if actions != [] {
      var before, a := actions[..|actions| - 1], actions[|actions| - 1];
      assert actions == before + [a];
      IsOpenIff(before);
      RunKeepsInv(before);
      FlagIsStopPending(before);
      ConnectionStep(before, a);
      hide HasConnection, StopPending, Inv;
      assert actions[..|before|] == before;
    }
  }

  /** After a response that told the client to close, the socket stays closed until a `send_` connects. */
  lemma ClosedAsTold(actions: seq<Action>, t: Thread, more: seq<Action>)
    requires Run(actions + [CloseAsTold(t)] + more).Some? && forall a :: a in more ==> !Connects(a)
    ensures !Run(actions + [CloseAsTold(t)] + more).value.isOpen
  {
    var all, n := actions + [CloseAsTold(t)] + more, |actions|;
    IsOpenIff(all);
    hide Run;
    assert all[n] == CloseAsTold(t) && Closes(all, n);
    forall k | n < k < |all|
      ensures !Connects(all[k])
    {
      assert all[k] == more[k - n - 1] && all[k] in more;
    }
  }

  /** `stop` has shut down the connection there is: it came while that was in use, and since then the
      connection was neither closed nor replaced. */
  ghost predicate ShutSince(actions: seq<Action>, k: nat)
    requires k < |actions|
  {
    && actions[k].Stop? && Run(actions[..k]).Some? && Run(actions[..k]).value.inFlight > 0
    && HasConnection(actions[..k])
    && forall j :: k < j < |actions| ==> !Closes(actions, j) && !(actions[j].Enter? && !actions[j].isAlive)
  }

  ghost predicate WasShut(actions: seq<Action>) {
    exists k :: 0 <= k < |actions| && ShutSince(actions, k)
  }

  lemma ShutStep(before: seq<Action>, a: Action)
    ensures WasShut(before + [a]) <==>
              || ShutSince(before + [a], |before|)
              || (WasShut(before) && !Closes(before + [a], |before|) && !(a.Enter? && !a.isAlive))
  {
    var all, n := before + [a], |before|;
    hide Closes, HasConnection, Run;
    forall j | 0 <= j < n
      ensures all[j] == before[j] && all[..j] == before[..j] && (Closes(all, j) <==> Closes(before, j))
    {
      EarlierActions(before, a, j);
    }
    if WasShut(before) && !Closes(all, n) && !(a.Enter? && !a.isAlive) {
      var k :| 0 <= k < n && ShutSince(before, k);
      assert ShutSince(all, k);
    }
    if WasShut(all) && !ShutSince(all, n) {
      var k :| 0 <= k < |all| && ShutSince(all, k);
      assert k < n && ShutSince(before, k);
    }
  }

  lemma {:induction false} IsShutIff(actions: seq<Action>)
    requires Run(actions).Some?
    ensures Run(actions).value.isShut <==> WasShut(actions)
  {
    if actions != [] {
      var before, a := actions[..|actions| - 1], actions[|actions| - 1];
      assert actions == before + [a];
      IsShutIff(before);
      IsOpenIff(before);
      RunKeepsInv(before);
      FlagIsStopPending(before);
      ShutStep(before, a);
      assert actions[..|before|] == before;
      ShutIsOpen(before);
      hide HasConnection, StopPending, Inv, WasShut;
    }
  }

  /** Only an open socket is shut down. */
  lemma {:induction false} ShutIsOpen(actions: seq<Action>)
    requires Run(actions).Some?
    ensures Run(actions).value.isShut ==> Run(actions).value.isOpen
  {
    if actions != [] {
      ShutIsOpen(actions[..|actions| - 1]);
    }
  }

  lemma RunExtends(actions: seq<Action>, s: Client, a: Action, t: Client)
    requires Run(actions) == Some(s) && Enabled(s, a)
    requires Step(s, a).frames == t.frames && Step(s, a).(frames := t.frames) == t
    ensures Run(actions + [a]) == Some(t)
  {
    assert (actions + [a])[..|actions|] == actions;
  }

  /** A request of thread 1 is in flight, and thread 2 has called `stop`. */
  lemma StoppedRequest()
    ensures exists actions :: Stop(2) in actions
                              && Run(actions) == Some(Client(Some(1), [InFlight], 1, Some(1), true, true, true))
  {
    var s1 := Client(Some(1), [Opening], 0, None, false, false, false);
    var s2 := Client(Some(1), [InFlight], 1, Some(1), false, true, false);
    assert Run([]) == Some(FRESH);
    hide Run;
    RunExtends([], FRESH, Send(1), s1);
    RunExtends([] + [Send(1)], s1, Enter(1, true, true), s2);
    var a2 := [] + [Send(1)] + [Enter(1, true, true)];
    RunExtends(a2, s2, Stop(2), s2.(closeWhenDone := true, isShut := true));
    assert Stop(2) in a2 + [Stop(2)];
  }

  /** A nested `send_` forgets it: when a redirect is followed after a `stop`, it replaces the socket that was
      shut down, and the new connection is left open when all requests have ended. */
  lemma NestedSendForgetsStop()
    ensures exists actions :: Stop(2) in actions && Run(actions) == Some(FRESH.(isOpen := true))
  {
    hide Run;
    StoppedRequest();
    var s3 := Client(Some(1), [InFlight], 1, Some(1), true, true, true);
    var a3 :| Stop(2) in a3 && Run(a3) == Some(s3);
    var s4 := s3.(frames := [InFlight, Opening]);
    RunExtends(a3, s3, Send(1), s4);
    var s5 := Client(Some(1), [InFlight, InFlight], 2, Some(1), false, true, false);
    RunExtends(a3 + [Send(1)], s4, Enter(1, false, true), s5);
    var a5 := a3 + [Send(1)] + [Enter(1, false, true)];
    var s6 := Client(Some(1), [InFlight], 1, Some(1), false, true, false);
    RunExtends(a5, s5, End(1, false), s6);
    RunExtends(a5 + [End(1, false)], s6, End(1, false), FRESH.(isOpen := true));
    assert Stop(2) in a5 + [End(1, false)] + [End(1, false)];
  }
}
