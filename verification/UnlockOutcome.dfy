/** What `GetResult` returns: which results are possible in any interleaving, when it returns at all, and
    the result when each worker's epilogue runs without interruption. */
module UnlockOutcome {
  import opened Prelude
  import opened PacketCrypt
  import opened UnlockServer
  import opened UnlockRace

  // ----- Main joins the workers while it still holds the mutex -----

  /** A worker that still has to take the mutex once all workers have been counted. */
  predicate NeedsMutex(w: Worker) {
    w.Storing? || w.Comparing? || w.Rechecking? || w.Overwriting? || w.Locking?
  }

  /** Main has seen the count complete, holds the mutex, and worker `i` will ask for it. */
  predicate Blocked(cfg: Config, s: World, i: nat) {
    && s.mutex == ByMain && (s.main.Load? || s.main.Join?) && s.completed == |cfg.devices|
    && i < |s.workers| && NeedsMutex(s.workers[i])
  }

  lemma BlockedStays(cfg: Config, s: World, a: Action, i: nat)
    requires SyncInv(cfg, s) && Blocked(cfg, s, i) && Step(cfg, s, a).Some?
    ensures Blocked(cfg, Step(cfg, s, a).value, i)
  {
    if a.Work? {
      AllCounted(s.workers, a.i);
    }
  }

  lemma {:induction false} BlockedForever(cfg: Config, s: World, actions: seq<Action>, i: nat)
    requires SyncInv(cfg, s) && Blocked(cfg, s, i) && Run(cfg, s, actions).Some?
    ensures Blocked(cfg, Run(cfg, s, actions).value, i)
    decreases |actions|
  {
    if actions != [] {
      BlockedStays(cfg, s, actions[0], i);
      StepKeepsSync(cfg, s, actions[0]);
      BlockedForever(cfg, Step(cfg, s, actions[0]).value, actions[1..], i);
    }
  }

  lemma UndoneIsBlocked(cfg: Config, s: World)
    requires SyncInv(cfg, s) && (s.main.Load? || s.main.Join?) && !AllDone(s)
    ensures exists i: nat :: Blocked(cfg, s, i)
  {
    var i: nat :| i < |s.workers| && s.workers[i] != Done;
    AllCounted(s.workers, i);
    assert Blocked(cfg, s, i);
  }

  lemma {:induction false} RunExtends(cfg: Config, s: World, actions: seq<Action>, a: Action)
    requires Run(cfg, s, actions).Some? && Step(cfg, Run(cfg, s, actions).value, a).Some?
    ensures Run(cfg, s, actions + [a]) == Step(cfg, Run(cfg, s, actions).value, a)
    decreases |actions|
  {
    if actions != [] {
      RunExtends(cfg, Step(cfg, s, actions[0]).value, actions[1..], a);
      assert (actions + [a])[1..] == actions[1..] + [a];
    } else {
      var t := Step(cfg, s, a).value;
      assert [] + [a] == [a] && [a][1..] == [];
      assert Run(cfg, t, []) == Some(t);
    }
  }

  /** Some run leads from `s` to `t`. */
  ghost predicate Reaches(cfg: Config, s: World, t: World) {
    exists actions :: Run(cfg, s, actions) == Some(t)
  }

  lemma ReachesSelf(cfg: Config, s: World)
    ensures Reaches(cfg, s, s)
  {
    assert Run(cfg, s, []) == Some(s);
  }

  lemma ReachStep(cfg: Config, s: World, t: World, a: Action)
    requires Reaches(cfg, s, t) && Step(cfg, t, a).Some?
    ensures Reaches(cfg, s, Step(cfg, t, a).value)
  {
    var actions :| Run(cfg, s, actions) == Some(t);
    RunExtends(cfg, s, actions, a);
  }

  /** Once main has found the count complete, `GetResult` can return if and only if every worker has
      already finished its epilogue: main joins while holding the mutex that the others still need. */
  lemma ReturnsIffAllDone(cfg: Config, actions: seq<Action>)
    requires cfg.Valid() && Run(cfg, Init(cfg), actions).Some?
    requires var s := Run(cfg, Init(cfg), actions).value; s.main.Load? || s.main.Join?
    ensures var s := Run(cfg, Init(cfg), actions).value;
            AllDone(s) <==> exists t :: Reaches(cfg, s, t) && t.main.Returned?
  {
    var s := Run(cfg, Init(cfg), actions).value;
    InitOk(cfg);
    RunKeeps(cfg, Init(cfg), actions);
    if AllDone(s) {
      ReachesSelf(cfg, s);
      ReachStep(cfg, s, s, MainStep);
      if s.main.Load? {
        ReachStep(cfg, s, Step(cfg, s, MainStep).value, MainStep);
      }
    } else {
      UndoneIsBlocked(cfg, s);
      var i: nat :| Blocked(cfg, s, i);
      forall t | Reaches(cfg, s, t)
        ensures !t.main.Returned?
      {
        var more :| Run(cfg, s, more) == Some(t);
        BlockedForever(cfg, s, more, i);
      }
    }
  }

  /** The join can indeed block, with a single server: main sees the count before the worker notifies. At
      that moment the loaded result is still UNKNOWN. */
  lemma JoinCanBlock(cfg: Config)
    requires cfg.Valid() && |cfg.devices| == 1
    ensures exists s :: Reaches(cfg, Init(cfg), s) && s.main.Join? && !AllDone(s) && s.main.result.state == UNKNOWN
  {
    var s0 := Init(cfg);
    ReachesSelf(cfg, s0);
    ReachStep(cfg, s0, s0, Work(0, StartFails));
    var s1 := Step(cfg, s0, Work(0, StartFails)).value;
    ReachStep(cfg, s0, s1, Work(0, Proceed));
    var s2 := Step(cfg, s1, Work(0, Proceed)).value;
    ReachStep(cfg, s0, s2, MainStep);
    var s3 := Step(cfg, s2, MainStep).value;
    ReachStep(cfg, s0, s3, MainStep);
    var s4 := Step(cfg, s3, MainStep).value;
    ReachStep(cfg, s0, s4, MainStep);
    var s5 := Step(cfg, s4, MainStep).value;
    assert s5.workers[0].Comparing?;
  }

  // ----- A result that is returned is never UNKNOWN -----

  predicate WillDecide(w: Worker) {
    w.Storing? || w.Comparing? || w.Rechecking? || w.Overwriting?
  }

  ghost predicate KnownInv(cfg: Config, s: World) {
    && Decided(cfg, s)
    && (s.main.Join? && s.main.result.state == UNKNOWN ==> exists i: nat :: Blocked(cfg, s, i))
    && (s.main.Returned? ==> s.main.result.state != UNKNOWN)
  }

  /** A worker that has yet to decide either does so in its step, or still has to. */
  lemma DeciderGoesOn(cfg: Config, s: World, i: nat)
    requires i < |s.workers| && (s.workers[i].Counting? || WillDecide(s.workers[i]))
             && s.workers[i].result.state != UNKNOWN
    requires s.workers[i].Counting? || s.completed == |cfg.devices|
    ensures var t := EpilogueStep(cfg, s, i);
            t.Some? && (t.value.current.state != UNKNOWN || WillDecide(t.value.workers[i]))
  {
  }

  /** The result is known, or some worker has yet to decide it. */
  ghost predicate Decided(cfg: Config, s: World) {
    s.completed == |cfg.devices| ==>
      s.current.state != UNKNOWN || exists i :: 0 <= i < |s.workers| && WillDecide(s.workers[i])
  }

  lemma RunStepKeepsDecided(cfg: Config, s: World, i: nat, choice: Choice)
    requires i < |s.workers| && i < |s.servers| && i < |cfg.devices| && Decided(cfg, s)
    requires RunStep(cfg, s, i, choice).Some?
    ensures Decided(cfg, RunStep(cfg, s, i, choice).value)
  {
    var t := RunStep(cfg, s, i, choice).value;
    if s.completed == |cfg.devices| && s.current.state == UNKNOWN {
      var j :| 0 <= j < |s.workers| && WillDecide(s.workers[j]);
      assert t.workers[j] == s.workers[j];
    }
  }

  lemma EpilogueStepKeepsDecided(cfg: Config, s: World, i: nat)
    requires i < |s.workers| && Decided(cfg, s) && EpilogueStep(cfg, s, i).Some?
    requires HasResult(s.workers[i]) ==> s.workers[i].result.state != UNKNOWN
    ensures Decided(cfg, EpilogueStep(cfg, s, i).value)
  {
    var t := EpilogueStep(cfg, s, i).value;
    if t.completed == |cfg.devices| && t.current.state == UNKNOWN {
      if s.workers[i].Counting? || WillDecide(s.workers[i]) {
        DeciderGoesOn(cfg, s, i);
      } else {
        var j :| 0 <= j < |s.workers| && WillDecide(s.workers[j]);
        assert t.workers[j] == s.workers[j];
      }
    }
  }

  lemma WorkKeepsDecided(cfg: Config, s: World, i: nat, choice: Choice)
    requires DataInv(cfg, s) && Decided(cfg, s) && Step(cfg, s, Work(i, choice)).Some?
    ensures Decided(cfg, Step(cfg, s, Work(i, choice)).value)
  {
    hide Decided;
    assert WorkerOk(cfg, s.servers, i, s.workers[i]);
    if RunStep(cfg, s, i, choice).Some? {
      RunStepKeepsDecided(cfg, s, i, choice);
    } else {
      EpilogueStepKeepsDecided(cfg, s, i);
    }
  }

  lemma StepKeepsKnown(cfg: Config, s: World, a: Action)
    requires SyncInv(cfg, s) && DataInv(cfg, s) && KnownInv(cfg, s) && Step(cfg, s, a).Some?
    ensures KnownInv(cfg, Step(cfg, s, a).value)
  {
    var t := Step(cfg, s, a).value;
    if a.Work? {
      WorkKeepsDecided(cfg, s, a.i, a.choice);
    }
    if t.main.Join? && t.main.result.state == UNKNOWN {
      if s.main.Load? && a.MainStep? {
        var i :| 0 <= i < |s.workers| && WillDecide(s.workers[i]);
        assert Blocked(cfg, t, i);
      } else {
        var i: nat :| Blocked(cfg, s, i);
        BlockedStays(cfg, s, a, i);
      }
    }
  }

  lemma {:induction false} RunKeepsKnown(cfg: Config, s: World, actions: seq<Action>)
    requires SyncInv(cfg, s) && DataInv(cfg, s) && KnownInv(cfg, s) && Run(cfg, s, actions).Some?
    ensures KnownInv(cfg, Run(cfg, s, actions).value)
    decreases |actions|
  {
    if actions != [] {
      StepKeepsSync(cfg, s, actions[0]);
      StepKeepsData(cfg, s, actions[0]);
      StepKeepsKnown(cfg, s, actions[0]);
      RunKeepsKnown(cfg, Step(cfg, s, actions[0]).value, actions[1..]);
    }
  }

  /** In every interleaving, a result that `GetResult` returns is not UNKNOWN. */
  lemma ReturnedIsKnown(cfg: Config, actions: seq<Action>)
    requires cfg.Valid() && Run(cfg, Init(cfg), actions).Some?
    requires Run(cfg, Init(cfg), actions).value.main.Returned?
    ensures Run(cfg, Init(cfg), actions).value.main.result.state != UNKNOWN
  {
    InitOk(cfg);
    RunKeepsKnown(cfg, Init(cfg), actions);
  }

  // ----- Epilogues that are not interrupted -----

  /** Steps of worker `i` alone, until it is done. */
  function Epilogue(cfg: Config, s: World, i: nat, steps: nat): Option<World>
    requires i < |s.workers|
    decreases steps
  {
    if s.workers[i] == Done then Some(s)
    else if steps == 0 then None
    else
      match EpilogueStep(cfg, s, i)
      case None => None
      case Some(t) => Epilogue(cfg, t, i, steps - 1)
  }

  const EPILOGUE_STEPS := 8

  /** One step of a run in which every epilogue happens as one. */
  datatype Block = Single(a: Action) | Whole(i: nat)

  predicate InEpilogue(w: Worker) {
    w.Counting? || Counted(w)
  }

  function BlockStep(cfg: Config, s: World, b: Block): Option<World> {
    match b
    case Whole(i) =>
      if i < |s.workers| && s.workers[i].Counting? && (s.completed + 1 == |cfg.devices| ==> s.mutex == Free)
      then Epilogue(cfg, s, i, EPILOGUE_STEPS) else None
    case Single(a) =>
      if a.Work? && a.i < |s.workers| && InEpilogue(s.workers[a.i]) then None else Step(cfg, s, a)
  }

  function FinishedBy(s: World, finished: seq<UnlockResult>, b: Block): seq<UnlockResult> {
    if b.Whole? && b.i < |s.workers| && s.workers[b.i].Counting? then finished + [s.workers[b.i].result] else finished
  }

  /** Runs blocks, collecting the results of the workers in the order in which they finish. */
  function RunBlocks(cfg: Config, s: World, finished: seq<UnlockResult>, blocks: seq<Block>)
    : Option<(World, seq<UnlockResult>)>
    decreases |blocks|
  {
    if blocks == [] then Some((s, finished))
    else
      match BlockStep(cfg, s, blocks[0])
      case None => None
      case Some(t) =>
        RunBlocks(cfg, t, FinishedBy(s, finished, blocks[0]), blocks[1..])
  }

  function LastSuccess(finished: seq<UnlockResult>): Option<UnlockResult> {
    if finished == [] then None
    else if finished[|finished| - 1].state == SUCCESS then Some(finished[|finished| - 1])
    else LastSuccess(finished[..|finished| - 1])
  }

  /** The current result after these workers, of `n`, have finished. */
  function Verdict(finished: seq<UnlockResult>, n: nat): UnlockResult {
    match LastSuccess(finished)
    case Some(r) => r
    case None => if 0 < |finished| == n then finished[n - 1] else NO_RESULT
  }

  lemma {:induction false} LastSuccessIsASuccess(finished: seq<UnlockResult>)
    ensures LastSuccess(finished).Some? <==> exists k :: 0 <= k < |finished| && finished[k].state == SUCCESS
    ensures LastSuccess(finished).Some? ==>
              LastSuccess(finished).value in finished && LastSuccess(finished).value.state == SUCCESS
  {
    if finished != [] {
      var n := |finished| - 1;
      LastSuccessIsASuccess(finished[..n]);
      assert forall k :: 0 <= k < n ==> finished[k] == finished[..n][k];
    }
  }

  function Woke(main: Main): Main {
    if main == Asleep then Woken else main
  }

  lemma EpilogueFromLocking(cfg: Config, s: World, i: nat, steps: nat)
    requires i < |s.workers| && s.workers[i] == Locking && s.mutex == Free && steps >= 3
    ensures Epilogue(cfg, s, i, steps) == Some(SetWorker(s, i, Done).(main := Woke(s.main)))
  {
    var s1 := EpilogueStep(cfg, s, i).value;
    var s2 := EpilogueStep(cfg, s1, i).value;
    var s3 := EpilogueStep(cfg, s2, i).value;
    assert Epilogue(cfg, s, i, steps) == Epilogue(cfg, s1, i, steps - 1) == Epilogue(cfg, s2, i, steps - 2);
    assert Epilogue(cfg, s2, i, steps - 2) == Epilogue(cfg, s3, i, steps - 3) == Some(s3);
    assert s3.workers == s.workers[i := Done];
  }

  lemma EpilogueFromComparing(cfg: Config, s: World, i: nat, r: UnlockResult, steps: nat)
    requires i < |s.workers| && s.workers[i] == Comparing(r) && steps >= 6
    requires s.completed == |cfg.devices| ==> s.mutex == Free
    ensures Epilogue(cfg, s, i, steps)
         == Some(if s.completed != |cfg.devices| then SetWorker(s, i, Done)
                 else SetWorker(s, i, Done).(main := Woke(s.main),
                                             current := if s.current.state == SUCCESS then s.current else r))
  {
    var s1 := EpilogueStep(cfg, s, i).value;
    assert Epilogue(cfg, s, i, steps) == Epilogue(cfg, s1, i, steps - 1);
    if s.completed == |cfg.devices| {
      var s2 := EpilogueStep(cfg, s1, i).value;
      assert Epilogue(cfg, s1, i, steps - 1) == Epilogue(cfg, s2, i, steps - 2);
      if s.current.state != SUCCESS {
        var s3 := EpilogueStep(cfg, s2, i).value;
        assert Epilogue(cfg, s2, i, steps - 2) == Epilogue(cfg, s3, i, steps - 3);
        EpilogueFromLocking(cfg, s3, i, steps - 3);
        assert s3.workers[i := Done] == s.workers[i := Done];
      } else {
        EpilogueFromLocking(cfg, s2, i, steps - 2);
        assert s2.workers[i := Done] == s.workers[i := Done];
      }
    }
  }

  /** The effect of a whole epilogue. */
  lemma EpilogueEffect(cfg: Config, s: World, i: nat, r: UnlockResult)
    requires i < |s.workers| && s.workers[i] == Counting(r)
    requires s.completed + 1 == |cfg.devices| ==> s.mutex == Free
    ensures var last := s.completed + 1 == |cfg.devices|;
            Epilogue(cfg, s, i, EPILOGUE_STEPS)
            == Some(SetWorker(s, i, Done).(completed := s.completed + 1,
                                           main := if last then Woke(s.main) else s.main,
                                           current := if r.state == SUCCESS || (last && s.current.state != SUCCESS)
                                                      then r else s.current))
  {
    var s1 := EpilogueStep(cfg, s, i).value;
    assert Epilogue(cfg, s, i, 8) == Epilogue(cfg, s1, i, 7);
    if r.state == SUCCESS {
      var s2 := EpilogueStep(cfg, s1, i).value;
      assert Epilogue(cfg, s1, i, 7) == Epilogue(cfg, s2, i, 6);
      EpilogueFromComparing(cfg, s2, i, r, 6);
      assert s2.workers[i := Done] == s.workers[i := Done];
    } else {
      EpilogueFromComparing(cfg, s1, i, r, 7);
      assert s1.workers[i := Done] == s.workers[i := Done];
    }
  }

  ghost predicate BlockInv(cfg: Config, s: World, finished: seq<UnlockResult>) {
    && SyncInv(cfg, s) && DataInv(cfg, s)
    && (forall i :: 0 <= i < |s.workers| ==> (Counted(s.workers[i]) ==> s.workers[i] == Done))
    && |finished| == s.completed
    && (forall k :: 0 <= k < |finished| ==> finished[k].state != UNKNOWN)
    && s.current == Verdict(finished, |cfg.devices|)
    && (s.main.Join? || s.main.Returned? ==> s.main.result == s.current)
  }

  lemma {:induction false} EpilogueKeeps(cfg: Config, s: World, i: nat, steps: nat)
    requires SyncInv(cfg, s) && DataInv(cfg, s) && i < |s.workers| && Epilogue(cfg, s, i, steps).Some?
    ensures SyncInv(cfg, Epilogue(cfg, s, i, steps).value) && DataInv(cfg, Epilogue(cfg, s, i, steps).value)
    decreases steps
  {
    if s.workers[i] != Done {
      EpilogueStepKeepsSync(cfg, s, i);
      EpilogueStepKeepsData(cfg, s, i);
      EpilogueKeeps(cfg, EpilogueStep(cfg, s, i).value, i, steps - 1);
    }
  }

  lemma VerdictGrows(finished: seq<UnlockResult>, r: UnlockResult, n: nat)
    requires |finished| < n
    ensures var v := Verdict(finished, n);
            Verdict(finished + [r], n)
            == if r.state == SUCCESS || (|finished| + 1 == n && v.state != SUCCESS) then r else v
  {
    assert (finished + [r])[..|finished|] == finished;
    LastSuccessIsASuccess(finished);
  }

  lemma NeverBlocked(cfg: Config, s: World, i: nat, finished: seq<UnlockResult>)
    requires BlockInv(cfg, s, finished) && i < |s.workers| && s.workers[i].Counting?
    ensures s.completed < |cfg.devices| && !s.main.Load? && !s.main.Join? && !s.main.Returned?
  {
    SomeoneUncounted(s.workers);
    if s.completed == |cfg.devices| {
      AllCounted(s.workers, i);
    }
  }

  lemma SingleKeeps(cfg: Config, s: World, finished: seq<UnlockResult>, a: Action)
    requires BlockInv(cfg, s, finished) && BlockStep(cfg, s, Single(a)).Some?
    ensures BlockInv(cfg, BlockStep(cfg, s, Single(a)).value, finished)
  {
    hide Verdict, SyncInv, DataInv;
    StepKeepsSync(cfg, s, a);
    StepKeepsData(cfg, s, a);
    var t := Step(cfg, s, a).value;
    assert t.current == s.current && t.completed == s.completed;
  }

  lemma WholeKeeps(cfg: Config, s: World, finished: seq<UnlockResult>, i: nat)
    requires BlockInv(cfg, s, finished) && BlockStep(cfg, s, Whole(i)).Some?
    ensures BlockInv(cfg, BlockStep(cfg, s, Whole(i)).value, finished + [s.workers[i].result])
  {
    hide Epilogue;
    hide Verdict;
    var r := s.workers[i].result;
    NeverBlocked(cfg, s, i, finished);
    EpilogueKeeps(cfg, s, i, EPILOGUE_STEPS);
    EpilogueEffect(cfg, s, i, r);
    VerdictGrows(finished, r, |cfg.devices|);
    assert WorkerOk(cfg, s.servers, i, s.workers[i]);
  }

  lemma BlockStepKeeps(cfg: Config, s: World, finished: seq<UnlockResult>, b: Block)
    requires BlockInv(cfg, s, finished) && BlockStep(cfg, s, b).Some?
    ensures BlockInv(cfg, BlockStep(cfg, s, b).value, FinishedBy(s, finished, b))
  {
    match b
    case Single(a) => SingleKeeps(cfg, s, finished, a);
    case Whole(i) => WholeKeeps(cfg, s, finished, i);
  }

  lemma {:induction false} BlocksKeep(cfg: Config, s: World, finished: seq<UnlockResult>, blocks: seq<Block>)
    requires BlockInv(cfg, s, finished) && RunBlocks(cfg, s, finished, blocks).Some?
    ensures var (t, all) := RunBlocks(cfg, s, finished, blocks).value; BlockInv(cfg, t, all)
    decreases |blocks|
  {
    if blocks != [] {
      BlockStepKeeps(cfg, s, finished, blocks[0]);
      BlocksKeep(cfg, BlockStep(cfg, s, blocks[0]).value, FinishedBy(s, finished, blocks[0]), blocks[1..]);
    }
  }

  /** With uninterrupted epilogues, for any number of servers and any order of completion: the result is
      a success if any worker had one, and otherwise that of the last worker to finish. It is never
      UNKNOWN, and the join finds every worker done. */
  lemma UninterruptedResult(cfg: Config, blocks: seq<Block>)
    requires cfg.Valid() && RunBlocks(cfg, Init(cfg), [], blocks).Some?
    requires var s := RunBlocks(cfg, Init(cfg), [], blocks).value.0; s.main.Join? || s.main.Returned?
    ensures var (s, finished) := RunBlocks(cfg, Init(cfg), [], blocks).value;
            && |finished| == |cfg.devices| && AllDone(s)
            && s.main.result == Verdict(finished, |cfg.devices|)
            && (if exists k :: 0 <= k < |finished| && finished[k].state == SUCCESS
                then s.main.result.state == SUCCESS && s.main.result in finished
                else s.main.result == finished[|finished| - 1])
            && s.main.result.state != UNKNOWN
  {
    InitOk(cfg);
    BlocksKeep(cfg, Init(cfg), [], blocks);
    var (s, finished) := RunBlocks(cfg, Init(cfg), [], blocks).value;
    LastSuccessIsASuccess(finished);
    forall i | 0 <= i < |s.workers|
      ensures s.workers[i] == Done
    {
      AllCounted(s.workers, i);
    }
  }

  /** What the workers share, as uninterrupted epilogues update it. */
  class SharedResult {
    const cell: AtomicUnlockResult
    const numServers: nat
    var completed: nat
    ghost var finished: seq<UnlockResult>

    ghost predicate Valid()
      reads this, cell
    {
      completed == |finished| <= numServers && cell.data == Verdict(finished, numServers)
    }

    constructor (numServers: nat)
      requires numServers > 0
      ensures Valid() && fresh(cell) && finished == [] && this.numServers == numServers
    {
      cell := new AtomicUnlockResult();
      this.numServers, completed, finished := numServers, 0, [];
    }

    /** The epilogue of a worker with result `r`. The cell holds the last success so far or, when all have
        finished without one, the result of the last to finish. */
    method Finish(r: UnlockResult) returns (notifies: bool)
      requires Valid() && completed < numServers
      modifies this, cell
      ensures Valid() && finished == old(finished) + [r] && notifies == (completed == numServers)
    {
      VerdictGrows(finished, r, numServers);
      completed, finished := completed + 1, finished + [r];
      if r.state == SUCCESS {
        cell.Store(r);
      }
      notifies := completed == numServers;
      if notifies {
        var current := cell.Load();
        if current.state != SUCCESS {
          cell.Store(r);
        }
      }
    }
  }

  // ----- With interruptions, a success can be lost -----

  predicate HasSuccess(w: Worker) {
    HasResult(w) && w.result.state == SUCCESS
  }

  /** At some point of the run, a worker held a success. */
  ghost predicate Succeeded(cfg: Config, actions: seq<Action>) {
    exists k :: 0 <= k <= |actions| && SucceededAt(cfg, actions[..k])
  }

  ghost predicate SucceededAt(cfg: Config, actions: seq<Action>) {
    match Run(cfg, Init(cfg), actions)
    case None => false
    case Some(s) => exists i :: 0 <= i < |s.workers| && HasSuccess(s.workers[i])
  }

  ghost predicate Returns(cfg: Config, actions: seq<Action>, state: UnlockState) {
    match Run(cfg, Init(cfg), actions)
    case None => false
    case Some(s) => s.main.Returned? && s.main.result.state == state
  }

  /** Whenever a worker has had a success and `GetResult` returns, it returns a success. */
  ghost predicate SuccessWins(cfg: Config) {
    forall actions, state :: Succeeded(cfg, actions) && Returns(cfg, actions, state) ==> state == SUCCESS
  }

  // One server

  /** The only worker has a success; what is in the cell and what main has read is this success or UNKNOWN. */
  predicate Won(s: World) {
    && |s.workers| == 1
    && (HasSuccess(s.workers[0]) || s.workers[0].Locking? || s.workers[0].Notifying? || s.workers[0].Unlocking?
        || s.workers[0].Done?)
    && !s.workers[0].Overwriting?
    && s.current.state == (if s.workers[0].Counting? || s.workers[0].Storing? then UNKNOWN else SUCCESS)
    && (s.main.Join? || s.main.Returned? ==> s.main.result.state == UNKNOWN || s.main.result.state == SUCCESS)
  }

  predicate AloneInv(s: World) {
    && |s.workers| == 1
    && (HasSuccess(s.workers[0]) ==> Won(s))
    && (!Counted(s.workers[0]) ==>
          s.completed == 0 && !s.main.Load? && !s.main.Join? && !s.main.Returned? && s.current.state == UNKNOWN)
  }

  lemma StepKeepsWon(cfg: Config, s: World, a: Action)
    requires Won(s) && Step(cfg, s, a).Some?
    ensures Won(Step(cfg, s, a).value)
  {
  }

  lemma StepKeepsAlone(cfg: Config, s: World, a: Action)
    requires |cfg.devices| == 1 && AloneInv(s) && Step(cfg, s, a).Some?
    ensures AloneInv(Step(cfg, s, a).value)
  {
    if HasSuccess(s.workers[0]) {
      StepKeepsWon(cfg, s, a);
    }
  }

  lemma {:induction false} RunKeepsWon(cfg: Config, s: World, actions: seq<Action>)
    requires Won(s) && Run(cfg, s, actions).Some?
    ensures Won(Run(cfg, s, actions).value)
    decreases |actions|
  {
    if actions != [] {
      StepKeepsWon(cfg, s, actions[0]);
      RunKeepsWon(cfg, Step(cfg, s, actions[0]).value, actions[1..]);
    }
  }

  lemma {:induction false} RunKeepsAlone(cfg: Config, s: World, actions: seq<Action>)
    requires |cfg.devices| == 1 && AloneInv(s) && Run(cfg, s, actions).Some?
    ensures AloneInv(Run(cfg, s, actions).value)
    decreases |actions|
  {
    if actions != [] {
      StepKeepsAlone(cfg, s, actions[0]);
      RunKeepsAlone(cfg, Step(cfg, s, actions[0]).value, actions[1..]);
    }
  }

  lemma {:induction false} RunSplits(cfg: Config, s: World, first: seq<Action>, more: seq<Action>)
    requires Run(cfg, s, first).Some?
    ensures Run(cfg, s, first + more) == Run(cfg, Run(cfg, s, first).value, more)
    decreases |first|
  {
    if first == [] {
      assert first + more == more;
    } else {
      assert (first + more)[1..] == first[1..] + more;
      RunSplits(cfg, Step(cfg, s, first[0]).value, first[1..], more);
    }
  }

  lemma OneServerKeepsSuccess(cfg: Config, actions: seq<Action>, state: UnlockState)
    requires cfg.Valid() && |cfg.devices| == 1 && Succeeded(cfg, actions) && Returns(cfg, actions, state)
    ensures state == SUCCESS
  {
    hide Step, Won;
    var k :| 0 <= k <= |actions| && SucceededAt(cfg, actions[..k]);
    var s := Run(cfg, Init(cfg), actions[..k]).value;
    RunKeepsAlone(cfg, Init(cfg), actions[..k]);
    RunSplits(cfg, Init(cfg), actions[..k], actions[k..]);
    assert actions[..k] + actions[k..] == actions;
    RunKeepsWon(cfg, s, actions[k..]);
    ReturnedIsKnown(cfg, actions);
  }

  // Two servers or more

  const FAILURE := UnlockResult(START_ERROR, NO_DEVICE, "")

  /** `n` workers: the first, the last, and between them those before `k` done and the others starting. */
  function Crowd(n: nat, k: nat, first: Worker, last: Worker): seq<Worker> {
    seq(n, i => if i == 0 then first else if i == n - 1 then last else if i < k then Done else Starting)
  }

  lemma CrowdSet(n: nat, k: nat, first: Worker, last: Worker, w: Worker)
    requires n >= 2
    ensures Crowd(n, k, first, last)[0 := w] == Crowd(n, k, w, last)
    ensures Crowd(n, k, first, last)[n - 1 := w] == Crowd(n, k, first, w)
  {
  }

  lemma CrowdFirst(n: nat, first: Worker, last: Worker)
    requires n >= 2
    ensures |Crowd(n, n - 1, first, last)| == n
    ensures Crowd(n, n - 1, first, last)[0] == first && Crowd(n, n - 1, first, last)[n - 1] == last
  {
  }

  /** The world while the first and the last worker and main are all that matters. */
  function Duel(v: seq<Server>, first: Worker, last: Worker, current: UnlockResult, mutex: Owner, main: Main): World
    requires v != []
  {
    World(v, Crowd(|v|, |v| - 1, first, last), current, |v|, mutex, main)
  }

  lemma Go(cfg: Config, s: World, t: World, a: Action, u: World)
    requires Reaches(cfg, s, t) && Step(cfg, t, a) == Some(u)
    ensures Reaches(cfg, s, u)
  {
    ReachStep(cfg, s, t, a);
  }

  /** A step of the first worker (`w` is what it becomes), and one of the last. */
  lemma FirstGoes(cfg: Config, s0: World, s: World, t: World, first: Worker, last: Worker, w: Worker)
    requires |cfg.devices| == |cfg.tokens| == |s.servers| >= 2
             && s.workers == Crowd(|s.servers|, |s.servers| - 1, first, last)
    requires InEpilogue(first) && Reaches(cfg, s0, s) && |s.workers| > 0
    requires EpilogueStep(cfg, s, 0) == Some(t.(workers := s.workers[0 := w]))
    requires t.workers == Crowd(|s.servers|, |s.servers| - 1, w, last)
    ensures Reaches(cfg, s0, t)
  {
    CrowdSet(|s.servers|, |s.servers| - 1, first, last, w);
    CrowdFirst(|s.servers|, first, last);
    hide Reaches, Crowd;
    Go(cfg, s0, s, Work(0, Proceed), t);
  }

  lemma LastGoes(cfg: Config, s0: World, s: World, t: World, first: Worker, last: Worker, w: Worker)
    requires |cfg.devices| == |cfg.tokens| == |s.servers| >= 2
             && s.workers == Crowd(|s.servers|, |s.servers| - 1, first, last)
    requires InEpilogue(last) && Reaches(cfg, s0, s) && |s.workers| == |s.servers|
    requires EpilogueStep(cfg, s, |s.servers| - 1) == Some(t.(workers := s.workers[|s.servers| - 1 := w]))
    requires t.workers == Crowd(|s.servers|, |s.servers| - 1, first, w)
    ensures Reaches(cfg, s0, t)
  {
    CrowdSet(|s.servers|, |s.servers| - 1, first, last, w);
    CrowdFirst(|s.servers|, first, last);
    hide Reaches, Crowd;
    Go(cfg, s0, s, Work(|s.servers| - 1, Proceed), t);
  }

  /** Server 0's phone answers correctly, its worker reads that and counts itself. */
  lemma FirstWorkerSucceeds(cfg: Config, p: Packet)
    requires cfg.Valid() && |cfg.devices| >= 2 && StoresData(p) && Proves(cfg.tokens[0], p, p.fields.password)
    ensures exists v :: |v| == |cfg.devices| && Reaches(cfg, Init(cfg),
              World(v, Crowd(|v|, 1, Storing(UnlockResult(SUCCESS, cfg.devices[0], p.fields.password)), Starting),
                  NO_RESULT, 1, Free, Begin))
  {
    hide Reaches;
    var s0, go := Init(cfg), Work(0, Proceed);
    ReachesSelf(cfg, s0);
    ReachStep(cfg, s0, s0, Receive(0, p));
    var s1 := Step(cfg, s0, Receive(0, p)).value;
    ReachStep(cfg, s0, s1, Publish(0));
    var s2 := Step(cfg, s1, Publish(0)).value;
    ReachStep(cfg, s0, s2, go);
    var s3 := Step(cfg, s2, go).value;
    ReachStep(cfg, s0, s3, go);
    var s4 := Step(cfg, s3, go).value;
    ReachStep(cfg, s0, s4, go);
    var s5 := Step(cfg, s4, go).value;
    ReachStep(cfg, s0, s5, go);
    var s6 := Step(cfg, s5, go).value;
    ReachStep(cfg, s0, s6, go);
    var s7 := Step(cfg, s6, go).value;
    assert s7.workers == Crowd(|cfg.devices|, 1, s7.workers[0], Starting);
  }

  /** The workers between the first and the last fail to start, one after the other. */
  lemma {:induction false} OthersFail(cfg: Config, s0: World, v: seq<Server>, r: UnlockResult, k: nat)
    requires |cfg.devices| == |cfg.tokens| == |v| && 1 <= k < |v|
    requires Reaches(cfg, s0, World(v, Crowd(|v|, 1, Storing(r), Starting), NO_RESULT, 1, Free, Begin))
    ensures Reaches(cfg, s0, World(v, Crowd(|v|, k, Storing(r), Starting), NO_RESULT, k, Free, Begin))
  {
    hide Reaches;
    if k > 1 {
      var i := k - 1;
      OthersFail(cfg, s0, v, r, i);
      var s1 := World(v, Crowd(|v|, i, Storing(r), Starting), NO_RESULT, i, Free, Begin);
      var s2 := SetWorker(s1, i, Counting(FAILURE));
      Go(cfg, s0, s1, Work(i, StartFails), s2);
      var s3 := SetWorker(s2, i, Comparing(FAILURE)).(completed := k);
      Go(cfg, s0, s2, Work(i, Proceed), s3);
      var s4 := World(v, Crowd(|v|, k, Storing(r), Starting), NO_RESULT, k, Free, Begin);
      assert SetWorker(s3, i, Done).workers == s4.workers;
      Go(cfg, s0, s3, Work(i, Proceed), s4);
    }
  }

  /** The last worker fails to start and counts itself. */
  lemma LastWorkerFails(cfg: Config, s0: World, v: seq<Server>, r: UnlockResult)
    requires |cfg.devices| == |cfg.tokens| == |v| >= 2
    requires Reaches(cfg, s0, World(v, Crowd(|v|, |v| - 1, Storing(r), Starting), NO_RESULT, |v| - 1, Free, Begin))
    ensures Reaches(cfg, s0, Duel(v, Storing(r), Comparing(FAILURE), NO_RESULT, Free, Begin))
  {
    hide Reaches, Crowd;
    var n := |v|;
    CrowdFirst(n, Storing(r), Starting);
    CrowdFirst(n, Storing(r), Counting(FAILURE));
    var s1 := World(v, Crowd(n, n - 1, Storing(r), Starting), NO_RESULT, n - 1, Free, Begin);
    var s2 := World(v, Crowd(n, n - 1, Storing(r), Counting(FAILURE)), NO_RESULT, n - 1, Free, Begin);
    CrowdSet(n, n - 1, Storing(r), Starting, Counting(FAILURE));
    Go(cfg, s0, s1, Work(n - 1, StartFails), s2);
    var s3 := Duel(v, Storing(r), Comparing(FAILURE), NO_RESULT, Free, Begin);
    LastGoes(cfg, s0, s2, s3, Storing(r), Counting(FAILURE), Comparing(FAILURE));
  }

  /** It finds itself last, and sees no success yet. */
  lemma LastWorkerDecides(cfg: Config, s0: World, v: seq<Server>, r: UnlockResult)
    requires |cfg.devices| == |cfg.tokens| == |v| >= 2
    requires Reaches(cfg, s0, Duel(v, Storing(r), Comparing(FAILURE), NO_RESULT, Free, Begin))
    ensures Reaches(cfg, s0, Duel(v, Storing(r), Overwriting(FAILURE), NO_RESULT, Free, Begin))
  {
    hide Reaches, Crowd;
    CrowdFirst(|v|, Storing(r), Comparing(FAILURE));
    CrowdFirst(|v|, Storing(r), Rechecking(FAILURE));
    var s3 := Duel(v, Storing(r), Comparing(FAILURE), NO_RESULT, Free, Begin);
    var s4 := Duel(v, Storing(r), Rechecking(FAILURE), NO_RESULT, Free, Begin);
    LastGoes(cfg, s0, s3, s4, Storing(r), Comparing(FAILURE), Rechecking(FAILURE));
    var s5 := Duel(v, Storing(r), Overwriting(FAILURE), NO_RESULT, Free, Begin);
    LastGoes(cfg, s0, s4, s5, Storing(r), Rechecking(FAILURE), Overwriting(FAILURE));
  }

  /** The first worker stores its success and is satisfied with it; then the last one overwrites it. */
  lemma SuccessIsOverwritten(cfg: Config, s0: World, v: seq<Server>, r: UnlockResult)
    requires |cfg.devices| == |cfg.tokens| == |v| >= 2 && r.state == SUCCESS
    requires Reaches(cfg, s0, Duel(v, Storing(r), Overwriting(FAILURE), NO_RESULT, Free, Begin))
    ensures Reaches(cfg, s0, Duel(v, Locking, Locking, FAILURE, Free, Begin))
  {
    hide Reaches, Crowd;
    var last := Overwriting(FAILURE);
    CrowdFirst(|v|, Storing(r), last);
    CrowdFirst(|v|, Comparing(r), last);
    CrowdFirst(|v|, Rechecking(r), last);
    CrowdFirst(|v|, Locking, last);
    var s1 := Duel(v, Storing(r), last, NO_RESULT, Free, Begin);
    var s2 := Duel(v, Comparing(r), last, r, Free, Begin);
    FirstGoes(cfg, s0, s1, s2, Storing(r), last, Comparing(r));
    var s3 := Duel(v, Rechecking(r), last, r, Free, Begin);
    FirstGoes(cfg, s0, s2, s3, Comparing(r), last, Rechecking(r));
    var s4 := Duel(v, Locking, last, r, Free, Begin);
    FirstGoes(cfg, s0, s3, s4, Rechecking(r), last, Locking);
    LastGoes(cfg, s0, s4, Duel(v, Locking, Locking, FAILURE, Free, Begin), Locking, last, Locking);
  }

  /** The first worker takes the mutex, notifies and is done, and then the last, while main has not begun. */
  lemma FirstLeaves(cfg: Config, s0: World, v: seq<Server>, r: UnlockResult)
    requires |cfg.devices| == |cfg.tokens| == |v| >= 2
    requires Reaches(cfg, s0, Duel(v, Locking, Locking, r, Free, Begin))
    ensures Reaches(cfg, s0, Duel(v, Done, Locking, r, Free, Begin))
  {
    hide Reaches, Crowd;
    var s1 := Duel(v, Notifying, Locking, r, ByWorker(0), Begin);
    CrowdFirst(|v|, Locking, Locking);
    FirstGoes(cfg, s0, Duel(v, Locking, Locking, r, Free, Begin), s1, Locking, Locking, Notifying);
    var s2 := Duel(v, Unlocking, Locking, r, ByWorker(0), Begin);
    CrowdFirst(|v|, Notifying, Locking);
    FirstGoes(cfg, s0, s1, s2, Notifying, Locking, Unlocking);
    CrowdFirst(|v|, Unlocking, Locking);
    FirstGoes(cfg, s0, s2, Duel(v, Done, Locking, r, Free, Begin), Unlocking, Locking, Done);
  }

  lemma LastLeaves(cfg: Config, s0: World, v: seq<Server>, r: UnlockResult)
    requires |cfg.devices| == |cfg.tokens| == |v| >= 2
    requires Reaches(cfg, s0, Duel(v, Done, Locking, r, Free, Begin))
    ensures Reaches(cfg, s0, Duel(v, Done, Done, r, Free, Begin))
  {
    hide Reaches, Crowd;
    var n := |v|;
    var s1 := Duel(v, Done, Notifying, r, ByWorker(n - 1), Begin);
    CrowdFirst(n, Done, Locking);
    LastGoes(cfg, s0, Duel(v, Done, Locking, r, Free, Begin), s1, Done, Locking, Notifying);
    var s2 := Duel(v, Done, Unlocking, r, ByWorker(n - 1), Begin);
    CrowdFirst(n, Done, Notifying);
    LastGoes(cfg, s0, s1, s2, Done, Notifying, Unlocking);
    CrowdFirst(n, Done, Unlocking);
    LastGoes(cfg, s0, s2, Duel(v, Done, Done, r, Free, Begin), Done, Unlocking, Done);
  }

  lemma MainReturns(cfg: Config, s0: World, v: seq<Server>, r: UnlockResult)
    requires |cfg.devices| == |cfg.tokens| == |v| >= 2
    requires Reaches(cfg, s0, Duel(v, Done, Done, r, Free, Begin))
    ensures Reaches(cfg, s0, Duel(v, Done, Done, r, Free, Returned(r)))
  {
    var s1 := Duel(v, Done, Done, r, ByMain, Examine);
    Go(cfg, s0, Duel(v, Done, Done, r, Free, Begin), MainStep, s1);
    var s2 := s1.(main := Load);
    Go(cfg, s0, s1, MainStep, s2);
    var s3 := s1.(main := Join(r));
    Go(cfg, s0, s2, MainStep, s3);
    Go(cfg, s0, s3, MainStep, Duel(v, Done, Done, r, Free, Returned(r)));
  }

  /** From the first worker's success to the other one's error. */
  lemma SuccessGetsLost(cfg: Config, v: seq<Server>, r: UnlockResult)
    requires |cfg.devices| == |cfg.tokens| == |v| >= 2 && r.state == SUCCESS
    ensures Reaches(cfg, World(v, Crowd(|v|, 1, Storing(r), Starting), NO_RESULT, 1, Free, Begin),
                    Duel(v, Done, Done, FAILURE, Free, Returned(FAILURE)))
  {
    hide Reaches, Crowd;
    var s := World(v, Crowd(|v|, 1, Storing(r), Starting), NO_RESULT, 1, Free, Begin);
    ReachesSelf(cfg, s);
    OthersFail(cfg, s, v, r, |v| - 1);
    LastWorkerFails(cfg, s, v, r);
    LastWorkerDecides(cfg, s, v, r);
    SuccessIsOverwritten(cfg, s, v, r);
    FirstLeaves(cfg, s, v, FAILURE);
    LastLeaves(cfg, s, v, FAILURE);
    MainReturns(cfg, s, v, FAILURE);
  }

  lemma SuccessThenError(cfg: Config, s: World, t: World, i: nat)
    requires Reaches(cfg, Init(cfg), s) && Reaches(cfg, s, t)
    requires i < |s.workers| && HasSuccess(s.workers[i]) && t.main == Returned(FAILURE)
    ensures exists actions :: Succeeded(cfg, actions) && Returns(cfg, actions, START_ERROR)
  {
    hide Step;
    var first :| Run(cfg, Init(cfg), first) == Some(s);
    var more :| Run(cfg, s, more) == Some(t);
    RunSplits(cfg, Init(cfg), first, more);
    assert SucceededAt(cfg, first) && (first + more)[..|first|] == first;
    assert Succeeded(cfg, first + more) && Returns(cfg, first + more, START_ERROR);
  }

  /** With two servers or more, of which the first gets a genuine success, `GetResult` can return the
      START_ERROR of the last. */
  lemma SuccessCanBeLost(cfg: Config, p: Packet)
    requires cfg.Valid() && |cfg.devices| >= 2 && StoresData(p) && Proves(cfg.tokens[0], p, p.fields.password)
    ensures exists actions :: Succeeded(cfg, actions) && Returns(cfg, actions, START_ERROR)
  {
    var r := UnlockResult(SUCCESS, cfg.devices[0], p.fields.password);
    FirstWorkerSucceeds(cfg, p);
    hide Reaches, Succeeded, Returns;
    var v :| |v| == |cfg.devices|
        && Reaches(cfg, Init(cfg), World(v, Crowd(|v|, 1, Storing(r), Starting), NO_RESULT, 1, Free, Begin));
    SuccessGetsLost(cfg, v, r);
    SuccessThenError(cfg, World(v, Crowd(|v|, 1, Storing(r), Starting), NO_RESULT, 1, Free, Begin),
                     Duel(v, Done, Done, FAILURE, Free, Returned(FAILURE)), 0);
  }

  /** A success wins in every run exactly when there is only one server. */
  lemma SuccessWinsIffAlone(cfg: Config)
    requires cfg.Valid()
    ensures SuccessWins(cfg) <==> |cfg.devices| == 1
  {
    if |cfg.devices| == 1 {
      forall actions, state | Succeeded(cfg, actions) && Returns(cfg, actions, state)
        ensures state == SUCCESS
      {
        OneServerKeepsSuccess(cfg, actions, state);
      }
    } else {
      SuccessCanBeLost(cfg, Fields("response", OK, ResponseData(cfg.tokens[0], "password")));
    }
  }
}
