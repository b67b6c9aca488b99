/** The workers package's mock runner: the same scheduling and rollback
    over an executor pool and a verifier pool, with execution and
    verification outcomes drawn at random (inputs here). It differs from
    the other runners in that it never checks whether the run is on, writes
    a status to the first chain entry with the id, keeps only the id,
    dependencies and status of each layout entry, and leaves running tasks
    alone on stop. */
module MockRunner {
  import opened Wrappers
  import opened Json
  import opened Scheduling
  import opened SlotStatuses
  import SlotPool
  import opened ChainCache

  /** Scheduling regardless of the run flag; statuses on the first entry
      with the id. */
  const Mock: Flavor := Flavor(false, FirstInChain)

  const Verifying: Value := Str("verifying")
  const VerificationFailed: Value := Str("verification-failed")

  const FreshExec: SlotPool.Pool := SlotPool.Init(SlotPool.ThreeState, SlotPool.WorkersExecutorCapacity)
  const FreshVer: SlotPool.Pool := SlotPool.Init(SlotPool.ThreeState, SlotPool.WorkersVerifierCapacity)

  /** The runner: the shared bookkeeping, both pools and whether a
      (non-empty) layout is loaded. The failure limit is fixed. */
  datatype State = State(core: Core, exec: SlotPool.Pool, ver: SlotPool.Pool, hasLayout: bool)

  const Initial: State := State(Core(false, [], {}, {}, {}, {}, map[], map[]), FreshExec, FreshVer, false)

  /** `if verifier_id:` on a slot number that may be absent. */
  predicate Held(slot: Option<int>) {
    slot.Some? && slot.value != 0
  }

  // ---------------------------------------------------------------------
  // Statuses on the first entry

  /** The first chain entry with the id: the one `_update_task_status`
      writes. */
  function FirstIdx(chain: seq<RTask>, id: string): (r: Option<nat>)
    ensures r.None? <==> id !in Ids(chain)
    ensures r.Some? ==> IsFirst(chain, r.value) && chain[r.value].id == id
    decreases |chain|
  {
    if |chain| == 0 then None
    else if chain[0].id == id then Some(0)
    else
      var r := FirstIdx(chain[1..], id);
      assert Ids(chain) == Ids(chain[1..]) + {chain[0].id} by {
        forall x | x in Ids(chain) ensures x in Ids(chain[1..]) + {chain[0].id} {
          var i :| 0 <= i < |chain| && chain[i].id == x;
          if i > 0 { assert chain[1..][i - 1] == chain[i]; }
        }
      }
      if r.None? then None else Some(r.value + 1)
  }

  /** The status of the first entry with the id. */
  function FirstStatus(chain: seq<RTask>, id: string): Value
    requires id in Ids(chain)
  {
    chain[FirstIdx(chain, id).value].status
  }

  /** Writing on first entries, a written id reads back the new status and
      any other id its old one. */
  lemma WriteFirstReads(chain: seq<RTask>, ids: set<string>, status: Value, id: string)
    requires id in Ids(chain)
    ensures id in Ids(WriteStatus(chain, ids, status, FirstInChain))
    ensures FirstStatus(WriteStatus(chain, ids, status, FirstInChain), id) ==
      (if id in ids then status else FirstStatus(chain, id))
  {
    var r := WriteStatus(chain, ids, status, FirstInChain);
    WriteKeepsIds(chain, ids, status, FirstInChain);
    var k := FirstIdx(chain, id).value;
    var m := FirstIdx(r, id).value;
    assert IsFirst(r, k);
    FirstUnique(r, k, m);
  }

  /** Two entries that are both first with the same id are the same entry. */
  lemma FirstUnique(chain: seq<RTask>, k: int, m: int)
    requires IsFirst(chain, k) && IsFirst(chain, m) && chain[k].id == chain[m].id
    ensures k == m
  {
  }

  // ---------------------------------------------------------------------
  // set_timetable_layout_cache and start_mock_execution

  /** `set_timetable_layout_cache`: accepted even while running. The chain
      is rebuilt from the grid and the isolated tasks with only id,
      dependencies and status; an error raised on the way leaves the entries
      built before it. */
  function SetTimetableLayout(s: State, layout: Dict): (r: (State, Option<string>))
    ensures r.0 == s.(hasLayout := layout != map[], core := s.core.(chain := r.0.core.chain))
  {
    var built := GridChain(layout, map[], {});
    (s.(hasLayout := layout != map[], core := s.core.(chain := built.0)), built.1)
  }

  /** Every entry holds just an id, its dependencies and a status (the
      layout's, else `undone`): as a dict it has exactly those three keys.
      A grid of list rows read without error gives the entries in row-major
      order, then the isolated tasks. */
  lemma SetTimetableLayoutMeaning(s: State, layout: Dict, rows: seq<Value>, iso: seq<Value>)
    ensures var r := SetTimetableLayout(s, layout);
      forall k :: 0 <= k < |r.0.core.chain| ==>
        r.0.core.chain[k].attrs == map[] && Truthy(r.0.core.chain[k].status) &&
        TaskDict(r.0.core.chain[k]).Keys == {"task_id", "dependencies", "status"}
    ensures ("grid" in layout && layout["grid"] == Arr(rows) &&
             (forall i :: 0 <= i < |rows| ==> rows[i].Arr? || !Truthy(rows[i])) &&
             Or(Get(layout, "isolatedTasks"), Arr([])) == Arr(iso) &&
             SetTimetableLayout(s, layout).1.None?) ==>
      ChainIds(SetTimetableLayout(s, layout).0.core.chain) == LayoutIds(Flatten(rows) + iso)
  {
    GridChainEntries(layout, map[], {});
    if "grid" in layout && layout["grid"] == Arr(rows) &&
       (forall i :: 0 <= i < |rows| ==> rows[i].Arr? || !Truthy(rows[i])) &&
       Or(Get(layout, "isolatedTasks"), Arr([])) == Arr(iso) {
      GridChainOrder(layout, rows, iso, map[], {});
    }
  }

  /** `start_mock_execution`: a running runner, an empty chain or a missing
      layout is refused; otherwise both pools are re-initialised, every
      entry becomes `undone`, the bookkeeping is rebuilt and every ready
      task launched. */
  function Start(s: State): (r: (State, Option<string>))
    ensures r.1.Some? <==> s.core.isRunning || s.core.chain == [] || !s.hasLayout
    ensures r.1.Some? ==> r.0 == s
  {
    if s.core.isRunning then (s, Some("Execution is already running"))
    else if s.core.chain == [] then (s, Some("No execution map cache found. Please generate execution map first."))
    else if !s.hasLayout then (s, Some("No timetable layout cache found. Please generate execution map first."))
    else (s.(core := LaunchReady(ResetCore(ResetAll(s.core.chain, Undone))), exec := FreshExec, ver := FreshVer), None)
  }

  /** A started run has fresh pools and every entry `undone` with its id
      and dependencies kept; every task is pending, nothing is running,
      completed or counted, and exactly the ready tasks are launched. */
  lemma StartMeaning(s: State)
    requires Start(s).1.None?
    ensures var c := Start(s).0.core;
      c.isRunning && |c.chain| == |s.core.chain| &&
      (forall k :: 0 <= k < |c.chain| ==> c.chain[k] == s.core.chain[k].(status := Undone)) &&
      Ids(c.chain) == Ids(s.core.chain) && c.pending == Ids(s.core.chain) &&
      c.running == {} && c.completed == {} && c.failures == map[] &&
      c.index == BuildIndex(c.chain) && c.handles == ReadyIds(c.(handles := {})) &&
      Start(s).0.exec == FreshExec && Start(s).0.ver == FreshVer
  {
    var r := ResetAll(s.core.chain, Undone);
    forall x | x in Ids(s.core.chain) ensures x in Ids(r) {
      var i :| 0 <= i < |s.core.chain| && s.core.chain[i].id == x;
      assert r[i].id == x;
    }
  }

  // ---------------------------------------------------------------------
  // One task's coroutine

  /** Where an executor-slot request leaves the coroutine: holding slot
      `slot`, to wait and ask again, or given up with the task marked done. */
  datatype SlotWait = Holding(s: State, slot: int) | Wait | GaveUp(s: State)

  /** One pass of the executor-slot loop, after `tries` failed attempts;
      the run flag is not consulted. */
  function TryAcquire(s: State, t: string, tries: nat): (r: SlotWait)
    ensures r.Wait? <==> tries < SlotAttempts && forall i :: 0 <= i < |s.exec.slots| ==> s.exec.slots[i].status != Idle
    ensures r.GaveUp? <==> tries >= SlotAttempts
  {
    if tries >= SlotAttempts then GaveUp(s.(core := Abandon(s.core, t, Done, Mock)))
    else
      var a := SlotPool.Assign(s.exec, t);
      if a.1.Some? then Holding(s.(exec := a.0, core := Begin(s.core, t, Mock)), a.1.value)
      else Wait
  }

  /** A task that gets an executor slot is running, its first entry
      `doing`, and the slot busy with it; one given up counts as completed
      with its first entry `done`, without having run. */
  lemma TryAcquireMeaning(s: State, t: string, tries: nat)
    requires t in Ids(s.core.chain) && SlotPool.WellFormed(s.exec)
    ensures var r := TryAcquire(s, t, tries);
      (r.Holding? ==> 1 <= r.slot <= s.exec.capacity && r.s.exec.slots[r.slot - 1] == SlotPool.Slot(r.slot, Busy, Some(t)) &&
                      t in r.s.core.running && t in Ids(r.s.core.chain) && FirstStatus(r.s.core.chain, t) == Doing) &&
      (r.GaveUp? ==> t in r.s.core.completed && t !in r.s.core.pending && t !in r.s.core.running &&
                     t in Ids(r.s.core.chain) && FirstStatus(r.s.core.chain, t) == Done && r.s.exec == s.exec)
  {
    var r := TryAcquire(s, t, tries);
    if r.Holding? {
      SlotPool.AssignGivesSlot(s.exec, t);
      WriteFirstReads(s.core.chain, {t}, Doing, t);
    } else if r.GaveUp? {
      AbandonMeaning(s.core, t, Done, Mock);
      AbandonChain(s.core, t, Done);
      WriteFirstReads(s.core.chain, {t}, Done, t);
    }
  }

  /** Abandoning writes the status on the first entry and keeps the chain
      otherwise. */
  lemma AbandonChain(c: Core, t: string, status: Value)
    ensures Abandon(c, t, status, Mock).chain == WriteStatus(c.chain, {t}, status, FirstInChain)
  {
    var c1 := c.(completed := c.completed + {t}, running := c.running - {t}, pending := c.pending - {t},
                 chain := WriteStatus(c.chain, {t}, status, FirstInChain));
    ScheduleMeaning(c1, DependentIds(c1, t), Mock);
  }

  /** `_rollback_task` with its side effects: each member's slot in both
      pools is released, one `release_by_task_id` per member. */
  function RollbackStep(s: State, task: RTask): (r: State)
    ensures r.hasLayout == s.hasLayout
    ensures r.exec == SlotPool.ReleaseAll(s.exec, RollbackMembers(s.core, task)) && r.ver == SlotPool.ReleaseAll(s.ver, RollbackMembers(s.core, task))
    ensures forall m :: m in RollbackMembers(s.core, task) ==> SlotPool.FreesFirstOf(s.exec, r.exec, m) && SlotPool.FreesFirstOf(s.ver, r.ver, m)
  {
    var members := RollbackMembers(s.core, task);
    SlotPool.ReleaseAllFreesEach(s.exec, members);
    SlotPool.ReleaseAllFreesEach(s.ver, members);
    s.(core := Rollback(s.core, task, Mock),
       exec := SlotPool.ReleaseAll(s.exec, members),
       ver := SlotPool.ReleaseAll(s.ver, members))
  }

  /** The rollback set of the workers runner is the task, its dependencies
      and everything downstream of them; each member the task map knows is
      pending, its first entry `undone`, relaunched when its dependencies
      are complete (whether or not the run is on); its first bound slot in
      either pool is freed when a release can free it, and while no task
      holds two slots of a pool it is left on no busy or failed slot there. */
  lemma RollbackStepMeaning(s: State, task: RTask, m: string)
    requires m in RollbackSet(s.core, task) && m in Ids(s.core.chain)
    ensures var r := RollbackStep(s, task);
      m in r.core.pending && m !in r.core.running && m !in r.core.completed && m !in r.core.failures &&
      m in Ids(r.core.chain) && FirstStatus(r.core.chain, m) == Undone &&
      (m in r.core.handles <==> Satisfied(TaskOf(r.core.chain, m), r.core.completed)) &&
      SlotPool.FreesFirstOf(s.exec, r.exec, m) && SlotPool.FreesFirstOf(s.ver, r.ver, m) &&
      (SlotPool.UniqueBindings(s.exec) ==> SlotPool.NoReleasableOf(r.exec, m)) &&
      (SlotPool.UniqueBindings(s.ver) ==> SlotPool.NoReleasableOf(r.ver, m))
  {
    var members := RollbackMembers(s.core, task);
    assert m in members;
    RollbackMeaning(s.core, task, Mock, m);
    RollbackChain(s.core, task);
    WriteFirstReads(s.core.chain, members, Undone, m);
    SlotPool.ReleaseAllFrees(s.exec, members, m);
    SlotPool.ReleaseAllFrees(s.ver, members, m);
  }

  /** A rollback writes `undone` on the first entry of each member. */
  lemma RollbackChain(c: Core, task: RTask)
    ensures Rollback(c, task, Mock).chain == WriteStatus(c.chain, RollbackMembers(c, task), Undone, FirstInChain)
  {
    var members := RollbackMembers(c, task);
    ScheduleMeaning(ResetMembers(c, members, Mock), members, Mock);
  }

  /** A failed attempt: the status is written on the first entry and
      counted, the slot marked failed and released (in `pool`, the pool it
      was taken from); retried or, at the limit, rolled back. */
  function FailStep(s: State, t: string, status: Value): Step<State>
    requires t in Ids(s.core.chain)
  {
    var f := Fail(s.core, t, status, DefaultMaxFailures, Mock);
    var s1 := s.(core := f.0);
    if f.1 then Retry(s1) else RolledBack(RollbackStep(s1, TaskOf(s.core.chain, t)))
  }

  /** The execution half of `_execute_task`, holding executor slot `slot`,
      with the drawn outcome. */
  function Execute(s: State, t: string, slot: int, passed: bool): Step<State>
    requires t in Ids(s.core.chain)
  {
    if passed then
      Continue(s.(exec := SlotPool.Release(s.exec, t).0,
                  core := s.core.(chain := WriteStatus(s.core.chain, {t}, Verifying, FirstInChain))))
    else
      FailStep(s.(exec := SlotPool.Release(SlotPool.SetStatus(s.exec, slot, Failed), t).0), t, ExecutionFailed)
  }

  /** Where a verifier-slot request leaves the coroutine. */
  datatype VerifierWait = WaitVerifier | WithVerifier(s: State, slot: Option<int>)

  /** One pass of the verifier-slot loop; after the last attempt
      verification goes ahead without a slot. */
  function AcquireVerifier(s: State, t: string, tries: nat): (r: VerifierWait)
    ensures r.WaitVerifier? <==> tries < SlotAttempts && forall i :: 0 <= i < |s.ver.slots| ==> s.ver.slots[i].status != Idle
    ensures r.WithVerifier? && r.slot.None? <==> tries >= SlotAttempts
    ensures r.WithVerifier? ==> r.s.core == s.core && r.s.exec == s.exec
  {
    if tries >= SlotAttempts then WithVerifier(s, None)
    else
      var a := SlotPool.Assign(s.ver, t);
      if a.1.Some? then WithVerifier(s.(ver := a.0), a.1) else WaitVerifier
  }

  /** The verification half of `_execute_task`, with the verifier slot (if
      any) and the drawn outcome. */
  function Verify(s: State, t: string, slot: Option<int>, passed: bool): Step<State>
    requires t in Ids(s.core.chain)
  {
    if passed then
      Finished(s.(ver := if Held(slot) then SlotPool.Release(s.ver, t).0 else s.ver, core := Succeed(s.core, t, Mock)))
    else
      FailStep(s.(ver := if Held(slot) then SlotPool.Release(SlotPool.SetStatus(s.ver, slot.value, Failed), t).0 else s.ver),
               t, VerificationFailed)
  }

  /** Execution and verification failures follow the same rule: the count
      goes from k to k + 1, the first entry takes the failure status, and
      the task is retried exactly while k < 2 (the fixed limit of three),
      otherwise rolled back. */
  lemma FailStepMeaning(s: State, t: string, status: Value)
    requires t in Ids(s.core.chain)
    ensures var r := FailStep(s, t, status);
      (r.Retry? || r.RolledBack?) &&
      (r.Retry? <==> FailureCount(s.core, t) < DefaultMaxFailures - 1) &&
      (r.Retry? ==> FailureCount(r.s.core, t) == FailureCount(s.core, t) + 1 && t !in r.s.core.running &&
                    t !in r.s.core.completed && t in Ids(r.s.core.chain) && FirstStatus(r.s.core.chain, t) == status &&
                    r.s.exec == s.exec && r.s.ver == s.ver)
  {
    WriteFirstReads(s.core.chain, {t}, status, t);
  }

  /** Passing execution gives back the executor slot and moves on to
      verification with the first entry `verifying`; failing is a failed
      attempt with `execution-failed`, after which the slot `slot` (the
      task's only one) is idle and unbound. */
  lemma ExecuteMeaning(s: State, t: string, slot: int, passed: bool)
    requires t in Ids(s.core.chain)
    ensures var r := Execute(s, t, slot, passed);
      (r.Continue? <==> passed) &&
      (r.Continue? ==> t in Ids(r.s.core.chain) && FirstStatus(r.s.core.chain, t) == Verifying &&
                       r.s.core.running == s.core.running && r.s.ver == s.ver) &&
      (!passed ==> r == FailStep(s.(exec := SlotPool.Release(SlotPool.SetStatus(s.exec, slot, Failed), t).0), t, ExecutionFailed)) &&
      (!passed && r.Retry? && SlotPool.WellFormed(s.exec) && SlotPool.UniqueBindings(s.exec) && SlotPool.BoundTo(s.exec, t) == {slot - 1} ==>
         r.s.exec.slots[slot - 1] == SlotPool.Slot(slot, Idle, None))
  {
    if passed {
      WriteFirstReads(s.core.chain, {t}, Verifying, t);
    } else if SlotPool.WellFormed(s.exec) && SlotPool.UniqueBindings(s.exec) && SlotPool.BoundTo(s.exec, t) == {slot - 1} {
      SlotPool.FailThenRelease(s.exec, t, slot);
    }
  }

  /** Passing verification completes the task, first entry `done`, and
      gives back the verifier slot; every ready task is then launched,
      whether or not the run is on. Failing is a failed attempt with
      `verification-failed`; without a verifier slot the pool is untouched. */
  lemma VerifyMeaning(s: State, t: string, slot: Option<int>, passed: bool)
    requires t in Ids(s.core.chain)
    ensures var r := Verify(s, t, slot, passed);
      (r.Finished? <==> passed) &&
      (r.Finished? ==> t in r.s.core.completed && t !in r.s.core.pending && t !in r.s.core.running &&
                       t !in r.s.core.failures && t in Ids(r.s.core.chain) && FirstStatus(r.s.core.chain, t) == Done &&
                       r.s.exec == s.exec && r.s.ver == (if Held(slot) then SlotPool.Release(s.ver, t).0 else s.ver)) &&
      (!passed ==> r == FailStep(s.(ver := if Held(slot) then SlotPool.Release(SlotPool.SetStatus(s.ver, slot.value, Failed), t).0 else s.ver),
                                 t, VerificationFailed))
  {
    if passed {
      SucceedMeaning(s.core, t, Mock);
      var c1 := s.core.(running := s.core.running - {t}, completed := s.core.completed + {t}, pending := s.core.pending - {t},
                        chain := WriteStatus(s.core.chain, {t}, Done, FirstInChain), failures := s.core.failures - {t});
      assert Succeed(s.core, t, Mock).chain == c1.chain;
      WriteFirstReads(s.core.chain, {t}, Done, t);
    }
  }

  /** `_handle_task_error`: both slots released; the task counts as
      completed with its first entry `verifying`, and its dependents are
      offered to scheduling. */
  function HandleError(s: State, t: string): (r: State)
    ensures t in r.core.completed && t !in r.core.running && t !in r.core.pending
  {
    AbandonMeaning(s.core, t, Verifying, Mock);
    s.(exec := SlotPool.Release(s.exec, t).0, ver := SlotPool.Release(s.ver, t).0,
       core := Abandon(s.core, t, Verifying, Mock))
  }

  /** The delayed write the error handler leaves behind: the first entry
      becomes `done`. */
  function DelayedDone(s: State, t: string): (r: State)
    ensures r == s.(core := r.core) && r.core == s.core.(chain := r.core.chain)
  {
    s.(core := s.core.(chain := WriteStatus(s.core.chain, {t}, Done, FirstInChain)))
  }

  /** After the error handler the first entry reads `verifying`, and after
      the delayed write `done`; other tasks' first entries are untouched. */
  lemma HandleErrorMeaning(s: State, t: string, x: string)
    requires t in Ids(s.core.chain) && x in Ids(s.core.chain)
    ensures var r := HandleError(s, t);
      x in Ids(r.core.chain) && FirstStatus(r.core.chain, x) == (if x == t then Verifying else FirstStatus(s.core.chain, x)) &&
      x in Ids(DelayedDone(r, t).core.chain) &&
      FirstStatus(DelayedDone(r, t).core.chain, x) == (if x == t then Done else FirstStatus(s.core.chain, x))
  {
    AbandonChain(s.core, t, Verifying);
    var c1 := WriteStatus(s.core.chain, {t}, Verifying, FirstInChain);
    WriteFirstReads(s.core.chain, {t}, Verifying, x);
    WriteFirstReads(c1, {t}, Done, x);
  }

  // ---------------------------------------------------------------------
  // stop, stop_async and the end of a run

  /** `stop` and `stop_async`: not running, each launched task released
      once in both pools, no handles — but running tasks stay running and
      nothing is cancelled. */
  function Stop(s: State): (r: State)
    ensures !r.core.isRunning && r.core.handles == {}
    ensures r.core == s.core.(isRunning := false, handles := {})
    ensures r.exec == SlotPool.ReleaseAll(s.exec, s.core.handles) && r.ver == SlotPool.ReleaseAll(s.ver, s.core.handles)
    ensures forall m :: m in s.core.handles ==> SlotPool.FreesFirstOf(s.exec, r.exec, m) && SlotPool.FreesFirstOf(s.ver, r.ver, m)
  {
    SlotPool.ReleaseAllFreesEach(s.exec, s.core.handles);
    SlotPool.ReleaseAllFreesEach(s.ver, s.core.handles);
    s.(core := s.core.(isRunning := false, handles := {}),
       exec := SlotPool.ReleaseAll(s.exec, s.core.handles),
       ver := SlotPool.ReleaseAll(s.ver, s.core.handles))
  }

  /** The end of `start_mock_execution`: the wait ignores the run flag and
      ends only when there are at least as many completed tasks as chain
      entries and none running; then both pools are re-initialised. */
  function Finish(s: State): (r: Option<State>)
    ensures r.None? <==> |s.core.completed| < |s.core.chain| || s.core.running != {}
    ensures r.Some? ==> !r.value.core.isRunning && r.value.exec == FreshExec && r.value.ver == FreshVer
  {
    if |s.core.completed| < |s.core.chain| || s.core.running != {} then None
    else Some(s.(core := s.core.(isRunning := false), exec := FreshExec, ver := FreshVer))
  }

  /** Stopping does not end a run with tasks still running. */
  lemma StopKeepsWaiting(s: State)
    requires s.core.running != {}
    ensures Finish(Stop(s)).None?
  {
  }

  // ---------------------------------------------------------------------
  // The runner invariant

  /** No task is both pending and completed; both pools keep their kind
      and shape. */
  ghost predicate Inv(s: State) {
    Disjoint(s.core) &&
    SlotPool.WellFormed(s.exec) && s.exec.kind == SlotPool.ThreeState &&
    SlotPool.WellFormed(s.ver) && s.ver.kind == SlotPool.ThreeState
  }

  lemma InitialInv()
    ensures Inv(Initial)
  {
  }

  lemma SetupKeepsInv(s: State, layout: Dict)
    requires Inv(s)
    ensures Inv(SetTimetableLayout(s, layout).0)
    ensures Inv(Start(s).0)
    ensures Inv(Stop(s))
    ensures Finish(s).Some? ==> Inv(Finish(s).value)
  {
    assert Inv(Stop(s)) by {
      SlotPool.ReleaseAllKeepsWellFormed(s.exec, s.core.handles);
      SlotPool.ReleaseAllKeepsWellFormed(s.ver, s.core.handles);
    }
    if Start(s).1.None? {
      var c := ResetCore(ResetAll(s.core.chain, Undone));
      assert c.pending !! c.completed;
    }
  }

  lemma AcquireKeepsInv(s: State, t: string, tries: nat)
    requires Inv(s)
    ensures var r := TryAcquire(s, t, tries); (r.Holding? || r.GaveUp?) ==> Inv(r.s)
    ensures var r := AcquireVerifier(s, t, tries); r.WithVerifier? ==> Inv(r.s)
  {
    SlotPool.OperationsKeepWellFormed(s.exec, t, 0, Busy);
    SlotPool.OperationsKeepWellFormed(s.ver, t, 0, Busy);
    AbandonMeaning(s.core, t, Done, Mock);
  }

  lemma HandleErrorKeepsInv(s: State, t: string)
    requires Inv(s)
    ensures Inv(HandleError(s, t))
    ensures Inv(DelayedDone(s, t))
  {
    SlotPool.OperationsKeepWellFormed(s.exec, t, 0, Busy);
    SlotPool.OperationsKeepWellFormed(s.ver, t, 0, Busy);
    AbandonMeaning(s.core, t, Verifying, Mock);
  }

  lemma RollbackKeepsInv(s: State, task: RTask)
    requires Inv(s)
    ensures Inv(RollbackStep(s, task))
  {
    var members := RollbackMembers(s.core, task);
    SlotPool.ReleaseAllKeepsWellFormed(s.exec, members);
    SlotPool.ReleaseAllKeepsWellFormed(s.ver, members);
    StepsKeepDisjoint(s.core, "", task, Null, 0, Mock, {});
  }

  lemma FailStepKeepsInv(s: State, t: string, status: Value)
    requires Inv(s) && t in Ids(s.core.chain)
    ensures Inv(FailStep(s, t, status).s)
  {
    var f := Fail(s.core, t, status, DefaultMaxFailures, Mock);
    assert Inv(s.(core := f.0));
    if !f.1 {
      RollbackKeepsInv(s.(core := f.0), TaskOf(s.core.chain, t));
    }
  }


  lemma ExecuteKeepsInv(s: State, t: string, slot: int, passed: bool)
    requires Inv(s) && t in Ids(s.core.chain)
    ensures Inv(Execute(s, t, slot, passed).s)
  {
    if passed {
      SlotPool.OperationsKeepWellFormed(s.exec, t, slot, Failed);
    } else {
      var e := SlotPool.Release(SlotPool.SetStatus(s.exec, slot, Failed), t).0;
      SlotPool.FailedReleaseKeepsPool(s.exec, t, slot);
      FailStepKeepsInv(s.(exec := e), t, ExecutionFailed);
    }
  }

  lemma VerifyKeepsInv(s: State, t: string, slot: Option<int>, passed: bool)
    requires Inv(s) && t in Ids(s.core.chain)
    ensures Inv(Verify(s, t, slot, passed).s)
  {
    if passed {
      assert SlotPool.WellFormed(SlotPool.Release(s.ver, t).0) by {
        SlotPool.OperationsKeepWellFormed(s.ver, t, 0, Failed);
      }
      SucceedMeaning(s.core, t, Mock);
    } else {
      var v := if Held(slot) then SlotPool.Release(SlotPool.SetStatus(s.ver, slot.value, Failed), t).0 else s.ver;
      assert SlotPool.WellFormed(v) && v.kind == s.ver.kind by {
        if Held(slot) { SlotPool.FailedReleaseKeepsPool(s.ver, t, slot.value); }
      }
      FailStepKeepsInv(s.(ver := v), t, VerificationFailed);
    }
  }
}
