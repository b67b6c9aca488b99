/** The executor package's runner: the same scheduling and rollback as the
    task agent's runner, but with two slot pools — a task holds an executor
    slot while it executes and gives it back before looking for a validator
    slot. Validation is a coin toss in this runner, so its outcome is an
    input, as are the outcome of resolving inputs and calling the LLM. */
module SplitRunner {
  import opened Wrappers
  import opened Json
  import opened Scheduling
  import opened SlotStatuses
  import SlotPool
  import Artifacts
  import opened ChainCache

  /** This runner refuses to schedule once stopped and writes statuses
      through its task map. */
  const Split: Flavor := Flavor(true, ViaTaskMap)

  /** The executor and validator pools as (re)initialised. */
  const FreshExec: SlotPool.Pool := SlotPool.Init(SlotPool.FourState, SlotPool.ExecutorPoolCapacity)
  const FreshVal: SlotPool.Pool := SlotPool.Init(SlotPool.ThreeState, SlotPool.ValidatorPoolCapacity)

  /** The runner: the shared bookkeeping, both pools, the failure limit,
      whether a (non-empty) layout is loaded, the plan id and the saved task
      outputs of that plan. */
  datatype State = State(
    core: Core,
    exec: SlotPool.Pool,
    val: SlotPool.Pool,
    maxFailures: int,
    hasLayout: bool,
    planId: Option<string>,
    store: map<string, Value>)

  /** A runner as constructed. */
  const Initial: State := State(Core(false, [], {}, {}, {}, {}, map[], map[]), FreshExec, FreshVal, DefaultMaxFailures, false, None, map[])

  /** `self.plan_id or ""` */
  function PlanArg(s: State): string {
    if s.planId.Some? then s.planId.value else ""
  }

  /** `if validator_id:` on a slot number that may be absent. */
  predicate Held(slot: Option<int>) {
    slot.Some? && slot.value != 0
  }

  // ---------------------------------------------------------------------
  // set_layout

  /** `set_layout`: refused while running. Otherwise the layout, the plan
      id and an empty chain are stored first, then the chain is built from
      the grid and the isolated tasks; an error raised on the way leaves the
      entries built before it. */
  function SetLayout(s: State, layout: Dict, planId: Option<string>, execution: Option<Dict>): (r: (State, Option<string>))
    ensures s.core.isRunning ==> r.0 == s && r.1.Some?
    ensures !s.core.isRunning ==>
      r.0.hasLayout == (layout != map[]) && r.0.planId == planId &&
      r.0.core == s.core.(chain := r.0.core.chain) && r.0.exec == s.exec && r.0.val == s.val && r.0.store == s.store
  {
    if s.core.isRunning then (s, Some("Cannot set layout while execution is running"))
    else
      var base := s.(hasLayout := layout != map[], planId := planId, core := s.core.(chain := []));
      match ExecutionTasks(execution)
      case Err(e) => (base, Some(e))
      case Ok(byId) =>
        var built := GridChain(layout, byId, AttrKeys);
        (base.(core := base.core.(chain := built.0)), built.1)
  }

  /** A grid of list rows read without error gives one entry per listed
      cell in row-major order, then one per isolated task; every entry has a
      truthy status and the four copied fields. */
  lemma SetLayoutOrder(s: State, layout: Dict, planId: Option<string>, execution: Option<Dict>, rows: seq<Value>, iso: seq<Value>)
    requires !s.core.isRunning && ExecutionTasks(execution).Ok?
    requires "grid" in layout && layout["grid"] == Arr(rows)
    requires forall i :: 0 <= i < |rows| ==> rows[i].Arr? || !Truthy(rows[i])
    requires Or(Get(layout, "isolatedTasks"), Arr([])) == Arr(iso)
    ensures var r := SetLayout(s, layout, planId, execution);
      (r.1.None? ==> ChainIds(r.0.core.chain) == LayoutIds(Flatten(rows) + iso)) &&
      forall k :: 0 <= k < |r.0.core.chain| ==> Truthy(r.0.core.chain[k].status) && r.0.core.chain[k].attrs.Keys == AttrKeys
  {
    var byId := ExecutionTasks(execution).value;
    GridChainOrder(layout, rows, iso, byId, AttrKeys);
    GridChainEntries(layout, byId, AttrKeys);
  }

  // ---------------------------------------------------------------------
  // start_execution

  /** `start_execution`: the failure limit from the configuration is taken
      first; then a running runner, an empty chain or a missing layout is
      refused. Otherwise both pools are re-initialised, every entry becomes
      `undone`, the bookkeeping is rebuilt and every ready task launched. */
  function Start(s: State, maxFailures: Option<int>): (r: (State, Option<string>))
    ensures r.0.maxFailures == (if maxFailures.Some? then maxFailures.value else s.maxFailures)
    ensures r.1.Some? <==> s.core.isRunning || s.core.chain == [] || !s.hasLayout
    ensures r.1.Some? ==> r.0 == s.(maxFailures := r.0.maxFailures)
  {
    var s1 := s.(maxFailures := if maxFailures.Some? then maxFailures.value else s.maxFailures);
    if s.core.isRunning then (s1, Some("Execution is already running"))
    else if s.core.chain == [] then (s1, Some("No execution map cache found. Please generate map first."))
    else if !s.hasLayout then (s1, Some("No timetable layout cache found. Please generate map first."))
    else (s1.(core := LaunchReady(ResetCore(ResetAll(s.core.chain, Undone))), exec := FreshExec, val := FreshVal), None)
  }

  /** A started run has fresh pools and every entry `undone` with its id
      and dependencies kept; every task is pending, nothing is running,
      completed or counted, and exactly the ready tasks are launched. */
  lemma StartMeaning(s: State, maxFailures: Option<int>)
    requires Start(s, maxFailures).1.None?
    ensures var c := Start(s, maxFailures).0.core;
      c.isRunning && |c.chain| == |s.core.chain| &&
      (forall k :: 0 <= k < |c.chain| ==> c.chain[k] == s.core.chain[k].(status := Undone)) &&
      Ids(c.chain) == Ids(s.core.chain) && c.pending == Ids(s.core.chain) &&
      c.running == {} && c.completed == {} && c.failures == map[] &&
      c.index == BuildIndex(c.chain) && c.handles == ReadyIds(c.(handles := {})) &&
      Start(s, maxFailures).0.exec == FreshExec && Start(s, maxFailures).0.val == FreshVal
  {
    ResetAllKeepsIds(s.core.chain);
  }

  /** Writing one status everywhere keeps the set of ids. */
  lemma ResetAllKeepsIds(chain: seq<RTask>)
    ensures Ids(ResetAll(chain, Undone)) == Ids(chain)
  {
    var r := ResetAll(chain, Undone);
    forall x | x in Ids(chain) ensures x in Ids(r) {
      var i :| 0 <= i < |chain| && chain[i].id == x;
      assert r[i].id == x;
    }
  }

  // ---------------------------------------------------------------------
  // One task's coroutine

  /** Where an executor-slot request leaves the coroutine: returned at once
      (the run had stopped), holding slot `slot`, to wait and ask again, or
      given up with the task marked done. */
  datatype SlotWait = NotRunning | Holding(s: State, slot: int) | Wait | GaveUp(s: State)

  /** One pass of the executor-slot loop of `_execute_task`, after `tries`
      failed attempts. */
  function TryAcquire(s: State, t: string, tries: nat): (r: SlotWait)
    ensures r.Wait? ==> (s.core.isRunning && tries < SlotAttempts &&
      forall i :: 0 <= i < |s.exec.slots| ==> s.exec.slots[i].status != Idle)
    ensures r.NotRunning? <==> tries == 0 && !s.core.isRunning
    ensures r.GaveUp? <==> (tries > 0 || s.core.isRunning) && (!s.core.isRunning || tries >= SlotAttempts)
  {
    if tries == 0 && !s.core.isRunning then NotRunning
    else if !s.core.isRunning || tries >= SlotAttempts then GaveUp(s.(core := Abandon(s.core, t, Done, Split)))
    else
      var a := SlotPool.Assign(s.exec, t);
      if a.1.Some? then Holding(s.(exec := a.0, core := Begin(s.core, t, Split)), a.1.value)
      else Wait
  }

  /** A task that gets an executor slot is running with status `doing`,
      and the slot it was given is busy with it; one given up counts as
      completed with status `done` without having run. */
  lemma TryAcquireMeaning(s: State, t: string, tries: nat)
    requires t in Ids(s.core.chain) && SlotPool.WellFormed(s.exec)
    ensures var r := TryAcquire(s, t, tries);
      (r.Holding? ==> 1 <= r.slot <= s.exec.capacity && r.s.exec.slots[r.slot - 1] == SlotPool.Slot(r.slot, Busy, Some(t)) &&
                      t in r.s.core.running && StatusOf(r.s.core.chain, t) == Doing) &&
      (r.GaveUp? ==> t in r.s.core.completed && t !in r.s.core.pending && t !in r.s.core.running &&
                     StatusOf(r.s.core.chain, t) == Done && r.s.exec == s.exec && r.s.val == s.val)
  {
    var r := TryAcquire(s, t, tries);
    if r.Holding? {
      SlotPool.AssignGivesSlot(s.exec, t);
      WriteViaMapReads(s.core.chain, {t}, Doing, t);
    } else if r.GaveUp? {
      AbandonMeaning(s.core, t, Done, Split);
    }
  }

  /** The `except` clause and `_handle_task_error` after an uncaught error:
      the task's slots in both pools are released and it counts as
      completed with status `execution-failed`. */
  function Crash(s: State, t: string): (r: State)
    ensures t in r.core.completed && t !in r.core.running && t !in r.core.pending
  {
    AbandonMeaning(s.core, t, ExecutionFailed, Split);
    s.(exec := SlotPool.Release(s.exec, t).0, val := SlotPool.Release(s.val, t).0,
       core := Abandon(s.core, t, ExecutionFailed, Split))
  }

  /** A crashed task ends `execution-failed` with its failure count kept,
      and only its ready dependents are newly launched. */
  lemma CrashMeaning(s: State, t: string)
    requires t in Ids(s.core.chain)
    ensures var r := Crash(s, t);
      StatusOf(r.core.chain, t) == ExecutionFailed && r.core.failures == s.core.failures &&
      r.core.completed == s.core.completed + {t} && s.core.handles <= r.core.handles &&
      (forall h :: h in r.core.handles - s.core.handles ==> h in Children(s.core.index, t))
  {
    AbandonMeaning(s.core, t, ExecutionFailed, Split);
  }

  /** `_rollback_task` with its side effects: each member's slot in both
      pools is released, one `release_by_task_id` per member. Saved outputs
      are kept. */
  function RollbackStep(s: State, task: RTask): (r: State)
    ensures r.store == s.store
    ensures r.exec == SlotPool.ReleaseAll(s.exec, RollbackMembers(s.core, task)) && r.val == SlotPool.ReleaseAll(s.val, RollbackMembers(s.core, task))
    ensures forall m :: m in RollbackMembers(s.core, task) ==> SlotPool.FreesFirstOf(s.exec, r.exec, m) && SlotPool.FreesFirstOf(s.val, r.val, m)
  {
    var members := RollbackMembers(s.core, task);
    SlotPool.ReleaseAllFreesEach(s.exec, members);
    SlotPool.ReleaseAllFreesEach(s.val, members);
    s.(core := Rollback(s.core, task, Split),
       exec := SlotPool.ReleaseAll(s.exec, members),
       val := SlotPool.ReleaseAll(s.val, members))
  }

  /** For each member of the rollback set that the task map knows, its
      first bound slot in either pool is freed when a release can free it
      and its other slots are untouched; while no task holds two slots of a
      pool, no member stays on a busy, validating or failed slot there. The
      bookkeeping side is `Scheduling.RollbackMeaning`. */
  lemma RollbackStepMeaning(s: State, task: RTask, m: string)
    requires m in RollbackSet(s.core, task) && m in Ids(s.core.chain)
    ensures var r := RollbackStep(s, task);
      SlotPool.FreesFirstOf(s.exec, r.exec, m) && SlotPool.FreesFirstOf(s.val, r.val, m) &&
      (SlotPool.UniqueBindings(s.exec) ==> SlotPool.NoReleasableOf(r.exec, m)) &&
      (SlotPool.UniqueBindings(s.val) ==> SlotPool.NoReleasableOf(r.val, m))
  {
    var members := RollbackMembers(s.core, task);
    assert m in members;
    SlotPool.ReleaseAllFrees(s.exec, members, m);
    SlotPool.ReleaseAllFrees(s.val, members, m);
  }

  /** An execution failure: the status is written and counted, the
      executor slot marked failed and released; the task is retried or, at
      the limit, rolled back. */
  function FailExecution(s: State, t: string, slot: int): Step<State>
    requires t in Ids(s.core.chain)
  {
    var f := Fail(s.core, t, ExecutionFailed, s.maxFailures, Split);
    var s1 := s.(core := f.0, exec := SlotPool.Release(SlotPool.SetStatus(s.exec, slot, Failed), t).0);
    if f.1 then Retry(s1) else RolledBack(RollbackStep(s1, TaskOf(s.core.chain, t)))
  }

  /** The execution half of `_execute_task`, holding executor slot `slot`.
      `result` is what resolving the inputs and calling the LLM gave (absent
      when either raised); the output is then saved under the plan. */
  function Execute(s: State, t: string, slot: int, result: Option<Value>): Step<State>
    requires t in Ids(s.core.chain)
  {
    if !Truthy(Get(TaskOf(s.core.chain, t).attrs, "output")) then Crashed(Crash(s, t))
    else if result.None? then FailExecution(s, t, slot)
    else match Artifacts.SaveTaskArtifact(PlanArg(s), t, Artifacts.ToSave(result.value), s.store)
      case Err(_) => FailExecution(s, t, slot)
      case Ok(st) => Continue(ToValidation(s, t, st))
  }

  /** The output is saved: the executor slot is handed back and the task
      goes on to validation. */
  function ToValidation(s: State, t: string, st: map<string, Value>): State {
    s.(store := st, exec := SlotPool.Release(s.exec, t).0,
       core := s.core.(chain := WriteStatus(s.core.chain, {t}, ValidatingStatus, ViaTaskMap)))
  }

  /** A failed execution is retried exactly while the failure count before
      it is below `maxFailures - 1`, and rolled back otherwise. When `t`
      held just the slot `slot`, that slot ends idle and unbound. A retried
      task has its count one higher and the failure status, and is neither
      running nor completed. */
  lemma FailExecutionMeaning(s: State, t: string, slot: int)
    requires t in Ids(s.core.chain)
    ensures var r := FailExecution(s, t, slot);
      (r.Retry? || r.RolledBack?) &&
      (r.Retry? <==> FailureCount(s.core, t) < s.maxFailures - 1) &&
      (r.Retry? ==> FailureCount(r.s.core, t) == FailureCount(s.core, t) + 1 &&
                    t !in r.s.core.running && t !in r.s.core.completed && StatusOf(r.s.core.chain, t) == ExecutionFailed) &&
      (SlotPool.WellFormed(s.exec) && SlotPool.UniqueBindings(s.exec) && SlotPool.BoundTo(s.exec, t) == {slot - 1} ==>
         0 <= slot - 1 < |r.s.exec.slots| && r.s.exec.slots[slot - 1] == SlotPool.Slot(slot, Idle, None))
  {
    var f := Fail(s.core, t, ExecutionFailed, s.maxFailures, Split);
    var e := SlotPool.Release(SlotPool.SetStatus(s.exec, slot, Failed), t).0;
    var s1 := s.(core := f.0, exec := e);
    assert FailExecution(s, t, slot) == if f.1 then Retry(s1) else RolledBack(RollbackStep(s1, TaskOf(s.core.chain, t)));
    assert f.1 ==> StatusOf(f.0.chain, t) == ExecutionFailed by {
      WriteViaMapReads(s.core.chain, {t}, ExecutionFailed, t);
    }
    if SlotPool.WellFormed(s.exec) && SlotPool.UniqueBindings(s.exec) && SlotPool.BoundTo(s.exec, t) == {slot - 1} {
      FailExecutionFreesSlot(s, t, slot);
    }
  }

  lemma FailExecutionFreesSlot(s: State, t: string, slot: int)
    requires t in Ids(s.core.chain)
    requires SlotPool.WellFormed(s.exec) && SlotPool.UniqueBindings(s.exec) && SlotPool.BoundTo(s.exec, t) == {slot - 1}
    ensures var r := FailExecution(s, t, slot);
      0 <= slot - 1 < |r.s.exec.slots| && r.s.exec.slots[slot - 1] == SlotPool.Slot(slot, Idle, None)
  {
    var f := Fail(s.core, t, ExecutionFailed, s.maxFailures, Split);
    var e := SlotPool.Release(SlotPool.SetStatus(s.exec, slot, Failed), t).0;
    var s1 := s.(core := f.0, exec := e);
    SlotPool.FailThenRelease(s.exec, t, slot);
    if !f.1 {
      IdleSlotSurvivesRollback(s1, TaskOf(s.core.chain, t), slot - 1);
    }
  }

  /** An idle, unbound executor slot is left as it is by a rollback. */
  lemma IdleSlotSurvivesRollback(s: State, task: RTask, i: nat)
    requires i < |s.exec.slots| && s.exec.slots[i].task.None?
    ensures i < |RollbackStep(s, task).exec.slots| && RollbackStep(s, task).exec.slots[i] == s.exec.slots[i]
  {
  }

  /** A task without an output spec raises and ends `execution-failed`
      and completed, with its slots in both pools released. */
  lemma ExecuteWithoutSpec(s: State, t: string, slot: int, result: Option<Value>)
    requires t in Ids(s.core.chain) && !Truthy(Get(TaskOf(s.core.chain, t).attrs, "output"))
    ensures var r := Execute(s, t, slot, result);
      r.Crashed? && StatusOf(r.s.core.chain, t) == ExecutionFailed && t in r.s.core.completed &&
      r.s.exec == SlotPool.Release(s.exec, t).0 && r.s.val == SlotPool.Release(s.val, t).0
  {
    AbandonMeaning(s.core, t, ExecutionFailed, Split);
  }

  /** With an output spec, execution goes on to validation exactly when
      the call returned and its output was saved under the plan; the
      executor slot is then given back (left unbound when it was the task's
      only, busy slot) and the task is `validating`. Otherwise the attempt
      is an execution failure. */
  lemma ExecuteWithSpec(s: State, t: string, slot: int, result: Option<Value>)
    requires t in Ids(s.core.chain) && Truthy(Get(TaskOf(s.core.chain, t).attrs, "output"))
    ensures var r := Execute(s, t, slot, result);
      (r.Continue? <==> result.Some? && Artifacts.SaveTaskArtifact(PlanArg(s), t, Artifacts.ToSave(result.value), s.store).Ok?) &&
      (r.Continue? ==> r.s.store == Artifacts.SaveTaskArtifact(PlanArg(s), t, Artifacts.ToSave(result.value), s.store).value &&
                       t in r.s.store && r.s.val == s.val && r.s.core.running == s.core.running &&
                       StatusOf(r.s.core.chain, t) == ValidatingStatus &&
                       (SlotPool.UniqueBindings(s.exec) && (forall i :: i in SlotPool.BoundTo(s.exec, t) ==> s.exec.slots[i].status == Busy) ==>
                          SlotPool.BoundTo(r.s.exec, t) == {})) &&
      (!r.Continue? ==> r == FailExecution(s, t, slot))
  {
    if result.None? {
      assert Execute(s, t, slot, result) == FailExecution(s, t, slot);
      FailExecutionMeaning(s, t, slot);
    } else {
      match Artifacts.SaveTaskArtifact(PlanArg(s), t, Artifacts.ToSave(result.value), s.store)
      case Err(_) =>
        assert Execute(s, t, slot, result) == FailExecution(s, t, slot);
        FailExecutionMeaning(s, t, slot);
      case Ok(st) =>
        assert Execute(s, t, slot, result) == Continue(ToValidation(s, t, st));
        ToValidationMeaning(s, t, st);
    }
  }

  lemma ToValidationMeaning(s: State, t: string, st: map<string, Value>)
    requires t in Ids(s.core.chain) && t in st
    ensures var r := ToValidation(s, t, st);
      r.store == st && r.val == s.val && r.core.running == s.core.running &&
      StatusOf(r.core.chain, t) == ValidatingStatus &&
      (SlotPool.UniqueBindings(s.exec) && (forall i :: i in SlotPool.BoundTo(s.exec, t) ==> s.exec.slots[i].status == Busy) ==>
         SlotPool.BoundTo(r.exec, t) == {})
  {
    WriteViaMapReads(s.core.chain, {t}, ValidatingStatus, t);
    if SlotPool.UniqueBindings(s.exec) && (forall i :: i in SlotPool.BoundTo(s.exec, t) ==> s.exec.slots[i].status == Busy) {
      SlotPool.ReleaseFrees(s.exec, t);
    }
  }

  /** Where a validator-slot request leaves the coroutine: waiting to ask
      again, or going on to validate with the slot it got, if any. */
  datatype ValidatorWait = WaitValidator | WithValidator(s: State, slot: Option<int>)

  /** One pass of the validator-slot loop, after `tries` failed attempts.
      Unlike the executor loop it does not look at whether the run is on,
      and after the last attempt validation goes ahead without a slot. */
  function AcquireValidator(s: State, t: string, tries: nat): (r: ValidatorWait)
    ensures r.WaitValidator? <==> tries < SlotAttempts && forall i :: 0 <= i < |s.val.slots| ==> s.val.slots[i].status != Idle
    ensures r.WithValidator? && r.slot.None? <==> tries >= SlotAttempts
    ensures r.WithValidator? ==> r.s.core == s.core && r.s.exec == s.exec
  {
    if tries >= SlotAttempts then WithValidator(s, None)
    else
      var a := SlotPool.Assign(s.val, t);
      if a.1.Some? then WithValidator(s.(val := a.0), a.1) else WaitValidator
  }

  /** The validation half of `_execute_task`, with the validator slot (if
      any) and the coin toss's outcome. */
  function Validate(s: State, t: string, slot: Option<int>, passed: bool): Step<State>
    requires t in Ids(s.core.chain)
  {
    if passed then
      Finished(s.(val := if Held(slot) then SlotPool.Release(s.val, t).0 else s.val, core := Succeed(s.core, t, Split)))
    else
      var f := Fail(s.core, t, ValidationFailed, s.maxFailures, Split);
      var s1 := s.(core := f.0, val := if Held(slot) then SlotPool.Release(SlotPool.SetStatus(s.val, slot.value, Failed), t).0 else s.val);
      if f.1 then Retry(s1) else RolledBack(RollbackStep(s1, TaskOf(s.core.chain, t)))
  }

  /** Passing completes the task with status `done` and gives back the
      validator slot; failing writes `validation-failed`, counts, and
      retries exactly while the prior count is below `maxFailures - 1`.
      Without a validator slot neither outcome touches the validator pool
      before a rollback. */
  lemma ValidateMeaning(s: State, t: string, slot: Option<int>, passed: bool)
    requires t in Ids(s.core.chain)
    ensures var r := Validate(s, t, slot, passed);
      (r.Finished? <==> passed) && (r.Retry? || r.RolledBack? <==> !passed) &&
      (r.Finished? ==> t in r.s.core.completed && t !in r.s.core.pending && t !in r.s.core.running &&
                       t !in r.s.core.failures && StatusOf(r.s.core.chain, t) == Done && r.s.exec == s.exec &&
                       r.s.val == (if Held(slot) then SlotPool.Release(s.val, t).0 else s.val)) &&
      (!passed ==> (r.Retry? <==> FailureCount(s.core, t) < s.maxFailures - 1)) &&
      (r.Retry? ==> FailureCount(r.s.core, t) == FailureCount(s.core, t) + 1 && StatusOf(r.s.core.chain, t) == ValidationFailed &&
                    t !in r.s.core.running && t !in r.s.core.completed && r.s.exec == s.exec &&
                    (!Held(slot) ==> r.s.val == s.val))
  {
    if passed {
      SucceedMeaning(s.core, t, Split);
    } else {
      WriteViaMapReads(s.core.chain, {t}, ValidationFailed, t);
    }
  }

  /** A failed validation that held validator slot `id` (the task's only
      one) leaves that slot idle and unbound. */
  lemma FailedValidationFreesSlot(s: State, t: string, id: int)
    requires t in Ids(s.core.chain) && id != 0
    requires SlotPool.WellFormed(s.val) && SlotPool.UniqueBindings(s.val) && SlotPool.BoundTo(s.val, t) == {id - 1}
    ensures var r := Validate(s, t, Some(id), false);
      r.Retry? ==> r.s.val.slots[id - 1] == SlotPool.Slot(id, Idle, None)
  {
    SlotPool.FailThenRelease(s.val, t, id);
  }

  // ---------------------------------------------------------------------
  // stop_async and the end of a run

  /** `stop_async`: not running; each launched task released once in both
      pools; no handles and no running tasks left. */
  function Stop(s: State): (r: State)
    ensures !r.core.isRunning && r.core.handles == {} && r.core.running == {}
    ensures r.exec == SlotPool.ReleaseAll(s.exec, s.core.handles) && r.val == SlotPool.ReleaseAll(s.val, s.core.handles)
    ensures forall m :: m in s.core.handles ==> SlotPool.FreesFirstOf(s.exec, r.exec, m) && SlotPool.FreesFirstOf(s.val, r.val, m)
    ensures r.core.pending == s.core.pending && r.core.completed == s.core.completed && r.core.chain == s.core.chain
  {
    SlotPool.ReleaseAllFreesEach(s.exec, s.core.handles);
    SlotPool.ReleaseAllFreesEach(s.val, s.core.handles);
    s.(core := s.core.(isRunning := false, handles := {}, running := {}),
       exec := SlotPool.ReleaseAll(s.exec, s.core.handles),
       val := SlotPool.ReleaseAll(s.val, s.core.handles))
  }

  /** The end of `start_execution`: the wait ends once stopped, or when
      there are at least as many completed tasks as chain entries and none
      running. Then both pools are re-initialised; the flag says whether the
      run completed rather than being stopped. */
  function Finish(s: State): (r: Option<(State, bool)>)
    ensures r.None? <==> s.core.isRunning && (|s.core.completed| < |s.core.chain| || s.core.running != {})
    ensures r.Some? ==> !r.value.0.core.isRunning && r.value.0.exec == FreshExec && r.value.0.val == FreshVal
    ensures r.Some? && r.value.1 ==> |s.core.completed| >= |s.core.chain| && s.core.running == {}
  {
    if s.core.isRunning && (|s.core.completed| < |s.core.chain| || s.core.running != {}) then None
    else Some((s.(core := s.core.(isRunning := false), exec := FreshExec, val := FreshVal), s.core.isRunning))
  }

  // ---------------------------------------------------------------------
  // The runner invariant

  /** No task is both pending and completed; both pools keep their kind
      and shape; a stopped runner runs nothing. */
  ghost predicate Inv(s: State) {
    Disjoint(s.core) &&
    SlotPool.WellFormed(s.exec) && s.exec.kind == SlotPool.FourState &&
    SlotPool.WellFormed(s.val) && s.val.kind == SlotPool.ThreeState &&
    (!s.core.isRunning ==> s.core.running == {})
  }

  lemma InitialInv()
    ensures Inv(Initial)
  {
  }

  lemma LayoutKeepsInv(s: State, layout: Dict, planId: Option<string>, execution: Option<Dict>)
    requires Inv(s)
    ensures Inv(SetLayout(s, layout, planId, execution).0)
  {
  }

  lemma StartKeepsInv(s: State, maxFailures: Option<int>)
    requires Inv(s)
    ensures Inv(Start(s, maxFailures).0)
  {
    if Start(s, maxFailures).1.None? {
      var c := ResetCore(ResetAll(s.core.chain, Undone));
      assert c.pending !! c.completed;
    }
  }

  lemma StopKeepsInv(s: State)
    requires Inv(s)
    ensures Inv(Stop(s))
    ensures Finish(s).Some? ==> Inv(Finish(s).value.0)
  {
    SlotPool.ReleaseAllKeepsWellFormed(s.exec, s.core.handles);
    SlotPool.ReleaseAllKeepsWellFormed(s.val, s.core.handles);
  }

  lemma AcquireKeepsInv(s: State, t: string, tries: nat)
    requires Inv(s)
    ensures var r := TryAcquire(s, t, tries); (r.Holding? || r.GaveUp?) ==> Inv(r.s)
    ensures var r := AcquireValidator(s, t, tries); r.WithValidator? ==> Inv(r.s)
  {
    SlotPool.OperationsKeepWellFormed(s.exec, t, 0, Busy);
    SlotPool.OperationsKeepWellFormed(s.val, t, 0, Busy);
    AbandonMeaning(s.core, t, Done, Split);
  }

  lemma CrashKeepsInv(s: State, t: string)
    requires Inv(s)
    ensures Inv(Crash(s, t))
  {
    SlotPool.OperationsKeepWellFormed(s.exec, t, 0, Busy);
    SlotPool.OperationsKeepWellFormed(s.val, t, 0, Busy);
    AbandonMeaning(s.core, t, ExecutionFailed, Split);
  }

  lemma RollbackKeepsInv(s: State, task: RTask)
    requires Inv(s)
    ensures Inv(RollbackStep(s, task))
  {
    var members := RollbackMembers(s.core, task);
    SlotPool.ReleaseAllKeepsWellFormed(s.exec, members);
    SlotPool.ReleaseAllKeepsWellFormed(s.val, members);
    StepsKeepDisjoint(s.core, "", task, Null, 0, Split, {});
    ScheduleMeaning(ResetMembers(s.core, members, Split), members, Split);
  }

  /** A failed attempt's bookkeeping, before any rollback. */
  lemma FailKeepsInv(s: State, t: string, status: Value, exec: SlotPool.Pool, val: SlotPool.Pool)
    requires Inv(s) && SlotPool.WellFormed(exec) && exec.kind == SlotPool.FourState
    requires SlotPool.WellFormed(val) && val.kind == SlotPool.ThreeState
    ensures Inv(s.(core := Fail(s.core, t, status, s.maxFailures, Split).0, exec := exec, val := val))
  {
  }

  /** A failed attempt that leaves `s1` keeps the invariant whether it is
      retried or rolled back. */
  lemma RetryOrRollbackKeepsInv(s1: State, task: RTask, retry: bool)
    requires Inv(s1)
    ensures Inv(if retry then s1 else RollbackStep(s1, task))
  {
    if !retry {
      RollbackKeepsInv(s1, task);
    }
  }


  lemma FailExecutionKeepsInv(s: State, t: string, slot: int)
    requires Inv(s) && t in Ids(s.core.chain)
    ensures Inv(FailExecution(s, t, slot).s)
  {
    var e := SlotPool.Release(SlotPool.SetStatus(s.exec, slot, Failed), t).0;
    SlotPool.FailedReleaseKeepsPool(s.exec, t, slot);
    var f := Fail(s.core, t, ExecutionFailed, s.maxFailures, Split);
    var s1 := s.(core := f.0, exec := e);
    assert Inv(s1) by { FailKeepsInv(s, t, ExecutionFailed, e, s.val); }
    RetryOrRollbackKeepsInv(s1, TaskOf(s.core.chain, t), f.1);
  }

  /** Handing the executor slot back before validation keeps the invariant. */
  lemma ToValidationKeepsInv(s: State, t: string, st: map<string, Value>)
    requires Inv(s)
    ensures Inv(ToValidation(s, t, st))
  {
    SlotPool.OperationsKeepWellFormed(s.exec, t, 0, Failed);
  }

  lemma ExecuteKeepsInv(s: State, t: string, slot: int, result: Option<Value>)
    requires Inv(s) && t in Ids(s.core.chain)
    ensures Inv(Execute(s, t, slot, result).s)
  {
    if !Truthy(Get(TaskOf(s.core.chain, t).attrs, "output")) {
      CrashKeepsInv(s, t);
    } else if result.None? {
      FailExecutionKeepsInv(s, t, slot);
    } else {
      match Artifacts.SaveTaskArtifact(PlanArg(s), t, Artifacts.ToSave(result.value), s.store)
      case Err(_) => FailExecutionKeepsInv(s, t, slot);
      case Ok(st) => ToValidationKeepsInv(s, t, st);
    }
  }

  lemma RejectKeepsInv(s: State, t: string, slot: Option<int>)
    requires Inv(s) && t in Ids(s.core.chain)
    ensures Inv(Validate(s, t, slot, false).s)
  {
    var v := if Held(slot) then SlotPool.Release(SlotPool.SetStatus(s.val, slot.value, Failed), t).0 else s.val;
    assert SlotPool.WellFormed(v) && v.kind == s.val.kind by {
      if Held(slot) { SlotPool.FailedReleaseKeepsPool(s.val, t, slot.value); }
    }
    var f := Fail(s.core, t, ValidationFailed, s.maxFailures, Split);
    var s1 := s.(core := f.0, val := v);
    assert Inv(s1) by { FailKeepsInv(s, t, ValidationFailed, s.exec, v); }
    RetryOrRollbackKeepsInv(s1, TaskOf(s.core.chain, t), f.1);
  }

  lemma ValidateKeepsInv(s: State, t: string, slot: Option<int>, passed: bool)
    requires Inv(s) && t in Ids(s.core.chain)
    ensures Inv(Validate(s, t, slot, passed).s)
  {
    if passed {
      SlotPool.OperationsKeepWellFormed(s.val, t, 0, Busy);
      SucceedMeaning(s.core, t, Split);
    } else {
      RejectKeepsInv(s, t, slot);
    }
  }
}
