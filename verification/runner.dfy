/** The task agent's execution runner: loading a layout into the chain cache,
    starting (optionally resuming from a task), and the life of one task's
    coroutine — waiting for a pool slot, executing, validating, retrying,
    rolling back — plus retry of a failed task, stop and the end of a run.
    The LLM call, the validator and the clock are inputs of the steps. */
module Runner {
  import opened Wrappers
  import opened Json
  import opened Scheduling
  import opened SlotStatuses
  import CounterPool
  import Artifacts
  import opened ChainCache

  /** This runner refuses to schedule once stopped and writes statuses
      through its task map. */
  const Canonical: Flavor := Flavor(true, ViaTaskMap)

  /** The runner: the shared bookkeeping, the concurrency pool, the failure
      limit, whether a (non-empty) layout is loaded, the plan id and the
      saved task outputs of that plan. */
  datatype State = State(
    core: Core,
    pool: CounterPool.Pool,
    maxFailures: int,
    hasLayout: bool,
    planId: Option<string>,
    store: map<string, Value>)

  /** A runner as constructed. */
  const Initial: State := State(Core(false, [], {}, {}, {}, {}, map[], map[]), CounterPool.Fresh, DefaultMaxFailures, false, None, map[])

  /** `self.plan_id or ""` */
  function PlanArg(s: State): string {
    if s.planId.Some? then s.planId.value else ""
  }

  /** `if self.plan_id:` */
  predicate HasPlan(s: State) {
    s.planId.Some? && s.planId.value != ""
  }

  // ---------------------------------------------------------------------
  // set_layout

  /** `set_layout`: refused while running. Otherwise the layout, the plan
      id and an empty chain are stored first, then the chain is built; an
      error raised on the way leaves the entries built before it. */
  function SetLayout(s: State, layout: map<string, Value>, planId: Option<string>, execution: Option<map<string, Value>>): (r: (State, Option<string>))
    ensures s.core.isRunning ==> r.0 == s && r.1.Some?
    ensures !s.core.isRunning ==>
      r.0.hasLayout == (layout != map[]) && r.0.planId == planId &&
      r.0.core == s.core.(chain := r.0.core.chain) && r.0.pool == s.pool && r.0.store == s.store
  {
    if s.core.isRunning then (s, Some("Cannot set layout while execution is running"))
    else
      var base := s.(hasLayout := layout != map[], planId := planId, core := s.core.(chain := []));
      match ExecutionTasks(execution)
      case Err(e) => (base, Some(e))
      case Ok(byId) =>
        var treeData := Or(Get(layout, "treeData"), Arr([]));
        if !treeData.Arr? then (base, Some("treeData is not a list"))
        else
          var built := LayoutChain(treeData.items, byId, AttrKeys);
          (base.(core := base.core.(chain := built.0)), built.1)
  }

  // ---------------------------------------------------------------------
  // start_execution

  /** The reset before the first launch. Resuming from a known task puts it
      and everything downstream of it back to `undone` and pending; every
      other task with an entry whose status is `done` counts as completed.
      Without a resume point every status becomes `undone`. The second
      component is the set whose saved outputs are deleted. */
  function ResumeCore(chain: seq<RTask>, resume: Option<string>): (r: (Core, set<string>))
    ensures r.0.isRunning && r.0.running == {} && r.0.handles == {} && r.0.index == BuildIndex(chain)
  {
    var c := ResetCore(chain);
    if resume.Some? && resume.value != "" && resume.value in Ids(chain) then
      var toReset := Downstream(c.index, {resume.value});
      var kept := set k | 0 <= k < |chain| && chain[k].id !in toReset && chain[k].status == Done :: chain[k].id;
      (c.(chain := WriteStatus(chain, toReset, Undone, EveryEntry), completed := kept, pending := Ids(chain) - kept), toReset)
    else (c.(chain := ResetAll(chain, Undone)), {})
  }

  /** Resuming from `rid`: the reset set is `rid` and everything downstream
      of it; each task in it is pending and not completed, with every entry
      `undone`; nothing is running, launched or counted as failed. */
  lemma ResumeMeaning(chain: seq<RTask>, rid: string, k: nat)
    requires rid != "" && rid in Ids(chain) && k < |chain|
    ensures var r := ResumeCore(chain, Some(rid));
      var x := chain[k].id;
      r.1 == Downstream(BuildIndex(chain), {rid}) && rid in r.1 &&
      r.0.failures == map[] && r.0.running == {} && r.0.handles == {} &&
      |r.0.chain| == |chain| && r.0.chain[k].id == x &&
      (x in r.1 ==> x in r.0.pending && x !in r.0.completed && r.0.chain[k].status == Undone)
  {
    var x := chain[k].id;
    assert x in Ids(chain);
  }

  /** Resuming from `rid`: a task outside the reset set keeps its entries,
      is completed exactly when one of its entries was `done`, and pending
      exactly when not completed. */
  lemma ResumeKeepsDone(chain: seq<RTask>, rid: string, k: nat)
    requires rid != "" && rid in Ids(chain) && k < |chain|
    requires chain[k].id !in ResumeCore(chain, Some(rid)).1
    ensures var r := ResumeCore(chain, Some(rid));
      var x := chain[k].id;
      r.0.chain[k] == chain[k] &&
      (x in r.0.completed <==> exists j :: 0 <= j < |chain| && chain[j].id == x && chain[j].status == Done) &&
      (x in r.0.pending <==> x !in r.0.completed)
  {
    var x := chain[k].id;
    assert x in Ids(chain);
    var toReset := ResumeCore(chain, Some(rid)).1;
    if exists j :: 0 <= j < |chain| && chain[j].id == x && chain[j].status == Done {
      var j :| 0 <= j < |chain| && chain[j].id == x && chain[j].status == Done;
      assert chain[j].id !in toReset;
    }
  }

  /** Without a resume point every task is pending, none completed, and
      every entry is `undone`. */
  lemma FreshStartMeaning(chain: seq<RTask>, resume: Option<string>)
    requires resume.None? || resume.value == "" || resume.value !in Ids(chain)
    ensures var r := ResumeCore(chain, resume);
      r.1 == {} && r.0.pending == Ids(chain) && r.0.completed == {} &&
      |r.0.chain| == |chain| && forall k :: 0 <= k < |chain| ==> r.0.chain[k].status == Undone && r.0.chain[k].id == chain[k].id
  {
  }

  /** `start_execution`: the failure limit from the configuration is taken
      first; then a running runner, an empty chain or a missing layout is
      refused. Otherwise the pool is reset to `maxConc`, the reset above is
      applied (deleting the reset tasks' outputs when a plan is set) and
      every ready task is launched. */
  function Start(s: State, maxConc: int, maxFailures: Option<int>, resume: Option<string>): (r: (State, Option<string>))
    ensures r.0.maxFailures == (if maxFailures.Some? then maxFailures.value else s.maxFailures)
    ensures r.1.Some? <==> s.core.isRunning || s.core.chain == [] || !s.hasLayout
    ensures r.1.Some? ==> r.0 == s.(maxFailures := r.0.maxFailures)
    ensures r.1.None? ==>
      r.0.core.isRunning && r.0.core.running == {} && r.0.core.handles == ReadyIds(r.0.core.(handles := {})) &&
      r.0.pool == CounterPool.Initialize(maxConc) && r.0.core.index == BuildIndex(s.core.chain)
  {
    var s1 := s.(maxFailures := if maxFailures.Some? then maxFailures.value else s.maxFailures);
    if s.core.isRunning then (s1, Some("Execution is already running"))
    else if s.core.chain == [] then (s1, Some("No execution map cache found. Please generate map first."))
    else if !s.hasLayout then (s1, Some("No execution layout cache found. Please generate layout first."))
    else
      var reset := ResumeCore(s.core.chain, resume);
      (s1.(core := LaunchReady(reset.0), pool := CounterPool.Initialize(maxConc),
           store := if HasPlan(s) then s.store - reset.1 else s.store), None)
  }

  // ---------------------------------------------------------------------
  // One task's coroutine

  /** Where a slot request leaves the coroutine: returned at once (the run
      had stopped), holding a slot, to wait and ask again, or given up with
      the task marked done. */
  datatype SlotWait = NotRunning | Holding(s: State) | Wait | GaveUp(s: State)

  /** One pass of the slot loop of `_execute_task`, after `tries` failed
      attempts. */
  function TryAcquire(s: State, t: string, tries: nat): (r: SlotWait)
    ensures r.Wait? ==> s.core.isRunning && tries < SlotAttempts && s.pool.inUse >= s.pool.capacity
    ensures r.NotRunning? <==> tries == 0 && !s.core.isRunning
    ensures r.GaveUp? <==> (tries > 0 || s.core.isRunning) && (!s.core.isRunning || tries >= SlotAttempts)
  {
    if tries == 0 && !s.core.isRunning then NotRunning
    else if !s.core.isRunning || tries >= SlotAttempts then GaveUp(s.(core := Abandon(s.core, t, Done, Canonical)))
    else
      var a := CounterPool.Assign(s.pool, t);
      if a.1.Some? then Holding(s.(pool := a.0, core := Begin(s.core, t, Canonical)))
      else Wait
  }

  /** A task that gets a slot is running with status `doing` and holds the
      slot; one given up counts as completed with status `done` without
      having run. */
  lemma TryAcquireMeaning(s: State, t: string, tries: nat)
    requires t in Ids(s.core.chain)
    ensures var r := TryAcquire(s, t, tries);
      (r.Holding? ==> t in r.s.core.running && t in r.s.pool.tracked && r.s.pool.tracked[t] == Busy &&
                      StatusOf(r.s.core.chain, t) == Doing) &&
      (r.GaveUp? ==> t in r.s.core.completed && t !in r.s.core.pending && t !in r.s.core.running &&
                     StatusOf(r.s.core.chain, t) == Done && r.s.pool == s.pool)
  {
    AbandonMeaning(s.core, t, Done, Canonical);
    WriteViaMapReads(s.core.chain, {t}, Doing, t);
  }

  /** `_handle_task_error` after an uncaught error: the slot is released and
      the task counts as completed with status `execution-failed`. */
  function Crash(s: State, t: string): (r: State)
    ensures t !in r.pool.tracked && t in r.core.completed && t !in r.core.running
  {
    s.(pool := CounterPool.Release(s.pool, t).0, core := Abandon(s.core, t, ExecutionFailed, Canonical))
  }

  /** `_rollback_task` with its side effects: the members' slots are
      released and, with a plan set, the saved outputs of the whole set are
      deleted. */
  function RollbackStep(s: State, task: RTask): (r: State)
    ensures r.pool.tracked == s.pool.tracked - RollbackMembers(s.core, task)
    ensures HasPlan(s) ==> r.store == s.store - RollbackSet(s.core, task)
    ensures !HasPlan(s) ==> r.store == s.store
  {
    s.(core := Rollback(s.core, task, Canonical),
       pool := CounterPool.ReleaseAll(s.pool, RollbackMembers(s.core, task)),
       store := if HasPlan(s) then s.store - RollbackSet(s.core, task) else s.store)
  }

  /** A failed attempt: the status is written and counted, the slot
      released; the task is retried or, at the limit, rolled back. */
  function FailAttempt(s: State, t: string, status: Value): (r: Step<State>)
    requires t in Ids(s.core.chain)
    ensures r.Retry? || r.RolledBack?
    ensures r.Retry? ==> r.s.store == s.store
  {
    var f := Fail(s.core, t, status, s.maxFailures, Canonical);
    var s1 := s.(core := f.0, pool := CounterPool.Release(s.pool, t).0);
    if f.1 then Retry(s1) else RolledBack(RollbackStep(s1, TaskOf(s.core.chain, t)))
  }

  /** The output saved by an execution attempt, if it gets that far:
      resolving the inputs, the LLM call (`result`, absent when it raised)
      and saving the output must all succeed. */
  function Produced(s: State, t: string, result: Option<Value>): Option<map<string, Value>>
    requires t in Ids(s.core.chain)
  {
    match Artifacts.ResolveStrict(TaskDict(TaskOf(s.core.chain, t)), TaskMap(s.core.chain), PlanArg(s), s.store)
    case Err(_) => None
    case Ok(_) =>
      if result.None? then None
      else match Artifacts.SaveTaskArtifact(PlanArg(s), t, Artifacts.ToSave(result.value), s.store)
        case Err(_) => None
        case Ok(st) => Some(st)
  }

  /** The execution half of `_execute_task`, once a slot is held. */
  function Execute(s: State, t: string, result: Option<Value>): Step<State>
    requires t in Ids(s.core.chain)
  {
    if !Truthy(Get(TaskOf(s.core.chain, t).attrs, "output")) then Crashed(Crash(s, t))
    else match Produced(s, t, result)
      case None => FailAttempt(s, t, ExecutionFailed)
      case Some(st) => Continue(ToValidation(s, t, st))
  }

  /** The output is saved: the task goes on to validation. */
  function ToValidation(s: State, t: string, st: map<string, Value>): State {
    s.(store := st, pool := CounterPool.SetTaskStatus(s.pool, t, Validating),
       core := s.core.(chain := WriteStatus(s.core.chain, {t}, ValidatingStatus, ViaTaskMap)))
  }

  /** The verdict of validation: passed, failed, or raised. */
  datatype Verdict = Pass | Reject | Raise

  /** The validation half of `_execute_task`. */
  function Validate(s: State, t: string, v: Verdict): Step<State>
    requires t in Ids(s.core.chain)
  {
    match v
    case Raise => Crashed(Crash(s, t))
    case Pass => Finished(s.(pool := CounterPool.Release(s.pool, t).0, core := Succeed(s.core, t, Canonical)))
    case Reject => FailAttempt(s, t, ValidationFailed)
  }

  /** A failed attempt is retried exactly while the failure count before it
      is below `maxFailures - 1`, and rolled back otherwise. A retried task
      has its count one higher, its slot released, the failure status, and
      is neither running nor completed. */
  lemma FailAttemptMeaning(s: State, t: string, status: Value)
    requires t in Ids(s.core.chain)
    ensures var r := FailAttempt(s, t, status);
      (r.Retry? || r.RolledBack?) &&
      (r.Retry? <==> FailureCount(s.core, t) < s.maxFailures - 1) &&
      (r.Retry? ==> FailureCount(r.s.core, t) == FailureCount(s.core, t) + 1 && t !in r.s.pool.tracked &&
                    t !in r.s.core.running && t !in r.s.core.completed && StatusOf(r.s.core.chain, t) == status)
  {
    WriteViaMapReads(s.core.chain, {t}, status, t);
  }

  /** A task without an output spec raises and ends `execution-failed`
      and completed, with its slot released. */
  lemma ExecuteWithoutSpec(s: State, t: string, result: Option<Value>)
    requires t in Ids(s.core.chain) && !Truthy(Get(TaskOf(s.core.chain, t).attrs, "output"))
    ensures var r := Execute(s, t, result);
      r.Crashed? && StatusOf(r.s.core.chain, t) == ExecutionFailed && t in r.s.core.completed && t !in r.s.pool.tracked
  {
    AbandonMeaning(s.core, t, ExecutionFailed, Canonical);
  }

  /** With an output spec, execution goes on to validation exactly when
      the inputs resolve, the call returns and the output is saved; then
      the output is in the store and the task is `validating` in both the
      chain and the pool. Otherwise the attempt counts as failed. */
  lemma ExecuteWithSpec(s: State, t: string, result: Option<Value>)
    requires t in Ids(s.core.chain) && Truthy(Get(TaskOf(s.core.chain, t).attrs, "output"))
    ensures var r := Execute(s, t, result);
      (r.Continue? <==> Produced(s, t, result).Some?) &&
      (r.Continue? ==> r.s.store == Produced(s, t, result).value && t in r.s.store &&
                       StatusOf(r.s.core.chain, t) == ValidatingStatus &&
                       (t in s.pool.tracked ==> r.s.pool.tracked[t] == Validating)) &&
      (!r.Continue? ==> r == FailAttempt(s, t, ExecutionFailed))
  {
    if Produced(s, t, result).Some? {
      WriteViaMapReads(s.core.chain, {t}, ValidatingStatus, t);
    }
  }

  /** A task whose named inputs are not all ready never saves an output:
      the attempt fails (or raises, without an output spec). */
  lemma MissingInputBlocks(s: State, t: string, result: Option<Value>)
    requires t in Ids(s.core.chain)
    requires Artifacts.ResolveStrict(TaskDict(TaskOf(s.core.chain, t)), TaskMap(s.core.chain), PlanArg(s), s.store).Err?
    ensures !Execute(s, t, result).Continue?
    ensures Execute(s, t, result).s.store == s.store || Execute(s, t, result).RolledBack?
  {
    ResolveErrorProducesNothing(s, t, result);
    NothingProducedBlocks(s, t, result);
  }

  lemma ResolveErrorProducesNothing(s: State, t: string, result: Option<Value>)
    requires t in Ids(s.core.chain)
    requires Artifacts.ResolveStrict(TaskDict(TaskOf(s.core.chain, t)), TaskMap(s.core.chain), PlanArg(s), s.store).Err?
    ensures Produced(s, t, result).None?
  {
  }

  lemma NothingProducedBlocks(s: State, t: string, result: Option<Value>)
    requires t in Ids(s.core.chain) && Produced(s, t, result).None?
    ensures !Execute(s, t, result).Continue?
    ensures Execute(s, t, result).s.store == s.store || Execute(s, t, result).RolledBack?
  {
    if Truthy(Get(TaskOf(s.core.chain, t).attrs, "output")) {
      assert Execute(s, t, result) == FailAttempt(s, t, ExecutionFailed);
    } else {
      assert Execute(s, t, result) == Crashed(Crash(s, t));
    }
  }

  /** Validation passing releases the slot and completes the task with
      status `done`; rejection is a failed attempt; raising hands the task
      to the error handler. */
  lemma ValidateMeaning(s: State, t: string, v: Verdict)
    requires t in Ids(s.core.chain)
    ensures var r := Validate(s, t, v);
      (r.Finished? <==> v == Pass) && (r.Crashed? <==> v == Raise) &&
      (r.Finished? ==> t !in r.s.pool.tracked && t in r.s.core.completed && t !in r.s.core.pending &&
                       t !in r.s.core.running && StatusOf(r.s.core.chain, t) == Done) &&
      (r.Crashed? ==> StatusOf(r.s.core.chain, t) == ExecutionFailed) &&
      (v == Reject ==> r == FailAttempt(s, t, ValidationFailed))
  {
    match v
    case Pass => SucceedMeaning(s.core, t, Canonical);
    case Raise => AbandonMeaning(s.core, t, ExecutionFailed, Canonical);
    case Reject =>
  }

  // ---------------------------------------------------------------------
  // retry_task, stop_async and the end of a run

  /** `retry_task`: only a known task whose status is a failure, and only
      while running. It is reset in place (its output deleted when a plan is
      set) and offered to scheduling. */
  function RetryTask(s: State, id: string): (r: (State, bool))
    ensures !r.1 ==> r.0 == s
  {
    if id !in Ids(s.core.chain) then (s, false)
    else
      var st := StatusOf(s.core.chain, id);
      if st != ExecutionFailed && st != ValidationFailed then (s, false)
      else if !s.core.isRunning then (s, false)
      else
        (s.(core := Schedule(ResetMembers(s.core, {id}, Canonical), {id}, Canonical),
            store := if HasPlan(s) then s.store - {id} else s.store), true)
  }

  /** A retry is taken exactly for a known, failed task of a running
      runner; the task is then pending, `undone`, without a failure count or
      output, and relaunched exactly when its dependencies are complete. */
  lemma RetryTaskMeaning(s: State, id: string)
    ensures var r := RetryTask(s, id);
      (r.1 <==> id in Ids(s.core.chain) && s.core.isRunning &&
                StatusOf(s.core.chain, id) in {ExecutionFailed, ValidationFailed}) &&
      (r.1 ==> id in r.0.core.pending && id !in r.0.core.completed && id !in r.0.core.running &&
               FailureCount(r.0.core, id) == 0 && id in Ids(r.0.core.chain) &&
               StatusOf(r.0.core.chain, id) == Undone &&
               (HasPlan(s) ==> id !in r.0.store) &&
               (id in r.0.core.handles <==> Satisfied(TaskOf(r.0.core.chain, id), r.0.core.completed)))
  {
    if RetryTask(s, id).1 {
      var c1 := ResetMembers(s.core, {id}, Canonical);
      ResetMembersMeaning(s.core, {id}, Canonical, id);
      ScheduleMeaning(c1, {id}, Canonical);
      var r := RetryTask(s, id).0;
      assert r.core.chain == c1.chain && r.core.completed == c1.completed;
    }
  }

  /** `stop_async`: not running, every launched task's slot released, no
      handles and no running tasks left. */
  function Stop(s: State): (r: State)
    ensures !r.core.isRunning && r.core.handles == {} && r.core.running == {}
    ensures r.pool.tracked == s.pool.tracked - s.core.handles
    ensures r.core.pending == s.core.pending && r.core.completed == s.core.completed
  {
    s.(core := s.core.(isRunning := false, handles := {}, running := {}),
       pool := CounterPool.ReleaseAll(s.pool, s.core.handles))
  }

  /** The end of `start_execution`: the wait ends once stopped, or when
      there are at least as many completed tasks as chain entries and none
      running. Then the runner stops and the pool goes back to its default;
      the flag says whether the run completed rather than being stopped. */
  function Finish(s: State): (r: Option<(State, bool)>)
    ensures r.None? <==> s.core.isRunning && (|s.core.completed| < |s.core.chain| || s.core.running != {})
    ensures r.Some? ==> !r.value.0.core.isRunning && r.value.0.pool == CounterPool.Initialize(CounterPool.DefaultMax)
    ensures r.Some? && r.value.1 ==> |s.core.completed| >= |s.core.chain| && s.core.running == {}
  {
    if s.core.isRunning && (|s.core.completed| < |s.core.chain| || s.core.running != {}) then None
    else Some((s.(core := s.core.(isRunning := false), pool := CounterPool.Initialize(CounterPool.DefaultMax)), s.core.isRunning))
  }

  // ---------------------------------------------------------------------
  // The runner invariant

  /** No task is both pending and completed; the pool keeps its bounds;
      every running task holds a slot; a stopped runner runs nothing. */
  ghost predicate Inv(s: State) {
    Disjoint(s.core) && CounterPool.Inv(s.pool) && s.core.running <= s.pool.tracked.Keys &&
    (!s.core.isRunning ==> s.core.running == {})
  }

  lemma InitialInv()
    ensures Inv(Initial)
  {
  }

  lemma LayoutKeepsInv(s: State, layout: map<string, Value>, planId: Option<string>, execution: Option<map<string, Value>>)
    requires Inv(s)
    ensures Inv(SetLayout(s, layout, planId, execution).0)
  {
  }

  lemma StartKeepsInv(s: State, maxConc: int, maxFailures: Option<int>, resume: Option<string>)
    requires Inv(s)
    ensures Inv(Start(s, maxConc, maxFailures, resume).0)
  {
    if Start(s, maxConc, maxFailures, resume).1.None? {
      CounterPool.OperationsKeepInv(s.pool, "", {}, Busy, maxConc);
      var reset := ResumeCore(s.core.chain, resume);
      assert reset.0.pending !! reset.0.completed;
    }
  }

  lemma StopKeepsInv(s: State)
    requires Inv(s)
    ensures Inv(Stop(s))
    ensures Finish(s).Some? ==> Inv(Finish(s).value.0)
  {
    CounterPool.ReleaseAllKeepsInv(s.pool, s.core.handles);
    CounterPool.OperationsKeepInv(s.pool, "", {}, Busy, CounterPool.DefaultMax);
  }

  lemma AcquireKeepsInv(s: State, t: string, tries: nat)
    requires Inv(s)
    ensures var r := TryAcquire(s, t, tries); (r.Holding? || r.GaveUp?) ==> Inv(r.s)
  {
    CounterPool.AssignKeepsInv(s.pool, t);
    AbandonMeaning(s.core, t, Done, Canonical);
  }

  lemma CrashKeepsInv(s: State, t: string)
    requires Inv(s)
    ensures Inv(Crash(s, t))
  {
    CounterPool.OperationsKeepInv(s.pool, t, {}, Busy, 1);
    AbandonMeaning(s.core, t, ExecutionFailed, Canonical);
  }

  lemma FailKeepsInv(s: State, t: string, status: Value)
    requires Inv(s) && t in Ids(s.core.chain)
    ensures Inv(FailAttempt(s, t, status).s)
  {
    var f := Fail(s.core, t, status, s.maxFailures, Canonical);
    var s1 := s.(core := f.0, pool := CounterPool.Release(s.pool, t).0);
    CounterPool.OperationsKeepInv(s.pool, t, {}, Busy, 1);
    assert Inv(s1);
    RollbackKeepsInv(s1, TaskOf(s.core.chain, t));
  }

  lemma RollbackKeepsInv(s: State, task: RTask)
    requires Inv(s)
    ensures Inv(RollbackStep(s, task))
  {
    var members := RollbackMembers(s.core, task);
    CounterPool.ReleaseAllKeepsInv(s.pool, members);
    StepsKeepDisjoint(s.core, "", task, Null, 0, Canonical, {});
    ScheduleMeaning(ResetMembers(s.core, members, Canonical), members, Canonical);
  }

  lemma ExecuteKeepsInv(s: State, t: string, result: Option<Value>)
    requires Inv(s) && t in Ids(s.core.chain)
    ensures Inv(Execute(s, t, result).s)
  {
    if !Truthy(Get(TaskOf(s.core.chain, t).attrs, "output")) {
      CrashKeepsInv(s, t);
    } else if Produced(s, t, result).None? {
      FailKeepsInv(s, t, ExecutionFailed);
    } else {
      CounterPool.OperationsKeepInv(s.pool, t, {}, Validating, 1);
    }
  }

  lemma ValidateKeepsInv(s: State, t: string, v: Verdict)
    requires Inv(s) && t in Ids(s.core.chain)
    ensures Inv(Validate(s, t, v).s)
  {
    match v
    case Raise => CrashKeepsInv(s, t);
    case Reject => FailKeepsInv(s, t, ValidationFailed);
    case Pass =>
      CounterPool.OperationsKeepInv(s.pool, t, {}, Busy, 1);
      SucceedMeaning(s.core, t, Canonical);
  }

  lemma RetryKeepsInv(s: State, id: string)
    requires Inv(s)
    ensures Inv(RetryTask(s, id).0)
  {
    if RetryTask(s, id).1 {
      ScheduleMeaning(ResetMembers(s.core, {id}, Canonical), {id}, Canonical);
    }
  }
}
