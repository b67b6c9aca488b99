/** The bookkeeping the three execution runners share, as a sequential state
    record: the chain cache (the tasks with their statuses), the pending,
    running and completed sets, the launched task handles, the failure
    counts and the reverse-dependency index. Each function is one atomic
    step between two awaits of the original coroutines; worker pools, the
    artifact store and the run flags of each variant live in the runner
    modules. */
module Scheduling {
  import opened Wrappers
  import opened Json
  import Reach
  import Sets

  /** One entry of the chain cache. `attrs` holds the description, input,
      output and validation specs. */
  datatype RTask = RTask(id: string, deps: seq<string>, status: Value, attrs: map<string, Value>)

  datatype Core = Core(
    isRunning: bool,
    chain: seq<RTask>,
    pending: set<string>,
    running: set<string>,
    completed: set<string>,
    handles: set<string>,
    failures: map<string, nat>,
    index: map<string, seq<string>>)

  /** How a status is written: through the id map (so the last chain entry
      with the id), by scanning the chain for the first, or on every entry
      with the id (the resume reset walks the whole chain). */
  datatype StatusWrite = ViaTaskMap | FirstInChain | EveryEntry

  /** The differences between the variants' shared steps: whether
      scheduling is refused once the run has stopped, and how statuses are
      written. */
  datatype Flavor = Flavor(guardRunning: bool, write: StatusWrite)

  const Undone: Value := Str("undone")
  const Doing: Value := Str("doing")
  const Done: Value := Str("done")
  const ExecutionFailed: Value := Str("execution-failed")
  const ValidatingStatus: Value := Str("validating")
  const ValidationFailed: Value := Str("validation-failed")

  /** `MAARS_MAX_FAILURES` when the environment does not set it (and the
      workers runner's fixed limit). */
  const DefaultMaxFailures: int := 3

  /** Attempts at a pool slot before a task is given up as done. */
  const SlotAttempts: nat := 50

  // ---------------------------------------------------------------------
  // The task map

  /** The ids of the chain (the keys of the task map). */
  function Ids(chain: seq<RTask>): set<string> {
    set i | 0 <= i < |chain| :: chain[i].id
  }

  /** Entry `k` is the last one with its id: the one the task map holds. */
  predicate IsLast(chain: seq<RTask>, k: int) {
    0 <= k < |chain| && forall j :: k < j < |chain| ==> chain[j].id != chain[k].id
  }

  /** Entry `k` is the first one with its id. */
  predicate IsFirst(chain: seq<RTask>, k: int) {
    0 <= k < |chain| && forall j :: 0 <= j < k ==> chain[j].id != chain[k].id
  }

  /** The index the task map holds for `id`. */
  function LastIdx(chain: seq<RTask>, id: string): (r: Option<nat>)
    ensures r.None? <==> id !in Ids(chain)
    ensures r.Some? ==> IsLast(chain, r.value) && chain[r.value].id == id
  {
    if |chain| == 0 then None
    else if chain[|chain| - 1].id == id then Some(|chain| - 1)
    else
      var r := LastIdx(chain[..|chain| - 1], id);
      assert Ids(chain) == Ids(chain[..|chain| - 1]) + {chain[|chain| - 1].id} by {
        forall x | x in Ids(chain) ensures x in Ids(chain[..|chain| - 1]) + {chain[|chain| - 1].id} {
          var i :| 0 <= i < |chain| && chain[i].id == x;
          if i < |chain| - 1 { assert chain[..|chain| - 1][i] == chain[i]; }
        }
      }
      r
  }

  /** `task_map[id]`. */
  function TaskOf(chain: seq<RTask>, id: string): (t: RTask)
    requires id in Ids(chain)
    ensures t.id == id
  {
    chain[LastIdx(chain, id).value]
  }

  /** Does entry `k` receive a status written for `id`? */
  predicate Written(chain: seq<RTask>, k: int, ids: set<string>, w: StatusWrite) {
    0 <= k < |chain| && chain[k].id in ids &&
    match w
    case ViaTaskMap => IsLast(chain, k)
    case FirstInChain => IsFirst(chain, k)
    case EveryEntry => true
  }

  /** `_update_task_status` for every id of `ids`: one chain entry per known
      id takes the status; nothing else changes. */
  function WriteStatus(chain: seq<RTask>, ids: set<string>, status: Value, w: StatusWrite): (r: seq<RTask>)
    ensures |r| == |chain|
    ensures forall k :: 0 <= k < |chain| ==>
      r[k] == (if Written(chain, k, ids, w) then chain[k].(status := status) else chain[k])
  {
    seq(|chain|, k requires 0 <= k < |chain| =>
      if Written(chain, k, ids, w) then chain[k].(status := status) else chain[k])
  }

  /** Every entry takes the status (the resets at start). */
  function ResetAll(chain: seq<RTask>, status: Value): (r: seq<RTask>)
    ensures |r| == |chain|
    ensures forall k :: 0 <= k < |chain| ==> r[k] == chain[k].(status := status)
  {
    seq(|chain|, k requires 0 <= k < |chain| => chain[k].(status := status))
  }

  /** The dependency list as JSON strings. */
  function DepValues(deps: seq<string>): (r: seq<Value>)
    ensures |r| == |deps| && forall i :: 0 <= i < |deps| ==> r[i] == Str(deps[i])
  {
    seq(|deps|, i requires 0 <= i < |deps| => Str(deps[i]))
  }

  /** The task as the dict the artifact resolver reads: its attributes with
      the id, dependency list and status. */
  function TaskDict(t: RTask): (d: map<string, Value>)
    ensures "task_id" in d && d["task_id"] == Str(t.id)
    ensures "dependencies" in d && d["dependencies"] == Arr(DepValues(t.deps))
    ensures d.Keys == t.attrs.Keys + {"task_id", "dependencies", "status"}
  {
    t.attrs["status" := t.status]["task_id" := Str(t.id)]["dependencies" := Arr(DepValues(t.deps))]
  }

  /** A task's dependency list, `t.get("dependencies") or []`, read as task
      ids; a list holding anything but text is refused. */
  function DepIds(v: Value): (r: Result<seq<string>, string>)
    ensures r.Err? <==> Truthy(v) && (!v.Arr? || exists i :: 0 <= i < |v.items| && !v.items[i].Str?)
    ensures r.Ok? ==> DepValues(r.value) == (if Truthy(v) && v.Arr? then v.items else [])
  {
    if !Truthy(v) then Ok([])
    else if !v.Arr? then Err("dependencies is not a list")
    else if exists i :: 0 <= i < |v.items| && !v.items[i].Str? then Err("dependency is not a task id")
    else Ok(seq(|v.items|, i requires 0 <= i < |v.items| => v.items[i].s))
  }

  /** The task map as dicts. */
  function TaskMap(chain: seq<RTask>): (m: map<string, map<string, Value>>)
    ensures m.Keys == Ids(chain)
  {
    map id | id in Ids(chain) :: TaskDict(TaskOf(chain, id))
  }

  /** The status the task map reports for `id`. */
  function StatusOf(chain: seq<RTask>, id: string): Value
    requires id in Ids(chain)
  {
    TaskOf(chain, id).status
  }

  // ---------------------------------------------------------------------
  // Readiness and scheduling

  /** `_are_dependencies_satisfied`: every listed dependency has completed
      (vacuously so with none). */
  predicate Satisfied(t: RTask, completed: set<string>) {
    forall d :: d in t.deps ==> d in completed
  }

  /** A task the runner may launch: pending, neither running nor completed,
      known, and with its dependencies satisfied. */
  predicate Ready(c: Core, id: string) {
    id in c.pending && id !in c.running && id !in c.completed &&
    id in Ids(c.chain) && Satisfied(TaskOf(c.chain, id), c.completed)
  }

  /** `_get_ready_tasks`. */
  function ReadyIds(c: Core): (r: set<string>)
    ensures forall id :: id in r <==> Ready(c, id)
  {
    set id | id in c.pending && Ready(c, id)
  }

  /** `_schedule_ready_tasks` on the candidates found in the task map:
      launch a handle for each ready one that has none. Refused when the
      run has stopped, for the variants that check. */
  function Schedule(c: Core, cands: set<string>, f: Flavor): (r: Core)
  {
    var known := cands * Ids(c.chain);
    if known == {} || (f.guardRunning && !c.isRunning) then c
    else c.(handles := c.handles + set id | id in known && Ready(c, id))
  }

  /** Scheduling launches exactly the ready candidates (none once stopped,
      where checked) and changes nothing else; a task with a handle already
      keeps its one handle. */
  lemma ScheduleMeaning(c: Core, cands: set<string>, f: Flavor)
    ensures var r := Schedule(c, cands, f);
      r == c.(handles := r.handles) &&
      (f.guardRunning && !c.isRunning ==> r.handles == c.handles) &&
      (!(f.guardRunning && !c.isRunning) ==> r.handles == c.handles + (cands * ReadyIds(c)))
  {
    var known := cands * Ids(c.chain);
    assert (set id | id in known && Ready(c, id)) == cands * ReadyIds(c);
  }

  // ---------------------------------------------------------------------
  // The reverse-dependency index and the downstream closure

  /** The dependents `index[d]` gets: each task listing `d`, once per listing,
      in chain order. */
  function DependentsOf(chain: seq<RTask>, d: string): seq<string>
    decreases |chain|
  {
    if |chain| == 0 then []
    else DependentsOf(chain[..|chain| - 1], d) + Repeat(chain[|chain| - 1].id, Occurrences(chain[|chain| - 1].deps, d))
  }

  function Occurrences(s: seq<string>, x: string): nat {
    if |s| == 0 then 0 else (if s[0] == x then 1 else 0) + Occurrences(s[1..], x)
  }

  function Repeat(x: string, n: nat): (r: seq<string>)
    ensures |r| == n && forall i :: 0 <= i < n ==> r[i] == x
  {
    if n == 0 then [] else [x] + Repeat(x, n - 1)
  }

  /** The reverse-dependency index built at start: an entry for every task,
      listing the tasks that depend on it. Dependencies that are not task
      ids are ignored. */
  function BuildIndex(chain: seq<RTask>): (r: map<string, seq<string>>)
    ensures r.Keys == Ids(chain)
  {
    map d | d in Ids(chain) :: DependentsOf(chain, d)
  }

  lemma {:induction false} OccurrencesPositive(s: seq<string>, x: string)
    ensures Occurrences(s, x) > 0 <==> x in s
  {
    if |s| > 0 {
      OccurrencesPositive(s[1..], x);
      assert x in s <==> s[0] == x || x in s[1..];
    }
  }

  /** `t` is listed under `d` exactly when some chain entry with id `t`
      lists `d` as a dependency. */
  lemma {:induction false} DependentsOfMeaning(chain: seq<RTask>, d: string, t: string)
    ensures t in DependentsOf(chain, d) <==> exists k :: 0 <= k < |chain| && chain[k].id == t && d in chain[k].deps
    decreases |chain|
  {
    if |chain| > 0 {
      var n := |chain| - 1;
      var init := chain[..n];
      DependentsOfMeaning(init, d, t);
      OccurrencesPositive(chain[n].deps, d);
      var tail := Repeat(chain[n].id, Occurrences(chain[n].deps, d));
      assert t in DependentsOf(chain, d) <==> t in DependentsOf(init, d) || t in tail;
      assert t in tail <==> chain[n].id == t && d in chain[n].deps by {
        if t in tail { var i :| 0 <= i < |tail| && tail[i] == t; }
        if chain[n].id == t && d in chain[n].deps { assert tail[0] == t; }
      }
      if exists k :: 0 <= k < |chain| && chain[k].id == t && d in chain[k].deps {
        var k :| 0 <= k < |chain| && chain[k].id == t && d in chain[k].deps;
        if k < n { assert init[k] == chain[k]; }
      }
      if exists k :: 0 <= k < |init| && init[k].id == t && d in init[k].deps {
        var k :| 0 <= k < |init| && init[k].id == t && d in init[k].deps;
        assert chain[k] == init[k];
      }
    }
  }

  /** The edges "d is depended on by t" of an index. */
  function RevEdges(index: map<string, seq<string>>): (e: Reach.Edges)
    ensures forall d, t :: (d, t) in e <==> d in index && t in index[d]
  {
    set d, t | d in index && t in index[d] :: (d, t)
  }

  /** The index's edges are exactly the dependency edges between tasks. */
  lemma BuildIndexEdges(chain: seq<RTask>, d: string, t: string)
    ensures (d, t) in RevEdges(BuildIndex(chain)) <==>
      d in Ids(chain) && exists k :: 0 <= k < |chain| && chain[k].id == t && d in chain[k].deps
  {
    DependentsOfMeaning(chain, d, t);
  }

  /** The ids listed under `u`. */
  function Children(index: map<string, seq<string>>, u: string): set<string> {
    if u in index then set i | 0 <= i < |index[u]| :: index[u][i] else {}
  }

  lemma ChildrenAreSuccessors(index: map<string, seq<string>>, u: string)
    ensures Children(index, u) == Reach.Successors(RevEdges(index), {u})
  {
    forall v | v in Reach.Successors(RevEdges(index), {u}) ensures v in Children(index, u) {
      assert (u, v) in RevEdges(index);
      var i :| 0 <= i < |index[u]| && index[u][i] == v;
    }
  }

  /** `roots` and everything reachable from them through the index: the
      set `_get_downstream_task_ids` and the rollback collect. */
  function Downstream(index: map<string, seq<string>>, roots: set<string>): (r: set<string>)
    ensures roots <= r
  {
    Reach.Closure(RevEdges(index), roots)
  }

  /** The recursive walk of `_get_downstream_task_ids` and of the
      rollback's `find_downstream`, as a worklist: it visits each id once,
      and what it collects is exactly the downstream closure. */
  method CollectDownstream(index: map<string, seq<string>>, roots: set<string>) returns (r: set<string>)
    ensures r == Downstream(index, roots)
  {
    ghost var all := Downstream(index, roots);
    forall u | u in all ensures Children(index, u) <= all {
      KidsInClosure(index, roots, u);
    }
    r := Walk(index, roots, all);
    EqualsClosure(index, roots, r);
  }

  /** The worklist walk inside any set `all` that holds the roots and the
      children of each of its members: it collects a set between the two
      that holds the children of each of its members. */
  method Walk(index: map<string, seq<string>>, roots: set<string>, ghost all: set<string>) returns (r: set<string>)
    requires roots <= all && forall u :: u in all ==> Children(index, u) <= all
    ensures roots <= r <= all && Explored(index, r, {})
  {
    r := roots;
    var todo := roots;
    while todo != {}
      invariant WalkInv(index, all, roots, r, todo)
      decreases |all - r|, |todo|
    {
      var u :| u in todo;
      var kids := Children(index, u);
      WalkStep(index, all, roots, r, todo, u);
      r, todo := r + (kids - r), todo - {u} + (kids - r);
    }
  }

  /** What the walk keeps: it collects inside `all`, the worklist is
      part of what it collected, and every id taken off the worklist has its
      children collected. */
  predicate WalkInv(index: map<string, seq<string>>, all: set<string>, roots: set<string>, r: set<string>, todo: set<string>) {
    roots <= r <= all && todo <= r && Explored(index, r, todo)
  }

  lemma WalkStep(index: map<string, seq<string>>, all: set<string>, roots: set<string>, r: set<string>, todo: set<string>, u: string)
    requires WalkInv(index, all, roots, r, todo) && u in todo
    requires forall x :: x in all ==> Children(index, x) <= all
    ensures var kids := Children(index, u);
      var r2 := r + (kids - r);
      var t2 := todo - {u} + (kids - r);
      WalkInv(index, all, roots, r2, t2) &&
      (|all - r2| < |all - r| || (|all - r2| == |all - r| && |t2| < |todo|))
  {
    WalkShrinks(all, r, todo, u, Children(index, u));
    ExploredStep(index, r, todo, u);
  }

  /** The downstream set is everything reachable from the roots. */
  lemma DownstreamMeaning(index: map<string, seq<string>>, roots: set<string>, v: string)
    ensures v in Downstream(index, roots) <==> Reach.ReachableFrom(RevEdges(index), roots, v)
  {
  }

  /** One step of the walk either collects a new id inside the finite
      closure or shortens the worklist. */
  lemma WalkShrinks(all: set<string>, r: set<string>, todo: set<string>, u: string, kids: set<string>)
    requires r <= all && kids <= all && u in todo
    ensures var r2 := r + (kids - r);
      var t2 := todo - {u} + (kids - r);
      |all - r2| < |all - r| || (|all - r2| == |all - r| && |t2| < |todo|)
  {
    if kids - r != {} {
      Sets.GrowShrinksRest(all, r, r + (kids - r));
    } else {
      assert todo - {u} + (kids - r) == todo - {u};
      Sets.MissingMemberCard(todo - {u}, todo, u);
    }
  }

  /** Every member of `r` outside the worklist has its children in `r`. */
  predicate Explored(index: map<string, seq<string>>, r: set<string>, todo: set<string>) {
    forall u :: u in r && u !in todo ==> Children(index, u) <= r
  }

  /** Taking `u` off the worklist and adding its unseen children keeps the
      explored members closed. */
  lemma ExploredStep(index: map<string, seq<string>>, r: set<string>, todo: set<string>, u: string)
    requires Explored(index, r, todo) && u in todo
    ensures Explored(index, r + (Children(index, u) - r), todo - {u} + (Children(index, u) - r))
  {
  }

  /** The downstream closure holds the children of each of its members. */
  lemma KidsInClosure(index: map<string, seq<string>>, roots: set<string>, u: string)
    requires u in Downstream(index, roots)
    ensures Children(index, u) <= Downstream(index, roots)
  {
    ChildrenAreSuccessors(index, u);
    Reach.ClosureHoldsSuccessors(RevEdges(index), roots, u);
  }

  /** A set between the roots and their closure that holds the successors
      of each member is the closure. */
  lemma EqualsClosure(index: map<string, seq<string>>, roots: set<string>, r: set<string>)
    requires roots <= r <= Reach.Closure(RevEdges(index), roots)
    requires Explored(index, r, {})
    ensures r == Reach.Closure(RevEdges(index), roots)
  {
    ExploredIsClosed(index, r);
    Reach.ClosedIsClosure(RevEdges(index), roots, r);
  }

  /** A set whose every member has its children in it is closed under the
      index's edges. */
  lemma ExploredIsClosed(index: map<string, seq<string>>, r: set<string>)
    requires Explored(index, r, {})
    ensures Reach.Successors(RevEdges(index), r) <= r
  {
    var e := RevEdges(index);
    forall v | v in Reach.Successors(e, r) ensures v in r {
      var u :| u in r && (u, v) in e;
      var i :| 0 <= i < |index[u]| && index[u][i] == v;
      assert v in Children(index, u);
    }
  }

  // ---------------------------------------------------------------------
  // Start

  /** The reset at start: every task known and pending, nothing running,
      completed, launched or failed, a fresh index. */
  function ResetCore(chain: seq<RTask>): (c: Core)
    ensures c.isRunning && c.chain == chain && c.pending == Ids(chain)
    ensures c.running == {} && c.completed == {} && c.handles == {} && c.failures == map[]
    ensures c.index == BuildIndex(chain)
  {
    Core(true, chain, Ids(chain), {}, {}, {}, map[], BuildIndex(chain))
  }

  /** `_execute_tasks`: a handle for every initially ready task. */
  function LaunchReady(c: Core): (r: Core)
    ensures r == c.(handles := r.handles)
    ensures forall t :: t in r.handles <==>
      (t in c.handles ||
       (t in c.pending && t !in c.running && t !in c.completed && t in Ids(c.chain) &&
        forall d :: d in TaskOf(c.chain, t).deps ==> d in c.completed))
  {
    c.(handles := c.handles + ReadyIds(c))
  }

  // ---------------------------------------------------------------------
  // Steps of one task's coroutine

  /** Where one attempt of a task's coroutine leaves it, with the runner
      state `S` it leaves behind. */
  datatype Step<S> =
    | Continue(s: S)   // executed; go on to validation
    | Retry(s: S)      // failed, tried again from the slot request
    | RolledBack(s: S) // failed once too often
    | Crashed(s: S)    // raised; handled by the error handler
    | Finished(s: S)   // passed validation

  /** The slot was acquired: the task is running with status `doing`. */
  function Begin(c: Core, t: string, f: Flavor): (r: Core)
    ensures r.running == c.running + {t}
    ensures r == c.(running := r.running, chain := r.chain)
    ensures |r.chain| == |c.chain| && Ids(r.chain) == Ids(c.chain)
    ensures forall k :: 0 <= k < |c.chain| ==>
      r.chain[k] == c.chain[k] || (c.chain[k].id == t && r.chain[k] == c.chain[k].(status := Doing))
    ensures t in Ids(c.chain) && f.write == ViaTaskMap ==> StatusOf(r.chain, t) == Doing
  {
    var r := c.(running := c.running + {t}, chain := WriteStatus(c.chain, {t}, Doing, f.write));
    WriteKeepsIds(c.chain, {t}, Doing, f.write);
    assert t in Ids(c.chain) && f.write == ViaTaskMap ==> StatusOf(r.chain, t) == Doing by {
      if t in Ids(c.chain) && f.write == ViaTaskMap { WriteViaMapReads(c.chain, {t}, Doing, t); }
    }
    r
  }

  /** The ids listed under `t` in the index that the task map knows. */
  function DependentIds(c: Core, t: string): set<string> {
    Children(c.index, t) * Ids(c.chain)
  }

  /** Mark `t` finished with `status` without running it further, then
      offer its dependents to scheduling: the slot-exhaustion fallback
      (status `done`) and the uncaught-error handler. */
  function Abandon(c: Core, t: string, status: Value, f: Flavor): (r: Core)
  {
    var c1 := c.(completed := c.completed + {t}, running := c.running - {t}, pending := c.pending - {t},
                 chain := WriteStatus(c.chain, {t}, status, f.write));
    Schedule(c1, DependentIds(c1, t), f)
  }

  /** An abandoned task counts as completed and leaves pending and running,
      whatever happened to it; only the handles of its ready dependents are
      added. */
  lemma AbandonMeaning(c: Core, t: string, status: Value, f: Flavor)
    ensures var r := Abandon(c, t, status, f);
      t in r.completed && t !in r.pending && t !in r.running &&
      r.completed == c.completed + {t} && r.pending == c.pending - {t} &&
      r.failures == c.failures && c.handles <= r.handles &&
      (t in Ids(c.chain) && f.write == ViaTaskMap ==> StatusOf(r.chain, t) == status) &&
      (forall h :: h in r.handles - c.handles ==> h in Children(c.index, t) && Ready(r.(handles := c.handles), h))
  {
    var c1 := c.(completed := c.completed + {t}, running := c.running - {t}, pending := c.pending - {t},
                 chain := WriteStatus(c.chain, {t}, status, f.write));
    assert Ids(c1.chain) == Ids(c.chain) by { WriteKeepsIds(c.chain, {t}, status, f.write); }
    ScheduleMeaning(c1, DependentIds(c1, t), f);
    if t in Ids(c.chain) && f.write == ViaTaskMap {
      WriteViaMapReads(c.chain, {t}, status, t);
    }
  }

  /** Writing statuses keeps every entry's id, dependencies and other
      attributes. */
  lemma WriteKeepsIds(chain: seq<RTask>, ids: set<string>, status: Value, w: StatusWrite)
    ensures Ids(WriteStatus(chain, ids, status, w)) == Ids(chain)
    ensures forall k :: 0 <= k < |chain| ==> WriteStatus(chain, ids, status, w)[k].id == chain[k].id
    ensures forall k :: 0 <= k < |chain| ==> WriteStatus(chain, ids, status, w)[k].deps == chain[k].deps
  {
    var r := WriteStatus(chain, ids, status, w);
    forall x | x in Ids(r) ensures x in Ids(chain) {
      var i :| 0 <= i < |r| && r[i].id == x;
      assert chain[i].id == x;
    }
    forall x | x in Ids(chain) ensures x in Ids(r) {
      var i :| 0 <= i < |chain| && chain[i].id == x;
      assert r[i].id == x;
    }
  }

  /** Through the task map, a written id reads back the written status, and
      every other id reads back its old one. */
  lemma WriteViaMapReads(chain: seq<RTask>, ids: set<string>, status: Value, id: string)
    requires id in Ids(chain)
    ensures id in Ids(WriteStatus(chain, ids, status, ViaTaskMap))
    ensures TaskOf(WriteStatus(chain, ids, status, ViaTaskMap), id) ==
      (if id in ids then TaskOf(chain, id).(status := status) else TaskOf(chain, id))
  {
    var r := WriteStatus(chain, ids, status, ViaTaskMap);
    WriteKeepsIds(chain, ids, status, ViaTaskMap);
    var k := LastIdx(chain, id).value;
    assert IsLast(r, k);
    LastUnique(r, k, LastIdx(r, id).value);
  }

  /** Two entries that are both last with the same id are the same entry. */
  lemma LastUnique(chain: seq<RTask>, k: int, m: int)
    requires IsLast(chain, k) && IsLast(chain, m) && chain[k].id == chain[m].id
    ensures k == m
  {
  }

  /** `_update_task_status` in the workers variant: only the first entry
      with the id changes; later entries with the same id keep their
      status. */
  lemma WriteFirstOnly(chain: seq<RTask>, id: string, status: Value, k: nat)
    requires k < |chain| && chain[k].id == id
    ensures WriteStatus(chain, {id}, status, FirstInChain)[k].status == (if IsFirst(chain, k) then status else chain[k].status)
    ensures forall j :: 0 <= j < |chain| && chain[j].id != id ==> WriteStatus(chain, {id}, status, FirstInChain)[j] == chain[j]
  {
  }

  /** Success bookkeeping: the task leaves running and pending, enters
      completed with status `done`, its failure count is cleared, and every
      ready pending task is offered to scheduling. */
  function Succeed(c: Core, t: string, f: Flavor): (r: Core)
  {
    var c1 := c.(running := c.running - {t}, completed := c.completed + {t}, pending := c.pending - {t},
                 chain := WriteStatus(c.chain, {t}, Done, f.write), failures := c.failures - {t});
    var noDeps := set k | 0 <= k < |c1.chain| && c1.chain[k].deps == [] && c1.chain[k].id in c1.pending && c1.chain[k].id !in c1.running :: c1.chain[k].id;
    var cands := Children(c1.index, t) + noDeps + ReadyIds(c1);
    Schedule(c1, cands, f)
  }

  /** After a success every task that has become ready gets a handle (when
      the run is still on, for the variants that check) — not only the
      direct dependents — and nothing else is launched. */
  lemma SucceedMeaning(c: Core, t: string, f: Flavor)
    ensures var r := Succeed(c, t, f);
      var c1 := c.(running := c.running - {t}, completed := c.completed + {t}, pending := c.pending - {t},
                   chain := WriteStatus(c.chain, {t}, Done, f.write), failures := c.failures - {t});
      r == c1.(handles := r.handles) &&
      t in r.completed && t !in r.pending && t !in r.running && t !in r.failures &&
      (t in Ids(c.chain) && f.write == ViaTaskMap ==> StatusOf(r.chain, t) == Done) &&
      (f.guardRunning && !c.isRunning ==> r.handles == c.handles) &&
      (!(f.guardRunning && !c.isRunning) ==> r.handles == c.handles + ReadyIds(c1))
  {
    var c1 := c.(running := c.running - {t}, completed := c.completed + {t}, pending := c.pending - {t},
                 chain := WriteStatus(c.chain, {t}, Done, f.write), failures := c.failures - {t});
    var noDeps := set k | 0 <= k < |c1.chain| && c1.chain[k].deps == [] && c1.chain[k].id in c1.pending && c1.chain[k].id !in c1.running :: c1.chain[k].id;
    var cands := Children(c1.index, t) + noDeps + ReadyIds(c1);
    ScheduleMeaning(c1, cands, f);
    assert cands * ReadyIds(c1) == ReadyIds(c1);
    if t in Ids(c.chain) && f.write == ViaTaskMap {
      WriteViaMapReads(c.chain, {t}, Done, t);
    }
  }

  /** A failed attempt: the status is written, the count goes from k to
      k + 1, and the task leaves running and completed. The attempt is
      retried exactly when k < maxFailures - 1. */
  function Fail(c: Core, t: string, status: Value, maxFailures: int, f: Flavor): (r: (Core, bool))
  {
    var k := if t in c.failures then c.failures[t] else 0;
    (c.(chain := WriteStatus(c.chain, {t}, status, f.write), failures := c.failures[t := k + 1],
        running := c.running - {t}, completed := c.completed - {t}),
     k < maxFailures - 1)
  }

  /** The count of failed attempts of `t`. */
  function FailureCount(c: Core, t: string): nat {
    if t in c.failures then c.failures[t] else 0
  }

  /** `n` failed attempts in a row, starting from a cleared count. */
  function Failures(c: Core, t: string, status: Value, maxFailures: int, f: Flavor, n: nat): Core
  {
    if n == 0 then c else Fail(Failures(c, t, status, maxFailures, f, n - 1), t, status, maxFailures, f).0
  }

  /** Counting attempts: after n failed attempts from a cleared count the
      count is n, and attempt n + 1 failing is retried exactly when
      n + 1 < maxFailures. So a task is tried at most max(maxFailures, 1)
      times before it is rolled back. */
  lemma {:induction false} FailuresCount(c: Core, t: string, status: Value, maxFailures: int, f: Flavor, n: nat)
    requires t !in c.failures
    ensures FailureCount(Failures(c, t, status, maxFailures, f, n), t) == n
    ensures Fail(Failures(c, t, status, maxFailures, f, n), t, status, maxFailures, f).1 <==> n + 1 < maxFailures
  {
    if n > 0 {
      FailuresCount(c, t, status, maxFailures, f, n - 1);
    }
  }

  /** The rollback set of a task: itself, its dependencies, and everything
      downstream of any of them. */
  function RollbackSet(c: Core, task: RTask): (r: set<string>)
    ensures {task.id} + (set d | d in task.deps) <= r
  {
    Downstream(c.index, {task.id} + (set d | d in task.deps))
  }

  /** The members of the rollback set that the task map knows. */
  function RollbackMembers(c: Core, task: RTask): set<string> {
    RollbackSet(c, task) * Ids(c.chain)
  }

  /** Put `members` back to the start: `undone`, pending, not running, not
      completed, no failure count, no handle. */
  function ResetMembers(c: Core, members: set<string>, f: Flavor): Core {
    c.(completed := c.completed - members, pending := c.pending + members, running := c.running - members,
       chain := WriteStatus(c.chain, members, Undone, f.write), failures := c.failures - members,
       handles := c.handles - members)
  }

  /** `_rollback_task` (the part common to the variants): every member the
      task map knows is reset, and the members that are then ready are
      scheduled again. */
  function Rollback(c: Core, task: RTask, f: Flavor): Core {
    var members := RollbackMembers(c, task);
    Schedule(ResetMembers(c, members, f), members, f)
  }

  /** Every rolled-back member that the task map knows ends `undone`,
      pending, not running, not completed and without a failure count; it
      holds a handle afterwards exactly when the run may schedule and its
      dependencies are all completed. */
  lemma RollbackMeaning(c: Core, task: RTask, f: Flavor, m: string)
    requires m in RollbackSet(c, task) && m in Ids(c.chain)
    ensures var r := Rollback(c, task, f);
      m in r.pending && m !in r.running && m !in r.completed && m !in r.failures &&
      m in Ids(r.chain) &&
      (f.write == ViaTaskMap ==> StatusOf(r.chain, m) == Undone) &&
      (m in r.handles <==> !(f.guardRunning && !c.isRunning) && Satisfied(TaskOf(r.chain, m), r.completed))
  {
    var members := RollbackMembers(c, task);
    var c1 := ResetMembers(c, members, f);
    ResetMembersMeaning(c, members, f, m);
    ScheduleMeaning(c1, members, f);
    var r := Rollback(c, task, f);
    assert r.chain == c1.chain && r.completed == c1.completed;
  }

  /** A reset member is pending, idle, without count or handle, reads back
      `undone` through the task map, and is ready exactly when its
      dependencies are completed. */
  lemma ResetMembersMeaning(c: Core, members: set<string>, f: Flavor, m: string)
    requires m in members && m in Ids(c.chain)
    ensures var c1 := ResetMembers(c, members, f);
      m in c1.pending && m !in c1.running && m !in c1.completed && m !in c1.failures && m !in c1.handles &&
      Ids(c1.chain) == Ids(c.chain) &&
      (f.write == ViaTaskMap ==> StatusOf(c1.chain, m) == Undone) &&
      (Ready(c1, m) <==> Satisfied(TaskOf(c1.chain, m), c1.completed))
  {
    WriteKeepsIds(c.chain, members, Undone, f.write);
    if f.write == ViaTaskMap {
      WriteViaMapReads(c.chain, members, Undone, m);
    }
  }

  /** Outside the rollback set nothing moves: sets, counts and statuses of
      other tasks are as before, and their handles are kept. */
  lemma RollbackLeavesOthers(c: Core, task: RTask, f: Flavor, x: string)
    requires x !in RollbackSet(c, task)
    ensures var r := Rollback(c, task, f);
      (x in r.pending <==> x in c.pending) && (x in r.running <==> x in c.running) &&
      (x in r.completed <==> x in c.completed) && (x in r.failures <==> x in c.failures) &&
      (x in c.failures ==> r.failures[x] == c.failures[x]) &&
      (x in c.handles ==> x in r.handles) &&
      Ids(r.chain) == Ids(c.chain) &&
      (x in Ids(c.chain) && f.write == ViaTaskMap ==> StatusOf(r.chain, x) == StatusOf(c.chain, x))
  {
    var members := RollbackMembers(c, task);
    var c1 := ResetMembers(c, members, f);
    ScheduleMeaning(c1, members, f);
    WriteKeepsIds(c.chain, members, Undone, f.write);
    if x in Ids(c.chain) && f.write == ViaTaskMap {
      WriteViaMapReads(c.chain, members, Undone, x);
    }
  }

  /** The core's rollback set is exactly the task, its dependencies and
      what is reachable from them through the index. */
  lemma RollbackSetMeaning(c: Core, task: RTask, v: string)
    ensures v in RollbackSet(c, task) <==>
      Reach.ReachableFrom(RevEdges(c.index), {task.id} + (set d | d in task.deps), v)
  {
  }

  /** No task is both pending and completed: the invariant every step of
      the runners keeps. */
  predicate Disjoint(c: Core) {
    c.pending !! c.completed
  }

  lemma StepsKeepDisjoint(c: Core, t: string, task: RTask, st: Value, maxF: int, f: Flavor, cands: set<string>)
    requires Disjoint(c)
    ensures Disjoint(ResetCore(c.chain))
    ensures Disjoint(LaunchReady(c))
    ensures Disjoint(Schedule(c, cands, f))
    ensures Disjoint(Begin(c, t, f))
    ensures Disjoint(Abandon(c, t, st, f))
    ensures Disjoint(Succeed(c, t, f))
    ensures Disjoint(Fail(c, t, st, maxF, f).0)
    ensures Disjoint(Rollback(c, task, f))
  {
    AbandonMeaning(c, t, st, f);
    SucceedMeaning(c, t, f);
    ScheduleMeaning(c, cands, f);
    ScheduleMeaning(ResetMembers(c, RollbackMembers(c, task), f), RollbackMembers(c, task), f);
  }
}
