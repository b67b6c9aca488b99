/** The plan agent's and the planner's execution builders (their code is the
    same): keep the atomic tasks, give each one its own dependencies plus
    those of its ancestors, replace every non-atomic target by its atomic
    descendants, sort, then stage without reduction and mark every task
    undone. */
module PlanBuilder {
  import opened Wrappers
  import opened Seqs
  import opened Tasks
  import opened TaskIds
  import opened Strs
  import opened StrSort
  import opened Plans
  import Stages

  /** `_get_atomic_descendants`: the atomic ids strictly below `d`. */
  function AtomicDescendants(d: string, atomicIds: set<string>): set<string> {
    set a | a in atomicIds && IsDescendant(a, d)
  }

  /** The descendants are exactly the atomic ids that start with `d + "_"`. */
  lemma AtomicDescendantsMeaning(d: string, atomicIds: set<string>, a: string)
    ensures a in AtomicDescendants(d, atomicIds) <==> a in atomicIds && StartsWith(a, d + "_")
  {
    DescendantIsPrefix(a, d);
  }

  /** The non-empty dependencies of one list. */
  function OwnDeps(deps: seq<string>): set<string> {
    set d | d in deps && d != ""
  }

  /** The non-empty dependencies of every ancestor of `tid` present in the
      table. */
  function InheritedDeps(tid: string, m: map<string, Task>): set<string> {
    set a, d | a in AncestorChain(tid) && a in m && d in m[a].deps && d != "" :: d
  }

  /** `collected_deps`: the task's own dependencies and its ancestors'. */
  function Collected(t: Task, m: map<string, Task>): set<string> {
    OwnDeps(t.deps) + InheritedDeps(t.id, m)
  }

  /** A dependency is collected exactly when the task or one of its
      ancestors in the table lists it, and it is not empty. */
  lemma CollectedMeaning(t: Task, m: map<string, Task>, d: string)
    ensures d in Collected(t, m) <==>
      d != "" && (d in t.deps || exists a :: a in AncestorChain(t.id) && a in m && d in m[a].deps)
  {
  }

  /** `resolved`: for every collected target other than the task itself,
      the target when atomic, otherwise its atomic descendants other than the
      task. */
  function Resolve(tid: string, collected: set<string>, atomicIds: set<string>): set<string> {
    (set d | d in collected && d != tid && d in atomicIds) +
    (set d, a | d in collected && d != tid && d !in atomicIds && a in AtomicDescendants(d, atomicIds) && a != tid :: a)
  }

  /** Every resolved dependency is an atomic id other than the task's own;
      an atomic target is kept, and a non-atomic target gives way to all its
      atomic descendants. */
  lemma ResolveMeaning(tid: string, collected: set<string>, atomicIds: set<string>)
    ensures forall x :: x in Resolve(tid, collected, atomicIds) ==> x in atomicIds && x != tid
    ensures forall d :: d in collected && d != tid && d in atomicIds ==> d in Resolve(tid, collected, atomicIds)
    ensures forall d, a :: d in collected && d != tid && d !in atomicIds && a in atomicIds && IsDescendant(a, d) && a != tid ==>
      a in Resolve(tid, collected, atomicIds)
    ensures forall x :: x in Resolve(tid, collected, atomicIds) ==>
      x in collected || exists d :: d in collected && IsDescendant(x, d)
  {
    forall d, a | d in collected && d != tid && d !in atomicIds && a in atomicIds && IsDescendant(a, d) && a != tid
      ensures a in Resolve(tid, collected, atomicIds)
    {
      assert a in AtomicDescendants(d, atomicIds);
    }
  }

  /** One atomic task with its dependencies resolved and sorted. */
  function ResolveTask(t: Task, m: map<string, Task>, atomicIds: set<string>): Task {
    t.(deps := SortSet(Resolve(t.id, Collected(t, m), atomicIds)))
  }

  /** `_resolve_deps_for_atomic`. */
  function ResolveDepsForAtomic(all: seq<Task>, atomic: seq<Task>): (r: seq<Task>)
    ensures |r| == |atomic|
    ensures forall i :: 0 <= i < |r| ==> r[i].id == atomic[i].id
    ensures forall i :: 0 <= i < |r| ==> r[i] == ResolveTask(atomic[i], TaskMap(all), set t | t in atomic :: t.id)
  {
    var m := TaskMap(all);
    var ids := set t | t in atomic :: t.id;
    seq(|atomic|, i requires 0 <= i < |atomic| => ResolveTask(atomic[i], m, ids))
  }

  /** Each resolved task keeps its id and other fields; its dependencies are
      sorted, free of repeats, free of the task itself, and all atomic. */
  lemma ResolvedTasksFacts(all: seq<Task>, i: nat)
    requires i < |ResolveDepsForAtomic(all, AtomicTasks(all))|
    ensures var t := ResolveDepsForAtomic(all, AtomicTasks(all))[i];
      var a := AtomicTasks(all)[i];
      t.id == a.id && t.attrs == a.attrs &&
      StrictlySorted(t.deps) && t.id !in t.deps &&
      forall x :: x in t.deps ==> x in AtomicIds(all)
  {
    var atomic := AtomicTasks(all);
    var ids := set t | t in atomic :: t.id;
    assert ids == AtomicIds(all);
    var a := atomic[i];
    ResolveMeaning(a.id, Collected(a, TaskMap(all)), ids);
  }

  /** `build_execution_from_plan`: nothing to run without tasks or without
      atomic tasks; an error when the resolved dependencies are cyclic;
      otherwise the staged atomic tasks, flattened, marked undone. */
  function BuildExecutionFromPlan(all: seq<Task>): (r: Result<seq<Task>, string>)
    ensures |AtomicTasks(all)| == 0 ==> r == Ok([])
    ensures r.Err? ==> r.error == Stages.CycleError
  {
    if |all| == 0 then Ok([])
    else
      var atomic := AtomicTasks(all);
      if |atomic| == 0 then Ok([])
      else
        match Stages.ComputeTaskStages(ResolveDepsForAtomic(all, atomic), false)
        case Err(e) => Err(e)
        case Ok(st) => Ok(MarkUndone(Flatten(st)))
  }

  /** A built execution holds each atomic task once (a task without an id is
      numbered by its position), all marked undone. */
  lemma BuiltExecutionFacts(all: seq<Task>)
    requires BuildExecutionFromPlan(all).Ok?
    ensures forall t :: t in BuildExecutionFromPlan(all).value ==>
      "status" in t.attrs && t.attrs["status"] == Json.Str("undone")
    ensures Tasks.TaskIds(BuildExecutionFromPlan(all).value) == IdSet(Stages.Normalise(AtomicTasks(all)))
  {
    var atomic := AtomicTasks(all);
    if |all| == 0 || |atomic| == 0 {
      assert atomic == [];
    } else {
      var resolved := ResolveDepsForAtomic(all, atomic);
      match Stages.ComputeTaskStages(resolved, false)
      case Ok(st) =>
        assert BuildExecutionFromPlan(all) == Ok(MarkUndone(Flatten(st)));
        StagedExecution(resolved, atomic, st);
    }
  }

  lemma StagedExecution(resolved: seq<Task>, atomic: seq<Task>, st: seq<seq<Task>>)
    requires Stages.ComputeTaskStages(resolved, false) == Ok(st)
    requires |resolved| == |atomic| && forall i :: 0 <= i < |resolved| ==> resolved[i].id == atomic[i].id
    ensures forall t :: t in MarkUndone(Flatten(st)) ==> "status" in t.attrs && t.attrs["status"] == Json.Str("undone")
    ensures Tasks.TaskIds(MarkUndone(Flatten(st))) == IdSet(Stages.Normalise(atomic))
  {
    Stages.StagesPartitionIds(resolved, false);
    FlattenedIds(st, IdSet(Stages.Normalise(resolved)));
    MarkUndoneMeaning(st);
    SameIdsSameNormalised(resolved, atomic);
  }

  /** Lists with the same ids position by position normalise to the same ids. */
  lemma SameIdsSameNormalised(a: seq<Task>, b: seq<Task>)
    requires |a| == |b| && forall i :: 0 <= i < |a| ==> a[i].id == b[i].id
    ensures IdSet(Stages.Normalise(a)) == IdSet(Stages.Normalise(b))
  {
    var na := Stages.Normalise(a);
    var nb := Stages.Normalise(b);
    assert forall i :: 0 <= i < |na| ==> na[i].id == nb[i].id;
  }

  /** Inheritance: a dependency listed by an ancestor of an atomic task that
      is itself atomic (and not the task) ends up among the task's resolved
      dependencies. */
  lemma AncestorDependencyInherited(all: seq<Task>, i: nat, a: string, d: string)
    requires i < |AtomicTasks(all)|
    requires a in AncestorChain(AtomicTasks(all)[i].id) && a in TaskMap(all) && d in TaskMap(all)[a].deps
    requires d != "" && d in AtomicIds(all) && d != AtomicTasks(all)[i].id
    ensures d in ResolveDepsForAtomic(all, AtomicTasks(all))[i].deps
  {
    var atomic := AtomicTasks(all);
    var ids := set t | t in atomic :: t.id;
    assert ids == AtomicIds(all);
    var t := atomic[i];
    assert d in Collected(t, TaskMap(all));
    ResolveMeaning(t.id, Collected(t, TaskMap(all)), ids);
  }
}
