/** The task module's staging (`backend/tasks/task_stages.py`): dependencies
    on a decomposed task first sink to the leaves of its subtree, then the
    tasks are staged by topological generation, every later stage's
    dependencies are cleaned against the stage before it, and the stages are
    numbered from one. */
module Sink {
  import opened Wrappers
  import opened Seqs
  import opened Reach
  import opened Tasks
  import opened Digraph
  import opened TaskIds
  import Stages
  import Timetable

  // ---------------------------------------------------------------------
  // Leaves of a subtree

  /** The tasks strictly below `p`, in order (id-less tasks belong nowhere). */
  function SubtreeTasks(tasks: seq<Task>, p: string): (r: seq<Task>)
    ensures forall t :: t in r <==> t in tasks && InSubtree(t.id, p)
  {
    if |tasks| == 0 then []
    else
      var rest := SubtreeTasks(tasks[1..], p);
      assert forall t :: t in tasks <==> t == tasks[0] || t in tasks[1..];
      (if InSubtree(tasks[0].id, p) then [tasks[0]] else []) + rest
  }

  /** `depended_on`: the dependencies of subtree tasks that lie in the
      subtree themselves. */
  function DependedOn(sub: seq<Task>, p: string): set<string> {
    set t, d | t in sub && d in t.deps && InSubtree(d, p) :: d
  }

  /** The ids of `sub` outside `drop`, in order. */
  function IdsOutside(sub: seq<Task>, drop: set<string>): (r: seq<string>)
    ensures forall x :: x in r <==> exists t :: t in sub && t.id == x && x !in drop
  {
    if |sub| == 0 then []
    else
      var rest := IdsOutside(sub[1..], drop);
      assert forall t :: t in sub <==> t == sub[0] || t in sub[1..];
      (if sub[0].id !in drop then [sub[0].id] else []) + rest
  }

  /** `get_leaf_tasks_of_subtree_inner(p)`: the subtree tasks no other
      subtree task depends on, in input order. */
  function Leaves(tasks: seq<Task>, p: string): seq<string> {
    var sub := SubtreeTasks(tasks, p);
    IdsOutside(sub, DependedOn(sub, p))
  }

  /** A leaf of `p` is the id of a task strictly below `p` that no task below
      `p` lists as a dependency, and every such id is a leaf. */
  lemma LeavesMeaning(tasks: seq<Task>, p: string, x: string)
    ensures x in Leaves(tasks, p) <==>
      (exists t :: t in tasks && t.id == x && InSubtree(x, p)) &&
      (forall t :: t in tasks && InSubtree(t.id, p) ==> x !in t.deps)
  {
    var sub := SubtreeTasks(tasks, p);
    if x in Leaves(tasks, p) {
      forall t | t in tasks && InSubtree(t.id, p) ensures x !in t.deps {
        assert t in sub;
      }
    }
  }

  /** The "depends on" relation among the tasks below `p`: an edge from a
      task to each of its dependencies below `p`. */
  function SubtreeDependsOn(tasks: seq<Task>, p: string): Edges {
    set t, d | t in tasks && InSubtree(t.id, p) && d in t.deps && InSubtree(d, p) :: (t.id, d)
  }

  /** A non-empty subtree whose tasks do not depend on each other in a cycle
      has a leaf; so with acyclic dependencies, a dependency on a decomposed
      task never survives sinking unchanged. */
  lemma LeavesExist(tasks: seq<Task>, p: string)
    requires exists t :: t in tasks && InSubtree(t.id, p)
    requires NoCycle(SubtreeDependsOn(tasks, p))
    ensures |Leaves(tasks, p)| > 0
  {
    var rem := IdsOutside(SubtreeTasks(tasks, p), {});
    var t0 :| t0 in tasks && InSubtree(t0.id, p);
    assert t0 in SubtreeTasks(tasks, p);
    InIdsOutside(SubtreeTasks(tasks, p), {}, t0);
    if |Leaves(tasks, p)| == 0 {
      NoLeafAllBlocked(tasks, p);
      var c := StuckMeansCycle(SubtreeDependsOn(tasks, p), rem);
    }
  }

  /** Without a leaf, every subtree task is depended on by another one. */
  lemma NoLeafAllBlocked(tasks: seq<Task>, p: string)
    requires |Leaves(tasks, p)| == 0
    ensures var rem := IdsOutside(SubtreeTasks(tasks, p), {});
      forall x :: x in rem ==> !NoPredIn(SubtreeDependsOn(tasks, p), rem, x)
  {
    var e := SubtreeDependsOn(tasks, p);
    var rem := IdsOutside(SubtreeTasks(tasks, p), {});
    forall x | x in rem ensures !NoPredIn(e, rem, x) {
      var u := DependentInSubtree(tasks, p, x);
    }
  }

  /** A subtree task that is not a leaf has a dependent in the subtree. */
  lemma DependentInSubtree(tasks: seq<Task>, p: string, x: string) returns (u: string)
    requires |Leaves(tasks, p)| == 0 && x in IdsOutside(SubtreeTasks(tasks, p), {})
    ensures u in IdsOutside(SubtreeTasks(tasks, p), {}) && (u, x) in SubtreeDependsOn(tasks, p)
  {
    var sub := SubtreeTasks(tasks, p);
    var t :| t in sub && t.id == x;
    assert t in tasks && InSubtree(x, p);
    assert exists w :: w in tasks && InSubtree(w.id, p) && x in w.deps by {
      assert x !in Leaves(tasks, p);
      LeavesMeaning(tasks, p, x);
    }
    var v :| v in tasks && InSubtree(v.id, p) && x in v.deps;
    u := v.id;
    assert v in sub;
    InIdsOutside(sub, {}, v);
    assert (v.id, x) in SubtreeDependsOn(tasks, p);
  }

  lemma InIdsOutside(sub: seq<Task>, drop: set<string>, t: Task)
    requires t in sub && t.id !in drop
    ensures t.id in IdsOutside(sub, drop)
  {
  }

  // ---------------------------------------------------------------------
  // sink_dependencies

  /** What one dependency `d` of the task `tid` becomes: kept when `tid` lies
      below `d`, otherwise replaced by the leaves of `d`'s subtree, or kept
      when there are none. Empty dependencies are dropped. */
  function SinkOne(tasks: seq<Task>, tid: string, d: string): seq<string> {
    if d == "" then []
    else if InSubtree(tid, d) then [d]
    else
      var leaves := Leaves(tasks, d);
      if |leaves| > 0 then leaves else [d]
  }

  /** The sunk dependency list of the task `tid`. */
  function SinkDeps(tasks: seq<Task>, tid: string, deps: seq<string>): (r: seq<string>)
    ensures forall x :: x in r <==> exists d :: d in deps && x in SinkOne(tasks, tid, d)
  {
    if |deps| == 0 then []
    else
      var rest := SinkDeps(tasks, tid, deps[1..]);
      assert forall d :: d in deps <==> d == deps[0] || d in deps[1..];
      SinkOne(tasks, tid, deps[0]) + rest
  }

  /** `sink_dependencies`: one task per id (the last one carrying it, in
      order of first appearance), each with its dependencies sunk; the
      leaves are computed on the input list. Empty input is returned as is. */
  function SinkDependencies(tasks: seq<Task>): (r: seq<Task>)
    ensures |tasks| == 0 ==> r == tasks
    ensures |tasks| > 0 ==> |r| == |UniqueById(tasks)|
    ensures |tasks| > 0 ==> forall i :: 0 <= i < |r| ==>
      r[i] == UniqueById(tasks)[i].(deps := SinkDeps(tasks, UniqueById(tasks)[i].id, UniqueById(tasks)[i].deps))
  {
    if |tasks| == 0 then tasks
    else
      var u := UniqueById(tasks);
      seq(|u|, i requires 0 <= i < |u| => u[i].(deps := SinkDeps(tasks, u[i].id, u[i].deps)))
  }

  /** What sinking does to the dependency list of a task `t` of the input: a
      dependency `d` yields `x` exactly when `d` is non-empty and either `x`
      is `d` itself (`t` lies below `d`, or `d` has no leaves) or `x` is a leaf
      of `d`'s subtree and `t` does not lie below `d`. */
  lemma SinkDepsMeaning(tasks: seq<Task>, tid: string, deps: seq<string>, x: string)
    ensures x in SinkDeps(tasks, tid, deps) <==>
      exists d :: d in deps && d != "" &&
        ((x == d && (InSubtree(tid, d) || |Leaves(tasks, d)| == 0)) ||
         (!InSubtree(tid, d) && x in Leaves(tasks, d)))
  {
  }

  /** A dependency on one of the task's own ancestors is kept unchanged. */
  lemma AncestorDependencyKept(tasks: seq<Task>, tid: string, deps: seq<string>, d: string)
    requires d in deps && tid != "" && d != "" && d != Root && d in AncestorChain(tid)
    ensures d in SinkDeps(tasks, tid, deps)
  {
    assert d in SinkOne(tasks, tid, d);
  }

  /** No empty dependency survives sinking. */
  lemma SinkDropsEmpty(tasks: seq<Task>, tid: string, deps: seq<string>)
    ensures "" !in SinkDeps(tasks, tid, deps)
  {
    forall d | d in deps ensures "" !in SinkOne(tasks, tid, d) {
      if d != "" && !InSubtree(tid, d) && |Leaves(tasks, d)| > 0 {
        LeavesMeaning(tasks, d, "");
      }
    }
  }

  /** Sinking keeps one task per id of the input, nothing else, and touches
      only dependency lists. */
  lemma SinkKeepsTasks(tasks: seq<Task>)
    requires |tasks| > 0
    ensures DistinctIds(SinkDependencies(tasks))
    ensures Tasks.TaskIds(SinkDependencies(tasks)) == IdSet(tasks)
    ensures forall i :: 0 <= i < |SinkDependencies(tasks)| ==>
      var t := SinkDependencies(tasks)[i];
      t.id != "" && exists s :: s in tasks && s.id == t.id && s.attrs == t.attrs
  {
    var u := UniqueById(tasks);
    var r := SinkDependencies(tasks);
    assert forall i :: 0 <= i < |r| ==> r[i].id == u[i].id && r[i].attrs == u[i].attrs;
    SameIdsAlong(r, u);
    forall i | 0 <= i < |r| ensures exists s :: s in tasks && s.id == r[i].id && s.attrs == r[i].attrs {
      assert u[i] in tasks;
    }
  }

  // ---------------------------------------------------------------------
  // compute_task_stages

  /** A task listing its own id among its dependencies. */
  function SelfLoops(norm: seq<Task>): Edges {
    set i | 0 <= i < |norm| && norm[i].id != "" && norm[i].id in norm[i].deps :: (norm[i].id, norm[i].id)
  }

  /** The graph of the staging step: a node per id in insertion order and an
      edge `d → t` for every dependency `d` of `t` naming a task, a task's
      dependency on itself included. */
  function SinkGraph(norm: seq<Task>): (g: Graph)
    ensures WellFormed(g)
    ensures forall n :: n in g.nodes <==> n in IdSet(norm)
    ensures forall d, t :: (d, t) in g.edges <==>
      t != "" && d in IdSet(norm) && exists i :: 0 <= i < |norm| && norm[i].id == t && d in norm[i].deps
  {
    var g := BuildDependencyGraph(norm, None);
    assert forall d, t :: (d, t) in SelfLoops(norm) ==> d == t && t in IdSet(norm);
    Graph(g.nodes, g.edges + SelfLoops(norm))
  }

  /** `compute_task_stages` of the task module: an error when the sunk
      dependencies form a cycle, otherwise the cleaned, numbered stages. */
  function ComputeSunkStages(tasks: seq<Task>): (r: Result<seq<seq<Task>>, string>)
    ensures |tasks| == 0 ==> r == Ok([])
    ensures r.Err? ==> r.error == Stages.CycleError
  {
    if |tasks| == 0 then Ok([])
    else
      var norm := Stages.Normalise(SinkDependencies(tasks));
      match TopologicalGenerations(SinkGraph(norm))
      case None => Err(Stages.CycleError)
      case Some(gens) =>
        Ok(Stages.Assemble(Timetable.CleanDependencies(Stages.StagesOf(ById(norm), gens)), false, {}))
  }

  /** The normalised sunk list the stages are computed from. */
  function Sunk(tasks: seq<Task>): seq<Task> {
    Stages.Normalise(SinkDependencies(tasks))
  }

  /** Stages exist exactly when the sunk dependency graph is acyclic. */
  lemma SunkStagesOkIffAcyclic(tasks: seq<Task>)
    requires |tasks| > 0
    ensures ComputeSunkStages(tasks).Ok? <==> Acyclic(SinkGraph(Sunk(tasks)))
  {
    GenerationsIffAcyclic(SinkGraph(Sunk(tasks)));
  }

  /** A sunk task that depends on itself makes the staging fail. */
  lemma SelfDependencyFails(tasks: seq<Task>, i: nat)
    requires |tasks| > 0 && i < |Sunk(tasks)| && Sunk(tasks)[i].id in Sunk(tasks)[i].deps
    ensures ComputeSunkStages(tasks).Err?
  {
    var norm := Sunk(tasks);
    SelfEdgeInSinkGraph(norm, i);
    SelfLoopIsCycle(SinkGraph(norm), norm[i].id);
    SunkStagesOkIffAcyclic(tasks);
  }

  lemma SelfEdgeInSinkGraph(norm: seq<Task>, i: nat)
    requires i < |norm| && norm[i].id != "" && norm[i].id in norm[i].deps
    ensures (norm[i].id, norm[i].id) in SinkGraph(norm).edges
  {
    assert norm[i].id in IdSet(norm);
  }

  lemma SelfLoopIsCycle(g: Graph, x: string)
    requires (x, x) in g.edges
    ensures !Acyclic(g)
  {
    assert IsCycle(g.edges, [x, x]);
  }

  /** Unlike the shared staging, which ignores a task's dependency on itself,
      this staging rejects it. */
  lemma SelfDependencyExample()
    ensures ComputeSunkStages([Task("1", ["1"], map[])]).Err?
    ensures Stages.ComputeTaskStages([Task("1", ["1"], map[])], false).Ok?
  {
    var ts := [Task("1", ["1"], map[])];
    assert !InSubtree("1", "1");
    assert SubtreeTasks(ts, "1") == [];
    assert SinkDeps(ts, "1", ["1"]) == ["1"];
    assert UniqueById(ts) == ts;
    assert Sunk(ts) == ts;
    SelfDependencyFails(ts, 0);
    SharedStagingIgnoresSelfDependency(ts);
  }

  lemma SharedStagingIgnoresSelfDependency(ts: seq<Task>)
    requires ts == [Task("1", ["1"], map[])]
    ensures Stages.ComputeTaskStages(ts, false).Ok?
  {
    var g := Stages.StageGraph(ts);
    assert Stages.Normalise(ts) == ts;
    assert g.edges == {};
    forall p ensures !IsCycle(g.edges, p) {
      if |p| >= 2 {
        assert (p[0], p[1]) !in g.edges;
      }
    }
    Stages.StagesOkIffAcyclic(ts, false);
  }

  /** Successful stages split the generations of the sunk graph. */
  lemma SunkStagesValue(tasks: seq<Task>)
    requires |tasks| > 0 && ComputeSunkStages(tasks).Ok?
    ensures TopologicalGenerations(SinkGraph(Sunk(tasks))).Some?
    ensures ComputeSunkStages(tasks).value ==
      Stages.Assemble(Timetable.CleanDependencies(
        Stages.StagesOf(ById(Sunk(tasks)), TopologicalGenerations(SinkGraph(Sunk(tasks))).value)), false, {})
  {
  }

  /** Stage `k` (counting from zero) stamps `stage = k + 1` on its tasks. */
  lemma SunkStagesNumbered(tasks: seq<Task>)
    requires ComputeSunkStages(tasks).Ok?
    ensures var st := ComputeSunkStages(tasks).value;
      forall k, j :: 0 <= k < |st| && 0 <= j < |st[k]| ==>
        "stage" in st[k][j].attrs && st[k][j].attrs["stage"] == Json.Int(k + 1)
  {
    if |tasks| > 0 {
      SunkStagesValue(tasks);
    }
  }

  /** After cleaning, every dependency of a task in a later stage names a task
      of the stage right before it. */
  lemma SunkStagesDependOnPrevious(tasks: seq<Task>)
    requires ComputeSunkStages(tasks).Ok?
    ensures var st := ComputeSunkStages(tasks).value;
      forall k, j, x :: 1 <= k < |st| && 0 <= j < |st[k]| && x in st[k][j].deps ==>
        x in Timetable.StageIds(st[k - 1])
  {
    if |tasks| > 0 {
      SunkStagesValue(tasks);
      var norm := Sunk(tasks);
      var gens := TopologicalGenerations(SinkGraph(norm)).value;
      var raw: seq<seq<Task>> := Stages.StagesOf(ById(norm), gens);
      var st: seq<seq<Task>> := ComputeSunkStages(tasks).value;
      forall k, j, x | 1 <= k < |st| && 0 <= j < |st[k]| && x in st[k][j].deps
        ensures x in Timetable.StageIds(st[k - 1])
      {
        CleanedDependsOnPrevious(raw, st, k, j, x);
      }
    }
  }

  /** One dependency of a cleaned, numbered stage names a task of the stage
      before it. */
  lemma CleanedDependsOnPrevious(raw: seq<seq<Task>>, st: seq<seq<Task>>, k: nat, j: nat, x: string)
    requires st == Stages.Assemble(Timetable.CleanDependencies(raw), false, {})
    requires 1 <= k < |st| && j < |st[k]| && x in st[k][j].deps
    ensures x in Timetable.StageIds(st[k - 1])
  {
    var cl: seq<seq<Task>> := Timetable.CleanDependencies(raw);
    Stages.FinishMeaning(cl[k][j], k + 1, false, {});
    Timetable.CleanDependenciesMeaning(raw, k, j);
    assert x in Timetable.StageIds(raw[k - 1]);
    if k - 1 > 0 {
      Timetable.CleanStageKeepsIds(raw[k - 1], Timetable.StageIds(raw[k - 2]));
    }
    assert x in Timetable.StageIds(cl[k - 1]);
    var t :| t in cl[k - 1] && t.id != "" && t.id == x;
    var j' :| 0 <= j' < |cl[k - 1]| && cl[k - 1][j'] == t;
    Stages.FinishMeaning(t, k, false, {});
    assert st[k - 1][j'].id == x;
    assert st[k - 1][j'] in st[k - 1];
  }

  /** The generations of the sunk graph split its ids into layers. */
  lemma SinkGraphLayered(norm: seq<Task>)
    requires TopologicalGenerations(SinkGraph(norm)).Some?
    ensures Stages.Layered(TopologicalGenerations(SinkGraph(norm)).value, IdSet(norm))
  {
    var g := SinkGraph(norm);
    var gs := TopologicalGenerations(g).value;
    GensCharacterised(g.edges, g.nodes);
    GensDistinct(g.edges, g.nodes);
    forall k, x | 0 <= k < |gs| && x in gs[k] ensures x in g.nodes {
      FlattenMember(gs, x);
      assert x in multiset(Flatten(gs));
    }
    forall x | x in g.nodes ensures exists k :: 0 <= k < |gs| && x in gs[k] {
      assert x in multiset(Flatten(gs));
      FlattenMember(gs, x);
    }
  }

  /** Every task of the sunk list sits in exactly one stage, once. */
  lemma SunkStagesPartitionIds(tasks: seq<Task>)
    requires ComputeSunkStages(tasks).Ok?
    ensures Stages.PartitionsIds(ComputeSunkStages(tasks).value, IdSet(Sunk(tasks)))
  {
    if |tasks| > 0 {
      SunkStagesValue(tasks);
      var norm := Sunk(tasks);
      var gs := TopologicalGenerations(SinkGraph(norm)).value;
      var byId := ById(norm);
      SinkGraphLayered(norm);
      var st: seq<seq<Task>> := ComputeSunkStages(tasks).value;
      assert st == Stages.Assemble(Timetable.CleanDependencies(Stages.StagesOf(byId, gs)), false, {});
      assert forall k :: 0 <= k < |gs| ==> |gs[k]| > 0 && forall n :: n in gs[k] ==> n in IdSet(norm);
      assert IdSet(norm) <= byId.Keys;
      CleanedStagesKeepIds(byId, gs, st);
      Stages.LayeredPartition(st, gs, IdSet(norm));
    }
  }

  lemma CleanedStagesKeepIds(byId: map<string, Task>, gs: seq<seq<string>>, st: seq<seq<Task>>)
    requires forall k :: 0 <= k < |gs| ==> |gs[k]| > 0 && forall n :: n in gs[k] ==> n in byId
    requires forall x :: x in byId ==> byId[x].id == x
    requires st == Stages.Assemble(Timetable.CleanDependencies(Stages.StagesOf(byId, gs)), false, {})
    ensures |st| == |gs| && forall k :: 0 <= k < |st| ==> |st[k]| == |gs[k]|
    ensures forall k, j :: 0 <= k < |st| && 0 <= j < |st[k]| ==> st[k][j].id == gs[k][j]
  {
    var raw: seq<seq<Task>> := Stages.StagesOf(byId, gs);
    CleanedKeepShape(raw, st);
    forall k, j | 0 <= k < |st| && 0 <= j < |st[k]| ensures st[k][j].id == gs[k][j] {
      assert raw[k] == Stages.LevelTasks(byId, gs[k]);
      assert raw[k][j] == byId[gs[k][j]];
    }
  }

  /** Cleaning and numbering stages keeps their shape and every task's id. */
  lemma CleanedKeepShape(raw: seq<seq<Task>>, st: seq<seq<Task>>)
    requires st == Stages.Assemble(Timetable.CleanDependencies(raw), false, {})
    ensures |st| == |raw| && forall k :: 0 <= k < |st| ==> |st[k]| == |raw[k]|
    ensures forall k, j :: 0 <= k < |st| && 0 <= j < |st[k]| ==> st[k][j].id == raw[k][j].id
  {
    var cl: seq<seq<Task>> := Timetable.CleanDependencies(raw);
    forall k | 0 <= k < |st| ensures |st[k]| == |raw[k]| && forall j :: 0 <= j < |st[k]| ==> st[k][j].id == raw[k][j].id {
      forall j | 0 <= j < |st[k]| ensures st[k][j].id == raw[k][j].id {
        Stages.FinishMeaning(cl[k][j], k + 1, false, {});
      }
    }
  }
}
