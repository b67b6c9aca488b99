/** The staged view of a flat task list (`compute_task_stages` of the shared
    graph module and of the planner's visualisation copy): missing ids filled
    in, tasks grouped by topological generation, stages numbered from one,
    and optionally every dependency list cut down to the transitive reduction.
    Also the planner's cycle test on a subset of ids. */
module Stages {
  import opened Wrappers
  import opened Seqs
  import opened Strs
  import opened Reach
  import opened Tasks
  import opened Json
  import opened Digraph

  const CycleError: string := "Circular dependency detected in task graph"

  /** A task without an id takes its 1-based position as id. */
  function Normalise(tasks: seq<Task>): (r: seq<Task>)
    ensures |r| == |tasks|
    ensures forall i :: 0 <= i < |r| ==>
      r[i].id != "" && r[i].deps == tasks[i].deps && r[i].attrs == tasks[i].attrs
    ensures forall i :: 0 <= i < |r| && tasks[i].id != "" ==> r[i].id == tasks[i].id
    ensures forall i :: 0 <= i < |r| && tasks[i].id == "" ==>
      IsDigits(r[i].id) && DigitsValue(r[i].id) == i + 1
  {
    seq(|tasks|, i requires 0 <= i < |tasks| =>
      tasks[i].(id := if tasks[i].id == "" then NatToString(i + 1) else tasks[i].id))
  }

  /** The tasks of one generation, looked up by id; an id without a task is
      skipped. */
  function LevelTasks(byId: map<string, Task>, level: seq<string>): (r: seq<Task>)
    ensures |r| <= |level|
    ensures (forall n :: n in level ==> n in byId) ==>
      |r| == |level| && forall i :: 0 <= i < |r| ==> r[i] == byId[level[i]]
  {
    if |level| == 0 then []
    else
      var rest := LevelTasks(byId, level[1..]);
      (if level[0] in byId then [byId[level[0]]] else []) + rest
  }

  /** One stage per generation; a generation that yields no task is dropped. */
  function StagesOf(byId: map<string, Task>, gens: seq<seq<string>>): (r: seq<seq<Task>>)
    ensures |r| <= |gens|
    ensures (forall k :: 0 <= k < |gens| ==> |gens[k]| > 0 && forall n :: n in gens[k] ==> n in byId) ==>
      |r| == |gens| && forall k :: 0 <= k < |r| ==> r[k] == LevelTasks(byId, gens[k])
  {
    if |gens| == 0 then []
    else
      var lt := LevelTasks(byId, gens[0]);
      var rest := StagesOf(byId, gens[1..]);
      assert forall k :: 1 <= k < |gens| ==> gens[1..][k - 1] == gens[k];
      (if |lt| > 0 then [lt] else []) + rest
  }

  /** The dependencies `d` of a task with id `id` for which `d → id` is an edge
      of `red`, in order. */
  function KeepEdges(deps: seq<string>, id: string, red: Edges): (r: seq<string>)
    ensures |r| <= |deps|
    ensures forall d :: d in r <==> d in deps && (d, id) in red
  {
    if |deps| == 0 then []
    else
      var rest := KeepEdges(deps[1..], id, red);
      assert forall d :: d in deps <==> d == deps[0] || d in deps[1..];
      (if (deps[0], id) in red then [deps[0]] else []) + rest
  }

  /** The task as it leaves the computation at stage `n`. */
  function Finish(t: Task, n: int, reduce: bool, red: Edges): Task {
    var t1 := if reduce then t.(deps := KeepEdges(t.deps, t.id, red)) else t;
    WithStage(t1, n)
  }

  /** The dependency graph of the normalised tasks. */
  function StageGraph(tasks: seq<Task>): Graph {
    BuildDependencyGraph(Normalise(tasks), None)
  }

  /** Number the stages from one and finish every task. */
  function Assemble(stages: seq<seq<Task>>, reduce: bool, red: Edges): (r: seq<seq<Task>>)
    ensures |r| == |stages|
    ensures forall k :: 0 <= k < |r| ==>
      |r[k]| == |stages[k]| && forall j :: 0 <= j < |r[k]| ==> r[k][j] == Finish(stages[k][j], k + 1, reduce, red)
  {
    seq(|stages|, k requires 0 <= k < |stages| =>
      seq(|stages[k]|, j requires 0 <= j < |stages[k]| => Finish(stages[k][j], k + 1, reduce, red)))
  }

  /** `compute_task_stages(tasks, reduce)`: an error when the dependencies
      form a cycle, otherwise the stages. */
  function ComputeTaskStages(tasks: seq<Task>, reduce: bool): (r: Result<seq<seq<Task>>, string>)
    ensures |tasks| == 0 ==> r == Ok([])
    ensures r.Err? ==> r.error == CycleError
  {
    if |tasks| == 0 then Ok([])
    else
      var norm := Normalise(tasks);
      var g := BuildDependencyGraph(norm, None);
      match TopologicalGenerations(g)
      case None => Err(CycleError)
      case Some(gens) => Ok(Assemble(StagesOf(ById(norm), gens), reduce, Reduce(g.edges)))
  }

  /** The last normalised task with id `x`, which the stages carry. */
  function Source(tasks: seq<Task>, x: string): Task
    requires x in IdSet(Normalise(tasks))
  {
    ById(Normalise(tasks))[x]
  }

  /** `st` is the layering `gs` with every id replaced by its task in `byId`,
      finished for its stage. */
  ghost predicate Staged(st: seq<seq<Task>>, gs: seq<seq<string>>, byId: map<string, Task>, reduce: bool, red: Edges) {
    |st| == |gs| &&
    forall k :: 0 <= k < |st| ==>
      |st[k]| == |gs[k]| &&
      forall j :: 0 <= j < |st[k]| ==> gs[k][j] in byId && st[k][j] == Finish(byId[gs[k][j]], k + 1, reduce, red)
  }

  /** `gs` splits `ids` into non-empty, duplicate-free, disjoint layers. */
  ghost predicate Layered(gs: seq<seq<string>>, ids: set<string>) {
    (forall k :: 0 <= k < |gs| ==> |gs[k]| > 0 && Distinct(gs[k])) &&
    (forall k, x :: 0 <= k < |gs| && x in gs[k] ==> x in ids) &&
    (forall x :: x in ids ==> exists k :: 0 <= k < |gs| && x in gs[k]) &&
    (forall k1, k2, x :: 0 <= k1 < |gs| && 0 <= k2 < |gs| && x in gs[k1] && x in gs[k2] ==> k1 == k2)
  }

  lemma AssembleStaged(byId: map<string, Task>, gs: seq<seq<string>>, reduce: bool, red: Edges)
    requires forall k :: 0 <= k < |gs| ==> |gs[k]| > 0 && forall n :: n in gs[k] ==> n in byId
    ensures Staged(Assemble(StagesOf(byId, gs), reduce, red), gs, byId, reduce, red)
  {
  }

  /** The generations of the stage graph split the normalised ids into
      layers, every edge goes forward, and every later layer is fed by the
      one before. */
  lemma GraphLayered(tasks: seq<Task>)
    requires TopologicalGenerations(StageGraph(tasks)).Some?
    ensures var gs := TopologicalGenerations(StageGraph(tasks)).value;
      Layered(gs, IdSet(Normalise(tasks))) &&
      ForwardEdges(StageGraph(tasks).edges, gs) && Tight(StageGraph(tasks).edges, gs)
  {
    var g := StageGraph(tasks);
    var gs := TopologicalGenerations(g).value;
    GensCharacterised(g.edges, g.nodes);
    GensDistinct(g.edges, g.nodes);
    forall k, x | 0 <= k < |gs| && x in gs[k] ensures x in g.nodes {
      FlattenMember(gs, x);
      assert x in multiset(Flatten(gs));
    }
    forall x | x in g.nodes ensures exists k :: 0 <= k < |gs| && x in gs[k] {
      assert x in multiset(Flatten(gs));
      FlattenMember(gs, x);
    }
  }

  /** A dependency of the task carrying `t` on another id `d` is an edge. */
  lemma DependencyIsEdge(tasks: seq<Task>, d: string, t: string)
    requires t in IdSet(Normalise(tasks)) && d in IdSet(Normalise(tasks)) && d != t
    requires d in Source(tasks, t).deps
    ensures (d, t) in StageGraph(tasks).edges
  {
    var norm := Normalise(tasks);
    var ids := ChosenIds(norm, None);
    assert ids == IdSet(norm);
    var src := ById(norm)[t];
    assert src.id == t && src in norm;
    var i :| 0 <= i < |norm| && norm[i] == src;
    assert norm[i].id == t && d in norm[i].deps;
    assert Contributes(norm, ids, d, t);
  }

  /** The stages are the generations of the graph with each id replaced by
      the last task carrying it, finished for its stage. */
  lemma StagesShape(tasks: seq<Task>, reduce: bool)
    requires |tasks| > 0 && ComputeTaskStages(tasks, reduce).Ok?
    ensures TopologicalGenerations(StageGraph(tasks)).Some?
    ensures Staged(ComputeTaskStages(tasks, reduce).value, TopologicalGenerations(StageGraph(tasks)).value,
      ById(Normalise(tasks)), reduce, Reduce(StageGraph(tasks).edges))
  {
    var g := StageGraph(tasks);
    var gs := TopologicalGenerations(g).value;
    StagesValue(tasks, reduce);
    GensPresent(tasks);
    AssembleStaged(ById(Normalise(tasks)), gs, reduce, Reduce(g.edges));
  }

  lemma StagesValue(tasks: seq<Task>, reduce: bool)
    requires |tasks| > 0 && ComputeTaskStages(tasks, reduce).Ok?
    ensures TopologicalGenerations(StageGraph(tasks)).Some?
    ensures ComputeTaskStages(tasks, reduce).value ==
      Assemble(StagesOf(ById(Normalise(tasks)), TopologicalGenerations(StageGraph(tasks)).value),
        reduce, Reduce(StageGraph(tasks).edges))
  {
  }

  /** Every generation is non-empty and made of ids of the normalised tasks. */
  lemma GensPresent(tasks: seq<Task>)
    requires TopologicalGenerations(StageGraph(tasks)).Some?
    ensures var gs := TopologicalGenerations(StageGraph(tasks)).value;
      forall k :: 0 <= k < |gs| ==> |gs[k]| > 0 && forall n :: n in gs[k] ==> n in ById(Normalise(tasks))
  {
    var norm := Normalise(tasks);
    GraphLayered(tasks);
    forall x | x in IdSet(norm) ensures x in ById(norm) {
      var i :| 0 <= i < |norm| && norm[i].id == x && x != "";
      assert norm[i].id in AllIds(norm);
    }
  }

  /** Stages exist exactly when the normalised dependency graph is acyclic;
      an empty list has no stages. */
  lemma StagesOkIffAcyclic(tasks: seq<Task>, reduce: bool)
    ensures |tasks| == 0 ==> ComputeTaskStages(tasks, reduce) == Ok([])
    ensures |tasks| > 0 ==> (ComputeTaskStages(tasks, reduce).Ok? <==> Acyclic(StageGraph(tasks)))
  {
    GenerationsIffAcyclic(StageGraph(tasks));
  }

  /** In a staged layering every task carries the id of its slot. */
  lemma StagedIds(st: seq<seq<Task>>, gs: seq<seq<string>>, byId: map<string, Task>, reduce: bool, red: Edges)
    requires Staged(st, gs, byId, reduce, red)
    requires forall x :: x in byId ==> byId[x].id == x
    ensures forall k, j :: 0 <= k < |st| && 0 <= j < |st[k]| ==> st[k][j].id == gs[k][j]
  {
  }

  /** Every id in `ids` is in exactly one stage, once. */
  ghost predicate PartitionsIds(st: seq<seq<Task>>, ids: set<string>) {
    (forall k, j :: 0 <= k < |st| && 0 <= j < |st[k]| ==> st[k][j].id in ids) &&
    (forall x :: x in ids ==> exists k, j :: 0 <= k < |st| && 0 <= j < |st[k]| && st[k][j].id == x) &&
    (forall k1, j1, k2, j2 ::
      (0 <= k1 < |st| && 0 <= j1 < |st[k1]| && 0 <= k2 < |st| && 0 <= j2 < |st[k2]| &&
       st[k1][j1].id == st[k2][j2].id) ==> k1 == k2 && j1 == j2)
  }

  lemma LayeredPartition(st: seq<seq<Task>>, gs: seq<seq<string>>, ids: set<string>)
    requires Layered(gs, ids) && |st| == |gs|
    requires forall k :: 0 <= k < |st| ==> |st[k]| == |gs[k]|
    requires forall k, j :: 0 <= k < |st| && 0 <= j < |st[k]| ==> st[k][j].id == gs[k][j]
    ensures PartitionsIds(st, ids)
  {
    forall x | x in ids ensures exists k, j :: 0 <= k < |st| && 0 <= j < |st[k]| && st[k][j].id == x {
      var k :| 0 <= k < |gs| && x in gs[k];
      var j :| 0 <= j < |gs[k]| && gs[k][j] == x;
      assert st[k][j].id == x;
    }
    forall k1, j1, k2, j2 |
      0 <= k1 < |st| && 0 <= j1 < |st[k1]| && 0 <= k2 < |st| && 0 <= j2 < |st[k2]| &&
      st[k1][j1].id == st[k2][j2].id
      ensures k1 == k2 && j1 == j2
    {
      var x := gs[k1][j1];
      assert x in gs[k1] && gs[k2][j2] == x && x in gs[k2];
    }
  }

  /** Every id of the normalised list is in exactly one stage, once. */
  lemma StagesPartitionIds(tasks: seq<Task>, reduce: bool)
    requires ComputeTaskStages(tasks, reduce).Ok?
    ensures PartitionsIds(ComputeTaskStages(tasks, reduce).value, IdSet(Normalise(tasks)))
  {
    if |tasks| > 0 {
      var st := ComputeTaskStages(tasks, reduce).value;
      var gs := TopologicalGenerations(StageGraph(tasks)).value;
      StagesShape(tasks, reduce);
      GraphLayered(tasks);
      StagedIds(st, gs, ById(Normalise(tasks)), reduce, Reduce(StageGraph(tasks).edges));
      LayeredPartition(st, gs, IdSet(Normalise(tasks)));
    }
  }

  /** Every dependency on another task points to an earlier stage. */
  ghost predicate DepsEarlier(st: seq<seq<Task>>) {
    forall k1, j1, k2, j2 ::
      (0 <= k1 < |st| && 0 <= j1 < |st[k1]| && 0 <= k2 < |st| && 0 <= j2 < |st[k2]| &&
       st[k1][j1].id in st[k2][j2].deps && st[k1][j1].id != st[k2][j2].id) ==> k1 < k2
  }

  /** A task sits in a later stage than every other task it depends on. */
  lemma StagesRespectDependencies(tasks: seq<Task>, reduce: bool)
    requires ComputeTaskStages(tasks, reduce).Ok?
    ensures DepsEarlier(ComputeTaskStages(tasks, reduce).value)
  {
    if |tasks| > 0 {
      var st := ComputeTaskStages(tasks, reduce).value;
      var g := StageGraph(tasks);
      var gs := TopologicalGenerations(g).value;
      var byId := ById(Normalise(tasks));
      StagesShape(tasks, reduce);
      GraphLayered(tasks);
      StagedIds(st, gs, byId, reduce, Reduce(g.edges));
      forall k1, j1, k2, j2 |
        0 <= k1 < |st| && 0 <= j1 < |st[k1]| && 0 <= k2 < |st| && 0 <= j2 < |st[k2]| &&
        st[k1][j1].id in st[k2][j2].deps && st[k1][j1].id != st[k2][j2].id
        ensures k1 < k2
      {
        var d := gs[k1][j1];
        var t := gs[k2][j2];
        assert st[k2][j2] == Finish(byId[t], k2 + 1, reduce, Reduce(g.edges));
        assert d in byId[t].deps;
        DependencyIsEdge(tasks, d, t);
        assert d in gs[k1] && t in gs[k2];
      }
    }
  }

  /** Each task of `cur` has an edge of `e` from some task of `prev`. */
  ghost predicate StageFed(e: Edges, prev: seq<Task>, cur: seq<Task>) {
    forall j :: 0 <= j < |cur| ==> HasEdgeFrom(e, prev, cur[j].id)
  }

  /** Some task of `prev` has an edge of `e` to `v`. */
  ghost predicate HasEdgeFrom(e: Edges, prev: seq<Task>, v: string) {
    exists i :: 0 <= i < |prev| && (prev[i].id, v) in e
  }

  /** Every task after the first stage has a dependency edge from a task of
      the stage just before: no stage is later than its dependencies require. */
  lemma StagesAreTight(tasks: seq<Task>, reduce: bool)
    requires ComputeTaskStages(tasks, reduce).Ok?
    ensures var st := ComputeTaskStages(tasks, reduce).value;
      forall k :: 1 <= k < |st| ==> StageFed(StageGraph(tasks).edges, st[k - 1], st[k])
  {
    if |tasks| > 0 {
      var st := ComputeTaskStages(tasks, reduce).value;
      var g := StageGraph(tasks);
      var gs := TopologicalGenerations(g).value;
      StagesShape(tasks, reduce);
      GraphLayered(tasks);
      StagedIds(st, gs, ById(Normalise(tasks)), reduce, Reduce(g.edges));
      LayeredTight(st, gs, g.edges);
    }
  }

  lemma LayeredTight(st: seq<seq<Task>>, gs: seq<seq<string>>, e: Edges)
    requires Tight(e, gs) && |st| == |gs|
    requires forall k :: 0 <= k < |st| ==> |st[k]| == |gs[k]|
    requires forall k, j :: 0 <= k < |st| && 0 <= j < |st[k]| ==> st[k][j].id == gs[k][j]
    ensures forall k :: 1 <= k < |st| ==> StageFed(e, st[k - 1], st[k])
  {
    forall k | 1 <= k < |st| ensures StageFed(e, st[k - 1], st[k]) {
      FedLayers(e, gs[k - 1], gs[k], st[k - 1], st[k]);
    }
  }

  lemma FedLayers(e: Edges, gprev: seq<string>, gcur: seq<string>, prev: seq<Task>, cur: seq<Task>)
    requires Fed(e, gprev, gcur)
    requires |prev| == |gprev| && |cur| == |gcur|
    requires forall i :: 0 <= i < |prev| ==> prev[i].id == gprev[i]
    requires forall j :: 0 <= j < |cur| ==> cur[j].id == gcur[j]
    ensures StageFed(e, prev, cur)
  {
    forall j | 0 <= j < |cur| ensures HasEdgeFrom(e, prev, cur[j].id) {
      assert gcur[j] in gcur;
      var u :| u in gprev && (u, gcur[j]) in e;
      var i :| 0 <= i < |gprev| && gprev[i] == u;
      assert prev[i].id == u;
      assert (prev[i].id, cur[j].id) in e;
    }
  }

  /** Each staged task records its 1-based stage, and keeps the dependencies
      of the last task with its id, or with `reduce` exactly those that are
      edges of the transitive reduction. */
  lemma StagesContent(tasks: seq<Task>, reduce: bool)
    requires ComputeTaskStages(tasks, reduce).Ok?
    ensures var st := ComputeTaskStages(tasks, reduce).value;
      forall k, j :: 0 <= k < |st| && 0 <= j < |st[k]| ==>
        st[k][j].id in IdSet(Normalise(tasks)) &&
        Get(st[k][j].attrs, "stage") == Int(k + 1) &&
        (!reduce ==> st[k][j].deps == Source(tasks, st[k][j].id).deps) &&
        (reduce ==> forall d :: d in st[k][j].deps <==>
          d in Source(tasks, st[k][j].id).deps && (d, st[k][j].id) in Reduce(StageGraph(tasks).edges))
  {
    if |tasks| > 0 {
      var st: seq<seq<Task>> := ComputeTaskStages(tasks, reduce).value;
      var g := StageGraph(tasks);
      var gs: seq<seq<string>> := TopologicalGenerations(g).value;
      var byId := ById(Normalise(tasks));
      var red := Reduce(g.edges);
      StagesShape(tasks, reduce);
      GraphLayered(tasks);
      forall k, j | 0 <= k < |st| && 0 <= j < |st[k]|
        ensures st[k][j].id in IdSet(Normalise(tasks)) &&
          Get(st[k][j].attrs, "stage") == Int(k + 1) &&
          (!reduce ==> st[k][j].deps == Source(tasks, st[k][j].id).deps) &&
          (reduce ==> forall d :: d in st[k][j].deps <==>
            d in Source(tasks, st[k][j].id).deps && (d, st[k][j].id) in red)
      {
        var x := gs[k][j];
        assert x in gs[k];
        assert st[k][j] == Finish(byId[x], k + 1, reduce, red);
        FinishMeaning(byId[x], k + 1, reduce, red);
      }
    }
  }

  /** A finished task keeps its id, records its stage, and keeps its
      dependencies, or with `reduce` those that are reduction edges. */
  lemma FinishMeaning(t: Task, n: int, reduce: bool, red: Edges)
    ensures var r := Finish(t, n, reduce, red);
      r.id == t.id && Get(r.attrs, "stage") == Int(n) &&
      (!reduce ==> r.deps == t.deps) &&
      (reduce ==> forall d :: d in r.deps <==> d in t.deps && (d, t.id) in red)
  {
  }

  /** With `reduce` the kept dependencies lose no reachability, and none of
      them is implied by a longer path. */
  lemma ReducedDependenciesKeepReach(tasks: seq<Task>, u: string, v: string)
    requires ComputeTaskStages(tasks, true).Ok? && |tasks| > 0
    ensures Reaches(Reduce(StageGraph(tasks).edges), u, v) <==> Reaches(StageGraph(tasks).edges, u, v)
    ensures (u, v) in Reduce(StageGraph(tasks).edges) ==>
      !exists p :: LongPath(StageGraph(tasks).edges, p, u, v)
  {
    StagesOkIffAcyclic(tasks, true);
    ReductionCharacterised(StageGraph(tasks).edges, u, v);
  }

  // ---------------------------------------------------------------------
  // Cycle test on a subset (decompose validation)

  /** `has_cycle_in_subset`: the dependencies among the tasks whose id is in
      `valid` (a dependency counts when it names such a task other than the
      task itself) contain a cycle. */
  function HasCycleInSubset(tasks: seq<Task>, valid: set<string>): bool {
    var s := valid * IdSet(tasks);
    if s == {} then false
    else TopologicalGenerations(BuildDependencyGraph(tasks, Some(s))).None?
  }

  /** The test answers whether a cycle runs through the chosen tasks. */
  lemma HasCycleInSubsetIff(tasks: seq<Task>, valid: set<string>)
    ensures HasCycleInSubset(tasks, valid) <==>
      exists p :: IsCycle(BuildFrom(tasks, valid * IdSet(tasks)).edges, p)
  {
    var s := valid * IdSet(tasks);
    if s == {} {
      var e := BuildFrom(tasks, s).edges;
      forall p | IsCycle(e, p) ensures false {
        NoEdgesNoCycle(tasks, s, p);
      }
    } else {
      var g := BuildDependencyGraph(tasks, Some(s));
      assert ChosenIds(tasks, Some(s)) == s;
      assert g == BuildFrom(tasks, s);
      GenerationsIffAcyclic(g);
    }
  }

  /** Without chosen ids there are no edges, so no cycle. */
  lemma NoEdgesNoCycle(tasks: seq<Task>, s: set<string>, p: seq<string>)
    requires s == {}
    ensures !IsCycle(BuildFrom(tasks, s).edges, p)
  {
    if |p| >= 2 {
      assert (p[0], p[1]) !in BuildFrom(tasks, s).edges;
    }
  }
}
