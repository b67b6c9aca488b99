/** The dependency graph of a task list (an edge d → t when t depends on d),
    its topological generations and its transitive reduction. These are the
    three graph operations the stage computations take from their graph
    library; they are defined here directly. */
module Digraph {
  import opened Wrappers
  import opened Seqs
  import opened Reach
  import opened Tasks

  /** Nodes in insertion order, and the edge set. */
  datatype Graph = Graph(nodes: seq<string>, edges: Edges)

  ghost predicate WellFormed(g: Graph) {
    Distinct(g.nodes) && forall e :: e in g.edges ==> e.0 in g.nodes && e.1 in g.nodes
  }

  /** A path that returns to its start after at least one edge. */
  ghost predicate IsCycle(e: Edges, p: seq<string>) {
    IsPath(e, p) && |p| >= 2 && p[0] == p[|p| - 1]
  }

  ghost predicate NoCycle(e: Edges) {
    forall p :: !IsCycle(e, p)
  }

  ghost predicate Acyclic(g: Graph) {
    NoCycle(g.edges)
  }

  // ---------------------------------------------------------------------
  // Construction

  /** The ids the graph is restricted to: the given set, or every present id
      when none (or an empty set) is given. */
  function ChosenIds(tasks: seq<Task>, ids: Option<set<string>>): set<string> {
    if ids.None? || ids.value == {} then IdSet(tasks) else ids.value
  }

  /** An edge `d → t` contributed by the task list. */
  ghost predicate Contributes(tasks: seq<Task>, s: set<string>, d: string, t: string) {
    t != "" && t in s && d in s && d != t &&
    exists i :: 0 <= i < |tasks| && tasks[i].id == t && d in tasks[i].deps
  }

  function AddDeps(g: Graph, t: string, deps: seq<string>, s: set<string>): (r: Graph)
    ensures forall n :: n in r.nodes <==> n in g.nodes || (n in deps && n in s && n != t)
    ensures forall d, u :: (d, u) in r.edges <==> (d, u) in g.edges || (u == t && d in deps && d in s && d != t)
    ensures Distinct(g.nodes) ==> Distinct(r.nodes)
  {
    if |deps| == 0 then g
    else
      var r0 := AddDeps(g, t, deps[..|deps| - 1], s);
      var d := deps[|deps| - 1];
      assert forall x :: x in deps <==> x in deps[..|deps| - 1] || x == d by {
        assert deps == deps[..|deps| - 1] + [d];
      }
      if d in s && d != t then Graph(AddNew(r0.nodes, d), r0.edges + {(d, t)}) else r0
  }

  /** One iteration of the construction loop. */
  function AddTask(g: Graph, t: Task, s: set<string>): Graph {
    if t.id == "" || t.id !in s then g
    else AddDeps(Graph(AddNew(g.nodes, t.id), g.edges), t.id, t.deps, s)
  }

  function BuildFrom(tasks: seq<Task>, s: set<string>): (g: Graph)
    ensures Distinct(g.nodes)
    ensures forall d, t :: (d, t) in g.edges <==> Contributes(tasks, s, d, t)
    ensures forall n :: n in g.nodes <==>
      (n != "" && n in s && n in IdSet(tasks)) || exists t :: Contributes(tasks, s, n, t)
  {
    if |tasks| == 0 then Graph([], {})
    else
      var front := tasks[..|tasks| - 1];
      var last := tasks[|tasks| - 1];
      var g0 := BuildFrom(front, s);
      ContributesSnoc(tasks, s);
      AddTaskFacts(g0, last, s);
      var r := AddTask(g0, last, s);
      assert forall n :: n in r.nodes <==>
          (n != "" && n in s && n in IdSet(tasks)) || exists t :: Contributes(tasks, s, n, t) by {
        forall n | last.id != "" && last.id in s && n in last.deps && n in s && n != last.id
          ensures Contributes(tasks, s, n, last.id)
        {
          assert tasks[|tasks| - 1] == last;
        }
      }
      r
  }

  /** What one iteration adds: the task's id and its chosen dependencies as
      nodes, an edge from each such dependency to the task. */
  lemma AddTaskFacts(g: Graph, t: Task, s: set<string>)
    ensures var r := AddTask(g, t, s);
      (Distinct(g.nodes) ==> Distinct(r.nodes)) &&
      (forall d, u :: (d, u) in r.edges <==>
        (d, u) in g.edges || (u == t.id && u != "" && u in s && d in s && d != u && d in t.deps)) &&
      (forall n :: n in r.nodes <==>
        n in g.nodes || (n == t.id && n != "" && n in s) ||
        (t.id != "" && t.id in s && n in t.deps && n in s && n != t.id))
  {
  }

  lemma ContributesSnoc(tasks: seq<Task>, s: set<string>)
    requires |tasks| > 0
    ensures var front := tasks[..|tasks| - 1];
      var last := tasks[|tasks| - 1];
      (forall d, t :: Contributes(tasks, s, d, t) <==>
        Contributes(front, s, d, t) || (t == last.id && t != "" && t in s && d in s && d != t && d in last.deps)) &&
      IdSet(tasks) == IdSet(front) + (if last.id == "" then {} else {last.id})
  {
    var front := tasks[..|tasks| - 1];
    forall i | 0 <= i < |front| ensures front[i] == tasks[i] { }
  }

  /** `build_dependency_graph`: a node per chosen task id (and per chosen id
      named as a dependency), an edge `d → t` for every dependency `d` of a
      chosen task `t` with `d` chosen and `d ≠ t`. */
  function BuildDependencyGraph(tasks: seq<Task>, ids: Option<set<string>>): (g: Graph)
    ensures WellFormed(g)
    ensures forall d, t :: (d, t) in g.edges <==> Contributes(tasks, ChosenIds(tasks, ids), d, t)
    ensures forall d :: (d, d) !in g.edges
    ensures ids.None? ==> forall n :: n in g.nodes <==> n in IdSet(tasks)
  {
    var s := ChosenIds(tasks, ids);
    var g := BuildFrom(tasks, s);
    assert forall e :: e in g.edges ==> Contributes(tasks, s, e.0, e.1);
    g
  }

  // ---------------------------------------------------------------------
  // Topological generations

  /** No member of `rem` points to `x`. */
  predicate NoPredIn(e: Edges, rem: seq<string>, x: string) {
    forall m :: m in rem ==> (m, x) !in e
  }

  /** Members of `pool` without a predecessor in `rem`, in order. */
  function Sources(e: Edges, rem: seq<string>, pool: seq<string>): (r: seq<string>)
    ensures forall x :: x in r <==> x in pool && NoPredIn(e, rem, x)
    ensures Distinct(pool) ==> Distinct(r)
  {
    if |pool| == 0 then []
    else
      var rest := Sources(e, rem, pool[1..]);
      assert Distinct(pool) ==> pool[0] !in pool[1..];
      (if NoPredIn(e, rem, pool[0]) then [pool[0]] else []) + rest
  }

  /** Members of `pool` with a predecessor in `rem`, in order. */
  function Blocked(e: Edges, rem: seq<string>, pool: seq<string>): (r: seq<string>)
    ensures forall x :: x in r <==> x in pool && !NoPredIn(e, rem, x)
    ensures Distinct(pool) ==> Distinct(r)
  {
    if |pool| == 0 then []
    else
      var rest := Blocked(e, rem, pool[1..]);
      assert Distinct(pool) ==> pool[0] !in pool[1..];
      (if NoPredIn(e, rem, pool[0]) then [] else [pool[0]]) + rest
  }

  lemma {:induction false} SplitIsPartition(e: Edges, rem: seq<string>, pool: seq<string>)
    ensures multiset(Sources(e, rem, pool)) + multiset(Blocked(e, rem, pool)) == multiset(pool)
  {
    if |pool| > 0 {
      var x := pool[0];
      var s1 := Sources(e, rem, pool[1..]);
      var b1 := Blocked(e, rem, pool[1..]);
      SplitIsPartition(e, rem, pool[1..]);
      assert multiset(pool) == multiset{x} + multiset(pool[1..]) by {
        assert pool == [x] + pool[1..];
      }
      if NoPredIn(e, rem, x) {
        assert Sources(e, rem, pool) == [x] + s1 && Blocked(e, rem, pool) == b1;
      } else {
        assert Sources(e, rem, pool) == s1 && Blocked(e, rem, pool) == [x] + b1;
      }
    }
  }

  /** Kahn's algorithm by layers: the nodes with no predecessor left form the
      next generation; nothing to remove while nodes remain means a cycle. */
  function Gens(e: Edges, rem: seq<string>): (r: Option<seq<seq<string>>>)
    decreases |rem|
  {
    if |rem| == 0 then Some([])
    else
      var gen := Sources(e, rem, rem);
      if |gen| == 0 then None
      else
        var rest := Blocked(e, rem, rem);
        SplitIsPartition(e, rem, rem);
        assert |multiset(rest)| < |multiset(rem)|;
        match Gens(e, rest)
        case None => None
        case Some(gs) => Some([gen] + gs)
  }

  /** `topological_generations`, or nothing when the graph has a cycle. */
  function TopologicalGenerations(g: Graph): Option<seq<seq<string>>> {
    Gens(g.edges, g.nodes)
  }

  /** Every edge between members of the generations goes to a later one. */
  ghost predicate ForwardEdges(e: Edges, gs: seq<seq<string>>) {
    forall i, j, u, v :: 0 <= i < |gs| && 0 <= j < |gs| && u in gs[i] && v in gs[j] && (u, v) in e ==> i < j
  }

  /** Every member of a later generation has a predecessor in the one before,
      so a generation is as early as its dependencies allow. */
  ghost predicate Tight(e: Edges, gs: seq<seq<string>>) {
    forall j :: 1 <= j < |gs| ==> Fed(e, gs[j - 1], gs[j])
  }

  /** Every member of `cur` has a predecessor in `prev`. */
  ghost predicate Fed(e: Edges, prev: seq<string>, cur: seq<string>) {
    forall v :: v in cur ==> exists u :: u in prev && (u, v) in e
  }

  /** The generations partition the nodes into non-empty layers, every edge
      goes forward, and every node sits right after its latest dependency. */
  lemma {:induction false} GensCharacterised(e: Edges, rem: seq<string>)
    requires Gens(e, rem).Some?
    ensures var gs := Gens(e, rem).value;
      multiset(Flatten(gs)) == multiset(rem) &&
      (forall i :: 0 <= i < |gs| ==> |gs[i]| > 0) &&
      ForwardEdges(e, gs) && Tight(e, gs)
    decreases |rem|
  {
    var gs := Gens(e, rem).value;
    if |rem| > 0 {
      var gen := Sources(e, rem, rem);
      var rest := Blocked(e, rem, rem);
      SplitIsPartition(e, rem, rem);
      assert |gen| > 0;
      assert |multiset(rest)| < |multiset(rem)|;
      var tail := Gens(e, rest).value;
      GensCharacterised(e, rest);
      assert gs == [gen] + tail;
      GensStep(e, rem, gen, rest, tail);
    }
  }

  /** The inductive step: the sources of `rem` in front of a layering of
      the blocked rest. */
  lemma GensStep(e: Edges, rem: seq<string>, gen: seq<string>, rest: seq<string>, tail: seq<seq<string>>)
    requires forall x :: x in gen <==> x in rem && NoPredIn(e, rem, x)
    requires forall x :: x in rest <==> x in rem && !NoPredIn(e, rem, x)
    requires multiset(gen) + multiset(rest) == multiset(rem) && |gen| > 0
    requires multiset(Flatten(tail)) == multiset(rest)
    requires forall i :: 0 <= i < |tail| ==> |tail[i]| > 0
    requires ForwardEdges(e, tail) && Tight(e, tail)
    ensures var gs := [gen] + tail;
      multiset(Flatten(gs)) == multiset(rem) &&
      (forall i :: 0 <= i < |gs| ==> |gs[i]| > 0) &&
      ForwardEdges(e, gs) && Tight(e, gs)
  {
    var gs := [gen] + tail;
    assert multiset(Flatten(gs)) == multiset(rem) by {
      assert Flatten(gs) == gen + Flatten(tail);
    }
    assert forall i, u :: 0 <= i < |tail| && u in tail[i] ==> u in rest by {
      forall i, u | 0 <= i < |tail| && u in tail[i] ensures u in rest {
        FlattenMember(tail, u);
        assert u in multiset(Flatten(tail));
      }
    }
    ForwardStep(e, rem, gen, tail);
    assert forall u :: u in rem ==> u in gen || InSomeGen(tail, u) by {
      forall u | u in rem && u !in gen ensures InSomeGen(tail, u) {
        assert u in multiset(gen) + multiset(rest);
        assert u in multiset(Flatten(tail));
        FlattenMember(tail, u);
      }
    }
    TightStep(e, rem, gen, tail);
  }

  /** Putting a layer of nodes without predecessors in `rem` in front of a
      layering of other members of `rem` keeps every edge forward. */
  lemma ForwardStep(e: Edges, rem: seq<string>, gen: seq<string>, tail: seq<seq<string>>)
    requires forall v :: v in gen ==> v in rem && NoPredIn(e, rem, v)
    requires forall i, u :: 0 <= i < |tail| && u in tail[i] ==> u in rem
    requires ForwardEdges(e, tail)
    ensures ForwardEdges(e, [gen] + tail)
  {
    var gs := [gen] + tail;
    forall i, j, u, v | 0 <= i < |gs| && 0 <= j < |gs| && u in gs[i] && v in gs[j] && (u, v) in e
      ensures i < j
    {
      if j > 0 && i > 0 {
        assert u in tail[i - 1] && v in tail[j - 1];
      }
    }
  }

  /** When every node of the next layer has a predecessor in `rem`, and `rem`
      is covered by the front layer and the later ones, that predecessor sits
      in the front layer. */
  lemma TightStep(e: Edges, rem: seq<string>, gen: seq<string>, tail: seq<seq<string>>)
    requires ForwardEdges(e, tail) && Tight(e, tail)
    requires |tail| > 0 ==> forall v :: v in tail[0] ==> !NoPredIn(e, rem, v)
    requires forall u :: u in rem ==> u in gen || InSomeGen(tail, u)
    ensures Tight(e, [gen] + tail)
  {
    var gs := [gen] + tail;
    forall j | 1 <= j < |gs| ensures Fed(e, gs[j - 1], gs[j]) {
      if j == 1 {
        forall v | v in gs[1] ensures exists u :: u in gs[0] && (u, v) in e {
          assert v in tail[0];
          var u :| u in rem && (u, v) in e;
        }
      } else {
        assert gs[j - 1] == tail[j - 2] && gs[j] == tail[j - 1];
      }
    }
  }

  /** From distinct nodes, each generation is duplicate-free and no node sits
      in two generations. */
  lemma {:induction false} GensDistinct(e: Edges, rem: seq<string>)
    requires Gens(e, rem).Some? && Distinct(rem)
    ensures var gs := Gens(e, rem).value;
      (forall k :: 0 <= k < |gs| ==> Distinct(gs[k])) &&
      (forall k1, k2, x :: 0 <= k1 < |gs| && 0 <= k2 < |gs| && x in gs[k1] && x in gs[k2] ==> k1 == k2)
    decreases |rem|
  {
    if |rem| > 0 {
      var gen := Sources(e, rem, rem);
      var rest := Blocked(e, rem, rem);
      SplitIsPartition(e, rem, rem);
      assert |multiset(rest)| < |multiset(rem)|;
      var tail := Gens(e, rest).value;
      GensDistinct(e, rest);
      GensCharacterised(e, rest);
      var gs := [gen] + tail;
      assert Gens(e, rem).value == gs;
      forall k, x | 0 <= k < |tail| && x in tail[k] ensures x in rest {
        FlattenMember(tail, x);
        assert x in multiset(Flatten(tail));
      }
      assert forall x :: x in gen ==> x !in rest;
      LayersApart(gen, tail, rest);
      forall k | 0 <= k < |gs| ensures Distinct(gs[k]) {
        if k > 0 { assert gs[k] == tail[k - 1]; }
      }
    }
  }

  /** A front layer outside `rest` in front of layers inside `rest` that
      share no node keeps the layers sharing no node. */
  lemma LayersApart(gen: seq<string>, tail: seq<seq<string>>, rest: seq<string>)
    requires forall x :: x in gen ==> x !in rest
    requires forall k, x :: 0 <= k < |tail| && x in tail[k] ==> x in rest
    requires forall k1, k2, x :: 0 <= k1 < |tail| && 0 <= k2 < |tail| && x in tail[k1] && x in tail[k2] ==> k1 == k2
    ensures var gs := [gen] + tail;
      forall k1, k2, x :: 0 <= k1 < |gs| && 0 <= k2 < |gs| && x in gs[k1] && x in gs[k2] ==> k1 == k2
  {
    var gs := [gen] + tail;
    forall k1, k2, x | 0 <= k1 < |gs| && 0 <= k2 < |gs| && x in gs[k1] && x in gs[k2] ensures k1 == k2 {
      if k1 > 0 { assert x in tail[k1 - 1]; }
      if k2 > 0 { assert x in tail[k2 - 1]; }
    }
  }

  /** A layered order rules out cycles. */
  lemma NoCycleInLayers(e: Edges, gs: seq<seq<string>>, p: seq<string>)
    requires ForwardEdges(e, gs)
    requires forall k :: 0 <= k < |p| ==> InSomeGen(gs, p[k])
    ensures !IsCycle(e, p)
  {
    if IsCycle(e, p) {
      var i0 :| 0 <= i0 < |gs| && p[0] in gs[i0];
      PathClimbs(e, gs, p, i0);
    }
  }

  ghost predicate InSomeGen(gs: seq<seq<string>>, x: string) {
    exists i :: 0 <= i < |gs| && x in gs[i]
  }

  lemma {:induction false} PathClimbs(e: Edges, gs: seq<seq<string>>, p: seq<string>, i0: nat)
    requires ForwardEdges(e, gs)
    requires IsPath(e, p) && |p| >= 2
    requires i0 < |gs| && p[0] in gs[i0]
    requires forall k :: 0 <= k < |p| ==> InSomeGen(gs, p[k])
    ensures forall i :: 0 <= i < |gs| && p[|p| - 1] in gs[i] ==> i > i0
    decreases |p|
  {
    var n := |p|;
    assert (p[n - 2], p[n - 1]) in e;
    if n == 2 {
    } else {
      var q := p[..n - 1];
      assert IsPath(e, q);
      assert forall k :: 0 <= k < |q| ==> q[k] == p[k];
      PathClimbs(e, gs, q, i0);
      assert InSomeGen(gs, p[n - 2]);
      var m :| 0 <= m < |gs| && p[n - 2] in gs[m];
      assert m > i0;
    }
  }

  /** When every remaining node has a remaining predecessor, walking
      predecessors must eventually revisit a node: a cycle. */
  lemma StuckMeansCycle(e: Edges, rem: seq<string>) returns (p: seq<string>)
    requires |rem| > 0
    requires forall x :: x in rem ==> !NoPredIn(e, rem, x)
    ensures IsCycle(e, p)
    ensures forall k :: 0 <= k < |p| ==> p[k] in rem
  {
    var s := set x | x in rem;
    var w := BackWalk(e, rem, rem[0], |s|);
    var i, j := Pigeonhole(w, s);
    var seg := w[i..j + 1];
    p := Reverse(seg);
    forall k | 0 <= k < |p| - 1 ensures (p[k], p[k + 1]) in e {
      assert p[k] == w[j - k] && p[k + 1] == w[j - k - 1];
    }
  }

  lemma {:induction false} BackWalk(e: Edges, rem: seq<string>, start: string, n: nat) returns (w: seq<string>)
    requires start in rem
    requires forall x :: x in rem ==> !NoPredIn(e, rem, x)
    ensures |w| == n + 1 && w[0] == start
    ensures forall k :: 0 <= k < |w| ==> w[k] in rem
    ensures forall k :: 0 <= k < |w| - 1 ==> (w[k + 1], w[k]) in e
  {
    if n == 0 {
      w := [start];
    } else {
      var w0 := BackWalk(e, rem, start, n - 1);
      var x := w0[|w0| - 1];
      assert !NoPredIn(e, rem, x);
      var m :| m in rem && (m, x) in e;
      w := w0 + [m];
    }
  }

  /** Kahn's layering fails exactly when the nodes carry a cycle. */
  lemma {:induction false} GensNoneIffCycle(e: Edges, rem: seq<string>)
    ensures Gens(e, rem).None? <==> exists p :: IsCycle(e, p) && forall k :: 0 <= k < |p| ==> p[k] in rem
    decreases |rem|
  {
    if |rem| > 0 {
      var gen := Sources(e, rem, rem);
      var rest := Blocked(e, rem, rem);
      SplitIsPartition(e, rem, rem);
      if |gen| == 0 {
        forall x | x in rem ensures !NoPredIn(e, rem, x) {
          assert x !in gen;
        }
        var p := StuckMeansCycle(e, rem);
      } else {
        assert |multiset(rest)| < |multiset(rem)|;
        GensNoneIffCycle(e, rest);
        if Gens(e, rest).None? {
          var p :| IsCycle(e, p) && forall k :: 0 <= k < |p| ==> p[k] in rest;
          assert forall k :: 0 <= k < |p| ==> p[k] in rem by {
            forall k | 0 <= k < |p| ensures p[k] in rem {
              assert p[k] in multiset(rest);
            }
          }
        } else {
          GensCharacterised(e, rem);
          var gs := Gens(e, rem).value;
          forall p | IsCycle(e, p) && forall k :: 0 <= k < |p| ==> p[k] in rem
            ensures false
          {
            forall k | 0 <= k < |p| ensures InSomeGen(gs, p[k]) {
              assert p[k] in multiset(Flatten(gs));
              FlattenMember(gs, p[k]);
            }
            NoCycleInLayers(e, gs, p);
          }
        }
      }
    }
  }

  /** For a well-formed graph: generations exist exactly when it is acyclic. */
  lemma GenerationsIffAcyclic(g: Graph)
    requires WellFormed(g)
    ensures TopologicalGenerations(g).Some? <==> Acyclic(g)
  {
    GensNoneIffCycle(g.edges, g.nodes);
    forall p | IsCycle(g.edges, p) ensures forall k :: 0 <= k < |p| ==> p[k] in g.nodes {
      forall k | 0 <= k < |p| ensures p[k] in g.nodes {
        if k < |p| - 1 {
          assert (p[k], p[k + 1]) in g.edges;
        } else {
          assert (p[k - 1], p[k]) in g.edges;
        }
      }
    }
  }

  // ---------------------------------------------------------------------
  // Transitive reduction

  /** The edge `u → v` is implied by another path: some other successor `w`
      of `u` reaches `v`. */
  predicate Redundant(e: Edges, u: string, v: string) {
    exists w :: w in Successors(e, {u}) && w != v && v in Closure(e, {w})
  }

  /** `transitive_reduction` of a directed acyclic graph: the edges not implied
      by a longer path. */
  function Reduce(e: Edges): (r: Edges)
    ensures r <= e
    ensures forall u, v :: (u, v) in e && !Redundant(e, u, v) ==> (u, v) in r
  {
    set x | x in e && !Redundant(e, x.0, x.1)
  }

  /** `p` is a path of at least two edges from `u` to `v`. */
  ghost predicate LongPath(e: Edges, p: seq<string>, u: string, v: string) {
    IsPath(e, p) && |p| >= 3 && p[0] == u && p[|p| - 1] == v
  }

  lemma InClosureOne(e: Edges, w: string, x: string)
    ensures x in Closure(e, {w}) <==> Reaches(e, w, x)
  {
    assert ReachableFrom(e, {w}, x) <==> Reaches(e, w, x);
  }

  /** Another successor `w` of `u` reaches `v`. */
  ghost predicate Detour(e: Edges, u: string, v: string) {
    exists w :: (u, w) in e && w != v && Reaches(e, w, v)
  }

  /** `Redundant` in terms of edges and paths. */
  lemma RedundantMeans(e: Edges, u: string, v: string)
    ensures Redundant(e, u, v) <==> Detour(e, u, v)
  {
    if Redundant(e, u, v) {
      var w :| w in Successors(e, {u}) && w != v && v in Closure(e, {w});
      SuccessorOfOne(e, u, w);
      InClosureOne(e, w, v);
    }
    if Detour(e, u, v) {
      var w :| (u, w) in e && w != v && Reaches(e, w, v);
      SuccessorOfOne(e, u, w);
      InClosureOne(e, w, v);
    }
  }

  lemma SuccessorOfOne(e: Edges, u: string, w: string)
    ensures w in Successors(e, {u}) <==> (u, w) in e
  {
    assert (u, w) in e ==> (exists x :: x in {u} && (x, w) in e);
  }

  /** In an acyclic graph an edge is dropped exactly when a path of two or
      more edges joins its ends. */
  lemma RedundantIffLongPath(e: Edges, u: string, v: string)
    requires NoCycle(e)
    ensures Redundant(e, u, v) <==> exists p :: LongPath(e, p, u, v)
  {
    RedundantMeans(e, u, v);
    if Detour(e, u, v) {
      var p := DetourGivesLongPath(e, u, v);
    }
    if exists p :: LongPath(e, p, u, v) {
      var p :| LongPath(e, p, u, v);
      LongPathGivesDetour(e, p, u, v);
    }
  }

  lemma DetourGivesLongPath(e: Edges, u: string, v: string) returns (p: seq<string>)
    requires Detour(e, u, v)
    ensures LongPath(e, p, u, v)
  {
    var w :| (u, w) in e && w != v && Reaches(e, w, v);
    var q :| IsPath(e, q) && q[0] == w && q[|q| - 1] == v;
    p := [u] + q;
    assert IsPath(e, p);
  }

  lemma LongPathGivesDetour(e: Edges, p: seq<string>, u: string, v: string)
    requires NoCycle(e) && LongPath(e, p, u, v)
    ensures Detour(e, u, v)
  {
    var q := p[1..];
    assert IsPath(e, q);
    assert (u, p[1]) in e;
    assert !IsCycle(e, q);
    assert p[1] != v;
    assert Reaches(e, p[1], v);
  }

  /** A path through both `a → b` and `b → a` with `a ≠ b` closes a cycle. */
  lemma RoundTripIsCycle(e: Edges, a: string, b: string)
    requires Reaches(e, a, b) && Reaches(e, b, a) && a != b
    ensures !NoCycle(e)
  {
    var p :| IsPath(e, p) && p[0] == a && p[|p| - 1] == b;
    var q :| IsPath(e, q) && q[0] == b && q[|q| - 1] == a;
    var r := p + q[1..];
    forall i | 0 <= i < |r| - 1 ensures (r[i], r[i + 1]) in e {
      if i >= |p| - 1 {
        assert r[i] == q[i - |p| + 1];
        assert r[i + 1] == q[i - |p| + 2];
      }
    }
    assert IsCycle(e, r);
  }

  /** Following an edge of an acyclic graph strictly shrinks the reachable set. */
  lemma ClosureShrinks(e: Edges, a: string, b: string)
    requires NoCycle(e)
    requires Reaches(e, a, b) && a != b
    ensures 1 <= |Closure(e, {b})| < |Closure(e, {a})|
  {
    ClosureBelow(e, a, b);
    Sets.MissingMemberCard(Closure(e, {b}), Closure(e, {a}), a);
    Sets.MissingMemberCard({}, Closure(e, {b}), b);
  }

  lemma ClosureBelow(e: Edges, a: string, b: string)
    requires NoCycle(e)
    requires Reaches(e, a, b) && a != b
    ensures Closure(e, {b}) <= Closure(e, {a}) - {a}
  {
    var ca := Closure(e, {a});
    var cb := Closure(e, {b});
    assert a !in cb by {
      InClosureOne(e, b, a);
      if Reaches(e, b, a) {
        RoundTripIsCycle(e, a, b);
      }
    }
    ClosureOfReached(e, a, b);
    Sets.SubsetWithout(cb, ca, a);
  }

  /** What a reached node reaches, the start reaches too. */
  lemma ClosureOfReached(e: Edges, a: string, b: string)
    requires Reaches(e, a, b)
    ensures Closure(e, {b}) <= Closure(e, {a})
  {
    forall v | v in Closure(e, {b}) ensures v in Closure(e, {a}) {
      InClosureOne(e, b, v);
      ReachesTrans(e, a, b, v);
      InClosureOne(e, a, v);
    }
  }

  /** The reduction keeps every edge as a path. */
  lemma {:induction false} ReduceKeepsEdge(e: Edges, u: string, x: string)
    requires NoCycle(e) && (u, x) in e
    ensures Reaches(Reduce(e), u, x)
    decreases |Closure(e, {u})|, |Closure(e, {u})| - |Closure(e, {x})|
  {
    var r := Reduce(e);
    if (u, x) in r {
      assert IsPath(r, [u, x]);
    } else {
      InReduce(e, u, x);
      RedundantMeans(e, u, x);
      var w := DetourShrinks(e, u, x);
      ReduceKeepsReach(e, w, x);
      ReduceKeepsEdge(e, u, w);
      ReachesTrans(r, u, w, x);
    }
  }

  lemma InReduce(e: Edges, u: string, x: string)
    ensures (u, x) in Reduce(e) <==> (u, x) in e && !Redundant(e, u, x)
  {
  }

  /** A detour `u → w ⇝ x` passes through a node `w` that sits strictly
      between `u` and `x` in reachable-set size. */
  lemma DetourShrinks(e: Edges, u: string, x: string) returns (w: string)
    requires NoCycle(e) && Detour(e, u, x)
    ensures (u, w) in e && Reaches(e, w, x)
    ensures |Closure(e, {x})| < |Closure(e, {w})| < |Closure(e, {u})|
  {
    w :| (u, w) in e && w != x && Reaches(e, w, x);
    assert Reaches(e, u, w) by { assert IsPath(e, [u, w]); }
    assert !IsCycle(e, [u, w]);
    ClosureShrinks(e, u, w);
    ClosureShrinks(e, w, x);
  }

  /** Reachability survives the reduction. */
  lemma {:induction false} ReduceKeepsReach(e: Edges, a: string, b: string)
    requires NoCycle(e) && Reaches(e, a, b)
    ensures Reaches(Reduce(e), a, b)
    decreases |Closure(e, {a})|, |Closure(e, {a})|
  {
    var p :| IsPath(e, p) && p[0] == a && p[|p| - 1] == b;
    if |p| == 1 {
      ReachesRefl(Reduce(e), a);
    } else {
      var y := p[1];
      assert (a, y) in e;
      assert a != y by { assert !IsCycle(e, [a, y]); }
      assert Reaches(e, a, y) by { assert IsPath(e, [a, y]); }
      assert Reaches(e, y, b) by { assert IsPath(e, p[1..]); }
      ClosureShrinks(e, a, y);
      ReduceKeepsEdge(e, a, y);
      ReduceKeepsReach(e, y, b);
      ReachesTrans(Reduce(e), a, y, b);
    }
  }

  /** The reduction of an acyclic graph has exactly the reachability of the
      graph, and no kept edge can be dropped without losing some of it. */
  lemma ReductionCharacterised(e: Edges, u: string, v: string)
    requires NoCycle(e)
    ensures Reaches(Reduce(e), u, v) <==> Reaches(e, u, v)
    ensures (u, v) in Reduce(e) <==> (u, v) in e && !exists p :: LongPath(e, p, u, v)
    ensures (u, v) in Reduce(e) ==> !Reaches(Reduce(e) - {(u, v)}, u, v)
  {
    var r := Reduce(e);
    if Reaches(e, u, v) { ReduceKeepsReach(e, u, v); }
    if Reaches(r, u, v) { ReachesMono(r, e, u, v); }
    RedundantIffLongPath(e, u, v);
    if (u, v) in r && Reaches(r - {(u, v)}, u, v) {
      var p :| IsPath(r - {(u, v)}, p) && p[0] == u && p[|p| - 1] == v;
      assert IsPath(e, p);
      assert u != v by { assert !IsCycle(e, [u, v]); }
      if |p| > 2 {
        assert LongPath(e, p, u, v);
      }
    }
  }
}
