/** The monitor's execution builder: every non-atomic dependency is replaced
    by the atomic tasks it transitively depends on (a visited set cuts
    cycles), repeats are dropped keeping first occurrences, and the result is
    staged by the task module's staging (dependency sinking, cleaning) and
    marked undone. */
module MonitorBuilder {
  import opened Wrappers
  import opened Seqs
  import opened Reach
  import opened Tasks
  import opened Plans
  import Sets
  import Stages
  import Sink

  /** The state `_get_transitive_atomic_deps` threads through its recursion:
      the atomic ids found so far and the shared visited set. */
  datatype Walk = Walk(found: seq<string>, visited: set<string>)

  /** "`x` depends on `y`" for the non-atomic tasks of the table: the edges
      the walk may follow. */
  function Expands(m: map<string, Task>, atomicIds: set<string>): Edges {
    set x, y | x in m && x !in atomicIds && y in m[x].deps :: (x, y)
  }

  /** `_get_transitive_atomic_deps(d, ...)`: nothing for a visited id, the id
      itself when atomic, nothing for an unknown id, otherwise the walk over
      the task's dependencies in order. Each call marks `d` visited. */
  function TransitiveAtomic(d: string, m: map<string, Task>, atomicIds: set<string>, visited: set<string>): (w: Walk)
    ensures visited + {d} <= w.visited
    ensures forall x :: x in w.found ==> x in atomicIds && Reaches(Expands(m, atomicIds), d, x)
    decreases |m.Keys - visited|, 0, 0
  {
    if d in visited then
      Walk([], visited)
    else if d in atomicIds then
      ReachesRefl(Expands(m, atomicIds), d);
      Walk([d], visited + {d})
    else if d !in m then
      Walk([], visited + {d})
    else
      Sets.MissingMemberCard(m.Keys - (visited + {d}), m.Keys - visited, d);
      var w := TransitiveList(m[d].deps, m, atomicIds, visited + {d});
      forall x | x in w.found ensures Reaches(Expands(m, atomicIds), d, x) {
        var y :| y in m[d].deps && Reaches(Expands(m, atomicIds), y, x);
        assert (d, y) in Expands(m, atomicIds);
        ReachesStep(Expands(m, atomicIds), d, d, y);
        ReachesTrans(Expands(m, atomicIds), d, y, x);
      }
      w
  }

  /** The walk over a list of dependencies, left to right, sharing the
      visited set. */
  function TransitiveList(ds: seq<string>, m: map<string, Task>, atomicIds: set<string>, visited: set<string>): (w: Walk)
    ensures visited <= w.visited
    ensures forall x :: x in w.found ==> x in atomicIds && exists y :: y in ds && Reaches(Expands(m, atomicIds), y, x)
    decreases |m.Keys - visited|, 1, |ds|
  {
    if |ds| == 0 then Walk([], visited)
    else
      var w1 := TransitiveAtomic(ds[0], m, atomicIds, visited);
      Sets.SubsetCard(m.Keys - w1.visited, m.Keys - visited);
      var w2 := TransitiveList(ds[1..], m, atomicIds, w1.visited);
      assert forall y :: y in ds[1..] ==> y in ds;
      Walk(w1.found + w2.found, w2.visited)
  }

  /** A cycle of non-atomic tasks ends the walk with nothing found. */
  lemma CyclicWalkEnds()
    ensures var m := map["1" := Task("1", ["2"], map[]), "2" := Task("2", ["1"], map[])];
      TransitiveAtomic("1", m, {}, {}) == Walk([], {"1", "2"})
  {
    var m := map["1" := Task("1", ["2"], map[]), "2" := Task("2", ["1"], map[])];
    var v: set<string> := {"1", "2"};
    assert TransitiveAtomic("1", m, {}, v) == Walk([], v);
    assert TransitiveList([], m, {}, v) == Walk([], v);
    assert ["1"][1..] == [];
    assert TransitiveList(["1"], m, {}, v) == Walk([], v);
    assert {"1"} + {"2"} == v;
    assert TransitiveAtomic("2", m, {}, {"1"}) == Walk([], v);
    assert ["2"][1..] == [];
    assert TransitiveList(["2"], m, {}, {"1"}) == Walk([], v);
    assert {} + {"1"} == {"1"};
  }

  /** The candidate replacements of a dependency list, in order: an atomic
      dependency stands for itself, any other for its transitive atomic
      dependencies (each walk starting afresh). */
  function Candidates(deps: seq<string>, m: map<string, Task>, atomicIds: set<string>): (r: seq<string>)
    ensures forall x :: x in r ==> x in atomicIds
    ensures forall d :: d in deps && d in atomicIds ==> d in r
  {
    if |deps| == 0 then []
    else
      var d := deps[0];
      (if d in atomicIds then [d] else TransitiveAtomic(d, m, atomicIds, {}).found) +
      Candidates(deps[1..], m, atomicIds)
  }

  /** The first index at which `x` occurs. */
  function FirstIndex(s: seq<string>, x: string): (i: nat)
    requires x in s
    ensures i < |s| && s[i] == x && forall j :: 0 <= j < i ==> s[j] != x
  {
    if s[0] == x then 0 else 1 + FirstIndex(s[1..], x)
  }

  /** `new_deps` with `seen`: the elements of `s`, each once, at its first
      occurrence. */
  function Dedup(s: seq<string>): (r: seq<string>)
    ensures Distinct(r)
    ensures forall x :: x in r <==> x in s
  {
    if |s| == 0 then [] else AddNew(Dedup(s[..|s| - 1]), s[|s| - 1])
  }

  /** Deduplication keeps the order of first occurrences. */
  lemma {:induction false} DedupOrder(s: seq<string>)
    ensures forall i, j :: 0 <= i < j < |Dedup(s)| ==>
      FirstIndex(s, Dedup(s)[i]) < FirstIndex(s, Dedup(s)[j])
  {
    if |s| > 0 {
      DedupOrder(s[..|s| - 1]);
      DedupOrderStep(s[..|s| - 1], s[|s| - 1], Dedup(s[..|s| - 1]));
      assert s == s[..|s| - 1] + [s[|s| - 1]];
    }
  }

  /** Adding the last element keeps the first-occurrence order. */
  lemma DedupOrderStep(front: seq<string>, x: string, r0: seq<string>)
    requires forall y :: y in r0 <==> y in front
    requires forall i, j :: 0 <= i < j < |r0| ==> FirstIndex(front, r0[i]) < FirstIndex(front, r0[j])
    ensures var r := AddNew(r0, x);
      forall i, j :: 0 <= i < j < |r| ==> FirstIndex(front + [x], r[i]) < FirstIndex(front + [x], r[j])
  {
    var s := front + [x];
    var r := AddNew(r0, x);
    forall i | 0 <= i < |r0| ensures FirstIndex(s, r0[i]) == FirstIndex(front, r0[i]) < |front| {
      assert front == s[..|front|];
      FirstIndexPrefix(s, front, r0[i]);
    }
    if x !in r0 {
      assert r == r0 + [x];
      assert FirstIndex(s, x) == |front| by {
        assert x !in front;
      }
      forall i, j | 0 <= i < j < |r| ensures FirstIndex(s, r[i]) < FirstIndex(s, r[j]) {
        if j == |r0| {
          assert r[i] == r0[i];
        } else {
          assert r[i] == r0[i] && r[j] == r0[j];
        }
      }
    }
  }

  lemma FirstIndexPrefix(s: seq<string>, front: seq<string>, y: string)
    requires |front| <= |s| && front == s[..|front|] && y in front
    ensures FirstIndex(s, y) == FirstIndex(front, y)
  {
    var k := FirstIndex(front, y);
    assert s[k] == y;
    assert forall j :: 0 <= j < k ==> s[j] == front[j];
    var i := FirstIndex(s, y);
    assert !(i < k) && !(k < i);
  }

  /** `_clean_dependencies_for_atomic` on one task. */
  function CleanTask(t: Task, m: map<string, Task>, atomicIds: set<string>): Task {
    t.(deps := Dedup(Candidates(t.deps, m, atomicIds)))
  }

  /** `_clean_dependencies_for_atomic`. */
  function CleanForAtomic(atomic: seq<Task>, m: map<string, Task>): (r: seq<Task>)
    ensures |r| == |atomic|
    ensures forall i :: 0 <= i < |r| ==> r[i] == CleanTask(atomic[i], m, set t | t in atomic :: t.id)
    ensures forall i :: 0 <= i < |r| ==> r[i].id == atomic[i].id
  {
    var ids := set t | t in atomic :: t.id;
    seq(|atomic|, i requires 0 <= i < |atomic| => CleanTask(atomic[i], m, ids))
  }

  /** A cleaned task keeps its id and other fields; its dependencies are
      atomic ids without repeats, every atomic dependency it listed is kept,
      and every non-atomic one is replaced by atomic tasks it leads to. */
  lemma CleanedTaskFacts(all: seq<Task>, i: nat)
    requires i < |AtomicTasks(all)|
    ensures var a := AtomicTasks(all)[i];
      var t := CleanForAtomic(AtomicTasks(all), TaskMap(all))[i];
      var e := Expands(TaskMap(all), AtomicIds(all));
      t.id == a.id && t.attrs == a.attrs && Distinct(t.deps) &&
      (forall x :: x in t.deps ==> x in AtomicIds(all)) &&
      (forall d :: d in a.deps && d in AtomicIds(all) ==> d in t.deps) &&
      (forall x :: x in t.deps ==> exists d :: d in a.deps && Reaches(e, d, x))
  {
    var atomic := AtomicTasks(all);
    var ids := set t | t in atomic :: t.id;
    assert ids == AtomicIds(all);
    CandidatesReach(atomic[i].deps, TaskMap(all), ids);
  }

  /** Every candidate is reached from one of the listed dependencies. */
  lemma {:induction false} CandidatesReach(deps: seq<string>, m: map<string, Task>, atomicIds: set<string>)
    ensures forall x :: x in Candidates(deps, m, atomicIds) ==>
      exists d :: d in deps && Reaches(Expands(m, atomicIds), d, x)
  {
    if |deps| > 0 {
      var d := deps[0];
      CandidatesReach(deps[1..], m, atomicIds);
      ReachesRefl(Expands(m, atomicIds), d);
      assert forall y :: y in deps[1..] ==> y in deps;
    }
  }

  /** The monitor's `build_execution_from_plan`. */
  function BuildExecutionFromPlan(all: seq<Task>): (r: Result<seq<Task>, string>)
    ensures |AtomicTasks(all)| == 0 ==> r == Ok([])
    ensures r.Err? ==> r.error == Stages.CycleError
  {
    if |all| == 0 then Ok([])
    else
      var atomic := AtomicTasks(all);
      if |atomic| == 0 then Ok([])
      else
        match Sink.ComputeSunkStages(CleanForAtomic(atomic, TaskMap(all)))
        case Err(e) => Err(e)
        case Ok(st) => Ok(MarkUndone(Flatten(st)))
  }

  /** A built execution holds one task per non-empty atomic id, all marked
      undone. */
  lemma BuiltExecutionFacts(all: seq<Task>)
    requires BuildExecutionFromPlan(all).Ok?
    ensures forall t :: t in BuildExecutionFromPlan(all).value ==>
      "status" in t.attrs && t.attrs["status"] == Json.Str("undone")
    ensures Tasks.TaskIds(BuildExecutionFromPlan(all).value) == AtomicIds(all) - {""}
  {
    var atomic := AtomicTasks(all);
    if |all| == 0 || |atomic| == 0 {
      assert atomic == [];
    } else {
      var cleaned := CleanForAtomic(atomic, TaskMap(all));
      var st := Sink.ComputeSunkStages(cleaned).value;
      assert BuildExecutionFromPlan(all).value == MarkUndone(Flatten(st));
      SunkExecution(cleaned, st);
      CleanedIds(all);
    }
  }

  /** Cleaning keeps the ids of the atomic tasks. */
  lemma CleanedIds(all: seq<Task>)
    ensures IdSet(CleanForAtomic(AtomicTasks(all), TaskMap(all))) == AtomicIds(all) - {""}
  {
    var atomic := AtomicTasks(all);
    var cleaned := CleanForAtomic(atomic, TaskMap(all));
    SameIds(cleaned, atomic);
    AtomicIdSet(all);
  }

  lemma AtomicIdSet(all: seq<Task>)
    ensures IdSet(AtomicTasks(all)) == AtomicIds(all) - {""}
  {
    var atomic := AtomicTasks(all);
    forall x | x in AtomicIds(all) - {""} ensures x in IdSet(atomic) {
      var t :| t in all && IsAtomic(t) && t.id == x;
      var i :| 0 <= i < |atomic| && atomic[i] == t;
    }
    forall x | x in IdSet(atomic) ensures x in AtomicIds(all) - {""} {
      var i :| 0 <= i < |atomic| && atomic[i].id == x && x != "";
      assert atomic[i] in atomic;
    }
  }

  lemma SameIds(a: seq<Task>, b: seq<Task>)
    requires |a| == |b| && forall i :: 0 <= i < |a| ==> a[i].id == b[i].id
    ensures IdSet(a) == IdSet(b)
  {
  }

  lemma SunkExecution(cleaned: seq<Task>, st: seq<seq<Task>>)
    requires |cleaned| > 0 && Sink.ComputeSunkStages(cleaned) == Ok(st)
    ensures forall t :: t in MarkUndone(Flatten(st)) ==> "status" in t.attrs && t.attrs["status"] == Json.Str("undone")
    ensures Tasks.TaskIds(MarkUndone(Flatten(st))) == IdSet(cleaned)
  {
    Sink.SunkStagesPartitionIds(cleaned);
    FlattenedIds(st, IdSet(Sink.Sunk(cleaned)));
    MarkUndoneMeaning(st);
    SunkIds(cleaned);
  }

  /** Sinking and numbering keep exactly the non-empty ids. */
  lemma SunkIds(cleaned: seq<Task>)
    requires |cleaned| > 0
    ensures IdSet(Sink.Sunk(cleaned)) == IdSet(cleaned)
  {
    var s := Sink.SinkDependencies(cleaned);
    var n := Sink.Sunk(cleaned);
    assert forall i :: 0 <= i < |s| ==> s[i].id != "" by {
      Sink.SinkKeepsTasks(cleaned);
    }
    assert forall i :: 0 <= i < |n| ==> n[i].id == s[i].id;
    Tasks.SameIdsAlong(n, s);
    assert IdSet(s) == IdSet(cleaned) by {
      Sink.SinkKeepsTasks(cleaned);
      Tasks.TaskIdsOfNonEmpty(s);
    }
  }
}
