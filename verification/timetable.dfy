/** The monitor's timetable: dependency cleaning between consecutive stages,
    the grid layout of staged tasks, and the flat tree data both timetable
    modules hand to the front end. */
module Timetable {
  import opened Wrappers
  import opened Seqs
  import opened Strs
  import opened Json
  import opened Tasks
  import Sets

  // ---------------------------------------------------------------------
  // deep_clone

  /** `deep_clone`: lists and dicts are rebuilt element by element, every
      other value is returned as it is. */
  function DeepClone(v: Value): (r: Value)
    ensures r == v
    decreases v
  {
    match v
    case Arr(items) =>
      var c := seq(|items|, i requires 0 <= i < |items| => (assert items[i] in items; DeepClone(items[i])));
      assert c == items;
      Arr(c)
    case Obj(fields) =>
      var c := map k | k in fields :: (assert fields[k] in fields.Values; DeepClone(fields[k]));
      assert c == fields;
      Obj(c)
    case _ => v
  }

  // ---------------------------------------------------------------------
  // clean_dependencies

  /** Ids of the tasks of a stage that carry one. */
  function StageIds(stage: seq<Task>): set<string> {
    set t | t in stage && t.id != "" :: t.id
  }

  /** `keep_dep`: the stripped dependency is not blank, not one of the
      placeholders "undefined" and "null", and names a task of the previous
      stage. */
  predicate KeepDep(d: string, prev: set<string>) {
    var t := Strip(d);
    t != "" && t != "undefined" && t != "null" && t in prev
  }

  /** The kept dependencies, stripped, in order. */
  function CleanDeps(deps: seq<string>, prev: set<string>): (r: seq<string>)
    ensures |r| <= |deps|
    ensures forall x :: x in r <==> exists d :: d in deps && KeepDep(d, prev) && Strip(d) == x
  {
    if |deps| == 0 then []
    else
      var rest := CleanDeps(deps[1..], prev);
      assert forall d :: d in deps <==> d == deps[0] || d in deps[1..];
      (if KeepDep(deps[0], prev) then [Strip(deps[0])] else []) + rest
  }

  /** A task with no dependencies is left alone; otherwise its dependency
      list is cleaned against the previous stage. */
  function CleanTask(t: Task, prev: set<string>): Task {
    if |t.deps| == 0 then t else t.(deps := CleanDeps(t.deps, prev))
  }

  /** One later stage cleaned against the ids of the stage before it. */
  function CleanStage(stage: seq<Task>, prev: set<string>): (r: seq<Task>)
    ensures |r| == |stage|
    ensures forall j :: 0 <= j < |r| ==> r[j] == CleanTask(stage[j], prev)
  {
    seq(|stage|, j requires 0 <= j < |stage| => CleanTask(stage[j], prev))
  }

  /** `clean_dependencies`: the first stage is kept as it is; in every later
      stage each dependency list keeps only the (stripped) ids of tasks of
      the stage right before. */
  function CleanDependencies(stages: seq<seq<Task>>): (r: seq<seq<Task>>)
    ensures |r| == |stages|
    ensures |stages| > 0 ==> r[0] == stages[0]
    ensures forall i :: 1 <= i < |r| ==> r[i] == CleanStage(stages[i], StageIds(stages[i - 1]))
  {
    seq(|stages|, i requires 0 <= i < |stages| =>
      if i == 0 then stages[0]
      else CleanStage(stages[i], StageIds(stages[i - 1])))
  }

  /** What survives cleaning: in a later stage, a task with dependencies
      keeps exactly the stripped ids of previous-stage tasks among them, none
      blank or a placeholder; a task without dependencies keeps none. */
  lemma CleanDependenciesMeaning(stages: seq<seq<Task>>, i: nat, j: nat)
    requires 1 <= i < |stages| && j < |stages[i]|
    ensures var r := CleanDependencies(stages)[i][j];
      var t := stages[i][j];
      (|t.deps| == 0 ==> r.deps == []) &&
      (forall x :: x in r.deps ==>
        x in StageIds(stages[i - 1]) && x == Strip(x) && x != "" && x != "undefined" && x != "null") &&
      (|t.deps| > 0 ==> forall x :: x in r.deps <==>
        exists d :: d in t.deps && Strip(d) == x && x != "" && x != "undefined" && x != "null" &&
          x in StageIds(stages[i - 1]))
  {
    var t := stages[i][j];
    var prev := StageIds(stages[i - 1]);
    var r := CleanDependencies(stages)[i][j];
    assert r == CleanTask(t, prev);
    forall x | x in r.deps ensures x == Strip(x) {
      var d :| d in t.deps && KeepDep(d, prev) && Strip(d) == x;
      StripIdempotent(d);
    }
  }

  /** Cleaning already cleaned stages changes nothing. */
  lemma CleanDependenciesIdempotent(stages: seq<seq<Task>>)
    ensures CleanDependencies(CleanDependencies(stages)) == CleanDependencies(stages)
  {
    var r := CleanDependencies(stages);
    var rr := CleanDependencies(r);
    forall i | 1 <= i < |r| ensures rr[i] == r[i] {
      var prev := StageIds(stages[i - 1]);
      if i - 1 > 0 {
        CleanStageKeepsIds(stages[i - 1], StageIds(stages[i - 2]));
      }
      assert StageIds(r[i - 1]) == prev;
      CleanStageTwice(stages[i], prev);
    }
  }

  lemma CleanStageKeepsIds(stage: seq<Task>, prev: set<string>)
    ensures StageIds(CleanStage(stage, prev)) == StageIds(stage)
  {
    var c := CleanStage(stage, prev);
    forall x | x in StageIds(stage) ensures x in StageIds(c) {
      var t :| t in stage && t.id != "" && t.id == x;
      var j :| 0 <= j < |stage| && stage[j] == t;
      assert c[j] in c;
    }
    forall x | x in StageIds(c) ensures x in StageIds(stage) {
      var t :| t in c && t.id != "" && t.id == x;
      var j :| 0 <= j < |c| && c[j] == t;
      assert stage[j] in stage;
    }
  }

  lemma CleanStageTwice(stage: seq<Task>, prev: set<string>)
    ensures CleanStage(CleanStage(stage, prev), prev) == CleanStage(stage, prev)
  {
    var c := CleanStage(stage, prev);
    forall j | 0 <= j < |c| ensures CleanTask(c[j], prev) == c[j] {
      CleanTaskTwice(stage[j], prev);
    }
  }

  lemma CleanTaskTwice(t: Task, prev: set<string>)
    ensures CleanTask(CleanTask(t, prev), prev) == CleanTask(t, prev)
  {
    if |t.deps| > 0 {
      var ds := CleanDeps(t.deps, prev);
      forall x | x in ds ensures KeepDep(x, prev) && Strip(x) == x {
        var d :| d in t.deps && KeepDep(d, prev) && Strip(d) == x;
        StripIdempotent(d);
      }
      CleanDepsKeepsClean(ds, prev);
    }
  }

  lemma {:induction false} CleanDepsKeepsClean(ds: seq<string>, prev: set<string>)
    requires forall x :: x in ds ==> KeepDep(x, prev) && Strip(x) == x
    ensures CleanDeps(ds, prev) == ds
  {
    if |ds| > 0 {
      CleanDepsKeepsClean(ds[1..], prev);
      assert ds == [ds[0]] + ds[1..];
    }
  }

  // ---------------------------------------------------------------------
  // Tree data

  /** The stage a tree-data entry carries: its own, or 1 when it has none. */
  function StageOrOne(t: Task): Value {
    if "stage" in t.attrs then t.attrs["stage"] else Int(1)
  }

  /** `{**task, "stage": task.get("stage", 1)}` */
  function TreeEntry(t: Task): (r: Task)
    ensures r.id == t.id && r.deps == t.deps
    ensures r.attrs.Keys == t.attrs.Keys + {"stage"}
    ensures forall k :: k in t.attrs ==> r.attrs[k] == t.attrs[k]
    ensures "stage" !in t.attrs ==> r.attrs["stage"] == Int(1)
  {
    t.(attrs := t.attrs["stage" := StageOrOne(t)])
  }

  /** Both timetable modules' `treeData`: the stages flattened in order. */
  function TreeData(stages: seq<seq<Task>>): (r: seq<Task>)
    ensures |r| == |Flatten(stages)|
    ensures forall i :: 0 <= i < |r| ==> r[i] == TreeEntry(Flatten(stages)[i])
  {
    var flat := Flatten(stages);
    seq(|flat|, i requires 0 <= i < |flat| => TreeEntry(flat[i]))
  }

  /** The planner's `build_task_layout`, whose result is only `treeData`. */
  datatype TreeLayout = TreeLayout(treeData: seq<Task>)

  function BuildTreeLayout(stages: seq<seq<Task>>): (r: TreeLayout)
    ensures |stages| == 0 ==> r.treeData == []
    ensures r.treeData == TreeData(stages)
  {
    if |stages| == 0 then TreeLayout([]) else TreeLayout(TreeData(stages))
  }

  /** The tree data has one entry per staged task, stage by stage, each one
      the task itself with `stage` defaulted. */
  lemma TreeDataByStage(stages: seq<seq<Task>>)
    ensures |stages| > 0 ==>
      TreeData(stages) == TreeData([stages[0]]) + TreeData(stages[1..])
    ensures |stages| == 1 ==>
      |TreeData(stages)| == |stages[0]| &&
      forall j :: 0 <= j < |stages[0]| ==> TreeData(stages)[j] == TreeEntry(stages[0][j])
  {
    if |stages| > 0 {
      assert Flatten([stages[0]]) == stages[0] + Flatten([stages[0]][1..]);
      assert [stages[0]][1..] == [];
      assert Flatten(stages) == stages[0] + Flatten(stages[1..]);
    }
  }
}
