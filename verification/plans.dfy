/** What the plan-to-execution builders share: the atomicity test, the atomic
    tasks of a plan, the id table of a plan, and the final marking of every
    staged task as not yet done. A plan is modelled by its `tasks` list. */
module Plans {
  import opened Seqs
  import opened Json
  import opened Tasks
  import Stages

  /** `_is_atomic`: both `input` and `output` are present and truthy. */
  predicate IsAtomic(t: Task) {
    Truthy(Get(t.attrs, "input")) && Truthy(Get(t.attrs, "output"))
  }

  /** `[t for t in all_tasks if _is_atomic(t)]` */
  function AtomicTasks(ts: seq<Task>): (r: seq<Task>)
    ensures |r| <= |ts|
    ensures forall t :: t in r <==> t in ts && IsAtomic(t)
  {
    if |ts| == 0 then []
    else
      var rest := AtomicTasks(ts[1..]);
      assert forall t :: t in ts <==> t == ts[0] || t in ts[1..];
      (if IsAtomic(ts[0]) then [ts[0]] else []) + rest
  }

  /** `{t["task_id"] for t in atomic_tasks}` */
  function AtomicIds(ts: seq<Task>): set<string> {
    set t | t in ts && IsAtomic(t) :: t.id
  }

  /** `{t["task_id"]: t for t in all_tasks if t.get("task_id")}`: every
      non-empty id mapped to the last task carrying it. */
  function TaskMap(ts: seq<Task>): (m: map<string, Task>)
    ensures m.Keys == IdSet(ts)
    ensures forall x :: x in m ==> m[x].id == x && m[x] in ts
    ensures forall i :: 0 <= i < |ts| && ts[i].id != "" && IsLastWithId(ts, i) ==> m[ts[i].id] == ts[i]
  {
    var b := ById(ts);
    assert forall x :: x in IdSet(ts) ==> x in b by {
      forall x | x in IdSet(ts) ensures x in b {
        var i :| 0 <= i < |ts| && ts[i].id == x && x != "";
      }
    }
    map x | x in b && x != "" :: b[x]
  }

  /** `[{**task, "status": "undone"} for stage in staged for task in stage]` */
  function MarkUndone(ts: seq<Task>): (r: seq<Task>)
    ensures |r| == |ts|
    ensures forall i :: 0 <= i < |r| ==> r[i] == WithStatus(ts[i], "undone")
  {
    seq(|ts|, i requires 0 <= i < |ts| => WithStatus(ts[i], "undone"))
  }

  /** Every task of the execution is marked undone, and the execution holds
      exactly the tasks of the stages, in stage order. */
  lemma MarkUndoneMeaning(st: seq<seq<Task>>)
    ensures forall t :: t in MarkUndone(Flatten(st)) ==> "status" in t.attrs && t.attrs["status"] == Str("undone")
    ensures Tasks.TaskIds(MarkUndone(Flatten(st))) == Tasks.TaskIds(Flatten(st))
  {
    var f := Flatten(st);
    var r := MarkUndone(f);
    forall x | x in Tasks.TaskIds(f) ensures x in Tasks.TaskIds(r) {
      var i :| 0 <= i < |f| && f[i].id == x;
      assert r[i] in r;
    }
  }

  /** Stages that split `ids` flatten to a list carrying exactly `ids`. */
  lemma FlattenedIds(st: seq<seq<Task>>, ids: set<string>)
    requires Stages.PartitionsIds(st, ids)
    ensures Tasks.TaskIds(Flatten(st)) == ids
  {
    forall x | x in Tasks.TaskIds(Flatten(st)) ensures x in ids {
      var t :| t in Flatten(st) && t.id == x;
      FlattenMember(st, t);
      var k :| 0 <= k < |st| && t in st[k];
      var j :| 0 <= j < |st[k]| && st[k][j] == t;
    }
    forall x | x in ids ensures x in Tasks.TaskIds(Flatten(st)) {
      var k, j :| 0 <= k < |st| && 0 <= j < |st[k]| && st[k][j].id == x;
      assert st[k][j] in st[k];
      FlattenMember(st, st[k][j]);
    }
  }
}
