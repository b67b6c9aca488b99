/** A task record as the planner, the builders and the runners pass it around. */
module Tasks {
  import opened Json
  import opened Seqs

  /** `id` is `task_id` (the empty string when it is missing or empty), `deps`
      the `dependencies` list, and `attrs` every other field of the dict. */
  datatype Task = Task(id: string, deps: seq<string>, attrs: map<string, Value>)

  /** `{**t, "stage": n}` */
  function WithStage(t: Task, n: int): Task {
    t.(attrs := t.attrs["stage" := Int(n)])
  }

  /** `{**t, "status": s}` */
  function WithStatus(t: Task, s: string): Task {
    t.(attrs := t.attrs["status" := Str(s)])
  }

  /** Ids of the tasks in order, skipping tasks without one. */
  function Ids(ts: seq<Task>): (r: seq<string>)
    ensures forall x :: x in r <==> exists i :: 0 <= i < |ts| && ts[i].id == x && x != ""
  {
    if |ts| == 0 then []
    else
      var rest := Ids(ts[..|ts| - 1]);
      var last := ts[|ts| - 1];
      assert forall i :: 0 <= i < |ts| - 1 ==> ts[..|ts| - 1][i] == ts[i];
      if last.id == "" then rest else rest + [last.id]
  }

  /** The set of ids present. */
  function IdSet(ts: seq<Task>): (r: set<string>)
    ensures forall x :: x in r <==> exists i :: 0 <= i < |ts| && ts[i].id == x && x != ""
  {
    set x | x in Ids(ts)
  }

  /** Every id carried by some task, the empty one included. */
  function AllIds(ts: seq<Task>): set<string> {
    set i | 0 <= i < |ts| :: ts[i].id
  }

  /** `{t["task_id"]: t for t in ts}`: the last task with each id wins. */
  function ById(ts: seq<Task>): (m: map<string, Task>)
    ensures m.Keys == AllIds(ts)
    ensures forall x :: x in m ==> m[x].id == x && m[x] in ts
    ensures forall i :: 0 <= i < |ts| && IsLastWithId(ts, i) ==> m[ts[i].id] == ts[i]
  {
    if |ts| == 0 then map[]
    else
      var front := ts[..|ts| - 1];
      var last := ts[|ts| - 1];
      var m := ById(front)[last.id := last];
      ByIdSnoc(ts, ById(front));
      m
  }

  /** The step of `ById`: adding the last task keeps every earlier task
      that no later one shadows. */
  lemma ByIdSnoc(ts: seq<Task>, m0: map<string, Task>)
    requires |ts| > 0 && m0.Keys == AllIds(ts[..|ts| - 1])
    requires forall x :: x in m0 ==> m0[x].id == x && m0[x] in ts[..|ts| - 1]
    requires forall i :: 0 <= i < |ts| - 1 && IsLastWithId(ts[..|ts| - 1], i) ==> m0[ts[i].id] == ts[i]
    ensures var m := m0[ts[|ts| - 1].id := ts[|ts| - 1]];
      m.Keys == AllIds(ts) &&
      (forall x :: x in m ==> m[x].id == x && m[x] in ts) &&
      (forall i :: 0 <= i < |ts| && IsLastWithId(ts, i) ==> m[ts[i].id] == ts[i])
  {
    var front := ts[..|ts| - 1];
    var last := ts[|ts| - 1];
    var m := m0[last.id := last];
    SnocFacts(ts);
    forall x | x in m && x != last.id ensures m[x] in ts {
      assert m0[x] in front;
    }
    forall i | 0 <= i < |ts| && IsLastWithId(ts, i) ensures m[ts[i].id] == ts[i] {
      if i < |ts| - 1 {
        assert IsLastWithId(front, i) && ts[i].id != last.id;
      }
    }
  }

  lemma SnocFacts(ts: seq<Task>)
    requires |ts| > 0
    ensures AllIds(ts) == AllIds(ts[..|ts| - 1]) + {ts[|ts| - 1].id}
    ensures forall i :: 0 <= i < |ts| - 1 && IsLastWithId(ts, i) ==>
      IsLastWithId(ts[..|ts| - 1], i) && ts[i].id != ts[|ts| - 1].id && ts[..|ts| - 1][i] == ts[i]
  {
    var front := ts[..|ts| - 1];
    var last := ts[|ts| - 1];
    forall x | x in AllIds(ts) ensures x in AllIds(front) + {last.id} {
      var i :| 0 <= i < |ts| && ts[i].id == x;
      if i < |front| { assert front[i].id == x; }
    }
    forall x | x in AllIds(front) ensures x in AllIds(ts) {
      var i :| 0 <= i < |front| && front[i].id == x;
      assert ts[i].id == x;
    }
  }

  /** No later task carries the id of task `i`. */
  predicate IsLastWithId(ts: seq<Task>, i: int)
    requires 0 <= i < |ts|
  {
    forall j :: i < j < |ts| ==> ts[j].id != ts[i].id
  }

  /** No two tasks share an id. */
  predicate DistinctIds(ts: seq<Task>) {
    forall i, j :: 0 <= i < j < |ts| ==> ts[i].id != ts[j].id
  }

  /** Without an empty id, the ids carried are the non-empty ids. */
  lemma TaskIdsOfNonEmpty(ts: seq<Task>)
    requires forall i :: 0 <= i < |ts| ==> ts[i].id != ""
    ensures TaskIds(ts) == IdSet(ts)
  {
    forall x | x in TaskIds(ts) ensures x in IdSet(ts) {
      var t :| t in ts && t.id == x;
      var i :| 0 <= i < |ts| && ts[i] == t;
    }
  }

  /** Lists with the same ids position by position carry the same ids, and
      one has distinct ids exactly when the other does. */
  lemma SameIdsAlong(a: seq<Task>, b: seq<Task>)
    requires |a| == |b| && forall i :: 0 <= i < |a| ==> a[i].id == b[i].id
    ensures TaskIds(a) == TaskIds(b) && IdSet(a) == IdSet(b)
    ensures DistinctIds(a) <==> DistinctIds(b)
  {
    forall x | x in TaskIds(a) ensures x in TaskIds(b) {
      var i :| 0 <= i < |a| && a[i].id == x;
      assert b[i] in b;
    }
    forall x | x in TaskIds(b) ensures x in TaskIds(a) {
      var i :| 0 <= i < |b| && b[i].id == x;
      assert a[i] in a;
    }
  }

  /** `_find_task_idx`: the first position holding a task with id `id`, or
      -1 when there is none. */
  function FindTaskIdx(ts: seq<Task>, id: string): (r: int)
    ensures -1 <= r < |ts|
    ensures r >= 0 ==> ts[r].id == id && forall i :: 0 <= i < r ==> ts[i].id != id
    ensures r == -1 <==> forall i :: 0 <= i < |ts| ==> ts[i].id != id
  {
    if |ts| == 0 then -1
    else if ts[0].id == id then 0
    else
      var k := FindTaskIdx(ts[1..], id);
      assert forall i :: 1 <= i < |ts| ==> ts[1..][i - 1] == ts[i];
      if k == -1 then -1 else k + 1
  }

  /** The ids of a list of tasks. */
  function TaskIds(ts: seq<Task>): set<string> {
    set t | t in ts :: t.id
  }

  /** Non-empty ids in order of first occurrence: the key order of a dict
      built by assigning each task under its id. */
  function FirstIds(ts: seq<Task>): (r: seq<string>)
    ensures Distinct(r)
    ensures forall x :: x in r <==> x in IdSet(ts)
  {
    if |ts| == 0 then []
    else
      var last := ts[|ts| - 1];
      var rest := FirstIds(ts[..|ts| - 1]);
      if last.id == "" then rest else AddNew(rest, last.id)
  }

  /** The values of `{t["task_id"]: t for t in ts if t["task_id"]}`: one task
      per non-empty id, in order of first occurrence, the last task carrying
      the id winning. */
  function UniqueById(flat: seq<Task>): (r: seq<Task>)
    ensures DistinctIds(r)
    ensures forall i :: 0 <= i < |r| ==> r[i] in flat && r[i].id != ""
    ensures TaskIds(r) == IdSet(flat)
  {
    var ids := FirstIds(flat);
    var m := ById(flat);
    FirstIdsKeyed(flat);
    var r := Lookup(ids, m);
    LookupFacts(ids, m, r, flat);
    r
  }

  lemma LookupFacts(ids: seq<string>, m: map<string, Task>, r: seq<Task>, flat: seq<Task>)
    requires Distinct(ids) && forall x :: x in ids <==> x in IdSet(flat)
    requires forall x :: x in m ==> m[x].id == x && m[x] in flat
    requires |r| == |ids| && forall i :: 0 <= i < |r| ==> ids[i] in m && r[i] == m[ids[i]]
    ensures DistinctIds(r)
    ensures forall i :: 0 <= i < |r| ==> r[i] in flat && r[i].id != ""
    ensures TaskIds(r) == IdSet(flat)
  {
    forall i | 0 <= i < |r| ensures r[i].id == ids[i] && ids[i] != "" {
      assert ids[i] in IdSet(flat);
    }
    forall x | x in IdSet(flat) ensures x in TaskIds(r) {
      var i :| 0 <= i < |ids| && ids[i] == x;
      assert r[i] in r;
    }
  }

  /** The tasks a list of keys names in a table, in key order. */
  function Lookup(ids: seq<string>, m: map<string, Task>): (r: seq<Task>)
    requires forall x :: x in ids ==> x in m
    ensures |r| == |ids|
    ensures forall i :: 0 <= i < |r| ==> r[i] == m[ids[i]]
  {
    if |ids| == 0 then [] else [m[ids[0]]] + Lookup(ids[1..], m)
  }

  lemma FirstIdsKeyed(flat: seq<Task>)
    ensures forall x :: x in FirstIds(flat) ==> x in ById(flat)
  {
  }


  lemma TaskIdsCard(ts: seq<Task>)
    requires DistinctIds(ts)
    ensures |TaskIds(ts)| == |ts|
  {
    if |ts| > 0 {
      var front := ts[..|ts| - 1];
      assert DistinctIds(front);
      TaskIdsCard(front);
      assert TaskIds(ts) == TaskIds(front) + {ts[|ts| - 1].id};
      assert ts[|ts| - 1].id !in TaskIds(front);
    }
  }

  lemma SameIdSameTask(ts: seq<Task>, t: Task, u: Task)
    requires DistinctIds(ts) && t in ts && u in ts && t.id == u.id
    ensures t == u
  {
    var i :| 0 <= i < |ts| && ts[i] == t;
    var j :| 0 <= j < |ts| && ts[j] == u;
    assert !(i < j) && !(j < i);
  }

  lemma {:induction false} TaskIdsCardLe(ts: seq<Task>)
    ensures |TaskIds(ts)| <= |ts|
  {
    if |ts| > 0 {
      var front := ts[..|ts| - 1];
      TaskIdsCardLe(front);
      assert TaskIds(ts) == TaskIds(front) + {ts[|ts| - 1].id};
    }
  }

  lemma RepeatedIdShrinks(ts: seq<Task>)
    requires !DistinctIds(ts)
    ensures |TaskIds(ts)| < |ts|
  {
    var i, j :| 0 <= i < j < |ts| && ts[i].id == ts[j].id;
    var rest := ts[..j] + ts[j + 1..];
    assert ts == ts[..j] + [ts[j]] + ts[j + 1..];
    assert ts[i] in rest;
    assert TaskIds(ts) == TaskIds(rest);
    TaskIdsCardLe(rest);
  }

  /** Reordering a list keeps its ids distinct. */
  lemma PermutationKeepsDistinctIds(a: seq<Task>, b: seq<Task>)
    requires multiset(a) == multiset(b) && DistinctIds(a)
    ensures DistinctIds(b)
  {
    assert |a| == |multiset(a)| == |b|;
    assert forall t :: t in a <==> t in b by {
      forall t ensures t in a <==> t in b {
        assert t in a <==> t in multiset(a);
      }
    }
    assert TaskIds(a) == TaskIds(b);
    TaskIdsCard(a);
    if !DistinctIds(b) {
      RepeatedIdShrinks(b);
    }
  }
}
