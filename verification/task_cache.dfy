/** The per-plan task cache and the tree-data pipeline built on it: extract a
    light entry (id, dependencies and, for execution, a status) from each
    task, stage the entries, and enrich every staged entry with the full
    task's fields. The task modules' variant stages with dependency sinking;
    the planner's variant stages with transitive reduction and keeps no
    status. */
module TaskCache {
  import opened Wrappers
  import opened Seqs
  import opened Json
  import opened Tasks
  import Plans
  import Stages
  import Sink

  // ---------------------------------------------------------------------
  // Extraction

  /** `t.get("status") or "undone"` */
  function StatusOrUndone(t: Task): Value {
    var s := Get(t.attrs, "status");
    if Truthy(s) then s else Str("undone")
  }

  /** The cache entry of a task with an id; `withStatus` selects the
      execution variant, which also records a status. */
  function Entry(t: Task, withStatus: bool): Task {
    Task(t.id, t.deps, if withStatus then map["status" := StatusOrUndone(t)] else map[])
  }

  /** `extract_cache_from_task`: nothing for a missing task or a task without
      an id; otherwise only the id and a copy of the dependencies. */
  function ExtractFromTask(task: Option<Task>): (r: Option<Task>)
    ensures r.Some? <==> task.Some? && task.value.id != ""
    ensures r.Some? ==> r.value.id == task.value.id && r.value.deps == task.value.deps && r.value.attrs == map[]
  {
    if task.None? || task.value.id == "" then None else Some(Entry(task.value, false))
  }

  /** `extract_cache_from_tasks`: one entry per task that has an id, in
      order. */
  function ExtractFromTasks(tasks: seq<Task>, withStatus: bool): (r: seq<Task>)
    ensures |r| <= |tasks|
    ensures forall e :: e in r <==> exists t :: t in tasks && t.id != "" && e == Entry(t, withStatus)
    ensures forall i :: 0 <= i < |r| ==> r[i].id != ""
  {
    if |tasks| == 0 then []
    else
      var rest := ExtractFromTasks(tasks[1..], withStatus);
      assert forall t :: t in tasks <==> t == tasks[0] || t in tasks[1..];
      (if tasks[0].id != "" then [Entry(tasks[0], withStatus)] else []) + rest
  }

  /** Extraction keeps exactly the ids present, each entry carrying the
      dependencies of a task with that id and, in the execution variant, a
      truthy status. */
  lemma ExtractKeepsIds(tasks: seq<Task>, withStatus: bool)
    ensures IdSet(ExtractFromTasks(tasks, withStatus)) == IdSet(tasks)
    ensures forall e :: e in ExtractFromTasks(tasks, withStatus) ==>
      exists t :: t in tasks && t.id == e.id && t.deps == e.deps
    ensures withStatus ==> forall e :: e in ExtractFromTasks(tasks, withStatus) ==>
      "status" in e.attrs && Truthy(e.attrs["status"])
  {
    EntriesKeepIds(tasks, ExtractFromTasks(tasks, withStatus), withStatus);
  }

  /** Entries made from exactly the tasks with an id carry exactly their ids. */
  lemma EntriesKeepIds(tasks: seq<Task>, r: seq<Task>, withStatus: bool)
    requires forall e :: e in r <==> exists t :: t in tasks && t.id != "" && e == Entry(t, withStatus)
    ensures IdSet(r) == IdSet(tasks)
  {
    forall x | x in IdSet(tasks) ensures x in IdSet(r) {
      var i :| 0 <= i < |tasks| && tasks[i].id == x && x != "";
      assert tasks[i] in tasks;
      var e := Entry(tasks[i], withStatus);
      assert e in r;
      var j :| 0 <= j < |r| && r[j] == e;
    }
    forall x | x in IdSet(r) ensures x in IdSet(tasks) {
      var j :| 0 <= j < |r| && r[j].id == x && x != "";
      assert r[j] in r;
      var t :| t in tasks && t.id != "" && r[j] == Entry(t, withStatus);
      var i :| 0 <= i < |tasks| && tasks[i] == t;
    }
  }

  // ---------------------------------------------------------------------
  // The per-plan cache

  /** `_plan_cache`: the cache entries of each plan. */
  type PlanCache = map<string, seq<Task>>

  /** `get_plan_cache` */
  function GetPlanCache(c: PlanCache, planId: string): seq<Task> {
    if planId in c then c[planId] else []
  }

  /** Replace the first entry with the same id in place, or append. */
  function Upsert(cache: seq<Task>, e: Task): (r: seq<Task>)
  {
    var k := FindTaskIdx(cache, e.id);
    if k >= 0 then cache[k := e] else cache + [e]
  }

  /** The upsert holds the new entry, keeps every entry with another id in
      its place, replaces in place when the id is present and appends
      otherwise, and keeps ids unique. */
  lemma UpsertMeaning(cache: seq<Task>, e: Task)
    ensures e in Upsert(cache, e)
    ensures (exists i :: 0 <= i < |cache| && cache[i].id == e.id) ==>
      |Upsert(cache, e)| == |cache| &&
      forall i :: 0 <= i < |cache| && cache[i].id != e.id ==> Upsert(cache, e)[i] == cache[i]
    ensures (forall i :: 0 <= i < |cache| ==> cache[i].id != e.id) ==> Upsert(cache, e) == cache + [e]
    ensures forall t :: t in Upsert(cache, e) ==> t == e || t in cache
    ensures DistinctIds(cache) ==> DistinctIds(Upsert(cache, e))
    ensures DistinctIds(cache) ==> forall t :: t in cache && t.id != e.id ==> t in Upsert(cache, e)
  {
    var k := FindTaskIdx(cache, e.id);
    var r := Upsert(cache, e);
    if k >= 0 {
      assert r[k] == e;
      forall t | t in r ensures t == e || t in cache {
        var i :| 0 <= i < |r| && r[i] == t;
        if i != k { assert r[i] == cache[i]; }
      }
      if DistinctIds(cache) {
        forall t | t in cache && t.id != e.id ensures t in r {
          var i :| 0 <= i < |cache| && cache[i] == t;
          assert r[i] == t;
        }
      }
    } else {
      assert r[|cache|] == e;
    }
  }

  /** Upserting the same entry twice is the same as upserting it once. */
  lemma UpsertIdempotent(cache: seq<Task>, e: Task)
    ensures Upsert(Upsert(cache, e), e) == Upsert(cache, e)
  {
    var k := FindTaskIdx(cache, e.id);
    var r := Upsert(cache, e);
    if k < 0 {
      assert r[|cache|].id == e.id;
      assert forall i :: 0 <= i < |cache| ==> r[i] == cache[i];
      assert FindTaskIdx(r, e.id) == |cache|;
    } else {
      assert forall i :: 0 <= i < k ==> r[i] == cache[i];
      assert r[k].id == e.id;
      var k2 := FindTaskIdx(r, e.id);
      assert k2 != -1;
      assert k2 == k;
    }
  }

  /** `append_plan_cache`: a task without an id changes nothing; otherwise
      its entry is upserted into the plan's list, created when missing. */
  function AppendPlanCache(c: PlanCache, planId: string, task: Option<Task>): (r: PlanCache)
    ensures ExtractFromTask(task).None? ==> r == c
    ensures ExtractFromTask(task).Some? ==> r.Keys == c.Keys + {planId}
    ensures forall p :: p in c && p != planId ==> p in r && r[p] == c[p]
  {
    match ExtractFromTask(task)
    case None => c
    case Some(e) => c[planId := Upsert(GetPlanCache(c, planId), e)]
  }

  /** Appending keeps every plan's entries free of repeated ids, and the
      plan's list then holds the task's entry. */
  lemma AppendKeepsUnique(c: PlanCache, planId: string, task: Option<Task>)
    requires forall p :: p in c ==> DistinctIds(c[p])
    ensures forall p :: p in AppendPlanCache(c, planId, task) ==> DistinctIds(AppendPlanCache(c, planId, task)[p])
    ensures ExtractFromTask(task).Some? ==> ExtractFromTask(task).value in GetPlanCache(AppendPlanCache(c, planId, task), planId)
  {
    var e := ExtractFromTask(task);
    if e.Some? {
      UpsertMeaning(GetPlanCache(c, planId), e.value);
    }
  }

  /** `clear_plan_cache`: only that plan's entry goes. */
  function ClearPlanCache(c: PlanCache, planId: string): (r: PlanCache)
    ensures r.Keys == c.Keys - {planId}
    ensures forall p :: p in r ==> r[p] == c[p]
  {
    if planId in c then c - {planId} else c
  }

  // ---------------------------------------------------------------------
  // Enrichment

  /** `{**full, **over}`: every field of both, `over` winning. */
  function Merge(full: map<string, Value>, over: map<string, Value>): (r: map<string, Value>)
    ensures r.Keys == full.Keys + over.Keys
    ensures forall k :: k in over ==> r[k] == over[k]
    ensures forall k :: k in full && k !in over ==> r[k] == full[k]
  {
    map k | k in full.Keys + over.Keys :: if k in over then over[k] else full[k]
  }

  /** One staged entry merged over the full task of the same id, if any. */
  function EnrichEntry(c: Task, byId: map<string, Task>): Task {
    if c.id in byId then Task(c.id, c.deps, Merge(byId[c.id].attrs, c.attrs)) else c
  }

  /** `enrich_tree_data`: the staged entries in stage order, each merged
      over the full task with its id. */
  function EnrichTreeData(staged: seq<seq<Task>>, full: seq<Task>): (r: seq<Task>)
    ensures |r| == |Flatten(staged)|
    ensures forall i :: 0 <= i < |r| ==>
      r[i].id == Flatten(staged)[i].id && r[i].deps == Flatten(staged)[i].deps
    ensures forall i, k :: 0 <= i < |r| && k in Flatten(staged)[i].attrs ==>
      k in r[i].attrs && r[i].attrs[k] == Flatten(staged)[i].attrs[k]
    ensures forall i, k ::
      (0 <= i < |r| && Flatten(staged)[i].id in Plans.TaskMap(full) &&
       k in Plans.TaskMap(full)[Flatten(staged)[i].id].attrs && k !in Flatten(staged)[i].attrs) ==>
      k in r[i].attrs && r[i].attrs[k] == Plans.TaskMap(full)[Flatten(staged)[i].id].attrs[k]
  {
    var flat := Flatten(staged);
    var byId := Plans.TaskMap(full);
    seq(|flat|, i requires 0 <= i < |flat| => EnrichEntry(flat[i], byId))
  }

  /** Enriching a task's own entry with the task gives the task back: the
      planner's entry adds nothing, and the execution entry adds only the
      defaulted status. */
  lemma EnrichRestores(t: Task, withStatus: bool)
    requires t.id != ""
    ensures !withStatus ==> EnrichEntry(Entry(t, withStatus), Plans.TaskMap([t])) == t
    ensures withStatus ==>
      EnrichEntry(Entry(t, withStatus), Plans.TaskMap([t])) == t.(attrs := t.attrs["status" := StatusOrUndone(t)])
  {
    var m := Plans.TaskMap([t]);
    assert t.id in IdSet([t]);
    assert m[t.id] == t;
    var r := EnrichEntry(Entry(t, withStatus), m);
    if withStatus {
      assert r.attrs == t.attrs["status" := StatusOrUndone(t)];
    } else {
      assert r.attrs == t.attrs;
    }
  }

  // ---------------------------------------------------------------------
  // Tree data

  /** The execution variant of `build_tree_data`: extract with status,
      stage with dependency sinking, enrich. */
  function BuildTreeData(tasks: seq<Task>): (r: Result<seq<Task>, string>)
    ensures |tasks| == 0 ==> r == Ok([])
    ensures r.Err? ==> r.error == Stages.CycleError
  {
    if |tasks| == 0 then Ok([])
    else
      var cache := ExtractFromTasks(tasks, true);
      match Sink.ComputeSunkStages(cache)
      case Err(e) => Err(e)
      case Ok(staged) => Ok(EnrichTreeData(staged, tasks))
  }

  /** The planner variant: extract without status, stage with transitive
      reduction, enrich. */
  function BuildPlannerTreeData(tasks: seq<Task>): (r: Result<seq<Task>, string>)
    ensures |tasks| == 0 ==> r == Ok([])
    ensures r.Err? ==> r.error == Stages.CycleError
  {
    if |tasks| == 0 then Ok([])
    else
      var cache := ExtractFromTasks(tasks, false);
      match Stages.ComputeTaskStages(cache, true)
      case Err(e) => Err(e)
      case Ok(staged) => Ok(EnrichTreeData(staged, tasks))
  }

  /** Enrichment keeps the ids of the staged entries. */
  lemma EnrichKeepsIds(staged: seq<seq<Task>>, full: seq<Task>)
    ensures Tasks.TaskIds(EnrichTreeData(staged, full)) == Tasks.TaskIds(Flatten(staged))
  {
    var r := EnrichTreeData(staged, full);
    var flat := Flatten(staged);
    forall x | x in Tasks.TaskIds(flat) ensures x in Tasks.TaskIds(r) {
      var t :| t in flat && t.id == x;
      var i :| 0 <= i < |flat| && flat[i] == t;
      assert r[i] in r;
    }
    forall x | x in Tasks.TaskIds(r) ensures x in Tasks.TaskIds(flat) {
      var t :| t in r && t.id == x;
      var i :| 0 <= i < |r| && r[i] == t;
      assert flat[i] in flat;
    }
  }

  /** Entries that all carry an id normalise to the same ids. */
  lemma NormaliseKeepsIds(ts: seq<Task>)
    requires forall i :: 0 <= i < |ts| ==> ts[i].id != ""
    ensures IdSet(Stages.Normalise(ts)) == IdSet(ts)
  {
    var n := Stages.Normalise(ts);
    assert forall i :: 0 <= i < |n| ==> n[i].id == ts[i].id;
  }

  /** The planner's tree data holds exactly the tasks that have an id. */
  lemma PlannerTreeDataIds(tasks: seq<Task>)
    requires BuildPlannerTreeData(tasks).Ok?
    ensures Tasks.TaskIds(BuildPlannerTreeData(tasks).value) == IdSet(tasks)
  {
    if |tasks| > 0 {
      var cache := ExtractFromTasks(tasks, false);
      var staged := Stages.ComputeTaskStages(cache, true).value;
      Stages.StagesPartitionIds(cache, true);
      NormaliseKeepsIds(cache);
      ExtractKeepsIds(tasks, false);
      Plans.FlattenedIds(staged, IdSet(tasks));
      EnrichKeepsIds(staged, tasks);
    }
  }

  /** The execution tree data holds exactly the tasks that have an id. */
  lemma TreeDataIds(tasks: seq<Task>)
    requires BuildTreeData(tasks).Ok?
    ensures Tasks.TaskIds(BuildTreeData(tasks).value) == IdSet(tasks)
  {
    if |tasks| > 0 {
      var cache := ExtractFromTasks(tasks, true);
      var staged := Sink.ComputeSunkStages(cache).value;
      Sink.SunkStagesPartitionIds(cache);
      ExtractKeepsIds(tasks, true);
      if |cache| == 0 {
        assert IdSet(tasks) == {};
        assert staged == [];
      } else {
        Sink.SinkKeepsTasks(cache);
        var sunk := Sink.SinkDependencies(cache);
        SunkIds(sunk, cache);
        Plans.FlattenedIds(staged, IdSet(tasks));
      }
      EnrichKeepsIds(staged, tasks);
    }
  }

  /** Sinking keeps the entries' ids, all non-empty, so normalising them
      changes nothing. */
  lemma SunkIds(sunk: seq<Task>, cache: seq<Task>)
    requires Tasks.TaskIds(sunk) == IdSet(cache)
    ensures IdSet(Stages.Normalise(sunk)) == IdSet(cache)
  {
    forall i | 0 <= i < |sunk| ensures sunk[i].id != "" {
      assert sunk[i].id in Tasks.TaskIds(sunk);
    }
    NormaliseKeepsIds(sunk);
    forall x | x in IdSet(sunk) ensures x in IdSet(cache) {
      var i :| 0 <= i < |sunk| && sunk[i].id == x && x != "";
      assert sunk[i] in sunk;
    }
    forall x | x in IdSet(cache) ensures x in IdSet(sunk) {
      var t :| t in sunk && t.id == x;
      var i :| 0 <= i < |sunk| && sunk[i] == t;
    }
  }
}
