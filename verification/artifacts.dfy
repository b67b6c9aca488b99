/** Resolving a task's input artifacts from the saved outputs of its
    dependencies. The artifact store is a map from task id to the parsed
    `output.json` of that task (absent when the file is missing or does not
    parse). Two variants: the strict one refuses to run a task when a named
    input is not ready; the lenient one leaves such inputs out. */
module Artifacts {
  import opened Wrappers
  import opened Json
  import DbConfig

  type Dict = map<string, Value>

  /** A named artifact whose producing task has no saved output. */
  datatype Missing = Missing(depId: string, artifact: Value)

  /** `MissingDependencyArtifactError` (with every missing input), or any
      other exception the resolution raises. */
  datatype ResolveError =
    | MissingDependencyArtifact(taskId: Value, missing: seq<Missing>)
    | Raised(msg: string)

  /** `get_task_artifact`: validates both ids, then reads the store; a
      stored `null` reads as no artifact. */
  function GetTaskArtifact(planId: string, taskId: string, store: Dict): (r: Result<Option<Value>, string>)
    ensures r.Ok? ==> DbConfig.ValidateTaskId(Str(taskId)).Ok?
    ensures r.Ok? && r.value.Some? ==> taskId in store && r.value.value == store[taskId] && !r.value.value.Null?
  {
    if DbConfig.ValidatePlanId(Str(planId)).Err? then Err("invalid plan id")
    else if DbConfig.ValidateTaskId(Str(taskId)).Err? then Err("invalid task id")
    else if taskId in store && !store[taskId].Null? then Ok(Some(store[taskId]))
    else Ok(None)
  }

  /** What `save_task_artifact` writes for a value: text is wrapped as
      `{"content": text}`, anything else is stored as it is. */
  function Stored(value: Value): Value {
    if value.Str? then Obj(map["content" := value]) else value
  }

  /** What a runner saves for an execution result: a dict as it is, anything else
      as `{"content": result}`. */
  function ToSave(result: Value): (v: Value)
    ensures v.Obj?
  {
    if result.Obj? then result else Obj(map["content" := result])
  }

  /** `save_task_artifact`: validates both ids, then replaces the task's
      saved output. */
  function SaveTaskArtifact(planId: string, taskId: string, value: Value, store: Dict): (r: Result<Dict, string>)
    ensures r.Err? <==> DbConfig.ValidatePlanId(Str(planId)).Err? || DbConfig.ValidateTaskId(Str(taskId)).Err?
    ensures r.Ok? ==> r.value.Keys == store.Keys + {taskId} && forall k :: k in store && k != taskId ==> r.value[k] == store[k]
  {
    if DbConfig.ValidatePlanId(Str(planId)).Err? then Err("invalid plan id")
    else if DbConfig.ValidateTaskId(Str(taskId)).Err? then Err("invalid task id")
    else Ok(store[taskId := Stored(value)])
  }

  /** Reading back what was saved gives the saved value, except that a saved
      `null` reads as no artifact; other tasks' artifacts read as before. A
      saved text reads back as its `content` entry. */
  lemma SaveThenGet(planId: string, taskId: string, value: Value, store: Dict, other: string)
    requires SaveTaskArtifact(planId, taskId, value, store).Ok?
    ensures var st := SaveTaskArtifact(planId, taskId, value, store).value;
      GetTaskArtifact(planId, taskId, st) == Ok(if value.Null? then None else Some(Stored(value))) &&
      (value.Str? ==> GetTaskArtifact(planId, taskId, st).value.value.fields["content"] == value) &&
      (other != taskId ==> GetTaskArtifact(planId, other, st) == GetTaskArtifact(planId, other, store))
  {
  }

  /** Values Python can use as dict keys (no lists, no dicts). */
  predicate Hashable(v: Value) {
    !v.Arr? && !v.Obj?
  }

  /** The listed dependencies: `task.get("dependencies") or []`, iterated.
      A string is iterated character by character. A truthy number cannot
      be iterated, and a dict (whose keys the source would iterate in
      insertion order) is refused too. */
  function DepsOf(task: Dict): (r: Result<seq<Value>, string>)
    ensures r.Ok? <==> !Truthy(Get(task, "dependencies")) || Get(task, "dependencies").Arr? || Get(task, "dependencies").Str?
    ensures Get(task, "dependencies").Str? && r.Ok? ==>
      |r.value| == |Get(task, "dependencies").s| &&
      forall i :: 0 <= i < |r.value| ==> r.value[i] == Str([Get(task, "dependencies").s[i]])
  {
    var d := Get(task, "dependencies");
    if !Truthy(d) then Ok([])
    else if d.Arr? then Ok(d.items)
    else if d.Str? then Ok(seq(|d.s|, i requires 0 <= i < |d.s| => Str([d.s[i]])))
    else Err("dependencies cannot be iterated")
  }

  /** What one dependency contributes: nothing (unknown, empty, or no named
      artifact), or its id, artifact name and saved output (if any). */
  datatype Entry = Skip | Named(depId: string, name: Value, value: Option<Value>)

  function EntryOf(dep: Value, taskMap: map<string, Dict>, planId: string, store: Dict): (r: Result<Entry, string>)
    ensures r.Ok? && r.value.Named? ==> dep == Str(r.value.depId) && r.value.depId in taskMap && Truthy(r.value.name)
  {
    if !Hashable(dep) then Err("unhashable dependency id")
    else if !dep.Str? || dep.s !in taskMap || taskMap[dep.s] == map[] then Ok(Skip)
    else
      var output := Get(taskMap[dep.s], "output");
      var spec := if Truthy(output) then output else Obj(map[]);
      if !spec.Obj? then Err("output is not a dict")
      else
        var name := Get(spec.fields, "artifact");
        if !Truthy(name) then Ok(Skip)
        else match GetTaskArtifact(planId, dep.s, store)
          case Err(e) => Err(e)
          case Ok(v) =>
            if v.Some? && !Hashable(name) then Err("unhashable artifact name")
            else Ok(Named(dep.s, name, v))
  }

  /** The artifacts found so far, by name, and the named inputs not ready. */
  datatype Acc = Acc(found: map<Value, Value>, missing: seq<Missing>)

  /** Folding one entry in: a ready artifact is stored under its name (over
      any earlier one of that name); one that is not ready is recorded as
      missing. */
  function Absorb(acc: Acc, e: Entry): (r: Acc)
    ensures e.Skip? ==> r == acc
    ensures e.Named? && e.value.Some? ==> r == Acc(acc.found[e.name := e.value.value], acc.missing)
    ensures e.Named? && e.value.None? ==> r == Acc(acc.found, acc.missing + [Missing(e.depId, e.name)])
  {
    match e
    case Skip => acc
    case Named(id, name, v) =>
      if v.Some? then Acc(acc.found[name := v.value], acc.missing)
      else Acc(acc.found, acc.missing + [Missing(id, name)])
  }

  /** The dependency loop's per-dependency entries, in list order; the
      first failure ends it. */
  function Entries(deps: seq<Value>, taskMap: map<string, Dict>, planId: string, store: Dict): (r: Result<seq<Entry>, string>)
    ensures r.Ok? ==> |r.value| == |deps| && forall i :: 0 <= i < |deps| ==> EntryOf(deps[i], taskMap, planId, store) == Ok(r.value[i])
    decreases |deps|
  {
    if |deps| == 0 then Ok([])
    else match Entries(deps[..|deps| - 1], taskMap, planId, store)
      case Err(e) => Err(e)
      case Ok(es) =>
        match EntryOf(deps[|deps| - 1], taskMap, planId, store)
        case Err(e) => Err(e)
        case Ok(entry) => Ok(es + [entry])
  }

  /** The loop's accumulated state after the given entries. */
  function Fold(es: seq<Entry>): Acc
    decreases |es|
  {
    if |es| == 0 then Acc(map[], []) else Absorb(Fold(es[..|es| - 1]), es[|es| - 1])
  }

  /** `resolve_artifacts` (task agent): every ready input by artifact name,
      or the error listing all inputs that are not ready. */
  function ResolveStrict(task: Dict, taskMap: map<string, Dict>, planId: string, store: Dict): (r: Result<map<Value, Value>, ResolveError>)
    ensures DepsOf(task) == Ok([]) ==> r == Ok(map[])
    ensures r.Err? && r.error.MissingDependencyArtifact? ==> |r.error.missing| > 0 && r.error.taskId == (if "task_id" in task then task["task_id"] else Str("?"))
  {
    match DepsOf(task)
    case Err(e) => Err(Raised(e))
    case Ok(deps) =>
      if |deps| == 0 then Ok(map[])
      else match Entries(deps, taskMap, planId, store)
        case Err(e) => Err(Raised(e))
        case Ok(es) =>
          var acc := Fold(es);
          if |acc.missing| > 0 then
            Err(MissingDependencyArtifact(if "task_id" in task then task["task_id"] else Str("?"), acc.missing))
          else Ok(acc.found)
  }

  /** `resolve_artifacts` (execution): every ready input by artifact name;
      inputs that are not ready are left out. */
  function ResolveLenient(task: Dict, taskMap: map<string, Dict>, planId: string, store: Dict): (r: Result<map<Value, Value>, string>)
    ensures DepsOf(task) == Ok([]) ==> r == Ok(map[])
  {
    match DepsOf(task)
    case Err(e) => Err(e)
    case Ok(deps) =>
      if |deps| == 0 then Ok(map[])
      else match Entries(deps, taskMap, planId, store)
        case Err(e) => Err(e)
        case Ok(es) => Ok(Fold(es).found)
  }

  // ---------------------------------------------------------------------
  // What the walk collects, stated per dependency

  /** Entry `i` is a ready artifact named `name` with value `v`. */
  predicate ReadyAt(es: seq<Entry>, i: int, name: Value, v: Value) {
    0 <= i < |es| && es[i].Named? && es[i].name == name && es[i].value == Some(v)
  }

  /** Every ready entry's name is a key of the result. */
  lemma {:induction false} FoldHasReady(es: seq<Entry>)
    ensures forall i, name, v :: ReadyAt(es, i, name, v) ==> name in Fold(es).found
    decreases |es|
  {
    if |es| > 0 {
      var init := es[..|es| - 1];
      FoldHasReady(init);
      forall i, name, v | ReadyAt(es, i, name, v) ensures name in Fold(es).found {
        if i < |es| - 1 {
          assert ReadyAt(init, i, name, v);
        }
      }
    }
  }

  /** Every key of the result holds the value of the last ready entry with
      that name (a later duplicate name overwrites an earlier one). */
  lemma {:induction false} FoldLastWins(es: seq<Entry>, name: Value)
    requires name in Fold(es).found
    ensures exists i :: ReadyAt(es, i, name, Fold(es).found[name]) && LastReady(es, i, name)
    decreases |es|
  {
    var last := |es| - 1;
    var init := es[..last];
    var found := Fold(es).found;
    if es[last].Named? && es[last].value.Some? && es[last].name == name {
      assert ReadyAt(es, last, name, found[name]);
    } else {
      FoldLastWins(init, name);
      var i :| ReadyAt(init, i, name, Fold(init).found[name]) && LastReady(init, i, name);
      assert ReadyAt(es, i, name, found[name]);
      forall j | i < j < |es| ensures !(es[j].Named? && es[j].name == name && es[j].value.Some?) {
        if j < last {
          assert es[j] == init[j];
        }
      }
    }
  }

  /** No ready entry after `i` carries `name`. */
  predicate LastReady(es: seq<Entry>, i: nat, name: Value) {
    forall j :: i < j < |es| ==> !(es[j].Named? && es[j].name == name && es[j].value.Some?)
  }

  /** The named entries with no saved output, in order. */
  function NotReady(es: seq<Entry>): seq<Missing> {
    if |es| == 0 then []
    else (if es[0].Named? && es[0].value.None? then [Missing(es[0].depId, es[0].name)] else []) + NotReady(es[1..])
  }

  /** The missing list names, in order, exactly the named dependencies
      whose output is not saved. */
  lemma {:induction false} FoldMissing(es: seq<Entry>)
    ensures Fold(es).missing == NotReady(es)
    decreases |es|
  {
    if |es| > 0 {
      var init := es[..|es| - 1];
      FoldMissing(init);
      NotReadyAppend(init, es[|es| - 1]);
      assert init + [es[|es| - 1]] == es;
    }
  }

  lemma {:induction false} NotReadyAppend(es: seq<Entry>, e: Entry)
    ensures NotReady(es + [e]) == NotReady(es) + NotReady([e])
    decreases |es|
  {
    if |es| > 0 {
      NotReadyAppend(es[1..], e);
      assert (es + [e])[1..] == es[1..] + [e];
    } else {
      assert es + [e] == [e];
    }
  }

  /** The lenient variant never fails for a missing input: its keys are
      exactly the names of the ready inputs, each holding the value of the
      last ready input of that name. */
  lemma LenientMeaning(task: Dict, taskMap: map<string, Dict>, planId: string, store: Dict)
    requires DepsOf(task).Ok? && Entries(DepsOf(task).value, taskMap, planId, store).Ok?
    ensures var es := Entries(DepsOf(task).value, taskMap, planId, store).value;
      var r := ResolveLenient(task, taskMap, planId, store);
      r.Ok? &&
      (forall i, name, v :: ReadyAt(es, i, name, v) ==> name in r.value) &&
      (forall name :: name in r.value ==> exists i :: ReadyAt(es, i, name, r.value[name]) && LastReady(es, i, name))
  {
    var es := Entries(DepsOf(task).value, taskMap, planId, store).value;
    FoldHasReady(es);
    forall name | name in ResolveLenient(task, taskMap, planId, store).value
      ensures exists i :: ReadyAt(es, i, name, Fold(es).found[name]) && LastReady(es, i, name)
    {
      FoldLastWins(es, name);
    }
  }

  /** The strict variant fails with the missing-artifact error exactly when
      some named input is not ready, listing all of them and returning
      nothing partial; otherwise it agrees with the lenient variant, which
      never fails for missing inputs. */
  lemma StrictVersusLenient(task: Dict, taskMap: map<string, Dict>, planId: string, store: Dict)
    requires DepsOf(task).Ok? && Entries(DepsOf(task).value, taskMap, planId, store).Ok?
    ensures var deps := DepsOf(task).value;
      var es := Entries(deps, taskMap, planId, store).value;
      var s := ResolveStrict(task, taskMap, planId, store);
      (s.Err? <==> |deps| > 0 && NotReady(es) != []) &&
      (s.Err? ==> s.error == MissingDependencyArtifact(if "task_id" in task then task["task_id"] else Str("?"), NotReady(es))) &&
      (s.Ok? ==> ResolveLenient(task, taskMap, planId, store) == Ok(s.value)) &&
      ResolveLenient(task, taskMap, planId, store).Ok?
  {
    FoldMissing(Entries(DepsOf(task).value, taskMap, planId, store).value);
  }
}
