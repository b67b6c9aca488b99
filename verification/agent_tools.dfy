/** The plan agent's tools as far as they change the plan state: the list of
    all tasks (raw dicts, as the model sent them) and the FIFO queue of task
    ids still to be visited. */
module AgentTools {
  import opened Wrappers
  import opened Json
  import opened Strs
  import opened TaskIds
  import Seqs

  type Dict = map<string, Value>

  datatype PlanState = PlanState(allTasks: seq<Dict>, queue: seq<Value>)

  /** What a tool call hands back to the agent loop. `Raised` stands for an
      exception escaping the call; the plan state then keeps whatever was
      changed before it. */
  datatype Reply =
    | NoTask
    | NextTask(tid: string, task: Dict, depth: nat, siblings: seq<Dict>)
    | PlanSummary(tasksCount: nat, pendingCount: nat)
    | Added(ids: seq<Value>)
    | Updated(updated: Value)
    | Finished(tasksCount: nat)
    | ToolError(msg: string)
    | Raised

  datatype Outcome = Outcome(finish: bool, reply: Reply, state: PlanState)

  /** `t.get("task_id", "")` */
  function IdOf(t: Dict): Value {
    if "task_id" in t then t["task_id"] else Str("")
  }

  /** `_find_task_idx` on raw dicts: the first position whose `task_id`
      equals `id` under Python equality, or -1. */
  function FindDictIdx(all: seq<Dict>, id: Value): (r: int)
    ensures -1 <= r < |all|
    ensures r >= 0 ==> PyEq(Get(all[r], "task_id"), id) && forall i :: 0 <= i < r ==> !PyEq(Get(all[i], "task_id"), id)
    ensures r == -1 <==> forall i :: 0 <= i < |all| ==> !PyEq(Get(all[i], "task_id"), id)
  {
    if |all| == 0 then -1
    else if PyEq(Get(all[0], "task_id"), id) then 0
    else
      var k := FindDictIdx(all[1..], id);
      assert forall i :: 1 <= i < |all| ==> all[1..][i - 1] == all[i];
      if k == -1 then -1 else k + 1
  }

  /** An id the plan holds as `1` is found by the integer 1, the float 1.0
      and `True`, as Python's `==` equates them. */
  lemma FindEquatesNumbers()
    ensures var all := [map["task_id" := Int(1)]];
      FindDictIdx(all, Float(1.0)) == 0 && FindDictIdx(all, Bool(true)) == 0 && FindDictIdx(all, Str("1")) == -1
  {
    var all := [map["task_id" := Int(1)]];
    assert PyEq(Get(all[0], "task_id"), Float(1.0));
    assert PyEq(Get(all[0], "task_id"), Bool(true));
  }

  // ---------------------------------------------------------------------
  // GetNextTask

  /** `get_parent_id` on whatever a task holds as its id, `None` when it
      raises. A string splits at its last `_`. A list or dict is searched
      for `"_"` (an element, or a key): without one the parent is `"0"`, and
      with one the `rsplit` it then calls does not exist. Any other value
      cannot be searched. */
  function ParentOfValue(v: Value): Option<string> {
    match v
    case Str(s) => Some(ParentId(s))
    case Arr(xs) => if Str("_") in xs then None else Some("0")
    case Obj(m) => if "_" in m then None else Some("0")
    case _ => None
  }

  /** The other tasks under the same parent as `tid`, in list order; `None`
      when some other task's id makes `get_parent_id` raise. */
  function Siblings(all: seq<Dict>, tid: string): (r: Option<seq<Dict>>)
    ensures r.None? <==> exists i :: 0 <= i < |all| && Get(all[i], "task_id") != Str(tid) && ParentOfValue(IdOf(all[i])).None?
    ensures r.Some? ==> forall t :: t in r.value <==>
      t in all && Get(t, "task_id") != Str(tid) && ParentOfValue(IdOf(t)) == Some(ParentId(tid))
    ensures r.Some? ==> Seqs.Subsequence(r.value, all)
  {
    if |all| == 0 then Some([])
    else
      var t := all[0];
      var rest := Siblings(all[1..], tid);
      assert forall i :: 1 <= i < |all| ==> all[1..][i - 1] == all[i];
      assert forall u :: u in all <==> u == t || u in all[1..];
      if Get(t, "task_id") == Str(tid) then rest
      else if ParentOfValue(IdOf(t)).None? then None
      else if rest.None? then None
      else if ParentOfValue(IdOf(t)) == Some(ParentId(tid)) then Some([t] + rest.value)
      else rest
  }

  /** `(v or "")[:n]` succeeds: a falsy value becomes `""`, and only strings
      and lists can be sliced. */
  predicate Sliceable(v: Value) {
    !Truthy(v) || v.Str? || v.Arr?
  }

  /** `GetNextTask`: nothing to do on an empty queue; otherwise the front id
      leaves the queue, and the reply carries its task (or a blank one), its
      depth and its siblings. The call raises, after the queue has been
      popped, on a non-string id at the front, on another task's id that
      `get_parent_id` cannot read, and on a sibling whose description
      cannot be cut to 80 characters. */
  function GetNextTask(s: PlanState): (o: Outcome)
    ensures !o.finish && o.state.allTasks == s.allTasks
    ensures |s.queue| == 0 <==> o.reply == NoTask
    ensures |s.queue| == 0 ==> o.state == s
    ensures |s.queue| > 0 ==> o.state.queue == s.queue[1..]
    ensures o.reply.NextTask? ==> Str(o.reply.tid) == s.queue[0] && o.reply.depth == Count(o.reply.tid, '_') + 1
    ensures o.reply.NextTask? ==> forall t :: t in o.reply.siblings ==> Sliceable(Get(t, "description"))
  {
    if |s.queue| == 0 then Outcome(false, NoTask, s)
    else
      var front := s.queue[0];
      var s1 := s.(queue := s.queue[1..]);
      if !front.Str? then Outcome(false, Raised, s1)
      else
        var tid := front.s;
        var idx := FindDictIdx(s.allTasks, front);
        var task := if idx >= 0 then s.allTasks[idx]
          else map["task_id" := front, "description" := Str(""), "dependencies" := Arr([])];
        match Siblings(s.allTasks, tid)
        case None => Outcome(false, Raised, s1)
        case Some(sibs) =>
          if exists i :: 0 <= i < |sibs| && !Sliceable(Get(sibs[i], "description")) then Outcome(false, Raised, s1)
          else
            SplitCount(tid, '_');
            Outcome(false, NextTask(tid, task, |Split(tid, '_')|, sibs), s1)
  }

  /** When `GetNextTask` raises, stated on the task list itself: a
      non-string front id, or another task whose id `get_parent_id` cannot
      read, or a task under the same parent whose description cannot be
      sliced. */
  lemma GetNextTaskRaisesIff(s: PlanState)
    requires |s.queue| > 0
    ensures var front := s.queue[0];
      GetNextTask(s).reply.Raised? <==>
        !front.Str? ||
        exists i :: 0 <= i < |s.allTasks| && Get(s.allTasks[i], "task_id") != front &&
          (ParentOfValue(IdOf(s.allTasks[i])).None? ||
           (ParentOfValue(IdOf(s.allTasks[i])) == Some(ParentId(front.s)) && !Sliceable(Get(s.allTasks[i], "description"))))
  {
    var front := s.queue[0];
    if front.Str? {
      var r := Siblings(s.allTasks, front.s);
      if r.Some? {
        UnsliceableSiblingIff(s.allTasks, front.s, r.value);
      }
    }
  }

  /** Some sibling's description cannot be sliced exactly when some task
      under the same parent has such a description. */
  lemma UnsliceableSiblingIff(all: seq<Dict>, tid: string, sibs: seq<Dict>)
    requires Siblings(all, tid) == Some(sibs)
    ensures (exists j :: 0 <= j < |sibs| && !Sliceable(Get(sibs[j], "description"))) <==>
      exists i :: 0 <= i < |all| && Get(all[i], "task_id") != Str(tid) &&
        ParentOfValue(IdOf(all[i])) == Some(ParentId(tid)) && !Sliceable(Get(all[i], "description"))
  {
    if exists i :: 0 <= i < |all| && Get(all[i], "task_id") != Str(tid) &&
        ParentOfValue(IdOf(all[i])) == Some(ParentId(tid)) && !Sliceable(Get(all[i], "description")) {
      var i :| 0 <= i < |all| && Get(all[i], "task_id") != Str(tid) &&
        ParentOfValue(IdOf(all[i])) == Some(ParentId(tid)) && !Sliceable(Get(all[i], "description"));
      assert all[i] in sibs;
      var j :| 0 <= j < |sibs| && sibs[j] == all[i];
    }
    if exists j :: 0 <= j < |sibs| && !Sliceable(Get(sibs[j], "description")) {
      var j :| 0 <= j < |sibs| && !Sliceable(Get(sibs[j], "description"));
      assert sibs[j] in all;
      var i :| 0 <= i < |all| && all[i] == sibs[j];
    }
  }

  /** A list id without `"_"` sits under the root, as the source's
      membership test lets it through: it is a sibling of a top-level task. */
  lemma ListIdIsSibling()
    ensures var t := map["task_id" := Arr([Str("x")])];
      Siblings([t], "1") == Some([t])
  {
    var t := map["task_id" := Arr([Str("x")])];
    assert Str("_") !in [Str("x")];
    assert '_' !in "1";
    assert ParentOfValue(IdOf(t)) == Some(ParentId("1"));
    assert Get(t, "task_id") != Str("1");
    assert [t][1..] == [];
    assert Siblings([], "1") == Some([]);
    assert Siblings([t], "1") == Some([t] + []);
    assert [t] + [] == [t];
  }

  /** The ids `n` successive `GetNextTask` calls take off the queue. */
  function Drain(s: PlanState, n: nat): seq<Value>
    decreases n
  {
    if n == 0 || |s.queue| == 0 then []
    else [s.queue[0]] + Drain(GetNextTask(s).state, n - 1)
  }

  /** The queue is first in, first out: `n` calls take its first `n` ids in
      order. */
  lemma {:induction false} DrainIsFifo(s: PlanState, n: nat)
    requires n <= |s.queue|
    ensures Drain(s, n) == s.queue[..n]
    decreases n
  {
    if n > 0 {
      var s1 := GetNextTask(s).state;
      DrainIsFifo(s1, n - 1);
      assert s1.queue[..n - 1] == s.queue[1..n];
    }
  }

  // ---------------------------------------------------------------------
  // AddTasks

  /** A task as stored: a `dependencies` entry that is not a list becomes []. */
  function WithDepsList(t: Dict): (u: Dict)
    ensures u.Keys == t.Keys + {"dependencies"} && u["dependencies"].Arr?
    ensures forall k :: k in t && k != "dependencies" ==> u[k] == t[k]
    ensures Get(t, "dependencies").Arr? ==> u == t
  {
    if Get(t, "dependencies").Arr? then t else t["dependencies" := Arr([])]
  }

  /** The fields of a dict value; none for anything else. */
  function Fields(v: Value): Dict {
    if v.Obj? then v.fields else map[]
  }

  /** An entry `AddTasks` accepts: a dict with a truthy id and description. */
  predicate Addable(v: Value) {
    v.Obj? && Truthy(Get(v.fields, "task_id")) && Truthy(Get(v.fields, "description"))
  }

  /** The stored form of entries. */
  function Stored(items: seq<Value>): (r: seq<Dict>)
    ensures |r| == |items|
    ensures forall i :: 0 <= i < |items| ==> r[i] == WithDepsList(Fields(items[i]))
  {
    if |items| == 0 then [] else [WithDepsList(Fields(items[0]))] + Stored(items[1..])
  }

  /** The ids of entries, in order. */
  function QueuedIds(items: seq<Value>): (r: seq<Value>)
    ensures |r| == |items|
    ensures forall i :: 0 <= i < |items| ==> r[i] == Get(Fields(items[i]), "task_id")
  {
    if |items| == 0 then [] else [Get(Fields(items[0]), "task_id")] + QueuedIds(items[1..])
  }

  /** Position of the first entry `AddTasks` refuses, or `|items|`. */
  function FirstRefused(items: seq<Value>): (k: nat)
    ensures k <= |items|
    ensures forall i :: 0 <= i < k ==> Addable(items[i])
    ensures k < |items| ==> !Addable(items[k])
  {
    if |items| == 0 || !Addable(items[0]) then 0
    else
      var k := FirstRefused(items[1..]);
      assert forall i :: 1 <= i < |items| ==> items[1..][i - 1] == items[i];
      1 + k
  }

  /** The loop of `AddTasks` from entry `i` on, appending each accepted entry
      and its id, and stopping at the first refused one. */
  function AddFrom(s: PlanState, items: seq<Value>, i: nat): (o: Outcome)
    requires i <= |items|
    ensures !o.finish && (o.reply.Added? || o.reply.ToolError?)
    decreases |items| - i
  {
    if i == |items| then Outcome(false, Added([]), s)
    else
      var v := items[i];
      if !Addable(v) then Outcome(false, ToolError("each task must have task_id and description"), s)
      else
        AddFrom(PlanState(s.allTasks + [WithDepsList(v.fields)], s.queue + [v.fields["task_id"]]), items, i + 1)
  }

  /** The loop appends exactly the entries from `i` up to the first refused
      one, whether or not it then fails. */
  lemma {:induction false} AddFromAppends(s: PlanState, items: seq<Value>, i: nat, k: nat)
    requires i <= k <= |items|
    requires forall j :: i <= j < k ==> Addable(items[j])
    requires k < |items| ==> !Addable(items[k])
    ensures AddFrom(s, items, i).state == PlanState(s.allTasks + Stored(items[i..k]), s.queue + QueuedIds(items[i..k]))
    ensures AddFrom(s, items, i).reply.ToolError? <==> k < |items|
    decreases |items| - i
  {
    if i == k {
      assert items[i..k] == [];
      assert s.allTasks + [] == s.allTasks && s.queue + [] == s.queue;
    } else {
      var v := items[i];
      assert Addable(v);
      var s1 := PlanState(s.allTasks + [WithDepsList(v.fields)], s.queue + [v.fields["task_id"]]);
      assert AddFrom(s, items, i) == AddFrom(s1, items, i + 1);
      AddFromAppends(s1, items, i + 1, k);
      var tail := items[i + 1..k];
      assert items[i..k][1..] == tail;
      assert s1.allTasks + Stored(tail) == s.allTasks + Stored(items[i..k]) by {
        assert Stored(items[i..k]) == [WithDepsList(v.fields)] + Stored(tail);
      }
      assert s1.queue + QueuedIds(tail) == s.queue + QueuedIds(items[i..k]) by {
        assert QueuedIds(items[i..k]) == [v.fields["task_id"]] + QueuedIds(tail);
      }
    }
  }

  /** `AddTasks`: a truthy parent id and a non-empty list are required;
      each entry is appended to the tasks and its id to the queue, in order,
      until a refused entry ends the call with an error. */
  function AddTasks(s: PlanState, args: Value): (o: Outcome)
    ensures !o.finish
  {
    if !args.Obj? then Outcome(false, Raised, s)
    else
      var parent := if "parent_id" in args.fields then args.fields["parent_id"] else Str("");
      var tasks := if "tasks" in args.fields then args.fields["tasks"] else Arr([]);
      if !Truthy(parent) || !tasks.Arr? || |tasks.items| == 0 then
        Outcome(false, ToolError("parent_id and non-empty tasks array required"), s)
      else AddAll(s, tasks.items)
  }

  /** The loop over a non-empty list, replying with all the ids on success. */
  function AddAll(s: PlanState, items: seq<Value>): (o: Outcome)
    ensures !o.finish
  {
    var o := AddFrom(s, items, 0);
    if o.reply.Added? then o.(reply := Added(QueuedIds(items))) else o
  }

  /** A successful `AddTasks` appends all its entries and queues all their
      ids after the ones already waiting; a failing one keeps the entries
      before the refused one (the call is not atomic). */
  lemma AddTasksMeaning(s: PlanState, args: Value, items: seq<Value>)
    requires args.Obj? && Get(args.fields, "tasks") == Arr(items) && |items| > 0
    requires Truthy(Get(args.fields, "parent_id"))
    ensures var o := AddTasks(s, args);
      var k := FirstRefused(items);
      o.state == PlanState(s.allTasks + Stored(items[..k]), s.queue + QueuedIds(items[..k])) &&
      (o.reply.ToolError? <==> k < |items|) &&
      (!o.reply.ToolError? ==> o.reply == Added(QueuedIds(items)))
  {
    var k := FirstRefused(items);
    assert AddTasks(s, args) == AddAll(s, items);
    var o := AddFrom(s, items, 0);
    assert o.state == PlanState(s.allTasks + Stored(items[..k]), s.queue + QueuedIds(items[..k])) &&
      (o.reply.ToolError? <==> k < |items|) by {
      AddFromAppends(s, items, 0, k);
      assert items[0..k] == items[..k];
    }
  }

  /** A second entry without a description is refused after the first has
      been stored. */
  lemma AddTasksNotAtomic()
    ensures var first := Obj(map["task_id" := Str("1"), "description" := Str("a")]);
      var second := Obj(map["task_id" := Str("2")]);
      var args := Obj(map["parent_id" := Str("0"), "tasks" := Arr([first, second])]);
      var o := AddTasks(PlanState([], []), args);
      o.reply.ToolError? && o.state.queue == [Str("1")] && |o.state.allTasks| == 1
  {
    var first := Obj(map["task_id" := Str("1"), "description" := Str("a")]);
    var second := Obj(map["task_id" := Str("2")]);
    var items := [first, second];
    assert Addable(first) && !Addable(second);
    assert FirstRefused(items) == 1 by {
      assert FirstRefused(items[1..]) == 0 by { assert items[1..][0] == second; }
    }
    AddTasksMeaning(PlanState([], []), Obj(map["parent_id" := Str("0"), "tasks" := Arr(items)]), items);
    assert items[..1] == [first];
  }

  // ---------------------------------------------------------------------
  // UpdateTask

  /** `UpdateTask`: a truthy id, input and output are required and the id
      must be known; the first task with it gets the input and output, and
      the validation when one is given. */
  function UpdateTask(s: PlanState, args: Value): (o: Outcome)
    ensures !o.finish && o.state.queue == s.queue && |o.state.allTasks| == |s.allTasks|
  {
    if !args.Obj? then Outcome(false, Raised, s)
    else
      var tid := if "task_id" in args.fields then args.fields["task_id"] else Str("");
      var input := Get(args.fields, "input");
      var output := Get(args.fields, "output");
      var validation := Get(args.fields, "validation");
      if !Truthy(tid) || !Truthy(input) || !Truthy(output) then
        Outcome(false, ToolError("task_id, input, output required"), s)
      else
        var idx := FindDictIdx(s.allTasks, tid);
        if idx < 0 then Outcome(false, ToolError("task not found"), s)
        else
          Outcome(false, Updated(tid), s.(allTasks := s.allTasks[idx := WithResult(s.allTasks[idx], input, output, validation)]))
  }

  /** A task dict with the input and output written, and the validation
      when it is not `None`. */
  function WithResult(d: Dict, input: Value, output: Value, validation: Value): Dict {
    var t := d["input" := input]["output" := output];
    if validation.Null? then t else t["validation" := validation]
  }

  /** Writing a result touches only `input`, `output` and `validation`. */
  lemma WithResultMeaning(d: Dict, input: Value, output: Value, validation: Value)
    ensures var n := WithResult(d, input, output, validation);
      n["input"] == input && n["output"] == output &&
      (forall k :: k in d && k != "input" && k != "output" && k != "validation" ==> k in n && n[k] == d[k]) &&
      (forall k :: k in n ==> k in d || k == "input" || k == "output" || k == "validation") &&
      (!validation.Null? ==> n["validation"] == validation) &&
      (validation.Null? ==> Get(n, "validation") == Get(d, "validation"))
  {
  }

  /** Only the first task with the id changes, and only in `input`,
      `output` and (when given) `validation`; an unknown id or a missing
      field changes nothing. */
  lemma UpdateTaskMeaning(s: PlanState, args: Value)
    requires args.Obj?
    ensures var o := UpdateTask(s, args);
      var tid := if "task_id" in args.fields then args.fields["task_id"] else Str("");
      var idx := FindDictIdx(s.allTasks, tid);
      (o.reply.Updated? <==> Truthy(tid) && Truthy(Get(args.fields, "input")) && Truthy(Get(args.fields, "output")) && idx >= 0) &&
      (!o.reply.Updated? ==> o.state == s) &&
      (o.reply.Updated? ==>
        (forall i :: 0 <= i < |s.allTasks| && i != idx ==> o.state.allTasks[i] == s.allTasks[i]) &&
        var old_ := s.allTasks[idx];
        var new_ := o.state.allTasks[idx];
        new_["input"] == Get(args.fields, "input") && new_["output"] == Get(args.fields, "output") &&
        (forall k :: k in old_ && k != "input" && k != "output" && k != "validation" ==> k in new_ && new_[k] == old_[k]) &&
        (forall k :: k in new_ ==> k in old_ || k == "input" || k == "output" || k == "validation") &&
        (!Get(args.fields, "validation").Null? ==> new_["validation"] == Get(args.fields, "validation")) &&
        (Get(args.fields, "validation").Null? ==> Get(new_, "validation") == Get(old_, "validation")))
  {
    var tid := if "task_id" in args.fields then args.fields["task_id"] else Str("");
    var idx := FindDictIdx(s.allTasks, tid);
    if 0 <= idx < |s.allTasks| {
      WithResultMeaning(s.allTasks[idx], Get(args.fields, "input"), Get(args.fields, "output"), Get(args.fields, "validation"));
    }
  }

  // ---------------------------------------------------------------------
  // The dispatcher

  /** The tools whose work lies in model calls or skill files. */
  const DelegatedTools: set<string> := {"CheckAtomicity", "Decompose", "FormatTask", "ListSkills", "LoadSkill", "ReadSkillFile"}

  /** `execute_plan_agent_tool` for the tools that act on the plan state.
      `args` is the decoded argument object, `None` when decoding failed.
      `None` is returned for the delegated tools. */
  function ExecuteTool(name: string, args: Option<Value>, s: PlanState): (r: Option<Outcome>)
    ensures args.None? ==> r.Some? && r.value.state == s && !r.value.finish && r.value.reply.ToolError?
    ensures r.None? <==> args.Some? && name in DelegatedTools
  {
    if args.None? then Some(Outcome(false, ToolError("invalid tool arguments"), s))
    else if name == "GetNextTask" then Some(GetNextTask(s))
    else if name == "GetPlan" then Some(GetPlan(s))
    else if name == "AddTasks" then Some(AddTasks(s, args.value))
    else if name == "UpdateTask" then Some(UpdateTask(s, args.value))
    else if name == "FinishPlan" then Some(Outcome(true, Finished(|s.allTasks|), s))
    else if name in DelegatedTools then None
    else Some(Outcome(false, ToolError("unknown tool"), s))
  }

  /** `GetPlan`: the task and queue counts; cutting a description that
      cannot be sliced to 60 characters raises. */
  function GetPlan(s: PlanState): (o: Outcome)
    ensures !o.finish && o.state == s
    ensures o.reply.Raised? <==> exists i :: 0 <= i < |s.allTasks| && !Sliceable(Get(s.allTasks[i], "description"))
    ensures !o.reply.Raised? ==> o.reply == PlanSummary(|s.allTasks|, |s.queue|)
  {
    if exists i :: 0 <= i < |s.allTasks| && !Sliceable(Get(s.allTasks[i], "description")) then Outcome(false, Raised, s)
    else Outcome(false, PlanSummary(|s.allTasks|, |s.queue|), s)
  }

  /** `FinishPlan` is the only tool that ends the loop, and it changes
      nothing; an unknown tool is an error that changes nothing. */
  lemma FinishOnlyByFinishPlan(name: string, args: Option<Value>, s: PlanState)
    requires ExecuteTool(name, args, s).Some?
    ensures ExecuteTool(name, args, s).value.finish <==> name == "FinishPlan" && args.Some?
    ensures ExecuteTool(name, args, s).value.finish ==> ExecuteTool(name, args, s).value.state == s
    ensures args.Some? && name !in DelegatedTools + {"GetNextTask", "GetPlan", "AddTasks", "UpdateTask", "FinishPlan"} ==>
      ExecuteTool(name, args, s).value == Outcome(false, ToolError("unknown tool"), s)
  {
  }
}
