/** The check applied to a model's decomposition of task `parent` into
    children. Three copies exist: the plan agent's and the plan module's
    reject a dependency on the parent and test acyclicity on the dependency
    graph of the children; the planner's allows a dependency on the parent
    and tests acyclicity through its subset cycle check. */
module Decompose {
  import opened Wrappers
  import opened Json
  import opened Strs
  import opened Reach
  import opened Tasks
  import opened Digraph
  import Stages

  datatype Variant = ParentForbidden | ParentAllowed

  /** The reasons a decomposition is refused, in the order they are tested. */
  datatype DecomposeError =
    | NotADict
    | TasksNotList
    | TaskNotDict(index: nat)
    | BadTaskId(index: nat)
    | DuplicateId(tid: string)
    | BadTopLevelId(tid: string)
    | BadChildId(tid: string)
    | BadDescription(tid: string)
    | DepsNotList(tid: string)
    | NonStringDep(tid: string)
    | DependsOnParent(tid: string)
    | NotEarlierSibling(tid: string, dep: string)
    | UnknownDep(tid: string, dep: string)
    | CircularChildren

  /** The id a child of `parent` must have: a number other than "0" under the
      root, otherwise `parent + "_"` followed by more. */
  predicate IdFormatOk(tid: string, parent: string) {
    if parent == "0" then IsDigits(tid) && tid != "0"
    else StartsWith(tid, parent + "_") && tid != parent
  }

  /** A present, non-empty string field. */
  predicate NonEmptyStr(v: Value) {
    v.Str? && v.s != ""
  }

  /** The `task_id` of a child value when it is a non-empty string, else "". */
  function ChildId(v: Value): string {
    if v.Obj? && NonEmptyStr(Get(v.fields, "task_id")) then Get(v.fields, "task_id").s else ""
  }

  // ---------------------------------------------------------------------
  // The check as written

  /** One dependency of child `tid`; `seen` holds the ids of the children so
      far, `tid` included. */
  function CheckDep(d: Value, tid: string, parent: string, seen: set<string>, variant: Variant): Result<string, DecomposeError> {
    if !d.Str? then Err(NonStringDep(tid))
    else
      match variant
      case ParentForbidden =>
        if d.s == parent then Err(DependsOnParent(tid))
        else if d.s != "" && d.s !in seen then Err(NotEarlierSibling(tid, d.s))
        else Ok(d.s)
      case ParentAllowed =>
        if d.s != "" && d.s !in seen + {parent} then Err(UnknownDep(tid, d.s))
        else Ok(d.s)
  }

  /** Every dependency of child `tid` in order, stopping at the first
      refused one. */
  function CheckDeps(ds: seq<Value>, tid: string, parent: string, seen: set<string>, variant: Variant): (r: Result<seq<string>, DecomposeError>)
    ensures r.Ok? <==> forall j :: 0 <= j < |ds| ==> CheckDep(ds[j], tid, parent, seen, variant).Ok?
    ensures r.Ok? ==> |r.value| == |ds| && forall j :: 0 <= j < |ds| ==> ds[j] == Str(r.value[j])
  {
    if |ds| == 0 then Ok([])
    else
      match CheckDep(ds[0], tid, parent, seen, variant)
      case Err(e) => Err(e)
      case Ok(d) =>
        match CheckDeps(ds[1..], tid, parent, seen, variant)
        case Err(e) =>
          assert !CheckDep(ds[1..][0], tid, parent, seen, variant).Ok? || exists j :: 0 <= j < |ds[1..]| && !CheckDep(ds[1..][j], tid, parent, seen, variant).Ok?;
          Err(e)
        case Ok(rest) =>
          assert forall j :: 1 <= j < |ds| ==> ds[j] == ds[1..][j - 1];
          Ok([d] + rest)
  }

  /** The dependency entries of a child value, when it has a list of them. */
  function DepsOf(v: Value): seq<Value> {
    if v.Obj? && Get(v.fields, "dependencies").Arr? then Get(v.fields, "dependencies").items else []
  }

  /** The checks on child `i`, given the ids of the children before it. */
  function CheckTask(v: Value, i: nat, parent: string, seen: set<string>, variant: Variant): (r: Result<Task, DecomposeError>)
    ensures r.Ok? ==> r.value.id == ChildId(v) && r.value.id != "" && r.value.id !in seen
    ensures r.Ok? ==> forall d :: d in r.value.deps ==> Str(d) in DepsOf(v)
  {
    if !v.Obj? then Err(TaskNotDict(i))
    else if !NonEmptyStr(Get(v.fields, "task_id")) then Err(BadTaskId(i))
    else
      var tid := Get(v.fields, "task_id").s;
      if tid in seen then Err(DuplicateId(tid))
      else if !IdFormatOk(tid, parent) then Err(if parent == "0" then BadTopLevelId(tid) else BadChildId(tid))
      else if !NonEmptyStr(Get(v.fields, "description")) then Err(BadDescription(tid))
      else
        var deps := Get(v.fields, "dependencies");
        if !deps.Arr? then Err(DepsNotList(tid))
        else
          match CheckDeps(deps.items, tid, parent, seen + {tid}, variant)
          case Err(e) => Err(e)
          case Ok(ds) =>
            assert forall d :: d in ds ==> Str(d) in deps.items by {
              forall d | d in ds ensures Str(d) in deps.items {
                var j :| 0 <= j < |ds| && ds[j] == d;
                assert deps.items[j] == Str(d);
              }
            }
            Ok(Task(tid, ds, v.fields - {"task_id", "dependencies"}))
  }

  /** What an accepted child's dependency may name: nothing (the empty
      string), a child at or before it, or, in the planner's copy, the
      parent. */
  predicate DepAllowed(d: string, parent: string, upto: set<string>, variant: Variant) {
    match variant
    case ParentForbidden => d != parent && (d == "" || d in upto)
    case ParentAllowed => d == "" || d == parent || d in upto
  }

  /** The children from position `i` on, checked in order, `seen` holding
      the ids of those before; each accepted child carries the id and the
      dependencies its value gave. */
  function CheckChildren(items: seq<Value>, i: nat, parent: string, seen: set<string>, variant: Variant): (r: Result<seq<Task>, DecomposeError>)
    requires i <= |items|
    ensures r.Ok? ==> |r.value| == |items| - i
    ensures r.Ok? ==> forall k :: 0 <= k < |r.value| ==>
      r.value[k].id == ChildId(items[i + k]) && forall d :: d in r.value[k].deps ==> Str(d) in DepsOf(items[i + k])
    decreases |items| - i
  {
    if i == |items| then Ok([])
    else
      match CheckTask(items[i], i, parent, seen, variant)
      case Err(e) => Err(e)
      case Ok(t) =>
        match CheckChildren(items, i + 1, parent, seen + {t.id}, variant)
        case Err(e) => Err(e)
        case Ok(rest) =>
          ConsChildren(items, i, t, rest);
          Ok([t] + rest)
  }

  /** Child `i` in front of the checked children from `i + 1` on lines up
      with the items from `i` on. */
  lemma ConsChildren(items: seq<Value>, i: nat, t: Task, rest: seq<Task>)
    requires i < |items| && |rest| == |items| - (i + 1)
    requires t.id == ChildId(items[i]) && forall d :: d in t.deps ==> Str(d) in DepsOf(items[i])
    requires forall k :: 0 <= k < |rest| ==>
      rest[k].id == ChildId(items[i + 1 + k]) && forall d :: d in rest[k].deps ==> Str(d) in DepsOf(items[i + 1 + k])
    ensures var r := [t] + rest;
      |r| == |items| - i &&
      forall k :: 0 <= k < |r| ==> r[k].id == ChildId(items[i + k]) && forall d :: d in r[k].deps ==> Str(d) in DepsOf(items[i + k])
  {
    var r := [t] + rest;
    forall k | 0 <= k < |r|
      ensures r[k].id == ChildId(items[i + k]) && forall d :: d in r[k].deps ==> Str(d) in DepsOf(items[i + k])
    {
      if k > 0 {
        assert r[k] == rest[k - 1];
        assert i + 1 + (k - 1) == i + k;
      }
    }
  }

  /** Whether the accepted children's dependencies form a cycle, by each
      copy's own test. */
  function ChildrenCyclic(children: seq<Task>, variant: Variant): bool {
    match variant
    case ParentForbidden =>
      IdSet(children) != {} && TopologicalGenerations(BuildDependencyGraph(children, Some(IdSet(children)))).None?
    case ParentAllowed =>
      Stages.HasCycleInSubset(children, IdSet(children))
  }

  /** `_validate_decompose_response`: the accepted children, or the first
      reason for refusal. */
  function ValidateDecompose(result: Value, parent: string, variant: Variant): (r: Result<seq<Task>, DecomposeError>)
    ensures r.Ok? ==> 0 < |r.value|
  {
    if !result.Obj? then Err(NotADict)
    else
      var tasks := Get(result.fields, "tasks");
      if !tasks.Arr? || |tasks.items| == 0 then Err(TasksNotList)
      else
        match CheckChildren(tasks.items, 0, parent, {}, variant)
        case Err(e) => Err(e)
        case Ok(children) =>
          if ChildrenCyclic(children, variant) then Err(CircularChildren) else Ok(children)
  }

  // ---------------------------------------------------------------------
  // The rule stated declaratively

  /** The ids of the children at positions up to and including `i`. */
  function IdsUpTo(items: seq<Value>, i: int): set<string> {
    set j | 0 <= j <= i && j < |items| :: ChildId(items[j])
  }

  /** Child `i` is a dict with a well-formed id, a description, and a list
      of string dependencies each naming something it may name. */
  ghost predicate ChildOk(items: seq<Value>, i: nat, parent: string, variant: Variant)
    requires i < |items|
  {
    var v := items[i];
    v.Obj? && NonEmptyStr(Get(v.fields, "task_id")) && IdFormatOk(ChildId(v), parent) &&
    NonEmptyStr(Get(v.fields, "description")) && Get(v.fields, "dependencies").Arr? &&
    forall d :: d in Get(v.fields, "dependencies").items ==>
      d.Str? && DepAllowed(d.s, parent, IdsUpTo(items, i), variant)
  }

  /** A decomposition every copy of the check should accept: a non-empty
      list of well-formed children with distinct ids. */
  ghost predicate Acceptable(result: Value, parent: string, variant: Variant) {
    result.Obj? && Get(result.fields, "tasks").Arr? &&
    var items := Get(result.fields, "tasks").items;
    |items| > 0 &&
    (forall i :: 0 <= i < |items| ==> ChildOk(items, i, parent, variant)) &&
    forall i, j :: 0 <= i < j < |items| ==> ChildId(items[i]) != ChildId(items[j])
  }

  /** The ids up to position `i` are those up to `i - 1` plus child `i`'s. */
  lemma IdsUpToStep(items: seq<Value>, i: nat)
    requires i < |items|
    ensures IdsUpTo(items, i) == IdsUpTo(items, i - 1) + {ChildId(items[i])}
  {
    forall x | x in IdsUpTo(items, i) ensures x in IdsUpTo(items, i - 1) + {ChildId(items[i])} {
      var j :| 0 <= j <= i && j < |items| && ChildId(items[j]) == x;
      if j < i { assert x in IdsUpTo(items, i - 1); }
    }
  }

  /** The check accepts exactly the acceptable decompositions: its cycle
      test never refuses one that passed the per-child checks. */
  lemma ValidateDecomposeIff(result: Value, parent: string, variant: Variant)
    ensures ValidateDecompose(result, parent, variant).Ok? <==> Acceptable(result, parent, variant)
  {
    if result.Obj? && Get(result.fields, "tasks").Arr? && |Get(result.fields, "tasks").items| > 0 {
      var items := Get(result.fields, "tasks").items;
      ValidateItemsIff(result, items, parent, variant);
    }
  }

  /** The same, once the list of children is in hand. */
  lemma ValidateItemsIff(result: Value, items: seq<Value>, parent: string, variant: Variant)
    requires result.Obj? && Get(result.fields, "tasks") == Arr(items) && |items| > 0
    ensures ValidateDecompose(result, parent, variant).Ok? <==> Acceptable(result, parent, variant)
  {
    var c := CheckChildren(items, 0, parent, {}, variant);
    CheckFromStartIff(items, parent, variant);
    AcceptableFromStart(result, items, parent, variant);
    ValidateUnfolded(result, items, parent, variant);
    if c.Ok? {
      CheckedChildrenAcyclic(items, c.value, parent, variant);
    }
  }

  /** Children that pass the per-child checks never form a cycle. */
  lemma CheckedChildrenAcyclic(items: seq<Value>, children: seq<Task>, parent: string, variant: Variant)
    requires CheckChildren(items, 0, parent, {}, variant) == Ok(children)
    requires AllOkFrom(items, 0, parent, variant) && DistinctFrom(items, 0)
    ensures !ChildrenCyclic(children, variant)
  {
    ChildrenAcyclic(items, children, parent, variant);
  }

  /** Validation of a dict with a non-empty task list is the children check
      followed by the cycle test. */
  lemma ValidateUnfolded(result: Value, items: seq<Value>, parent: string, variant: Variant)
    requires result.Obj? && Get(result.fields, "tasks") == Arr(items) && |items| > 0
    ensures var c := CheckChildren(items, 0, parent, {}, variant);
      ValidateDecompose(result, parent, variant).Ok? <==> c.Ok? && !ChildrenCyclic(c.value, variant)
  {
  }

  /** No child comes before the first, so the loop starts with no ids. */
  lemma NoIdsBeforeStart(items: seq<Value>)
    ensures IdsUpTo(items, 0 - 1) == {}
  {
  }

  /** The per-child checks of the whole list succeed exactly when every child
      is well formed and no id repeats. */
  lemma CheckFromStartIff(items: seq<Value>, parent: string, variant: Variant)
    ensures CheckChildren(items, 0, parent, {}, variant).Ok? <==>
      AllOkFrom(items, 0, parent, variant) && DistinctFrom(items, 0)
  {
    NoIdsBeforeStart(items);
    CheckChildrenIff(items, 0, parent, variant);
  }

  /** The declarative rule is the position-wise rule read from the start. */
  lemma AcceptableFromStart(result: Value, items: seq<Value>, parent: string, variant: Variant)
    requires result.Obj? && Get(result.fields, "tasks") == Arr(items) && |items| > 0
    ensures Acceptable(result, parent, variant) <==> AllOkFrom(items, 0, parent, variant) && DistinctFrom(items, 0)
  {
  }

  /** Children `i` onwards are all well formed. */
  ghost predicate AllOkFrom(items: seq<Value>, i: nat, parent: string, variant: Variant) {
    forall k :: i <= k < |items| ==> ChildOk(items, k, parent, variant)
  }

  /** No child from position `i` on repeats the id of an earlier one. */
  predicate DistinctFrom(items: seq<Value>, i: nat) {
    forall j, k :: 0 <= j < k < |items| && i <= k ==> ChildId(items[j]) != ChildId(items[k])
  }

  /** The per-child checks from position `i` on succeed exactly when every
      later child is well formed and no id repeats. */
  lemma {:induction false} CheckChildrenIff(items: seq<Value>, i: nat, parent: string, variant: Variant)
    requires i <= |items|
    ensures CheckChildren(items, i, parent, IdsUpTo(items, i - 1), variant).Ok? <==>
      AllOkFrom(items, i, parent, variant) && DistinctFrom(items, i)
    decreases |items| - i
  {
    if i < |items| {
      var seen := IdsUpTo(items, i - 1);
      IdsUpToStep(items, i);
      CheckTaskIff(items, i, parent, variant);
      CheckChildrenIff(items, i + 1, parent, variant);
      var ct := CheckTask(items[i], i, parent, seen, variant);
      if ct.Ok? {
        assert seen + {ct.value.id} == IdsUpTo(items, i);
        assert CheckChildren(items, i, parent, seen, variant).Ok? <==>
          CheckChildren(items, i + 1, parent, IdsUpTo(items, i), variant).Ok?;
      } else {
        assert !CheckChildren(items, i, parent, seen, variant).Ok?;
      }
      assert AllOkFrom(items, i, parent, variant) <==>
        ChildOk(items, i, parent, variant) && AllOkFrom(items, i + 1, parent, variant);
      NewIdHere(items, i);
    }
  }

  /** Distinctness from `i` on is a new id at `i` and distinctness after. */
  lemma NewIdHere(items: seq<Value>, i: nat)
    requires i < |items|
    ensures DistinctFrom(items, i) <==> ChildId(items[i]) !in IdsUpTo(items, i - 1) && DistinctFrom(items, i + 1)
  {
    if ChildId(items[i]) in IdsUpTo(items, i - 1) {
      var j :| 0 <= j <= i - 1 && j < |items| && ChildId(items[j]) == ChildId(items[i]);
    }
    if !DistinctFrom(items, i) {
      var j, k :| 0 <= j < k < |items| && i <= k && ChildId(items[j]) == ChildId(items[k]);
      if k == i {
        assert ChildId(items[j]) in IdsUpTo(items, i - 1);
      }
    }
  }

  /** Child `i` passes its checks exactly when it is well formed and its id
      is new. */
  lemma CheckTaskIff(items: seq<Value>, i: nat, parent: string, variant: Variant)
    requires i < |items|
    ensures CheckTask(items[i], i, parent, IdsUpTo(items, i - 1), variant).Ok? <==>
      ChildOk(items, i, parent, variant) && ChildId(items[i]) !in IdsUpTo(items, i - 1)
  {
    var v := items[i];
    var seen := IdsUpTo(items, i - 1);
    IdsUpToStep(items, i);
    if v.Obj? && NonEmptyStr(Get(v.fields, "task_id")) {
      var tid := ChildId(v);
      var deps := Get(v.fields, "dependencies");
      if deps.Arr? {
        assert (forall j :: 0 <= j < |deps.items| ==> CheckDep(deps.items[j], tid, parent, seen + {tid}, variant).Ok?) <==>
          (forall d :: d in deps.items ==> d.Str? && DepAllowed(d.s, parent, IdsUpTo(items, i), variant));
      }
    }
  }

  // ---------------------------------------------------------------------
  // Why the cycle test never fires

  /** Children accepted from acceptable items have a dependency graph in
      which every edge runs from an earlier child to a later one, so it has
      no cycle. */
  lemma ChildrenAcyclic(items: seq<Value>, children: seq<Task>, parent: string, variant: Variant)
    requires |children| == |items|
    requires forall k :: 0 <= k < |children| ==>
      children[k].id == ChildId(items[k]) && forall d :: d in children[k].deps ==> Str(d) in DepsOf(items[k])
    requires forall k :: 0 <= k < |items| ==> ChildOk(items, k, parent, variant)
    requires forall j, k :: 0 <= j < k < |items| ==> ChildId(items[j]) != ChildId(items[k])
    ensures !ChildrenCyclic(children, variant)
  {
    var s := IdSet(children);
    var g := BuildFrom(children, s);
    ChildrenPointBack(items, children, parent, variant);
    EdgesRise(children);
    assert forall a, b :: 0 <= a < b < |children| ==> children[a].id != children[b].id;
    RisingAcyclic(g.edges, children);
    match variant
    case ParentForbidden =>
      var bg := BuildDependencyGraph(children, Some(s));
      if s != {} {
        assert ChosenIds(children, Some(s)) == s;
        GenerationsIffAcyclic(bg);
      }
    case ParentAllowed =>
      assert s * IdSet(children) == s;
      Stages.HasCycleInSubsetIff(children, s);
  }

  /** Every dependency of a child that names a sibling names an earlier one. */
  predicate DepsPointBack(ts: seq<Task>) {
    forall k, d :: 0 <= k < |ts| && d in ts[k].deps && d in IdSet(ts) && d != ts[k].id ==>
      exists j :: 0 <= j < k && ts[j].id == d
  }

  /** The accepted children of acceptable items point back. */
  lemma ChildrenPointBack(items: seq<Value>, children: seq<Task>, parent: string, variant: Variant)
    requires |children| == |items|
    requires forall k :: 0 <= k < |children| ==>
      children[k].id == ChildId(items[k]) && forall d :: d in children[k].deps ==> Str(d) in DepsOf(items[k])
    requires forall k :: 0 <= k < |items| ==> ChildOk(items, k, parent, variant)
    ensures DepsPointBack(children)
  {
    forall k, d | 0 <= k < |children| && d in children[k].deps && d in IdSet(children) && d != children[k].id
      ensures exists j :: 0 <= j < k && children[j].id == d
    {
      EdgeRises(items, children, parent, variant, d, k);
      var j :| 0 <= j <= k && children[j].id == d;
    }
  }

  /** Every edge of the graph of children that point back runs from an
      earlier child to a later one. */
  lemma EdgesRise(children: seq<Task>)
    requires DepsPointBack(children)
    ensures forall d, t :: (d, t) in BuildFrom(children, IdSet(children)).edges ==> RisesIn(children, d, t)
  {
    var s := IdSet(children);
    var g := BuildFrom(children, s);
    forall d, t | (d, t) in g.edges ensures RisesIn(children, d, t) {
      assert Contributes(children, s, d, t);
      var k :| 0 <= k < |children| && children[k].id == t && d in children[k].deps && d in s && d != t;
      var j :| 0 <= j < k && children[j].id == d;
    }
  }

  /** `d` sits strictly before `t` among the tasks. */
  predicate RisesIn(ts: seq<Task>, d: string, t: string) {
    exists j, k :: 0 <= j < k < |ts| && ts[j].id == d && ts[k].id == t
  }

  /** A graph whose every edge rises among tasks with distinct ids has no
      cycle. */
  lemma RisingAcyclic(e: Edges, ts: seq<Task>)
    requires forall a, b :: 0 <= a < b < |ts| ==> ts[a].id != ts[b].id
    requires forall d, t :: (d, t) in e ==> RisesIn(ts, d, t)
    ensures NoCycle(e)
  {
    forall d, t | (d, t) in e ensures 0 <= FindTaskIdx(ts, d) < FindTaskIdx(ts, t) {
      var j, k :| 0 <= j < k < |ts| && ts[j].id == d && ts[k].id == t;
      FirstIsUnique(ts, j);
      FirstIsUnique(ts, k);
    }
    forall p | IsCycle(e, p) ensures false {
      PathRises(e, p, ts);
    }
  }

  /** A dependency of child `k` that names a sibling names one at or before
      it. */
  lemma EdgeRises(items: seq<Value>, children: seq<Task>, parent: string, variant: Variant, d: string, k: nat)
    requires |children| == |items| && k < |children|
    requires forall i :: 0 <= i < |children| ==> children[i].id == ChildId(items[i])
    requires forall i :: 0 <= i < |items| ==> ChildOk(items, i, parent, variant)
    requires Str(d) in DepsOf(items[k]) && d in IdSet(children)
    ensures exists j :: 0 <= j <= k && children[j].id == d
  {
    var m :| 0 <= m < |children| && children[m].id == d && d != "";
    assert ChildOk(items, m, parent, variant);
    ParentNotChild(d, parent);
    assert ChildOk(items, k, parent, variant);
    assert DepAllowed(d, parent, IdsUpTo(items, k), variant);
    var j :| 0 <= j <= k && j < |items| && ChildId(items[j]) == d;
    assert children[j].id == d;
  }

  /** No child id equals its parent. */
  lemma ParentNotChild(tid: string, parent: string)
    requires IdFormatOk(tid, parent)
    ensures tid != parent
  {
  }

  /** With distinct ids, the first position of an id is its only one. */
  lemma FirstIsUnique(ts: seq<Task>, j: nat)
    requires j < |ts|
    requires forall a, b :: 0 <= a < b < |ts| ==> ts[a].id != ts[b].id
    ensures FindTaskIdx(ts, ts[j].id) == j
  {
  }

  /** Along a path whose every edge rises in position, the position rises
      strictly from the first node to the last. */
  lemma {:induction false} PathRises(e: Edges, p: seq<string>, ts: seq<Task>)
    requires IsPath(e, p) && |p| >= 2
    requires forall d, t :: (d, t) in e ==> 0 <= FindTaskIdx(ts, d) < FindTaskIdx(ts, t)
    ensures FindTaskIdx(ts, p[0]) < FindTaskIdx(ts, p[|p| - 1])
    decreases |p|
  {
    assert (p[0], p[1]) in e;
    if |p| > 2 {
      PathRises(e, p[1..], ts);
      assert p[1..][|p[1..]| - 1] == p[|p| - 1];
    }
  }
}
