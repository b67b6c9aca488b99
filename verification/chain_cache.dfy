/** Building a runner's chain cache from a saved layout: the entries of a
    tree-data list (the task agent's runner) or of a grid read row by row
    followed by the isolated tasks (the executor and workers runners). An
    error raised part-way leaves the entries appended before it. */
module ChainCache {
  import opened Wrappers
  import opened Json
  import opened Scheduling

  type Dict = map<string, Value>

  /** The fields the task agent's and executor's entries copy from the
      execution or the layout. */
  const AttrKeys: set<string> := {"description", "input", "output", "validation"}

  /** `task_by_id`: the execution's tasks by their text ids, a later entry
      winning. An entry that is not a dict, or whose truthy id cannot be a
      dict key, raises. */
  function ExecutionIndex(tasks: seq<Value>): (r: Result<map<string, Dict>, string>)
    ensures r.Ok? ==> forall id :: id in r.value ==> exists i :: 0 <= i < |tasks| && tasks[i].Obj? && Get(tasks[i].fields, "task_id") == Str(id)
    decreases |tasks|
  {
    if |tasks| == 0 then Ok(map[])
    else match ExecutionIndex(tasks[..|tasks| - 1])
      case Err(e) => Err(e)
      case Ok(m) =>
        var t := tasks[|tasks| - 1];
        if !t.Obj? then Err("execution task is not a dict")
        else
          var id := Get(t.fields, "task_id");
          if !Truthy(id) then Ok(m)
          else if id.Arr? || id.Obj? then Err("unhashable task id")
          else if id.Str? then Ok(m[id.s := t.fields])
          else Ok(m)
  }

  /** The execution's tasks, when an execution is given. */
  function ExecutionTasks(execution: Option<Dict>): Result<map<string, Dict>, string> {
    if execution.None? || execution.value == map[] then Ok(map[])
    else
      var ts := Or(Get(execution.value, "tasks"), Arr([]));
      if !ts.Arr? then Err("execution tasks is not a list") else ExecutionIndex(ts.items)
  }

  /** The chain entry a layout entry gives: none for a falsy entry or id;
      the status and the fields named by `keys` prefer the execution's
      copy, then the layout's, and the status falls back to `undone`. */
  function LayoutEntry(t: Value, byId: map<string, Dict>, keys: set<string>): (r: Result<Option<RTask>, string>)
    ensures r.Ok? && r.value.Some? ==>
      t.Obj? && Get(t.fields, "task_id") == Str(r.value.value.id) && r.value.value.id != "" &&
      Truthy(r.value.value.status) && r.value.value.attrs.Keys == keys
    ensures r.Ok? && r.value.None? ==> !Truthy(t) || (t.Obj? && !Truthy(Get(t.fields, "task_id")))
  {
    if !Truthy(t) then Ok(None)
    else if !t.Obj? then Err("layout entry is not a dict")
    else
      var tid := Get(t.fields, "task_id");
      if !Truthy(tid) then Ok(None)
      else if !tid.Str? then Err("task id is not text")
      else
        var full := if tid.s in byId then byId[tid.s] else map[];
        match DepIds(Get(t.fields, "dependencies"))
        case Err(e) => Err(e)
        case Ok(deps) =>
          Ok(Some(RTask(tid.s, deps, Or(Or(Get(full, "status"), Get(t.fields, "status")), Undone),
                        map k | k in keys :: Or(Get(full, k), Get(t.fields, k)))))
  }

  /** The chain built from the layout entries in order, with the error that
      stopped it (the entries appended before the error stay). */
  function LayoutChain(items: seq<Value>, byId: map<string, Dict>, keys: set<string>): (r: (seq<RTask>, Option<string>))
    ensures |r.0| <= |items|
    decreases |items|
  {
    if |items| == 0 then ([], None)
    else
      var prev := LayoutChain(items[..|items| - 1], byId, keys);
      if prev.1.Some? then prev
      else match LayoutEntry(items[|items| - 1], byId, keys)
        case Err(e) => (prev.0, Some(e))
        case Ok(None) => prev
        case Ok(Some(task)) => (prev.0 + [task], None)
  }

  /** The ids a layout lists, in order: the text ids of its entries with a
      truthy id. */
  function LayoutIds(items: seq<Value>): seq<string>
    decreases |items|
  {
    if |items| == 0 then []
    else
      var t := items[|items| - 1];
      LayoutIds(items[..|items| - 1]) +
      (if t.Obj? && Get(t.fields, "task_id").Str? && Get(t.fields, "task_id").s != "" then [Get(t.fields, "task_id").s] else [])
  }

  /** The ids of a chain, in chain order. */
  function ChainIds(chain: seq<RTask>): (r: seq<string>)
    ensures |r| == |chain| && forall i :: 0 <= i < |chain| ==> r[i] == chain[i].id
  {
    seq(|chain|, i requires 0 <= i < |chain| => chain[i].id)
  }

  /** A layout read without error gives one chain entry per listed id, in
      layout order. */
  lemma {:induction false} LayoutChainIds(items: seq<Value>, byId: map<string, Dict>, keys: set<string>)
    ensures LayoutChain(items, byId, keys).1.None? ==> ChainIds(LayoutChain(items, byId, keys).0) == LayoutIds(items)
    decreases |items|
  {
    if |items| > 0 {
      var init := items[..|items| - 1];
      LayoutChainIds(init, byId, keys);
      var prev := LayoutChain(init, byId, keys);
      var t := items[|items| - 1];
      if prev.1.None? && LayoutEntry(t, byId, keys).Ok? {
        var e := LayoutEntry(t, byId, keys).value;
        if e.Some? {
          assert LayoutChain(items, byId, keys).0 == prev.0 + [e.value];
          EntryIdListed(t, byId, keys);
          assert ChainIds(prev.0 + [e.value]) == ChainIds(prev.0) + [e.value.id];
        } else {
          EntryIdListed(t, byId, keys);
          assert LayoutChain(items, byId, keys) == prev;
        }
      }
    }
  }

  /** An entry read without error is built exactly when the layout lists an
      id for it, and carries that id. */
  lemma EntryIdListed(t: Value, byId: map<string, Dict>, keys: set<string>)
    requires LayoutEntry(t, byId, keys).Ok?
    ensures var listed := t.Obj? && Get(t.fields, "task_id").Str? && Get(t.fields, "task_id").s != "";
      var e := LayoutEntry(t, byId, keys).value;
      (e.Some? <==> listed) && (e.Some? ==> e.value.id == Get(t.fields, "task_id").s)
  {
  }

  /** Every entry built, even before an error, has a truthy status and
      exactly the copied fields. */
  lemma {:induction false} LayoutChainEntries(items: seq<Value>, byId: map<string, Dict>, keys: set<string>)
    ensures forall k :: 0 <= k < |LayoutChain(items, byId, keys).0| ==>
      Truthy(LayoutChain(items, byId, keys).0[k].status) && LayoutChain(items, byId, keys).0[k].attrs.Keys == keys
    decreases |items|
  {
    if |items| > 0 {
      var init := items[..|items| - 1];
      LayoutChainEntries(init, byId, keys);
    }
  }

  /** Reading two lists one after the other is reading their
      concatenation: the second starts only when the first read cleanly. */
  lemma {:induction false} LayoutChainAppend(a: seq<Value>, b: seq<Value>, byId: map<string, Dict>, keys: set<string>)
    ensures var ra := LayoutChain(a, byId, keys);
      LayoutChain(a + b, byId, keys) ==
        (if ra.1.Some? then ra else (ra.0 + LayoutChain(b, byId, keys).0, LayoutChain(b, byId, keys).1))
    decreases |b|
  {
    if |b| == 0 {
      assert a + b == a;
      assert LayoutChain(a, byId, keys).0 + [] == LayoutChain(a, byId, keys).0;
    } else {
      var b0 := b[..|b| - 1];
      LayoutChainAppend(a, b0, byId, keys);
      assert (a + b)[..|a + b| - 1] == a + b0;
      assert (a + b)[|a + b| - 1] == b[|b| - 1];
      var ra := LayoutChain(a, byId, keys);
      var rb0 := LayoutChain(b0, byId, keys);
      if ra.1.None? && rb0.1.None? {
        match LayoutEntry(b[|b| - 1], byId, keys)
        case Err(e) =>
        case Ok(None) =>
        case Ok(Some(task)) =>
          assert ra.0 + (rb0.0 + [task]) == (ra.0 + rb0.0) + [task];
      }
    }
  }

  // ---------------------------------------------------------------------
  // The grid layout of the executor and workers runners

  /** What `for x in v` walks over for the containers a layout holds: a
      list's items, nothing for an empty text or dict. Any other value
      raises, either at once or at its first element, which is not a dict. */
  function Iterate(v: Value): (r: Result<seq<Value>, string>)
    ensures r.Ok? <==> v.Arr? || v == Str("") || v == Obj(map[])
    ensures r.Ok? ==> r.value == (if v.Arr? then v.items else [])
  {
    if v.Arr? then Ok(v.items)
    else if v == Str("") || v == Obj(map[]) then Ok([])
    else Err("layout entry list is not a list")
  }

  /** The cells of the grid rows (`row or []`) in row-major order, with the
      error of the first row that is not a list. */
  function GridCells(rows: seq<Value>): (r: (seq<Value>, Option<string>))
    decreases |rows|
  {
    if |rows| == 0 then ([], None)
    else
      var prev := GridCells(rows[..|rows| - 1]);
      if prev.1.Some? then prev
      else match Iterate(Or(rows[|rows| - 1], Arr([])))
        case Err(e) => (prev.0, Some(e))
        case Ok(cells) => (prev.0 + cells, None)
  }

  /** The rows' items laid end to end. */
  function Flatten(rows: seq<Value>): seq<Value>
    decreases |rows|
  {
    if |rows| == 0 then []
    else Flatten(rows[..|rows| - 1]) + (if rows[|rows| - 1].Arr? then rows[|rows| - 1].items else [])
  }

  /** When every row is a list (or falsy), the grid is read without error
      and its cells are the rows' items in row-major order. */
  lemma {:induction false} GridCellsRowMajor(rows: seq<Value>)
    requires forall i :: 0 <= i < |rows| ==> rows[i].Arr? || !Truthy(rows[i])
    ensures GridCells(rows) == (Flatten(rows), None)
    decreases |rows|
  {
    if |rows| > 0 {
      GridCellsRowMajor(rows[..|rows| - 1]);
    }
  }

  /** The grid's cells then the isolated tasks (`layout.get("grid", [])`,
      `isolatedTasks or []`), built into chain entries; an error stops the
      reading and keeps what was built. */
  function GridChain(layout: Dict, byId: map<string, Dict>, keys: set<string>): (r: (seq<RTask>, Option<string>))
  {
    var grid := if "grid" in layout then layout["grid"] else Arr([]);
    match Iterate(grid)
    case Err(e) => ([], Some(e))
    case Ok(rows) =>
      var g := GridCells(rows);
      var built := LayoutChain(g.0, byId, keys);
      if built.1.Some? then built
      else if g.1.Some? then (built.0, g.1)
      else match Iterate(Or(Get(layout, "isolatedTasks"), Arr([])))
        case Err(e) => (built.0, Some(e))
        case Ok(iso) =>
          var more := LayoutChain(iso, byId, keys);
          (built.0 + more.0, more.1)
  }

  /** A grid of list rows and a list of isolated tasks read without error
      give one entry per listed id: the grid's in row-major order, then the
      isolated ones. */
  lemma GridChainOrder(layout: Dict, rows: seq<Value>, iso: seq<Value>, byId: map<string, Dict>, keys: set<string>)
    requires "grid" in layout && layout["grid"] == Arr(rows)
    requires forall i :: 0 <= i < |rows| ==> rows[i].Arr? || !Truthy(rows[i])
    requires Or(Get(layout, "isolatedTasks"), Arr([])) == Arr(iso)
    ensures GridChain(layout, byId, keys) == LayoutChain(Flatten(rows) + iso, byId, keys)
    ensures GridChain(layout, byId, keys).1.None? ==>
      ChainIds(GridChain(layout, byId, keys).0) == LayoutIds(Flatten(rows) + iso)
  {
    GridCellsRowMajor(rows);
    LayoutChainAppend(Flatten(rows), iso, byId, keys);
    LayoutChainIds(Flatten(rows) + iso, byId, keys);
  }

  /** Grid entries carry the copied fields and a truthy status, whatever
      stopped the reading. */
  lemma GridChainEntries(layout: Dict, byId: map<string, Dict>, keys: set<string>)
    ensures forall k :: 0 <= k < |GridChain(layout, byId, keys).0| ==>
      Truthy(GridChain(layout, byId, keys).0[k].status) && GridChain(layout, byId, keys).0[k].attrs.Keys == keys
  {
    var grid := if "grid" in layout then layout["grid"] else Arr([]);
    if Iterate(grid).Ok? {
      var g := GridCells(Iterate(grid).value);
      LayoutChainEntries(g.0, byId, keys);
      var iso := Or(Get(layout, "isolatedTasks"), Arr([]));
      if Iterate(iso).Ok? {
        LayoutChainEntries(Iterate(iso).value, byId, keys);
      }
    }
  }
}
