/** The monitor's grid layout of staged tasks: tasks that neither depend on
    anything nor are depended on are set aside, the others are placed column
    by column as their dependencies become placed, and each column is ordered
    by the column of each task's rightmost dependency. */
module TaskLayout {
  import opened Wrappers
  import opened Seqs
  import opened Tasks
  import Sets
  import Timetable

  // ---------------------------------------------------------------------
  // The task table

  /** The tasks satisfying `p`, in order. */
  function Select(ts: seq<Task>, p: Task -> bool): (r: seq<Task>)
    ensures |r| <= |ts|
    ensures forall t :: t in r <==> t in ts && p(t)
    ensures DistinctIds(ts) ==> DistinctIds(r)
  {
    if |ts| == 0 then []
    else
      var rest := Select(ts[1..], p);
      if p(ts[0]) then
        assert DistinctIds(ts) ==> forall t :: t in ts[1..] ==> t.id != ts[0].id;
        [ts[0]] + rest
      else rest
  }

  /** Some task with an id lists `x` among its dependencies. */
  predicate HasDependents(flat: seq<Task>, x: string) {
    exists i :: 0 <= i < |flat| && flat[i].id != "" && x in flat[i].deps
  }

  /** A task with neither dependencies nor dependents. */
  predicate Isolated(flat: seq<Task>, t: Task) {
    |t.deps| == 0 && !HasDependents(flat, t.id)
  }

  // ---------------------------------------------------------------------
  // Columns

  /** Every dependency of `t` is already placed (vacuous without any). */
  predicate Ready(t: Task, placed: set<string>) {
    forall d :: d in t.deps ==> d in placed
  }

  /** The unplaced tasks whose dependencies are all placed; when there are
      none (a dependency that is never placed, or a cycle), every unplaced
      task. */
  function NextColumn(ts: seq<Task>, placed: set<string>): seq<Task> {
    var ready := ReadyTasks(ts, placed);
    if |ready| > 0 then ready else Unplaced(ts, placed)
  }

  /** The tasks not yet placed, in order. */
  function Unplaced(ts: seq<Task>, placed: set<string>): seq<Task> {
    Select(ts, (t: Task) => t.id !in placed)
  }

  /** The unplaced tasks whose dependencies are all placed, in order. */
  function ReadyTasks(ts: seq<Task>, placed: set<string>): seq<Task> {
    Select(ts, (t: Task) => t.id !in placed && Ready(t, placed))
  }

  /** The `while len(placed_tasks) < len(dependency_tasks)` loop from a given
      set of placed ids. */
  function ColumnsFrom(ts: seq<Task>, placed: set<string>): seq<seq<Task>>
    decreases |TaskIds(ts) - placed|
  {
    if |placed| >= |ts| then []
    else
      var col := NextColumn(ts, placed);
      if |col| == 0 then []
      else
        NextColumnUnplaced(ts, placed);
        ColumnShrinks(ts, placed, col);
        [col] + ColumnsFrom(ts, placed + TaskIds(col))
  }

  lemma NextColumnUnplaced(ts: seq<Task>, placed: set<string>)
    ensures forall t :: t in NextColumn(ts, placed) ==> t in ts && t.id !in placed
  {
  }

  lemma ColumnShrinks(ts: seq<Task>, placed: set<string>, col: seq<Task>)
    requires |col| > 0 && forall t :: t in col ==> t in ts && t.id !in placed
    ensures |TaskIds(ts) - (placed + TaskIds(col))| < |TaskIds(ts) - placed|
  {
    var x := col[0].id;
    assert col[0] in ts;
    Sets.MissingMemberCard(TaskIds(ts) - (placed + TaskIds(col)), TaskIds(ts) - placed, x);
  }

  /** Ids placed in the first `c` columns. */
  function PlacedBefore(cols: seq<seq<Task>>, c: nat): set<string>
    requires c <= |cols|
  {
    if c == 0 then {} else PlacedBefore(cols, c - 1) + TaskIds(cols[c - 1])
  }

  /** A column is either made of ready tasks only, or it is the fallback: all
      unplaced tasks, taken because none of them was ready. */
  ghost predicate ColumnOk(ts: seq<Task>, placed: set<string>, col: seq<Task>) {
    (forall t :: t in col ==> t.id !in placed && Ready(t, placed)) ||
    (col == Unplaced(ts, placed) &&
     forall t :: t in ts && t.id !in placed ==> !Ready(t, placed))
  }

  /** Fewer placed ids than tasks leaves a task unplaced. */
  lemma SomeUnplaced(ts: seq<Task>, placed: set<string>)
    requires DistinctIds(ts) && placed <= TaskIds(ts) && |placed| < |ts|
    ensures exists t :: t in ts && t.id !in placed
  {
    TaskIdsCard(ts);
    if TaskIds(ts) <= placed {
      Sets.SubsetCard(TaskIds(ts), placed);
    }
  }

  /** As many placed ids as tasks leaves nothing unplaced. */
  lemma NoneUnplaced(ts: seq<Task>, placed: set<string>)
    requires DistinctIds(ts) && placed <= TaskIds(ts) && |placed| >= |ts|
    ensures forall t :: t in ts ==> t.id in placed
  {
    TaskIdsCard(ts);
    forall t | t in ts ensures t.id in placed {
      if t.id !in placed {
        Sets.MissingMemberCard(placed, TaskIds(ts), t.id);
      }
    }
  }

  lemma {:induction false} PlacedBeforeCons(col: seq<Task>, rest: seq<seq<Task>>, c: nat)
    requires c <= |rest|
    ensures PlacedBefore([col] + rest, c + 1) == TaskIds(col) + PlacedBefore(rest, c)
  {
    if c > 0 {
      PlacedBeforeCons(col, rest, c - 1);
      assert ([col] + rest)[c] == rest[c - 1];
    }
  }

  /** Every column is non-empty, free of repeated ids, and either ready or
      the fallback. */
  ghost predicate ColumnsOk(ts: seq<Task>, placed: set<string>, cols: seq<seq<Task>>) {
    forall c :: 0 <= c < |cols| ==> ColumnAtOk(ts, placed, cols, c)
  }

  /** Column `c` is non-empty, free of repeated ids, and ready or the
      fallback given what the columns before it placed. */
  ghost predicate ColumnAtOk(ts: seq<Task>, placed: set<string>, cols: seq<seq<Task>>, c: nat)
    requires c < |cols|
  {
    |cols[c]| > 0 && DistinctIds(cols[c]) && ColumnOk(ts, placed + PlacedBefore(cols, c), cols[c])
  }

  ghost predicate InSomeColumn(cols: seq<seq<Task>>, t: Task) {
    exists c :: 0 <= c < |cols| && t in cols[c]
  }

  /** No id is placed in two columns. */
  ghost predicate PlacedOnce(cols: seq<seq<Task>>) {
    forall c1: int, c2: int, t1: Task, t2: Task :: 0 <= c1 < c2 < |cols| && t1 in cols[c1] && t2 in cols[c2] ==> t1.id != t2.id
  }

  /** The placement loop: started from placed ids of the task list, it lays
      every unplaced task in exactly one column, and every column holds tasks
      whose dependencies all lie in earlier columns, unless it is the
      fallback column of all remaining tasks, taken when none was ready. */
  lemma {:induction false} ColumnsCharacterised(ts: seq<Task>, placed: set<string>)
    requires DistinctIds(ts) && placed <= TaskIds(ts)
    ensures ColumnsOk(ts, placed, ColumnsFrom(ts, placed))
    ensures forall t :: t in ts && t.id !in placed <==> InSomeColumn(ColumnsFrom(ts, placed), t)
    ensures PlacedOnce(ColumnsFrom(ts, placed))
    decreases |TaskIds(ts) - placed|
  {
    var cols := ColumnsFrom(ts, placed);
    if |placed| >= |ts| {
      NoneUnplaced(ts, placed);
    } else {
      var col := NextColumn(ts, placed);
      SomeUnplaced(ts, placed);
      NextColumnUnplaced(ts, placed);
      assert |col| > 0;
      var next := placed + TaskIds(col);
      ColumnShrinks(ts, placed, col);
      ColumnsCharacterised(ts, next);
      var rest := ColumnsFrom(ts, next);
      assert cols == [col] + rest;
      ColumnsStep(ts, placed, col, rest);
    }
  }

  lemma ColumnsStep(ts: seq<Task>, placed: set<string>, col: seq<Task>, rest: seq<seq<Task>>)
    requires DistinctIds(ts) && placed <= TaskIds(ts)
    requires col == NextColumn(ts, placed) && |col| > 0
    requires forall t :: t in col ==> t in ts && t.id !in placed
    requires var next := placed + TaskIds(col);
      ColumnsOk(ts, next, rest) && PlacedOnce(rest) &&
      forall t :: t in ts && t.id !in next <==> InSomeColumn(rest, t)
    ensures ColumnsOk(ts, placed, [col] + rest)
    ensures forall t :: t in ts && t.id !in placed <==> InSomeColumn([col] + rest, t)
    ensures PlacedOnce([col] + rest)
  {
    ColumnsStepOk(ts, placed, col, rest);
    ColumnsStepCover(ts, placed, col, rest);
    ColumnsStepOnce(ts, placed, col, rest);
  }

  lemma ColumnsStepOk(ts: seq<Task>, placed: set<string>, col: seq<Task>, rest: seq<seq<Task>>)
    requires DistinctIds(ts)
    requires col == NextColumn(ts, placed) && |col| > 0
    requires ColumnsOk(ts, placed + TaskIds(col), rest)
    ensures ColumnsOk(ts, placed, [col] + rest)
  {
    var cols := [col] + rest;
    var next := placed + TaskIds(col);
    forall c | 1 <= c < |cols| ensures ColumnAtOk(ts, placed, cols, c) {
      ColumnsOkShift(ts, placed, col, rest, c);
    }
    assert ColumnAtOk(ts, placed, cols, 0) by {
      NextColumnOk(ts, placed);
      assert placed + PlacedBefore(cols, 0) == placed;
      assert cols[0] == col;
    }
  }

  /** A later column keeps what the placement loop from the next placed
      set proved of it. */
  lemma ColumnsOkShift(ts: seq<Task>, placed: set<string>, col: seq<Task>, rest: seq<seq<Task>>, c: nat)
    requires 1 <= c <= |rest|
    requires ColumnsOk(ts, placed + TaskIds(col), rest)
    ensures ColumnAtOk(ts, placed, [col] + rest, c)
  {
    var cols := [col] + rest;
    assert ColumnAtOk(ts, placed + TaskIds(col), rest, c - 1);
    assert cols[c] == rest[c - 1];
    assert placed + PlacedBefore(cols, c) == placed + TaskIds(col) + PlacedBefore(rest, c - 1) by {
      PlacedBeforeCons(col, rest, c - 1);
    }
  }

  /** The next column has no repeated id and is ready or the fallback. */
  lemma NextColumnOk(ts: seq<Task>, placed: set<string>)
    requires DistinctIds(ts)
    ensures DistinctIds(NextColumn(ts, placed)) && ColumnOk(ts, placed, NextColumn(ts, placed))
  {
    assert DistinctIds(ReadyTasks(ts, placed)) && DistinctIds(Unplaced(ts, placed));
  }

  lemma ColumnsStepCover(ts: seq<Task>, placed: set<string>, col: seq<Task>, rest: seq<seq<Task>>)
    requires DistinctIds(ts)
    requires forall t :: t in col ==> t in ts && t.id !in placed
    requires forall t :: t in ts && t.id !in placed + TaskIds(col) <==> InSomeColumn(rest, t)
    ensures forall t :: t in ts && t.id !in placed <==> InSomeColumn([col] + rest, t)
  {
    var cols := [col] + rest;
    forall t | t in ts && t.id !in placed ensures InSomeColumn(cols, t) {
      if t.id in TaskIds(col) {
        var u :| u in col && u.id == t.id;
        SameIdSameTask(ts, t, u);
        assert cols[0] == col;
      } else {
        var c :| 0 <= c < |rest| && t in rest[c];
        assert cols[c + 1] == rest[c];
      }
    }
    forall t | InSomeColumn(cols, t) ensures t in ts && t.id !in placed {
      var c :| 0 <= c < |cols| && t in cols[c];
      if c > 0 { assert InSomeColumn(rest, t); }
    }
  }

  lemma ColumnsStepOnce(ts: seq<Task>, placed: set<string>, col: seq<Task>, rest: seq<seq<Task>>)
    requires PlacedOnce(rest)
    requires forall t :: InSomeColumn(rest, t) ==> t.id !in placed + TaskIds(col)
    ensures PlacedOnce([col] + rest)
  {
    var cols := [col] + rest;
    forall c1: int, c2: int, t1: Task, t2: Task | 0 <= c1 < c2 < |cols| && t1 in cols[c1] && t2 in cols[c2]
      ensures t1.id != t2.id
    {
      if c1 > 0 {
        assert rest[c1 - 1] == cols[c1] && rest[c2 - 1] == cols[c2];
      } else {
        assert InSomeColumn(rest, t2);
      }
    }
  }

  // ---------------------------------------------------------------------
  // Rows

  /** The positions recorded for the ids of one column. */
  function AtColumn(ids: set<string>, c: nat): (m: map<string, nat>)
    ensures m.Keys == ids && forall x :: x in m ==> m[x] == c
  {
    map x | x in ids :: c
  }

  /** `task_positions` once the first `c` columns are laid out, reduced to
      what the ordering reads: the column of each placed id. */
  function Positions(cols: seq<seq<Task>>, c: nat): (r: map<string, nat>)
    requires c <= |cols|
    ensures PositionsOk(cols, c, r)
  {
    if c == 0 then map[]
    else
      var m := Positions(cols, c - 1) + AtColumn(TaskIds(cols[c - 1]), c - 1);
      PositionsStep(cols, c, Positions(cols, c - 1));
      m
  }

  /** `r` maps exactly the ids of the first `c` columns, each to a column
      among them that holds it. */
  ghost predicate PositionsOk(cols: seq<seq<Task>>, c: nat, r: map<string, nat>)
    requires c <= |cols|
  {
    (forall x :: x in r <==> x in PlacedBefore(cols, c)) &&
    forall x :: x in r ==> r[x] < c && x in TaskIds(cols[r[x]])
  }

  /** Adding column `k` to the positions of the columns before it. */
  lemma PositionsStep(cols: seq<seq<Task>>, c: nat, p: map<string, nat>)
    requires 1 <= c <= |cols| && PositionsOk(cols, c - 1, p)
    ensures PositionsOk(cols, c, p + AtColumn(TaskIds(cols[c - 1]), c - 1))
  {
    assert PlacedBefore(cols, c) == PlacedBefore(cols, c - 1) + TaskIds(cols[c - 1]);
  }

  /** With no id in two columns, an id's position is the column holding it. */
  lemma PositionsAreColumns(cols: seq<seq<Task>>, c: nat, k: nat, t: Task)
    requires c <= |cols| && PlacedOnce(cols)
    requires k < c && t in cols[k]
    ensures t.id in Positions(cols, c) && Positions(cols, c)[t.id] == k
  {
    PlacedBeforeHas(cols, c, k, t);
  }

  lemma {:induction false} PlacedBeforeHas(cols: seq<seq<Task>>, c: nat, k: nat, t: Task)
    requires c <= |cols| && k < c && t in cols[k]
    ensures t.id in PlacedBefore(cols, c)
  {
    if k < c - 1 {
      PlacedBeforeHas(cols, c - 1, k, t);
    }
  }

  /** No dependency listed before position `j` is placed in the column of
      `deps[j]` or further right. */
  predicate FirstInColumn(deps: seq<string>, pos: map<string, nat>, j: nat)
    requires j < |deps| && deps[j] in pos
  {
    forall k :: 0 <= k < j && deps[k] in pos ==> pos[deps[k]] < pos[deps[j]]
  }

  /** The dependency in the rightmost column among those already placed; of
      several in that column, the first listed (the scan only moves on a
      strictly greater column). */
  function Rightmost(deps: seq<string>, pos: map<string, nat>): (r: Option<string>)
    ensures r.None? <==> forall d :: d in deps ==> d !in pos
    ensures r.Some? ==> r.value in deps && r.value in pos
    ensures r.Some? ==> forall d :: d in deps && d in pos ==> pos[d] <= pos[r.value]
    ensures r.Some? ==> exists j :: 0 <= j < |deps| && deps[j] == r.value && FirstInColumn(deps, pos, j)
  {
    if |deps| == 0 then None
    else
      var front := deps[..|deps| - 1];
      var d := deps[|deps| - 1];
      var r := Rightmost(front, pos);
      assert deps == front + [d];
      if d in pos && (r.None? || pos[d] > pos[r.value]) then
        assert FirstInColumn(deps, pos, |deps| - 1);
        Some(d)
      else
        if r.Some? then
          var j :| 0 <= j < |front| && front[j] == r.value && FirstInColumn(front, pos, j);
          assert deps[j] == r.value && FirstInColumn(deps, pos, j);
          r
        else r
  }

  /** The group a task joins: its rightmost placed dependency, or none (the
      task then goes with those without dependencies). */
  function GroupKey(t: Task, pos: map<string, nat>): Option<string> {
    if |t.deps| == 0 then None
    else
      var r := Rightmost(t.deps, pos);
      if r.Some? && r.value != "" then r else None
  }

  /** `tasks_with_no_deps` and `tasks_by_rightmost_dep`: keys in order of
      first appearance, with one list per key. */
  datatype Rows = Rows(free: seq<Task>, keys: seq<string>, groups: seq<seq<Task>>)

  /** Row order: the tasks without a placed dependency, then each group. */
  function RowOrder(g: Rows): seq<Task> {
    g.free + Flatten(g.groups)
  }

  function IndexOf(s: seq<string>, x: string): (i: nat)
    requires x in s
    ensures i < |s| && s[i] == x
  {
    if s[0] == x then 0 else 1 + IndexOf(s[1..], x)
  }

  /** What the grouping keeps true: keys distinct, one non-empty group per
      key, every task in the list its key sends it to. */
  ghost predicate RowsOk(g: Rows, pos: map<string, nat>) {
    |g.keys| == |g.groups| && Distinct(g.keys) &&
    (forall t :: t in g.free ==> GroupKey(t, pos).None?) &&
    forall i :: 0 <= i < |g.keys| ==>
      |g.groups[i]| > 0 && forall t :: t in g.groups[i] ==> GroupKey(t, pos) == Some(g.keys[i])
  }

  /** One task of the grouping pass. */
  function AddRow(g: Rows, t: Task, pos: map<string, nat>): Rows
    requires |g.keys| == |g.groups|
  {
    match GroupKey(t, pos)
    case None => Rows(g.free + [t], g.keys, g.groups)
    case Some(k) =>
      if k in g.keys then
        var i := IndexOf(g.keys, k);
        Rows(g.free, g.keys, g.groups[i := g.groups[i] + [t]])
      else Rows(g.free, g.keys + [k], g.groups + [[t]])
  }

  lemma AddRowKeeps(g: Rows, t: Task, pos: map<string, nat>)
    requires RowsOk(g, pos)
    ensures RowsOk(AddRow(g, t, pos), pos)
    ensures multiset(RowOrder(AddRow(g, t, pos))) == multiset(RowOrder(g)) + multiset{t}
  {
    match GroupKey(t, pos)
    case None =>
      assert RowOrder(AddRow(g, t, pos)) == g.free + [t] + Flatten(g.groups);
    case Some(k) =>
      if k in g.keys {
        AddToGroup(g, t, pos, k);
      } else {
        AddNewGroup(g, t, pos, k);
      }
  }

  lemma AddToGroup(g: Rows, t: Task, pos: map<string, nat>, k: string)
    requires RowsOk(g, pos) && GroupKey(t, pos) == Some(k) && k in g.keys
    ensures RowsOk(AddRow(g, t, pos), pos)
    ensures multiset(RowOrder(AddRow(g, t, pos))) == multiset(RowOrder(g)) + multiset{t}
  {
    var i := IndexOf(g.keys, k);
    var groups := g.groups[i := g.groups[i] + [t]];
    assert AddRow(g, t, pos) == Rows(g.free, g.keys, groups);
    FlattenAppendAt(g.groups, i, t);
    forall j | 0 <= j < |g.keys|
      ensures |groups[j]| > 0 && forall u :: u in groups[j] ==> GroupKey(u, pos) == Some(g.keys[j])
    {
      if j == i {
        assert groups[j] == g.groups[i] + [t];
      } else {
        assert groups[j] == g.groups[j];
      }
    }
  }

  lemma AddNewGroup(g: Rows, t: Task, pos: map<string, nat>, k: string)
    requires RowsOk(g, pos) && GroupKey(t, pos) == Some(k) && k !in g.keys
    ensures RowsOk(AddRow(g, t, pos), pos)
    ensures multiset(RowOrder(AddRow(g, t, pos))) == multiset(RowOrder(g)) + multiset{t}
  {
    var keys := g.keys + [k];
    var groups := g.groups + [[t]];
    assert AddRow(g, t, pos) == Rows(g.free, keys, groups);
    FlattenSnoc(g.groups, [t]);
    forall j | 0 <= j < |keys|
      ensures |groups[j]| > 0 && forall u :: u in groups[j] ==> GroupKey(u, pos) == Some(keys[j])
    {
      if j < |g.keys| {
        assert groups[j] == g.groups[j] && keys[j] == g.keys[j];
      }
    }
  }

  /** The grouping pass over one column. */
  function GroupRows(col: seq<Task>, pos: map<string, nat>): (g: Rows)
    ensures RowsOk(g, pos)
    ensures multiset(RowOrder(g)) == multiset(col)
  {
    if |col| == 0 then Rows([], [], [])
    else
      var front := col[..|col| - 1];
      var t := col[|col| - 1];
      var g := GroupRows(front, pos);
      assert col == front + [t];
      AddRowKeeps(g, t, pos);
      AddRow(g, t, pos)
  }

  /** Column `c` in row order. */
  function OrderedColumn(cols: seq<seq<Task>>, c: nat): seq<Task>
    requires c < |cols|
  {
    RowOrder(GroupRows(cols[c], Positions(cols, c)))
  }

  // ---------------------------------------------------------------------
  // The layout

  datatype Layout = Layout(
    grid: seq<seq<Option<Task>>>,
    maxRows: nat,
    maxCols: nat,
    isolated: seq<Task>,
    treeData: seq<Task>)

  /** The longest of a list of columns. */
  function MaxLen(ss: seq<seq<Task>>): (m: nat)
    ensures forall i :: 0 <= i < |ss| ==> |ss[i]| <= m
    ensures |ss| == 0 ==> m == 0
    ensures |ss| > 0 ==> exists i :: 0 <= i < |ss| && |ss[i]| == m
  {
    if |ss| == 0 then 0
    else
      var m := MaxLen(ss[1..]);
      assert forall i :: 1 <= i < |ss| ==> ss[i] == ss[1..][i - 1];
      if |ss[0]| >= m then |ss[0]| else m
  }

  /** `max_rows`: the longest column, or 1 when there is none. */
  function GridRows(ordered: seq<seq<Task>>): nat {
    if MaxLen(ordered) == 0 then 1 else MaxLen(ordered)
  }

  /** `grid[row][col]`: the task at that row of that column, if any. */
  function Grid(ordered: seq<seq<Task>>, rows: nat): seq<seq<Option<Task>>> {
    seq(rows, r requires 0 <= r < rows =>
      seq(|ordered|, c requires 0 <= c < |ordered| =>
        if r < |ordered[c]| then Some(ordered[c][r]) else None))
  }

  /** The tasks with an id, one per id, split by `Isolated`. */
  function IsolatedTasks(stages: seq<seq<Task>>): seq<Task> {
    var flat := Flatten(stages);
    Select(UniqueById(flat), (t: Task) => Isolated(flat, t))
  }

  function DependencyTasks(stages: seq<seq<Task>>): seq<Task> {
    var flat := Flatten(stages);
    Select(UniqueById(flat), (t: Task) => !Isolated(flat, t))
  }

  function Columns(stages: seq<seq<Task>>): seq<seq<Task>> {
    ColumnsFrom(DependencyTasks(stages), {})
  }

  function OrderedColumns(cols: seq<seq<Task>>): (r: seq<seq<Task>>)
    ensures |r| == |cols|
    ensures forall c :: 0 <= c < |cols| ==> r[c] == OrderedColumn(cols, c)
  {
    seq(|cols|, c requires 0 <= c < |cols| => OrderedColumn(cols, c))
  }

  /** The monitor's `build_task_layout`. */
  function BuildTaskLayout(stages: seq<seq<Task>>): (r: Layout)
    ensures |stages| == 0 <==> r.maxRows == 0
    ensures |stages| == 0 ==> r.grid == [] && r.maxCols == 0 && r.isolated == [] && r.treeData == []
  {
    if |stages| == 0 then Layout([], 0, 0, [], [])
    else
      var cols := Columns(stages);
      var ordered := OrderedColumns(cols);
      var rows := GridRows(ordered);
      Layout(Grid(ordered, rows), rows, |cols|, IsolatedTasks(stages), Timetable.TreeData(stages))
  }

  // ---------------------------------------------------------------------
  // Properties of the layout

  /** Row order within a column: a permutation of the column, the tasks
      without a placed dependency first, and every later task filed under
      its rightmost placed dependency. */
  lemma OrderedColumnCharacterised(cols: seq<seq<Task>>, c: nat)
    requires c < |cols|
    ensures var o := OrderedColumn(cols, c);
      multiset(o) == multiset(cols[c]) &&
      forall i, j :: 0 <= i < j < |o| && GroupKey(o[j], Positions(cols, c)).None? ==>
        GroupKey(o[i], Positions(cols, c)).None?
  {
    var pos := Positions(cols, c);
    var g := GroupRows(cols[c], pos);
    var o := RowOrder(g);
    forall j | |g.free| <= j < |o| ensures GroupKey(o[j], pos).Some? {
      var t := o[j];
      assert t == Flatten(g.groups)[j - |g.free|];
      FlattenMember(g.groups, t);
    }
  }

  lemma DependencyTasksFacts(stages: seq<seq<Task>>)
    ensures DistinctIds(DependencyTasks(stages))
    ensures forall t :: t in DependencyTasks(stages) <==>
      t in UniqueById(Flatten(stages)) && !Isolated(Flatten(stages), t)
  {
  }

  /** Columns and ordered columns of the layout hold the same tasks. */
  lemma OrderedColumnsFacts(stages: seq<seq<Task>>, c: nat)
    requires c < |Columns(stages)|
    ensures var cols := Columns(stages);
      var o := OrderedColumns(cols)[c];
      |o| == |cols[c]| && DistinctIds(o) && (forall t :: t in o <==> t in cols[c])
  {
    var cols := Columns(stages);
    assert DistinctIds(cols[c]) by {
      DependencyTasksFacts(stages);
      ColumnsCharacterised(DependencyTasks(stages), {});
      assert ColumnAtOk(DependencyTasks(stages), {}, cols, c);
    }
    OrderedColumnSame(cols, c);
  }

  /** Ordering a column keeps its tasks and its distinct ids. */
  lemma OrderedColumnSame(cols: seq<seq<Task>>, c: nat)
    requires c < |cols| && DistinctIds(cols[c])
    ensures var o := OrderedColumn(cols, c);
      |o| == |cols[c]| && DistinctIds(o) && (forall t :: t in o <==> t in cols[c])
  {
    var o := OrderedColumn(cols, c);
    OrderedColumnCharacterised(cols, c);
    assert |o| == |multiset(o)| == |multiset(cols[c])| == |cols[c]|;
    PermutationKeepsDistinctIds(cols[c], o);
    forall t ensures t in o <==> t in cols[c] {
      assert t in o <==> t in multiset(o);
    }
  }

  /** The layout unfolded into its parts. */
  lemma LayoutParts(stages: seq<seq<Task>>)
    requires |stages| > 0
    ensures var cols := Columns(stages);
      var o := OrderedColumns(cols);
      BuildTaskLayout(stages) ==
        Layout(Grid(o, GridRows(o)), GridRows(o), |cols|, IsolatedTasks(stages), Timetable.TreeData(stages))
  {
  }

  /** Cell `(i, c)` of a grid holds row `i` of column `c`, if the column is
      that long. */
  lemma GridCells(o: seq<seq<Task>>, rows: nat)
    ensures |Grid(o, rows)| == rows
    ensures forall i :: 0 <= i < rows ==> |Grid(o, rows)[i]| == |o|
    ensures forall i, c :: 0 <= i < rows && 0 <= c < |o| ==>
      (Grid(o, rows)[i][c].Some? <==> i < |o[c]|) &&
      (i < |o[c]| ==> Grid(o, rows)[i][c] == Some(o[c][i]))
  {
  }

  /** The grid's shape: `maxRows` rows of `maxCols` cells, `maxCols` the
      number of placement columns, `maxRows` the length of the longest one
      but at least 1, and column `c` filled from the top with as many cells
      as the placement column has tasks. */
  lemma LayoutShape(stages: seq<seq<Task>>)
    requires |stages| > 0
    ensures var r := BuildTaskLayout(stages);
      var cols := Columns(stages);
      r.maxCols == |cols| && r.maxRows >= 1 && |r.grid| == r.maxRows &&
      (forall i :: 0 <= i < |r.grid| ==> |r.grid[i]| == r.maxCols) &&
      (forall c :: 0 <= c < |cols| ==> |cols[c]| <= r.maxRows) &&
      (r.maxRows == 1 || exists c :: 0 <= c < |cols| && |cols[c]| == r.maxRows) &&
      (forall i, c :: 0 <= i < r.maxRows && 0 <= c < |cols| ==> (r.grid[i][c].Some? <==> i < |cols[c]|))
  {
    var cols := Columns(stages);
    var o := OrderedColumns(cols);
    LayoutParts(stages);
    forall c | 0 <= c < |cols| ensures |o[c]| == |cols[c]| {
      OrderedColumnsFacts(stages, c);
    }
    GridShape(o, cols);
  }

  /** The shape of the grid built from columns as long as those of `cols`. */
  lemma GridShape(o: seq<seq<Task>>, cols: seq<seq<Task>>)
    requires |o| == |cols|
    requires forall c :: 0 <= c < |cols| ==> |o[c]| == |cols[c]|
    ensures var rows := GridRows(o);
      var g := Grid(o, rows);
      rows >= 1 && |g| == rows &&
      (forall i :: 0 <= i < |g| ==> |g[i]| == |cols|) &&
      (forall c :: 0 <= c < |cols| ==> |cols[c]| <= rows) &&
      (rows == 1 || exists c :: 0 <= c < |cols| && |cols[c]| == rows) &&
      (forall i, c :: 0 <= i < rows && 0 <= c < |cols| ==> (g[i][c].Some? <==> i < |cols[c]|))
  {
    GridCells(o, GridRows(o));
  }

  /** A grid tall enough for its columns shows exactly their tasks, column
      by column. */
  lemma GridColumns(o: seq<seq<Task>>, rows: nat)
    requires rows >= MaxLen(o)
    ensures forall c, t :: 0 <= c < |o| ==>
      ((exists i :: 0 <= i < rows && Grid(o, rows)[i][c] == Some(t)) <==> t in o[c])
  {
    var g := Grid(o, rows);
    GridCells(o, rows);
    forall c, t | 0 <= c < |o| && t in o[c] ensures exists i :: 0 <= i < rows && g[i][c] == Some(t) {
      var i :| 0 <= i < |o[c]| && o[c][i] == t;
      assert g[i][c] == Some(t);
    }
  }

  /** The isolated list holds exactly the tasks with neither dependencies
      nor dependents, and the placement columns exactly the others. */
  lemma LayoutIsolated(stages: seq<seq<Task>>)
    requires |stages| > 0
    ensures var r := BuildTaskLayout(stages);
      var flat := Flatten(stages);
      (forall t :: t in r.isolated <==> t in UniqueById(flat) && Isolated(flat, t)) &&
      (forall t :: InSomeColumn(Columns(stages), t) <==> t in UniqueById(flat) && !Isolated(flat, t))
  {
    LayoutParts(stages);
    DependencyTasksFacts(stages);
    ColumnsCharacterised(DependencyTasks(stages), {});
  }

  /** Grid column `c` holds exactly the tasks of the `c`-th placement column. */
  lemma {:induction false} LayoutPlacement(stages: seq<seq<Task>>)
    requires |stages| > 0
    ensures forall c, t :: 0 <= c < |Columns(stages)| ==>
      (InGridColumn(BuildTaskLayout(stages).grid, c, t) <==> t in Columns(stages)[c])
  {
    var cols := Columns(stages);
    var o := OrderedColumns(cols);
    OrderedColumnsSame(stages);
    LayoutGrid(stages);
    GridShowsColumns(BuildTaskLayout(stages).grid, o, cols, GridRows(o));
  }

  lemma OrderedColumnsSame(stages: seq<seq<Task>>)
    ensures var cols := Columns(stages);
      var o := OrderedColumns(cols);
      |o| == |cols| && forall c :: 0 <= c < |o| ==> forall t :: t in o[c] <==> t in cols[c]
  {
    var cols := Columns(stages);
    var o := OrderedColumns(cols);
    forall c | 0 <= c < |cols| ensures forall t :: t in o[c] <==> t in cols[c] {
      OrderedColumnsFacts(stages, c);
    }
  }

  lemma LayoutGrid(stages: seq<seq<Task>>)
    requires |stages| > 0
    ensures var o := OrderedColumns(Columns(stages));
      BuildTaskLayout(stages).grid == Grid(o, GridRows(o))
  {
  }

  /** Some cell of column `c` holds `t`. */
  predicate InGridColumn(g: seq<seq<Option<Task>>>, c: nat, t: Task) {
    exists i :: 0 <= i < |g| && c < |g[i]| && g[i][c] == Some(t)
  }

  lemma GridShowsColumns(g: seq<seq<Option<Task>>>, o: seq<seq<Task>>, cols: seq<seq<Task>>, rows: nat)
    requires g == Grid(o, rows)
    requires |o| == |cols| && rows >= MaxLen(o)
    requires forall c :: 0 <= c < |o| ==> forall t :: t in o[c] <==> t in cols[c]
    ensures forall c, t :: 0 <= c < |cols| ==> (InGridColumn(g, c, t) <==> t in cols[c])
  {
    GridCells(o, rows);
    GridColumns(o, rows);
  }

  /** No id occupies two cells of a grid whose columns repeat no id, within
      or across columns. */
  lemma GridPlacesOnce(o: seq<seq<Task>>, rows: nat)
    requires forall c :: 0 <= c < |o| ==> DistinctIds(o[c])
    requires PlacedOnce(o)
    ensures var g := Grid(o, rows);
      forall i1, c1, i2, c2 ::
        0 <= i1 < rows && 0 <= c1 < |o| && 0 <= i2 < rows && 0 <= c2 < |o| &&
        g[i1][c1].Some? && g[i2][c2].Some? && g[i1][c1].value.id == g[i2][c2].value.id ==>
        i1 == i2 && c1 == c2
  {
    GridCells(o, rows);
  }

  /** The ordered columns, like the placement columns, place no id twice. */
  lemma OrderedPlacedOnce(stages: seq<seq<Task>>)
    ensures var o := OrderedColumns(Columns(stages));
      PlacedOnce(o) && forall c :: 0 <= c < |o| ==> DistinctIds(o[c])
  {
    var cols := Columns(stages);
    var o := OrderedColumns(cols);
    DependencyTasksFacts(stages);
    ColumnsCharacterised(DependencyTasks(stages), {});
    forall c | 0 <= c < |o| ensures DistinctIds(o[c]) && forall t :: t in o[c] <==> t in cols[c] {
      OrderedColumnsFacts(stages, c);
    }
    forall c1: int, c2: int, t1: Task, t2: Task | 0 <= c1 < c2 < |o| && t1 in o[c1] && t2 in o[c2]
      ensures t1.id != t2.id
    {
      assert t1 in cols[c1] && t2 in cols[c2];
    }
  }

  /** No id occupies two cells of the layout's grid. */
  lemma LayoutPlacesOnce(stages: seq<seq<Task>>)
    requires |stages| > 0
    ensures var r := BuildTaskLayout(stages);
      forall i1, c1, i2, c2 ::
        0 <= i1 < r.maxRows && 0 <= c1 < r.maxCols && 0 <= i2 < r.maxRows && 0 <= c2 < r.maxCols &&
        r.grid[i1][c1].Some? && r.grid[i2][c2].Some? && r.grid[i1][c1].value.id == r.grid[i2][c2].value.id ==>
        i1 == i2 && c1 == c2
  {
    var o := OrderedColumns(Columns(stages));
    LayoutParts(stages);
    OrderedPlacedOnce(stages);
    GridPlacesOnce(o, GridRows(o));
  }
}
