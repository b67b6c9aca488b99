/** The slot-based worker pools: a fixed list of numbered slots, each idle or
    bound to one task. Two variants exist: the four-state pools (idle, busy,
    validating, failed) of the execution and executor packages, and the
    three-state pools (idle, busy, failed) of the workers and validator
    packages, which neither know `validating` nor offer `set_status`. */
module SlotPool {
  import opened Wrappers
  import opened SlotStatuses

  datatype Kind = FourState | ThreeState

  datatype Slot = Slot(id: int, status: SlotStatus, task: Option<string>)

  datatype Pool = Pool(kind: Kind, capacity: nat, slots: seq<Slot>)

  /** Capacities the packages create their pools with. */
  const ExecutionPoolCapacity: nat := 7
  const ExecutorPoolCapacity: nat := 7
  const WorkersExecutorCapacity: nat := 7
  const WorkersVerifierCapacity: nat := 5
  const ValidatorPoolCapacity: nat := 5

  /** Statuses a pool of this kind counts; any other is reset by `GetStats`. */
  predicate Recognised(kind: Kind, s: SlotStatus) {
    s == Idle || s == Busy || s == Failed || (kind == FourState && s == Validating)
  }

  /** Statuses from which a release frees the slot. */
  predicate Releasable(kind: Kind, s: SlotStatus) {
    s == Busy || s == Failed || (kind == FourState && s == Validating)
  }

  /** Shape every pool keeps: one slot per unit of capacity, numbered from 1. */
  ghost predicate WellFormed(p: Pool) {
    |p.slots| == p.capacity && forall i :: 0 <= i < |p.slots| ==> p.slots[i].id == i + 1
  }

  /** No task is bound to two slots. */
  ghost predicate UniqueBindings(p: Pool) {
    forall i, j :: 0 <= i < j < |p.slots| && p.slots[i].task.Some? ==> p.slots[i].task != p.slots[j].task
  }

  /** Slots bound to task `t`. */
  function BoundTo(p: Pool, t: string): set<int> {
    set i | 0 <= i < |p.slots| && p.slots[i].task == Some(t)
  }

  function IdleSlots(n: nat): (s: seq<Slot>)
    ensures |s| == n
    ensures forall i :: 0 <= i < n ==> s[i] == Slot(i + 1, Idle, None)
  {
    if n == 0 then [] else IdleSlots(n - 1) + [Slot(n, Idle, None)]
  }

  /** `initialize`: every slot idle and unbound, numbered 1 to capacity. */
  function Init(kind: Kind, capacity: nat): (p: Pool)
    ensures WellFormed(p) && UniqueBindings(p)
    ensures p.kind == kind && p.capacity == capacity
    ensures forall i :: 0 <= i < |p.slots| ==> p.slots[i].status == Idle && p.slots[i].task.None?
  {
    Pool(kind, capacity, IdleSlots(capacity))
  }

  /** Index of the first idle slot (`get_idle`). */
  function FirstIdle(slots: seq<Slot>): (r: Option<nat>)
    ensures r.None? <==> forall i :: 0 <= i < |slots| ==> slots[i].status != Idle
    ensures r.Some? ==> r.value < |slots| && slots[r.value].status == Idle
    ensures r.Some? ==> forall j :: 0 <= j < r.value ==> slots[j].status != Idle
  {
    if |slots| == 0 then None
    else if slots[0].status == Idle then Some(0)
    else match FirstIdle(slots[1..])
      case None => None
      case Some(k) => Some(k + 1)
  }

  /** Index of the first slot bound to `t`. */
  function FirstBound(slots: seq<Slot>, t: string): (r: Option<nat>)
    ensures r.None? <==> forall i :: 0 <= i < |slots| ==> slots[i].task != Some(t)
    ensures r.Some? ==> r.value < |slots| && slots[r.value].task == Some(t)
    ensures r.Some? ==> forall j :: 0 <= j < r.value ==> slots[j].task != Some(t)
  {
    if |slots| == 0 then None
    else if slots[0].task == Some(t) then Some(0)
    else match FirstBound(slots[1..], t)
      case None => None
      case Some(k) => Some(k + 1)
  }

  /** Index of the first slot numbered `id`. */
  function FirstWithId(slots: seq<Slot>, id: int): (r: Option<nat>)
    ensures r.None? <==> forall i :: 0 <= i < |slots| ==> slots[i].id != id
    ensures r.Some? ==> r.value < |slots| && slots[r.value].id == id
    ensures r.Some? ==> forall j :: 0 <= j < r.value ==> slots[j].id != id
  {
    if |slots| == 0 then None
    else if slots[0].id == id then Some(0)
    else match FirstWithId(slots[1..], id)
      case None => None
      case Some(k) => Some(k + 1)
  }

  /** `assign_task`: the first idle slot becomes busy with `t` and its number is
      returned; with no idle slot nothing changes. */
  function Assign(p: Pool, t: string): (r: (Pool, Option<int>))
    ensures r.1.None? <==> forall i :: 0 <= i < |p.slots| ==> p.slots[i].status != Idle
    ensures r.1.None? ==> r.0 == p
    ensures r.1.Some? ==>
      exists i ::
        0 <= i < |p.slots| && p.slots[i].status == Idle &&
        (forall j :: 0 <= j < i ==> p.slots[j].status != Idle) &&
        r.1.value == p.slots[i].id &&
        r.0 == p.(slots := p.slots[i := Slot(p.slots[i].id, Busy, Some(t))])
  {
    match FirstIdle(p.slots)
    case None => (p, None)
    case Some(i) => (p.(slots := p.slots[i := Slot(p.slots[i].id, Busy, Some(t))]), Some(p.slots[i].id))
  }

  /** `release_by_task_id`: the first slot bound to `t` is returned; it is freed
      when its status is releasable for the pool's kind and kept otherwise. */
  function Release(p: Pool, t: string): (r: (Pool, Option<int>))
    ensures r.1.None? <==> BoundTo(p, t) == {}
    ensures r.1.None? ==> r.0 == p
    ensures r.1.Some? ==>
      exists i ::
        0 <= i < |p.slots| && p.slots[i].task == Some(t) &&
        (forall j :: 0 <= j < i ==> p.slots[j].task != Some(t)) &&
        r.1.value == p.slots[i].id &&
        r.0 == (if Releasable(p.kind, p.slots[i].status)
                then p.(slots := p.slots[i := Slot(p.slots[i].id, Idle, None)])
                else p)
  {
    match FirstBound(p.slots, t)
    case None =>
      assert BoundTo(p, t) == {};
      (p, None)
    case Some(i) =>
      assert i in BoundTo(p, t);
      var q := if Releasable(p.kind, p.slots[i].status)
               then p.(slots := p.slots[i := Slot(p.slots[i].id, Idle, None)])
               else p;
      (q, Some(p.slots[i].id))
  }

  /** `set_status` (and the runners' writes through `get_by_id`): the first
      slot numbered `id` takes the status; its binding is kept. */
  function SetStatus(p: Pool, id: int, status: SlotStatus): (r: Pool)
    ensures |r.slots| == |p.slots| && r.kind == p.kind && r.capacity == p.capacity
    ensures forall i :: 0 <= i < |p.slots| ==>
      r.slots[i].id == p.slots[i].id && r.slots[i].task == p.slots[i].task
    ensures forall i :: 0 <= i < |p.slots| && p.slots[i].id != id ==> r.slots[i] == p.slots[i]
    ensures WellFormed(p) && 1 <= id <= p.capacity ==> r.slots[id - 1].status == status
    ensures (forall i :: 0 <= i < |p.slots| ==> p.slots[i].id != id) ==> r == p
  {
    match FirstWithId(p.slots, id)
    case None => p
    case Some(i) => p.(slots := p.slots[i := p.slots[i].(status := status)])
  }

  /** Two slot lists that bind `t` at the same places have the same first
      slot bound to `t`. */
  lemma FirstBoundSame(a: seq<Slot>, b: seq<Slot>, t: string)
    requires |a| == |b|
    requires forall j :: 0 <= j < |a| ==> (a[j].task == Some(t) <==> b[j].task == Some(t))
    ensures FirstBound(a, t) == FirstBound(b, t)
  {
    var fa, fb := FirstBound(a, t), FirstBound(b, t);
    if fa.None? {
      assert forall j :: 0 <= j < |b| ==> b[j].task != Some(t);
    } else {
      assert b[fa.value].task == Some(t);
      assert fb.Some?;
      assert a[fb.value].task == Some(t);
      assert !(fb.value < fa.value) && !(fa.value < fb.value);
    }
  }

  /** Whether slot `i` is the first slot bound to its task, the one
      `release_by_task_id` looks at. */
  predicate FirstOfItsTask(slots: seq<Slot>, i: nat)
    requires i < |slots|
  {
    slots[i].task.Some? && FirstBound(slots, slots[i].task.value) == Some(i)
  }

  /** The runners' release loops (`for task_id in ids: release_by_task_id(task_id)`)
      taken slot by slot: each task of `ts` has its first bound slot freed
      when that slot's status is releasable; a second slot bound to the same
      task is left alone. `ReleaseAllIsReleases` shows this is the loop. */
  function ReleaseAll(p: Pool, ts: set<string>): (r: Pool)
    ensures r.kind == p.kind && r.capacity == p.capacity && |r.slots| == |p.slots|
    ensures forall i :: 0 <= i < |p.slots| ==>
      r.slots[i] == (if FirstOfItsTask(p.slots, i) && p.slots[i].task.value in ts && Releasable(p.kind, p.slots[i].status)
                     then Slot(p.slots[i].id, Idle, None) else p.slots[i])
  {
    p.(slots := seq(|p.slots|, i requires 0 <= i < |p.slots| =>
      if FirstOfItsTask(p.slots, i) && p.slots[i].task.value in ts && Releasable(p.kind, p.slots[i].status)
      then Slot(p.slots[i].id, Idle, None) else p.slots[i]))
  }

  /** Releasing a set is releasing any one of its tasks with `Release` and
      then the rest, so the loop's order does not matter and releasing one
      task is `Release`. */
  lemma ReleaseAllIsReleases(p: Pool, ts: set<string>, t: string)
    requires t in ts
    ensures ReleaseAll(p, ts) == ReleaseAll(Release(p, t).0, ts - {t})
    ensures ReleaseAll(p, {t}) == Release(p, t).0
  {
    var q := Release(p, t).0;
    assert |q.slots| == |p.slots|;
    forall i | 0 <= i < |p.slots|
      ensures ReleaseAll(p, ts).slots[i] == ReleaseAll(q, ts - {t}).slots[i]
      ensures ReleaseAll(p, {t}).slots[i] == q.slots[i]
    {
      ReleaseAllSlotStep(p, ts, t, i);
    }
    assert ReleaseAll(p, ts).slots == ReleaseAll(q, ts - {t}).slots;
    assert ReleaseAll(p, {t}).slots == q.slots;
  }

  /** `ReleaseAllIsReleases` at one slot. */
  lemma ReleaseAllSlotStep(p: Pool, ts: set<string>, t: string, i: nat)
    requires t in ts && i < |p.slots|
    ensures |Release(p, t).0.slots| == |p.slots|
    ensures ReleaseAll(p, ts).slots[i] == ReleaseAll(Release(p, t).0, ts - {t}).slots[i]
    ensures ReleaseAll(p, {t}).slots[i] == Release(p, t).0.slots[i]
  {
    ReleaseSlot(p, t, i);
    if p.slots[i].task.Some? && p.slots[i].task.value != t {
      ReleaseKeepsOthersFirst(p, t, p.slots[i].task.value);
    }
  }

  /** Releasing `t` leaves every other task's first bound slot where it was. */
  lemma ReleaseKeepsOthersFirst(p: Pool, t: string, u: string)
    requires u != t
    ensures FirstBound(Release(p, t).0.slots, u) == FirstBound(p.slots, u)
  {
    var q := Release(p, t).0;
    forall j | 0 <= j < |p.slots|
      ensures p.slots[j].task == Some(u) <==> q.slots[j].task == Some(u)
    {
      ReleaseSlot(p, t, j);
    }
    FirstBoundSame(p.slots, q.slots, u);
  }

  /** What `Release(p, t)` does to slot `i`: only `t`'s first bound slot
      changes, and only when its status is releasable. */
  lemma ReleaseSlot(p: Pool, t: string, i: nat)
    requires i < |p.slots|
    ensures |Release(p, t).0.slots| == |p.slots|
    ensures Release(p, t).0.slots[i] ==
      (if FirstBound(p.slots, t) == Some(i) && Releasable(p.kind, p.slots[i].status)
       then Slot(p.slots[i].id, Idle, None) else p.slots[i])
  {
  }

  /** Releasing a set keeps the pool's shape. */
  lemma ReleaseAllKeepsWellFormed(p: Pool, ts: set<string>)
    requires WellFormed(p)
    ensures WellFormed(ReleaseAll(p, ts))
  {
  }

  /** `r` is `p` with `m`'s first bound slot freed when a release can free
      it, and every other slot bound to `m` as it was. */
  predicate FreesFirstOf(p: Pool, r: Pool, m: string) {
    |r.slots| == |p.slots| &&
    forall i :: 0 <= i < |p.slots| && p.slots[i].task == Some(m) ==>
      r.slots[i] == (if FirstBound(p.slots, m) == Some(i) && Releasable(p.kind, p.slots[i].status)
                     then Slot(p.slots[i].id, Idle, None) else p.slots[i])
  }

  /** No slot of `r` bound to `m` has a status a release could free. */
  predicate NoReleasableOf(r: Pool, m: string) {
    forall i :: 0 <= i < |r.slots| && r.slots[i].task == Some(m) ==> !Releasable(r.kind, r.slots[i].status)
  }

  /** After releasing a set, each member's first bound slot is freed when a
      release can free it and its other slots are untouched; while no task
      holds two slots, no member is left on a releasable slot. */
  lemma ReleaseAllFrees(p: Pool, ts: set<string>, m: string)
    requires m in ts
    ensures FreesFirstOf(p, ReleaseAll(p, ts), m)
    ensures UniqueBindings(p) ==> NoReleasableOf(ReleaseAll(p, ts), m)
  {
    var r := ReleaseAll(p, ts);
    if UniqueBindings(p) {
      forall i | 0 <= i < |r.slots| && r.slots[i].task == Some(m)
        ensures !Releasable(r.kind, r.slots[i].status)
      {
        assert p.slots[i].task == Some(m);
        UniqueBound(p, m, i);
        var k := FirstBound(p.slots, m).value;
        assert k in BoundTo(p, m);
      }
    }
  }

  /** `ReleaseAllFrees` for every member of the set at once. */
  lemma ReleaseAllFreesEach(p: Pool, ts: set<string>)
    ensures forall m :: m in ts ==> FreesFirstOf(p, ReleaseAll(p, ts), m)
    ensures forall m :: m in ts ==> UniqueBindings(p) ==> NoReleasableOf(ReleaseAll(p, ts), m)
  {
    forall m | m in ts
      ensures FreesFirstOf(p, ReleaseAll(p, ts), m)
      ensures UniqueBindings(p) ==> NoReleasableOf(ReleaseAll(p, ts), m)
    {
      ReleaseAllFrees(p, ts, m);
    }
  }

  /** Two slots busy for the same task: the loop frees the first and leaves
      the second busy. */
  lemma ReleaseAllSecondSlotStays()
    ensures var p := Pool(ThreeState, 2, [Slot(1, Busy, Some("B")), Slot(2, Busy, Some("B"))]);
      ReleaseAll(p, {"B"}).slots == [Slot(1, Idle, None), Slot(2, Busy, Some("B"))]
  {
    var p := Pool(ThreeState, 2, [Slot(1, Busy, Some("B")), Slot(2, Busy, Some("B"))]);
    assert FirstBound(p.slots, "B") == Some(0);
    assert FirstOfItsTask(p.slots, 0);
    assert !FirstOfItsTask(p.slots, 1);
  }

  /** A slot whose status the pool does not recognise becomes idle and unbound. */
  function NormalizeSlot(kind: Kind, s: Slot): Slot {
    if Recognised(kind, s.status) then s else Slot(s.id, Idle, None)
  }

  function Normalize(kind: Kind, slots: seq<Slot>): (r: seq<Slot>)
    ensures |r| == |slots|
    ensures forall i :: 0 <= i < |slots| ==> r[i] == NormalizeSlot(kind, slots[i])
  {
    if |slots| == 0 then [] else [NormalizeSlot(kind, slots[0])] + Normalize(kind, slots[1..])
  }

  /** Number of slots with status `s`. */
  function CountStatus(slots: seq<Slot>, s: SlotStatus): nat {
    if |slots| == 0 then 0
    else (if slots[0].status == s then 1 else 0) + CountStatus(slots[1..], s)
  }

  datatype Counts = Counts(total: nat, busy: nat, validating: nat, idle: nat, failed: nat)

  /** `get_stats`: reset unrecognised slots, count the statuses and, when the
      counts do not add up to the capacity, re-initialise the pool and report it
      all idle. A three-state pool reports no validating count (zero here). */
  function GetStats(p: Pool): (r: (Pool, Counts))
    ensures r.1.total == p.capacity
    ensures r.1.busy + r.1.validating + r.1.idle + r.1.failed == p.capacity
    ensures p.kind == ThreeState ==> r.1.validating == 0
    ensures |p.slots| == p.capacity ==> r.0 == p.(slots := Normalize(p.kind, p.slots))
    ensures |p.slots| != p.capacity ==> r.0 == Init(p.kind, p.capacity) && r.1.idle == p.capacity
  {
    var n := Normalize(p.kind, p.slots);
    var b := CountStatus(n, Busy);
    var v := if p.kind == FourState then CountStatus(n, Validating) else 0;
    var i := CountStatus(n, Idle);
    var f := CountStatus(n, Failed);
    CountsCoverRecognised(p.kind, n);
    if b + v + i + f != p.capacity then (Init(p.kind, p.capacity), Counts(p.capacity, 0, 0, p.capacity, 0))
    else (p.(slots := n), Counts(p.capacity, b, v, i, f))
  }

  /** When every slot has a recognised status, the per-status counts add up to
      the number of slots. */
  lemma {:induction false} CountsCoverRecognised(kind: Kind, slots: seq<Slot>)
    requires forall i :: 0 <= i < |slots| ==> Recognised(kind, slots[i].status)
    ensures CountStatus(slots, Busy) + CountStatus(slots, Idle) + CountStatus(slots, Failed)
      + (if kind == FourState then CountStatus(slots, Validating) else 0) == |slots|
    ensures kind == ThreeState ==> CountStatus(slots, Validating) == 0
  {
    if |slots| > 0 {
      CountsCoverRecognised(kind, slots[1..]);
    }
  }

  /** Every operation keeps the pool's shape. */
  lemma OperationsKeepWellFormed(p: Pool, t: string, id: int, s: SlotStatus)
    requires WellFormed(p)
    ensures WellFormed(Assign(p, t).0)
    ensures WellFormed(Release(p, t).0)
    ensures WellFormed(SetStatus(p, id, s))
    ensures WellFormed(GetStats(p).0)
  {
    AssignKeepsWellFormed(p, t);
    ReleaseKeepsWellFormed(p, t);
    SetStatusKeepsWellFormed(p, id, s);
    StatsKeepWellFormed(p);
  }

  /** In a well-formed pool the slot number handed out is the position,
      counted from one, of the slot now busy with the task. */
  lemma AssignGivesSlot(p: Pool, t: string)
    requires WellFormed(p) && Assign(p, t).1.Some?
    ensures var id := Assign(p, t).1.value;
      1 <= id <= p.capacity && |Assign(p, t).0.slots| == |p.slots| &&
      Assign(p, t).0.slots[id - 1] == Slot(id, Busy, Some(t))
  {
    var k := FirstIdle(p.slots).value;
    assert Assign(p, t).0.slots == p.slots[k := Slot(p.slots[k].id, Busy, Some(t))];
  }

  lemma AssignKeepsWellFormed(p: Pool, t: string)
    requires WellFormed(p)
    ensures WellFormed(Assign(p, t).0)
  {
    if FirstIdle(p.slots).Some? {
      var k := FirstIdle(p.slots).value;
      assert Assign(p, t).0.slots == p.slots[k := Slot(p.slots[k].id, Busy, Some(t))];
    }
  }

  lemma StatsKeepWellFormed(p: Pool)
    requires WellFormed(p)
    ensures WellFormed(GetStats(p).0)
  {
  }

  lemma ReleaseKeepsWellFormed(p: Pool, t: string)
    requires WellFormed(p)
    ensures WellFormed(Release(p, t).0) && Release(p, t).0.kind == p.kind
  {
    if BoundTo(p, t) != {} {
      var k := FirstBound(p.slots, t).value;
      assert k in BoundTo(p, t);
    }
  }

  lemma SetStatusKeepsWellFormed(p: Pool, id: int, s: SlotStatus)
    requires WellFormed(p)
    ensures WellFormed(SetStatus(p, id, s))
  {
  }

  /** Marking a slot failed and then releasing the task keeps a pool well
      formed and of its kind. */
  lemma FailedReleaseKeepsPool(p: Pool, t: string, slot: int)
    requires WellFormed(p)
    ensures var q := Release(SetStatus(p, slot, Failed), t).0;
      WellFormed(q) && q.kind == p.kind
  {
    SetStatusKeepsWellFormed(p, slot, Failed);
    ReleaseKeepsWellFormed(SetStatus(p, slot, Failed), t);
  }

  /** Statistics of a well-formed pool never re-initialise it: only slots with
      an unrecognised status change. */
  lemma StatsKeepBindings(p: Pool)
    requires WellFormed(p)
    ensures forall i :: 0 <= i < |p.slots| && Recognised(p.kind, p.slots[i].status) ==>
      GetStats(p).0.slots[i] == p.slots[i]
  {
  }

  /** Assigning a task that holds no slot keeps bindings unique; releasing and
      setting a status never bind anything new. */
  lemma OperationsKeepUnique(p: Pool, t: string, id: int, s: SlotStatus)
    requires UniqueBindings(p)
    ensures BoundTo(p, t) == {} ==> UniqueBindings(Assign(p, t).0)
    ensures UniqueBindings(Release(p, t).0)
    ensures UniqueBindings(SetStatus(p, id, s))
  {
    if BoundTo(p, t) == {} && FirstIdle(p.slots).Some? {
      var k := FirstIdle(p.slots).value;
      var q := Assign(p, t).0;
      forall i, j | 0 <= i < j < |q.slots| && q.slots[i].task.Some?
        ensures q.slots[i].task != q.slots[j].task
      {
        if i == k {
          assert j !in BoundTo(p, t);
        } else if j == k {
          assert i !in BoundTo(p, t);
        }
      }
    }
  }

  /** With at most one slot bound to `t`, a release that frees the slot leaves
      `t` bound nowhere, and releasing twice is releasing once. */
  lemma ReleaseIdempotent(p: Pool, t: string)
    requires UniqueBindings(p)
    ensures var (q, r) := Release(p, t);
      r.Some? && q != p ==> BoundTo(q, t) == {} && Release(q, t).1.None?
    ensures Release(Release(p, t).0, t).0 == Release(p, t).0
  {
    var (q, r) := Release(p, t);
    if r.Some? && q != p {
      var i :| 0 <= i < |p.slots| && p.slots[i].task == Some(t) &&
        q == p.(slots := p.slots[i := Slot(p.slots[i].id, Idle, None)]);
      forall j | 0 <= j < |q.slots| ensures q.slots[j].task != Some(t) {
        if j != i {
          assert p.slots[j].task != p.slots[i].task by {
            if j < i { } else { }
          }
        }
      }
    }
  }

  /** Releasing a task whose slots are all releasable leaves it bound
      nowhere (while no task holds two slots). */
  lemma ReleaseFrees(p: Pool, t: string)
    requires UniqueBindings(p)
    requires forall i :: i in BoundTo(p, t) ==> Releasable(p.kind, p.slots[i].status)
    ensures BoundTo(Release(p, t).0, t) == {}
  {
    var (q, r) := Release(p, t);
    if r.Some? {
      var i :| 0 <= i < |p.slots| && p.slots[i].task == Some(t) &&
        (forall j :: 0 <= j < i ==> p.slots[j].task != Some(t)) &&
        q == (if Releasable(p.kind, p.slots[i].status) then p.(slots := p.slots[i := Slot(p.slots[i].id, Idle, None)]) else p);
      assert i in BoundTo(p, t);
      assert q.slots[i] != p.slots[i];
      ReleaseIdempotent(p, t);
    }
  }

  /** The runners' failure path: the slot `id` held by `t` (and by nothing
      else of `t`) is marked failed and then released, which leaves it idle
      and unbound and `t` bound nowhere. */
  lemma FailThenRelease(p: Pool, t: string, id: int)
    requires WellFormed(p) && BoundTo(p, t) == {id - 1}
    ensures var q := Release(SetStatus(p, id, Failed), t).0;
      WellFormed(q) && q.slots[id - 1] == Slot(id, Idle, None) && BoundTo(q, t) == {}
  {
    assert id - 1 in BoundTo(p, t);
    var p1 := SetStatus(p, id, Failed);
    assert BoundTo(p1, t) == BoundTo(p, t);
    assert p1.slots[id - 1].status == Failed && p1.slots[id - 1].id == id;
    ReleaseSole(p1, t, id - 1);
    var q := Release(p1, t).0;
    assert BoundTo(q, t) == {} by {
      forall j | 0 <= j < |q.slots| ensures q.slots[j].task != Some(t) {
        if j != id - 1 { assert j !in BoundTo(p1, t); }
      }
    }
  }

  /** With no task on two slots, a slot bound to `t` is the only one. */
  lemma UniqueBound(p: Pool, t: string, i: nat)
    requires UniqueBindings(p) && i < |p.slots| && p.slots[i].task == Some(t)
    ensures BoundTo(p, t) == {i}
  {
    forall j | 0 <= j < |p.slots| && j != i ensures p.slots[j].task != Some(t) {
      if j > i { assert p.slots[i].task != p.slots[j].task; }
      else { assert p.slots[j].task != p.slots[i].task || p.slots[j].task.None?; }
    }
  }

  /** Releasing a task bound to one slot frees that slot when its status
      allows and changes nothing otherwise. */
  lemma ReleaseSole(p: Pool, t: string, i: nat)
    requires BoundTo(p, t) == {i}
    ensures Release(p, t).0 == if Releasable(p.kind, p.slots[i].status)
      then p.(slots := p.slots[i := Slot(p.slots[i].id, Idle, None)]) else p
  {
    assert i in BoundTo(p, t);
    var k := FirstBound(p.slots, t);
    assert k.Some? by {
      assert p.slots[i].task == Some(t);
    }
    assert k.value in BoundTo(p, t);
  }

  /** A three-state pool returns a validating slot's number on release but keeps
      it bound: the four-state pool frees it. */
  lemma ValidatingReleaseDiffers()
    ensures var p := Pool(ThreeState, 1, [Slot(1, Validating, Some("a"))]);
      Release(p, "a") == (p, Some(1))
    ensures var p := Pool(FourState, 1, [Slot(1, Validating, Some("a"))]);
      Release(p, "a") == (Pool(FourState, 1, [Slot(1, Idle, None)]), Some(1))
  {
    var p := Pool(ThreeState, 1, [Slot(1, Validating, Some("a"))]);
    assert FirstBound(p.slots, "a") == Some(0);
    var p4 := Pool(FourState, 1, [Slot(1, Validating, Some("a"))]);
    assert FirstBound(p4.slots, "a") == Some(0);
    assert p4.slots[0 := Slot(1, Idle, None)] == [Slot(1, Idle, None)];
  }
}
