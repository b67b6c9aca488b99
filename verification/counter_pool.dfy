/** Status a pool records for a slot or a held task. `Other` stands for any
    status string outside the four the pools know by name. */
module SlotStatuses {
  datatype SlotStatus = Idle | Busy | Validating | Failed | Other(name: string)
}

/** The counter-based concurrency pool of the canonical runner: a number of
    slots in use bounded by a capacity, and a map of the tasks holding them. */
module CounterPool {
  import opened Wrappers
  import opened SlotStatuses
  import Sets

  /** Capacity used when none is given. */
  const DefaultMax: int := 7

  datatype Pool = Pool(inUse: int, capacity: int, tracked: map<string, SlotStatus>)

  /** The module state before any call: nothing held, default capacity. */
  const Fresh: Pool := Pool(0, DefaultMax, map[])

  /** Bounds every reachable pool satisfies: in use never exceeds capacity, and
      there are never more tracked tasks than slots in use. */
  ghost predicate Inv(p: Pool) {
    p.capacity >= 1 && |p.tracked| <= p.inUse <= p.capacity
  }

  /** No slot is held twice by one task: in use equals the number of tracked tasks. */
  ghost predicate Exact(p: Pool) {
    p.inUse == |p.tracked|
  }

  /** Reset with a new capacity, clamped to at least one. */
  function Initialize(maxConcurrency: int): (p: Pool)
    ensures p.inUse == 0 && p.tracked == map[]
    ensures p.capacity >= 1
    ensures maxConcurrency >= 1 ==> p.capacity == maxConcurrency
    ensures maxConcurrency < 1 ==> p.capacity == 1
  {
    Pool(0, if maxConcurrency < 1 then 1 else maxConcurrency, map[])
  }

  /** Acquire a slot for `t`: nothing when at capacity, otherwise one more slot
      in use and `t` tracked as busy. */
  function Assign(p: Pool, t: string): (r: (Pool, Option<string>))
    ensures r.1.None? <==> p.inUse >= p.capacity
    ensures r.1.None? ==> r.0 == p
    ensures r.1.Some? ==>
      r.1.value == t && r.0.inUse == p.inUse + 1 &&
      r.0.capacity == p.capacity && r.0.tracked == p.tracked[t := Busy]
  {
    if p.inUse >= p.capacity then (p, None)
    else (Pool(p.inUse + 1, p.capacity, p.tracked[t := Busy]), Some(t))
  }

  /** Release the slot of `t`: only a tracked task frees a slot. */
  function Release(p: Pool, t: string): (r: (Pool, Option<string>))
    ensures r.1.Some? <==> t in p.tracked
    ensures r.1.Some? ==>
      r.1.value == t && r.0.inUse == p.inUse - 1 &&
      r.0.capacity == p.capacity && r.0.tracked == p.tracked - {t}
    ensures r.1.None? ==> r.0 == p
  {
    if t in p.tracked then (Pool(p.inUse - 1, p.capacity, p.tracked - {t}), Some(t))
    else (p, None)
  }

  /** Release every task of `s` (the runner's loops over a set of ids). */
  function ReleaseAll(p: Pool, s: set<string>): (r: Pool)
    ensures r.tracked == p.tracked - s
    ensures r.capacity == p.capacity
    ensures r.inUse == p.inUse - |p.tracked.Keys * s|
  {
    var gone := p.tracked.Keys * s;
    assert (p.tracked - s).Keys == p.tracked.Keys - gone;
    Pool(p.inUse - |gone|, p.capacity, p.tracked - s)
  }

  /** Releasing a set is releasing one of its members and then the rest. */
  lemma ReleaseAllStep(p: Pool, s: set<string>, x: string)
    requires x in s
    ensures ReleaseAll(p, s) == ReleaseAll(Release(p, x).0, s - {x})
  {
    var q := Release(p, x).0;
    if x in p.tracked {
      assert p.tracked.Keys * s == (q.tracked.Keys * (s - {x})) + {x};
      assert x !in q.tracked.Keys * (s - {x});
    } else {
      assert p.tracked.Keys * s == p.tracked.Keys * (s - {x});
    }
    assert q.tracked - (s - {x}) == p.tracked - s;
  }

  /** Change the status of a tracked task; untracked tasks are ignored. */
  function SetTaskStatus(p: Pool, t: string, status: SlotStatus): (r: Pool)
    ensures t in p.tracked ==> r == p.(tracked := p.tracked[t := status])
    ensures t !in p.tracked ==> r == p
  {
    if t in p.tracked then p.(tracked := p.tracked[t := status]) else p
  }

  datatype Stats = Stats(busy: nat, validating: nat, max: int)

  /** Tracked tasks with status `s`. */
  function WithStatus(tracked: map<string, SlotStatus>, s: SlotStatus): set<string> {
    set k | k in tracked && tracked[k] == s
  }

  /** Busy and validating counts among the tracked tasks, and the capacity. */
  function GetStats(p: Pool): (r: Stats)
    ensures r.busy + r.validating <= |p.tracked|
    ensures r.max == p.capacity
    ensures (forall k :: k in p.tracked ==> p.tracked[k] == Busy) ==> r.busy == |p.tracked| && r.validating == 0
  {
    var b := WithStatus(p.tracked, Busy);
    var v := WithStatus(p.tracked, Validating);
    assert b !! v;
    assert b + v <= p.tracked.Keys;
    Sets.SubsetCard(b + v, p.tracked.Keys);
    assert (forall k :: k in p.tracked ==> p.tracked[k] == Busy) ==> b == p.tracked.Keys && v == {};
    Stats(|b|, |v|, p.capacity)
  }

  /** Every pool operation keeps `Inv`; this is the capacity bound of the pool. */
  lemma OperationsKeepInv(p: Pool, t: string, s: set<string>, st: SlotStatus, n: int)
    requires Inv(p)
    ensures Inv(Initialize(n))
    ensures Inv(Assign(p, t).0)
    ensures Inv(Release(p, t).0)
    ensures Inv(ReleaseAll(p, s))
    ensures Inv(SetTaskStatus(p, t, st))
  {
    AssignKeepsInv(p, t);
    ReleaseAllKeepsInv(p, s);
    ReleaseAllKeepsInv(p, {t});
    ReleaseIsReleaseAll(p, t);
  }

  /** Releasing one task is releasing the set holding only it. */
  lemma ReleaseIsReleaseAll(p: Pool, t: string)
    ensures Release(p, t).0 == ReleaseAll(p, {t})
  {
    if t in p.tracked {
      assert p.tracked.Keys * {t} == {t};
    } else {
      assert p.tracked.Keys * {t} == {};
      assert p.tracked - {t} == p.tracked;
    }
  }

  lemma AssignKeepsInv(p: Pool, t: string)
    requires Inv(p)
    ensures Inv(Assign(p, t).0)
  {
    var a := Assign(p, t).0;
    if a != p {
      assert a.tracked.Keys == p.tracked.Keys + {t};
      assert |a.tracked.Keys| <= |p.tracked.Keys| + |{t}|;
    }
  }

  lemma ReleaseAllKeepsInv(p: Pool, s: set<string>)
    requires Inv(p)
    ensures Inv(ReleaseAll(p, s))
  {
    ReleaseAllCount(p, s);
  }

  /** Releasing a set untracks as many tasks as it frees slots. */
  lemma ReleaseAllCount(p: Pool, s: set<string>)
    ensures |ReleaseAll(p, s).tracked| == |p.tracked| - |p.tracked.Keys * s|
  {
    assert ReleaseAll(p, s).tracked.Keys == p.tracked.Keys - s;
    Sets.RemoveCard(p.tracked.Keys, s);
  }

  /** The in-use count equals the number of tracked tasks as long as no task is
      assigned a slot while it already holds one. */
  lemma ExactKept(p: Pool, t: string, s: set<string>, st: SlotStatus, n: int)
    requires Exact(p)
    ensures Exact(Initialize(n))
    ensures t !in p.tracked ==> Exact(Assign(p, t).0)
    ensures Exact(Release(p, t).0)
    ensures Exact(ReleaseAll(p, s))
    ensures Exact(SetTaskStatus(p, t, st))
  {
    ReleaseAllCount(p, s);
    ReleaseAllCount(p, {t});
    ReleaseIsReleaseAll(p, t);
  }

  /** A second assignment to a task that already holds a slot makes the counter
      drift: two slots in use, one task tracked. */
  lemma DoubleAssignDrifts()
    ensures var p1 := Assign(Initialize(7), "a").0;
            var p2 := Assign(p1, "a").0;
            Exact(p1) && p2.inUse == 2 && |p2.tracked| == 1
  {
    var p1 := Assign(Initialize(7), "a").0;
    assert p1.tracked == map["a" := Busy];
    assert Assign(p1, "a").0.tracked == map["a" := Busy];
  }
}
