/** Reachability over a finite edge relation between task ids: the closure the
    runners compute through their reverse-dependency index and the relation
    transitive reduction must preserve. */
module Reach {
  import Sets

  type Edges = set<(string, string)>

  /** `p` follows edges of `e` from its first to its last element. */
  predicate IsPath(e: Edges, p: seq<string>) {
    |p| >= 1 && forall i :: 0 <= i < |p| - 1 ==> (p[i], p[i + 1]) in e
  }

  /** `b` can be reached from `a` in zero or more steps. */
  ghost predicate Reaches(e: Edges, a: string, b: string) {
    exists p :: IsPath(e, p) && p[0] == a && p[|p| - 1] == b
  }

  /** Direct successors of the members of `s`. */
  function Successors(e: Edges, s: set<string>): (r: set<string>)
    ensures forall v :: v in r <==> exists u :: u in s && (u, v) in e
  {
    set x | x in e && x.0 in s :: x.1
  }

  /** Every node an edge points to. */
  function Targets(e: Edges): set<string> {
    set x | x in e :: x.1
  }

  /** `v` is reachable from some root. */
  ghost predicate ReachableFrom(e: Edges, roots: set<string>, v: string) {
    exists a :: a in roots && Reaches(e, a, v)
  }

  /** The nodes reachable from `roots`: grow the set by its successors until
      nothing new appears. */
  function Closure(e: Edges, roots: set<string>): (r: set<string>)
    ensures roots <= r
    ensures forall v :: v in r <==> ReachableFrom(e, roots, v)
  {
    forall v | v in roots ensures ReachableFrom(e, roots, v) {
      ReachesRefl(e, v);
    }
    ClosureFrom(e, roots, roots)
  }

  function ClosureFrom(e: Edges, roots: set<string>, s: set<string>): (r: set<string>)
    requires roots <= s <= roots + Targets(e)
    requires forall v :: v in s ==> ReachableFrom(e, roots, v)
    ensures s <= r
    ensures forall v :: v in r <==> ReachableFrom(e, roots, v)
    decreases |roots + Targets(e) - s|
  {
    var next := s + Successors(e, s);
    if next == s then
      ClosedContainsReachable(e, roots, s);
      s
    else
      GrowStep(e, roots, s);
      ClosureFrom(e, roots, next)
  }

  /** One round of growth stays within the reachable nodes and the finite
      universe, and strictly gains a node. */
  lemma GrowStep(e: Edges, roots: set<string>, s: set<string>)
    requires roots <= s <= roots + Targets(e)
    requires forall v :: v in s ==> ReachableFrom(e, roots, v)
    requires s + Successors(e, s) != s
    ensures var next := s + Successors(e, s);
      roots <= next <= roots + Targets(e) &&
      (forall v :: v in next ==> ReachableFrom(e, roots, v)) &&
      |roots + Targets(e) - next| < |roots + Targets(e) - s|
  {
    var next := s + Successors(e, s);
    GrowReachable(e, roots, s);
    SuccessorsAreTargets(e, s);
    Sets.GrowShrinksRest(roots + Targets(e), s, next);
  }

  lemma GrowReachable(e: Edges, roots: set<string>, s: set<string>)
    requires forall v :: v in s ==> ReachableFrom(e, roots, v)
    ensures forall v :: v in Successors(e, s) ==> ReachableFrom(e, roots, v)
  {
    forall v | v in Successors(e, s) ensures ReachableFrom(e, roots, v) {
      var u :| u in s && (u, v) in e;
      var a :| a in roots && Reaches(e, a, u);
      ReachesStep(e, a, u, v);
    }
  }

  /** The closure holds the successors of each of its members. */
  lemma ClosureHoldsSuccessors(e: Edges, roots: set<string>, u: string)
    requires u in Closure(e, roots)
    ensures Successors(e, {u}) <= Closure(e, roots)
  {
    var a :| a in roots && Reaches(e, a, u);
    forall v | v in Successors(e, {u}) ensures v in Closure(e, roots) {
      assert (u, v) in e;
      ReachesStep(e, a, u, v);
    }
  }

  /** A set between the roots and their closure that is closed under
      successors is the closure. */
  lemma ClosedIsClosure(e: Edges, roots: set<string>, r: set<string>)
    requires roots <= r <= Closure(e, roots) && Successors(e, r) <= r
    ensures r == Closure(e, roots)
  {
    ClosedContainsReachable(e, roots, r);
  }

  lemma SuccessorsAreTargets(e: Edges, s: set<string>)
    ensures Successors(e, s) <= Targets(e)
  {
    forall v | v in Successors(e, s) ensures v in Targets(e) {
      var u :| u in s && (u, v) in e;
      assert (u, v).1 == v;
    }
  }

  /** Reaching `u` and stepping along an edge reaches its target. */
  lemma ReachesStep(e: Edges, a: string, u: string, v: string)
    requires Reaches(e, a, u) && (u, v) in e
    ensures Reaches(e, a, v)
  {
    var p :| IsPath(e, p) && p[0] == a && p[|p| - 1] == u;
    var q := p + [v];
    assert IsPath(e, q);
  }

  lemma ReachesRefl(e: Edges, a: string)
    ensures Reaches(e, a, a)
  {
    assert IsPath(e, [a]);
  }

  /** A set containing the roots and closed under successors contains every
      node reachable from them. */
  lemma ClosedContainsReachable(e: Edges, roots: set<string>, s: set<string>)
    requires roots <= s
    requires Successors(e, s) <= s
    ensures forall v :: ReachableFrom(e, roots, v) ==> v in s
  {
    forall v | ReachableFrom(e, roots, v) ensures v in s {
      var a :| a in roots && Reaches(e, a, v);
      var p :| IsPath(e, p) && p[0] == a && p[|p| - 1] == v;
      PathStaysIn(e, s, p);
    }
  }

  lemma {:induction false} PathStaysIn(e: Edges, s: set<string>, p: seq<string>)
    requires IsPath(e, p) && p[0] in s
    requires Successors(e, s) <= s
    ensures p[|p| - 1] in s
    decreases |p|
  {
    if |p| > 1 {
      var q := p[..|p| - 1];
      assert IsPath(e, q);
      PathStaysIn(e, s, q);
      assert (p[|p| - 2], p[|p| - 1]) in e;
      assert p[|p| - 1] in Successors(e, s);
    }
  }

  /** Reachability composes. */
  lemma ReachesTrans(e: Edges, a: string, b: string, c: string)
    requires Reaches(e, a, b) && Reaches(e, b, c)
    ensures Reaches(e, a, c)
  {
    var p :| IsPath(e, p) && p[0] == a && p[|p| - 1] == b;
    var q :| IsPath(e, q) && q[0] == b && q[|q| - 1] == c;
    var r := p + q[1..];
    forall i | 0 <= i < |r| - 1 ensures (r[i], r[i + 1]) in e {
      if i < |p| - 1 {
      } else {
        assert r[i] == q[i - |p| + 1];
        assert r[i + 1] == q[i - |p| + 2];
      }
    }
    assert IsPath(e, r);
  }

  /** Reachability only grows with the edge set. */
  lemma ReachesMono(e: Edges, f: Edges, a: string, b: string)
    requires e <= f && Reaches(e, a, b)
    ensures Reaches(f, a, b)
  {
    var p :| IsPath(e, p) && p[0] == a && p[|p| - 1] == b;
    assert IsPath(f, p);
  }
}
