/** Cardinality facts about finite sets used by termination arguments. */
module Sets {

  lemma SubsetCard<T>(a: set<T>, b: set<T>)
    requires a <= b
    ensures |a| <= |b|
  {
    assert b == a + (b - a);
  }

  /** Growing `s` inside a fixed universe `u` shrinks what is left of `u`. */
  lemma GrowShrinksRest<T>(u: set<T>, s: set<T>, next: set<T>)
    requires s <= next <= u
    requires next != s
    ensures |u - next| < |u - s|
  {
    var x :| x in next && x !in s;
    var a := u - s;
    assert u - next <= a - {x};
    assert a - {x} + {x} == a;
    SubsetCard(u - next, a - {x});
  }

  /** A subset missing `x` stays a subset once `x` is taken out. */
  lemma SubsetWithout<T>(a: set<T>, b: set<T>, x: T)
    requires a <= b && x !in a
    ensures a <= b - {x}
  {
  }

  /** A subset that misses a member of `b` is strictly smaller. */
  lemma MissingMemberCard<T>(a: set<T>, b: set<T>, x: T)
    requires a <= b - {x} && x in b
    ensures 1 <= |b| && |a| < |b|
  {
    assert b - {x} + {x} == b;
    SubsetCard(a, b - {x});
  }

  /** Taking `s` out of `a` removes exactly the members they share. */
  lemma RemoveCard<T>(a: set<T>, s: set<T>)
    ensures |a - s| == |a| - |a * s|
  {
    assert a == (a - s) + (a * s);
    assert (a - s) !! (a * s);
  }
}
