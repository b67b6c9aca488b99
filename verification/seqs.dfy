/** Sequence helpers shared by the graph and builder modules. */
module Seqs {

  /** No element occurs twice. */
  predicate Distinct<T(==)>(s: seq<T>) {
    forall i, j :: 0 <= i < j < |s| ==> s[i] != s[j]
  }

  /** `a` is `b` with some elements dropped, the rest kept in order. */
  predicate Subsequence<T(==)>(a: seq<T>, b: seq<T>) {
    |a| == 0 || (|b| > 0 && ((a[0] == b[0] && Subsequence(a[1..], b[1..])) || Subsequence(a, b[1..])))
  }

  function Reverse<T>(s: seq<T>): (r: seq<T>)
    ensures |r| == |s|
    ensures forall i :: 0 <= i < |s| ==> r[i] == s[|s| - 1 - i]
  {
    if |s| == 0 then [] else Reverse(s[1..]) + [s[0]]
  }

  /** Concatenation of a list of lists, in order. */
  function Flatten<T>(ss: seq<seq<T>>): (r: seq<T>)
    ensures |ss| == 0 ==> r == []
  {
    if |ss| == 0 then [] else ss[0] + Flatten(ss[1..])
  }

  /** An element of the flattening lies in one of the parts, and back. */
  lemma {:induction false} FlattenMember<T>(ss: seq<seq<T>>, x: T)
    ensures x in Flatten(ss) <==> exists i :: 0 <= i < |ss| && x in ss[i]
  {
    if |ss| > 0 {
      FlattenMember(ss[1..], x);
      if exists i :: 0 <= i < |ss| && x in ss[i] {
        var i :| 0 <= i < |ss| && x in ss[i];
        if i > 0 { assert ss[1..][i - 1] == ss[i]; }
      }
      if exists i :: 0 <= i < |ss| - 1 && x in ss[1..][i] {
        var i :| 0 <= i < |ss| - 1 && x in ss[1..][i];
        assert ss[i + 1] == ss[1..][i];
      }
    }
  }

  /** `x` is added at the end unless it is already present (insertion-ordered set). */
  function AddNew(s: seq<string>, x: string): (r: seq<string>)
    ensures Distinct(s) ==> Distinct(r)
    ensures forall y :: y in r <==> y in s || y == x
    ensures |s| <= |r| && r[..|s|] == s
  {
    if x in s then s else s + [x]
  }

  /** Sequence of the elements of `s` that are not in `drop`, keeping order. */
  function Without(s: seq<string>, drop: set<string>): (r: seq<string>)
    ensures forall y :: y in r <==> y in s && y !in drop
    ensures Distinct(s) ==> Distinct(r)
    ensures |r| <= |s|
  {
    if |s| == 0 then []
    else
      var rest := Without(s[1..], drop);
      if s[0] in drop then rest
      else
        assert Distinct(s) ==> s[0] !in s[1..];
        [s[0]] + rest
  }

  /** Pigeonhole: a sequence longer than the set it draws from repeats an element. */
  lemma {:induction false} Pigeonhole<T>(w: seq<T>, s: set<T>) returns (i: nat, j: nat)
    requires forall k :: 0 <= k < |w| ==> w[k] in s
    requires |w| > |s|
    ensures i < j < |w| && w[i] == w[j]
  {
    var last := w[|w| - 1];
    var front := w[..|w| - 1];
    if last in front {
      var k :| 0 <= k < |front| && front[k] == last;
      i, j := k, |w| - 1;
    } else {
      forall k | 0 <= k < |front| ensures front[k] in s - {last} {
        assert front[k] == w[k];
      }
      i, j := Pigeonhole(front, s - {last});
    }
  }

  lemma {:induction false} FlattenSnoc<T>(ss: seq<seq<T>>, s: seq<T>)
    ensures Flatten(ss + [s]) == Flatten(ss) + s
  {
    if |ss| > 0 {
      assert (ss + [s])[1..] == ss[1..] + [s];
      FlattenSnoc(ss[1..], s);
    }
  }

  /** Appending `x` to one part adds exactly `x` to the flattening. */
  lemma {:induction false} FlattenAppendAt<T>(ss: seq<seq<T>>, i: nat, x: T)
    requires i < |ss|
    ensures multiset(Flatten(ss[i := ss[i] + [x]])) == multiset(Flatten(ss)) + multiset{x}
  {
    var tt := ss[i := ss[i] + [x]];
    if i == 0 {
      assert tt[1..] == ss[1..];
    } else {
      assert tt[1..] == ss[1..][i - 1 := ss[1..][i - 1] + [x]];
      FlattenAppendAt(ss[1..], i - 1, x);
    }
  }
}
