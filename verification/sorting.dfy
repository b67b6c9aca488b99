/** Python's `sorted` on a set of strings: the members in code-point order. */
module StrSort {
  import opened TaskIds

  /** Strictly increasing in code-point order, hence without repeats. */
  predicate StrictlySorted(s: seq<string>) {
    forall i, j :: 0 <= i < j < |s| ==> StrLess(s[i], s[j])
  }

  /** `x` is the least member of `s`. */
  predicate IsLeast(x: string, s: set<string>) {
    x in s && forall y :: y in s ==> !StrLess(y, x)
  }

  /** Every non-empty finite set of strings has a least member. */
  lemma LeastExists(s: set<string>)
    requires s != {}
    ensures exists x :: IsLeast(x, s)
    decreases |s|
  {
    var z :| z in s;
    var rest := s - {z};
    if rest == {} {
      assert s == {z};
      StrLessIrreflexive(z);
      assert IsLeast(z, s);
    } else {
      LeastExists(rest);
      var m :| IsLeast(m, rest);
      StrLessTotal(m, z);
      if StrLess(z, m) {
        forall y | y in s ensures !StrLess(y, z) {
          if y == z {
            StrLessIrreflexive(z);
          } else if StrLess(y, z) {
            StrLessTrans(y, z, m);
          }
        }
        assert IsLeast(z, s);
      } else {
        forall y | y in s ensures !StrLess(y, m) {
          if y == z {
            if StrLess(z, m) {
              StrLessIrreflexive(m);
            }
          }
        }
        assert IsLeast(m, s);
      }
    }
  }

  /** The least member is unique. */
  lemma LeastUnique(s: set<string>)
    ensures forall x, y :: IsLeast(x, s) && IsLeast(y, s) ==> x == y
  {
    forall x, y | IsLeast(x, s) && IsLeast(y, s) ensures x == y {
      StrLessTotal(x, y);
    }
  }

  /** `sorted(s)`: the members of `s`, each once, in increasing order. */
  function SortSet(s: set<string>): (r: seq<string>)
    ensures |r| == |s|
    ensures forall x :: x in r <==> x in s
    ensures StrictlySorted(r)
    decreases |s|
  {
    if s == {} then []
    else
      LeastExists(s);
      LeastUnique(s);
      var x :| IsLeast(x, s);
      var rest := SortSet(s - {x});
      assert forall j :: 0 <= j < |rest| ==> StrLess(x, rest[j]) by {
        forall j | 0 <= j < |rest| ensures StrLess(x, rest[j]) {
          assert rest[j] in rest;
          assert rest[j] in s && rest[j] != x;
          StrLessTotal(x, rest[j]);
        }
      }
      [x] + rest
  }

  /** A strictly sorted list has no repeats. */
  lemma SortedDistinct(s: seq<string>)
    requires StrictlySorted(s)
    ensures forall i, j :: 0 <= i < j < |s| ==> s[i] != s[j]
  {
    forall i, j | 0 <= i < j < |s| ensures s[i] != s[j] {
      if s[i] == s[j] {
        StrLessIrreflexive(s[i]);
      }
    }
  }
}
