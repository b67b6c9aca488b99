/** The task-id hierarchy. A task id is a chain of `_`-separated segments:
    `1` is a top-level task, `1_2` its second subtask, and `0` is the
    implicit root above every top-level task. */
module TaskIds {
  import opened Wrappers
  import opened Strs
  import opened Seqs

  const Root: string := "0"

  /** Separator of the human-readable ancestor path. */
  const PathSep: string := " → "

  /** `child` lies strictly below `parent`: it starts with `parent` followed by `_`. */
  predicate IsDescendant(child: string, parent: string) {
    |parent| < |child| && child[..|parent|] == parent && child[|parent|] == '_'
  }

  lemma DescendantIsPrefix(child: string, parent: string)
    ensures IsDescendant(child, parent) <==> StartsWith(child, parent + "_")
  {
    if StartsWith(child, parent + "_") {
      assert child[|parent|] == (parent + "_")[|parent|];
      assert child[..|parent|] == (parent + "_")[..|parent|];
    }
  }

  /** Parent of a task: the id without its last `_segment`, or the root when
      there is no `_`. */
  function ParentId(t: string): (p: string)
    ensures '_' !in t ==> p == Root
    ensures '_' in t ==> IsDescendant(t, p) && forall j :: |p| < j < |t| ==> t[j] != '_'
  {
    match LastIndexOf(t, '_')
    case None => Root
    case Some(k) =>
      forall j | k < j < |t| ensures t[j] != '_' {
        assert t[j] == t[k + 1..][j - k - 1];
      }
      t[..k]
  }

  /** Ancestors from the immediate parent up to the root, stopping at the
      first ancestor equal to the root. */
  function AncestorChain(t: string): (c: seq<string>)
    ensures |c| >= 1 && c[0] == ParentId(t) && c[|c| - 1] == Root
    ensures forall i :: 0 <= i < |c| - 1 ==> c[i] != Root && c[i + 1] == ParentId(c[i])
    decreases |t|
  {
    var p := ParentId(t);
    if p == Root then [p] else [p] + AncestorChain(p)
  }

  /** A non-root id is in the chain of `t` exactly when `t` descends from it. */
  lemma {:induction false} ChainIsDescent(t: string, p: string)
    requires p != Root
    ensures p in AncestorChain(t) <==> IsDescendant(t, p)
    decreases |t|
  {
    var q := ParentId(t);
    if '_' in t {
      if q == Root {
        assert !IsDescendant(t, p) by {
          assert t[0] == q[0] == '0';
          assert t[..1] == q;
        }
      } else {
        ChainIsDescent(q, p);
        assert IsDescendant(t, p) ==> p == q || IsDescendant(q, p) by {
          if IsDescendant(t, p) && |p| != |q| {
            assert q[..|p|] == t[..|p|] && q[|p|] == t[|p|];
          }
        }
        assert IsDescendant(q, p) ==> IsDescendant(t, p) by {
          if IsDescendant(q, p) {
            assert t[..|p|] == q[..|p|] && t[|p|] == q[|p|];
          }
        }
      }
    }
  }

  lemma UnderscoreAt(t: string, i: nat)
    ensures i < |t| && t[i] == '_' ==> '_' in t
  {
  }

  /** The chain has one entry per `_` plus the root, except that an id beginning
      `0_` reaches the root one step early. */
  lemma {:induction false} ChainLength(t: string)
    ensures !StartsWith(t, "0_") ==> |AncestorChain(t)| == Count(t, '_') + 1
    ensures StartsWith(t, "0_") ==> |AncestorChain(t)| == Count(t, '_')
    decreases |t|
  {
    match LastIndexOf(t, '_')
    case None =>
      CountAbsent(t, '_');
      assert !StartsWith(t, "0_") by {
        if |t| >= 2 {
          assert t[1] == t[..2][1];
          UnderscoreAt(t, 1);
        }
      }
    case Some(k) =>
      var q := t[..k];
      assert ParentId(t) == q;
      assert Count(t, '_') == Count(q, '_') + 1 by {
        CountSplitAt(t, '_', k);
      }
      if q == Root {
        assert |AncestorChain(t)| == 1;
        assert Count(q, '_') == 0 by { CountAbsent(q, '_'); }
        assert StartsWith(t, "0_") by { assert t[..2] == q + "_"; }
      } else {
        assert |AncestorChain(t)| == |AncestorChain(q)| + 1;
        ChainLength(q);
        assert StartsWith(t, "0_") <==> StartsWith(q, "0_") by {
          StartsWithUnderRoot(t, k);
        }
      }
  }

  /** Cutting an id at an `_` other than a leading `0_` keeps whether it
      begins `0_`. */
  lemma StartsWithUnderRoot(t: string, k: nat)
    requires k < |t| && t[k] == '_' && t[..k] != Root
    ensures StartsWith(t, "0_") <==> StartsWith(t[..k], "0_")
  {
    if k >= 2 {
      assert t[..k][..2] == t[..2];
    } else if |t| >= 2 {
      assert t[0] == t[..2][0] && t[1] == t[..2][1];
      if k == 1 { assert t[..1] == [t[0]]; }
    }
  }

  /** The parts of the ancestor path, root first and the id itself last. */
  function PathParts(t: string): (parts: seq<string>)
    ensures |parts| >= 1 && parts[0] == Root && parts[|parts| - 1] == t
    decreases if t == Root then 0 else |t| + 1
  {
    if t == Root then [Root]
    else PathParts(ParentId(t)) + [t]
  }

  /** The path of a non-root id is its ancestor chain read from the root down,
      followed by the id. */
  lemma {:induction false} PathPartsIsReversedChain(t: string)
    requires t != Root
    ensures PathParts(t) == Reverse(AncestorChain(t)) + [t]
    decreases |t|
  {
    var p := ParentId(t);
    if p != Root {
      PathPartsIsReversedChain(p);
      var c := AncestorChain(p);
      assert Reverse([p] + c) == Reverse(c) + [p] by {
        assert ([p] + c)[1..] == c;
      }
    }
  }

  /** Human-readable ancestor path `0 → 1 → 1_2`; empty for an empty id. */
  function AncestorPath(t: string): (r: string)
    ensures t == "" <==> r == ""
    ensures t != "" ==> StartsWith(r, Root) && EndsWith(r, t)
  {
    if t == "" then ""
    else
      var parts := PathParts(t);
      JoinEnds(PathSep, parts);
      Join(PathSep, parts)
  }

  /** One segment of the natural sort key: a number for an all-digit segment,
      the text otherwise. */
  datatype KeyPart = Num(n: nat) | Text(s: string)

  /** `natural_task_id_key`: the id's segments, numeric ones as numbers. */
  function NaturalKey(t: string): (k: seq<KeyPart>)
    ensures |k| == Count(t, '_') + 1
  {
    SplitCount(t, '_');
    var parts := Split(t, '_');
    seq(|parts|, i requires 0 <= i < |parts| => SegmentKey(parts[i]))
  }

  function SegmentKey(s: string): KeyPart {
    if IsDigits(s) then Num(DigitsValue(s)) else Text(s)
  }

  /** Code-point order on strings, as Python compares `str`. */
  predicate StrLess(a: string, b: string) {
    if |a| == 0 then |b| > 0
    else if |b| == 0 then false
    else if a[0] != b[0] then a[0] < b[0]
    else StrLess(a[1..], b[1..])
  }

  /** Order on key segments. Python compares two numbers or two strings; it
      raises on a number against a string, which this order replaces by
      putting numbers first. */
  predicate PartLess(a: KeyPart, b: KeyPart) {
    match (a, b)
    case (Num(x), Num(y)) => x < y
    case (Text(x), Text(y)) => StrLess(x, y)
    case (Num(_), Text(_)) => true
    case (Text(_), Num(_)) => false
  }

  /** Python tuple order: first differing segment decides, a proper prefix is smaller. */
  predicate KeyLess(a: seq<KeyPart>, b: seq<KeyPart>) {
    if |a| == 0 then |b| > 0
    else if |b| == 0 then false
    else if a[0] != b[0] then PartLess(a[0], b[0])
    else KeyLess(a[1..], b[1..])
  }

  /** The documented ordering `1 < 1_1 < 1_2 < 1_10`, where plain string order
      would put `1_10` before `1_2`. */
  lemma NaturalOrderExample()
    ensures KeyLess(NaturalKey("1"), NaturalKey("1_1"))
    ensures KeyLess(NaturalKey("1_1"), NaturalKey("1_2"))
    ensures KeyLess(NaturalKey("1_2"), NaturalKey("1_10"))
    ensures StrLess("1_10", "1_2")
  {
    ExampleKeys();
    assert StrLess("10", "2");
  }

  lemma ExampleKeys()
    ensures NaturalKey("1") == [Num(1)]
    ensures NaturalKey("1_1") == [Num(1), Num(1)]
    ensures NaturalKey("1_2") == [Num(1), Num(2)]
    ensures NaturalKey("1_10") == [Num(1), Num(10)]
  {
    KeyOfOne();
    KeyOfOneChild("1", 1);
    KeyOfOneChild("2", 2);
    assert DigitsValue("10") == 10 by { assert "10"[..1] == "1"; }
    KeyOfOneChild("10", 10);
    assert "1_" + "1" == "1_1" && "1_" + "2" == "1_2" && "1_" + "10" == "1_10";
  }

  lemma KeyOfOne()
    ensures NaturalKey("1") == [Num(1)]
  {
    assert LastIndexOf("1", '_') == None;
    assert Split("1", '_') == ["1"];
  }

  /** The key of the child id `1_d` of a digit segment `d`. */
  lemma KeyOfOneChild(d: string, v: nat)
    requires |d| > 0 && IsDigits(d) && DigitsValue(d) == v && '_' !in d
    ensures NaturalKey("1_" + d) == [Num(1), Num(v)]
  {
    var t := "1_" + d;
    var k := LastIndexOf(t, '_').value;
    assert t[1] == '_';
    assert t[..1] == "1" && t[2..] == d;
    assert LastIndexOf("1", '_') == None;
    assert Split("1", '_') == ["1"];
    assert Split(t, '_') == ["1", d];
  }

  lemma {:induction false} StrLessIrreflexive(a: string)
    ensures !StrLess(a, a)
  {
    if |a| > 0 { StrLessIrreflexive(a[1..]); }
  }

  lemma {:induction false} StrLessTrans(a: string, b: string, c: string)
    requires StrLess(a, b) && StrLess(b, c)
    ensures StrLess(a, c)
  {
    if |a| > 0 && a[0] == b[0] && b[0] == c[0] {
      StrLessTrans(a[1..], b[1..], c[1..]);
    }
  }

  lemma {:induction false} StrLessTotal(a: string, b: string)
    ensures a == b || StrLess(a, b) || StrLess(b, a)
  {
    if |a| > 0 && |b| > 0 && a[0] == b[0] {
      StrLessTotal(a[1..], b[1..]);
      if a[1..] == b[1..] { assert a == [a[0]] + a[1..] && b == [b[0]] + b[1..]; }
    }
  }

  /** The key order is a strict total order, so sorting by it is well defined. */
  lemma {:induction false} KeyLessStrictTotal(a: seq<KeyPart>, b: seq<KeyPart>, c: seq<KeyPart>)
    ensures !KeyLess(a, a)
    ensures a == b || KeyLess(a, b) || KeyLess(b, a)
    ensures KeyLess(a, b) && KeyLess(b, c) ==> KeyLess(a, c)
    decreases |a|
  {
    if |a| > 0 {
      KeyLessStrictTotal(a[1..], if |b| > 0 then b[1..] else b, if |c| > 0 then c[1..] else c);
      if |b| > 0 && a[0] == b[0] && a[1..] == b[1..] {
        assert a == [a[0]] + a[1..] && b == [b[0]] + b[1..];
      }
      if |b| > 0 && a[0] != b[0] {
        PartLessTotal(a[0], b[0]);
      }
      if KeyLess(a, b) && KeyLess(b, c) {
        PartLessTrans(a[0], b[0], c[0]);
        if a[0] != b[0] && b[0] == c[0] {
        } else if a[0] == b[0] && b[0] != c[0] {
        } else if a[0] != b[0] && b[0] != c[0] && a[0] == c[0] {
          PartLessAsym(a[0], b[0]);
        }
      }
    }
  }

  lemma PartLessTotal(x: KeyPart, y: KeyPart)
    requires x != y
    ensures PartLess(x, y) || PartLess(y, x)
  {
    if x.Text? && y.Text? { StrLessTotal(x.s, y.s); }
  }

  lemma PartLessTrans(x: KeyPart, y: KeyPart, z: KeyPart)
    ensures PartLess(x, y) && PartLess(y, z) ==> PartLess(x, z)
  {
    if x.Text? && y.Text? && z.Text? && PartLess(x, y) && PartLess(y, z) {
      StrLessTrans(x.s, y.s, z.s);
    }
  }

  lemma PartLessAsym(x: KeyPart, y: KeyPart)
    ensures !(PartLess(x, y) && PartLess(y, x))
  {
    if x.Text? && y.Text? && PartLess(x, y) && PartLess(y, x) {
      StrLessTrans(x.s, y.s, x.s);
      StrLessIrreflexive(x.s);
    }
  }

  /** A decimal segment as produced by the planner: digits without a leading zero. */
  predicate IsCanonicalNumber(s: string) {
    IsDigits(s) && (|s| > 1 ==> s[0] != '0')
  }

  /** Print a key back as an id. */
  function RenderKey(k: seq<KeyPart>): string
    requires |k| >= 1
  {
    Join("_", seq(|k|, i requires 0 <= i < |k| => match k[i] case Num(n) => NatToString(n) case Text(s) => s))
  }

  /** For ids whose numeric segments carry no leading zero, the natural key
      loses nothing: printing it gives back the id. */
  lemma NaturalKeyRoundTrip(t: string)
    requires forall p :: p in Split(t, '_') && IsDigits(p) ==> IsCanonicalNumber(p)
    ensures RenderKey(NaturalKey(t)) == t
  {
    var parts := Split(t, '_');
    var k := NaturalKey(t);
    var printed := seq(|k|, i requires 0 <= i < |k| => match k[i] case Num(n) => NatToString(n) case Text(s) => s);
    forall i | 0 <= i < |parts| ensures printed[i] == parts[i] {
      if IsDigits(parts[i]) {
        assert parts[i] in parts;
        CanonicalDigitsRoundTrip(parts[i]);
      }
    }
    assert printed == parts;
    JoinSplit(t, '_');
  }

  /** A canonical decimal is the printed form of its value. */
  lemma {:induction false} CanonicalDigitsRoundTrip(s: string)
    requires IsCanonicalNumber(s)
    ensures NatToString(DigitsValue(s)) == s
    decreases |s|
  {
    var n := DigitsValue(s);
    if |s| == 1 {
      assert s[..0] == "";
    } else {
      var front := s[..|s| - 1];
      assert front[0] == s[0];
      CanonicalDigitsRoundTrip(front);
      LeadingDigitPositive(front);
      assert n / 10 == DigitsValue(front) && n % 10 == s[|s| - 1] as int - '0' as int;
      assert s == front + [s[|s| - 1]];
    }
  }

  lemma LeadingDigitPositive(s: string)
    requires IsDigits(s) && s[0] != '0'
    ensures DigitsValue(s) >= 1
    decreases |s|
  {
    if |s| > 1 {
      var front := s[..|s| - 1];
      assert front[0] == s[0];
      LeadingDigitPositive(front);
    }
  }

  /** Python `re.match(r"^[1-9]\d*$", t)`: a positive decimal without a leading
      zero; `$` also accepts one trailing newline. */
  predicate IsTopLevelId(t: string) {
    var core := if |t| > 0 && t[|t| - 1] == '\n' then t[..|t| - 1] else t;
    IsDigits(core) && core[0] != '0'
  }

  /** `_is_in_subtree`: below the root means a top-level id; below any other
      parent means the prefix rule. Empty ids belong nowhere. */
  function InSubtree(t: string, parent: string): (b: bool)
    ensures t == "" || parent == "" ==> !b
    ensures t != "" && parent == Root ==> (b <==> IsTopLevelId(t))
    ensures t != "" && parent != "" && parent != Root ==> (b <==> parent in AncestorChain(t))
  {
    if t == "" || parent == "" then false
    else if parent == Root then IsTopLevelId(t)
    else
      ChainIsDescent(t, parent);
      IsDescendant(t, parent)
  }
}
