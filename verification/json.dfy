/** Dynamic values as the Python code sees them after JSON decoding. */
module Json {
  import opened Wrappers

  datatype Value =
    | Null
    | Bool(b: bool)
    | Int(i: int)
    | Float(r: real)
    | Str(s: string)
    | Arr(items: seq<Value>)
    | Obj(fields: map<string, Value>)

  /** Python truthiness: `None`, `False`, zero, and empty strings, lists and
      dicts are false. */
  predicate Truthy(v: Value) {
    match v
    case Null => false
    case Bool(b) => b
    case Int(i) => i != 0
    case Float(r) => r != 0.0
    case Str(s) => s != ""
    case Arr(a) => |a| > 0
    case Obj(m) => |m| > 0
  }

  /** `d.get(k)` on a dict: `None` (here `Null`) when the key is absent. */
  function Get(m: map<string, Value>, k: string): Value {
    if k in m then m[k] else Null
  }

  /** `a or b`: the first operand when truthy, else the second. */
  function Or(a: Value, b: Value): Value {
    if Truthy(a) then a else b
  }

  /** The number a bool, int or float stands for (`True == 1`, `1 == 1.0`). */
  function NumberOf(v: Value): Option<real> {
    match v
    case Bool(b) => Some(if b then 1.0 else 0.0)
    case Int(i) => Some(i as real)
    case Float(r) => Some(r)
    case _ => None
  }

  /** Python `a == b` on decoded values: numbers compare by value across
      bool, int and float; strings by content; `None` only to itself; lists
      element by element and dicts key by key. */
  predicate PyEq(a: Value, b: Value)
    decreases a
  {
    if NumberOf(a).Some? || NumberOf(b).Some? then NumberOf(a) == NumberOf(b)
    else match a
      case Null => b.Null?
      case Str(x) => b.Str? && b.s == x
      case Arr(xs) => b.Arr? && |xs| == |b.items| && forall i :: 0 <= i < |xs| ==> PyEq(xs[i], b.items[i])
      case Obj(m) => b.Obj? && m.Keys == b.fields.Keys && forall k :: k in m ==> PyEq(m[k], b.fields[k])
      case _ => false
  }
}
