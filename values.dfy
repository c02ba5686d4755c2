/** Python values as they flow through moneriote: decoded JSON bodies, heights
    collected from several sources, dictionary lookups with defaults, and the
    Python notions of truthiness and `isinstance(x, int)` that the code tests. */
module Values {

  datatype Option<T> = None | Some(value: T)

  /** A decoded JSON document, or any Python value built from one.
      `Nil` is Python's `None`; a dictionary is keyed by strings. */
  datatype Value =
    | Nil
    | Bool(b: bool)
    | Int(i: int)
    | Str(s: string)
    | List(items: seq<Value>)
    | Dict(entries: map<string, Value>)

  /** Python truthiness: `None`, `False`, `0` and empty containers are false. */
  predicate Truthy(v: Value)
  {
    match v
    case Nil => false
    case Bool(b) => b
    case Int(i) => i != 0
    case Str(s) => |s| > 0
    case List(items) => |items| > 0
    case Dict(entries) => |entries| > 0
  }

  /** `isinstance(v, int)`: in Python `bool` is a subclass of `int`. */
  predicate IsInt(v: Value)
  {
    v.Int? || v.Bool?
  }

  /** The integer a Python int or bool stands for (`True == 1`). */
  function AsInt(v: Value): (n: int)
    requires IsInt(v)
    ensures v.Bool? ==> (n == 1 <==> v.b) && (n == 0 <==> !v.b)
    ensures v.Int? ==> n == v.i
  {
    if v.Int? then v.i else if v.b then 1 else 0
  }

  /** `d.get(key, default)`; `None` when `d` is not a dictionary, where Python
      raises AttributeError because the value has no `get` method. */
  function Get(d: Value, key: string, default: Value): (r: Option<Value>)
    ensures r.Some? <==> d.Dict?
    ensures d.Dict? && key in d.entries ==> r == Some(d.entries[key])
    ensures d.Dict? && key !in d.entries ==> r == Some(default)
  {
    if d.Dict? then Some(if key in d.entries then d.entries[key] else default)
    else None
  }

  /** `v == True` in Python: true for `True` and for the integer 1. */
  predicate EqualsTrue(v: Value)
  {
    v == Bool(true) || v == Int(1)
  }

  /** Python's `s[:k]` on a sequence, including a negative `k`, which counts
      from the end. */
  function SlicePrefix<T>(s: seq<T>, k: int): (r: seq<T>)
    ensures |r| == if k >= 0 then (if k <= |s| then k else |s|)
                   else (if |s| + k >= 0 then |s| + k else 0)
    ensures r <= s
  {
    if k >= 0 then (if k <= |s| then s[..k] else s)
    else (if |s| + k >= 0 then s[..|s| + k] else [])
  }

  /** No element occurs twice. */
  predicate Distinct<T(==)>(s: seq<T>)
  {
    forall i, j :: 0 <= i < j < |s| ==> s[i] != s[j]
  }
}
