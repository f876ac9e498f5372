/** JSON-shaped values as the client sees them after decoding, with the two
    pieces of Python behaviour the write path leans on: truthiness and the
    `in` operator on containers, plus dict unpacking (`{**a, **b}`). */
module Values {

  /** A decoded node value. Floating-point numbers are not modelled. */
  datatype Value =
    | Null
    | Bool(b: bool)
    | Int(i: int)
    | Str(s: string)
    | Dict(entries: map<string, Value>)
    | List(items: seq<Value>)

  /** Python truthiness: None, False, 0, "", {} and [] are falsy. */
  predicate Truthy(v: Value)
  {
    match v
    case Null => false
    case Bool(b) => b
    case Int(i) => i != 0
    case Str(s) => s != ""
    case Dict(m) => m != map[]
    case List(xs) => xs != []
  }

  /** `isinstance(v, list) or isinstance(v, dict)` */
  predicate IsContainer(v: Value)
  {
    v.Dict? || v.List?
  }

  /** Python's `key in v` for a string key: a key lookup in a dict and an
      element search in a list. The source only evaluates it on containers;
      on anything else it is false here. */
  predicate Contains(v: Value, key: string)
  {
    match v
    case Dict(m) => key in m
    case List(xs) => Str(key) in xs
    case _ => false
  }

  /** Python's `v or d`. */
  function Or(v: Value, d: Value): (r: Value)
  {
    if Truthy(v) then v else d
  }

  /** Python's `{**a, **b}`: the keys of `a` are inserted, then those of
      `b`, so a key of both sides ends up with its value in `b`. */
  function Unpack(a: map<string, Value>, b: map<string, Value>): (r: map<string, Value>)
    ensures forall k :: k in r <==> k in a || k in b
    ensures forall k :: k in r ==> r[k] == (if k in b then b[k] else a[k])
  {
    a + b
  }

  /** The six falsy values, listed independently of `Truthy`. */
  predicate IsFalsyConstant(v: Value)
  {
    v == Null || v == Bool(false) || v == Int(0) || v == Str("")
    || v == Dict(map[]) || v == List([])
  }

  lemma FalsyIsExactlyTheSixConstants(v: Value)
    ensures !Truthy(v) <==> IsFalsyConstant(v)
  {
  }
}
