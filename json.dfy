/** The values `json.loads` produces, and Python's truthiness of them. */
module Json {
  import opened Options
  import opened Dicts

  /** A decoded JSON value. Integers and floats are both `Number`; an object keeps
      its key order, as a Python dict does. */
  datatype Json =
    | Null
    | Bool(b: bool)
    | Number(n: real)
    | Str(s: string)
    | Array(elems: seq<Json>)
    | Object(fields: Dict<Json>)

  /** `bool(v)`: `None`, `False`, zero and empty containers are false. */
  predicate Truthy(v: Json) {
    match v
    case Null => false
    case Bool(b) => b
    case Number(n) => n != 0.0
    case Str(s) => s != ""
    case Array(xs) => xs != []
    case Object(d) => d != []
  }

  /** What `lst.extend(v)` appends: the elements of a list, the characters of a string,
      the keys of a dict; `None` for a value that is not iterable (a `TypeError`). */
  function Iterate(v: Json): (r: Option<seq<Json>>)
    ensures v.Array? ==> r == Some(v.elems)
    ensures r.None? <==> (v.Null? || v.Bool? || v.Number?)
  {
    match v
    case Array(xs) => Some(xs)
    case Str(s) => Some(seq(|s|, i requires 0 <= i < |s| => Str([s[i]])))
    case Object(d) => var ks := Keys(d); Some(seq(|ks|, i requires 0 <= i < |ks| => Str(ks[i])))
    case _ => None
  }
}
