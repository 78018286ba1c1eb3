/** The untrusted JSON the backend returns, as JavaScript sees it after
    `JSON.parse`; `Undefined` stands for a missing property. */
module Json {

  datatype Json =
    | Undefined
    | Null
    | Bool(b: bool)
    | Num(n: real)
    | Str(s: string)
    | Arr(items: seq<Json>)
    | Obj(fields: map<string, Json>)

  /** `j?.[key]`: a property of an object, `Undefined` for anything else. */
  function Get(j: Json, key: string): (r: Json)
    ensures j.Obj? && key in j.fields ==> r == j.fields[key]
    ensures !(j.Obj? && key in j.fields) ==> r == Undefined
  {
    if j.Obj? && key in j.fields then j.fields[key] else Undefined
  }

  /** JavaScript truthiness (`NaN` is not modelled). */
  predicate Truthy(j: Json) {
    match j
    case Undefined => false
    case Null => false
    case Bool(b) => b
    case Num(n) => n != 0.0
    case Str(s) => s != ""
    case Arr(_) => true
    case Obj(_) => true
  }
}
