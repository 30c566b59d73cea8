/** JSON values as the clients see them. */
module Json {
  import opened Sequences

  datatype Value =
    | Null
    | Bool(flag: bool)
    | Int(n: int)
    | Float(x: real)
    | Str(s: string)
    | Arr(items: seq<Value>)
    | Obj(fields: seq<(string, Value)>)

  function Lookup(fields: seq<(string, Value)>, key: string): Option<Value> {
    if fields == [] then None
    else if fields[0].0 == key then Some(fields[0].1)
    else Lookup(fields[1..], key)
  }

  function Get(v: Value, key: string): Option<Value> {
    match v
    case Obj(fields) => Lookup(fields, key)
    case _ => None
  }

  function GetIn(v: Option<Value>, key: string): Option<Value> {
    if v.None? then None else Get(v.value, key)
  }

  const U64_LIMIT: int := 0x1_0000_0000_0000_0000

  function AsU64(v: Option<Value>): Option<nat> {
    if v.Some? && v.value.Int? && 0 <= v.value.n < U64_LIMIT then Some(v.value.n) else None
  }

  function AsStr(v: Option<Value>): Option<string> {
    if v.Some? && v.value.Str? then Some(v.value.s) else None
  }

  predicate NonEmptyStr(v: Option<Value>) {
    AsStr(v).Some? && AsStr(v).value != ""
  }
}
