/** The parsed JSON values the webhook handlers receive, and the few Python
    operations they apply to them: `dict.get` with a default, `len`, `str`
    inside an f-string, and the exception messages those raise on a value of
    the wrong type. */
module Json {
  import opened Text

  /** A value as `json.loads` builds it; JSON numbers are integers here. */
  datatype Value =
    | Null
    | Bool(b: bool)
    | Num(n: int)
    | Str(s: string)
    | Arr(items: seq<Value>)
    | Obj(fields: map<string, Value>)

  const EmptyObj: Value := Obj(map[])

  /** The name of the Python type of a value, as exception messages show it. */
  function TypeName(v: Value): string {
    match v
    case Null => "NoneType"
    case Bool(_) => "bool"
    case Num(_) => "int"
    case Str(_) => "str"
    case Arr(_) => "list"
    case Obj(_) => "dict"
  }

  /** The text of the `AttributeError` raised by `v.attr` on a value whose
      type lacks that method. */
  function NoAttribute(v: Value, attr: string): string {
    "'" + TypeName(v) + "' object has no attribute '" + attr + "'"
  }

  /** `m.get(key, default)` on a dictionary's fields. */
  function Lookup(m: map<string, Value>, key: string, default: Value): Value {
    if key in m then m[key] else default
  }

  /** `v.get(key, default)`: only dictionaries have `get`. */
  function Get(v: Value, key: string, default: Value): (r: Result<Value>)
    ensures r.Ok? <==> v.Obj?
    ensures r.Ok? && key !in v.fields ==> r.value == default
    ensures r.Ok? && key in v.fields ==> r.value == v.fields[key]
    ensures r.Err? ==> r.error == NoAttribute(v, "get")
  {
    match v
    case Obj(m) => Ok(Lookup(m, key, default))
    case _ => Err(NoAttribute(v, "get"))
  }

  /** `len(v)`: strings, lists and dictionaries have a length. */
  function Len(v: Value): (r: Result<nat>)
    ensures r.Ok? <==> v.Str? || v.Arr? || v.Obj?
    ensures v.Arr? ==> r == Ok(|v.items|)
    ensures v.Str? ==> r == Ok(|v.s|)
  {
    match v
    case Str(s) => Ok(|s|)
    case Arr(items) => Ok(|items|)
    case Obj(m) => Ok(|m|)
    case _ => Err("object of type '" + TypeName(v) + "' has no len()")
  }

  /** `str(v)` as an f-string shows a scalar; a list or dictionary is shown
      by a placeholder. */
  function Render(v: Value): string {
    match v
    case Null => "None"
    case Bool(b) => if b then "True" else "False"
    case Num(n) => IntToString(n)
    case Str(s) => s
    case Arr(_) => "[...]"
    case Obj(_) => "{...}"
  }
}
