/** The values the converters put into a record: strings, `None`, integers,
    sets and nested dictionaries, with Python's truthiness and type names. */
module Values {
  import opened Wrappers
  import opened Strings
  import opened Dicts

  datatype Value =
    | Str(s: string)
    | Nil
    | Num(n: int)
    | Set(items: set<Value>)
    | Rec(fields: Dict<string, Value>)

  /** A (nested) record: an insertion-ordered dictionary from keys to values. */
  type Record = Dict<string, Value>

  /** Python's `bool(v)`. */
  predicate Truthy(v: Value) {
    match v
    case Str(s) => s != ""
    case Nil => false
    case Num(n) => n != 0
    case Set(items) => items != {}
    case Rec(fields) => fields != []
  }

  /** Python sets and dicts are unhashable and cannot be set members. */
  predicate Hashable(v: Value) { !v.Set? && !v.Rec? }

  /** `type(v).__name__`. */
  function TypeName(v: Value): (name: string)
    ensures name in {"str", "NoneType", "int", "set", "dict"}
  {
    match v
    case Str(_) => "str"
    case Nil => "NoneType"
    case Num(_) => "int"
    case Set(_) => "set"
    case Rec(_) => "dict"
  }

  /** An element's optional text as a value: `e.text`. */
  function OfText(t: Option<string>): (v: Value)
    ensures t.None? <==> v == Nil
    ensures t.Some? ==> v == Str(t.value)
  {
    match t
    case None => Nil
    case Some(s) => Str(s)
  }

  /** `str(n)` for any integer. */
  function IntToString(n: int): (s: string)
    ensures |s| > 0
  {
    if n < 0 then "-" + NatToString(0 - n) else NatToString(n)
  }
}
