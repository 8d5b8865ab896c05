/** Ruby values as they arrive in request parameters and in record fields,
    with the blankness test that ActiveSupport's `presence` relies on. */
module Values {
  import opened Wrappers

  /** The shapes a parameter or field value can take. */
  datatype Value =
    | Nil
    | Bool(b: bool)
    | Int(i: int)
    | Str(s: string)
    | List(items: seq<Value>)
    | Dict(entries: map<string, Value>)

  /** The request parameter mapping: a flat map from key to value. */
  type Params = map<string, Value>

  /** `params[key]`: a missing key reads as nil. */
  function Lookup(params: Params, key: string): (v: Value)
    ensures key !in params ==> v == Nil
    ensures key in params ==> v == params[key]
  {
    if key in params then params[key] else Nil
  }

  /** The characters of the POSIX class [[:space:]] in a Unicode string. */
  predicate IsSpace(c: char)
  {
    c == ' ' || '\t' <= c <= '\r' || c == '\U{85}' || c == '\U{A0}' || c == '\U{1680}'
    || '\U{2000}' <= c <= '\U{200A}' || c == '\U{2028}' || c == '\U{2029}'
    || c == '\U{202F}' || c == '\U{205F}' || c == '\U{3000}'
  }

  /** `blank?`: nil, false, a string of whitespace only (the empty string
      included), an empty array or an empty hash. Numbers and true are
      never blank. */
  predicate Blank(v: Value)
    ensures v.Int? || v == Bool(true) ==> !Blank(v)
    ensures v == Nil || v == Bool(false) || v == Str("") || v == List([]) || v == Dict(map[]) ==> Blank(v)
    ensures v.Str? && (exists k :: 0 <= k < |v.s| && !IsSpace(v.s[k])) ==> !Blank(v)
    ensures v.List? && v.items != [] ==> !Blank(v)
    ensures v.Dict? && v.entries != map[] ==> !Blank(v)
  {
    match v
    case Nil => true
    case Bool(b) => !b
    case Int(_) => false
    case Str(s) => forall k :: 0 <= k < |s| ==> IsSpace(s[k])
    case List(items) => items == []
    case Dict(entries) => entries == map[]
  }

  /** `presence`: the value itself unless it is blank, nil otherwise. */
  function Presence(v: Value): (r: Option<Value>)
    ensures r.None? <==> Blank(v)
    ensures r.Some? ==> r.value == v
  {
    if Blank(v) then None else Some(v)
  }
}
