/** The values `json.loads` produces: None, bool, a number, str, list and dict.
    Parsing itself is not modelled; callers are given a parser as a total
    function from text to `Option<JValue>` (None for a decode error). */
module Json {
  import opened Wrappers

  datatype JValue =
    | JNull
    | JBool(b: bool)
    | JNum(n: real)
    | JStr(s: string)
    | JArr(items: seq<JValue>)
    | JObj(fields: map<string, JValue>)

  /** Python's `dict.get(key, default)` on a decoded object. */
  function Get(fields: map<string, JValue>, key: string, default: JValue): (r: JValue)
    ensures key in fields ==> r == fields[key]
    ensures key !in fields ==> r == default
  {
    if key in fields then fields[key] else default
  }

  /** A decoded value may be used as a dict key: lists and dicts raise TypeError. */
  predicate Hashable(v: JValue) {
    !v.JArr? && !v.JObj?
  }

  /** The parser the tools call, abstracted: any total text-to-value function. */
  type Parser = string -> Option<JValue>
}
