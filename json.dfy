/** The values `json.loads` produces, and the two Python operations the
    dashboard performs on them without looking at their type: truth testing
    (`if x`, `x or y`) and `dict.get`. */
module Json {
  import opened Wrappers

  /** A decoded JSON value. Objects are Python dicts keyed by strings;
      numbers are kept as exact reals. */
  datatype JValue =
    | JNull
    | JBool(b: bool)
    | JNum(n: real)
    | JStr(s: string)
    | JArr(items: seq<JValue>)
    | JObj(fields: map<string, JValue>)

  /** Python truthiness: `None`, `False`, zero and empty containers are false. */
  predicate Truthy(v: JValue) {
    match v
    case JNull => false
    case JBool(b) => b
    case JNum(n) => n != 0.0
    case JStr(s) => s != ""
    case JArr(items) => items != []
    case JObj(fields) => fields != map[]
  }

  /** `entry.get(key)` on a dict; `None` when the key is absent or `entry`
      is not an object at all. */
  function Field(entry: JValue, key: string): (r: Option<JValue>)
    ensures r.Some? <==> entry.JObj? && key in entry.fields
    ensures r.Some? ==> r.value == entry.fields[key]
  {
    if entry.JObj? && key in entry.fields then Some(entry.fields[key]) else None
  }

  /** `entry.get(key)` as Python sees it: a missing key reads as `None`. */
  function FieldValue(entry: JValue, key: string): JValue {
    Field(entry, key).GetOr(JNull)
  }
}
