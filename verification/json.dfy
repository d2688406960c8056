/**
 * Decoded JSON values, as Python's `json.loads` returns them, with the few
 * Python behaviours of those values that the gateway depends on: truthiness,
 * hashability (whether a value can be a dictionary key) and `len`.
 */
module JsonValue {

  /** `null` is Python's `None`; numbers are kept integral. */
  datatype Json =
    | JNull
    | JBool(b: bool)
    | JNum(n: int)
    | JStr(s: string)
    | JArr(items: seq<Json>)
    | JObj(fields: map<string, Json>)
  {
    /** Python truthiness: `None`, `False`, `0` and empty containers are false. */
    predicate Truthy()
    {
      match this
      case JNull => false
      case JBool(b) => b
      case JNum(n) => n != 0
      case JStr(s) => s != ""
      case JArr(items) => items != []
      case JObj(fields) => fields != map[]
    }

    /** Lists and dicts cannot be hashed; looking one up in a dict raises `TypeError`. */
    predicate Hashable()
    {
      !JArr? && !JObj?
    }

    /** Whether `len` is defined on the value. */
    predicate HasLen()
    {
      JStr? || JArr? || JObj?
    }

    /** `d.get(key)` on a dict: the value, or `None` when the key is absent. */
    function Get(key: string): (r: Json)
      requires JObj?
      ensures key in fields ==> r == fields[key]
      ensures key !in fields ==> r == JNull
    {
      if key in fields then fields[key] else JNull
    }
  }

  /** A value is truthy exactly when it is not one of Python's falsy values. */
  lemma TruthyMeansNonEmpty(j: Json)
    ensures j.Truthy() <==> j !in {JNull, JBool(false), JNum(0), JStr(""), JArr([]), JObj(map[])}
  {
  }
}
