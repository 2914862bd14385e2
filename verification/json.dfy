/**
 The JSON values the three services read from request bodies and write back in
 responses.
 */
module Json {

  /** A JSON scalar. Floats, arrays and nested objects are not modelled. */
  datatype Json = JNull | JBool(b: bool) | JNum(n: int) | JStr(s: string)

  type Object = map<string, Json>

  /**
   What `request.get_json()` hands a handler: `None` (the body is the JSON literal `null`)
   or a JSON object.
   */
  datatype Body = NoBody | Fields(fields: Object) {

    /** Python's `not data`: a `null` body, or an object with no keys. */
    predicate IsEmpty() {
      NoBody? || fields == map[]
    }

    /** Python's `key in data` on a body that is an object. */
    predicate Has(key: string) {
      Fields? && key in fields
    }
  }

  /** Python's `data.get(key, default)`. */
  function GetOr(o: Object, key: string, default: Json): Json {
    if key in o then o[key] else default
  }

  /**
   A column written as `data.get(key, current)` ends up holding `updated`: a key present
   in the body overwrites the column, an absent key leaves it as it was.
   */
  predicate Overwrites(o: Object, key: string, current: Json, updated: Json) {
    if key in o then updated == o[key] else updated == current
  }
}
