/**
 * JSON values as the Python code sees them after `json.load`: a record is a
 * dict from keys to values. Strings are inspected character by character;
 * a number or boolean is known by the text the database connector sends for
 * it and by its truthiness; an array or object only by its truthiness.
 */
module Json {
  datatype Value =
    | Null                              // JSON null, Python None
    | Str(s: string)                    // JSON string
    | Scalar(text: string, truthy: bool) // JSON number or boolean, with its SQL text
    | Composite(truthy: bool)           // JSON array or object

  /** A JSON object, decoded as a Python dict. */
  type Record = map<string, Value>

  /** The key of a record's start date, read by both the cleaner and the loader. */
  const START_DATE := "start_date"

  /** Python's `not v`: None, "" and the falsy others (0, false, [], {}). */
  predicate IsFalsy(v: Value)
    ensures v.Null? ==> IsFalsy(v)
    ensures v.Str? ==> (IsFalsy(v) <==> |v.s| == 0)
  {
    match v
    case Null => true
    case Str(s) => s == ""
    case Scalar(_, t) => !t
    case Composite(t) => !t
  }

  /** `record.get(key)`: a missing key reads as None. */
  function Get(r: Record, key: string): Value
  {
    if key in r then r[key] else Null
  }
}
