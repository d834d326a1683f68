/** Python runtime values as they occur in the loosely-typed event dictionaries
    that the extractor produces and the calendar manager consumes. */
module PyValues {

  datatype Option<+T> = None | Some(value: T)

  /** The Python exceptions that the modelled code raises and then catches. */
  datatype PyError = ValueError | TypeError | OverflowError

  /** A computation that either returns a value or raises. */
  datatype Result<+T> = Ok(value: T) | Err(error: PyError)

  /** A value stored under a key of an event dictionary (decoded from JSON).
      Strings and None are modelled exactly; every other value (a number, a
      boolean, a list, a nested dictionary) is characterised by its truth value
      and by the text that str() renders for it. */
  datatype Value = Null | Str(s: string) | Other(truthy: bool, text: string)

  /** Python truthiness: None and "" are false. */
  predicate Truthy(v: Value) {
    match v
    case Null => false
    case Str(s) => s != ""
    case Other(t, _) => t
  }

  /** What an f-string interpolates for the value, that is str(v). */
  function Render(v: Value): string {
    match v
    case Null => "None"
    case Str(s) => s
    case Other(_, text) => text
  }

  /** An event record as a dictionary from field names to values. */
  type Event = map<string, Value>

  /** event.get(key, default) */
  function Get(e: Event, key: string, default: Value): Value {
    if key in e then e[key] else default
  }
}
