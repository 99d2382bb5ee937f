/**
 * Dynamic values: the `Any` that the execution core passes around in its
 * dictionaries (execution context, log payloads, trace maps).
 */
module Values {

  /** Python's `X | None`. */
  datatype Option<+T> = None | Some(value: T)

  /**
   * A JSON-like value. A Python dict keeps its insertion order, so a
   * dictionary is an ordered sequence of key/value entries.
   */
  datatype Value =
    | Null
    | Bool(b: bool)
    | Int(i: int)
    | Str(s: string)
    | List(items: seq<Value>)
    | Dict(entries: seq<(string, Value)>)

  /** Python's truth value of a value (`if v:`): only the falsy constants are false. */
  predicate Truthy(v: Value)
    ensures Truthy(v) <==>
              v != Null && v != Bool(false) && v != Int(0) && v != Str("") && v != List([]) && v != Dict([])
  {
    match v
    case Null => false
    case Bool(b) => b
    case Int(i) => i != 0
    case Str(s) => s != []
    case List(items) => items != []
    case Dict(entries) => entries != []
  }

  /** The keys of a dictionary, in order. */
  function KeysOf(entries: seq<(string, Value)>): (ks: seq<string>)
    ensures |ks| == |entries|
    ensures forall i :: 0 <= i < |entries| ==> ks[i] == entries[i].0
  {
    seq(|entries|, i requires 0 <= i < |entries| => entries[i].0)
  }
}
