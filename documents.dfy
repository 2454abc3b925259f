/** The values this connector handles: BSON documents as the driver decodes
    them, the errors it can raise, and the configuration records it reads. */
module Documents {

  datatype Option<+T> = None | Some(value: T) {
    predicate IsFailure() { None? }
    function PropagateFailure<U>(): Option<U> requires None? { None }
    function Extract(): T requires Some? { value }
    function GetOr(default: T): T { if Some? then value else default }
  }

  /** The exceptions the core raises, named after the Java exception classes. */
  datatype Error =
    | ClassCast          // a `(Document)` cast of an array element that is a list
    | IndexOutOfBounds   // `ArrayList.get` or a `String[]` index out of range
    | NumberFormat       // `Integer.parseInt` of a string that is not a 32-bit numeral
    | NoSuchElement      // `Iterator.next` with nothing left
    | Severe(message: string)  // `DataImportHandlerException` with severity SEVERE

  datatype Result<+T> = Ok(value: T) | Err(error: Error) {
    predicate IsFailure() { Err? }
    function PropagateFailure<U>(): Result<U> requires Err? { Err(error) }
    function Extract(): T requires Ok? { value }
  }

  /** A value inside an `org.bson.Document`: arrays are decoded as `ArrayList`,
      sub-documents as `Document`; every other BSON type is a scalar. */
  datatype Value =
    | Null
    | Bool(b: bool)
    | Num(n: int)
    | Str(s: string)
    | Doc(fields: map<string, Value>)
    | Arr(items: seq<Value>)

  /** The two shapes the flattener and the resolver descend into. */
  predicate IsContainer(v: Value) {
    v.Doc? || v.Arr?
  }

  /** `Document.get` / `Map.get`: a missing key reads as null. */
  function Get(m: map<string, Value>, key: string): (v: Value)
    ensures key !in m ==> v == Null
    ensures key in m ==> v == m[key]
  {
    if key in m then m[key] else Null
  }

  /** `new ServerAddress(host, port)`: one server of the connection's seed
      list, with the port as `Integer.parseInt` read it. The host is kept as
      given: the driver's normalisation of it and its `host:port` form are
      not modelled. */
  datatype ServerAddress = ServerAddress(host: string, port: int)

  /** One `<field>` of the entity configuration: the `column` attribute (the
      import framework refuses a field without one) and the optional
      `mongoField` and `dateFormat` attributes. */
  datatype EntityField = EntityField(column: string, mongoField: Option<string>, dateFormat: Option<string>)

  /** A row handed between the stages: a `Map<String, Object>` that the
      transformers update in place. */
  class Row {
    var entries: map<string, Value>

    constructor (entries: map<string, Value>)
      ensures this.entries == entries
    {
      this.entries := entries;
    }
  }
}
