/** The values `json.loads` produces (RFC 8259, section 3). Their grammar is
    not modelled: the driver never looks inside a value, it only reads and
    sets keys of the top-level object. */
module Json {

  datatype Value =
    | Null
    | Bool(b: bool)
    | Number(literal: string)   // kept as written; no floating point
    | Str(s: string)
    | Array(items: seq<Value>)
    | Object(fields: map<string, Value>)

  /** A JSON object (RFC 8259, section 4) decoded to a Python `dict`. */
  type Record = map<string, Value>
}
