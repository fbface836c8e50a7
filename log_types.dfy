/** Values shared by the three stages of the log cleaner: what json.loads
    yields, the four-field record clean_log_data builds, and the errors that
    abort a file. */
module LogTypes {

  datatype Option<+T> = None | Some(value: T)

  datatype Result<+T, +E> = Ok(value: T) | Err(error: E)

  /** A JSON value as the parser returns it. A number is kept as a decimal
      mantissa and exponent (mantissa * 10^exponent); nothing in the model
      computes with it. */
  datatype Json =
    | JNull
    | JBool(b: bool)
    | JNum(mantissa: int, exponent: int)
    | JStr(s: string)
    | JArr(items: seq<Json>)
    | JObj(members: seq<(string, Json)>)

  /** A parsed log line: the object's name/value pairs in insertion order,
      which is the order dict.items() iterates them in. */
  type Obj = seq<(string, Json)>

  /** The `entry` dictionary of clean_log_data: TimeStamp, Key, Value, Data.
      Value and Data hold whatever JSON value the log line carried. */
  datatype Record = Record(timeStamp: string, key: string, value: Json, data: Json)

  /** Every field starts as the empty string ''. */
  const EmptyRecord: Record := Record("", "", JStr(""), JStr(""))

  /** Why extracting the records of one file raised. */
  datatype Fault =
    | NoItems                 // the entry is None, which has no .items()
    | BadTimestamp(ts: Json)  // float() or the date conversion raised on this `$ts` value

  /** get_usage_details reports the failing path and re-raises the fault. */
  datatype FileFault = FileFault(path: string, fault: Fault)
}
