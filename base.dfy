/** Value shapes shared by every module of the model: optional values, results that
    stand for a raised Python exception, and the loosely typed values that the
    service layer reads out of database rows and request bodies. */
module Base {

  datatype Option<+T> = None | Some(value: T)

  /** `Err` stands for the exception the Python code raises at that point. */
  datatype Result<+T, +E> = Ok(value: T) | Err(error: E)

  /** A dynamically typed cell of a row dict: Python's None, bool, int, str and list. */
  datatype Json = JNull | JBool(b: bool) | JInt(i: int) | JStr(s: string) | JList(items: seq<Json>)

  /** Python truthiness of a cell: None, False, 0, "" and [] are false. */
  predicate Truthy(v: Json)
  {
    match v
    case JNull => false
    case JBool(b) => b
    case JInt(i) => i != 0
    case JStr(s) => s != ""
    case JList(xs) => xs != []
  }
}
