/** The values `json.load` produces. Object keys are unordered here; numbers are integers. */
module JsonData {

  datatype Json =
    | JNull
    | JBool(b: bool)
    | JNum(n: int)
    | JStr(s: string)
    | JArr(elems: seq<Json>)
    | JObj(fields: map<string, Json>)
}
