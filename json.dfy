/** JSON values as the client receives them in response bodies and keeps
    them in storage. JSON.stringify followed by JSON.parse gives a value of
    this kind back unchanged, so the model stores the value itself in place
    of its text. */
module Json {

  datatype Value =
    | JNull
    | JBool(b: bool)
    | JNum(n: int)
    | JStr(s: string)
    | JArr(items: seq<Value>)
    | JObj(fields: map<string, Value>)
}
