/**
  The values JSON.parse can return and JSON.stringify can write. Numbers are
  exact reals: the text syntax of JSON and the rounding of IEEE-754 doubles
  are not part of this model, and stringify/parse is taken to be the identity
  on these values.
 */
module Json {

  datatype JValue =
    | JNull
    | JBool(b: bool)
    | JNum(n: real)
    | JStr(s: string)
    | JArray(elems: seq<JValue>)
    | JObject(fields: map<string, JValue>)
}
