/** The JSON tree the version manifest and `version.json` are read into. */
module JsonValue {
  /** A parsed JSON element: null, a primitive (string, number or boolean,
      held as the text `getAsString` returns), an array or an object. */
  datatype Json = JNull | JPrim(text: string) | JArr(items: seq<Json>) | JObj(fields: map<string, Json>)
}
