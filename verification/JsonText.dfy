/** JSON values and the library that writes and reads them. */
module JsonText {
  import opened Basics

  datatype Json = Null | Text(text: Bytes) | Object(fields: map<Bytes, Json>)

  /** What the program relies on: parsing undoes dumping, and the bare word `stop` is not a JSON text.
      `parse` has no value on a malformed text, where the library throws. */
  datatype JsonCodec = JsonCodec(dump: Json -> Bytes, parse: Bytes -> Option<Json>) {
    ghost predicate Valid() { forall j :: parse(dump(j)) == Some(j) && dump(j) != "stop" }

    predicate Readable(text: Bytes) { parse(text).Some? }
  }
}
