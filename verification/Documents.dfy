/** Decoded JSON documents and raw JSON messages. */
module Documents {

  /**
   * A decoded document.  A number is held by the text that identifies it: its
   * literal where the decoder keeps literals, its shortest float text where it
   * decodes to a float.
   */
  datatype Json =
    | Null
    | Bool(value: bool)
    | Number(text: string)
    | String(chars: string)
    | Array(items: seq<Json>)
    | Object(fields: map<string, Json>)

  datatype Option<+T> = None | Some(value: T)

  datatype Result<+T> = Success(value: T) | Failure
}
