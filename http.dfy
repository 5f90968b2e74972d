/** What a Flask route hands back: a status code and a JSON body. */
module Http {
  import opened Optional

  datatype Reply<B> = Reply(status: int, body: B)

  /**
   * Python truthiness of a request field read with `data.get(key)`: a missing
   * key gives None, and the empty string is falsy too.
   */
  predicate Present(field: Option<string>) {
    field.Some? && field.value != ""
  }
}
