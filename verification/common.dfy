/** Small shared vocabulary: optional values, replies with an HTTP-style
    failure, and JavaScript truthiness of request fields. */
module Common {

  datatype Option<+T> = None | Some(value: T)

  /** A controller failure: the HTTP status code and the `message` text the
      JSON body carries. */
  datatype Fault = Fault(code: nat, message: string)

  datatype Result<+T> = Success(value: T) | Failure(fault: Fault)

  /** Identifiers are the strings the client and the database exchange. */
  type UserId = string

  /** A request field as it arrives in a JSON body or query: absent, or a
      string. `Present` is JavaScript truthiness for such a field: an absent
      field and the empty string are both falsy. */
  predicate Present(f: Option<string>) {
    f.Some? && f.value != ""
  }
}
