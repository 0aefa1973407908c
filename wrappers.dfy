/** Small value types shared by the models of the server and of the client. */
module Wrappers {

  /** A value that may be absent: a missing request field, an empty map lookup. */
  datatype Option<+T> = None | Some(value: T)

  /** JavaScript truthiness of a field that is either absent or a string:
      `undefined`, `null` and the empty string are falsy, every other string is truthy. */
  predicate Truthy(field: Option<string>)
  {
    field.Some? && field.value != ""
  }

  /** A field is truthy exactly when it holds a string of at least one character. */
  lemma TruthyIsNonEmpty(field: Option<string>)
    ensures Truthy(field) <==> field.Some? && |field.value| > 0
    ensures !Truthy(None) && !Truthy(Some(""))
  {
  }
}
