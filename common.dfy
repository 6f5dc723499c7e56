/** Shared vocabulary of the ChatterBox model: optional values, request
    fields with JavaScript truthiness, and HTTP replies. */
module Common {

  datatype Option<+T> = None | Some(value: T)

  /** Database identifiers (UUIDs in the source) are opaque strings. */
  type Id = string

  /** A field of a request body, query string or header: `None` when the
      client did not send it (`undefined`), otherwise the text it sent. */
  type Field = Option<string>

  /** JavaScript truthiness of a string-valued field: `undefined` and `''`
      are falsy, every other string is truthy. */
  predicate Truthy(f: Field)
  {
    f.Some? && f.value != ""
  }

  /** `x || null` on a string field: a falsy value becomes `null`. */
  function OrNull(f: Field): (r: Option<Id>)
    ensures r.Some? <==> Truthy(f)
    ensures r.Some? ==> r == f && r.value != ""
  {
    if Truthy(f) then f else None
  }

  /** What a request handler sends back. Every handler of the core answers
      through `res.status(..).json(..)` or `res.json(..)` exactly once;
      `Refusal` carries the status and the fixed message text of an early
      return, and `InternalError` is the catch-all 500 whose text is the
      thrown error's message. */
  datatype Reply<+T> =
    | Answer(status: int, body: T)
    | Refusal(status: int, message: string)
    | InternalError
}
