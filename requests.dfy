/** What a handler sees of a request: the `Authorization` header and the properties of the
    JSON body, each of which may be absent (`undefined`), `null`, or a value. */
module Requests {
  import opened Wrappers

  /** One property of a parsed JSON body. */
  datatype Field<T> = Undefined | Null | Given(value: T)

  /** The outcome of `JSON.parse` on the request body: the properties the handler destructures,
      or the message of the `SyntaxError` it throws. A handler that parses `event.body || "{}"`
      sees a missing body as `Body` with every property `Undefined`; one that parses
      `event.body` alone sees it as `Malformed`. */
  datatype Parsed<T> = Body(fields: T) | Malformed(message: string)

  /** JavaScript truthiness of a string-valued property: `undefined`, `null` and `""` are falsy. */
  predicate TruthyText(f: Field<string>) {
    f.Given? && f.value != ""
  }

  /** JavaScript truthiness of a number-valued property: `undefined`, `null` and `0` are falsy. */
  predicate TruthyNum(f: Field<int>) {
    f.Given? && f.value != 0
  }

  /** How the database driver binds a JavaScript value to a nullable column: `undefined` and
      `null` both become SQL NULL. */
  function OrNull<T>(f: Field<T>): (r: Option<T>)
    ensures r.Some? <==> f.Given?
    ensures f.Given? ==> r.value == f.value
  {
    if f.Given? then Some(f.value) else None
  }

  /** `a === b` between a body property and an environment variable that may be unset. */
  predicate StrictEquals(f: Field<string>, env: Option<string>) {
    match env
    case None => f.Undefined?
    case Some(v) => f == Given(v)
  }
}
