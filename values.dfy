/** The values a field holds and the callables a field stores, as the record abstraction sees them. */
module Values {

  datatype Option<+T> = None | Some(value: T)

  /** A stored value: `None` is JavaScript `undefined`, every other value is a string. */
  type Value = Option<string>

  /** JavaScript truthiness on `Value`: `undefined` and the empty string are falsy. */
  predicate Truthy(v: Value) {
    v.Some? && v.value != ""
  }

  /** The object a validator returns, `{isValid, error}`; an `error` of `""` stands for a missing or empty `error` property. */
  datatype Verdict = Verdict(isValid: bool, error: string)

  /** A formatter slot: `Some(f)` when it holds a function, `None` when it holds anything else (after `format(undefined)`, say). */
  type Formatter = Option<Value -> Value>

  /** One entry of a validator list: `Some(f)` for a function, `None` for any other value (such as `{}`). */
  type Validator = Option<Value -> Verdict>

  /** How an operation that may throw completes: `Thrown(m)` is `throw new Error(m)`. */
  datatype Outcome = Ok | Thrown(message: string)
}
