/**
 * The JavaScript values the backend and the frontend pass around, reduced to
 * what their guards can observe: a value that may be `undefined` or `null`,
 * a number that may be `NaN`, and the outcome of a call that may throw.
 */
module JsValues {

  /** A value of type T that may also be `undefined` (absent) or `null`.
      The two are kept apart because the source tells them apart
      (`dto.marks !== undefined` lets `null` through). */
  datatype Input<+T> = Undefined | Null | Defined(value: T)

  /** A JavaScript number. Only integers are modelled; `NaN` stands for the
      result of converting a non-numeric value. */
  datatype Numeric = NaN | Num(n: int)

  /** A value that may be missing, where the source does not distinguish
      `null` from `undefined` (nullable columns, optional results). */
  datatype Option<+T> = None | Some(value: T)

  /** The outcome of calling code that may throw: a repository query, a
      property accessor, an HTTP call. */
  datatype Call<+T> = Returned(value: T) | Threw(reason: string)

  /** JavaScript truthiness of a string: present and not the empty string. */
  predicate Truthy(s: Input<string>) {
    s.Defined? && s.value != ""
  }

  /** `Input` to `Option`: both `null` and `undefined` become `None`. */
  function ToOption<T>(x: Input<T>): (r: Option<T>)
    ensures r.Some? <==> x.Defined?
    ensures r.Some? ==> r.value == x.value
  {
    if x.Defined? then Some(x.value) else None
  }
}
