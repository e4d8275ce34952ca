/**
 * `NullSafetyGuard`: small total guards over values that may be `null` or
 * `undefined`. Each either returns a value or throws a bad-request
 * exception; none keeps state.
 */
module NullSafetyGuard {
  import opened JsValues
  import opened JsStrings
  import opened Exceptions

  /** The message of the error `requireNonNull` raises for field `fieldName`. */
  function NullMessage(fieldName: string): string {
    fieldName + " cannot be null or undefined"
  }

  /** `requireNonNull(value, fieldName)`: the value itself when present,
      bad-request when it is `null` or `undefined`. */
  function RequireNonNull<T>(value: Input<T>, fieldName: string): (r: Result<T>)
    ensures r.Success? <==> value.Defined?
    ensures r.Success? ==> r.value == value.value
    ensures r.Failure? ==> r.error == BadRequest(NullMessage(fieldName))
  {
    if value.Defined? then Success(value.value)
    else Failure(BadRequest(NullMessage(fieldName)))
  }

  /** `safeAccess(obj, accessor, defaultValue)`: the accessor's result when
      the object is present and the accessor returns a present value;
      otherwise (absent object, throwing accessor, absent result) the
      default. */
  function SafeAccess<T, R>(obj: Input<T>, accessor: T -> Call<Input<R>>, defaultValue: R): (r: R)
    ensures obj.Defined? && accessor(obj.value).Returned? && accessor(obj.value).value.Defined? ==>
              r == accessor(obj.value).value.value
    ensures !(obj.Defined? && accessor(obj.value).Returned? && accessor(obj.value).value.Defined?) ==>
              r == defaultValue
  {
    if obj.Defined? then
      match accessor(obj.value)
      case Returned(Defined(v)) => v
      case _ => defaultValue
    else defaultValue
  }

  /** `safeArrayLength(array)`: 0 when absent, the length otherwise. */
  function SafeArrayLength<T>(items: Input<seq<T>>): (n: nat)
    ensures items.Defined? ==> n == |items.value|
    ensures !items.Defined? ==> n == 0
  {
    if items.Defined? then |items.value| else 0
  }

  /** `safeStringLength(str)`: 0 when absent, the length otherwise. */
  function SafeStringLength(str: Input<string>): (n: nat)
    ensures str.Defined? ==> n == |str.value|
    ensures !str.Defined? ==> n == 0
  {
    if str.Defined? then |str.value| else 0
  }

  /** `isNullOrEmpty(str)`: `!str || str.trim().length === 0`, that is,
      the string is absent or made only of whitespace. */
  function IsNullOrEmpty(str: Input<string>): (b: bool)
    ensures b <==> !str.Defined? || AllWhitespace(str.value)
  {
    if str.Defined? then TrimEmptyIffAllWhitespace(str.value); str.value == "" || |Trim(str.value)| == 0
    else true
  }

  /** `safeString(str, defaultValue)`: `str ?? defaultValue`; a present
      string, even the empty one, is returned as it is. */
  function SafeString(str: Input<string>, defaultValue: string): (r: string)
    ensures str.Defined? ==> r == str.value
    ensures !str.Defined? ==> r == defaultValue
  {
    if str.Defined? then str.value else defaultValue
  }

  /** `safeNumber(value, defaultValue)`: never throws; the default for an
      absent or non-numeric value, the number otherwise. */
  function SafeNumber(value: Input<Numeric>, defaultValue: int): (r: int)
    ensures value.Defined? && value.value.Num? ==> r == value.value.n
    ensures !(value.Defined? && value.value.Num?) ==> r == defaultValue
  {
    if value.Defined? && value.value.Num? then value.value.n else defaultValue
  }

  /** `validateAndCleanString(input, fieldName, maxLength)`: the trimmed
      input, provided it is present, not only whitespace and at most
      `maxLength` long after trimming; bad-request otherwise. */
  function ValidateAndCleanString(input: Input<string>, fieldName: string, maxLength: int): (r: Result<string>)
    ensures r.Success? <==> input.Defined? && !AllWhitespace(input.value) && |Trim(input.value)| <= maxLength
    ensures r.Success? ==> r.value == Trim(input.value) && 1 <= |r.value| <= maxLength && IsTrimmed(r.value)
    ensures r.Failure? ==> r.error.BadRequest?
  {
    if IsNullOrEmpty(input) then
      Failure(BadRequest(fieldName + " is required and cannot be empty"))
    else
      var cleanInput := Trim(input.value);
      TrimEmptyIffAllWhitespace(input.value);
      TrimIsCore(input.value);
      if |cleanInput| == 0 then
        Failure(BadRequest(fieldName + " cannot be only whitespace"))
      else if |cleanInput| > maxLength then
        Failure(BadRequest(fieldName + " cannot exceed " + IntToString(maxLength) + " characters"))
      else
        Success(cleanInput)
  }

  /** A trimmed string of acceptable length passes validation unchanged. */
  lemma ValidateAndCleanStringAccepts(clean: string, fieldName: string, maxLength: int)
    requires IsTrimmed(clean) && 1 <= |clean| <= maxLength
    ensures ValidateAndCleanString(Defined(clean), fieldName, maxLength) == Success(clean)
  {
    TrimmedNonEmpty(clean);
    assert TrimStart(clean) == clean;
    assert TrimEnd(clean) == clean;
  }

  /** Validating a cleaned string again gives the same string back. */
  lemma {:induction false} ValidateAndCleanStringIdempotent(input: Input<string>, fieldName: string, maxLength: int)
    requires ValidateAndCleanString(input, fieldName, maxLength).Success?
    ensures var clean := ValidateAndCleanString(input, fieldName, maxLength).value;
            ValidateAndCleanString(Defined(clean), fieldName, maxLength) == Success(clean)
  {
    var clean := ValidateAndCleanString(input, fieldName, maxLength).value;
    ValidateAndCleanStringAccepts(clean, fieldName, maxLength);
  }

  /** How `${id}` prints an id in an error message. */
  function Display(id: Input<Numeric>): (s: string)
    ensures id.Defined? && id.value.Num? ==> s == IntToString(id.value.n)
  {
    match id
    case Undefined => "undefined"
    case Null => "null"
    case Defined(NaN) => "NaN"
    case Defined(Num(n)) => IntToString(n)
  }

  /** The message of the bad-request `validateId` throws. */
  function InvalidIdMessage(entityName: string, id: Input<Numeric>): string {
    "Valid " + entityName + " ID is required. Received: " + Display(id)
  }

  /** `validateId(id, entityName)`: the id itself when it is a number
      greater than zero; bad-request for `null`, `undefined`, `NaN` and
      ids at or below zero. */
  function ValidateId(id: Input<Numeric>, entityName: string): (r: Result<int>)
    ensures r.Success? <==> id.Defined? && id.value.Num? && id.value.n > 0
    ensures r.Success? ==> r.value == id.value.n
    ensures r.Failure? ==> r.error == BadRequest(InvalidIdMessage(entityName, id))
  {
    if !id.Defined? || id.value.NaN? || id.value.n <= 0 then
      Failure(BadRequest(InvalidIdMessage(entityName, id)))
    else
      Success(id.value.n)
  }

  /** `safeExecute(fn, fallback)`, given the outcome of calling `fn`: its
      result when it returns a present value, the fallback when it throws
      or returns `null`/`undefined`. */
  function SafeExecute<T>(outcome: Call<Input<T>>, fallback: T): (r: T)
    ensures outcome.Returned? && outcome.value.Defined? ==> r == outcome.value.value
    ensures !(outcome.Returned? && outcome.value.Defined?) ==> r == fallback
  {
    match outcome
    case Returned(Defined(v)) => v
    case _ => fallback
  }
}
