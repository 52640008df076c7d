/**
 * The parameter-validation helpers of `Common.Extensions.ObjectExtensions`.
 *
 * Each `IsInvalid...`/`IsNotValued...` helper answers "is this argument invalid?" twice:
 * as its boolean result and as its `out Error` (a `Validation` error when invalid,
 * `NoError` otherwise). Both answers are returned together in a `Check`.
 *
 * The string extension `HasValue` is defined outside this model; every helper that
 * consults it receives it as the parameter `hasValue`, about which nothing is assumed.
 */
module ObjectExtensions {
  import opened Wrappers
  import opened Errors

  /** The boolean result of a validation helper together with its `out Error`. */
  datatype Check = Check(invalid: bool, error: Error)

  /** `Exists`: whether the instance is not null. */
  function Exists<T>(instance: Option<T>): (r: bool)
    ensures r <==> !NotExists(instance)
  {
    instance.Some?
  }

  /** `NotExists`: whether the instance is null. */
  function NotExists<T>(instance: Option<T>): (r: bool)
    ensures r <==> instance == None
  {
    instance.None?
  }

  /**
   * The error reported for an invalid parameter: a validation error carrying the
   * caller's message when that message has a value, and the parameter's name otherwise.
   */
  function ValidationError(parameterName: string, errorMessage: Option<string>,
                           hasValue: Option<string> -> bool): (e: Error)
    ensures e.Validation?
    ensures hasValue(errorMessage) ==> e.message == errorMessage
    ensures !hasValue(errorMessage) ==> e.message == Some(parameterName)
  {
    if hasValue(errorMessage) then Validation(errorMessage) else Validation(Some(parameterName))
  }

  /**
   * The private overload over a `Func<bool>`: evaluates the validity test once; an
   * argument is invalid exactly when the test fails.
   */
  function IsInvalidWhen(isValid: () -> bool, parameterName: string, errorMessage: Option<string>,
                         hasValue: Option<string> -> bool): (r: Check)
    ensures r.invalid <==> !isValid()
    ensures r.invalid <==> r.error != NoError
    ensures r.invalid ==> r.error == ValidationError(parameterName, errorMessage, hasValue)
  {
    var valid := isValid();
    if !valid then
      Check(true, ValidationError(parameterName, errorMessage, hasValue))
    else
      Check(false, NoError)
  }

  /**
   * `IsInvalidParameter(value, pred, parameterName, errorMessage, out error)`:
   * a missing value is invalid whatever the predicate; a present value is invalid
   * exactly when the predicate rejects it.
   */
  function IsInvalidParameter<T>(value: Option<T>, pred: T -> bool, parameterName: string,
                                 errorMessage: Option<string>,
                                 hasValue: Option<string> -> bool): (r: Check)
    ensures value == None ==> r.invalid
    ensures value.Some? ==> (r.invalid <==> !pred(value.value))
    ensures value.Some? && pred(value.value) ==> r == Check(false, NoError)
    ensures r.invalid <==> r.error != NoError
    ensures r.invalid ==> r.error == ValidationError(parameterName, errorMessage, hasValue)
  {
    if NotExists(value) then
      Check(true, ValidationError(parameterName, errorMessage, hasValue))
    else
      IsInvalidWhen(() => pred(value.value), parameterName, errorMessage, hasValue)
  }

  /**
   * `IsInvalidParameter(value, pred, parameterName, out error)`: the overload
   * without a message. A missing value is reported under the parameter's name directly;
   * a rejected value goes through the private overload with a null message.
   */
  function IsInvalidParameterNamed<T>(value: Option<T>, pred: T -> bool, parameterName: string,
                                      hasValue: Option<string> -> bool): (r: Check)
    ensures value == None ==> r == Check(true, Validation(Some(parameterName)))
    ensures value.Some? ==> (r.invalid <==> !pred(value.value))
    ensures r.invalid <==> r.error != NoError
    ensures value.Some? && r.invalid ==> r.error == ValidationError(parameterName, None, hasValue)
    ensures r.invalid && !hasValue(None) ==> r.error == Validation(Some(parameterName))
  {
    if NotExists(value) then
      Check(true, Validation(Some(parameterName)))
    else
      IsInvalidWhen(() => pred(value.value), parameterName, None, hasValue)
  }

  /**
   * `IsNotValuedParameter(value, parameterName, errorMessage, out error)`: the string is
   * invalid exactly when it has no value. There is no null test of its own: a null
   * string is judged by `HasValue` alone.
   */
  function IsNotValuedParameter(value: Option<string>, parameterName: string,
                                errorMessage: Option<string>,
                                hasValue: Option<string> -> bool): (r: Check)
    ensures r.invalid <==> !hasValue(value)
    ensures r.invalid <==> r.error != NoError
    ensures r.invalid ==> r.error == ValidationError(parameterName, errorMessage, hasValue)
  {
    IsInvalidWhen(() => hasValue(value), parameterName, errorMessage, hasValue)
  }

  /** `IsNotValuedParameter(value, parameterName, out error)`: the overload without a message. */
  function IsNotValuedParameterNamed(value: Option<string>, parameterName: string,
                                     hasValue: Option<string> -> bool): (r: Check)
    ensures r.invalid <==> !hasValue(value)
    ensures r.invalid <==> r.error != NoError
    ensures r.invalid ==> r.error == ValidationError(parameterName, None, hasValue)
    ensures r.invalid && !hasValue(None) ==> r.error == Validation(Some(parameterName))
  {
    IsInvalidWhen(() => hasValue(value), parameterName, None, hasValue)
  }

  /**
   * `ThrowIfInvalidParameter(value, pred, parameterName, errorMessage = null)`.
   * Its predicate accepts a nullable value; it throws `ArgumentOutOfRangeException`
   * with the parameter's name and the caller's (possibly null) message exactly when the
   * value is missing or rejected, and otherwise returns with no effect.
   */
  function ThrowIfInvalidParameter<T>(value: Option<T>, pred: Option<T> -> bool,
                                      parameterName: string, errorMessage: Option<string>,
                                      hasValue: Option<string> -> bool): (c: Completion)
    ensures c.Threw? <==> value == None || !pred(value)
    ensures c.Threw? ==> c.exception == ArgumentOutOfRange(parameterName, errorMessage)
  {
    var check := IsInvalidParameter(value, (v: T) => pred(Some(v)), parameterName,
                                    errorMessage, hasValue);
    if check.invalid then Threw(ArgumentOutOfRange(parameterName, errorMessage)) else Returned
  }

  /**
   * `ThrowIfNotValuedParameter(value, parameterName, errorMessage = null)`: throws
   * `ArgumentOutOfRangeException` exactly when the string has no value.
   */
  function ThrowIfNotValuedParameter(value: Option<string>, parameterName: string,
                                     errorMessage: Option<string>,
                                     hasValue: Option<string> -> bool): (c: Completion)
    ensures c.Threw? <==> !hasValue(value)
    ensures c.Threw? ==> c.exception == ArgumentOutOfRange(parameterName, errorMessage)
  {
    var check := IsNotValuedParameter(value, parameterName, errorMessage, hasValue);
    if check.invalid then Threw(ArgumentOutOfRange(parameterName, errorMessage)) else Returned
  }
}
