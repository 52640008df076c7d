# Parameter validation helpers of `Common.Extensions.ObjectExtensions`

This project models the argument-checking extension methods that the application and
domain layers use to guard their inputs. Given a possibly-null value, a validity
predicate, the parameter's name and an optional error message, each helper decides
whether the argument is invalid. It reports that decision twice: as its boolean result,
and as an `out Error` that is a `Validation` error when invalid and `NoError` otherwise.
The throwing variants raise `ArgumentOutOfRangeException` exactly when the matching
boolean helper reports "invalid".

Layout:

- `wrappers.dfy`: module `Wrappers`, `Option<T>` for the source's nullable `T?` (`None` is `null`).
- `errors.dfy`: module `Errors`, the two `Error` values the helpers produce (`Validation`
  with an optional message, and the `NoError` sentinel), the `ArgumentOutOfRange`
  exception value and `Completion` (returned normally, or threw).
- `object_extensions.dfy`: module `ObjectExtensions`, one pure function per helper. The
  boolean result and the `out Error` come back together as a `Check(invalid, error)`.
  C# overloads get distinct names: the overloads without an `errorMessage` carry the
  suffix `Named`, and the private `Func<bool>` overload is `IsInvalidWhen`.
- `object_extensions_lemmas.dfy`: module `ObjectExtensionsLemmas`, the properties that
  relate the helpers to one another.

The string extension `HasValue()` is defined outside the modelled file. Every helper that
consults it takes it as a parameter `hasValue: Option<string> -> bool`, and nothing is
assumed about it. Where a property holds only if a null string has no value, the
lemma says so with `requires !hasValue(None)`.

The `Error` type is not defined in the modelled file either. The model keeps the two
values the helpers use, `Error.Validation(...)` and `Error.NoError` (the doc comments at
ObjectExtensions.cs:29-31 promise a validation error when invalid). The validation
message is optional, because `Error.Validation(errorMessage)` is called with a nullable
string.

## Model

| member | source | states |
|---|---|---|
| `ObjectExtensions.Exists` | src/Common/Extensions/ObjectExtensions.cs:24-27 | `Exists` is the exact complement of `NotExists` |
| `ObjectExtensions.NotExists` | src/Common/Extensions/ObjectExtensions.cs:86-89 | `NotExists` holds exactly when the instance is null |
| `ObjectExtensions.ValidationError` | src/Common/Extensions/ObjectExtensions.cs:142-144 | message-selection rule: the error is always a validation error; it carries the caller's message when that message has a value, and the parameter name otherwise |
| `ObjectExtensions.IsInvalidWhen` | src/Common/Extensions/ObjectExtensions.cs:136-150 | the private `Func<bool>` overload: invalid exactly when the test fails; the boolean is true exactly when the error is not `NoError`; when invalid, the error follows the message-selection rule |
| `ObjectExtensions.IsInvalidParameter` | src/Common/Extensions/ObjectExtensions.cs:33-45 | a null value is always invalid; a present value is invalid exactly when the predicate rejects it; present and accepted gives `false` and `NoError`; boolean and error agree; the error follows the message-selection rule on both the null path and the rejection path |
| `ObjectExtensions.IsInvalidParameterNamed` | src/Common/Extensions/ObjectExtensions.cs:51-61 | the overload without a message: a null value yields `true` and a validation error naming the parameter; a present value is invalid exactly when the predicate rejects it; boolean and error agree; a rejected present value gets the message-selection error for a null message; when `HasValue(null)` is false, every invalid outcome names the parameter |
| `ObjectExtensions.IsNotValuedParameter` | src/Common/Extensions/ObjectExtensions.cs:67-71 | invalid exactly when `HasValue(value)` is false, with no null test of its own; boolean and error agree; the error follows the message-selection rule |
| `ObjectExtensions.IsNotValuedParameterNamed` | src/Common/Extensions/ObjectExtensions.cs:77-80 | invalid exactly when `HasValue(value)` is false; boolean and error agree; when invalid, the error is the message-selection error for a null message, which names the parameter when `HasValue(null)` is false |
| `ObjectExtensions.ThrowIfInvalidParameter` | src/Common/Extensions/ObjectExtensions.cs:116-123 | throws exactly when the value is null or the nullable-accepting predicate rejects it; the exception is `ArgumentOutOfRangeException(parameterName, errorMessage)` with the caller's raw, possibly null, message; otherwise it returns with no effect |
| `ObjectExtensions.ThrowIfNotValuedParameter` | src/Common/Extensions/ObjectExtensions.cs:128-134 | throws `ArgumentOutOfRangeException(parameterName, errorMessage)` exactly when `HasValue(value)` is false; otherwise it returns |
| `ObjectExtensionsLemmas.MissingValueIgnoresPredicate` | src/Common/Extensions/ObjectExtensions.cs:36-42 | for a null value, both `IsInvalidParameter` overloads give the same result whatever the predicate, so the predicate is never consulted |
| `ObjectExtensionsLemmas.PredicateMattersIffPresent` | src/Common/Extensions/ObjectExtensions.cs:33-45 | the predicate can change the outcome if and only if the value is present |
| `ObjectExtensionsLemmas.ErrorDeterminedByVerdict` | src/Common/Extensions/ObjectExtensions.cs:36-44 | with a message, a null value and a rejected value are reported alike: two checks with the same boolean have the same error |
| `ObjectExtensionsLemmas.NamedOverloadIsNullMessage` | src/Common/Extensions/ObjectExtensions.cs:51-61 | when `HasValue(null)` is false, the overload without a message equals the message overload given a null message |
| `ObjectExtensionsLemmas.NotValuedIsHasValueCheck` | src/Common/Extensions/ObjectExtensions.cs:67-80 | when `HasValue(null)` is false, both `IsNotValuedParameter` overloads equal the generic check with `HasValue` as the predicate |
| `ObjectExtensionsLemmas.ThrowIffInvalid` | src/Common/Extensions/ObjectExtensions.cs:116-123 | `ThrowIfInvalidParameter` throws exactly when `IsInvalidParameter` reports invalid for the same arguments |
| `ObjectExtensionsLemmas.ThrowIffNotValued` | src/Common/Extensions/ObjectExtensions.cs:128-134 | `ThrowIfNotValuedParameter` throws exactly when `IsNotValuedParameter` reports invalid |

## Left out

- `Convert` (ObjectExtensions.cs:12-18) and both `PopulateWith` overloads (ObjectExtensions.cs:96-111) are not modelled. They delegate to AutoMapper and to reflection over object dictionaries, and neither is part of this model.
- `HasValue` for strings is not part of this model. It is a parameter, and no definition is guessed for it.
- The `Error` type's own definition is not part of this model. Only its `Validation` and `NoError` values, which the helpers produce, are modelled.
- A non-nullable value type is never null, so such a value is always `Some`. A valueless nullable value type boxes to null and is `None`, like a null reference.
- The caller's predicate and `HasValue` are modelled as pure, total functions. An exception thrown by the predicate, which would propagate out of the helpers, and any side effect of the predicate are not modelled.
- Exceptions are modelled as a returned `Completion`. Stack unwinding and the exception type hierarchy are not modelled.
- The rest of the repository is not modelled: module registration, the e-mail relay worker and its Azure Function, integration tests and DTOs. They consist of framework registration calls and thin wrappers over service clients that are not part of this model.
