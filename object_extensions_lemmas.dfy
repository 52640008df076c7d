/**
 * Properties relating the validation helpers to one another: when the predicate is
 * consulted, how the overloads agree, and how the throwing helpers follow the boolean ones.
 */
module ObjectExtensionsLemmas {
  import opened Wrappers
  import opened Errors
  import opened ObjectExtensions

  /** A null value is judged without the predicate: any two predicates give the same check. */
  lemma MissingValueIgnoresPredicate<T>(p: T -> bool, q: T -> bool, parameterName: string,
                                        errorMessage: Option<string>,
                                        hasValue: Option<string> -> bool)
    ensures IsInvalidParameter(None, p, parameterName, errorMessage, hasValue)
         == IsInvalidParameter(None, q, parameterName, errorMessage, hasValue)
    ensures IsInvalidParameterNamed(None, p, parameterName, hasValue)
         == IsInvalidParameterNamed(None, q, parameterName, hasValue)
  {
  }

  /**
   * The predicate decides the outcome exactly when the value is present: for a present
   * value some predicate accepts it and another rejects it, for a null value none can
   * change the outcome.
   */
  lemma PredicateMattersIffPresent<T>(value: Option<T>, parameterName: string,
                                      errorMessage: Option<string>,
                                      hasValue: Option<string> -> bool)
    ensures value.Some? <==>
      exists p: T -> bool, q: T -> bool ::
        IsInvalidParameter(value, p, parameterName, errorMessage, hasValue)
        != IsInvalidParameter(value, q, parameterName, errorMessage, hasValue)
  {
    if value.Some? {
      var accept := (x: T) => true;
      var reject := (x: T) => false;
      assert !IsInvalidParameter(value, accept, parameterName, errorMessage, hasValue).invalid;
      assert IsInvalidParameter(value, reject, parameterName, errorMessage, hasValue).invalid;
    } else {
      forall p: T -> bool, q: T -> bool
        ensures IsInvalidParameter(value, p, parameterName, errorMessage, hasValue)
             == IsInvalidParameter(value, q, parameterName, errorMessage, hasValue)
      {
        MissingValueIgnoresPredicate(p, q, parameterName, errorMessage, hasValue);
      }
    }
  }

  /**
   * With a message, a null value and a rejected value are reported alike: the error
   * is determined by the boolean verdict alone.
   */
  lemma ErrorDeterminedByVerdict<T>(v: Option<T>, p: T -> bool, w: Option<T>, q: T -> bool,
                                    parameterName: string, errorMessage: Option<string>,
                                    hasValue: Option<string> -> bool)
    requires IsInvalidParameter(v, p, parameterName, errorMessage, hasValue).invalid
          == IsInvalidParameter(w, q, parameterName, errorMessage, hasValue).invalid
    ensures IsInvalidParameter(v, p, parameterName, errorMessage, hasValue)
         == IsInvalidParameter(w, q, parameterName, errorMessage, hasValue)
  {
  }

  /**
   * The overload without a message behaves as the overload given a null message,
   * provided a null string has no value.
   */
  lemma NamedOverloadIsNullMessage<T>(value: Option<T>, pred: T -> bool, parameterName: string,
                                      hasValue: Option<string> -> bool)
    requires !hasValue(None)
    ensures IsInvalidParameterNamed(value, pred, parameterName, hasValue)
         == IsInvalidParameter(value, pred, parameterName, None, hasValue)
  {
  }

  /**
   * `IsNotValuedParameter` is the generic check with `HasValue` as its pred,
   * provided a null string has no value; both overloads without a message agree too.
   */
  lemma NotValuedIsHasValueCheck(value: Option<string>, parameterName: string,
                                 errorMessage: Option<string>, hasValue: Option<string> -> bool)
    requires !hasValue(None)
    ensures IsNotValuedParameter(value, parameterName, errorMessage, hasValue)
         == IsInvalidParameter(value, (s: string) => hasValue(Some(s)), parameterName,
                               errorMessage, hasValue)
    ensures IsNotValuedParameterNamed(value, parameterName, hasValue)
         == IsInvalidParameterNamed(value, (s: string) => hasValue(Some(s)), parameterName,
                                    hasValue)
  {
  }

  /** The throwing helpers throw exactly when their boolean counterparts report invalid. */
  lemma ThrowIffInvalid<T>(value: Option<T>, pred: Option<T> -> bool, parameterName: string,
                           errorMessage: Option<string>, hasValue: Option<string> -> bool)
    ensures ThrowIfInvalidParameter(value, pred, parameterName, errorMessage, hasValue).Threw?
        <==> IsInvalidParameter(value, (v: T) => pred(Some(v)), parameterName,
                                errorMessage, hasValue).invalid
  {
  }

  lemma ThrowIffNotValued(value: Option<string>, parameterName: string,
                          errorMessage: Option<string>, hasValue: Option<string> -> bool)
    ensures ThrowIfNotValuedParameter(value, parameterName, errorMessage, hasValue).Threw?
        <==> IsNotValuedParameter(value, parameterName, errorMessage, hasValue).invalid
  {
  }
}
