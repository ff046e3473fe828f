/**
 * ParameterValidator: a memoised sweep over the declared parameters that
 * records one exception and the typed value of each parameter that passed.
 *
 * validate's catch block builds `new Error(...)` inside the namespace
 * RREST\Validator, which imports no Error class, so the name resolves to
 * RREST\Validator\Error, a class that does not exist.  As written, a cast
 * that throws therefore ends validate with PHP's class-not-found \Error: the
 * sweep stops where RREST::assertHTTPParameters stops.  The class below
 * follows that code; Sweep and SweepOne state the loop as intended, with
 * RREST\Error imported, where the cast exception is recorded and the sweep
 * goes on.
 */
module ParameterValidation {
  import opened Php
  import opened Errors
  import opened Casting
  import opened Parameters
  import opened ParameterSweep
  import opened AssertParameters

  /**
   * The exception validate leaves once the sweep completes: the gathered
   * assertion errors when there are any, otherwise the last cast failure.
   */
  function FinalException(xs: seq<Assertion>, castFailure: Option<Failure>): Option<Failure>
  {
    if Merged(xs) != [] then Some(InvalidParameter(Merged(xs))) else castFailure
  }

  /**
   * As intended, a fresh validator (no exception recorded before) fails iff
   * some parameter was rejected or some cast threw.
   */
  lemma ValidationFailsIff(env: Env)
    requires Sound(env) && NoRaiseBefore(env, |env.params|)
    ensures FinalException(Assertions(env, |env.params|), LastCastFailure(env, None, |env.params|)).Some?
            <==> (exists k :: 0 <= k < |env.params| && VerdictAt(env, k) != Pass)
                 || (exists k :: 0 <= k < |env.params| && CastAt(env, k).Err?)
  {
    MergedEmptyIffAllPass(env);
    LastCastFailureIff(env, None, |env.params|);
  }

  /**
   * The loop of validate as intended (with RREST\Error imported), from the
   * typed map and exception the validator holds: raised names the first parameter whose assertion raised a
   * RuntimeException (the loop stops there), otherwise errors holds the
   * gathered assertion errors.
   */
  method Sweep(env: Env, typed0: map<string, Value>, exception0: Option<Failure>)
    returns (raised: Option<nat>, errors: seq<Error>, typed: map<string, Value>, exception: Option<Failure>)
    ensures raised.None? <==> NoRaiseBefore(env, |env.params|)
    ensures raised.None? ==>
      && errors == Merged(Assertions(env, |env.params|))
      && typed == Recorded(Assertions(env, |env.params|), typed0)
      && exception == LastCastFailure(env, exception0, |env.params|)
    ensures raised.Some? ==>
      && FirstRaise(env, raised.value)
      && typed == Recorded(Assertions(env, raised.value), typed0)
      && exception == LastCastFailure(env, exception0, raised.value + 1)
  {
    var castValue := Null;
    errors, typed, exception := [], typed0, exception0;
    var i := 0;
    while i < |env.params|
      invariant 0 <= i <= |env.params|
      invariant NoRaiseBefore(env, i)
      invariant i == 0 ==> castValue == Null
      invariant i > 0 ==> castValue == Asserted(env, i - 1)
      invariant errors == Merged(Assertions(env, i))
      invariant typed == Recorded(Assertions(env, i), typed0)
      invariant exception == LastCastFailure(env, exception0, i)
    {
      var raises;
      raises, castValue, errors, typed, exception := SweepOne(env, i, castValue, errors, typed, exception, typed0, exception0);
      if raises {
        return Some(i), errors, typed, exception;
      }
      i := i + 1;
    }
    raised := None;
  }

  /** One turn of the loop of validate as intended: cast parameter i, assert it, and record the outcome. */
  method SweepOne(env: Env, i: nat, castValue: Value, errors: seq<Error>, typed: map<string, Value>, exception: Option<Failure>,
                  ghost typed0: map<string, Value>, ghost exception0: Option<Failure>)
    returns (raises: bool, castValue': Value, errors': seq<Error>, typed': map<string, Value>, exception': Option<Failure>)
    requires i < |env.params| && NoRaiseBefore(env, i)
    requires i == 0 ==> castValue == Null
    requires i > 0 ==> castValue == Asserted(env, i - 1)
    requires errors == Merged(Assertions(env, i))
    requires typed == Recorded(Assertions(env, i), typed0)
    requires exception == LastCastFailure(env, exception0, i)
    ensures raises <==> RaisesAt(env, i)
    ensures raises ==> FirstRaise(env, i) && !NoRaiseBefore(env, |env.params|)
    ensures raises ==> typed' == typed && exception' == LastCastFailure(env, exception0, i + 1)
    ensures !raises ==>
      && NoRaiseBefore(env, i + 1)
      && castValue' == Asserted(env, i)
      && errors' == Merged(Assertions(env, i + 1))
      && typed' == Recorded(Assertions(env, i + 1), typed0)
      && exception' == LastCastFailure(env, exception0, i + 1)
  {
    var p := env.params[i];
    var cast := CastAt(env, i);
    CastStep(env, i, castValue, exception0);
    castValue', errors', typed', exception' := castValue, errors, typed, exception;
    if cast.Ok? {
      castValue' := cast.value;
    } else {
      exception' := Some(CastFailure(cast.error));
    }
    var verdict := VerdictAt(env, i);
    raises := verdict.Fail? && verdict.failure.Runtime?;
    if raises {
      assert RaisesAt(env, i);
      return;
    }
    assert NoRaiseBefore(env, i + 1) by {
      forall k | 0 <= k < i + 1 ensures !RaisesAt(env, k) {
        if k == i { assert VerdictAt(env, i) == verdict; }
      }
    }
    SweepStep(env, i, typed0);
    if verdict == Pass {
      typed' := typed[p.name := castValue'];
    } else {
      errors' := ErrorsOf(verdict) + errors;
    }
  }

  /** The class `new Error` names at line 77 of the validator. */
  const MissingErrorClass: Failure := ClassNotFound("RREST\\Validator\\Error")

  /**
   * How validate ends, as written: where the sweep stops, a throwing cast
   * raises the missing-class \Error and an assertion its RuntimeException;
   * a sweep that gets through every parameter passes.
   */
  function ValidateOutcome(env: Env): Outcome
  {
    match FirstStop(env, 0)
    case Some(k) => if CastAt(env, k).Err? then Fail(MissingErrorClass) else VerdictAt(env, k)
    case None => Pass
  }

  /**
   * As written, validate completes exactly when every cast succeeds and no
   * assertion raises; then a fresh validator records an exception exactly
   * when some parameter was rejected.
   */
  lemma WrittenValidationFailsIff(env: Env)
    requires Sound(env)
    ensures ValidateOutcome(env) == Pass <==> forall k :: 0 <= k < |env.params| ==> CastAt(env, k).Ok? && !RaisesAt(env, k)
    ensures ValidateOutcome(env) == Pass ==>
              (FinalException(Assertions(env, |env.params|), None).Some?
               <==> exists k :: 0 <= k < |env.params| && VerdictAt(env, k) != Pass)
  {
    match FirstStop(env, 0)
    case Some(k) =>
      if CastAt(env, k).Ok? {
        assert RaisesAt(env, k);
      }
    case None =>
      forall k | 0 <= k < |env.params|
        ensures CastAt(env, k).Ok? && !RaisesAt(env, k)
      {
        assert !StopsAt(env, k);
      }
      SweptAllPassIff(env);
  }

  /**
   * The discrepancy: where no assertion raises and some cast throws, validate
   * as written escapes with the missing-class \Error, while the intended sweep
   * records the cast exception and the validator reports a failure.
   */
  lemma CastThrowEscapes(env: Env)
    requires Sound(env) && NoRaiseBefore(env, |env.params|)
    requires exists k :: 0 <= k < |env.params| && CastAt(env, k).Err?
    ensures ValidateOutcome(env) == Fail(MissingErrorClass)
    ensures FinalException(Assertions(env, |env.params|), LastCastFailure(env, None, |env.params|)).Some?
  {
    var j :| 0 <= j < |env.params| && CastAt(env, j).Err?;
    assert StopsAt(env, j);
    var k := FirstStop(env, 0).value;
    assert !RaisesAt(env, k);
    ValidationFailsIff(env);
  }

  /**
   * After validate on a new validator, getHTTPParametersTyped is still null
   * exactly when no parameter the sweep got through passed its assertion.
   */
  lemma TypedNullIffNonePassed(env: Env)
    ensures HintedAfter(env, map[]) == map[] <==> forall k :: 0 <= k < SweptCount(env) ==> VerdictAt(env, k) != Pass
  {
    var n := SweptCount(env);
    var xs := Assertions(env, n);
    RecordedOnlyPassed(xs, map[]);
    forall k | 0 <= k < n ensures xs[k].verdict == VerdictAt(env, k) {
      AssertionAt(env, n, k);
    }
    if HintedAfter(env, map[]) != map[] {
      var name :| name in Recorded(xs, map[]);
      var k :| 0 <= k < |xs| && xs[k].name == name && xs[k].verdict == Pass && Recorded(xs, map[])[name] == xs[k].value;
      assert VerdictAt(env, k) == Pass;
    }
  }

  class ParameterValidator {
    const env: Env
    var isValidated: bool
    var exception: Option<Failure>
    var typed: map<string, Value>

    constructor (params: seq<ParamSpec>, lookup: string -> Value, caster: Caster, matches: Matcher)
      ensures env.params == params && env.lookup == lookup
      ensures forall v, t :: env.cast(v, t) == Cast(caster, v, t, "date")
      ensures ChecksWith(env, matches)
      ensures !isValidated && exception == None && typed == map[]
    {
      env := Env(params, lookup, (v, t) => Cast(caster, v, t, "date"), (p, v) => AssertValue(p, v, matches));
      isValidated := false;
      exception := None;
      typed := map[];
    }

    /**
     * validate, as written: runs the sweep once.  Where the sweep stops, a
     * cast that threw raises the missing-class \Error and an assertion its
     * RuntimeException; either escapes with the validator unvalidated, its
     * exception untouched and the typed values of the parameters before the
     * stop recorded.  A completed sweep records the gathered assertion
     * errors, later parameters first, when there are any.
     */
    method Validate() returns (outcome: Outcome)
      modifies this
      ensures old(isValidated) ==> outcome == Pass && isValidated && exception == old(exception) && typed == old(typed)
      ensures !old(isValidated) ==>
        && outcome == ValidateOutcome(env)
        && typed == HintedAfter(env, old(typed))
        && (isValidated <==> FirstStop(env, 0).None?)
      ensures !old(isValidated) && FirstStop(env, 0).None? ==>
        exception == FinalException(Assertions(env, |env.params|), old(exception))
      ensures !old(isValidated) && FirstStop(env, 0).Some? ==> exception == old(exception)
    {
      if isValidated {
        return Pass;
      }
      ghost var typed0 := typed;
      var errors: seq<Error> := [];
      var i := 0;
      while i < |env.params|
        invariant SweptTo(env, i, errors, typed, typed0)
        invariant exception == old(exception) && !isValidated
      {
        var parameter := env.params[i];
        var value := env.lookup(parameter.name);
        var cast := env.cast(value, TypeName(parameter.typ));
        if cast.Err? {
          FirstStopSkips(env, i);
          StopAt(env, i, errors, typed, typed0);
          return Fail(MissingErrorClass);
        }
        CastsBefore(env, i);
        var verdict := env.check(parameter, cast.value);
        if verdict.Fail? && verdict.failure.Runtime? {
          FirstStopSkips(env, i);
          StopAt(env, i, errors, typed, typed0);
          return verdict;
        }
        SweepOn(env, i, errors, typed, typed0);
        if verdict == Pass {
          typed := typed[parameter.name := cast.value];
        } else {
          errors := ErrorsOf(verdict) + errors;
        }
        i := i + 1;
      }
      FirstStopSkips(env, i);
      SweptAll(env, errors, typed, typed0);
      if errors != [] {
        exception := Some(InvalidParameter(errors));
      }
      isValidated := true;
      outcome := Pass;
    }

    /** getException: validates first; an exception or \Error raised by validate escapes. */
    method GetException() returns (r: Result<Option<Failure>, Failure>)
      modifies this
      ensures r.Ok? <==> old(isValidated) || FirstStop(env, 0).None?
      ensures r.Ok? ==> isValidated && r.value == exception
      ensures r.Err? ==> !isValidated && Fail(r.error) == ValidateOutcome(env)
      ensures old(isValidated) ==> exception == old(exception) && typed == old(typed)
    {
      var outcome := Validate();
      if outcome.Fail? {
        return Err(outcome.failure);
      }
      r := Ok(exception);
    }

    /** fails: an exception is recorded once validation has run; what validate raises escapes. */
    method Fails() returns (r: Result<bool, Failure>)
      modifies this
      ensures r.Ok? <==> old(isValidated) || FirstStop(env, 0).None?
      ensures r.Ok? ==> isValidated && r.value == exception.Some?
      ensures r.Err? ==> Fail(r.error) == ValidateOutcome(env)
    {
      var e := GetException();
      match e {
        case Ok(x) => r := Ok(x.Some?);
        case Err(f) => r := Err(f);
      }
    }

    /**
     * getHTTPParametersTyped: the property is never initialised, so it is
     * null until a first passing parameter is recorded into it; entries are
     * only ever added, so an empty map stands for that null.
     */
    function HTTPParametersTyped(): (r: Option<map<string, Value>>)
      reads this
      ensures r.None? <==> typed == map[]
      ensures r.Some? ==> r.value == typed
    {
      if typed == map[] then None else Some(typed)
    }
  }
}
