/**
 * The parameter loop of RREST::assertHTTPParameters: each declared
 * parameter's value is read from the router, cast to its declared type and
 * asserted.  A cast that throws, or an assertion that raises a
 * RuntimeException, ends the loop; otherwise the assertion errors are
 * gathered and each passing value is recorded as a hint for the router.
 */
module AssertParameters {
  import opened Php
  import opened Errors
  import opened Parameters
  import opened ParameterSweep

  /** The sweep stops at parameter k: its cast throws, or its assertion raises a RuntimeException. */
  predicate StopsAt(env: Env, k: nat)
    requires k < |env.params|
  {
    CastAt(env, k).Err? || RaisesAt(env, k)
  }

  /** The first parameter from `from` on where the sweep stops. */
  function FirstStop(env: Env, from: nat): (r: Option<nat>)
    requires from <= |env.params|
    ensures r.Some? ==> from <= r.value < |env.params| && StopsAt(env, r.value)
                        && forall j :: from <= j < r.value ==> !StopsAt(env, j)
    ensures r.None? ==> forall j :: from <= j < |env.params| ==> !StopsAt(env, j)
    decreases |env.params| - from
  {
    if from == |env.params| then None
    else if StopsAt(env, from) then Some(from)
    else FirstStop(env, from + 1)
  }

  lemma {:induction false} FirstStopSkips(env: Env, i: nat)
    requires i <= |env.params|
    requires forall j :: 0 <= j < i ==> !StopsAt(env, j)
    ensures FirstStop(env, 0) == FirstStop(env, i)
    decreases i
  {
    if i > 0 {
      FirstStopSkips(env, i - 1);
      FirstStopStep(env, i - 1);
    }
  }

  lemma FirstStopStep(env: Env, i: nat)
    requires i < |env.params| && !StopsAt(env, i)
    ensures FirstStop(env, i) == FirstStop(env, i + 1)
  {
  }

  /** How many parameters the sweep gets through. */
  function SweptCount(env: Env): (n: nat)
    ensures n <= |env.params|
  {
    match FirstStop(env, 0)
    case Some(k) => k
    case None => |env.params|
  }

  /**
   * assertHTTPParameters' outcome: the cast exception, wrapped as a
   * one-error InvalidParameterException, or the RuntimeException of the
   * parameter where the sweep stops; otherwise the gathered assertion errors
   * (a later parameter's first), when there are any.
   */
  function ParametersOutcome(env: Env): Outcome
  {
    match FirstStop(env, 0)
    case Some(k) =>
      if CastAt(env, k).Err? then Fail(CastFailure(CastAt(env, k).error)) else VerdictAt(env, k)
    case None =>
      var errors := Merged(Assertions(env, |env.params|));
      if errors == [] then Pass else Fail(InvalidParameter(errors))
  }

  /** The hinted parameters after the sweep: each parameter that passed before it stopped, with its cast value. */
  function HintedAfter(env: Env, start: map<string, Value>): map<string, Value>
  {
    Recorded(Assertions(env, SweptCount(env)), start)
  }

  /** When the sweep gets through every parameter, no error is gathered exactly when every assertion passed. */
  lemma {:induction false} SweptAllPassIff(env: Env)
    requires Sound(env) && FirstStop(env, 0).None?
    ensures Merged(Assertions(env, |env.params|)) == [] <==> forall k :: 0 <= k < |env.params| ==> VerdictAt(env, k) == Pass
  {
    forall k | 0 <= k < |env.params| ensures !RaisesAt(env, k) {
      assert !StopsAt(env, k);
    }
    MergedEmptyIffAllPass(env);
  }

  /** With AssertValue's outcomes, the parameters pass exactly when every cast succeeds and every assertion passes. */
  lemma ParametersPassIff(env: Env)
    requires Sound(env)
    ensures ParametersOutcome(env) == Pass <==> forall k :: 0 <= k < |env.params| ==> CastAt(env, k).Ok? && VerdictAt(env, k) == Pass
  {
    match FirstStop(env, 0)
    case Some(k) =>
      if CastAt(env, k).Ok? {
        assert RaisesAt(env, k);
      }
    case None =>
      forall k | 0 <= k < |env.params|
        ensures CastAt(env, k).Ok?
      {
        assert !StopsAt(env, k);
      }
      SweptAllPassIff(env);
      var errors := Merged(Assertions(env, |env.params|));
      assert ParametersOutcome(env) == if errors == [] then Pass else Fail(InvalidParameter(errors));
  }

  /**
   * The sweep got through the first i parameters without stopping, with
   * their merged errors and the hinted values they recorded.
   */
  predicate SweptTo(env: Env, i: nat, errors: seq<Error>, hinted: map<string, Value>, start: map<string, Value>)
  {
    && i <= |env.params|
    && (forall j :: 0 <= j < i ==> !StopsAt(env, j))
    && errors == Merged(Assertions(env, i))
    && hinted == Recorded(Assertions(env, i), start)
  }

  /**
   * What the loop of assertHTTPParameters returns when it resumes at
   * parameter i with the errors and hinted values gathered so far: the
   * outcome, and the hinted values it leaves.
   */
  function SweepFrom(env: Env, i: nat, errors: seq<Error>, hinted: map<string, Value>): (Outcome, map<string, Value>)
    requires i <= |env.params|
    decreases |env.params| - i
  {
    if i == |env.params| then
      (if errors == [] then Pass else Fail(InvalidParameter(errors)), hinted)
    else
      var cast := CastAt(env, i);
      if cast.Err? then (Fail(CastFailure(cast.error)), hinted)
      else
        var verdict := env.check(env.params[i], cast.value);
        if verdict.Fail? && verdict.failure.Runtime? then (verdict, hinted)
        else if verdict == Pass then SweepFrom(env, i + 1, errors, hinted[env.params[i].name := cast.value])
        else SweepFrom(env, i + 1, ErrorsOf(verdict) + errors, hinted)
  }

  /** Resumed from any point the sweep reached, the loop ends with the sweep's outcome and hinted values. */
  lemma {:induction false} SweepFromOutcome(env: Env, i: nat, errors: seq<Error>, hinted: map<string, Value>, start: map<string, Value>)
    requires SweptTo(env, i, errors, hinted, start)
    ensures SweepFrom(env, i, errors, hinted) == (ParametersOutcome(env), HintedAfter(env, start))
    decreases |env.params| - i
  {
    if i == |env.params| {
      SweptAll(env, errors, hinted, start);
    } else if StopsAt(env, i) {
      SweepStopsAt(env, i, errors, hinted, start);
    } else {
      var errors', hinted' := SweepGoesOn(env, i, errors, hinted, start);
      SweepFromOutcome(env, i + 1, errors', hinted', start);
    }
  }

  /** Resumed at the parameter where the sweep stops, the loop returns at once with the sweep's outcome. */
  lemma SweepStopsAt(env: Env, i: nat, errors: seq<Error>, hinted: map<string, Value>, start: map<string, Value>)
    requires i < |env.params| && SweptTo(env, i, errors, hinted, start) && StopsAt(env, i)
    ensures SweepFrom(env, i, errors, hinted) == (ParametersOutcome(env), HintedAfter(env, start))
  {
    if CastAt(env, i).Ok? {
      CastsBefore(env, i);
    }
    SweepFromAt(env, i, errors, hinted);
    StopAt(env, i, errors, hinted, start);
  }

  /** Resumed at a parameter where the sweep goes on, the loop moves to the next one with the sweep's state. */
  lemma SweepGoesOn(env: Env, i: nat, errors: seq<Error>, hinted: map<string, Value>, start: map<string, Value>)
    returns (errors': seq<Error>, hinted': map<string, Value>)
    requires i < |env.params| && SweptTo(env, i, errors, hinted, start) && !StopsAt(env, i)
    ensures SweptTo(env, i + 1, errors', hinted', start)
    ensures SweepFrom(env, i, errors, hinted) == SweepFrom(env, i + 1, errors', hinted')
  {
    if CastAt(env, i).Ok? {
      CastsBefore(env, i);
    }
    SweepFromAt(env, i, errors, hinted);
    SweepOn(env, i, errors, hinted, start);
    errors' := ErrorsOf(VerdictAt(env, i)) + errors;
    hinted' := if VerdictAt(env, i) == Pass then hinted[env.params[i].name := Asserted(env, i)] else hinted;
  }

  /** One step of the loop, stated with the sweep's own cast, asserted value and verdict. */
  lemma SweepFromAt(env: Env, i: nat, errors: seq<Error>, hinted: map<string, Value>)
    requires i < |env.params|
    requires CastAt(env, i).Ok? ==> Asserted(env, i) == CastAt(env, i).value
    ensures StopsAt(env, i) ==>
              SweepFrom(env, i, errors, hinted)
              == (if CastAt(env, i).Err? then Fail(CastFailure(CastAt(env, i).error)) else VerdictAt(env, i), hinted)
    ensures !StopsAt(env, i) ==>
              SweepFrom(env, i, errors, hinted)
              == SweepFrom(env, i + 1, ErrorsOf(VerdictAt(env, i)) + errors,
                           if VerdictAt(env, i) == Pass then hinted[env.params[i].name := Asserted(env, i)] else hinted)
  {
    var cast := CastAt(env, i);
    if cast.Ok? {
      assert env.check(env.params[i], cast.value) == VerdictAt(env, i);
      if VerdictAt(env, i) == Pass {
        assert ErrorsOf(VerdictAt(env, i)) + errors == errors;
      }
    }
  }

  /** Past a parameter where the sweep does not stop, its errors are merged in front and a passing value is recorded. */
  lemma SweepOn(env: Env, i: nat, errors: seq<Error>, hinted: map<string, Value>, start: map<string, Value>)
    requires i < |env.params| && SweptTo(env, i, errors, hinted, start) && !StopsAt(env, i)
    ensures SweptTo(env, i + 1, ErrorsOf(VerdictAt(env, i)) + errors,
                    if VerdictAt(env, i) == Pass then hinted[env.params[i].name := Asserted(env, i)] else hinted, start)
  {
    SweepStep(env, i, start);
  }

  /** Where the sweep stops, its outcome is that parameter's, and the hinted values are those gathered so far. */
  lemma StopAt(env: Env, i: nat, errors: seq<Error>, hinted: map<string, Value>, start: map<string, Value>)
    requires i < |env.params| && SweptTo(env, i, errors, hinted, start) && StopsAt(env, i)
    ensures ParametersOutcome(env) == if CastAt(env, i).Err? then Fail(CastFailure(CastAt(env, i).error)) else VerdictAt(env, i)
    ensures HintedAfter(env, start) == hinted
  {
    FirstStopSkips(env, i);
  }

  /** Where the sweep has not stopped, every cast so far succeeded, so parameter i is asserted with its own cast value. */
  lemma CastsBefore(env: Env, i: nat)
    requires i < |env.params| && CastAt(env, i).Ok?
    requires forall j :: 0 <= j < i ==> !StopsAt(env, j)
    ensures Asserted(env, i) == CastAt(env, i).value
  {
    assert CastsSucceedBefore(env, i + 1) by {
      forall j | 0 <= j < i + 1 ensures CastAt(env, j).Ok? {
        if j < i {
          assert !StopsAt(env, j);
        }
      }
    }
    AssertedIsCast(env, i);
  }

  /**
   * The loop of assertHTTPParameters: each parameter's value is read with the
   * environment's lookup (the router's getHTTPParameterValue), cast and
   * asserted; the outcome and the hinted values it leaves, starting from
   * `start`, are the sweep's.
   */
  method SweepParameters(env: Env, start: map<string, Value>)
    returns (outcome: Outcome, hinted: map<string, Value>)
    ensures outcome == ParametersOutcome(env)
    ensures hinted == HintedAfter(env, start)
  {
    assert SweptTo(env, 0, [], start, start);
    SweepFromOutcome(env, 0, [], start, start);
    ghost var result := SweepFrom(env, 0, [], start);
    var errors: seq<Error> := [];
    hinted := start;
    var i := 0;
    while i < |env.params|
      invariant i <= |env.params| && SweepFrom(env, i, errors, hinted) == result
    {
      var parameter := env.params[i];
      var value := env.lookup(parameter.name);
      var cast := env.cast(value, TypeName(parameter.typ));
      if cast.Err? {
        return Fail(CastFailure(cast.error)), hinted;
      }
      var verdict := env.check(parameter, cast.value);
      if verdict.Fail? && verdict.failure.Runtime? {
        return verdict, hinted;
      }
      if verdict == Pass {
        hinted := hinted[parameter.name := cast.value];
      } else {
        errors := ErrorsOf(verdict) + errors;
      }
      i := i + 1;
    }
    outcome := if errors == [] then Pass else Fail(InvalidParameter(errors));
  }

  /** When no parameter stops the sweep, the outcome and the hinted values are those of all the assertions. */
  lemma SweptAll(env: Env, errors: seq<Error>, hinted: map<string, Value>, start: map<string, Value>)
    requires SweptTo(env, |env.params|, errors, hinted, start)
    ensures ParametersOutcome(env) == if errors == [] then Pass else Fail(InvalidParameter(errors))
    ensures HintedAfter(env, start) == hinted
  {
    FirstStopSkips(env, |env.params|);
  }
}
