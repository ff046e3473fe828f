/**
 * The parameter sweep shared by RREST::assertHTTPParameters and
 * ParameterValidator::validate: every declared parameter's raw value is
 * looked up, cast to its declared type and asserted; the assertion errors are
 * gathered with array_merge($e->getErrors(), $errors), so a later
 * parameter's errors come first, and each parameter that passed is recorded
 * with its cast value.
 */
module ParameterSweep {
  import opened Php
  import opened Errors
  import opened Casting
  import opened Parameters

  /**
   * What a sweep reads: the declared parameters, the router's lookup of a
   * raw value by name, the cast of a raw value to a type name (Casting.Cast
   * with the sweep's date keyword), and the assertion of a value against a
   * parameter (Parameters.AssertValue with the regular-expression matcher).
   */
  datatype Env = Env(
    params: seq<ParamSpec>,
    lookup: string -> Value,
    cast: (Value, string) -> Result<Value, Thrown>,
    check: (ParamSpec, Value) -> Outcome)

  /** The shape of every AssertValue outcome: a pass, a RuntimeException, or exactly one parameter error. */
  predicate WellFormed(o: Outcome)
  {
    o.Fail? ==> o.failure.Runtime? || (o.failure.InvalidParameter? && |o.failure.errors| == 1)
  }

  /** The sweep asserts with AssertValue. */
  ghost predicate ChecksWith(env: Env, matches: Matcher)
  {
    forall p, v :: env.check(p, v) == AssertValue(p, v, matches)
  }

  /** Every outcome of the assertion is well formed, as AssertValue's are. */
  ghost predicate Sound(env: Env)
  {
    forall p, v :: WellFormed(env.check(p, v))
  }

  lemma AssertValueSound(env: Env, matches: Matcher)
    requires ChecksWith(env, matches)
    ensures Sound(env)
  {
    forall p, v ensures WellFormed(env.check(p, v)) {
      assert env.check(p, v) == AssertValue(p, v, matches);
    }
  }

  function CastAt(env: Env, k: nat): Result<Value, Thrown>
    requires k < |env.params|
  {
    env.cast(env.lookup(env.params[k].name), TypeName(env.params[k].typ))
  }

  /**
   * The value asserted for parameter k: its cast value; when that cast
   * throws and the sweep goes on, the value asserted for the parameter
   * before it (null for the first one).
   */
  function Asserted(env: Env, k: nat): Value
    requires k < |env.params|
  {
    match CastAt(env, k)
    case Ok(v) => v
    case Err(_) => if k == 0 then Null else Asserted(env, k - 1)
  }

  function VerdictAt(env: Env, k: nat): Outcome
    requires k < |env.params|
  {
    env.check(env.params[k], Asserted(env, k))
  }

  /** Parameter k's assertion raises a RuntimeException, which no sweep catches. */
  predicate RaisesAt(env: Env, k: nat)
    requires k < |env.params|
  {
    VerdictAt(env, k).Fail? && VerdictAt(env, k).failure.Runtime?
  }

  predicate NoRaiseBefore(env: Env, n: nat)
    requires n <= |env.params|
  {
    forall k :: 0 <= k < n ==> !RaisesAt(env, k)
  }

  /** r is the first parameter whose assertion raises. */
  predicate FirstRaise(env: Env, r: nat)
  {
    r < |env.params| && RaisesAt(env, r) && NoRaiseBefore(env, r)
  }

  /** One parameter's assertion: its name, the value asserted, and the outcome. */
  datatype Assertion = Assertion(name: string, value: Value, verdict: Outcome)

  /** The assertions of the first n parameters, in declaration order. */
  function Assertions(env: Env, n: nat): (r: seq<Assertion>)
    requires n <= |env.params|
    ensures |r| == n
  {
    if n == 0 then [] else Assertions(env, n - 1) + [Assertion(env.params[n - 1].name, Asserted(env, n - 1), VerdictAt(env, n - 1))]
  }

  lemma {:induction false} AssertionAt(env: Env, n: nat, k: nat)
    requires k < n <= |env.params|
    ensures Assertions(env, n)[k] == Assertion(env.params[k].name, Asserted(env, k), VerdictAt(env, k))
  {
    if k < n - 1 {
      AssertionAt(env, n - 1, k);
    }
  }

  lemma AssertionsGrow(env: Env, n: nat)
    requires n < |env.params|
    ensures Assertions(env, n + 1) == Assertions(env, n) + [Assertion(env.params[n].name, Asserted(env, n), VerdictAt(env, n))]
  {
  }

  /** How the merged errors and the recorded map grow by one parameter. */
  lemma SweepStep(env: Env, n: nat, start: map<string, Value>)
    requires n < |env.params|
    ensures Merged(Assertions(env, n + 1)) == ErrorsOf(VerdictAt(env, n)) + Merged(Assertions(env, n))
    ensures Recorded(Assertions(env, n + 1), start)
            == if VerdictAt(env, n) == Pass then Recorded(Assertions(env, n), start)[env.params[n].name := Asserted(env, n)]
               else Recorded(Assertions(env, n), start)
  {
    var x := Assertion(env.params[n].name, Asserted(env, n), VerdictAt(env, n));
    AssertionsGrow(env, n);
    MergedStep(Assertions(env, n), x);
    RecordedStep(Assertions(env, n), x, start);
  }

  /** The assertion raised a RuntimeException, which no sweep catches. */
  predicate Raises(a: Assertion)
  {
    a.verdict.Fail? && a.verdict.failure.Runtime?
  }

  predicate SingleErrors(xs: seq<Assertion>)
  {
    forall k :: 0 <= k < |xs| ==> WellFormed(xs[k].verdict)
  }

  lemma AssertionsSingleErrors(env: Env, n: nat)
    requires n <= |env.params| && Sound(env)
    ensures SingleErrors(Assertions(env, n))
  {
    forall k | 0 <= k < n {
      AssertionAt(env, n, k);
    }
  }

  /** The errors an assertion outcome contributes. */
  function ErrorsOf(o: Outcome): (es: seq<Error>)
    ensures o == Pass ==> es == []
    ensures o.Fail? && o.failure.InvalidParameter? ==> es == o.failure.errors
  {
    if o.Fail? && o.failure.InvalidParameter? then o.failure.errors else []
  }

  /** The error list after the given assertions, merged as the source merges it. */
  function Merged(xs: seq<Assertion>): seq<Error>
  {
    if xs == [] then [] else ErrorsOf(xs[|xs| - 1].verdict) + Merged(xs[..|xs| - 1])
  }

  /** The same errors in declaration order: the reference the merge order is stated against. */
  function InDeclarationOrder(xs: seq<Assertion>): seq<Error>
  {
    if xs == [] then [] else InDeclarationOrder(xs[..|xs| - 1]) + ErrorsOf(xs[|xs| - 1].verdict)
  }

  lemma MergedStep(xs: seq<Assertion>, x: Assertion)
    ensures Merged(xs + [x]) == ErrorsOf(x.verdict) + Merged(xs)
    ensures InDeclarationOrder(xs + [x]) == InDeclarationOrder(xs) + ErrorsOf(x.verdict)
  {
    assert (xs + [x])[..|xs|] == xs;
  }

  function Reverse<T>(s: seq<T>): (r: seq<T>)
    ensures |r| == |s|
  {
    if s == [] then [] else Reverse(s[1..]) + [s[0]]
  }

  lemma {:induction false} ReverseAppend<T>(a: seq<T>, b: seq<T>)
    ensures Reverse(a + b) == Reverse(b) + Reverse(a)
    decreases |a|
  {
    if a == [] {
      assert a + b == b;
    } else {
      assert (a + b)[1..] == a[1..] + b;
      ReverseAppend(a[1..], b);
    }
  }

  /**
   * The merge puts a later parameter's errors before an earlier one's: the
   * merged list is the declaration-order list reversed.
   */
  lemma {:induction false} MergedIsReversed(xs: seq<Assertion>)
    requires SingleErrors(xs)
    ensures Merged(xs) == Reverse(InDeclarationOrder(xs))
  {
    if xs != [] {
      var init := xs[..|xs| - 1];
      assert SingleErrors(init) by {
        forall k | 0 <= k < |init| ensures init[k] == xs[k] { }
      }
      MergedIsReversed(init);
      var e := ErrorsOf(xs[|xs| - 1].verdict);
      ReverseAppend(InDeclarationOrder(init), e);
      assert |e| <= 1;
      if |e| == 1 {
        assert Reverse(e) == Reverse(e[1..]) + [e[0]];
        assert e[1..] == [];
      } else {
        assert e == [];
      }
    }
  }

  /** With no RuntimeException, no error is gathered iff every assertion passed. */
  lemma {:induction false} NoErrorsIffAllPass(xs: seq<Assertion>)
    requires SingleErrors(xs)
    requires forall k :: 0 <= k < |xs| ==> !Raises(xs[k])
    ensures Merged(xs) == [] <==> forall k :: 0 <= k < |xs| ==> xs[k].verdict == Pass
  {
    if xs != [] {
      var init, x := xs[..|xs| - 1], xs[|xs| - 1];
      assert init + [x] == xs;
      assert SingleErrors(init) by {
        forall k | 0 <= k < |init| ensures init[k] == xs[k] { }
      }
      NoErrorsIffAllPass(init);
      MergedStep(init, x);
      assert !Raises(x);
      assert x.verdict == Pass <==> ErrorsOf(x.verdict) == [];
      if forall k :: 0 <= k < |xs| ==> xs[k].verdict == Pass {
        assert forall k :: 0 <= k < |init| ==> init[k].verdict == Pass by {
          forall k | 0 <= k < |init| ensures init[k].verdict == Pass {
            assert init[k] == xs[k];
          }
        }
      }
    }
  }

  /** With no RuntimeException among the parameters, no error is gathered exactly when every assertion passed. */
  lemma MergedEmptyIffAllPass(env: Env)
    requires Sound(env) && NoRaiseBefore(env, |env.params|)
    ensures Merged(Assertions(env, |env.params|)) == [] <==> forall k :: 0 <= k < |env.params| ==> VerdictAt(env, k) == Pass
  {
    var xs := Assertions(env, |env.params|);
    AssertionsSingleErrors(env, |env.params|);
    forall k | 0 <= k < |xs|
      ensures xs[k].verdict == VerdictAt(env, k) && !Raises(xs[k])
    {
      AssertionAt(env, |env.params|, k);
      assert !RaisesAt(env, k);
    }
    NoErrorsIffAllPass(xs);
  }

  /** The typed-value map after the given assertions, starting from start. */
  function Recorded(xs: seq<Assertion>, start: map<string, Value>): map<string, Value>
  {
    if xs == [] then start
    else
      var m := Recorded(xs[..|xs| - 1], start);
      var x := xs[|xs| - 1];
      if x.verdict == Pass then m[x.name := x.value] else m
  }

  lemma RecordedStep(xs: seq<Assertion>, x: Assertion, start: map<string, Value>)
    ensures Recorded(xs + [x], start) == if x.verdict == Pass then Recorded(xs, start)[x.name := x.value] else Recorded(xs, start)
  {
    assert (xs + [x])[..|xs|] == xs;
  }

  /**
   * Every parameter that passed is recorded, and every recorded entry that
   * was not there before belongs to a parameter that passed, with the value
   * asserted for it.
   */
  lemma {:induction false} RecordedOnlyPassed(xs: seq<Assertion>, start: map<string, Value>)
    ensures forall k :: 0 <= k < |xs| && xs[k].verdict == Pass ==> xs[k].name in Recorded(xs, start)
    ensures forall name :: name in Recorded(xs, start) && (name !in start || Recorded(xs, start)[name] != start[name]) ==>
              exists k :: 0 <= k < |xs| && xs[k].name == name && xs[k].verdict == Pass
                          && Recorded(xs, start)[name] == xs[k].value
  {
    if xs != [] {
      var init := xs[..|xs| - 1];
      var x := xs[|xs| - 1];
      RecordedOnlyPassed(init, start);
      assert forall k :: 0 <= k < |init| ==> init[k] == xs[k];
      var m := Recorded(init, start);
      var m' := Recorded(xs, start);
      forall name | name in m' && (name !in start || m'[name] != start[name])
        ensures exists k :: 0 <= k < |xs| && xs[k].name == name && xs[k].verdict == Pass && m'[name] == xs[k].value
      {
        if x.verdict == Pass && name == x.name {
          assert xs[|xs| - 1] == x;
        } else {
          assert m'[name] == m[name];
        }
      }
    }
  }

  /** The exception recorded for the last cast that threw among the first n parameters. */
  function LastCastFailure(env: Env, start: Option<Failure>, n: nat): Option<Failure>
    requires n <= |env.params|
  {
    if n == 0 then start
    else match CastAt(env, n - 1)
      case Err(e) => Some(CastFailure(e))
      case Ok(_) => LastCastFailure(env, start, n - 1)
  }

  /** The recorded cast exception changes only when some cast threw; from none, it is set iff one did. */
  lemma {:induction false} LastCastFailureIff(env: Env, start: Option<Failure>, n: nat)
    requires n <= |env.params|
    ensures LastCastFailure(env, start, n) != start ==> exists k :: 0 <= k < n && CastAt(env, k).Err?
    ensures start == None ==> (LastCastFailure(env, start, n).Some? <==> exists k :: 0 <= k < n && CastAt(env, k).Err?)
  {
    if n > 0 {
      LastCastFailureIff(env, start, n - 1);
    }
  }

  /** A cast exception wrapped as a one-error InvalidParameterException. */
  function CastFailure(e: Thrown): (f: Failure)
    ensures f.InvalidParameter? && |f.errors| == 1 && f.errors[0].message == e.message
  {
    InvalidParameter([Error(e.message, ExceptionCode(e.code), NoContext)])
  }

  /** How the asserted value and the recorded cast exception follow parameter n's cast. */
  lemma CastStep(env: Env, n: nat, previous: Value, start: Option<Failure>)
    requires n < |env.params|
    requires n == 0 ==> previous == Null
    requires n > 0 ==> previous == Asserted(env, n - 1)
    ensures CastAt(env, n).Ok? ==> Asserted(env, n) == CastAt(env, n).value
    ensures CastAt(env, n).Err? ==> Asserted(env, n) == previous
    ensures LastCastFailure(env, start, n + 1)
            == if CastAt(env, n).Err? then Some(CastFailure(CastAt(env, n).error)) else LastCastFailure(env, start, n)
  {
  }

  /** No cast threw among the first n parameters. */
  predicate CastsSucceedBefore(env: Env, n: nat)
    requires n <= |env.params|
  {
    forall k :: 0 <= k < n ==> CastAt(env, k).Ok?
  }

  /** When no earlier cast threw, the asserted value is the parameter's own cast value. */
  lemma AssertedIsCast(env: Env, k: nat)
    requires k < |env.params| && CastsSucceedBefore(env, k + 1)
    ensures Asserted(env, k) == CastAt(env, k).value
  {
  }
}
