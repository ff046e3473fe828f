/**
 * RequestValidator::assertQueryParameters: every declared parameter that is
 * required but not set in the query string is reported, all in one
 * InvalidParameter failure.  The query string arrives already parsed (what
 * parse_str gives).
 */
module RequestValidation {
  import opened Php
  import opened Errors
  import opened Parameters

  /** The filter: a required parameter that isset() does not find. */
  predicate IsMissing(p: ParamSpec, query: map<string, Value>)
  {
    p.required && !(p.name in query && query[p.name] != Null)
  }

  /** array_filter over the declared parameters: the missing ones, in declaration order. */
  function MissingParameters(params: seq<ParamSpec>, query: map<string, Value>): (r: seq<ParamSpec>)
    ensures |r| <= |params|
    ensures forall p :: p in r <==> p in params && IsMissing(p, query)
  {
    if params == [] then []
    else (if IsMissing(params[0], query) then [params[0]] else []) + MissingParameters(params[1..], query)
  }

  /** Filtering keeps the order: the missing parameters of a concatenation are concatenated. */
  lemma {:induction false} MissingParametersAppend(a: seq<ParamSpec>, b: seq<ParamSpec>, query: map<string, Value>)
    ensures MissingParameters(a + b, query) == MissingParameters(a, query) + MissingParameters(b, query)
    decreases |a|
  {
    if a != [] {
      var head := if IsMissing(a[0], query) then [a[0]] else [];
      MissingFront(a, b, query);
      MissingParametersAppend(a[1..], b, query);
      AppendAssoc(head, MissingParameters(a[1..], query), MissingParameters(b, query));
    } else {
      assert a + b == b;
    }
  }

  /** The first parameter of a non-empty list is filtered first, concatenated or not. */
  lemma MissingFront(a: seq<ParamSpec>, b: seq<ParamSpec>, query: map<string, Value>)
    requires a != []
    ensures var head := if IsMissing(a[0], query) then [a[0]] else [];
            && MissingParameters(a, query) == head + MissingParameters(a[1..], query)
            && MissingParameters(a + b, query) == head + MissingParameters(a[1..] + b, query)
  {
    assert (a + b)[0] == a[0];
    assert (a + b)[1..] == a[1..] + b;
  }

  lemma AppendAssoc(x: seq<ParamSpec>, y: seq<ParamSpec>, z: seq<ParamSpec>)
    ensures x + (y + z) == (x + y) + z
  {
  }

  function MissingMessage(p: ParamSpec): string
  {
    "Missing parameter required for this route: " + p.name + " (" + TypeName(p.typ) + ")"
  }

  /** One error per missing parameter, built with a message and no code. */
  function MissingErrors(missing: seq<ParamSpec>): (r: seq<Error>)
    ensures |r| == |missing|
    ensures forall k :: 0 <= k < |missing| ==> r[k] == Error(MissingMessage(missing[k]), NoCode, NoContext)
  {
    if missing == [] then [] else [Error(MissingMessage(missing[0]), NoCode, NoContext)] + MissingErrors(missing[1..])
  }

  /** assertQueryParameters. */
  function AssertQueryParameters(params: seq<ParamSpec>, query: map<string, Value>): (r: Outcome)
    ensures r == Pass <==> forall k :: 0 <= k < |params| ==> !IsMissing(params[k], query)
    ensures r.Fail? ==> r.failure == InvalidParameter(MissingErrors(MissingParameters(params, query)))
  {
    var missing := MissingParameters(params, query);
    if |missing| == 0 then
      Pass
    else
      assert missing[0] in params;
      Fail(InvalidParameter(MissingErrors(missing)))
  }

  /** The outcome depends on the parameter list only through its missing parameters. */
  lemma SameMissingSameOutcome(a: seq<ParamSpec>, b: seq<ParamSpec>, query: map<string, Value>)
    requires MissingParameters(a, query) == MissingParameters(b, query)
    ensures AssertQueryParameters(a, query) == AssertQueryParameters(b, query)
  {
  }

  /** Parameters that are not required never cause an error, wherever they are declared. */
  lemma OptionalParametersIgnored(before: seq<ParamSpec>, p: ParamSpec, after: seq<ParamSpec>, query: map<string, Value>)
    requires !p.required
    ensures MissingParameters(before + [p] + after, query) == MissingParameters(before + after, query)
    ensures AssertQueryParameters(before + [p] + after, query) == AssertQueryParameters(before + after, query)
  {
    MissingParametersAppend(before + [p], after, query);
    MissingParametersAppend(before, [p], query);
    MissingParametersAppend(before, after, query);
    assert MissingParameters([p], query) == [];
    assert MissingParameters(before + [p], query) == MissingParameters(before, query);
    SameMissingSameOutcome(before + [p] + after, before + after, query);
  }

  /** A missing parameter sits right after the missing parameters declared before it. */
  lemma MissingPosition(params: seq<ParamSpec>, query: map<string, Value>, i: nat)
    requires i < |params| && IsMissing(params[i], query)
    ensures |MissingParameters(params[..i], query)| < |MissingParameters(params, query)|
    ensures MissingParameters(params, query)[|MissingParameters(params[..i], query)|] == params[i]
    ensures |MissingParameters(params[..i + 1], query)| == |MissingParameters(params[..i], query)| + 1
  {
    assert params == params[..i] + ([params[i]] + params[i + 1..]);
    assert params[..i + 1] == params[..i] + [params[i]];
    MissingParametersAppend(params[..i], [params[i]] + params[i + 1..], query);
    MissingParametersAppend(params[..i], [params[i]], query);
    assert ([params[i]] + params[i + 1..])[1..] == params[i + 1..];
  }

  /** The missing parameters of a longer prefix are at least as many. */
  lemma MissingGrows(params: seq<ParamSpec>, query: map<string, Value>, i: nat, j: nat)
    requires i <= j <= |params|
    ensures |MissingParameters(params[..i], query)| <= |MissingParameters(params[..j], query)|
  {
    assert params[..j] == params[..i] + params[i..j];
    MissingParametersAppend(params[..i], params[i..j], query);
  }

  /** Two missing parameters are listed in their declaration order. */
  lemma MissingInOrder(params: seq<ParamSpec>, query: map<string, Value>, i: nat, j: nat)
    requires i < j < |params| && IsMissing(params[i], query) && IsMissing(params[j], query)
    ensures exists a, b :: 0 <= a < b < |MissingParameters(params, query)|
              && MissingParameters(params, query)[a] == params[i]
              && MissingParameters(params, query)[b] == params[j]
  {
    MissingPosition(params, query, i);
    MissingPosition(params, query, j);
    MissingGrows(params, query, i + 1, j);
    var a := |MissingParameters(params[..i], query)|;
    var b := |MissingParameters(params[..j], query)|;
    assert a < b;
  }

  /** A failure lists the missing parameters' errors in declaration order, each naming the parameter and its type. */
  lemma MissingReportedInOrder(params: seq<ParamSpec>, query: map<string, Value>, i: nat, j: nat)
    requires i < j < |params| && IsMissing(params[i], query) && IsMissing(params[j], query)
    ensures AssertQueryParameters(params, query).Fail?
    ensures exists a, b :: 0 <= a < b < |AssertQueryParameters(params, query).failure.errors|
              && AssertQueryParameters(params, query).failure.errors[a].message == MissingMessage(params[i])
              && AssertQueryParameters(params, query).failure.errors[b].message == MissingMessage(params[j])
  {
    MissingInOrder(params, query, i, j);
    var missing := MissingParameters(params, query);
    var a, b :| 0 <= a < b < |missing| && missing[a] == params[i] && missing[b] == params[j];
    var errors := AssertQueryParameters(params, query).failure.errors;
    assert errors == MissingErrors(missing);
    assert errors[a].message == MissingMessage(params[i]);
    assert errors[b].message == MissingMessage(params[j]);
  }
}
