/**
 * A declared request parameter (name, primitive type, required flag and the
 * optional enum / pattern / minimum / maximum constraints) and its
 * single-error value assertion.
 */
module Parameters {
  import opened Php
  import opened Errors

  /** The nine primitive types a parameter may declare. */
  datatype ParamType =
    | Number | String | Boolean | DateOnly | TimeOnly | DatetimeOnly | Datetime | File | Integer

  /** The valid type names, in declaration order. */
  const ValidTypeNames: seq<string> :=
    ["number", "string", "boolean", "date-only", "time-only", "datetime-only", "datetime", "file", "integer"]

  /** RFC 2616 date format, the default of every parameter. */
  const DefaultDateFormat: string := "D, d M Y H:i:s T"

  function TypeName(t: ParamType): (s: string)
    ensures s in ValidTypeNames
  {
    match t
    case Number => "number"
    case String => "string"
    case Boolean => "boolean"
    case DateOnly => "date-only"
    case TimeOnly => "time-only"
    case DatetimeOnly => "datetime-only"
    case Datetime => "datetime"
    case File => "file"
    case Integer => "integer"
  }

  /** The membership test of setType: a name outside the nine has no type. */
  function ParseType(s: string): (r: Option<ParamType>)
    ensures r.Some? <==> s in ValidTypeNames
    ensures r.Some? ==> TypeName(r.value) == s
  {
    if s == "number" then Some(Number)
    else if s == "string" then Some(String)
    else if s == "boolean" then Some(Boolean)
    else if s == "date-only" then Some(DateOnly)
    else if s == "time-only" then Some(TimeOnly)
    else if s == "datetime-only" then Some(DatetimeOnly)
    else if s == "datetime" then Some(Datetime)
    else if s == "file" then Some(File)
    else if s == "integer" then Some(Integer)
    else None
  }

  /** Type names and types are in one-to-one correspondence. */
  lemma ParseTypeName(t: ParamType)
    ensures ParseType(TypeName(t)) == Some(t)
  {
  }

  /** The RuntimeException message of setType. */
  function InvalidTypeMessage(s: string): string
  {
    s + " is not a valid type (" + Implode(",", ValidTypeNames) + ")"
  }

  /** A snapshot of a Parameter's fields. */
  datatype ParamSpec = ParamSpec(
    name: string,
    typ: ParamType,
    required: bool,
    enumValues: seq<Value>,       // empty until setEnum
    pattern: string,              // "" until setValidationPattern
    minimum: Option<int>,
    maximum: Option<int>,
    dateFormat: string)

  /** A parameter object; RAML::getParameters fills it through the setters. */
  class Parameter {
    var name: string
    var typ: ParamType
    var required: bool
    var enumValues: seq<Value>
    var pattern: string
    var minimum: Option<int>
    var maximum: Option<int>
    var dateFormat: string

    function Spec(): (s: ParamSpec)
      reads this
      ensures s.name == name && s.typ == typ && s.required == required
      ensures s.enumValues == enumValues && s.pattern == pattern
      ensures s.minimum == minimum && s.maximum == maximum && s.dateFormat == dateFormat
    {
      ParamSpec(name, typ, required, enumValues, pattern, minimum, maximum, dateFormat)
    }

    /** The constructor once setType has accepted the type name. */
    constructor (name: string, typ: ParamType, required: Value)
      ensures Spec() == ParamSpec(name, typ, !Empty(required), [], "", None, None, DefaultDateFormat)
    {
      this.name := name;
      this.typ := typ;
      this.required := !Empty(required);
      this.enumValues := [];
      this.pattern := "";
      this.minimum := None;
      this.maximum := None;
      this.dateFormat := DefaultDateFormat;
    }

    /** new Parameter($name, $type, $required): a type name outside the nine raises. */
    static method Create(name: string, typeName: string, required: Value) returns (r: Result<Parameter, Failure>)
      ensures r.Ok? <==> typeName in ValidTypeNames
      ensures r.Ok? ==> (fresh(r.value)
        && r.value.Spec() == ParamSpec(name, ParseType(typeName).value, !Empty(required), [], "", None, None, DefaultDateFormat)
        && TypeName(r.value.typ) == typeName)
      ensures r.Err? ==> r.error == Runtime(InvalidTypeMessage(typeName))
    {
      match ParseType(typeName)
      case None =>
        r := Err(Runtime(InvalidTypeMessage(typeName)));
      case Some(t) =>
        var p := new Parameter(name, t, required);
        r := Ok(p);
    }

    /** setType: the stored type is always one of the nine; a bad name raises and changes nothing. */
    method SetType(typeName: string) returns (outcome: Outcome)
      modifies this
      ensures outcome == Pass <==> typeName in ValidTypeNames
      ensures outcome == Pass ==> Spec() == old(Spec()).(typ := ParseType(typeName).value)
      ensures outcome != Pass ==> outcome == Fail(Runtime(InvalidTypeMessage(typeName))) && Spec() == old(Spec())
    {
      match ParseType(typeName)
      case None =>
        outcome := Fail(Runtime(InvalidTypeMessage(typeName)));
      case Some(t) =>
        typ := t;
        outcome := Pass;
    }

    /** setRequired: the (bool) cast, which is false exactly for the values empty() accepts. */
    method SetRequired(value: Value)
      modifies this
      ensures Spec() == old(Spec()).(required := !Empty(value))
    {
      required := !Empty(value);
    }

    method SetName(n: string)
      modifies this
      ensures Spec() == old(Spec()).(name := n)
    {
      name := n;
    }

    method SetEnum(values: seq<Value>)
      modifies this
      ensures Spec() == old(Spec()).(enumValues := values)
    {
      enumValues := values;
    }

    method SetValidationPattern(p: string)
      modifies this
      ensures Spec() == old(Spec()).(pattern := p)
    {
      pattern := p;
    }

    /** setMinimum: the bound is CastToType's integer conversion of the raw value (null when it is not one). */
    method SetMinimum(raw: Value, toInteger: Value -> Option<int>)
      modifies this
      ensures Spec() == old(Spec()).(minimum := toInteger(raw))
    {
      minimum := toInteger(raw);
    }

    method SetMaximum(raw: Value, toInteger: Value -> Option<int>)
      modifies this
      ensures Spec() == old(Spec()).(maximum := toInteger(raw))
    {
      maximum := toInteger(raw);
    }

    method SetDateFormat(f: string)
      modifies this
      ensures Spec() == old(Spec()).(dateFormat := f)
    {
      dateFormat := f;
    }
  }

  /**
   * preg_match($pattern, $value) === 1 for a user-supplied pattern; the
   * pattern handed over already carries the '|' delimiters.
   */
  type Matcher = (string, Value) -> bool

  /** The types min and max apply to. */
  predicate HasBounds(t: ParamType)
  {
    t == String || t == Number || t == Integer
  }

  /** A bound is ignored when it is null or 0 (the empty() guard). */
  predicate BoundActive(b: Option<int>)
  {
    b.Some? && b.value != 0
  }

  /** The type test of each primitive type; None for the types that never pass. */
  predicate TypeAccepts(t: ParamType, v: Value)
  {
    match t
    case Boolean => v.Bool?
    case Datetime => v.DateTime?
    case String => v.Str?
    case Integer => v.Int?
    case Number => IsNumeric(v)
    case _ => false
  }

  /** The size a bound is compared with: strlen (UTF-8 bytes) for strings, the number itself otherwise. */
  function Size(t: ParamType, v: Value): real
    requires HasBounds(t) && TypeAccepts(t, v)
  {
    if t == String then StrLen(v.s) as real else NumericValue(v)
  }

  predicate MinHolds(p: ParamSpec, v: Value)
    requires HasBounds(p.typ) && TypeAccepts(p.typ, v)
  {
    BoundActive(p.minimum) ==> p.minimum.value as real <= Size(p.typ, v)
  }

  predicate MaxHolds(p: ParamSpec, v: Value)
    requires HasBounds(p.typ) && TypeAccepts(p.typ, v)
  {
    BoundActive(p.maximum) ==> Size(p.typ, v) <= p.maximum.value as real
  }

  predicate PatternHolds(p: ParamSpec, v: Value, matches: Matcher)
  {
    Empty(Str(p.pattern)) || matches("|" + p.pattern + "|", v)
  }

  /** in_array($value, $enum, true) for a non-empty enum. */
  predicate EnumHolds(p: ParamSpec, v: Value)
  {
    p.enumValues == [] || exists k :: 0 <= k < |p.enumValues| && Identical(p.enumValues[k], v)
  }

  /** throwInvalidParameter: one 'parameter-invalid' error. */
  function Invalid(message: string): Failure
  {
    InvalidParameter([ParameterError(message)])
  }

  function Reject(message: string): Outcome
  {
    Fail(Invalid(message))
  }

  /** The message of the type check that failed. */
  function TypeMessage(p: ParamSpec): string
  {
    match p.typ
    case Boolean => p.name + " is not a boolean"
    case Datetime => p.name + " is not a valid date"
    case String => p.name + " is not a string"
    case Integer => p.name + " is not an integer"
    case Number => p.name + " is not a number"
    case _ => TypeName(p.typ) + " is not supported yet in RREST. Use datetime or feel free to contribute it"
  }

  /**
   * assertValue: required, type, minimum, maximum, pattern, enum, in that
   * order; the first failing check raises a one-error InvalidParameter, and
   * a 'file' parameter with a non-empty value raises a RuntimeException.
   */
  function AssertValue(p: ParamSpec, v: Value, matches: Matcher): (r: Outcome)
    ensures r.Fail? ==> r.failure.Runtime? || (r.failure.InvalidParameter? && |r.failure.errors| == 1
                                               && r.failure.errors[0].code == ParameterInvalid)
    ensures r.Fail? && r.failure.Runtime? <==> !Empty(v) && p.typ == File
    ensures Empty(v) ==> r == (if p.required then Reject(p.name + " is required") else Pass)
  {
    if Empty(v) then
      if p.required then Reject(p.name + " is required") else Pass
    else if p.typ == File then
      Fail(Runtime(""))
    else if !TypeAccepts(p.typ, v) then
      Reject(TypeMessage(p))
    else if HasBounds(p.typ) && !MinHolds(p, v) then
      Reject(p.name + " minimum size is " + IntToString(p.minimum.value))
    else if HasBounds(p.typ) && !MaxHolds(p, v) then
      Reject(p.name + " maximum size is " + IntToString(p.maximum.value))
    else if !PatternHolds(p, v, matches) then
      Reject(p.name + " does not match the specified pattern: " + p.pattern)
    else if !EnumHolds(p, v) then
      Reject(p.name + " must be one of the following: " + Implode(", ", ShowAll(p.enumValues)))
    else
      Pass
  }

  /** Every check, in source order, for a non-empty value: whether it holds and what it raises. */
  datatype Check = Check(holds: bool, failure: Failure)

  function Checks(p: ParamSpec, v: Value, matches: Matcher): seq<Check>
  {
    var typed := TypeAccepts(p.typ, v);
    var bounded := HasBounds(p.typ) && typed;
    [ Check(p.typ != File, Runtime("")),
      Check(typed, Invalid(TypeMessage(p))),
      Check(!bounded || MinHolds(p, v), Invalid(p.name + " minimum size is " + IntToString(if p.minimum.Some? then p.minimum.value else 0))),
      Check(!bounded || MaxHolds(p, v), Invalid(p.name + " maximum size is " + IntToString(if p.maximum.Some? then p.maximum.value else 0))),
      Check(PatternHolds(p, v, matches), Invalid(p.name + " does not match the specified pattern: " + p.pattern)),
      Check(EnumHolds(p, v), Invalid(p.name + " must be one of the following: " + Implode(", ", ShowAll(p.enumValues)))) ]
  }

  /** The outcome of the first check that does not hold. */
  function FirstFailure(cs: seq<Check>): (r: Outcome)
    ensures r == Pass <==> forall k :: 0 <= k < |cs| ==> cs[k].holds
  {
    if cs == [] then Pass
    else if !cs[0].holds then Fail(cs[0].failure)
    else FirstFailure(cs[1..])
  }

  /** assertValue raises the failure of the first check, in source order, that does not hold. */
  lemma {:induction false} AssertValueIsFirstFailure(p: ParamSpec, v: Value, matches: Matcher)
    requires !Empty(v)
    ensures AssertValue(p, v, matches) == FirstFailure(Checks(p, v, matches))
  {
    FirstOfSix(Checks(p, v, matches));
  }

  /** FirstFailure over six checks, unrolled. */
  lemma FirstOfSix(cs: seq<Check>)
    requires |cs| == 6
    ensures FirstFailure(cs) ==
      if !cs[0].holds then Fail(cs[0].failure)
      else if !cs[1].holds then Fail(cs[1].failure)
      else if !cs[2].holds then Fail(cs[2].failure)
      else if !cs[3].holds then Fail(cs[3].failure)
      else if !cs[4].holds then Fail(cs[4].failure)
      else if !cs[5].holds then Fail(cs[5].failure)
      else Pass
  {
    var c1 := cs[1..];
    var c2 := c1[1..];
    var c3 := c2[1..];
    var c4 := c3[1..];
    var c5 := c4[1..];
    assert c5[1..] == [];
    assert FirstFailure(c5) == if cs[5].holds then Pass else Fail(cs[5].failure);
    assert FirstFailure(c4) == if cs[4].holds then FirstFailure(c5) else Fail(cs[4].failure);
    assert FirstFailure(c3) == if cs[3].holds then FirstFailure(c4) else Fail(cs[3].failure);
    assert FirstFailure(c2) == if cs[2].holds then FirstFailure(c3) else Fail(cs[2].failure);
    assert FirstFailure(c1) == if cs[1].holds then FirstFailure(c2) else Fail(cs[1].failure);
  }

  /** A non-empty value passes iff its type is accepted and every applicable constraint holds. */
  lemma AssertValuePassesIff(p: ParamSpec, v: Value, matches: Matcher)
    requires !Empty(v)
    ensures AssertValue(p, v, matches) == Pass <==>
      && TypeAccepts(p.typ, v)
      && (HasBounds(p.typ) ==> MinHolds(p, v) && MaxHolds(p, v))
      && PatternHolds(p, v, matches)
      && EnumHolds(p, v)
  {
  }

  /** A value equal to an active bound passes the bound checks: the comparisons are strict. */
  lemma BoundsAreInclusive(p: ParamSpec, v: Value)
    requires HasBounds(p.typ) && TypeAccepts(p.typ, v)
    requires p.minimum.Some? && p.maximum.Some?
    requires Size(p.typ, v) == p.minimum.value as real == p.maximum.value as real
    ensures MinHolds(p, v) && MaxHolds(p, v)
  {
  }

  /** A zero or missing bound constrains nothing. */
  lemma ZeroBoundIgnored(p: ParamSpec, v: Value)
    requires HasBounds(p.typ) && TypeAccepts(p.typ, v)
    requires p.minimum in {None, Some(0)} && p.maximum in {None, Some(0)}
    ensures MinHolds(p, v) && MaxHolds(p, v)
  {
  }

  /** date-only, time-only and datetime-only reject every non-empty value with the 'not supported' message. */
  lemma UnsupportedTypesAlwaysFail(p: ParamSpec, v: Value, matches: Matcher)
    requires p.typ in {DateOnly, TimeOnly, DatetimeOnly} && !Empty(v)
    ensures AssertValue(p, v, matches)
            == Reject(TypeName(p.typ) + " is not supported yet in RREST. Use datetime or feel free to contribute it")
  {
  }

  /** An integer parameter rejects a float such as 50.5. */
  lemma IntegerRejectsFloat(p: ParamSpec, matches: Matcher)
    requires p.typ == Integer
    ensures AssertValue(p, Decimal(505, 1), matches) == Reject(p.name + " is not an integer")
  {
  }

  /** strlen counts bytes: a string maximum of 3 rejects three two-byte characters. */
  lemma MaximumCountsBytes(p: ParamSpec, matches: Matcher)
    requires p.typ == String && p.minimum.None? && p.maximum == Some(3)
    ensures AssertValue(p, Str("\U{E9}\U{E9}\U{E9}"), matches) == Reject(p.name + " maximum size is 3")
  {
    var v := Str("\U{E9}\U{E9}\U{E9}");
    assert StrLen(v.s) == 6;
    assert !Empty(v) && TypeAccepts(p.typ, v) && MinHolds(p, v) && !MaxHolds(p, v);
    assert IntToString(3) == "3";
    assert p.name + " maximum size is " + IntToString(3) == p.name + " maximum size is 3";
  }

  /** A number parameter accepts the exponent form of is_numeric. */
  lemma NumberAcceptsExponent(p: ParamSpec, matches: Matcher)
    requires p.typ == Number && p.minimum.None? && p.maximum.None? && p.enumValues == [] && p.pattern == ""
    ensures AssertValue(p, Str("1e3"), matches) == Pass
  {
    ExponentFormIsNumeric();
  }
}
