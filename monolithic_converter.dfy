/**
 * JsonGuardValidationErrorConverter, the single-class converter: the
 * lower-cased keyword selects a private get<Keyword>Errors handler (PHP
 * method names are case-insensitive), and a keyword without a handler gets
 * the one 'Data is not valid' error.  Its handlers put the field path and
 * the keyword's parameter in the context but not the offending data.
 */
module MonolithicConverter {
  import opened Php
  import opened Errors
  import opened FieldPaths
  import opened KeywordConverters

  /** The lower-cased keywords that have a handler. */
  const Handled: seq<string> :=
    ["required", "anyof", "minlength", "maxlength", "type", "enum",
     "minitems", "maxitems", "uniqueitems", "oneof", "pattern", "format"]

  /** A context with the field path and the keyword's parameter under the given key. */
  function ParameterContext(violation: ValidationError, key: string): (c: Context)
    requires key != "field"
    ensures c.Props? && c.props.Keys == {"field", key}
    ensures c.props["field"] == Str(FieldOf(violation)) && c.props[key] == violation.parameter
  {
    Props(map["field" := Str(FieldOf(violation)), key := violation.parameter])
  }

  function OneError(message: string, code: ErrorCode, context: Context): (r: seq<Error>)
    ensures |r| == 1 && r[0] == Error(message, code, context)
  {
    [Error(message, code, context)]
  }

  /**
   * getMaxLengthErrors as written: the parameter is stored under minLength,
   * the code is MINLENGTH, and the message prints the never-set maxLength
   * property, which is null and so prints as nothing.
   */
  function MaxLengthErrorsAsWritten(violation: ValidationError): (r: seq<Error>)
    ensures |r| == 1 && r[0].code == MinLength
    ensures r[0].context == ParameterContext(violation, "minLength")
    ensures r[0].message == MaxLengthMessage(FieldOf(violation), Show(Null))
  {
    OneError(MaxLengthMessage(FieldOf(violation), Show(Null)), MinLength, ParameterContext(violation, "minLength"))
  }

  /** getMaxLengthErrors as intended: code MAXLENGTH, and the limit is stored and printed. */
  function MaxLengthErrors(violation: ValidationError): (r: seq<Error>)
    ensures |r| == 1 && r[0].code == MaxLength
    ensures r[0].context == ParameterContext(violation, "maxLength")
    ensures r[0].message == MaxLengthMessage(FieldOf(violation), Show(violation.parameter))
  {
    OneError(MaxLengthMessage(FieldOf(violation), Show(violation.parameter)), MaxLength, ParameterContext(violation, "maxLength"))
  }

  /**
   * getErrors, with the intended maxLength handler.  The empty keyword
   * names getErrors itself, which would call itself without end.
   */
  function Handle(violation: ValidationError): (r: seq<Error>)
    requires violation.keyword != ""
    ensures Lower(violation.keyword) == "required" ==> r == RequiredErrors(violation)
    ensures Lower(violation.keyword) == "anyof" ==> r == AnyOfErrors(violation)
    ensures Lower(violation.keyword) == "maxlength" ==> r == MaxLengthErrors(violation)
    ensures Lower(violation.keyword) !in Handled ==> r == UnknownErrors(violation)
    ensures Lower(violation.keyword) != "required" ==> |r| == 1
  {
    var name := Lower(violation.keyword);
    var field := FieldOf(violation);
    if name == "required" then RequiredErrors(violation)
    else if name == "anyof" then AnyOfErrors(violation)
    else if name == "minlength" then
      OneError(MinLengthMessage(field, Show(violation.parameter)), MinLength, ParameterContext(violation, "minLength"))
    else if name == "maxlength" then MaxLengthErrors(violation)
    else if name == "type" then
      OneError(TypeMessage(field, violation.parameter), Type, ParameterContext(violation, "type"))
    else if name == "enum" then
      OneError(EnumMessage(field, violation.parameter), Enum, ParameterContext(violation, "enum"))
    else if name == "minitems" then
      OneError(MinItemsMessage(field, violation.parameter), MinItems, ParameterContext(violation, "minItems"))
    else if name == "maxitems" then
      OneError(MaxItemsMessage(field, violation.parameter), MaxItems, ParameterContext(violation, "maxItems"))
    else if name == "uniqueitems" then
      OneError(UniqueItemsMessage(field), UniqueItems, Props(map["field" := Str(field)]))
    else if name == "oneof" then
      OneError(OneOfMessage(field), OneOf, ParameterContext(violation, "rules"))
    else if name == "pattern" then
      OneError(PatternMessage(field, violation.parameter), UniqueItems, ParameterContext(violation, "pattern"))
    else if name == "format" then
      OneError(FormatMessage(violation.parameter, field), Format, Props(map["field" := Str(field)]))
    else UnknownErrors(violation)
  }

  /** getErrors as written: the same, except for the maxLength handler. */
  function HandleAsWritten(violation: ValidationError): (r: seq<Error>)
    requires violation.keyword != ""
    ensures Lower(violation.keyword) == "maxlength" ==> r == MaxLengthErrorsAsWritten(violation)
    ensures Lower(violation.keyword) != "maxlength" ==> r == Handle(violation)
  {
    if Lower(violation.keyword) == "maxlength" then MaxLengthErrorsAsWritten(violation) else Handle(violation)
  }

  /**
   * The discrepancy: for every maxLength violation the error as written
   * carries the MINLENGTH code and no maxLength entry, and whenever the
   * limit prints as something its message differs from the intended one.
   */
  lemma MaxLengthMislabelled(violation: ValidationError)
    requires violation.keyword != "" && Lower(violation.keyword) == "maxlength"
    ensures HandleAsWritten(violation)[0].code == MinLength
    ensures Handle(violation)[0].code == MaxLength
    ensures "maxLength" !in HandleAsWritten(violation)[0].context.props
    ensures Show(violation.parameter) != "" ==> HandleAsWritten(violation)[0].message != Handle(violation)[0].message
  {
    var field := FieldOf(violation);
    var wrong := HandleAsWritten(violation)[0].message;
    var right := Handle(violation)[0].message;
    if Show(violation.parameter) != "" {
      assert |wrong| < |right|;
    }
  }

  /** A handled keyword may be written in any case. */
  lemma HandleIgnoresCase(violation: ValidationError, keyword: string)
    requires violation.keyword != "" && keyword != "" && Lower(keyword) == Lower(violation.keyword)
    requires Lower(keyword) in Handled
    ensures Handle(violation.(keyword := keyword)) == Handle(violation)
  {
  }

  /** The delegated keywords, lower-cased. */
  const LoweredDelegateKeywords: seq<string> := ["enum", "format", "minlength", "oneof", "pattern", "type", "uniqueitems"]

  lemma LowerDelegateKeyword(k: nat)
    requires k < |DelegateKeywords|
    ensures Lower(DelegateKeywords[k]) == LoweredDelegateKeywords[k]
  {
    if k == 0 {
      assert Lower("enum") == "enum";
    } else if k == 1 {
      assert Lower("format") == "format";
    } else if k == 2 {
      assert Lower("minLength") == "minlength";
    } else if k == 3 {
      assert Lower("oneOf") == "oneof";
    } else if k == 4 {
      assert Lower("pattern") == "pattern";
    } else if k == 5 {
      assert Lower("type") == "type";
    } else {
      assert Lower("uniqueItems") == "uniqueitems";
    }
  }

  /**
   * For the keywords both converters know, this one reports the same
   * message and code as the per-keyword converter.
   */
  lemma AgreesWithKeywordConverters(violation: ValidationError, k: nat)
    requires k < |DelegateKeywords| && violation.keyword == DelegateKeywords[k]
    ensures |Handle(violation)| == |Convert(violation)| == 1
    ensures Handle(violation)[0].message == Convert(violation)[0].message
    ensures Handle(violation)[0].code == Convert(violation)[0].code
  {
    DelegatedKeyword(violation, k);
    LowerDelegateKeyword(k);
    var field := FieldOf(violation);
    if k == 0 {
      assert Convert(violation) == EnumErrors(violation);
      assert Handle(violation)[0].message == EnumMessage(field, violation.parameter);
    } else if k == 1 {
      assert Convert(violation) == FormatErrors(violation);
      assert Handle(violation)[0].message == FormatMessage(violation.parameter, field);
    } else if k == 2 {
      assert Convert(violation) == MinLengthErrors(violation);
      assert Handle(violation)[0].message == MinLengthMessage(field, Show(violation.parameter));
    } else if k == 3 {
      assert Convert(violation) == OneOfErrors(violation);
      assert Handle(violation)[0].message == OneOfMessage(field);
    } else if k == 4 {
      assert Convert(violation) == PatternErrors(violation);
      assert Handle(violation)[0].message == PatternMessage(field, violation.parameter);
    } else if k == 5 {
      assert Convert(violation) == TypeErrors(violation);
      assert Handle(violation)[0].message == TypeMessage(field, violation.parameter);
    } else {
      assert Convert(violation) == UniqueItemsErrors(violation);
      assert Handle(violation)[0].message == UniqueItemsMessage(field);
    }
  }

  /** The intended maxLength handler matches the sibling MaxLengthConverter, less the data. */
  lemma MaxLengthAgrees(violation: ValidationError)
    ensures MaxLengthErrors(violation)[0].message == KeywordConverters.MaxLengthErrors(violation)[0].message
    ensures MaxLengthErrors(violation)[0].code == KeywordConverters.MaxLengthErrors(violation)[0].code
  {
  }
}
