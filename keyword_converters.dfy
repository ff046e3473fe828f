/**
 * The per-keyword converters that turn one JsonGuard schema violation into
 * RREST Error records, and the Converter that picks one of them from the
 * keyword by class name.  Each converter puts the dotted field path and the
 * keyword's parameter into the error's context; the ones for enum, format,
 * minLength, oneOf, pattern, type and uniqueItems (one namespace) also put
 * the offending data there, and so do maxLength, maxItems and minItems (a
 * second namespace); required and anyOf list field names instead.
 */
module KeywordConverters {
  import opened Php
  import opened Errors
  import opened FieldPaths

  /** The context's field entry: the dotted path of the data that failed. */
  function FieldOf(violation: ValidationError): (f: string)
    ensures f == [] || f[|f| - 1] != '.'
    ensures violation.dataPath == "/" ==> f == ""
  {
    FieldPath(violation.dataPath, "")
  }

  /** The (array) cast, for a parameter that is a scalar or a JSON array. */
  function AsList(v: Value): (r: seq<Value>)
    ensures v.List? ==> r == v.items
    ensures v == Null ==> r == []
    ensures (v.Bool? || v.Int? || v.Decimal? || v.Str?) ==> r == [v]
  {
    match v
    case Null => []
    case List(xs) => xs
    case Dict(_) => []
    case Object(_) => []
    case DateTime(_) => []
    case _ => [v]
  }

  // ---------------------------------------------------------------------
  // Messages, shared with the monolithic converter
  // ---------------------------------------------------------------------

  function FieldMessage(field: string, rest: string): (m: string)
    ensures |m| == 10 + |field| + |rest|
    ensures m[..10] == "The field " && m[10..10 + |field|] == field && m[10 + |field|..] == rest
  {
    "The field " + field + rest
  }

  /** The message for a failed format: a fixed one for six format names, 'Invalid format' otherwise. */
  function FormatMessage(format: Value, field: string): (m: string)
    ensures format == Str("date-time") ==> m == FieldMessage(field, " must be a valid date, following RFC3339 (example: 2017-11-08T15:37:26+00:00)")
    ensures format == Str("uri") ==> m == FieldMessage(field, " must be a valid URL")
    ensures format == Str("email") ==> m == FieldMessage(field, " must be a valid email")
    ensures format == Str("ipv4") ==> m == FieldMessage(field, " must be a valid ipv4")
    ensures format == Str("ipv6") ==> m == FieldMessage(field, " must be a valid ipv6")
    ensures format == Str("hostname") ==> m == FieldMessage(field, " must be a valid hostname")
    ensures format.Str? && !KnownFormat(format.s) ==> m == "Invalid format"
  {
    var name := SwitchedName(format);
    if name == "date-time" then
      FieldMessage(field, " must be a valid date, following RFC3339 (example: 2017-11-08T15:37:26+00:00)")
    else if name == "uri" then FieldMessage(field, " must be a valid URL")
    else if name == "email" then FieldMessage(field, " must be a valid email")
    else if name == "ipv4" then FieldMessage(field, " must be a valid ipv4")
    else if name == "ipv6" then FieldMessage(field, " must be a valid ipv6")
    else if name == "hostname" then FieldMessage(field, " must be a valid hostname")
    else "Invalid format"
  }

  /**
   * What a switch over non-numeric string labels sees: a string is compared
   * as it is, true loosely equals the first label, and null, false, numbers
   * and arrays equal none of them.
   */
  function SwitchedName(v: Value): (name: string)
    ensures v.Str? ==> name == v.s
    ensures v == Bool(true) ==> name == "date-time"
  {
    match v
    case Str(s) => s
    case Bool(b) => if b then "date-time" else ""
    case _ => ""
  }

  predicate KnownFormat(name: string)
  {
    name in ["date-time", "uri", "email", "ipv4", "ipv6", "hostname"]
  }

  function TypeMessage(field: string, types: Value): string
  {
    "The type of the field " + field + " is not valid, must be a/an " + Implode(" or ", ShowAll(AsList(types)))
  }

  function MinLengthMessage(field: string, minLength: string): string
  {
    FieldMessage(field, " must be at least " + minLength + " characters long")
  }

  function MaxLengthMessage(field: string, maxLength: string): string
  {
    FieldMessage(field, " must be less than " + maxLength + " characters long")
  }

  function EnumMessage(field: string, enum: Value): string
  {
    FieldMessage(field, " must be one of this values: " + Implode(", ", ShowAll(AsList(enum))))
  }

  function PatternMessage(field: string, pattern: Value): string
  {
    FieldMessage(field, " must match the pattern " + Show(pattern))
  }

  function OneOfMessage(field: string): string
  {
    FieldMessage(field, " don't follow any rules")
  }

  function UniqueItemsMessage(field: string): string
  {
    FieldMessage(field, " must not contain duplicates values")
  }

  function MinItemsMessage(field: string, minItems: Value): string
  {
    FieldMessage(field, " must contain at least " + Show(minItems) + " item(s)")
  }

  function MaxItemsMessage(field: string, maxItems: Value): string
  {
    FieldMessage(field, " must contain less than  " + Show(maxItems) + " item(s)")
  }

  function RequiredMessage(field: string): string
  {
    FieldMessage(field, " is required")
  }

  /** A context that names the field, the keyword's parameter and the data. */
  function DataContext(violation: ValidationError, parameterKey: string, dataKey: string): (c: Context)
    requires parameterKey != "field" && dataKey != "field" && parameterKey != dataKey
    ensures c.Props? && c.props.Keys == {"field", parameterKey, dataKey}
    ensures c.props["field"] == Str(FieldOf(violation)) && c.props[dataKey] == violation.data
    ensures c.props[parameterKey] == violation.parameter
  {
    Props(map["field" := Str(FieldOf(violation)), parameterKey := violation.parameter, dataKey := violation.data])
  }

  // ---------------------------------------------------------------------
  // One namespace: enum, format, minLength, oneOf, pattern, type, uniqueItems
  // ---------------------------------------------------------------------

  /** FormatConverter: one FORMAT error; the message depends on the format name only. */
  function FormatErrors(violation: ValidationError): (r: seq<Error>)
    ensures |r| == 1 && r[0].code == Format
    ensures r[0].message == FormatMessage(violation.parameter, FieldOf(violation))
    ensures r[0].context == Props(map["field" := Str(FieldOf(violation)), "currentValue" := violation.data])
  {
    [Error(FormatMessage(violation.parameter, FieldOf(violation)), Format,
           Props(map["field" := Str(FieldOf(violation)), "currentValue" := violation.data]))]
  }

  /** TypeConverter: one TYPE error listing the allowed types, a single type read as a one-element list. */
  function TypeErrors(violation: ValidationError): (r: seq<Error>)
    ensures |r| == 1 && r[0].code == Type
    ensures r[0].message == TypeMessage(FieldOf(violation), violation.parameter)
    ensures r[0].context == DataContext(violation, "type", "currentValue")
  {
    [Error(TypeMessage(FieldOf(violation), violation.parameter), Type, DataContext(violation, "type", "currentValue"))]
  }

  /** MinLengthConverter: one MINLENGTH error. */
  function MinLengthErrors(violation: ValidationError): (r: seq<Error>)
    ensures |r| == 1 && r[0].code == MinLength
    ensures r[0].message == MinLengthMessage(FieldOf(violation), Show(violation.parameter))
    ensures r[0].context == DataContext(violation, "minLength", "currentValue")
  {
    [Error(MinLengthMessage(FieldOf(violation), Show(violation.parameter)), MinLength,
           DataContext(violation, "minLength", "currentValue"))]
  }

  /** EnumConverter: one ENUM error listing the allowed values. */
  function EnumErrors(violation: ValidationError): (r: seq<Error>)
    ensures |r| == 1 && r[0].code == Enum
    ensures r[0].message == EnumMessage(FieldOf(violation), violation.parameter)
    ensures r[0].context == DataContext(violation, "enum", "currentValue")
  {
    [Error(EnumMessage(FieldOf(violation), violation.parameter), Enum, DataContext(violation, "enum", "currentValue"))]
  }

  /** PatternConverter: one error, whose code is UNIQUEITEMS rather than a pattern code. */
  function PatternErrors(violation: ValidationError): (r: seq<Error>)
    ensures |r| == 1 && r[0].code == UniqueItems
    ensures r[0].message == PatternMessage(FieldOf(violation), violation.parameter)
    ensures r[0].context == DataContext(violation, "pattern", "currentValues")
  {
    [Error(PatternMessage(FieldOf(violation), violation.parameter), UniqueItems,
           DataContext(violation, "pattern", "currentValues"))]
  }

  /** OneOfConverter: one ONEOF error naming only the field. */
  function OneOfErrors(violation: ValidationError): (r: seq<Error>)
    ensures |r| == 1 && r[0].code == OneOf
    ensures r[0].message == OneOfMessage(FieldOf(violation))
    ensures r[0].context == DataContext(violation, "rules", "currentValue")
  {
    [Error(OneOfMessage(FieldOf(violation)), OneOf, DataContext(violation, "rules", "currentValue"))]
  }

  /** UniqueItemsConverter: one UNIQUEITEMS error; the context holds no constraint parameter. */
  function UniqueItemsErrors(violation: ValidationError): (r: seq<Error>)
    ensures |r| == 1 && r[0].code == UniqueItems
    ensures r[0].message == UniqueItemsMessage(FieldOf(violation))
    ensures r[0].context.Props? && r[0].context.props.Keys == {"field", "currentValues"}
    ensures r[0].context.props["field"] == Str(FieldOf(violation))
  {
    [Error(UniqueItemsMessage(FieldOf(violation)), UniqueItems,
           Props(map["field" := Str(FieldOf(violation)), "currentValues" := violation.data]))]
  }

  // ---------------------------------------------------------------------
  // The other namespace: anyOf, maxLength, maxItems, minItems, required
  // ---------------------------------------------------------------------

  /** The 'required' list of one anyOf sub-schema, or nothing when it has none. */
  function RequiredOf(subschema: Value): (r: seq<Value>)
    ensures !(subschema.Object? && "required" in subschema.props) ==> r == []
  {
    if subschema.Object? && "required" in subschema.props then AsList(subschema.props["required"]) else []
  }

  /** The foreach over the sub-schemas: each one's required list is merged in front of what came before. */
  function MergeRequired(subschemas: seq<Value>, fields: seq<Value>): seq<Value>
  {
    if subschemas == [] then fields
    else MergeRequired(subschemas[1..], RequiredOf(subschemas[0]) + fields)
  }

  /** The merged fields, stated directly: the last sub-schema's list first, the first one's last. */
  function LaterFirst(subschemas: seq<Value>): seq<Value>
  {
    if subschemas == [] then [] else LaterFirst(subschemas[1..]) + RequiredOf(subschemas[0])
  }

  lemma {:induction false} MergeRequiredIsLaterFirst(subschemas: seq<Value>, fields: seq<Value>)
    ensures MergeRequired(subschemas, fields) == LaterFirst(subschemas) + fields
    decreases |subschemas|
  {
    if subschemas != [] {
      MergeRequiredIsLaterFirst(subschemas[1..], RequiredOf(subschemas[0]) + fields);
      assert LaterFirst(subschemas[1..]) + (RequiredOf(subschemas[0]) + fields)
          == (LaterFirst(subschemas[1..]) + RequiredOf(subschemas[0])) + fields;
    }
  }

  /** A field is listed exactly when some sub-schema requires it. */
  lemma {:induction false} LaterFirstMembers(subschemas: seq<Value>, field: Value)
    ensures field in LaterFirst(subschemas) <==> exists k :: 0 <= k < |subschemas| && field in RequiredOf(subschemas[k])
    decreases |subschemas|
  {
    if subschemas != [] {
      LaterFirstMembers(subschemas[1..], field);
      if exists k :: 0 <= k < |subschemas| && field in RequiredOf(subschemas[k]) {
        var k :| 0 <= k < |subschemas| && field in RequiredOf(subschemas[k]);
        if k > 0 {
          assert subschemas[1..][k - 1] == subschemas[k];
        }
      }
      if exists k :: 0 <= k < |subschemas[1..]| && field in RequiredOf(subschemas[1..][k]) {
        var k :| 0 <= k < |subschemas[1..]| && field in RequiredOf(subschemas[1..][k]);
        assert subschemas[k + 1] == subschemas[1..][k];
      }
    }
  }

  /** The fields the anyOf error lists. */
  function AnyOfFields(violation: ValidationError): (fields: seq<Value>)
    ensures fields == LaterFirst(AsList(violation.parameter))
    ensures forall f :: f in fields <==>
              exists k :: 0 <= k < |AsList(violation.parameter)| && f in RequiredOf(AsList(violation.parameter)[k])
  {
    MergeRequiredIsLaterFirst(AsList(violation.parameter), []);
    assert LaterFirst(AsList(violation.parameter)) + [] == LaterFirst(AsList(violation.parameter));
    forall f ensures f in LaterFirst(AsList(violation.parameter)) <==>
              exists k :: 0 <= k < |AsList(violation.parameter)| && f in RequiredOf(AsList(violation.parameter)[k]) {
      LaterFirstMembers(AsList(violation.parameter), f);
    }
    MergeRequired(AsList(violation.parameter), [])
  }

  /** AnyOfConverter: one REQUIRED_ANYOF error, even when no sub-schema lists required fields. */
  function AnyOfErrors(violation: ValidationError): (r: seq<Error>)
    ensures |r| == 1 && r[0].code == RequiredAnyOf
    ensures r[0].message == RequiredMessage(Implode(" or/and ", ShowAll(AnyOfFields(violation))))
    ensures r[0].context == Props(map["fields" := List(AnyOfFields(violation))])
  {
    var fields := AnyOfFields(violation);
    [Error(RequiredMessage(Implode(" or/and ", ShowAll(fields))), RequiredAnyOf, Props(map["fields" := List(fields)]))]
  }

  /** A sub-schema without a required list adds nothing, wherever it stands. */
  lemma NoRequiredAddsNothing(before: seq<Value>, subschema: Value, after: seq<Value>)
    requires !(subschema.Object? && "required" in subschema.props)
    ensures LaterFirst(before + ([subschema] + after)) == LaterFirst(before + after)
  {
    LaterFirstAppend(before, [subschema] + after);
    LaterFirstAppend(before, after);
    LaterFirstSkips(subschema, after);
  }

  lemma LaterFirstSkips(subschema: Value, after: seq<Value>)
    requires !(subschema.Object? && "required" in subschema.props)
    ensures LaterFirst([subschema] + after) == LaterFirst(after)
  {
    assert ([subschema] + after)[1..] == after;
  }

  lemma {:induction false} LaterFirstAppend(a: seq<Value>, b: seq<Value>)
    ensures LaterFirst(a + b) == LaterFirst(b) + LaterFirst(a)
    decreases |a|
  {
    if a == [] {
      assert a + b == b;
    } else {
      assert (a + b)[1..] == a[1..] + b;
      LaterFirstAppend(a[1..], b);
    }
  }

  /** MaxLengthConverter: one MAXLENGTH error. */
  function MaxLengthErrors(violation: ValidationError): (r: seq<Error>)
    ensures |r| == 1 && r[0].code == MaxLength
    ensures r[0].message == MaxLengthMessage(FieldOf(violation), Show(violation.parameter))
    ensures r[0].context == DataContext(violation, "maxLength", "currentValue")
  {
    [Error(MaxLengthMessage(FieldOf(violation), Show(violation.parameter)), MaxLength,
           DataContext(violation, "maxLength", "currentValue"))]
  }

  /** MaxItemsConverter: one MAXITEMS error. */
  function MaxItemsErrors(violation: ValidationError): (r: seq<Error>)
    ensures |r| == 1 && r[0].code == MaxItems
    ensures r[0].message == MaxItemsMessage(FieldOf(violation), violation.parameter)
    ensures r[0].context == DataContext(violation, "maxItems", "currentValues")
  {
    [Error(MaxItemsMessage(FieldOf(violation), violation.parameter), MaxItems,
           DataContext(violation, "maxItems", "currentValues"))]
  }

  /** MinItemsConverter: one MINITEMS error. */
  function MinItemsErrors(violation: ValidationError): (r: seq<Error>)
    ensures |r| == 1 && r[0].code == MinItems
    ensures r[0].message == MinItemsMessage(FieldOf(violation), violation.parameter)
    ensures r[0].context == DataContext(violation, "minItems", "currentValues")
  {
    [Error(MinItemsMessage(FieldOf(violation), violation.parameter), MinItems,
           DataContext(violation, "minItems", "currentValues"))]
  }

  /** The error for one missing field: code REQUIRED, and the field appended to the data path. */
  function RequiredError(violation: ValidationError, field: string): (e: Error)
    ensures e.code == Required
    ensures e.context == Props(map["field" := Str(FieldPath(violation.dataPath, field))])
    ensures e.message == RequiredMessage(FieldPath(violation.dataPath, field))
  {
    var path := FieldPath(violation.dataPath, field);
    Error(RequiredMessage(path), Required, Props(map["field" := Str(path)]))
  }

  /** One error per field, in order. */
  function MissingFieldErrors(violation: ValidationError, fields: seq<string>): (r: seq<Error>)
    ensures |r| == |fields|
    ensures forall k :: 0 <= k < |fields| ==> r[k] == RequiredError(violation, fields[k])
  {
    if fields == [] then [] else [RequiredError(violation, fields[0])] + MissingFieldErrors(violation, fields[1..])
  }

  /** RequiredConverter: one REQUIRED error per missing field, in the order JsonGuard lists them. */
  function RequiredErrors(violation: ValidationError): (r: seq<Error>)
    ensures |r| == |violation.cause|
    ensures forall k :: 0 <= k < |r| ==>
              && r[k].code == Required
              && r[k].message == RequiredMessage(FieldPath(violation.dataPath, violation.cause[k]))
              && r[k].context == Props(map["field" := Str(FieldPath(violation.dataPath, violation.cause[k]))])
  {
    MissingFieldErrors(violation, violation.cause)
  }

  /**
   * A missing field under a plain pointer is reported at the dotted path,
   * which splits back into the pointer's segments and the field.
   */
  lemma RequiredFieldReadsBack(violation: ValidationError, segments: seq<string>, k: nat)
    requires |segments| >= 1 && PlainSegments(segments)
    requires violation.dataPath == "/" + Implode("/", segments)
    requires k < |violation.cause| && violation.cause[k] != [] && Lacks(violation.cause[k], '.')
    ensures var e := RequiredErrors(violation)[k];
            && e.context.Props? && "field" in e.context.props && e.context.props["field"].Str?
            && Split(e.context.props["field"].s, '.') == segments + [violation.cause[k]]
  {
    FieldPathSplits(segments, violation.cause[k]);
  }

  // ---------------------------------------------------------------------
  // Converter: the delegate is the class named ucfirst(keyword) . 'Converter'
  // ---------------------------------------------------------------------

  /** The converter classes that exist beside Converter itself. */
  const DelegateClasses: seq<string> :=
    ["EnumConverter", "FormatConverter", "MinLengthConverter", "OneOfConverter",
     "PatternConverter", "TypeConverter", "UniqueItemsConverter"]

  /** The errors of the delegate class of that name, if there is one. */
  function Delegate(className: string, violation: ValidationError): (r: Option<seq<Error>>)
    ensures r.Some? <==> className in DelegateClasses
    ensures r.Some? ==> |r.value| == 1
  {
    if className == "EnumConverter" then Some(EnumErrors(violation))
    else if className == "FormatConverter" then Some(FormatErrors(violation))
    else if className == "MinLengthConverter" then Some(MinLengthErrors(violation))
    else if className == "OneOfConverter" then Some(OneOfErrors(violation))
    else if className == "PatternConverter" then Some(PatternErrors(violation))
    else if className == "TypeConverter" then Some(TypeErrors(violation))
    else if className == "UniqueItemsConverter" then Some(UniqueItemsErrors(violation))
    else None
  }

  /** The fallback: one UNKNOW error carrying the violation itself. */
  function UnknownErrors(violation: ValidationError): (r: seq<Error>)
    ensures |r| == 1 && r[0].code == Unknown && r[0].context == Raw(violation)
    ensures r[0].message == "Data is not valid"
  {
    [Error("Data is not valid", Unknown, Raw(violation))]
  }

  /**
   * Converter::getErrors.  Only the keyword decides the delegate; its list
   * is returned as it is, and a keyword without a class gets the fallback.
   * The empty keyword names Converter itself, which would delegate to
   * itself without end.
   */
  function Convert(violation: ValidationError): (r: seq<Error>)
    requires violation.keyword != ""
    ensures |r| == 1
    ensures (UcFirst(violation.keyword) + "Converter" in DelegateClasses) ==>
              Some(r) == Delegate(UcFirst(violation.keyword) + "Converter", violation)
    ensures UcFirst(violation.keyword) + "Converter" !in DelegateClasses ==> r == UnknownErrors(violation)
  {
    match Delegate(UcFirst(violation.keyword) + "Converter", violation)
    case Some(errors) => errors
    case None => UnknownErrors(violation)
  }

  /** The keywords whose converter class is in DelegateClasses, at the same index. */
  const DelegateKeywords: seq<string> := ["enum", "format", "minLength", "oneOf", "pattern", "type", "uniqueItems"]

  /** Each of the seven keywords of this namespace reaches its own converter. */
  lemma DelegatedKeyword(violation: ValidationError, k: nat)
    requires k < |DelegateKeywords| && violation.keyword == DelegateKeywords[k]
    ensures Some(Convert(violation)) == Delegate(DelegateClasses[k], violation)
    ensures k == 0 ==> Convert(violation) == EnumErrors(violation)
    ensures k == 1 ==> Convert(violation) == FormatErrors(violation)
    ensures k == 2 ==> Convert(violation) == MinLengthErrors(violation)
    ensures k == 3 ==> Convert(violation) == OneOfErrors(violation)
    ensures k == 4 ==> Convert(violation) == PatternErrors(violation)
    ensures k == 5 ==> Convert(violation) == TypeErrors(violation)
    ensures k == 6 ==> Convert(violation) == UniqueItemsErrors(violation)
  {
    KeywordClass(k);
    DelegateAt(k, violation);
  }

  /** ucfirst of the k-th keyword, followed by "Converter", is the k-th class. */
  lemma KeywordClass(k: nat)
    requires k < |DelegateKeywords|
    ensures UcFirst(DelegateKeywords[k]) + "Converter" == DelegateClasses[k]
  {
    if k < 2 {
      KeywordClassFirst(k);
    } else if k < 5 {
      KeywordClassMiddle(k);
    } else {
      KeywordClassLast(k);
    }
  }

  lemma KeywordClassFirst(k: nat)
    requires k < 2
    ensures UcFirst(DelegateKeywords[k]) + "Converter" == DelegateClasses[k]
  {
    if k == 0 {
      assert DelegateKeywords[k] == "enum" && DelegateClasses[k] == "EnumConverter";
      ConverterName("enum", "Enum", "EnumConverter");
    } else {
      assert DelegateKeywords[k] == "format" && DelegateClasses[k] == "FormatConverter";
      ConverterName("format", "Format", "FormatConverter");
    }
  }

  lemma KeywordClassMiddle(k: nat)
    requires 2 <= k < 5
    ensures UcFirst(DelegateKeywords[k]) + "Converter" == DelegateClasses[k]
  {
    if k == 2 {
      assert DelegateKeywords[k] == "minLength" && DelegateClasses[k] == "MinLengthConverter";
      ConverterName("minLength", "MinLength", "MinLengthConverter");
    } else if k == 3 {
      assert DelegateKeywords[k] == "oneOf" && DelegateClasses[k] == "OneOfConverter";
      ConverterName("oneOf", "OneOf", "OneOfConverter");
    } else {
      assert DelegateKeywords[k] == "pattern" && DelegateClasses[k] == "PatternConverter";
      ConverterName("pattern", "Pattern", "PatternConverter");
    }
  }

  lemma KeywordClassLast(k: nat)
    requires 5 <= k < |DelegateKeywords|
    ensures UcFirst(DelegateKeywords[k]) + "Converter" == DelegateClasses[k]
  {
    if k == 5 {
      assert DelegateKeywords[k] == "type" && DelegateClasses[k] == "TypeConverter";
      ConverterName("type", "Type", "TypeConverter");
    } else {
      assert DelegateKeywords[k] == "uniqueItems" && DelegateClasses[k] == "UniqueItemsConverter";
      ConverterName("uniqueItems", "UniqueItems", "UniqueItemsConverter");
    }
  }

  lemma ConverterName(keyword: string, capitalised: string, className: string)
    requires UcFirst(keyword) == capitalised && capitalised + "Converter" == className
    ensures UcFirst(keyword) + "Converter" == className
  {
  }

  /** The k-th class delegates to its own converter. */
  lemma DelegateAt(k: nat, violation: ValidationError)
    requires k < |DelegateClasses|
    ensures k == 0 ==> Delegate(DelegateClasses[k], violation) == Some(EnumErrors(violation))
    ensures k == 1 ==> Delegate(DelegateClasses[k], violation) == Some(FormatErrors(violation))
    ensures k == 2 ==> Delegate(DelegateClasses[k], violation) == Some(MinLengthErrors(violation))
    ensures k == 3 ==> Delegate(DelegateClasses[k], violation) == Some(OneOfErrors(violation))
    ensures k == 4 ==> Delegate(DelegateClasses[k], violation) == Some(PatternErrors(violation))
    ensures k == 5 ==> Delegate(DelegateClasses[k], violation) == Some(TypeErrors(violation))
    ensures k == 6 ==> Delegate(DelegateClasses[k], violation) == Some(UniqueItemsErrors(violation))
  {
    if k == 0 {
      assert DelegateClasses[k] == "EnumConverter";
    } else if k == 1 {
      assert DelegateClasses[k] == "FormatConverter";
    } else if k == 2 {
      assert DelegateClasses[k] == "MinLengthConverter";
    } else if k == 3 {
      assert DelegateClasses[k] == "OneOfConverter";
    } else if k == 4 {
      assert DelegateClasses[k] == "PatternConverter";
    } else if k == 5 {
      assert DelegateClasses[k] == "TypeConverter";
    } else {
      assert DelegateClasses[k] == "UniqueItemsConverter";
    }
  }

  /** The keywords whose converters live in the other namespace. */
  const OtherKeywords: seq<string> := ["required", "anyOf", "maxLength", "maxItems", "minItems"]

  /** Those keywords are unknown here: they get the fallback error. */
  lemma OtherNamespaceFallsBack(violation: ValidationError, k: nat)
    requires k < |OtherKeywords| && violation.keyword == OtherKeywords[k]
    ensures Convert(violation) == UnknownErrors(violation)
  {
    OtherClassMissing(k);
  }

  /** ucfirst of a keyword of the other namespace, followed by "Converter", names no class here. */
  lemma OtherClassMissing(k: nat)
    requires k < |OtherKeywords|
    ensures UcFirst(OtherKeywords[k]) + "Converter" !in DelegateClasses
  {
    if k == 0 {
      assert OtherKeywords[k] == "required";
      NoConverterClass("required", "Required");
    } else if k == 1 {
      assert OtherKeywords[k] == "anyOf";
      assert "AnyOf" + "Converter" == "AnyOfConverter" && "AnyOfConverter"[0] != "OneOfConverter"[0];
      NoConverterClass("anyOf", "AnyOf");
    } else if k == 2 {
      assert OtherKeywords[k] == "maxLength";
      assert "MaxLength" + "Converter" == "MaxLengthConverter" && "MaxLengthConverter"[1] != "MinLengthConverter"[1];
      NoConverterClass("maxLength", "MaxLength");
    } else if k == 3 {
      assert OtherKeywords[k] == "maxItems";
      NoConverterClass("maxItems", "MaxItems");
    } else {
      assert OtherKeywords[k] == "minItems";
      NoConverterClass("minItems", "MinItems");
    }
  }

  lemma NoConverterClass(keyword: string, capitalised: string)
    requires UcFirst(keyword) == capitalised && capitalised + "Converter" !in DelegateClasses
    ensures UcFirst(keyword) + "Converter" !in DelegateClasses
  {
  }

  /** Whatever the delegate, its one error records the dotted path of the data. */
  lemma DelegatedErrorNamesField(violation: ValidationError)
    requires violation.keyword != ""
    requires UcFirst(violation.keyword) + "Converter" in DelegateClasses
    ensures var e := Convert(violation)[0];
            e.context.Props? && e.context.props["field"] == Str(FieldOf(violation))
  {
    DelegateNamesField(UcFirst(violation.keyword) + "Converter", violation);
  }

  /** Each delegate's one error has the field in its context. */
  lemma DelegateNamesField(className: string, violation: ValidationError)
    requires className in DelegateClasses
    ensures var e := Delegate(className, violation).value[0];
            e.context.Props? && e.context.props["field"] == Str(FieldOf(violation))
  {
    var k :| 0 <= k < |DelegateClasses| && DelegateClasses[k] == className;
    DelegateAt(k, violation);
  }
}
