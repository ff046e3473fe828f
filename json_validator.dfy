/**
 * JsonValidator: decodes a JSON schema and a JSON value, validates the
 * value against the dereferenced schema, and turns every schema violation
 * into Error records.  Decoding, dereferencing, schema validation and the
 * per-violation conversion are foreign code and arrive as functions.
 */
module JsonValidation {
  import opened Php
  import opened Errors

  datatype JsonLib = JsonLib(
    /** json_decode, with json_last_error_msg() when the text is not JSON. */
    decode: string -> Result<Value, string>,
    /** Dereferencer::draft4()->dereference. */
    dereference: Value -> Value,
    /** (new Validator($json, $schema))->errors(): empty exactly when the value conforms. */
    violations: (Value, Value) -> seq<ValidationError>,
    /** (new Converter($violation))->getErrors(). */
    convert: ValidationError -> seq<Error>)

  /** The InvalidJSONException thrown for a text that does not decode. */
  function InvalidJsonFailure(message: string): (f: Failure)
    ensures f.InvalidJSON? && |f.errors| == 1
    ensures f.errors[0] == Error(UcFirst(message), InvalidJson, NoContext)
    ensures f.Status() == Some(400)
  {
    InvalidJSON([Error(UcFirst(message), InvalidJson, NoContext)])
  }

  /** getJsonFromString. */
  function DecodeJson(lib: JsonLib, text: string): (r: Result<Value, Failure>)
    ensures r.Ok? <==> lib.decode(text).Ok?
    ensures r.Ok? ==> r.value == lib.decode(text).value
    ensures r.Err? ==> r.error == InvalidJsonFailure(lib.decode(text).error)
  {
    match lib.decode(text)
    case Ok(v) => Ok(v)
    case Err(message) => Err(InvalidJsonFailure(message))
  }

  /** The converted errors of the violations, in order. */
  function ConvertAll(lib: JsonLib, violations: seq<ValidationError>): seq<Error>
  {
    if violations == [] then []
    else ConvertAll(lib, violations[..|violations| - 1]) + lib.convert(violations[|violations| - 1])
  }

  /** Conversion distributes over the violation list. */
  lemma {:induction false} ConvertAllAppend(lib: JsonLib, a: seq<ValidationError>, b: seq<ValidationError>)
    ensures ConvertAll(lib, a + b) == ConvertAll(lib, a) + ConvertAll(lib, b)
    decreases |b|
  {
    if b == [] {
      assert a + b == a;
    } else {
      var n := |b| - 1;
      assert (a + b)[..|a + b| - 1] == a + b[..n];
      ConvertAllAppend(lib, a, b[..n]);
    }
  }

  /** The list is empty exactly when every violation converts to nothing. */
  lemma {:induction false} ConvertAllEmpty(lib: JsonLib, violations: seq<ValidationError>)
    ensures ConvertAll(lib, violations) == [] <==> forall k :: 0 <= k < |violations| ==> lib.convert(violations[k]) == []
    decreases |violations|
  {
    if violations != [] {
      var n := |violations| - 1;
      ConvertAllEmpty(lib, violations[..n]);
      assert forall k :: 0 <= k < n ==> violations[..n][k] == violations[k];
    }
  }

  /**
   * What validation yields: the schema's decoding failure, else the value's,
   * else the converted violations (none when the value conforms).
   */
  function Check(lib: JsonLib, jsonValue: string, jsonSchema: string): (r: Result<seq<Error>, Failure>)
    ensures lib.decode(jsonSchema).Err? ==> r == Err(InvalidJsonFailure(lib.decode(jsonSchema).error))
    ensures lib.decode(jsonSchema).Ok? && lib.decode(jsonValue).Err? ==> r == Err(InvalidJsonFailure(lib.decode(jsonValue).error))
    ensures r.Err? ==> r.error.InvalidJSON? && |r.error.errors| == 1 && r.error.errors[0].code == InvalidJson
  {
    match DecodeJson(lib, jsonSchema)
    case Err(f) => Err(f)
    case Ok(schema) =>
      match DecodeJson(lib, jsonValue)
      case Err(f) => Err(f)
      case Ok(json) => Ok(ConvertAll(lib, lib.violations(json, lib.dereference(schema))))
  }

  /** A conforming value gives no errors. */
  lemma ConformingValuePasses(lib: JsonLib, jsonValue: string, jsonSchema: string)
    requires lib.decode(jsonSchema).Ok? && lib.decode(jsonValue).Ok?
    requires lib.violations(lib.decode(jsonValue).value, lib.dereference(lib.decode(jsonSchema).value)) == []
    ensures Check(lib, jsonValue, jsonSchema) == Ok([])
  {
  }

  class JsonValidator {
    const jsonValue: string
    const jsonSchema: string
    const lib: JsonLib
    var errors: seq<Error>
    /** The memo flag: declared, tested, and never set. */
    var isValidated: bool

    /** The errors are the initial empty list or the result of a validation. */
    predicate Valid()
      reads this
    {
      && !isValidated
      && (errors == [] || Check(lib, jsonValue, jsonSchema) == Ok(errors))
    }

    constructor (jsonValue: string, jsonSchema: string, lib: JsonLib)
      ensures this.jsonValue == jsonValue && this.jsonSchema == jsonSchema && this.lib == lib
      ensures errors == [] && Valid()
    {
      this.jsonValue := jsonValue;
      this.jsonSchema := jsonSchema;
      this.lib := lib;
      errors := [];
      isValidated := false;
    }

    /**
     * validate: raises InvalidJSON for a schema or value that does not
     * decode, leaving the errors as they were; otherwise, when there are
     * violations, rebuilds the error list from them one by one.  Because
     * the memo flag is never set, every call validates again.
     */
    method Validate() returns (raised: Option<Failure>)
      requires Valid()
      modifies this
      ensures Valid() && isValidated == old(isValidated)
      ensures raised.Some? <==> Check(lib, jsonValue, jsonSchema).Err?
      ensures raised.Some? ==> raised.value == Check(lib, jsonValue, jsonSchema).error && errors == old(errors)
      ensures raised.None? ==> errors == Check(lib, jsonValue, jsonSchema).value
    {
      var schema := DecodeJson(lib, jsonSchema);
      if schema.Err? {
        return Some(schema.error);
      }
      var json := DecodeJson(lib, jsonValue);
      if json.Err? {
        return Some(json.error);
      }
      var violations := lib.violations(json.value, lib.dereference(schema.value));
      if violations != [] {
        errors := [];
        var i := 0;
        while i < |violations|
          invariant 0 <= i <= |violations|
          invariant errors == ConvertAll(lib, violations[..i])
          invariant !isValidated
        {
          assert violations[..i + 1][..i] == violations[..i];
          errors := errors + lib.convert(violations[i]);
          i := i + 1;
        }
        assert violations[..i] == violations;
      } else {
        assert Check(lib, jsonValue, jsonSchema) == Ok([]);
      }
      return None;
    }

    /** getErrors. */
    method GetErrors() returns (r: Result<seq<Error>, Failure>)
      requires Valid()
      modifies this
      ensures Valid()
      ensures r == Check(lib, jsonValue, jsonSchema)
      ensures r.Ok? ==> errors == r.value
    {
      var raised := Validate();
      if raised.Some? {
        return Err(raised.value);
      }
      return Ok(errors);
    }

    /** fails: some violation converted to at least one error. */
    method Fails() returns (r: Result<bool, Failure>)
      requires Valid()
      modifies this
      ensures Valid()
      ensures r.Err? <==> Check(lib, jsonValue, jsonSchema).Err?
      ensures r.Err? ==> r.error == Check(lib, jsonValue, jsonSchema).error
      ensures r.Ok? ==> (r.value <==> Check(lib, jsonValue, jsonSchema).value != [])
    {
      var errs := GetErrors();
      match errs
      case Err(f) => return Err(f);
      case Ok(es) => return Ok(es != []);
    }
  }

  /** A schema that does not decode is reported whatever the value is. */
  lemma SchemaDecodedFirst(lib: JsonLib, jsonValue: string, otherValue: string, jsonSchema: string)
    requires lib.decode(jsonSchema).Err?
    ensures Check(lib, jsonValue, jsonSchema) == Check(lib, otherValue, jsonSchema)
  {
  }

  /**
   * fails() holds exactly when some violation converts to an error; with a
   * converter that gives at least one error per violation, exactly when the
   * value does not conform.
   */
  lemma FailsIffSomeConvertedError(lib: JsonLib, json: Value, schema: Value)
    ensures ConvertAll(lib, lib.violations(json, schema)) != []
        <==> exists k :: 0 <= k < |lib.violations(json, schema)| && lib.convert(lib.violations(json, schema)[k]) != []
    ensures (forall e :: lib.convert(e) != []) ==>
              (ConvertAll(lib, lib.violations(json, schema)) != [] <==> lib.violations(json, schema) != [])
  {
    ConvertAllEmpty(lib, lib.violations(json, schema));
    if (forall e :: lib.convert(e) != []) && lib.violations(json, schema) != [] {
      assert lib.convert(lib.violations(json, schema)[0]) != [];
    }
  }
}
