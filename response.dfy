/**
 * The response a controller fills: its format (one of four), status code,
 * content, schema and the two headers RREST sets.  Setting the content
 * checks it against the response schema for the format; serialisation
 * turns the content into the body text.  The JSON/XML encoders, libxml and
 * the JSON schema validator are foreign and arrive as functions.
 */
module ResponseModel {
  import opened Php
  import opened Errors
  import opened JsonValidation

  const SupportedFormats: seq<string> := ["json", "xml", "csv", "xlsx"]

  /** The RuntimeException message for a format outside the four. */
  const FormatNotSupported: string := "format not supported, only are json, xml, csv, xlsx availables"

  /** The foreign encoders. */
  datatype Encoders = Encoders(
    /** json_encode($data, JSON_UNESCAPED_SLASHES | JSON_UNESCAPED_UNICODE), as serialize writes it. */
    json: Value -> string,
    /** \json_encode($data) with the default flags, which escape '/' and non-ASCII characters, as setContent writes it. */
    plainJson: Value -> string,
    /** The Symfony serializer's XML for the data, after its JSON round trip. */
    xml: Value -> string)

  /** One libxml error: its message and its line. */
  datatype XmlIssue = XmlIssue(message: string, line: int)

  /** libxml: the errors of loading a document, and of validating it against an XML schema. */
  datatype XmlLib = XmlLib(
    load: string -> seq<XmlIssue>,
    schemaValidate: (string, string) -> seq<XmlIssue>)

  /** The header map of getConfiguredHeaders: each header only when its value is not empty. */
  function ConfiguredHeaders(contentType: Value, location: Value): (h: map<string, Value>)
    ensures h.Keys <= {"Content-Type", "Location"}
    ensures "Content-Type" in h <==> !Empty(contentType)
    ensures "Location" in h <==> !Empty(location)
    ensures "Content-Type" in h ==> h["Content-Type"] == contentType
    ensures "Location" in h ==> h["Location"] == location
  {
    var withType: map<string, Value> := if Empty(contentType) then map[] else map["Content-Type" := contentType];
    if Empty(location) then withType else withType["Location" := location]
  }

  /** serialize: JSON and XML through the encoders, CSV and XLSX only as ready-made text. */
  function Serialize(enc: Encoders, data: Value, format: string): (r: Result<string, Failure>)
    ensures format == "json" ==> r == Ok(enc.json(data))
    ensures format == "xml" ==> r == Ok(enc.xml(data))
    ensures (format == "csv" || format == "xlsx") && data.Str? ==> r == Ok(data.s)
    ensures (format == "csv" || format == "xlsx") && !data.Str? ==>
              r == Err(Runtime("auto serialization for " + Upper(format) + " format is not supported"))
    ensures format !in SupportedFormats ==> r == Err(Runtime(FormatNotSupported))
  {
    if format == "json" then Ok(enc.json(data))
    else if format == "xml" then Ok(enc.xml(data))
    else if format == "csv" || format == "xlsx" then
      if data.Str? then Ok(data.s)
      else Err(Runtime("auto serialization for " + Upper(format) + " format is not supported"))
    else Err(Runtime(FormatNotSupported))
  }

  /** A text body in CSV or XLSX is sent exactly as given. */
  lemma SpreadsheetTextPassesThrough(enc: Encoders, text: string, format: string)
    requires format in ["csv", "xlsx"]
    ensures Serialize(enc, Str(text), format) == Ok(text)
  {
  }

  /** The message of one libxml error: '<message> (line: N)'. */
  function IssueMessage(issue: XmlIssue): string
  {
    issue.message + " (line: " + IntToString(issue.line) + ")"
  }

  /** One Error per libxml error, in order, each with the given code and no context. */
  function XmlErrors(issues: seq<XmlIssue>, code: ErrorCode): (r: seq<Error>)
    ensures |r| == |issues|
    ensures forall k :: 0 <= k < |issues| ==> r[k] == Error(IssueMessage(issues[k]), code, NoContext)
  {
    if issues == [] then []
    else
      var rest := XmlErrors(issues[1..], code);
      assert forall k :: 1 <= k < |issues| ==> rest[k - 1] == Error(IssueMessage(issues[k]), code, NoContext);
      [Error(IssueMessage(issues[0]), code, NoContext)] + rest
  }

  /** assertResponseXML: a document that does not load is invalid XML; one that breaks the schema is an invalid response body. */
  function ResponseXmlOutcome(xml: XmlLib, value: string, schema: string): (r: Outcome)
    ensures xml.load(value) != [] ==> r == Fail(InvalidXML(XmlErrors(xml.load(value), InvalidResponseXml)))
    ensures xml.load(value) == [] && xml.schemaValidate(value, schema) != [] ==>
              r == Fail(InvalidResponsePayloadBody(XmlErrors(xml.schemaValidate(value, schema), InvalidResponseXml)))
    ensures r == Pass <==> xml.load(value) == [] && xml.schemaValidate(value, schema) == []
  {
    if xml.load(value) != [] then Fail(InvalidXML(XmlErrors(xml.load(value), InvalidResponseXml)))
    else if xml.schemaValidate(value, schema) != [] then Fail(InvalidResponsePayloadBody(XmlErrors(xml.schemaValidate(value, schema), InvalidResponseXml)))
    else Pass
  }

  /** assertResponseJSON's outcome: the validator's decoding failure, or its errors as an invalid response body. */
  function ResponseJsonOutcome(lib: JsonLib, value: string, schema: string): (r: Outcome)
    ensures Check(lib, value, schema).Err? ==> r == Fail(Check(lib, value, schema).error)
    ensures Check(lib, value, schema).Ok? ==>
              (r == Pass <==> Check(lib, value, schema).value == [])
    ensures Check(lib, value, schema).Ok? && r.Fail? ==>
              r.failure == InvalidResponsePayloadBody(Check(lib, value, schema).value) && r.failure.Status() == Some(500)
  {
    match Check(lib, value, schema)
    case Err(f) => Fail(f)
    case Ok(errors) => if errors != [] then Fail(InvalidResponsePayloadBody(errors)) else Pass
  }

  /** assertResponseJSON: a fresh validator, asked whether it fails, then for its errors. */
  method AssertResponseJson(lib: JsonLib, value: string, schema: string) returns (outcome: Outcome)
    ensures outcome == ResponseJsonOutcome(lib, value, schema)
  {
    var validator := new JsonValidator(value, schema, lib);
    var fails := validator.Fails();
    if fails.Err? {
      return Fail(fails.error);
    }
    if !fails.value {
      return Pass;
    }
    var errors := validator.GetErrors();
    if errors.Err? {
      assert false;
    }
    return Fail(InvalidResponsePayloadBody(errors.value));
  }

  /**
   * assertReponseSchema: nothing to check for an empty schema; otherwise the
   * first of json, xml, csv found in the format picks the check, and csv
   * has none.
   */
  function ReponseSchemaOutcome(lib: JsonLib, xml: XmlLib, format: string, schema: string, value: string): (r: Outcome)
    ensures Empty(Str(schema)) ==> r == Pass
    ensures !Empty(Str(schema)) && Contains(format, "json") ==> r == ResponseJsonOutcome(lib, value, schema)
    ensures !Empty(Str(schema)) && !Contains(format, "json") && Contains(format, "xml") ==> r == ResponseXmlOutcome(xml, value, schema)
    ensures !Empty(Str(schema)) && !Contains(format, "json") && !Contains(format, "xml") ==>
              r == (if Contains(format, "csv") then Pass else Fail(Runtime(FormatNotSupported)))
  {
    if Empty(Str(schema)) then Pass
    else if Contains(format, "json") then ResponseJsonOutcome(lib, value, schema)
    else if Contains(format, "xml") then ResponseXmlOutcome(xml, value, schema)
    else if Contains(format, "csv") then Pass
    else Fail(Runtime(FormatNotSupported))
  }

  /** A needle longer than the haystack is not in it. */
  lemma {:induction false} ShorterNotContained(haystack: string, needle: string)
    requires |haystack| < |needle|
    ensures !Contains(haystack, needle)
    decreases |haystack|
  {
    if haystack != [] {
      ShorterNotContained(haystack[1..], needle);
    }
  }

  /** A needle whose first character the haystack lacks is not in it. */
  lemma {:induction false} WithoutFirstNotContained(haystack: string, needle: string)
    requires needle != [] && needle[0] !in haystack
    ensures !Contains(haystack, needle)
    decreases |haystack|
  {
    if haystack != [] {
      assert haystack[1..] <= haystack[1..];
      WithoutFirstNotContained(haystack[1..], needle);
    }
  }

  /** For the four formats: csv is never validated, and xlsx with a schema is refused. */
  lemma SupportedFormatDispatch(lib: JsonLib, xml: XmlLib, schema: string, value: string)
    ensures ReponseSchemaOutcome(lib, xml, "csv", schema, value) == Pass
    ensures !Empty(Str(schema)) ==> ReponseSchemaOutcome(lib, xml, "xlsx", schema, value) == Fail(Runtime(FormatNotSupported))
    ensures !Empty(Str(schema)) ==> ReponseSchemaOutcome(lib, xml, "json", schema, value) == ResponseJsonOutcome(lib, value, schema)
    ensures !Empty(Str(schema)) ==> ReponseSchemaOutcome(lib, xml, "xml", schema, value) == ResponseXmlOutcome(xml, value, schema)
  {
    assert Contains("csv", "csv") && Contains("json", "json") && Contains("xml", "xml");
    ShorterNotContained("csv", "json");
    ShorterNotContained("xml", "json");
    WithoutFirstNotContained("csv", "xml");
    WithoutFirstNotContained("xlsx", "json");
    WithoutFirstNotContained("xlsx", "csv");
    assert "xml"[1] != "xlsx"[1];
    assert "xlsx"[1..] == "lsx";
    assert "lsx"[1..] == "sx";
    assert "lsx"[0] != "xml"[0];
    ShorterNotContained("sx", "xml");
  }

  class Response {
    var format: string
    var statusCode: Value
    var content: Value
    var schema: string
    var headerLocation: Value
    var headerContentType: Value

    /** The format is always one of the four. */
    predicate Valid()
      reads this
    {
      format in SupportedFormats
    }

    constructor (format: string, statusCode: Value)
      requires format in SupportedFormats
      ensures Valid()
      ensures this.format == format && this.statusCode == statusCode
      ensures content == Null && schema == "" && headerLocation == Null && headerContentType == Null
    {
      this.format := format;
      this.statusCode := statusCode;
      content := Null;
      schema := "";
      headerLocation := Null;
      headerContentType := Null;
    }

    /** new Response($router, $format, $statusCode): a format outside the four raises. */
    static method Create(format: string, statusCode: Value) returns (r: Result<Response, Failure>)
      ensures r.Ok? <==> format in SupportedFormats
      ensures r.Ok? ==> fresh(r.value) && r.value.Valid() && r.value.format == format && r.value.statusCode == statusCode
      ensures r.Ok? ==> r.value.content == Null && r.value.schema == "" && r.value.headerLocation == Null && r.value.headerContentType == Null
      ensures r.Err? ==> r.error == Runtime(FormatNotSupported)
    {
      if format !in SupportedFormats {
        return Err(Runtime(FormatNotSupported));
      }
      var response := new Response(format, statusCode);
      return Ok(response);
    }

    /** setFormat: exactly the four formats are accepted; anything else raises and keeps the old format. */
    method SetFormat(f: string) returns (outcome: Outcome)
      requires Valid()
      modifies this
      ensures Valid()
      ensures outcome == Pass <==> f in SupportedFormats
      ensures outcome == Pass ==> format == f
      ensures outcome != Pass ==> outcome == Fail(Runtime(FormatNotSupported)) && format == old(format)
      ensures statusCode == old(statusCode) && content == old(content) && schema == old(schema)
      ensures headerLocation == old(headerLocation) && headerContentType == old(headerContentType)
    {
      if f !in SupportedFormats {
        return Fail(Runtime(FormatNotSupported));
      }
      format := f;
      return Pass;
    }

    method SetStatusCode(code: Value)
      modifies this
      ensures statusCode == code && format == old(format) && content == old(content) && schema == old(schema)
      ensures headerLocation == old(headerLocation) && headerContentType == old(headerContentType)
    {
      statusCode := code;
    }

    method SetLocation(location: Value)
      modifies this
      ensures headerLocation == location && format == old(format) && content == old(content) && schema == old(schema)
      ensures statusCode == old(statusCode) && headerContentType == old(headerContentType)
    {
      headerLocation := location;
    }

    method SetContentType(contentType: Value)
      modifies this
      ensures headerContentType == contentType && format == old(format) && content == old(content) && schema == old(schema)
      ensures statusCode == old(statusCode) && headerLocation == old(headerLocation)
    {
      headerContentType := contentType;
    }

    method SetSchema(s: string)
      modifies this
      ensures schema == s && format == old(format) && content == old(content)
      ensures statusCode == old(statusCode) && headerLocation == old(headerLocation) && headerContentType == old(headerContentType)
    {
      schema := s;
    }

    /** getConfiguredHeaders, built one header at a time. */
    method GetConfiguredHeaders() returns (headers: map<string, Value>)
      ensures headers == ConfiguredHeaders(headerContentType, headerLocation)
    {
      headers := map[];
      if !Empty(headerContentType) {
        headers := headers["Content-Type" := headerContentType];
      }
      if !Empty(headerLocation) {
        headers := headers["Location" := headerLocation];
      }
    }

    /**
     * setContent: the content is stored first and then checked against the
     * schema as JSON text (json_encode with its default flags, not the
     * serialiser's flags), so a failed check still leaves it stored.
     */
    method SetContent(c: Value, enc: Encoders, lib: JsonLib, xml: XmlLib) returns (outcome: Outcome)
      modifies this
      ensures content == c
      ensures outcome == ReponseSchemaOutcome(lib, xml, format, schema, enc.plainJson(c))
      ensures format == old(format) && schema == old(schema) && statusCode == old(statusCode)
      ensures headerLocation == old(headerLocation) && headerContentType == old(headerContentType)
    {
      content := c;
      outcome := AssertReponseSchema(lib, xml, format, schema, enc.plainJson(c));
    }

    /** getRouterResponse's body: the content, serialised in the response's format when asked to. */
    method Body(enc: Encoders, autoSerialize: bool) returns (r: Result<Value, Failure>)
      requires Valid()
      ensures !autoSerialize ==> r == Ok(content)
      ensures autoSerialize ==> (r.Ok? <==> Serialize(enc, content, format).Ok?)
      ensures autoSerialize && r.Ok? ==> r.value == Str(Serialize(enc, content, format).value)
    {
      if !autoSerialize {
        return Ok(content);
      }
      match Serialize(enc, content, format)
      case Ok(text) => return Ok(Str(text));
      case Err(f) => return Err(f);
    }
  }

  /** assertReponseSchema, run through the JSON validator object. */
  method AssertReponseSchema(lib: JsonLib, xml: XmlLib, format: string, schema: string, value: string) returns (outcome: Outcome)
    ensures outcome == ReponseSchemaOutcome(lib, xml, format, schema, value)
  {
    if Empty(Str(schema)) {
      return Pass;
    }
    if Contains(format, "json") {
      outcome := AssertResponseJson(lib, value, schema);
    } else if Contains(format, "xml") {
      outcome := ResponseXmlOutcome(xml, value, schema);
    } else if Contains(format, "csv") {
      outcome := Pass;
    } else {
      outcome := Fail(Runtime(FormatNotSupported));
    }
  }

  /** A content that fails its check is still stored (setContent assigns before asserting). */
  lemma FailedContentStaysSet(lib: JsonLib, xml: XmlLib, enc: Encoders, schema: string, c: Value)
    requires !Empty(Str(schema))
    requires Check(lib, enc.plainJson(c), schema).Ok? && Check(lib, enc.plainJson(c), schema).value != []
    ensures ReponseSchemaOutcome(lib, xml, "json", schema, enc.plainJson(c)) == Fail(InvalidResponsePayloadBody(Check(lib, enc.plainJson(c), schema).value))
  {
    SupportedFormatDispatch(lib, xml, schema, enc.plainJson(c));
  }
}
