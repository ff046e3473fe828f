/**
 * RREST: the glue between an API specification and a router.  addRoute
 * checks the request's Accept and Content-Type headers and its protocol
 * against the specification, picks the success status code and the response
 * format, and registers the route under both spellings of its path (with and
 * without a trailing slash) with a closure that, on each request, asserts the
 * parameters and the payload body and hands their typed values to the router.
 *
 * The router is represented by the Silex provider model; what RREST reads
 * from the API specification is the ApiView value; foreign libraries arrive
 * as the functions of a Foreign value.
 */
module Rrest {
  import opened Php
  import opened Errors
  import opened Casting
  import opened Parameters
  import opened ParameterSweep
  import opened AssertParameters
  import opened JsonValidation
  import opened ResponseModel
  import opened AcceptValidation
  import opened ContentTypeValidation
  import opened ProtocolValidation
  import opened Controllers
  import HttpUtil
  import SilexProvider

  // ---------------------------------------------------------------------
  // Route paths
  // ---------------------------------------------------------------------

  predicate EndsWithSlash(s: string)
  {
    s != [] && s[|s| - 1] == '/'
  }

  /**
   * getRoutePaths: the declared path, then the same path with its trailing
   * slash removed, or added when it has none.
   */
  function RoutePaths(path: string): (r: seq<string>)
    ensures |r| == 2 && r[0] == path
    ensures r[0] == r[1] + "/" <==> EndsWithSlash(path)
    ensures !EndsWithSlash(path) ==> r[1] == path + "/"
  {
    [path, if EndsWithSlash(path) then path[..|path| - 1] else path + "/"]
  }

  /**
   * Registering the second path again gives back the first one, unless the
   * path ends with two slashes.
   */
  lemma RoutePathsToggle(path: string)
    requires !(EndsWithSlash(path) && EndsWithSlash(path[..|path| - 1]))
    ensures RoutePaths(RoutePaths(path)[1])[1] == path
  {
    var other := RoutePaths(path)[1];
    if EndsWithSlash(path) {
      assert !EndsWithSlash(other);
      assert other + "/" == path;
    } else {
      assert other == path + "/";
      assert other[..|other| - 1] == path;
    }
  }

  // ---------------------------------------------------------------------
  // Success status code
  // ---------------------------------------------------------------------

  /** The regular expression ^[23]0\d?$ over a text. */
  predicate SuccessPattern(t: string)
  {
    && (|t| == 2 || |t| == 3)
    && (t[0] == '2' || t[0] == '3')
    && t[1] == '0'
    && (|t| == 3 ==> IsDigit(t[2]))
  }

  /** preg_match applied to a status code reads its decimal text. */
  predicate IsSuccessCode(code: int)
  {
    SuccessPattern(IntToString(code))
  }

  lemma DigitCharValue(d: nat)
    requires d < 10
    ensures DigitValue(DigitChar(d)) == d
  {
  }

  /** The codes the pattern accepts: 20, 30, 200 to 209 and 300 to 309. */
  lemma SuccessCodeRange(code: int)
    ensures IsSuccessCode(code) <==> code == 20 || code == 30 || 200 <= code <= 209 || 300 <= code <= 309
  {
    if code < 0 {
      assert IntToString(code)[0] == '-';
    } else {
      assert IntToString(code) == NatToString(code);
      NatToStringLength(code);
      if 10 <= code < 100 {
        TwoDigitSuccess(code);
      } else if 100 <= code < 1000 {
        ThreeDigitSuccess(code);
      }
    }
  }

  /** A two-digit code is a success code when its digits are 2 or 3, then 0. */
  lemma TwoDigitSuccess(code: nat)
    requires 10 <= code < 100
    ensures SuccessPattern(NatToString(code)) <==> code == 20 || code == 30
  {
    var t := NatToString(code);
    var hi, lo := code / 10, code % 10;
    assert NatToString(hi) == [DigitChar(hi)];
    assert t == [DigitChar(hi)] + [DigitChar(lo)];
    DigitCharValue(hi);
    DigitCharValue(lo);
    assert t[0] == DigitChar(hi) && t[1] == DigitChar(lo);
  }

  /** A three-digit code is a success code when its first digits are 2 or 3, then 0. */
  lemma ThreeDigitSuccess(code: nat)
    requires 100 <= code < 1000
    ensures SuccessPattern(NatToString(code)) <==> 200 <= code <= 209 || 300 <= code <= 309
  {
    var t := NatToString(code);
    var hi, mid, lo := code / 100, (code / 10) % 10, code % 10;
    assert (code / 10) / 10 == hi && hi < 10;
    assert NatToString(code / 10) == [DigitChar(hi)] + [DigitChar(mid)];
    assert t == [DigitChar(hi)] + [DigitChar(mid)] + [DigitChar(lo)];
    DigitCharValue(hi);
    DigitCharValue(mid);
    assert t[0] == DigitChar(hi) && t[1] == DigitChar(mid) && IsDigit(t[2]);
  }

  /** array_filter: the codes that keep holds for, in declaration order. */
  function Filter(codes: seq<int>, keep: int -> bool): (r: seq<int>)
    ensures |r| <= |codes|
    ensures forall c :: c in r <==> c in codes && keep(c)
  {
    if codes == [] then []
    else (if keep(codes[0]) then [codes[0]] else []) + Filter(codes[1..], keep)
  }

  lemma {:induction false} FilterAppend(a: seq<int>, b: seq<int>, keep: int -> bool)
    ensures Filter(a + b, keep) == Filter(a, keep) + Filter(b, keep)
    decreases |a|
  {
    if a == [] {
      assert a + b == b;
    } else {
      assert (a + b)[1..] == a[1..] + b;
      FilterAppend(a[1..], b, keep);
    }
  }

  lemma {:induction false} FilterNone(codes: seq<int>, keep: int -> bool)
    requires forall j :: 0 <= j < |codes| ==> !keep(codes[j])
    ensures Filter(codes, keep) == []
    decreases |codes|
  {
    if codes != [] {
      assert forall j :: 0 <= j < |codes| - 1 ==> codes[1..][j] == codes[j + 1];
      FilterNone(codes[1..], keep);
    }
  }

  /** The filter keeps exactly the one code it holds for. */
  lemma {:induction false} FilterOne(codes: seq<int>, i: nat, keep: int -> bool)
    requires i < |codes| && keep(codes[i])
    requires forall j :: 0 <= j < |codes| && j != i ==> !keep(codes[j])
    ensures Filter(codes, keep) == [codes[i]]
    decreases |codes|
  {
    var rest := codes[1..];
    assert forall j :: 0 <= j < |rest| ==> rest[j] == codes[j + 1];
    if i == 0 {
      FilterNone(rest, keep);
      assert Filter(codes, keep) == [codes[0]] + Filter(rest, keep);
    } else {
      assert !keep(codes[0]);
      FilterOne(rest, i - 1, keep);
      assert Filter(codes, keep) == Filter(rest, keep);
    }
  }

  /** The filter keeps two codes it holds for, at two positions. */
  lemma FilterTwo(codes: seq<int>, i: nat, j: nat, keep: int -> bool)
    requires i < j < |codes| && keep(codes[i]) && keep(codes[j])
    ensures |Filter(codes, keep)| >= 2
  {
    var before, after := codes[..j], codes[j..];
    assert codes == before + after;
    FilterAppend(before, after, keep);
    assert codes[i] == before[i];
    assert codes[i] in Filter(before, keep);
    assert codes[j] == after[0];
    assert codes[j] in Filter(after, keep);
  }

  /** The success codes, in declaration order. */
  function SuccessCodes(codes: seq<int>): (r: seq<int>)
    ensures forall c :: c in r <==> c in codes && IsSuccessCode(c)
  {
    Filter(codes, IsSuccessCode)
  }

  const MultipleSuccessCodes: string := "You can't define multiple 20x for one resource path!"

  /** getStatusCodeSuccess: exactly one success code must be declared. */
  function StatusCodeSuccess(codes: seq<int>): (r: Result<int, Failure>)
    ensures r.Ok? <==> |SuccessCodes(codes)| == 1
    ensures r.Ok? ==> IsSuccessCode(r.value) && r.value in codes
    ensures r.Err? ==> r.error == Runtime(MultipleSuccessCodes)
  {
    var found := SuccessCodes(codes);
    if |found| == 1 then
      assert found[0] in found;
      Ok(found[0])
    else
      Err(Runtime(MultipleSuccessCodes))
  }

  /** A code that is the only success code is the one chosen. */
  lemma OneSuccessCode(codes: seq<int>, i: nat)
    requires i < |codes| && IsSuccessCode(codes[i])
    requires forall j :: 0 <= j < |codes| && j != i ==> !IsSuccessCode(codes[j])
    ensures StatusCodeSuccess(codes) == Ok(codes[i])
  {
    FilterOne(codes, i, IsSuccessCode);
  }

  /** Two declared success codes are a configuration error. */
  lemma TwoSuccessCodes(codes: seq<int>, i: nat, j: nat)
    requires i < j < |codes| && IsSuccessCode(codes[i]) && IsSuccessCode(codes[j])
    ensures StatusCodeSuccess(codes) == Err(Runtime(MultipleSuccessCodes))
  {
    FilterTwo(codes, i, j, IsSuccessCode);
  }

  // ---------------------------------------------------------------------
  // Response format and MIME type
  // ---------------------------------------------------------------------

  /** Formats in declaration order, each with the MIME types that select it. */
  type MimeTable = seq<(string, seq<string>)>

  /** RREST::$supportedMimeTypes. */
  const SupportedMimeTypes: MimeTable := [
    ("json", ["application/json", "application/x-json"]),
    ("xml", ["text/xml", "application/xml", "application/x-xml"]),
    ("csv", ["text/csv", "application/csv"])
  ]

  /** in_array($mimeType, $mimeTypes): a missing MIME type (null) matches none of the non-empty entries. */
  predicate Selects(mime: Option<string>, group: seq<string>)
  {
    mime.Some? && InArray(mime.value, group)
  }

  /** The position of the first format whose group holds the MIME type. */
  function FirstSelecting(mime: Option<string>, table: MimeTable): (r: Option<nat>)
    ensures r.None? <==> forall k :: 0 <= k < |table| ==> !Selects(mime, table[k].1)
    ensures r.Some? ==> r.value < |table| && Selects(mime, table[r.value].1)
                        && forall j :: 0 <= j < r.value ==> !Selects(mime, table[j].1)
  {
    if table == [] then None
    else if Selects(mime, table[0].1) then Some(0)
    else
      var rest := FirstSelecting(mime, table[1..]);
      assert forall k :: 1 <= k < |table| ==> table[1..][k - 1] == table[k];
      match rest
      case None => None
      case Some(k) => Some(k + 1)
  }

  /**
   * The format the loop of getFormat leaves, as written: the first format
   * whose group holds the MIME type, or, when none does, the last format of
   * the table, because the loop variable keeps its last value.
   */
  function FormatAsWritten(mime: Option<string>, table: MimeTable): (r: Option<string>)
    ensures r.None? <==> table == []
    ensures r.Some? ==> exists k :: 0 <= k < |table| && table[k].0 == r.value
  {
    if table == [] then None
    else match FirstSelecting(mime, table)
      case Some(k) => Some(table[k].0)
      case None => Some(table[|table| - 1].0)
  }

  /** The format getFormat is meant to find: the first format whose group holds the MIME type, none otherwise. */
  function FormatFor(mime: Option<string>, table: MimeTable): (r: Option<string>)
    ensures r.None? <==> forall k :: 0 <= k < |table| ==> !Selects(mime, table[k].1)
    ensures r.Some? ==> exists k :: 0 <= k < |table| && table[k].0 == r.value && Selects(mime, table[k].1)
  {
    match FirstSelecting(mime, table)
    case Some(k) => Some(table[k].0)
    case None => None
  }

  /** Whenever some format matches, the loop as written and the intended lookup agree. */
  lemma AsWrittenAgreesOnMatch(mime: Option<string>, table: MimeTable)
    requires exists k :: 0 <= k < |table| && Selects(mime, table[k].1)
    ensures FormatAsWritten(mime, table) == FormatFor(mime, table)
  {
  }

  /**
   * The loop of getFormat as written: it assigns each format in turn and
   * stops at the first group holding the MIME type.
   */
  method GetFormatAsWritten(mime: Option<string>, table: MimeTable) returns (format: Option<string>)
    ensures format == FormatAsWritten(mime, table)
  {
    format := None;
    var i := 0;
    while i < |table|
      invariant 0 <= i <= |table|
      invariant forall j :: 0 <= j < i ==> !Selects(mime, table[j].1)
      invariant i == 0 ==> format == None
      invariant i > 0 ==> format == Some(table[i - 1].0)
    {
      format := Some(table[i].0);
      if mime.Some? && InArray(mime.value, table[i].1) {
        assert Selects(mime, table[i].1);
        return;
      }
      i := i + 1;
    }
  }

  /** getFormat as intended: the first format whose group holds the MIME type, none when no group does. */
  method GetFormat(mime: Option<string>, table: MimeTable) returns (format: Option<string>)
    ensures format == FormatFor(mime, table)
  {
    var i := 0;
    while i < |table|
      invariant 0 <= i <= |table|
      invariant forall j :: 0 <= j < i ==> !Selects(mime, table[j].1)
    {
      if mime.Some? && InArray(mime.value, table[i].1) {
        assert Selects(mime, table[i].1);
        return Some(table[i].0);
      }
      i := i + 1;
    }
    return None;
  }

  lemma HtmlIsNotNumeric()
    ensures !IsNumericString("text/html")
  {
    WordIsNotNumeric("text/html");
  }

  /**
   * A MIME type of no group, or no Accept header at all, selects csv as
   * written; the intended lookup selects nothing, so getResponse would
   * report that no supported format was found.
   */
  lemma UnknownMimeTypeSelectsCsv()
    ensures FormatAsWritten(Some("text/html"), SupportedMimeTypes) == Some("csv")
    ensures FormatFor(Some("text/html"), SupportedMimeTypes) == None
    ensures FormatAsWritten(None, SupportedMimeTypes) == Some("csv")
    ensures FormatFor(None, SupportedMimeTypes) == None
  {
    HtmlIsNotNumeric();
    forall k | 0 <= k < |SupportedMimeTypes|
      ensures !Selects(Some("text/html"), SupportedMimeTypes[k].1)
    {
      InArrayIsMembership("text/html", SupportedMimeTypes[k].1);
    }
  }

  /** The position of the first entry with the given format. */
  function KeyPosition(table: MimeTable, key: string): (r: Option<nat>)
    ensures r.None? <==> forall k :: 0 <= k < |table| ==> table[k].0 != key
    ensures r.Some? ==> r.value < |table| && table[r.value].0 == key
                        && forall j :: 0 <= j < r.value ==> table[j].0 != key
  {
    if table == [] then None
    else if table[0].0 == key then Some(0)
    else
      var rest := KeyPosition(table[1..], key);
      assert forall k :: 1 <= k < |table| ==> table[1..][k - 1] == table[k];
      match rest
      case None => None
      case Some(k) => Some(k + 1)
  }

  /** getMimeType: the first MIME type of the format's group; none for a missing or unknown format. */
  function MimeTypeOf(format: Option<string>, table: MimeTable): (r: Option<string>)
    ensures format.None? ==> r.None?
    ensures r.Some? ==> exists k :: 0 <= k < |table| && table[k].0 == format.value && table[k].1 != [] && r.value == table[k].1[0]
  {
    if format.None? then None
    else match KeyPosition(table, format.value)
      case None => None
      case Some(k) => if table[k].1 == [] then None else Some(table[k].1[0])
  }

  /**
   * A table whose formats are distinct and non-empty groups of non-numeric
   * MIME types, no type in two groups.
   */
  predicate WellFormedTable(table: MimeTable)
  {
    && (forall i, j :: 0 <= i < j < |table| ==> table[i].0 != table[j].0)
    && (forall i :: 0 <= i < |table| ==> table[i].1 != [])
    && (forall i, m :: 0 <= i < |table| && m in table[i].1 ==> !IsNumericString(m))
    && (forall i, j, m :: 0 <= i < |table| && 0 <= j < |table| && i != j && m in table[i].1 ==> m !in table[j].1)
  }

  /** In a well-formed table, every type of a group selects that group's format. */
  lemma FormatOfMember(table: MimeTable, k: nat, m: string)
    requires WellFormedTable(table) && k < |table| && m in table[k].1
    ensures FormatFor(Some(m), table) == Some(table[k].0)
  {
    forall j | 0 <= j < |table|
      ensures Selects(Some(m), table[j].1) <==> j == k
    {
      InArrayIsMembership(m, table[j].1);
    }
  }

  /** A format's MIME type selects the format again, in a well-formed table. */
  lemma MimeTypeRoundTrip(table: MimeTable, k: nat)
    requires WellFormedTable(table) && k < |table|
    ensures MimeTypeOf(Some(table[k].0), table) == Some(table[k].1[0])
    ensures FormatFor(MimeTypeOf(Some(table[k].0), table), table) == Some(table[k].0)
  {
    assert KeyPosition(table, table[k].0) == Some(k);
    FormatOfMember(table, k, table[k].1[0]);
  }

  /** Any accepted MIME type maps to its format, whose first MIME type is sent back. */
  lemma FormatThenMimeType(table: MimeTable, k: nat, m: string)
    requires WellFormedTable(table) && k < |table| && m in table[k].1
    ensures MimeTypeOf(FormatFor(Some(m), table), table) == Some(table[k].1[0])
  {
    FormatOfMember(table, k, m);
    assert KeyPosition(table, table[k].0) == Some(k);
  }

  lemma SupportedMimeTypesWellFormed()
    ensures WellFormedTable(SupportedMimeTypes)
  {
    SupportedMimeTypesAreWords();
    SupportedMimeGroupsDisjoint();
  }

  /** Every supported MIME type starts with a letter, so none is numeric. */
  lemma SupportedMimeTypesAreWords()
    ensures forall i, m :: 0 <= i < |SupportedMimeTypes| && m in SupportedMimeTypes[i].1 ==> !IsNumericString(m)
  {
    var t := SupportedMimeTypes;
    forall i, m | 0 <= i < |t| && m in t[i].1
      ensures !IsNumericString(m)
    {
      WordIsNotNumeric(m);
    }
  }

  /** No supported MIME type selects two formats. */
  lemma SupportedMimeGroupsDisjoint()
    ensures forall i, j, m :: 0 <= i < |SupportedMimeTypes| && 0 <= j < |SupportedMimeTypes| && i != j && m in SupportedMimeTypes[i].1
                              ==> m !in SupportedMimeTypes[j].1
  {
  }

  // ---------------------------------------------------------------------
  // The response built for a route
  // ---------------------------------------------------------------------

  const NoSupportedFormat: string := "Can't find a supported format for this Accept header.\n                RRest only support json & xml."

  /** getMimeType's false, when no MIME type is found, is the header value. */
  function MimeValue(mime: Option<string>): Value
  {
    if mime.Some? then Str(mime.value) else Bool(false)
  }

  /** getResponse: a response in the chosen format, with the success code and the format's MIME type. */
  method GetResponse(statusCode: int, format: Option<string>, mimeType: Option<string>) returns (r: Result<Response, Failure>)
    ensures format.None? ==> r == Err(Runtime(NoSupportedFormat))
    ensures format.Some? ==> (r.Ok? <==> format.value in SupportedFormats)
    ensures format.Some? && r.Err? ==> r.error == Runtime(FormatNotSupported)
    ensures r.Ok? ==> && fresh(r.value) && r.value.Valid()
                      && r.value.format == format.value && r.value.statusCode == Int(statusCode)
                      && r.value.headerContentType == MimeValue(mimeType)
                      && r.value.content == Null && r.value.schema == "" && r.value.headerLocation == Null
  {
    if format.None? {
      return Err(Runtime(NoSupportedFormat));
    }
    var created := Response.Create(format.value, Int(statusCode));
    if created.Err? {
      return Err(created.error);
    }
    var response := created.value;
    response.SetContentType(MimeValue(mimeType));
    return Ok(response);
  }

  /**
   * The response addRoute hands to the router, for the success status code,
   * the best Accept value and the response schema it was given.
   */
  predicate BuiltFor(response: Response, code: int, best: Option<string>, schema: string)
    reads response
  {
    var format := FormatAsWritten(best, SupportedMimeTypes);
    && format.Some? && response.Valid()
    && response.format == format.value && response.statusCode == Int(code)
    && response.headerContentType == MimeValue(MimeTypeOf(format, SupportedMimeTypes))
    && response.schema == schema && response.content == Null && response.headerLocation == Null
  }

  /**
   * The response part of addRoute: the format getFormat leaves for the best
   * Accept value, its MIME type, getResponse, and the schema (empty when
   * responses are not asserted).  getFormat as written always leaves a
   * format of RREST's table, so getResponse never raises here: an Accept
   * value of no group gets a csv response.
   */
  method BuildResponse(code: int, best: Option<string>, schema: string) returns (r: Result<Response, Failure>)
    ensures r.Ok? && fresh(r.value) && BuiltFor(r.value, code, best, schema)
  {
    var format := GetFormatAsWritten(best, SupportedMimeTypes);
    TableFormatsSupported(best);
    var mimeType := MimeTypeOf(format, SupportedMimeTypes);
    r := GetResponse(code, format, mimeType);
    r.value.SetSchema(schema);
  }

  // ---------------------------------------------------------------------
  // What RREST reads and what it hands to the router
  // ---------------------------------------------------------------------

  /** What RREST reads from the API specification (APISpecInterface). */
  datatype ApiView = ApiView(
    routePath: string,
    routeMethod: string,
    authTypes: seq<string>,
    ressourcePath: string,
    statusCodes: seq<int>,
    protocols: seq<string>,
    parameters: seq<ParamSpec>,
    requestContentTypes: seq<string>,
    responseContentTypes: seq<string>,
    /** getRequestPayloadBodySchema: none when no body of that type is declared. */
    requestSchema: string -> Option<string>,
    /** getResponsePayloadBodySchema for a status code and an Accept value. */
    responseSchema: (int, Option<string>) -> Option<string>)

  /** The foreign code RREST relies on. */
  datatype Foreign = Foreign(
    negotiate: Negotiate,
    caster: Caster,
    matches: Matcher,
    json: JsonLib,
    xml: XmlLib,
    /** json_decode(json_encode(simplexml_load_string($value))). */
    xmlToObject: string -> Value,
    reflection: Reflection)

  /** The request: its headers and the server variables. */
  datatype Request = Request(headers: HttpUtil.Pairs, server: HttpUtil.Pairs)

  /** Route: the path, the HTTP method and the authentication types of a registered route. */
  datatype Route = Route(path: string, verb: string, authTypes: seq<string>)

  /** One router->addRoute call, with what its closure captured. */
  datatype RouterEntry = RouterEntry(
    path: string,
    verb: string,
    controllerClass: string,
    action: string,
    response: Response,
    contentType: Option<string>,
    requestSchema: Option<string>,
    payloadBody: string)

  /** A header value as text; a missing header is null. */
  function HeaderText(v: Value): Option<string>
  {
    if v.Str? then Some(v.s) else None
  }

  function TextOr(o: Option<string>): string
  {
    if o.Some? then o.value else ""
  }

  function AcceptHeader(req: Request): Option<string>
  {
    HeaderText(HttpUtil.GetHeader("Accept", req.headers, req.server))
  }

  function ContentTypeHeader(req: Request): Option<string>
  {
    HeaderText(HttpUtil.GetHeader("Content-Type", req.headers, req.server))
  }

  /** The Accept value the response is built for: the negotiated best match. */
  function BestAcceptOf(api: ApiView, req: Request, f: Foreign): Option<string>
  {
    BestAccept(Lower(TextOr(AcceptHeader(req))), LowerAll(api.responseContentTypes), f.negotiate)
  }

  const NoContentTypeDefined: string := "No content type defined for this response"

  /**
   * The exception the request checks of addRoute raise, in their order: no
   * declared response type, the Accept header, the Content-Type header,
   * the protocol.
   */
  function RequestFailure(api: ApiView, req: Request, f: Foreign): (r: Option<Failure>)
    ensures r.Some? ==> r.value in [Runtime(NoContentTypeDefined), NotAcceptable, UnsupportedMediaType, AccessDenied]
  {
    if api.responseContentTypes == [] then Some(Runtime(NoContentTypeDefined))
    else if AcceptVerdict(Lower(TextOr(AcceptHeader(req))), LowerAll(api.responseContentTypes), f.negotiate).Some? then Some(NotAcceptable)
    else if !ContentTypeAccepted(Lower(TextOr(ContentTypeHeader(req))), LowerAll(api.requestContentTypes)) then Some(UnsupportedMediaType)
    else if ProtocolVerdict(Lower(HttpUtil.GetProtocol(req.server)), LowerAll(api.protocols)).Some? then Some(AccessDenied)
    else None
  }

  /**
   * The exception the rest of addRoute raises once the request is
   * accepted: the success status code, then the controller class and its
   * action method.  Both are runtime errors of the specification or the
   * controllers.  The response in between never fails: getFormat as
   * written always leaves a supported format (TableFormatsSupported).
   */
  function SetupFailure(api: ApiView, namespace: string, best: Option<string>, f: Foreign): (r: Option<Failure>)
    ensures r.Some? ==> r.value.Runtime?
    ensures r.None? <==> StatusCodeSuccess(api.statusCodes).Ok?
                         && Controller(namespace, api.ressourcePath, api.routeMethod).ActionMethodName(f.reflection).Ok?
  {
    var controller := Controller(namespace, api.ressourcePath, api.routeMethod);
    if StatusCodeSuccess(api.statusCodes).Err? then Some(StatusCodeSuccess(api.statusCodes).error)
    else if controller.ActionMethodName(f.reflection).Err? then Some(controller.ActionMethodName(f.reflection).error)
    else None
  }

  /** The exception addRoute raises: the request's first, then the setup's. */
  function RouteFailure(api: ApiView, namespace: string, req: Request, f: Foreign): Option<Failure>
  {
    if RequestFailure(api, req, f).Some? then RequestFailure(api, req, f)
    else SetupFailure(api, namespace, BestAcceptOf(api, req, f), f)
  }

  /**
   * The request checks of addRoute, validator by validator: the exception
   * the first failing one raises, else the best Accept value.
   */
  method CheckRequest(api: ApiView, req: Request, f: Foreign) returns (failure: Option<Failure>, accept: Option<string>)
    ensures failure == RequestFailure(api, req, f)
    ensures failure.None? ==> accept == BestAcceptOf(api, req, f)
  {
    accept := None;
    var created := AcceptValidator.Create(AcceptHeader(req), Some(api.responseContentTypes), f.negotiate);
    if created.Err? {
      return Some(created.error), accept;
    }
    var acceptValidator := created.value;
    var acceptFails := acceptValidator.Fails();
    if acceptFails {
      var e := acceptValidator.GetException();
      return Some(e.value), accept;
    }
    accept := acceptValidator.GetBestAccept();

    var contentTypeValidator := new ContentTypeValidator(TextOr(ContentTypeHeader(req)), api.requestContentTypes);
    var contentTypeFails := contentTypeValidator.Fails();
    if contentTypeFails {
      var e := contentTypeValidator.GetException();
      return Some(e.value), accept;
    }

    var protocolValidator := new ProtocolValidator(HttpUtil.GetProtocol(req.server), api.protocols);
    var protocolFails := protocolValidator.Fails();
    if protocolFails {
      var e := protocolValidator.GetException();
      return Some(e.value), accept;
    }
    failure := None;
  }

  /**
   * The registration loop of addRoute: one router entry per route path,
   * every one for the controller's class and action; the loop variable
   * that outlives the loop (the last path) is the path of the Route.
   */
  method RegisterRoutes(routePaths: seq<string>, verb: string, controller: Controller, reflection: Reflection,
                        response: Response, contentType: Option<string>, requestSchema: Option<string>, payloadBody: string)
    returns (r: Result<string, Failure>, entries: seq<RouterEntry>)
    requires routePaths != []
    ensures controller.ActionMethodName(reflection).Err? ==> r == Err(controller.ActionMethodName(reflection).error)
    ensures controller.ActionMethodName(reflection).Ok? ==>
              && r == Ok(routePaths[|routePaths| - 1])
              && |entries| == |routePaths|
              && forall k :: 0 <= k < |routePaths| ==>
                   entries[k] == RouterEntry(routePaths[k], verb, controller.FullyQualifiedName(reflection).value,
                                             controller.ActionMethodName(reflection).value,
                                             response, contentType, requestSchema, payloadBody)
  {
    ghost var fqnOf, actionOf := controller.FullyQualifiedName(reflection), controller.ActionMethodName(reflection);
    assert fqnOf.Err? ==> actionOf == Err(fqnOf.error);
    entries := [];
    var i := 0;
    while i < |routePaths|
      invariant 0 <= i <= |routePaths|
      invariant |entries| == i
      invariant i > 0 ==> fqnOf.Ok? && actionOf.Ok?
      invariant forall k :: 0 <= k < i ==>
                  entries[k] == RouterEntry(routePaths[k], verb, fqnOf.value, actionOf.value,
                                            response, contentType, requestSchema, payloadBody)
    {
      var fqn := controller.FullyQualifiedName(reflection);
      if fqn.Err? {
        return Err(fqn.error), [];
      }
      var action := controller.ActionMethodName(reflection);
      if action.Err? {
        return Err(action.error), [];
      }
      entries := entries + [RouterEntry(routePaths[i], verb, fqn.value, action.value, response,
                                        contentType, requestSchema, payloadBody)];
      i := i + 1;
    }
    r := Ok(routePaths[|routePaths| - 1]);
  }

  /**
   * Whatever the Accept value, getFormat as written leaves a format of
   * RREST's table, and every such format is one a Response accepts.
   */
  lemma TableFormatsSupported(mime: Option<string>)
    ensures FormatAsWritten(mime, SupportedMimeTypes).Some?
    ensures FormatAsWritten(mime, SupportedMimeTypes).value in SupportedFormats
  {
  }

  // ---------------------------------------------------------------------
  // Hinting the router
  // ---------------------------------------------------------------------

  /**
   * What key reads in bag j once the hinted values of the keys in done were
   * written: the hinted value in the first bag holding the key, the old
   * value anywhere else.
   */
  function HintedValue(before: seq<map<string, Value>>, hinted: map<string, Value>, done: set<string>, j: nat, key: string): Value
    requires done <= hinted.Keys && j < |before| && key in before[j]
  {
    if key in done && SilexProvider.FirstBagWith(before, key) == Some(j) then hinted[key] else before[j][key]
  }

  /**
   * The bags after the hinted values of the keys in done were written: no
   * bag gains or loses a key, and every entry reads as HintedValue says.
   */
  predicate HintedEntries(before: seq<map<string, Value>>, after: seq<map<string, Value>>, hinted: map<string, Value>, done: set<string>)
    requires done <= hinted.Keys
  {
    && |after| == |before|
    && (forall j :: 0 <= j < |before| ==> after[j].Keys == before[j].Keys)
    && (forall j, key :: 0 <= j < |before| && key in before[j] ==> after[j][key] == HintedValue(before, hinted, done, j, key))
  }

  /** After hinting, a hinted key some bag holds reads as its hinted value; other keys read as before. */
  lemma HintedReadBack(before: seq<map<string, Value>>, after: seq<map<string, Value>>, hinted: map<string, Value>, key: string)
    requires HintedEntries(before, after, hinted, hinted.Keys)
    ensures key in hinted && SilexProvider.FirstBagWith(before, key).Some? ==> SilexProvider.Lookup(after, key) == hinted[key]
    ensures key !in hinted ==> SilexProvider.Lookup(after, key) == SilexProvider.Lookup(before, key)
  {
    SilexProvider.SameKeysSameFirstBag(before, after, key);
    match SilexProvider.FirstBagWith(before, key)
    case None =>
    case Some(i) =>
      assert SilexProvider.Lookup(after, key) == after[i][key];
      assert after[i][key] == HintedValue(before, hinted, hinted.Keys, i, key);
  }

  /** Writing one more hinted key keeps the description of the bags. */
  lemma HintStep(before: seq<map<string, Value>>, current: seq<map<string, Value>>, hinted: map<string, Value>, done: set<string>, key: string)
    requires done <= hinted.Keys && key in hinted && key !in done
    requires HintedEntries(before, current, hinted, done)
    ensures HintedEntries(before, SilexProvider.Store(current, key, hinted[key]), hinted, done + {key})
  {
    var next := SilexProvider.Store(current, key, hinted[key]);
    var first := SilexProvider.FirstBagWith(before, key);
    SilexProvider.SameKeysSameFirstBag(before, current, key);
    SilexProvider.StoreKeepsKeys(current, key, hinted[key]);
    forall j, k | 0 <= j < |before| && k in before[j]
      ensures next[j][k] == HintedValue(before, hinted, done + {key}, j, k)
    {
      if k == key && first == Some(j) {
        assert next[j] == current[j][key := hinted[key]];
      } else {
        if first.Some? {
          assert next[first.value] == current[first.value][key := hinted[key]];
          assert j != first.value ==> next[j] == current[j];
        }
        assert next[j][k] == current[j][k];
      }
    }
  }

  // ---------------------------------------------------------------------
  // The payload body
  // ---------------------------------------------------------------------

  /** assertHTTPPayloadBodyXML's outcome: a body that does not load is invalid XML; one that breaks the schema is an invalid request body. */
  function XmlBodyOutcome(xml: XmlLib, value: string, schema: string): (r: Outcome)
    ensures xml.load(value) != [] ==> r == Fail(InvalidXML(XmlErrors(xml.load(value), InvalidPayloadBodyXml)))
    ensures xml.load(value) == [] && xml.schemaValidate(value, schema) != [] ==>
              r == Fail(InvalidRequestPayloadBody(XmlErrors(xml.schemaValidate(value, schema), InvalidPayloadBodyXml)))
    ensures r == Pass <==> xml.load(value) == [] && xml.schemaValidate(value, schema) == []
  {
    if xml.load(value) != [] then Fail(InvalidXML(XmlErrors(xml.load(value), InvalidPayloadBodyXml)))
    else if xml.schemaValidate(value, schema) != [] then Fail(InvalidRequestPayloadBody(XmlErrors(xml.schemaValidate(value, schema), InvalidPayloadBodyXml)))
    else Pass
  }

  /** assertHTTPPayloadBodyJSON's outcome: the validator's decoding failure, or its errors as an invalid request body. */
  function JsonBodyOutcome(lib: JsonLib, value: string, schema: string): (r: Outcome)
    ensures JsonValidation.Check(lib, value, schema).Err? ==> r == Fail(JsonValidation.Check(lib, value, schema).error)
    ensures JsonValidation.Check(lib, value, schema).Ok? ==> (r == Pass <==> JsonValidation.Check(lib, value, schema).value == [])
    ensures JsonValidation.Check(lib, value, schema).Ok? && r.Fail? ==> r == Fail(InvalidRequestPayloadBody(JsonValidation.Check(lib, value, schema).value))
  {
    match JsonValidation.Check(lib, value, schema)
    case Err(f) => Fail(f)
    case Ok(errors) => if errors == [] then Pass else Fail(InvalidRequestPayloadBody(errors))
  }

  /** A body that passes the JSON check decodes. */
  lemma JsonPassDecodes(lib: JsonLib, value: string, schema: string)
    requires JsonBodyOutcome(lib, value, schema) == Pass
    ensures lib.decode(value).Ok? && lib.decode(schema).Ok?
  {
  }

  /** json_decode($value): null for a text that is not JSON. */
  function Decoded(lib: JsonLib, value: string): Value
  {
    if lib.decode(value).Ok? then lib.decode(value).value else Null
  }

  /**
   * assertHTTPPayloadBody's outcome: nothing is checked without a schema; a
   * Content-Type mentioning json is checked as JSON, else one mentioning xml
   * as XML, else nothing is checked.
   */
  function PayloadBodyOutcome(f: Foreign, contentType: string, schema: Option<string>, value: string): Outcome
  {
    if schema.None? then Pass
    else if Contains(contentType, "json") then JsonBodyOutcome(f.json, value, schema.value)
    else if Contains(contentType, "xml") then XmlBodyOutcome(f.xml, value, schema.value)
    else Pass
  }

  /** The hinted payload body after assertHTTPPayloadBody: the decoded body when a check passed, the previous one otherwise. */
  function PayloadHint(f: Foreign, contentType: string, schema: Option<string>, value: string, previous: Value): Value
  {
    if schema.None? || PayloadBodyOutcome(f, contentType, schema, value) != Pass then previous
    else if Contains(contentType, "json") then Decoded(f.json, value)
    else if Contains(contentType, "xml") then f.xmlToObject(value)
    else previous
  }

  /** A body passes exactly when its check passes; an unchecked body always does. */
  lemma PayloadPassIff(f: Foreign, contentType: string, schema: string, value: string)
    ensures Contains(contentType, "json") ==>
              (PayloadBodyOutcome(f, contentType, Some(schema), value) == Pass
               <==> JsonValidation.Check(f.json, value, schema).Ok? && JsonValidation.Check(f.json, value, schema).value == [])
    ensures !Contains(contentType, "json") && Contains(contentType, "xml") ==>
              (PayloadBodyOutcome(f, contentType, Some(schema), value) == Pass
               <==> f.xml.load(value) == [] && f.xml.schemaValidate(value, schema) == [])
    ensures !Contains(contentType, "json") && !Contains(contentType, "xml") ==>
              PayloadBodyOutcome(f, contentType, Some(schema), value) == Pass
              && PayloadHint(f, contentType, Some(schema), value, Null) == Null
  {
  }

  // ---------------------------------------------------------------------
  // RREST
  // ---------------------------------------------------------------------

  const DefaultControllerNamespace: string := "Controllers"

  class RRest {
    const api: ApiView
    const router: SilexProvider.Silex
    const controllerNamespace: string
    const lib: Foreign
    var hintedHTTPParameters: map<string, Value>
    var hintedPayloadBody: Value
    var assertResponse: bool

    constructor (api: ApiView, router: SilexProvider.Silex, controllerNamespace: string, lib: Foreign)
      ensures this.api == api && this.router == router && this.controllerNamespace == controllerNamespace && this.lib == lib
      ensures hintedHTTPParameters == map[] && hintedPayloadBody == Null && assertResponse
    {
      this.api := api;
      this.router := router;
      this.controllerNamespace := controllerNamespace;
      this.lib := lib;
      hintedHTTPParameters := map[];
      hintedPayloadBody := Null;
      assertResponse := true;
    }

    method SetAssertResponse(assert_: bool)
      modifies this
      ensures assertResponse == assert_
      ensures hintedHTTPParameters == old(hintedHTTPParameters) && hintedPayloadBody == old(hintedPayloadBody)
    {
      assertResponse := assert_;
    }

    function GetAssertResponse(): bool
      reads this
    {
      assertResponse
    }

    function ControllerOf(): Controller
    {
      Controller(controllerNamespace, api.ressourcePath, api.routeMethod)
    }

    /**
     * addRoute: the checks of RouteFailure in order, then one router entry
     * per route path, each with the same response and the closure's
     * captured Content-Type, request schema and payload body.
     */
    method AddRoute(req: Request) returns (r: Result<Route, Failure>, entries: seq<RouterEntry>)
      ensures r.Err? <==> RouteFailure(api, controllerNamespace, req, lib).Some?
      ensures r.Err? ==> r.error == RouteFailure(api, controllerNamespace, req, lib).value && entries == []
      ensures r.Ok? ==> r.value == Route(RoutePaths(api.routePath)[1], api.routeMethod, api.authTypes)
      ensures r.Ok? ==> |entries| == 2
      ensures r.Ok? ==>
        var code := StatusCodeSuccess(api.statusCodes).value;
        var best := BestAcceptOf(api, req, lib);
        var response := entries[0].response;
        && (forall k :: 0 <= k < 2 ==>
              entries[k] == RouterEntry(RoutePaths(api.routePath)[k], api.routeMethod,
                                        ControllerOf().FullyQualifiedName(lib.reflection).value,
                                        ControllerOf().ActionMethodName(lib.reflection).value,
                                        response, ContentTypeHeader(req),
                                        api.requestSchema(TextOr(ContentTypeHeader(req))), router.content))
        && fresh(response)
        && BuiltFor(response, code, best, if assertResponse then TextOr(api.responseSchema(code, best)) else "")
    {
      var failure, accept := CheckRequest(api, req, lib);
      if failure.Some? {
        return Err(failure.value), [];
      }
      var contentType := ContentTypeHeader(req);
      var requestSchema := api.requestSchema(TextOr(contentType));
      var payloadBodyValue := router.GetHTTPPayloadBodyValue();
      var statusCodeSuccess := StatusCodeSuccess(api.statusCodes);
      if statusCodeSuccess.Err? {
        return Err(statusCodeSuccess.error), [];
      }
      var routePaths := RoutePaths(api.routePath);
      var responseSchema := api.responseSchema(statusCodeSuccess.value, accept);
      var built := BuildResponse(statusCodeSuccess.value, accept, if assertResponse then TextOr(responseSchema) else "");
      var response := built.value;
      var registered;
      registered, entries := RegisterRoutes(routePaths, api.routeMethod, ControllerOf(), lib.reflection, response,
                                            contentType, requestSchema, payloadBodyValue);
      if registered.Err? {
        return Err(registered.error), [];
      }
      r := Ok(Route(registered.value, api.routeMethod, api.authTypes));
    }

    /** The sweep's view of the request: the router's lookup, RREST's cast and AssertValue. */
    function ParameterEnv(bags: seq<map<string, Value>>): (env: Env)
      ensures env.params == api.parameters
      ensures forall name :: env.lookup(name) == SilexProvider.Lookup(bags, name)
      ensures ChecksWith(env, lib.matches)
    {
      Env(api.parameters,
          name => SilexProvider.Lookup(bags, name),
          (value, typeName) => Cast(lib.caster, value, typeName, "datetime"),
          (p, v) => AssertValue(p, v, lib.matches))
    }

    /**
     * assertHTTPParameters: casts and asserts each declared parameter in
     * turn, recording the cast value of each one that passes; a cast that
     * throws or an assertion that raises a RuntimeException ends the sweep.
     */
    method AssertHTTPParameters() returns (outcome: Outcome)
      modifies this
      ensures outcome == ParametersOutcome(ParameterEnv(router.Bags()))
      ensures hintedHTTPParameters == HintedAfter(ParameterEnv(router.Bags()), old(hintedHTTPParameters))
      ensures hintedPayloadBody == old(hintedPayloadBody) && assertResponse == old(assertResponse)
    {
      var env := ParameterEnv(router.Bags());
      outcome, hintedHTTPParameters := SweepParameters(env, hintedHTTPParameters);
    }

    /** hintHTTPParameterValue: each hinted value is written to the router. */
    method HintHTTPParameterValue(hinted: map<string, Value>)
      modifies router
      ensures HintedEntries(old(router.Bags()), router.Bags(), hinted, hinted.Keys)
    {
      var pending := hinted.Keys;
      while pending != {}
        invariant pending <= hinted.Keys
        invariant HintedEntries(old(router.Bags()), router.Bags(), hinted, hinted.Keys - pending)
        decreases |pending|
      {
        var key :| key in pending;
        HintStep(old(router.Bags()), router.Bags(), hinted, hinted.Keys - pending, key);
        router.SetHTTPParameterValue(key, hinted[key]);
        assert hinted.Keys - (pending - {key}) == (hinted.Keys - pending) + {key};
        pending := pending - {key};
      }
      assert hinted.Keys - pending == hinted.Keys;
    }

    /** assertHTTPPayloadBodyJSON: a conforming body is hinted as its decoded value. */
    method AssertHTTPPayloadBodyJSON(value: string, schema: string) returns (outcome: Outcome)
      modifies this
      ensures outcome == JsonBodyOutcome(lib.json, value, schema)
      ensures outcome == Pass ==> hintedPayloadBody == Decoded(lib.json, value)
      ensures outcome != Pass ==> hintedPayloadBody == old(hintedPayloadBody)
      ensures hintedHTTPParameters == old(hintedHTTPParameters) && assertResponse == old(assertResponse)
    {
      var validator := new JsonValidator(value, schema, lib.json);
      var fails := validator.Fails();
      if fails.Err? {
        return Fail(fails.error);
      }
      if fails.value {
        var errors := validator.GetErrors();
        if errors.Err? {
          assert false;
        }
        return Fail(InvalidRequestPayloadBody(errors.value));
      }
      hintedPayloadBody := Decoded(lib.json, value);
      return Pass;
    }

    /** assertHTTPPayloadBodyXML: a body that loads and conforms is hinted as its object form. */
    method AssertHTTPPayloadBodyXML(value: string, schema: string) returns (outcome: Outcome)
      modifies this
      ensures outcome == XmlBodyOutcome(lib.xml, value, schema)
      ensures outcome == Pass ==> hintedPayloadBody == lib.xmlToObject(value)
      ensures outcome != Pass ==> hintedPayloadBody == old(hintedPayloadBody)
      ensures hintedHTTPParameters == old(hintedHTTPParameters) && assertResponse == old(assertResponse)
    {
      var loadErrors := lib.xml.load(value);
      if loadErrors != [] {
        return Fail(InvalidXML(XmlErrors(loadErrors, InvalidPayloadBodyXml)));
      }
      var schemaErrors := lib.xml.schemaValidate(value, schema);
      if schemaErrors != [] {
        return Fail(InvalidRequestPayloadBody(XmlErrors(schemaErrors, InvalidPayloadBodyXml)));
      }
      hintedPayloadBody := lib.xmlToObject(value);
      return Pass;
    }

    /** assertHTTPPayloadBody: dispatch on the Content-Type. */
    method AssertHTTPPayloadBody(contentType: string, schema: Option<string>, value: string) returns (outcome: Outcome)
      modifies this
      ensures outcome == PayloadBodyOutcome(lib, contentType, schema, value)
      ensures hintedPayloadBody == PayloadHint(lib, contentType, schema, value, old(hintedPayloadBody))
      ensures hintedHTTPParameters == old(hintedHTTPParameters) && assertResponse == old(assertResponse)
    {
      if schema.None? {
        return Pass;
      }
      if Contains(contentType, "json") {
        outcome := AssertHTTPPayloadBodyJSON(value, schema.value);
      } else if Contains(contentType, "xml") {
        outcome := AssertHTTPPayloadBodyXML(value, schema.value);
      } else {
        outcome := Pass;
      }
    }

    /** hintHTTPPayloadBody: the router's request bag becomes the hinted body. */
    method HintHTTPPayloadBody(payload: Value)
      modifies router
      ensures router.Bags() == old(router.Bags())[2 := ToArray(payload)]
    {
      router.SetHTTPPayloadBodyValue(payload);
    }

    /**
     * The closure addRoute registers: assert the parameters, then the
     * payload body, then hand the typed values to the router.  An exception
     * leaves the router as it was.
     */
    method HandleRequest(contentType: Option<string>, requestSchema: Option<string>, payloadBody: string) returns (outcome: Outcome)
      modifies this, router
      ensures assertResponse == old(assertResponse)
      ensures outcome != Pass ==> hintedPayloadBody == old(hintedPayloadBody)
      ensures var env := ParameterEnv(old(router.Bags()));
              outcome == if ParametersOutcome(env) != Pass then ParametersOutcome(env)
                         else PayloadBodyOutcome(lib, TextOr(contentType), requestSchema, payloadBody)
      ensures hintedHTTPParameters == HintedAfter(ParameterEnv(old(router.Bags())), old(hintedHTTPParameters))
      ensures outcome != Pass ==> router.Bags() == old(router.Bags())
      ensures outcome == Pass ==>
                && hintedPayloadBody == PayloadHint(lib, TextOr(contentType), requestSchema, payloadBody, old(hintedPayloadBody))
                && exists middle :: HintedEntries(old(router.Bags()), middle, hintedHTTPParameters, hintedHTTPParameters.Keys)
                                    && router.Bags() == middle[2 := ToArray(hintedPayloadBody)]
    {
      outcome := AssertHTTPParameters();
      if outcome != Pass {
        return;
      }
      outcome := AssertHTTPPayloadBody(TextOr(contentType), requestSchema, payloadBody);
      if outcome != Pass {
        return;
      }
      HintHTTPParameterValue(hintedHTTPParameters);
      ghost var middle := router.Bags();
      HintHTTPPayloadBody(hintedPayloadBody);
      assert router.Bags() == middle[2 := ToArray(hintedPayloadBody)];
    }
  }
}
