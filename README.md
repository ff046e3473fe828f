# RREST decision core in Dafny

RREST connects a RAML API description to a Silex application. For every
route of the description it does the following:

- checks the request's `Accept` header, `Content-Type` header and protocol
  against what the route declares;
- picks the response format, its MIME type and the single success status code;
- registers the route twice, with and without a trailing slash;
- when a request comes in, casts and asserts every declared parameter,
  checks the payload body against its JSON or XML schema, and writes the
  typed values back to the request;
- builds the response's configured headers, serialises its content and,
  when asked, checks the content against the response schema.

Violations of a JSON schema are turned into lists of `Error`s by two
converter tables: a monolithic one and a class-per-keyword one.

This project models that decision code. The files and what each holds:

- `php.dfy`: PHP values (`Value`: null, bool, int, decimal, string, list,
  dictionary, object, date-time). It also holds the string built-ins the core
  uses: `strtolower`, `ucfirst`, `trim`, `explode`/`implode`, `in_array`,
  `empty`, `is_numeric`.
- `errors.dfy`: `Error`, its codes, and the exception kinds with their HTTP
  statuses.
- `parameter.dfy`: the `Parameter` class, with its setters and
  `assertValue`.
- `casting.dfy`: the cast that precedes an assertion.
- `sweep.dfy`: the declarative description of a sweep over the declared
  parameters: what each parameter is asserted with, the errors merged, the
  values recorded.
- `assert_parameters.dfy`: the loop of `RREST::assertHTTPParameters`,
  proved against that description.
- `parameter_validator.dfy`: `ParameterValidator` with its memoised loop, as written, and the loop as intended.
- `request_validator.dfy`: `RequestValidator::assertQueryParameters`.
- `accept_validator.dfy`, `content_type_validator.dfy` and
  `protocol_validator.dfy`: the three negotiators, as classes with a memo
  flag.
- `json_validator.dfy`: `JsonValidator`.
- `field_path.dfy`, `keyword_converters.dfy` and
  `monolithic_converter.dfy`: the conversion of schema violations into
  errors.
- `response.dfy`: the `Response` class, its serialisation and its
  response-schema check.
- `controller.dfy`: controller class and action names.
- `http_util.dfy`: `HTTP::getProtocol` and `HTTP::getHeader`, over explicit
  server and header lists.
- `raml.dfy`: the RAML adapter.
- `silex.dfy`: the Silex provider's three parameter bags.
- `rrest.dfy`: the `RREST` class itself: `addRoute`, the request closure,
  and the format, MIME type and status code lookups.

Foreign code is passed in as function-typed parameters and is not
interpreted. This covers:

- JSON decoding and JsonGuard's schema validation;
- libxml loading and schema validation;
- the Negotiation library;
- CastToType and `new \DateTime`;
- `preg_match` on user patterns;
- `class_exists` and `method_exists`;
- the serialiser encoders.

Where the written description of RREST and its code differ, the model
follows the code:

- Only `JsonValidator` lacks the memo: it never sets `isValidated`, so every
  `getErrors` runs the validation again. The other validators are memoised.
- The success code is the one code whose decimal text matches
  `^[23]0\d?$`: that is 20, 30, 200 to 209 and 300 to 309, not every 2xx or
  3xx code.
- `Response` accepts exactly the formats json, xml, csv and xlsx. Binary
  content is not a format of its own.
- In `ParameterValidator`, a cast that throws does not become a recorded
  parameter error: the `Error` class its catch block names does not exist
  in the validator's namespace, so PHP raises a class-not-found \Error and
  `validate` ends there (see Findings).
- `setContent` checks the JSON text of `json_encode` with its default flags,
  not the text `serialize` sends.

## Model

| member | source | states |
|---|---|---|
| Errors.Failure.Status | src/Exception/InvalidParameterException.php:11-14 | every failure except a RuntimeException or a PHP class-not-found \Error has an HTTP status between 400 and 599: 422 for an invalid parameter, 400 for invalid JSON or XML, 500 for an invalid request or response payload body |
| Errors.ParameterError | src/Parameter.php:358-363 | the error `throwInvalidParameter` raises carries the message, the code 'parameter-invalid' and no context |
| Parameters.TypeName | src/Parameter.php:22-32 | every parameter type is named by one of the nine valid type names |
| Parameters.ParseType | src/Parameter.php:143-152 | `setType` accepts a name exactly when it is one of the nine valid names, and the accepted name is the type's own name |
| Parameters.ParseTypeName | src/Parameter.php:143-152 | parsing a type's name gives the type back: names and types correspond one to one |
| Parameters.Parameter.Spec | src/Parameter.php:107-250 | the parameter's value view holds exactly its eight fields |
| Parameters.Parameter.constructor | src/Parameter.php:107-112 | once the type is accepted, a new parameter has the given name and type, is required exactly when the raw flag is not empty, and has no enum, no pattern, no bounds and the default date format |
| Parameters.Parameter.Create | src/Parameter.php:107-112 | construction succeeds exactly when the type name is one of the nine valid names, with the fields of the constructor; otherwise it raises the invalid-type RuntimeException |
| Parameters.Parameter.SetType | src/Parameter.php:143-152 | a valid type name replaces the type and nothing else; any other name raises a RuntimeException naming it and leaves the parameter unchanged |
| Parameters.Parameter.SetRequired | src/Parameter.php:231-234 | the required flag becomes the boolean cast of the value (false exactly for what `empty` accepts); no other field changes |
| Parameters.Parameter.SetName | src/Parameter.php:117-120 | only the name changes |
| Parameters.Parameter.SetEnum | src/Parameter.php:165-168 | only the enum list changes |
| Parameters.Parameter.SetValidationPattern | src/Parameter.php:181-184 | only the pattern changes |
| Parameters.Parameter.SetMinimum | src/Parameter.php:199-202 | only the minimum changes, to the integer conversion of the raw value (none when it has none) |
| Parameters.Parameter.SetMaximum | src/Parameter.php:215-218 | only the maximum changes, to the integer conversion of the raw value |
| Parameters.Parameter.SetDateFormat | src/Parameter.php:247-250 | only the date format changes |
| Parameters.AssertValue | src/Parameter.php:257-351 | a failure is either a RuntimeException (exactly when a non-empty value meets the type `file`) or one single 'parameter-invalid' error; an empty value fails with '<name> is required' when the parameter is required and passes otherwise; string bounds compare with `strlen`, the UTF-8 byte count, and `number` accepts what PHP 8's `is_numeric` accepts |
| Parameters.FirstFailure | src/Parameter.php:257-351 | a list of checks passes exactly when every check holds |
| Parameters.AssertValueIsFirstFailure | src/Parameter.php:268-350 | for a non-empty value, `assertValue` raises the failure of the first check that does not hold, in the order type, minimum, maximum, pattern, enum |
| Parameters.AssertValuePassesIff | src/Parameter.php:268-350 | a non-empty value passes exactly when its type accepts it, the active bounds hold for strings, integers and numbers, the pattern matches and the value is strictly in the enum |
| Parameters.BoundsAreInclusive | src/Parameter.php:314-331 | a value whose size equals both bounds passes both bound checks, because the comparisons are strict |
| Parameters.ZeroBoundIgnored | src/Parameter.php:315-324 | a missing or zero bound never rejects a value |
| Parameters.UnsupportedTypesAlwaysFail | src/Parameter.php:280-286 | date-only, time-only and datetime-only reject every non-empty value with the 'not supported yet' message |
| Parameters.IntegerRejectsFloat | src/Parameter.php:292-296 | an integer parameter rejects 50.5 with '<name> is not an integer' |
| Parameters.MaximumCountsBytes | src/Parameter.php:323-331 | a string maximum of 3 rejects three two-byte characters with '<name> maximum size is 3', because `strlen` counts bytes |
| Parameters.NumberAcceptsExponent | src/Parameter.php:297-301 | a number parameter without bounds, pattern or enum accepts "1e3", which `is_numeric` accepts |
| Casting.OrRaw | src/RREST.php:428-433 | a cast that gives null keeps the raw value; a thrown exception is passed on; any other result is the cast value |
| Casting.Cast | src/RREST.php:414-434 | 'number' is cast as 'num'; the date type name goes to the DateTime parser and succeeds exactly when it does; every other type goes to CastToType; a null result only comes from a null input |
| ParameterSweep.AssertValueSound | src/Parameter.php:257-351 | checking with `assertValue` gives only well-formed outcomes: a pass, a RuntimeException or a one-error invalid parameter |
| ParameterSweep.Assertions | src/Validator/ParameterValidator.php:71-92 | the sweep records one assertion per parameter, in declaration order |
| ParameterSweep.AssertionAt | src/Validator/ParameterValidator.php:71-92 | the k-th assertion names the k-th parameter, its asserted value and its verdict |
| ParameterSweep.SweepStep | src/Validator/ParameterValidator.php:83-91 | one more parameter puts its errors in front of the merged errors, and records its value only when it passed |
| ParameterSweep.AssertionsSingleErrors | src/Parameter.php:358-363 | every assertion of the sweep fails with at most one error |
| ParameterSweep.ErrorsOf | src/Validator/ParameterValidator.php:86-90 | a pass contributes no error; an invalid parameter contributes its own errors |
| ParameterSweep.MergedStep | src/Validator/ParameterValidator.php:87-90 | merging a later assertion puts its errors before all earlier ones |
| ParameterSweep.ReverseAppend | src/Validator/ParameterValidator.php:87-90 | reversing a concatenation reverses the order of its two parts |
| ParameterSweep.MergedIsReversed | src/Validator/ParameterValidator.php:87-90 | the merged errors are the declaration-order errors reversed: a later parameter's error comes before an earlier one's |
| ParameterSweep.NoErrorsIffAllPass | src/Validator/ParameterValidator.php:94-96 | with no RuntimeException, no error is gathered exactly when every assertion passed |
| ParameterSweep.MergedEmptyIffAllPass | src/Validator/ParameterValidator.php:94-96 | over a whole sweep without a RuntimeException, no error is gathered exactly when every parameter passed |
| ParameterSweep.RecordedStep | src/Validator/ParameterValidator.php:84-85 | a passing assertion records its value under its name; a failing one records nothing |
| ParameterSweep.RecordedOnlyPassed | src/Validator/ParameterValidator.php:104-107 | every parameter that passed is in the typed map, and every new or changed entry belongs to a parameter that passed, with its asserted value |
| ParameterSweep.LastCastFailureIff | src/Validator/ParameterValidator.php:73-82 | as intended, with `RREST\Error` imported: the recorded cast exception changes only when some cast threw; starting from none, one is recorded exactly when some cast threw |
| ParameterSweep.CastFailure | src/Validator/ParameterValidator.php:76-81 | as intended, with `RREST\Error` imported: a thrown cast becomes an invalid-parameter exception with one error carrying its message (assertHTTPParameters, in namespace RREST, builds it this way) |
| ParameterSweep.CastStep | src/Validator/ParameterValidator.php:73-84 | as intended, with `RREST\Error` imported: a successful cast is asserted with its value; a cast that throws leaves the previous value to be asserted and records its exception |
| ParameterSweep.AssertedIsCast | src/Validator/ParameterValidator.php:73-84 | while no cast has thrown, each parameter is asserted with its own cast value |
| ParameterValidation.ValidationFailsIff | src/Validator/ParameterValidator.php:69-96 | as intended, with `RREST\Error` imported: a fresh validator ends with an exception exactly when some parameter was rejected or some cast threw |
| ParameterValidation.Sweep | src/Validator/ParameterValidator.php:69-92 | as intended, with `RREST\Error` imported: the loop ends, or stops at the first RuntimeException, with the merged errors, the typed map and the cast exception of the declarative sweep |
| ParameterValidation.SweepOne | src/Validator/ParameterValidator.php:72-91 | as intended, with `RREST\Error` imported: one turn of the loop extends the merged errors, the typed map and the cast exception by parameter i exactly as the declarative sweep does |
| ParameterValidation.ParameterValidator.constructor | src/Validator/ParameterValidator.php:40-44 | a new validator has not validated, holds no exception and no typed value, and casts with 'date' as the date type |
| ParameterValidation.ParameterValidator.Validate | src/Validator/ParameterValidator.php:63-99 | as written: a second call changes nothing; otherwise the sweep stops at the first throwing cast, raising the class-not-found \Error for `RREST\Validator\Error`, or at the first RuntimeException, leaving the validator unvalidated with its exception untouched and the values of the earlier passing parameters recorded; a completed sweep records every passing value and the merged errors when there are any |
| ParameterValidation.WrittenValidationFailsIff | src/Validator/ParameterValidator.php:69-98 | as written, validate completes exactly when every cast succeeds and no assertion raises, and a fresh validator then records an exception exactly when some parameter was rejected |
| ParameterValidation.CastThrowEscapes | src/Validator/ParameterValidator.php:73-82 | where no assertion raises and some cast throws, validate as written raises the class-not-found \Error (the file's namespace, lines 3-7, imports no `Error`), while the intended sweep records the cast exception and reports a failure |
| ParameterValidation.ParameterValidator.GetException | src/Validator/ParameterValidator.php:57-61 | validates first and returns the recorded exception when the sweep completes; otherwise the \Error or RuntimeException of validate escapes |
| ParameterValidation.ParameterValidator.Fails | src/Validator/ParameterValidator.php:49-52 | after a completed validation, fails exactly when an exception is recorded; otherwise what validate raises escapes |
| ParameterValidation.ParameterValidator.HTTPParametersTyped | src/Validator/ParameterValidator.php:104-107 | null while nothing is recorded (the property at line 34 is never initialised), otherwise the typed map of the passing parameters |
| ParameterValidation.TypedNullIffNonePassed | src/Validator/ParameterValidator.php:84-85 | after validate on a new validator, the typed values (never initialised at line 34) are still null exactly when no parameter the sweep got through passed |
| AssertParameters.FirstStop | src/RREST.php:241-262 | the first parameter at which the loop stops: its cast threw or its assertion raised a RuntimeException; none when no parameter stops it |
| AssertParameters.FirstStopSkips | src/RREST.php:241-262 | skipping parameters that do not stop the loop does not change where it stops |
| AssertParameters.FirstStopStep | src/RREST.php:241-262 | a parameter that does not stop the loop passes the search on to the next one |
| AssertParameters.SweptCount | src/RREST.php:241-262 | the loop gets through at most all the parameters |
| AssertParameters.SweptAllPassIff | src/RREST.php:264-266 | when the loop gets through every parameter, no error is gathered exactly when every assertion passed |
| AssertParameters.ParametersPassIff | src/RREST.php:237-267 | `assertHTTPParameters` passes exactly when every cast succeeds and every parameter passes its assertion |
| AssertParameters.SweepFromOutcome | src/RREST.php:241-266 | resumed from any state the loop reaches, the loop ends with the outcome and hinted values of the declarative sweep |
| AssertParameters.SweepStopsAt | src/RREST.php:243-252 | resumed at the parameter where the sweep stops, the loop returns that parameter's failure at once |
| AssertParameters.SweepGoesOn | src/RREST.php:253-261 | resumed at a parameter where the sweep goes on, the loop moves on to a state the sweep also reaches |
| AssertParameters.SweepFromAt | src/RREST.php:243-261 | one turn of the loop: a thrown cast or a RuntimeException stops it; otherwise the parameter's errors go in front and a passing value is hinted |
| AssertParameters.SweepOn | src/RREST.php:253-261 | past a parameter where the sweep goes on, its errors are merged in front and its value is hinted only when it passed |
| AssertParameters.StopAt | src/RREST.php:243-252 | where the sweep stops, the outcome is that parameter's cast failure or RuntimeException, and the values hinted so far are kept |
| AssertParameters.CastsBefore | src/RREST.php:243-254 | before the loop stops, every parameter is asserted with its own cast value |
| AssertParameters.SweepParameters | src/RREST.php:237-267 | the loop returns the sweep's outcome (a cast failure, a RuntimeException, all merged errors as one invalid-parameter exception, or a pass) and hints exactly the values the sweep records |
| AssertParameters.SweptAll | src/RREST.php:262-266 | after the last parameter, the outcome is a pass when no error was gathered and one invalid-parameter exception holding them all otherwise |
| RequestValidation.MissingParameters | src/RequestValidador.php:30-35 | the missing parameters are exactly the declared required ones absent from the query, in declaration order |
| RequestValidation.MissingParametersAppend | src/RequestValidador.php:30-35 | the filter keeps the order: the missing parameters of a concatenation are the two lists of missing parameters, concatenated |
| RequestValidation.MissingFront | src/RequestValidador.php:30-35 | the first parameter of a list is filtered first |
| RequestValidation.MissingErrors | src/RequestValidador.php:41-50 | one error per missing parameter, in order, with the 'Missing parameter required for this route: <name> (<type>)' message and no code |
| RequestValidation.AssertQueryParameters | src/RequestValidador.php:27-52 | passes exactly when no required parameter is missing; otherwise one invalid-parameter exception carries one error per missing parameter |
| RequestValidation.SameMissingSameOutcome | src/RequestValidador.php:27-52 | the outcome depends on the declared parameters only through the missing ones |
| RequestValidation.OptionalParametersIgnored | src/RequestValidador.php:31-33 | an optional parameter never causes an error, wherever it is declared |
| RequestValidation.MissingPosition | src/RequestValidador.php:41-50 | a missing parameter is reported right after the missing parameters declared before it |
| RequestValidation.MissingGrows | src/RequestValidador.php:30-35 | a longer prefix of the declared parameters has at least as many missing ones |
| RequestValidation.MissingInOrder | src/RequestValidador.php:30-35 | two missing parameters are listed in their declaration order |
| RequestValidation.MissingReportedInOrder | src/RequestValidador.php:41-51 | two missing parameters make the check fail, with their two errors in declaration order, each naming its parameter |
| AcceptValidation.BestAccept | src/Validator/AcceptValidator.php:86-101 | no best accept for an empty header; otherwise the negotiated value, or the header itself when negotiation finds nothing |
| AcceptValidation.AcceptVerdict | src/Validator/AcceptValidator.php:63-79 | the only possible failure is NotAcceptable; an empty header passes; an unnegotiated header passes exactly when it is in the declared list |
| AcceptValidation.UnnegotiatedHeaderIsMembership | src/Validator/AcceptValidator.php:74-76 | for a non-numeric header that negotiation cannot place, the check is plain list membership |
| AcceptValidation.AcceptValidator.constructor | src/Validator/AcceptValidator.php:36-44 | for a non-empty declared list (the empty one is refused by Create), the header and the list are stored lower-cased |
| AcceptValidation.AcceptValidator.Create | src/Validator/AcceptValidator.php:36-44 | a missing or empty declared list raises 'No content type defined for this response'; otherwise a fresh, unvalidated validator holds the lower-cased header (empty when there is none) and the lower-cased list |
| AcceptValidation.AcceptValidator.GetBestAccept | src/Validator/AcceptValidator.php:86-101 | the best accept of the stored header, absent exactly when the header is empty |
| AcceptValidation.AcceptValidator.Validate | src/Validator/AcceptValidator.php:63-79 | the recorded exception is the verdict, and a second call changes nothing |
| AcceptValidation.AcceptValidator.GetException | src/Validator/AcceptValidator.php:57-61 | validates, then returns the verdict |
| AcceptValidation.AcceptValidator.Fails | src/Validator/AcceptValidator.php:49-52 | fails exactly when the verdict is NotAcceptable |
| AcceptValidation.AcceptIgnoresCase | src/Validator/AcceptValidator.php:42-43 | the verdict does not depend on the case the header and the declared types are written in |
| ContentTypeValidation.PlainTypeIsExact | src/Validator/ContentTypeValidator.php:62-68 | a header without 'multipart/form-data' passes exactly when the declared list is empty or holds the header exactly |
| ContentTypeValidation.MultipartBoundaryIgnored | src/Validator/ContentTypeValidator.php:69-73 | a multipart header passes whatever parameters (such as the boundary) follow the declared 'multipart/form-data' |
| ContentTypeValidation.ContentTypeValidator.constructor | src/Validator/ContentTypeValidator.php:33-37 | the header and the declared types are stored lower-cased |
| ContentTypeValidation.ContentTypeValidator.Validate | src/Validator/ContentTypeValidator.php:56-84 | the walk over the declared types records no exception exactly when some type matches, and a second call changes nothing |
| ContentTypeValidation.ContentTypeValidator.GetException | src/Validator/ContentTypeValidator.php:50-54 | the only exception is UnsupportedMediaType, recorded exactly when the header is not accepted |
| ContentTypeValidation.ContentTypeValidator.Fails | src/Validator/ContentTypeValidator.php:42-45 | fails exactly when the header is not accepted |
| ContentTypeValidation.ContentTypeIgnoresCase | src/Validator/ContentTypeValidator.php:35-36 | acceptance does not depend on the case the header and the declared types are written in |
| ProtocolValidation.ProtocolVerdict | src/Validator/ProtocolValidator.php:56-67 | AccessDenied exactly when the protocol is not in the declared list, so an empty list always fails |
| ProtocolValidation.ProtocolValidator.constructor | src/Validator/ProtocolValidator.php:33-37 | the protocol and the declared list are stored lower-cased |
| ProtocolValidation.ProtocolValidator.Validate | src/Validator/ProtocolValidator.php:56-67 | the recorded exception is the verdict, and a second call changes nothing |
| ProtocolValidation.ProtocolValidator.GetException | src/Validator/ProtocolValidator.php:50-54 | validates, then returns the verdict |
| ProtocolValidation.ProtocolValidator.Fails | src/Validator/ProtocolValidator.php:42-45 | fails exactly when the protocol is not listed |
| ProtocolValidation.ProtocolIgnoresCase | src/Validator/ProtocolValidator.php:35-36 | a protocol passes exactly when its lower-cased form is among the lower-cased declared protocols, whatever case either is written in |
| HttpUtil.GetProtocol | src/Util/HTTP.php:13-28 | the protocol is 'HTTPS' or 'HTTP', and 'HTTPS' exactly when the HTTPS variable is 'on' or a proxy header says so |
| HttpUtil.HttpsVariableDecides | src/Util/HTTP.php:16-17 | without proxy headers, 'HTTPS' exactly when the HTTPS variable is 'on'; a value such as 'x' gives 'HTTP' |
| HttpUtil.ForwardedHeadersDecide | src/Util/HTTP.php:18-24 | without the HTTPS variable, 'HTTPS' exactly when X-Forwarded-Proto is 'https' or X-Forwarded-SSL is 'on' |
| HttpUtil.LowerKeys | src/Util/HTTP.php:38-40 | `array_change_key_case`: the last entry's key is present, lower-cased |
| HttpUtil.LowerKeysLast | src/Util/HTTP.php:38-40 | a key is present exactly when some entry's key lower-cases to it, and then it holds the value of the last such entry |
| HttpUtil.LowerKeysUnmatchedLast | src/Util/HTTP.php:38-40 | an entry appended under another key leaves a key's presence and value unchanged |
| HttpUtil.GetHeader | src/Util/HTTP.php:35-47 | the value stored under the lower-cased name in the lower-cased headers, or in the server variables when there are no headers; null when absent |
| HttpUtil.GetHeaderIgnoresCase | src/Util/HTTP.php:37 | the header name may be written in any case |
| HttpUtil.GetHeaderFindsLast | src/Util/HTTP.php:38-43 | a header that is found is the value of the last header whose name matches case-insensitively |
| HttpUtil.GetHeaderMissing | src/Util/HTTP.php:42-46 | a name carried by no header and no server variable gives null |
| JsonValidation.InvalidJsonFailure | src/Validator/JsonValidator.php:88-92 | invalid JSON is a status-400 exception with exactly one INVALID_JSON error, whose message is the parser message with its first letter upper-cased |
| JsonValidation.DecodeJson | src/Validator/JsonValidator.php:86-95 | decoding succeeds exactly when the parser does, and otherwise raises the invalid-JSON exception for the parser's message |
| JsonValidation.ConvertAllAppend | src/Validator/JsonValidator.php:72-77 | converting a list of violations is converting each part and concatenating, in order |
| JsonValidation.ConvertAllEmpty | src/Validator/JsonValidator.php:72-77 | the converted list is empty exactly when every violation converts to nothing |
| JsonValidation.Check | src/Validator/JsonValidator.php:61-79 | a schema that does not decode is reported first, then a value that does not decode; either way the failure is one INVALID_JSON error |
| JsonValidation.ConformingValuePasses | src/Validator/JsonValidator.php:70 | a value with no violation gives no error |
| JsonValidation.JsonValidator.constructor | src/Validator/JsonValidator.php:37-41 | a new validator holds its value and schema and no error |
| JsonValidation.JsonValidator.Validate | src/Validator/JsonValidator.php:61-79 | raises exactly the decoding failure of the check, leaving the errors as they were, and otherwise stores the converted violations; the memo flag is never set |
| JsonValidation.JsonValidator.GetErrors | src/Validator/JsonValidator.php:55-59 | validates again and returns the check's errors or its decoding failure |
| JsonValidation.JsonValidator.Fails | src/Validator/JsonValidator.php:47-50 | fails exactly when the check gives a non-empty error list; a decoding failure escapes |
| JsonValidation.SchemaDecodedFirst | src/Validator/JsonValidator.php:65-68 | a schema that does not decode is reported whatever the value is |
| JsonValidation.FailsIffSomeConvertedError | src/Validator/JsonValidator.php:70-78 | the error list is non-empty exactly when some violation converts to an error, and with a converter that always gives one, exactly when there is a violation |
| FieldPaths.ReplaceChar | src/Validator/Util/JsonGuardValidationError/ConverterAbstract.php:32 | `str_replace` of one character: the same length, with every occurrence replaced and every other character kept |
| FieldPaths.ReplaceCharAppend | src/Validator/Util/JsonGuardValidationError/ConverterAbstract.php:32 | replacing in a concatenation replaces in each part |
| FieldPaths.DropFirst | src/Validator/Util/JsonGuardValidationError/ConverterAbstract.php:32 | `substr($s, 1)`: a non-empty string loses exactly its first character |
| FieldPaths.FieldPath | src/Validator/Util/JsonGuardValidationError/ConverterAbstract.php:27-35 | the path never ends with '.'; at the root it is the field with its trailing dots trimmed |
| FieldPaths.ReplaceImplode | src/Validator/Util/JsonGuardValidationError/ConverterAbstract.php:32 | a '/'-joined pointer with '/' replaced by '.' is the same segments joined by '.' |
| FieldPaths.ImplodeSnoc | src/Validator/Util/JsonGuardValidationError/ConverterAbstract.php:34 | joining one more piece appends the glue and the piece |
| FieldPaths.PointerDotted | src/Validator/Util/JsonGuardValidationError/ConverterAbstract.php:31-32 | the pointer "/s1/.../sn" is not the root and reads as "s1. ... .sn" |
| FieldPaths.TrimOneDot | src/Validator/Util/JsonGuardValidationError/ConverterAbstract.php:34 | the one trailing dot goes and nothing before it |
| FieldPaths.FieldPathJoin | src/Validator/Util/JsonGuardValidationError/ConverterAbstract.php:31-34 | the pointer "/s1/.../sn" with field f gives "s1. ... .sn.f", or "s1. ... .sn" when f is empty |
| FieldPaths.FieldPathSplits | src/Validator/Util/JsonGuardValidationError/ConverterAbstract.php:31-34 | splitting the dotted path on '.' gives back the pointer's segments followed by the field |
| FieldPaths.DotFreePieces | src/Validator/Util/JsonGuardValidationError/ConverterAbstract.php:31-34 | the pieces of a field path hold no '.' |
| FieldPaths.RootField | src/Validator/Util/JsonGuardValidationError/ConverterAbstract.php:31-34 | a field at the root keeps its name |
| KeywordConverters.FieldOf | src/Validator/Util/JsonGuardValidationError/ConverterAbstract.php:27-35 | the field of a violation's context never ends with '.' and is empty at the root |
| KeywordConverters.AsList | src/Validator/Util/JsonGuardValidationError/TypeConverter.php:19 | the `(array)` cast: a list stays, null gives nothing, a scalar gives a one-element list |
| KeywordConverters.FieldMessage | src/Validator/Util/JsonGuardValidationError/FormatConverter.php:18-35 | the message reads 'The field ', then the field, then the rest |
| KeywordConverters.FormatMessage | src/Validator/Util/JsonGuardValidationError/FormatConverter.php:17-38 | date-time, uri, email, ipv4, ipv6 and hostname each get their fixed message naming the field; any other format name gives 'Invalid format' |
| KeywordConverters.SwitchedName | src/Validator/Util/JsonGuardValidationError/FormatConverter.php:17 | the switch compares a string format as it is, and `true` loosely equals the first label |
| KeywordConverters.DataContext | src/Validator/Util/JsonGuardValidationError/TypeConverter.php:14-17 | the context holds exactly the field path, the keyword's parameter and the data, under the three given keys |
| KeywordConverters.FormatErrors | src/Validator/Util/JsonGuardValidationError/FormatConverter.php:12-44 | exactly one FORMAT error, with the format's message, the field and the current value |
| KeywordConverters.TypeErrors | src/Validator/Util/JsonGuardValidationError/TypeConverter.php:12-23 | exactly one TYPE error listing the allowed types joined by ' or ', a single type read as a one-element list |
| KeywordConverters.MinLengthErrors | src/Validator/Util/JsonGuardValidationError/MinLengthConverter.php:12-23 | exactly one MINLENGTH error, 'The field F must be at least N characters long', with minLength and the current value |
| KeywordConverters.EnumErrors | src/Validator/Util/JsonGuardValidationError/EnumConverter.php:12-23 | exactly one ENUM error listing the allowed values joined by ', ' |
| KeywordConverters.PatternErrors | src/Validator/Util/JsonGuardValidationError/PatternConverter.php:12-23 | exactly one error 'The field F must match the pattern P', whose code is UNIQUEITEMS, not a pattern code |
| KeywordConverters.OneOfErrors | src/Validator/Util/JsonGuardValidationError/OneOfConverter.php:12-23 | exactly one ONEOF error whose message names only the field, with the sub-schema rules in its context |
| KeywordConverters.UniqueItemsErrors | src/Validator/Util/JsonGuardValidationError/UniqueItemsConverter.php:12-22 | exactly one UNIQUEITEMS error, whose context holds only the field and the current values |
| KeywordConverters.RequiredOf | src/Validator/Util/JsonGuardValidationErrorConverter/AnyOfConverter.php:18 | a sub-schema without a 'required' list contributes nothing |
| KeywordConverters.MergeRequiredIsLaterFirst | src/Validator/Util/JsonGuardValidationErrorConverter/AnyOfConverter.php:17-21 | the `array_merge` fold puts each later sub-schema's fields in front of the ones gathered so far |
| KeywordConverters.LaterFirstMembers | src/Validator/Util/JsonGuardValidationErrorConverter/AnyOfConverter.php:17-21 | a field is listed exactly when some sub-schema requires it |
| KeywordConverters.AnyOfFields | src/Validator/Util/JsonGuardValidationErrorConverter/AnyOfConverter.php:17-21 | the listed fields are the sub-schemas' required lists, later sub-schemas first, and exactly the fields some sub-schema requires |
| KeywordConverters.AnyOfErrors | src/Validator/Util/JsonGuardValidationErrorConverter/AnyOfConverter.php:13-31 | exactly one REQUIRED_ANYOF error, even with no required field, joining the fields with ' or/and ' and holding them in its context |
| KeywordConverters.NoRequiredAddsNothing | src/Validator/Util/JsonGuardValidationErrorConverter/AnyOfConverter.php:18 | a sub-schema without a 'required' list adds nothing, wherever it stands |
| KeywordConverters.LaterFirstSkips | src/Validator/Util/JsonGuardValidationErrorConverter/AnyOfConverter.php:18 | a leading sub-schema without a 'required' list adds nothing |
| KeywordConverters.LaterFirstAppend | src/Validator/Util/JsonGuardValidationErrorConverter/AnyOfConverter.php:17-21 | the fields of two runs of sub-schemas are the second run's fields followed by the first's |
| KeywordConverters.MaxLengthErrors | src/Validator/Util/JsonGuardValidationErrorConverter/MaxLengthConverter.php:12-23 | exactly one MAXLENGTH error, 'The field F must be less than N characters long', with maxLength and the current value |
| KeywordConverters.MaxItemsErrors | src/Validator/Util/JsonGuardValidationErrorConverter/MaxItemsConverter.php:12-23 | exactly one MAXITEMS error, with maxItems and the current values |
| KeywordConverters.MinItemsErrors | src/Validator/Util/JsonGuardValidationErrorConverter/MinItemsConverter.php:12-23 | exactly one MINITEMS error, with minItems and the current values |
| KeywordConverters.RequiredError | src/Validator/Util/JsonGuardValidationErrorConverter/RequiredConverter.php:15-23 | a REQUIRED error for one field, whose message and context name the data path with the field appended |
| KeywordConverters.MissingFieldErrors | src/Validator/Util/JsonGuardValidationErrorConverter/RequiredConverter.php:15-23 | one error per field, in order |
| KeywordConverters.RequiredErrors | src/Validator/Util/JsonGuardValidationErrorConverter/RequiredConverter.php:12-25 | one REQUIRED error per cause field, in cause order, so none for an empty cause |
| KeywordConverters.RequiredFieldReadsBack | src/Validator/Util/JsonGuardValidationErrorConverter/RequiredConverter.php:17 | a missing field under a plain pointer is reported at a dotted path that splits back into the pointer's segments and the field |
| KeywordConverters.Delegate | src/Validator/Util/JsonGuardValidationError/Converter.php:40-49 | a delegate exists exactly for the seven converter classes of the namespace, and each gives one error |
| KeywordConverters.UnknownErrors | src/Validator/Util/JsonGuardValidationError/Converter.php:54-61 | exactly one UNKNOW error 'Data is not valid', whatever the keyword, with the violation itself as context |
| KeywordConverters.Convert | src/Validator/Util/JsonGuardValidationError/Converter.php:26-34 | one error: the delegate's list, unchanged, when ucfirst(keyword) + 'Converter' names a class; the fallback otherwise |
| KeywordConverters.DelegatedKeyword | src/Validator/Util/JsonGuardValidationError/Converter.php:26-49 | each of the seven keywords of the namespace reaches its own converter |
| KeywordConverters.KeywordClass | src/Validator/Util/JsonGuardValidationError/Converter.php:43 | ucfirst of the k-th keyword followed by 'Converter' is the k-th class name |
| KeywordConverters.DelegateAt | src/Validator/Util/JsonGuardValidationError/Converter.php:44-45 | the k-th class converts with its own converter |
| KeywordConverters.OtherNamespaceFallsBack | src/Validator/Util/JsonGuardValidationError/Converter.php:26-34 | required, anyOf, maxLength, maxItems and minItems, whose converters live in the other namespace, get the fallback error here |
| KeywordConverters.OtherClassMissing | src/Validator/Util/JsonGuardValidationError/Converter.php:43-44 | those keywords name no class of this namespace |
| KeywordConverters.DelegatedErrorNamesField | src/Validator/Util/JsonGuardValidationError/Converter.php:28-31 | whatever the delegate, its one error records the dotted path of the data |
| KeywordConverters.DelegateNamesField | src/Validator/Util/JsonGuardValidationError/ConverterAbstract.php:27-35 | every delegate's error has the field path in its context |
| MonolithicConverter.ParameterContext | src/Validator/JsonGuardValidationErrorConverter.php:89-99 | the context holds exactly the field path and the keyword's parameter under the given key |
| MonolithicConverter.OneError | src/Validator/JsonGuardValidationErrorConverter.php:89-99 | a handler's list is the one error it builds |
| MonolithicConverter.MaxLengthErrorsAsWritten | src/Validator/JsonGuardValidationErrorConverter.php:105-115 | as written, the maxLength error has code MINLENGTH, stores the limit under minLength and prints an empty limit |
| MonolithicConverter.MaxLengthErrors | src/Validator/JsonGuardValidationErrorConverter.php:105-115 | as intended, the maxLength error has code MAXLENGTH and stores and prints the limit |
| MonolithicConverter.Handle | src/Validator/JsonGuardValidationErrorConverter.php:28-40 | the handler is chosen from the lower-cased keyword: required gives one error per field, anyOf and maxLength their own error, an unhandled keyword the one UNKNOW error; every keyword except required gives exactly one error |
| MonolithicConverter.HandleAsWritten | src/Validator/JsonGuardValidationErrorConverter.php:28-40 | the same dispatch with the maxLength handler as written |
| MonolithicConverter.MaxLengthMislabelled | src/Validator/JsonGuardValidationErrorConverter.php:105-115 | for every maxLength violation the error as written carries MINLENGTH and no maxLength entry, and its message differs from the intended one when the limit prints as non-empty |
| MonolithicConverter.HandleIgnoresCase | src/Validator/JsonGuardValidationErrorConverter.php:30 | a handled keyword may be written in any case |
| MonolithicConverter.AgreesWithKeywordConverters | src/Validator/JsonGuardValidationErrorConverter.php:121-263 | for the seven keywords both tables handle, the monolithic converter gives the same single message and code as the class-per-keyword one |
| MonolithicConverter.MaxLengthAgrees | src/Validator/Util/JsonGuardValidationErrorConverter/MaxLengthConverter.php:12-23 | the intended maxLength handler gives the same message and code as the MaxLengthConverter class |
| ResponseModel.ConfiguredHeaders | src/Response.php:168-181 | the headers are at most Content-Type and Location, each present exactly when its value is not empty, and then holding that value |
| ResponseModel.Serialize | src/Response.php:252-280 | json and xml go through their encoders; csv and xlsx pass a string through and refuse anything else; any other format raises 'format not supported' |
| ResponseModel.SpreadsheetTextPassesThrough | src/Response.php:267-274 | a text body in csv or xlsx is sent exactly as given |
| ResponseModel.XmlErrors | src/Response.php:329-335 | one error per libxml issue, in order, each '<message> (line: N)' with the given code and no context |
| ResponseModel.ResponseXmlOutcome | src/Response.php:322-356 | a document that does not load is invalid XML; one that breaks the schema is an invalid response body; it passes exactly when neither happens |
| ResponseModel.ResponseJsonOutcome | src/Response.php:365-374 | the validator's decoding failure, or a status-500 invalid response body carrying its errors; a pass exactly when there are none |
| ResponseModel.AssertResponseJson | src/Response.php:365-374 | a fresh validator asked whether it fails, then for its errors, gives that outcome |
| ResponseModel.ReponseSchemaOutcome | src/Response.php:291-313 | nothing is checked for an empty schema; otherwise the first of json, xml and csv found in the format decides, csv is not checked, and any other format raises 'format not supported' |
| ResponseModel.ShorterNotContained | src/Response.php:298-304 | a needle longer than the haystack is not in it |
| ResponseModel.WithoutFirstNotContained | src/Response.php:298-304 | a needle whose first character the haystack lacks is not in it |
| ResponseModel.SupportedFormatDispatch | src/Response.php:297-312 | csv is never checked, xlsx with a schema is refused, json and xml go to their own checks |
| ResponseModel.Response.constructor | src/Response.php:63-68 | a new response has a supported format, the given status code, and no content, schema or headers |
| ResponseModel.Response.Create | src/Response.php:63-68 | construction succeeds exactly for a supported format, with no content, schema or headers; any other format raises 'format not supported' |
| ResponseModel.Response.SetFormat | src/Response.php:89-97 | exactly json, xml, csv and xlsx are accepted; anything else raises and keeps the old format; no other field changes |
| ResponseModel.Response.SetStatusCode | src/Response.php:110-113 | only the status code changes |
| ResponseModel.Response.SetLocation | src/Response.php:126-129 | only the Location header changes |
| ResponseModel.Response.SetContentType | src/Response.php:142-145 | only the Content-Type header changes |
| ResponseModel.Response.SetSchema | src/Response.php:150-153 | only the schema changes |
| ResponseModel.Response.GetConfiguredHeaders | src/Response.php:168-181 | the headers built one at a time are the configured headers of the response's fields |
| ResponseModel.Response.SetContent | src/Response.php:188-197 | the content is stored, then its JSON text, from `json_encode` with the default flags (not the serialiser's), is checked against the schema in the response's format; nothing else changes |
| ResponseModel.Response.Body | src/Response.php:234-240 | the body is the content, or its serialisation in the response's format when asked, failing exactly when serialisation does |
| ResponseModel.AssertReponseSchema | src/Response.php:291-313 | running the check through the JSON validator object gives the dispatch's outcome |
| ResponseModel.FailedContentStaysSet | src/Response.php:188-197 | a JSON content that breaks its schema fails with an invalid response body carrying the validator's errors, after it was stored |
| Controllers.IndexOf | src/Controller.php:68 | the first occurrence of a character, none when it is absent |
| Controllers.StripPlaceholders | src/Controller.php:68 | removing placeholders never lengthens the path, and a path without '{' is unchanged |
| Controllers.StripLeadingPlaceholder | src/Controller.php:68 | a leading placeholder '{p}' is dropped and the rest is scanned on |
| Controllers.StripOnePlaceholder | src/Controller.php:68 | a placeholder after brace-free text is dropped and the text before it kept |
| Controllers.CollapseDoubleSlash | src/Controller.php:69 | replacing '//' by '/' never lengthens the path |
| Controllers.CollapseWord | src/Controller.php:69 | a word without slashes passes through untouched |
| Controllers.KeepNameChars | src/Controller.php:71 | only letters, digits and '/' remain, and a path made of those is unchanged |
| Controllers.UcFirstAll | src/Controller.php:77 | each segment is capitalised, in place |
| Controllers.Cleaned | src/Controller.php:68-71 | the cleaned path holds only letters, digits and '/' |
| Controllers.ClassNameOf | src/Controller.php:73-79 | the class name holds only letters, digits and '\' |
| Controllers.ClassName | src/Controller.php:65-82 | `getClassName` leaves only letters, digits and '\': no placeholder and no '/' |
| Controllers.JoinedClassName | src/Controller.php:73-79 | several word segments joined by '/' name the class of the capitalised segments joined by '\' |
| Controllers.TrimmedPlainPath | src/Controller.php:69-71 | once the placeholders and doubled slashes are gone, trimming leaves the segments joined by '/' |
| Controllers.TrimSlashLed | src/Controller.php:69-70 | trimming a '/'-led path that starts and ends with a word character removes only the leading '/' |
| Controllers.NoDoubleSlash | src/Controller.php:69 | slash-free segments joined by '/' hold no '//' to collapse |
| Controllers.PlainPathClassName | src/Controller.php:65-82 | a plain route '/s1/.../sn' names the class S1\...\Sn |
| Controllers.PlainPathUntouched | src/Controller.php:68-69 | a plain route has no placeholder and no doubled slash to remove |
| Controllers.JoinedWords | src/Controller.php:68-71 | a join of word segments starts and ends with a word character and holds no '{' and no '//' |
| Controllers.PlaceholderStripped | src/Controller.php:68 | dropping a placeholder between two segments leaves a doubled slash |
| Controllers.DoubledSlashCollapsed | src/Controller.php:69 | that doubled slash collapses to one |
| Controllers.PlaceholderDropped | src/Controller.php:68-69 | the placeholder between two segments and the doubled slash it leaves are both removed |
| Controllers.PlaceholderPathClassName | src/Controller.php:65-82 | a route '/a/{p}/b' names the class A\B |
| Controllers.Controller.FullyQualifiedName | src/Controller.php:32-37 | the namespace, '\' and the class name, failing with '<fqn> not found' exactly when that class does not exist |
| Controllers.Controller.ActionMethodName | src/Controller.php:44-52 | the lower-cased verb followed by 'Action', available exactly when the class exists and declares it, failing with '<fqn>::<action> method not found' when only the method is missing |
| Raml.Explode | src/APISpec/RAML.php:252 | `explode` with a non-empty separator gives at least one piece |
| Raml.ImplodeExplode | src/APISpec/RAML.php:252 | joining the pieces with the separator gives the string back |
| Raml.ExplodeWithout | src/APISpec/RAML.php:252 | a string without the separator is a single piece |
| Raml.ExplodeAround | src/APISpec/RAML.php:252 | the text before the first separator is the first piece |
| Raml.ExplodeAtSeparator | src/APISpec/RAML.php:252 | a string that starts with the separator has an empty first piece |
| Raml.ExtractRessourcePath | src/APISpec/RAML.php:250-259 | no path for an empty version; a path found is what follows the version in the URL |
| Raml.ExtractAfterVersion | src/APISpec/RAML.php:250-259 | a URL made of a prefix, the version once and a path gives that path |
| Raml.ExtractWithoutVersion | src/APISpec/RAML.php:250-259 | a URL without the version gives '' |
| Raml.ExtractVersionTwice | src/APISpec/RAML.php:250-259 | a URL holding the version twice gives '' |
| Raml.ExtractBeforeSplit | src/APISpec/RAML.php:250-259 | text after the version that itself splits on the version gives '' |
| Raml.ResourceFromPath | src/APISpec/RAML.php:226-240 | the resource at the path, else at the path with a trailing '/', else a status-404 Not Found carrying the parser's message for the path with the '/' |
| Raml.DeclaredVerbs | src/APISpec/RAML.php:207-214 | the declared verbs, in declaration order |
| Raml.FindMethod | src/APISpec/RAML.php:201-217 | a method is found exactly when its verb is declared, and it is a declared method for that verb |
| Raml.MethodFromResource | src/APISpec/RAML.php:201-217 | the method for the upper-cased verb; an undeclared verb other than OPTIONS is Method Not Allowed listing the declared verbs |
| Raml.MethodIgnoresCase | src/APISpec/RAML.php:203 | the verb may be written in any case |
| Raml.UpperOfLower | src/APISpec/RAML.php:203 | upper-casing forgets the case a verb was written in |
| Raml.NewRaml | src/APISpec/RAML.php:44-52 | the adapter holds the resource found for the extracted path and the method found for the verb, and fails with their failures |
| Raml.RoutePath | src/APISpec/RAML.php:57-60 | the route path is '/', the version and the resource URI |
| Raml.RoutePathRoundTrip | src/APISpec/RAML.php:57-60 | extracting the resource path from the route path gives the resource URI back |
| Raml.RequestContentTypes | src/APISpec/RAML.php:154-161 | the media types of the method's bodies, in order |
| Raml.MediaTypes | src/APISpec/RAML.php:170-172 | the media types of a list of bodies, in order |
| Raml.ResponseContentTypes | src/APISpec/RAML.php:166-175 | exactly the media types of every response's bodies, none for no responses |
| Raml.ResponseContentTypesAppend | src/APISpec/RAML.php:166-175 | the types of two runs of responses are the two lists of types, concatenated in order |
| Raml.BodyByType | src/APISpec/RAML.php:185-189 | a body is found exactly when one declares the content type, and it is that body |
| Raml.RequestPayloadBodySchema | src/APISpec/RAML.php:180-191 | no schema (`false`) exactly when no body is declared or none has the content type; otherwise the schema of a body declared for it |
| Raml.StatusCodes | src/APISpec/RAML.php:93-100 | the declared response codes, in order |
| Raml.Codes | src/APISpec/RAML.php:96-98 | the codes of a list of responses, in order |
| Raml.KeyIndex | src/APISpec/RAML.php:116-121 | the position of a key in the merged parameters, none when it is absent |
| Raml.Put | src/APISpec/RAML.php:116-121 | storing a parameter under its key keeps keys distinct, holds the new parameter and every other parameter, and nothing else |
| Raml.MergeKeyed | src/APISpec/RAML.php:116-121 | the merged parameters have distinct keys |
| Raml.LastWithKeyHasKey | src/APISpec/RAML.php:116-121 | the last parameter declared with a key has that key and is declared |
| Raml.MergeKeyedKeepsLast | src/APISpec/RAML.php:116-121 | the merge holds, for every key, exactly the last parameter declared with it |
| Raml.RawBounds | src/APISpec/RAML.php:131-143 | strings take minLength and maxLength, integers and numbers minimum and maximum, other types no bounds |
| Raml.SpecOf | src/APISpec/RAML.php:122-146 | a type name outside the nine raises the constructor's RuntimeException; otherwise the parameter has the key, type and required flag declared, the RFC 2616 date format, and the bounds of its type |
| Raml.BuildParameter | src/APISpec/RAML.php:122-146 | the fresh parameter built by the constructor and setters has exactly those fields, and fails when they do |
| Raml.Specs | src/APISpec/RAML.php:122-148 | all parameters are built exactly when every type name is valid, each from its declaration |
| Raml.SpecsFailAtFirstBadType | src/APISpec/RAML.php:122-148 | the failure is the one for the first declaration with an invalid type name |
| Raml.ParametersOf | src/APISpec/RAML.php:113-149 | one parameter per merged declaration, each with the default date format and a distinct name |
| Raml.LaterDeclarationWins | src/APISpec/RAML.php:116-121 | a parameter declared in the query and as a base URI parameter of the method takes the method's declaration |
| SilexProvider.FirstBagWith | src/Provider/Silex.php:87-94 | the first bag, in the order query, attributes, request, that holds the key |
| SilexProvider.Lookup | src/Provider/Silex.php:85-97 | the value in the first bag holding the key, null when none does |
| SilexProvider.Store | src/Provider/Silex.php:102-114 | the first bag holding the key takes the value and no other bag changes; nothing changes when no bag holds the key |
| SilexProvider.GetAfterSet | src/Provider/Silex.php:85-114 | after a set, a get of the same key gives the new value when some bag held the key |
| SilexProvider.SetAbsentKey | src/Provider/Silex.php:106-113 | setting a key no bag holds changes nothing and the key still reads as null |
| SilexProvider.SetLeavesOtherKeys | src/Provider/Silex.php:106-113 | a set does not change what any other key reads |
| SilexProvider.StoreKeepsKeys | src/Provider/Silex.php:106-113 | a set changes no bag's keys |
| SilexProvider.SameKeysSameFirstBag | src/Provider/Silex.php:87-94 | which bag holds a key first depends only on the bags' keys |
| SilexProvider.Silex.Bags | src/Provider/Silex.php:87 | the bags in search order: query, attributes, request |
| SilexProvider.Silex.constructor | src/Provider/Silex.php:26-29 | the provider holds the request's three bags and content |
| SilexProvider.Silex.GetHTTPParameterValue | src/Provider/Silex.php:85-97 | the search over the bags gives the lookup's value |
| SilexProvider.Silex.SetHTTPParameterValue | src/Provider/Silex.php:102-114 | the bags become the store of the value under the key |
| SilexProvider.Silex.GetHTTPPayloadBodyValue | src/Provider/Silex.php:119-122 | the request's raw content |
| SilexProvider.Silex.SetHTTPPayloadBodyValue | src/Provider/Silex.php:127-130 | the request bag becomes the array form of the payload; the other bags stay |
| Rrest.RoutePaths | src/RREST.php:181-192 | two paths: the given one, then the same path with its trailing '/' removed, or added when it has none |
| Rrest.RoutePathsToggle | src/RREST.php:181-192 | the second path's own second path is the original, unless the path ends with two slashes |
| Rrest.SuccessCodeRange | src/RREST.php:224-226 | the codes the pattern accepts are 20, 30, 200 to 209 and 300 to 309 |
| Rrest.TwoDigitSuccess | src/RREST.php:225 | a two-digit code matches exactly when it is 20 or 30 |
| Rrest.ThreeDigitSuccess | src/RREST.php:225 | a three-digit code matches exactly when it lies in 200 to 209 or 300 to 309 |
| Rrest.Filter | src/RREST.php:224-226 | `array_filter` keeps exactly the codes the test holds for, in order |
| Rrest.FilterAppend | src/RREST.php:224-226 | filtering a concatenation concatenates the filtered parts |
| Rrest.FilterNone | src/RREST.php:224-226 | nothing is kept when the test holds for no code |
| Rrest.FilterOne | src/RREST.php:224-226 | exactly the one code the test holds for is kept |
| Rrest.FilterTwo | src/RREST.php:224-226 | two codes the test holds for keep at least two |
| Rrest.SuccessCodes | src/RREST.php:224-226 | the success codes among the declared ones |
| Rrest.StatusCodeSuccess | src/RREST.php:221-232 | exactly one declared success code is returned; zero or several raise a RuntimeException |
| Rrest.OneSuccessCode | src/RREST.php:227-228 | the only success code declared is the one returned |
| Rrest.TwoSuccessCodes | src/RREST.php:229-230 | two declared success codes are a configuration error |
| Rrest.FirstSelecting | src/RREST.php:383-387 | the first group of the table holding the MIME type, none when no group does |
| Rrest.FormatAsWritten | src/RREST.php:380-390 | as written, the loop leaves a format exactly when the table is not empty |
| Rrest.FormatFor | src/RREST.php:380-390 | as intended, the format of the first group holding the MIME type, none exactly when no group does |
| Rrest.AsWrittenAgreesOnMatch | src/RREST.php:380-390 | whenever some group holds the MIME type, the loop as written and the intended lookup agree |
| Rrest.GetFormatAsWritten | src/RREST.php:380-390 | the loop as written computes the as-written format |
| Rrest.GetFormat | src/RREST.php:380-390 | the intended loop computes the intended format |
| Rrest.UnknownMimeTypeSelectsCsv | src/RREST.php:380-390 | with RREST's table, an unknown MIME type or no Accept value selects 'csv' as written and nothing as intended |
| Rrest.KeyPosition | src/RREST.php:401 | the position of a format in the table, none when it is not a key |
| Rrest.MimeTypeOf | src/RREST.php:398-406 | the first MIME type of the format's group; none for no format or an unknown one |
| Rrest.FormatOfMember | src/RREST.php:380-390 | in a table with distinct keys and disjoint groups, every MIME type of a group selects that group's format |
| Rrest.MimeTypeRoundTrip | src/RREST.php:380-406 | a format's MIME type selects the format again |
| Rrest.FormatThenMimeType | src/RREST.php:141-142 | any accepted MIME type selects its format, whose first MIME type is sent back |
| Rrest.SupportedMimeTypesWellFormed | src/RREST.php:23-27 | RREST's table has distinct keys, non-empty groups and disjoint groups |
| Rrest.SupportedMimeTypesAreWords | src/RREST.php:23-27 | no supported MIME type is numeric, so `in_array` compares them as strings |
| Rrest.SupportedMimeGroupsDisjoint | src/RREST.php:23-27 | no supported MIME type selects two formats |
| Rrest.GetResponse | src/RREST.php:202-214 | no format raises 'Can't find a supported format'; otherwise a fresh response in that format, with the success code and the MIME type as Content-Type |
| Rrest.BuildResponse | src/RREST.php:138-149 | the response never fails to build: the format `getFormat` leaves as written for the best Accept value (csv when no group holds it), that format's MIME type and the success code, with the response schema set when responses are asserted |
| Rrest.RequestFailure | src/RREST.php:109-136 | the request checks fail only with 'No content type defined', NotAcceptable, UnsupportedMediaType or AccessDenied, the first failing check deciding |
| Rrest.SetupFailure | src/RREST.php:138-156 | the rest of addRoute fails only with a RuntimeException, and exactly when the success code is not unique or the controller class or action is missing; the response itself never fails |
| Rrest.CheckRequest | src/RREST.php:109-136 | the validators run in the order Accept, Content-Type, protocol; the first failing one's exception is raised, else the best Accept value is returned |
| Rrest.RegisterRoutes | src/RREST.php:151-167 | one router entry per route path, each for the controller's class and action and the same response; a missing class or action fails before any entry |
| Rrest.TableFormatsSupported | src/RREST.php:23-27 | whatever the Accept value, `getFormat` as written leaves a format of RREST's table, and it is one a Response accepts |
| Rrest.HintedReadBack | src/RREST.php:269-274 | after hinting, a hinted key that some bag holds reads as its hinted value, and every other key reads as before |
| Rrest.HintStep | src/RREST.php:271-273 | writing one more hinted key keeps the description of the bags |
| Rrest.XmlBodyOutcome | src/RREST.php:311-348 | a body that does not load is invalid XML; one that breaks the schema is an invalid request body; it passes exactly when neither happens |
| Rrest.JsonBodyOutcome | src/RREST.php:357-367 | the validator's decoding failure, or an invalid request body carrying its errors; a pass exactly when there are none |
| Rrest.JsonPassDecodes | src/RREST.php:357-366 | a body that passes the JSON check decodes, and so does its schema |
| Rrest.PayloadPassIff | src/RREST.php:285-302 | with a schema, a content type holding 'json' goes to the JSON check first, one holding 'xml' to the XML check, and any other passes unchecked |
| Rrest.RRest.constructor | src/RREST.php:69-75 | a new dispatcher holds its API description, router and controller namespace, with nothing hinted and responses asserted |
| Rrest.RRest.SetAssertResponse | src/RREST.php:84-87 | only the response-assertion switch changes |
| Rrest.RRest.AddRoute | src/RREST.php:100-170 | fails exactly with the first failing check, registering nothing; otherwise registers two entries, one per route path, with the response `getFormat` as written selects, and returns the route for the last path |
| Rrest.RRest.ParameterEnv | src/RREST.php:237-262 | the sweep reads each parameter through the router's lookup, casts with RREST's cast and asserts with `assertValue` |
| Rrest.RRest.AssertHTTPParameters | src/RREST.php:237-267 | the outcome and the hinted parameters are the sweep's over the router's bags; the hinted body is untouched |
| Rrest.RRest.HintHTTPParameterValue | src/RREST.php:269-274 | each hinted value is written to the router |
| Rrest.RRest.AssertHTTPPayloadBodyJSON | src/RREST.php:357-367 | the outcome is the JSON check's; a conforming body is hinted as its decoded value, and a failing one leaves the hinted body |
| Rrest.RRest.AssertHTTPPayloadBodyXML | src/RREST.php:311-348 | the outcome is the XML check's; a conforming body is hinted as its object form |
| Rrest.RRest.AssertHTTPPayloadBody | src/RREST.php:285-302 | the outcome and the hinted body are those of the dispatch on the Content-Type |
| Rrest.RRest.HintHTTPPayloadBody | src/RREST.php:369-372 | the router's request bag becomes the hinted body |
| Rrest.RRest.HandleRequest | src/RREST.php:158-163 | the closure asserts the parameters, then the body, and only when both pass writes the hinted values and body to the router; a failure leaves the router and the hinted body as they were, and the response switch never changes |

## Left out

- Foreign libraries are parameters and are not interpreted: JSON
  decoding, JsonGuard's draft-4 validation and dereferencing, libxml and
  SimpleXML, the Symfony serialiser, Negotiation, CastToType, `\DateTime`,
  `preg_match` on user patterns, `class_exists`, `method_exists`,
  `getallheaders` and `$_SERVER`.
- Framework plumbing is I/O with nothing to prove, so it is left out: Silex
  route registration, before-hooks, CORS, and the hand-off of
  `getRouterResponse` to the transport. The router's `addRoute` appears only
  as the list of entries registered.
- The router interface is played by the Silex provider. The loop of
  `assertHTTPParameters` reads parameter values through a lookup function,
  which is the provider's `getHTTPParameterValue` over its bags.
- `getResponsePayloadBodySchema`, which `addRoute` calls, is not defined in
  RAML.php. The response schema is taken as a field of the API view.
- `getAuthTypes`, `getProtocols`, `getRouteMethod` and `getRessourcePath`
  are plain getters, represented as fields of the API view.
- The `Converter` class that `JsonValidator` instantiates is not part of
  this model. The validator takes the per-violation conversion as a
  parameter, and both converter tables are modelled on their own.
- `array_merge` renumbers integer-like keys. The parameter merge of
  `getParameters` is modelled for string keys only.
- In the XML checks, libxml's error level is not restored when an
  exception leaves the check. That global setting is not modelled.
- A failing `json_encode` (which returns `false`) is not modelled. The JSON
  encoder is a total function.
- The model follows PHP 8. `in_array` on formats and protocols is loose
  comparison. `Php.InArray` models it with PHP 8's rules for two strings.
  Two numeric strings compare by value, including exponent and white-space
  forms such as "1e1" and " 10"; any other pair compares byte for byte.
  Numeric strings are compared as exact decimals, not as doubles.
- Raml.ExtractRessourcePath: an empty version gives '', which is PHP 7's
  `explode`. PHP 8 raises a ValueError there, and that error is not
  modelled.
- KeywordConverters.MaxLengthErrors, KeywordConverters.MaxItemsErrors,
  KeywordConverters.MinItemsErrors, KeywordConverters.RequiredErrors,
  KeywordConverters.AnyOfErrors: these model the converters of the
  `JsonGuardValidationErrorConverter` namespace. Those classes extend that
  namespace's own `ConverterAbstract`, which is not part of this model.
  They are given the `getFieldPath` of the `JsonGuardValidationError`
  namespace.
- `src/Error.php` keeps only a message and a code, and defines none of the
  code constants (`Error::INVALID_JSON`, `Error::DATA_VALIDATION_*`) that its
  builders name. PHP drops the third argument, the context object, that every
  converter passes. The model keeps that argument as the error's `context` and
  takes the codes as an enumeration, as the converters and the unit tests
  (tests/units/Validator/Util/JsonGuardValidationErrorConverter/TypeConverter.php)
  use them. So the contexts stated by the
  KeywordConverters and MonolithicConverter members describe what the
  converters build, not what the class `Error` stores.
- A missing Content-Type header (null) reaches the validators as the empty
  string, which is what `strtolower(null)` gives.
- Floats are decimal fractions (mantissa and scale). Binary floating point
  is not modelled.
- The getters of `Parameter`, `Response` and `RREST` return fields and have
  no row of their own.
- The empty stubs of RequestValidador.php (`validate`, `assert`,
  `assertHeaders`, `assertBody`, `assertProtocol`) are not modelled.
- MonolithicConverter.Handle: requires a non-empty keyword. The empty keyword
  names `getErrors` itself, which would recurse without end in PHP.
- KeywordConverters.Convert: requires a non-empty keyword. For the empty
  keyword, `ucfirst('')` names the class `Converter` itself.
- Constructors that throw in PHP are split in two: a Dafny constructor that
  requires valid arguments, and a static `Create` that raises the PHP
  exception for invalid ones and otherwise calls the constructor. This applies
  to `AcceptValidator`, `Parameter` and `Response`.
- LastCastFailureIff: states the cast exception that validate records as intended, with `RREST\Error` imported; as written, a throwing cast raises a class-not-found \Error instead (ParameterValidator.Validate, see Findings).
- CastFailure: states the one-error exception as `assertHTTPParameters` builds it; validate as written never builds it (see Findings).
- CastStep: states the turn of validate as intended, with `RREST\Error` imported; as written, a throwing cast ends validate (see Findings).
- ValidationFailsIff: states validate as intended, with `RREST\Error` imported; WrittenValidationFailsIff states it as written.
- Sweep: the loop of validate as intended, with `RREST\Error` imported; ParameterValidator.Validate runs the loop as written.
- SweepOne: one turn of the loop as intended, with `RREST\Error` imported.
- Rrest.RegisterRoutes: requires at least one route path. `getRoutePaths`
  always gives two.

## Findings

| source | as written | input that shows it | evidently intended | confidence | as-written member | corrected member |
|---|---|---|---|---|---|---|
| src/RREST.php:380-390 | `getFormat` returns the last key of the table when no group holds the MIME type, so the `false` check of `getResponse` never fires for RREST's table; `addRoute` is modelled with the loop as written (Rrest.BuildResponse) | Accept `text/html` (or none) selects 'csv' | `false` when no group holds the MIME type, so that `getResponse` raises 'Can't find a supported format' | not executed | Rrest.UnknownMimeTypeSelectsCsv | Rrest.GetFormat |
| src/Validator/ParameterValidator.php:73-82 | the catch block of `validate` builds `new Error(...)` in the namespace `RREST\Validator` (lines 3-7), which imports no `Error`; the name resolves to the missing class `RREST\Validator\Error`, so PHP raises a class-not-found \Error that escapes `validate`, `getException` and `fails`; the class is modelled as written | any parameter whose cast throws an \Exception, while no earlier assertion raises | with `use RREST\Error;`, the cast exception is recorded as a one-error InvalidParameterException and the sweep goes on | not executed | ParameterValidation.CastThrowEscapes | ParameterValidation.Sweep |
| src/Validator/JsonGuardValidationErrorConverter.php:105-115 | the maxLength handler reports code MINLENGTH, stores the limit under `minLength` and prints the undefined `$context->maxLength` | a maxLength violation with limit 5 gives a MINLENGTH error whose message reads 'less than  characters long' | code MAXLENGTH, limit stored under `maxLength` and printed, as the MaxLengthConverter class does | not executed | MonolithicConverter.MaxLengthMislabelled | MonolithicConverter.MaxLengthErrors |
