/**
 * The Error record as its builders use it (message, code, and the context
 * object the converters pass as a third argument), the schema violation
 * that JsonGuard reports, and the failure categories RREST raises, each with
 * the HTTP status its exception class carries.  The Error class itself
 * stores only the message and the code, and defines none of the code
 * constants the converters name; the codes are an enumeration here.
 */
module Errors {
  import opened Php

  /** Machine-readable error codes, as the builders of Error name them. */
  datatype ErrorCode =
    | ParameterInvalid          // 'parameter-invalid'
    | InvalidJson               // Error::INVALID_JSON
    | InvalidPayloadBodyXml     // 'invalid-payloadbody-xml'
    | InvalidResponseXml        // 'invalid-response-xml'
    | Required                  // Error::DATA_VALIDATION_REQUIRED
    | RequiredAnyOf             // Error::DATA_VALIDATION_REQUIRED_ANYOF
    | Unknown                   // Error::DATA_VALIDATION_UNKNOW
    | MinLength
    | MaxLength
    | Format
    | Type
    | Enum
    | MinItems
    | MaxItems
    | UniqueItems
    | OneOf
    | ExceptionCode(n: int)     // the code of an exception caught while casting
    | NoCode                    // an Error built without a code

  /**
   * One schema violation as JsonGuard reports it: the keyword that failed,
   * the keyword's parameter in the schema, the offending data, its path
   * ('/' for the root), and for 'required' the missing field names.
   */
  datatype ValidationError = ValidationError(
    message: string,
    keyword: string,
    parameter: Value,
    data: Value,
    dataPath: string,
    cause: seq<string>)

  /** The third constructor argument the converters pass; the Error class ignores it. */
  datatype Context =
    | NoContext
    | Props(props: map<string, Value>)    // a \stdClass built by a converter
    | Raw(violation: ValidationError)     // the JsonGuard error itself

  datatype Error = Error(message: string, code: ErrorCode, context: Context)

  /** The exception classes RREST raises. */
  datatype Failure =
    | InvalidParameter(errors: seq<Error>)
    | InvalidJSON(errors: seq<Error>)
    | InvalidXML(errors: seq<Error>)
    | InvalidRequestPayloadBody(errors: seq<Error>)
    | InvalidResponsePayloadBody(errors: seq<Error>)
    | NotAcceptable
    | UnsupportedMediaType
    | AccessDenied
    | NotFound(reason: string)
    | MethodNotAllowed(allowed: seq<string>)
    | Runtime(reason: string)               // \RuntimeException: a configuration error
    | ClassNotFound(name: string)           // the \Error PHP raises when `new` names a class that does not exist
  {
    /** The HTTP status of the exception; a \RuntimeException or a PHP \Error is not an HTTP exception. */
    function Status(): (s: Option<int>)
      ensures s.Some? <==> !Runtime? && !ClassNotFound?
      ensures s.Some? ==> 400 <= s.value < 600
      ensures InvalidParameter? ==> s == Some(422)
      ensures (InvalidJSON? || InvalidXML?) ==> s == Some(400)
      ensures (InvalidRequestPayloadBody? || InvalidResponsePayloadBody?) ==> s == Some(500)
    {
      match this
      case InvalidParameter(_) => Some(422)
      case InvalidJSON(_) => Some(400)
      case InvalidXML(_) => Some(400)
      case InvalidRequestPayloadBody(_) => Some(500)
      case InvalidResponsePayloadBody(_) => Some(500)
      case NotAcceptable => Some(406)
      case UnsupportedMediaType => Some(415)
      case AccessDenied => Some(403)
      case NotFound(_) => Some(404)
      case MethodNotAllowed(_) => Some(405)
      case Runtime(_) => None
      case ClassNotFound(_) => None
    }
  }

  /** Outcome of a check that raises or passes. */
  datatype Outcome = Pass | Fail(failure: Failure)

  /** A one-error parameter failure, as Parameter::throwInvalidParameter builds it. */
  function ParameterError(message: string): (e: Error)
    ensures e.code == ParameterInvalid && e.context == NoContext && e.message == message
  {
    Error(message, ParameterInvalid, NoContext)
  }
}
