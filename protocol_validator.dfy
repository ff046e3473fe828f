/**
 * ProtocolValidator: decides whether the request's protocol (HTTP or HTTPS)
 * is one the route allows, comparing lower-cased.
 */
module ProtocolValidation {
  import opened Php
  import opened Errors

  /** What validate() records: AccessDenied unless the protocol is listed. */
  function ProtocolVerdict(protocol: string, availableProtocols: seq<string>): (r: Option<Failure>)
    ensures r == None <==> InArray(protocol, availableProtocols)
    ensures r == None || r == Some(AccessDenied)
    ensures availableProtocols == [] ==> r == Some(AccessDenied)
  {
    if InArray(protocol, availableProtocols) then None else Some(AccessDenied)
  }

  class ProtocolValidator {
    const protocol: string
    const availableProtocols: seq<string>
    var isValidated: bool
    var exception: Option<Failure>

    /** Before validation nothing is recorded; afterwards the verdict is. */
    predicate Valid()
      reads this
    {
      if isValidated then exception == ProtocolVerdict(protocol, availableProtocols) else exception == None
    }

    constructor (protocol: string, availableProtocols: seq<string>)
      ensures this.protocol == Lower(protocol)
      ensures this.availableProtocols == LowerAll(availableProtocols)
      ensures Valid() && !isValidated
    {
      this.protocol := Lower(protocol);
      this.availableProtocols := LowerAll(availableProtocols);
      isValidated := false;
      exception := None;
    }

    /** validate: decides once; later calls change nothing. */
    method Validate()
      requires Valid()
      modifies this
      ensures Valid() && isValidated
      ensures exception == ProtocolVerdict(protocol, availableProtocols)
      ensures old(isValidated) ==> exception == old(exception)
    {
      if isValidated {
        return;
      }
      if !InArray(protocol, availableProtocols) {
        exception := Some(AccessDenied);
      }
      isValidated := true;
    }

    /** getException. */
    method GetException() returns (r: Option<Failure>)
      requires Valid()
      modifies this
      ensures Valid() && isValidated && r == exception
      ensures r == ProtocolVerdict(protocol, availableProtocols)
    {
      Validate();
      r := exception;
    }

    /** fails: the protocol is not allowed. */
    method Fails() returns (r: bool)
      requires Valid()
      modifies this
      ensures Valid() && isValidated
      ensures r <==> !InArray(protocol, availableProtocols)
    {
      var e := GetException();
      r := e.Some?;
    }
  }

  /**
   * A protocol name is not a number, so it passes exactly when its
   * lower-cased form is among the lower-cased allowed ones, whatever the
   * case either was written in.
   */
  lemma ProtocolIgnoresCase(protocol: string, availableProtocols: seq<string>)
    requires !IsNumericString(Lower(protocol))
    ensures ProtocolVerdict(Lower(Upper(protocol)), LowerAll(UpperAll(availableProtocols))) == None
        <==> Lower(protocol) in LowerAll(availableProtocols)
  {
    LowerForgetsCase(protocol);
    UpperAllThenLower(availableProtocols);
    InArrayIsMembership(Lower(protocol), LowerAll(availableProtocols));
  }
}
