/**
 * AcceptValidator: decides whether the Accept header of a request names a
 * content type the route can produce.  The header and the declared types
 * are compared lower-cased; Negotiator::getBest is foreign code and arrives
 * as a function.
 */
module AcceptValidation {
  import opened Php
  import opened Errors

  /**
   * Negotiator::getBest($accept, $priorities): the value of the best
   * AcceptHeader, or None when it returns anything else or throws.
   */
  type Negotiate = (string, seq<string>) -> Option<string>

  /**
   * getBestAccept: null for an empty header; otherwise the negotiated type,
   * falling back to the header itself when negotiation gives nothing.
   */
  function BestAccept(accept: string, validAccepts: seq<string>, negotiate: Negotiate): (r: Option<string>)
    ensures r.None? <==> Empty(Str(accept))
    ensures r.Some? && negotiate(accept, validAccepts).None? ==> r.value == accept
    ensures r.Some? && negotiate(accept, validAccepts).Some? ==> r.value == negotiate(accept, validAccepts).value
  {
    if Empty(Str(accept)) then None
    else match negotiate(accept, validAccepts)
      case None => Some(accept)
      case Some(best) => Some(best)
  }

  /**
   * What validate() records: nothing when the best accept is empty or one of
   * the declared types, NotAcceptable otherwise.
   */
  function AcceptVerdict(accept: string, validAccepts: seq<string>, negotiate: Negotiate): (r: Option<Failure>)
    ensures r == None || r == Some(NotAcceptable)
    ensures Empty(Str(accept)) ==> r == None
    ensures !Empty(Str(accept)) && negotiate(accept, validAccepts).None? ==>
              (r == None <==> InArray(accept, validAccepts))
  {
    match BestAccept(accept, validAccepts, negotiate)
    case None => None
    case Some(best) =>
      if Empty(Str(best)) || InArray(best, validAccepts) then None else Some(NotAcceptable)
  }

  /**
   * A header that negotiation cannot place and that is not a number fails
   * exactly when it is not literally one of the declared types.
   */
  lemma UnnegotiatedHeaderIsMembership(accept: string, validAccepts: seq<string>, negotiate: Negotiate)
    requires !Empty(Str(accept)) && !IsNumericString(accept)
    requires negotiate(accept, validAccepts).None?
    ensures AcceptVerdict(accept, validAccepts, negotiate) == None <==> accept in validAccepts
  {
    InArrayIsMembership(accept, validAccepts);
  }

  class AcceptValidator {
    const accept: string
    const validAccepts: seq<string>
    const negotiate: Negotiate
    var isValidated: bool
    var exception: Option<Failure>

    /** Before validation nothing is recorded; afterwards the verdict is. */
    predicate Valid()
      reads this
    {
      if isValidated then exception == AcceptVerdict(accept, validAccepts, negotiate) else exception == None
    }

    constructor (accept: string, validAccepts: seq<string>, negotiate: Negotiate)
      requires validAccepts != []
      ensures this.accept == Lower(accept) && this.validAccepts == LowerAll(validAccepts)
      ensures this.negotiate == negotiate
      ensures Valid() && !isValidated
    {
      this.accept := Lower(accept);
      this.validAccepts := LowerAll(validAccepts);
      this.negotiate := negotiate;
      isValidated := false;
      exception := None;
    }

    /**
     * new AcceptValidator($accept, $validAccepts): a missing or empty list of
     * declared types is a configuration error; a missing header reads as "".
     */
    static method Create(accept: Option<string>, validAccepts: Option<seq<string>>, negotiate: Negotiate)
      returns (r: Result<AcceptValidator, Failure>)
      ensures r.Err? <==> validAccepts.None? || validAccepts.value == []
      ensures r.Err? ==> r.error == Runtime("No content type defined for this response")
      ensures r.Ok? ==> && fresh(r.value) && r.value.Valid() && !r.value.isValidated
                        && r.value.accept == Lower(if accept.Some? then accept.value else "")
                        && r.value.validAccepts == LowerAll(validAccepts.value)
                        && r.value.negotiate == negotiate
    {
      if validAccepts.None? || validAccepts.value == [] {
        return Err(Runtime("No content type defined for this response"));
      }
      var v := new AcceptValidator(if accept.Some? then accept.value else "", validAccepts.value, negotiate);
      r := Ok(v);
    }

    /** getBestAccept. */
    function GetBestAccept(): (r: Option<string>)
      ensures r == BestAccept(accept, validAccepts, negotiate)
      ensures r.None? <==> Empty(Str(accept))
    {
      BestAccept(accept, validAccepts, negotiate)
    }

    /** validate: decides once; later calls change nothing. */
    method Validate()
      requires Valid()
      modifies this
      ensures Valid() && isValidated
      ensures exception == AcceptVerdict(accept, validAccepts, negotiate)
      ensures old(isValidated) ==> exception == old(exception)
    {
      if isValidated {
        return;
      }
      var best := GetBestAccept();
      if best.None? || Empty(Str(best.value)) {
        isValidated := true;
        return;
      }
      if !InArray(best.value, validAccepts) {
        exception := Some(NotAcceptable);
      }
      isValidated := true;
    }

    /** getException. */
    method GetException() returns (r: Option<Failure>)
      requires Valid()
      modifies this
      ensures Valid() && isValidated && r == exception
      ensures r == AcceptVerdict(accept, validAccepts, negotiate)
    {
      Validate();
      r := exception;
    }

    /** fails: the request is not acceptable. */
    method Fails() returns (r: bool)
      requires Valid()
      modifies this
      ensures Valid() && isValidated
      ensures r <==> AcceptVerdict(accept, validAccepts, negotiate) == Some(NotAcceptable)
    {
      var e := GetException();
      r := e.Some?;
    }
  }

  /**
   * The header and the declared types may be written in any case: a
   * validator built from upper-cased inputs stores exactly what one built
   * from the originals stores, so it reaches the same verdict.
   */
  lemma AcceptIgnoresCase(accept: string, validAccepts: seq<string>, negotiate: Negotiate)
    ensures AcceptVerdict(Lower(Upper(accept)), LowerAll(UpperAll(validAccepts)), negotiate)
         == AcceptVerdict(Lower(accept), LowerAll(validAccepts), negotiate)
  {
    LowerForgetsCase(accept);
    UpperAllThenLower(validAccepts);
  }
}
