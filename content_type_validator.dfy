/**
 * ContentTypeValidator: decides whether the Content-Type of a request is
 * one the route declares.  A multipart/form-data header carries a boundary
 * parameter (section 5.1.1 of RFC 2046), so it is matched by substring; any
 * other header must equal a declared type exactly.
 */
module ContentTypeValidation {
  import opened Php
  import opened Errors

  const Multipart: string := "multipart/form-data"

  /** The test applied to one declared type. */
  predicate TypeMatches(contentType: string, available: string)
  {
    || (!Contains(contentType, Multipart) && available == contentType)
    || (Contains(contentType, Multipart) && Contains(contentType, available))
  }

  /** The header is acceptable: no type is declared, or some declared type matches. */
  predicate ContentTypeAccepted(contentType: string, available: seq<string>)
  {
    available == [] || exists k :: 0 <= k < |available| && TypeMatches(contentType, available[k])
  }

  /** A header without multipart/form-data must be one of the declared types, exactly. */
  lemma PlainTypeIsExact(contentType: string, available: seq<string>)
    requires !Contains(contentType, Multipart)
    ensures ContentTypeAccepted(contentType, available) <==> available == [] || contentType in available
  {
    if contentType in available {
      var k :| 0 <= k < |available| && available[k] == contentType;
      assert TypeMatches(contentType, available[k]);
    }
  }

  /** Whatever parameters follow it, a multipart header matches a declared multipart/form-data. */
  lemma MultipartBoundaryIgnored(parameters: string, available: seq<string>)
    requires Multipart in available
    ensures ContentTypeAccepted(Multipart + parameters, available)
  {
    ContainsSelf(Multipart, [], parameters);
    assert [] + Multipart + parameters == Multipart + parameters;
    var k :| 0 <= k < |available| && available[k] == Multipart;
    assert TypeMatches(Multipart + parameters, available[k]);
  }

  class ContentTypeValidator {
    const contentType: string
    const availableContentTypes: seq<string>
    var isValidated: bool
    var exception: Option<Failure>

    /** Before validation nothing is recorded; afterwards the verdict is. */
    predicate Valid()
      reads this
    {
      && (!isValidated ==> exception == None)
      && (isValidated ==> (exception == None <==> ContentTypeAccepted(contentType, availableContentTypes)))
      && (exception == None || exception == Some(UnsupportedMediaType))
    }

    constructor (contentType: string, availableContentTypes: seq<string>)
      ensures this.contentType == Lower(contentType)
      ensures this.availableContentTypes == LowerAll(availableContentTypes)
      ensures Valid() && !isValidated
    {
      this.contentType := Lower(contentType);
      this.availableContentTypes := LowerAll(availableContentTypes);
      isValidated := false;
      exception := None;
    }

    /**
     * validate: walks the declared types and stops at the first match; when
     * none matches a non-empty list, UnsupportedMediaType is recorded.
     * Runs once; later calls change nothing.
     */
    method Validate()
      requires Valid()
      modifies this
      ensures Valid() && isValidated
      ensures exception == None <==> ContentTypeAccepted(contentType, availableContentTypes)
      ensures old(isValidated) ==> exception == old(exception)
    {
      if isValidated {
        return;
      }
      if availableContentTypes != [] {
        var i := 0;
        while i < |availableContentTypes|
          invariant 0 <= i <= |availableContentTypes|
          invariant forall j :: 0 <= j < i ==> !TypeMatches(contentType, availableContentTypes[j])
        {
          if TypeMatches(contentType, availableContentTypes[i]) {
            isValidated := true;
            return;
          }
          i := i + 1;
        }
        exception := Some(UnsupportedMediaType);
      }
      isValidated := true;
    }

    /** getException. */
    method GetException() returns (r: Option<Failure>)
      requires Valid()
      modifies this
      ensures Valid() && isValidated && r == exception
      ensures r == None || r == Some(UnsupportedMediaType)
      ensures r == None <==> ContentTypeAccepted(contentType, availableContentTypes)
    {
      Validate();
      r := exception;
    }

    /** fails: the header matches none of the declared types. */
    method Fails() returns (r: bool)
      requires Valid()
      modifies this
      ensures Valid() && isValidated
      ensures r <==> !ContentTypeAccepted(contentType, availableContentTypes)
    {
      var e := GetException();
      r := e.Some?;
    }
  }

  /** The header and the declared types may be written in any case. */
  lemma ContentTypeIgnoresCase(contentType: string, available: seq<string>)
    ensures ContentTypeAccepted(Lower(Upper(contentType)), LowerAll(UpperAll(available)))
        <==> ContentTypeAccepted(Lower(contentType), LowerAll(available))
  {
    LowerForgetsCase(contentType);
    UpperAllThenLower(available);
  }
}
