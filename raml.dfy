/**
 * The RAML adapter: it finds the resource and the method a request
 * addresses in a parsed RAML definition, and reads the route path, the
 * content types, the payload schema and the declared parameters from them.
 * The definition itself (and the library's URI-template matching) is
 * foreign and arrives as data and a lookup function.
 */
module Raml {
  import opened Php
  import opened Errors
  import opened Parameters

  /** A declared body: its media type and its schema text ((string) of the schema). */
  datatype Body = Body(mediaType: string, schema: string)

  datatype ResponseDecl = ResponseDecl(statusCode: int, bodies: seq<Body>)

  /** A RAML named parameter as the parser reports it; bounds are raw values (null when absent). */
  datatype NamedParameter = NamedParameter(
    key: string,
    typeName: string,
    required: bool,
    enumValues: Option<seq<Value>>,
    pattern: Option<string>,
    minLength: Value,
    maxLength: Value,
    minimum: Value,
    maximum: Value)

  datatype MethodDecl = MethodDecl(
    verb: string,
    queryParameters: seq<NamedParameter>,
    baseUriParameters: seq<NamedParameter>,
    bodies: seq<Body>,
    responses: seq<ResponseDecl>,
    securitySchemeTypes: seq<string>)

  datatype ResourceDecl = ResourceDecl(
    uri: string,
    uriParameters: seq<NamedParameter>,
    baseUriParameters: seq<NamedParameter>,
    methods: seq<MethodDecl>)

  datatype ApiDefinition = ApiDefinition(
    version: string,
    protocols: seq<string>,
    /** getResourceByUri: the resource whose URI template matches, if any. */
    resourceByUri: string -> Option<ResourceDecl>,
    /** The message of the ResourceNotFoundException getResourceByUri raises for a URI. */
    notFoundMessage: string -> string)

  /**
   * The adapter once constructed: the definition, the resource, and the
   * method, which is absent only for an OPTIONS request on a resource that
   * declares no method at all.
   */
  datatype RamlSpec = RamlSpec(api: ApiDefinition, resource: ResourceDecl, routeMethod: Option<MethodDecl>)

  // ---------------------------------------------------------------------
  // explode with a string separator
  // ---------------------------------------------------------------------

  /** explode($sep, $s) for a non-empty separator, matching left to right. */
  function Explode(s: string, sep: string): (r: seq<string>)
    requires sep != ""
    ensures |r| >= 1
    decreases |s|
  {
    if |s| < |sep| then [s]
    else if s[..|sep|] == sep then [""] + Explode(s[|sep|..], sep)
    else
      var rest := Explode(s[1..], sep);
      [[s[0]] + rest[0]] + rest[1..]
  }

  /** Imploding the pieces with the separator gives the string back. */
  lemma {:induction false} ImplodeExplode(s: string, sep: string)
    requires sep != ""
    ensures Implode(sep, Explode(s, sep)) == s
    decreases |s|
  {
    if |s| < |sep| {
    } else if s[..|sep|] == sep {
      ImplodeExplode(s[|sep|..], sep);
      ImplodeEmptyFirst(sep, Explode(s[|sep|..], sep));
      assert s == sep + s[|sep|..];
    } else {
      ImplodeExplode(s[1..], sep);
      ImplodeConsChar(s[0], Explode(s[1..], sep), sep);
      assert [s[0]] + s[1..] == s;
    }
  }

  /** An empty first piece puts the glue in front. */
  lemma ImplodeEmptyFirst(sep: string, pieces: seq<string>)
    requires |pieces| >= 1
    ensures Implode(sep, [""] + pieces) == sep + Implode(sep, pieces)
  {
    assert ([""] + pieces)[1..] == pieces;
  }

  /** A character put in front of the first piece comes first in the join. */
  lemma ImplodeConsChar(c: char, pieces: seq<string>, sep: string)
    requires |pieces| >= 1
    ensures Implode(sep, [[c] + pieces[0]] + pieces[1..]) == [c] + Implode(sep, pieces)
  {
    var r := [[c] + pieces[0]] + pieces[1..];
    if |pieces| > 1 {
      assert r[1..] == pieces[1..];
    }
  }

  /** A string that does not hold the separator is one piece. */
  lemma {:induction false} ExplodeWithout(s: string, sep: string)
    requires sep != "" && !Contains(s, sep)
    ensures Explode(s, sep) == [s]
    decreases |s|
  {
    if |s| >= |sep| {
      assert !(sep <= s);
      ExplodeWithout(s[1..], sep);
      assert [s[0]] + s[1..] == s;
    }
  }

  /**
   * The text before the first occurrence of the separator is the first
   * piece, provided no occurrence starts inside it.
   */
  lemma {:induction false} ExplodeAround(p: string, sep: string, q: string)
    requires sep != "" && !Contains(p + sep[..|sep| - 1], sep)
    ensures Explode(p + sep + q, sep) == [p] + Explode(q, sep)
    decreases |p|
  {
    if p == [] {
      ExplodeAtSeparator(sep, q);
    } else {
      NotAtFront(p, sep, q);
      ExplodeAround(p[1..], sep, q);
      ExplodeOneChar(p, sep, q);
    }
  }

  /** A string that starts with the separator loses it as an empty first piece. */
  lemma ExplodeAtSeparator(sep: string, q: string)
    requires sep != ""
    ensures Explode(sep + q, sep) == [""] + Explode(q, sep)
  {
    var s := sep + q;
    assert s[..|sep|] == sep;
    assert s[|sep|..] == q;
  }

  /** No occurrence of the separator starts at the front of p + sep + q, nor inside the rest of p. */
  lemma NotAtFront(p: string, sep: string, q: string)
    requires p != [] && sep != "" && !Contains(p + sep[..|sep| - 1], sep)
    ensures (p + sep + q)[..|sep|] != sep
    ensures !Contains(p[1..] + sep[..|sep| - 1], sep)
  {
    var s := p + sep + q;
    var t := p + sep[..|sep| - 1];
    assert !(sep <= t);
    assert s[..|sep|] == t[..|sep|];
    assert t[1..] == p[1..] + sep[..|sep| - 1];
  }

  /** One character of p that starts no separator joins the first piece of the rest. */
  lemma ExplodeOneChar(p: string, sep: string, q: string)
    requires p != [] && sep != "" && (p + sep + q)[..|sep|] != sep
    requires Explode(p[1..] + sep + q, sep) == [p[1..]] + Explode(q, sep)
    ensures Explode(p + sep + q, sep) == [p] + Explode(q, sep)
  {
    var s := p + sep + q;
    assert s[1..] == p[1..] + sep + q;
    assert [s[0]] + p[1..] == p;
  }

  // ---------------------------------------------------------------------
  // Locating the resource and the method
  // ---------------------------------------------------------------------

  /**
   * extractRessourcePathFromURL: the text after the version when the URL
   * splits on the version into exactly two pieces, '' otherwise.  An empty
   * version cannot split anything and gives ''.
   */
  function ExtractRessourcePath(url: string, version: string): (r: string)
    ensures version == "" ==> r == ""
    ensures r != "" ==> exists prefix :: url == prefix + version + r
  {
    if version == "" then ""
    else
      var parts := Explode(url, version);
      if |parts| == 2 then
        ImplodeExplode(url, version);
        assert url == parts[0] + version + parts[1];
        parts[1]
      else ""
  }

  /** A URL made of a prefix, the version once, and a path gives that path. */
  lemma ExtractAfterVersion(prefix: string, version: string, path: string)
    requires version != "" && !Contains(prefix + version[..|version| - 1], version) && !Contains(path, version)
    ensures ExtractRessourcePath(prefix + version + path, version) == path
  {
    ExplodeAround(prefix, version, path);
    ExplodeWithout(path, version);
  }

  /** A URL without the version gives ''. */
  lemma ExtractWithoutVersion(url: string, version: string)
    requires !Contains(url, version)
    ensures ExtractRessourcePath(url, version) == ""
  {
    if version != "" {
      ExplodeWithout(url, version);
    }
  }

  /** A URL holding the version twice gives '' too. */
  lemma ExtractVersionTwice(prefix: string, version: string, middle: string, path: string)
    requires version != ""
    requires !Contains(prefix + version[..|version| - 1], version) && !Contains(middle + version[..|version| - 1], version)
    ensures ExtractRessourcePath(prefix + version + (middle + version + path), version) == ""
  {
    ExplodeAround(middle, version, path);
    ExtractBeforeSplit(prefix, version, middle + version + path);
  }

  /** Text after the version that itself splits on the version leaves more than two pieces, so ''. */
  lemma ExtractBeforeSplit(prefix: string, version: string, rest: string)
    requires version != "" && !Contains(prefix + version[..|version| - 1], version)
    requires |Explode(rest, version)| >= 2
    ensures ExtractRessourcePath(prefix + version + rest, version) == ""
  {
    ExplodeAround(prefix, version, rest);
  }

  /** getResourceFromPath: the path, else the path with a trailing '/', else Not Found. */
  function ResourceFromPath(api: ApiDefinition, path: string): (r: Result<ResourceDecl, Failure>)
    ensures api.resourceByUri(path).Some? ==> r == Ok(api.resourceByUri(path).value)
    ensures api.resourceByUri(path).None? && api.resourceByUri(path + "/").Some? ==> r == Ok(api.resourceByUri(path + "/").value)
    ensures r.Err? <==> api.resourceByUri(path).None? && api.resourceByUri(path + "/").None?
    ensures r.Err? ==> r.error == NotFound(api.notFoundMessage(path + "/")) && r.error.Status() == Some(404)
  {
    match api.resourceByUri(path)
    case Some(res) => Ok(res)
    case None =>
      match api.resourceByUri(path + "/")
      case Some(res) => Ok(res)
      case None => Err(NotFound(api.notFoundMessage(path + "/")))
  }

  /** The declared verbs of a resource, in declaration order. */
  function DeclaredVerbs(methods: seq<MethodDecl>): (r: seq<string>)
    ensures |r| == |methods|
    ensures forall k :: 0 <= k < |methods| ==> r[k] == methods[k].verb
  {
    if methods == [] then [] else [methods[0].verb] + DeclaredVerbs(methods[1..])
  }

  /** Resource::getMethod: the method declared for the verb, if any. */
  function FindMethod(methods: seq<MethodDecl>, verb: string): (r: Option<MethodDecl>)
    ensures r.Some? <==> verb in DeclaredVerbs(methods)
    ensures r.Some? ==> r.value in methods && r.value.verb == verb
  {
    if methods == [] then None
    else if methods[0].verb == verb then Some(methods[0])
    else FindMethod(methods[1..], verb)
  }

  /**
   * getMethodFromResource: the method for the upper-cased verb.  An
   * undeclared verb is Method Not Allowed with the declared verbs, except
   * OPTIONS, which goes through: the variable the catch block loops with
   * is what is returned, so it is the last declared method, or nothing.
   */
  function MethodFromResource(resource: ResourceDecl, httpMethod: string): (r: Result<Option<MethodDecl>, Failure>)
    ensures Upper(httpMethod) in DeclaredVerbs(resource.methods) ==>
              r.Ok? && r.value.Some? && r.value.value.verb == Upper(httpMethod) && r.value.value in resource.methods
    ensures r.Err? <==> Upper(httpMethod) !in DeclaredVerbs(resource.methods) && Upper(httpMethod) != "OPTIONS"
    ensures r.Err? ==> r.error == MethodNotAllowed(DeclaredVerbs(resource.methods))
    ensures Upper(httpMethod) !in DeclaredVerbs(resource.methods) && Upper(httpMethod) == "OPTIONS" ==>
              r == Ok(if resource.methods == [] then None else Some(resource.methods[|resource.methods| - 1]))
  {
    var verb := Upper(httpMethod);
    match FindMethod(resource.methods, verb)
    case Some(m) => Ok(Some(m))
    case None =>
      if verb != "OPTIONS" then Err(MethodNotAllowed(DeclaredVerbs(resource.methods)))
      else if resource.methods == [] then Ok(None)
      else Ok(Some(resource.methods[|resource.methods| - 1]))
  }

  /** The verb is matched whatever its case. */
  lemma MethodIgnoresCase(resource: ResourceDecl, a: string, b: string)
    requires Lower(a) == Lower(b)
    ensures MethodFromResource(resource, a) == MethodFromResource(resource, b)
  {
    UpperOfLower(a);
    UpperOfLower(b);
  }

  /** Upper-casing forgets the case: it is a function of the lower-cased text. */
  lemma {:induction false} UpperOfLower(s: string)
    ensures Upper(Lower(s)) == Upper(s)
    decreases |s|
  {
    if s != [] {
      UpperOfLower(s[1..]);
    }
  }

  /** The constructor: resource path, resource, then method. */
  function NewRaml(api: ApiDefinition, httpMethod: string, routePath: string): (r: Result<RamlSpec, Failure>)
    ensures r.Ok? ==> r.value.api == api
    ensures r.Ok? ==> ResourceFromPath(api, ExtractRessourcePath(routePath, api.version)) == Ok(r.value.resource)
    ensures r.Ok? ==> MethodFromResource(r.value.resource, httpMethod) == Ok(r.value.routeMethod)
    ensures ResourceFromPath(api, ExtractRessourcePath(routePath, api.version)).Err? ==>
              r == Err(ResourceFromPath(api, ExtractRessourcePath(routePath, api.version)).error)
  {
    match ResourceFromPath(api, ExtractRessourcePath(routePath, api.version))
    case Err(f) => Err(f)
    case Ok(resource) =>
      match MethodFromResource(resource, httpMethod)
      case Err(f) => Err(f)
      case Ok(m) => Ok(RamlSpec(api, resource, m))
  }

  // ---------------------------------------------------------------------
  // Getters
  // ---------------------------------------------------------------------

  /** getRoutePath: '/' + version + resource URI. */
  function RoutePath(spec: RamlSpec): (r: string)
    ensures |r| == 1 + |spec.api.version| + |spec.resource.uri|
    ensures r[0] == '/' && r[1..1 + |spec.api.version|] == spec.api.version && r[1 + |spec.api.version|..] == spec.resource.uri
  {
    "/" + spec.api.version + spec.resource.uri
  }

  /** The route path, read back through the resource-path extraction, gives the resource URI. */
  lemma RoutePathRoundTrip(spec: RamlSpec)
    requires spec.api.version != ""
    requires !Contains("/" + spec.api.version[..|spec.api.version| - 1], spec.api.version)
    requires !Contains(spec.resource.uri, spec.api.version)
    ensures ExtractRessourcePath(RoutePath(spec), spec.api.version) == spec.resource.uri
  {
    ExtractAfterVersion("/", spec.api.version, spec.resource.uri);
  }

  /** getRequestPayloadBodyContentTypes: the media types of the method's bodies, in order. */
  function RequestContentTypes(m: MethodDecl): (r: seq<string>)
    ensures |r| == |m.bodies|
    ensures forall k :: 0 <= k < |m.bodies| ==> r[k] == m.bodies[k].mediaType
  {
    MediaTypes(m.bodies)
  }

  function MediaTypes(bodies: seq<Body>): (r: seq<string>)
    ensures |r| == |bodies|
    ensures forall k :: 0 <= k < |bodies| ==> r[k] == bodies[k].mediaType
  {
    if bodies == [] then [] else [bodies[0].mediaType] + MediaTypes(bodies[1..])
  }

  /** getResponsePayloadBodyContentTypes: every response's media types, concatenated in order. */
  function ResponseContentTypes(responses: seq<ResponseDecl>): (r: seq<string>)
    ensures responses == [] ==> r == []
    ensures forall t :: t in r <==> exists k :: 0 <= k < |responses| && t in MediaTypes(responses[k].bodies)
  {
    if responses == [] then []
    else
      MediaTypes(responses[0].bodies) + ResponseContentTypes(responses[1..])
  }

  /** The response content types of two lists of responses are the two lists of types, joined. */
  lemma {:induction false} ResponseContentTypesAppend(a: seq<ResponseDecl>, b: seq<ResponseDecl>)
    ensures ResponseContentTypes(a + b) == ResponseContentTypes(a) + ResponseContentTypes(b)
    decreases |a|
  {
    if a != [] {
      assert (a + b)[1..] == a[1..] + b;
      ResponseContentTypesAppend(a[1..], b);
    } else {
      assert a + b == b;
    }
  }

  /** The body declared for a media type, if any. */
  function BodyByType(bodies: seq<Body>, contentType: string): (r: Option<Body>)
    ensures r.Some? <==> contentType in MediaTypes(bodies)
    ensures r.Some? ==> r.value in bodies && r.value.mediaType == contentType
  {
    if bodies == [] then None
    else if bodies[0].mediaType == contentType then Some(bodies[0])
    else BodyByType(bodies[1..], contentType)
  }

  /**
   * getRequestPayloadBodySchema: the schema of the body declared for the
   * content type; None stands for the `false` returned when no body is
   * declared or none has that type.
   */
  function RequestPayloadBodySchema(m: MethodDecl, contentType: string): (r: Option<string>)
    ensures r.None? <==> m.bodies == [] || contentType !in RequestContentTypes(m)
    ensures r.Some? ==> exists b :: b in m.bodies && b.mediaType == contentType && b.schema == r.value
  {
    if m.bodies == [] then None
    else
      match BodyByType(m.bodies, contentType)
      case None => None
      case Some(b) => Some(b.schema)
  }

  /** getStatusCodes: the declared response codes, in order. */
  function StatusCodes(m: MethodDecl): (r: seq<int>)
    ensures |r| == |m.responses|
    ensures forall k :: 0 <= k < |m.responses| ==> r[k] == m.responses[k].statusCode
  {
    Codes(m.responses)
  }

  function Codes(responses: seq<ResponseDecl>): (r: seq<int>)
    ensures |r| == |responses|
    ensures forall k :: 0 <= k < |responses| ==> r[k] == responses[k].statusCode
  {
    if responses == [] then [] else [responses[0].statusCode] + Codes(responses[1..])
  }

  // ---------------------------------------------------------------------
  // Parameters
  // ---------------------------------------------------------------------

  /** Where a key sits in a list of named parameters. */
  function KeyIndex(ps: seq<NamedParameter>, key: string): (r: Option<nat>)
    ensures r.Some? ==> r.value < |ps| && ps[r.value].key == key
    ensures r.None? ==> forall k :: 0 <= k < |ps| ==> ps[k].key != key
  {
    if ps == [] then None
    else if ps[|ps| - 1].key == key then Some(|ps| - 1)
    else KeyIndex(ps[..|ps| - 1], key)
  }

  predicate DistinctKeys(ps: seq<NamedParameter>)
  {
    forall i, j :: 0 <= i < j < |ps| ==> ps[i].key != ps[j].key
  }

  /** $merged[$p->key] = $p: an existing key keeps its place and takes the new value. */
  function Put(ps: seq<NamedParameter>, p: NamedParameter): (r: seq<NamedParameter>)
    requires DistinctKeys(ps)
    ensures DistinctKeys(r)
    ensures p in r
    ensures forall q :: q in r ==> q == p || (q in ps && q.key != p.key)
    ensures forall q :: q in ps && q.key != p.key ==> q in r
  {
    match KeyIndex(ps, p.key)
    case Some(i) =>
      assert forall j :: 0 <= j < |ps| && j != i ==> ps[j].key != p.key;
      var r := ps[i := p];
      forall q | q in ps && q.key != p.key
        ensures q in r
      {
        var j :| 0 <= j < |ps| && ps[j] == q;
        assert r[j] == q;
      }
      forall q | q in r
        ensures q == p || (q in ps && q.key != p.key)
      {
        var j :| 0 <= j < |r| && r[j] == q;
        if j != i {
          assert q == ps[j];
        }
      }
      assert r[i] == p;
      r
    case None => ps + [p]
  }

  /** array_merge over string-keyed lists: later entries replace earlier ones with the same key. */
  function MergeKeyed(ps: seq<NamedParameter>): (r: seq<NamedParameter>)
    ensures DistinctKeys(r)
  {
    if ps == [] then [] else Put(MergeKeyed(ps[..|ps| - 1]), ps[|ps| - 1])
  }

  /** The reference: the last entry declared for a key. */
  function LastWithKey(ps: seq<NamedParameter>, key: string): Option<NamedParameter>
  {
    if ps == [] then None
    else if ps[|ps| - 1].key == key then Some(ps[|ps| - 1])
    else LastWithKey(ps[..|ps| - 1], key)
  }

  lemma {:induction false} LastWithKeyHasKey(ps: seq<NamedParameter>, key: string)
    ensures LastWithKey(ps, key).Some? ==> LastWithKey(ps, key).value.key == key && LastWithKey(ps, key).value in ps
    decreases |ps|
  {
    if ps != [] && ps[|ps| - 1].key != key {
      LastWithKeyHasKey(ps[..|ps| - 1], key);
    }
  }

  /** The merge holds, for every key, exactly the last entry declared for it. */
  lemma {:induction false} MergeKeyedKeepsLast(ps: seq<NamedParameter>, key: string)
    ensures LastWithKey(ps, key).None? ==> forall q :: q in MergeKeyed(ps) ==> q.key != key
    ensures LastWithKey(ps, key).Some? ==> LastWithKey(ps, key).value in MergeKeyed(ps)
    ensures forall q :: q in MergeKeyed(ps) && q.key == key ==> LastWithKey(ps, key) == Some(q)
    decreases |ps|
  {
    if ps != [] {
      var pre := ps[..|ps| - 1];
      var x := ps[|ps| - 1];
      MergeKeyedKeepsLast(pre, key);
      assert MergeKeyed(ps) == Put(MergeKeyed(pre), x);
      if x.key == key {
        assert LastWithKey(ps, key) == Some(x);
      } else {
        assert LastWithKey(ps, key) == LastWithKey(pre, key);
        if LastWithKey(pre, key).Some? {
          assert LastWithKey(pre, key).value.key == key by {
            LastWithKeyHasKey(pre, key);
          }
        }
        forall q | q in MergeKeyed(ps)
          ensures q == x || q in MergeKeyed(pre)
        {
        }
      }
    }
  }

  /** The named parameters of a method on a resource, as getParameters merges them. */
  function NamedParameters(resource: ResourceDecl, m: MethodDecl): seq<NamedParameter>
  {
    MergeKeyed(m.queryParameters + resource.uriParameters + resource.baseUriParameters + m.baseUriParameters)
  }

  /** The raw bounds the switch on the type picks: lengths for strings, values for numbers, none otherwise. */
  function RawBounds(np: NamedParameter): (r: (Value, Value))
    ensures np.typeName == "string" ==> r == (np.minLength, np.maxLength)
    ensures np.typeName == "integer" || np.typeName == "number" ==> r == (np.minimum, np.maximum)
    ensures np.typeName !in ["string", "integer", "number"] ==> r == (Null, Null)
  {
    if np.typeName == "string" then (np.minLength, np.maxLength)
    else if np.typeName == "integer" || np.typeName == "number" then (np.minimum, np.maximum)
    else (Null, Null)
  }

  /**
   * The fields a parameter object ends up with: the constructor rejects a
   * type name outside the nine; then the RFC 2616 date format, the enum
   * ((array) of null is empty), the pattern and the bounds are set.  A bound
   * left unset is null, as CastToType gives for null.
   */
  function SpecOf(np: NamedParameter, toInteger: Value -> Option<int>): (r: Result<ParamSpec, Failure>)
    requires toInteger(Null) == None
    ensures r.Err? <==> np.typeName !in ValidTypeNames
    ensures r.Err? ==> r.error == Runtime(InvalidTypeMessage(np.typeName))
    ensures r.Ok? ==> r.value.name == np.key && TypeName(r.value.typ) == np.typeName && r.value.required == np.required
    ensures r.Ok? ==> r.value.dateFormat == DefaultDateFormat
    ensures r.Ok? && np.typeName == "string" ==> r.value.minimum == toInteger(np.minLength) && r.value.maximum == toInteger(np.maxLength)
    ensures r.Ok? && (np.typeName == "integer" || np.typeName == "number") ==>
              r.value.minimum == toInteger(np.minimum) && r.value.maximum == toInteger(np.maximum)
    ensures r.Ok? && !HasBounds(r.value.typ) ==> r.value.minimum.None? && r.value.maximum.None?
  {
    match ParseType(np.typeName)
    case None => Err(Runtime(InvalidTypeMessage(np.typeName)))
    case Some(t) =>
      var bounds := RawBounds(np);
      Ok(ParamSpec(
        np.key, t, np.required,
        if np.enumValues.Some? then np.enumValues.value else [],
        if np.pattern.Some? then np.pattern.value else "",
        if np.typeName in ["string", "integer", "number"] then toInteger(bounds.0) else None,
        if np.typeName in ["string", "integer", "number"] then toInteger(bounds.1) else None,
        DefaultDateFormat))
  }

  /** One parameter object, built through the constructor and the setters in the order the loop uses. */
  method BuildParameter(np: NamedParameter, toInteger: Value -> Option<int>) returns (r: Result<Parameter, Failure>)
    requires toInteger(Null) == None
    ensures r.Err? <==> SpecOf(np, toInteger).Err?
    ensures r.Err? ==> r.error == SpecOf(np, toInteger).error
    ensures r.Ok? ==> fresh(r.value) && r.value.Spec() == SpecOf(np, toInteger).value
  {
    var created := Parameter.Create(np.key, np.typeName, Bool(np.required));
    if created.Err? {
      return Err(created.error);
    }
    var p := created.value;
    p.SetDateFormat(DefaultDateFormat);
    p.SetEnum(if np.enumValues.Some? then np.enumValues.value else []);
    p.SetValidationPattern(if np.pattern.Some? then np.pattern.value else "");
    if np.typeName == "string" {
      p.SetMinimum(np.minLength, toInteger);
      p.SetMaximum(np.maxLength, toInteger);
    } else if np.typeName == "integer" || np.typeName == "number" {
      p.SetMinimum(np.minimum, toInteger);
      p.SetMaximum(np.maximum, toInteger);
    }
    return Ok(p);
  }

  /** The specs of a list of named parameters; the first bad type name aborts. */
  function Specs(nps: seq<NamedParameter>, toInteger: Value -> Option<int>): (r: Result<seq<ParamSpec>, Failure>)
    requires toInteger(Null) == None
    ensures r.Ok? <==> forall k :: 0 <= k < |nps| ==> nps[k].typeName in ValidTypeNames
    ensures r.Ok? ==> |r.value| == |nps| && forall k :: 0 <= k < |nps| ==> r.value[k] == SpecOf(nps[k], toInteger).value
  {
    if nps == [] then Ok([])
    else
      match SpecOf(nps[0], toInteger)
      case Err(f) => Err(f)
      case Ok(s) =>
        var tail := nps[1..];
        assert forall k :: 1 <= k < |nps| ==> tail[k - 1] == nps[k];
        match Specs(tail, toInteger)
        case Err(f) => Err(f)
        case Ok(rest) => Ok([s] + rest)
  }

  /** The error is the one for the first parameter whose type name is not one of the nine. */
  lemma {:induction false} SpecsFailAtFirstBadType(nps: seq<NamedParameter>, toInteger: Value -> Option<int>)
    requires toInteger(Null) == None
    ensures var r := Specs(nps, toInteger);
            r.Err? ==> exists k :: && 0 <= k < |nps| && nps[k].typeName !in ValidTypeNames
                                  && (forall j :: 0 <= j < k ==> nps[j].typeName in ValidTypeNames)
                                  && r.error == Runtime(InvalidTypeMessage(nps[k].typeName))
  {
    if nps != [] && SpecOf(nps[0], toInteger).Ok? {
      var tail := nps[1..];
      SpecsFailAtFirstBadType(tail, toInteger);
      if Specs(tail, toInteger).Err? {
        var k :| && 0 <= k < |tail| && tail[k].typeName !in ValidTypeNames
                 && (forall j :: 0 <= j < k ==> tail[j].typeName in ValidTypeNames)
                 && Specs(tail, toInteger).error == Runtime(InvalidTypeMessage(tail[k].typeName));
        FirstBadShift(nps, k);
        assert Specs(nps, toInteger).error == Specs(tail, toInteger).error;
      }
    }
  }

  lemma FirstBadShift(nps: seq<NamedParameter>, k: nat)
    requires nps != [] && nps[0].typeName in ValidTypeNames && k < |nps| - 1
    requires nps[1..][k].typeName !in ValidTypeNames
    requires forall j :: 0 <= j < k ==> nps[1..][j].typeName in ValidTypeNames
    ensures nps[k + 1] == nps[1..][k] && nps[k + 1].typeName !in ValidTypeNames
    ensures forall j :: 0 <= j < k + 1 ==> nps[j].typeName in ValidTypeNames
  {
    assert forall j :: 1 <= j < k + 1 ==> nps[j] == nps[1..][j - 1];
  }

  /** getParameters. */
  function ParametersOf(resource: ResourceDecl, m: MethodDecl, toInteger: Value -> Option<int>): (r: Result<seq<ParamSpec>, Failure>)
    requires toInteger(Null) == None
    ensures r.Ok? ==> |r.value| == |NamedParameters(resource, m)|
    ensures r.Ok? ==> forall k :: 0 <= k < |r.value| ==> r.value[k].dateFormat == DefaultDateFormat
    ensures r.Ok? ==> forall i, j :: 0 <= i < j < |r.value| ==> r.value[i].name != r.value[j].name
  {
    var nps := NamedParameters(resource, m);
    Specs(nps, toInteger)
  }

  /** A parameter declared both in the query and as a base URI parameter of the method takes the method's declaration. */
  lemma LaterDeclarationWins(resource: ResourceDecl, m: MethodDecl, q: NamedParameter, b: NamedParameter)
    requires q in m.queryParameters && b in m.baseUriParameters && q.key == b.key && q != b
    requires b == m.baseUriParameters[|m.baseUriParameters| - 1]
    ensures b in NamedParameters(resource, m) && q !in NamedParameters(resource, m)
  {
    var all := m.queryParameters + resource.uriParameters + resource.baseUriParameters + m.baseUriParameters;
    assert all[|all| - 1] == b;
    MergeKeyedKeepsLast(all, b.key);
  }
}
