/**
 * HTTP::getProtocol and HTTP::getHeader as functions of the server
 * variables and of the request headers (what getallheaders() returns), both
 * given as ordered key/value lists.
 */
module HttpUtil {
  import opened Php

  type Pairs = seq<(string, Value)>

  /** A lookup in an ordered key/value list: the last entry with that key wins. */
  function Lookup(pairs: Pairs, key: string): Option<Value>
  {
    if pairs == [] then None
    else if pairs[|pairs| - 1].0 == key then Some(pairs[|pairs| - 1].1)
    else Lookup(pairs[..|pairs| - 1], key)
  }

  /** isset($array[$key]). */
  predicate IsSet(pairs: Pairs, key: string)
  {
    Lookup(pairs, key).Some? && Lookup(pairs, key).value != Null
  }

  /** empty($array[$key]); a missing key is empty. */
  predicate EmptyAt(pairs: Pairs, key: string)
  {
    Lookup(pairs, key).None? || Empty(Lookup(pairs, key).value)
  }

  /** $array[$key] == $text, for a present key and a text that is not a number. */
  predicate LooseAt(pairs: Pairs, key: string, text: string)
    requires !IsNumericString(text)
  {
    Lookup(pairs, key).Some? && LooseEqualsText(Lookup(pairs, key).value, text)
  }

  /** The request arrived over TLS, directly or behind a proxy that says so. */
  predicate Secure(server: Pairs)
  {
    WordIsNotNumeric("on");
    WordIsNotNumeric("https");
    || (IsSet(server, "HTTPS") && LooseAt(server, "HTTPS", "on"))
    || (!EmptyAt(server, "HTTP_X_FORWARDED_PROTO") && LooseAt(server, "HTTP_X_FORWARDED_PROTO", "https"))
    || (!EmptyAt(server, "HTTP_X_FORWARDED_SSL") && LooseAt(server, "HTTP_X_FORWARDED_SSL", "on"))
  }

  /** getProtocol. */
  function GetProtocol(server: Pairs): (r: string)
    ensures r == "HTTPS" || r == "HTTP"
    ensures r == "HTTPS" <==> Secure(server)
  {
    if Secure(server) then "HTTPS" else "HTTP"
  }

  /** A string HTTPS variable gives HTTPS exactly when it is "on", unless a proxy header says otherwise. */
  lemma HttpsVariableDecides(server: Pairs, https: string)
    requires Lookup(server, "HTTPS") == Some(Str(https))
    requires EmptyAt(server, "HTTP_X_FORWARDED_PROTO") && EmptyAt(server, "HTTP_X_FORWARDED_SSL")
    ensures GetProtocol(server) == "HTTPS" <==> https == "on"
  {
  }

  /** A forwarding proxy decides even when the HTTPS variable is absent. */
  lemma ForwardedHeadersDecide(server: Pairs, proto: string, ssl: string)
    requires Lookup(server, "HTTPS").None?
    requires Lookup(server, "HTTP_X_FORWARDED_PROTO") == Some(Str(proto))
    requires Lookup(server, "HTTP_X_FORWARDED_SSL") == Some(Str(ssl))
    ensures GetProtocol(server) == "HTTPS" <==> proto == "https" || ssl == "on"
  {
  }

  /** array_change_key_case($array, CASE_LOWER): on a clash the later entry wins. */
  function LowerKeys(pairs: Pairs): (m: map<string, Value>)
    ensures pairs == [] ==> m == map[]
    ensures pairs != [] ==> Lower(pairs[|pairs| - 1].0) in m
  {
    if pairs == [] then map[]
    else LowerKeys(pairs[..|pairs| - 1])[Lower(pairs[|pairs| - 1].0) := pairs[|pairs| - 1].1]
  }

  /**
   * The lower-cased map holds a key exactly when some entry's key
   * lower-cases to it, and then the value of the last such entry.
   */
  lemma {:induction false} LowerKeysLast(pairs: Pairs, key: string)
    ensures key in LowerKeys(pairs) <==> exists i :: 0 <= i < |pairs| && Lower(pairs[i].0) == key
    ensures key in LowerKeys(pairs) ==>
              exists i :: && 0 <= i < |pairs| && Lower(pairs[i].0) == key
                          && LowerKeys(pairs)[key] == pairs[i].1
                          && forall j :: i < j < |pairs| ==> Lower(pairs[j].0) != key
    decreases |pairs|
  {
    if pairs != [] {
      var n := |pairs| - 1;
      var init := pairs[..n];
      LowerKeysLast(init, key);
      assert pairs == init + [pairs[n]];
      if Lower(pairs[n].0) == key {
        assert LowerKeys(pairs)[key] == pairs[n].1;
      } else {
        LowerKeysUnmatchedLast(init, pairs[n], key);
      }
    }
  }

  /** An entry appended under another key leaves what the lemma above states about key unchanged. */
  lemma LowerKeysUnmatchedLast(init: Pairs, last: (string, Value), key: string)
    requires Lower(last.0) != key
    requires key in LowerKeys(init) <==> exists i :: 0 <= i < |init| && Lower(init[i].0) == key
    requires key in LowerKeys(init) ==>
               exists i :: && 0 <= i < |init| && Lower(init[i].0) == key
                           && LowerKeys(init)[key] == init[i].1
                           && forall j :: i < j < |init| ==> Lower(init[j].0) != key
    ensures var pairs := init + [last];
            key in LowerKeys(pairs) <==> exists i :: 0 <= i < |pairs| && Lower(pairs[i].0) == key
    ensures var pairs := init + [last];
            key in LowerKeys(pairs) ==>
              exists i :: && 0 <= i < |pairs| && Lower(pairs[i].0) == key
                          && LowerKeys(pairs)[key] == pairs[i].1
                          && forall j :: i < j < |pairs| ==> Lower(pairs[j].0) != key
  {
    var pairs := init + [last];
    var n := |init|;
    assert pairs[..n] == init;
    assert forall j :: 0 <= j < n ==> pairs[j] == init[j];
    if key in LowerKeys(pairs) {
      var i :| && 0 <= i < |init| && Lower(init[i].0) == key
               && LowerKeys(init)[key] == init[i].1
               && forall j :: i < j < |init| ==> Lower(init[j].0) != key;
      assert forall j :: i < j < |pairs| ==> Lower(pairs[j].0) != key;
    }
  }

  /**
   * getHeader($name): the name is lower-cased; the headers are looked up
   * with lower-cased keys, or the server variables when there are no
   * headers at all; null when the name is not set.
   */
  function GetHeader(name: string, headers: Pairs, server: Pairs): (r: Value)
    ensures var m := LowerKeys(if headers == [] then server else headers);
            r == if Lower(name) in m then m[Lower(name)] else Null
  {
    var key := Lower(name);
    var lowered := LowerKeys(headers);
    var table := if lowered == map[] then LowerKeys(server) else lowered;
    if key in table && table[key] != Null then table[key] else Null
  }

  /** The header name may be written in any case. */
  lemma GetHeaderIgnoresCase(name: string, headers: Pairs, server: Pairs)
    ensures GetHeader(Upper(name), headers, server) == GetHeader(name, headers, server)
    ensures GetHeader(Lower(name), headers, server) == GetHeader(name, headers, server)
  {
    LowerForgetsCase(name);
  }

  /**
   * A set header is found under any spelling of its name: the result is the
   * value of the last header whose name matches case-insensitively.
   */
  lemma GetHeaderFindsLast(name: string, headers: Pairs, server: Pairs)
    requires headers != []
    requires GetHeader(name, headers, server) != Null
    ensures exists i :: && 0 <= i < |headers| && Lower(headers[i].0) == Lower(name)
                        && GetHeader(name, headers, server) == headers[i].1
                        && forall j :: i < j < |headers| ==> Lower(headers[j].0) != Lower(name)
  {
    LowerKeysLast(headers, Lower(name));
  }

  /** A name that no header and no server variable carries gives null. */
  lemma GetHeaderMissing(name: string, headers: Pairs, server: Pairs)
    requires forall i :: 0 <= i < |headers| ==> Lower(headers[i].0) != Lower(name)
    requires forall i :: 0 <= i < |server| ==> Lower(server[i].0) != Lower(name)
    ensures GetHeader(name, headers, server) == Null
  {
    LowerKeysLast(headers, Lower(name));
    LowerKeysLast(server, Lower(name));
  }
}
