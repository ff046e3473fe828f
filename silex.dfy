/**
 * The Silex provider's view of the current request's parameters: three
 * parameter bags (query, route attributes, form/request body) searched in
 * that order.  Reads take the first bag holding the key; writes update that
 * same bag and leave the others alone.
 */
module SilexProvider {
  import opened Php

  /** The bags in search order: query, attributes, request. */
  const BagCount: nat := 3

  /** The first bag, in search order, that holds the key. */
  function FirstBagWith(bags: seq<map<string, Value>>, key: string): (r: Option<nat>)
    ensures r.Some? ==> r.value < |bags| && key in bags[r.value] && forall j :: 0 <= j < r.value ==> key !in bags[j]
    ensures r.None? ==> forall j :: 0 <= j < |bags| ==> key !in bags[j]
  {
    if bags == [] then None
    else if key in bags[0] then Some(0)
    else match FirstBagWith(bags[1..], key)
      case None => None
      case Some(i) => Some(i + 1)
  }

  /** getHTTPParameterValue's answer: the value in the first bag holding the key, null when none does. */
  function Lookup(bags: seq<map<string, Value>>, key: string): (v: Value)
    ensures (forall j :: 0 <= j < |bags| ==> key !in bags[j]) ==> v == Null
    ensures forall i :: 0 <= i < |bags| && key in bags[i] && (forall j :: 0 <= j < i ==> key !in bags[j]) ==> v == bags[i][key]
  {
    match FirstBagWith(bags, key)
    case None => Null
    case Some(i) =>
      assert forall i' :: 0 <= i' < |bags| && key in bags[i'] && (forall j :: 0 <= j < i' ==> key !in bags[j]) ==> i' == i;
      bags[i][key]
  }

  /** setHTTPParameterValue's effect: the first bag holding the key takes the value; nothing changes when none does. */
  function Store(bags: seq<map<string, Value>>, key: string, value: Value): (r: seq<map<string, Value>>)
    ensures |r| == |bags|
    ensures (forall j :: 0 <= j < |bags| ==> key !in bags[j]) ==> r == bags
    ensures forall i :: 0 <= i < |bags| && key in bags[i] && (forall j :: 0 <= j < i ==> key !in bags[j]) ==>
              r[i] == bags[i][key := value] && forall j :: 0 <= j < |bags| && j != i ==> r[j] == bags[j]
  {
    match FirstBagWith(bags, key)
    case None => bags
    case Some(i) =>
      assert forall i' :: 0 <= i' < |bags| && key in bags[i'] && (forall j :: 0 <= j < i' ==> key !in bags[j]) ==> i' == i;
      bags[i := bags[i][key := value]]
  }

  /** After a set, a get on the same key returns the new value, when some bag held the key. */
  lemma GetAfterSet(bags: seq<map<string, Value>>, key: string, value: Value)
    requires exists j :: 0 <= j < |bags| && key in bags[j]
    ensures Lookup(Store(bags, key, value), key) == value
  {
    var i := FirstBagWith(bags, key).value;
    var after := Store(bags, key, value);
    assert after[i] == bags[i][key := value];
    assert forall j :: 0 <= j < i ==> after[j] == bags[j];
  }

  /** Setting a key nobody holds leaves it unset. */
  lemma SetAbsentKey(bags: seq<map<string, Value>>, key: string, value: Value)
    requires forall j :: 0 <= j < |bags| ==> key !in bags[j]
    ensures Store(bags, key, value) == bags && Lookup(Store(bags, key, value), key) == Null
  {
  }

  /** A set does not change what any other key reads. */
  lemma SetLeavesOtherKeys(bags: seq<map<string, Value>>, key: string, value: Value, other: string)
    requires other != key
    ensures Lookup(Store(bags, key, value), other) == Lookup(bags, other)
  {
    var after := Store(bags, key, value);
    assert forall j :: 0 <= j < |bags| ==> (other in after[j] <==> other in bags[j]);
    assert forall j :: 0 <= j < |bags| && other in bags[j] ==> after[j][other] == bags[j][other];
    match FirstBagWith(bags, other)
    case None =>
    case Some(i) =>
      assert after[i][other] == bags[i][other];
  }

  /** A write changes no bag's set of keys. */
  lemma StoreKeepsKeys(bags: seq<map<string, Value>>, key: string, value: Value)
    ensures forall j :: 0 <= j < |bags| ==> Store(bags, key, value)[j].Keys == bags[j].Keys
  {
    match FirstBagWith(bags, key)
    case None =>
    case Some(i) =>
      assert Store(bags, key, value)[i] == bags[i][key := value];
  }

  /** Which bag holds a key first depends only on the bags' keys. */
  lemma SameKeysSameFirstBag(a: seq<map<string, Value>>, b: seq<map<string, Value>>, key: string)
    requires |a| == |b| && forall j :: 0 <= j < |a| ==> a[j].Keys == b[j].Keys
    ensures FirstBagWith(a, key) == FirstBagWith(b, key)
  {
    assert forall j :: 0 <= j < |a| ==> (key in a[j] <==> key in b[j]);
  }

  class Silex {
    var query: map<string, Value>
    var attributes: map<string, Value>
    var request: map<string, Value>
    /** The raw body of the request. */
    const content: string

    /** The bags in search order. */
    function Bags(): (r: seq<map<string, Value>>)
      reads this
      ensures |r| == BagCount && r[0] == query && r[1] == attributes && r[2] == request
    {
      [query, attributes, request]
    }

    constructor (query: map<string, Value>, attributes: map<string, Value>, request: map<string, Value>, content: string)
      ensures Bags() == [query, attributes, request] && this.content == content
    {
      this.query := query;
      this.attributes := attributes;
      this.request := request;
      this.content := content;
    }

    function Bag(i: nat): (b: map<string, Value>)
      requires i < BagCount
      reads this
      ensures b == Bags()[i]
    {
      if i == 0 then query else if i == 1 then attributes else request
    }

    /** getHTTPParameterValue: search the bags in order. */
    method GetHTTPParameterValue(key: string) returns (v: Value)
      ensures v == Lookup(Bags(), key)
    {
      var i := 0;
      while i < BagCount
        invariant 0 <= i <= BagCount
        invariant forall j :: 0 <= j < i ==> key !in Bags()[j]
      {
        var bag := Bag(i);
        if key in bag {
          return bag[key];
        }
        i := i + 1;
      }
      return Null;
    }

    /** setHTTPParameterValue: update the first bag holding the key and stop. */
    method SetHTTPParameterValue(key: string, value: Value)
      modifies this
      ensures Bags() == Store(old(Bags()), key, value)
    {
      var i := 0;
      while i < BagCount
        invariant 0 <= i <= BagCount
        invariant forall j :: 0 <= j < i ==> key !in Bags()[j]
        invariant Bags() == old(Bags())
      {
        if key in Bag(i) {
          if i == 0 {
            query := query[key := value];
          } else if i == 1 {
            attributes := attributes[key := value];
          } else {
            request := request[key := value];
          }
          return;
        }
        i := i + 1;
      }
    }

    /** getHTTPPayloadBodyValue: the raw body of the request. */
    function GetHTTPPayloadBodyValue(): (body: string)
      ensures body == content
    {
      content
    }

    /** setHTTPPayloadBodyValue: the request bag becomes the array form of the payload. */
    method SetHTTPPayloadBodyValue(payload: Value)
      modifies this
      ensures Bags() == old(Bags())[2 := ToArray(payload)]
    {
      request := ToArray(payload);
    }
  }
}
