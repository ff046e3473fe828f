/**
 * The type coercion applied to a raw request parameter before it is
 * asserted.  CastToType and the \DateTime constructor are foreign code and
 * arrive as functions.
 */
module Casting {
  import opened Php

  /** An exception thrown by foreign code: its message and its integer code. */
  datatype Thrown = Thrown(message: string, code: int)

  datatype Caster = Caster(
    /** CastToType::cast($value, $type, false, true): null when the value is not of that type. */
    castToType: (Value, string) -> Result<Option<Value>, Thrown>,
    /** new \DateTime($value): the time stamp it denotes. */
    newDateTime: Value -> Result<int, Thrown>)

  /** A null cast result keeps the raw value; a thrown exception is passed on. */
  function OrRaw(raw: Value, res: Result<Option<Value>, Thrown>): (r: Result<Value, Thrown>)
    ensures r.Ok? <==> res.Ok?
    ensures r.Err? ==> r.error == res.error
    ensures r.Ok? && r.value != raw ==> res.value == Some(r.value) && r.value != Null
  {
    match res
    case Err(e) => Err(e)
    case Ok(None) => Ok(raw)
    case Ok(Some(v)) => Ok(if v == Null then raw else v)
  }

  /**
   * cast($value, $type): 'number' is spelled 'num' for CastToType; the type
   * named by dateKeyword goes to \DateTime instead; a null cast result keeps
   * the raw value.  RREST uses 'datetime' as the date keyword and
   * ParameterValidator uses 'date'.
   */
  function Cast(c: Caster, value: Value, typeName: string, dateKeyword: string): (r: Result<Value, Thrown>)
    ensures typeName == "number" && dateKeyword != "num" ==> r == OrRaw(value, c.castToType(value, "num"))
    ensures typeName != "number" && typeName != dateKeyword ==> r == OrRaw(value, c.castToType(value, typeName))
    ensures typeName == dateKeyword && typeName != "number" ==>
              (r.Ok? <==> c.newDateTime(value).Ok?) && (r.Ok? ==> r.value == DateTime(c.newDateTime(value).value))
    ensures r.Ok? && r.value == Null ==> value == Null
  {
    var t := if typeName == "number" then "num" else typeName;
    if t != dateKeyword then
      OrRaw(value, c.castToType(value, t))
    else
      match c.newDateTime(value)
      case Err(e) => Err(e)
      case Ok(stamp) => Ok(DateTime(stamp))
  }
}
