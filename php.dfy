/**
 * PHP runtime values and the handful of PHP built-ins (empty, is_numeric,
 * string conversion, strtolower, ucfirst, strpos, implode, the (array) cast)
 * that the RREST code relies on.
 */
module Php {

  datatype Option<+T> = None | Some(value: T)

  datatype Result<+T, +E> = Ok(value: T) | Err(error: E)

  /**
   * A PHP value as it reaches RREST: a request parameter, a decoded JSON
   * document, a schema constraint parameter.  A float is kept as the decimal
   * fraction mantissa / 10^scale; an associative array is a Dict, a stdClass
   * an Object, a \DateTime a DateTime.
   */
  datatype Value =
    | Null
    | Bool(b: bool)
    | Int(i: int)
    | Decimal(mantissa: int, scale: nat)
    | Str(s: string)
    | List(items: seq<Value>)
    | Dict(entries: map<string, Value>)
    | Object(props: map<string, Value>)
    | DateTime(stamp: int)

  /** PHP's empty(): null, false, 0, 0.0, "", "0" and the empty array. */
  predicate Empty(v: Value)
  {
    match v
    case Null => true
    case Bool(b) => !b
    case Int(i) => i == 0
    case Decimal(m, _) => m == 0
    case Str(s) => s == "" || s == "0"
    case List(xs) => xs == []
    case Dict(m) => m == map[]
    case Object(_) => false
    case DateTime(_) => false
  }

  predicate IsDigit(c: char) { '0' <= c <= '9' }

  predicate IsAsciiLetter(c: char) { 'a' <= c <= 'z' || 'A' <= c <= 'Z' }

  function DigitChar(d: nat): (c: char)
    requires d < 10
    ensures IsDigit(c)
  {
    "0123456789"[d]
  }

  function DigitValue(c: char): nat
    requires IsDigit(c)
  {
    (c as int - '0' as int) as nat
  }

  /** Decimal notation of a natural number, most significant digit first. */
  function NatToString(n: nat): (s: string)
    ensures |s| >= 1
    ensures forall k :: 0 <= k < |s| ==> IsDigit(s[k])
    decreases n
  {
    if n < 10 then [DigitChar(n)] else NatToString(n / 10) + [DigitChar(n % 10)]
  }

  /** PHP's conversion of an int to a string. */
  function IntToString(i: int): string
  {
    if i < 0 then "-" + NatToString(-i) else NatToString(i)
  }

  /** Number of decimal digits of n. */
  lemma {:induction false} NatToStringLength(n: nat)
    ensures n < 10 ==> |NatToString(n)| == 1
    ensures 10 <= n < 100 ==> |NatToString(n)| == 2
    ensures 100 <= n < 1000 ==> |NatToString(n)| == 3
    ensures 1000 <= n ==> |NatToString(n)| >= 4
    decreases n
  {
    if n >= 10 {
      NatToStringLength(n / 10);
    }
  }

  /** Reading the digits back gives the number: NatToString is injective. */
  function DigitsValue(s: string): nat
    requires forall k :: 0 <= k < |s| ==> IsDigit(s[k])
  {
    if s == [] then 0 else DigitsValue(s[..|s| - 1]) * 10 + DigitValue(s[|s| - 1])
  }

  lemma {:induction false} NatToStringRoundTrip(n: nat)
    ensures DigitsValue(NatToString(n)) == n
    decreases n
  {
    var s := NatToString(n);
    if n >= 10 {
      NatToStringRoundTrip(n / 10);
      assert s[..|s| - 1] == NatToString(n / 10);
    }
  }

  function Pow10(k: nat): (p: nat)
    ensures p >= 1
  {
    if k == 0 then 1 else 10 * Pow10(k - 1)
  }

  function StripTrailingZeros(s: string): string
  {
    if s != [] && s[|s| - 1] == '0' then StripTrailingZeros(s[..|s| - 1]) else s
  }

  function PadLeft(s: string, width: nat, c: char): (r: string)
    ensures |r| >= width
    decreases width - |s|
  {
    if |s| >= width then s else PadLeft([c] + s, width, c)
  }

  /** How PHP prints a float that has a finite decimal expansion. */
  function DecimalToString(mantissa: int, scale: nat): string
  {
    var digits := PadLeft(NatToString(if mantissa < 0 then -mantissa else mantissa), scale + 1, '0');
    var whole := digits[..|digits| - scale];
    var frac := StripTrailingZeros(digits[|digits| - scale..]);
    var unsigned := if frac == "" then whole else whole + "." + frac;
    if mantissa < 0 then "-" + unsigned else unsigned
  }

  /**
   * PHP's string conversion, as used by '.', sprintf('%s') and implode().
   * Arrays print as "Array"; an object that PHP would refuse to convert
   * prints as "Object".
   */
  function Show(v: Value): string
  {
    match v
    case Null => ""
    case Bool(b) => if b then "1" else ""
    case Int(i) => IntToString(i)
    case Decimal(m, k) => DecimalToString(m, k)
    case Str(s) => s
    case List(_) => "Array"
    case Dict(_) => "Array"
    case Object(_) => "Object"
    case DateTime(_) => "Object"
  }

  function CountChar(s: string, c: char): nat
  {
    if s == [] then 0 else (if s[0] == c then 1 else 0) + CountChar(s[1..], c)
  }

  /** The string without its leading sign, if it has one. */
  function Unsigned(s: string): (r: string)
    ensures s != [] && s[0] != '+' && s[0] != '-' ==> r == s
  {
    if s != [] && (s[0] == '+' || s[0] == '-') then s[1..] else s
  }

  /** The white space a numeric string may carry around it: ' ', \t, \n, \v, \f, \r. */
  predicate IsNumericSpace(c: char)
  {
    c == ' ' || 9 <= c as int <= 13
  }

  /** Digits with at most one '.', at least one digit ("5", "5.25", ".5", "5."). */
  predicate IsPlainDecimal(s: string)
  {
    && (forall k :: 0 <= k < |s| ==> IsDigit(s[k]) || s[k] == '.')
    && CountChar(s, '.') <= 1
    && CountChar(s, '.') < |s|
  }

  predicate IsExponentMark(c: char)
  {
    c == 'e' || c == 'E'
  }

  /** The position of the first 'e' or 'E'; |s| when there is none. */
  function ExponentAt(s: string): (i: nat)
    ensures i <= |s|
    ensures i < |s| ==> IsExponentMark(s[i])
    ensures forall k :: 0 <= k < i ==> !IsExponentMark(s[k])
  {
    if s == [] || IsExponentMark(s[0]) then 0 else 1 + ExponentAt(s[1..])
  }

  /** What follows the 'e' of a number: an optional sign, then at least one digit. */
  predicate IsExponent(s: string)
  {
    Unsigned(s) != [] && forall k :: 0 <= k < |Unsigned(s)| ==> IsDigit(Unsigned(s)[k])
  }

  /** A number without the white space around it and without its sign. */
  function NumberBody(s: string): string
  {
    Unsigned(Trim(s, IsNumericSpace))
  }

  /**
   * PHP 8's numeric string: white space, an optional sign, a decimal
   * mantissa, an optional exponent, white space ("5", " -5.25", ".5", "5.",
   * "1e3", "2.5E-3 ").
   */
  predicate IsNumericString(s: string)
  {
    var body := NumberBody(s);
    var e := ExponentAt(body);
    IsPlainDecimal(body[..e]) && (e == |body| || IsExponent(body[e + 1..]))
  }

  /** Trimming from the right keeps a first character that is not stripped. */
  lemma {:induction false} TrimRightKeepsFirst(s: string, strip: char -> bool)
    requires s != [] && !strip(s[0])
    ensures TrimRight(s, strip) != [] && TrimRight(s, strip)[0] == s[0]
    decreases |s|
  {
    if strip(s[|s| - 1]) {
      TrimRightKeepsFirst(s[..|s| - 1], strip);
    }
  }

  /** A word that starts with a letter is not numeric. */
  lemma WordIsNotNumeric(s: string)
    requires s != [] && IsAsciiLetter(s[0])
    ensures !IsNumericString(s)
  {
    TrimRightKeepsFirst(s, IsNumericSpace);
    var body := NumberBody(s);
    assert body != [] && body[0] == s[0];
    var e := ExponentAt(body);
    if e > 0 {
      assert !(IsDigit(body[..e][0]) || body[..e][0] == '.');
    }
  }

  /** The exponent form is numeric: "1e3" is 1000. */
  lemma ExponentFormIsNumeric()
    ensures IsNumericString("1e3") && NumericValue(Str("1e3")) == 1000.0
  {
    assert Trim("1e3", IsNumericSpace) == "1e3" && Unsigned("1e3") == "1e3";
    assert ExponentAt("1e3") == 1;
    assert "1e3"[..1] == "1" && "1e3"[2..] == "3";
    assert MantissaValue("1") == 1.0 && ExponentValue("3") == 3;
    assert Pow10(3) == 1000;
  }

  /** Leading white space is allowed: " 5" is 5. */
  lemma SpacedFormIsNumeric()
    ensures IsNumericString(" 5") && NumericValue(Str(" 5")) == 5.0
  {
    assert " 5"[1..] == "5";
    assert TrimLeft(" 5", IsNumericSpace) == "5";
    assert Trim(" 5", IsNumericSpace) == "5" && Unsigned("5") == "5";
    assert ExponentAt("5") == 1;
    assert MantissaValue("5") == 5.0;
  }

  /** "1e1" and "10" are both numeric and stand for the same number. */
  lemma OneEOneIsTen()
    ensures IsNumericString("1e1") && NumericValue(Str("1e1")) == 10.0
  {
    assert Trim("1e1", IsNumericSpace) == "1e1" && Unsigned("1e1") == "1e1";
    assert ExponentAt("1e1") == 1;
    assert "1e1"[..1] == "1" && "1e1"[2..] == "1";
    assert MantissaValue("1") == 1.0 && ExponentValue("1") == 1;
  }

  lemma TenIsNumeric()
    ensures IsNumericString("10") && NumericValue(Str("10")) == 10.0
  {
    assert Trim("10", IsNumericSpace) == "10" && Unsigned("10") == "10";
    assert ExponentAt("10") == 2;
    assert OnlyDigits("10") == "10" && FractionLength("10") == 0;
    assert "10"[..1] == "1" && DigitsValue("10") == 10;
  }

  /** in_array compares numeric strings by value: "1e1" is found among ["10"]. */
  lemma ExponentFormInArray()
    ensures InArray("1e1", ["10"])
  {
    OneEOneIsTen();
    TenIsNumeric();
    assert LooseEqualStrings("1e1", ["10"][0]);
  }

  /** PHP's is_numeric(). */
  predicate IsNumeric(v: Value)
  {
    v.Int? || v.Decimal? || (v.Str? && IsNumericString(v.s))
  }

  function OnlyDigits(s: string): (r: string)
    ensures forall k :: 0 <= k < |r| ==> IsDigit(r[k])
  {
    if s == [] then [] else (if IsDigit(s[0]) then [s[0]] else []) + OnlyDigits(s[1..])
  }

  /** Number of characters after the '.' (0 when there is none). */
  function FractionLength(s: string): nat
  {
    if s == [] then 0 else if s[0] == '.' then |s| - 1 else FractionLength(s[1..])
  }

  /** The number a numeric value stands for, as PHP compares it. */
  function NumericValue(v: Value): real
    requires IsNumeric(v)
  {
    match v
    case Int(i) => i as real
    case Decimal(m, k) => m as real / Pow10(k) as real
    case Str(s) =>
      var core := Trim(s, IsNumericSpace);
      if core != [] && core[0] == '-' then -BodyValue(Unsigned(core)) else BodyValue(Unsigned(core))
  }

  /** The value of digits with an optional '.'. */
  function MantissaValue(m: string): real
  {
    DigitsValue(OnlyDigits(m)) as real / Pow10(FractionLength(m)) as real
  }

  /** The value of an unsigned number with an optional exponent. */
  function BodyValue(body: string): real
  {
    var e := ExponentAt(body);
    if e == |body| then MantissaValue(body) else Scaled(MantissaValue(body[..e]), ExponentValue(body[e + 1..]))
  }

  /** The signed integer after the 'e' of a number. */
  function ExponentValue(s: string): int
  {
    var d: int := DigitsValue(OnlyDigits(Unsigned(s)));
    if s != [] && s[0] == '-' then -d else d
  }

  /** m * 10^k. */
  function Scaled(m: real, k: int): real
  {
    if k >= 0 then m * Pow10(k) as real else m / Pow10(-k) as real
  }

  /** The number of bytes of a character in UTF-8. */
  function Utf8Width(c: char): nat
  {
    if c as int < 0x80 then 1 else if c as int < 0x800 then 2 else if c as int < 0x1_0000 then 3 else 4
  }

  /** strlen: the byte length of the string's UTF-8 encoding, the character count for ASCII text. */
  function StrLen(s: string): (n: nat)
    ensures n >= |s|
    ensures (forall k :: 0 <= k < |s| ==> s[k] as int < 0x80) ==> n == |s|
  {
    if s == [] then 0 else Utf8Width(s[0]) + StrLen(s[1..])
  }

  /**
   * PHP's === on the values a parameter can hold: two floats are identical
   * when they denote the same number, every other pair when they are equal.
   */
  predicate Identical(a: Value, b: Value)
  {
    if a.Decimal? && b.Decimal? then NumericValue(a) == NumericValue(b) else a == b
  }

  function LowerChar(c: char): char
  {
    if 'A' <= c <= 'Z' then (c as int + 32) as char else c
  }

  function UpperChar(c: char): char
  {
    if 'a' <= c <= 'z' then (c as int - 32) as char else c
  }

  /** strtolower (ASCII letters only). */
  function Lower(s: string): (r: string)
    ensures |r| == |s|
  {
    seq(|s|, k requires 0 <= k < |s| => LowerChar(s[k]))
  }

  /** strtoupper (ASCII letters only). */
  function Upper(s: string): (r: string)
    ensures |r| == |s|
  {
    seq(|s|, k requires 0 <= k < |s| => UpperChar(s[k]))
  }

  /** ucfirst. */
  function UcFirst(s: string): (r: string)
    ensures |r| == |s|
  {
    if s == [] then s else [UpperChar(s[0])] + s[1..]
  }

  /** strpos($haystack, $needle) !== false. */
  predicate Contains(haystack: string, needle: string)
  {
    needle <= haystack || (haystack != [] && Contains(haystack[1..], needle))
  }

  lemma {:induction false} ContainsSelf(s: string, prefix: string, suffix: string)
    ensures Contains(prefix + s + suffix, s)
    decreases |prefix|
  {
    if prefix == [] {
      assert s <= s + suffix;
    } else {
      assert (prefix + s + suffix)[1..] == prefix[1..] + s + suffix;
      ContainsSelf(s, prefix[1..], suffix);
    }
  }

  /** implode($glue, $pieces). */
  function Implode(glue: string, pieces: seq<string>): string
  {
    if pieces == [] then ""
    else if |pieces| == 1 then pieces[0]
    else pieces[0] + glue + Implode(glue, pieces[1..])
  }

  function ShowAll(vs: seq<Value>): (r: seq<string>)
    ensures |r| == |vs|
    ensures forall k :: 0 <= k < |vs| ==> r[k] == Show(vs[k])
  {
    if vs == [] then [] else [Show(vs[0])] + ShowAll(vs[1..])
  }

  function IndexKeys(xs: seq<Value>, from: nat): map<string, Value>
    decreases |xs|
  {
    if xs == [] then map[] else IndexKeys(xs[1..], from + 1)[NatToString(from) := xs[0]]
  }

  /** The (array) cast. */
  function ToArray(v: Value): map<string, Value>
  {
    match v
    case Null => map[]
    case List(xs) => IndexKeys(xs, 0)
    case Dict(m) => m
    case Object(p) => p
    case DateTime(_) => map[]
    case _ => map["0" := v]
  }
  /** array_map('strtolower', xs). */
  function LowerAll(xs: seq<string>): (r: seq<string>)
    ensures |r| == |xs|
    ensures forall k :: 0 <= k < |xs| ==> r[k] == Lower(xs[k])
  {
    if xs == [] then [] else [Lower(xs[0])] + LowerAll(xs[1..])
  }

  /** Lower-casing forgets the case a string was written in. */
  lemma LowerForgetsCase(s: string)
    ensures Lower(Lower(s)) == Lower(s)
    ensures Lower(Upper(s)) == Lower(s)
  {
    assert forall k :: 0 <= k < |s| ==> Lower(Lower(s))[k] == Lower(s)[k];
    assert forall k :: 0 <= k < |s| ==> Lower(Upper(s))[k] == Lower(s)[k];
  }

  lemma LowerAllForgetsCase(xs: seq<string>)
    ensures LowerAll(LowerAll(xs)) == LowerAll(xs)
  {
    forall k | 0 <= k < |xs| {
      LowerForgetsCase(xs[k]);
    }
  }

  function UpperAll(xs: seq<string>): (r: seq<string>)
    ensures |r| == |xs|
    ensures forall k :: 0 <= k < |xs| ==> r[k] == Upper(xs[k])
  {
    if xs == [] then [] else [Upper(xs[0])] + UpperAll(xs[1..])
  }

  lemma UpperAllThenLower(xs: seq<string>)
    ensures LowerAll(UpperAll(xs)) == LowerAll(xs)
  {
    forall k | 0 <= k < |xs| {
      LowerForgetsCase(xs[k]);
    }
  }

  /**
   * PHP 8's == on two strings: numerically when both are numeric strings,
   * byte for byte otherwise.
   */
  predicate LooseEqualStrings(a: string, b: string)
  {
    if IsNumericString(a) && IsNumericString(b) then NumericValue(Str(a)) == NumericValue(Str(b)) else a == b
  }

  /** in_array($needle, $haystack) with its default, loose comparison. */
  predicate InArray(needle: string, haystack: seq<string>)
  {
    exists k :: 0 <= k < |haystack| && LooseEqualStrings(needle, haystack[k])
  }

  /** For a needle that is not a number, in_array is plain membership. */
  lemma InArrayIsMembership(needle: string, haystack: seq<string>)
    requires !IsNumericString(needle)
    ensures InArray(needle, haystack) <==> needle in haystack
  {
    if needle in haystack {
      var k :| 0 <= k < |haystack| && haystack[k] == needle;
      assert LooseEqualStrings(needle, haystack[k]);
    }
  }

  /**
   * PHP 8's $v == 'text' for a literal that is not numeric: a string
   * compares byte for byte, a bool against the truth of the text, a number
   * by its printed form, null as the empty string; arrays and objects
   * never equal a string.
   */
  predicate LooseEqualsText(v: Value, text: string)
    requires !IsNumericString(text)
  {
    match v
    case Null => text == ""
    case Bool(b) => b == !Empty(Str(text))
    case Int(_) => Show(v) == text
    case Decimal(_, _) => Show(v) == text
    case Str(s) => s == text
    case _ => false
  }
  /** No character of s is c. */
  predicate Lacks(s: string, c: char)
  {
    forall i :: 0 <= i < |s| ==> s[i] != c
  }

  function TrimLeft(s: string, strip: char -> bool): (r: string)
    ensures r == [] || !strip(r[0])
    ensures s != [] && !strip(s[0]) ==> r == s
  {
    if s != [] && strip(s[0]) then TrimLeft(s[1..], strip) else s
  }

  function TrimRight(s: string, strip: char -> bool): (r: string)
    ensures r <= s
    ensures r == [] || !strip(r[|r| - 1])
    ensures s != [] && !strip(s[|s| - 1]) ==> r == s
  {
    if s != [] && strip(s[|s| - 1]) then TrimRight(s[..|s| - 1], strip) else s
  }

  /** trim(s, chars). */
  function Trim(s: string, strip: char -> bool): (r: string)
    ensures r == [] || (!strip(r[0]) && !strip(r[|r| - 1]))
    ensures s != [] && !strip(s[0]) && !strip(s[|s| - 1]) ==> r == s
  {
    TrimRight(TrimLeft(s, strip), strip)
  }

  /** explode(sep, s): always at least one piece, none holding the separator. */
  function Split(s: string, sep: char): (r: seq<string>)
    ensures |r| >= 1
    ensures forall k, i :: 0 <= k < |r| && 0 <= i < |r[k]| ==> r[k][i] != sep && r[k][i] in s
  {
    if s == [] then [""]
    else if s[0] == sep then [""] + Split(s[1..], sep)
    else
      var rest := Split(s[1..], sep);
      [[s[0]] + rest[0]] + rest[1..]
  }

  /** explode gives a single piece only for a string without the separator, and then the string. */
  lemma {:induction false} SinglePiece(s: string, sep: char)
    requires |Split(s, sep)| == 1
    ensures Split(s, sep) == [s]
    decreases |s|
  {
    if s != [] && s[0] != sep {
      SinglePiece(s[1..], sep);
      assert [s[0]] + s[1..] == s;
    }
  }

  /** A string without the separator is a single piece. */
  lemma {:induction false} NoSeparator(s: string, sep: char)
    requires sep !in s
    ensures Split(s, sep) == [s]
    decreases |s|
  {
    if s != [] {
      NoSeparator(s[1..], sep);
      assert [s[0]] + s[1..] == s;
    }
  }

  /** A piece with no separator in it splits off by itself. */
  lemma {:induction false} SplitJoined(a: string, b: string, sep: char)
    requires sep !in a
    ensures Split(a + [sep] + b, sep) == [a] + Split(b, sep)
    decreases |a|
  {
    if a == [] {
      assert ([] + [sep] + b)[1..] == b;
    } else {
      assert (a + [sep] + b)[1..] == a[1..] + [sep] + b;
      SplitJoined(a[1..], b, sep);
      assert [a[0]] + a[1..] == a;
    }
  }

  /** explode undoes implode when no piece holds the separator. */
  lemma {:induction false} SplitImplode(pieces: seq<string>, sep: char)
    requires |pieces| >= 1
    requires forall k :: 0 <= k < |pieces| ==> sep !in pieces[k]
    ensures Split(Implode([sep], pieces), sep) == pieces
    decreases |pieces|
  {
    if |pieces| > 1 {
      SplitImplode(pieces[1..], sep);
      assert Implode([sep], pieces) == pieces[0] + [sep] + Implode([sep], pieces[1..]);
      SplitJoined(pieces[0], Implode([sep], pieces[1..]), sep);
      assert [pieces[0]] + pieces[1..] == pieces;
    } else {
      NoSeparator(pieces[0], sep);
    }
  }

  lemma {:induction false} ImplodeChars(glue: string, pieces: seq<string>, ok: char -> bool)
    requires forall i :: 0 <= i < |glue| ==> ok(glue[i])
    requires forall k, i :: 0 <= k < |pieces| && 0 <= i < |pieces[k]| ==> ok(pieces[k][i])
    ensures forall i :: 0 <= i < |Implode(glue, pieces)| ==> ok(Implode(glue, pieces)[i])
    decreases |pieces|
  {
    if |pieces| > 1 {
      ImplodeChars(glue, pieces[1..], ok);
    }
  }

  /** The last character of a join is the last character of its last piece. */
  lemma {:induction false} ImplodeLast(glue: string, pieces: seq<string>)
    requires |pieces| >= 1 && pieces[|pieces| - 1] != []
    ensures Implode(glue, pieces) != []
    ensures Implode(glue, pieces)[|Implode(glue, pieces)| - 1] == pieces[|pieces| - 1][|pieces[|pieces| - 1]| - 1]
    decreases |pieces|
  {
    if |pieces| > 1 {
      ImplodeLast(glue, pieces[1..]);
    }
  }
}
