/** The schema-less documents the dashboard receives from the document store, and the two
    JavaScript coercions the filter applies to their fields: `String(v)` and `Number(v)`. */
module JsValues {
  import opened Wrappers
  import opened Text

  /** A JSON value as parsed by the client. `Arr` and `Obj` are the two values for which
      `typeof v === 'object'` holds besides `null`. Numbers are modelled as integers. */
  datatype Value =
    | Null
    | Bool(b: bool)
    | Num(n: int)
    | Str(s: string)
    | Arr(items: seq<Value>)
    | Obj(fields: map<string, Value>)

  /** A document: its own keys and their values. A key that is absent is `undefined`. */
  type Doc = map<string, Value>

  /** `typeof v === 'object' && v !== null`. */
  predicate IsObject(v: Value) {
    v.Arr? || v.Obj?
  }

  /** The decimal spelling JavaScript gives an integer: a minus sign exactly for negatives,
      then the digits of the magnitude with no leading zero. */
  function IntToDecimal(n: int): (s: string)
    ensures |s| > 0
    ensures s[0] == '-' <==> n < 0
    ensures var digits := if n < 0 then s[1..] else s;
            && |digits| > 0
            && AllDigits(digits)
            && (|digits| > 1 ==> digits[0] != '0')
            && DigitsValue(digits) == (if n < 0 then -n else n)
  {
    if n < 0 then
      var s := "-" + NatToDecimal(-n);
      assert s[1..] == NatToDecimal(-n);
      s
    else NatToDecimal(n)
  }

  /** `String(v)`. Array elements are joined with `,`, with `null` elements as the empty
      string, as `Array.prototype.join` does; every plain object reads `[object Object]`. */
  function ToJsString(v: Value): (r: string)
    ensures v.Null? ==> r == "null"
    ensures v.Num? ==> r == IntToDecimal(v.n)
    ensures v.Bool? ==> r == (if v.b then "true" else "false")
    ensures v.Str? ==> r == v.s
    ensures v.Obj? ==> r == "[object Object]"
    ensures v.Arr? && |v.items| == 0 ==> r == ""
    ensures v.Arr? && |v.items| == 1 ==> r == ElementText(v.items[0])
    decreases v, 1
  {
    match v
    case Null => "null"
    case Bool(b) => if b then "true" else "false"
    case Num(n) => IntToDecimal(n)
    case Str(s) => s
    case Arr(items) => JoinElements(v, 0)
    case Obj(_) => "[object Object]"
  }

  /** How `join` writes one array element: `null` as the empty string, anything else as
      its `String` form. */
  function ElementText(e: Value): string
    decreases e, 2
  {
    if e.Null? then "" else ToJsString(e)
  }

  /** The elements of the array `v` from index `from` on, joined with `,`. */
  function JoinElements(v: Value, from: nat): string
    requires v.Arr? && from <= |v.items|
    decreases v, 0, |v.items| - from
  {
    if from == |v.items| then ""
    else
      var head := ElementText(v.items[from]);
      if from + 1 == |v.items| then head else head + "," + JoinElements(v, from + 1)
  }

  /** Joining from index `i + 1` of `[x] + rest` is joining from index `i` of `rest`. */
  lemma {:induction false} JoinElementsShift(x: Value, rest: seq<Value>, i: nat)
    requires i <= |rest|
    ensures JoinElements(Arr([x] + rest), i + 1) == JoinElements(Arr(rest), i)
    decreases |rest| - i
  {
    var whole := Arr([x] + rest);
    if i < |rest| {
      assert whole.items[i + 1] == rest[i];
      var head := ElementText(rest[i]);
      if i + 1 < |rest| {
        JoinElementsShift(x, rest, i + 1);
        assert JoinElements(whole, i + 1) == head + "," + JoinElements(whole, i + 2);
      } else {
        assert JoinElements(whole, i + 1) == head;
      }
    }
  }

  /** `String([x, ...rest])` is `x`'s element text, then, when `rest` is non-empty, a comma
      and `String(rest)`: the array form is the comma-separated list of its elements. */
  lemma ArrayStringOfCons(x: Value, rest: seq<Value>)
    ensures ToJsString(Arr([x] + rest)) ==
              ElementText(x) + (if |rest| == 0 then "" else "," + ToJsString(Arr(rest)))
  {
    JoinElementsShift(x, rest, 0);
  }

  /** `Number(s)` for a string, restricted to integers: the empty string is 0, an optional
      sign followed by one or more ASCII digits is that integer, anything else is `NaN`. */
  function ParseNumber(s: string): (r: Option<int>)
    ensures r.Some? <==> |s| == 0 || AllDigits(s) || (|s| > 1 && (s[0] == '-' || s[0] == '+') && AllDigits(s[1..]))
    ensures |s| == 0 ==> r == Some(0)
    ensures |s| > 0 && AllDigits(s) ==> r == Some(DigitsValue(s))
    ensures |s| > 1 && s[0] == '+' && AllDigits(s[1..]) ==> r == Some(DigitsValue(s[1..]))
    ensures |s| > 1 && s[0] == '-' && AllDigits(s[1..]) ==> r == Some(-(DigitsValue(s[1..]) as int))
  {
    if |s| == 0 then Some(0)
    else if s[0] == '-' || s[0] == '+' then
      if |s| > 1 && AllDigits(s[1..]) then
        var magnitude: int := DigitsValue(s[1..]);
        Some(if s[0] == '-' then -magnitude else magnitude)
      else None
    else if AllDigits(s) then Some(DigitsValue(s))
    else None
  }

  /** A leading zero does not change a digit string's value. */
  lemma {:induction false} DigitsValueLeadingZero(s: string)
    requires AllDigits(s)
    ensures AllDigits("0" + s) && DigitsValue("0" + s) == DigitsValue(s)
  {
    if |s| > 0 {
      var t := "0" + s;
      assert t[..|t| - 1] == "0" + s[..|s| - 1];
      DigitsValueLeadingZero(s[..|s| - 1]);
    }
  }

  /** Leading zeros and a `+` sign do not change the number a string denotes, and a `-`
      sign negates it: `Number("007") == 7`, `Number("+5") == 5`, `Number("-0") == 0`. */
  lemma ParseNumberSpellings(digits: string)
    requires |digits| > 0 && AllDigits(digits)
    ensures ParseNumber("0" + digits) == ParseNumber(digits)
    ensures ParseNumber("+" + digits) == ParseNumber(digits)
    ensures ParseNumber("-" + digits) == Some(-ParseNumber(digits).value)
  {
    DigitsValueLeadingZero(digits);
    assert ("+" + digits)[1..] == digits;
    assert ("-" + digits)[1..] == digits;
  }

  /** `Number(v)`: booleans are 0 or 1, numbers are themselves, strings are parsed,
      arrays are parsed through their string form, plain objects are `NaN`. Apart from
      `null` and booleans, `Number(v)` is `Number(String(v))`. */
  function ToNumber(v: Value): (r: Option<int>)
    ensures v.Null? ==> r == Some(0)
    ensures v.Bool? ==> r == Some(if v.b then 1 else 0)
    ensures v.Num? ==> r == Some(v.n)
    ensures v.Obj? ==> r == None
    ensures !v.Null? && !v.Bool? ==> r == ParseNumber(ToJsString(v))
  {
    match v
    case Null => Some(0)
    case Bool(b) => Some(if b then 1 else 0)
    case Num(n) =>
      NumberRoundTrip(n);
      Some(n)
    case Str(s) => ParseNumber(s)
    case Arr(_) => ParseNumber(ToJsString(v))
    case Obj(_) =>
      assert !AllDigits("[object Object]") by { assert !IsDigit("[object Object]"[0]); }
      None
  }

  /** Parsing the decimal spelling of an integer gives the integer back. */
  lemma NumberRoundTrip(n: int)
    ensures ParseNumber(IntToDecimal(n)) == Some(n)
  {
    var s := IntToDecimal(n);
    if n < 0 {
      assert s[1..] == NatToDecimal(-n);
    }
  }

  /** The decimal spelling of an integer has no upper-case letter, so lower-casing keeps it. */
  lemma LowerOfDecimal(n: int)
    ensures Lower(IntToDecimal(n)) == IntToDecimal(n)
  {
    LowerOfLowerCase(IntToDecimal(n));
  }
}
