/** The JavaScript values the validators and the poll converter inspect: what `JSON.parse`
    produces, plus `undefined` for a property that is absent. Numbers are integers here. */
module JsValues {
  import opened Results

  datatype Value =
    | Undefined
    | Null
    | Bool(b: bool)
    | Num(n: int)
    | Str(s: string)
    | Arr(items: seq<Value>)
    | Obj(fields: map<string, Value>)

  /** `!v`: the values a condition treats as false. Arrays and objects are always truthy. */
  predicate Falsy(v: Value)
  {
    v == Undefined || v == Null || v == Bool(false) || v == Num(0) || v == Str("")
  }

  /** `null` and `undefined`, whose properties cannot be read. */
  predicate Nullish(v: Value)
  {
    v.Undefined? || v.Null?
  }

  /** `v[key]` on a value that is not nullish: an object's own field, or `undefined` (no
      modelled key names a property of strings, numbers, booleans or arrays). */
  function Prop(v: Value, key: string): (r: Value)
    ensures v.Obj? && key in v.fields ==> r == v.fields[key]
    ensures !(v.Obj? && key in v.fields) ==> r == Undefined
  {
    if v.Obj? && key in v.fields then v.fields[key] else Undefined
  }

  /** The TypeError thrown when reading `key` of a nullish value. */
  function ReadError(v: Value, key: string): Thrown
  {
    Plain("Cannot read properties of " + (if v.Null? then "null" else "undefined") +
          " (reading '" + key + "')")
  }

  predicate IsDigit(c: char)
  {
    '0' <= c <= '9'
  }

  predicate AllDigits(s: string)
  {
    forall i :: 0 <= i < |s| ==> IsDigit(s[i])
  }

  function DigitChar(d: nat): (c: char)
    requires d < 10
    ensures IsDigit(c) && c as int - '0' as int == d
  {
    ('0' as int + d) as char
  }

  /** The decimal numeral of a natural number, without leading zeros. */
  function NatStr(n: nat): (s: string)
    ensures |s| >= 1 && AllDigits(s)
    decreases n
  {
    if n < 10 then [DigitChar(n)] else NatStr(n / 10) + [DigitChar(n % 10)]
  }

  /** The number a string of decimal digits denotes. */
  function DigitsValue(s: string): nat
    requires AllDigits(s)
  {
    if s == [] then 0 else DigitsValue(s[..|s| - 1]) * 10 + (s[|s| - 1] as int - '0' as int)
  }

  lemma {:induction false} NatStrValue(n: nat)
    ensures DigitsValue(NatStr(n)) == n
    decreases n
  {
    if n >= 10 {
      var s := NatStr(n);
      assert s[..|s| - 1] == NatStr(n / 10);
      NatStrValue(n / 10);
    }
  }

  /** Distinct numbers have distinct numerals. */
  lemma NatStrInjective(a: nat, b: nat)
    requires NatStr(a) == NatStr(b)
    ensures a == b
  {
    NatStrValue(a);
    NatStrValue(b);
  }

  /** A run of digits ends where a non-digit begins: it is fixed by the whole string. */
  lemma DigitsPrefix(d1: string, x: string, d2: string, y: string)
    requires AllDigits(d1) && AllDigits(d2)
    requires x != [] && y != [] && !IsDigit(x[0]) && !IsDigit(y[0])
    requires d1 + x == d2 + y
    ensures d1 == d2
  {
    if |d1| < |d2| {
      CharAfter(d1, x, d2, y);
      assert false;
    } else if |d2| < |d1| {
      CharAfter(d2, y, d1, x);
      assert false;
    }
    assert d1 == (d1 + x)[..|d1|];
    assert d2 == (d2 + y)[..|d2|];
  }

  /** The character just after the shorter prefix, read in both strings. */
  lemma CharAfter(a: string, x: string, b: string, y: string)
    requires |a| < |b| && x != []
    ensures (a + x)[|a|] == x[0] && (b + y)[|a|] == b[|a|]
  {
  }

  /** The numeral of an integer, with a leading minus for a negative one. */
  function IntStr(n: int): string
  {
    if n < 0 then "-" + NatStr(-n) else NatStr(n)
  }

  /** `Array.prototype.join(",")` on strings. */
  function JoinComma(parts: seq<string>): (r: string)
    ensures parts == [] ==> r == ""
    ensures |parts| == 1 ==> r == parts[0]
  {
    if parts == [] then "" else if |parts| == 1 then parts[0] else parts[0] + "," + JoinComma(parts[1..])
  }

  /** `String(v)`, as a template literal or `toString` renders a value: an array joins its
      items with commas, writing nothing for a nullish item, and every object is
      "[object Object]". */
  function ToStr(v: Value): string
  {
    match v
    case Undefined => "undefined"
    case Null => "null"
    case Bool(b) => if b then "true" else "false"
    case Num(n) => IntStr(n)
    case Str(s) => s
    case Arr(items) =>
      JoinComma(seq(|items|, i requires 0 <= i < |items| =>
        if Nullish(items[i]) then "" else ToStr(items[i])))
    case Obj(_) => "[object Object]"
  }

  /** The string form of an array of objects is "[object Object]" repeated: it is fixed by
      the number of items and different for different numbers. */
  lemma {:induction false} ObjectsString(items: seq<Value>)
    requires forall i :: 0 <= i < |items| ==> items[i].Obj?
    ensures |ToStr(Arr(items))| == if items == [] then 0 else 16 * |items| - 1
    ensures forall other: seq<Value> :: |other| == |items| && (forall i :: 0 <= i < |other| ==> other[i].Obj?) ==>
              ToStr(Arr(other)) == ToStr(Arr(items))
  {
    var parts := seq(|items|, i requires 0 <= i < |items| => if Nullish(items[i]) then "" else ToStr(items[i]));
    assert parts == seq(|items|, i => "[object Object]");
    ObjectsJoin(|items|);
    forall other: seq<Value> | |other| == |items| && (forall i :: 0 <= i < |other| ==> other[i].Obj?)
      ensures ToStr(Arr(other)) == ToStr(Arr(items))
    {
      var po := seq(|other|, i requires 0 <= i < |other| => if Nullish(other[i]) then "" else ToStr(other[i]));
      assert po == parts;
    }
  }

  lemma {:induction false} ObjectsJoin(n: nat)
    ensures |JoinComma(seq(n, i => "[object Object]"))| == if n == 0 then 0 else 16 * n - 1
  {
    if n > 1 {
      var parts := seq(n, i => "[object Object]");
      assert parts[1..] == seq(n - 1, i => "[object Object]");
      ObjectsJoin(n - 1);
    }
  }
}
