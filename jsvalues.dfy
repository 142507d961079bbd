/** Dynamically typed JavaScript values as they arrive in request bodies, JSON
    columns and user metadata, with the coercions the application applies to them:
    truthiness, `??`, optional property access, `String(v)` and `Number(v)`.
    Numbers held in values are integers here; `Number(s)` of a string reads the
    numeric-literal grammar into an exact value. */
module JsValues {
  import opened Wrappers
  import opened JsText

  datatype JsValue =
    | Undefined
    | Null
    | Bool(b: bool)
    | Num(n: int)
    | Str(s: string)
    | Arr(items: seq<JsValue>)
    | Obj(entries: seq<(string, JsValue)>)

  /** JavaScript truthiness: `undefined`, `null`, `false`, `0` and `''` are falsy. */
  predicate Truthy(v: JsValue)
  {
    match v
    case Undefined => false
    case Null => false
    case Bool(b) => b
    case Num(n) => n != 0
    case Str(s) => s != ""
    case Arr(_) => true
    case Obj(_) => true
  }

  /** `v ?? d`. */
  function Coalesce(v: JsValue, d: JsValue): (r: JsValue)
    ensures r == v || r == d
    ensures (v.Undefined? || v.Null?) ==> r == d
  {
    if v.Undefined? || v.Null? then d else v
  }

  /** `v || d`. */
  function Or(v: JsValue, d: JsValue): (r: JsValue)
    ensures Truthy(v) ==> r == v
    ensures !Truthy(v) ==> r == d
  {
    if Truthy(v) then v else d
  }

  /** `v?.key`: the first entry of an object under `key`; `undefined` for every
      other value (properties of arrays and strings included). */
  function Get(v: JsValue, key: string): JsValue
  {
    match v
    case Obj(entries) => Lookup(entries, key)
    case _ => Undefined
  }

  function Lookup(entries: seq<(string, JsValue)>, key: string): JsValue
    decreases |entries|
  {
    if entries == [] then Undefined
    else if entries[0].0 == key then entries[0].1
    else Lookup(entries[1..], key)
  }

  /** `{...v, [key]: value}`: the key keeps its place when present and is
      appended otherwise; spreading a value that is not an object adds nothing. */
  function Assign(v: JsValue, key: string, value: JsValue): (r: JsValue)
    ensures r.Obj?
    ensures Get(r, key) == value
    ensures forall other :: other != key ==> Get(r, other) == Get(v, other)
  {
    match v
    case Obj(entries) => Obj(Put(entries, key, value))
    case _ =>
      assert [(key, value)][1..] == [];
      assert forall other :: other != key ==> Lookup([(key, value)], other) == Undefined;
      assert forall other :: Get(v, other) == Undefined;
      Obj([(key, value)])
  }

  function Put(entries: seq<(string, JsValue)>, key: string, value: JsValue): (r: seq<(string, JsValue)>)
    ensures Lookup(r, key) == value
    ensures forall other :: other != key ==> Lookup(r, other) == Lookup(entries, other)
    decreases |entries|
  {
    if entries == [] then [(key, value)]
    else if entries[0].0 == key then
      assert ([(key, value)] + entries[1..])[1..] == entries[1..];
      [(key, value)] + entries[1..]
    else
      var rest := Put(entries[1..], key, value);
      assert ([entries[0]] + rest)[1..] == rest;
      [entries[0]] + rest
  }

  /** `String(v)`; an array joins its elements with `,`, writing `null` and
      `undefined` elements as nothing. */
  function ToJsString(v: JsValue): string
  {
    match v
    case Undefined => "undefined"
    case Null => "null"
    case Bool(b) => if b then "true" else "false"
    case Num(n) => IntToString(n)
    case Str(s) => s
    case Arr(items) =>
      Join(seq(|items|, i requires 0 <= i < |items| =>
        if items[i].Undefined? || items[i].Null? then "" else ToJsString(items[i])), ",")
    case Obj(_) => "[object Object]"
  }

  /** The value of a string of decimal digits. */
  function DecimalValue(d: string): (n: nat)
    requires forall i :: 0 <= i < |d| ==> IsDigit(d[i])
    decreases |d|
  {
    if d == [] then 0
    else
      var last := d[|d| - 1];
      assert IsDigit(last);
      DecimalValue(d[..|d| - 1]) * 10 + (last as int - '0' as int)
  }

  predicate AllDigits(d: string)
  {
    forall i :: 0 <= i < |d| ==> IsDigit(d[i])
  }

  /** A JavaScript number as the application looks at it: `NaN`, a finite
      value (exact here: binary64 rounding is not modelled), or an infinity. */
  datatype Number = NaN | Finite(value: real) | Infinite(negative: bool)

  /** The value of `c` as a digit in base `radix`, if it is one. */
  function DigitOf(c: char, radix: nat): (r: Option<nat>)
    ensures r.Some? ==> r.value < radix
  {
    var v: nat :=
      if '0' <= c <= '9' then c as nat - '0' as nat
      else if 'a' <= c <= 'f' then c as nat - 'a' as nat + 10
      else if 'A' <= c <= 'F' then c as nat - 'A' as nat + 10
      else radix;
    if v < radix then Some(v) else None
  }

  predicate AllDigitsIn(d: string, radix: nat)
  {
    forall i :: 0 <= i < |d| ==> DigitOf(d[i], radix).Some?
  }

  /** The value of a string of digits in base `radix`. */
  function RadixValue(d: string, radix: nat): nat
    requires AllDigitsIn(d, radix)
    decreases |d|
  {
    if d == [] then 0
    else RadixValue(d[..|d| - 1], radix) * radix + DigitOf(d[|d| - 1], radix).value
  }

  /** The end of the run of decimal digits that starts at `from`. */
  function DigitRun(u: string, from: nat): (j: nat)
    requires from <= |u|
    ensures from <= j <= |u| && AllDigits(u[from..j])
    ensures j < |u| ==> !IsDigit(u[j])
    decreases |u| - from
  {
    if from < |u| && IsDigit(u[from]) then
      var j := DigitRun(u, from + 1);
      assert u[from..j] == [u[from]] + u[from + 1..j];
      j
    else from
  }

  lemma DigitsAppend(a: string, b: string)
    requires AllDigits(a) && AllDigits(b)
    ensures AllDigits(a + b)
  {
    var ab := a + b;
    forall k | 0 <= k < |ab| ensures IsDigit(ab[k]) {
      if k >= |a| {
        assert ab[k] == b[k - |a|];
      }
    }
  }

  function Pow10(e: nat): (r: nat)
    ensures r >= 1
  {
    if e == 0 then 1 else 10 * Pow10(e - 1)
  }

  /** `m` times ten to the `e`, exactly. */
  function Scaled(m: nat, e: int): real
  {
    if e >= 0 then (m * Pow10(e)) as real else m as real / Pow10(-e) as real
  }

  /** A decimal literal without sign and without `Infinity`: digits with an
      optional fraction, or a fraction alone, then an optional exponent
      (`StrUnsignedDecimalLiteral`, section 7.1.4.1.1 of ECMAScript). */
  function UnsignedDecimal(u: string): Option<real>
  {
    var i := DigitRun(u, 0);
    if i < |u| && u[i] == '.' then
      var j := DigitRun(u, i + 1);
      if i == 0 && j == i + 1 then None
      else
        assert u[..i] == u[0..i];
        DigitsAppend(u[..i], u[i + 1..j]);
        ExponentPart(u, j, u[..i] + u[i + 1..j], j - i - 1)
    else if i == 0 then None
    else
      assert u[..i] == u[0..i];
      ExponentPart(u, i, u[..i], 0)
  }

  /** The optional exponent from `at` to the end, applied to a mantissa given
      by its digits and the number of them after the point. */
  function ExponentPart(u: string, at: nat, digits: string, fraction: nat): Option<real>
    requires at <= |u| && AllDigits(digits)
  {
    if at == |u| then Some(Scaled(DecimalValue(digits), -(fraction as int)))
    else if u[at] != 'e' && u[at] != 'E' then None
    else
      var rest := u[at + 1..];
      var negative := rest != [] && rest[0] == '-';
      var exponent := if rest != [] && (rest[0] == '+' || rest[0] == '-') then rest[1..] else rest;
      if exponent == [] || !AllDigits(exponent) then None
      else
        var e: int := DecimalValue(exponent);
        Some(Scaled(DecimalValue(digits), (if negative then -e else e) - fraction))
  }

  /** An unsigned decimal literal or `Infinity`, with the sign applied. */
  function UnsignedNumber(u: string, negative: bool): Number
  {
    if u == "Infinity" then Infinite(negative)
    else match UnsignedDecimal(u)
      case None => NaN
      case Some(x) => Finite(if negative then -x else x)
  }

  /** The base of a `0x`, `0o` or `0b` literal, or 0 for none. */
  function RadixOf(t: string): nat
  {
    if |t| < 2 || t[0] != '0' then 0
    else if t[1] == 'x' || t[1] == 'X' then 16
    else if t[1] == 'o' || t[1] == 'O' then 8
    else if t[1] == 'b' || t[1] == 'B' then 2
    else 0
  }

  /** `Number(s)` for a string: the `StringNumericLiteral` grammar of section
      7.1.4.1.1 of ECMAScript on the trimmed text. Blank is 0; `0x`, `0o` and
      `0b` literals take no sign; decimal literals and `Infinity` may be signed;
      anything else is `NaN`. */
  function StringToNumber(s: string): Number
  {
    var t := Trim(s);
    var radix := RadixOf(t);
    if t == [] then Finite(0.0)
    else if radix != 0 then
      if |t| > 2 && AllDigitsIn(t[2..], radix) then Finite(RadixValue(t[2..], radix) as real) else NaN
    else if t[0] == '+' || t[0] == '-' then UnsignedNumber(t[1..], t[0] == '-')
    else UnsignedNumber(t, false)
  }

  /** `Number(v)`. */
  function ToNumber(v: JsValue): Number
  {
    match v
    case Undefined => NaN
    case Null => Finite(0.0)
    case Bool(b) => Finite(if b then 1.0 else 0.0)
    case Num(n) => Finite(n as real)
    case Str(s) => StringToNumber(s)
    case Arr(_) => StringToNumber(ToJsString(v))
    case Obj(_) => NaN
  }

  lemma {:induction false} DecimalOfNatToString(n: nat)
    ensures AllDigits(NatToString(n)) && DecimalValue(NatToString(n)) == n
    decreases n
  {
    var d := NatToString(n);
    if n >= 10 {
      DecimalOfNatToString(n / 10);
      assert d[..|d| - 1] == NatToString(n / 10);
    }
  }

  /** A run of decimal digits reads as its value. */
  lemma DigitsNumber(d: string, negative: bool)
    requires d != [] && AllDigits(d)
    ensures UnsignedNumber(d, negative) == Finite(if negative then -(DecimalValue(d) as real) else DecimalValue(d) as real)
  {
    assert d != "Infinity" by { assert IsDigit(d[0]); }
    DigitRunToEnd(d, 0);
    assert d[..|d|] == d;
  }

  lemma {:induction false} DigitRunToEnd(u: string, from: nat)
    requires from <= |u| && AllDigits(u[from..])
    ensures DigitRun(u, from) == |u|
    decreases |u| - from
  {
    if from < |u| {
      assert IsDigit(u[from..][0]);
      assert u[from + 1..] == u[from..][1..];
      DigitRunToEnd(u, from + 1);
    }
  }

  /** `Number(String(n))` gives `n` back. */
  lemma NumberOfString(n: int)
    ensures ToNumber(Str(IntToString(n))) == Finite(n as real)
  {
    var t := IntToString(n);
    assert ToNumber(Str(t)) == StringToNumber(t);
    if n < 0 {
      NegativeString(n);
      NumberOfNegative(t);
    } else {
      DecimalOfNatToString(n);
      NumberOfDigits(t);
    }
  }

  lemma NegativeString(n: int)
    requires n < 0
    ensures var t := IntToString(n);
            |t| > 1 && t[0] == '-' && AllDigits(t[1..]) && DecimalValue(t[1..]) == -n
  {
    DecimalOfNatToString(-n);
    var t := IntToString(n);
    assert t[1..] == NatToString(-n);
  }

  /** A run of decimal digits reads as its value. */
  lemma NumberOfDigits(d: string)
    requires d != [] && AllDigits(d)
    ensures StringToNumber(d) == Finite(DecimalValue(d) as real)
  {
    assert IsDigit(d[0]) && IsDigit(d[|d| - 1]);
    TrimOfTrimmed(d);
    assert |d| >= 2 ==> IsDigit(d[1]);
    NumberOfUnsigned(d);
    DigitsNumber(d, false);
  }

  /** A minus sign and a run of decimal digits read as the negated value. */
  lemma NumberOfNegative(s: string)
    requires |s| > 1 && s[0] == '-' && AllDigits(s[1..])
    ensures StringToNumber(s) == Finite(-(DecimalValue(s[1..]) as real))
  {
    NegativeTrimmed(s);
    NumberOfSigned(s);
    DigitsNumber(s[1..], true);
  }

  lemma NegativeTrimmed(s: string)
    requires |s| > 1 && s[0] == '-' && AllDigits(s[1..])
    ensures Trim(s) == s && RadixOf(s) == 0
  {
    assert IsDigit(s[1..][|s| - 2]);
    assert s[|s| - 1] == s[1..][|s| - 2];
    TrimOfTrimmed(s);
  }

  lemma NumberOfUnsigned(t: string)
    requires Trim(t) == t && t != [] && RadixOf(t) == 0 && t[0] != '+' && t[0] != '-'
    ensures StringToNumber(t) == UnsignedNumber(t, false)
  {
  }

  lemma NumberOfSigned(t: string)
    requires Trim(t) == t && t != [] && RadixOf(t) == 0 && (t[0] == '+' || t[0] == '-')
    ensures StringToNumber(t) == UnsignedNumber(t[1..], t[0] == '-')
  {
  }
}
