/**
 * The slice of JavaScript value semantics the code depends on: truthiness
 * (`!x`, `x || y`), `String(x)` / `x.toString()`, `Array.prototype.join`,
 * and `parseInt` without a radix (decimal, or hexadecimal after `0x`).
 * Numbers are unbounded integers here; fractional numbers and the rounding
 * of large ones are not modelled.
 */
module Js {
  import opened Wrappers
  import opened Text

  datatype JsValue =
    | Undefined
    | Null
    | Bool(b: bool)
    | Num(n: int)
    | Str(s: string)
    | Arr(items: seq<JsValue>)

  /** JavaScript truthiness: `undefined`, `null`, `false`, `0` and `""` are falsy; arrays are truthy. */
  predicate Truthy(v: JsValue) {
    match v
    case Undefined => false
    case Null => false
    case Bool(b) => b
    case Num(n) => n != 0
    case Str(s) => s != ""
    case Arr(_) => true
  }

  /** An optional string field read as a JavaScript value: absent is `undefined`. */
  function OfString(o: Option<string>): JsValue {
    match o
    case None => Undefined
    case Some(s) => Str(s)
  }

  /** `!!field` for an optional string field. */
  predicate TruthyString(o: Option<string>) {
    Truthy(OfString(o))
  }

  lemma TruthyStringIff(o: Option<string>)
    ensures TruthyString(o) <==> o.Some? && o.value != ""
  {
  }

  // ---------------------------------------------------------------- numbers

  predicate IsDigit(c: char) {
    '0' <= c <= '9'
  }

  function DigitChar(d: nat): (c: char)
    requires d < 10
    ensures IsDigit(c)
  {
    ('0' as int + d) as char
  }

  function DigitValue(c: char): (d: nat)
    requires IsDigit(c)
    ensures d < 10
  {
    c as int - '0' as int
  }

  predicate AllDigits(s: string) {
    forall i | 0 <= i < |s| :: IsDigit(s[i])
  }

  /** The value of a string of decimal digits. */
  function DigitsValue(ds: string): nat
    requires AllDigits(ds)
    decreases |ds|
  {
    if ds == [] then 0 else DigitsValue(ds[..|ds| - 1]) * 10 + DigitValue(ds[|ds| - 1])
  }

  /** The decimal spelling of a natural number, no leading zeros. */
  function NatToString(n: nat): (s: string)
    ensures s != [] && AllDigits(s)
  {
    if n < 10 then [DigitChar(n)] else NatToString(n / 10) + [DigitChar(n % 10)]
  }

  /** `String(n)` for an integer. */
  function NumToString(n: int): string {
    if n < 0 then "-" + NatToString(-n) else NatToString(n)
  }

  /** The longest prefix of decimal digits. */
  function DigitPrefix(s: string): (ds: string)
    ensures AllDigits(ds) && IsPrefix(ds, s)
    ensures |ds| < |s| ==> !IsDigit(s[|ds|])
  {
    if s != [] && IsDigit(s[0]) then [s[0]] + DigitPrefix(s[1..]) else []
  }

  predicate IsHexDigit(c: char) {
    IsDigit(c) || 'a' <= c <= 'f' || 'A' <= c <= 'F'
  }

  function HexDigitValue(c: char): (d: nat)
    requires IsHexDigit(c)
    ensures d < 16
    ensures IsDigit(c) ==> d == DigitValue(c)
  {
    if IsDigit(c) then DigitValue(c)
    else if 'a' <= c <= 'f' then c as int - 'a' as int + 10
    else c as int - 'A' as int + 10
  }

  predicate AllHexDigits(s: string) {
    forall i | 0 <= i < |s| :: IsHexDigit(s[i])
  }

  /** The value of a string of hexadecimal digits. */
  function HexValue(hs: string): nat
    requires AllHexDigits(hs)
    decreases |hs|
  {
    if hs == [] then 0 else HexValue(hs[..|hs| - 1]) * 16 + HexDigitValue(hs[|hs| - 1])
  }

  /** The longest prefix of hexadecimal digits. */
  function HexPrefix(s: string): (hs: string)
    ensures AllHexDigits(hs) && IsPrefix(hs, s)
    ensures |hs| < |s| ==> !IsHexDigit(s[|hs|])
  {
    if s != [] && IsHexDigit(s[0]) then [s[0]] + HexPrefix(s[1..]) else []
  }

  /** `0x` or `0X`, which switches `parseInt` without a radix to base 16. */
  predicate HasHexPrefix(s: string) {
    |s| >= 2 && s[0] == '0' && (s[1] == 'x' || s[1] == 'X')
  }

  /** The unsigned part of `parseInt`: hexadecimal digits after `0x`, else decimal digits; `None` when there are none. */
  function Magnitude(body: string): (m: Option<nat>)
    ensures m.Some? ==> body != [] && IsDigit(body[0])
    ensures body != [] && IsDigit(body[0]) && !HasHexPrefix(body) ==> m.Some?
  {
    if HasHexPrefix(body) then
      var hs := HexPrefix(body[2..]);
      if hs == [] then None else Some(HexValue(hs))
    else
      var ds := DigitPrefix(body);
      if ds == [] then None else Some(DigitsValue(ds))
  }

  /**
   * `parseInt(s)` without a radix: leading white space, an optional sign,
   * then `0x` and the longest run of hexadecimal digits, or else the longest
   * run of decimal digits; `None` is NaN.
   */
  function ParseInt(s: string): (r: Option<int>)
    ensures s != [] && IsDigit(s[0]) && !HasHexPrefix(s) ==> r.Some? && r.value >= 0
    ensures r.Some? ==> exists i | 0 <= i < |s| :: IsDigit(s[i])
  {
    var t := TrimStart(s);
    var negative := t != [] && t[0] == '-';
    var body := if t != [] && (t[0] == '-' || t[0] == '+') then t[1..] else t;
    assert s != [] && IsDigit(s[0]) ==> body == s by {
      if s != [] && IsDigit(s[0]) {
        assert !IsSpace(s[0]);
      }
    }
    var m := Magnitude(body);
    assert m.Some? ==> IsDigit(s[|s| - |body|]) by {
      if m.Some? {
        assert body == s[|s| - |body|..];
      }
    }
    match m
    case None => None
    case Some(v) => if negative then Some(-(v as int)) else Some(v as int)
  }

  lemma {:induction false} NatToStringValue(n: nat)
    ensures DigitsValue(NatToString(n)) == n
  {
    if n >= 10 {
      NatToStringValue(n / 10);
      var s := NatToString(n);
      assert s[..|s| - 1] == NatToString(n / 10);
    }
  }

  lemma {:induction false} DigitPrefixAll(s: string)
    requires AllDigits(s)
    ensures DigitPrefix(s) == s
    decreases |s|
  {
    if s != [] {
      DigitPrefixAll(s[1..]);
      assert [s[0]] + s[1..] == s;
    }
  }

  /** `parseInt` of a run of digits is its value. */
  lemma ParseIntDigits(ds: string)
    requires ds != [] && AllDigits(ds)
    ensures ParseInt(ds) == Some(DigitsValue(ds))
  {
    assert IsDigit(ds[0]) && !IsSpace(ds[0]);
    assert TrimStart(ds) == ds;
    assert !HasHexPrefix(ds) by {
      if |ds| >= 2 {
        assert IsDigit(ds[1]);
      }
    }
    DigitPrefixAll(ds);
  }

  /** `parseInt` of a minus sign and a run of digits is the negated value. */
  lemma ParseIntNegative(ds: string)
    requires ds != [] && AllDigits(ds)
    ensures ParseInt("-" + ds) == Some(-(DigitsValue(ds) as int))
  {
    var s := "-" + ds;
    assert s[0] == '-' && !IsSpace(s[0]);
    assert TrimStart(s) == s;
    assert s[1..] == ds;
    DigitPrefixAll(ds);
    assert DigitPrefix(s[1..]) == ds;
  }

  lemma {:induction false} HexPrefixAll(s: string)
    requires AllHexDigits(s)
    ensures HexPrefix(s) == s
    decreases |s|
  {
    if s != [] {
      HexPrefixAll(s[1..]);
      assert [s[0]] + s[1..] == s;
    }
  }

  /** `parseInt` of `0x` and a run of hexadecimal digits is their base-16 value. */
  lemma ParseIntHexDigits(hs: string)
    requires hs != [] && AllHexDigits(hs)
    ensures ParseInt("0x" + hs) == Some(HexValue(hs))
  {
    var s := "0x" + hs;
    assert s[0] == '0' && !IsSpace(s[0]);
    assert TrimStart(s) == s;
    assert HasHexPrefix(s);
    assert s[2..] == hs;
    HexPrefixAll(hs);
  }

  /** `parseInt("0x10") === 16`. */
  lemma ParseIntHexSixteen()
    ensures ParseInt("0x10") == Some(16)
  {
    var hs := "10";
    assert hs[..1] == "1" && hs[..1][..0] == [];
    assert HexValue(hs[..1]) == 1;
    assert HexValue(hs) == 16;
    assert "0x" + hs == "0x10";
    ParseIntHexDigits(hs);
  }

  /** `parseInt("0x")` is NaN: no hexadecimal digit follows the prefix. */
  lemma ParseIntHexEmpty()
    ensures ParseInt("0x") == None
  {
    var s := "0x";
    assert s[0] == '0' && !IsSpace(s[0]);
    assert TrimStart(s) == s;
    assert HasHexPrefix(s);
    assert s[2..] == [];
  }

  /** `parseInt(String(n)) === n`: an integer key survives its round trip through a string. */
  lemma ParseIntNumToString(n: int)
    ensures ParseInt(NumToString(n)) == Some(n)
  {
    if n < 0 {
      ParseIntNegativeNum(n);
    } else {
      var ds := NatToString(n);
      assert NumToString(n) == ds;
      NatToStringValue(n);
      ParseIntDigits(ds);
    }
  }

  lemma ParseIntNegativeNum(n: int)
    requires n < 0
    ensures ParseInt(NumToString(n)) == Some(n)
  {
    var m: nat := -n;
    var ds := NatToString(m);
    assert NumToString(n) == "-" + ds;
    NatToStringValue(m);
    ParseIntNegative(ds);
  }

  // ---------------------------------------------------------------- strings

  /** `String(v)` */
  function ToString(v: JsValue): (r: string)
    ensures v.Num? ==> ParseInt(r) == Some(v.n)
    decreases v, 1
  {
    match v
    case Undefined => "undefined"
    case Null => "null"
    case Bool(b) => if b then "true" else "false"
    case Num(n) => ParseIntNumToString(n); NumToString(n)
    case Str(s) => s
    case Arr(items) => JoinValues(v, items, ",")
  }

  /** How `join` spells one element: `undefined` and `null` become empty. */
  function ElementString(v: JsValue): string
    decreases v, 2
  {
    if v.Undefined? || v.Null? then "" else ToString(v)
  }

  /** `items.join(sep)` where `items` are the elements of `whole`. */
  function JoinValues(ghost whole: JsValue, items: seq<JsValue>, sep: string): (r: string)
    requires whole.Arr? && forall x | x in items :: x in whole.items
    decreases whole, 0, |items|
  {
    if items == [] then ""
    else
      assert items[0] in whole.items;
      if |items| == 1 then ElementString(items[0])
      else ElementString(items[0]) + sep + JoinValues(whole, items[1..], sep)
  }

  /** `value.join(sep)` on an array value, as the cell renderers call it. */
  function JoinArray(v: JsValue, sep: string): string
    requires v.Arr?
  {
    JoinValues(v, v.items, sep)
  }

  /** Joining strings gives `Text.Join` of their texts. */
  lemma {:induction false} JoinStrings(whole: JsValue, items: seq<JsValue>, texts: seq<string>, sep: string)
    requires whole.Arr? && forall x | x in items :: x in whole.items
    requires |texts| == |items| && forall i | 0 <= i < |items| :: items[i] == Str(texts[i])
    ensures JoinValues(whole, items, sep) == Join(texts, sep)
    decreases |items|
  {
    if |items| == 1 {
      assert ElementString(items[0]) == texts[0];
    } else if |items| > 1 {
      assert ElementString(items[0]) == texts[0];
      JoinStrings(whole, items[1..], texts[1..], sep);
    }
  }
}
