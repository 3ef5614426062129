/**
 * The JavaScript values that flow through the devtools metadata code, with
 * the three language operations applied to them there: truthiness (`if (x)`,
 * `x ? a : b`, `filter(Boolean)`), conversion to text (`String(x)`, as done by
 * `join` and `parseInt`) and `Number.parseInt` without a radix.
 * Numbers are integers: floating point is not modelled.
 */
module JsValue {
  import opened Wrappers
  import opened Text

  datatype Value =
    | Undefined
    | Null
    | Bool(b: bool)
    | Num(n: int)
    | Str(s: string)
    | Arr(items: seq<Value>)
    | Obj(fields: map<string, Value>)

  /** ECMAScript ToBoolean: `undefined`, `null`, `false`, `0` and `''` are the falsy values. */
  predicate Truthy(v: Value) {
    match v
    case Undefined => false
    case Null => false
    case Bool(b) => b
    case Num(n) => n != 0
    case Str(s) => s != ""
    case Arr(_) => true
    case Obj(_) => true
  }

  function DigitChar(d: nat): char
    requires d < 10
  {
    "0123456789"[d]
  }

  predicate IsDecDigit(c: char) {
    '0' <= c <= '9'
  }

  function DecDigitValue(c: char): nat
    requires IsDecDigit(c)
  {
    (c as int - '0' as int) as nat
  }

  /** Decimal notation of a natural number, without leading zeros. */
  function ShowNat(n: nat): (r: string)
    ensures |r| >= 1
    ensures forall i :: 0 <= i < |r| ==> IsDecDigit(r[i])
    ensures |r| > 1 ==> r[0] != '0'
  {
    if n < 10 then [DigitChar(n)] else ShowNat(n / 10) + [DigitChar(n % 10)]
  }

  /** Decimal notation of an integer, `-` first when negative (`String(n)`). */
  function ShowInt(n: int): string {
    if n < 0 then "-" + ShowNat(-n) else ShowNat(n)
  }

  /** `Array.prototype.join(sep)` on already converted elements. */
  function Join(parts: seq<string>, sep: string): string {
    if parts == [] then ""
    else if |parts| == 1 then parts[0]
    else Join(parts[..|parts| - 1], sep) + sep + parts[|parts| - 1]
  }

  /** ECMAScript ToString. An array joins its elements with `,`, writing `null` and `undefined` as empty. */
  function ToJsString(v: Value): string {
    match v
    case Undefined => "undefined"
    case Null => "null"
    case Bool(b) => if b then "true" else "false"
    case Num(n) => ShowInt(n)
    case Str(s) => s
    case Arr(items) =>
      Join(seq(|items|, k requires 0 <= k < |items| =>
        if items[k].Undefined? || items[k].Null? then "" else ToJsString(items[k])), ",")
    case Obj(_) => "[object Object]"
  }

  /** The longest prefix of `s` satisfying `p`. */
  function TakeWhile(s: string, p: char -> bool): (r: string)
    ensures |r| <= |s| && r == s[..|r|]
    ensures forall i :: 0 <= i < |r| ==> p(r[i])
    ensures |r| < |s| ==> !p(s[|r|])
  {
    if s == [] || !p(s[0]) then [] else [s[0]] + TakeWhile(s[1..], p)
  }

  /** Value of a string of decimal digits, most significant first. */
  function DecValue(ds: string): nat
    requires forall i :: 0 <= i < |ds| ==> IsDecDigit(ds[i])
  {
    if ds == [] then 0 else DecValue(ds[..|ds| - 1]) * 10 + DecDigitValue(ds[|ds| - 1])
  }

  predicate IsHexDigit(c: char) {
    IsDecDigit(c) || 'a' <= c <= 'f' || 'A' <= c <= 'F'
  }

  function HexDigitValue(c: char): nat
    requires IsHexDigit(c)
  {
    if IsDecDigit(c) then DecDigitValue(c)
    else if 'a' <= c <= 'f' then (c as int - 'a' as int + 10) as nat
    else (c as int - 'A' as int + 10) as nat
  }

  /** Value of a string of hexadecimal digits, most significant first. */
  function HexValue(ds: string): nat
    requires forall i :: 0 <= i < |ds| ==> IsHexDigit(ds[i])
  {
    if ds == [] then 0 else HexValue(ds[..|ds| - 1]) * 16 + HexDigitValue(ds[|ds| - 1])
  }

  /**
   * `Number.parseInt(s)` with no radix: leading white space is skipped, an
   * optional sign is read, then a `0x`/`0X` prefix selects hexadecimal; the
   * longest run of digits that follows is the value. No digit at all is
   * `NaN`, written `None`.
   */
  function ParseIntString(s: string): Option<int> {
    var t := TrimStart(s);
    if |t| > 0 && t[0] == '-' then Negate(ParseMagnitude(t[1..]))
    else if |t| > 0 && t[0] == '+' then ParseMagnitude(t[1..])
    else ParseMagnitude(t)
  }

  /** The unsigned part of `parseInt`: hexadecimal after `0x`/`0X`, decimal otherwise. */
  function ParseMagnitude(u: string): Option<int> {
    if |u| >= 2 && u[0] == '0' && (u[1] == 'x' || u[1] == 'X') then
      var h := TakeWhile(u[2..], IsHexDigit);
      if h == [] then None else Some(HexValue(h))
    else
      var d := TakeWhile(u, IsDecDigit);
      if d == [] then None else Some(DecValue(d))
  }

  function Negate(m: Option<int>): Option<int> {
    if m.None? then None else Some(-m.value)
  }

  /** `Number.parseInt(v)` on any value: the value is converted to text first. */
  function ParseInt(v: Value): Option<int> {
    ParseIntString(ToJsString(v))
  }

  lemma {:induction false} DecValueShowNat(n: nat)
    ensures DecValue(ShowNat(n)) == n
  {
    if n >= 10 {
      var ds := ShowNat(n);
      assert ds[..|ds| - 1] == ShowNat(n / 10);
      DecValueShowNat(n / 10);
    }
  }

  lemma {:induction false} TakeWhileAll(s: string, p: char -> bool)
    requires forall i :: 0 <= i < |s| ==> p(s[i])
    ensures TakeWhile(s, p) == s
  {
    if s != [] {
      TakeWhileAll(s[1..], p);
    }
  }

  /** Reading back the decimal text of an integer gives the integer: `parseInt(String(n)) == n`. */
  lemma ParseIntShowInt(n: int)
    ensures ParseIntString(ShowInt(n)) == Some(n)
  {
    var m: nat := if n < 0 then -n else n;
    MagnitudeShowNat(m);
    var s := ShowInt(n);
    if n < 0 {
      assert s[0] == '-' && s[1..] == ShowNat(m);
    } else {
      assert IsDecDigit(s[0]);
    }
    PrintableNotSpace(s[0]);
    TrimStartPlain(s);
  }

  /** The digits of a natural number are read back as that number. */
  lemma MagnitudeShowNat(m: nat)
    ensures ParseMagnitude(ShowNat(m)) == Some(m)
  {
    var digits := ShowNat(m);
    assert digits[0] != '0' || |digits| < 2;
    TakeWhileAll(digits, IsDecDigit);
    DecValueShowNat(m);
  }

  /** A number keeps its value under `parseInt`. */
  lemma ParseIntNum(n: int)
    ensures ParseInt(Num(n)) == Some(n)
  {
    ParseIntShowInt(n);
  }

  /** Digits (not starting with `0`) followed by anything that is not a digit: the digits alone are read. */
  lemma ParseIntDigits(ds: string, tail: string)
    requires |ds| > 0 && ds[0] != '0' && forall i :: 0 <= i < |ds| ==> IsDecDigit(ds[i])
    requires tail == [] || !IsDecDigit(tail[0])
    ensures ParseIntString(ds + tail) == Some(DecValue(ds))
  {
    var s := ds + tail;
    assert s[0] == ds[0];
    ParseIntUnsigned(s);
    TakeWhileDigits(ds, tail);
  }

  /** Text starting with a non-zero digit is read as its leading run of digits. */
  lemma ParseIntUnsigned(s: string)
    requires |s| > 0 && IsDecDigit(s[0]) && s[0] != '0'
    ensures ParseIntString(s) == Some(DecValue(TakeWhile(s, IsDecDigit)))
  {
    PrintableNotSpace(s[0]);
    TrimStartPlain(s);
  }

  lemma PrintableNotSpace(c: char)
    requires IsDecDigit(c) || c == '-' || 'a' <= c <= 'z' || 'A' <= c <= 'Z' || c == '['
    ensures !IsJsSpace(c)
  {
  }

  lemma {:induction false} TakeWhileDigits(ds: string, tail: string)
    requires forall i :: 0 <= i < |ds| ==> IsDecDigit(ds[i])
    requires tail == [] || !IsDecDigit(tail[0])
    ensures TakeWhile(ds + tail, IsDecDigit) == ds
  {
    if ds == [] {
      assert [] + tail == tail;
    } else {
      assert (ds + tail)[1..] == ds[1..] + tail;
      TakeWhileDigits(ds[1..], tail);
    }
  }

  /** Text that starts with a letter or `[` has no leading integer. */
  lemma ParseIntWord(s: string)
    requires |s| > 0 && ('a' <= s[0] <= 'z' || 'A' <= s[0] <= 'Z' || s[0] == '[')
    ensures ParseIntString(s) == None
  {
    PrintableNotSpace(s[0]);
    TrimStartPlain(s);
  }

  /** Booleans, `null`, `undefined` and plain objects are `NaN` under `parseInt`. */
  lemma ParseIntNonNumeric(v: Value)
    requires v.Bool? || v.Null? || v.Undefined? || v.Obj?
    ensures ParseInt(v) == None
  {
    ParseIntWord(ToJsString(v));
  }

  /** Decimal notation is injective, so it can serve as a map key for indices. */
  lemma ShowNatInjective(m: nat, n: nat)
    requires ShowNat(m) == ShowNat(n)
    ensures m == n
  {
    DecValueShowNat(m);
    DecValueShowNat(n);
  }
}
