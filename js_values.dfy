/**
 * The few JavaScript value semantics the tunnel commands depend on: what a
 * JSON round trip leaves in a record field, truthiness, `String(v)`,
 * `parseInt`, and the comparison `v <= 0`.
 */
module JsValues {
  import opened Wrappers
  import Strings

  /**
   * A field value as it is read back from a JSON file: a string, an integer,
   * or null (`NaN` is written by `JSON.stringify` as null).
   */
  datatype Value = Str(s: string) | Num(n: int) | Null

  /** JavaScript truthiness: "" , 0 and null are falsy. */
  predicate Truthy(v: Value)
  {
    match v
    case Str(s) => s != ""
    case Num(n) => n != 0
    case Null => false
  }

  /** `String(v)`, as a template literal renders it. */
  function ToJsString(v: Value): string
  {
    match v
    case Str(s) => s
    case Num(n) => Strings.IntToString(n)
    case Null => "null"
  }

  /** The WhiteSpace and LineTerminator code points of ECMAScript. */
  predicate IsJsSpace(c: char)
  {
    || c == '\t' || c == '\n' || c == '\U{000B}' || c == '\U{000C}' || c == '\r'
    || c == ' ' || c == '\U{00A0}' || c == '\U{1680}' || ('\U{2000}' <= c <= '\U{200A}')
    || c == '\U{2028}' || c == '\U{2029}' || c == '\U{202F}' || c == '\U{205F}'
    || c == '\U{3000}' || c == '\U{FEFF}'
  }

  function TrimStart(s: string): string
  {
    if s != [] && IsJsSpace(s[0]) then TrimStart(s[1..]) else s
  }

  function TrimEnd(s: string): string
  {
    if s != [] && IsJsSpace(s[|s| - 1]) then TrimEnd(s[..|s| - 1]) else s
  }

  function Trim(s: string): string
  {
    TrimEnd(TrimStart(s))
  }

  /** The value of `c` as a digit of the given radix, if it is one. */
  function RadixDigit(c: char, radix: nat): (d: Option<nat>)
    ensures d.Some? ==> d.value < radix
  {
    var v := if '0' <= c <= '9' then c as int - '0' as int
             else if 'a' <= c <= 'z' then c as int - 'a' as int + 10
             else if 'A' <= c <= 'Z' then c as int - 'A' as int + 10
             else 36;
    if v < radix then Some(v) else None
  }

  predicate IsRadixDigit(c: char, radix: nat)
  {
    RadixDigit(c, radix).Some?
  }

  /** The length of the longest prefix of `s` made of digits of `radix`. */
  function DigitRun(s: string, radix: nat): (n: nat)
    ensures n <= |s|
    ensures forall i :: 0 <= i < n ==> IsRadixDigit(s[i], radix)
    ensures n < |s| ==> !IsRadixDigit(s[n], radix)
  {
    if s != [] && IsRadixDigit(s[0], radix) then 1 + DigitRun(s[1..], radix) else 0
  }

  function RadixValue(s: string, radix: nat): nat
    requires forall i :: 0 <= i < |s| ==> IsRadixDigit(s[i], radix)
  {
    if s == [] then 0
    else
      var last := s[|s| - 1];
      assert IsRadixDigit(last, radix);
      RadixValue(s[..|s| - 1], radix) * radix + RadixDigit(last, radix).value
  }

  /**
   * The digits part of `parseInt`, after white space and sign: a leading "0x"
   * switches to base 16 when `hexPrefix`; then the longest run of digits is
   * read and the rest ignored. None when there is no digit.
   */
  function ParseUnsigned(body: string, hexPrefix: bool): Option<nat>
  {
    var hex := hexPrefix && |body| >= 2 && body[0] == '0' && (body[1] == 'x' || body[1] == 'X');
    var radix := if hex then 16 else 10;
    var digits := if hex then body[2..] else body;
    var n := DigitRun(digits, radix);
    if n == 0 then None else Some(RadixValue(digits[..n], radix))
  }

  /**
   * `parseInt(input)` when `hexPrefix` (no radix given) or
   * `parseInt(input, 10)`; None stands for NaN. Leading white space and one
   * sign are skipped first.
   */
  function ParseInt(input: string, hexPrefix: bool): Option<int>
  {
    var s := TrimStart(input);
    var negative := s != [] && s[0] == '-';
    var body := if s != [] && (s[0] == '-' || s[0] == '+') then s[1..] else s;
    match ParseUnsigned(body, hexPrefix)
    case None => None
    case Some(v) =>
      var w: int := v;
      Some(if negative then -w else w)
  }

  lemma DecimalDigitIsRadixDigit(c: char)
    ensures IsRadixDigit(c, 10) <==> Strings.IsDigit(c)
  {
  }

  lemma {:induction false} DecimalRadixValue(s: string)
    requires Strings.AllDigits(s)
    ensures forall i :: 0 <= i < |s| ==> IsRadixDigit(s[i], 10)
    ensures RadixValue(s, 10) == Strings.ParseDigits(s)
  {
    if s != [] {
      DecimalRadixValue(s[..|s| - 1]);
    }
  }

  lemma {:induction false} DecimalDigitRun(s: string)
    requires Strings.AllDigits(s)
    ensures DigitRun(s, 10) == |s|
  {
    if s != [] {
      DecimalDigitRun(s[1..]);
    }
  }

  /** The shortest decimal form of a number reads back as that number. */
  lemma ParseUnsignedOfNatToString(m: nat, hexPrefix: bool)
    ensures ParseUnsigned(Strings.NatToString(m), hexPrefix) == Some(m)
  {
    var d := Strings.NatToString(m);
    DecimalDigitRun(d);
    DecimalRadixValue(d);
    assert d[..|d|] == d;
    Strings.ParseNatToString(m);
  }

  /** `parseInt(String(n))` is `n` for every integer, with or without a radix. */
  lemma ParseIntOfIntToString(n: int, hexPrefix: bool)
    ensures ParseInt(Strings.IntToString(n), hexPrefix) == Some(n)
  {
    var m: nat := if n < 0 then -n else n;
    var d := Strings.NatToString(m);
    var s := Strings.IntToString(n);
    assert !IsJsSpace(s[0]) by {
      assert s[0] == '-' || Strings.IsDigit(s[0]);
    }
    assert TrimStart(s) == s;
    ParseUnsignedOfNatToString(m, hexPrefix);
    if n < 0 {
      assert s[0] == '-' && s[1..] == d;
    } else {
      assert s == d && Strings.IsDigit(s[0]);
    }
  }

  predicate AllZeros(s: string)
  {
    forall i :: 0 <= i < |s| ==> s[i] == '0'
  }

  /** ExponentPart of a StrDecimalLiteral, or nothing. */
  predicate IsExponentOrEmpty(s: string)
  {
    || s == []
    || (&& (s[0] == 'e' || s[0] == 'E')
        && var e := if |s| > 1 && (s[1] == '+' || s[1] == '-') then s[2..] else s[1..];
        && e != [] && DigitRun(e, 10) == |e|)
  }

  /**
   * For a StrUnsignedDecimalLiteral ("Infinity", digits with an optional
   * fraction and exponent): whether its value is zero. None when `u` is not one.
   */
  function UnsignedDecimalIsZero(u: string): Option<bool>
  {
    if u == "Infinity" then Some(false)
    else
      var i := DigitRun(u, 10);
      var afterInt := u[i..];
      var hasDot := afterInt != [] && afterInt[0] == '.';
      var frac := if hasDot then afterInt[1..] else afterInt;
      var f := if hasDot then DigitRun(frac, 10) else 0;
      if i + f == 0 || !IsExponentOrEmpty(frac[f..]) then None
      else Some(AllZeros(u[..i]) && AllZeros(frac[..f]))
  }

  datatype Sign = NotANumber | Negative | Zero | Positive

  /** A "0x", "0o" or "0b" prefix followed by at least one character. */
  predicate HasRadixPrefix(t: string)
  {
    |t| > 2 && t[0] == '0' && t[1] in "xXoObB"
  }

  /** The sign of a StrNonDecimalIntegerLiteral such as "0x1f"; these carry no sign. */
  function RadixLiteralSign(t: string): Sign
    requires HasRadixPrefix(t)
  {
    var radix := if t[1] in "xX" then 16 else if t[1] in "oO" then 8 else 2;
    var ds := t[2..];
    if DigitRun(ds, radix) != |ds| then NotANumber
    else if AllZeros(ds) then Zero
    else Positive
  }

  /** The sign of a StrDecimalLiteral: an optional sign, then an unsigned literal. */
  function DecimalLiteralSign(t: string): Sign
    requires t != []
  {
    var u := if t[0] == '-' || t[0] == '+' then t[1..] else t;
    match UnsignedDecimalIsZero(u)
    case None => NotANumber
    case Some(isZero) => if isZero then Zero else if t[0] == '-' then Negative else Positive
  }

  /** The sign of `Number(s)` (ECMAScript StringToNumber); a blank string is zero. */
  function StringNumberSign(s: string): Sign
  {
    var t := Trim(s);
    if t == [] then Zero
    else if HasRadixPrefix(t) then RadixLiteralSign(t)
    else DecimalLiteralSign(t)
  }

  /** The comparison `v <= 0`: false for NaN, and `null <= 0` holds. */
  predicate LessEqZero(v: Value)
  {
    match v
    case Num(n) => n <= 0
    case Null => true
    case Str(s) => StringNumberSign(s) == Zero || StringNumberSign(s) == Negative
  }

  lemma UnsignedDecimalOfNatToString(m: nat)
    ensures UnsignedDecimalIsZero(Strings.NatToString(m)) == Some(m == 0)
  {
    var d := Strings.NatToString(m);
    DecimalDigitRun(d);
    assert d != "Infinity" by {
      assert Strings.IsDigit(d[0]);
    }
    assert d[|d|..] == [];
    assert d[..|d|] == d;
    if m == 0 {
      assert d == "0";
    } else {
      assert d[0] != '0';
    }
  }

  /** White space and radix prefixes never occur in `String(n)`. */
  lemma IntToStringIsPlainDecimal(n: int)
    ensures Trim(Strings.IntToString(n)) == Strings.IntToString(n)
    ensures !HasRadixPrefix(Strings.IntToString(n))
  {
    var s := Strings.IntToString(n);
    var m: nat := if n < 0 then -n else n;
    var d := Strings.NatToString(m);
    assert s == if n < 0 then "-" + d else d;
    assert !IsJsSpace(s[0]) by {
      assert s[0] == '-' || Strings.IsDigit(s[0]);
    }
    assert TrimStart(s) == s;
    assert s[|s| - 1] == d[|d| - 1];
    assert Strings.IsDigit(d[|d| - 1]);
    assert TrimEnd(s) == s;
  }

  lemma DecimalLiteralSignOfIntToString(n: int)
    ensures DecimalLiteralSign(Strings.IntToString(n)) == if n < 0 then Negative else if n == 0 then Zero else Positive
  {
    var m: nat := if n < 0 then -n else n;
    var s := Strings.IntToString(n);
    UnsignedDecimalOfNatToString(m);
    if n < 0 {
      assert s[0] == '-' && s[1..] == Strings.NatToString(m);
    } else {
      assert s == Strings.NatToString(m) && Strings.IsDigit(s[0]);
    }
  }

  /** A rate typed as a plain decimal integer compares with 0 as the integer does. */
  lemma LessEqZeroOfDecimal(n: int)
    ensures LessEqZero(Str(Strings.IntToString(n))) <==> n <= 0
  {
    var s := Strings.IntToString(n);
    IntToStringSign(s, n);
    DecimalLiteralSignOfIntToString(n);
    SignDecidesLessEqZero(s);
  }

  lemma IntToStringSign(s: string, n: int)
    requires s == Strings.IntToString(n)
    ensures StringNumberSign(s) == DecimalLiteralSign(s)
  {
    IntToStringIsPlainDecimal(n);
    PlainDecimalSign(s);
  }

  lemma SignDecidesLessEqZero(s: string)
    ensures LessEqZero(Str(s)) == (StringNumberSign(s) == Zero || StringNumberSign(s) == Negative)
  {
  }

  lemma PlainDecimalSign(s: string)
    requires s != [] && Trim(s) == s && !HasRadixPrefix(s)
    ensures StringNumberSign(s) == DecimalLiteralSign(s)
  {
  }
}
