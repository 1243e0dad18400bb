/**
 * JavaScript's `parseInt`, on the integer side only: leading whitespace, an optional
 * sign, then the longest run of digits. Without a radix a `0x` or `0X` prefix reads
 * the digits as hexadecimal; with radix 10 it does not. A run of no digits is `NaN`,
 * written `None` here.
 */
module JsNumber {
  import opened Wrappers
  import opened Text

  /** A character's digit value, either case. */
  function JsDigit(c: char): nat
  {
    DigitValue(LowerChar(c))
  }

  /** The length of the longest prefix of digits of the base. */
  function DigitRun(s: string, base: nat): (n: nat)
    ensures n <= |s|
    ensures forall i :: 0 <= i < n ==> JsDigit(s[i]) < base
    ensures n < |s| ==> JsDigit(s[n]) >= base
    decreases |s|
  {
    if |s| == 0 || JsDigit(s[0]) >= base then 0
    else
      var m := DigitRun(s[1..], base);
      assert forall i :: 1 <= i < m + 1 ==> s[i] == s[1..][i - 1];
      m + 1
  }

  /** A run of digits of the base, either case: its value, or `None` when the run is empty. */
  function DigitsValue(d: string, base: nat): (r: Option<nat>)
    ensures r.None? <==> DigitRun(d, base) == 0
  {
    var n := DigitRun(d, base);
    if n == 0 then None
    else
      var l := Lower(d[..n]);
      assert AllDigits(l, base) by {
        assert forall i :: 0 <= i < n ==> l[i] == LowerChar(d[i]);
      }
      Some(ValueOf(l, base))
  }

  /** An unsigned number: hexadecimal after `0x` or `0X` when `hex` allows it, decimal otherwise. */
  function ParseUnsigned(u: string, hex: bool): Option<nat>
  {
    if hex && |u| >= 2 && u[0] == '0' && (u[1] == 'x' || u[1] == 'X') then DigitsValue(u[2..], 16)
    else DigitsValue(u, 10)
  }

  /** `parseInt(s)`, without a radix. */
  function ParseInt(s: string): Option<int>
  {
    ParseSigned(TrimStart(s), true)
  }

  /** `parseInt(s, 10)`. */
  function ParseDecimal(s: string): Option<int>
  {
    ParseSigned(TrimStart(s), false)
  }

  /** An optional sign and an unsigned number. */
  function ParseSigned(t: string, hex: bool): Option<int>
  {
    if |t| > 0 && t[0] == '-' then Signed(ParseUnsigned(t[1..], hex), true)
    else if |t| > 0 && t[0] == '+' then Signed(ParseUnsigned(t[1..], hex), false)
    else Signed(ParseUnsigned(t, hex), false)
  }

  function Signed(v: Option<nat>, negative: bool): Option<int>
  {
    match v
    case Some(n) => Some(if negative then -(n as int) else n as int)
    case None => None
  }

  /** A decimal rendering reads back as itself, with or without the hexadecimal prefix rule. */
  lemma ParseUnsignedDecimal(m: nat, hex: bool)
    ensures ParseUnsigned(NatToString(m), hex) == Some(m)
  {
    var d := NatToString(m);
    NatToStringValue(m);
    DigitRunAll(d);
    assert d[..|d|] == d;
    assert Lower(d) == d;
    if |d| >= 2 {
      assert DigitValue(d[1]) < 10;
    }
  }

  /** A printed integer parses back to itself, with or without a radix. */
  lemma ParseRoundTrip(k: int, hex: bool)
    ensures ParseSigned(TrimStart(IntToString(k)), hex) == Some(k)
  {
    if k < 0 {
      var m: nat := -k;
      assert IntToString(k) == "-" + NatToString(m);
      ParseNegative(m, hex);
    } else {
      assert IntToString(k) == NatToString(k);
      ParseNatural(k, hex);
    }
  }

  /** `parseInt(String(k)) == k`. */
  lemma ParseIntRoundTrip(k: int)
    ensures ParseInt(IntToString(k)) == Some(k)
  {
    ParseRoundTrip(k, true);
  }

  /** `parseInt(String(k), 10) == k`. */
  lemma ParseDecimalRoundTrip(k: int)
    ensures ParseDecimal(IntToString(k)) == Some(k)
  {
    ParseRoundTrip(k, false);
  }

  lemma ParseNegative(m: nat, hex: bool)
    ensures ParseSigned(TrimStart("-" + NatToString(m)), hex) == Some(-(m as int))
  {
    var s := "-" + NatToString(m);
    TrimStartUnspaced(s);
    assert s[1..] == NatToString(m);
    ParseUnsignedDecimal(m, hex);
  }

  lemma ParseNatural(m: nat, hex: bool)
    ensures ParseSigned(TrimStart(NatToString(m)), hex) == Some(m as int)
  {
    var s := NatToString(m);
    NatToStringValue(m);
    assert DigitValue(s[0]) < 10;
    TrimStartUnspaced(s);
    ParseUnsignedDecimal(m, hex);
  }

  lemma TrimStartUnspaced(s: string)
    requires |s| > 0 && !IsSpace(s[0])
    ensures TrimStart(s) == s
  {
  }

  lemma {:induction false} DigitRunAll(d: string)
    requires AllDigits(d, 10)
    ensures DigitRun(d, 10) == |d|
    decreases |d|
  {
    if |d| > 0 {
      assert LowerChar(d[0]) == d[0];
      DigitRunAll(d[1..]);
    }
  }

  /** Text whose first non-blank character is no sign and no digit is `NaN`, whatever the radix rule. */
  lemma ParseNaN(s: string, hex: bool)
    requires var t := TrimStart(s); |t| == 0 || (t[0] != '-' && t[0] != '+' && JsDigit(t[0]) >= 10)
    ensures ParseSigned(TrimStart(s), hex) == None
  {
  }

  /** With radix 10 a `0x` prefix stops the digits after the zero. */
  lemma DecimalStopsAtX(rest: string)
    ensures ParseDecimal("0x" + rest) == Some(0)
  {
    var s := "0x" + rest;
    TrimStartUnspaced(s);
    assert JsDigit(s[1]) >= 10;
    assert DigitRun(s[1..], 10) == 0;
    assert DigitRun(s, 10) == 1;
    assert Lower(s[..1]) == "0";
    assert ValueOf("0", 10) == ValueOf("", 10) * 10 + DigitValue('0');
  }
}
