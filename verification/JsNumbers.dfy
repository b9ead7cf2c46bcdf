/**
 * The parts of JavaScript's number handling that the RSVP form relies on:
 * the global `parseInt` with no radix argument (section 19.2.5 of ECMA-262)
 * and the decimal text that a template literal gives for a non-negative
 * integer below 10^21 (from 10^21 on JavaScript writes exponent form).
 */
module JsNumbers {

  /** What `parseInt` returns: NaN, or a Number with an integral value. */
  datatype ParseResult = NaN | Num(value: int)

  /**
   * The WhiteSpace and LineTerminator code points of ECMA-262 (sections 12.2
   * and 12.3), which `parseInt` skips at the start of its argument.
   */
  predicate IsJsWhitespace(c: char) {
    c == '\t' || c == '\n' || c == '\U{000B}' || c == '\U{000C}' || c == '\r' ||
    c == ' ' || c == '\U{00A0}' || c == '\U{1680}' ||
    ('\U{2000}' <= c <= '\U{200A}') ||
    c == '\U{2028}' || c == '\U{2029}' || c == '\U{202F}' || c == '\U{205F}' ||
    c == '\U{3000}' || c == '\U{FEFF}'
  }

  predicate IsDigit(c: char) {
    '0' <= c <= '9'
  }

  /** A digit of radix 16 when `hex` holds, of radix 10 otherwise. */
  predicate IsRadixDigit(c: char, hex: bool) {
    IsDigit(c) || (hex && (('a' <= c <= 'f') || ('A' <= c <= 'F')))
  }

  function DigitValue(c: char, hex: bool): (v: nat)
    requires IsRadixDigit(c, hex)
    ensures v < (if hex then 16 else 10)
  {
    if IsDigit(c) then c as int - '0' as int
    else if 'a' <= c <= 'f' then c as int - 'a' as int + 10
    else c as int - 'A' as int + 10
  }

  /** TrimString(s, start): drops every leading whitespace or line terminator. */
  function TrimStart(s: string): (t: string)
    ensures |t| <= |s| && t == s[|s| - |t|..]
    ensures forall i :: 0 <= i < |s| - |t| ==> IsJsWhitespace(s[i])
    ensures |t| == 0 || !IsJsWhitespace(t[0])
  {
    if |s| > 0 && IsJsWhitespace(s[0]) then TrimStart(s[1..]) else s
  }

  /** -1 when the trimmed text starts with '-', 1 otherwise. */
  function Sign(t: string): int {
    if |t| > 0 && t[0] == '-' then -1 else 1
  }

  /** The trimmed text without its one optional leading '+' or '-'. */
  function DropSign(t: string): string {
    if |t| > 0 && (t[0] == '-' || t[0] == '+') then t[1..] else t
  }

  /** "0x" or "0X": switches `parseInt` without a radix to radix 16. */
  predicate HasHexPrefix(u: string) {
    |u| >= 2 && u[0] == '0' && (u[1] == 'x' || u[1] == 'X')
  }

  /** The longest prefix of `s` made of radix digits. */
  function DigitPrefix(s: string, hex: bool): (d: string)
    ensures |d| <= |s| && d == s[..|d|]
    ensures forall i :: 0 <= i < |d| ==> IsRadixDigit(d[i], hex)
    ensures |d| == |s| || !IsRadixDigit(s[|d|], hex)
  {
    if |s| > 0 && IsRadixDigit(s[0], hex) then [s[0]] + DigitPrefix(s[1..], hex) else []
  }

  /** The value of a digit string, most significant digit first. */
  function DigitsValue(d: string, hex: bool): nat
    requires forall i :: 0 <= i < |d| ==> IsRadixDigit(d[i], hex)
  {
    if |d| == 0 then 0
    else DigitsValue(d[..|d| - 1], hex) * (if hex then 16 else 10) + DigitValue(d[|d| - 1], hex)
  }

  /** The part of `s` that `parseInt` reads digits from, before any "0x" is removed. */
  function Unsigned(s: string): string {
    DropSign(TrimStart(s))
  }

  /**
   * The magnitude `parseInt` reads from its unsigned part `u`: radix 16 after
   * "0x"/"0X", radix 10 otherwise, the longest digit prefix, NaN when that
   * prefix is empty. Whatever follows the digits is ignored.
   */
  function Magnitude(u: string): (r: ParseResult)
    ensures r.NaN? <==>
      if HasHexPrefix(u) then |u| == 2 || !IsRadixDigit(u[2], true)
      else |u| == 0 || !IsDigit(u[0])
    ensures r.Num? ==> r.value >= 0
  {
    var hex := HasHexPrefix(u);
    var digits := DigitPrefix(if hex then u[2..] else u, hex);
    if |digits| == 0 then NaN else Num(DigitsValue(digits, hex))
  }

  /**
   * `parseInt(s)` with no radix: skip whitespace, take one optional sign,
   * then read the magnitude; the sign applies to it, NaN stays NaN.
   */
  function ParseInt(s: string): (r: ParseResult)
    ensures r.NaN? <==> Magnitude(Unsigned(s)).NaN?
    ensures r.Num? ==> r.value == Sign(TrimStart(s)) * Magnitude(Unsigned(s)).value
  {
    var m := Magnitude(Unsigned(s));
    if m.NaN? then NaN else Num(Sign(TrimStart(s)) * m.value)
  }

  function DigitChar(d: nat): (c: char)
    requires d < 10
    ensures IsDigit(c) && DigitValue(c, false) == d
  {
    "0123456789"[d]
  }

  /**
   * The decimal text of a non-negative integer: what `${n}` writes for
   * `n` below 10^21, the only range the form produces.
   */
  function NatToDecimal(n: nat): (s: string)
    ensures |s| >= 1
    ensures forall i :: 0 <= i < |s| ==> IsDigit(s[i])
    ensures s[0] == '0' ==> n == 0
  {
    if n < 10 then [DigitChar(n)] else NatToDecimal(n / 10) + [DigitChar(n % 10)]
  }

  /** The decimal text of any integer: a '-' before the magnitude when negative. */
  function IntToDecimal(i: int): (s: string)
    ensures |s| >= 1 && (s[0] == '-' <==> i < 0)
  {
    if i < 0 then "-" + NatToDecimal(-i) else NatToDecimal(i)
  }

  /** Reading back the digits that NatToDecimal writes gives the number. */
  lemma {:induction false} DecimalValueOfNat(n: nat)
    ensures DigitsValue(NatToDecimal(n), false) == n
  {
    if n >= 10 {
      DecimalValueOfNat(n / 10);
      var d := NatToDecimal(n);
      assert d[..|d| - 1] == NatToDecimal(n / 10);
    }
  }

  /** The digit prefix of an all-digit string followed by a non-digit is that string. */
  lemma {:induction false} DigitPrefixOfDigits(d: string, rest: string, hex: bool)
    requires forall i :: 0 <= i < |d| ==> IsRadixDigit(d[i], hex)
    requires |rest| == 0 || !IsRadixDigit(rest[0], hex)
    ensures DigitPrefix(d + rest, hex) == d
  {
    if |d| > 0 {
      DigitPrefixOfDigits(d[1..], rest, hex);
      assert (d + rest)[1..] == d[1..] + rest;
    } else {
      assert d + rest == rest;
    }
  }

  /**
   * The decimal text of a non-negative integer reads back as that integer,
   * whatever follows it, as long as the next character is not a digit (and,
   * for "0", not the 'x' that would make "0x" a hex prefix).
   */
  lemma MagnitudeOfDecimal(n: nat, rest: string)
    requires |rest| == 0 || !IsDigit(rest[0])
    requires n == 0 && |rest| > 0 ==> rest[0] != 'x' && rest[0] != 'X'
    ensures Magnitude(NatToDecimal(n) + rest) == Num(n)
  {
    var d := NatToDecimal(n);
    var u := d + rest;
    assert !HasHexPrefix(u) by {
      if n == 0 { assert d == "0"; }
    }
    DigitPrefixOfDigits(d, rest, false);
    DecimalValueOfNat(n);
  }

  /** `parseInt` reads back non-negative decimal text followed by a non-digit. */
  lemma ParseIntOfDecimal(n: nat, rest: string)
    requires |rest| == 0 || !IsDigit(rest[0])
    requires n == 0 && |rest| > 0 ==> rest[0] != 'x' && rest[0] != 'X'
    ensures ParseInt(NatToDecimal(n) + rest) == Num(n)
  {
    var s := NatToDecimal(n) + rest;
    assert s[0] == NatToDecimal(n)[0];
    ParseIntOfPlainText(s);
    MagnitudeOfDecimal(n, rest);
  }

  /** Text that starts with neither whitespace nor a sign is read as a magnitude as it is. */
  lemma ParseIntOfPlainText(s: string)
    requires |s| > 0 && !IsJsWhitespace(s[0]) && s[0] != '-' && s[0] != '+'
    ensures ParseInt(s) == Magnitude(s)
  {
    assert TrimStart(s) == s;
  }

  /** The same for negative numbers written with a leading '-'. */
  lemma ParseIntOfNegativeDecimal(n: nat, rest: string)
    requires |rest| == 0 || !IsDigit(rest[0])
    requires n == 0 && |rest| > 0 ==> rest[0] != 'x' && rest[0] != 'X'
    ensures ParseInt("-" + (NatToDecimal(n) + rest)) == Num(-(n as int))
  {
    var u := NatToDecimal(n) + rest;
    MagnitudeOfDecimal(n, rest);
    assert ("-" + u)[1..] == u;
    ParseIntOfMinus("-" + u, n);
  }

  /** Text that starts with '-' followed by a magnitude `m` is read as -m. */
  lemma ParseIntOfMinus(s: string, m: nat)
    requires |s| > 0 && s[0] == '-' && Magnitude(s[1..]) == Num(m)
    ensures ParseInt(s) == Num(-(m as int))
  {
    assert !IsJsWhitespace(s[0]);
    assert TrimStart(s) == s;
  }

  lemma MagnitudeOfNat(n: nat)
    ensures Magnitude(NatToDecimal(n)) == Num(n)
  {
    MagnitudeOfDecimal(n, "");
    assert NatToDecimal(n) + "" == NatToDecimal(n);
  }

  /** `parseInt` is a left inverse of integer-to-decimal rendering. */
  lemma ParseIntOfIntToDecimal(i: int)
    ensures ParseInt(IntToDecimal(i)) == Num(i)
  {
    var s := IntToDecimal(i);
    if i < 0 {
      var d := NatToDecimal(-i);
      assert s == "-" + d;
      assert TrimStart(s) == s;
      assert Sign(s) == -1 && Unsigned(s) == d;
      MagnitudeOfNat(-i);
    } else {
      assert s[0] == NatToDecimal(i)[0];
      ParseIntOfPlainText(s);
      MagnitudeOfNat(i);
    }
  }

  /** Leading whitespace does not change what `parseInt` reads. */
  lemma {:induction false} ParseIntSkipsWhitespace(ws: string, s: string)
    requires forall i :: 0 <= i < |ws| ==> IsJsWhitespace(ws[i])
    ensures ParseInt(ws + s) == ParseInt(s)
  {
    TrimStartSkipsWhitespace(ws, s);
  }

  lemma {:induction false} TrimStartSkipsWhitespace(ws: string, s: string)
    requires forall i :: 0 <= i < |ws| ==> IsJsWhitespace(ws[i])
    ensures TrimStart(ws + s) == TrimStart(s)
  {
    if |ws| == 0 {
      assert ws + s == s;
    } else {
      assert (ws + s)[1..] == ws[1..] + s;
      TrimStartSkipsWhitespace(ws[1..], s);
    }
  }

  /** Sample: leading whitespace and trailing text are skipped. */
  lemma ParseIntSkipsSurroundingText()
    ensures ParseInt(" 12abc") == Num(12)
  {
    assert " 12abc" == " " + ("12" + "abc");
    assert NatToDecimal(12) == "12";
    ParseIntSkipsWhitespace(" ", "12abc");
    ParseIntOfDecimal(12, "abc");
  }

  /** Sample: a decimal point ends the digits. */
  lemma ParseIntStopsAtPoint()
    ensures ParseInt("3.7") == Num(3)
  {
    assert "3.7" == "3" + ".7";
    assert NatToDecimal(3) == "3";
    ParseIntOfDecimal(3, ".7");
  }

  /** Sample: a leading '-' negates. */
  lemma ParseIntNegative()
    ensures ParseInt("-4") == Num(-4)
  {
    assert "-4" == "-" + ("4" + "");
    assert NatToDecimal(4) == "4";
    ParseIntOfNegativeDecimal(4, "");
  }

  /** Sample: "0x" switches to radix 16. */
  lemma ParseIntHexExample()
    ensures ParseInt("0x1A") == Num(26)
  {
    ParseIntOfPlainText("0x1A");
    assert "0x1A"[2..] == "1A";
    assert DigitPrefix("1A", true) == "1A" by {
      DigitPrefixOfDigits("1A", "", true);
      assert "1A" + "" == "1A";
    }
    assert DigitsValue("1A", true) == 26 by {
      assert "1A"[..1] == "1";
      assert "1"[..0] == "";
    }
  }

  /** Samples: no digit where one is expected gives NaN. */
  lemma ParseIntEmptyIsNaN()
    ensures ParseInt("") == NaN
  {
  }

  lemma ParseIntSignOnlyIsNaN()
    ensures ParseInt("-") == NaN
  {
    assert TrimStart("-") == "-";
    assert Unsigned("-") == "";
  }

  lemma ParseIntBareHexPrefixIsNaN()
    ensures ParseInt("0x") == NaN
  {
    ParseIntOfPlainText("0x");
  }

  lemma ParseIntWordIsNaN()
    ensures ParseInt("two") == NaN
  {
    ParseIntOfPlainText("two");
    assert !IsDigit("two"[0]);
  }
}
