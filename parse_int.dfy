/** JavaScript's `parseInt(string)` with no radix argument (section 19.2.5
    of ECMA-262): skip leading white space, take an optional sign, read a
    hexadecimal number after "0x" or "0X" and a decimal one otherwise, and
    stop at the first character that is not a digit. No digit at all gives
    `NaN`, written `None` here. */
module JsNumber {
  import opened StockTypes

  /** WhiteSpace and LineTerminator code points of ECMA-262 (sections 12.2
      and 12.3), the characters `parseInt` skips before the number. */
  predicate IsWhiteSpace(c: char)
  {
    || c == '\t' || c == '\n' || c == '\U{000B}' || c == '\U{000C}' || c == '\r'
    || c == ' ' || c == '\U{00A0}' || c == '\U{1680}'
    || ('\U{2000}' <= c <= '\U{200A}')
    || c == '\U{2028}' || c == '\U{2029}' || c == '\U{202F}' || c == '\U{205F}'
    || c == '\U{3000}' || c == '\U{FEFF}'
  }

  /** The value of `c` as a digit of radix up to 36 (section 19.2.5 of
      ECMA-262): '0'..'9' are 0..9, 'a'..'z' and 'A'..'Z' are 10..35, and
      any other character is 36, no digit at all. */
  function DigitValue(c: char): (d: nat)
    ensures d <= 36
    ensures d < 10 ==> c as int == '0' as int + d
    ensures 10 <= d < 36 ==> c as int == 'a' as int + (d - 10) || c as int == 'A' as int + (d - 10)
    ensures d == 36 <==> !('0' <= c <= '9' || 'a' <= c <= 'z' || 'A' <= c <= 'Z')
    ensures d < 10 <==> '0' <= c <= '9'
  {
    if '0' <= c <= '9' then c as int - '0' as int
    else if 'a' <= c <= 'z' then c as int - 'a' as int + 10
    else if 'A' <= c <= 'Z' then c as int - 'A' as int + 10
    else 36
  }

  lemma ExampleDigits()
    ensures DigitValue('7') == 7 && DigitValue('f') == 15 && DigitValue('F') == 15
    ensures DigitValue('z') == 35 && DigitValue('.') == 36
  {
  }

  predicate AllDigits(s: string, radix: nat)
  {
    forall i :: 0 <= i < |s| ==> DigitValue(s[i]) < radix
  }

  predicate AllWhiteSpace(s: string)
  {
    forall i :: 0 <= i < |s| ==> IsWhiteSpace(s[i])
  }

  /** The string with its leading white space removed. */
  function TrimStart(s: string): string
  {
    if |s| > 0 && IsWhiteSpace(s[0]) then TrimStart(s[1..]) else s
  }

  /** TrimStart removes a white-space prefix and exactly that: what is left
      is a suffix of the input that does not start with white space. */
  lemma {:induction false} TrimStartRemovesWhiteSpace(s: string)
    ensures var r := TrimStart(s);
      && |r| <= |s| && r == s[|s| - |r|..]
      && AllWhiteSpace(s[..|s| - |r|])
      && (|r| > 0 ==> !IsWhiteSpace(r[0]))
  {
    if |s| > 0 && IsWhiteSpace(s[0]) {
      TrimStartRemovesWhiteSpace(s[1..]);
      var r := TrimStart(s);
      assert s[..|s| - |r|] == [s[0]] + s[1..][..|s| - 1 - |r|];
    }
  }

  /** The longest prefix of `s` made of digits of the given radix. */
  function DigitPrefix(s: string, radix: nat): string
  {
    if |s| > 0 && DigitValue(s[0]) < radix then [s[0]] + DigitPrefix(s[1..], radix) else ""
  }

  /** DigitPrefix is a prefix of its input made of digits, and the next
      character, if any, is not a digit: it is the longest such prefix. */
  lemma {:induction false} DigitPrefixIsLongest(s: string, radix: nat)
    ensures var z := DigitPrefix(s, radix);
      && z <= s
      && AllDigits(z, radix)
      && (|z| < |s| ==> DigitValue(s[|z|]) >= radix)
  {
    if |s| > 0 && DigitValue(s[0]) < radix {
      DigitPrefixIsLongest(s[1..], radix);
    }
  }

  function Pow(base: nat, e: nat): (p: nat)
    ensures base > 0 ==> p > 0
  {
    if e == 0 then 1 else base * Pow(base, e - 1)
  }

  /** The number the digits of `z` denote in the given radix, most
      significant digit first. */
  function Value(z: string, radix: nat): nat
  {
    if |z| == 0 then 0 else DigitValue(z[0]) * Pow(radix, |z| - 1) + Value(z[1..], radix)
  }

  /** The digits at the start of `v` in the given radix, or `None` when
      there are none. */
  function ReadDigits(v: string, radix: nat): Option<nat>
  {
    var z := DigitPrefix(v, radix);
    if |z| == 0 then None else Some(Value(z, radix))
  }

  /** The number after the sign: hexadecimal after "0x" or "0X", decimal
      otherwise. */
  function ParseMagnitude(u: string): Option<nat>
  {
    if |u| >= 2 && u[0] == '0' && (u[1] == 'x' || u[1] == 'X') then ReadDigits(u[2..], 16)
    else ReadDigits(u, 10)
  }

  function ParseInt(s: string): Option<int>
  {
    var t := TrimStart(s);
    var negative := |t| > 0 && t[0] == '-';
    var magnitude := ParseMagnitude(if |t| > 0 && (t[0] == '-' || t[0] == '+') then t[1..] else t);
    match magnitude
    case None => None
    case Some(m) => if negative then Some(-(m as int)) else Some(m)
  }

  /** A signed value as `parseInt` builds it from a sign and a magnitude. */
  function Signed(sign: string, m: nat): int
  {
    if sign == "-" then -(m as int) else m
  }

  // ---------------------------------------------------------------------
  // What `parseInt` returns for the shapes of text it meets

  lemma {:induction false} MulLeft(a: nat, b: nat, p: nat)
    requires a <= b
    ensures a * p <= b * p
  {
  }

  /** A smaller leading digit gives a smaller number, whatever follows. */
  lemma LeadingDigitDecides(da: nat, db: nat, p: nat, va: nat, vb: nat)
    requires da < db && va < p
    ensures da * p + va < db * p + vb
  {
    MulLeft(da + 1, db, p);
    assert (da + 1) * p == da * p + p;
  }

  /** A string of n digits denotes less than radix^n. */
  lemma {:induction false} ValueBound(z: string, radix: nat)
    requires radix > 0 && AllDigits(z, radix)
    ensures Value(z, radix) < Pow(radix, |z|)
  {
    if |z| > 0 {
      ValueBound(z[1..], radix);
      LeadingDigitDecides(DigitValue(z[0]), radix, Pow(radix, |z| - 1), Value(z[1..], radix), 0);
    }
  }

  lemma {:induction false} TrimStartSkipsWhiteSpace(w: string, x: string)
    requires AllWhiteSpace(w)
    requires |x| == 0 || !IsWhiteSpace(x[0])
    ensures TrimStart(w + x) == x
  {
    if |w| == 0 {
      assert w + x == x;
    } else {
      assert (w + x)[1..] == w[1..] + x;
      TrimStartSkipsWhiteSpace(w[1..], x);
    }
  }

  lemma {:induction false} DigitPrefixStopsAt(d: string, rest: string, radix: nat)
    requires AllDigits(d, radix)
    requires |rest| == 0 || DigitValue(rest[0]) >= radix
    ensures DigitPrefix(d + rest, radix) == d
  {
    if |d| == 0 {
      assert d + rest == rest;
    } else {
      assert (d + rest)[1..] == d[1..] + rest;
      DigitPrefixStopsAt(d[1..], rest, radix);
    }
  }

  /** After white space and a sign, `parseInt` reads the magnitude and
      applies the sign. */
  lemma ParseSigned(w: string, sign: string, u: string)
    requires AllWhiteSpace(w)
    requires sign == "" || sign == "+" || sign == "-"
    requires sign == "" && |u| > 0 ==> !IsWhiteSpace(u[0]) && u[0] != '+' && u[0] != '-'
    ensures ParseInt(w + sign + u) == match ParseMagnitude(u)
                                      case None => None
                                      case Some(m) => Some(Signed(sign, m))
  {
    var t := sign + u;
    assert w + sign + u == w + t;
    if sign != "" {
      assert t[0] == sign[0] && t[1..] == u;
    } else {
      assert t == u;
    }
    TrimStartSkipsWhiteSpace(w, t);
  }

  /** Decimal digits followed by anything that is not a digit: the digits
      are read in base 10 and the rest is ignored, unless the digits are a
      lone "0" followed by 'x' or 'X', which starts a hexadecimal number. */
  lemma ReadDecimal(d: string, rest: string)
    requires |d| > 0 && AllDigits(d, 10)
    requires |rest| == 0 || DigitValue(rest[0]) >= 10
    requires d != "0" || |rest| == 0 || (rest[0] != 'x' && rest[0] != 'X')
    ensures ParseMagnitude(d + rest) == Some(Value(d, 10))
  {
    NotHexPrefix(d, rest);
    DigitPrefixStopsAt(d, rest, 10);
  }

  lemma NotHexPrefix(d: string, rest: string)
    requires |d| > 0 && AllDigits(d, 10)
    requires d != "0" || |rest| == 0 || (rest[0] != 'x' && rest[0] != 'X')
    ensures var u := d + rest; !(|u| >= 2 && u[0] == '0' && (u[1] == 'x' || u[1] == 'X'))
  {
    var u := d + rest;
    if |u| >= 2 && u[0] == '0' {
      if |d| >= 2 {
        assert u[1] == d[1];
        assert DigitValue(d[1]) < 10;
      } else {
        assert d == [d[0]] && u[1] == rest[0];
      }
    }
  }

  /** Text of the form white space, optional sign, decimal digits, then
      anything that is not a digit and does not turn a lone "0" into a
      hexadecimal prefix. */
  lemma ParseDecimal(w: string, sign: string, d: string, rest: string)
    requires AllWhiteSpace(w)
    requires sign == "" || sign == "+" || sign == "-"
    requires |d| > 0 && AllDigits(d, 10)
    requires |rest| == 0 || DigitValue(rest[0]) >= 10
    requires d != "0" || |rest| == 0 || (rest[0] != 'x' && rest[0] != 'X')
    ensures ParseInt(w + sign + d + rest) == Some(Signed(sign, Value(d, 10)))
  {
    assert w + sign + d + rest == w + sign + (d + rest);
    assert (d + rest)[0] == d[0];
    ParseSigned(w, sign, d + rest);
    ReadDecimal(d, rest);
  }

  /** "0x" or "0X" followed by hexadecimal digits and then anything that is
      not one: the digits are read in base 16 (none at all is `NaN`). */
  lemma ReadHex(u: string, h: string, rest: string)
    requires |u| >= 2 && u[0] == '0' && (u[1] == 'x' || u[1] == 'X')
    requires u[2..] == h + rest
    requires AllDigits(h, 16)
    requires |rest| == 0 || DigitValue(rest[0]) >= 16
    ensures ParseMagnitude(u) == if |h| == 0 then None else Some(Value(h, 16))
  {
    DigitPrefixStopsAt(h, rest, 16);
  }

  /** Where "0x" starts the text, the digits follow it. Kept apart from
      `ParseHex` so that its sequence reasoning does not meet `ParseInt`'s. */
  lemma HexShape(prefix: string, h: string, rest: string)
    requires prefix == "0x" || prefix == "0X"
    ensures var u := prefix + h + rest;
      |u| >= 2 && u[0] == '0' && (u[1] == 'x' || u[1] == 'X') && u[2..] == h + rest
  {
  }

  lemma RegroupHex(w: string, sign: string, prefix: string, h: string, rest: string)
    ensures w + sign + prefix + h + rest == w + sign + (prefix + h + rest)
  {
  }

  /** Text of the form white space, optional sign, "0x" or "0X", hexadecimal
      digits, then anything that is not one: read in base 16. */
  lemma ParseHex(w: string, sign: string, prefix: string, h: string, rest: string)
    requires AllWhiteSpace(w)
    requires sign == "" || sign == "+" || sign == "-"
    requires prefix == "0x" || prefix == "0X"
    requires AllDigits(h, 16)
    requires |rest| == 0 || DigitValue(rest[0]) >= 16
    ensures ParseInt(w + sign + prefix + h + rest) == if |h| == 0 then None else Some(Signed(sign, Value(h, 16)))
  {
    var u := prefix + h + rest;
    HexShape(prefix, h, rest);
    RegroupHex(w, sign, prefix, h, rest);
    ParseSigned(w, sign, u);
    ReadHex(u, h, rest);
  }

  /** Text with no digit where the number should start is `NaN`. */
  lemma ParseNaN(w: string, sign: string, rest: string)
    requires AllWhiteSpace(w)
    requires sign == "" || sign == "+" || sign == "-"
    requires |rest| == 0 || DigitValue(rest[0]) >= 10
    requires sign == "" && |rest| > 0 ==> !IsWhiteSpace(rest[0]) && rest[0] != '+' && rest[0] != '-'
    ensures ParseInt(w + sign + rest) == None
  {
    ParseSigned(w, sign, rest);
    if |rest| > 0 {
      assert DigitValue(rest[0]) >= 10;
    }
  }

  // ---------------------------------------------------------------------
  // Truncation: a decimal price with a fractional part loses it

  /** The integer part of a real number, rounding toward zero. */
  function Truncate(x: real): int
  {
    if x >= 0.0 then x.Floor else -((-x).Floor)
  }

  /** The number that `sign digits . fraction` denotes. */
  function DecimalNumber(negative: bool, d: string, fraction: string): real
  {
    var magnitude := Value(d, 10) as real + Value(fraction, 10) as real / Pow(10, |fraction|) as real;
    if negative then -magnitude else magnitude
  }

  lemma RatioBelowOne(v: real, p: real)
    requires 0.0 <= v < p
    ensures 0.0 <= v / p < 1.0
  {
  }

  lemma FractionBelowOne(fraction: string)
    requires AllDigits(fraction, 10)
    ensures 0.0 <= Value(fraction, 10) as real / Pow(10, |fraction|) as real < 1.0
  {
    ValueBound(fraction, 10);
    RatioBelowOne(Value(fraction, 10) as real, Pow(10, |fraction|) as real);
  }

  /** Truncating `sign digits . fraction` toward zero keeps the signed
      integer part. */
  lemma TruncateKeepsIntegerPart(negative: bool, d: string, fraction: string)
    requires AllDigits(fraction, 10)
    ensures Truncate(DecimalNumber(negative, d, fraction)) == if negative then -(Value(d, 10) as int) else Value(d, 10)
  {
    FractionBelowOne(fraction);
    var f := Value(fraction, 10) as real / Pow(10, |fraction|) as real;
    FloorOfFraction(Value(d, 10), f);
  }

  lemma FloorOfFraction(n: nat, f: real)
    requires 0.0 <= f < 1.0
    ensures (n as real + f).Floor == n
  {
  }

  lemma RegroupFraction(sign: string, d: string, rest: string, fraction: string)
    requires rest == "." + fraction
    ensures sign + d + "." + fraction == "" + sign + d + rest
  {
  }

  /** Digits, a '.', and a fraction: the fraction is ignored. */
  lemma ParseFractional(sign: string, d: string, fraction: string)
    requires sign == "" || sign == "+" || sign == "-"
    requires |d| > 0 && AllDigits(d, 10)
    ensures ParseInt(sign + d + "." + fraction) == Some(Signed(sign, Value(d, 10)))
  {
    var rest := "." + fraction;
    RegroupFraction(sign, d, rest, fraction);
    ParseDecimal("", sign, d, rest);
  }

  /** A price written as decimal text with a fractional part parses to that
      number truncated toward zero, never rounded: "50000.7" gives 50000 and
      "-1.9" gives -1. */
  lemma ParseTruncates(sign: string, d: string, fraction: string)
    requires sign == "" || sign == "+" || sign == "-"
    requires |d| > 0 && AllDigits(d, 10) && AllDigits(fraction, 10)
    ensures ParseInt(sign + d + "." + fraction) == Some(Truncate(DecimalNumber(sign == "-", d, fraction)))
  {
    ParseFractional(sign, d, fraction);
    TruncateKeepsIntegerPart(sign == "-", d, fraction);
  }

  /** A digit followed only by zeros is that digit times a power of the
      radix. */
  lemma {:induction false} LeadingDigitThenZeros(z: string, radix: nat)
    requires |z| > 0 && forall i :: 1 <= i < |z| ==> z[i] == '0'
    ensures Value(z, radix) == DigitValue(z[0]) * Pow(radix, |z| - 1)
  {
    ZerosValue(z[1..], radix);
  }

  lemma {:induction false} ZerosValue(z: string, radix: nat)
    requires forall i :: 0 <= i < |z| ==> z[i] == '0'
    ensures Value(z, radix) == 0
  {
    if |z| > 0 {
      ZerosValue(z[1..], radix);
    }
  }

  lemma ExampleWholePrice()
    ensures ParseInt("50000") == Some(50000)
  {
    var d := "50000";
    assert Value(d, 10) == 50000 by {
      LeadingDigitThenZeros(d, 10);
    }
    assert "" + "" + d + "" == "50000";
    ParseDecimal("", "", d, "");
  }

  lemma ExampleFractionalPrice()
    ensures ParseInt("50000.7") == Some(50000)
  {
    var d, f := "50000", "7";
    assert Value(d, 10) == 50000 by {
      LeadingDigitThenZeros(d, 10);
    }
    assert "" + d + "." + f == "50000.7";
    ParseFractional("", d, f);
  }

  lemma ExampleNegativePrice()
    ensures ParseInt("-1200") == Some(-1200)
  {
    var d := "1200";
    assert Value(d, 10) == 1200 by {
      assert d[1..] == "200";
      LeadingDigitThenZeros(d[1..], 10);
    }
    assert "" + "-" + d + "" == "-1200";
    ParseDecimal("", "-", d, "");
  }

  lemma ExampleSpacedPrice()
    ensures ParseInt(" +70100") == Some(70100)
  {
    var d := "70100";
    assert Value(d, 10) == 70100 by {
      assert d[1..] == "0100" && d[2..] == "100";
      LeadingDigitThenZeros(d[2..], 10);
    }
    assert " " + "+" + d + "" == " +70100";
    ParseDecimal(" ", "+", d, "");
  }

  lemma ExampleHexPrice()
    ensures ParseInt("0x1F") == Some(31)
  {
    var h := "1F";
    assert AllDigits(h, 16) && Value(h, 16) == 31 by {
      assert DigitValue(h[0]) == 1 && DigitValue(h[1]) == 15;
      assert h[1..] == "F" && h[1..][1..] == "";
    }
    assert "" + "" + "0x" + h + "" == "0x1F";
    ParseHex("", "", "0x", h, "");
  }

  lemma ExampleNaN()
    ensures ParseInt("abc") == None
  {
    var t := "abc";
    assert "" + "" + t == "abc";
    ParseNaN("", "", t);
  }
}
