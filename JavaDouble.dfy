/** `Double.parseDouble` as the alert check uses it, on exact reals.

    The accepted text follows the decimal part of Java's grammar: surrounding
    characters up to U+0020 are trimmed away, then an optional sign, then
    `NaN`, `Infinity`, or digits with an optional fraction (at least one digit
    in all), an optional exponent and an optional type suffix `f`, `F`, `d` or
    `D`. Anything else is a `NumberFormatException`, here `ParseFail`. The
    value is the exact decimal value, not the nearest `double`. */
module JavaDouble {
  import opened Wrappers

  /** What `Double.parseDouble` yields: an exception, NaN, an infinity, or a
      finite number. */
  datatype ParsedDouble = ParseFail | NaN | Infinite(negative: bool) | Num(value: real)

  predicate IsDigit(c: char) { '0' <= c <= '9' }

  predicate AllDigits(s: string) { forall k :: 0 <= k < |s| ==> IsDigit(s[k]) }

  /** Java's `String.trim` treats every character up to U+0020 as blank. */
  predicate IsBlank(c: char) { c <= ' ' }

  /** The value of a string of decimal digits, most significant first. */
  function DigitsValue(ds: string): nat
    requires AllDigits(ds)
  {
    if ds == [] then 0
    else DigitsValue(ds[..|ds| - 1]) * 10 + (ds[|ds| - 1] as int - '0' as int)
  }

  /** The length of the run of digits that `s` starts with. */
  function LeadingDigits(s: string): (n: nat)
    ensures n <= |s|
    ensures forall k :: 0 <= k < n ==> IsDigit(s[k])
    ensures n < |s| ==> !IsDigit(s[n])
  {
    if s != [] && IsDigit(s[0]) then 1 + LeadingDigits(s[1..]) else 0
  }

  function Pow10(n: nat): (p: nat)
    ensures p >= 1
  {
    if n == 0 then 1 else 10 * Pow10(n - 1)
  }

  /** Ten to the power `e`, for an exponent of either sign. */
  function Scale(e: int): (r: real)
    ensures r > 0.0
  {
    if e >= 0 then Pow10(e) as real else 1.0 / (Pow10(-e) as real)
  }

  /** The number of blanks `s` starts with. */
  function LeadingBlanks(s: string): (n: nat)
    ensures n <= |s|
    ensures forall k :: 0 <= k < n ==> IsBlank(s[k])
    ensures n < |s| ==> !IsBlank(s[n])
  {
    if s != [] && IsBlank(s[0]) then 1 + LeadingBlanks(s[1..]) else 0
  }

  /** The number of blanks `s` ends with. */
  function TrailingBlanks(s: string): (n: nat)
    ensures n <= |s|
    ensures forall k :: |s| - n <= k < |s| ==> IsBlank(s[k])
    ensures n < |s| ==> !IsBlank(s[|s| - 1 - n])
  {
    if s != [] && IsBlank(s[|s| - 1]) then 1 + TrailingBlanks(s[..|s| - 1]) else 0
  }

  /** Java's `String.trim`: `s` without its leading and trailing blanks. */
  function Trim(s: string): (t: string)
    ensures t == [] || (!IsBlank(t[0]) && !IsBlank(t[|t| - 1]))
    ensures s != [] && !IsBlank(s[0]) && !IsBlank(s[|s| - 1]) ==> t == s
  {
    var lo := LeadingBlanks(s);
    var rest := s[lo..];
    s[lo..|s| - TrailingBlanks(rest)]
  }

  /** What `Trim` removes: the result is the slice of `s` between a run of
      blanks at its start and a run of blanks at its end. */
  lemma TrimSpec(s: string)
    ensures LeadingBlanks(s) + |Trim(s)| <= |s|
    ensures Trim(s) == s[LeadingBlanks(s)..LeadingBlanks(s) + |Trim(s)|]
    ensures forall k :: 0 <= k < LeadingBlanks(s) ==> IsBlank(s[k])
    ensures forall k :: LeadingBlanks(s) + |Trim(s)| <= k < |s| ==> IsBlank(s[k])
  {
    var lo := LeadingBlanks(s);
    var rest := s[lo..];
    var n := TrailingBlanks(rest);
    assert Trim(s) == s[lo..|s| - n];
    forall k | |s| - n <= k < |s| ensures IsBlank(s[k]) {
      assert s[k] == rest[k - lo];
    }
  }

  predicate IsTypeSuffix(c: char) { c == 'f' || c == 'F' || c == 'd' || c == 'D' }

  /** The end of a number after its digits: nothing, or a type suffix, or an
      exponent with at least one digit and then an optional type suffix. The
      result is the decimal exponent, `None` for anything else. */
  function ParseExponent(tail: string): Option<int>
  {
    if tail == [] then Some(0)
    else if |tail| == 1 && IsTypeSuffix(tail[0]) then Some(0)
    else if tail[0] == 'e' || tail[0] == 'E' then
      var t := tail[1..];
      var negative := t != [] && t[0] == '-';
      var u := if t != [] && (t[0] == '-' || t[0] == '+') then t[1..] else t;
      var n := LeadingDigits(u);
      var rest := u[n..];
      var m: int := if n == 0 then 0 else DigitsValue(u[..n]);
      if n == 0 then None
      else if rest == [] || (|rest| == 1 && IsTypeSuffix(rest[0])) then
        Some(if negative then -m else m)
      else None
    else None
  }

  /** The value of a number with digits `m`, of which the last `f` follow
      the decimal point, and decimal exponent `e`. */
  function DecimalValue(m: nat, f: nat, e: int): real
  {
    m as real / Pow10(f) as real * Scale(e)
  }

  /** Without an exponent the value is the digits over ten to the number of
      fraction digits. */
  lemma DecimalValueNoExponent(m: nat, f: nat)
    ensures DecimalValue(m, f, 0) == m as real / Pow10(f) as real
  {
    assert Scale(0) == 1.0;
  }

  /** An unsigned decimal number: integer digits, an optional `.` and
      fraction digits, at least one digit in all, then `ParseExponent`. */
  function ParseUnsigned(u: string): Option<real>
  {
    var i := LeadingDigits(u);
    ParseAfterInteger(u[..i], u[i..])
  }

  /** The rest of an unsigned number after its integer digits `ip`. */
  function ParseAfterInteger(ip: string, rest: string): Option<real>
    requires AllDigits(ip)
  {
    if rest != [] && rest[0] == '.' then
      var afterDot := rest[1..];
      var f := LeadingDigits(afterDot);
      var digits := ip + afterDot[..f];
      assert AllDigits(digits) by {
        forall k | 0 <= k < |digits| ensures IsDigit(digits[k]) {
          if k < |ip| { assert digits[k] == ip[k]; } else { assert digits[k] == afterDot[k - |ip|]; }
        }
      }
      ParseMantissaEnd(digits, f, afterDot[f..])
    else ParseMantissaEnd(ip, 0, rest)
  }

  /** All the digits of the number, `f` of them after the point, followed by
      `tail`: there must be a digit, and `tail` must be a valid end. */
  function ParseMantissaEnd(digits: string, f: nat, tail: string): Option<real>
    requires AllDigits(digits)
  {
    if digits == [] then None
    else match ParseExponent(tail)
      case None => None
      case Some(e) => Some(DecimalValue(DigitsValue(digits), f, e))
  }

  /** The value after a minus sign: NaN stays NaN. */
  function Negate(d: ParsedDouble): ParsedDouble
  {
    match d
    case Num(v) => Num(-v)
    case Infinite(negative) => Infinite(!negative)
    case _ => d
  }

  /** The text after the sign: `NaN`, `Infinity` or an unsigned number. */
  function ParseWord(u: string): ParsedDouble
  {
    if u == "NaN" then NaN
    else if u == "Infinity" then Infinite(false)
    else match ParseUnsigned(u)
      case None => ParseFail
      case Some(v) => Num(v)
  }

  /** `Double.parseDouble(s)`. */
  function ParseDouble(s: string): ParsedDouble
  {
    var t := Trim(s);
    if t == [] then ParseFail
    else if t[0] == '-' then Negate(ParseWord(t[1..]))
    else if t[0] == '+' then ParseWord(t[1..])
    else ParseWord(t)
  }

  /** The trimmed text without its one optional leading sign. */
  function Unsigned(t: string): (u: string)
    ensures |u| <= |t|
    ensures t != [] && (t[0] == '-' || t[0] == '+') ==> t == [t[0]] + u
  {
    if t != [] && (t[0] == '-' || t[0] == '+') then t[1..] else t
  }

  /** Blank text throws; NaN and the infinities come only from those words
      after trimming and one optional sign, and an infinity is negative
      exactly when the sign is a minus. */
  lemma {:induction false} ParseDoubleKinds(s: string)
    ensures Trim(s) == [] ==> ParseDouble(s) == ParseFail
    ensures ParseDouble(s).NaN? <==> Trim(s) != [] && Unsigned(Trim(s)) == "NaN"
    ensures ParseDouble(s).Infinite? <==> Trim(s) != [] && Unsigned(Trim(s)) == "Infinity"
    ensures ParseDouble(s).Infinite? ==> (ParseDouble(s).negative <==> Trim(s)[0] == '-')
  {
    var t := Trim(s);
    if t != [] {
      WordKinds(Unsigned(t));
    }
  }

  /** The word after the sign: NaN and Infinity are the only special words,
      and the infinity they give is positive. */
  lemma WordKinds(u: string)
    ensures ParseWord(u).NaN? <==> u == "NaN"
    ensures ParseWord(u).Infinite? <==> u == "Infinity"
    ensures ParseWord(u).Infinite? ==> !ParseWord(u).negative
  {
  }


  /** The decimal text of a natural number, as `Integer.toString` writes it. */
  function NatText(n: nat): (s: string)
    ensures s != [] && AllDigits(s)
  {
    var d := [('0' as int + n % 10) as char];
    if n < 10 then d else NatText(n / 10) + d
  }

  /** Reading the digits of a number gives back the number. */
  lemma {:induction false} DigitsValueOfNatText(n: nat)
    ensures DigitsValue(NatText(n)) == n
    decreases n
  {
    var s := NatText(n);
    if n >= 10 {
      DigitsValueOfNatText(n / 10);
      assert s[..|s| - 1] == NatText(n / 10);
    }
  }

  /** A run of digits followed by a non-digit (or by nothing) is exactly the
      leading digits. */
  lemma LeadingDigitsOfDigits(a: string, x: string)
    requires AllDigits(a)
    requires x == [] || !IsDigit(x[0])
    ensures LeadingDigits(a + x) == |a|
  {
    var s := a + x;
    assert forall k :: 0 <= k < |a| ==> s[k] == a[k];
    if x != [] {
      assert s[|a|] == x[0];
    }
  }

  /** After a run of digits that ends the integer part, `ParseUnsigned`
      goes on with the rest. */
  lemma UnsignedAfterDigits(a: string, rest: string)
    requires AllDigits(a)
    requires rest == [] || !IsDigit(rest[0])
    ensures ParseUnsigned(a + rest) == ParseAfterInteger(a, rest)
  {
    var u := a + rest;
    LeadingDigitsOfDigits(a, rest);
    assert u[..|a|] == a && u[|a|..] == rest;
  }

  /** A point followed by digits and nothing else makes those digits the
      fraction. */
  lemma FractionDigits(a: string, b: string)
    requires AllDigits(a) && AllDigits(b)
    ensures ParseAfterInteger(a, "." + b) == ParseMantissaEnd(a + b, |b|, [])
  {
    assert ("." + b)[1..] == b;
    assert LeadingDigits(b) == |b| by {
      LeadingDigitsOfDigits(b, "");
      assert b + "" == b;
    }
    assert b[..|b|] == b && b[|b|..] == [];
  }

  /** Digits with nothing after them have their plain decimal value. */
  lemma MantissaWithoutExponent(digits: string, f: nat)
    requires AllDigits(digits) && digits != []
    ensures ParseMantissaEnd(digits, f, []) == Some(DigitsValue(digits) as real / Pow10(f) as real)
  {
    DecimalValueNoExponent(DigitsValue(digits), f);
  }

  /** Digits with a fraction and no exponent parse to their exact decimal
      value. */
  lemma ParseFraction(a: string, b: string)
    requires AllDigits(a) && AllDigits(b) && |a| + |b| > 0
    ensures ParseUnsigned(a + "." + b) == Some(DigitsValue(a + b) as real / Pow10(|b|) as real)
  {
    assert a + "." + b == a + ("." + b);
    UnsignedAfterDigits(a, "." + b);
    FractionDigits(a, b);
    assert AllDigits(a + b) by {
      forall k | 0 <= k < |a + b| ensures IsDigit((a + b)[k]) {
        if k < |a| { assert (a + b)[k] == a[k]; } else { assert (a + b)[k] == b[k - |a|]; }
      }
    }
    MantissaWithoutExponent(a + b, |b|);
  }

  /** Digits alone parse to their value. */
  lemma ParseDigits(a: string)
    requires AllDigits(a) && a != []
    ensures ParseUnsigned(a) == Some(DigitsValue(a) as real)
  {
    UnsignedAfterDigits(a, "");
    assert a + "" == a;
    assert ParseAfterInteger(a, []) == ParseMantissaEnd(a, 0, []);
    MantissaWithoutExponent(a, 0);
  }

  /** The text of a whole number, with or without a minus sign, parses to that
      number. */
  lemma ParseWholeNumber(n: nat, negative: bool)
    ensures ParseDouble((if negative then "-" else "") + NatText(n)) == Num(if negative then -(n as real) else n as real)
  {
    var s := NatText(n);
    ParseDigits(s);
    DigitsValueOfNatText(n);
    assert IsDigit(s[0]) && IsDigit(s[|s| - 1]);
    ParseSigned(s, n as real, negative);
  }

  /** Unsigned number text that starts with neither special word is read by
      `ParseUnsigned`. */
  lemma ParseWordNumber(u: string, v: real)
    requires u != [] && u[0] != 'N' && u[0] != 'I'
    requires ParseUnsigned(u) == Some(v)
    ensures ParseWord(u) == Num(v)
  {
    assert u != "NaN" && u != "Infinity" by {
      assert "NaN"[0] == 'N' && "Infinity"[0] == 'I';
    }
  }

  /** Trimmed text without a sign is read as its word. */
  lemma ParsePlainText(u: string)
    requires u != [] && !IsBlank(u[0]) && !IsBlank(u[|u| - 1])
    requires u[0] != '-' && u[0] != '+'
    ensures ParseDouble(u) == ParseWord(u)
  {
    assert Trim(u) == u;
  }

  /** A minus sign on trimmed, unsigned text negates its word. */
  lemma ParseMinusText(u: string)
    requires u != [] && !IsBlank(u[|u| - 1])
    ensures ParseDouble("-" + u) == Negate(ParseWord(u))
  {
    var t := "-" + u;
    assert t[0] == '-' && t[|t| - 1] == u[|u| - 1];
    assert Trim(t) == t;
    assert t[1..] == u;
  }

  /** Unsigned text that is neither special word reads as `ParseUnsigned`
      says, negated after a minus sign. */
  lemma {:induction false} ParseSigned(u: string, v: real, negative: bool)
    requires u != [] && !IsBlank(u[0]) && !IsBlank(u[|u| - 1])
    requires u[0] != '-' && u[0] != '+' && u[0] != 'N' && u[0] != 'I'
    requires ParseUnsigned(u) == Some(v)
    ensures ParseDouble((if negative then "-" else "") + u) == Num(if negative then -v else v)
  {
    ParseWordNumber(u, v);
    SignedWordValue(u, Num(v), negative);
    NegateNum(v);
  }

  /** Trimmed text whose unsigned word reads as `w`, signed by at most a
      leading minus, reads as `w`, negated after the minus. */
  lemma {:induction false} SignedWordValue(u: string, w: ParsedDouble, negative: bool)
    requires u != [] && !IsBlank(u[0]) && !IsBlank(u[|u| - 1])
    requires u[0] != '-' && u[0] != '+'
    requires ParseWord(u) == w
    ensures ParseDouble((if negative then "-" else "") + u) == (if negative then Negate(w) else w)
  {
    if negative {
      ParseMinusText(u);
    } else {
      assert "" + u == u;
      ParsePlainText(u);
    }
  }

  /** Negating a number negates its value. */
  lemma NegateNum(v: real)
    ensures Negate(Num(v)) == Num(-v)
  {
  }

  /** Decimal text with a fraction parses to its exact value. */
  lemma {:induction false} ParseDecimal(a: string, b: string)
    requires AllDigits(a) && AllDigits(b) && |a| + |b| > 0
    ensures ParseDouble(a + "." + b) == Num(DigitsValue(a + b) as real / Pow10(|b|) as real)
  {
    var u := a + "." + b;
    var v := DigitsValue(a + b) as real / Pow10(|b|) as real;
    assert u[0] == '.' || IsDigit(u[0]) by {
      if a != [] { assert u[0] == a[0]; }
    }
    assert u[|u| - 1] == '.' || IsDigit(u[|u| - 1]) by {
      if b != [] { assert u[|u| - 1] == b[|b| - 1]; }
    }
    assert ParseUnsigned(u) == Some(v) by {
      ParseFraction(a, b);
    }
    ParseSigned(u, v, false);
    assert "" + u == u;
  }

  /** `NaN` reads as NaN. */
  lemma ParseNaN()
    ensures ParseDouble("NaN") == NaN
  {
    var t := "NaN";
    assert t[0] == 'N' && t[|t| - 1] == 'N';
    assert Trim(t) == t;
  }

  /** `-Infinity` reads as negative infinity. */
  lemma ParseNegativeInfinity()
    ensures ParseDouble("-Infinity") == Infinite(true)
  {
    var t := "-Infinity";
    assert t[0] == '-' && t[|t| - 1] == 'y';
    assert Trim(t) == t;
    assert t[0] == '-' && t[1..] == "Infinity";
    assert ParseWord(t[1..]) == Infinite(false) by {
      assert |t[1..]| != |"NaN"|;
    }
  }

  /** Empty text and letters that are no number throw. */
  lemma ParseMalformed()
    ensures ParseDouble("") == ParseFail
    ensures ParseDouble("abc") == ParseFail
  {
    var t := "abc";
    assert t[0] == 'a' && t[|t| - 1] == 'c';
    assert Trim(t) == t;
    assert t != "NaN" && t != "Infinity" by {
      assert t[0] != "NaN"[0] && t[0] != "Infinity"[0];
    }
    assert LeadingDigits(t) == 0;
    assert ParseUnsigned(t) == None;
  }
}
