/** The numeric rules the reader applies through pandas: the `---` missing
    marker, `pd.to_numeric(..., errors='coerce')` on measurement tokens, and
    the integer typing of the year and month columns. Numbers are decimal
    numerals read exactly as reals. */
module Numbers {
  import opened Wrappers

  predicate IsDigit(c: char)
  {
    '0' <= c <= '9'
  }

  predicate AllDigits(s: string)
  {
    forall i :: 0 <= i < |s| ==> IsDigit(s[i])
  }

  /** The value of a string of decimal digits, most significant first. */
  function DigitsValue(s: string): nat
    requires AllDigits(s)
    decreases |s|
  {
    if s == [] then 0 else 10 * DigitsValue(s[..|s| - 1]) + (s[|s| - 1] as int - '0' as int)
  }

  function Pow10(n: nat): (p: nat)
    ensures p > 0
  {
    if n == 0 then 1 else 10 * Pow10(n - 1)
  }

  /** Index of the first `c` in `s`, or `|s|` when there is none. */
  function IndexOf(s: string, c: char): (k: nat)
    ensures k <= |s|
    ensures k < |s| ==> s[k] == c
    ensures forall j :: 0 <= j < k ==> s[j] != c
    decreases |s|
  {
    if s == [] || s[0] == c then 0 else 1 + IndexOf(s[1..], c)
  }

  lemma {:induction false} IndexOfAppend(a: string, b: string, c: char)
    requires forall j :: 0 <= j < |a| ==> a[j] != c
    ensures IndexOf(a + b, c) == |a| + IndexOf(b, c)
    decreases |a|
  {
    if a == [] {
      assert a + b == b;
    } else {
      assert (a + b)[0] == a[0];
      assert (a + b)[1..] == a[1..] + b;
      IndexOfAppend(a[1..], b, c);
    }
  }

  /** The value of integer digits `whole` followed by fraction digits `frac`. */
  function Magnitude(whole: string, frac: string): real
    requires AllDigits(whole) && AllDigits(frac)
  {
    DigitsValue(whole) as real + DigitsValue(frac) as real / Pow10(|frac|) as real
  }

  /** Digits, optionally a point and more digits, at least one digit in all. */
  function ParseUnsigned(t: string): Option<real>
  {
    var k := IndexOf(t, '.');
    var whole := t[..k];
    var frac := if k < |t| then t[k + 1..] else "";
    if AllDigits(whole) && AllDigits(frac) && |whole| + |frac| > 0 then Some(Magnitude(whole, frac))
    else None
  }

  /** A token read as a number, or None when it is not a decimal numeral:
      the empty token and a lone sign are not numbers. */
  function ParseNumber(t: string): (v: Option<real>)
    ensures v.Some? ==> t != [] && (t[0] == '-' || t[0] == '+' ==> |t| >= 2)
  {
    if t != [] && t[0] == '-' then
      match ParseUnsigned(t[1..])
      case Some(v) => Some(-v)
      case None => None
    else if t != [] && t[0] == '+' then ParseUnsigned(t[1..])
    else ParseUnsigned(t)
  }

  // ---------------------------------------------------------------------
  // Decimal numerals, the reference definition of what ParseNumber accepts

  datatype Sign = NoSign | Plus | Minus

  /** A decimal numeral: sign, integer digits, and, after an optional point,
      fraction digits. */
  datatype Numeral = Numeral(sign: Sign, whole: string, point: bool, frac: string)

  predicate ValidNumeral(d: Numeral)
  {
    && AllDigits(d.whole)
    && AllDigits(d.frac)
    && (!d.point ==> d.frac == [])
    && |d.whole| + |d.frac| > 0
  }

  function SignText(s: Sign): string
  {
    match s
    case NoSign => ""
    case Plus => "+"
    case Minus => "-"
  }

  /** The point and fraction digits, when there is a point. */
  function PointText(point: bool, frac: string): string
  {
    if point then "." + frac else ""
  }

  function NumeralText(d: Numeral): string
  {
    SignText(d.sign) + d.whole + PointText(d.point, d.frac)
  }

  function NumeralValue(d: Numeral): real
    requires ValidNumeral(d)
  {
    if d.sign == Minus then -Magnitude(d.whole, d.frac) else Magnitude(d.whole, d.frac)
  }

  lemma {:induction false} UnsignedNumeral(d: Numeral)
    requires ValidNumeral(d)
    ensures ParseUnsigned(d.whole + PointText(d.point, d.frac)) == Some(Magnitude(d.whole, d.frac))
  {
    var rest := PointText(d.point, d.frac);
    var u := d.whole + rest;
    IndexOfAppend(d.whole, rest, '.');
    var k := IndexOf(u, '.');
    assert k == |d.whole|;
    assert u[..k] == d.whole;
    if d.point {
      assert u[k + 1..] == d.frac;
    }
  }

  /** ParseNumber on a sign followed by unsigned text. */
  lemma {:induction false} ParseSigned(sign: Sign, u: string)
    requires u == [] || (u[0] != '-' && u[0] != '+')
    ensures ParseNumber(SignText(sign) + u) == match ParseUnsigned(u)
      case None => None
      case Some(v) => Some(if sign == Minus then -v else v)
  {
    var t := SignText(sign) + u;
    match sign
    case NoSign =>
      assert t == u;
    case Plus =>
      assert t[0] == '+';
      assert t[1..] == u;
    case Minus =>
      assert t[0] == '-';
      assert t[1..] == u;
  }

  /** Every valid numeral is read back as its value. */
  lemma {:induction false} ParseNumeral(d: Numeral)
    requires ValidNumeral(d)
    ensures ParseNumber(NumeralText(d)) == Some(NumeralValue(d))
  {
    var u := d.whole + PointText(d.point, d.frac);
    UnsignedNumeral(d);
    UnsignedHasNoSign(d);
    ParseSigned(d.sign, u);
    NumeralTextParts(d, u);
  }

  /** The digits and point of a numeral do not start with a sign. */
  lemma UnsignedHasNoSign(d: Numeral)
    requires ValidNumeral(d)
    ensures var u := d.whole + PointText(d.point, d.frac); u == [] || (u[0] != '-' && u[0] != '+')
  {
    var u := d.whole + PointText(d.point, d.frac);
    if |d.whole| > 0 {
      assert u[0] == d.whole[0];
      assert IsDigit(d.whole[0]);
    } else if u != [] {
      assert u[0] == '.';
    }
  }

  /** What ParseUnsigned accepts: digits before the first point, digits
      after it, and at least one digit. */
  lemma {:induction false} UnsignedDigits(u: string)
    requires ParseUnsigned(u).Some?
    ensures var k := IndexOf(u, '.'); var frac := if k < |u| then u[k + 1..] else "";
      AllDigits(u[..k]) && AllDigits(frac) && k + |frac| > 0
  {
  }

  /** Text splits at its first point into what comes before it, the point
      and what follows. */
  lemma {:induction false} SplitAtPoint(u: string, k: nat)
    requires k <= |u| && (k < |u| ==> u[k] == '.')
    ensures k < |u| ==> u == u[..k] + PointText(true, u[k + 1..])
    ensures k == |u| ==> u == u[..k] + PointText(false, "")
  {
    if k < |u| {
      var rest := u[k + 1..];
      assert PointText(true, rest) == [u[k]] + rest;
      assert u[..k] + ([u[k]] + rest) == u;
    } else {
      assert u[..k] == u;
      assert PointText(false, "") == [];
    }
  }

  /** Whatever ParseUnsigned reads splits into digits, point and digits. */
  lemma {:induction false} UnsignedParts(u: string) returns (whole: string, point: bool, frac: string)
    requires ParseUnsigned(u).Some?
    ensures ValidNumeral(Numeral(NoSign, whole, point, frac))
    ensures u == whole + PointText(point, frac)
  {
    var k := IndexOf(u, '.');
    whole, point := u[..k], k < |u|;
    frac := if point then u[k + 1..] else "";
    UnsignedDigits(u);
    SplitAtPoint(u, k);
  }

  lemma NumeralTextParts(d: Numeral, u: string)
    requires u == d.whole + PointText(d.point, d.frac)
    ensures NumeralText(d) == SignText(d.sign) + u
  {
  }

  /** ParseNumber accepts nothing but numerals: whatever it reads is the
      text of a valid numeral, with that numeral's value. */
  lemma {:induction false} ParsedIsNumeral(t: string)
    requires ParseNumber(t).Some?
    ensures exists d :: ValidNumeral(d) && NumeralText(d) == t && NumeralValue(d) == ParseNumber(t).value
  {
    var sign := if t != [] && t[0] == '-' then Minus else if t != [] && t[0] == '+' then Plus else NoSign;
    var u := if sign == NoSign then t else t[1..];
    assert t == SignText(sign) + u by {
      if sign != NoSign {
        assert t == [t[0]] + t[1..];
      }
    }
    assert ParseUnsigned(u).Some? by {
      if sign == NoSign {
        assert ParseNumber(t) == ParseUnsigned(t);
      } else {
        assert t[1..] == u;
      }
    }
    var whole, point, frac := UnsignedParts(u);
    var d := Numeral(sign, whole, point, frac);
    NumeralTextParts(d, u);
    ParseNumeral(d);
    assert ValidNumeral(d) && NumeralText(d) == t && NumeralValue(d) == ParseNumber(t).value;
  }

  /** The text of a valid numeral ends in a digit or a point. */
  lemma {:induction false} NumeralEnd(d: Numeral)
    requires ValidNumeral(d)
    ensures var text := NumeralText(d); text != [] && (IsDigit(text[|text| - 1]) || text[|text| - 1] == '.')
  {
    var text := NumeralText(d);
    if d.point {
      if d.frac != [] {
        assert text[|text| - 1] == d.frac[|d.frac| - 1];
      } else {
        assert text[|text| - 1] == '.';
      }
    } else {
      assert text[|text| - 1] == d.whole[|d.whole| - 1];
    }
  }

  /** A token whose last character is neither a digit nor a point is not a
      number: an annotated reading such as `12.3*` or `40.1#` is not read. */
  lemma {:induction false} AnnotatedIsNotNumber(t: string, c: char)
    requires !IsDigit(c) && c != '.'
    ensures ParseNumber(t + [c]) == None
  {
    var text := t + [c];
    assert text[|text| - 1] == c;
    assert forall d :: ValidNumeral(d) ==> NumeralText(d) != text by {
      forall d | ValidNumeral(d) { NumeralEnd(d); }
    }
    if ParseNumber(text).Some? {
      ParsedIsNumeral(text);
      assert false;
    }
  }

  // ---------------------------------------------------------------------
  // Measurement cells

  /** The missing-value marker of every measurement column. */
  const Sentinel := "---"

  /** A measurement after coercion: a number, or NaN. */
  datatype Cell = Absent | Num(value: real)

  /** `na_values`: the sentinel becomes NaN before any number is read, and
      every other token reaches coercion as it is. */
  function MissingAsNaN(token: string): (r: Option<string>)
    ensures r.None? <==> token == Sentinel
    ensures r.Some? ==> r.value == token
  {
    if token == Sentinel then None else Some(token)
  }

  /** `pd.to_numeric(column, errors='coerce')` on one cell: NaN stays NaN, a
      numeral becomes its value, anything else becomes NaN. It never fails. */
  function ToNumeric(raw: Option<string>): (c: Cell)
    ensures c.Num? ==> raw.Some? && exists d :: ValidNumeral(d) && NumeralText(d) == raw.value && NumeralValue(d) == c.value
    ensures raw.Some? ==> forall d :: ValidNumeral(d) && NumeralText(d) == raw.value ==> c == Num(NumeralValue(d))
  {
    match raw
    case None => Absent
    case Some(t) =>
      if ParseNumber(t).Some? then
        ParsedIsNumeral(t);
        assert forall d :: ValidNumeral(d) && NumeralText(d) == t ==> ParseNumber(t) == Some(NumeralValue(d)) by {
          forall d | ValidNumeral(d) && NumeralText(d) == t { ParseNumeral(d); }
        }
        Num(ParseNumber(t).value)
      else
        assert forall d :: ValidNumeral(d) ==> NumeralText(d) != t by {
          forall d | ValidNumeral(d) { ParseNumeral(d); }
        }
        Absent
  }

  /** One measurement token through `na_values` and coercion. */
  function Coerce(token: string): (c: Cell)
    ensures token == Sentinel ==> c == Absent
    ensures forall d :: ValidNumeral(d) && NumeralText(d) == token ==> c == Num(NumeralValue(d))
    ensures c.Num? ==> exists d :: ValidNumeral(d) && NumeralText(d) == token && NumeralValue(d) == c.value
  {
    if token == Sentinel then
      assert ParseNumber(token) == None by {
        assert token[1..] == "--";
        assert IndexOf("--", '.') == 2;
      }
      assert forall d :: ValidNumeral(d) ==> NumeralText(d) != token by {
        forall d | ValidNumeral(d) { ParseNumeral(d); }
      }
      Absent
    else
      ToNumeric(MissingAsNaN(token))
  }

  /** Annotated readings are not stripped of their marker: they become NaN. */
  lemma AnnotatedIsAbsent(t: string, c: char)
    requires !IsDigit(c) && c != '.'
    ensures Coerce(t + [c]) == Absent
  {
    AnnotatedIsNotNumber(t, c);
  }

  /** The text of a numeral coerces to its value. */
  lemma CoerceNumeral(d: Numeral)
    requires ValidNumeral(d)
    ensures Coerce(NumeralText(d)) == Num(NumeralValue(d))
  {
  }

  lemma MagnitudeOfPlainReading()
    ensures Magnitude("12", "3") == 12.3
  {
    assert DigitsValue("12") == 12 by {
      assert "12"[..1] == "1";
    }
    assert DigitsValue("3") == 3 && Pow10(1) == 10;
  }

  /** A plain reading becomes its value. */
  lemma CoercePlainReading()
    ensures Coerce("12.3") == Num(12.3)
  {
    var d := Numeral(NoSign, "12", true, "3");
    CoerceNumeral(d);
    assert NumeralText(d) == "12" + "." + "3" == "12.3";
    assert NumeralValue(d) == Magnitude("12", "3");
    MagnitudeOfPlainReading();
  }

  lemma MagnitudeOfNegativeReading()
    ensures Magnitude("2", "5") == 2.5
  {
    assert DigitsValue("2") == 2 && DigitsValue("5") == 5 && Pow10(1) == 10;
  }

  /** So does a negative one. */
  lemma CoerceNegativeReading()
    ensures Coerce("-2.5") == Num(-2.5)
  {
    var d := Numeral(Minus, "2", true, "5");
    CoerceNumeral(d);
    assert NumeralText(d) == "-2.5";
    MagnitudeOfNegativeReading();
  }

  /** A reading of a single digit with one decimal place, such as "3.0". */
  lemma {:induction false} CoerceUnitReading(c: char)
    requires IsDigit(c)
    ensures Coerce([c] + ".0") == Num((c as int - '0' as int) as real)
  {
    var d := Numeral(NoSign, [c], true, "0");
    CoerceNumeral(d);
    assert NumeralText(d) == [c] + ".0";
    MagnitudeOfUnitReading(c);
  }

  lemma MagnitudeOfUnitReading(c: char)
    requires IsDigit(c)
    ensures Magnitude([c], "0") == (c as int - '0' as int) as real
  {
    assert [c][..0] == [];
    assert DigitsValue([c]) == c as int - '0' as int;
    assert DigitsValue("0") == 0;
  }

  /** Readings marked as estimated or as from the automatic sunshine
      sensor are not stripped of their mark: they become NaN. */
  lemma CoerceMarkedReadings()
    ensures Coerce("12.3*") == Absent
    ensures Coerce("164.5#") == Absent
  {
    AnnotatedIsAbsent("12.3", '*');
    assert "12.3" + ['*'] == "12.3*";
    AnnotatedIsAbsent("164.5", '#');
    assert "164.5" + ['#'] == "164.5#";
  }

  // ---------------------------------------------------------------------
  // Integer columns

  /** The digits of `n`, most significant first. */
  function NatText(n: nat): string
  {
    if n < 10 then [('0' as int + n) as char] else NatText(n / 10) + [('0' as int + n % 10) as char]
  }

  /** A year or month token typed as an integer: optional sign, then digits.
      Exactly those tokens are read, anything else (a point, a mark, an
      empty token, a lone sign) is refused; the value is that of the digits,
      negated after a minus. Plain digits read as their value, whatever is
      read ends in a digit, and only a minus sign gives a negative value. */
  function ParseInt(t: string): (v: Option<int>)
    ensures v.Some? <==>
      t != [] && var u := if t[0] == '-' || t[0] == '+' then t[1..] else t; u != [] && AllDigits(u)
    ensures v.Some? ==>
      v.value == if t[0] == '-' then -(DigitsValue(t[1..]) as int)
                 else if t[0] == '+' then DigitsValue(t[1..])
                 else DigitsValue(t)
    ensures t != [] && AllDigits(t) ==> v == Some(DigitsValue(t))
    ensures v.Some? ==> t != [] && IsDigit(t[|t| - 1])
    ensures v.Some? && v.value < 0 ==> t[0] == '-'
  {
    if t != [] && (t[0] == '-' || t[0] == '+') then
      if t[1..] != [] && AllDigits(t[1..]) then
        var v: int := DigitsValue(t[1..]);
        Some(if t[0] == '-' then -v else v)
      else None
    else if t != [] && AllDigits(t) then Some(DigitsValue(t))
    else None
  }

  lemma {:induction false} NatTextDigits(n: nat)
    ensures NatText(n) != [] && AllDigits(NatText(n)) && DigitsValue(NatText(n)) == n
  {
    if n >= 10 {
      NatTextDigits(n / 10);
      var s := NatText(n);
      assert s[..|s| - 1] == NatText(n / 10);
    }
  }

  /** A sign followed by digits reads as the digits' value, negated after a
      minus: every integer text ParseInt accepts is of this form, and this
      gives its value back. */
  lemma ParseIntSigned(sign: Sign, u: string)
    requires u != [] && AllDigits(u)
    ensures ParseInt(SignText(sign) + u) == Some(if sign == Minus then -(DigitsValue(u) as int) else DigitsValue(u))
  {
    var t := SignText(sign) + u;
    if sign != NoSign {
      assert t[1..] == u;
    } else {
      assert t == u;
    }
    assert IsDigit(u[0]);
  }

  /** Writing a natural number in decimal and reading it back gives it. */
  lemma ParseNatText(n: nat)
    ensures ParseInt(NatText(n)) == Some(n)
  {
    NatTextDigits(n);
    var s := NatText(n);
    assert IsDigit(s[0]);
  }
}
