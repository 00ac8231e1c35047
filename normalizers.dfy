/** `_to_float` of process_bank_statement.py, the amount normalizer: it never
    raises, and every malformed input degrades to `None`. */
module Normalizers {
  import opened Options
  import opened PyJson

  // ================================================================ amounts (_to_float)

  /** The glyphs of `CURRENCY_PATTERN`: rupee, dollar, euro and pound. */
  predicate IsCurrencyGlyph(c: char)
  {
    c == '\U{20B9}' || c == '$' || c == '\U{20AC}' || c == '\U{A3}'
  }

  /** `CURRENCY_PATTERN.sub("", s)`: each glyph goes, with one whitespace character after it. */
  function StripCurrency(s: string): (r: string)
    decreases |s|
  {
    if s == [] then []
    else if IsCurrencyGlyph(s[0]) then
      if |s| > 1 && IsSpace(s[1]) then StripCurrency(s[2..]) else StripCurrency(s[1..])
    else [s[0]] + StripCurrency(s[1..])
  }

  /** `s.replace(",", "")`. */
  function RemoveCommas(s: string): (r: string)
    decreases |s|
  {
    if s == [] then [] else (if s[0] == ',' then [] else [s[0]]) + RemoveCommas(s[1..])
  }

  /** The characters `NON_NUMERIC` spares. */
  predicate IsNumericChar(c: char)
  {
    IsDigit(c) || c == '.' || c == '-'
  }

  /** `NON_NUMERIC.sub(...)`: the replacement is `""` in both of its branches. */
  function KeepNumeric(s: string): (r: string)
    ensures forall k :: 0 <= k < |r| ==> IsNumericChar(r[k])
    decreases |s|
  {
    if s == [] then [] else (if IsNumericChar(s[0]) then [s[0]] else []) + KeepNumeric(s[1..])
  }

  /** The text `_to_float` hands to `float()`. */
  function Residue(s: string): (r: string)
  {
    KeepNumeric(RemoveCommas(StripCurrency(s)))
  }

  lemma {:induction false} KeepNumericCons(c: char, s: string)
    ensures KeepNumeric([c] + s) == (if IsNumericChar(c) then [c] else []) + KeepNumeric(s)
  {
    assert ([c] + s)[0] == c && ([c] + s)[1..] == s;
  }

  lemma {:induction false} KeepNumericConcat(a: string, b: string)
    ensures KeepNumeric(a + b) == KeepNumeric(a) + KeepNumeric(b)
    decreases |a|
  {
    if a == [] {
      assert a + b == b;
    } else {
      assert (a + b)[1..] == a[1..] + b;
      KeepNumericConcat(a[1..], b);
    }
  }

  lemma {:induction false} KeepNumericOfCommaFree(s: string)
    ensures KeepNumeric(RemoveCommas(s)) == KeepNumeric(s)
    decreases |s|
  {
    if s != [] {
      KeepNumericOfCommaFree(s[1..]);
      if s[0] == ',' {
        assert RemoveCommas(s) == RemoveCommas(s[1..]);
      } else {
        KeepNumericCons(s[0], RemoveCommas(s[1..]));
      }
    }
  }

  lemma {:induction false} KeepNumericOfStripped(s: string)
    ensures KeepNumeric(StripCurrency(s)) == KeepNumeric(s)
    decreases |s|
  {
    if s != [] {
      if IsCurrencyGlyph(s[0]) {
        if |s| > 1 && IsSpace(s[1]) {
          KeepNumericOfStripped(s[2..]);
          assert s[1..][1..] == s[2..];
        } else {
          KeepNumericOfStripped(s[1..]);
        }
      } else {
        KeepNumericOfStripped(s[1..]);
        KeepNumericCons(s[0], StripCurrency(s[1..]));
      }
    }
  }

  /** Removing currency glyphs and commas first changes nothing: the residue is
      exactly the digits, points and minus signs of the input, in order. */
  lemma ResidueIsNumericFilter(s: string)
    ensures Residue(s) == KeepNumeric(s)
  {
    KeepNumericOfCommaFree(StripCurrency(s));
    KeepNumericOfStripped(s);
  }

  lemma {:induction false} KeepNumericIdentity(s: string)
    requires forall k :: 0 <= k < |s| ==> IsNumericChar(s[k])
    ensures KeepNumeric(s) == s
    decreases |s|
  {
    if s != [] {
      KeepNumericIdentity(s[1..]);
      assert s == [s[0]] + s[1..];
    }
  }

  /** The text after an optional leading minus sign. */
  function Unsigned(t: string): (r: string)
  {
    if t != [] && t[0] == '-' then t[1..] else t
  }

  /** The residues `float()` accepts: an optional leading `-`, then digits with at most
      one `.`, and at least one digit. */
  predicate WellFormedNumber(t: string)
  {
    WellFormedBody(Unsigned(t))
  }

  predicate WellFormedBody(b: string)
  {
    (forall k :: 0 <= k < |b| ==> IsDigit(b[k]) || b[k] == '.')
    && (forall i, j :: 0 <= i < j < |b| && b[i] == '.' ==> b[j] != '.')
    && (exists k :: 0 <= k < |b| && IsDigit(b[k]))
  }

  /** The position of the first `.`, or the length when there is none. */
  function DotIndex(b: string): (k: nat)
    ensures k <= |b| && (forall i :: 0 <= i < k ==> b[i] != '.') && (k < |b| ==> b[k] == '.')
    decreases |b|
  {
    if b == [] || b[0] == '.' then 0 else 1 + DotIndex(b[1..])
  }

  /** The digits after the first `.` (none when there is no point). */
  function Fraction(b: string): (r: string)
  {
    var k := DotIndex(b);
    if k < |b| then b[k + 1..] else []
  }

  /** `float(t)` for a residue `t` (whose characters are all digits, `.` or `-`). */
  function ParseNumber(t: string): (r: Option<real>)
  {
    match ParseBody(Unsigned(t))
    case None => None
    case Some(v) => Some(if t != [] && t[0] == '-' then -v else v)
  }

  /** The unsigned part: integer digits, then optionally a point and fraction digits. */
  function ParseBody(b: string): (r: Option<real>)
  {
    var ip := b[..DotIndex(b)];
    var fp := Fraction(b);
    if AllDigits(ip) && AllDigits(fp) && |ip| + |fp| > 0 then Some(PointValue(ip, fp)) else None
  }

  /** The value of the decimal text `ip.fp`. */
  function PointValue(ip: string, fp: string): (r: real)
    requires AllDigits(ip) && AllDigits(fp)
  {
    DigitsValue(ip) as real + DigitsValue(fp) as real / Pow10(|fp|) as real
  }

  lemma ParseBodyAccepts(b: string)
    ensures ParseBody(b).Some? <==> WellFormedBody(b)
  {
    if WellFormedBody(b) {
      WellFormedParts(b);
    }
    if AllDigits(b[..DotIndex(b)]) && AllDigits(Fraction(b)) && DotIndex(b) + |Fraction(b)| > 0 {
      ParseAccepts(b);
    }
  }

  lemma ParseAccepts(b: string)
    requires AllDigits(b[..DotIndex(b)]) && AllDigits(Fraction(b))
    requires DotIndex(b) + |Fraction(b)| > 0
    ensures WellFormedBody(b)
  {
    var k := DotIndex(b);
    var fp := Fraction(b);
    forall i | 0 <= i < |b| ensures IsDigit(b[i]) || b[i] == '.' {
      if i < k { assert b[i] == b[..k][i]; }
      else if i > k { assert b[i] == fp[i - k - 1]; }
    }
    forall i, j | 0 <= i < j < |b| && b[i] == '.' ensures b[j] != '.' {
      assert i >= k;
      assert b[j] == fp[j - k - 1];
    }
    if k > 0 {
      assert IsDigit(b[0]) by { assert b[0] == b[..k][0]; }
    } else {
      assert IsDigit(b[1]) by { assert b[1] == fp[0]; }
    }
  }

  lemma WellFormedParts(b: string)
    requires WellFormedBody(b)
    ensures AllDigits(b[..DotIndex(b)]) && AllDigits(Fraction(b)) && DotIndex(b) + |Fraction(b)| > 0
  {
    var k := DotIndex(b);
    assert AllDigits(b[..k]) by {
      forall i | 0 <= i < k ensures IsDigit(b[..k][i]) {
        assert b[..k][i] == b[i];
      }
    }
  }

  /** `_to_float(x)`: `None` stays `None`; otherwise `str(x)` is cleaned and parsed,
      and an unparseable residue yields `None` rather than an error. */
  function ToFloat(x: Json): (r: Option<real>)
  {
    if x.JNull? then None else ParseNumber(Residue(Str(x)))
  }

  /** `_to_float` accepts exactly the non-`None` values whose digits, points and minus
      signs, read in order, form a number `float()` parses. */
  lemma ToFloatAccepts(x: Json)
    ensures ToFloat(x).Some? <==> x != JNull && WellFormedNumber(KeepNumeric(Str(x)))
  {
    if !x.JNull? {
      ResidueIsNumericFilter(Str(x));
      ParseBodyAccepts(Unsigned(KeepNumeric(Str(x))));
    }
  }

  /** A JSON number goes through `str()` and `float()` unchanged in value. */
  lemma ToFloatOfNumber(d: Decimal)
    ensures ToFloat(JNum(d)) == Some(DecimalValue(d))
  {
    var ip, fp := IntDigits(d), FracDigits(d);
    var sign := if d.mantissa < 0 then "-" else "";
    DecimalTextSplit(d);
    var m, a, p := d.mantissa, Magnitude(d), Pow10(d.scale);
    var pv := PointValue(ip, fp);
    assert DecimalValue(d) == if sign == "-" then -pv else pv by {
      PointValueOf(ip, fp, a);
      SignedValue(m, a, p);
    }
    ToFloatOfParts(d, sign, ip, fp, DecimalValue(d));
  }

  lemma ToFloatOfParts(d: Decimal, sign: string, ip: string, fp: string, v: real)
    requires sign == "-" || sign == ""
    requires AllDigits(ip) && AllDigits(fp) && ip != []
    requires DecimalText(d) == sign + ip + (if fp == [] then "" else "." + fp)
    requires v == if sign == "-" then -PointValue(ip, fp) else PointValue(ip, fp)
    ensures ToFloat(JNum(d)) == Some(v)
  {
    var text := sign + ip + (if fp == [] then "" else "." + fp);
    assert ToFloat(JNum(d)) == ParseNumber(text) by {
      assert Str(JNum(d)) == text;
      SignedDecimalIsNumeric(sign, ip, fp);
    }
    ParseSignedDecimal(sign, ip, fp);
  }

  lemma SignedValue(m: int, a: nat, p: nat)
    requires p >= 1 && a == if m < 0 then -m else m
    ensures (if m < 0 then -(a as real / p as real) else a as real / p as real) == m as real / p as real
  {
  }

  /** The two digit runs of a number's text and their joint value. */
  lemma DecimalTextSplit(d: Decimal)
    ensures AllDigits(IntDigits(d)) && AllDigits(FracDigits(d))
    ensures IntDigits(d) != [] && |FracDigits(d)| == d.scale
    ensures DigitsValue(IntDigits(d)) * Pow10(d.scale) + DigitsValue(FracDigits(d)) == Magnitude(d)
    ensures DecimalText(d) == (if d.mantissa < 0 then "-" else "") + IntDigits(d)
                             + (if FracDigits(d) == [] then "" else "." + FracDigits(d))
  {
    var t := PaddedDigits(d);
    ZeroPadValue(NatText(Magnitude(d)), d.scale + 1);
    NatTextValue(Magnitude(d));
    SplitDigits(t, d.scale);
  }

  /** Cutting a digit string `s` places from its end. */
  lemma SplitDigits(t: string, s: nat)
    requires AllDigits(t) && |t| >= s + 1
    ensures AllDigits(t[..|t| - s]) && AllDigits(t[|t| - s..]) && t[..|t| - s] != []
    ensures DigitsValue(t[..|t| - s]) * Pow10(s) + DigitsValue(t[|t| - s..]) == DigitsValue(t)
  {
    var ip, fp := t[..|t| - s], t[|t| - s..];
    forall i | 0 <= i < |ip| ensures IsDigit(ip[i]) { assert ip[i] == t[i]; }
    forall i | 0 <= i < |fp| ensures IsDigit(fp[i]) { assert fp[i] == t[|t| - s + i]; }
    assert t == ip + fp;
    DigitsValueConcat(ip, fp);
  }

  lemma PointValueOf(ip: string, fp: string, a: nat)
    requires AllDigits(ip) && AllDigits(fp)
    requires DigitsValue(ip) * Pow10(|fp|) + DigitsValue(fp) == a
    ensures PointValue(ip, fp) == a as real / Pow10(|fp|) as real
  {
    RealDiv(DigitsValue(ip), DigitsValue(fp), Pow10(|fp|), a);
  }

  lemma RealDiv(q: int, r: int, p: int, a: int)
    requires p > 0 && a == q * p + r
    ensures q as real + r as real / p as real == a as real / p as real
  {
    var P := p as real;
    assert a as real == q as real * P + r as real;
    calc {
      a as real / P;
      (q as real * P + r as real) / P;
      q as real * P / P + r as real / P;
      q as real + r as real / P;
    }
  }

  lemma SignedDecimalIsNumeric(sign: string, ip: string, fp: string)
    requires sign == "" || sign == "-"
    requires AllDigits(ip) && AllDigits(fp)
    ensures var text := sign + ip + (if fp == [] then "" else "." + fp);
      Residue(text) == text
  {
    var text := sign + ip + (if fp == [] then "" else "." + fp);
    forall k | 0 <= k < |text| ensures IsNumericChar(text[k]) {
      if |sign| <= k < |sign| + |ip| {
        assert text[k] == ip[k - |sign|];
      } else if k > |sign| + |ip| {
        assert text[k] == fp[k - |sign| - |ip| - 1];
      }
    }
    KeepNumericIdentity(text);
    ResidueIsNumericFilter(text);
  }

  lemma ParseSignedDecimal(sign: string, ip: string, fp: string)
    requires sign == "" || sign == "-"
    requires AllDigits(ip) && AllDigits(fp) && ip != []
    ensures var text := sign + ip + (if fp == [] then "" else "." + fp);
      ParseNumber(text) == Some(if sign == "-" then -PointValue(ip, fp) else PointValue(ip, fp))
  {
    var rest := if fp == [] then "" else "." + fp;
    var b := ip + rest;
    var text := sign + b;
    assert sign + ip + rest == text;
    assert IsDigit(ip[0]);
    assert Unsigned(text) == b by {
      if sign == "" {
        assert text == b && text[0] == ip[0];
      } else {
        assert text[0] == '-' && text[1..] == b;
      }
    }
    assert (text != [] && text[0] == '-') <==> sign == "-";
    ParseBodyDigits(ip, fp);
  }

  /** A text that is an optional minus, digits and an optional point with digits
      is read as its decimal value. */
  lemma ToFloatOfText(sign: string, ip: string, fp: string)
    requires sign == "" || sign == "-"
    requires AllDigits(ip) && AllDigits(fp) && ip != []
    ensures ToFloat(JStr(sign + ip + (if fp == [] then "" else "." + fp)))
            == Some(if sign == "-" then -PointValue(ip, fp) else PointValue(ip, fp))
  {
    var text := sign + ip + (if fp == [] then "" else "." + fp);
    assert ToFloat(JStr(text)) == ParseNumber(text) by {
      assert Str(JStr(text)) == text;
      SignedDecimalIsNumeric(sign, ip, fp);
    }
    ParseSignedDecimal(sign, ip, fp);
  }

  /** A single digit is read as its value. */
  lemma ToFloatOfDigit(c: char)
    requires IsDigit(c)
    ensures ToFloat(JStr([c])) == Some(DigitVal(c) as real)
  {
    assert DigitsValue([c]) == DigitVal(c) by { assert [c][..0] == []; }
    ToFloatOfIntText([c], DigitVal(c) as real);
  }

  /** A text of digits alone is read as the integer it spells. */
  lemma ToFloatOfIntText(ip: string, v: real)
    requires AllDigits(ip) && ip != [] && v == DigitsValue(ip) as real
    ensures ToFloat(JStr(ip)) == Some(v)
  {
    assert "" + ip + "" == ip;
    assert PointValue(ip, "") == v by { assert Pow10(0) == 1; }
    ToFloatOfText("", ip, "");
  }

  /** A thousands separator (or any other non-numeric character) inside an
      amount's text does not change its value: it equals the number written
      without it. */
  lemma SeparatedTextMatchesNumber(a: string, c: char, b: string, sign: string, ip: string, fp: string, d: Decimal)
    requires sign == "" || sign == "-"
    requires AllDigits(ip) && AllDigits(fp) && ip != []
    requires a + b == sign + ip + (if fp == [] then "" else "." + fp)
    requires !IsNumericChar(c)
    requires DecimalValue(d) == if sign == "-" then -PointValue(ip, fp) else PointValue(ip, fp)
    ensures ToFloat(JStr(a + [c] + b)) == ToFloat(JNum(d))
  {
    NonNumericIgnored(a, c, b);
    ToFloatOfText(sign, ip, fp);
    ToFloatOfNumber(d);
  }

  lemma ParseBodyDigits(ip: string, fp: string)
    requires AllDigits(ip) && AllDigits(fp) && ip != []
    ensures ParseBody(ip + (if fp == [] then "" else "." + fp)) == Some(PointValue(ip, fp))
  {
    var rest := if fp == [] then "" else "." + fp;
    var b := ip + rest;
    DotIndexAfterDigits(ip, rest);
    assert DotIndex(b) == |ip|;
    assert b[..|ip|] == ip;
    assert Fraction(b) == fp by {
      if fp != [] { assert b[|ip| + 1..] == fp; }
    }

  }

  lemma {:induction false} DotIndexAfterDigits(x: string, rest: string)
    requires AllDigits(x)
    requires rest == [] || rest[0] == '.'
    ensures DotIndex(x + rest) == |x|
    decreases |x|
  {
    if x != [] {
      assert (x + rest)[1..] == x[1..] + rest;
      DotIndexAfterDigits(x[1..], rest);
    } else {
      assert x + rest == rest;
    }
  }

  // ---------------------------------------------------------------- examples

  /** Any character other than a digit, `.` or `-` (a thousands separator, a
      currency glyph, a letter) is ignored wherever it stands. */
  lemma NonNumericIgnored(a: string, c: char, b: string)
    requires !IsNumericChar(c)
    ensures ToFloat(JStr(a + [c] + b)) == ToFloat(JStr(a + b))
  {
    var s1, s2 := a + [c] + b, a + b;
    ResidueIsNumericFilter(s1);
    ResidueIsNumericFilter(s2);
    KeepNumericSkips(a, c, b);
    assert Residue(s1) == Residue(s2);
  }

  lemma KeepNumericSkips(a: string, c: char, b: string)
    requires !IsNumericChar(c)
    ensures KeepNumeric(a + [c] + b) == KeepNumeric(a + b)
  {
    assert a + [c] + b == a + ([c] + b);
    KeepNumericConcat(a, [c] + b);
    KeepNumericCons(c, b);
    KeepNumericConcat(a, b);
  }

  /** A minus sign with a digit, point or minus anywhere before it makes the
      text unparsable: `None`, not an error. */
  lemma InnerMinusRejected(a: string, b: string)
    requires KeepNumeric(a) != []
    ensures ToFloat(JStr(a + "-" + b)) == None
  {
    var s := a + "-" + b;
    KeepNumericAroundMinus(a, b);
    MinusInsideRejected(KeepNumeric(a), KeepNumeric(b));
    ToFloatAccepts(JStr(s));
  }

  lemma KeepNumericAroundMinus(a: string, b: string)
    ensures KeepNumeric(a + "-" + b) == KeepNumeric(a) + "-" + KeepNumeric(b)
  {
    assert a + "-" + b == a + ("-" + b);
    KeepNumericConcat(a, "-" + b);
    KeepNumericCons('-', b);
  }

  lemma MinusInsideRejected(x: string, y: string)
    requires x != []
    ensures !WellFormedNumber(x + "-" + y)
  {
    var r := x + "-" + y;
    var u := Unsigned(r);
    var k := if r[0] == '-' then |x| - 1 else |x|;
    assert k < |u| && u[k] == '-';
  }

  /** Without a single digit, point or minus nothing is left after cleaning: `None`. */
  lemma NothingNumericRejected(s: string)
    requires forall k :: 0 <= k < |s| ==> !IsNumericChar(s[k])
    ensures ToFloat(JStr(s)) == None
  {
    KeepNumericNone(s);
    ToFloatAccepts(JStr(s));
  }

  lemma {:induction false} KeepNumericNone(s: string)
    requires forall k :: 0 <= k < |s| ==> !IsNumericChar(s[k])
    ensures KeepNumeric(s) == []
    decreases |s|
  {
    if s != [] {
      assert !IsNumericChar(s[0]);
      KeepNumericNone(s[1..]);
    }
  }
}
