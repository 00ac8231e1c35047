/** The JSON-like payloads the extractors hand to the core, with the few Python
    built-ins the core applies to them: truthiness, `a or b`, `dict.get`, `str()`,
    `str.strip()`, `str.lower()` and the substring test `p in s`. */
module PyJson {

  /** A JSON number literal: `mantissa` times ten to the power `-scale`. */
  datatype Decimal = Decimal(mantissa: int, scale: nat)

  /** A decoded JSON value. An object keeps its entries in insertion order. */
  datatype Json =
    | JNull
    | JBool(b: bool)
    | JNum(n: Decimal)
    | JStr(s: string)
    | JArr(items: seq<Json>)
    | JObj(entries: seq<(string, Json)>)

  function Pow10(k: nat): (p: nat)
    ensures p >= 1
  {
    if k == 0 then 1 else 10 * Pow10(k - 1)
  }

  /** The exact value of a number literal. */
  function DecimalValue(d: Decimal): (r: real)
  {
    d.mantissa as real / Pow10(d.scale) as real
  }

  /** Python truthiness: `None`, `False`, zero, `""`, `[]` and `{}` are falsy. */
  predicate Truthy(j: Json)
  {
    match j
    case JNull => false
    case JBool(b) => b
    case JNum(n) => n.mantissa != 0
    case JStr(s) => s != []
    case JArr(xs) => xs != []
    case JObj(es) => es != []
  }

  /** Python's `a or b`. */
  function Or(a: Json, b: Json): (r: Json)
  {
    if Truthy(a) then a else b
  }

  /** `dict.get(k)` on an object: the value of the last entry with key `k`, or `None`. */
  function Get(d: Json, k: string): (r: Json)
  {
    if d.JObj? then Lookup(d.entries, k) else JNull
  }

  function Lookup(es: seq<(string, Json)>, k: string): (r: Json)
    decreases |es|
  {
    if es == [] then JNull
    else if es[|es| - 1].0 == k then es[|es| - 1].1
    else Lookup(es[..|es| - 1], k)
  }

  // ---------------------------------------------------------------- digits

  predicate IsDigit(c: char)
  {
    '0' <= c <= '9'
  }

  predicate AllDigits(s: string)
  {
    forall k :: 0 <= k < |s| ==> IsDigit(s[k])
  }

  function DigitChar(v: nat): (c: char)
    requires v < 10
    ensures IsDigit(c)
  {
    (48 + v) as char
  }

  function DigitVal(c: char): (v: nat)
    requires IsDigit(c)
    ensures v < 10 && DigitChar(v) == c
  {
    c as int - 48
  }

  /** The value of a digit string, read left to right (Python's `int()`). */
  function DigitsValue(s: string): (r: nat)
    requires AllDigits(s)
    decreases |s|
  {
    if s == [] then 0
    else DigitsValue(s[..|s| - 1]) * 10 + DigitVal(s[|s| - 1])
  }

  /** The decimal text of a natural number, without leading zeros. */
  function NatText(n: nat): (s: string)
    ensures s != [] && AllDigits(s)
    decreases n
  {
    if n < 10 then [DigitChar(n)] else NatText(n / 10) + [DigitChar(n % 10)]
  }

  function Zeros(k: nat): (s: string)
    ensures |s| == k && forall i :: 0 <= i < k ==> s[i] == '0'
  {
    seq(k, _ => '0')
  }

  /** Left-pad with zeros to width `w` (the `:0wd` format); never truncates. */
  function ZeroPad(s: string, w: nat): (r: string)
    ensures |r| == if |s| >= w then |s| else w
  {
    if |s| >= w then s else Zeros(w - |s|) + s
  }

  /** The magnitude of a number's mantissa. */
  function Magnitude(d: Decimal): (r: nat)
  {
    if d.mantissa < 0 then -d.mantissa else d.mantissa
  }

  /** The mantissa's digits, padded so that at least one digit precedes the point. */
  function PaddedDigits(d: Decimal): (t: string)
    ensures |t| >= d.scale + 1
  {
    ZeroPad(NatText(Magnitude(d)), d.scale + 1)
  }

  /** The digits before the point. */
  function IntDigits(d: Decimal): (r: string)
  {
    var t := PaddedDigits(d);
    t[..|t| - d.scale]
  }

  /** The `scale` digits after the point. */
  function FracDigits(d: Decimal): (r: string)
  {
    var t := PaddedDigits(d);
    t[|t| - d.scale..]
  }

  /** `str()` of a number: the plain decimal text of the literal, with exactly
      `scale` digits after the point. */
  function DecimalText(d: Decimal): (r: string)
  {
    (if d.mantissa < 0 then "-" else "")
    + IntDigits(d)
    + (if d.scale == 0 then "" else "." + FracDigits(d))
  }

  // ---------------------------------------------------------------- facts about digit strings

  lemma {:induction false} DigitsValueConcat(x: string, y: string)
    requires AllDigits(x) && AllDigits(y)
    ensures AllDigits(x + y)
    ensures DigitsValue(x + y) == DigitsValue(x) * Pow10(|y|) + DigitsValue(y)
    decreases |y|
  {
    if y == [] {
      assert x + y == x;
    } else {
      var y' := y[..|y| - 1];
      assert (x + y)[..|x + y| - 1] == x + y';
      assert (x + y)[|x + y| - 1] == y[|y| - 1];
      DigitsValueConcat(x, y');
      ShiftDigit(DigitsValue(x), Pow10(|y'|), DigitsValue(y'), DigitVal(y[|y| - 1]));
    }
  }

  /** Appending one digit to `a` followed by `b` shifts both by one place. */
  lemma ShiftDigit(a: int, p: int, b: int, v: int)
    ensures (a * p + b) * 10 + v == a * (10 * p) + (b * 10 + v)
  {
  }

  lemma {:induction false} NatTextValue(n: nat)
    ensures DigitsValue(NatText(n)) == n
    decreases n
  {
    if n >= 10 {
      var t := NatText(n / 10) + [DigitChar(n % 10)];
      assert t[..|t| - 1] == NatText(n / 10);
      NatTextValue(n / 10);
    }
  }

  lemma {:induction false} DigitsValueBound(s: string)
    requires AllDigits(s)
    ensures DigitsValue(s) < Pow10(|s|)
    decreases |s|
  {
    if s != [] {
      DigitsValueBound(s[..|s| - 1]);
    }
  }

  lemma {:induction false} NatTextLength(n: nat, k: nat)
    requires 1 <= k && n < Pow10(k)
    ensures |NatText(n)| <= k
    decreases k
  {
    if n >= 10 {
      assert Pow10(1) == 10;
      NatTextLength(n / 10, k - 1);
    }
  }

  lemma ZerosAreDigits(k: nat)
    ensures AllDigits(Zeros(k))
  {
  }

  lemma {:induction false} ZerosValue(k: nat)
    ensures DigitsValue(Zeros(k)) == 0
    decreases k
  {
    if k > 0 {
      assert Zeros(k)[..k - 1] == Zeros(k - 1);
      ZerosValue(k - 1);
    }
  }

  /** Leading zeros do not change the value of a digit string. */
  lemma ZeroPadValue(s: string, w: nat)
    requires AllDigits(s)
    ensures AllDigits(ZeroPad(s, w)) && DigitsValue(ZeroPad(s, w)) == DigitsValue(s)
  {
    if |s| < w {
      ZerosAreDigits(w - |s|);
      ZerosValue(w - |s|);
      DigitsValueConcat(Zeros(w - |s|), s);
    }
  }

  lemma {:induction false} ZeroValueIsZeros(s: string)
    requires AllDigits(s) && DigitsValue(s) == 0
    ensures s == Zeros(|s|)
    decreases |s|
  {
    if s != [] {
      ZeroValueIsZeros(s[..|s| - 1]);
      assert s == s[..|s| - 1] + [s[|s| - 1]];
    }
  }

  /** Reading a digit string and printing it back zero-padded to its own width is the identity. */
  lemma {:induction false} PadRoundTrip(t: string)
    requires AllDigits(t) && |t| >= 1
    ensures ZeroPad(NatText(DigitsValue(t)), |t|) == t
    decreases |t|
  {
    var t' := t[..|t| - 1];
    var c := t[|t| - 1];
    var n := DigitsValue(t);
    assert t == t' + [c];
    if n < 10 {
      assert DigitsValue(t') == 0;
      ZeroValueIsZeros(t');
      assert NatText(n) == [c];
    } else {
      assert t' != [];
      assert n / 10 == DigitsValue(t') && n % 10 == DigitVal(c);
      assert NatText(n) == NatText(DigitsValue(t')) + [c];
      DigitsValueBound(t');
      NatTextLength(DigitsValue(t'), |t'|);
      PadRoundTrip(t');
      var x := NatText(DigitsValue(t'));
      assert ZeroPad(x + [c], |t|) == ZeroPad(x, |t'|) + [c];
    }
  }

  // ---------------------------------------------------------------- str / repr

  function Join(sep: string, parts: seq<string>): (r: string)
    decreases |parts|
  {
    if parts == [] then ""
    else if |parts| == 1 then parts[0]
    else parts[0] + sep + Join(sep, parts[1..])
  }

  /** Python's `str(x)`. */
  function Str(j: Json): (r: string)
    decreases j, 0
  {
    match j
    case JNull => "None"
    case JBool(b) => if b then "True" else "False"
    case JNum(n) => DecimalText(n)
    case JStr(s) => s
    case JArr(xs) =>
      "[" + Join(", ", seq(|xs|, i requires 0 <= i < |xs| => Repr(xs[i]))) + "]"
    case JObj(es) =>
      "{" + Join(", ", seq(|es|, i requires 0 <= i < |es| => "'" + es[i].0 + "': " + Repr(es[i].1))) + "}"
  }

  /** Python's `repr(x)` as it appears inside the `str()` of a list or dict. */
  function Repr(j: Json): (r: string)
    decreases j, 1
  {
    if j.JStr? then "'" + j.s + "'" else Str(j)
  }

  // ---------------------------------------------------------------- whitespace, case, substrings

  /** The characters Python's `str.isspace()` (and the regex class `\s`) accepts. */
  predicate IsSpace(c: char)
  {
    ('\t' <= c <= '\r') || ('\U{1C}' <= c <= '\U{1F}') || c == ' ' || c == '\U{85}' || c == '\U{A0}'
    || c == '\U{1680}' || ('\U{2000}' <= c <= '\U{200A}') || c == '\U{2028}' || c == '\U{2029}'
    || c == '\U{202F}' || c == '\U{205F}' || c == '\U{3000}'
  }

  function TrimLeft(s: string): (r: string)
    ensures |r| <= |s| && r == s[|s| - |r|..]
    ensures forall k :: 0 <= k < |s| - |r| ==> IsSpace(s[k])
    ensures r == [] || !IsSpace(r[0])
    decreases |s|
  {
    if s != [] && IsSpace(s[0]) then TrimLeft(s[1..]) else s
  }

  function TrimRight(s: string): (r: string)
    ensures |r| <= |s| && r == s[..|r|]
    ensures forall k :: |r| <= k < |s| ==> IsSpace(s[k])
    ensures r == [] || !IsSpace(r[|r| - 1])
    decreases |s|
  {
    if s != [] && IsSpace(s[|s| - 1]) then TrimRight(s[..|s| - 1]) else s
  }

  /** Neither starts nor ends with whitespace. */
  predicate Trimmed(s: string)
  {
    s == [] || (!IsSpace(s[0]) && !IsSpace(s[|s| - 1]))
  }

  /** Python's `str.strip()`: the result starts and ends with a non-space character,
      and it is empty exactly when the input is all whitespace. */
  function Strip(s: string): (r: string)
    ensures Trimmed(r)
    ensures r == [] <==> forall k :: 0 <= k < |s| ==> IsSpace(s[k])
  {
    StripShape(s);
    TrimRight(TrimLeft(s))
  }

  lemma StripShape(s: string)
    ensures var t := TrimRight(TrimLeft(s));
      Trimmed(t)
    ensures var t := TrimRight(TrimLeft(s));
      t == [] <==> forall k :: 0 <= k < |s| ==> IsSpace(s[k])
  {
    var l := TrimLeft(s);
    var t := TrimRight(l);
    if t != [] {
      assert t[0] == l[0];
      assert !IsSpace(s[|s| - |l|]);
    }
  }

  /** Python's `str.lower()` for ASCII and Latin-1 letters. */
  function LowerChar(c: char): (r: char)
  {
    if 'A' <= c <= 'Z' || ('\U{C0}' <= c <= '\U{DE}' && c != '\U{D7}') then (c as int + 32) as char else c
  }

  function Lower(s: string): (r: string)
    ensures |r| == |s| && forall k :: 0 <= k < |s| ==> r[k] == LowerChar(s[k])
  {
    seq(|s|, k requires 0 <= k < |s| => LowerChar(s[k]))
  }

  /** The substring test `p in s`. */
  predicate Contains(s: string, p: string)
    decreases |s|
  {
    |p| <= |s| && (s[..|p|] == p || Contains(s[1..], p))
  }
}
