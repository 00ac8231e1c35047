/** `_mask_account`: keep only the last four digits of an account number. */
module Masking {
  import opened PyJson

  /** `re.findall(r"\d", ...)` joined back together: the digits of `s`, in order. */
  function DigitsOf(s: string): (r: string)
    ensures AllDigits(r) && |r| <= |s|
  {
    if s == [] then []
    else (if IsDigit(s[0]) then [s[0]] else []) + DigitsOf(s[1..])
  }

  const MaskPrefix: string := "XXXX-XXXX-XXXX-"

  /** The value itself when it is falsy or has fewer than four digits in its
      `str()`; otherwise the masked text. */
  function MaskAccount(v: Json): (r: Json)
  {
    if !Truthy(v) then v
    else
      var digits := DigitsOf(Str(v));
      if |digits| < 4 then v
      else JStr(Masked(digits))
  }

  /** The masked text for a run of at least four digits. */
  function Masked(digits: string): (r: string)
    requires |digits| >= 4
  {
    MaskPrefix + digits[|digits| - 4..]
  }

  // ---------------------------------------------------------------- properties

  lemma {:induction false} DigitsOfConcat(x: string, y: string)
    ensures DigitsOf(x + y) == DigitsOf(x) + DigitsOf(y)
    decreases |x|
  {
    if x == [] {
      assert x + y == y;
    } else {
      assert (x + y)[1..] == x[1..] + y;
      DigitsOfConcat(x[1..], y);
    }
  }

  lemma {:induction false} DigitsOfDigits(d: string)
    requires AllDigits(d)
    ensures DigitsOf(d) == d
    decreases |d|
  {
    if d != [] {
      DigitsOfDigits(d[1..]);
    }
  }

  lemma DigitsOfPrefix()
    ensures DigitsOf(MaskPrefix) == []
  {
    var p := MaskPrefix;
    assert p == "XXXX-" + "XXXX-" + "XXXX-";
    assert DigitsOf("XXXX-") == [] by {
      assert "XXXX-"[1..] == "XXX-";
      assert "XXX-"[1..] == "XX-";
      assert "XX-"[1..] == "X-";
      assert "X-"[1..] == "-";
      assert "-"[1..] == "";
    }
    DigitsOfConcat("XXXX-", "XXXX-");
    DigitsOfConcat("XXXX-" + "XXXX-", "XXXX-");
  }

  /** The masked text is the fixed prefix followed by the four last digits,
      and those are the only digits it holds. */
  lemma MaskedShape(digits: string)
    requires AllDigits(digits) && |digits| >= 4
    ensures |Masked(digits)| == 19 && Masked(digits)[..15] == MaskPrefix
    ensures DigitsOf(Masked(digits)) == digits[|digits| - 4..]
  {
    var last := digits[|digits| - 4..];
    assert AllDigits(last);
    DigitsOfConcat(MaskPrefix, last);
    DigitsOfPrefix();
    DigitsOfDigits(last);
  }

  /** The three outcomes, with their exact conditions. */
  lemma MaskAccountCases(v: Json)
    ensures !Truthy(v) ==> MaskAccount(v) == v
    ensures Truthy(v) && |DigitsOf(Str(v))| < 4 ==> MaskAccount(v) == v
    ensures MaskAccount(v) != v ==> Truthy(v) && |DigitsOf(Str(v))| >= 4 && MaskAccount(v).JStr?
  {
  }

  /** Masking a masked number changes nothing. */
  lemma MaskIdempotent(v: Json)
    ensures MaskAccount(MaskAccount(v)) == MaskAccount(v)
  {
    if Truthy(v) && |DigitsOf(Str(v))| >= 4 {
      var digits := DigitsOf(Str(v));
      var m := Masked(digits);
      assert MaskAccount(v) == JStr(m);
      MaskedShape(digits);
      var d := DigitsOf(m);
      assert m == Masked(d);
      assert Str(JStr(m)) == m;
    }
  }

  /** A number written with digits only keeps its last four. */
  lemma MaskOfDigitText(s: string)
    requires AllDigits(s) && |s| >= 4
    ensures MaskAccount(JStr(s)) == JStr(Masked(s))
  {
    assert Str(JStr(s)) == s;
    DigitsOfDigits(s);
  }

  /** A sixteen-digit card-style number. */
  lemma MaskExample()
    ensures MaskAccount(JStr("1234567890123456")) == JStr("XXXX-XXXX-XXXX-3456")
  {
    var s := "1234567890123456";
    assert AllDigits(s);
    MaskOfDigitText(s);
    MaskedExample();
  }

  lemma MaskedExample()
    ensures Masked("1234567890123456") == "XXXX-XXXX-XXXX-3456"
  {
    assert "1234567890123456"[12..] == "3456";
  }

  /** Too few digits: the value is returned as it came. */
  lemma ShortNumberExample()
    ensures MaskAccount(JStr("A-12")) == JStr("A-12")
  {
    var s := "A-12";
    assert s[1..] == "-12" && s[1..][1..] == "12";
    DigitsOfDigits("12");
    assert DigitsOf(s) == "12";
  }
}
