/** `_normalize_date`: find the first thing that looks like `YYYY-MM-DD` or
    `DD-MM-YYYY` (either separator `-` or `/`) and rewrite the whole value as
    a zero-padded `YYYY-MM-DD`; otherwise hand the text back untouched. */
module Dates {
  import opened Options
  import opened PyJson

  predicate IsSep(c: char)
  {
    c == '-' || c == '/'
  }

  /** The three digit groups a date match captures, already put in
      year/month/day order. */
  datatype DateGroups = DateGroups(year: string, month: string, day: string)

  predicate ValidGroups(g: DateGroups)
  {
    |g.year| == 4 && 1 <= |g.month| <= 2 && 1 <= |g.day| <= 2
    && AllDigits(g.year) && AllDigits(g.month) && AllDigits(g.day)
  }

  /** `\d{1,2}` followed by a separator, starting at `q`. The character after one
      digit is either a digit or a separator, never both, so the regex's
      backtracking leaves exactly one choice. */
  function ShortField(s: string, q: nat): (r: Option<string>)
    ensures r.Some? ==> 1 <= |r.value| <= 2 && AllDigits(r.value)
                        && q + |r.value| < |s| && s[q..q + |r.value|] == r.value
                        && IsSep(s[q + |r.value|])
  {
    if q + 2 < |s| && IsDigit(s[q]) && IsDigit(s[q + 1]) && IsSep(s[q + 2]) then Some(s[q..q + 2])
    else if q + 1 < |s| && IsDigit(s[q]) && IsSep(s[q + 1]) then Some(s[q..q + 1])
    else None
  }

  /** The first alternative, `(\d{4})[-/](\d{1,2})[-/](\d{1,2})`, at position `p`;
      the last group is greedy. */
  function YearFirstAt(s: string, p: nat): (r: Option<DateGroups>)
    ensures r.Some? ==> ValidGroups(r.value)
  {
    if p + 5 <= |s| && AllDigits(s[p..p + 4]) && IsSep(s[p + 4]) then
      match ShortField(s, p + 5)
      case None => None
      case Some(m) =>
        var q := p + 5 + |m| + 1;
        if q < |s| && IsDigit(s[q]) then
          var day := if q + 1 < |s| && IsDigit(s[q + 1]) then s[q..q + 2] else s[q..q + 1];
          DigitsAt(s, q, |day|);
          Some(DateGroups(s[p..p + 4], m, day))
        else None
    else None
  }

  lemma DigitsAt(s: string, q: nat, k: nat)
    requires q + k <= |s| && forall i :: q <= i < q + k ==> IsDigit(s[i])
    ensures AllDigits(s[q..q + k])
  {
  }

  /** The second alternative, `(\d{1,2})[-/](\d{1,2})[-/](\d{4})`, at position `p`:
      day, month, year in that order in the text. */
  function DayFirstAt(s: string, p: nat): (r: Option<DateGroups>)
    ensures r.Some? ==> ValidGroups(r.value)
  {
    match ShortField(s, p)
    case None => None
    case Some(dd) =>
      var q := p + |dd| + 1;
      match ShortField(s, q)
      case None => None
      case Some(mm) =>
        var y := q + |mm| + 1;
        if y + 4 <= |s| && AllDigits(s[y..y + 4]) then Some(DateGroups(s[y..y + 4], mm, dd)) else None
  }

  /** The regex at one position: the first alternative wins when both apply. */
  function MatchAt(s: string, p: nat): (r: Option<DateGroups>)
    ensures r.Some? ==> ValidGroups(r.value)
  {
    var a := YearFirstAt(s, p);
    if a.Some? then a else DayFirstAt(s, p)
  }

  /** `DATE_GUESS.search`: the leftmost position from `p` on where the pattern matches. */
  function FirstMatch(s: string, p: nat): (r: Option<nat>)
    ensures r.Some? ==> p <= r.value < |s| && MatchAt(s, r.value).Some?
    ensures r.Some? ==> forall q :: p <= q < r.value ==> MatchAt(s, q).None?
    ensures r.None? ==> forall q :: p <= q < |s| ==> MatchAt(s, q).None?
    decreases |s| - p
  {
    if p >= |s| then None
    else if MatchAt(s, p).Some? then Some(p)
    else FirstMatch(s, p + 1)
  }

  /** The `:04d` / `:02d` formatting of the integer value of a digit group. */
  function Padded(digits: string, width: nat): (r: string)
    requires AllDigits(digits)
  {
    ZeroPad(NatText(DigitsValue(digits)), width)
  }

  function FormatIso(g: DateGroups): (r: string)
    requires ValidGroups(g)
  {
    Padded(g.year, 4) + "-" + Padded(g.month, 2) + "-" + Padded(g.day, 2)
  }

  /** Shape of an ISO calendar date `YYYY-MM-DD` (digits only; the values are
      not range-checked). */
  predicate IsIso(t: string)
  {
    |t| == 10 && AllDigits(t[..4]) && t[4] == '-' && AllDigits(t[5..7]) && t[7] == '-' && AllDigits(t[8..])
  }

  /** `_normalize_date` on a string argument; `None` models the Python `None`. */
  function NormalizeDate(s: string): (r: Option<string>)
  {
    if s == [] then None
    else match FirstMatch(s, 0)
      case None => Some(s)
      case Some(p) => Some(FormatIso(MatchAt(s, p).value))
  }

  // ---------------------------------------------------------------- properties

  /** Padding a group up to its width gives back the group, since the group
      is never longer than the width. */
  lemma PaddedIsGroup(digits: string, width: nat)
    requires AllDigits(digits) && 1 <= |digits| <= width
    ensures AllDigits(Padded(digits, width)) && |Padded(digits, width)| == width
    ensures DigitsValue(Padded(digits, width)) == DigitsValue(digits)
    ensures |digits| == width ==> Padded(digits, width) == digits
  {
    DigitsValueBound(digits);
    assert Pow10(|digits|) <= Pow10(width) by { Pow10Monotone(|digits|, width); }
    NatTextLength(DigitsValue(digits), width);
    NatTextValue(DigitsValue(digits));
    ZeroPadValue(NatText(DigitsValue(digits)), width);
    if |digits| == width {
      PadRoundTrip(digits);
    }
  }

  lemma {:induction false} Pow10Monotone(i: nat, j: nat)
    requires i <= j
    ensures Pow10(i) <= Pow10(j)
    decreases j
  {
    if i < j {
      Pow10Monotone(i, j - 1);
    }
  }

  /** A formatted date is ISO-shaped and carries the integer values of the
      captured year, month and day. */
  lemma FormatIsoMeaning(g: DateGroups)
    requires ValidGroups(g)
    ensures IsIso(FormatIso(g))
    ensures DigitsValue(FormatIso(g)[..4]) == DigitsValue(g.year)
    ensures DigitsValue(FormatIso(g)[5..7]) == DigitsValue(g.month)
    ensures DigitsValue(FormatIso(g)[8..]) == DigitsValue(g.day)
  {
    PaddedIsGroup(g.year, 4);
    PaddedIsGroup(g.month, 2);
    PaddedIsGroup(g.day, 2);
    var t := FormatIso(g);
    assert t[..4] == Padded(g.year, 4);
    assert t[5..7] == Padded(g.month, 2);
    assert t[8..] == Padded(g.day, 2);
  }

  /** What the function returns, case by case: `None` exactly for the empty
      string; the text unchanged when no date pattern occurs anywhere in it;
      otherwise an ISO-shaped date built from the leftmost match. */
  lemma NormalizeDateCases(s: string)
    ensures NormalizeDate(s).None? <==> s == []
    ensures s != [] && (forall q :: 0 <= q < |s| ==> MatchAt(s, q).None?) ==> NormalizeDate(s) == Some(s)
    ensures forall p :: 0 <= p < |s| && MatchAt(s, p).Some? && (forall q :: 0 <= q < p ==> MatchAt(s, q).None?)
              ==> NormalizeDate(s) == Some(FormatIso(MatchAt(s, p).value)) && IsIso(NormalizeDate(s).value)
  {
    forall p | 0 <= p < |s| && MatchAt(s, p).Some? && (forall q :: 0 <= q < p ==> MatchAt(s, q).None?)
      ensures NormalizeDate(s) == Some(FormatIso(MatchAt(s, p).value)) && IsIso(NormalizeDate(s).value)
    {
      var r := FirstMatch(s, 0);
      assert r == Some(p);
      FormatIsoMeaning(MatchAt(s, p).value);
    }
  }

  /** The text at `p` reads `a`, a separator, `b`, a separator, then `c`. */
  predicate ReadsAt(s: string, p: nat, a: string, b: string, c: string)
  {
    var i := p + |a|;
    var j := i + 1 + |b|;
    j + 1 + |c| <= |s| && s[p..i] == a && IsSep(s[i]) && s[i + 1..j] == b && IsSep(s[j])
    && s[j + 1..j + 1 + |c|] == c
  }

  /** What the first alternative captured is really in the text, in
      year-month-day order, and its last group takes two digits whenever two
      are there. */
  lemma YearFirstReadsText(s: string, p: nat)
    requires YearFirstAt(s, p).Some?
    ensures var g := YearFirstAt(s, p).value;
      ReadsAt(s, p, g.year, g.month, g.day)
      && (|g.day| == 2 || p + 4 + 1 + |g.month| + 1 + 1 == |s| || !IsDigit(s[p + 4 + 1 + |g.month| + 1 + 1]))
  {
  }

  /** What the second alternative captured is in the text in day-month-year
      order, and it is what the search reports when the first one fails. */
  lemma DayFirstReadsText(s: string, p: nat)
    requires YearFirstAt(s, p).None? && DayFirstAt(s, p).Some?
    ensures var g := DayFirstAt(s, p).value;
      MatchAt(s, p) == Some(g) && ReadsAt(s, p, g.day, g.month, g.year)
  {
  }

  /** On an ISO-shaped text the first alternative matches at position 0 and
      captures the three fields as they stand. */
  lemma IsoMatchesItself(t: string)
    requires IsIso(t)
    ensures MatchAt(t, 0) == Some(DateGroups(t[..4], t[5..7], t[8..]))
  {
    assert t[0..4] == t[..4];
    assert ShortField(t, 5) == Some(t[5..7]);
    assert t[8..10] == t[8..];
  }

  /** ISO dates are fixed points: they come back exactly as given. */
  lemma NormalizeIso(t: string)
    requires IsIso(t)
    ensures NormalizeDate(t) == Some(t)
  {
    IsoMatchesItself(t);
    assert FirstMatch(t, 0) == Some(0);
    var g := DateGroups(t[..4], t[5..7], t[8..]);
    PaddedIsGroup(g.year, 4);
    PaddedIsGroup(g.month, 2);
    PaddedIsGroup(g.day, 2);
    assert t == g.year + "-" + g.month + "-" + g.day;
  }

  /** Normalising twice is the same as normalising once. */
  lemma NormalizeDateIdempotent(s: string)
    requires s != []
    ensures NormalizeDate(NormalizeDate(s).value) == NormalizeDate(s)
  {
    match FirstMatch(s, 0)
    case None =>
    case Some(p) =>
      FormatIsoMeaning(MatchAt(s, p).value);
      NormalizeIso(FormatIso(MatchAt(s, p).value));
  }

  /** A non-empty text always normalises to a non-empty text. */
  lemma NormalizeNonEmpty(s: string)
    requires s != []
    ensures NormalizeDate(s).Some? && NormalizeDate(s).value != []
  {
    NormalizeDateCases(s);
    if FirstMatch(s, 0).Some? {
      FormatIsoMeaning(MatchAt(s, FirstMatch(s, 0).value).value);
    }
  }

  /** A match at the very start decides the result. */
  lemma NormalizeAtStart(s: string, g: DateGroups)
    requires MatchAt(s, 0) == Some(g)
    ensures NormalizeDate(s) == Some(FormatIso(g))
  {
    assert FirstMatch(s, 0) == Some(0);
  }

  /** With two-digit month and day, formatting only inserts the dashes. */
  lemma FormatIsoOfFullGroups(g: DateGroups)
    requires ValidGroups(g) && |g.month| == 2 && |g.day| == 2
    ensures FormatIso(g) == g.year + "-" + g.month + "-" + g.day
  {
    PaddedIsGroup(g.year, 4);
    PaddedIsGroup(g.month, 2);
    PaddedIsGroup(g.day, 2);
  }

  /** A slash-separated `DD/MM/YYYY` text is read by the second alternative. */
  lemma DayFirstOfText(dd: string, mm: string, yyyy: string)
    requires |dd| == 2 && |mm| == 2 && |yyyy| == 4 && AllDigits(dd) && AllDigits(mm) && AllDigits(yyyy)
    ensures MatchAt(dd + "/" + mm + "/" + yyyy, 0) == Some(DateGroups(yyyy, mm, dd))
  {
    var s := dd + "/" + mm + "/" + yyyy;
    assert s[0] == dd[0] && s[1] == dd[1] && s[2] == '/';
    assert s[3] == mm[0] && s[4] == mm[1] && s[5] == '/';
    assert s[0..2] == dd && s[3..5] == mm && s[6..10] == yyyy;
    assert !IsSep(s[4]);
    assert ShortField(s, 0) == Some(dd);
    assert ShortField(s, 3) == Some(mm);
  }

  lemma MiddleOf(x: string, y: string, z: string)
    ensures (x + y + z)[|x|..|x| + |y|] == y && (x + y + z)[|x| + |y|..] == z
  {
  }

  /** A slash-separated `YYYY/M/D` text, each of month and day one or two
      digits, is read by the first alternative. */
  lemma YearFirstOfText(yyyy: string, m: string, d: string)
    requires |yyyy| == 4 && 1 <= |m| <= 2 && 1 <= |d| <= 2 && AllDigits(yyyy) && AllDigits(m) && AllDigits(d)
    ensures MatchAt(yyyy + "/" + m + "/" + d, 0) == Some(DateGroups(yyyy, m, d))
  {
    var s := yyyy + "/" + m + "/" + d;
    var q := 5 + |m| + 1;
    MiddleOf(yyyy + "/", m, "/" + d);
    assert s == (yyyy + "/") + m + ("/" + d);
    assert s[0..4] == yyyy && s[4] == '/';
    assert s[5..5 + |m|] == m && s[5 + |m|] == '/';
    assert s[5] == m[0];
    if |m| == 2 {
      assert s[6] == m[1];
    }
    assert ShortField(s, 5) == Some(m);
    var pre := yyyy + "/" + m + "/";
    assert s == pre + d && |pre| == q;
    MiddleOf(pre, d, []);
    assert pre + d + [] == s;
    assert s[q..q + |d|] == d;
    assert s[q] == d[0];
    if |d| == 2 {
      assert s[q + 1] == d[1];
    }
  }

  /** A day-first date is turned around. */
  lemma DayFirstExample()
    ensures NormalizeDate("05/10/2025") == Some("2025-10-05")
  {
    assert "05" + "/" + "10" + "/" + "2025" == "05/10/2025";
    assert "2025" + "-" + "10" + "-" + "05" == "2025-10-05";
    NormalizeDayFirst("05", "10", "2025", "05/10/2025", "2025-10-05");
  }

  /** `DD/MM/YYYY` becomes `YYYY-MM-DD`. */
  lemma NormalizeDayFirst(dd: string, mm: string, yyyy: string, s: string, iso: string)
    requires |dd| == 2 && |mm| == 2 && |yyyy| == 4 && AllDigits(dd) && AllDigits(mm) && AllDigits(yyyy)
    requires s == dd + "/" + mm + "/" + yyyy && iso == yyyy + "-" + mm + "-" + dd
    ensures NormalizeDate(s) == Some(iso)
  {
    var g := DateGroups(yyyy, mm, dd);
    DayFirstOfText(dd, mm, yyyy);
    NormalizeAtStart(s, g);
    FormatIsoOfFullGroups(g);
  }

  /** One-digit month and day are zero-padded. */
  lemma PaddingExample()
    ensures NormalizeDate("2025/1/5") == Some("2025-01-05")
  {
    assert "2025" + "/" + "1" + "/" + "5" == "2025/1/5";
    assert "2025" + "-0" + "1" + "-0" + "5" == "2025-01-05";
    NormalizeShortFields("2025", "1", "5", "2025/1/5", "2025-01-05");
  }

  /** `YYYY/M/D` with one-digit month and day becomes `YYYY-0M-0D`. */
  lemma NormalizeShortFields(yyyy: string, m: string, d: string, s: string, iso: string)
    requires |yyyy| == 4 && |m| == 1 && |d| == 1 && AllDigits(yyyy) && AllDigits(m) && AllDigits(d)
    requires s == yyyy + "/" + m + "/" + d && iso == yyyy + "-0" + m + "-0" + d
    ensures NormalizeDate(s) == Some(iso)
  {
    var g := DateGroups(yyyy, m, d);
    YearFirstOfText(yyyy, m, d);
    NormalizeAtStart(s, g);
    FormatIsoOfShortGroups(g);
  }

  /** With one-digit month and day, formatting adds a zero before each. */
  lemma FormatIsoOfShortGroups(g: DateGroups)
    requires ValidGroups(g) && |g.month| == 1 && |g.day| == 1
    ensures FormatIso(g) == g.year + "-0" + g.month + "-0" + g.day
  {
    PaddedIsGroup(g.year, 4);
    PaddedDigit(g.month);
    PaddedDigit(g.day);
  }

  lemma PaddedDigit(digits: string)
    requires |digits| == 1 && AllDigits(digits)
    ensures Padded(digits, 2) == "0" + digits
  {
    var v := DigitVal(digits[0]);
    assert DigitsValue(digits) == v by { assert digits[..0] == []; }
    assert NatText(v) == digits;
  }

  /** Month and day are not range-checked: a month-first date yields a month of 25. */
  lemma MonthNotValidatedExample()
    ensures NormalizeDate("12/25/2025") == Some("2025-25-12")
  {
    assert "12" + "/" + "25" + "/" + "2025" == "12/25/2025";
    assert "2025" + "-" + "25" + "-" + "12" == "2025-25-12";
    NormalizeDayFirst("12", "25", "2025", "12/25/2025", "2025-25-12");
  }

  /** Four digits in a row at `i`. */
  predicate FourDigitsAt(s: string, i: nat)
  {
    i + 4 <= |s| && AllDigits(s[i..i + 4])
  }

  /** Both alternatives need a run of four digits, so a match shows where one is. */
  lemma MatchNeedsYear(s: string, q: nat) returns (y: nat)
    requires MatchAt(s, q).Some?
    ensures FourDigitsAt(s, y)
  {
    if YearFirstAt(s, q).Some? {
      y := q;
    } else {
      var dd := ShortField(s, q).value;
      var mm := ShortField(s, q + |dd| + 1).value;
      y := q + |dd| + 1 + |mm| + 1;
    }
  }

  /** Text without four digits in a row is handed back as it is. */
  lemma NoYearNoMatch(s: string)
    requires s != []
    requires forall i: nat :: !FourDigitsAt(s, i)
    ensures NormalizeDate(s) == Some(s)
  {
    if FirstMatch(s, 0).Some? {
      var y := MatchNeedsYear(s, FirstMatch(s, 0).value);
    }
  }

  /** A two-digit year matches neither alternative: the date stays as written
      and is not ISO-shaped. */
  lemma TwoDigitYearExample(s: string)
    requires s == "5/10/25"
    ensures NormalizeDate(s) == Some(s) && !IsIso(s)
  {
    forall i: nat ensures !FourDigitsAt(s, i) {
      if i + 4 > |s| {
      } else if i <= 1 {
        assert s[i..i + 4][1 - i] == s[1] == '/';
      } else {
        assert s[i..i + 4][4 - i] == s[4] == '/';
      }
    }
    NoYearNoMatch(s);
  }
}
