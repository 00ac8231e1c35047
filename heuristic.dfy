/** `_local_parse_text_for_txns`: the fallback extractor's filter. The text
    scan itself is regex-engine behaviour; what is modelled is what happens to
    each match it yields, in the order they come. */
module Heuristic {
  import opened Options
  import opened Seqs
  import opened PyJson
  import opened Normalizers
  import opened Dates
  import opened Records

  /** One `TXN_LINE_RE` match: the whole matched span, and the text of its
      `date` and `amt` groups. */
  datatype TxnMatch = TxnMatch(span: string, date: string, amount: string)

  /** The dictionary built from one match, when its date normalises to a
      non-empty text and its amount parses; balance and category are `None`. */
  function Accept(m: TxnMatch): (r: Option<Txn>)
    ensures r.Some? ==> r.value.date != [] && r.value.balance == None && r.value.category == JNull
  {
    var date := NormalizeDate(m.date);
    var amt := ToFloat(JStr(m.amount));
    if date.Some? && date.value != [] && amt.Some? then
      Some(Txn(date.value, Strip(m.span), amt.value, None, JNull))
    else None
  }

  /** What the filter makes of each match, in match order. */
  function Outcomes(ms: seq<TxnMatch>): (r: seq<Option<Txn>>)
    ensures |r| == |ms|
  {
    Map(Accept, ms)
  }

  /** The accepted matches, in match order. */
  function Parsed(ms: seq<TxnMatch>): (r: seq<Txn>)
  {
    Somes(Outcomes(ms))
  }

  /** The loop of `_local_parse_text_for_txns` over the matches. */
  method LocalParse(ms: seq<TxnMatch>) returns (txns: seq<Txn>)
    ensures txns == Parsed(ms)
  {
    txns := [];
    ghost var os := Outcomes(ms);
    var i := 0;
    while i < |ms|
      invariant 0 <= i <= |ms|
      invariant txns == Somes(os[..i])
    {
      var m := ms[i];
      var date := NormalizeDate(m.date);
      var amt := ToFloat(JStr(m.amount));
      var desc := m.span;
      SomesSnoc(os, i);
      AcceptOf(m, date, amt);
      if date.Some? && date.value != [] && amt.Some? {
        txns := txns + [Txn(date.value, Strip(desc), amt.value, None, JNull)];
      }
      i := i + 1;
    }
    assert os[..i] == os;
  }

  // ---------------------------------------------------------------- properties

  lemma AcceptOf(m: TxnMatch, date: Option<string>, amt: Option<real>)
    requires date == NormalizeDate(m.date) && amt == ToFloat(JStr(m.amount))
    ensures Accept(m) == if date.Some? && date.value != [] && amt.Some?
                         then Some(Txn(date.value, Strip(m.span), amt.value, None, JNull)) else None
  {
  }

  /** A match is kept exactly when its date group is non-empty and its amount
      parses; the entry then carries the normalised date, the parsed amount
      and the stripped span, and its date is either ISO-shaped or the date
      group as written. */
  lemma AcceptMeaning(m: TxnMatch)
    ensures Accept(m).Some? <==> m.date != [] && ToFloat(JStr(m.amount)).Some?
    ensures Accept(m).Some? ==>
      var x := Accept(m).value;
      Some(x.date) == NormalizeDate(m.date) && Some(x.amount) == ToFloat(JStr(m.amount))
      && x.description == Strip(m.span)
      && (IsIso(x.date) || x.date == m.date)
  {
    if m.date != [] {
      NormalizeNonEmpty(m.date);
      NormalizeDateCases(m.date);
      if FirstMatch(m.date, 0).Some? {
        FormatIsoMeaning(MatchAt(m.date, FirstMatch(m.date, 0).value).value);
      }
    }
  }

  /** An entry is produced exactly when some match is accepted as it. */
  lemma ParsedMember(ms: seq<TxnMatch>, x: Txn)
    ensures x in Parsed(ms) <==> exists i :: 0 <= i < |ms| && Accept(ms[i]) == Some(x)
  {
    SomesMember(Outcomes(ms), x);
    if exists i :: 0 <= i < |ms| && Accept(ms[i]) == Some(x) {
      var i :| 0 <= i < |ms| && Accept(ms[i]) == Some(x);
      assert Outcomes(ms)[i] == Some(x);
    }
  }

  /** Entries keep match order: the entries of a longer scan extend those of
      its beginning. */
  lemma ParsedAppend(a: seq<TxnMatch>, b: seq<TxnMatch>)
    ensures Parsed(a + b) == Parsed(a) + Parsed(b)
  {
    MapAppend(Accept, a, b);
    SomesAppend(Outcomes(a), Outcomes(b));
  }

  /** A date with a two-digit year passes the filter unchanged, so the
      fallback can emit dates that are not ISO-shaped. */
  lemma TwoDigitYearKept(m: TxnMatch)
    requires m.date == "5/10/25" && ToFloat(JStr(m.amount)).Some?
    ensures Accept(m).Some? && Accept(m).value.date == "5/10/25" && !IsIso(Accept(m).value.date)
  {
    TwoDigitYearExample(m.date);
  }
}
