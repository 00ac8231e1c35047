/** `_post_process_extracted`: the reconciliation engine. It coerces the
    extracted JSON, normalises and validates each transaction, drops repeated
    (date, lower-cased description, amount) keys, sorts by date, normalises
    the account and summary sections and records what it found in a
    `Quality` object. */
module Reconcile {
  import opened Options
  import opened Seqs
  import opened PyJson
  import opened Normalizers
  import opened Dates
  import opened Masking
  import opened Records
  import opened Coercer
  import opened DateSort

  /** The processing-quality record; its methods' callers update its fields in place. */
  class Quality {
    var ocrConfidence: Option<real>
    var pageRotationWarnings: bool
    var missingSections: seq<string>
    var duplicateEntries: bool
    var geminiUsed: bool
    var geminiError: Option<string>
    var notes: seq<string>

    /** The dataclass defaults. */
    constructor()
      ensures ocrConfidence == None && !pageRotationWarnings && missingSections == []
      ensures !duplicateEntries && !geminiUsed && geminiError == None && notes == []
    {
      ocrConfidence := None;
      pageRotationWarnings := false;
      missingSections := [];
      duplicateEntries := false;
      geminiUsed := false;
      geminiError := None;
      notes := [];
    }
  }

  /** The Python exceptions the function can let escape. */
  datatype PyError = TypeError | AttributeError

  datatype PostResult = Done(fields: Fields) | Raised(error: PyError)

  // ---------------------------------------------------------------- one entry

  /** What the loop does with one entry of the transaction list. */
  datatype Step = Skipped | Accepted(txn: Txn) | Raises

  /** `t.get("date") or t.get("Date") or t.get("date_str")`. */
  function RawDate(t: Json): (r: Json)
  {
    Or(Or(Get(t, "date"), Get(t, "Date")), Get(t, "date_str"))
  }

  /** A transaction the reconciler can keep: dated, described, with no
      surrounding whitespace in the description. */
  predicate ValidTxn(x: Txn)
  {
    x.date != [] && x.description != [] && Trimmed(x.description)
  }

  /** The entry's date after `_normalize_date`, for a string or falsy raw date. */
  function EntryDate(raw: Json): (r: Option<string>)
  {
    if Truthy(raw) && raw.JStr? then NormalizeDate(raw.s) else None
  }

  /** `str(t.get("description") or t.get("Description") or "").strip()`. */
  function EntryDescription(t: Json): (d: string)
    ensures Trimmed(d)
  {
    Strip(Str(Or(Or(Get(t, "description"), Get(t, "Description")), JStr(""))))
  }

  /** `_to_float(t.get(key) or t.get(Key))`. */
  function EntryAmount(t: Json, key: string, capitalised: string): (r: Option<real>)
  {
    ToFloat(Or(Get(t, key), Get(t, capitalised)))
  }

  /** The test that decides whether an entry is kept. */
  function Keep(date: Option<string>, desc: string, amt: Option<real>, bal: Option<real>, category: Json): (r: Step)
    requires Trimmed(desc)
    ensures r.Accepted? ==> ValidTxn(r.txn) && r.txn.description == desc
  {
    if date.Some? && date.value != [] && desc != [] && amt.Some? then
      Accepted(Txn(date.value, desc, amt.value, bal, category))
    else Skipped
  }

  /** A non-dictionary entry is skipped; a truthy non-string date makes the
      regex search raise `TypeError`; otherwise the entry is kept when it has
      a date, a non-blank description and a parsable amount. */
  function Examine(t: Json): (r: Step)
    ensures r.Accepted? ==> ValidTxn(r.txn)
  {
    if !t.JObj? then Skipped
    else if Truthy(RawDate(t)) && !RawDate(t).JStr? then Raises
    else Keep(EntryDate(RawDate(t)), EntryDescription(t), EntryAmount(t, "amount", "Amount"),
              EntryAmount(t, "balance", "Balance"), Get(t, "category"))
  }

  /** Which entries are skipped, which raise and which are kept. */
  lemma ExamineCases(t: Json)
    ensures !t.JObj? ==> Examine(t) == Skipped
    ensures Examine(t) == Raises <==> t.JObj? && Truthy(RawDate(t)) && !RawDate(t).JStr?
    ensures Examine(t).Accepted? <==>
              t.JObj? && RawDate(t).JStr? && RawDate(t).s != []
              && EntryDescription(t) != [] && EntryAmount(t, "amount", "Amount").Some?
  {
    if t.JObj? && !(Truthy(RawDate(t)) && !RawDate(t).JStr?) {
      var raw := RawDate(t);
      EntryDateCases(raw);
      KeepCases(EntryDate(raw), EntryDescription(t), EntryAmount(t, "amount", "Amount"),
                EntryAmount(t, "balance", "Balance"), Get(t, "category"));
    }
  }

  /** A date is usable exactly when it is a non-empty string. */
  lemma EntryDateCases(raw: Json)
    ensures EntryDate(raw).Some? && EntryDate(raw).value != [] <==> raw.JStr? && raw.s != []
  {
    if raw.JStr? && raw.s != [] {
      NormalizeNonEmpty(raw.s);
    }
  }

  lemma KeepCases(date: Option<string>, desc: string, amt: Option<real>, bal: Option<real>, category: Json)
    requires Trimmed(desc)
    ensures Keep(date, desc, amt, bal, category).Accepted? <==>
              date.Some? && date.value != [] && desc != [] && amt.Some?
  {
  }

  /** Every entry examined, in order. `Examine` is pure, so the loop's
      outcome depends on the entries only through these steps. */
  function StepsOf(items: seq<Json>): (r: seq<Step>)
    ensures |r| == |items|
  {
    seq(|items|, k requires 0 <= k < |items| => Examine(items[k]))
  }

  /** The accepted transactions, in order. */
  function Kept(steps: seq<Step>): (r: seq<Txn>)
    ensures |r| <= |steps|
  {
    if steps == [] then []
    else
      var last := steps[|steps| - 1];
      Kept(steps[..|steps| - 1]) + (if last.Accepted? then [last.txn] else [])
  }

  predicate NoRaise(steps: seq<Step>)
  {
    forall i :: 0 <= i < |steps| ==> !steps[i].Raises?
  }

  /** The entries the loop would keep if there were no duplicates. */
  function Candidates(items: seq<Json>): (r: seq<Txn>)
  {
    Kept(StepsOf(items))
  }

  /** What `for t in raw_txns or []` walks over: a list's elements, a
      string's characters, a dictionary's keys; numbers and `True` are not
      iterable. */
  function Items(raw: Json): (r: Option<seq<Json>>)
  {
    if !Truthy(raw) then Some([])
    else match raw
      case JArr(xs) => Some(xs)
      case JStr(s) => Some(Chars(s))
      case JObj(es) => Some(Keys(es))
      case _ => None
  }

  /** A string iterates as its one-character strings. */
  function Chars(s: string): (r: seq<Json>)
    ensures |r| == |s|
  {
    if s == [] then [] else [JStr([s[0]])] + Chars(s[1..])
  }

  /** A dictionary iterates as its keys. */
  function Keys(es: seq<(string, Json)>): (r: seq<Json>)
    ensures |r| == |es|
  {
    if es == [] then [] else [JStr(es[0].0)] + Keys(es[1..])
  }

  // ---------------------------------------------------------------- duplicates

  type Key = (string, string, real)

  function KeyOf(x: Txn): (r: Key)
  {
    (x.date, Lower(x.description), x.amount)
  }

  function KeySet(ts: seq<Txn>): (r: set<Key>)
  {
    if ts == [] then {} else KeySet(ts[..|ts| - 1]) + {KeyOf(ts[|ts| - 1])}
  }

  /** The loop's `txns`: each candidate whose key has not been seen yet. */
  function Dedup(cs: seq<Txn>): (r: seq<Txn>)
    ensures |r| <= |cs|
  {
    if cs == [] then []
    else
      var p := Dedup(cs[..|cs| - 1]);
      var x := cs[|cs| - 1];
      if KeyOf(x) in KeySet(p) then p else p + [x]
  }

  /** The loop's `dup`: set as soon as a key repeats. */
  function DupFlag(cs: seq<Txn>): (r: bool)
  {
    if cs == [] then false
    else DupFlag(cs[..|cs| - 1]) || KeyOf(cs[|cs| - 1]) in KeySet(cs[..|cs| - 1])
  }

  predicate DistinctKeys(s: seq<Txn>)
  {
    forall i, j :: 0 <= i < j < |s| ==> KeyOf(s[i]) != KeyOf(s[j])
  }

  predicate HasDuplicateKeys(cs: seq<Txn>)
  {
    exists i, j :: 0 <= i < j < |cs| && KeyOf(cs[i]) == KeyOf(cs[j])
  }

  /** No earlier candidate has the key of candidate `i`. */
  predicate FirstOfKey(cs: seq<Txn>, i: nat)
    requires i < |cs|
  {
    forall j :: 0 <= j < i ==> KeyOf(cs[j]) != KeyOf(cs[i])
  }

  // ---------------------------------------------------------------- the sections

  function AccountFields(acct: Json): (r: AccountInfo)
  {
    AccountInfo(Or(Get(acct, "Bank name"), Get(acct, "bank_name")),
                Or(Get(acct, "Account holder name"), Get(acct, "account_holder_name")),
                MaskAccount(Or(Get(acct, "Account number"), Get(acct, "account_number"))),
                Or(Get(acct, "Statement month"), Get(acct, "statement_month")),
                Or(Get(acct, "Account type"), Get(acct, "account_type")))
  }

  /** `_to_float(summary.get(human) or summary.get(alias))`. */
  function Amount(summary: Json, human: string, alias: string): (r: Option<real>)
  {
    ToFloat(Or(Get(summary, human), Get(summary, alias)))
  }

  function SummaryFields(summary: Json): (r: SummaryValues)
  {
    SummaryValues(Amount(summary, "Opening balance", "opening_balance"),
                  Amount(summary, "Closing balance", "closing_balance"),
                  Amount(summary, "Total credits", "total_credits"),
                  Amount(summary, "Total debits", "total_debits"),
                  Amount(summary, "Average daily balance", "average_daily_balance"))
  }

  /** `quality.missing_sections`, in the order the checks are made. */
  function MissingSections(f: Fields): (r: seq<string>)
  {
    (if f.txns == [] then ["transactions"] else [])
    + (if f.summary.opening.None? then ["opening_balance"] else [])
    + (if f.summary.closing.None? then ["closing_balance"] else [])
  }

  // ---------------------------------------------------------------- the whole function

  /** The list the loop walks, or `None` when iterating it raises. */
  function ItemsOf(extracted: Json): (r: Option<seq<Json>>)
  {
    Items(Or(Coerce(extracted).txns, EmptyList))
  }

  function AccountSection(extracted: Json): (r: Json)
  {
    Or(Coerce(extracted).account, EmptyDict)
  }

  function SummarySection(extracted: Json): (r: Json)
  {
    Or(Coerce(extracted).summary, EmptyDict)
  }

  /** The value `_post_process_extracted` returns, or the exception it raises. */
  function PostProcessed(extracted: Json): (r: PostResult)
  {
    match ItemsOf(extracted)
    case None => Raised(TypeError)
    case Some(items) =>
      if !NoRaise(StepsOf(items)) then Raised(TypeError)
      else if !AccountSection(extracted).JObj? || !SummarySection(extracted).JObj? then Raised(AttributeError)
      else Done(Fields(AccountFields(AccountSection(extracted)), SummaryFields(SummarySection(extracted)),
                       Reconciled(items)))
  }

  /** The transactions returned for the entries walked: candidates, first
      of each key, ordered by date. */
  function Reconciled(items: seq<Json>): (r: seq<Txn>)
  {
    SortByDate(Dedup(Candidates(items)))
  }

  /** Whether the function gets as far as writing `duplicate_entries`. */
  predicate ReachesFlag(extracted: Json)
  {
    ItemsOf(extracted).Some? && NoRaise(StepsOf(ItemsOf(extracted).value))
  }

  /** The loop over the examined entries: whether one raised, and otherwise
      the kept transactions and the duplicate flag. */
  method Collect(steps: seq<Step>) returns (raised: bool, txns: seq<Txn>, dup: bool)
    ensures raised <==> !NoRaise(steps)
    ensures !raised ==> txns == Dedup(Kept(steps)) && dup == DupFlag(Kept(steps))
  {
    txns, dup := [], false;
    var seen: set<Key> := {};
    ghost var cs: seq<Txn> := [];
    var i := 0;
    while i < |steps|
      invariant 0 <= i <= |steps|
      invariant NoRaise(steps[..i])
      invariant cs == Kept(steps[..i])
      invariant txns == Dedup(cs)
      invariant seen == KeySet(txns)
      invariant dup == DupFlag(cs)
    {
      var step := steps[i];
      StepSnoc(steps, i);
      if step.Raises? {
        return true, txns, dup;
      }
      if step.Accepted? {
        var x := step.txn;
        DedupKeySet(cs);
        DedupSnoc(cs, x);
        DupFlagSnoc(cs, x);
        KeySetSnoc(txns, x);
        if KeyOf(x) in seen {
          dup := true;
        } else {
          seen := seen + {KeyOf(x)};
          txns := txns + [x];
        }
        cs := cs + [x];
      }
      i := i + 1;
    }
    assert steps[..i] == steps;
    return false, txns, dup;
  }

  /** The reconciliation step. Returns the normalised fields or the exception
      raised, and updates `quality`'s duplicate flag and missing sections. */
  method PostProcess(extracted: Json, quality: Quality) returns (res: PostResult)
    modifies quality`duplicateEntries, quality`missingSections
    ensures res == PostProcessed(extracted)
    ensures quality.duplicateEntries
            == if ReachesFlag(extracted) then DupFlag(Candidates(ItemsOf(extracted).value))
               else old(quality.duplicateEntries)
    ensures quality.missingSections
            == if res.Done? then MissingSections(res.fields) else old(quality.missingSections)
  {
    var acct := AccountSection(extracted);
    var summary := SummarySection(extracted);
    var walked := ItemsOf(extracted);
    if walked.None? {
      assert PostProcessed(extracted) == Raised(TypeError) && !ReachesFlag(extracted);
      return Raised(TypeError);
    }
    var items := walked.value;
    var raised, txns, dup := Collect(StepsOf(items));
    if raised {
      assert PostProcessed(extracted) == Raised(TypeError) && !ReachesFlag(extracted);
      return Raised(TypeError);
    }
    assert ReachesFlag(extracted) && dup == DupFlag(Candidates(items));
    quality.duplicateEntries := dup;
    txns := SortByDate(txns);
    assert txns == Reconciled(items);
    if !acct.JObj? || !summary.JObj? {
      assert PostProcessed(extracted) == Raised(AttributeError);
      return Raised(AttributeError);
    }
    var fields := Fields(AccountFields(acct), SummaryFields(summary), txns);
    PostProcessedDone(extracted, items);
    quality.missingSections := MissingSections(fields);
    return Done(fields);
  }

  lemma PostProcessedDone(extracted: Json, items: seq<Json>)
    requires ItemsOf(extracted) == Some(items) && NoRaise(StepsOf(items))
    requires AccountSection(extracted).JObj? && SummarySection(extracted).JObj?
    ensures PostProcessed(extracted)
            == Done(Fields(AccountFields(AccountSection(extracted)), SummaryFields(SummarySection(extracted)), Reconciled(items)))
  {
  }

  // ---------------------------------------------------------------- one more candidate

  /** One more examined entry. */
  lemma StepSnoc(steps: seq<Step>, i: nat)
    requires i < |steps|
    ensures Kept(steps[..i + 1]) == Kept(steps[..i]) + (if steps[i].Accepted? then [steps[i].txn] else [])
    ensures NoRaise(steps[..i + 1]) <==> NoRaise(steps[..i]) && !steps[i].Raises?
    ensures steps[i].Raises? ==> !NoRaise(steps)
  {
    assert steps[..i + 1][..i] == steps[..i];
    assert steps[..i + 1][i] == steps[i];
  }

  /** One more candidate is kept unless its key was seen already. */
  lemma DedupSnoc(cs: seq<Txn>, x: Txn)
    ensures Dedup(cs + [x]) == if KeyOf(x) in KeySet(Dedup(cs)) then Dedup(cs) else Dedup(cs) + [x]
  {
    assert (cs + [x])[..|cs|] == cs;
  }

  /** One more candidate raises the flag exactly when its key was seen already. */
  lemma DupFlagSnoc(cs: seq<Txn>, x: Txn)
    ensures DupFlag(cs + [x]) == (DupFlag(cs) || KeyOf(x) in KeySet(cs))
  {
    assert (cs + [x])[..|cs|] == cs;
  }

  lemma KeySetSnoc(ts: seq<Txn>, x: Txn)
    ensures KeySet(ts + [x]) == KeySet(ts) + {KeyOf(x)}
  {
    assert (ts + [x])[..|ts|] == ts;
  }

  // ---------------------------------------------------------------- facts about the key set

  lemma {:induction false} KeySetMember(ts: seq<Txn>, k: Key)
    ensures k in KeySet(ts) <==> exists i :: 0 <= i < |ts| && KeyOf(ts[i]) == k
    decreases |ts|
  {
    if ts != [] {
      var p := ts[..|ts| - 1];
      KeySetMember(p, k);
      if exists i :: 0 <= i < |p| && KeyOf(p[i]) == k {
        var i :| 0 <= i < |p| && KeyOf(p[i]) == k;
        assert ts[i] == p[i];
      }
      if exists i :: 0 <= i < |ts| && KeyOf(ts[i]) == k {
        var i :| 0 <= i < |ts| && KeyOf(ts[i]) == k;
        if i < |p| { assert p[i] == ts[i]; }
      }
    }
  }

  // ---------------------------------------------------------------- facts about Dedup

  /** Deduplication loses no key. */
  lemma {:induction false} DedupKeySet(cs: seq<Txn>)
    ensures KeySet(Dedup(cs)) == KeySet(cs)
    decreases |cs|
  {
    if cs != [] {
      DedupKeySet(cs[..|cs| - 1]);
      var p := Dedup(cs[..|cs| - 1]);
      assert (p + [cs[|cs| - 1]])[..|p|] == p;
    }
  }

  /** Deduplication leaves no two transactions with the same key. */
  lemma {:induction false} DedupDistinct(cs: seq<Txn>)
    ensures DistinctKeys(Dedup(cs))
    decreases |cs|
  {
    if cs != [] {
      var p := Dedup(cs[..|cs| - 1]);
      var x := cs[|cs| - 1];
      DedupDistinct(cs[..|cs| - 1]);
      if KeyOf(x) !in KeySet(p) {
        KeySetMember(p, KeyOf(x));
        var r := p + [x];
        forall i, j | 0 <= i < j < |r| ensures KeyOf(r[i]) != KeyOf(r[j]) {
          if j == |p| {
            assert r[i] == p[i];
          } else {
            assert r[i] == p[i] && r[j] == p[j];
          }
        }
      }
    }
  }

  /** Deduplication only deletes, keeping the order of what remains. */
  lemma {:induction false} DedupSubseq(cs: seq<Txn>)
    ensures IsSubseq(Dedup(cs), cs)
    decreases |cs|
  {
    if cs == [] {
    } else {
      var c' := cs[..|cs| - 1];
      var x := cs[|cs| - 1];
      DedupSubseq(c');
      assert cs == c' + [x];
      if KeyOf(x) in KeySet(Dedup(c')) {
        IsSubseqExtend(Dedup(c'), c', x);
      } else {
        IsSubseqSnoc(Dedup(c'), c', x);
      }
    }
  }

  /** The first candidate with a given key is the one kept. */
  lemma DedupKeepsFirst(cs: seq<Txn>, x: Txn)
    ensures x in Dedup(cs) <==> exists i :: 0 <= i < |cs| && cs[i] == x && FirstOfKey(cs, i)
  {
    if x in Dedup(cs) {
      DedupKeptIsFirst(cs, x);
    }
    if exists i :: 0 <= i < |cs| && cs[i] == x && FirstOfKey(cs, i) {
      var i :| 0 <= i < |cs| && cs[i] == x && FirstOfKey(cs, i);
      DedupKeepsFirstAt(cs, i);
    }
  }

  lemma {:induction false} DedupKeptIsFirst(cs: seq<Txn>, x: Txn)
    requires x in Dedup(cs)
    ensures exists i :: 0 <= i < |cs| && cs[i] == x && FirstOfKey(cs, i)
    decreases |cs|
  {
    var c' := cs[..|cs| - 1];
    var n := |cs| - 1;
    if x in Dedup(c') {
      DedupKeptIsFirst(c', x);
      var i :| 0 <= i < |c'| && c'[i] == x && FirstOfKey(c', i);
      assert cs[i] == x;
      assert FirstOfKey(cs, i) by {
        forall j | 0 <= j < i ensures KeyOf(cs[j]) != KeyOf(cs[i]) { assert cs[j] == c'[j]; }
      }
    } else {
      DedupKeySet(c');
      KeySetMember(c', KeyOf(cs[n]));
      assert x == cs[n];
      assert FirstOfKey(cs, n) by {
        forall j | 0 <= j < n ensures KeyOf(cs[j]) != KeyOf(cs[n]) { assert cs[j] == c'[j]; }
      }
    }
  }

  lemma {:induction false} DedupKeepsFirstAt(cs: seq<Txn>, i: nat)
    requires i < |cs| && FirstOfKey(cs, i)
    ensures cs[i] in Dedup(cs)
    decreases |cs|
  {
    var c' := cs[..|cs| - 1];
    if i < |c'| {
      assert FirstOfKey(c', i) by {
        forall j | 0 <= j < i ensures KeyOf(c'[j]) != KeyOf(c'[i]) { assert cs[j] == c'[j]; }
      }
      DedupKeepsFirstAt(c', i);
      DedupGrows(cs);
    } else {
      FirstKeyUnseen(cs);
      DedupKeySet(c');
    }
  }

  /** What was kept stays kept when one more candidate arrives. */
  lemma DedupGrows(cs: seq<Txn>)
    requires cs != []
    ensures forall y :: y in Dedup(cs[..|cs| - 1]) ==> y in Dedup(cs)
  {
  }

  /** The last candidate, when first of its key, brings a key not seen before. */
  lemma FirstKeyUnseen(cs: seq<Txn>)
    requires cs != [] && FirstOfKey(cs, |cs| - 1)
    ensures KeyOf(cs[|cs| - 1]) !in KeySet(cs[..|cs| - 1])
  {
    var c' := cs[..|cs| - 1];
    var k := KeyOf(cs[|cs| - 1]);
    forall j | 0 <= j < |c'| ensures KeyOf(c'[j]) != k { assert c'[j] == cs[j]; }
    KeySetMember(c', k);
  }

  /** The duplicate flag is set exactly when two candidates share a key,
      which is exactly when deduplication dropped something. */
  lemma {:induction false} DupFlagMeaning(cs: seq<Txn>)
    ensures DupFlag(cs) <==> HasDuplicateKeys(cs)
    ensures DupFlag(cs) <==> |Dedup(cs)| < |cs|
    decreases |cs|
  {
    if cs != [] {
      var c' := cs[..|cs| - 1];
      var n := |cs| - 1;
      DupFlagMeaning(c');
      DedupKeySet(c');
      KeySetMember(c', KeyOf(cs[n]));
      if HasDuplicateKeys(c') {
        var i, j :| 0 <= i < j < |c'| && KeyOf(c'[i]) == KeyOf(c'[j]);
        assert cs[i] == c'[i] && cs[j] == c'[j];
      }
      if KeyOf(cs[n]) in KeySet(c') {
        var i :| 0 <= i < |c'| && KeyOf(c'[i]) == KeyOf(cs[n]);
        assert cs[i] == c'[i];
      }
      if HasDuplicateKeys(cs) {
        var i, j :| 0 <= i < j < |cs| && KeyOf(cs[i]) == KeyOf(cs[j]);
        if j < n {
          assert c'[i] == cs[i] && c'[j] == cs[j];
        } else {
          assert c'[i] == cs[i];
        }
      }
    }
  }

  /** A list without repeated keys is its own deduplication. */
  lemma {:induction false} DedupOfDistinct(cs: seq<Txn>)
    requires DistinctKeys(cs)
    ensures Dedup(cs) == cs
    decreases |cs|
  {
    if cs != [] {
      var c' := cs[..|cs| - 1];
      assert DistinctKeys(c') by {
        forall i, j | 0 <= i < j < |c'| ensures KeyOf(c'[i]) != KeyOf(c'[j]) { assert c'[i] == cs[i] && c'[j] == cs[j]; }
      }
      DedupOfDistinct(c');
      KeySetMember(c', KeyOf(cs[|cs| - 1]));
      assert cs == c' + [cs[|cs| - 1]];
    }
  }

  /** Deduplicating twice is deduplicating once. */
  lemma DedupIdempotent(cs: seq<Txn>)
    ensures Dedup(Dedup(cs)) == Dedup(cs)
  {
    DedupDistinct(cs);
    DedupOfDistinct(Dedup(cs));
  }

  // ---------------------------------------------------------------- sorting keeps keys distinct

  lemma {:induction false} InsertDistinct(x: Txn, ys: seq<Txn>)
    requires DistinctKeys(ys)
    requires forall k :: 0 <= k < |ys| ==> KeyOf(ys[k]) != KeyOf(x)
    ensures DistinctKeys(Insert(x, ys))
    decreases |ys|
  {
    if ys == [] {
    } else if !StrLt(ys[0].date, x.date) {
      var r := [x] + ys;
      forall i, j | 0 <= i < j < |r| ensures KeyOf(r[i]) != KeyOf(r[j]) {
        if i > 0 { assert r[i] == ys[i - 1]; }
        assert r[j] == ys[j - 1];
      }
    } else {
      var tail := ys[1..];
      DistinctTail(ys);
      InsertDistinct(x, tail);
      var rest := Insert(x, tail);
      InsertAvoids(x, ys);
      var r := [ys[0]] + rest;
      forall i, j | 0 <= i < j < |r| ensures KeyOf(r[i]) != KeyOf(r[j]) {
        assert r[j] == rest[j - 1];
        if i > 0 { assert r[i] == rest[i - 1]; }
      }
    }
  }

  lemma DistinctTail(ys: seq<Txn>)
    requires ys != [] && DistinctKeys(ys)
    ensures DistinctKeys(ys[1..])
  {
    var tail := ys[1..];
    forall i, j | 0 <= i < j < |tail| ensures KeyOf(tail[i]) != KeyOf(tail[j]) {
      assert tail[i] == ys[i + 1] && tail[j] == ys[j + 1];
    }
  }

  /** Inserting behind the head brings no second copy of the head's key. */
  lemma InsertAvoids(x: Txn, ys: seq<Txn>)
    requires ys != [] && DistinctKeys(ys) && KeyOf(ys[0]) != KeyOf(x)
    ensures forall j :: 0 <= j < |Insert(x, ys[1..])| ==> KeyOf(Insert(x, ys[1..])[j]) != KeyOf(ys[0])
  {
    var tail := ys[1..];
    var rest := Insert(x, tail);
    InsertMultiset(x, tail);
    forall j | 0 <= j < |rest| ensures KeyOf(rest[j]) != KeyOf(ys[0]) {
      assert rest[j] in multiset(rest);
      if rest[j] != x {
        assert rest[j] in multiset(tail);
        var k :| 0 <= k < |tail| && tail[k] == rest[j];
        assert ys[k + 1] == rest[j];
      }
    }
  }

  /** Sorting by date keeps the keys distinct. */
  lemma {:induction false} SortDistinct(s: seq<Txn>)
    requires DistinctKeys(s)
    ensures DistinctKeys(SortByDate(s))
    decreases |s|
  {
    if s != [] {
      var tail := s[1..];
      DistinctTail(s);
      SortDistinct(tail);
      var sorted := SortByDate(tail);
      SortByDatePermutes(tail);
      forall k | 0 <= k < |sorted| ensures KeyOf(sorted[k]) != KeyOf(s[0]) {
        assert sorted[k] in multiset(tail);
        var m :| 0 <= m < |tail| && tail[m] == sorted[k];
        assert s[m + 1] == sorted[k];
      }
      InsertDistinct(s[0], sorted);
    }
  }

  // ---------------------------------------------------------------- the returned transactions

  /** A transaction is a candidate exactly when some entry was accepted as it. */
  lemma {:induction false} KeptMember(steps: seq<Step>, x: Txn)
    ensures x in Kept(steps) <==> exists k :: 0 <= k < |steps| && steps[k] == Accepted(x)
    decreases |steps|
  {
    if steps != [] {
      var p := steps[..|steps| - 1];
      KeptMember(p, x);
      if exists k :: 0 <= k < |p| && p[k] == Accepted(x) {
        var k :| 0 <= k < |p| && p[k] == Accepted(x);
        assert steps[k] == p[k];
      }
      if exists k :: 0 <= k < |steps| && steps[k] == Accepted(x) {
        var k :| 0 <= k < |steps| && steps[k] == Accepted(x);
        if k < |p| { assert p[k] == steps[k]; }
      }
    }
  }

  /** Deduplication invents nothing. */
  lemma {:induction false} DedupMembers(cs: seq<Txn>, x: Txn)
    requires x in Dedup(cs)
    ensures x in cs
    decreases |cs|
  {
    var p := cs[..|cs| - 1];
    if x in Dedup(p) {
      DedupMembers(p, x);
      var k :| 0 <= k < |p| && p[k] == x;
      assert cs[k] == x;
    }
  }

  /** A returned transaction is exactly a candidate that no earlier candidate
      shares its key with: the first occurrence wins. */
  lemma ReconciledKeepsFirst(items: seq<Json>, x: Txn)
    ensures var cs := Candidates(items);
      x in Reconciled(items) <==> exists i :: 0 <= i < |cs| && cs[i] == x && FirstOfKey(cs, i)
  {
    var cs := Candidates(items);
    SortByDatePermutes(Dedup(cs));
    assert x in Reconciled(items) <==> x in multiset(Reconciled(items));
    DedupKeepsFirst(cs, x);
  }

  /** Every returned transaction is what some entry of the list was accepted as. */
  lemma ReconciledFromEntries(items: seq<Json>, x: Txn)
    requires x in Reconciled(items)
    ensures exists k :: 0 <= k < |items| && Examine(items[k]) == Accepted(x)
  {
    var cs := Candidates(items);
    SortByDatePermutes(Dedup(cs));
    assert x in multiset(Reconciled(items));
    DedupMembers(cs, x);
    KeptMember(StepsOf(items), x);
    var k :| 0 <= k < |items| && StepsOf(items)[k] == Accepted(x);
  }

  /** Every returned transaction has a date, a description with no surrounding
      whitespace, and (by its type) an amount. */
  lemma ReconciledValid(items: seq<Json>)
    ensures forall i :: 0 <= i < |Reconciled(items)| ==> ValidTxn(Reconciled(items)[i])
  {
    forall i | 0 <= i < |Reconciled(items)| ensures ValidTxn(Reconciled(items)[i]) {
      ReconciledFromEntries(items, Reconciled(items)[i]);
    }
  }

  /** Every accepted entry is represented by a returned transaction with its key. */
  lemma ReconciledComplete(items: seq<Json>, k: nat)
    requires k < |items| && Examine(items[k]).Accepted?
    ensures exists j :: 0 <= j < |Reconciled(items)| && KeyOf(Reconciled(items)[j]) == KeyOf(Examine(items[k]).txn)
  {
    var x := Examine(items[k]).txn;
    assert x in Candidates(items) by {
      assert StepsOf(items)[k] == Accepted(x);
      KeptMember(StepsOf(items), x);
    }
    var j := KeyRepresented(Candidates(items), x);
    assert KeyOf(Reconciled(items)[j]) == KeyOf(x);
  }

  /** Deduplicating and sorting keep a representative of every key. */
  lemma KeyRepresented(cs: seq<Txn>, x: Txn) returns (j: nat)
    requires x in cs
    ensures j < |SortByDate(Dedup(cs))| && KeyOf(SortByDate(Dedup(cs))[j]) == KeyOf(x)
  {
    var ds := Dedup(cs);
    var m := KeptKeyIndex(cs, x);
    SortByDatePermutes(ds);
    assert ds[m] in multiset(SortByDate(ds));
    j :| 0 <= j < |SortByDate(ds)| && SortByDate(ds)[j] == ds[m];
  }

  /** The position in the deduplicated list of the key of a candidate. */
  lemma KeptKeyIndex(cs: seq<Txn>, x: Txn) returns (m: nat)
    requires x in cs
    ensures m < |Dedup(cs)| && KeyOf(Dedup(cs)[m]) == KeyOf(x)
  {
    var i :| 0 <= i < |cs| && cs[i] == x;
    KeySetMember(cs, KeyOf(x));
    DedupKeySet(cs);
    KeySetMember(Dedup(cs), KeyOf(x));
    m :| 0 <= m < |Dedup(cs)| && KeyOf(Dedup(cs)[m]) == KeyOf(x);
  }

  /** No two returned transactions share a key. */
  lemma ReconciledDistinct(items: seq<Json>)
    ensures DistinctKeys(Reconciled(items))
  {
    DedupDistinct(Candidates(items));
    SortDistinct(Dedup(Candidates(items)));
  }

  /** The returned transactions are in date order. */
  lemma ReconciledSorted(items: seq<Json>)
    ensures SortedByDate(Reconciled(items))
  {
    SortByDateSorted(Dedup(Candidates(items)));
  }

  /** Transactions of one date keep the order in which they were first seen. */
  lemma ReconciledStable(items: seq<Json>, d: string)
    ensures WithDate(Reconciled(items), d) == WithDate(Dedup(Candidates(items)), d)
  {
    SortByDateStable(Dedup(Candidates(items)), d);
  }

  /** The duplicate flag is set exactly when fewer transactions come out than
      entries were accepted, which is when two accepted entries share a key. */
  lemma DuplicateFlagMeaning(items: seq<Json>)
    ensures DupFlag(Candidates(items)) <==> |Reconciled(items)| < |Candidates(items)|
    ensures DupFlag(Candidates(items)) <==> HasDuplicateKeys(Candidates(items))
  {
    DupFlagMeaning(Candidates(items));
  }

  // ---------------------------------------------------------------- outcomes

  /** What the loop walks: nothing for a falsy value; a number or `True`
      cannot be iterated. */
  lemma ItemsCases(raw: Json)
    ensures Items(raw).None? <==> Truthy(raw) && (raw.JNum? || raw.JBool?)
    ensures !Truthy(raw) ==> Items(raw) == Some([])
    ensures raw.JArr? ==> Items(raw) == Some(raw.items)
  {
  }

  /** The function returns exactly when the list can be walked, no entry
      raises and both sections are dictionaries; otherwise it raises
      `TypeError` in the loop, or `AttributeError` when reading the sections. */
  lemma PostProcessedOutcome(extracted: Json)
    ensures PostProcessed(extracted).Done?
            <==> ReachesFlag(extracted) && AccountSection(extracted).JObj? && SummarySection(extracted).JObj?
    ensures PostProcessed(extracted) == Raised(TypeError) <==> !ReachesFlag(extracted)
    ensures PostProcessed(extracted) == Raised(AttributeError)
            <==> ReachesFlag(extracted) && !(AccountSection(extracted).JObj? && SummarySection(extracted).JObj?)
  {
  }

  /** One entry with a truthy date that is not a string makes the whole call
      raise, whatever the other entries hold. */
  lemma NonStringDateRaises(extracted: Json, k: nat)
    requires ItemsOf(extracted).Some? && k < |ItemsOf(extracted).value|
    requires var t := ItemsOf(extracted).value[k];
      t.JObj? && Truthy(RawDate(t)) && !RawDate(t).JStr?
    ensures PostProcessed(extracted) == Raised(TypeError)
  {
    assert StepsOf(ItemsOf(extracted).value)[k].Raises?;
  }

  /** The returned account number is settled: masking it again changes
      nothing, and a number with four or more digits shows only its last four. */
  lemma AccountNumberMasked(extracted: Json)
    requires PostProcessed(extracted).Done?
    ensures var n := PostProcessed(extracted).fields.account.accountNumber;
      MaskAccount(n) == n
    ensures var acct := AccountSection(extracted);
      var raw := Or(Get(acct, "Account number"), Get(acct, "account_number"));
      var n := PostProcessed(extracted).fields.account.accountNumber;
      Truthy(raw) && |DigitsOf(Str(raw))| >= 4 ==>
        n.JStr? && n.s[..15] == MaskPrefix && DigitsOf(n.s) == DigitsOf(Str(raw))[|DigitsOf(Str(raw))| - 4..]
  {
    var acct := AccountSection(extracted);
    var raw := Or(Get(acct, "Account number"), Get(acct, "account_number"));
    assert PostProcessed(extracted).fields.account.accountNumber == MaskAccount(raw);
    MaskIdempotent(raw);
    if Truthy(raw) && |DigitsOf(Str(raw))| >= 4 {
      MaskedShape(DigitsOf(Str(raw)));
    }
  }

  /** `missing_sections` names the empty transaction list and each absent
      balance, in that order. */
  lemma MissingSectionsMeaning(f: Fields)
    ensures "transactions" in MissingSections(f) <==> f.txns == []
    ensures "opening_balance" in MissingSections(f) <==> f.summary.opening.None?
    ensures "closing_balance" in MissingSections(f) <==> f.summary.closing.None?
    ensures IsSubseq(MissingSections(f), ["transactions", "opening_balance", "closing_balance"])
  {
    var m := MissingSections(f);
    var all := ["transactions", "opening_balance", "closing_balance"];
    assert all[1..] == ["opening_balance", "closing_balance"];
    assert all[1..][1..] == ["closing_balance"];
    if m != [] {
      assert m[1..] == MissingSections(f)[1..];
    }
  }

  /** An opening balance of zero under the readable key, with no alias, is
      reported missing: zero is falsy, so the alias lookup yields `None`. */
  lemma ZeroOpeningIsMissing(summary: Json, d: Decimal)
    requires d.mantissa == 0 && Get(summary, "Opening balance") == JNum(d)
    requires Get(summary, "opening_balance") == JNull
    ensures SummaryFields(summary).opening == None
  {
  }

  /** The same zero under the alias is kept: `a or b` returns `b` even when falsy. */
  lemma ZeroAliasOpeningIsKept(summary: Json, d: Decimal)
    requires d.mantissa == 0 && !Truthy(Get(summary, "Opening balance"))
    requires Get(summary, "opening_balance") == JNum(d)
    ensures SummaryFields(summary).opening == Some(0.0)
  {
    assert DecimalValue(d) == 0.0 by { ZeroValue(d.mantissa, Pow10(d.scale)); }
    AmountOfNumber(summary, "Opening balance", "opening_balance", d, 0.0);
    OpeningAmount(summary);
  }

  lemma ZeroValue(m: int, p: int)
    requires m == 0 && p > 0
    ensures m as real / p as real == 0.0
  {
  }

  /** A number found by the lookup is read as its value. */
  lemma AmountOfNumber(summary: Json, human: string, alias: string, d: Decimal, v: real)
    requires Or(Get(summary, human), Get(summary, alias)) == JNum(d) && v == DecimalValue(d)
    ensures Amount(summary, human, alias) == Some(v)
  {
    ToFloatOfNumber(d);
  }

  lemma OpeningAmount(summary: Json)
    ensures SummaryFields(summary).opening == Amount(summary, "Opening balance", "opening_balance")
  {
  }

  /** An entry whose amount is zero and that has no `Amount` key is dropped. */
  lemma ZeroAmountDropped(t: Json, d: Decimal)
    requires d.mantissa == 0 && Get(t, "amount") == JNum(d) && Get(t, "Amount") == JNull
    ensures !Examine(t).Accepted?
  {
  }

  // ---------------------------------------------------------------- keys and repeated runs

  /** The key of a kept entry is made of its normalised date, its lower-cased
      stripped description and its parsed amount. */
  lemma ExamineKey(t: Json)
    requires Examine(t).Accepted?
    ensures EntryDate(RawDate(t)).Some? && EntryAmount(t, "amount", "Amount").Some?
    ensures KeyOf(Examine(t).txn)
            == (EntryDate(RawDate(t)).value, Lower(EntryDescription(t)), EntryAmount(t, "amount", "Amount").value)
  {
  }

  /** Of two candidates with one key, only the first is kept, and the flag is set. */
  lemma SameKeyDeduplicated(x: Txn, y: Txn)
    requires KeyOf(x) == KeyOf(y)
    ensures Dedup([x, y]) == [x] && DupFlag([x, y])
  {
    assert [x, y][..1] == [x];
    assert [x][..0] == [];
  }

  /** An amount written as text with a thousands separator and the same amount
      written as a number give one key: the second entry is a duplicate. */
  lemma TextAndNumberAmountsCollide(t1: Json, t2: Json, a: string, c: char, b: string,
                                    sign: string, ip: string, fp: string, d: Decimal)
    requires Examine(t1).Accepted? && t2.JObj?
    requires RawDate(t2) == RawDate(t1) && EntryDescription(t2) == EntryDescription(t1)
    requires Or(Get(t1, "amount"), Get(t1, "Amount")) == JStr(a + [c] + b)
    requires Or(Get(t2, "amount"), Get(t2, "Amount")) == JNum(d)
    requires sign == "" || sign == "-"
    requires AllDigits(ip) && AllDigits(fp) && ip != []
    requires a + b == sign + ip + (if fp == [] then "" else "." + fp)
    requires !IsNumericChar(c)
    requires DecimalValue(d) == if sign == "-" then -PointValue(ip, fp) else PointValue(ip, fp)
    ensures Examine(t2).Accepted?
    ensures Dedup([Examine(t1).txn, Examine(t2).txn]) == [Examine(t1).txn]
  {
    SeparatedTextMatchesNumber(a, c, b, sign, ip, fp, d);
    assert EntryAmount(t2, "amount", "Amount") == EntryAmount(t1, "amount", "Amount");
    ExamineCases(t1);
    ExamineCases(t2);
    ExamineKey(t1);
    ExamineKey(t2);
    SameKeyDeduplicated(Examine(t1).txn, Examine(t2).txn);
  }

  /** A second deduplication of the returned transactions removes nothing. */
  lemma ReconciledDedupFixed(items: seq<Json>)
    ensures Dedup(Reconciled(items)) == Reconciled(items)
  {
    ReconciledDistinct(items);
    DedupOfDistinct(Reconciled(items));
  }

  /** Reconciling does not reproduce its own output in one case: an amount
      given as the text `"0"` is truthy, so it is kept as `0.0`; written back
      as the number `0.0` it is falsy, and the same entry is then dropped. */
  lemma ZeroTextKeptThenDropped(t: Json, written: Json, d: Decimal)
    requires t.JObj? && RawDate(t).JStr? && RawDate(t).s != [] && EntryDescription(t) != []
    requires Or(Get(t, "amount"), Get(t, "Amount")) == JStr("0")
    requires d.mantissa == 0 && Get(written, "amount") == JNum(d) && Get(written, "Amount") == JNull
    ensures Examine(t).Accepted? && Examine(t).txn.amount == 0.0
    ensures !Examine(written).Accepted?
  {
    assert "0" == ['0'];
    DigitAmount(t, '0');
    ExamineCases(t);
    ExamineKey(t);
    ZeroAmountDropped(written, d);
  }

  lemma DigitAmount(t: Json, c: char)
    requires IsDigit(c) && Or(Get(t, "amount"), Get(t, "Amount")) == JStr([c])
    ensures EntryAmount(t, "amount", "Amount") == Some(DigitVal(c) as real)
  {
    ToFloatOfDigit(c);
  }
}
