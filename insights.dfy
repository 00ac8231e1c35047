/** `_insights_local_fallback` and the cut to eight insights: the rule-based
    tips produced when no language model is available. Each tip is a tagged
    value; the wording and the currency formatting of the messages are not
    modelled. */
module Insights {
  import opened Options
  import opened PyJson
  import opened Records

  /** One tip, in the order the rules are tried. */
  datatype Tip =
    | AverageBalance(average: real)
    | AtmWithdrawals(count: nat)
    | UpiTransactions(count: nat)
    | NetPositiveInflow
    | NoStrongInsights

  /** The position of each kind of tip in the rule order. */
  function Rank(t: Tip): (r: nat)
  {
    match t
    case AverageBalance(_) => 0
    case AtmWithdrawals(_) => 1
    case UpiTransactions(_) => 2
    case NetPositiveInflow => 3
    case NoStrongInsights => 4
  }

  /** How many transactions mention `p` in their lower-cased description. */
  function CountMentions(txns: seq<Txn>, p: string): (n: nat)
    ensures n <= |txns|
  {
    if txns == [] then 0
    else CountMentions(txns[..|txns| - 1], p) + (if Contains(Lower(txns[|txns| - 1].description), p) then 1 else 0)
  }

  /** `sv.get(key) or 0.0`: an absent amount counts as zero. */
  function OrZero(v: Option<real>): (r: real)
  {
    if v.Some? then v.value else 0.0
  }

  predicate HasAverage(f: Fields)
  {
    f.summary.opening.Some? && f.summary.closing.Some?
  }

  /** The unrounded mean of the opening and closing balances. */
  function AverageOf(f: Fields): (r: real)
    requires HasAverage(f)
  {
    (f.summary.opening.value + f.summary.closing.value) / 2.0
  }

  /** Both totals are non-zero and more came in than went out. */
  predicate NetPositive(f: Fields)
  {
    var credits := OrZero(f.summary.totalCredits);
    var debits := OrZero(f.summary.totalDebits);
    credits != 0.0 && debits != 0.0 && credits > debits
  }

  predicate AnyRule(f: Fields)
  {
    HasAverage(f) || CountMentions(f.txns, "atm") > 0 || CountMentions(f.txns, "upi") > 0 || NetPositive(f)
  }

  /** Whether the rules produce tip `t` for `f`, with that payload. */
  predicate Fires(f: Fields, t: Tip)
  {
    match t
    case AverageBalance(a) => HasAverage(f) && a == AverageOf(f)
    case AtmWithdrawals(n) => n > 0 && n == CountMentions(f.txns, "atm")
    case UpiTransactions(n) => n > 0 && n == CountMentions(f.txns, "upi")
    case NetPositiveInflow => NetPositive(f)
    case NoStrongInsights => !AnyRule(f)
  }

  /** The local fallback: the tips that fire, each once, in rule order, and
      the placeholder exactly when no other tip fires. */
  method LocalInsights(f: Fields) returns (tips: seq<Tip>)
    ensures forall t :: t in tips <==> Fires(f, t)
    ensures forall i, j :: 0 <= i < j < |tips| ==> Rank(tips[i]) < Rank(tips[j])
    ensures 1 <= |tips| <= 4
    ensures NoStrongInsights in tips <==> tips == [NoStrongInsights]
  {
    tips := [];
    var opening := f.summary.opening;
    var closing := f.summary.closing;
    var credits := OrZero(f.summary.totalCredits);
    var debits := OrZero(f.summary.totalDebits);
    if opening.Some? && closing.Some? {
      tips := tips + [AverageBalance((opening.value + closing.value) / 2.0)];
    }
    var atm := CountMentions(f.txns, "atm");
    if atm != 0 {
      tips := tips + [AtmWithdrawals(atm)];
    }
    var upi := CountMentions(f.txns, "upi");
    if upi != 0 {
      tips := tips + [UpiTransactions(upi)];
    }
    if credits != 0.0 && debits != 0.0 && credits > debits {
      tips := tips + [NetPositiveInflow];
    }
    if tips == [] {
      tips := tips + [NoStrongInsights];
    }
  }

  // ---------------------------------------------------------------- the cut to eight

  const MaxInsights: nat := 8

  /** `insights[:8]`. */
  function Shown<T>(xs: seq<T>): (r: seq<T>)
    ensures |r| == if |xs| < MaxInsights then |xs| else MaxInsights
    ensures r == xs[..|r|]
  {
    if |xs| <= MaxInsights then xs else xs[..MaxInsights]
  }

  /** The local tips are never cut: there are at most four of them. */
  lemma LocalTipsShownWhole(tips: seq<Tip>)
    requires 1 <= |tips| <= 4
    ensures Shown(tips) == tips && Shown(tips) != []
  {
  }

  // ---------------------------------------------------------------- counting

  /** Counting over two lists adds up. */
  lemma {:induction false} CountMentionsAppend(a: seq<Txn>, b: seq<Txn>, p: string)
    ensures CountMentions(a + b, p) == CountMentions(a, p) + CountMentions(b, p)
    decreases |b|
  {
    if b == [] {
      assert a + b == a;
    } else {
      var b' := b[..|b| - 1];
      assert (a + b)[..|a + b| - 1] == a + b';
      assert (a + b)[|a + b| - 1] == b[|b| - 1];
      CountMentionsAppend(a, b', p);
    }
  }

  /** The count is zero exactly when no description mentions `p`. */
  lemma {:induction false} CountMentionsZero(txns: seq<Txn>, p: string)
    ensures CountMentions(txns, p) == 0
            <==> forall i :: 0 <= i < |txns| ==> !Contains(Lower(txns[i].description), p)
    decreases |txns|
  {
    if txns != [] {
      var q := txns[..|txns| - 1];
      CountMentionsZero(q, p);
      if forall i :: 0 <= i < |txns| ==> !Contains(Lower(txns[i].description), p) {
        forall i | 0 <= i < |q| ensures !Contains(Lower(q[i].description), p) {
          assert q[i] == txns[i];
        }
      }
      if forall i :: 0 <= i < |q| ==> !Contains(Lower(q[i].description), p) {
        forall i | 0 <= i < |q| ensures txns[i] == q[i] { }
      }
    }
  }
}
