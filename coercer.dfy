/** `_coerce_extracted`: bring whatever JSON the extractor produced into the
    three canonical sections Account Info, Summary Values and Transactions. */
module Coercer {
  import opened PyJson

  /** The canonical dictionary `{"Account Info": …, "Summary Values": …,
      "Transactions": …}`, one field per key. */
  datatype Sections = Sections(account: Json, summary: Json, txns: Json)

  const EmptyDict: Json := JObj([])
  const EmptyList: Json := JArr([])

  /** `d.get(human) or d.get(alias) or default`. */
  function Pick(d: Json, human: string, alias: string, default: Json): (r: Json)
  {
    Or(Or(Get(d, human), Get(d, alias)), default)
  }

  /** The `{"fields": {...}}` wrapper some extractors emit is removed, once. */
  function Unwrap(data: Json): (r: Json)
  {
    if data.JObj? && Get(data, "fields").JObj? then Get(data, "fields") else data
  }

  function FromDict(d: Json): (r: Sections)
  {
    Sections(Pick(d, "Account Info", "account_info", EmptyDict),
             Pick(d, "Summary Values", "summary_values", EmptyDict),
             Pick(d, "Transactions", "transactions", EmptyList))
  }

  function Coerce(data: Json): (r: Sections)
    ensures Truthy(r.account) || r.account == EmptyDict
    ensures Truthy(r.summary) || r.summary == EmptyDict
    ensures Truthy(r.txns) || r.txns == EmptyList
  {
    var d := Unwrap(data);
    if d.JObj? then FromDict(d)
    else if d.JArr? && |d.items| > 0 && d.items[0].JObj? then Sections(EmptyDict, EmptyDict, d)
    else Sections(EmptyDict, EmptyDict, EmptyList)
  }

  /** The canonical dictionary written back as JSON. */
  function ToJson(s: Sections): (j: Json)
    ensures j.JObj?
  {
    JObj([("Account Info", s.account), ("Summary Values", s.summary), ("Transactions", s.txns)])
  }

  // ---------------------------------------------------------------- properties

  /** `Pick` takes the first truthy of the two keys, else the default. */
  lemma PickMeaning(d: Json, human: string, alias: string, default: Json)
    ensures Truthy(Get(d, human)) ==> Pick(d, human, alias, default) == Get(d, human)
    ensures !Truthy(Get(d, human)) && Truthy(Get(d, alias)) ==> Pick(d, human, alias, default) == Get(d, alias)
    ensures !Truthy(Get(d, human)) && !Truthy(Get(d, alias)) ==> Pick(d, human, alias, default) == default
  {
  }

  /** Where each section comes from, for each input shape: a dictionary
      (after removing one `fields` wrapper) is read key by key, a list whose
      first element is a dictionary is the transaction list, anything else
      yields three empty sections. */
  lemma CoerceCases(data: Json)
    ensures var d := Unwrap(data);
            d.JObj? ==> Coerce(data) == FromDict(d)
    ensures var d := Unwrap(data);
            d.JArr? && |d.items| > 0 && d.items[0].JObj? ==> Coerce(data) == Sections(EmptyDict, EmptyDict, data)
    ensures !data.JObj? && !(data.JArr? && |data.items| > 0 && data.items[0].JObj?) ==>
              Coerce(data) == Sections(EmptyDict, EmptyDict, EmptyList)
  {
  }

  /** Only one layer of `fields` is removed: an inner `fields` key is read
      as an ordinary key. */
  lemma UnwrapOnce(inner: Json, rest: seq<(string, Json)>)
    requires inner.JObj?
    ensures Coerce(JObj(rest + [("fields", inner)])) == FromDict(inner)
  {
    LookupLast(rest, "fields", inner);
  }

  lemma LookupLast(es: seq<(string, Json)>, k: string, v: Json)
    ensures Get(JObj(es + [(k, v)]), k) == v
  {
    var all := es + [(k, v)];
    assert all[|all| - 1] == (k, v);
  }

  lemma {:induction false} LookupMissing(es: seq<(string, Json)>, k: string)
    requires forall i :: 0 <= i < |es| ==> es[i].0 != k
    ensures Lookup(es, k) == JNull
    decreases |es|
  {
    if es != [] {
      LookupMissing(es[..|es| - 1], k);
    }
  }

  /** Coercing the canonical form again changes nothing. */
  lemma CoerceIdempotent(data: Json)
    ensures Coerce(ToJson(Coerce(data))) == Coerce(data)
  {
    var s := Coerce(data);
    var j := ToJson(s);
    var es := j.entries;
    assert Get(j, "fields") == JNull by { LookupMissing(es, "fields"); }
    assert Get(j, "account_info") == JNull by { LookupMissing(es, "account_info"); }
    assert Get(j, "summary_values") == JNull by { LookupMissing(es, "summary_values"); }
    assert Get(j, "transactions") == JNull by { LookupMissing(es, "transactions"); }
    assert Get(j, "Account Info") == s.account by {
      var two := es[..|es| - 1];
      assert Lookup(es, "Account Info") == Lookup(two, "Account Info");
      assert two[..|two| - 1] == [("Account Info", s.account)];
      assert Lookup(two, "Account Info") == Lookup(two[..|two| - 1], "Account Info");
    }
    assert Get(j, "Summary Values") == s.summary by {
      var two := es[..|es| - 1];
      assert es[|es| - 1].0 == "Transactions" != "Summary Values";
      assert Lookup(es, "Summary Values") == Lookup(two, "Summary Values");
      assert two[|two| - 1] == ("Summary Values", s.summary);
    }
    assert Get(j, "Transactions") == s.txns by {
      assert es[|es| - 1] == ("Transactions", s.txns);
    }
  }
}
