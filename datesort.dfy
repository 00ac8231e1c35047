/** `txns.sort(key=lambda x: x["date"])`: Python's stable sort, keyed on the
    date string and compared the way Python compares `str` values. */
module DateSort {
  import opened Records

  /** Python's `<` on strings: lexicographic by code point, a proper prefix
      being the smaller. */
  predicate StrLt(a: string, b: string)
    decreases |a|
  {
    if a == [] then b != []
    else if b == [] then false
    else if a[0] < b[0] then true
    else a[0] == b[0] && StrLt(a[1..], b[1..])
  }

  /** No later transaction has an earlier date than one before it. */
  predicate SortedByDate(s: seq<Txn>)
  {
    forall i, j :: 0 <= i < j < |s| ==> !StrLt(s[j].date, s[i].date)
  }

  /** The transactions with date `d`, in their order. */
  function WithDate(s: seq<Txn>, d: string): (r: seq<Txn>)
    ensures |r| <= |s|
  {
    if s == [] then []
    else (if s[0].date == d then [s[0]] else []) + WithDate(s[1..], d)
  }

  /** Put `x` in front of the first element whose date is not earlier than its own. */
  function Insert(x: Txn, ys: seq<Txn>): (r: seq<Txn>)
    ensures |r| == |ys| + 1
  {
    if ys == [] then [x]
    else if !StrLt(ys[0].date, x.date) then [x] + ys
    else [ys[0]] + Insert(x, ys[1..])
  }

  function SortByDate(s: seq<Txn>): (r: seq<Txn>)
    ensures |r| == |s|
  {
    if s == [] then [] else Insert(s[0], SortByDate(s[1..]))
  }

  // ---------------------------------------------------------------- the order on strings

  lemma {:induction false} StrLtIrreflexive(a: string)
    ensures !StrLt(a, a)
    decreases |a|
  {
    if a != [] {
      StrLtIrreflexive(a[1..]);
    }
  }

  lemma {:induction false} StrLtTrans(a: string, b: string, c: string)
    requires StrLt(a, b) && StrLt(b, c)
    ensures StrLt(a, c)
    decreases |a|
  {
    if a != [] && b != [] && c != [] && a[0] == b[0] && b[0] == c[0] {
      StrLtTrans(a[1..], b[1..], c[1..]);
    }
  }

  lemma {:induction false} StrLtTotal(a: string, b: string)
    ensures a == b || StrLt(a, b) || StrLt(b, a)
    decreases |a|
  {
    if a != [] && b != [] && a[0] == b[0] {
      StrLtTotal(a[1..], b[1..]);
      if a[1..] == b[1..] {
        assert a == [a[0]] + a[1..] && b == [b[0]] + b[1..];
      }
    }
  }

  /** "Not earlier than" is transitive. */
  lemma NotLtTrans(a: string, b: string, c: string)
    requires !StrLt(b, a) && !StrLt(c, b)
    ensures !StrLt(c, a)
  {
    StrLtTotal(a, b);
    if StrLt(c, a) && StrLt(a, b) {
      StrLtTrans(c, a, b);
    }
  }

  // ---------------------------------------------------------------- insertion

  lemma {:induction false} InsertMultiset(x: Txn, ys: seq<Txn>)
    ensures multiset(Insert(x, ys)) == multiset(ys) + multiset{x}
    decreases |ys|
  {
    if ys != [] && StrLt(ys[0].date, x.date) {
      InsertMultiset(x, ys[1..]);
      assert ys == [ys[0]] + ys[1..];
    }
  }

  lemma {:induction false} InsertSorted(x: Txn, ys: seq<Txn>)
    requires SortedByDate(ys)
    ensures SortedByDate(Insert(x, ys))
    decreases |ys|
  {
    if ys == [] {
    } else if !StrLt(ys[0].date, x.date) {
      var r := [x] + ys;
      forall i, j | 0 <= i < j < |r| ensures !StrLt(r[j].date, r[i].date) {
        if i == 0 {
          if j > 1 { NotLtTrans(x.date, ys[0].date, ys[j - 1].date); }
        }
      }
    } else {
      var rest := Insert(x, ys[1..]);
      InsertSorted(x, ys[1..]);
      InsertMultiset(x, ys[1..]);
      var r := [ys[0]] + rest;
      forall j | 0 <= j < |rest| ensures !StrLt(rest[j].date, ys[0].date) {
        assert rest[j] in multiset(rest);
        if rest[j] == x {
          StrLtTotal(x.date, ys[0].date);
          if StrLt(x.date, ys[0].date) {
            StrLtTrans(x.date, ys[0].date, x.date);
            StrLtIrreflexive(x.date);
          }
        } else {
          assert rest[j] in multiset(ys[1..]);
          var k :| 0 <= k < |ys[1..]| && ys[1..][k] == rest[j];
          assert ys[k + 1] == rest[j];
        }
      }
      forall i, j | 0 <= i < j < |r| ensures !StrLt(r[j].date, r[i].date) {
        if i > 0 {
          assert r[i] == rest[i - 1] && r[j] == rest[j - 1];
        } else {
          assert r[j] == rest[j - 1];
        }
      }
    }
  }

  /** Inserting `x` puts it after nothing of its own date. */
  lemma {:induction false} InsertWithDate(x: Txn, ys: seq<Txn>, d: string)
    ensures WithDate(Insert(x, ys), d) == (if x.date == d then [x] else []) + WithDate(ys, d)
    decreases |ys|
  {
    if ys == [] {
    } else if !StrLt(ys[0].date, x.date) {
      assert ([x] + ys)[1..] == ys;
    } else {
      InsertWithDate(x, ys[1..], d);
      assert ([ys[0]] + Insert(x, ys[1..]))[1..] == Insert(x, ys[1..]);
      if ys[0].date == d {
        assert x.date != d by { StrLtIrreflexive(d); }
      }
    }
  }

  // ---------------------------------------------------------------- the sort

  /** The result is ordered by date. */
  lemma {:induction false} SortByDateSorted(s: seq<Txn>)
    ensures SortedByDate(SortByDate(s))
    decreases |s|
  {
    if s != [] {
      SortByDateSorted(s[1..]);
      InsertSorted(s[0], SortByDate(s[1..]));
    }
  }

  /** The result holds exactly the transactions given. */
  lemma {:induction false} SortByDatePermutes(s: seq<Txn>)
    ensures multiset(SortByDate(s)) == multiset(s)
    decreases |s|
  {
    if s != [] {
      SortByDatePermutes(s[1..]);
      InsertMultiset(s[0], SortByDate(s[1..]));
      assert s == [s[0]] + s[1..];
    }
  }

  /** Stability: transactions sharing a date keep their original order. */
  lemma {:induction false} SortByDateStable(s: seq<Txn>, d: string)
    ensures WithDate(SortByDate(s), d) == WithDate(s, d)
    decreases |s|
  {
    if s != [] {
      SortByDateStable(s[1..], d);
      InsertWithDate(s[0], SortByDate(s[1..]), d);
    }
  }

  /** An already ordered list is left as it is. */
  lemma {:induction false} SortByDateOfSorted(s: seq<Txn>)
    requires SortedByDate(s)
    ensures SortByDate(s) == s
    decreases |s|
  {
    if s != [] {
      assert SortedByDate(s[1..]) by {
        forall i, j | 0 <= i < j < |s[1..]| ensures !StrLt(s[1..][j].date, s[1..][i].date) {
          assert s[1..][i] == s[i + 1] && s[1..][j] == s[j + 1];
        }
      }
      SortByDateOfSorted(s[1..]);
      if |s| > 1 {
        assert !StrLt(s[1].date, s[0].date);
      }
      assert s == [s[0]] + s[1..];
    }
  }
}
