/** Sequence helpers shared by the heuristic extractor and the reconciliation engine. */
module Seqs {
  import opened Options

  /** `f` applied to each element. */
  function Map<A, B>(f: A -> B, xs: seq<A>): (r: seq<B>)
    ensures |r| == |xs|
  {
    seq(|xs|, k requires 0 <= k < |xs| => f(xs[k]))
  }

  lemma MapAppend<A, B>(f: A -> B, xs: seq<A>, ys: seq<A>)
    ensures Map(f, xs + ys) == Map(f, xs) + Map(f, ys)
  {
    var l, r := Map(f, xs + ys), Map(f, xs) + Map(f, ys);
    forall k | 0 <= k < |l| ensures l[k] == r[k] {
      if k < |xs| {
        assert (xs + ys)[k] == xs[k];
      } else {
        assert (xs + ys)[k] == ys[k - |xs|];
      }
    }
  }

  /** The present values, in order (the shape of a loop that appends only
      the entries passing a test). */
  function Somes<T>(os: seq<Option<T>>): (r: seq<T>)
    ensures |r| <= |os|
  {
    if os == [] then []
    else
      var last := os[|os| - 1];
      Somes(os[..|os| - 1]) + (if last.Some? then [last.value] else [])
  }

  lemma SomesSnoc<T>(os: seq<Option<T>>, i: nat)
    requires i < |os|
    ensures Somes(os[..i + 1]) == Somes(os[..i]) + (if os[i].Some? then [os[i].value] else [])
  {
    assert os[..i + 1][..i] == os[..i];
  }

  /** Concatenation is kept: values appear in input order. */
  lemma {:induction false} SomesAppend<T>(xs: seq<Option<T>>, ys: seq<Option<T>>)
    ensures Somes(xs + ys) == Somes(xs) + Somes(ys)
    decreases |ys|
  {
    if ys == [] {
      assert xs + ys == xs;
    } else {
      var ys' := ys[..|ys| - 1];
      assert (xs + ys)[..|xs + ys| - 1] == xs + ys';
      assert (xs + ys)[|xs + ys| - 1] == ys[|ys| - 1];
      SomesAppend(xs, ys');
    }
  }

  /** A value is produced exactly when it is present at some position. */
  lemma {:induction false} SomesMember<T>(os: seq<Option<T>>, y: T)
    ensures y in Somes(os) <==> exists i :: 0 <= i < |os| && os[i] == Some(y)
    decreases |os|
  {
    if os != [] {
      var p := os[..|os| - 1];
      SomesMember(p, y);
      if exists i :: 0 <= i < |p| && p[i] == Some(y) {
        var i :| 0 <= i < |p| && p[i] == Some(y);
        assert os[i] == p[i];
      }
      if exists i :: 0 <= i < |os| && os[i] == Some(y) {
        var i :| 0 <= i < |os| && os[i] == Some(y);
        if i < |p| { assert p[i] == os[i]; }
      }
    }
  }

  /** `a` is obtained from `b` by deleting elements (order kept). */
  predicate IsSubseq<T(==)>(a: seq<T>, b: seq<T>)
    decreases |b|
  {
    if a == [] then true
    else if b == [] then false
    else if a[0] == b[0] then IsSubseq(a[1..], b[1..])
    else IsSubseq(a, b[1..])
  }

  lemma {:induction false} IsSubseqSingleton<T>(x: T, b: seq<T>)
    requires x in b
    ensures IsSubseq([x], b)
    decreases |b|
  {
    if b[0] != x {
      IsSubseqSingleton(x, b[1..]);
    } else {
      assert [x][1..] == [];
    }
  }

  lemma {:induction false} IsSubseqExtend<T>(a: seq<T>, b: seq<T>, x: T)
    requires IsSubseq(a, b)
    ensures IsSubseq(a, b + [x])
    decreases |b|
  {
    if a != [] {
      assert (b + [x])[0] == b[0];
      assert (b + [x])[1..] == b[1..] + [x];
      if a[0] == b[0] {
        IsSubseqExtend(a[1..], b[1..], x);
      } else {
        IsSubseqExtend(a, b[1..], x);
      }
    }
  }

  lemma {:induction false} IsSubseqSnoc<T>(a: seq<T>, b: seq<T>, x: T)
    requires IsSubseq(a, b)
    ensures IsSubseq(a + [x], b + [x])
    decreases |b|
  {
    if a == [] {
      assert a + [x] == [x];
      IsSubseqSingleton(x, b + [x]);
    } else {
      assert b != [];
      assert (a + [x])[0] == a[0] && (a + [x])[1..] == a[1..] + [x];
      assert (b + [x])[0] == b[0] && (b + [x])[1..] == b[1..] + [x];
      if a[0] == b[0] {
        IsSubseqSnoc(a[1..], b[1..], x);
      } else {
        IsSubseqSnoc(a, b[1..], x);
      }
    }
  }
}
