/** Replacing every element of a sequence by a sequence; the order of the elements only permutes the result. */
module FlatMaps {
  import opened Multisets

  function FlatMap<T, R>(s: seq<T>, f: T -> seq<R>): seq<R> {
    if s == [] then [] else FlatMap(s[..|s| - 1], f) + f(s[|s| - 1])
  }

  lemma FlatMapMore<T, R>(s: seq<T>, e: T, f: T -> seq<R>)
    ensures FlatMap(s + [e], f) == FlatMap(s, f) + f(e)
  {
    assert (s + [e])[..|s|] == s;
  }

  lemma {:induction false} FlatMapConcat<T, R>(a: seq<T>, b: seq<T>, f: T -> seq<R>)
    ensures FlatMap(a + b, f) == FlatMap(a, f) + FlatMap(b, f)
    decreases |b|
  {
    if b == [] {
      assert a + b == a;
    } else {
      var n := |b| - 1;
      assert a + b == (a + b[..n]) + [b[n]];
      FlatMapConcat(a, b[..n], f);
      FlatMapMore(a + b[..n], b[n], f);
    }
  }

  lemma {:induction false} FlatMapAgree<T, R>(s: seq<T>, f: T -> seq<R>, g: T -> seq<R>)
    requires forall i :: 0 <= i < |s| ==> f(s[i]) == g(s[i])
    ensures FlatMap(s, f) == FlatMap(s, g)
  {
    if s != [] {
      FlatMapAgree(s[..|s| - 1], f, g);
    }
  }

  lemma {:induction false} FlatMapEmpty<T, R>(s: seq<T>, f: T -> seq<R>)
    requires forall i :: 0 <= i < |s| ==> f(s[i]) == []
    ensures FlatMap(s, f) == []
  {
    if s != [] {
      FlatMapEmpty(s[..|s| - 1], f);
    }
  }

  lemma {:induction false} FlatMapSingles<T, R>(s: seq<T>, f: T -> seq<R>, r: seq<R>)
    requires |r| == |s| && forall i :: 0 <= i < |s| ==> f(s[i]) == [r[i]]
    ensures FlatMap(s, f) == r
  {
    if s != [] {
      var n := |s| - 1;
      FlatMapSingles(s[..n], f, r[..n]);
      assert r == r[..n] + [r[n]];
    }
  }

  lemma TakeOut<T, R>(b: seq<T>, i: nat, f: T -> seq<R>)
    requires i < |b|
    ensures multiset(b) == multiset(b[..i] + b[i + 1..]) + multiset{b[i]}
    ensures multiset(FlatMap(b, f)) == multiset(FlatMap(b[..i] + b[i + 1..], f)) + multiset(f(b[i]))
  {
    hide FlatMap;
    assert b == (b[..i] + [b[i]]) + b[i + 1..];
    FlatMapConcat(b[..i] + [b[i]], b[i + 1..], f);
    FlatMapMore(b[..i], b[i], f);
    FlatMapConcat(b[..i], b[i + 1..], f);
  }

  lemma {:induction false} FlatMapMultiset<T, R>(a: seq<T>, b: seq<T>, f: T -> seq<R>)
    requires multiset(a) == multiset(b)
    ensures multiset(FlatMap(a, f)) == multiset(FlatMap(b, f))
    decreases |a|
  {
    if a == [] {
      assert |multiset(b)| == 0;
    } else {
      var n := |a| - 1;
      assert a[n] in multiset(b);
      var i :| 0 <= i < |b| && b[i] == a[n];
      TakeOut(b, i, f);
      assert a == a[..n] + [a[n]];
      CancelOne(multiset(a[..n]), multiset(b[..i] + b[i + 1..]), a[n]);
      FlatMapMultiset(a[..n], b[..i] + b[i + 1..], f);
    }
  }
}
