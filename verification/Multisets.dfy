/** Facts about the multisets of sequences that are updated in place. */
module Multisets {
  lemma UpdateMultiset<T>(h: seq<T>, i: nat, e: T)
    requires i < |h|
    ensures multiset(h[i := e]) + multiset{h[i]} == multiset(h) + multiset{e}
  {
    assert h == h[..i] + [h[i]] + h[i + 1..];
    assert h[i := e] == h[..i] + [e] + h[i + 1..];
  }

  lemma SwapThrough<T>(x: multiset<T>, y: multiset<T>, z: multiset<T>, a: T, b: T, c: T)
    requires x + multiset{b} == y + multiset{c}
    requires y + multiset{a} == z + multiset{b}
    ensures x + multiset{a} == z + multiset{c}
  {
    assert x + multiset{b} + multiset{a} == z + multiset{c} + multiset{b};
    assert x + multiset{a} == x + multiset{b} + multiset{a} - multiset{b};
    assert z + multiset{c} == z + multiset{c} + multiset{b} - multiset{b};
  }

  lemma SwapMultiset<T>(s: seq<T>, i: nat, j: nat)
    requires i < |s| && j < |s|
    ensures multiset(s[i := s[j]][j := s[i]]) == multiset(s)
  {
    var s1 := s[i := s[j]];
    UpdateMultiset(s, i, s[j]);
    UpdateMultiset(s1, j, s[i]);
    SwapThrough(multiset(s1[j := s[i]]), multiset(s1), multiset(s), s[i], s[j], s[i]);
    CancelOne(multiset(s1[j := s[i]]), multiset(s), s[i]);
  }

  lemma CancelOne<T>(x: multiset<T>, y: multiset<T>, a: T)
    requires x + multiset{a} == y + multiset{a}
    ensures x == y
  {
    assert x == x + multiset{a} - multiset{a};
  }

  lemma DropLast<T>(s: seq<T>, m: multiset<T>, a: T)
    requires |s| > 0 && multiset(s) + multiset{a} == m + multiset{s[|s| - 1]}
    ensures multiset(s[..|s| - 1]) + multiset{a} == m
  {
    var e := s[|s| - 1];
    assert s == s[..|s| - 1] + [e];
    CancelOne(multiset(s[..|s| - 1]) + multiset{a}, m, e);
  }

  lemma SameElements<T>(a: seq<T>, b: seq<T>)
    requires multiset(a) == multiset(b)
    ensures |a| == |b| && forall x :: x in a <==> x in b
  {
    assert |multiset(a)| == |multiset(b)|;
    forall x
      ensures x in a <==> x in b
    {
      assert x in a <==> x in multiset(a);
      assert x in b <==> x in multiset(b);
    }
  }
}
