/**
 The in-place random shuffles (include/faiss/utils/random.cpp). The random generator is a list of
 draws given by the caller: draw number i is below the count of places left.
 */
module Shuffle {
  import opened Multisets

  ghost predicate ValidDraws(draws: seq<nat>, n: int) {
    |draws| >= n && forall i :: 0 <= i < n ==> draws[i] < n - i
  }

  lemma SwapInRange<T>(s: seq<T>, lo: nat, hi: nat, i: nat, j: nat)
    requires lo <= i < hi <= |s| && lo <= j < hi
    ensures var r := s[i := s[j]][j := s[i]];
      multiset(r[lo..hi]) == multiset(s[lo..hi]) && SameOutside(r, s, lo, hi)
  {
    var m := s[lo..hi];
    SwapMultiset(m, i - lo, j - lo);
    assert s[i := s[j]][j := s[i]][lo..hi] == m[i - lo := m[j - lo]][j - lo := m[i - lo]];
  }

  ghost predicate SameOutside<T>(r: seq<T>, s: seq<T>, lo: int, hi: int) {
    |r| == |s| && forall i :: 0 <= i < |r| && !(lo <= i < hi) ==> r[i] == s[i]
  }

  lemma SameThrough<T>(r: seq<T>, s: seq<T>, t: seq<T>, lo: int, hi: int)
    requires SameOutside(r, s, lo, hi) && SameOutside(s, t, lo, hi)
    ensures SameOutside(r, t, lo, hi)
  {
  }

  /** Swaps two places of lo..hi. */
  method Swap<T>(a: array<T>, lo: nat, hi: nat, i: nat, j: nat)
    requires lo <= i < hi <= a.Length && lo <= j < hi
    modifies a
    ensures a[..] == Swapped(old(a[..]), i, j)
    ensures multiset(a[..][lo..hi]) == multiset(old(a[..])[lo..hi])
    ensures SameOutside(a[..], old(a[..]), lo, hi)
  {
    SwapInRange(a[..], lo, hi, i, j);
    a[i], a[j] := a[j], a[i];
  }

  /** Places i and j swapped. */
  function Swapped<T>(s: seq<T>, i: nat, j: nat): (r: seq<T>)
    requires i < |s| && j < |s|
    ensures |r| == |s| && r[i] == s[j] && r[j] == s[i]
    ensures forall x :: 0 <= x < |s| && x != i && x != j ==> r[x] == s[x]
  {
    s[i := s[j]][j := s[i]]
  }

  /** Every place in turn swapped with the one that its draw picks among it and those behind it. */
  function Shuffled<T>(s: seq<T>, draws: seq<nat>): (r: seq<T>)
    requires ValidDraws(draws, |s|)
    ensures |r| == |s|
    decreases |s|
  {
    if s == [] then []
    else
      var t := Swapped(s, 0, draws[0]);
      [t[0]] + Shuffled(t[1..], draws[1..])
  }

  lemma SwappedMultiset<T>(s: seq<T>, i: nat, j: nat)
    requires i < |s| && j < |s|
    ensures multiset(Swapped(s, i, j)) == multiset(s)
  {
    SwapMultiset(s, i, j);
  }

  lemma ShuffledStep<T>(s: seq<T>, draws: seq<nat>)
    requires s != [] && ValidDraws(draws, |s|)
    ensures var t := Swapped(s, 0, draws[0]);
      && ValidDraws(draws[1..], |t[1..]|)
      && Shuffled(s, draws) == [t[0]] + Shuffled(t[1..], draws[1..])
      && multiset(t) == multiset(s) && multiset(t[1..]) + multiset{t[0]} == multiset(s)
  {
    var t := Swapped(s, 0, draws[0]);
    SwappedMultiset(s, 0, draws[0]);
    assert t == [t[0]] + t[1..];
  }

  /** A shuffle only reorders. */
  lemma {:induction false} ShuffledMultiset<T>(s: seq<T>, draws: seq<nat>)
    requires ValidDraws(draws, |s|)
    ensures multiset(Shuffled(s, draws)) == multiset(s)
    decreases |s|
  {
    if s != [] {
      hide Shuffled, Swapped;
      ShuffledStep(s, draws);
      ShuffledMultiset(Swapped(s, 0, draws[0])[1..], draws[1..]);
    }
  }

  lemma FirstTakenOut<T>(s: seq<T>)
    requires s != []
    ensures multiset(s[1..]) + multiset{s[0]} == multiset(s)
  {
    assert s == [s[0]] + s[1..];
  }

  lemma RestAlike<T>(s: seq<T>, r: seq<T>, j: nat)
    requires multiset(r) == multiset(s) && r != [] && j < |s| && s[j] == r[0]
    ensures multiset(r[1..]) == multiset(Swapped(s, 0, j)[1..])
  {
    hide Swapped;
    var t := Swapped(s, 0, j);
    SwappedMultiset(s, 0, j);
    FirstTakenOut(t);
    FirstTakenOut(r);
    CancelOne(multiset(r[1..]), multiset(t[1..]), r[0]);
  }

  lemma DrawsMore(j: nat, later: seq<nat>, n: nat)
    requires j < n && ValidDraws(later, n - 1)
    ensures ValidDraws([j] + later, n) && ([j] + later)[1..] == later
  {
  }

  /** Every order of the elements is that of some draws. */
  lemma {:induction false} EveryOrderDrawn<T>(s: seq<T>, r: seq<T>) returns (draws: seq<nat>)
    requires multiset(r) == multiset(s)
    ensures |draws| == |s| && ValidDraws(draws, |s|) && Shuffled(s, draws) == r
    decreases |s|
  {
    SameElements(r, s);
    if s == [] {
      draws := [];
    } else {
      hide Shuffled, Swapped, ValidDraws;
      assert r[0] in s;
      var j :| 0 <= j < |s| && s[j] == r[0];
      var t := Swapped(s, 0, j);
      RestAlike(s, r, j);
      var later := EveryOrderDrawn(t[1..], r[1..]);
      draws := [j] + later;
      DrawsMore(j, later, |s|);
      ShuffledStep(s, draws);
    }
  }

  ghost predicate AllDifferent<T>(s: seq<T>) {
    forall i, j :: 0 <= i < j < |s| ==> s[i] != s[j]
  }

  /** Of different elements every order is that of one list of draws only. */
  lemma {:induction false} OrderDrawnOnce<T>(s: seq<T>, draws1: seq<nat>, draws2: seq<nat>)
    requires |draws1| == |draws2| == |s| && ValidDraws(draws1, |s|) && ValidDraws(draws2, |s|)
    requires AllDifferent(s) && Shuffled(s, draws1) == Shuffled(s, draws2)
    ensures draws1 == draws2
    decreases |s|
  {
    if s != [] {
      hide Shuffled;
      ShuffledStep(s, draws1);
      ShuffledStep(s, draws2);
      var t := Swapped(s, 0, draws1[0]);
      assert Shuffled(s, draws1)[0] == s[draws1[0]] && Shuffled(s, draws2)[0] == s[draws2[0]];
      assert draws1[0] == draws2[0];
      assert Shuffled(s, draws1)[1..] == Shuffled(t[1..], draws1[1..]);
      assert Shuffled(s, draws2)[1..] == Shuffled(t[1..], draws2[1..]);
      StillDifferent(s, draws1[0]);
      OrderDrawnOnce(t[1..], draws1[1..], draws2[1..]);
      assert draws1 == [draws1[0]] + draws1[1..] && draws2 == [draws2[0]] + draws2[1..];
    }
  }

  lemma StillDifferent<T>(s: seq<T>, j: nat)
    requires j < |s| && AllDifferent(s)
    ensures AllDifferent(Swapped(s, 0, j)[1..])
  {
    hide Swapped;
    var t := Swapped(s, 0, j);
    forall x, y | 0 <= x < y < |t|
      ensures t[x] != t[y]
    {
      var a, b := if x == 0 then j else if x == j then 0 else x, if y == 0 then j else if y == j then 0 else y;
      assert t[x] == s[a] && t[y] == s[b] && a != b;
    }
  }

  /** The swaps before place j have been made: the shuffle of what is left completes `all`. */
  ghost predicate IsShuffling<T>(s: seq<T>, lo: nat, hi: nat, j: nat, draws: seq<nat>, all: seq<T>) {
    && lo <= j <= hi <= |s| && ValidDraws(draws, hi - lo)
    && s[lo..j] + Shuffled(s[j..hi], draws[j - lo..]) == all
  }

  lemma ShuffleStart<T>(s: seq<T>, lo: nat, hi: nat, draws: seq<nat>)
    requires lo <= hi <= |s| && ValidDraws(draws, hi - lo)
    ensures IsShuffling(s, lo, hi, lo, draws, Shuffled(s[lo..hi], draws))
  {
    assert draws[0..] == draws;
  }

  lemma ShuffleOn<T>(s: seq<T>, r: seq<T>, lo: nat, hi: nat, j: nat, draws: seq<nat>, all: seq<T>)
    requires j < hi && IsShuffling(s, lo, hi, j, draws, all) && |r| == |s|
    requires j + draws[j - lo] < |s| && r == Swapped(s, j, j + draws[j - lo])
    ensures IsShuffling(r, lo, hi, j + 1, draws, all)
  {
    hide Shuffled;
    var m, later := s[j..hi], draws[j - lo..];
    ShuffledStep(m, later);
    var t := Swapped(m, 0, later[0]);
    assert later[1..] == draws[j + 1 - lo..];
    assert t[1..] == r[j + 1..hi] && t[0] == r[j];
    assert r[lo..j + 1] == s[lo..j] + [t[0]];
  }

  /** The last place has nothing to be swapped with. */
  lemma ShuffleEnd<T>(s: seq<T>, lo: nat, hi: nat, j: nat, draws: seq<nat>, all: seq<T>)
    requires IsShuffling(s, lo, hi, j, draws, all) && hi <= j + 1
    ensures s[lo..hi] == all
  {
    assert s[lo..hi] == s[lo..j] + s[j..hi];
  }

  lemma DrawBelow(draws: seq<nat>, lo: nat, hi: nat, j: nat)
    requires lo <= j < hi && ValidDraws(draws, hi - lo)
    ensures j - lo < |draws| && j + draws[j - lo] < hi
  {
  }

  /** Swaps every place of lo..hi in turn with a drawn one at or after it. */
  method ShuffleRange<T>(a: array<T>, lo: nat, hi: nat, draws: seq<nat>)
    requires lo <= hi <= a.Length && ValidDraws(draws, hi - lo)
    modifies a
    ensures a[..][lo..hi] == Shuffled(old(a[..])[lo..hi], draws)
    ensures multiset(a[..][lo..hi]) == multiset(old(a[..])[lo..hi])
    ensures SameOutside(a[..], old(a[..]), lo, hi)
  {
    ShuffledMultiset(a[..][lo..hi], draws);
    ShuffleUpTo(a, lo, hi, hi, draws);
  }

  /** The swaps of the places before `end`, which may leave out the last one. */
  method ShuffleUpTo<T>(a: array<T>, lo: nat, hi: nat, end: nat, draws: seq<nat>)
    requires lo <= end <= hi <= a.Length && hi <= end + 1 && ValidDraws(draws, hi - lo)
    modifies a
    ensures a[..][lo..hi] == Shuffled(old(a[..])[lo..hi], draws)
    ensures SameOutside(a[..], old(a[..]), lo, hi)
  {
    hide SameOutside, Shuffled, Swapped, IsShuffling, ValidDraws;
    ghost var s := a[..];
    ghost var all := Shuffled(s[lo..hi], draws);
    ShuffleStart(s, lo, hi, draws);
    SameAlready(s, lo, hi);
    for j := lo to end
      invariant IsShuffling(a[..], lo, hi, j, draws, all) && SameOutside(a[..], s, lo, hi)
    {
      ghost var before := a[..];
      DrawBelow(draws, lo, hi, j);
      Swap(a, lo, hi, j, j + draws[j - lo]);
      ShuffleOn(before, a[..], lo, hi, j, draws, all);
      SameThrough(a[..], before, s, lo, hi);
    }
    ShuffleEnd(a[..], lo, hi, end, draws, all);
  }

  lemma SameAlready<T>(s: seq<T>, lo: int, hi: int)
    ensures SameOutside(s, s, lo, hi)
  {
  }

  /** The numbers 0 up to n. */
  function Identity(n: nat): (r: seq<nat>)
    ensures |r| == n && forall i :: 0 <= i < n ==> r[i] == i
  {
    seq(n, i => i)
  }

  method FillIdentity(a: array<nat>, lo: nat, n: nat)
    requires lo + n <= a.Length
    modifies a
    ensures a[..][lo..lo + n] == Identity(n)
    ensures SameOutside(a[..], old(a[..]), lo, lo + n)
  {
    for i := 0 to n
      invariant forall p :: lo <= p < lo + i ==> a[p] == p - lo
      invariant forall p :: 0 <= p < a.Length && !(lo <= p < lo + n) ==> a[p] == old(a[p])
    {
      a[lo + i] := i;
    }
  }

  /** rand_perm into the n places of a from lo on: every number below n once, in the order drawn. */
  method RandPerm(a: array<nat>, lo: nat, n: nat, draws: seq<nat>)
    requires lo + n <= a.Length && ValidDraws(draws, n)
    modifies a
    ensures a[..][lo..lo + n] == Shuffled(Identity(n), draws)
    ensures multiset(a[..][lo..lo + n]) == multiset(Identity(n))
    ensures SameOutside(a[..], old(a[..]), lo, lo + n)
  {
    FillIdentity(a, lo, n);
    ghost var filled := a[..];
    ShuffleUpTo(a, lo, lo + n, if n == 0 then lo else lo + n - 1, draws);
    hide Identity, Shuffled;
    SameThrough(a[..], filled, old(a[..]), lo, lo + n);
    ShuffledMultiset(Identity(n), draws);
  }
}
