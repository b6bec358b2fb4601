/**
 Exact search in one dimension (include/faiss/IndexFlat.cpp): a bisection of the sorted database
 and an expansion to both sides of the query. Floats are real numbers with an infinity.
 */
module Flat1D {
  import opened Shuffle

  datatype Distance = Fin(value: real) | Infinity

    function Abs(x: real): real {
    if x < 0.0 then -x else x
  }

  /** perm lists every place of xb once, by increasing value. */
  ghost predicate IsArgsort(perm: seq<nat>, xb: seq<real>) {
    && multiset(perm) == multiset(Identity(|xb|))
    && |perm| == |xb|
    && (forall i :: 0 <= i < |perm| ==> perm[i] < |xb|)
    && (forall i, j :: 0 <= i <= j < |perm| ==> xb[perm[i]] <= xb[perm[j]])
  }

  /** The distance of the query to the entry at a place of the sorted order. */
  ghost function DistAt(xb: seq<real>, perm: seq<nat>, q: real, p: int): real
    requires IsArgsort(perm, xb) && 0 <= p < |perm|
  {
    Abs(xb[perm[p]] - q)
  }

  /** D and I are the k nearest entries of xb, nearest first, and padding when there are fewer. */
  ghost predicate IsNearest(D: seq<Distance>, I: seq<int>, xb: seq<real>, q: real) {
    var n := if |D| <= |xb| then |D| else |xb|;
    && |D| == |I|
    && (forall w :: 0 <= w < n ==> 0 <= I[w] < |xb| && D[w] == Fin(Abs(xb[I[w]] - q)))
    && (forall w :: n <= w < |D| ==> D[w] == Infinity && I[w] == -1)
    && (forall v, w :: 0 <= v < w < n ==> D[v].value <= D[w].value)
    && (forall v, w :: 0 <= v < w < n ==> I[v] != I[w])
    && (forall w, j :: 0 <= w < n && 0 <= j < |xb| && j !in I[..n] ==> D[w].value <= Abs(xb[j] - q))
  }

  /** I lists entries in their turn, from the first on; ps are their sorted places. */
  ghost predicate AreFirst(ps: seq<nat>, I: seq<int>, xb: seq<real>, perm: seq<nat>, q: real)
    requires IsArgsort(perm, xb)
  {
    && |ps| == (if |I| <= |xb| then |I| else |xb|)
    && (forall w :: 0 <= w < |ps| ==> ps[w] < |perm| && I[w] == perm[ps[w]])
    && (forall v, w :: 0 <= v < w < |ps| ==> Ahead(xb, perm, q, ps[v], ps[w]))
    && (forall w, p :: 0 <= w < |ps| && 0 <= p < |perm| && p !in ps ==> Ahead(xb, perm, q, ps[w], p))
  }

  /** The nearest entries, those at the same distance in the order in which the search meets them. */
  ghost predicate IsAnswer(D: seq<Distance>, I: seq<int>, xb: seq<real>, perm: seq<nat>, q: real)
    requires IsArgsort(perm, xb)
  {
    IsNearest(D, I, xb, q) && exists ps :: AreFirst(ps, I, xb, perm, q)
  }

  // ---------- a growing window of sorted places ----------

  /** ps lists the places strictly between lo and hi. */
  ghost predicate IsListing(ps: seq<nat>, lo: int, hi: int) {
    && lo < hi && |ps| == hi - lo - 1
    && (forall w :: 0 <= w < |ps| ==> lo < ps[w] < hi)
    && (forall p :: lo < p < hi ==> p in ps)
    && (forall v, w :: 0 <= v < w < |ps| ==> ps[v] != ps[w])
  }

  /**
   The entry at sorted place a comes before the one at place b: it is nearer or, at the same
   distance, on the right while the other is on the left, or on the same side and met first.
   */
  ghost predicate Ahead(xb: seq<real>, perm: seq<nat>, q: real, a: int, b: int)
    requires IsArgsort(perm, xb) && 0 <= a < |perm| && 0 <= b < |perm|
  {
    var da, db := DistAt(xb, perm, q, a), DistAt(xb, perm, q, b);
    || da < db
    || (da == db && if xb[perm[a]] > q then xb[perm[b]] <= q || a < b else xb[perm[b]] <= q && b < a)
  }

  lemma AheadTransitive(xb: seq<real>, perm: seq<nat>, q: real, a: int, b: int, c: int)
    requires IsArgsort(perm, xb) && 0 <= a < |perm| && 0 <= b < |perm| && 0 <= c < |perm|
    requires Ahead(xb, perm, q, a, b) && Ahead(xb, perm, q, b, c)
    ensures Ahead(xb, perm, q, a, c)
  {
    hide DistAt;
  }

  /** On one side of the query the entry next to it comes first. */
  lemma NextOnSide(xb: seq<real>, perm: seq<nat>, q: real, a: int, b: int)
    requires IsArgsort(perm, xb) && 0 <= a < |perm| && 0 <= b < |perm|
    requires (b < a && xb[perm[a]] <= q) || (a < b && xb[perm[a]] > q)
    ensures Ahead(xb, perm, q, a, b)
  {
    if b < a {
      assert xb[perm[b]] <= xb[perm[a]];
    } else {
      assert xb[perm[a]] <= xb[perm[b]];
    }
  }

  /** Everything listed comes before the entry at place p. */
  ghost predicate AllAhead(ps: seq<nat>, xb: seq<real>, perm: seq<nat>, q: real, p: int)
    requires IsArgsort(perm, xb) && (forall w :: 0 <= w < |ps| ==> ps[w] < |perm|) && 0 <= p < |perm|
  {
    forall w :: 0 <= w < |ps| ==> Ahead(xb, perm, q, ps[w], p)
  }

  ghost predicate InTurn(ps: seq<nat>, xb: seq<real>, perm: seq<nat>, q: real)
    requires IsArgsort(perm, xb) && forall w :: 0 <= w < |ps| ==> ps[w] < |perm|
  {
    forall v, w :: 0 <= v < w < |ps| ==> Ahead(xb, perm, q, ps[v], ps[w])
  }

  /** The query lies between the places lo and hi, where the database may end. */
  ghost predicate Encloses(xb: seq<real>, perm: seq<nat>, q: real, lo: int, hi: int)
    requires IsArgsort(perm, xb)
  {
    && -1 <= lo < hi <= |perm|
    && (lo >= 0 ==> xb[perm[lo]] <= q)
    && (hi < |perm| ==> xb[perm[hi]] > q)
  }

  /**
   ps lists the places between lo and hi around the query in their turn, and everything listed
   comes before the entries just outside.
   */
  ghost predicate IsWindow(ps: seq<nat>, xb: seq<real>, perm: seq<nat>, q: real, lo: int, hi: int)
    requires IsArgsort(perm, xb)
  {
    && Encloses(xb, perm, q, lo, hi)
    && IsListing(ps, lo, hi)
    && InTurn(ps, xb, perm, q)
    && (lo >= 0 ==> AllAhead(ps, xb, perm, q, lo))
    && (hi < |perm| ==> AllAhead(ps, xb, perm, q, hi))
  }

  lemma ListingLeft(ps: seq<nat>, lo: int, hi: int)
    requires IsListing(ps, lo, hi) && lo >= 0
    ensures IsListing(ps + [lo], lo - 1, hi)
  {
    forall p | lo - 1 < p < hi
      ensures p in ps + [lo]
    {
      assert p == lo || p in ps;
    }
  }

  lemma ListingRight(ps: seq<nat>, lo: int, hi: int)
    requires IsListing(ps, lo, hi) && hi >= 0
    ensures IsListing(ps + [hi], lo, hi + 1)
  {
    forall p | lo < p < hi + 1
      ensures p in ps + [hi]
    {
      assert p == hi || p in ps;
    }
  }

  /** A place that everything listed comes before may follow the list. */
  lemma TurnAppend(ps: seq<nat>, xb: seq<real>, perm: seq<nat>, q: real, p: nat)
    requires IsArgsort(perm, xb) && p < |perm| && forall w :: 0 <= w < |ps| ==> ps[w] < |perm|
    requires InTurn(ps, xb, perm, q) && AllAhead(ps, xb, perm, q, p)
    ensures InTurn(ps + [p], xb, perm, q)
  {
    hide Ahead;
  }

  lemma AheadAppend(ps: seq<nat>, xb: seq<real>, perm: seq<nat>, q: real, p: nat, b: nat)
    requires IsArgsort(perm, xb) && p < |perm| && b < |perm| && forall w :: 0 <= w < |ps| ==> ps[w] < |perm|
    requires AllAhead(ps, xb, perm, q, p) && Ahead(xb, perm, q, p, b)
    ensures AllAhead(ps + [p], xb, perm, q, b)
  {
    hide Ahead;
    forall w | 0 <= w < |ps|
      ensures Ahead(xb, perm, q, ps[w], b)
    {
      AheadTransitive(xb, perm, q, ps[w], p, b);
    }
  }

  lemma TakeLeft(ps: seq<nat>, xb: seq<real>, perm: seq<nat>, q: real, lo: int, hi: int)
    requires IsArgsort(perm, xb) && IsWindow(ps, xb, perm, q, lo, hi) && lo >= 0
    requires hi < |perm| ==> DistAt(xb, perm, q, lo) < DistAt(xb, perm, q, hi)
    ensures IsWindow(ps + [lo], xb, perm, q, lo - 1, hi)
    ensures lo - 1 >= 0 ==> xb[perm[lo - 1]] <= q
  {
    hide AllAhead, InTurn, DistAt;
    ListingLeft(ps, lo, hi);
    TurnAppend(ps, xb, perm, q, lo);
    if lo > 0 {
      assert xb[perm[lo - 1]] <= xb[perm[lo]];
      NextOnSide(xb, perm, q, lo, lo - 1);
      AheadAppend(ps, xb, perm, q, lo, lo - 1);
    }
    if hi < |perm| {
      AheadAppend(ps, xb, perm, q, lo, hi);
    }
  }

  lemma TakeRight(ps: seq<nat>, xb: seq<real>, perm: seq<nat>, q: real, lo: int, hi: int)
    requires IsArgsort(perm, xb) && IsWindow(ps, xb, perm, q, lo, hi) && hi < |perm|
    requires lo >= 0 ==> DistAt(xb, perm, q, hi) <= DistAt(xb, perm, q, lo)
    ensures IsWindow(ps + [hi], xb, perm, q, lo, hi + 1)
    ensures hi + 1 < |perm| ==> xb[perm[hi + 1]] > q
  {
    hide AllAhead, InTurn, DistAt;
    ListingRight(ps, lo, hi);
    TurnAppend(ps, xb, perm, q, hi);
    if hi + 1 < |perm| {
      assert xb[perm[hi]] <= xb[perm[hi + 1]];
      NextOnSide(xb, perm, q, hi, hi + 1);
      AheadAppend(ps, xb, perm, q, hi, hi + 1);
    }
    if lo >= 0 {
      AheadAppend(ps, xb, perm, q, hi, lo);
    }
  }

  lemma WindowEnds(ps: seq<nat>, xb: seq<real>, perm: seq<nat>, q: real, lo: int, hi: int)
    requires IsArgsort(perm, xb) && IsWindow(ps, xb, perm, q, lo, hi)
    ensures -1 <= lo < hi <= |perm| && |ps| == hi - lo - 1
    ensures lo >= 0 ==> xb[perm[lo]] <= q
    ensures hi < |perm| ==> xb[perm[hi]] > q
  {
  }

  lemma FirstWindow(xb: seq<real>, perm: seq<nat>, q: real, lo: int)
    requires IsArgsort(perm, xb) && -1 <= lo < |perm|
    requires lo >= 0 ==> xb[perm[lo]] <= q
    requires lo + 1 < |perm| ==> xb[perm[lo + 1]] > q
    ensures IsWindow([], xb, perm, q, lo, lo + 1)
  {
  }

  /** The first entries of D and I are those listed by ps. */
  ghost predicate IsWritten(D: seq<Distance>, I: seq<int>, ps: seq<nat>, xb: seq<real>, perm: seq<nat>, q: real)
    requires IsArgsort(perm, xb)
  {
    && |ps| <= |D| == |I|
    && (forall w :: 0 <= w < |ps| ==> ps[w] < |perm| && D[w] == Fin(DistAt(xb, perm, q, ps[w])) && I[w] == perm[ps[w]])
  }

  lemma WriteNext(D: seq<Distance>, I: seq<int>, ps: seq<nat>, xb: seq<real>, perm: seq<nat>, q: real, p: nat)
    requires IsArgsort(perm, xb) && IsWritten(D, I, ps, xb, perm, q)
    requires |ps| < |D| && p < |perm|
    ensures IsWritten(D[|ps| := Fin(DistAt(xb, perm, q, p))], I[|ps| := perm[p]], ps + [p], xb, perm, q)
  {
    hide DistAt;
  }

  /** Writes the entry at sorted place p, at distance dis, as result number wp. */
  method Write(xb: seq<real>, perm: seq<nat>, q: real, D: array<Distance>, I: array<int>,
               wp: nat, dis: real, p: nat, ghost ps: seq<nat>)
    requires IsArgsort(perm, xb) && IsWritten(D[..], I[..], ps, xb, perm, q)
    requires |ps| == wp < D.Length && p < |perm| && dis == DistAt(xb, perm, q, p)
    modifies D, I
    ensures IsWritten(D[..], I[..], ps + [p], xb, perm, q)
  {
    WriteNext(D[..], I[..], ps, xb, perm, q, p);
    ghost var D0, I0 := D[..], I[..];
    D[wp] := Fin(dis);
    I[wp] := perm[p];
    assert D[..] == D0[wp := Fin(dis)];
    assert I[..] == I0[wp := perm[p]];
  }

  ghost predicate IsPadded(D: seq<Distance>, I: seq<int>, from: nat, to: nat) {
    to <= |D| == |I| && forall w :: from <= w < to ==> D[w] == Infinity && I[w] == -1
  }

  /** Fills result number wp when the database has run out. */
  method Pad(xb: seq<real>, perm: seq<nat>, q: real, D: array<Distance>, I: array<int>, wp: nat, ghost ps: seq<nat>)
    requires IsArgsort(perm, xb) && IsWritten(D[..], I[..], ps, xb, perm, q)
    requires |ps| <= wp < D.Length && IsPadded(D[..], I[..], |ps|, wp)
    modifies D, I
    ensures IsWritten(D[..], I[..], ps, xb, perm, q) && IsPadded(D[..], I[..], |ps|, wp + 1)
  {
    hide DistAt, IsArgsort;
    D[wp] := Infinity;
    I[wp] := -1;
  }

  lemma CountTwice<T>(s: seq<T>, i: nat, j: nat)
    requires i < j < |s| && s[i] == s[j]
    ensures multiset(s)[s[i]] >= 2
  {
    assert s == s[..i] + [s[i]] + s[i + 1..j] + [s[j]] + s[j + 1..];
  }

  lemma {:induction false} IdentityOnce(n: nat, x: nat)
    ensures multiset(Identity(n))[x] == if x < n then 1 else 0
  {
    if n > 0 {
      IdentityOnce(n - 1, x);
      assert Identity(n) == Identity(n - 1) + [n - 1];
    }
  }

  /** A permutation of the places repeats none and misses none. */
  lemma PermFacts(perm: seq<nat>, n: nat)
    requires multiset(perm) == multiset(Identity(n))
    ensures forall i, j :: 0 <= i < j < |perm| ==> perm[i] != perm[j]
    ensures forall x: nat :: x < n ==> x in perm
  {
    forall i, j | 0 <= i < j < |perm|
      ensures perm[i] != perm[j]
    {
      if perm[i] == perm[j] {
        CountTwice(perm, i, j);
        IdentityOnce(n, perm[i]);
      }
    }
    forall x: nat | x < n
      ensures x in perm
    {
      IdentityOnce(n, x);
      assert x in multiset(perm);
    }
  }

  /** Everything listed comes before the places outside the window. */
  lemma OutsideIsFarther(ps: seq<nat>, xb: seq<real>, perm: seq<nat>, q: real, lo: int, hi: int, w: nat, p: nat)
    requires IsArgsort(perm, xb) && IsWindow(ps, xb, perm, q, lo, hi)
    requires w < |ps| && p < |perm| && !(lo < p < hi)
    ensures Ahead(xb, perm, q, ps[w], p) && DistAt(xb, perm, q, ps[w]) <= DistAt(xb, perm, q, p)
  {
    hide DistAt;
    if p < lo {
      NextOnSide(xb, perm, q, lo, p);
      AheadTransitive(xb, perm, q, ps[w], lo, p);
    } else if p > hi {
      NextOnSide(xb, perm, q, hi, p);
      AheadTransitive(xb, perm, q, ps[w], hi, p);
    }
  }

  lemma ListedLabel(D: seq<Distance>, I: seq<int>, ps: seq<nat>, xb: seq<real>, perm: seq<nat>, q: real, lo: int,
                    hi: int, p: nat)
    requires IsArgsort(perm, xb) && IsWindow(ps, xb, perm, q, lo, hi)
    requires IsWritten(D, I, ps, xb, perm, q) && lo < p < hi
    ensures perm[p] in I[..|ps|]
  {
    assert p in ps;
    var v :| 0 <= v < |ps| && ps[v] == p;
    assert I[..|ps|][v] == perm[p];
  }

  /** The results written so far: true distances in order, for different entries. */
  lemma WrittenAreDistances(D: seq<Distance>, I: seq<int>, ps: seq<nat>, xb: seq<real>, perm: seq<nat>, q: real,
                            lo: int, hi: int)
    requires IsArgsort(perm, xb) && IsWindow(ps, xb, perm, q, lo, hi) && IsWritten(D, I, ps, xb, perm, q)
    ensures |ps| <= |D| == |I|
    ensures forall w :: 0 <= w < |ps| ==> 0 <= I[w] < |xb| && D[w] == Fin(Abs(xb[I[w]] - q))
    ensures forall v, w :: 0 <= v < w < |ps| ==> D[v].value <= D[w].value
    ensures forall v, w :: 0 <= v < w < |ps| ==> I[v] != I[w]
  {
    hide Abs, Encloses, AllAhead;
    PermFacts(perm, |xb|);
  }

  /** An entry that is not among the results is no nearer than any of them. */
  lemma MissedIsFarther(D: seq<Distance>, I: seq<int>, ps: seq<nat>, xb: seq<real>, perm: seq<nat>, q: real,
                        lo: int, hi: int,
                        w: nat, j: nat)
    requires IsArgsort(perm, xb) && IsWindow(ps, xb, perm, q, lo, hi) && IsWritten(D, I, ps, xb, perm, q)
    requires w < |ps| && j < |xb| && j !in I[..|ps|]
    ensures D[w] == Fin(D[w].value) && D[w].value <= Abs(xb[j] - q)
  {
    hide Abs, IsWindow;
    PermFacts(perm, |xb|);
    assert j in perm;
    var p :| 0 <= p < |perm| && perm[p] == j;
    if lo < p < hi {
      ListedLabel(D, I, ps, xb, perm, q, lo, hi, p);
    }
    OutsideIsFarther(ps, xb, perm, q, lo, hi, w, p);
  }

  lemma WindowIsFirst(D: seq<Distance>, I: seq<int>, ps: seq<nat>, xb: seq<real>, perm: seq<nat>, q: real,
                      lo: int, hi: int)
    requires IsArgsort(perm, xb) && IsWindow(ps, xb, perm, q, lo, hi)
    requires IsWritten(D, I, ps, xb, perm, q) && |ps| == if |D| <= |xb| then |D| else |xb|
    ensures AreFirst(ps, I, xb, perm, q)
  {
    hide Ahead, DistAt;
    forall w, p | 0 <= w < |ps| && 0 <= p < |perm| && p !in ps
      ensures Ahead(xb, perm, q, ps[w], p)
    {
      OutsideIsFarther(ps, xb, perm, q, lo, hi, w, p);
    }
  }

  lemma WindowIsNearest(D: seq<Distance>, I: seq<int>, ps: seq<nat>, xb: seq<real>, perm: seq<nat>, q: real,
                        lo: int, hi: int)
    requires IsArgsort(perm, xb) && IsWindow(ps, xb, perm, q, lo, hi)
    requires IsWritten(D, I, ps, xb, perm, q)
    requires |ps| == |D| || |ps| == |xb|
    requires IsPadded(D, I, |ps|, |D|)
    ensures IsAnswer(D, I, xb, perm, q)
  {
    var n := |ps|;
    WindowFits(ps, xb, perm, q, lo, hi);
    hide Abs, IsArgsort, IsWindow, IsWritten;
    WrittenAreDistances(D, I, ps, xb, perm, q, lo, hi);
    assert n == if |D| <= |xb| then |D| else |xb|;
    forall w, j | 0 <= w < n && 0 <= j < |xb| && j !in I[..n]
      ensures D[w].value <= Abs(xb[j] - q)
    {
      MissedIsFarther(D, I, ps, xb, perm, q, lo, hi, w, j);
    }
    WindowIsFirst(D, I, ps, xb, perm, q, lo, hi);
  }

  lemma WindowFits(ps: seq<nat>, xb: seq<real>, perm: seq<nat>, q: real, lo: int, hi: int)
    requires IsArgsort(perm, xb) && IsWindow(ps, xb, perm, q, lo, hi)
    ensures |ps| <= |xb|
  {
    hide InTurn, AllAhead;
  }

  lemma SortedPlaces(perm: seq<nat>, xb: seq<real>)
    requires IsArgsort(perm, xb)
    ensures |perm| == |xb| && forall i :: 0 <= i < |perm| ==> perm[i] < |xb|
  {
  }

  /** The distance to an entry on either side of the query. */
  lemma Sides(xb: seq<real>, perm: seq<nat>, q: real, p: nat)
    requires IsArgsort(perm, xb) && p < |perm|
    ensures xb[perm[p]] <= q ==> DistAt(xb, perm, q, p) == q - xb[perm[p]]
    ensures xb[perm[p]] > q ==> DistAt(xb, perm, q, p) == xb[perm[p]] - q
  {
  }

  // ---------- the search ----------

  /** finish_right: everything left of i1 is listed. */
  method FinishRight(xb: seq<real>, perm: seq<nat>, q: real, D: array<Distance>, I: array<int>,
                     wp0: nat, i10: nat, ghost ps0: seq<nat>)
    requires IsArgsort(perm, xb) && IsWindow(ps0, xb, perm, q, -1, i10)
    requires D.Length == I.Length && IsWritten(D[..], I[..], ps0, xb, perm, q) && |ps0| == wp0
    modifies D, I
    ensures IsAnswer(D[..], I[..], xb, perm, q)
  {
    WindowEnds(ps0, xb, perm, q, -1, i10);
    SortedPlaces(perm, xb);
    hide IsArgsort, IsWindow, IsAnswer, IsWritten, DistAt;
    var wp: nat, i1: nat := wp0, i10;
    ghost var ps: seq<nat> := ps0;
    while wp < D.Length
      invariant wp <= D.Length && i1 <= |perm|
      invariant i1 < |perm| ==> xb[perm[i1]] > q
      invariant IsWindow(ps, xb, perm, q, -1, i1)
      invariant IsWritten(D[..], I[..], ps, xb, perm, q) && |ps| <= D.Length
      invariant if i1 < |perm| then wp == |ps| else |ps| <= wp
      invariant IsPadded(D[..], I[..], |ps|, wp)
      decreases D.Length - wp
    {
      if i1 < |perm| {
        TakeRight(ps, xb, perm, q, -1, i1);
        Sides(xb, perm, q, i1);
        Write(xb, perm, q, D, I, wp, xb[perm[i1]] - q, i1, ps);
        ps := ps + [i1];
        i1 := i1 + 1;
      } else {
        Pad(xb, perm, q, D, I, wp, ps);
      }
      wp := wp + 1;
    }
    WindowIsNearest(D[..], I[..], ps, xb, perm, q, -1, i1);
  }

  /** finish_left: everything right of i0 is listed. */
  method FinishLeft(xb: seq<real>, perm: seq<nat>, q: real, D: array<Distance>, I: array<int>,
                    wp0: nat, i00: int, ghost ps0: seq<nat>)
    requires IsArgsort(perm, xb) && IsWindow(ps0, xb, perm, q, i00, |perm|)
    requires D.Length == I.Length && IsWritten(D[..], I[..], ps0, xb, perm, q) && |ps0| == wp0
    modifies D, I
    ensures IsAnswer(D[..], I[..], xb, perm, q)
  {
    WindowEnds(ps0, xb, perm, q, i00, |perm|);
    SortedPlaces(perm, xb);
    hide IsArgsort, IsWindow, IsAnswer, IsWritten, DistAt;
    var wp: nat, i0: int := wp0, i00;
    ghost var ps: seq<nat> := ps0;
    while wp < D.Length
      invariant wp <= D.Length && -1 <= i0 < |perm|
      invariant i0 >= 0 ==> xb[perm[i0]] <= q
      invariant IsWindow(ps, xb, perm, q, i0, |perm|)
      invariant IsWritten(D[..], I[..], ps, xb, perm, q) && |ps| <= D.Length
      invariant if i0 >= 0 then wp == |ps| else |ps| <= wp
      invariant IsPadded(D[..], I[..], |ps|, wp)
      decreases D.Length - wp
    {
      if i0 >= 0 {
        TakeLeft(ps, xb, perm, q, i0, |perm|);
        Sides(xb, perm, q, i0);
        Write(xb, perm, q, D, I, wp, q - xb[perm[i0]], i0, ps);
        ps := ps + [i0];
        i0 := i0 - 1;
      } else {
        Pad(xb, perm, q, D, I, wp, ps);
      }
      wp := wp + 1;
    }
    WindowIsNearest(D[..], I[..], ps, xb, perm, q, i0, |perm|);
  }

  /** The places on either side of the query. */
  method Bisect(xb: seq<real>, perm: seq<nat>, q: real) returns (i0: nat, i1: nat)
    requires IsArgsort(perm, xb) && |perm| > 0
    requires xb[perm[0]] <= q < xb[perm[|perm| - 1]]
    ensures i1 == i0 + 1 < |perm| && xb[perm[i0]] <= q < xb[perm[i1]]
  {
    i0, i1 := 0, |perm|;
    while i0 + 1 < i1
      invariant 0 <= i0 < i1 <= |perm|
      invariant xb[perm[i0]] <= q && (i1 < |perm| ==> q < xb[perm[i1]])
      decreases i1 - i0
    {
      var imed := (i0 + i1) / 2;
      if xb[perm[imed]] <= q {
        i0 := imed;
      } else {
        i1 := imed;
      }
    }
  }

  lemma NothingIsAnswer(D: seq<Distance>, I: seq<int>, xb: seq<real>, perm: seq<nat>, q: real)
    requires IsArgsort(perm, xb) && xb == [] && |D| == |I|
    requires forall w :: 0 <= w < |D| ==> D[w] == Infinity && I[w] == -1
    ensures IsAnswer(D, I, xb, perm, q)
  {
    hide Ahead, Abs;
    var ps: seq<nat> := [];
    assert |perm| == 0;
    assert AreFirst(ps, I, xb, perm, q);
  }

  /** An empty database leaves every result unused. */
  method PadAll(xb: seq<real>, perm: seq<nat>, q: real, D: array<Distance>, I: array<int>)
    requires IsArgsort(perm, xb) && xb == [] && D.Length == I.Length
    modifies D, I
    ensures IsAnswer(D[..], I[..], xb, perm, q)
  {
    hide IsArgsort, IsAnswer;
    for j := 0 to D.Length
      invariant forall w :: 0 <= w < j ==> D[w] == Infinity && I[w] == -1
    {
      I[j] := -1;
      D[j] := Infinity;
    }
    NothingIsAnswer(D[..], I[..], xb, perm, q);
  }

  /** The search for one query; false stands for the exceptions on k <= 0 and on a stale permutation. */
  method Search(xb: seq<real>, perm: seq<nat>, q: real, k: int, D: array<Distance>, I: array<int>) returns (ok: bool)
    requires |perm| == |xb| ==> IsArgsort(perm, xb)
    requires k > 0 ==> D.Length == I.Length == k
    modifies D, I
    ensures ok <==> k > 0 && |perm| == |xb|
    ensures ok ==> IsAnswer(D[..], I[..], xb, perm, q)
    ensures !ok ==> D[..] == old(D[..]) && I[..] == old(I[..])
  {
    if !(k > 0) || |perm| != |xb| {
      return false;
    }
    ok := true;
    var i0, i1, wp := 0, |xb|, 0;
    hide IsAnswer, Ahead;
    if |xb| == 0 {
      PadAll(xb, perm, q, D, I);
      return;
    }
    if xb[perm[i0]] > q {
      i1 := 0;
      FinishRight(xb, perm, q, D, I, wp, i1, []);
      return;
    }
    if xb[perm[i1 - 1]] <= q {
      i0 := i1 - 1;
      FinishLeft(xb, perm, q, D, I, wp, i0, []);
      return;
    }
    i0, i1 := Bisect(xb, perm, q);
    Expand(xb, perm, q, D, I, i0, i1);
  }

  /** Takes the nearer of the entries on either side until the results are full or a side runs out. */
  method Expand(xb: seq<real>, perm: seq<nat>, q: real, D: array<Distance>, I: array<int>, i00: int, i10: nat)
    requires IsArgsort(perm, xb) && 0 <= i00 < i10 == i00 + 1 < |perm|
    requires xb[perm[i00]] <= q < xb[perm[i10]]
    requires D.Length == I.Length
    modifies D, I
    ensures IsAnswer(D[..], I[..], xb, perm, q)
  {
    FirstWindow(xb, perm, q, i00);
    hide IsWindow, IsAnswer, IsWritten;
    var i0: int, i1: nat, wp: nat := i00, i10, 0;
    ghost var ps: seq<nat> := [];
    while wp < D.Length
      invariant 0 <= i0 < i1 < |perm| && xb[perm[i0]] <= q < xb[perm[i1]]
      invariant wp <= D.Length && IsWindow(ps, xb, perm, q, i0, i1)
      invariant IsWritten(D[..], I[..], ps, xb, perm, q) && wp == |ps|
      decreases D.Length - wp
    {
      var xleft, xright := xb[perm[i0]], xb[perm[i1]];
      if q - xleft < xright - q {
        TakeLeft(ps, xb, perm, q, i0, i1);
        Write(xb, perm, q, D, I, wp, q - xleft, i0, ps);
        ps := ps + [i0];
        i0 := i0 - 1;
        wp := wp + 1;
        if i0 < 0 {
          FinishRight(xb, perm, q, D, I, wp, i1, ps);
          return;
        }
      } else {
        TakeRight(ps, xb, perm, q, i0, i1);
        Write(xb, perm, q, D, I, wp, xright - q, i1, ps);
        ps := ps + [i1];
        i1 := i1 + 1;
        wp := wp + 1;
        if i1 >= |perm| {
          FinishLeft(xb, perm, q, D, I, wp, i0, ps);
          return;
        }
      }
    }
    WindowIsNearest(D[..], I[..], ps, xb, perm, q, i0, i1);
  }
}
