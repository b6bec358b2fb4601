/**
 The multi-hash binary index (include/faiss/IndexBinaryHash.cpp): nhash disjoint segments of b
 bits each have their own hash table; a query shortlists every vector that is at most nflip
 bits away in some segment and then measures the shortlist.
 */
module MultiHash {
  import opened Arithmetic
  import opened BitWords
  import opened FlipEnumeration
  import opened TopKHeap
  import opened BinaryHash
  import opened MaskCount
  import opened Wrappers

  /** The b bits of v from offset ho on, read through one shifted word. */
  function SegmentHash(v: Code, ho: nat, b: nat): Word
    requires b < 64
  {
    And(Shr(ReadWord(v, ho / 8), ho % 8), LowMask(b))
  }

  /** The shift drops the bits of a segment that lie beyond the word it is read through. */
  function VisibleBits(ho: nat, b: nat): nat {
    if b <= 64 - ho % 8 then b else 64 - ho % 8
  }

  lemma SegmentBit(v: Code, ho: nat, b: nat, i: nat)
    requires b < 64 && i < 64
    ensures SegmentHash(v, ho, b)[i] == (i < VisibleBits(ho, b) && ho + i < |v| && v[ho + i])
  {
    var w := ReadWord(v, ho / 8);
    assert 8 * (ho / 8) + ho % 8 == ho;
    if i + ho % 8 < 64 {
      assert Shr(w, ho % 8)[i] == w[i + ho % 8];
    }
  }

  /** How many visible bits of a segment differ. */
  function SegmentDistance(q: Code, v: Code, ho: nat, b: nat): nat
    requires b < 64
  {
    Weight(Xor(SegmentHash(v, ho, b), SegmentHash(q, ho, b)), b)
  }

  lemma SegmentMaskAdmissible(q: Code, v: Code, ho: nat, b: nat, nflip: nat)
    requires b < 64
    ensures Admissible(Xor(SegmentHash(v, ho, b), SegmentHash(q, ho, b)), b, nflip)
      <==> SegmentDistance(q, v, ho, b) <= nflip
  {
    var x := Xor(SegmentHash(v, ho, b), SegmentHash(q, ho, b));
    forall i | b <= i < 64
      ensures !x[i]
    {
      SegmentBit(v, ho, b, i);
      SegmentBit(q, ho, b, i);
    }
  }

  lemma {:induction false} SegmentPrefix(q: Code, v: Code, ho: nat, b: nat, n: nat)
    requires n <= b < 64 && ho + b <= |q| == |v|
    ensures Weight(Xor(SegmentHash(v, ho, b), SegmentHash(q, ho, b)), n) <= Hamming(q, v, ho + n) - Hamming(q, v, ho)
  {
    hide SegmentHash;
    if n > 0 {
      SegmentPrefix(q, v, ho, b, n - 1);
      SegmentBit(v, ho, b, n - 1);
      SegmentBit(q, ho, b, n - 1);
    }
  }

  lemma SegmentBound(q: Code, v: Code, ho: nat, b: nat)
    requires b < 64 && ho + b <= |q| == |v|
    ensures SegmentDistance(q, v, ho, b) <= Hamming(q, v, ho + b) - Hamming(q, v, ho)
  {
    SegmentPrefix(q, v, ho, b, b);
  }

  /** The first n places of a segment that its hash shows and in which two vectors differ. */
  ghost function SegmentDifferences(q: Code, v: Code, ho: nat, n: nat): set<nat>
    requires ho + n <= |q| == |v|
  {
    set p: nat | ho <= p < ho + n && ho % 8 + p - ho < 64 && q[p] != v[p]
  }

  lemma NoDifferences(q: Code, v: Code, ho: nat)
    requires ho <= |q| == |v|
    ensures SegmentDifferences(q, v, ho, 0) == {}
  {
  }

  lemma DifferencesMore(q: Code, v: Code, ho: nat, n: nat)
    requires ho + n < |q| == |v|
    ensures |SegmentDifferences(q, v, ho, n + 1)|
      == |SegmentDifferences(q, v, ho, n)| + if ho % 8 + n < 64 && q[ho + n] != v[ho + n] then 1 else 0
  {
    var before, all := SegmentDifferences(q, v, ho, n), SegmentDifferences(q, v, ho, n + 1);
    assert ho + n !in before;
    assert all == if ho + n in all then before + {ho + n} else before;
  }

  lemma {:induction false} SegmentCounts(q: Code, v: Code, ho: nat, b: nat, n: nat)
    requires n <= b < 64 && ho + b <= |q| == |v|
    ensures Weight(Xor(SegmentHash(v, ho, b), SegmentHash(q, ho, b)), n) == |SegmentDifferences(q, v, ho, n)|
  {
    hide SegmentHash, SegmentDifferences;
    if n == 0 {
      NoDifferences(q, v, ho);
    } else {
      SegmentCounts(q, v, ho, b, n - 1);
      SegmentBit(v, ho, b, n - 1);
      SegmentBit(q, ho, b, n - 1);
      DifferencesMore(q, v, ho, n - 1);
    }
  }

  /** The distance of two segments counts the shown places in which they differ. */
  lemma SegmentDistanceCounts(q: Code, v: Code, ho: nat, b: nat)
    requires b < 64 && ho + b <= |q| == |v|
    ensures SegmentDistance(q, v, ho, b) == |SegmentDifferences(q, v, ho, b)|
  {
    SegmentCounts(q, v, ho, b, b);
  }

  ghost predicate NearSomewhere(q: Code, v: Code, nhash: nat, b: nat, nflip: nat)
    requires b < 64
  {
    exists h :: 0 <= h < nhash && SegmentDistance(q, v, h * b, b) <= nflip
  }

  /** Pigeonhole: far in each of h segments is far by h times as much. */
  lemma {:induction false} FarInEverySegment(q: Code, v: Code, h: nat, b: nat, nflip: nat)
    requires b < 64 && h * b <= |q| == |v|
    requires forall g :: 0 <= g < h ==> SegmentDistance(q, v, g * b, b) > nflip
    ensures Hamming(q, v, h * b) >= h * (nflip + 1)
  {
    hide SegmentDistance, SegmentHash;
    if h > 0 {
      assert (h - 1) * b + b == h * b;
      assert (h - 1) * (nflip + 1) + nflip + 1 == h * (nflip + 1);
      assert SegmentDistance(q, v, (h - 1) * b, b) > nflip;
      FarInEverySegment(q, v, h - 1, b, nflip);
      SegmentBound(q, v, (h - 1) * b, b);
    }
  }

  lemma CloseIsNearSomewhere(q: Code, v: Code, nhash: nat, b: nat, nflip: nat)
    requires b < 64 && nhash * b <= |q| == |v|
    requires Hamming(q, v, |q|) < nhash * (nflip + 1)
    ensures NearSomewhere(q, v, nhash, b, nflip)
  {
    if !NearSomewhere(q, v, nhash, b, nflip) {
      FarInEverySegment(q, v, nhash, b, nflip);
      HammingMonotone(q, v, nhash * b, |q|);
    }
  }

  // ---------- what the tables hold ----------

  /** The numbers of the vectors whose segment hashes to w, in order. */
  ghost function Postings(storage: seq<Code>, ho: nat, b: nat, w: Word): (r: seq<nat>)
    requires b < 64
    ensures forall i: nat :: i in r <==> i < |storage| && SegmentHash(storage[i], ho, b) == w
    decreases |storage|
  {
    if storage == [] then []
    else
      var n := |storage| - 1;
      Postings(storage[..n], ho, b, w) + if SegmentHash(storage[n], ho, b) == w then [n] else []
  }

  /** Postings are in the order in which vectors were added. */
  lemma {:induction false} PostingsIncrease(storage: seq<Code>, ho: nat, b: nat, w: Word)
    requires b < 64
    ensures forall i, j :: 0 <= i < j < |Postings(storage, ho, b, w)| ==>
      Postings(storage, ho, b, w)[i] < Postings(storage, ho, b, w)[j]
    decreases |storage|
  {
    hide SegmentHash;
    if storage != [] {
      var front := Postings(storage[..|storage| - 1], ho, b, w);
      PostingsIncrease(storage[..|storage| - 1], ho, b, w);
      forall i | 0 <= i < |front|
        ensures front[i] < |storage| - 1
      {
        assert front[i] in front;
      }
    }
  }

  ghost predicate HoldsPostings(m: map<Word, seq<nat>>, storage: seq<Code>, ho: nat, b: nat)
    requires b < 64
  {
    && (forall w: Word :: w in m <==> Postings(storage, ho, b, w) != [])
    && (forall w: Word :: w in m ==> m[w] == Postings(storage, ho, b, w))
  }

  function AddPosting(m: map<Word, seq<nat>>, hash: Word, i: nat): map<Word, seq<nat>> {
    m[hash := (if hash in m then m[hash] else []) + [i]]
  }

  lemma PostingsAppend(storage: seq<Code>, ho: nat, b: nat, v: Code, w: Word)
    requires b < 64
    ensures Postings(storage + [v], ho, b, w)
      == Postings(storage, ho, b, w) + if SegmentHash(v, ho, b) == w then [|storage|] else []
  {
    hide SegmentHash;
    assert (storage + [v])[..|storage|] == storage;
  }

  lemma HoldsPostingsStep(m: map<Word, seq<nat>>, storage: seq<Code>, ho: nat, b: nat, v: Code)
    requires b < 64 && HoldsPostings(m, storage, ho, b)
    ensures HoldsPostings(AddPosting(m, SegmentHash(v, ho, b), |storage|), storage + [v], ho, b)
  {
    hide SegmentHash, Postings;
    var r := AddPosting(m, SegmentHash(v, ho, b), |storage|);
    forall w: Word
      ensures w in r <==> Postings(storage + [v], ho, b, w) != []
      ensures w in r ==> r[w] == Postings(storage + [v], ho, b, w)
    {
      PostingsAppend(storage, ho, b, v, w);
    }
  }

  // ---------- what a search should find ----------

  /** The stored vectors with their numbers as ids. */
  ghost function LogOf(storage: seq<Code>): seq<Stored> {
    seq(|storage|, i requires 0 <= i < |storage| => Stored(i, storage[i]))
  }

  /** The candidates of the vectors whose number is listed. */
  ghost function Listed(storage: seq<Code>, q: Code, numbers: set<nat>): seq<Candidate>
    requires forall i :: 0 <= i < |storage| ==> |storage[i]| == |q|
    decreases |storage|
  {
    if storage == [] then []
    else
      var n := |storage| - 1;
      Listed(storage[..n], q, numbers)
      + if n in numbers then [Candidate(Hamming(q, storage[n], |q|), n)] else []
  }

  /** Vector number c.id is listed, at the distance of c. */
  ghost predicate IsListed(storage: seq<Code>, q: Code, numbers: set<nat>, c: Candidate)
    requires forall i :: 0 <= i < |storage| ==> |storage[i]| == |q|
  {
    0 <= c.id < |storage| && c.id in numbers && Hamming(q, storage[c.id], |q|) == c.dis
  }

  /** The shortlist is measured once per vector. */
  lemma {:induction false} ListedOnce(storage: seq<Code>, q: Code, numbers: set<nat>, c: Candidate)
    requires forall i :: 0 <= i < |storage| ==> |storage[i]| == |q|
    ensures multiset(Listed(storage, q, numbers))[c] == if IsListed(storage, q, numbers, c) then 1 else 0
    decreases |storage|
  {
    hide Hamming;
    if storage != [] {
      ListedOnce(storage[..|storage| - 1], q, numbers, c);
    }
  }

  ghost function Shortlist(storage: seq<Code>, q: Code, nhash: nat, b: nat, nflip: nat): set<nat>
    requires b < 64
  {
    set i: nat | i < |storage| && NearSomewhere(q, storage[i], nhash, b, nflip)
  }

  /** A shortlist that misses only vectors outside the radius is as good as all of them. */
  lemma {:induction false} ListedIsExhaustive(storage: seq<Code>, q: Code, numbers: set<nat>, radius: int)
    requires forall i :: 0 <= i < |storage| ==> |storage[i]| == |q|
    requires forall i: nat :: i < |storage| && i !in numbers ==> Hamming(q, storage[i], |q|) >= radius
    ensures InRadius(Listed(storage, q, numbers), radius) == InRadius(AllCandidates(LogOf(storage), q), radius)
    decreases |storage|
  {
    hide Hamming, InRadius, AllCandidates, Listed, LogOf;
    if storage == [] {
      NothingListed(storage, q, numbers);
    } else {
      var n := |storage| - 1;
      var front, c := storage[..n], Candidate(Hamming(q, storage[n], |q|), n);
      ListedIsExhaustive(front, q, numbers, radius);
      LastListed(storage, q, numbers);
      AllCandidatesAppend(LogOf(front), Stored(n, storage[n]), q);
      OneMoreInRadius(Listed(front, q, numbers), AllCandidates(LogOf(front), q), c, n in numbers, radius);
    }
  }

  lemma NothingListed(storage: seq<Code>, q: Code, numbers: set<nat>)
    requires storage == []
    ensures Listed(storage, q, numbers) == [] && LogOf(storage) == [] && AllCandidates(LogOf(storage), q) == []
  {
  }

  lemma LastListed(storage: seq<Code>, q: Code, numbers: set<nat>)
    requires storage != [] && forall i :: 0 <= i < |storage| ==> |storage[i]| == |q|
    ensures var n := |storage| - 1;
      && LogOf(storage) == LogOf(storage[..n]) + [Stored(n, storage[n])]
      && AllSized(LogOf(storage[..n]), |q|) && AllSized(LogOf(storage), |q|)
      && Listed(storage, q, numbers) == Listed(storage[..n], q, numbers)
           + if n in numbers then [Candidate(Hamming(q, storage[n], |q|), n)] else []
  {
  }

  lemma OneMoreInRadius(a: seq<Candidate>, b: seq<Candidate>, c: Candidate, isIn: bool, radius: int)
    requires InRadius(a, radius) == InRadius(b, radius) && (!isIn ==> c.dis >= radius)
    ensures InRadius(a + if isIn then [c] else [], radius) == InRadius(b + [c], radius)
  {
    hide InRadius;
    InRadiusAppend(a, c, radius);
    InRadiusAppend(b, c, radius);
    assert a + [] == a;
  }

  /** A radius that no vector outside a shortlist can be within. */
  ghost predicate CoversRadius(nhash: nat, b: nat, nflip: nat, radius: int) {
    radius <= nhash * (nflip + 1) || exists h :: 0 <= h < nhash && VisibleBits(h * b, b) <= nflip
  }

  lemma WithinCoveredRadius(q: Code, v: Code, nhash: nat, b: nat, nflip: nat, radius: int)
    requires b < 64 && nhash * b <= |q| == |v|
    requires CoversRadius(nhash, b, nflip, radius) && Hamming(q, v, |q|) < radius
    ensures NearSomewhere(q, v, nhash, b, nflip)
  {
    hide SegmentHash, Hamming, VisibleBits;
    if radius <= nhash * (nflip + 1) {
      CloseIsNearSomewhere(q, v, nhash, b, nflip);
    } else {
      var h :| 0 <= h < nhash && VisibleBits(h * b, b) <= nflip;
      VisibleBound(q, v, h * b, b, b);
      assert SegmentDistance(q, v, h * b, b) <= nflip;
    }
  }

  /** Within a covered radius a search is exhaustive, whatever is stored. */
  lemma ShortlistIsExhaustive(storage: seq<Code>, q: Code, nhash: nat, b: nat, nflip: nat, radius: int)
    requires b < 64 && nhash * b <= |q|
    requires forall i :: 0 <= i < |storage| ==> |storage[i]| == |q|
    requires CoversRadius(nhash, b, nflip, radius)
    ensures InRadius(Listed(storage, q, Shortlist(storage, q, nhash, b, nflip)), radius)
      == InRadius(AllCandidates(LogOf(storage), q), radius)
  {
    hide NearSomewhere, CoversRadius, Hamming;
    var numbers := Shortlist(storage, q, nhash, b, nflip);
    forall i: nat | i < |storage| && i !in numbers
      ensures Hamming(q, storage[i], |q|) >= radius
    {
      if Hamming(q, storage[i], |q|) < radius {
        WithinCoveredRadius(q, storage[i], nhash, b, nflip, radius);
      }
    }
    ListedIsExhaustive(storage, q, numbers, radius);
  }

  lemma {:induction false} VisibleBound(q: Code, v: Code, ho: nat, b: nat, n: nat)
    requires n <= b < 64
    ensures Weight(Xor(SegmentHash(v, ho, b), SegmentHash(q, ho, b)), n) <= VisibleBits(ho, b)
    ensures n <= VisibleBits(ho, b) ==> Weight(Xor(SegmentHash(v, ho, b), SegmentHash(q, ho, b)), n) <= n
  {
    hide SegmentHash;
    if n > 0 {
      VisibleBound(q, v, ho, b, n - 1);
      SegmentBit(v, ho, b, n - 1);
      SegmentBit(q, ho, b, n - 1);
    }
  }

  // ---------- the radius is the widest possible ----------

  /** The vector that has ones in the first f places of each of the first nhash segments. */
  ghost function Spread(d: nat, nhash: nat, b: nat, f: nat): Code
    requires b > 0
  {
    seq(d, i => i < nhash * b && i % b < f)
  }

  lemma SpreadAt(d: nat, nhash: nat, b: nat, f: nat, h: nat, r: nat)
    requires b > 0 && h < nhash && r < b && nhash * b <= d
    ensures h * b + r < d && Spread(d, nhash, b, f)[h * b + r] == (r < f)
  {
    MulMonotone(h + 1, nhash, b);
    DivMod(h, b, r);
  }

  lemma {:induction false} SpreadDistance(d: nat, nhash: nat, b: nat, f: nat, h: nat, r: nat)
    requires 0 < b && f <= b && r <= b && nhash * b <= d
    requires h < nhash || (h == nhash && r == 0)
    ensures h * b + r <= d
    ensures Hamming(LowOnes(d, 0), Spread(d, nhash, b, f), h * b + r) == h * f + if r <= f then r else f
    decreases h, r
  {
    if r > 0 {
      SpreadAt(d, nhash, b, f, h, r - 1);
      SpreadDistance(d, nhash, b, f, h, r - 1);
    } else if h > 0 {
      assert (h - 1) * b + b == h * b;
      assert (h - 1) * f + f == h * f;
      SpreadDistance(d, nhash, b, f, h - 1, b);
    }
  }

  lemma {:induction false} SpreadTail(d: nat, nhash: nat, b: nat, f: nat, n: nat)
    requires 0 < b && f <= b && nhash * b <= n <= d
    ensures Hamming(LowOnes(d, 0), Spread(d, nhash, b, f), n) == nhash * f
  {
    if n == nhash * b {
      SpreadDistance(d, nhash, b, f, nhash, 0);
    } else {
      SpreadTail(d, nhash, b, f, n - 1);
    }
  }

  lemma {:induction false} SpreadSegment(d: nat, nhash: nat, b: nat, f: nat, h: nat, n: nat)
    requires 0 < b < 64 && n <= b && nhash * b <= d && h < nhash && f <= VisibleBits(h * b, b)
    ensures var v, q := Spread(d, nhash, b, f), LowOnes(d, 0);
      Weight(Xor(SegmentHash(v, h * b, b), SegmentHash(q, h * b, b)), n) == if n <= f then n else f
  {
    hide SegmentHash;
    if n > 0 {
      var v, q := Spread(d, nhash, b, f), LowOnes(d, 0);
      SpreadSegment(d, nhash, b, f, h, n - 1);
      SpreadAt(d, nhash, b, f, h, n - 1);
      SegmentBit(v, h * b, b, n - 1);
      SegmentBit(q, h * b, b, n - 1);
    }
  }

  ghost predicate IsMissed(q: Code, v: Code, nhash: nat, b: nat, nflip: nat, radius: int)
    requires b < 64
  {
    |v| == |q| && !NearSomewhere(q, v, nhash, b, nflip) && Hamming(q, v, |q|) < radius
  }

  /** Beyond a covered radius, one vector with nflip + 1 differences in every segment is missed. */
  lemma SpreadIsMissed(d: nat, nhash: nat, b: nat, nflip: nat, radius: int)
    requires b < 64 && nhash * b <= d && !CoversRadius(nhash, b, nflip, radius)
    ensures exists v: Code, q: Code :: |q| == d && IsMissed(q, v, nhash, b, nflip, radius)
  {
    var q := LowOnes(d, 0);
    if nhash == 0 {
      LowOnesDistance(d, 0, d);
      assert IsMissed(q, q, nhash, b, nflip, radius);
    } else {
      assert VisibleBits(0 * b, b) > nflip;
      var v := Spread(d, nhash, b, nflip + 1);
      SpreadTail(d, nhash, b, nflip + 1, d);
      forall h | 0 <= h < nhash
        ensures SegmentDistance(q, v, h * b, b) > nflip
      {
        assert VisibleBits(h * b, b) > nflip;
        SpreadSegment(d, nhash, b, nflip + 1, h, b);
      }
      assert IsMissed(q, v, nhash, b, nflip, radius);
    }
  }

  ghost predicate ExhaustiveFor(storage: seq<Code>, q: Code, nhash: nat, b: nat, nflip: nat, radius: int)
    requires b < 64 && forall i :: 0 <= i < |storage| ==> |storage[i]| == |q|
  {
    InRadius(Listed(storage, q, Shortlist(storage, q, nhash, b, nflip)), radius)
      == InRadius(AllCandidates(LogOf(storage), q), radius)
  }

  /** Exactly when multi-hash range search is exhaustive search, whatever is stored. */
  lemma CoveredRadiusCondition(d: nat, nhash: nat, b: nat, nflip: nat, radius: int)
    requires b < 64 && nhash * b <= d
    ensures CoversRadius(nhash, b, nflip, radius) <==>
      forall storage: seq<Code>, q: Code :: |q| == d && (forall i :: 0 <= i < |storage| ==> |storage[i]| == d) ==>
        ExhaustiveFor(storage, q, nhash, b, nflip, radius)
  {
    if CoversRadius(nhash, b, nflip, radius) {
      forall storage: seq<Code>, q: Code | |q| == d && (forall i :: 0 <= i < |storage| ==> |storage[i]| == d)
        ensures ExhaustiveFor(storage, q, nhash, b, nflip, radius)
      {
        ShortlistIsExhaustive(storage, q, nhash, b, nflip, radius);
      }
    } else {
      SpreadIsMissed(d, nhash, b, nflip, radius);
      var v: Code, q: Code :| |q| == d && IsMissed(q, v, nhash, b, nflip, radius);
      OneMissed(v, q, nhash, b, nflip, radius);
      assert !ExhaustiveFor([v], q, nhash, b, nflip, radius);
    }
  }

  lemma OneMissed(v: Code, q: Code, nhash: nat, b: nat, nflip: nat, radius: int)
    requires b < 64 && IsMissed(q, v, nhash, b, nflip, radius)
    ensures !ExhaustiveFor([v], q, nhash, b, nflip, radius)
  {
    hide NearSomewhere, Hamming, InRadius;
    var numbers := Shortlist([v], q, nhash, b, nflip);
    assert 0 !in numbers;
    ListedOne(v, q, numbers);
    var c := Candidate(Hamming(q, v, |q|), 0);
    InRadiusAppend([], c, radius);
    assert [] + [c] == [c];
    InRadiusNone(radius);
  }

  lemma InRadiusNone(radius: int)
    ensures InRadius([], radius) == []
  {
  }

  lemma ListedOne(v: Code, q: Code, numbers: set<nat>)
    requires |v| == |q| && 0 !in numbers
    ensures Listed([v], q, numbers) == []
    ensures AllCandidates(LogOf([v]), q) == [Candidate(Hamming(q, v, |q|), 0)]
  {
    hide Hamming;
    var log := LogOf([v]);
    assert [v][..0] == [] && log[..0] == [];
    assert log == [Stored(0, v)];
  }

  // ---------- the index ----------

  class IndexBinaryMultiHash {
    const d: nat
    const nhash: nat
    const b: nat
    var nflip: nat
    var ntotal: nat
    var storage: seq<Code>
    var maps: seq<map<Word, seq<nat>>>

    ghost predicate Valid()
      reads this
    {
      && b <= 63 && nhash * b <= d
      && ntotal == |storage|
      && (forall i :: 0 <= i < |storage| ==> |storage[i]| == d)
      && |maps| == nhash
      && (forall h :: 0 <= h < nhash ==> HoldsPostings(maps[h], storage, h * b, b))
    }

    constructor (d: nat, nhash: nat, b: nat)
      requires b <= 63 && nhash * b <= d
      ensures Valid() && storage == [] && this.d == d && this.nhash == nhash && this.b == b && nflip == 0
    {
      this.d, this.nhash, this.b := d, nhash, b;
      nflip, ntotal, storage := 0, 0, [];
      maps := seq(nhash, i => map[]);
    }

    /** The constructor's check: None stands for the exception. */
    static method Create(d: nat, nhash: nat, b: nat) returns (index: Option<IndexBinaryMultiHash>)
      requires b <= 63
      ensures index.Some? <==> nhash * b <= d
      ensures index.Some? ==> fresh(index.value) && index.value.Valid() && index.value.storage == []
      ensures index.Some? ==> index.value.d == d && index.value.nhash == nhash && index.value.b == b
    {
      if nhash * b <= d {
        var r := new IndexBinaryMultiHash(d, nhash, b);
        return Some(r);
      }
      return None;
    }

    method Add(x: seq<Code>)
      requires Valid()
      requires forall i :: 0 <= i < |x| ==> |x[i]| == d
      modifies this`storage, this`maps, this`ntotal
      ensures Valid()
      ensures storage == old(storage) + x
    {
      hide HoldsPostings, SegmentHash;
      ghost var base := storage;
      storage := storage + x;
      assert base + x[..0] == base;
      for i := 0 to |x|
        invariant |maps| == nhash && storage == base + x && ntotal == |base|
        invariant forall h :: 0 <= h < nhash ==> HoldsPostings(maps[h], base + x[..i], h * b, b)
      {
        AddOne(i + ntotal, x[i], base + x[..i]);
        assert base + x[..i] + [x[i]] == base + x[..i + 1];
      }
      assert x[..|x|] == x;
      ntotal := ntotal + |x|;
    }

    /** Vector number n enters each table under the hash of its segment. */
    method AddOne(n: nat, xi: Code, ghost before: seq<Code>)
      requires b <= 63 && |maps| == nhash && |before| == n
      requires forall h :: 0 <= h < nhash ==> HoldsPostings(maps[h], before, h * b, b)
      modifies this`maps
      ensures |maps| == nhash
      ensures forall h :: 0 <= h < nhash ==> HoldsPostings(maps[h], before + [xi], h * b, b)
    {
      hide HoldsPostings, SegmentHash;
      var ho := 0;
      for h := 0 to nhash
        invariant ho == h * b && |maps| == nhash
        invariant forall g :: 0 <= g < h ==> HoldsPostings(maps[g], before + [xi], g * b, b)
        invariant forall g :: h <= g < nhash ==> HoldsPostings(maps[g], before, g * b, b)
      {
        var hash := SegmentHash(xi, ho, b);
        HoldsPostingsStep(maps[h], before, h * b, b, xi);
        maps := maps[h := AddPosting(maps[h], hash, n)];
        ho := ho + b;
      }
    }

    /**
     Visits one table: the numbers it lists at most nflip bits from the query's segment. Every
     mask of the ball meets a bucket (nlist) or none (n0).
     */
    method VisitTable(q: Code, h: nat, ho: nat) returns (found: set<nat>, n0: nat, nlist: nat)
      requires Valid() && |q| == d && nflip <= b && h < nhash && ho == h * b
      ensures found == set i: nat | i < |storage| && SegmentDistance(q, storage[i], ho, b) <= nflip
      ensures nlist == |BucketsNear(maps[h], SegmentHash(q, ho, b), b, nflip)|
      ensures n0 + nlist == Ball(b, nflip)
    {
      hide HoldsPostings, SeenUpTo, IsSuccessor, IsFirst, IsLast, Admissible, Precedes, Xor, SegmentHash;
      hide Postings, BucketsAmong, BucketsNear, Ball, Weight;
      found, n0, nlist := {}, 0, 0;
      var qhash, m := SegmentHash(q, ho, b), maps[h];
      var fe := new FlipEnumerator(b, nflip);
      ghost var seen := [];
      SeenStart(b, nflip);
      assert [] + [Zero()] == [Zero()];
      BucketsAmongNone(m, qhash);
      var more := true;
      while more
        invariant fe.Valid() && fe.nbit == b && fe.maxflip == nflip && fresh(fe)
        invariant more ==> SeenUpTo(seen + [fe.x], fe.x, b, nflip) && fe.x !in seen
        invariant !more ==> SeenUpTo(seen, fe.x, b, nflip) && IsLast(fe.x, b, nflip)
        invariant found == MetBy(storage, ho, b, qhash, seen)
        invariant nlist == |BucketsAmong(m, qhash, seen)| && n0 + nlist == |seen|
        decreases nflip - fe.nflip, Value(fe.x, b), more
      {
        var hash := Xor(qhash, fe.x);
        BucketsStep(m, qhash, seen, fe.x);
        MetStep(storage, ho, b, qhash, seen, fe.x);
        PostingsFound(m, storage, ho, b, hash);
        if hash in m {
          found := found + (set i | i in m[hash]);
          nlist := nlist + 1;
        } else {
          n0 := n0 + 1;
        }
        seen := seen + [fe.x];
        ghost var x := fe.x;
        more := fe.Next();
        if more {
          SeenStep(seen, x, fe.x, b, nflip);
        }
      }
      SeenEnd(seen, fe.x, b, nflip);
      SeenDistinct(seen, fe.x, b, nflip);
      MasksFillBall(seen, b, nflip);
      BucketsAmongAll(m, qhash, b, nflip, seen);
      MetAll(storage, q, ho, b, nflip, seen);
    }

    /** The shortlist of one query, from all tables. */
    method SearchOneQuery(q: Code) returns (shortlist: set<nat>, n0: nat, nlist: nat)
      requires Valid() && |q| == d && nflip <= b
      ensures shortlist == Shortlist(storage, q, nhash, b, nflip)
      ensures forall i :: i in shortlist ==> i < |storage|
      ensures n0 + nlist == nhash * Ball(b, nflip)
    {
      hide HoldsPostings, SegmentDistance, Ball, Shortlist, SegmentHash, BucketsNear;
      shortlist, n0, nlist := {}, 0, 0;
      var ho := 0;
      ShortlistNone(storage, q, b, nflip);
      for h := 0 to nhash
        invariant ho == h * b && n0 + nlist == h * Ball(b, nflip)
        invariant shortlist == Shortlist(storage, q, h, b, nflip)
        invariant forall i :: i in shortlist ==> i < |storage|
      {
        var found, misses, hits := VisitTable(q, h, ho);
        shortlist := shortlist + found;
        n0, nlist := n0 + misses, nlist + hits;
        assert (h + 1) * Ball(b, nflip) == h * Ball(b, nflip) + Ball(b, nflip);
        ShortlistStep(storage, q, h, b, nflip);
        ho := ho + b;
      }
    }

    /** Range search for one query. */
    method RangeSearch(q: Code, radius: int) returns (res: seq<Candidate>)
      requires Valid() && |q| == d && nflip <= b
      ensures multiset(res) == multiset(InRadius(Listed(storage, q, Shortlist(storage, q, nhash, b, nflip)), radius))
      ensures var near := Shortlist(storage, q, nhash, b, nflip);
        forall c: Candidate :: multiset(res)[c] == if c.dis < radius && IsListed(storage, q, near, c) then 1 else 0
      ensures CoversRadius(nhash, b, nflip, radius) ==>
        multiset(res) == multiset(InRadius(AllCandidates(LogOf(storage), q), radius))
    {
      hide HoldsPostings, Shortlist, CoversRadius;
      var shortlist, n0, nlist := SearchOneQuery(q);
      var calls := VerifyShortlist(storage, q, shortlist);
      res := InRadius(calls, radius);
      InRadiusMultiset(calls, Listed(storage, q, shortlist), radius);
      RangeOnce(storage, q, shortlist, radius);
      if CoversRadius(nhash, b, nflip, radius) {
        ShortlistIsExhaustive(storage, q, nhash, b, nflip, radius);
      }
    }

    /** The k nearest of the shortlist for one query; None stands for the exception on k <= 0. */
    method Search(q: Code, k: int) returns (res: Option<seq<Entry>>)
      requires Valid() && |q| == d && nflip <= b
      ensures res == None <==> k <= 0
      ensures res.Some? ==> |res.value| == k
      ensures res.Some? ==>
        IsTopKResult(res.value, Entries(Listed(storage, q, Shortlist(storage, q, nhash, b, nflip))))
    {
      hide HoldsPostings, Shortlist, IsTopK;
      if k <= 0 {
        return None;
      }
      var bh := HeapHeapify(k);
      var shortlist, n0, nlist := SearchOneQuery(q);
      var calls := VerifyShortlist(storage, q, shortlist);
      ghost var listed := Listed(storage, q, shortlist);
      HeapAddn(bh, Entries(calls));
      ghost var heap := bh[..];
      EmptyHeapCorrect(k);
      HeapAddAllCorrect(Neutrals(k), [], Entries(calls));
      assert [] + Entries(calls) == Entries(calls);
      ListedIds(storage, q, shortlist);
      CallsLabelled(calls, listed);
      HeapAddAllLabelled(Neutrals(k), Entries(calls));
      EntriesMultiset(calls, listed);
      TopKOfPermutation(heap, Entries(calls), Entries(listed));
      var nel := HeapReorder(bh);
      ReorderedIsTopK(bh[..], heap, nel, Entries(listed));
      return Some(bh[..]);
    }
  }

  /** Measures the shortlist in whatever order it is walked. */
  method VerifyShortlist(storage: seq<Code>, q: Code, shortlist: set<nat>) returns (calls: seq<Candidate>)
    requires forall i :: 0 <= i < |storage| ==> |storage[i]| == |q|
    requires forall i :: i in shortlist ==> i < |storage|
    ensures multiset(calls) == multiset(Listed(storage, q, shortlist))
  {
    hide Hamming, Listed;
    calls := [];
    var todo := shortlist;
    ListedNone(storage, q);
    assert shortlist - todo == {};
    while todo != {}
      invariant todo <= shortlist
      invariant multiset(calls) == multiset(Listed(storage, q, shortlist - todo))
      decreases todo
    {
      var i :| i in todo;
      ListedStep(storage, q, shortlist - todo, i);
      assert shortlist - todo + {i} == shortlist - (todo - {i});
      calls := calls + [Candidate(Hamming(q, storage[i], |q|), i)];
      todo := todo - {i};
    }
    assert shortlist - todo == shortlist;
  }

  /** Below the radius the listed vectors are reported once each. */
  lemma RangeOnce(storage: seq<Code>, q: Code, numbers: set<nat>, radius: int)
    requires forall i :: 0 <= i < |storage| ==> |storage[i]| == |q|
    ensures var res := InRadius(Listed(storage, q, numbers), radius);
      forall c: Candidate :: multiset(res)[c] == if c.dis < radius && IsListed(storage, q, numbers, c) then 1 else 0
  {
    hide Hamming, Listed, InRadius, IsListed;
    InRadiusCounts(Listed(storage, q, numbers), radius);
    forall c: Candidate
      ensures multiset(Listed(storage, q, numbers))[c] == if IsListed(storage, q, numbers, c) then 1 else 0
    {
      ListedOnce(storage, q, numbers, c);
    }
  }

  lemma {:induction false} ListedNone(storage: seq<Code>, q: Code)
    requires forall i :: 0 <= i < |storage| ==> |storage[i]| == |q|
    ensures Listed(storage, q, {}) == []
    decreases |storage|
  {
    if storage != [] {
      ListedNone(storage[..|storage| - 1], q);
    }
  }

  lemma {:induction false} ListedStep(storage: seq<Code>, q: Code, numbers: set<nat>, i: nat)
    requires forall i :: 0 <= i < |storage| ==> |storage[i]| == |q|
    requires i < |storage| && i !in numbers
    ensures multiset(Listed(storage, q, numbers + {i}))
      == multiset(Listed(storage, q, numbers)) + multiset{Candidate(Hamming(q, storage[i], |q|), i)}
    decreases |storage|
  {
    hide Listed, Hamming;
    var n := |storage| - 1;
    var front := storage[..n];
    ListedLast(storage, q, numbers);
    ListedLast(storage, q, numbers + {i});
    if i == n {
      ListedSame(front, q, numbers, numbers + {i});
    } else {
      ListedStep(front, q, numbers, i);
      assert front[i] == storage[i];
      assert n in numbers + {i} <==> n in numbers;
    }
  }

  lemma ListedLast(storage: seq<Code>, q: Code, numbers: set<nat>)
    requires |storage| > 0 && forall i :: 0 <= i < |storage| ==> |storage[i]| == |q|
    ensures var n := |storage| - 1;
      multiset(Listed(storage, q, numbers)) == multiset(Listed(storage[..n], q, numbers))
        + if n in numbers then multiset{Candidate(Hamming(q, storage[n], |q|), n)} else multiset{}
  {
  }

  lemma {:induction false} ListedSame(storage: seq<Code>, q: Code, a: set<nat>, c: set<nat>)
    requires forall i :: 0 <= i < |storage| ==> |storage[i]| == |q|
    requires forall i: nat :: i < |storage| ==> (i in a <==> i in c)
    ensures Listed(storage, q, a) == Listed(storage, q, c)
    decreases |storage|
  {
    if storage != [] {
      ListedSame(storage[..|storage| - 1], q, a, c);
    }
  }

  lemma {:induction false} ListedIds(storage: seq<Code>, q: Code, numbers: set<nat>)
    requires forall i :: 0 <= i < |storage| ==> |storage[i]| == |q|
    ensures forall c :: c in Listed(storage, q, numbers) ==> 0 <= c.id < |storage|
    decreases |storage|
  {
    if storage != [] {
      ListedIds(storage[..|storage| - 1], q, numbers);
    }
  }

  /** A vector is listed at most once. */
  lemma {:induction false} ListedDistinct(storage: seq<Code>, q: Code, numbers: set<nat>)
    requires forall i :: 0 <= i < |storage| ==> |storage[i]| == |q|
    ensures forall i, j :: 0 <= i < j < |Listed(storage, q, numbers)| ==>
      Listed(storage, q, numbers)[i].id < Listed(storage, q, numbers)[j].id
    decreases |storage|
  {
    if storage != [] {
      ListedDistinct(storage[..|storage| - 1], q, numbers);
      ListedIds(storage[..|storage| - 1], q, numbers);
    }
  }

  // ---------- one table against the masks ----------

  /** The vectors whose segment hash differs from the query's by one of the masks. */
  ghost function MetBy(storage: seq<Code>, ho: nat, b: nat, qhash: Word, masks: seq<Word>): set<nat>
    requires b < 64
  {
    set i: nat | i < |storage| && Xor(SegmentHash(storage[i], ho, b), qhash) in masks
  }

  lemma MetStep(storage: seq<Code>, ho: nat, b: nat, qhash: Word, masks: seq<Word>, m: Word)
    requires b < 64
    ensures MetBy(storage, ho, b, qhash, masks + [m])
      == MetBy(storage, ho, b, qhash, masks) + set i | i in Postings(storage, ho, b, Xor(qhash, m))
  {
    hide Xor, SegmentHash;
    forall i: nat | i < |storage|
      ensures i in MetBy(storage, ho, b, qhash, masks + [m])
        <==> i in MetBy(storage, ho, b, qhash, masks) || i in Postings(storage, ho, b, Xor(qhash, m))
    {
      XorSwap(SegmentHash(storage[i], ho, b), qhash, m);
    }
  }

  lemma MetAll(storage: seq<Code>, q: Code, ho: nat, b: nat, nflip: nat, masks: seq<Word>)
    requires b < 64 && forall y: Word :: y in masks <==> Admissible(y, b, nflip)
    ensures MetBy(storage, ho, b, SegmentHash(q, ho, b), masks)
      == set i: nat | i < |storage| && SegmentDistance(q, storage[i], ho, b) <= nflip
  {
    hide SegmentHash, Xor, Admissible, SegmentDistance;
    forall i: nat | i < |storage|
      ensures i in MetBy(storage, ho, b, SegmentHash(q, ho, b), masks)
        <==> SegmentDistance(q, storage[i], ho, b) <= nflip
    {
      SegmentMaskAdmissible(q, storage[i], ho, b, nflip);
    }
  }

  lemma PostingsFound(m: map<Word, seq<nat>>, storage: seq<Code>, ho: nat, b: nat, hash: Word)
    requires b < 64 && HoldsPostings(m, storage, ho, b)
    ensures hash in m ==> m[hash] == Postings(storage, ho, b, hash)
    ensures hash !in m ==> Postings(storage, ho, b, hash) == []
  {
  }

  lemma SeenDistinct(seen: seq<Word>, x: Word, nbit: nat, maxflip: nat)
    requires nbit <= 64 && SeenUpTo(seen, x, nbit, maxflip)
    ensures Distinct(seen)
  {
    InOrderIsInjective(seen, nbit);
  }

  lemma ShortlistNone(storage: seq<Code>, q: Code, b: nat, nflip: nat)
    requires b < 64
    ensures Shortlist(storage, q, 0, b, nflip) == {}
  {
  }

  lemma ShortlistStep(storage: seq<Code>, q: Code, h: nat, b: nat, nflip: nat)
    requires b < 64
    ensures Shortlist(storage, q, h + 1, b, nflip) == Shortlist(storage, q, h, b, nflip)
      + set i: nat | i < |storage| && SegmentDistance(q, storage[i], h * b, b) <= nflip
  {
    hide SegmentDistance;
    forall i: nat | i < |storage|
      ensures NearSomewhere(q, storage[i], h + 1, b, nflip)
        <==> NearSomewhere(q, storage[i], h, b, nflip) || SegmentDistance(q, storage[i], h * b, b) <= nflip
    {
      if NearSomewhere(q, storage[i], h + 1, b, nflip) {
        var g :| 0 <= g < h + 1 && SegmentDistance(q, storage[i], g * b, b) <= nflip;
        assert g == h || NearSomewhere(q, storage[i], h, b, nflip);
      }
    }
  }
}
