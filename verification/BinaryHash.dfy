/**
 The single-hash binary index (include/faiss/IndexBinaryHash.cpp): vectors are bucketed by
 their b lowest bits and a query visits the buckets at most nflip bits away.
 A vector of d bits is a sequence of d bits; a bucket keeps its ids and its vectors apart.
 */
module BinaryHash {
  import opened BitWords
  import opened FlatMaps
  import opened FlipEnumeration
  import opened TopKHeap
  import opened Wrappers

  type Code = seq<bool>

  /** One vector that was added, with its id. */
  datatype Stored = Stored(id: int, code: Code)

  datatype InvertedList = InvertedList(ids: seq<int>, vecs: seq<Code>) {
    function Add(id: int, code: Code): InvertedList {
      InvertedList(ids + [id], vecs + [code])
    }
  }

  /** One call of a result handler's add. */
  datatype Candidate = Candidate(dis: nat, id: int)

  /** The number of places among the first n where two vectors differ. */
  function Hamming(a: Code, b: Code, n: nat): (h: nat)
    requires n <= |a| && n <= |b|
    ensures h <= n
  {
    if n == 0 then 0 else Hamming(a, b, n - 1) + if a[n - 1] != b[n - 1] then 1 else 0
  }

  /** The places among the first n where two vectors differ. */
  ghost function Differences(a: Code, b: Code, n: nat): set<nat>
    requires n <= |a| && n <= |b|
  {
    set i: nat | i < n && a[i] != b[i]
  }

  /** The distance counts the differences. */
  lemma {:induction false} HammingCounts(a: Code, b: Code, n: nat)
    requires n <= |a| && n <= |b|
    ensures Hamming(a, b, n) == |Differences(a, b, n)|
  {
    if n > 0 {
      HammingCounts(a, b, n - 1);
      assert Differences(a, b, n)
        == if a[n - 1] != b[n - 1] then Differences(a, b, n - 1) + {n - 1} else Differences(a, b, n - 1);
    }
  }

  /** The eight bytes of v from a byte offset, as a little-endian word; a word that reaches past v gets zeros there. */
  function ReadWord(v: Code, byteOffset: nat): Word {
    seq(64, i requires 0 <= i < 64 => 8 * byteOffset + i < |v| && v[8 * byteOffset + i])
  }

  function HashOf(v: Code, b: nat): Word
    requires b < 64
  {
    And(ReadWord(v, 0), LowMask(b))
  }

  /** A hash is the b lowest bits of its vector. */
  lemma HashBit(v: Code, b: nat, i: nat)
    requires b < 64 && i < 64
    ensures HashOf(v, b)[i] <==> i < b && i < |v| && v[i]
  {
  }

  // ---------- what the index holds ----------

  /** The entries of the log whose vector hashes to h, in order. */
  ghost function Bucket(log: seq<Stored>, b: nat, h: Word): (r: seq<Stored>)
    requires b < 64
    ensures forall i :: 0 <= i < |r| ==> r[i] in log
    decreases |log|
  {
    if log == [] then []
    else
      var last := log[|log| - 1];
      Bucket(log[..|log| - 1], b, h) + if HashOf(last.code, b) == h then [last] else []
  }

  ghost function AsList(s: seq<Stored>): InvertedList {
    InvertedList(seq(|s|, i requires 0 <= i < |s| => s[i].id), seq(|s|, i requires 0 <= i < |s| => s[i].code))
  }

  ghost predicate HoldsLog(invlists: map<Word, InvertedList>, log: seq<Stored>, b: nat)
    requires b < 64
  {
    && (forall h: Word :: h in invlists <==> Bucket(log, b, h) != [])
    && (forall h: Word :: h in invlists ==> invlists[h] == AsList(Bucket(log, b, h)))
  }

  lemma AsListAppend(s: seq<Stored>, e: Stored)
    ensures AsList(s + [e]) == AsList(s).Add(e.id, e.code)
  {
  }

  lemma BucketAppend(log: seq<Stored>, b: nat, e: Stored, g: Word)
    requires b < 64
    ensures Bucket(log + [e], b, g) == Bucket(log, b, g) + if g == HashOf(e.code, b) then [e] else []
  {
    assert (log + [e])[..|log|] == log;
  }

  /** A bucket lists the entries of its hash, as often as they were added. */
  lemma {:induction false} BucketHolds(log: seq<Stored>, b: nat, h: Word, e: Stored)
    requires b < 64
    ensures multiset(Bucket(log, b, h))[e] == if HashOf(e.code, b) == h then multiset(log)[e] else 0
    decreases |log|
  {
    hide HashOf;
    if log != [] {
      var n := |log| - 1;
      BucketHolds(log[..n], b, h, e);
      assert log == log[..n] + [log[n]];
    }
  }

  /** A bucket keeps the order of the log: what was added later comes later. */
  lemma {:induction false} BucketJoin(log: seq<Stored>, more: seq<Stored>, b: nat, h: Word)
    requires b < 64
    ensures Bucket(log + more, b, h) == Bucket(log, b, h) + Bucket(more, b, h)
    decreases |more|
  {
    hide HashOf;
    if more == [] {
      assert log + more == log;
    } else {
      var n := |more| - 1;
      assert log + more == (log + more[..n]) + [more[n]] && more == more[..n] + [more[n]];
      BucketJoin(log, more[..n], b, h);
      BucketAppend(log + more[..n], b, more[n], h);
      BucketAppend(more[..n], b, more[n], h);
    }
  }

  /** The add of one vector: its bucket is created when missing, and gains the entry at its end. */
  function AddEntry(invlists: map<Word, InvertedList>, b: nat, e: Stored): map<Word, InvertedList>
    requires b < 64
  {
    var h := HashOf(e.code, b);
    var il := if h in invlists then invlists[h] else InvertedList([], []);
    invlists[h := il.Add(e.id, e.code)]
  }

  lemma HoldsLogStep(invlists: map<Word, InvertedList>, log: seq<Stored>, b: nat, e: Stored)
    requires b < 64 && HoldsLog(invlists, log, b)
    ensures HoldsLog(AddEntry(invlists, b, e), log + [e], b)
  {
    hide Bucket, HashOf;
    var r, h := AddEntry(invlists, b, e), HashOf(e.code, b);
    AsListAppend(Bucket(log, b, h), e);
    assert h !in invlists ==> AsList(Bucket(log, b, h)) == InvertedList([], []);
    forall g: Word
      ensures g in r <==> Bucket(log + [e], b, g) != []
      ensures g in r ==> r[g] == AsList(Bucket(log + [e], b, g))
    {
      BucketAppend(log, b, e, g);
    }
  }

  // ---------- what a search should find ----------

  /** The values whose key is among the keys, and those whose key is k. */
  function AmongKeys<K(==), C>(keyed: seq<(K, C)>, keys: seq<K>): seq<C>
    decreases |keyed|
  {
    if keyed == [] then []
    else
      var last := keyed[|keyed| - 1];
      AmongKeys(keyed[..|keyed| - 1], keys) + if last.0 in keys then [last.1] else []
  }

  function AtKey<K(==), C>(keyed: seq<(K, C)>, k: K): seq<C>
    decreases |keyed|
  {
    if keyed == [] then []
    else
      var last := keyed[|keyed| - 1];
      AtKey(keyed[..|keyed| - 1], k) + if last.0 == k then [last.1] else []
  }

  lemma {:induction false} OneMoreKey<K, C>(keyed: seq<(K, C)>, keys: seq<K>, k: K)
    requires k !in keys
    ensures multiset(AmongKeys(keyed, keys + [k])) == multiset(AmongKeys(keyed, keys)) + multiset(AtKey(keyed, k))
    decreases |keyed|
  {
    if keyed != [] {
      OneMoreKey(keyed[..|keyed| - 1], keys, k);
      assert keyed[|keyed| - 1].0 in keys + [k] <==> keyed[|keyed| - 1].0 in keys || keyed[|keyed| - 1].0 == k;
    }
  }

  /** Every entry's candidate, with the mask by which its hash differs from the query's. */
  ghost function Keyed(log: seq<Stored>, q: Code, b: nat): seq<(Word, Candidate)>
    requires b < 64 && AllSized(log, |q|)
  {
    seq(|log|, i requires 0 <= i < |log| => (Xor(HashOf(log[i].code, b), HashOf(q, b)), CandidateOf(log[i], q)))
  }

  /** The candidates of the entries whose hash differs from the query's by one of the masks. */
  ghost function Visited(log: seq<Stored>, q: Code, b: nat, masks: seq<Word>): seq<Candidate>
    requires b < 64 && AllSized(log, |q|)
  {
    AmongKeys(Keyed(log, q, b), masks)
  }

  ghost predicate AllSized(log: seq<Stored>, d: nat) {
    forall i :: 0 <= i < |log| ==> |log[i].code| == d
  }

  function CandidateOf(e: Stored, q: Code): Candidate
    requires |e.code| == |q|
  {
    Candidate(Hamming(q, e.code, |q|), e.id)
  }

  /** Exhaustive search: every entry once. */
  ghost function AllCandidates(log: seq<Stored>, q: Code): seq<Candidate>
    requires AllSized(log, |q|)
    decreases |log|
  {
    if log == [] then [] else AllCandidates(log[..|log| - 1], q) + [CandidateOf(log[|log| - 1], q)]
  }

  /** The entries whose b lowest bits differ from the query's in at most nflip places. */
  ghost function NearCandidates(log: seq<Stored>, q: Code, b: nat, nflip: nat): seq<Candidate>
    requires b <= |q| && AllSized(log, |q|)
    decreases |log|
  {
    if log == [] then []
    else
      var last := log[|log| - 1];
      NearCandidates(log[..|log| - 1], q, b, nflip)
      + if Hamming(q, last.code, b) <= nflip then [CandidateOf(last, q)] else []
  }

  /** The entries that a search hands on as c: near in the low bits, with the id and at the distance of c. */
  ghost function NearPlaces(log: seq<Stored>, q: Code, b: nat, nflip: nat, c: Candidate): set<nat>
    requires b <= |q| && AllSized(log, |q|)
  {
    set i: nat | i < |log| && log[i].id == c.id && Hamming(q, log[i].code, |q|) == c.dis
                 && Hamming(q, log[i].code, b) <= nflip
  }

  lemma NearPlacesStep(log: seq<Stored>, q: Code, b: nat, nflip: nat, c: Candidate)
    requires b <= |q| && AllSized(log, |q|) && log != []
    ensures var n := |log| - 1; var last := log[n];
      NearPlaces(log, q, b, nflip, c) == NearPlaces(log[..n], q, b, nflip, c)
        + if CandidateOf(last, q) == c && Hamming(q, last.code, b) <= nflip then {n} else {}
  {
    hide Hamming;
    var n := |log| - 1;
    assert forall i :: 0 <= i < n ==> log[..n][i] == log[i];
  }

  /** The near entries are handed on once each. */
  lemma {:induction false} NearCounts(log: seq<Stored>, q: Code, b: nat, nflip: nat, c: Candidate)
    requires b <= |q| && AllSized(log, |q|)
    ensures multiset(NearCandidates(log, q, b, nflip))[c] == |NearPlaces(log, q, b, nflip, c)|
    decreases |log|
  {
    if log == [] {
      assert NearPlaces(log, q, b, nflip, c) == {};
    } else {
      var n := |log| - 1;
      NearCounts(log[..n], q, b, nflip, c);
      NearPlacesStep(log, q, b, nflip, c);
      assert n !in NearPlaces(log[..n], q, b, nflip, c);
      hide Hamming, NearPlaces, CandidateOf;
    }
  }

  /** The entries with the id of c and at its distance. */
  ghost function PlacesAt(log: seq<Stored>, q: Code, c: Candidate): set<nat>
    requires AllSized(log, |q|)
  {
    set i: nat | i < |log| && log[i].id == c.id && Hamming(q, log[i].code, |q|) == c.dis
  }

  /** Exhaustive search hands on every entry once. */
  lemma {:induction false} AllCounts(log: seq<Stored>, q: Code, c: Candidate)
    requires AllSized(log, |q|)
    ensures multiset(AllCandidates(log, q))[c] == |PlacesAt(log, q, c)|
    decreases |log|
  {
    if log == [] {
      assert PlacesAt(log, q, c) == {};
    } else {
      var n := |log| - 1;
      AllCounts(log[..n], q, c);
      PlacesAtStep(log, q, c);
      assert n !in PlacesAt(log[..n], q, c);
      hide Hamming, PlacesAt, CandidateOf;
    }
  }

  lemma PlacesAtStep(log: seq<Stored>, q: Code, c: Candidate)
    requires AllSized(log, |q|) && log != []
    ensures var n := |log| - 1;
      PlacesAt(log, q, c) == PlacesAt(log[..n], q, c) + if CandidateOf(log[n], q) == c then {n} else {}
  {
    hide Hamming;
    var n := |log| - 1;
    assert forall i :: 0 <= i < n ==> log[..n][i] == log[i];
  }

  function InRadius(cs: seq<Candidate>, radius: int): seq<Candidate>
    decreases |cs|
  {
    if cs == [] then []
    else
      InRadius(cs[..|cs| - 1], radius) + if cs[|cs| - 1].dis < radius then [cs[|cs| - 1]] else []
  }

  // ---------- from masks to distances ----------

  lemma {:induction false} HashDistance(v: Code, q: Code, b: nat, n: nat)
    requires n <= b < 64 && b <= |v| == |q|
    ensures Weight(Xor(HashOf(v, b), HashOf(q, b)), n) == Hamming(q, v, n)
  {
    if n > 0 {
      HashDistance(v, q, b, n - 1);
    }
  }

  lemma HashMaskAdmissible(v: Code, q: Code, b: nat, nflip: nat)
    requires b < 64 && b <= |v| == |q|
    ensures Admissible(Xor(HashOf(v, b), HashOf(q, b)), b, nflip) <==> Hamming(q, v, b) <= nflip
  {
    HashDistance(v, q, b, b);
  }

  lemma KeyedFront(log: seq<Stored>, q: Code, b: nat)
    requires b < 64 && AllSized(log, |q|) && |log| > 0
    ensures Keyed(log, q, b)[..|log| - 1] == Keyed(log[..|log| - 1], q, b)
  {
  }

  /** A search over all admissible masks meets the near entries. */
  lemma {:induction false} VisitedAllIsNear(log: seq<Stored>, q: Code, b: nat, nflip: nat, masks: seq<Word>)
    requires b < 64 && b <= |q| && AllSized(log, |q|)
    requires forall y: Word :: y in masks <==> Admissible(y, b, nflip)
    ensures Visited(log, q, b, masks) == NearCandidates(log, q, b, nflip)
    decreases |log|
  {
    hide HashOf, Xor, Hamming, CandidateOf, Admissible;
    if log != [] {
      KeyedFront(log, q, b);
      HashMaskAdmissible(log[|log| - 1].code, q, b, nflip);
      VisitedAllIsNear(log[..|log| - 1], q, b, nflip, masks);
    }
  }

  lemma AllCandidatesAppend(s: seq<Stored>, e: Stored, q: Code)
    requires AllSized(s, |q|) && |e.code| == |q|
    ensures AllCandidates(s + [e], q) == AllCandidates(s, q) + [CandidateOf(e, q)]
  {
    assert (s + [e])[..|s|] == s;
  }

  /** The entries whose mask is m fill exactly the bucket a query visits for m. */
  lemma {:induction false} BucketIsKey(log: seq<Stored>, q: Code, b: nat, m: Word)
    requires b < 64 && AllSized(log, |q|)
    ensures AllCandidates(Bucket(log, b, Xor(HashOf(q, b), m)), q) == AtKey(Keyed(log, q, b), m)
    decreases |log|
  {
    hide HashOf, Xor, Hamming, CandidateOf;
    if log != [] {
      var front, last := log[..|log| - 1], log[|log| - 1];
      KeyedFront(log, q, b);
      BucketIsKey(front, q, b, m);
      XorSwap(HashOf(last.code, b), HashOf(q, b), m);
      AllCandidatesAppend(Bucket(front, b, Xor(HashOf(q, b), m)), last, q);
      var x := Xor(HashOf(last.code, b), HashOf(q, b));
      assert Keyed(log, q, b)[|log| - 1] == (x, CandidateOf(last, q));
      var g := Xor(HashOf(q, b), m);
      if x == m {
        assert Bucket(log, b, g) == Bucket(front, b, g) + [last];
      } else {
        assert Bucket(log, b, g) == Bucket(front, b, g);
      }
    } else {
      assert Keyed(log, q, b) == [];
    }
  }

  /** One more mask adds the candidates of exactly its bucket. */
  lemma VisitedStep(log: seq<Stored>, q: Code, b: nat, masks: seq<Word>, m: Word)
    requires b < 64 && AllSized(log, |q|) && m !in masks
    ensures multiset(Visited(log, q, b, masks + [m]))
      == multiset(Visited(log, q, b, masks)) + multiset(AllCandidates(Bucket(log, b, Xor(HashOf(q, b), m)), q))
  {
    OneMoreKey(Keyed(log, q, b), masks, m);
    BucketIsKey(log, q, b, m);
  }

  lemma XorSwap(h: Word, q: Word, m: Word)
    ensures Xor(h, q) == m <==> h == Xor(q, m)
  {
    if Xor(h, q) == m {
      assert forall i :: 0 <= i < 64 ==> h[i] == Xor(q, m)[i];
      assert h == Xor(q, m);
    } else {
      var i :| 0 <= i < 64 && Xor(h, q)[i] != m[i];
      assert h[i] != Xor(q, m)[i];
    }
  }

  // ---------- nearness and exhaustive search ----------

  lemma {:induction false} HammingMonotone(a: Code, b: Code, m: nat, n: nat)
    requires m <= n <= |a| && n <= |b|
    ensures Hamming(a, b, m) <= Hamming(a, b, n)
  {
    if m < n {
      HammingMonotone(a, b, m, n - 1);
    }
  }

  /** A small radius, or all bits flipped, leaves nothing for exhaustive search to add. */
  lemma {:induction false} NearIsExhaustive(log: seq<Stored>, q: Code, b: nat, nflip: nat, radius: int)
    requires b <= |q| && AllSized(log, |q|)
    requires radius <= nflip + 1 || nflip == b
    ensures InRadius(NearCandidates(log, q, b, nflip), radius) == InRadius(AllCandidates(log, q), radius)
    decreases |log|
  {
    if log != [] {
      var front, last := log[..|log| - 1], log[|log| - 1];
      NearIsExhaustive(front, q, b, nflip, radius);
      HammingMonotone(q, last.code, b, |q|);
      InRadiusAppend(NearCandidates(front, q, b, nflip), CandidateOf(last, q), radius);
      InRadiusAppend(AllCandidates(front, q), CandidateOf(last, q), radius);
      assert NearCandidates(front, q, b, nflip) + [] == NearCandidates(front, q, b, nflip);
    }
  }

  lemma InRadiusAppend(cs: seq<Candidate>, c: Candidate, radius: int)
    ensures InRadius(cs + [c], radius) == InRadius(cs, radius) + if c.dis < radius then [c] else []
  {
    assert (cs + [c])[..|cs|] == cs;
  }

  /** The vector that differs from zero in its n lowest places. */
  ghost function LowOnes(d: nat, n: nat): Code {
    seq(d, i => i < n)
  }

  lemma {:induction false} LowOnesDistance(d: nat, n: nat, m: nat)
    requires n <= d && m <= d
    ensures Hamming(LowOnes(d, 0), LowOnes(d, n), m) == if m <= n then m else n
  {
    if m > 0 {
      LowOnesDistance(d, n, m - 1);
    }
  }

  /** With flips to spare and a wider radius, a vector just out of reach is missed. */
  lemma NearMisses(d: nat, b: nat, nflip: nat, radius: int)
    requires nflip < b <= d && radius > nflip + 1
    ensures var q, log := LowOnes(d, 0), [Stored(0, LowOnes(d, nflip + 1))];
      && AllSized(log, d)
      && InRadius(NearCandidates(log, q, b, nflip), radius) == []
      && InRadius(AllCandidates(log, q), radius) == [Candidate(nflip + 1, 0)]
  {
    var q, log := LowOnes(d, 0), [Stored(0, LowOnes(d, nflip + 1))];
    LowOnesDistance(d, nflip + 1, d);
    LowOnesDistance(d, nflip + 1, b);
    assert log[..0] == [];
    assert NearCandidates(log[..0], q, b, nflip) == [] && AllCandidates(log[..0], q) == [];
    assert NearCandidates(log, q, b, nflip) == [];
    assert AllCandidates(log, q) == [] + [Candidate(nflip + 1, 0)];
    InRadiusAppend([], Candidate(nflip + 1, 0), radius);
  }

  ghost predicate AlwaysExhaustive(d: nat, b: nat, nflip: nat, radius: int)
    requires b <= d
  {
    forall log: seq<Stored>, q: Code :: |q| == d && AllSized(log, d) ==>
      InRadius(NearCandidates(log, q, b, nflip), radius) == InRadius(AllCandidates(log, q), radius)
  }

  /** Exactly when single-hash range search is exhaustive search, whatever is stored. */
  lemma ExhaustiveCondition(d: nat, b: nat, nflip: nat, radius: int)
    requires nflip <= b <= d
    ensures AlwaysExhaustive(d, b, nflip, radius) <==> radius <= nflip + 1 || nflip == b
  {
    if radius <= nflip + 1 || nflip == b {
      forall log: seq<Stored>, q: Code | |q| == d && AllSized(log, d)
        ensures InRadius(NearCandidates(log, q, b, nflip), radius) == InRadius(AllCandidates(log, q), radius)
      {
        NearIsExhaustive(log, q, b, nflip, radius);
      }
    } else {
      NearMisses(d, b, nflip, radius);
      var q, log := LowOnes(d, 0), [Stored(0, LowOnes(d, nflip + 1))];
      assert InRadius(NearCandidates(log, q, b, nflip), radius) != InRadius(AllCandidates(log, q), radius);
    }
  }

  /** Filtering by radius does not depend on the order of the candidates. */
  lemma InRadiusMultiset(a: seq<Candidate>, b: seq<Candidate>, radius: int)
    requires multiset(a) == multiset(b)
    ensures multiset(InRadius(a, radius)) == multiset(InRadius(b, radius))
  {
    InRadiusCounts(a, radius);
    InRadiusCounts(b, radius);
  }

  lemma {:induction false} InRadiusCounts(a: seq<Candidate>, radius: int)
    ensures forall c: Candidate :: multiset(InRadius(a, radius))[c] == if c.dis < radius then multiset(a)[c] else 0
    decreases |a|
  {
    if a != [] {
      InRadiusCounts(a[..|a| - 1], radius);
      assert a == a[..|a| - 1] + [a[|a| - 1]];
    }
  }

  /** Below the radius the near entries are reported once each. */
  lemma RangeCounts(log: seq<Stored>, q: Code, b: nat, nflip: nat, radius: int)
    requires b <= |q| && AllSized(log, |q|)
    ensures var res := InRadius(NearCandidates(log, q, b, nflip), radius);
      forall c: Candidate :: multiset(res)[c] == if c.dis < radius then |NearPlaces(log, q, b, nflip, c)| else 0
  {
    hide Hamming, NearCandidates, InRadius, NearPlaces;
    InRadiusCounts(NearCandidates(log, q, b, nflip), radius);
    forall c: Candidate
      ensures multiset(NearCandidates(log, q, b, nflip))[c] == |NearPlaces(log, q, b, nflip, c)|
    {
      NearCounts(log, q, b, nflip, c);
    }
  }

  // ---------- candidates as heap entries ----------

  function EntryOf(c: Candidate): Entry {
    Entry(Fin(c.dis as real), c.id)
  }

  function Entries(cs: seq<Candidate>): (es: seq<Entry>)
    ensures |es| == |cs|
    ensures forall i :: 0 <= i < |cs| ==> es[i].dis == Fin(cs[i].dis as real) && es[i].id == cs[i].id
  {
    seq(|cs|, i requires 0 <= i < |cs| => EntryOf(cs[i]))
  }

  function EntryList(): Candidate -> seq<Entry> {
    (c: Candidate) => [EntryOf(c)]
  }

  lemma EntriesMultiset(a: seq<Candidate>, b: seq<Candidate>)
    requires multiset(a) == multiset(b)
    ensures multiset(Entries(a)) == multiset(Entries(b))
  {
    FlatMapSingles(a, EntryList(), Entries(a));
    FlatMapSingles(b, EntryList(), Entries(b));
    FlatMapMultiset(a, b, EntryList());
  }

  // ---------- searching ----------

  class IndexBinaryHash {
    const d: nat
    const b: nat
    var nflip: nat
    var ntotal: nat
    var invlists: map<Word, InvertedList>
    ghost var log: seq<Stored>

    ghost predicate Valid()
      reads this
    {
      && b <= 63 && b <= d
      && ntotal == |log|
      && AllSized(log, d)
      && HoldsLog(invlists, log, b)
    }

    constructor (d: nat, b: nat)
      requires b <= 63 && b <= d
      ensures Valid() && this.d == d && this.b == b && nflip == 0 && log == []
    {
      this.d := d;
      this.b := b;
      nflip := 0;
      ntotal := 0;
      invlists := map[];
      log := [];
    }

    method Reset()
      requires Valid()
      modifies this`ntotal, this`invlists, this`log
      ensures Valid() && log == [] && ntotal == 0
    {
      invlists := map[];
      ntotal := 0;
      log := [];
    }

    /** Without ids, vectors are numbered on from ntotal. */
    method AddWithIds(x: seq<Code>, xids: Option<seq<int>>)
      requires Valid()
      requires forall i :: 0 <= i < |x| ==> |x[i]| == d
      requires xids.Some? ==> |xids.value| == |x|
      modifies this`ntotal, this`invlists, this`log
      ensures Valid()
      ensures |log| == old(ntotal) + |x| && log[..old(ntotal)] == old(log)
      ensures forall i :: 0 <= i < |x| ==>
        log[old(ntotal) + i] == Stored(if xids.Some? then xids.value[i] else old(ntotal) + i, x[i])
    {
      hide HoldsLog, HashOf;
      for i := 0 to |x|
        invariant ntotal == old(ntotal)
        invariant HoldsLog(invlists, log, b)
        invariant log == old(log) + NewEntries(x, xids, ntotal)[..i]
      {
        var id := if xids.Some? then xids.value[i] else ntotal + i;
        var xi := x[i];
        HoldsLogStep(invlists, log, b, Stored(id, xi));
        ghost var before := invlists;
        var hash := HashOf(xi, b);
        if hash !in invlists {
          invlists := invlists[hash := InvertedList([], [])];
        }
        invlists := invlists[hash := invlists[hash].Add(id, xi)];
        assert invlists == AddEntry(before, b, Stored(id, xi));
        log := log + [Stored(id, xi)];
      }
      ntotal := ntotal + |x|;
    }

    /** Looks one bucket up; n0 counts the empty buckets met, and a bucket is only made for a vector. */
    method VisitBucket(q: Code, hash: Word) returns (found: seq<Candidate>, hit: bool)
      requires Valid() && |q| == d
      ensures hit <==> hash in invlists
      ensures found == AllCandidates(Bucket(log, b, hash), q) && (!hit ==> found == [])
    {
      hide HoldsLog;
      found, hit := [], hash in invlists;
      BucketFound(invlists, log, b, hash);
      if hit {
        var il := invlists[hash];
        if |il.ids| == 0 {
          assert false;
        } else {
          found := ScanBucket(il, q, Bucket(log, b, hash));
        }
      }
    }

    /** Walks the buckets at most nflip bits from the query's; `calls` are the results handed on. */
    method SearchSingleQuery(q: Code) returns (calls: seq<Candidate>, nlist: nat, ndis: nat)
      requires Valid() && |q| == d && nflip <= b
      ensures multiset(calls) == multiset(NearCandidates(log, q, b, nflip))
      ensures ndis == |calls|
      ensures nlist == |BucketsNear(invlists, HashOf(q, b), b, nflip)|
    {
      hide HoldsLog, SeenUpTo, IsSuccessor, IsFirst, IsLast, Admissible, Precedes, Xor, HashOf;
      hide Visited, AllCandidates, NearCandidates, Bucket, BucketsAmong, BucketsNear;
      calls, nlist, ndis := [], 0, 0;
      var qhash := HashOf(q, b);
      var fe := new FlipEnumerator(b, nflip);
      ghost var seen := [];
      SeenStart(b, nflip);
      assert [] + [Zero()] == [Zero()];
      VisitedNothing(log, q, b);
      BucketsAmongNone(invlists, qhash);
      var more := true;
      while more
        invariant fe.Valid() && fe.nbit == b && fe.maxflip == nflip && fresh(fe)
        invariant more ==> SeenUpTo(seen + [fe.x], fe.x, b, nflip) && fe.x !in seen
        invariant !more ==> SeenUpTo(seen, fe.x, b, nflip) && IsLast(fe.x, b, nflip)
        invariant multiset(calls) == multiset(Visited(log, q, b, seen))
        invariant ndis == |calls| && nlist == |BucketsAmong(invlists, qhash, seen)|
        decreases nflip - fe.nflip, Value(fe.x, b), more
      {
        var hash := Xor(qhash, fe.x);
        VisitedStep(log, q, b, seen, fe.x);
        BucketsStep(invlists, qhash, seen, fe.x);
        var found, hit := VisitBucket(q, hash);
        if hit {
          calls := calls + found;
          ndis := ndis + |found|;
          nlist := nlist + 1;
        }
        seen := seen + [fe.x];
        ghost var x := fe.x;
        more := fe.Next();
        if more {
          SeenStep(seen, x, fe.x, b, nflip);
        }
      }
      SeenEnd(seen, fe.x, b, nflip);
      VisitedAllIsNear(log, q, b, nflip, seen);
      BucketsAmongAll(invlists, qhash, b, nflip, seen);
    }

    /** Range search for one query; a result is reported when its distance is below the radius. */
    method RangeSearch(q: Code, radius: int) returns (res: seq<Candidate>)
      requires Valid() && |q| == d && nflip <= b
      ensures multiset(res) == multiset(InRadius(NearCandidates(log, q, b, nflip), radius))
      ensures forall c: Candidate ::
        multiset(res)[c] == if c.dis < radius then |NearPlaces(log, q, b, nflip, c)| else 0
      ensures radius <= nflip + 1 || nflip == b ==> multiset(res) == multiset(InRadius(AllCandidates(log, q), radius))
    {
      var calls, nlist, ndis := SearchSingleQuery(q);
      res := InRadius(calls, radius);
      InRadiusMultiset(calls, NearCandidates(log, q, b, nflip), radius);
      RangeCounts(log, q, b, nflip, radius);
      if radius <= nflip + 1 || nflip == b {
        NearIsExhaustive(log, q, b, nflip, radius);
      }
    }

    /** The k nearest of the near entries for one query; None stands for the exception on k <= 0. */
    method Search(q: Code, k: int) returns (res: Option<seq<Entry>>)
      requires Valid() && |q| == d && nflip <= b
      ensures res == None <==> k <= 0
      ensures res.Some? && (forall i :: 0 <= i < |log| ==> log[i].id != -1) ==>
        |res.value| == k && IsTopKResult(res.value, Entries(NearCandidates(log, q, b, nflip)))
    {
      if k <= 0 {
        return None;
      }
      var bh := HeapHeapify(k);
      var calls, nlist, ndis := SearchSingleQuery(q);
      HeapAddn(bh, Entries(calls));
      ghost var heap := bh[..];
      EmptyHeapCorrect(k);
      HeapAddAllCorrect(Neutrals(k), [], Entries(calls));
      assert [] + Entries(calls) == Entries(calls);
      var nel := HeapReorder(bh);
      if forall i :: 0 <= i < |log| ==> log[i].id != -1 {
        NearIds(log, q, b, nflip);
        CallsLabelled(calls, NearCandidates(log, q, b, nflip));
        HeapAddAllLabelled(Neutrals(k), Entries(calls));
        EntriesMultiset(calls, NearCandidates(log, q, b, nflip));
        TopKOfPermutation(heap, Entries(calls), Entries(NearCandidates(log, q, b, nflip)));
        ReorderedIsTopK(bh[..], heap, nel, Entries(NearCandidates(log, q, b, nflip)));
      }
      return Some(bh[..]);
    }
  }

  method ScanBucket(il: InvertedList, q: Code, ghost bucket: seq<Stored>) returns (found: seq<Candidate>)
    requires il == AsList(bucket) && AllSized(bucket, |q|)
    ensures found == AllCandidates(bucket, q) && |found| == |il.ids|
  {
    found := [];
    for i := 0 to |il.ids|
      invariant found == AllCandidates(bucket[..i], q) && |found| == i
    {
      assert bucket[..i + 1][..i] == bucket[..i];
      found := found + [Candidate(Hamming(q, il.vecs[i], |q|), il.ids[i])];
    }
    assert bucket[..|il.ids|] == bucket;
  }

  /** The buckets the index holds at most nflip bits from the query's. */
  ghost function BucketsNear<V>(buckets: map<Word, V>, qhash: Word, b: nat, nflip: nat): set<Word>
    requires b < 64
  {
    set h | h in buckets && Admissible(Xor(h, qhash), b, nflip)
  }

  ghost function BucketsAmong<V>(buckets: map<Word, V>, qhash: Word, masks: seq<Word>): set<Word> {
    set h | h in buckets && Xor(h, qhash) in masks
  }

  lemma BucketsAmongNone<V>(buckets: map<Word, V>, qhash: Word)
    ensures BucketsAmong(buckets, qhash, []) == {}
  {
  }

  lemma BucketsAmongAll<V>(buckets: map<Word, V>, qhash: Word, b: nat, nflip: nat, masks: seq<Word>)
    requires b < 64 && forall y: Word :: y in masks <==> Admissible(y, b, nflip)
    ensures BucketsAmong(buckets, qhash, masks) == BucketsNear(buckets, qhash, b, nflip)
  {
  }

  lemma BucketsStep<V>(buckets: map<Word, V>, qhash: Word, masks: seq<Word>, m: Word)
    requires m !in masks
    ensures |BucketsAmong(buckets, qhash, masks + [m])|
      == |BucketsAmong(buckets, qhash, masks)| + if Xor(qhash, m) in buckets then 1 else 0
  {
    hide Xor;
    var before, after := BucketsAmong(buckets, qhash, masks), BucketsAmong(buckets, qhash, masks + [m]);
    forall h: Word
      ensures h in after <==> h in before || (h == Xor(qhash, m) && h in buckets)
    {
      XorSwap(h, qhash, m);
    }
    XorSwap(Xor(qhash, m), qhash, m);
    if Xor(qhash, m) in buckets {
      assert after == before + {Xor(qhash, m)};
    } else {
      assert after == before;
    }
  }

  lemma VisitedNothing(log: seq<Stored>, q: Code, b: nat)
    requires b < 64 && AllSized(log, |q|)
    ensures Visited(log, q, b, []) == []
  {
    AmongNoKeys(Keyed(log, q, b));
  }

  lemma {:induction false} AmongNoKeys<K, C>(keyed: seq<(K, C)>)
    ensures AmongKeys(keyed, []) == []
    decreases |keyed|
  {
    if keyed != [] {
      AmongNoKeys(keyed[..|keyed| - 1]);
    }
  }

  lemma BucketFound(invlists: map<Word, InvertedList>, log: seq<Stored>, b: nat, h: Word)
    requires b < 64 && HoldsLog(invlists, log, b)
    ensures h in invlists ==> invlists[h] == AsList(Bucket(log, b, h)) && |invlists[h].ids| > 0
    ensures h !in invlists ==> Bucket(log, b, h) == []
  {
  }

  lemma {:induction false} NearIds(log: seq<Stored>, q: Code, b: nat, nflip: nat)
    requires b <= |q| && AllSized(log, |q|) && forall i :: 0 <= i < |log| ==> log[i].id != -1
    ensures forall c :: c in NearCandidates(log, q, b, nflip) ==> c.id != -1
    decreases |log|
  {
    if log != [] {
      NearIds(log[..|log| - 1], q, b, nflip);
    }
  }

  lemma CallsLabelled(calls: seq<Candidate>, near: seq<Candidate>)
    requires multiset(calls) == multiset(near) && forall c :: c in near ==> c.id != -1
    ensures Labelled(Entries(calls))
  {
    forall i | 0 <= i < |calls|
      ensures Entries(calls)[i].id != -1
    {
      assert calls[i] in multiset(calls);
      assert calls[i] in multiset(near);
    }
  }

  function NewEntries(x: seq<Code>, xids: Option<seq<int>>, ntotal: nat): (r: seq<Stored>)
    requires xids.Some? ==> |xids.value| == |x|
    ensures |r| == |x|
  {
    seq(|x|, i requires 0 <= i < |x| => Stored(if xids.Some? then xids.value[i] else ntotal + i, x[i]))
  }
}
