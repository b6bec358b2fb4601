/**
 The parallel modes of the inverted-file search (include/faiss/IndexIVF.cpp): by query, by
 probe with a heap per thread, and by query and probe with a heap per scan.
 */
module IvfSearch {
  import opened Arithmetic
  import opened FlatMaps
  import opened Multisets
  import opened TopKHeap

  function Range(a: nat, b: nat): seq<nat> {
    if a <= b then seq(b - a, j => a + j) else []
  }

  /**
   A search: keys[ij] is the list probed at place ij, negative for none, and scanned[ij] what
   its scan offers to the heap.
   */
  datatype Search = Search(n: nat, nprobe: nat, nlist: nat, k: nat, keys: seq<int>, scanned: seq<seq<Entry>>) {
    ghost predicate Valid() {
      && |keys| == |scanned| == n * nprobe
      && (forall ij :: 0 <= ij < |scanned| ==> Labelled(scanned[ij]))
    }

    function Found(ij: nat): seq<Entry> {
      if ij < |keys| && ij < |scanned| && keys[ij] >= 0 then scanned[ij] else []
    }

    function Finder(): nat -> seq<Entry> {
      (ij: nat) => Found(ij)
    }

    /** The first place of query i in the table of keys. */
    function Start(i: nat): nat {
      i * nprobe
    }

    /** Everything the probes of query i offer. */
    function Candidates(i: nat): seq<Entry> {
      FlatMap(Range(Start(i), Start(i + 1)), Finder())
    }

    /** The key at place ij is not past the lists. */
    predicate Fits(ij: nat) {
      ij < |keys| && keys[ij] < nlist
    }

    ghost predicate KeysFit() {
      forall ij: nat :: ij < |keys| ==> Fits(ij)
    }
  }

  // ---------- a heap and what it has been offered ----------

  ghost predicate Holds(h: seq<Entry>, k: nat, c: seq<Entry>) {
    |h| == k > 0 && IsHeap(h) && Labelled(h) && Padded(h) && IsTopK(h, c)
  }

  lemma HoldsNothing(k: nat)
    requires k > 0
    ensures Holds(Neutrals(k), k, [])
  {
    hide IsTopK, IsHeap;
    EmptyHeapCorrect(k);
  }

  lemma HoldsMore(h: seq<Entry>, k: nat, c: seq<Entry>, es: seq<Entry>)
    requires Holds(h, k, c) && Labelled(es)
    ensures Holds(HeapAddAll(h, es), k, c + es)
  {
    hide IsTopK, IsHeap, Labelled;
    HeapAddAllCorrect(h, c, es);
    HeapAddAllLabelled(h, es);
  }

  lemma HoldsBoth(h: seq<Entry>, k: nat, c: seq<Entry>, h1: seq<Entry>, c1: seq<Entry>)
    requires Holds(h, k, c) && Holds(h1, k, c1)
    ensures Holds(HeapAddAll(h, h1), k, c + c1)
  {
    hide IsTopK, IsHeap, Labelled;
    MergeHeaps(h, c, h1, c1);
    HeapAddAllLabelled(h, h1);
  }

  lemma HoldsPermuted(h: seq<Entry>, k: nat, c: seq<Entry>, c1: seq<Entry>)
    requires Holds(h, k, c) && multiset(c) == multiset(c1)
    ensures Holds(h, k, c1)
  {
    hide IsTopK, IsHeap, Labelled;
    TopKOfPermutation(h, c, c1);
  }

  method InitResult(bh: array<Entry>)
    modifies bh
    ensures bh[..] == Neutrals(bh.Length)
  {
    for i := 0 to bh.Length
      invariant forall j :: 0 <= j < i ==> bh[j] == NEUTRAL
    {
      bh[i] := NEUTRAL;
    }
  }

  method ReorderResult(bh: array<Entry>, ghost c: seq<Entry>)
    requires Holds(bh[..], bh.Length, c)
    modifies bh
    ensures IsTopKResult(bh[..], c)
  {
    hide IsTopK, IsHeap, Labelled, IsReordered;
    ghost var h := bh[..];
    var nel := HeapReorder(bh);
    ReorderedIsTopK(bh[..], h, nel, c);
  }

  // ---------- one list ----------

  lemma FoundLabelled(s: Search, ij: nat)
    requires s.Valid()
    ensures Labelled(s.Found(ij))
  {
  }

  /** Scans one list, at most max entries of it; a key past the lists is refused. */
  method ScanOneList(s: Search, ij: nat, bh: array<Entry>, max: nat, limited: bool, ghost c: seq<Entry>)
    returns (ok: bool, size: nat)
    requires s.Valid() && ij < |s.keys| && Holds(bh[..], s.k, c)
    modifies bh
    ensures ok <==> s.keys[ij] < s.nlist
    ensures size <= |s.Found(ij)| && (ok ==> size == if limited && max < |s.Found(ij)| then max else |s.Found(ij)|)
    ensures Holds(bh[..], s.k, c + s.Found(ij)[..size])
  {
    hide Holds;
    FoundLabelled(s, ij);
    var key := s.keys[ij];
    assert s.Found(ij)[..0] == [] && c + [] == c;
    if key < 0 {
      return true, 0;
    }
    if key >= s.nlist {
      return false, 0;
    }
    if |s.scanned[ij]| == 0 {
      return true, 0;
    }
    size := |s.scanned[ij]|;
    if limited && size > max {
      size := max;
    }
    HoldsMore(bh[..], s.k, c, s.Found(ij)[..size]);
    AddCodes(s, bh, s.scanned[ij][..size], c);
    ok := true;
  }

  method AddCodes(s: Search, bh: array<Entry>, es: seq<Entry>, ghost c: seq<Entry>)
    requires Holds(bh[..], s.k, c)
    modifies bh
    ensures bh[..] == HeapAddAll(old(bh[..]), es)
  {
    HeapAddn(bh, es);
  }

  /** The keys at the places a..b are those of lists. */
  ghost predicate FitIn(s: Search, a: nat, b: nat) {
    forall ij: nat :: a <= ij < b ==> s.Fits(ij)
  }

  // ---------- modes 0 and 3 ----------

  /** How many of x codes are scanned under max_codes; 0 is no limit. */
  function Limited(maxCodes: nat, x: nat): (r: nat)
    ensures r <= x && (r < x ==> r == maxCodes)
    ensures maxCodes == 0 ==> r == x
    ensures maxCodes > 0 ==> r <= maxCodes
  {
    if maxCodes == 0 || x <= maxCodes then x else maxCodes
  }

  lemma RangeMore(a: nat, b: nat)
    requires a <= b
    ensures Range(a, b + 1) == Range(a, b) + [b]
  {
  }

  lemma RangeJoin(a: nat, b: nat, c: nat)
    requires a <= b <= c
    ensures Range(a, c) == Range(a, b) + Range(b, c)
  {
  }

  /** What the first ik probes of query i offer is a beginning of what all of them do. */
  lemma CandidatesBegin(s: Search, i: nat, ik: nat)
    requires ik <= s.nprobe
    ensures var base := s.Start(i);
      s.Candidates(i)
      == FlatMap(Range(base, base + ik), s.Finder()) + FlatMap(Range(base + ik, base + s.nprobe), s.Finder())
  {
    hide FlatMap;
    var base := s.Start(i);
    assert s.Start(i + 1) == base + s.nprobe;
    RangeJoin(base, base + ik, base + s.nprobe);
    FlatMapConcat(Range(base, base + ik), Range(base + ik, base + s.nprobe), s.Finder());
  }

  lemma OneMoreProbe(s: Search, base: nat, ik: nat)
    ensures FlatMap(Range(base, base + ik + 1), s.Finder())
      == FlatMap(Range(base, base + ik), s.Finder()) + s.Found(base + ik)
  {
    hide FlatMap;
    RangeMore(base, base + ik);
    FlatMapMore<nat, Entry>(Range(base, base + ik), base + ik, s.Finder());
  }

  lemma NoProbeYet(s: Search, base: nat)
    ensures FlatMap(Range(base, base), s.Finder()) == []
  {
  }

  /** Stopping in the middle of probe ik leaves the first codes of the query. */
  lemma CutShort(s: Search, i: nat, ik: nat, size: nat)
    requires ik < s.nprobe && size <= |s.Found(s.Start(i) + ik)|
    ensures var c := FlatMap(Range(s.Start(i), s.Start(i) + ik), s.Finder());
      && |c| + size <= |s.Candidates(i)|
      && s.Candidates(i)[..|c| + size] == c + s.Found(s.Start(i) + ik)[..size]
  {
    hide FlatMap, Search.Found, Search.Candidates;
    CandidatesBegin(s, i, ik + 1);
    OneMoreProbe(s, s.Start(i), ik);
  }

  lemma PlaceFits(s: Search, i: nat)
    requires i < s.n
    ensures s.Start(i) + s.nprobe == s.Start(i + 1) <= s.Start(s.n)
  {
    MulMonotone(i + 1, s.n, s.nprobe);
  }

  /** How many codes the probes of query i before the ik'th offer. */
  function SeenBefore(s: Search, i: nat, ik: nat): nat {
    |FlatMap(Range(s.Start(i), s.Start(i) + ik), s.Finder())|
  }

  lemma Between(all: seq<Entry>, front: seq<Entry>, before: seq<Entry>, found: seq<Entry>, after: seq<Entry>)
    requires front == before + found && all == front + after
    ensures |before| <= |front| <= |all| && all[|before|..|front|] == found
  {
  }

  lemma FoundAt(s: Search, ij: nat)
    requires s.Valid() && ij < |s.keys|
    ensures s.Found(ij) == if s.keys[ij] >= 0 then s.scanned[ij] else []
  {
  }

  /** Nothing comes before the first probe and nothing after the last. */
  lemma CandidatesEnds(s: Search, i: nat)
    requires s.Valid() && i < s.n
    ensures SeenBefore(s, i, 0) == 0 && SeenBefore(s, i, s.nprobe) == |s.Candidates(i)|
  {
    PlaceFits(s, i);
    NoProbeYet(s, s.Start(i));
    hide FlatMap, Range;
  }

  /** What the first m probes of the places from `first` on offer. */
  function OfferedBy(s: Search, first: nat, m: nat): seq<Entry> {
    FlatMap(Range(first, first + m), s.Finder())
  }

  lemma PlacesInOrder(s: Search, first: nat, m: nat, j: nat)
    requires j < m
    ensures |OfferedBy(s, first, j)| <= |OfferedBy(s, first, j + 1)| <= |OfferedBy(s, first, m)|
    ensures OfferedBy(s, first, m)[|OfferedBy(s, first, j)|..|OfferedBy(s, first, j + 1)|] == s.Found(first + j)
  {
    var after := FlatMap(Range(first + j + 1, first + m), s.Finder());
    assert OfferedBy(s, first, m) == OfferedBy(s, first, j + 1) + after by {
      RangeJoin(first, first + j + 1, first + m);
      hide FlatMap, Range, Search.Found;
      FlatMapConcat(Range(first, first + j + 1), Range(first + j + 1, first + m), s.Finder());
    }
    assert OfferedBy(s, first, j + 1) == OfferedBy(s, first, j) + s.Found(first + j) by {
      hide FlatMap, Range, Search.Found;
      OneMoreProbe(s, first, j);
    }
    hide OfferedBy, Search.Found;
    Between(OfferedBy(s, first, m), OfferedBy(s, first, j + 1), OfferedBy(s, first, j), s.Found(first + j), after);
  }

  lemma CandidatesOffered(s: Search, i: nat, j: nat)
    ensures SeenBefore(s, i, j) == |OfferedBy(s, s.Start(i), j)|
    ensures s.Candidates(i) == OfferedBy(s, s.Start(i), s.nprobe)
  {
    hide FlatMap, Range;
  }

  /** The probes of query i give its codes one after the other: those of their lists, from the first one on. */
  lemma CandidatesInOrder(s: Search, i: nat, j: nat)
    requires s.Valid() && i < s.n && j < s.nprobe
    ensures SeenBefore(s, i, 0) == 0 && SeenBefore(s, i, s.nprobe) == |s.Candidates(i)|
    ensures i * s.nprobe + j < |s.keys| && SeenBefore(s, i, j) <= SeenBefore(s, i, j + 1) <= |s.Candidates(i)|
    ensures s.Candidates(i)[SeenBefore(s, i, j)..SeenBefore(s, i, j + 1)]
      == if s.keys[i * s.nprobe + j] >= 0 then s.scanned[i * s.nprobe + j] else []
  {
    var first := s.Start(i);
    PlaceFits(s, i);
    CandidatesEnds(s, i);
    FoundAt(s, first + j);
    CandidatesOffered(s, i, j);
    CandidatesOffered(s, i, j + 1);
    hide OfferedBy, SeenBefore, Search.Candidates, Search.Found;
    PlacesInOrder(s, first, s.nprobe, j);
  }

  /** How often e occurs in the lists that m places of the table name, from a first one on. */
  function Occurrences(s: Search, first: nat, m: nat, e: Entry): nat
    requires s.Valid() && first + m <= |s.keys|
  {
    if m == 0 then 0
    else
      var ij := first + m - 1;
      Occurrences(s, first, m - 1, e) + if s.keys[ij] >= 0 then multiset(s.scanned[ij])[e] else 0
  }

  lemma CountJoin<T>(a: seq<T>, b: seq<T>, e: T)
    ensures multiset(a + b)[e] == multiset(a)[e] + multiset(b)[e]
  {
  }

  lemma NoneCounted(s: Search, first: nat, e: Entry)
    requires s.Valid() && first <= |s.keys|
    ensures FlatMap(Range(first, first + 0), s.Finder()) == [] && Occurrences(s, first, 0, e) == 0
  {
    NoProbeYet(s, first);
  }

  lemma OneMoreCounted(s: Search, first: nat, m: nat, e: Entry)
    requires s.Valid() && first + m < |s.keys|
    ensures Occurrences(s, first, m + 1, e) == Occurrences(s, first, m, e) + multiset(s.Found(first + m))[e]
  {
  }

  lemma {:induction false} ProbesCount(s: Search, first: nat, m: nat, e: Entry)
    requires s.Valid() && first + m <= |s.keys|
    ensures multiset(FlatMap(Range(first, first + m), s.Finder()))[e] == Occurrences(s, first, m, e)
  {
    hide FlatMap, Range, Search.Found, Occurrences;
    if m == 0 {
      NoneCounted(s, first, e);
    } else {
      OneMoreCounted(s, first, m - 1, e);
      ProbesCount(s, first, m - 1, e);
      OneMoreProbe(s, first, m - 1);
      var before, found := FlatMap(Range(first, first + m - 1), s.Finder()), s.Found(first + m - 1);
      assert FlatMap(Range(first, first + m), s.Finder()) == before + found;
      CountJoin(before, found, e);
    }
  }

  /** A query is offered every entry as often as the lists it names hold it. */
  lemma CandidatesCount(s: Search, i: nat, e: Entry)
    requires s.Valid() && i < s.n
    ensures i * s.nprobe + s.nprobe <= |s.keys|
    ensures multiset(s.Candidates(i))[e] == Occurrences(s, i * s.nprobe, s.nprobe, e)
  {
    PlaceFits(s, i);
    ProbesCount(s, s.Start(i), s.nprobe, e);
    hide FlatMap, Range, Occurrences;
  }

  /** The search of query i looks at probe ik before its limit of codes is reached. */
  predicate IsReached(s: Search, i: nat, maxCodes: nat, ik: nat) {
    maxCodes == 0 || SeenBefore(s, i, ik) < maxCodes
  }

  /** Query i meets a key past the lists. */
  ghost predicate MeetsBadKey(s: Search, i: nat, maxCodes: nat) {
    exists ik: nat :: ik < s.nprobe && IsReached(s, i, maxCodes, ik) && !s.Fits(s.Start(i) + ik)
  }

  ghost predicate NoBadKeys(s: Search, maxCodes: nat) {
    forall i: nat :: i < s.n ==> !MeetsBadKey(s, i, maxCodes)
  }

  /** Every key that query i comes to with fewer than max_codes codes seen is below the number of lists. */
  ghost predicate ReachesOnlyLists(s: Search, i: nat, maxCodes: nat) {
    forall j: nat {:trigger SeenBefore(s, i, j)} ::
      j < s.nprobe && (maxCodes > 0 ==> SeenBefore(s, i, j) < maxCodes) ==>
        i * s.nprobe + j < |s.keys| && s.keys[i * s.nprobe + j] < s.nlist
  }

  lemma BadKeysMeaning(s: Search, i: nat, maxCodes: nat)
    ensures ReachesOnlyLists(s, i, maxCodes) <==> !MeetsBadKey(s, i, maxCodes)
  {
    hide SeenBefore;
    if ReachesOnlyLists(s, i, maxCodes) {
      forall j: nat | j < s.nprobe && IsReached(s, i, maxCodes, j)
        ensures s.Fits(s.Start(i) + j)
      {
        assert maxCodes > 0 ==> SeenBefore(s, i, j) < maxCodes;
      }
    } else {
      var j: nat {:trigger SeenBefore(s, i, j)} :| j < s.nprobe && (maxCodes > 0 ==> SeenBefore(s, i, j) < maxCodes)
        && !(i * s.nprobe + j < |s.keys| && s.keys[i * s.nprobe + j] < s.nlist);
      assert IsReached(s, i, maxCodes, j);
      assert !s.Fits(s.Start(i) + j);
      BadKeyMet(s, i, maxCodes, j);
    }
  }

  lemma SeenGrows(s: Search, i: nat, a: nat, b: nat)
    requires a <= b
    ensures SeenBefore(s, i, a) <= SeenBefore(s, i, b)
  {
    hide FlatMap;
    var base := s.Start(i);
    RangeJoin(base, base + a, base + b);
    FlatMapConcat(Range(base, base + a), Range(base + a, base + b), s.Finder());
  }

  lemma BadKeyMet(s: Search, i: nat, maxCodes: nat, ik: nat)
    requires ik < s.nprobe && IsReached(s, i, maxCodes, ik) && !s.Fits(s.Start(i) + ik)
    ensures MeetsBadKey(s, i, maxCodes)
  {
  }

  /** A search that has come to probe m and goes no further meets no bad key. */
  lemma NoneMet(s: Search, i: nat, maxCodes: nat, m: nat)
    requires m <= s.nprobe && FitIn(s, s.Start(i), s.Start(i) + m) && (m < s.nprobe ==> !IsReached(s, i, maxCodes, m))
    ensures !MeetsBadKey(s, i, maxCodes)
  {
    hide SeenBefore;
    forall ik: nat | ik < s.nprobe && IsReached(s, i, maxCodes, ik)
      ensures s.Fits(s.Start(i) + ik)
    {
      if m <= ik {
        SeenGrows(s, i, m, ik);
      }
    }
  }

  /** Without a limit a query meets every key it has. */
  lemma UnlimitedMeetsAll(s: Search, i: nat)
    ensures !MeetsBadKey(s, i, 0) <==> FitIn(s, s.Start(i), s.Start(i + 1))
  {
    assert s.Start(i + 1) == s.Start(i) + s.nprobe;
    if FitIn(s, s.Start(i), s.Start(i + 1)) {
      NoneMet(s, i, 0, s.nprobe);
    } else {
      var ij: nat :| s.Start(i) <= ij < s.Start(i + 1) && !s.Fits(ij);
      var ik := ij - s.Start(i);
      assert IsReached(s, i, 0, ik) && !s.Fits(s.Start(i) + ik);
    }
  }

  lemma {:induction false} QueriesFit(s: Search, m: nat)
    requires forall i: nat :: i < m ==> FitIn(s, s.Start(i), s.Start(i + 1))
    ensures FitIn(s, 0, s.Start(m))
  {
    hide Search.Fits;
    if m > 0 {
      QueriesFit(s, m - 1);
      assert FitIn(s, s.Start(m - 1), s.Start(m - 1 + 1));
    }
  }

  lemma KeysFitExactly(s: Search)
    requires s.Valid()
    ensures NoBadKeys(s, 0) <==> s.KeysFit()
  {
    hide MeetsBadKey;
    if s.KeysFit() {
      forall i: nat | i < s.n
        ensures !MeetsBadKey(s, i, 0)
      {
        PlaceFits(s, i);
        UnlimitedMeetsAll(s, i);
      }
    }
    if NoBadKeys(s, 0) {
      forall i: nat | i < s.n
        ensures FitIn(s, s.Start(i), s.Start(i + 1))
      {
        UnlimitedMeetsAll(s, i);
      }
      QueriesFit(s, s.n);
      assert forall ij: nat :: ij < |s.keys| ==> s.Fits(ij);
    }
  }

  /** One query: its probes in order into one heap, until max_codes codes have been scanned. */
  method SearchQuery(s: Search, i: nat, row: array<Entry>, maxCodes: nat) returns (ok: bool, nscan: nat)
    requires s.Valid() && i < s.n && row.Length == s.k > 0
    modifies row
    ensures ok <==> !MeetsBadKey(s, i, maxCodes)
    ensures nscan <= |s.Candidates(i)|
    ensures ok ==> nscan == Limited(maxCodes, |s.Candidates(i)|) && IsTopKResult(row[..], s.Candidates(i)[..nscan])
  {
    hide Holds, FlatMap, Range, IsTopKResult, Search.Found, Search.Candidates, MeetsBadKey;
    var base := s.Start(i);
    PlaceFits(s, i);
    InitResult(row);
    HoldsNothing(s.k);
    NoProbeYet(s, base);
    ghost var c: seq<Entry> := [];
    ok, nscan := true, 0;
    var ik := 0;
    while ik < s.nprobe
      invariant 0 <= ik <= s.nprobe && ok
      invariant c == FlatMap(Range(base, base + ik), s.Finder()) && nscan == |c| && Holds(row[..], s.k, c)
      invariant maxCodes > 0 ==> nscan < maxCodes
      invariant FitIn(s, base, base + ik)
    {
      CutShort(s, i, ik, 0);
      var size;
      ok, size := ScanOneList(s, base + ik, row, maxCodes - if maxCodes > 0 then nscan else 0, maxCodes > 0, c);
      if !ok {
        BadKeyMet(s, i, maxCodes, ik);
        return;
      }
      CutShort(s, i, ik, size);
      OneMoreProbe(s, base, ik);
      nscan := nscan + size;
      if maxCodes > 0 && nscan >= maxCodes {
        NoneMet(s, i, maxCodes, ik + 1);
        ReorderResult(row, s.Candidates(i)[..nscan]);
        return;
      }
      c := c + s.Found(base + ik);
      assert s.Found(base + ik)[..size] == s.Found(base + ik);
      ik := ik + 1;
    }
    NoneMet(s, i, maxCodes, s.nprobe);
    CandidatesBegin(s, i, s.nprobe);
    NoProbeYet(s, base + s.nprobe);
    assert c == s.Candidates(i)[..nscan];
    ReorderResult(row, c);
  }

  // ---------- mode 1 ----------

  ghost predicate AllFit(s: Search, places: seq<nat>)
    requires forall x :: 0 <= x < |places| ==> places[x] < |s.keys|
  {
    forall x :: 0 <= x < |places| ==> s.Fits(places[x])
  }

  /** A thread scans its share of probes into a heap of its own. */
  method ScanShare(s: Search, share: seq<nat>) returns (ok: bool, bh: array<Entry>, ndis: nat)
    requires s.Valid() && s.k > 0 && forall x :: 0 <= x < |share| ==> share[x] < |s.keys|
    ensures fresh(bh) && bh.Length == s.k && (ok <==> AllFit(s, share))
    ensures ok ==> Holds(bh[..], s.k, FlatMap(share, s.Finder())) && ndis == |FlatMap(share, s.Finder())|
  {
    hide Holds, FlatMap, Search.Found;
    bh := HeapHeapify(s.k);
    HoldsNothing(s.k);
    NoneMapped(s, share[..0]);
    ok, ndis := true, 0;
    for x := 0 to |share|
      invariant ok && Holds(bh[..], s.k, FlatMap(share[..x], s.Finder())) && ndis == |FlatMap(share[..x], s.Finder())|
      invariant forall y :: 0 <= y < x ==> s.Fits(share[y])
    {
      var size;
      ghost var c := FlatMap(share[..x], s.Finder());
      ok, size := ScanOneList(s, share[x], bh, 0, false, c);
      if !ok {
        return;
      }
      assert share[..x + 1] == share[..x] + [share[x]];
      FlatMapMore<nat, Entry>(share[..x], share[x], s.Finder());
      assert s.Found(share[x])[..size] == s.Found(share[x]);
      ndis := ndis + size;
    }
    assert share[..|share|] == share;
  }

  lemma NoneMapped(s: Search, places: seq<nat>)
    requires places == []
    ensures FlatMap(places, s.Finder()) == []
  {
  }

  function Joined(shares: seq<seq<nat>>): seq<nat> {
    if shares == [] then [] else Joined(shares[..|shares| - 1]) + shares[|shares| - 1]
  }

  /** The threads' shares are the probes of query i, however they were dealt out. */
  ghost predicate IsDealt(s: Search, i: nat, shares: seq<seq<nat>>) {
    multiset(Joined(shares)) == multiset(Range(s.Start(i), s.Start(i + 1)))
  }

  lemma DealtInRange(s: Search, i: nat, shares: seq<seq<nat>>, t: nat)
    requires s.Valid() && i < s.n && IsDealt(s, i, shares) && t < |shares|
    ensures forall x :: 0 <= x < |shares[t]| ==> s.Start(i) <= shares[t][x] < s.Start(i + 1) <= |s.keys|
  {
    SameElements(Joined(shares), Range(s.Start(i), s.Start(i + 1)));
    PlaceFits(s, i);
    forall x | 0 <= x < |shares[t]|
      ensures s.Start(i) <= shares[t][x] < s.Start(i + 1)
    {
      InJoined(shares, t, x);
    }
  }

  lemma {:induction false} InJoined(shares: seq<seq<nat>>, t: nat, x: nat)
    requires t < |shares| && x < |shares[t]|
    ensures shares[t][x] in Joined(shares)
  {
    if t < |shares| - 1 {
      InJoined(shares[..|shares| - 1], t, x);
    }
  }

  lemma {:induction false} JoinedElement(shares: seq<seq<nat>>, e: nat)
    requires e in Joined(shares)
    ensures exists t, x :: 0 <= t < |shares| && 0 <= x < |shares[t]| && shares[t][x] == e
  {
    var n := |shares| - 1;
    if e in Joined(shares[..n]) {
      JoinedElement(shares[..n], e);
      var t, x :| 0 <= t < n && 0 <= x < |shares[..n][t]| && shares[..n][t][x] == e;
      assert shares[t][x] == e;
    } else {
      assert e in shares[n];
    }
  }

  ghost predicate SharesFit(s: Search, shares: seq<seq<nat>>, m: nat)
    requires m <= |shares|
  {
    forall t, x :: 0 <= t < m && 0 <= x < |shares[t]| ==> s.Fits(shares[t][x])
  }

  lemma DealtKeys(s: Search, i: nat, shares: seq<seq<nat>>)
    requires s.Valid() && i < s.n && IsDealt(s, i, shares)
    requires SharesFit(s, shares, |shares|)
    ensures FitIn(s, s.Start(i), s.Start(i + 1))
  {
    PlaceFits(s, i);
    var range := Range(s.Start(i), s.Start(i + 1));
    SameElements(Joined(shares), range);
    forall ij: nat | s.Start(i) <= ij < s.Start(i + 1)
      ensures s.Fits(ij)
    {
      assert range[ij - s.Start(i)] == ij;
      JoinedElement(shares, ij);
    }
  }

  /**
   One query, its probes dealt out to threads, which are listed in the order in which they
   merge their heaps into the row.
   */
  method SearchQueryByProbes(s: Search, i: nat, row: array<Entry>, shares: seq<seq<nat>>) returns (ok: bool, ndis: nat)
    requires s.Valid() && i < s.n && row.Length == s.k > 0 && IsDealt(s, i, shares)
    modifies row
    ensures ok <==> FitIn(s, s.Start(i), s.Start(i + 1))
    ensures ok ==> ndis == |s.Candidates(i)| && IsTopKResult(row[..], s.Candidates(i))
  {
    hide Holds, FlatMap, Range, IsTopKResult, Search.Found, Search.Candidates, IsDealt, Joined;
    InitResult(row);
    HoldsNothing(s.k);
    JoinedNone(shares);
    NoneMapped(s, Joined(shares[..0]));
    ok, ndis := true, 0;
    ghost var c: seq<Entry> := [];
    for t := 0 to |shares|
      invariant ok && Holds(row[..], s.k, c) && ndis == |c| && c == FlatMap(Joined(shares[..t]), s.Finder())
      invariant SharesFit(s, shares, t)
    {
      DealtInRange(s, i, shares, t);
      var local, size;
      ok, local, size := ScanShare(s, shares[t]);
      if !ok {
        return;
      }
      ndis := ndis + size;
      HoldsBoth(row[..], s.k, c, local[..], FlatMap(shares[t], s.Finder()));
      Merge(s, row, local, c);
      JoinedMore(shares, t);
      FlatMapConcat(Joined(shares[..t]), shares[t], s.Finder());
      c := c + FlatMap(shares[t], s.Finder());
    }
    assert shares[..|shares|] == shares;
    DealtKeys(s, i, shares);
    DealtCandidates(s, i, shares);
    HoldsPermuted(row[..], s.k, c, s.Candidates(i));
    ReorderResult(row, s.Candidates(i));
  }

  /** add_local_results: the entries of a thread's heap are added to the row. */
  method Merge(s: Search, row: array<Entry>, local: array<Entry>, ghost c: seq<Entry>)
    requires Holds(row[..], s.k, c) && row != local
    modifies row
    ensures row[..] == HeapAddAll(old(row[..]), local[..])
  {
    HeapAddn(row, local[..]);
  }

  lemma JoinedNone(shares: seq<seq<nat>>)
    ensures Joined(shares[..0]) == []
  {
  }

  lemma JoinedMore(shares: seq<seq<nat>>, t: nat)
    requires t < |shares|
    ensures Joined(shares[..t + 1]) == Joined(shares[..t]) + shares[t]
  {
    assert shares[..t + 1][..t] == shares[..t];
  }

  lemma DealtCandidates(s: Search, i: nat, shares: seq<seq<nat>>)
    requires IsDealt(s, i, shares)
    ensures multiset(FlatMap(Joined(shares), s.Finder())) == multiset(s.Candidates(i))
    ensures |FlatMap(Joined(shares), s.Finder())| == |s.Candidates(i)|
  {
    FlatMapMultiset(Joined(shares), Range(s.Start(i), s.Start(i + 1)), s.Finder());
    SameElements(FlatMap(Joined(shares), s.Finder()), s.Candidates(i));
  }

  // ---------- mode 2 ----------

  function ForQuery(s: Search, i: nat): nat -> seq<Entry> {
    (ij: nat) => if s.nprobe > 0 && ij / s.nprobe == i then s.Found(ij) else []
  }

  lemma NotInBlock(nprobe: nat, i: nat, ij: nat)
    requires nprobe > 0 && (ij < i * nprobe || (i + 1) * nprobe <= ij)
    ensures ij / nprobe != i
  {
    assert ij == ij / nprobe * nprobe + ij % nprobe;
  }

  lemma OutsideBlock(s: Search, i: nat, a: nat, b: nat)
    requires s.nprobe > 0 && (b <= s.Start(i) || s.Start(i + 1) <= a)
    ensures FlatMap(Range(a, b), ForQuery(s, i)) == []
  {
    forall x | 0 <= x < |Range(a, b)|
      ensures ForQuery(s, i)(Range(a, b)[x]) == []
    {
      NotInBlock(s.nprobe, i, Range(a, b)[x]);
    }
    FlatMapEmpty(Range(a, b), ForQuery(s, i));
  }

  lemma InsideBlock(s: Search, i: nat)
    requires s.nprobe > 0
    ensures FlatMap(Range(s.Start(i), s.Start(i + 1)), ForQuery(s, i)) == s.Candidates(i)
  {
    var range := Range(s.Start(i), s.Start(i + 1));
    forall x | 0 <= x < |range|
      ensures ForQuery(s, i)(range[x]) == s.Finder()(range[x])
    {
      DivMod(i, s.nprobe, x);
    }
    FlatMapAgree(range, ForQuery(s, i), s.Finder());
  }

  /** Of all places, those of query i offer its candidates. */
  lemma BlockOfQuery(s: Search, i: nat)
    requires s.nprobe > 0 && i < s.n
    ensures FlatMap(Range(0, s.Start(s.n)), ForQuery(s, i)) == s.Candidates(i)
  {
    hide FlatMap;
    var a, b, m := s.Start(i), s.Start(i + 1), s.Start(s.n);
    PlaceFits(s, i);
    RangeJoin(0, a, b);
    RangeJoin(0, b, m);
    FlatMapConcat(Range(0, a), Range(a, b), ForQuery(s, i));
    FlatMapConcat(Range(0, b), Range(b, m), ForQuery(s, i));
    OutsideBlock(s, i, 0, a);
    OutsideBlock(s, i, b, m);
    InsideBlock(s, i);
  }

  /** An order in which the scans end: any. */
  ghost predicate IsOrder(s: Search, order: seq<nat>) {
    multiset(order) == multiset(Range(0, s.Start(s.n)))
  }

  lemma OrderFacts(s: Search, order: seq<nat>)
    requires s.Valid() && IsOrder(s, order)
    ensures forall x :: 0 <= x < |order| ==> order[x] < |s.keys|
    ensures AllFit(s, order) <==> s.KeysFit()
  {
    var range := Range(0, s.Start(s.n));
    SameElements(order, range);
    forall x | 0 <= x < |order|
      ensures order[x] < |s.keys|
    {
      assert order[x] in range;
    }
    if AllFit(s, order) {
      forall ij: nat | ij < |s.keys|
        ensures s.Fits(ij)
      {
        assert range[ij] == ij;
        assert ij in order;
      }
    }
  }

  lemma OrderCandidates(s: Search, order: seq<nat>, i: nat)
    requires s.nprobe > 0 && i < s.n && IsOrder(s, order)
    ensures multiset(FlatMap(order, ForQuery(s, i))) == multiset(s.Candidates(i))
  {
    FlatMapMultiset(order, Range(0, s.Start(s.n)), ForQuery(s, i));
    BlockOfQuery(s, i);
  }

  ghost predicate AreRows(s: Search, rows: seq<array<Entry>>) {
    && |rows| == s.n
    && (forall i :: 0 <= i < s.n ==> rows[i].Length == s.k)
    && (forall i, j :: 0 <= i < j < s.n ==> rows[i] != rows[j])
  }

  ghost predicate AllHold(s: Search, rows: seq<array<Entry>>, done: seq<nat>)
    requires AreRows(s, rows)
    reads rows
  {
    forall i :: 0 <= i < s.n ==> Holds(rows[i][..], s.k, FlatMap(done, ForQuery(s, i)))
  }

  lemma OneMoreScan(s: Search, order: seq<nat>, m: nat, i: nat)
    requires m < |order| && s.nprobe > 0
    ensures FlatMap(order[..m + 1], ForQuery(s, i))
      == FlatMap(order[..m], ForQuery(s, i)) + if order[m] / s.nprobe == i then s.Found(order[m]) else []
  {
    assert order[..m + 1] == order[..m] + [order[m]];
    FlatMapMore<nat, Entry>(order[..m], order[m], ForQuery(s, i));
  }

  lemma SingleShare(s: Search, ij: nat)
    ensures FlatMap([ij], s.Finder()) == s.Found(ij)
  {
    assert [ij][..0] == [];
  }

  /** One scan: a heap of its own, merged into the row of its query. */
  method ScanIntoRow(s: Search, rows: seq<array<Entry>>, ghost order: seq<nat>, ghost m: nat, ij: nat)
    returns (ok: bool, size: nat)
    requires s.Valid() && AreRows(s, rows) && s.k > 0 && s.nprobe > 0 && m < |order| && order[m] == ij < |s.keys|
    requires AllHold(s, rows, order[..m])
    modifies rows
    ensures ok <==> s.Fits(ij)
    ensures ok ==> AllHold(s, rows, order[..m + 1]) && size == |s.Found(ij)|
  {
    hide Holds, FlatMap, Search.Found;
    QuotientBelow(ij, s.nprobe, s.n);
    var i := ij / s.nprobe;
    var local;
    assert [ij][0] == ij;
    ok, local, size := ScanShare(s, [ij]);
    if !ok {
      return;
    }
    SingleShare(s, ij);
    ghost var c := FlatMap(order[..m], ForQuery(s, i));
    HoldsBoth(rows[i][..], s.k, c, local[..], s.Found(ij));
    Merge(s, rows[i], local, c);
    forall q | 0 <= q < s.n
      ensures Holds(rows[q][..], s.k, FlatMap(order[..m + 1], ForQuery(s, q)))
    {
      OneMoreScan(s, order, m, q);
      assert q != i ==> FlatMap(order[..m], ForQuery(s, q)) + [] == FlatMap(order[..m], ForQuery(s, q));
    }
  }

  /** How many codes the first m queries see. */
  function CodesSeen(s: Search, maxCodes: nat, m: nat): nat {
    if m == 0 then 0 else CodesSeen(s, maxCodes, m - 1) + Limited(maxCodes, |s.Candidates(m - 1)|)
  }

  lemma {:induction false} CodesOfRange(s: Search, m: nat)
    ensures |FlatMap(Range(0, s.Start(m)), s.Finder())| == CodesSeen(s, 0, m)
  {
    if m > 0 {
      var a, b := s.Start(m - 1), s.Start(m);
      CodesOfRange(s, m - 1);
      RangeJoin(0, a, b);
      FlatMapConcat(Range(0, a), Range(a, b), s.Finder());
    }
  }

  lemma CodesOfOrder(s: Search, order: seq<nat>)
    requires IsOrder(s, order)
    ensures |FlatMap(order, s.Finder())| == CodesSeen(s, 0, s.n)
  {
    var range := Range(0, s.Start(s.n));
    FlatMapMultiset(order, range, s.Finder());
    SameElements(FlatMap(order, s.Finder()), FlatMap(range, s.Finder()));
    CodesOfRange(s, s.n);
  }

  /** What the search of a query has scanned under its limit. */
  function ScannedFor(s: Search, maxCodes: nat): nat -> seq<Entry> {
    (i: nat) => s.Candidates(i)[..Limited(maxCodes, |s.Candidates(i)|)]
  }

  lemma NoneScanned(s: Search, maxCodes: nat)
    ensures FlatMap(Range(0, 0), ScannedFor(s, maxCodes)) == []
  {
  }

  lemma ScannedLength(s: Search, maxCodes: nat, i: nat)
    ensures |ScannedFor(s, maxCodes)(i)| == Limited(maxCodes, |s.Candidates(i)|)
  {
    hide Search.Candidates;
  }

  /** The codes counted are those scanned for all queries. */
  lemma {:induction false} CodesSeenCounts(s: Search, maxCodes: nat, m: nat)
    ensures CodesSeen(s, maxCodes, m) == |FlatMap(Range(0, m), ScannedFor(s, maxCodes))|
  {
    hide FlatMap, Range, Search.Candidates, Limited, ScannedFor;
    if m == 0 {
      NoneScanned(s, maxCodes);
    } else {
      ScannedLength(s, maxCodes, m - 1);
      CodesSeenCounts(s, maxCodes, m - 1);
      RangeMore(0, m - 1);
      FlatMapMore<nat, Entry>(Range(0, m - 1), m - 1, ScannedFor(s, maxCodes));
    }
  }

  /** Every row starts empty. */
  method InitRows(s: Search, rows: seq<array<Entry>>, ghost order: seq<nat>)
    requires AreRows(s, rows) && s.k > 0
    modifies rows
    ensures AllHold(s, rows, order[..0])
  {
    hide Holds;
    for i := 0 to s.n
      invariant forall q :: 0 <= q < i ==> rows[q][..] == Neutrals(s.k)
    {
      InitResult(rows[i]);
    }
    HoldsNothing(s.k);
  }

  method ReorderRows(s: Search, rows: seq<array<Entry>>, ghost order: seq<nat>)
    requires AreRows(s, rows) && s.nprobe > 0 && IsOrder(s, order) && AllHold(s, rows, order)
    modifies rows
    ensures forall i :: 0 <= i < s.n ==> IsTopKResult(rows[i][..], s.Candidates(i))
  {
    hide Holds, FlatMap, IsTopKResult, Search.Candidates, IsOrder;
    for i := 0 to s.n
      invariant forall q :: 0 <= q < i ==> IsTopKResult(rows[q][..], s.Candidates(q))
      invariant forall q :: i <= q < s.n ==> Holds(rows[q][..], s.k, FlatMap(order, ForQuery(s, q)))
    {
      OrderCandidates(s, order, i);
      HoldsPermuted(rows[i][..], s.k, FlatMap(order, ForQuery(s, i)), s.Candidates(i));
      ReorderResult(rows[i], s.Candidates(i));
    }
  }

  /** All queries at once: the scans end in any order. */
  method SearchByScans(s: Search, rows: seq<array<Entry>>, order: seq<nat>) returns (ok: bool, ndis: nat)
    requires s.Valid() && AreRows(s, rows) && s.k > 0 && s.nprobe > 0 && IsOrder(s, order)
    modifies rows
    ensures ok <==> s.KeysFit()
    ensures ok ==> ndis == CodesSeen(s, 0, s.n)
    ensures ok ==> forall i :: 0 <= i < s.n ==> IsTopKResult(rows[i][..], s.Candidates(i))
  {
    hide Holds, FlatMap, IsTopKResult, Search.Candidates, Search.Found, AllHold, IsOrder;
    InitRows(s, rows, order);
    OrderFacts(s, order);
    NoneMapped(s, order[..0]);
    ok, ndis := true, 0;
    for m := 0 to |order|
      invariant ok && AllHold(s, rows, order[..m]) && ndis == |FlatMap(order[..m], s.Finder())|
      invariant forall x :: 0 <= x < m ==> s.Fits(order[x])
    {
      var size;
      ok, size := ScanIntoRow(s, rows, order, m, order[m]);
      if !ok {
        return;
      }
      assert order[..m + 1] == order[..m] + [order[m]];
      FlatMapMore<nat, Entry>(order[..m], order[m], s.Finder());
      ndis := ndis + size;
    }
    assert order[..|order|] == order;
    CodesOfOrder(s, order);
    ReorderRows(s, rows, order);
  }

  // ---------- all modes ----------

  /** How the work is spread: the shares of every query's threads, and the order of all scans. */
  datatype Schedule = Schedule(shares: seq<seq<seq<nat>>>, order: seq<nat>) {
    ghost predicate IsFor(s: Search) {
      && |shares| == s.n && (forall i :: 0 <= i < s.n ==> IsDealt(s, i, shares[i]))
      && IsOrder(s, order)
    }
  }

  /** What the search asks for before it starts. */
  predicate Supported(s: Search, pmode: int, maxCodes: nat) {
    s.k > 0 && s.nprobe > 0 && 0 <= pmode <= 3 && (maxCodes == 0 || pmode == 0 || pmode == 3)
  }

  ghost predicate RowsAnswer(s: Search, rows: seq<array<Entry>>, maxCodes: nat)
    requires AreRows(s, rows)
    reads rows
  {
    forall i :: 0 <= i < s.n ==> IsTopKResult(rows[i][..], s.Candidates(i)[..Limited(maxCodes, |s.Candidates(i)|)])
  }

  method SearchEach(s: Search, rows: seq<array<Entry>>, maxCodes: nat) returns (ok: bool, ndis: nat)
    requires s.Valid() && AreRows(s, rows) && s.k > 0
    modifies rows
    ensures ok <==> NoBadKeys(s, maxCodes)
    ensures ok ==> ndis == CodesSeen(s, maxCodes, s.n) && RowsAnswer(s, rows, maxCodes)
  {
    hide IsTopKResult, Search.Candidates, MeetsBadKey, Search.Valid;
    ok, ndis := true, 0;
    for i := 0 to s.n
      invariant ok && ndis == CodesSeen(s, maxCodes, i)
      invariant forall q: nat :: q < i ==> !MeetsBadKey(s, q, maxCodes)
      invariant forall q :: 0 <= q < i ==>
        IsTopKResult(rows[q][..], s.Candidates(q)[..Limited(maxCodes, |s.Candidates(q)|)])
    {
      var nscan;
      ok, nscan := SearchQuery(s, i, rows[i], maxCodes);
      if !ok {
        return;
      }
      ndis := ndis + nscan;
    }
  }

  method SearchEachByProbes(s: Search, rows: seq<array<Entry>>, shares: seq<seq<seq<nat>>>)
    returns (ok: bool, ndis: nat)
    requires s.Valid() && AreRows(s, rows) && s.k > 0
    requires |shares| == s.n && forall i :: 0 <= i < s.n ==> IsDealt(s, i, shares[i])
    modifies rows
    ensures ok <==> NoBadKeys(s, 0)
    ensures ok ==> ndis == CodesSeen(s, 0, s.n) && RowsAnswer(s, rows, 0)
  {
    hide IsTopKResult, Search.Candidates, IsDealt, FitIn, MeetsBadKey, Search.Valid;
    ok, ndis := true, 0;
    for i := 0 to s.n
      invariant ok && ndis == CodesSeen(s, 0, i)
      invariant forall q: nat :: q < i ==> !MeetsBadKey(s, q, 0)
      invariant forall q :: 0 <= q < i ==> IsTopKResult(rows[q][..], s.Candidates(q))
    {
      var size;
      ok, size := SearchQueryByProbes(s, i, rows[i], shares[i]);
      UnlimitedMeetsAll(s, i);
      if !ok {
        return;
      }
      ndis := ndis + size;
    }
    assert forall q :: 0 <= q < s.n ==> s.Candidates(q)[..|s.Candidates(q)|] == s.Candidates(q);
  }

  /** search_preassigned, with any schedule; the rows are meaningless when it fails. */
  method SearchPreassigned(s: Search, pmode: int, maxCodes: nat, rows: seq<array<Entry>>, schedule: Schedule)
    returns (ok: bool, ndis: nat)
    requires s.Valid() && AreRows(s, rows) && schedule.IsFor(s)
    modifies rows
    ensures ok <==> Supported(s, pmode, maxCodes) && NoBadKeys(s, maxCodes)
    ensures Supported(s, pmode, maxCodes) <==>
      s.k > 0 && s.nprobe > 0 && 0 <= pmode <= 3 && (maxCodes > 0 ==> pmode == 0 || pmode == 3)
    ensures ok ==> ndis == CodesSeen(s, maxCodes, s.n) && RowsAnswer(s, rows, maxCodes)
  {
    hide IsTopKResult, Search.Candidates, IsDealt, IsOrder, NoBadKeys, Search.KeysFit;
    ndis := 0;
    if !(s.k > 0) || !(s.nprobe > 0) || !(maxCodes == 0 || pmode == 0 || pmode == 3) {
      return false, 0;
    }
    if pmode == 0 || pmode == 3 {
      ok, ndis := SearchEach(s, rows, maxCodes);
    } else if pmode == 1 {
      ok, ndis := SearchEachByProbes(s, rows, schedule.shares);
    } else if pmode == 2 {
      ok, ndis := SearchByScans(s, rows, schedule.order);
      KeysFitExactly(s);
      assert forall q :: 0 <= q < s.n ==> s.Candidates(q)[..|s.Candidates(q)|] == s.Candidates(q);
    } else {
      ok := false;
    }
  }

  /** Two searches of the same queries, in any two modes with any two schedules, give the same distances. */
  method ModesAgree(s: Search, maxCodes: nat, pmode1: int, rows1: seq<array<Entry>>, schedule1: Schedule,
                    pmode2: int, rows2: seq<array<Entry>>, schedule2: Schedule)
    returns (ok1: bool, ok2: bool)
    requires s.Valid() && AreRows(s, rows1) && AreRows(s, rows2) && schedule1.IsFor(s) && schedule2.IsFor(s)
    requires forall i, j :: 0 <= i < s.n && 0 <= j < s.n ==> rows1[i] != rows2[j]
    modifies rows1, rows2
    ensures Supported(s, pmode1, maxCodes) && Supported(s, pmode2, maxCodes) ==> ok1 == ok2
    ensures ok1 && ok2 ==> forall i, x :: 0 <= i < s.n && 0 <= x < s.k ==> rows1[i][x].dis == rows2[i][x].dis
  {
    hide IsTopKResult, Search.Candidates, Schedule.IsFor, NoBadKeys;
    var ndis1, ndis2;
    ok1, ndis1 := SearchPreassigned(s, pmode1, maxCodes, rows1, schedule1);
    ok2, ndis2 := SearchPreassigned(s, pmode2, maxCodes, rows2, schedule2);
    if ok1 && ok2 {
      forall i, x | 0 <= i < s.n && 0 <= x < s.k
        ensures rows1[i][x].dis == rows2[i][x].dis
      {
        var c := s.Candidates(i)[..Limited(maxCodes, |s.Candidates(i)|)];
        ResultDistancesUnique(rows1[i][..], c, rows2[i][..], c);
        assert rows1[i][..][x].dis == rows2[i][..][x].dis;
      }
    }
  }
}
