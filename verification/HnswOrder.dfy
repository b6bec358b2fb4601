/**
 The order in which new points are inserted into the hierarchical graph: bucketed by level,
 shuffled inside a level, from the highest level down (hnsw_add_vertices in
 include/faiss/IndexHNSW.cpp).
 */
module HnswOrder {
  import opened Shuffle

  /** A point passed to the insertion, and the level it is passed with. */
  datatype Insertion = Insertion(pt: nat, level: nat)

  /** n new points on top of n0 old ones, with their numbers of levels. */
  datatype Levels = Levels(n0: nat, n: nat, levels: seq<nat>) {
    ghost predicate Valid() {
      |levels| == n0 + n && forall i :: n0 <= i < n0 + n ==> levels[i] >= 1
    }

    /** The highest level of new point number i. */
    function Level(i: nat): nat
      requires Valid() && i < n
    {
      levels[n0 + i] - 1
    }

    /** The points of one level among the first m new ones, in order. */
    function At(m: nat, l: nat): seq<nat>
      requires Valid() && m <= n
    {
      if m == 0 then [] else At(m - 1, l) + if Level(m - 1) == l then [n0 + m - 1] else []
    }

    /** How many of the first m new points are at lower levels. */
    function Start(m: nat, l: nat): nat
      requires Valid() && m <= n
    {
      if l == 0 then 0 else Start(m, l - 1) + |At(m, l - 1)|
    }
  }

  lemma {:induction false} StartMore(v: Levels, m: nat, l: nat)
    requires v.Valid() && m < v.n
    ensures v.Start(m + 1, l) == v.Start(m, l) + if v.Level(m) < l then 1 else 0
    decreases l
  {
    if l > 0 {
      StartMore(v, m, l - 1);
    }
  }

  /** Above the highest level there is nothing more. */
  lemma {:induction false} StartEnd(v: Levels, m: nat, l: nat)
    requires v.Valid() && m <= v.n && forall i :: 0 <= i < m ==> v.Level(i) < l
    ensures v.Start(m, l) == m
    decreases m
  {
    if m > 0 {
      StartEnd(v, m - 1, l);
      StartMore(v, m - 1, l);
    } else {
      StartNone(v, l);
    }
  }

  lemma {:induction false} StartNone(v: Levels, l: nat)
    requires v.Valid()
    ensures v.Start(0, l) == 0
  {
    if l > 0 {
      StartNone(v, l - 1);
    }
  }

  lemma {:induction false} StartGrows(v: Levels, m: nat, a: nat, b: nat)
    requires v.Valid() && m <= v.n && a <= b
    ensures v.Start(m, a) <= v.Start(m, b)
    decreases b
  {
    if a < b {
      StartGrows(v, m, a, b - 1);
    }
  }

  lemma AtGrows(v: Levels, m: nat, l: nat)
    requires v.Valid() && m < v.n
    ensures v.At(m + 1, l) == v.At(m, l) + if v.Level(m) == l then [v.n0 + m] else []
  {
  }

  lemma StartZero(v: Levels)
    requires v.Valid()
    ensures v.Start(v.n, 0) == 0
  {
  }

  lemma StartNext(v: Levels, l: nat)
    requires v.Valid()
    ensures v.Start(v.n, l + 1) == v.Start(v.n, l) + |v.At(v.n, l)|
  {
  }

  lemma AtZero(v: Levels, l: nat)
    requires v.Valid()
    ensures v.At(0, l) == []
  {
  }

  lemma OneMore(s: seq<nat>, e: nat, pt: nat)
    ensures multiset(s + [e])[pt] == multiset(s)[pt] + if pt == e then 1 else 0
  {
  }

  /** Point pt is one of the first m new ones, at level l. */
  ghost predicate IsAt(v: Levels, m: nat, l: nat, pt: nat)
    requires v.Valid() && m <= v.n
  {
    v.n0 <= pt < v.n0 + m && v.Level(pt - v.n0) == l
  }

  lemma IsAtMore(v: Levels, m: nat, l: nat, pt: nat)
    requires v.Valid() && m < v.n
    ensures !IsAt(v, 0, l, pt) && (IsAt(v, m, l, pt) ==> pt != v.n0 + m)
    ensures IsAt(v, m + 1, l, pt) <==> IsAt(v, m, l, pt) || (pt == v.n0 + m && v.Level(m) == l)
  {
  }

  /** A bucket holds every point of its level once and no other. */
  lemma {:induction false} AtOnce(v: Levels, m: nat, l: nat, pt: nat)
    requires v.Valid() && m <= v.n
    ensures multiset(v.At(m, l))[pt] == if IsAt(v, m, l, pt) then 1 else 0
    decreases m
  {
    hide Levels.At, Levels.Level, Levels.Valid;
    if m == 0 {
      AtZero(v, l);
    } else {
      hide IsAt;
      AtOnce(v, m - 1, l, pt);
      AtGrows(v, m - 1, l);
      IsAtMore(v, m - 1, l, pt);
      OneMore(v.At(m - 1, l), v.n0 + m - 1, pt);
    }
  }

  // ---------- histogram and offsets ----------

  /** One count per level, up to the highest one that occurs. */
  ghost predicate IsHistogram(v: Levels, m: nat, hist: seq<nat>)
    requires v.Valid() && m <= v.n
  {
    && (forall i :: 0 <= i < m ==> v.Level(i) < |hist|) && (m > 0 ==> |hist| > 0)
    && (forall l :: 0 <= l < |hist| ==> hist[l] == |v.At(m, l)|)
  }

  lemma {:induction false} AtNone(v: Levels, m: nat, l: nat)
    requires v.Valid() && m <= v.n && forall i :: 0 <= i < m ==> v.Level(i) < l
    ensures v.At(m, l) == []
    decreases m
  {
    if m > 0 {
      AtNone(v, m - 1, l);
    }
  }

  method Histogram(v: Levels) returns (hist: seq<nat>)
    requires v.Valid()
    ensures IsHistogram(v, v.n, hist)
  {
    hist := [];
    assert IsHistogram(v, 0, hist);
    hide IsHistogram, Levels.At;
    for i := 0 to v.n
      invariant IsHistogram(v, i, hist)
    {
      var ptLevel := v.levels[v.n0 + i] - 1;
      while ptLevel >= |hist|
        invariant IsHistogram(v, i, hist)
        decreases ptLevel - |hist|
      {
        LevelAdded(v, i, hist);
        hist := hist + [0];
      }
      CountedMore(v, i, hist);
      hist := hist[ptLevel := hist[ptLevel] + 1];
    }
  }

  lemma LevelAdded(v: Levels, i: nat, hist: seq<nat>)
    requires v.Valid() && i <= v.n && IsHistogram(v, i, hist)
    ensures IsHistogram(v, i, hist + [0])
  {
    AtNone(v, i, |hist|);
    hide Levels.At;
  }

  lemma CountedMore(v: Levels, i: nat, hist: seq<nat>)
    requires v.Valid() && i < v.n && IsHistogram(v, i, hist) && v.Level(i) < |hist|
    ensures IsHistogram(v, i + 1, hist[v.Level(i) := hist[v.Level(i)] + 1])
  {
    forall l: nat | l < |hist|
      ensures |v.At(i + 1, l)| == |v.At(i, l)| + if v.Level(i) == l then 1 else 0
    {
      AtGrows(v, i, l);
    }
    hide Levels.At;
  }

  /** Where each bucket starts; the last entry is not used. */
  method Offsets(v: Levels, hist: seq<nat>) returns (offsets: seq<nat>)
    requires v.Valid() && v.n > 0 && IsHistogram(v, v.n, hist)
    ensures |offsets| == |hist| + 1 && forall l :: 0 <= l < |hist| ==> offsets[l] == v.Start(v.n, l)
  {
    hide Levels.At, Levels.Start;
    offsets := seq(|hist| + 1, l => 0);
    StartZero(v);
    for i := 0 to |hist| - 1
      invariant |offsets| == |hist| + 1 && forall l :: 0 <= l <= i ==> offsets[l] == v.Start(v.n, l)
    {
      StartNext(v, i);
      offsets := offsets[i + 1 := offsets[i] + hist[i]];
    }
  }

  // ---------- the bucket sort ----------

  /** The first m points are in their buckets. */
  ghost predicate Bucketed(v: Levels, m: nat, order: seq<nat>, offsets: seq<nat>, top: nat)
    requires v.Valid() && m <= v.n
  {
    && |order| == v.n && |offsets| > top
    && (forall l {:trigger v.At(m, l)} {:trigger offsets[l]} :: 0 <= l < top ==>
          && offsets[l] == v.Start(v.n, l) + |v.At(m, l)| <= v.n
          && order[v.Start(v.n, l)..offsets[l]] == v.At(m, l))
  }

  lemma {:induction false} AtShorter(v: Levels, m: nat, m1: nat, l: nat)
    requires v.Valid() && m <= m1 <= v.n
    ensures |v.At(m, l)| <= |v.At(m1, l)|
    decreases m1
  {
    if m < m1 {
      AtShorter(v, m, m1 - 1, l);
    }
  }

  /** The buckets of two levels do not meet. */
  lemma Apart(v: Levels, a: nat, b: nat)
    requires v.Valid() && a != b
    ensures v.Start(v.n, a) + |v.At(v.n, a)| <= v.Start(v.n, b) || v.Start(v.n, b) + |v.At(v.n, b)| <= v.Start(v.n, a)
  {
    hide Levels.At, Levels.Start;
    if a < b {
      StartGrows(v, v.n, a + 1, b);
      StartNext(v, a);
    } else {
      StartGrows(v, v.n, b + 1, a);
      StartNext(v, b);
    }
  }

  method PlacePoint(v: Levels, i: nat, order: array<nat>, offsets: seq<nat>, ghost top: nat) returns (next: seq<nat>)
    requires v.Valid() && i < v.n && Bucketed(v, i, order[..], offsets, top) && v.Level(i) < top
    requires forall l :: 0 <= l < top ==> v.Start(v.n, l) + |v.At(v.n, l)| <= v.n
    modifies order
    ensures Bucketed(v, i + 1, order[..], next, top)
  {
    hide Levels.At, Levels.Start;
    var ptLevel := v.levels[v.n0 + i] - 1;
    assert ptLevel == v.Level(i);
    AtGrows(v, i, ptLevel);
    AtShorter(v, i + 1, v.n, ptLevel);
    ghost var before := order[..];
    var p := offsets[ptLevel];
    order[p] := v.n0 + i;
    next := offsets[ptLevel := p + 1];
    forall l | 0 <= l < top
      ensures next[l] == v.Start(v.n, l) + |v.At(i + 1, l)| <= v.n
      ensures order[..][v.Start(v.n, l)..next[l]] == v.At(i + 1, l)
    {
      AtGrows(v, i, l);
      AtShorter(v, i, v.n, l);
      if l != ptLevel {
        Apart(v, l, ptLevel);
        assert order[..][v.Start(v.n, l)..next[l]] == before[v.Start(v.n, l)..offsets[l]];
      } else {
        assert order[..][v.Start(v.n, l)..next[l]] == before[v.Start(v.n, l)..p] + [v.n0 + i];
      }
    }
  }

  /** The buckets lie one behind the other in the order, each with its points in input order. */
  ghost predicate IsBucketSort(v: Levels, order: seq<nat>, top: nat)
    requires v.Valid()
  {
    |order| == v.n && forall l :: 0 <= l < top ==> InBucket(v, order, l)
  }

  ghost predicate InBucket(v: Levels, order: seq<nat>, l: nat)
    requires v.Valid()
  {
    v.Start(v.n, l + 1) <= |order| && order[v.Start(v.n, l)..v.Start(v.n, l + 1)] == v.At(v.n, l)
  }

  lemma StartBound(v: Levels, hist: seq<nat>)
    requires v.Valid() && IsHistogram(v, v.n, hist)
    ensures forall l :: 0 <= l < |hist| ==> v.Start(v.n, l) + |v.At(v.n, l)| <= v.n
    ensures v.Start(v.n, |hist|) == v.n
  {
    hide Levels.At, Levels.Start;
    StartEnd(v, v.n, |hist|);
    forall l | 0 <= l < |hist|
      ensures v.Start(v.n, l) + |v.At(v.n, l)| <= v.n
    {
      StartNext(v, l);
      StartGrows(v, v.n, l + 1, |hist|);
    }
  }

  lemma NoneBucketed(v: Levels, order: seq<nat>, offsets: seq<nat>, top: nat)
    requires v.Valid() && |order| == v.n && |offsets| > top
    requires forall l :: 0 <= l < top ==> offsets[l] == v.Start(v.n, l)
    requires forall l :: 0 <= l < top ==> v.Start(v.n, l) + |v.At(v.n, l)| <= v.n
    ensures Bucketed(v, 0, order, offsets, top)
  {
    hide Levels.Start;
  }

  method BucketSort(v: Levels, hist: seq<nat>) returns (order: array<nat>)
    requires v.Valid() && v.n > 0 && IsHistogram(v, v.n, hist)
    ensures fresh(order) && IsBucketSort(v, order[..], |hist|)
  {
    hide Levels.At, Levels.Start, Bucketed;
    order := new nat[v.n];
    var offsets := Offsets(v, hist);
    StartBound(v, hist);
    NoneBucketed(v, order[..], offsets, |hist|);
    for i := 0 to v.n
      invariant Bucketed(v, i, order[..], offsets, |hist|)
    {
      offsets := PlacePoint(v, i, order, offsets, |hist|);
    }
    AllBucketed(v, order[..], offsets, |hist|);
  }

  lemma AllBucketed(v: Levels, order: seq<nat>, offsets: seq<nat>, top: nat)
    requires v.Valid() && Bucketed(v, v.n, order, offsets, top)
    ensures IsBucketSort(v, order, top)
  {
    hide Levels.At, Levels.Start;
    forall l | 0 <= l < top
      ensures InBucket(v, order, l)
    {
      StartNext(v, l);
      assert order[v.Start(v.n, l)..offsets[l]] == v.At(v.n, l);
    }
  }

  // ---------- the insertions ----------

  /** The draws rand_int(m), rand_int(m - 1), ... down to rand_int(1), from the generator's outputs. */
  function Draws(rng: nat -> nat, t: nat, m: nat): (r: seq<nat>)
    ensures |r| == m && forall j :: 0 <= j < m ==> r[j] < m - j && r[j] == rng(t + j) % (m - j)
  {
    seq(m, j requires 0 <= j < m => rng(t + j) % (m - j))
  }

  function Points(log: seq<Insertion>): (r: seq<nat>)
    ensures |r| == |log| && forall i :: 0 <= i < |r| ==> r[i] == log[i].pt
  {
    seq(|log|, i requires 0 <= i < |log| => log[i].pt)
  }

  /** Each point so far was passed at its own level, the levels never rising. */
  ghost predicate LevelOrdered(v: Levels, log: seq<Insertion>)
    requires v.Valid()
  {
    && (forall a :: 0 <= a < |log| ==> IsInsertion(v, log[a]))
    && (forall a, b :: 0 <= a < b < |log| ==> log[a].level >= log[b].level)
  }

  ghost predicate IsInsertion(v: Levels, e: Insertion)
    requires v.Valid()
  {
    v.n0 <= e.pt < v.n0 + v.n && v.levels[e.pt] - 1 == e.level
  }

  /** The points at level low and above were each passed once, the others not. */
  ghost predicate PassedFrom(v: Levels, log: seq<Insertion>, low: nat)
    requires v.Valid()
  {
    forall pt: nat :: multiset(Points(log))[pt] == if v.n0 <= pt < v.n0 + v.n && v.levels[pt] - 1 >= low then 1 else 0
  }

  function Passed(pts: seq<nat>, level: nat): (r: seq<Insertion>)
    ensures |r| == |pts|
  {
    seq(|pts|, i requires 0 <= i < |pts| => Insertion(pts[i], level))
  }

  lemma PassedMore(v: Levels, log: seq<Insertion>, l: nat, pts: seq<nat>)
    requires v.Valid() && PassedFrom(v, log, l + 1) && multiset(pts) == multiset(v.At(v.n, l))
    ensures PassedFrom(v, log + Passed(pts, l), l)
  {
    hide Levels.At;
    assert Points(log + Passed(pts, l)) == Points(log) + pts;
    forall pt: nat
      ensures multiset(Points(log) + pts)[pt] == if v.n0 <= pt < v.n0 + v.n && v.Level(pt - v.n0) >= l then 1 else 0
    {
      AtOnce(v, v.n, l, pt);
      assert multiset(Points(log) + pts)[pt] == multiset(Points(log))[pt] + multiset(pts)[pt];
    }
  }

  lemma OfLevel(v: Levels, l: nat, pts: seq<nat>)
    requires v.Valid() && multiset(pts) == multiset(v.At(v.n, l))
    ensures forall x :: 0 <= x < |pts| ==> IsInsertion(v, Insertion(pts[x], l))
  {
    hide Levels.At;
    forall x | 0 <= x < |pts|
      ensures IsInsertion(v, Insertion(pts[x], l))
    {
      assert pts[x] in multiset(pts);
      AtOnce(v, v.n, l, pts[x]);
    }
  }

  /** How many points are above level l. */
  function Above(v: Levels, l: nat): int
    requires v.Valid()
  {
    v.n - v.Start(v.n, l + 1)
  }

  /** The points of level l were passed behind those of all levels above, shuffled by the draws that come next. */
  ghost predicate PassedAt(v: Levels, log: seq<Insertion>, rng: nat -> nat, l: nat)
    requires v.Valid()
  {
    var a, pts := Above(v, l), v.At(v.n, l);
    && 0 <= a && a + |pts| <= |log|
    && log[a..a + |pts|] == Passed(Shuffled(pts, Draws(rng, a, |pts|)), l)
  }

  lemma PassedAtMore(v: Levels, log: seq<Insertion>, more: seq<Insertion>, rng: nat -> nat, l: nat)
    requires v.Valid() && PassedAt(v, log, rng, l)
    ensures PassedAt(v, log + more, rng, l)
  {
    var a, b := Above(v, l), Above(v, l) + |v.At(v.n, l)|;
    assert (log + more)[a..b] == log[a..b];
  }

  lemma PassedAtNow(v: Levels, log: seq<Insertion>, rng: nat -> nat, l: nat)
    requires v.Valid() && |log| == Above(v, l)
    ensures var pts := v.At(v.n, l); PassedAt(v, log + Passed(Shuffled(pts, Draws(rng, |log|, |pts|)), l), rng, l)
  {
    hide Shuffled, Draws;
  }

  /** Above the highest level there is nothing to pass. */
  lemma NonePassedAt(v: Levels, rng: nat -> nat, top: nat)
    requires v.Valid() && forall i :: 0 <= i < v.n ==> v.Level(i) < top
    ensures forall l: nat :: top <= l ==> PassedAt(v, [], rng, l)
  {
    hide PassedAt, Levels.At, Levels.Start;
    forall l: nat | top <= l
      ensures PassedAt(v, [], rng, l)
    {
      AtNone(v, v.n, l);
      StartEnd(v, v.n, l + 1);
      EmptyPassedAt(v, rng, l);
    }
  }

  lemma EmptyPassedAt(v: Levels, rng: nat -> nat, l: nat)
    requires v.Valid() && v.At(v.n, l) == [] && Above(v, l) == 0
    ensures PassedAt(v, [], rng, l)
  {
    hide Levels.At, Levels.Start, Above;
  }

  ghost predicate NoneBelow(log: seq<Insertion>, l: int) {
    forall a :: 0 <= a < |log| ==> log[a].level >= l
  }

  /** A bucket, in any order of its points, carries the log one level down. */
  lemma BucketPassed(v: Levels, log: seq<Insertion>, l: nat, pts: seq<nat>)
    requires v.Valid() && LevelOrdered(v, log) && NoneBelow(log, l) && multiset(pts) == multiset(v.At(v.n, l))
    ensures LevelOrdered(v, log + Passed(pts, l)) && NoneBelow(log + Passed(pts, l), l)
  {
    hide IsInsertion, Levels.At;
    OfLevel(v, l, pts);
  }

  lemma BucketShuffled(v: Levels, before: seq<nat>, order: seq<nat>, l: nat)
    requires v.Valid() && IsBucketSort(v, before, l + 1)
    requires var i0, i1 := v.Start(v.n, l), v.Start(v.n, l + 1);
      i0 <= i1 <= v.n && |order| == v.n
      && multiset(order[i0..i1]) == multiset(before[i0..i1]) && SameOutside(order, before, i0, i1)
    ensures multiset(order[v.Start(v.n, l)..v.Start(v.n, l + 1)]) == multiset(v.At(v.n, l))
    ensures before[v.Start(v.n, l)..v.Start(v.n, l + 1)] == v.At(v.n, l)
    ensures IsBucketSort(v, order, l)
  {
    hide Levels.At, Levels.Start;
    assert InBucket(v, before, l);
    forall b | 0 <= b < l
      ensures InBucket(v, order, b)
    {
      StartGrows(v, v.n, b + 1, l);
      StartGrows(v, v.n, b, b + 1);
      assert InBucket(v, before, b);
      assert order[v.Start(v.n, b)..v.Start(v.n, b + 1)] == before[v.Start(v.n, b)..v.Start(v.n, b + 1)];
    }
  }

  method PassBucket(order: array<nat>, i0: nat, i1: nat, ptLevel: nat, log0: seq<Insertion>)
    returns (log: seq<Insertion>)
    requires i0 <= i1 <= order.Length
    ensures log == log0 + Passed(order[..][i0..i1], ptLevel)
  {
    log := log0;
    for i := i0 to i1
      invariant log == log0 + Passed(order[..][i0..i], ptLevel)
    {
      log := log + [Insertion(order[i], ptLevel)];
    }
  }

  lemma NothingPassed(v: Levels, low: nat)
    requires v.Valid() && forall i :: 0 <= i < v.n ==> v.Level(i) < low
    ensures LevelOrdered(v, []) && PassedFrom(v, [], low)
  {
    forall pt: nat | v.n0 <= pt < v.n0 + v.n
      ensures v.levels[pt] - 1 < low
    {
      assert v.Level(pt - v.n0) < low;
    }
  }

  lemma LevelsBelow(v: Levels, hist: seq<nat>)
    requires v.Valid() && IsHistogram(v, v.n, hist) && v.n > 0
    ensures |hist| > 0 && forall i :: 0 <= i < v.n ==> v.Level(i) < |hist|
  {
  }

  lemma BucketEnds(v: Levels, hist: seq<nat>, l: nat)
    requires v.Valid() && IsHistogram(v, v.n, hist) && l < |hist|
    ensures v.Start(v.n, l) == v.Start(v.n, l + 1) - hist[l] && v.Start(v.n, l + 1) <= v.n
    ensures v.Start(v.n, 0) == 0 && v.Start(v.n, 1) == hist[0]
  {
    StartBound(v, hist);
  }

  lemma BucketPassedAt(v: Levels, log: seq<Insertion>, rng: nat -> nat, l: nat, pts: seq<nat>)
    requires v.Valid() && |log| == Above(v, l) && forall b: nat :: l < b ==> PassedAt(v, log, rng, b)
    requires pts == Shuffled(v.At(v.n, l), Draws(rng, |log|, |v.At(v.n, l)|))
    ensures forall b: nat :: l <= b ==> PassedAt(v, log + Passed(pts, l), rng, b)
  {
    hide PassedAt, Shuffled, Draws, Passed;
    forall b: nat | l <= b
      ensures PassedAt(v, log + Passed(pts, l), rng, b)
    {
      if b == l {
        PassedAtNow(v, log, rng, l);
      } else {
        PassedAtMore(v, log, Passed(pts, l), rng, b);
      }
    }
  }

  /** The levels from l on have been passed, bucket by bucket; i1 is where the bucket below ends. */
  ghost predicate PassedDownTo(v: Levels, order: seq<nat>, log: seq<Insertion>, rng: nat -> nat, l: int, i1: nat)
    requires v.Valid()
  {
    && 0 <= l && |order| == v.n && i1 == v.Start(v.n, l) && |log| == v.n - i1
    && IsBucketSort(v, order, l) && LevelOrdered(v, log) && PassedFrom(v, log, l) && NoneBelow(log, l)
    && forall b: nat :: l <= b ==> PassedAt(v, log, rng, b)
  }

  lemma NonePassed(v: Levels, order: seq<nat>, rng: nat -> nat, top: nat)
    requires v.Valid() && IsBucketSort(v, order, top) && v.Start(v.n, top) == v.n
    requires forall i :: 0 <= i < v.n ==> v.Level(i) < top
    ensures PassedDownTo(v, order, [], rng, top, v.n)
  {
    NothingPassed(v, top);
    NonePassedAt(v, rng, top);
  }

  lemma LevelPassed(v: Levels, before: seq<nat>, order: seq<nat>, log: seq<Insertion>, rng: nat -> nat, l: nat,
                    i0: nat, i1: nat)
    requires v.Valid() && PassedDownTo(v, before, log, rng, l + 1, i1)
    requires i0 == v.Start(v.n, l) <= i1 <= v.n && |order| == v.n && SameOutside(order, before, i0, i1)
    requires order[i0..i1] == Shuffled(before[i0..i1], Draws(rng, |log|, i1 - i0))
    ensures PassedDownTo(v, order, log + Passed(order[i0..i1], l), rng, l, i0)
  {
    hide Levels.At, Levels.Start, IsBucketSort, LevelOrdered, PassedFrom, Draws, PassedAt, Shuffled, SameOutside;
    ShuffledMultiset(before[i0..i1], Draws(rng, |log|, i1 - i0));
    BucketShuffled(v, before, order, l);
    NoneBelowLess(log, l);
    PassedMore(v, log, l, order[i0..i1]);
    BucketPassed(v, log, l, order[i0..i1]);
    BucketPassedAt(v, log, rng, l, order[i0..i1]);
  }

  lemma NoneBelowLess(log: seq<Insertion>, l: int)
    requires NoneBelow(log, l + 1)
    ensures NoneBelow(log, l)
  {
  }

  /** What the run passes to the insertion, in the order in which it does; rng is the generator's output. */
  method AddVertices(v: Levels, initLevel0: bool, rng: nat -> nat) returns (log: seq<Insertion>)
    requires v.Valid()
    ensures LevelOrdered(v, log) && PassedFrom(v, log, if initLevel0 then 0 else 1)
    ensures forall l: nat :: l > 0 || initLevel0 ==> PassedAt(v, log, rng, l)
  {
    hide Levels.At, Levels.Start, IsHistogram, LevelOrdered, PassedFrom, Draws, PassedAt, Shuffled;
    log := [];
    if v.n == 0 {
      NothingPassed(v, if initLevel0 then 0 else 1);
      NonePassedAt(v, rng, 0);
      return;
    }
    var hist := Histogram(v);
    var order := BucketSort(v, hist);
    StartBound(v, hist);
    LevelsBelow(v, hist);
    NonePassed(v, order[..], rng, |hist|);
    BucketEnds(v, hist, 0);
    var i1: nat, t: nat, ptLevel := v.n, 0, |hist| - 1;
    var low := if initLevel0 then 0 else 1;
    while ptLevel >= low
      invariant low - 1 <= ptLevel < |hist| && t == |log|
      invariant PassedDownTo(v, order[..], log, rng, ptLevel + 1, i1)
    {
      BucketEnds(v, hist, ptLevel);
      var i0 := i1 - hist[ptLevel];
      ghost var before := order[..];
      ShuffleRange(order, i0, i1, Draws(rng, t, i1 - i0));
      LevelPassed(v, before, order[..], log, rng, ptLevel, i0, i1);
      t := t + i1 - i0;
      log := PassBucket(order, i0, i1, ptLevel, log);
      i1 := i0;
      ptLevel := ptLevel - 1;
    }
    if initLevel0 {
      assert i1 == 0;
    } else {
      assert i1 - hist[0] == 0;
    }
  }
}
