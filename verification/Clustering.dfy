/**
 The centroid update of k-means (compute_centroids in include/faiss/Clustering.cpp). A row of the
 centroid table is one vector; floats are reals. Cluster numbers below are those after the k_frozen
 frozen ones.
 */
module Clustering {
  import opened Arithmetic
  import opened Schedule
  import opened Wrappers

  type Row = seq<real>

  function ZeroRow(d: nat): Row {
    seq(d, j => 0.0)
  }

  function AddScaled(c: Row, x: Row, w: real): (r: Row)
    requires |c| == |x|
    ensures |r| == |c|
  {
    seq(|c|, j requires 0 <= j < |c| => c[j] + x[j] * w)
  }

  function Scaled(c: Row, norm: real): (r: Row)
    ensures |r| == |c|
  {
    seq(|c|, j requires 0 <= j < |c| => c[j] * norm)
  }

  // ---------- the training points ----------

  /** The points, the centroid each is assigned to, and optional weights. */
  datatype Training = Training(d: nat, k: nat, kFrozen: nat, x: seq<Row>, assign: seq<nat>,
                               weights: Option<seq<real>>) {
    ghost predicate Valid() {
      && kFrozen <= k
      && |assign| == |x|
      && (forall i :: 0 <= i < |x| ==> |x[i]| == d && assign[i] < k)
      && (weights.Some? ==> |weights.value| == |x|)
    }

    function Weight(i: nat): real
      requires i < |x| && (weights.Some? ==> |weights.value| == |x|)
    {
      if weights.Some? then weights.value[i] else 1.0
    }

    /** The weight of cluster c among the first m points. */
    ghost function Mass(c: nat, m: nat): real
      requires Valid() && m <= |x|
    {
      if m == 0 then 0.0
      else Mass(c, m - 1) + if assign[m - 1] == c + kFrozen then Weight(m - 1) else 0.0
    }

    /** The weighted sum of cluster c's points among the first m. */
    ghost function Sum(c: nat, m: nat): (r: Row)
      requires Valid() && m <= |x|
      ensures |r| == d
    {
      if m == 0 then ZeroRow(d)
      else if assign[m - 1] == c + kFrozen then AddScaled(Sum(c, m - 1), x[m - 1], Weight(m - 1))
      else Sum(c, m - 1)
    }
  }

  // ---------- the threads' shares ----------

  /** Thread number rank of nt owns the clusters from here up to the next thread's. */
  function ShareStart(k: nat, nt: nat, rank: nat): nat
    requires nt > 0
  {
    (k * rank) / nt
  }

  lemma ShareGrows(k: nat, nt: nat, a: nat, b: nat)
    requires nt > 0 && a <= b
    ensures ShareStart(k, nt, a) <= ShareStart(k, nt, b)
  {
    MulMonotone(a, b, k);
    QuotientMonotone(k * a, k * b, nt);
  }

  lemma QuotientMonotone(x: nat, y: nat, n: nat)
    requires n > 0 && x <= y
    ensures x / n <= y / n
  {
    var p, q := x / n, y / n;
    assert x == p * n + x % n && y == q * n + y % n;
    if q < p {
      MulMonotone(q + 1, p, n);
    }
  }

  lemma ShareEnds(k: nat, nt: nat)
    requires nt > 0
    ensures ShareStart(k, nt, 0) == 0 && ShareStart(k, nt, nt) == k
  {
    DivMod(k, nt, 0);
  }

  ghost predicate Owns(k: nat, nt: nat, rank: nat, c: nat)
    requires nt > 0
  {
    ShareStart(k, nt, rank) <= c < ShareStart(k, nt, rank + 1)
  }

  /** No cluster has two owners. */
  lemma OneOwner(k: nat, nt: nat, a: nat, b: nat, c: nat)
    requires nt > 0 && Owns(k, nt, a, c) && Owns(k, nt, b, c)
    ensures a == b
  {
    if a < b {
      ShareGrows(k, nt, a + 1, b);
    } else if b < a {
      ShareGrows(k, nt, b + 1, a);
    }
  }

  /** Every cluster has an owner among the first r threads when it lies before their end. */
  lemma {:induction false} SomeOwner(k: nat, nt: nat, r: nat, c: nat)
    requires 0 < nt && r <= nt && c < ShareStart(k, nt, r)
    ensures exists rank :: 0 <= rank < r && Owns(k, nt, rank, c)
  {
    if r == 0 {
      ShareEnds(k, nt);
    } else if c < ShareStart(k, nt, r - 1) {
      SomeOwner(k, nt, r - 1, c);
    } else {
      assert Owns(k, nt, r - 1, c);
    }
  }

  // ---------- compute_centroids ----------

  /** Each thread has treated the points up to its place, for the clusters it owns. */
  ghost predicate IsPartial(t: Training, nt: nat, place: seq<nat>, hassign: seq<real>, centroids: seq<Row>)
    requires t.Valid() && nt > 0
  {
    var k := t.k - t.kFrozen;
    && |place| == nt && |hassign| == |centroids| == k
    && (forall r :: 0 <= r < nt ==> place[r] <= |t.x|)
    && (forall r, c {:trigger Owns(k, nt, r, c)} :: 0 <= r < nt && 0 <= c < k && Owns(k, nt, r, c) ==>
          hassign[c] == t.Mass(c, place[r]) && centroids[c] == t.Sum(c, place[r]))
  }

  lemma OwnPartial(t: Training, nt: nat, place: seq<nat>, hassign: seq<real>, centroids: seq<Row>, r: nat, c: nat)
    requires t.Valid() && nt > 0 && IsPartial(t, nt, place, hassign, centroids)
    requires r < nt && c < t.k - t.kFrozen && Owns(t.k - t.kFrozen, nt, r, c)
    ensures hassign[c] == t.Mass(c, place[r]) && centroids[c] == t.Sum(c, place[r])
  {
  }

  /** What point i does to cluster c. */
  lemma OnePoint(t: Training, c: nat, i: nat)
    requires t.Valid() && i < |t.x|
    ensures var own := t.assign[i] == c + t.kFrozen;
      && t.Mass(c, i + 1) == (if own then t.Mass(c, i) + t.Weight(i) else t.Mass(c, i))
      && t.Sum(c, i + 1) == (if own then AddScaled(t.Sum(c, i), t.x[i], t.Weight(i)) else t.Sum(c, i))
  {
  }

  /** One iteration of one thread's loop over the points. */
  method ThreadStep(t: Training, nt: nat, rank: nat, i: nat, hassign: array<real>, centroids: array<Row>,
                    ghost place: seq<nat>)
    requires t.Valid() && rank < nt && i < |t.x|
    requires IsPartial(t, nt, place, hassign[..], centroids[..]) && place[rank] == i
    modifies hassign, centroids
    ensures IsPartial(t, nt, place[rank := i + 1], hassign[..], centroids[..])
  {
    hide Training.Mass, Training.Sum, ShareStart, AddScaled;
    var k := t.k - t.kFrozen;
    var c0, c1 := ShareStart(k, nt, rank), ShareStart(k, nt, rank + 1);
    ghost var h0, s0 := hassign[..], centroids[..];
    var ci := t.assign[i] - t.kFrozen;
    ShareEnds(k, nt);
    ShareGrows(k, nt, rank + 1, nt);
    if ci >= c0 && ci < c1 {
      OwnPartial(t, nt, place, h0, s0, rank, ci);
      var w := t.Weight(i);
      hassign[ci] := hassign[ci] + w;
      centroids[ci] := AddScaled(centroids[ci], t.x[i], w);
    }
    forall r, c {:trigger Owns(k, nt, r, c)} | 0 <= r < nt && 0 <= c < k && Owns(k, nt, r, c)
      ensures hassign[c] == t.Mass(c, place[rank := i + 1][r]) && centroids[c] == t.Sum(c, place[rank := i + 1][r])
    {
      if r == rank {
        OnePoint(t, c, i);
      } else if c == ci && c0 <= ci < c1 {
        OneOwner(k, nt, r, rank, c);
      }
    }
  }

  /** The centroid of cluster c: its mean, or the plain sum when its mass is zero. */
  ghost function Mean(t: Training, c: nat): Row
    requires t.Valid()
  {
    var n := |t.x|;
    if t.Mass(c, n) == 0.0 then t.Sum(c, n) else Scaled(t.Sum(c, n), 1.0 / t.Mass(c, n))
  }

  /** A centroid times its mass is the sum of its points; without mass it is the plain sum. */
  ghost predicate IsMean(mass: real, sum: Row, mean: Row) {
    && |mean| == |sum| && (mass == 0.0 ==> mean == sum)
    && forall j :: 0 <= j < |mean| ==> mass != 0.0 ==> mean[j] * mass == sum[j]
  }

  lemma MeanIsMean(t: Training, c: nat)
    requires t.Valid()
    ensures IsMean(t.Mass(c, |t.x|), t.Sum(c, |t.x|), Mean(t, c))
  {
    var mass, sum := t.Mass(c, |t.x|), t.Sum(c, |t.x|);
    if mass != 0.0 {
      forall j | 0 <= j < |sum|
        ensures Mean(t, c)[j] * mass == sum[j]
      {
        DivideBack(mass, sum[j]);
      }
    }
  }

  /** The parallel accumulation: in every turn some thread, any, does one of its iterations. */
  method Accumulate(t: Training, nt: nat, hassign: array<real>, centroids: array<Row>)
    requires t.Valid() && nt > 0
    requires hassign.Length == centroids.Length == t.k - t.kFrozen
    requires forall c :: 0 <= c < hassign.Length ==> hassign[c] == 0.0
    modifies hassign, centroids
    ensures forall c :: 0 <= c < hassign.Length ==> hassign[c] == t.Mass(c, |t.x|) && centroids[c] == t.Sum(c, |t.x|)
  {
    for c := 0 to centroids.Length
      invariant forall b :: 0 <= b < hassign.Length ==> hassign[b] == 0.0
      invariant forall b :: 0 <= b < c ==> centroids[b] == ZeroRow(t.d)
    {
      centroids[c] := ZeroRow(t.d);
    }
    hide ShareStart, Training.Mass, Training.Sum;
    var n := |t.x|;
    var place: seq<nat> := seq(nt, r => 0);
    NobodyStarted(t, nt, place, hassign[..], centroids[..]);
    assert forall r :: 0 <= r < nt ==> place[r] == 0;
    while exists r :: 0 <= r < nt && place[r] < n
      invariant IsPartial(t, nt, place, hassign[..], centroids[..])
      decreases Remaining(place, n)
    {
      var r :| 0 <= r < nt && place[r] < n;
      ThreadStep(t, nt, r, place[r], hassign, centroids, place);
      RemainingDrops(place, n, r);
      place := place[r := place[r] + 1];
    }
    AllDone(t, nt, place, hassign[..], centroids[..]);
  }

  lemma NobodyStarted(t: Training, nt: nat, place: seq<nat>, h: seq<real>, cs: seq<Row>)
    requires t.Valid() && nt > 0 && |place| == nt && (forall r :: 0 <= r < nt ==> place[r] == 0)
    requires |h| == |cs| == t.k - t.kFrozen && forall c :: 0 <= c < |h| ==> h[c] == 0.0 && cs[c] == ZeroRow(t.d)
    ensures IsPartial(t, nt, place, h, cs)
  {
  }

  /** When every thread is through, every cluster is. */
  lemma AllDone(t: Training, nt: nat, place: seq<nat>, h: seq<real>, cs: seq<Row>)
    requires t.Valid() && nt > 0 && IsPartial(t, nt, place, h, cs) && forall r :: 0 <= r < nt ==> place[r] >= |t.x|
    ensures forall c :: 0 <= c < |h| ==> h[c] == t.Mass(c, |t.x|) && cs[c] == t.Sum(c, |t.x|)
  {
    hide ShareStart, Training.Mass, Training.Sum;
    forall c | 0 <= c < |h|
      ensures h[c] == t.Mass(c, |t.x|) && cs[c] == t.Sum(c, |t.x|)
    {
      ShareEnds(|h|, nt);
      SomeOwner(|h|, nt, nt, c);
      var r :| 0 <= r < nt && Owns(|h|, nt, r, c);
      assert place[r] == |t.x|;
      OwnPartial(t, nt, place, h, cs, r, c);
    }
  }

  /** compute_centroids, for any number of threads and any interleaving of them. */
  method ComputeCentroids(t: Training, nt: nat, hassign: array<real>, centroids: array<Row>)
    requires t.Valid() && nt > 0
    requires hassign.Length == centroids.Length == t.k - t.kFrozen
    requires forall c :: 0 <= c < hassign.Length ==> hassign[c] == 0.0
    modifies hassign, centroids
    ensures forall c :: 0 <= c < hassign.Length ==> hassign[c] == t.Mass(c, |t.x|) && centroids[c] == Mean(t, c)
    ensures forall c :: 0 <= c < hassign.Length ==> IsMean(hassign[c], t.Sum(c, |t.x|), centroids[c])
  {
    Accumulate(t, nt, hassign, centroids);
    for ci := 0 to hassign.Length
      invariant forall c :: 0 <= c < hassign.Length ==> hassign[c] == t.Mass(c, |t.x|)
      invariant forall c :: 0 <= c < ci ==> centroids[c] == Mean(t, c)
      invariant forall c :: ci <= c < hassign.Length ==> centroids[c] == t.Sum(c, |t.x|)
    {
      if hassign[ci] == 0.0 {
        continue;
      }
      var norm := 1.0 / hassign[ci];
      centroids[ci] := Scaled(centroids[ci], norm);
    }
    forall c | 0 <= c < hassign.Length
      ensures IsMean(hassign[c], t.Sum(c, |t.x|), centroids[c])
    {
      MeanIsMean(t, c);
    }
  }

  // ---------- mass and moment ----------

  function Total(h: seq<real>): real {
    if h == [] then 0.0 else Total(h[..|h| - 1]) + h[|h| - 1]
  }

  ghost predicate AllRows(cs: seq<Row>, d: nat) {
    forall c :: 0 <= c < |cs| ==> |cs[c]| == d
  }

  /** Coordinate j of the sum of the centroids, each times its mass. */
  ghost function Moment(h: seq<real>, cs: seq<Row>, j: nat): real
    requires |h| == |cs| && forall c :: 0 <= c < |cs| ==> j < |cs[c]|
  {
    if h == [] then 0.0
    else Moment(h[..|h| - 1], cs[..|cs| - 1], j) + h[|h| - 1] * cs[|cs| - 1][j]
  }

  lemma {:induction false} TotalUpdate(h: seq<real>, i: nat, v: real)
    requires i < |h|
    ensures Total(h[i := v]) == Total(h) - h[i] + v
  {
    var n := |h| - 1;
    if i == n {
      assert h[i := v][..n] == h[..n];
    } else {
      assert h[i := v][..n] == h[..n][i := v];
      TotalUpdate(h[..n], i, v);
    }
  }

  lemma {:induction false} MomentUpdate(h: seq<real>, cs: seq<Row>, j: nat, i: nat, v: real, row: Row)
    requires |h| == |cs| && (forall c :: 0 <= c < |cs| ==> j < |cs[c]|) && i < |h| && j < |row|
    ensures Moment(h[i := v], cs[i := row], j) == Moment(h, cs, j) - h[i] * cs[i][j] + v * row[j]
  {
    var n := |h| - 1;
    if i == n {
      assert h[i := v][..n] == h[..n] && cs[i := row][..n] == cs[..n];
    } else {
      assert h[i := v][..n] == h[..n][i := v] && cs[i := row][..n] == cs[..n][i := row];
      MomentUpdate(h[..n], cs[..n], j, i, v, row);
    }
  }

  /** The weight of the points whose centroid is not frozen, 1 each without weights, and coordinate j of their sum. */
  ghost function PointMass(t: Training, m: nat): real
    requires t.Valid() && m <= |t.x|
  {
    if m == 0 then 0.0
    else
      var w := if t.weights.Some? then t.weights.value[m - 1] else 1.0;
      PointMass(t, m - 1) + if t.assign[m - 1] >= t.kFrozen then w else 0.0
  }

  ghost function PointMoment(t: Training, m: nat, j: nat): real
    requires t.Valid() && m <= |t.x| && j < t.d
  {
    if m == 0 then 0.0
    else
      var w := if t.weights.Some? then t.weights.value[m - 1] else 1.0;
      PointMoment(t, m - 1, j) + if t.assign[m - 1] >= t.kFrozen then t.x[m - 1][j] * w else 0.0
  }

  /** The masses of the first c clusters, and coordinate j of their sums, over m points. */
  ghost function MassUpTo(t: Training, c: nat, m: nat): real
    requires t.Valid() && m <= |t.x|
  {
    if c == 0 then 0.0 else MassUpTo(t, c - 1, m) + t.Mass(c - 1, m)
  }

  ghost function SumUpTo(t: Training, c: nat, m: nat, j: nat): real
    requires t.Valid() && m <= |t.x| && j < t.d
  {
    if c == 0 then 0.0 else SumUpTo(t, c - 1, m, j) + t.Sum(c - 1, m)[j]
  }

  lemma {:induction false} OnePointMass(t: Training, c: nat, m: nat)
    requires t.Valid() && 0 < m <= |t.x|
    ensures MassUpTo(t, c, m) == MassUpTo(t, c, m - 1)
      + if t.kFrozen <= t.assign[m - 1] < t.kFrozen + c then t.Weight(m - 1) else 0.0
  {
    if c > 0 {
      OnePointMass(t, c - 1, m);
    }
  }

  lemma {:induction false} OnePointSum(t: Training, c: nat, m: nat, j: nat)
    requires t.Valid() && 0 < m <= |t.x| && j < t.d
    ensures SumUpTo(t, c, m, j) == SumUpTo(t, c, m - 1, j)
      + if t.kFrozen <= t.assign[m - 1] < t.kFrozen + c then t.x[m - 1][j] * t.Weight(m - 1) else 0.0
  {
    if c > 0 {
      OnePointSum(t, c - 1, m, j);
    }
  }

  lemma {:induction false} NoMass(t: Training, c: nat)
    requires t.Valid()
    ensures MassUpTo(t, c, 0) == 0.0
  {
    if c > 0 {
      NoMass(t, c - 1);
    }
  }

  lemma {:induction false} NoSum(t: Training, c: nat, j: nat)
    requires t.Valid() && j < t.d
    ensures SumUpTo(t, c, 0, j) == 0.0
  {
    if c > 0 {
      NoSum(t, c - 1, j);
    }
  }

  /** Counting mass by clusters is counting it by points. */
  lemma {:induction false} ClustersHoldMass(t: Training, m: nat)
    requires t.Valid() && m <= |t.x|
    ensures MassUpTo(t, t.k - t.kFrozen, m) == PointMass(t, m)
  {
    if m == 0 {
      NoMass(t, t.k - t.kFrozen);
    } else {
      ClustersHoldMass(t, m - 1);
      OnePointMass(t, t.k - t.kFrozen, m);
    }
  }

  /** Summing by clusters is summing by points. */
  lemma {:induction false} ClustersHoldMoment(t: Training, m: nat, j: nat)
    requires t.Valid() && m <= |t.x| && j < t.d
    ensures SumUpTo(t, t.k - t.kFrozen, m, j) == PointMoment(t, m, j)
  {
    if m == 0 {
      NoSum(t, t.k - t.kFrozen, j);
    } else {
      ClustersHoldMoment(t, m - 1, j);
      OnePointSum(t, t.k - t.kFrozen, m, j);
      hide SumUpTo;
    }
  }

  /** What the clusters of mass zero would have contributed. */
  ghost function Lost(t: Training, c: nat, j: nat): real
    requires t.Valid() && j < t.d
  {
    if c == 0 then 0.0
    else Lost(t, c - 1, j) + if t.Mass(c - 1, |t.x|) == 0.0 then t.Sum(c - 1, |t.x|)[j] else 0.0
  }

  /** h and cs are what compute_centroids leaves. */
  ghost predicate AreMeans(t: Training, h: seq<real>, cs: seq<Row>)
    requires t.Valid()
  {
    |h| == |cs| && forall c :: 0 <= c < |h| ==> h[c] == t.Mass(c, |t.x|) && cs[c] == Mean(t, c)
  }

  lemma MeansAreRows(t: Training, h: seq<real>, cs: seq<Row>)
    requires t.Valid() && AreMeans(t, h, cs)
    ensures AllRows(cs, t.d)
  {
  }

  lemma {:induction false} MassByClusters(t: Training, h: seq<real>)
    requires t.Valid() && forall c :: 0 <= c < |h| ==> h[c] == t.Mass(c, |t.x|)
    ensures Total(h) == MassUpTo(t, |h|, |t.x|)
  {
    if h != [] {
      MassByClusters(t, h[..|h| - 1]);
    }
  }

  lemma {:induction false} MomentByClusters(t: Training, h: seq<real>, cs: seq<Row>, j: nat)
    requires t.Valid() && j < t.d && AreMeans(t, h, cs) && AllRows(cs, t.d)
    ensures Moment(h, cs, j) == SumUpTo(t, |h|, |t.x|, j) - Lost(t, |h|, j)
  {
    if h == [] {
      NothingUpTo(t, j);
    } else {
      var c := |h| - 1;
      FrontMeans(t, h, cs);
      hide AreMeans, AllRows, Mean, Lost, SumUpTo, Moment, Training.Mass, Training.Sum;
      MomentByClusters(t, h[..c], cs[..c], j);
      MomentLast(h, cs, j);
      ClusterTerm(t, h, cs, c, j);
      UpToStep(t, c, j);
    }
  }

  lemma FrontMeans(t: Training, h: seq<real>, cs: seq<Row>)
    requires t.Valid() && AreMeans(t, h, cs) && AllRows(cs, t.d) && h != []
    ensures AreMeans(t, h[..|h| - 1], cs[..|h| - 1]) && AllRows(cs[..|h| - 1], t.d) && |h| == |cs|
    ensures forall c :: 0 <= c < |cs| ==> |cs[c]| == t.d
  {
    hide Mean, Training.Mass;
  }

  /** What one cluster adds to the moment: the sum of its points, or nothing when it has no mass. */
  lemma ClusterTerm(t: Training, h: seq<real>, cs: seq<Row>, c: nat, j: nat)
    requires t.Valid() && j < t.d && AreMeans(t, h, cs) && c < |h| == |cs| && j < |cs[c]|
    ensures h[c] * cs[c][j] == t.Sum(c, |t.x|)[j] - if t.Mass(c, |t.x|) == 0.0 then t.Sum(c, |t.x|)[j] else 0.0
  {
    hide Mean, Training.Mass, Training.Sum;
    MeanTerm(t, c, j);
  }

  lemma MomentLast(h: seq<real>, cs: seq<Row>, j: nat)
    requires |h| == |cs| > 0 && forall c :: 0 <= c < |cs| ==> j < |cs[c]|
    ensures var c := |h| - 1; Moment(h, cs, j) == Moment(h[..c], cs[..c], j) + h[c] * cs[c][j]
  {
  }

  lemma NothingUpTo(t: Training, j: nat)
    requires t.Valid() && j < t.d
    ensures SumUpTo(t, 0, |t.x|, j) == Lost(t, 0, j) == 0.0
  {
  }

  lemma UpToStep(t: Training, c: nat, j: nat)
    requires t.Valid() && j < t.d
    ensures SumUpTo(t, c + 1, |t.x|, j) == SumUpTo(t, c, |t.x|, j) + t.Sum(c, |t.x|)[j]
    ensures Lost(t, c + 1, j) == Lost(t, c, j) + if t.Mass(c, |t.x|) == 0.0 then t.Sum(c, |t.x|)[j] else 0.0
  {
  }

  lemma MeanTerm(t: Training, c: nat, j: nat)
    requires t.Valid() && j < t.d
    ensures |Mean(t, c)| == t.d
    ensures t.Mass(c, |t.x|) * Mean(t, c)[j]
      == t.Sum(c, |t.x|)[j] - if t.Mass(c, |t.x|) == 0.0 then t.Sum(c, |t.x|)[j] else 0.0
  {
    if t.Mass(c, |t.x|) != 0.0 {
      DivideBack(t.Mass(c, |t.x|), t.Sum(c, |t.x|)[j]);
    }
  }

  lemma DivideBack(m: real, s: real)
    requires m != 0.0
    ensures m * (s * (1.0 / m)) == s
  {
    assert m * (1.0 / m) == 1.0;
    assert m * (s * (1.0 / m)) == s * (m * (1.0 / m));
  }

  /**
   The update conserves mass always, and coordinate j of the first moment exactly when the
   clusters of mass zero have nothing to lose.
   */
  lemma UpdateConserves(t: Training, h: seq<real>, cs: seq<Row>, j: nat)
    requires t.Valid() && j < t.d && AreMeans(t, h, cs) && |h| == t.k - t.kFrozen
    ensures AllRows(cs, t.d)
    ensures Total(h) == PointMass(t, |t.x|)
    ensures Moment(h, cs, j) == PointMoment(t, |t.x|, j) <==> Lost(t, t.k - t.kFrozen, j) == 0.0
  {
    MeansAreRows(t, h, cs);
    MassByClusters(t, h);
    MomentByClusters(t, h, cs, j);
    ClustersHoldMass(t, |t.x|);
    ClustersHoldMoment(t, |t.x|, j);
  }

  /** Without negative weights nothing is lost. */
  lemma {:induction false} NothingLost(t: Training, c: nat, j: nat)
    requires t.Valid() && j < t.d
    requires t.weights.Some? ==> forall i :: 0 <= i < |t.x| ==> t.weights.value[i] >= 0.0
    ensures Lost(t, c, j) == 0.0
  {
    if c > 0 {
      NothingLost(t, c - 1, j);
      MasslessSum(t, c - 1, |t.x|, j);
    }
  }

  lemma {:induction false} MasslessSum(t: Training, c: nat, m: nat, j: nat)
    requires t.Valid() && m <= |t.x| && j < t.d
    requires t.weights.Some? ==> forall i :: 0 <= i < |t.x| ==> t.weights.value[i] >= 0.0
    ensures t.Mass(c, m) >= 0.0
    ensures t.Mass(c, m) == 0.0 ==> t.Sum(c, m)[j] == 0.0
  {
    if m > 0 {
      MasslessSum(t, c, m - 1, j);
    }
  }

  /** One point of weight 1 and one of weight -1 in a cluster lose their difference. */
  lemma NegativeWeightsLose()
    ensures var t := Training(1, 1, 0, [[1.0], [0.0]], [0, 0], Some([1.0, -1.0]));
      t.Valid() && Lost(t, 1, 0) == 1.0
  {
    var t := Training(1, 1, 0, [[1.0], [0.0]], [0, 0], Some([1.0, -1.0]));
    assert t.Mass(0, 1) == 1.0 && t.Mass(0, 2) == 0.0;
    assert t.Sum(0, 1)[0] == 1.0;
    assert t.Sum(0, 2)[0] == 1.0;
    assert Lost(t, 0, 0) == 0.0;
  }
}
