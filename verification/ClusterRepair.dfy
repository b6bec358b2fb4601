/**
 The repair of empty clusters in k-means (split_clusters in include/faiss/Clustering.cpp), what it
 conserves and when it can end, and the update and repair of one training iteration together.
 */
module ClusterRepair {
  import opened Arithmetic
  import opened Clustering
  import opened Wrappers

  const EPS: real := 1.0 / 1024.0

  /** Even coordinates grow by s and odd ones shrink by it. */
  function Perturbed(c: Row, s: real): (r: Row)
    ensures |r| == |c|
  {
    seq(|c|, j requires 0 <= j < |c| => c[j] * if j % 2 == 0 then 1.0 + s else 1.0 - s)
  }

  /** Cluster cj gives half of its mass to the empty cluster ci. */
  function SplitMass(h: seq<real>, ci: nat, cj: nat): (r: seq<real>)
    requires ci < |h| && cj < |h|
    ensures |r| == |h|
  {
    var h1 := h[ci := h[cj] / 2.0];
    h1[cj := h1[cj] - h1[ci]]
  }

  function SplitRows(cs: seq<Row>, ci: nat, cj: nat): (r: seq<Row>)
    requires ci < |cs| && cj < |cs|
    ensures |r| == |cs|
  {
    cs[ci := Perturbed(cs[cj], EPS)][cj := Perturbed(cs[cj], -EPS)]
  }

  /**
   What one split does, in numbers: both clusters get half of the donor's mass; the empty one gets
   the donor's centroid with even coordinates raised by 1/1024 and odd ones lowered by it, the
   donor the reverse; no other cluster changes.
   */
  ghost predicate IsSplit(h: seq<real>, cs: seq<Row>, h': seq<real>, cs': seq<Row>, ci: nat, cj: nat)
    requires |h| == |cs| == |h'| == |cs'| && ci < |h| && cj < |h|
  {
    && h' == h[ci := h[cj] / 2.0][cj := h[cj] / 2.0]
    && (forall c :: 0 <= c < |cs| && c != ci && c != cj ==> cs'[c] == cs[c])
    && |cs'[ci]| == |cs'[cj]| == |cs[cj]|
    && (forall j :: 0 <= j < |cs[cj]| && j % 2 == 0 ==>
          cs'[ci][j] == cs[cj][j] * (1025.0 / 1024.0) && cs'[cj][j] == cs[cj][j] * (1023.0 / 1024.0))
    && (forall j :: 0 <= j < |cs[cj]| && j % 2 == 1 ==>
          cs'[ci][j] == cs[cj][j] * (1023.0 / 1024.0) && cs'[cj][j] == cs[cj][j] * (1025.0 / 1024.0))
  }

  lemma SplitKeepsTotal(h: seq<real>, ci: nat, cj: nat)
    requires ci < |h| && cj < |h| && ci != cj && h[ci] == 0.0
    ensures Total(SplitMass(h, ci, cj)) == Total(h)
  {
    var half := h[cj] / 2.0;
    TotalUpdate(h, ci, half);
    TotalUpdate(h[ci := half], cj, half);
    assert SplitMass(h, ci, cj) == h[ci := half][cj := half];
  }

  lemma SplitKeepsMoment(h: seq<real>, cs: seq<Row>, ci: nat, cj: nat, d: nat, j: nat)
    requires |h| == |cs| && AllRows(cs, d) && ci < |h| && cj < |h| && ci != cj && h[ci] == 0.0 && j < d
    ensures AllRows(SplitRows(cs, ci, cj), d)
    ensures Moment(SplitMass(h, ci, cj), SplitRows(cs, ci, cj), j) == Moment(h, cs, j)
  {
    var half, x, s := h[cj] / 2.0, cs[cj][j], if j % 2 == 0 then EPS else -EPS;
    var up, down := Perturbed(cs[cj], EPS), Perturbed(cs[cj], -EPS);
    TwoUpdates(h, cs, j, ci, cj, half, up, down);
    assert SplitMass(h, ci, cj) == h[ci := half][cj := half];
    assert up[j] == x * (1.0 + s) && down[j] == x * (1.0 - s);
    HalvesBalance(x, half, s);
  }

  lemma TwoUpdates(h: seq<real>, cs: seq<Row>, j: nat, ci: nat, cj: nat, half: real, up: Row, down: Row)
    requires |h| == |cs| && (forall c :: 0 <= c < |cs| ==> j < |cs[c]|) && j < |up| && j < |down|
    requires ci < |h| && cj < |h| && ci != cj && h[ci] == 0.0 && h[cj] == 2.0 * half
    ensures Moment(h[ci := half][cj := half], cs[ci := up][cj := down], j)
      == Moment(h, cs, j) + half * up[j] + half * down[j] - (2.0 * half) * cs[cj][j]
  {
    hide Moment;
    MomentUpdate(h, cs, j, ci, half, up);
    MomentUpdate(h[ci := half], cs[ci := up], j, cj, half, down);
    assert h[ci] * cs[ci][j] == 0.0;
  }

  lemma SplitConserves(h: seq<real>, cs: seq<Row>, ci: nat, cj: nat, d: nat)
    requires |h| == |cs| && AllRows(cs, d) && ci < |h| && cj < |h| && ci != cj && h[ci] == 0.0
    ensures AllRows(SplitRows(cs, ci, cj), d)
    ensures Total(SplitMass(h, ci, cj)) == Total(h)
    ensures forall j: nat :: j < d ==> Moment(SplitMass(h, ci, cj), SplitRows(cs, ci, cj), j) == Moment(h, cs, j)
  {
    SplitKeepsTotal(h, ci, cj);
    forall j: nat | j < d
      ensures Moment(SplitMass(h, ci, cj), SplitRows(cs, ci, cj), j) == Moment(h, cs, j)
    {
      SplitKeepsMoment(h, cs, ci, cj, d, j);
    }
  }

  lemma HalvesBalance(x: real, half: real, s: real)
    ensures half * (x * (1.0 + s)) + half * (x * (1.0 - s)) == (2.0 * half) * x
  {
    assert half * (x * (1.0 + s)) + half * (x * (1.0 - s)) == half * (x * (1.0 + s) + x * (1.0 - s));
    assert x * (1.0 + s) + x * (1.0 - s) == 2.0 * x;
  }

  /** The chance with which cluster cj is picked. */
  function PickChance(h: seq<real>, cj: nat, n: nat): real
    requires cj < |h| && n > |h|
  {
    (h[cj] - 1.0) / (n - |h|) as real
  }

  /** The number of the first draw, from i on, that picks a cluster; they are offered in turn from draw `from` on. */
  function DonorFrom(h: seq<real>, n: nat, draws: seq<real>, from: nat, i: nat): (r: Option<nat>)
    requires 0 < |h| < n && from <= i <= |draws|
    ensures r.Some? ==> i <= r.value < |draws| && draws[r.value] < PickChance(h, (r.value - from) % |h|, n)
    decreases |draws| - i
  {
    if i == |draws| then None
    else if draws[i] < PickChance(h, (i - from) % |h|, n) then Some(i)
    else DonorFrom(h, n, draws, from, i + 1)
  }

  /** No cluster is passed over that its draw would have picked. */
  lemma {:induction false} DonorIsFirst(h: seq<real>, n: nat, draws: seq<real>, from: nat, i: nat)
    requires 0 < |h| < n && from <= i <= |draws|
    ensures var r := DonorFrom(h, n, draws, from, i);
      forall x :: i <= x < (if r.Some? then r.value else |draws|) ==> draws[x] >= PickChance(h, (x - from) % |h|, n)
    decreases |draws| - i
  {
    if i < |draws| && draws[i] >= PickChance(h, (i - from) % |h|, n) {
      DonorIsFirst(h, n, draws, from, i + 1);
    }
  }

  /**
   The search for a donor: clusters are offered in turn, each with a fresh draw, until one is
   picked; it is not found when the draws run out first.
   */
  method FindDonor(hassign: array<real>, n: nat, draws: seq<real>, from: nat) returns (found: bool, cj: nat, next: nat)
    requires 0 < hassign.Length < n && from <= |draws|
    ensures var donor := DonorFrom(hassign[..], n, draws, from, from);
      found == donor.Some? && (found ==> next == donor.value + 1 && cj == (donor.value - from) % hassign.Length)
    ensures found ==> from < next <= |draws| && cj < hassign.Length && draws[next - 1] < PickChance(hassign[..], cj, n)
  {
    var k := hassign.Length;
    cj, next := 0, from;
    while next < |draws|
      invariant from <= next <= |draws| && cj < k && cj == (next - from) % k
      invariant DonorFrom(hassign[..], n, draws, from, next) == DonorFrom(hassign[..], n, draws, from, from)
    {
      var p := (hassign[cj] - 1.0) / (n - k) as real;
      var r := draws[next];
      next := next + 1;
      if r < p {
        return true, cj, next;
      }
      NextInTurn(next - 1 - from, k);
      cj := (cj + 1) % k;
    }
    return false, cj, next;
  }

  lemma NextInTurn(m: nat, k: nat)
    requires k > 0
    ensures (m % k + 1) % k == (m + 1) % k
  {
    QuotientEquation(m, k);
    NextModulo(m / k, m % k, k);
  }

  lemma SmallMod(r: nat, k: nat)
    requires r < k
    ensures r % k == r
  {
  }

  lemma PickedIsLarge(h: seq<real>, cj: nat, n: nat, r: real)
    requires cj < |h| < n && 0.0 <= r < PickChance(h, cj, n)
    ensures h[cj] > 1.0
  {
    var m := (n - |h|) as real;
    assert m > 0.0;
    if h[cj] - 1.0 <= 0.0 {
      QuotientSign(h[cj] - 1.0, m);
    }
  }

  lemma QuotientSign(x: real, m: real)
    requires m > 0.0
    ensures x <= 0.0 ==> x / m <= 0.0
    ensures x > 0.0 ==> x / m > 0.0
  {
    assert (x / m) * m == x;
  }

  /** A cluster of more than unit mass can be picked, by a draw of 0 for one. */
  lemma LargeCanBePicked(h: seq<real>, cj: nat, n: nat)
    requires cj < |h| < n
    ensures PickChance(h, cj, n) > 0.0 <==> h[cj] > 1.0
  {
    QuotientSign(h[cj] - 1.0, (n - |h|) as real);
  }

  /** More mass than clusters: some cluster has more than its unit. */
  lemma {:induction false} SomeLarge(h: seq<real>)
    requires Total(h) > |h| as real
    ensures exists c :: 0 <= c < |h| && h[c] > 1.0
  {
    var n := |h| - 1;
    if h != [] && h[n] <= 1.0 {
      SomeLarge(h[..n]);
      var c :| 0 <= c < n && h[..n][c] > 1.0;
      assert h[c] > 1.0;
    }
  }

  function Zeros(h: seq<real>): nat {
    if h == [] then 0 else Zeros(h[..|h| - 1]) + if h[|h| - 1] == 0.0 then 1 else 0
  }

  ghost function EmptyOf(h: seq<real>): set<nat> {
    set c: nat | c < |h| && h[c] == 0.0
  }

  lemma {:induction false} ZerosCount(h: seq<real>)
    ensures Zeros(h) == |EmptyOf(h)|
  {
    if h == [] {
      assert EmptyOf(h) == {};
    } else {
      var n := |h| - 1;
      ZerosCount(h[..n]);
      assert EmptyOf(h) == if h[n] == 0.0 then EmptyOf(h[..n]) + {n} else EmptyOf(h[..n]);
    }
  }

  /** Before ci all clusters have mass; from ci on the empty ones are still those of h0. */
  ghost predicate IsRepaired(h0: seq<real>, h: seq<real>, ci: nat) {
    && |h| == |h0| && ci <= |h|
    && (forall c :: 0 <= c < ci ==> h[c] != 0.0)
    && (forall c :: ci <= c < |h| ==> (h[c] == 0.0 <==> h0[c] == 0.0))
    && (forall c :: 0 <= c < |h| && ((c < ci && h0[c] == 0.0) || h0[c] > 0.5) ==> h[c] > 0.5)
  }

  lemma RepairStart(h: seq<real>)
    ensures IsRepaired(h, h, 0)
  {
  }

  lemma RepairSkip(h0: seq<real>, h: seq<real>, ci: nat)
    requires IsRepaired(h0, h, ci) && ci < |h|
    ensures h[ci] == 0.0 <==> h0[ci] == 0.0
    ensures h[ci] != 0.0 ==> IsRepaired(h0, h, ci + 1)
  {
  }

  lemma RepairStep(h0: seq<real>, h: seq<real>, ci: nat, cj: nat)
    requires IsRepaired(h0, h, ci) && ci < |h| && h[ci] == 0.0 && cj < |h| && h[cj] > 1.0
    ensures IsRepaired(h0, SplitMass(h, ci, cj), ci + 1)
  {
    var r := SplitMass(h, ci, cj);
    assert r[ci] == h[cj] / 2.0 && r[cj] == h[cj] / 2.0;
    assert forall c :: 0 <= c < |h| && c != ci && c != cj ==> r[c] == h[c];
    if cj >= ci {
      assert h0[cj] != 0.0;
    }
  }

  /** The outcome of the repair: masses, centroids, number of splits, and whether the draws sufficed. */
  datatype Repair = Repair(h: seq<real>, cs: seq<Row>, nsplit: nat, done: bool) {
    function Plus(more: nat): Repair {
      Repair(h, cs, nsplit + more, done)
    }
  }

  /** The repair from cluster ci on: every empty cluster splits the first one its draws pick. */
  function SplitRun(h: seq<real>, cs: seq<Row>, n: nat, draws: seq<real>, from: nat, ci: nat): Repair
    requires |h| == |cs| < n && from <= |draws| && ci <= |h|
    decreases |h| - ci
  {
    if ci == |h| then Repair(h, cs, 0, true)
    else if h[ci] != 0.0 then SplitRun(h, cs, n, draws, from, ci + 1)
    else
      var donor := DonorFrom(h, n, draws, from, from);
      if donor.None? then Repair(h, cs, 0, false)
      else
        var cj := (donor.value - from) % |h|;
        SplitRun(SplitMass(h, ci, cj), SplitRows(cs, ci, cj), n, draws, donor.value + 1, ci + 1).Plus(1)
  }

  // ---------- the run, split by split ----------

  ghost predicate NonNegative(draws: seq<real>) {
    forall i :: 0 <= i < |draws| ==> draws[i] >= 0.0
  }

  /** The repair about to look at cluster ci, with the draws from number `from` on. */
  datatype State = State(h: seq<real>, cs: seq<Row>, from: nat, ci: nat)

  /** The draw, offered to the clusters in turn from draw number `from` on, that picks its cluster. */
  ghost predicate IsPick(h: seq<real>, n: nat, draws: seq<real>, from: nat, x: nat)
    requires 0 < |h| < n && from <= x < |draws|
  {
    draws[x] < (h[(x - from) % |h|] - 1.0) / (n - |h|) as real
  }

  /**
   From one split to the next: the first empty cluster splits the one whose draw is the first to
   pick; the search goes on behind both.
   */
  ghost predicate IsMove(a: State, b: State, n: nat, draws: seq<real>) {
    && |a.h| == |a.cs| == |b.h| == |b.cs| < n && a.ci < b.ci <= |a.h| && a.from < b.from <= |draws|
    && a.h[b.ci - 1] == 0.0 && (forall c :: a.ci <= c < b.ci - 1 ==> a.h[c] != 0.0)
    && IsPick(a.h, n, draws, a.from, b.from - 1)
    && (forall x :: a.from <= x < b.from - 1 ==> !IsPick(a.h, n, draws, a.from, x))
    && IsSplit(a.h, a.cs, b.h, b.cs, b.ci - 1, (b.from - 1 - a.from) % |a.h|)
  }

  /** No empty cluster is left, or one for which no draw picks a donor. */
  ghost predicate IsEnd(a: State, n: nat, draws: seq<real>, done: bool)
    requires |a.h| < n
  {
    if done then forall c :: a.ci <= c < |a.h| ==> a.h[c] != 0.0
    else
      && (exists c :: a.ci <= c < |a.h| && a.h[c] == 0.0)
      && (forall x :: a.from <= x < |draws| ==> !IsPick(a.h, n, draws, a.from, x))
  }

  lemma SplitInNumbers(h: seq<real>, cs: seq<Row>, ci: nat, cj: nat)
    requires |h| == |cs| && ci < |h| && cj < |h| && ci != cj
    ensures IsSplit(h, cs, SplitMass(h, ci, cj), SplitRows(cs, ci, cj), ci, cj)
  {
    assert SplitMass(h, ci, cj) == h[ci := h[cj] / 2.0][cj := h[cj] / 2.0];
  }

  /** A chain of such moves, nsplit of them, from one state to the outcome of the repair. */
  ghost predicate AreMoves(states: seq<State>, first: State, n: nat, draws: seq<real>, r: Repair) {
    && |states| == r.nsplit + 1 && states[0] == first
    && (forall s :: 0 <= s < r.nsplit ==> IsMove(states[s], states[s + 1], n, draws))
    && states[r.nsplit].h == r.h && states[r.nsplit].cs == r.cs
    && |r.h| < n && IsEnd(states[r.nsplit], n, draws, r.done)
  }

  /** The search may begin at a cluster that has mass. */
  lemma MovesEarlier(states: seq<State>, a: State, n: nat, draws: seq<real>, r: Repair)
    requires AreMoves(states, a.(ci := a.ci + 1), n, draws, r) && a.ci < |a.h| && a.h[a.ci] != 0.0
    ensures AreMoves([a] + states[1..], a, n, draws, r)
  {
    hide IsSplit, IsPick;
    var all := [a] + states[1..];
    forall s | 0 <= s < r.nsplit
      ensures IsMove(all[s], all[s + 1], n, draws)
    {
      assert IsMove(states[s], states[s + 1], n, draws);
    }
  }

  lemma MovesMore(states: seq<State>, a: State, b: State, n: nat, draws: seq<real>, r: Repair)
    requires AreMoves(states, b, n, draws, r) && IsMove(a, b, n, draws)
    ensures AreMoves([a] + states, a, n, draws, r.Plus(1))
  {
    hide IsMove, IsEnd;
    var all := [a] + states;
    forall s | 0 <= s <= r.nsplit
      ensures IsMove(all[s], all[s + 1], n, draws)
    {
      if s > 0 {
        assert all[s] == states[s - 1] && all[s + 1] == states[s];
      }
    }
  }

  lemma DonorMoves(h: seq<real>, cs: seq<Row>, n: nat, draws: seq<real>, from: nat, ci: nat)
    requires 0 < |h| == |cs| < n && from <= |draws| && ci < |h| && NonNegative(draws) && h[ci] == 0.0
    requires DonorFrom(h, n, draws, from, from).Some?
    ensures var x := DonorFrom(h, n, draws, from, from).value; var cj := (x - from) % |h|;
      IsMove(State(h, cs, from, ci), State(SplitMass(h, ci, cj), SplitRows(cs, ci, cj), x + 1, ci + 1), n, draws)
  {
    hide SplitMass, SplitRows, DonorFrom, IsSplit;
    var x := DonorFrom(h, n, draws, from, from).value;
    var cj := (x - from) % |h|;
    DonorIsFirst(h, n, draws, from, from);
    PickedIsLarge(h, cj, n, draws[x]);
    SplitInNumbers(h, cs, ci, cj);
  }

  lemma StuckIsEnd(h: seq<real>, cs: seq<Row>, n: nat, draws: seq<real>, from: nat, ci: nat)
    requires 0 < |h| == |cs| < n && from <= |draws| && ci < |h| && h[ci] == 0.0
    requires DonorFrom(h, n, draws, from, from).None?
    ensures AreMoves([State(h, cs, from, ci)], State(h, cs, from, ci), n, draws, Repair(h, cs, 0, false))
  {
    DonorIsFirst(h, n, draws, from, from);
  }

  /** A run is a chain of moves. */
  lemma {:induction false} RunIsMoves(h: seq<real>, cs: seq<Row>, n: nat, draws: seq<real>, from: nat, ci: nat)
    returns (states: seq<State>)
    requires |h| == |cs| < n && from <= |draws| && ci <= |h| && NonNegative(draws)
    ensures AreMoves(states, State(h, cs, from, ci), n, draws, SplitRun(h, cs, n, draws, from, ci))
    decreases |h| - ci
  {
    var first := State(h, cs, from, ci);
    if ci == |h| {
      states := [first];
    } else if h[ci] != 0.0 {
      hide AreMoves;
      states := RunIsMoves(h, cs, n, draws, from, ci + 1);
      MovesEarlier(states, first, n, draws, SplitRun(h, cs, n, draws, from, ci));
      states := [first] + states[1..];
    } else {
      hide SplitMass, SplitRows, DonorFrom, AreMoves, IsMove, PickChance;
      var donor := DonorFrom(h, n, draws, from, from);
      if donor.None? {
        StuckIsEnd(h, cs, n, draws, from, ci);
        states := [first];
      } else {
        DonorMoves(h, cs, n, draws, from, ci);
        var cj := (donor.value - from) % |h|;
        var next := State(SplitMass(h, ci, cj), SplitRows(cs, ci, cj), donor.value + 1, ci + 1);
        states := RunIsMoves(next.h, next.cs, n, draws, next.from, next.ci);
        MovesMore(states, first, next, n, draws, SplitRun(next.h, next.cs, n, draws, next.from, next.ci));
        states := [first] + states;
      }
    }
  }

  /** The loop over the clusters. */
  method SplitEach(d: nat, n: nat, hassign: array<real>, centroids: array<Row>, draws: seq<real>)
    returns (nsplit: nat, done: bool)
    requires hassign.Length == centroids.Length < n && AllRows(centroids[..], d)
    requires forall i :: 0 <= i < |draws| ==> 0.0 <= draws[i]
    modifies hassign, centroids
    ensures Repair(hassign[..], centroids[..], nsplit, done)
      == SplitRun(old(hassign[..]), old(centroids[..]), n, draws, 0, 0)
    ensures AllRows(centroids[..], d)
    ensures Total(hassign[..]) == Total(old(hassign[..]))
    ensures forall j: nat :: j < d ==>
      Moment(hassign[..], centroids[..], j) == Moment(old(hassign[..]), old(centroids[..]), j)
    ensures done ==> nsplit == Zeros(old(hassign[..]))
    ensures done ==> IsRepaired(old(hassign[..]), hassign[..], hassign.Length)
    ensures !done ==> exists c :: 0 <= c < hassign.Length && hassign[c] == 0.0
  {
    hide Moment, Total, SplitMass, SplitRows, PickChance, DonorFrom, IsSplit;
    var k, next := hassign.Length, 0;
    ghost var h0, cs0 := hassign[..], centroids[..];
    nsplit := 0;
    RepairStart(h0);
    assert h0[..0] == [];
    hide IsRepaired;
    for ci := 0 to k
      invariant 0 <= next <= |draws|
      invariant AllRows(centroids[..], d) && Total(hassign[..]) == Total(h0)
      invariant forall j: nat :: j < d ==> Moment(hassign[..], centroids[..], j) == Moment(h0, cs0, j)
      invariant IsRepaired(h0, hassign[..], ci) && nsplit == Zeros(h0[..ci])
      invariant SplitRun(h0, cs0, n, draws, 0, 0)
        == SplitRun(hassign[..], centroids[..], n, draws, next, ci).Plus(nsplit)
    {
      assert h0[..ci + 1][..ci] == h0[..ci];
      RepairSkip(h0, hassign[..], ci);
      if hassign[ci] == 0.0 {
        var found, cj;
        found, cj, next := FindDonor(hassign, n, draws, next);
        if !found {
          return nsplit, false;
        }
        PickedIsLarge(hassign[..], cj, n, draws[next - 1]);
        SplitConserves(hassign[..], centroids[..], ci, cj, d);
        RepairStep(h0, hassign[..], ci, cj);
        SplitOne(hassign, centroids, ci, cj);
        nsplit := nsplit + 1;
      }
    }
    assert h0[..k] == h0;
    done := true;
  }

  /**
   split_clusters. `done` is false when the draws run out while a donor is looked for. Whatever
   the draws, mass and moment are conserved; when done, no cluster is empty.
   */
  method SplitClusters(d: nat, n: nat, hassign: array<real>, centroids: array<Row>, draws: seq<real>)
    returns (nsplit: nat, done: bool)
    requires hassign.Length == centroids.Length < n && AllRows(centroids[..], d)
    requires forall i :: 0 <= i < |draws| ==> 0.0 <= draws[i]
    modifies hassign, centroids
    ensures Repair(hassign[..], centroids[..], nsplit, done)
      == SplitRun(old(hassign[..]), old(centroids[..]), n, draws, 0, 0)
    ensures exists states :: AreMoves(states, State(old(hassign[..]), old(centroids[..]), 0, 0), n, draws,
                                      Repair(hassign[..], centroids[..], nsplit, done))
    ensures AllRows(centroids[..], d)
    ensures Total(hassign[..]) == Total(old(hassign[..]))
    ensures forall j: nat :: j < d ==>
      Moment(hassign[..], centroids[..], j) == Moment(old(hassign[..]), old(centroids[..]), j)
    ensures done ==> nsplit == Zeros(old(hassign[..])) == |EmptyOf(old(hassign[..]))|
    ensures done ==> IsRepaired(old(hassign[..]), hassign[..], hassign.Length)
    ensures !done ==> exists c :: 0 <= c < hassign.Length && hassign[c] == 0.0
  {
    hide Moment, Total, SplitRun, AreMoves, IsRepaired, EmptyOf, Zeros;
    ghost var states := RunIsMoves(hassign[..], centroids[..], n, draws, 0, 0);
    ZerosCount(hassign[..]);
    nsplit, done := SplitEach(d, n, hassign, centroids, draws);
  }

  /** The copy, the perturbation and the even split of one donor. */
  method SplitOne(hassign: array<real>, centroids: array<Row>, ci: nat, cj: nat)
    requires hassign.Length == centroids.Length && ci < hassign.Length && cj < hassign.Length && ci != cj
    modifies hassign, centroids
    ensures IsSplit(old(hassign[..]), old(centroids[..]), hassign[..], centroids[..], ci, cj)
    ensures hassign[..] == SplitMass(old(hassign[..]), ci, cj)
    ensures centroids[..] == SplitRows(old(centroids[..]), ci, cj)
  {
    centroids[ci] := centroids[cj];
    centroids[ci] := Perturbed(centroids[ci], EPS);
    centroids[cj] := Perturbed(centroids[cj], -EPS);
    hassign[ci] := hassign[cj] / 2.0;
    hassign[cj] := hassign[cj] - hassign[ci];
  }

  // ---------- when the repair can end ----------

  /** How often a cluster of mass m can be split, together with its halves. */
  function Splits(m: real): nat
    decreases if m <= 1.0 then 0 else m.Floor
  {
    if m <= 1.0 then 0 else 1 + 2 * Splits(m / 2.0)
  }

  /** How often the clusters can be split in all. */
  function Potential(h: seq<real>): nat {
    if h == [] then 0 else Potential(h[..|h| - 1]) + Splits(h[|h| - 1])
  }

  lemma {:induction false} PotentialUpdate(h: seq<real>, i: nat, v: real)
    requires i < |h|
    ensures Potential(h[i := v]) + Splits(h[i]) == Potential(h) + Splits(v)
  {
    hide Splits;
    var n := |h| - 1;
    if i == n {
      assert h[i := v][..n] == h[..n];
    } else {
      assert h[i := v][..n] == h[..n][i := v];
      PotentialUpdate(h[..n], i, v);
    }
  }

  /** Every split uses up one, whichever donor is picked. */
  lemma SplitLowersPotential(h: seq<real>, ci: nat, cj: nat)
    requires ci < |h| && cj < |h| && h[ci] == 0.0 && h[cj] > 1.0
    ensures Potential(SplitMass(h, ci, cj)) + 1 == Potential(h)
  {
    var half := h[cj] / 2.0;
    assert SplitMass(h, ci, cj) == h[ci := half][cj := half];
    PotentialUpdate(h, ci, half);
    PotentialUpdate(h[ci := half], cj, half);
  }

  /** A donor exists exactly while there is potential left. */
  lemma {:induction false} DonorExists(h: seq<real>)
    ensures Potential(h) > 0 <==> exists c :: 0 <= c < |h| && h[c] > 1.0
  {
    if h != [] {
      var n := |h| - 1;
      DonorExists(h[..n]);
      if Potential(h[..n]) > 0 {
        var c :| 0 <= c < n && h[..n][c] > 1.0;
        assert h[c] > 1.0;
      }
      if Potential(h) == 0 {
        forall c | 0 <= c < |h|
          ensures h[c] <= 1.0
        {
          assert c < n ==> h[..n][c] == h[c];
        }
      }
    }
  }

  /** The empty clusters from ci on. */
  function ZerosFrom(h: seq<real>, ci: nat): nat
    requires ci <= |h|
    decreases |h| - ci
  {
    if ci == |h| then 0 else ZerosFrom(h, ci + 1) + if h[ci] == 0.0 then 1 else 0
  }

  lemma {:induction false} ZerosSame(h: seq<real>, r: seq<real>, ci: nat)
    requires ci <= |h| == |r| && forall c :: ci <= c < |h| ==> (h[c] == 0.0 <==> r[c] == 0.0)
    ensures ZerosFrom(h, ci) == ZerosFrom(r, ci)
    decreases |h| - ci
  {
    if ci < |h| {
      ZerosSame(h, r, ci + 1);
    }
  }

  lemma {:induction false} ZerosSplit(h: seq<real>, ci: nat)
    requires ci <= |h|
    ensures Zeros(h[..ci]) + ZerosFrom(h, ci) == Zeros(h)
    decreases |h| - ci
  {
    if ci == |h| {
      assert h[..ci] == h;
    } else {
      ZerosSplit(h, ci + 1);
      assert h[..ci + 1][..ci] == h[..ci];
    }
  }

  lemma SplitKeepsZeros(h: seq<real>, ci: nat, cj: nat)
    requires ci < |h| && cj < |h| && h[ci] == 0.0 && h[cj] > 1.0
    ensures ZerosFrom(SplitMass(h, ci, cj), ci + 1) == ZerosFrom(h, ci + 1)
  {
    var r := SplitMass(h, ci, cj);
    assert r[cj] == h[cj] / 2.0;
    ZerosSame(h, r, ci + 1);
  }

  /** A run splits once for every unit of potential it uses, and ends exactly when it reached all empty clusters. */
  lemma {:induction false} RunUsesPotential(h: seq<real>, cs: seq<Row>, n: nat, draws: seq<real>, from: nat, ci: nat)
    requires |h| == |cs| < n && from <= |draws| && ci <= |h| && NonNegative(draws)
    ensures var r := SplitRun(h, cs, n, draws, from, ci);
      && Potential(r.h) + r.nsplit == Potential(h)
      && r.nsplit <= ZerosFrom(h, ci) && (r.done <==> r.nsplit == ZerosFrom(h, ci))
    decreases |h| - ci
  {
    hide Potential, SplitMass, SplitRows, PickChance, DonorFrom;
    if ci < |h| {
      if h[ci] != 0.0 {
        RunUsesPotential(h, cs, n, draws, from, ci + 1);
      } else {
        var donor := DonorFrom(h, n, draws, from, from);
        if donor.Some? {
          var cj := (donor.value - from) % |h|;
          PickedIsLarge(h, cj, n, draws[donor.value]);
          SplitLowersPotential(h, ci, cj);
          SplitKeepsZeros(h, ci, cj);
          RunUsesPotential(SplitMass(h, ci, cj), SplitRows(cs, ci, cj), n, draws, donor.value + 1, ci + 1);
        }
      }
    }
  }

  /** A round of zero draws finds a donor if there is one. */
  lemma ZeroRoundFinds(h: seq<real>, n: nat, draws: seq<real>, from: nat)
    requires 0 < |h| < n && Potential(h) > 0
    requires from + |h| <= |draws| && forall i :: from <= i < |draws| ==> draws[i] == 0.0
    ensures var donor := DonorFrom(h, n, draws, from, from); donor.Some? && donor.value < from + |h|
  {
    DonorExists(h);
    var c :| 0 <= c < |h| && h[c] > 1.0;
    LargeCanBePicked(h, c, n);
    SmallMod(c, |h|);
    DonorIsFirst(h, n, draws, from, from);
    assert draws[from + c] < PickChance(h, (from + c - from) % |h|, n);
  }

  /** A round of zero draws for every empty cluster ends the repair if there is potential for all of them. */
  lemma {:induction false} ZeroDrawsFinish(h: seq<real>, cs: seq<Row>, n: nat, draws: seq<real>, from: nat, ci: nat)
    requires |h| == |cs| < n && ci <= |h| && from + ZerosFrom(h, ci) * |h| <= |draws|
    requires forall i :: 0 <= i < |draws| ==> draws[i] == 0.0
    requires Potential(h) >= ZerosFrom(h, ci)
    ensures SplitRun(h, cs, n, draws, from, ci).done
    decreases |h| - ci
  {
    hide Potential, SplitMass, SplitRows, PickChance, DonorFrom;
    if ci < |h| {
      if h[ci] != 0.0 {
        ZeroDrawsFinish(h, cs, n, draws, from, ci + 1);
      } else {
        assert ZerosFrom(h, ci) * |h| == ZerosFrom(h, ci + 1) * |h| + |h|;
        ZeroRoundFinds(h, n, draws, from);
        var donor := DonorFrom(h, n, draws, from, from);
        var cj := (donor.value - from) % |h|;
        PickedIsLarge(h, cj, n, draws[donor.value]);
        SplitLowersPotential(h, ci, cj);
        SplitKeepsZeros(h, ci, cj);
        ZeroDrawsFinish(SplitMass(h, ci, cj), SplitRows(cs, ci, cj), n, draws, donor.value + 1, ci + 1);
      }
    }
  }

  /** Some sequence of draws ends the repair. */
  ghost predicate CanFinish(h: seq<real>, cs: seq<Row>, n: nat)
    requires |h| == |cs| < n
  {
    exists draws: seq<real> :: NonNegative(draws) && SplitRun(h, cs, n, draws, 0, 0).done
  }

  /** The exact condition: the repair can end if and only if there is potential for every empty cluster. */
  lemma RepairCondition(h: seq<real>, cs: seq<Row>, n: nat)
    requires |h| == |cs| < n
    ensures CanFinish(h, cs, n) <==> Potential(h) >= Zeros(h)
  {
    hide Potential, SplitRun;
    ZerosSplit(h, 0);
    assert h[..0] == [];
    if CanFinish(h, cs, n) {
      var draws :| NonNegative(draws) && SplitRun(h, cs, n, draws, 0, 0).done;
      RunUsesPotential(h, cs, n, draws, 0, 0);
    }
    if Potential(h) >= Zeros(h) {
      var draws := seq(ZerosFrom(h, 0) * |h|, i => 0.0);
      ZeroDrawsFinish(h, cs, n, draws, 0, 0);
      assert NonNegative(draws);
    }
  }

  /** With potential for every empty cluster no draws lead into a dead end: a donor is there whenever one is sought. */
  lemma NeverStuck(h: seq<real>, cs: seq<Row>, n: nat, draws: seq<real>)
    requires |h| == |cs| < n && NonNegative(draws) && Potential(h) >= Zeros(h)
    ensures var r := SplitRun(h, cs, n, draws, 0, 0); !r.done ==> exists c :: 0 <= c < |r.h| && r.h[c] > 1.0
  {
    hide Potential, SplitRun;
    ZerosSplit(h, 0);
    assert h[..0] == [];
    RunUsesPotential(h, cs, n, draws, 0, 0);
    DonorExists(SplitRun(h, cs, n, draws, 0, 0).h);
  }

  lemma {:induction false} SplitsBound(m: real)
    ensures Splits(m) as real >= m - 1.0
    decreases if m <= 1.0 then 0 else m.Floor
  {
    if m > 1.0 {
      SplitsBound(m / 2.0);
    }
  }

  /** A unit of mass per cluster is enough, however it is spread. */
  lemma {:induction false} EnoughMass(h: seq<real>)
    ensures (Potential(h) - Zeros(h)) as real >= Total(h) - |h| as real
  {
    if h != [] {
      EnoughMass(h[..|h| - 1]);
      SplitsBound(h[|h| - 1]);
    }
  }

  // ---------- one k-means update ----------

  lemma {:induction false} UnitMass(t: Training, c: nat, m: nat)
    requires t.Valid() && m <= |t.x| && t.weights.None?
    ensures t.Mass(c, m) == 0.0 || t.Mass(c, m) >= 1.0
  {
    if m > 0 {
      UnitMass(t, c, m - 1);
    }
  }

  lemma {:induction false} AllPointsCount(t: Training, m: nat)
    requires t.Valid() && m <= |t.x| && t.weights.None? && t.kFrozen == 0
    ensures PointMass(t, m) == m as real
  {
    if m > 0 {
      AllPointsCount(t, m - 1);
    }
  }

  /** The clusters without points. */
  ghost function EmptyClusters(t: Training, c: nat): nat
    requires t.Valid()
  {
    if c == 0 then 0 else EmptyClusters(t, c - 1) + if t.Mass(c - 1, |t.x|) == 0.0 then 1 else 0
  }

  lemma {:induction false} ZerosAreEmpty(t: Training, h: seq<real>)
    requires t.Valid() && forall c :: 0 <= c < |h| ==> h[c] == t.Mass(c, |t.x|)
    ensures Zeros(h) == EmptyClusters(t, |h|)
  {
    if h != [] {
      ZerosAreEmpty(t, h[..|h| - 1]);
    }
  }

  /** What compute_centroids leaves. */
  ghost function Masses(t: Training): (h: seq<real>)
    requires t.Valid()
    ensures |h| == t.k - t.kFrozen
  {
    seq(t.k - t.kFrozen, c requires 0 <= c => t.Mass(c, |t.x|))
  }

  ghost function Means(t: Training): (cs: seq<Row>)
    requires t.Valid()
    ensures |cs| == t.k - t.kFrozen
  {
    seq(t.k - t.kFrozen, c requires 0 <= c => Mean(t, c))
  }

  /**
   After an update the repair can end exactly when there is potential for every empty cluster;
   with unit weights, more points than centroids and none of them frozen, there always is.
   */
  lemma UpdateCanFinish(t: Training)
    requires t.Valid() && t.k < |t.x|
    ensures CanFinish(Masses(t), Means(t), |t.x|) <==> Potential(Masses(t)) >= EmptyClusters(t, t.k - t.kFrozen)
    ensures t.weights.None? && t.kFrozen == 0 ==> CanFinish(Masses(t), Means(t), |t.x|)
  {
    hide Potential, CanFinish, Mean, Training.Mass;
    var h, cs := Masses(t), Means(t);
    RepairCondition(h, cs, |t.x|);
    ZerosAreEmpty(t, h);
    if t.weights.None? && t.kFrozen == 0 {
      assert AreMeans(t, h, cs);
      MeansMass(t, h, cs);
      AllPointsCount(t, |t.x|);
      EnoughMass(h);
    }
  }

  /** Three unit points on a frozen centroid leave the other cluster empty for ever: no draws end the repair. */
  lemma FrozenNeverFinishes()
    ensures var t := Training(1, 2, 1, [[0.0], [0.0], [0.0]], [0, 0, 0], None);
      t.Valid() && t.k < |t.x| && !CanFinish(Masses(t), Means(t), |t.x|)
  {
    hide CanFinish;
    var t := Training(1, 2, 1, [[0.0], [0.0], [0.0]], [0, 0, 0], None);
    assert t.Mass(0, 1) == 0.0 && t.Mass(0, 2) == 0.0 && t.Mass(0, 3) == 0.0;
    assert Masses(t) == [0.0];
    assert [0.0][..0] == [] && Potential([0.0]) == 0;
    UpdateCanFinish(t);
    assert EmptyClusters(t, 0) == 0;
  }

  /**
   compute_centroids followed by split_clusters, as one training iteration runs them on more
   points than centroids. With unit weights and no frozen centroid there is a donor whenever one
   is looked for.
   */
  method UpdateCentroids(t: Training, nt: nat, hassign: array<real>, centroids: array<Row>, draws: seq<real>)
    returns (nsplit: nat, done: bool)
    requires t.Valid() && nt > 0 && t.k < |t.x|
    requires hassign.Length == centroids.Length == t.k - t.kFrozen
    requires forall c :: 0 <= c < hassign.Length ==> hassign[c] == 0.0
    requires forall i :: 0 <= i < |draws| ==> 0.0 <= draws[i]
    modifies hassign, centroids
    ensures Repair(hassign[..], centroids[..], nsplit, done) == SplitRun(Masses(t), Means(t), |t.x|, draws, 0, 0)
    ensures exists states :: AreMoves(states, State(Masses(t), Means(t), 0, 0), |t.x|, draws,
                                      Repair(hassign[..], centroids[..], nsplit, done))
    ensures done ==> Potential(Masses(t)) >= EmptyClusters(t, hassign.Length)
    ensures AllRows(centroids[..], t.d) && Total(hassign[..]) == PointMass(t, |t.x|)
    ensures t.weights.None? || (forall i :: 0 <= i < |t.x| ==> t.weights.value[i] >= 0.0) ==>
      forall j: nat :: j < t.d ==> Moment(hassign[..], centroids[..], j) == PointMoment(t, |t.x|, j)
    ensures done ==> nsplit == EmptyClusters(t, hassign.Length)
    ensures done ==> forall c :: 0 <= c < hassign.Length ==> hassign[c] != 0.0
    ensures done && t.weights.None? ==> forall c :: 0 <= c < hassign.Length ==> hassign[c] > 0.5
    ensures t.weights.None? && t.kFrozen == 0 ==> exists c :: 0 <= c < hassign.Length && hassign[c] > 1.0
  {
    hide Moment, PointMoment, Training.Mass, Training.Sum, Mean, Lost, Potential, SplitRun, AreMoves;
    hide EmptyOf, Zeros, Total, PointMass;
    ComputeCentroids(t, nt, hassign, centroids);
    ghost var h, cs := hassign[..], centroids[..];
    assert AreMeans(t, h, cs);
    assert h == Masses(t) && cs == Means(t);
    MeansAreRows(t, h, cs);
    ZerosAreEmpty(t, h);
    MeansMass(t, h, cs);
    if t.weights.None? || (forall i :: 0 <= i < |t.x| ==> t.weights.value[i] >= 0.0) {
      MeansMoment(t, h, cs);
    }
    nsplit, done := SplitClusters(t.d, |t.x|, hassign, centroids, draws);
    if done {
      assert NonNegative(draws) && CanFinish(h, cs, |t.x|);
      UpdateCanFinish(t);
    }
    if done && t.weights.None? {
      UnitRepaired(t, h, hassign[..]);
    }
    if t.weights.None? && t.kFrozen == 0 {
      AllPointsCount(t, |t.x|);
      SomeLarge(hassign[..]);
    }
  }

  lemma UnitRepaired(t: Training, h: seq<real>, r: seq<real>)
    requires t.Valid() && t.weights.None? && h == Masses(t) && IsRepaired(h, r, |r|)
    ensures forall c :: 0 <= c < |r| ==> r[c] > 0.5
  {
    hide Training.Mass;
    forall c | 0 <= c < |h|
      ensures h[c] == 0.0 || h[c] > 0.5
    {
      UnitMass(t, c, |t.x|);
    }
  }

  lemma MeansMass(t: Training, h: seq<real>, cs: seq<Row>)
    requires t.Valid() && AreMeans(t, h, cs) && |h| == t.k - t.kFrozen
    ensures Total(h) == PointMass(t, |t.x|)
  {
    MassByClusters(t, h);
    ClustersHoldMass(t, |t.x|);
  }

  lemma MeansMoment(t: Training, h: seq<real>, cs: seq<Row>)
    requires t.Valid() && AreMeans(t, h, cs) && |h| == t.k - t.kFrozen && AllRows(cs, t.d)
    requires t.weights.Some? ==> forall i :: 0 <= i < |t.x| ==> t.weights.value[i] >= 0.0
    ensures forall j: nat :: j < t.d ==> Moment(h, cs, j) == PointMoment(t, |t.x|, j)
  {
    forall j: nat | j < t.d
      ensures Moment(h, cs, j) == PointMoment(t, |t.x|, j)
    {
      UpdateConserves(t, h, cs, j);
      NothingLost(t, t.k - t.kFrozen, j);
    }
  }
}
