/**
 Skipping experiments on the strength of bounds (ParameterSpace::explore in
 include/faiss/AutoTune.cpp): when a pruned run loses nothing of what running every combination
 would have found. Running a combination gives a performance and a time, here fixed functions of
 its number.
 */
module Pruning {
  import opened MixedRadix
  import opened Multisets
  import opened OperatingPoints
  import opened Shuffle
  import opened Wrappers

  // ---------- measurements ----------

  /** What running each combination gives. */
  datatype Lab = Lab(perf: nat -> real, time: nat -> real, name: nat -> string) {
    function Measure(cno: nat): OperatingPoint {
      OperatingPoint(perf(cno), time(cno), name(cno), cno)
    }

    function MeasureAll(cnos: seq<nat>): (r: seq<OperatingPoint>)
      ensures |r| == |cnos|
    {
      seq(|cnos|, i requires 0 <= i < |cnos| => Measure(cnos[i]))
    }
  }

  /** Greater parameters are slower and perform at least as well, with performances from 0 to 1. */
  ghost predicate IsMonotone(lab: Lab, ranges: seq<nat>)
    requires AllPositive(ranges)
  {
    && (forall c: nat :: c < Combinations(ranges) ==> 0.0 <= lab.perf(c) <= 1.0)
    && (forall c1: nat, c2: nat :: c1 < Combinations(ranges) && c2 < Combinations(ranges) && Ge(ranges, c1, c2) ==>
          lab.perf(c1) >= lab.perf(c2) && lab.time(c1) >= lab.time(c2))
  }

  ghost predicate NonNegativeTimes(lab: Lab) {
    forall c: nat :: lab.time(c) >= 0.0
  }

  /** No run takes as long as the answer for a performance that is not reached. */
  ghost predicate TimesInRange(lab: Lab, n: nat) {
    NonNegativeTimes(lab) && forall c: nat :: c < n ==> lab.time(c) < NO_TIME
  }

  /** The point is a measurement of a combination of the space. */
  ghost predicate IsMeasured(op: OperatingPoint, lab: Lab, n: nat) {
    0 <= op.cno < n && op.perf == lab.perf(op.cno) && op.t == lab.time(op.cno)
  }

  ghost predicate AreMeasured(pts: seq<OperatingPoint>, lab: Lab, n: nat) {
    forall i :: 0 <= i < |pts| ==> IsMeasured(pts[i], lab, n)
  }

  /** The bounds that recorded points put on combination cno, starting from 1 and 0. */
  function UpperPerf(pts: seq<OperatingPoint>, ranges: seq<nat>, cno: nat): real
    requires AllPositive(ranges) && forall i :: 0 <= i < |pts| ==> pts[i].cno >= 0
    decreases |pts|
  {
    if pts == [] then 1.0
    else
      var op, u := pts[|pts| - 1], UpperPerf(pts[..|pts| - 1], ranges, cno);
      if Ge(ranges, op.cno, cno) && op.perf < u then op.perf else u
  }

  function LowerTime(pts: seq<OperatingPoint>, ranges: seq<nat>, cno: nat): real
    requires AllPositive(ranges) && forall i :: 0 <= i < |pts| ==> pts[i].cno >= 0
    decreases |pts|
  {
    if pts == [] then 0.0
    else
      var op, l := pts[|pts| - 1], LowerTime(pts[..|pts| - 1], ranges, cno);
      if Ge(ranges, cno, op.cno) && op.t > l then op.t else l
  }

  /** A combination is skipped when a point at least as good as it can be is no slower than it must be. */
  ghost predicate Skips(pts: seq<OperatingPoint>, ranges: seq<nat>, cno: nat)
    requires AllPositive(ranges) && forall i :: 0 <= i < |pts| ==> pts[i].cno >= 0
  {
    Best([NOTHING] + pts, UpperPerf(pts, ranges, cno)).OrNoTime() <= LowerTime(pts, ranges, cno)
  }

  // ---------- when a skip loses nothing ----------

  /** x is at least as good and as fast as y. */
  predicate AsGood(x: OperatingPoint, y: OperatingPoint) {
    x.perf >= y.perf && x.t <= y.t
  }

  /** The measurement of a combination, or doing nothing. */
  function PointOf(lab: Lab, a: Option<nat>): OperatingPoint {
    if a.Some? then lab.Measure(a.value) else NOTHING
  }

  /** The bounds that a greater combination puts on the performance and a smaller one on the time. */
  function PerfBound(lab: Lab, hi: Option<nat>): real {
    if hi.Some? && lab.perf(hi.value) < 1.0 then lab.perf(hi.value) else 1.0
  }

  function TimeBound(lab: Lab, lo: Option<nat>): real {
    if lo.Some? && lab.time(lo.value) > 0.0 then lab.time(lo.value) else 0.0
  }

  predicate Within(a: Option<nat>, n: nat) {
    a.Some? ==> a.value < n
  }

  /** Once a, hi and lo have been run, combination c looks pointless. */
  predicate LooksPointless(lab: Lab, ranges: seq<nat>, c: nat, a: Option<nat>, hi: Option<nat>, lo: Option<nat>)
    requires AllPositive(ranges)
  {
    var n := Combinations(ranges);
    && c < n && Within(a, n) && Within(hi, n) && Within(lo, n)
    && (hi.Some? ==> Ge(ranges, hi.value, c)) && (lo.Some? ==> Ge(ranges, c, lo.value))
    && PointOf(lab, a).perf >= PerfBound(lab, hi) && PointOf(lab, a).t <= TimeBound(lab, lo)
  }

  /**
   What a table of all measurements has to satisfy: a combination that looks pointless for three
   others, any of them possibly absent, is beaten by one of the three or by doing nothing.
   */
  ghost predicate SkipsAreSafe(lab: Lab, ranges: seq<nat>)
    requires AllPositive(ranges)
  {
    forall c: nat, a: Option<nat>, hi: Option<nat>, lo: Option<nat> :: LooksPointless(lab, ranges, c, a, hi, lo) ==>
      IsBeaten(lab, a, hi, lo, lab.Measure(c))
  }

  /** Doing nothing or one of three combinations is at least as good. */
  predicate IsBeaten(lab: Lab, a: Option<nat>, hi: Option<nat>, lo: Option<nat>, op: OperatingPoint) {
    || AsGood(NOTHING, op) || AsGood(PointOf(lab, a), op)
    || AsGood(PointOf(lab, hi), op) || AsGood(PointOf(lab, lo), op)
  }

  /** Whatever has been measured, a combination that is skipped is one the recorded points beat. */
  ghost predicate EverySkipIsCovered(lab: Lab, ranges: seq<nat>)
    requires AllPositive(ranges)
  {
    forall pts: seq<OperatingPoint>, cno: nat ::
      AreMeasured(pts, lab, Combinations(ranges)) && cno < Combinations(ranges) && Skips(pts, ranges, cno) ==>
        Covers([NOTHING] + pts, lab.Measure(cno))
  }

  ghost predicate IsRecorded(pts: seq<OperatingPoint>, a: Option<nat>) {
    a.Some? ==> exists i :: 0 <= i < |pts| && pts[i].cno == a.value
  }

  lemma NothingIsRecorded(pts: seq<OperatingPoint>)
    ensures IsRecorded(pts, None)
  {
  }

  lemma RecordedMore(pts: seq<OperatingPoint>, op: OperatingPoint, a: Option<nat>)
    requires IsRecorded(pts, a)
    ensures IsRecorded(pts + [op], a)
  {
    if a.Some? {
      var i :| 0 <= i < |pts| && pts[i].cno == a.value;
      assert (pts + [op])[i].cno == a.value;
    }
  }

  /** Each bound comes from a recorded combination, or is the initial one. */
  lemma {:induction false} BoundsAttained(pts: seq<OperatingPoint>, lab: Lab, ranges: seq<nat>, cno: nat)
    returns (hi: Option<nat>, lo: Option<nat>)
    requires AllPositive(ranges) && AreMeasured(pts, lab, Combinations(ranges))
    ensures IsRecorded(pts, hi) && IsRecorded(pts, lo)
    ensures Within(hi, Combinations(ranges)) && Within(lo, Combinations(ranges))
    ensures (hi.Some? ==> Ge(ranges, hi.value, cno)) && (lo.Some? ==> Ge(ranges, cno, lo.value))
    ensures UpperPerf(pts, ranges, cno) == PerfBound(lab, hi) && LowerTime(pts, ranges, cno) == TimeBound(lab, lo)
    decreases |pts|
  {
    hide Ge, Combinations;
    if pts == [] {
      hi, lo := None, None;
    } else {
      var n := |pts| - 1;
      var front, op := pts[..n], pts[n];
      assert IsMeasured(op, lab, Combinations(ranges));
      hi, lo := BoundsAttained(front, lab, ranges, cno);
      assert front + [op] == pts;
      RecordedMore(front, op, hi);
      RecordedMore(front, op, lo);
      assert pts[n].cno == op.cno;
      if Ge(ranges, op.cno, cno) && op.perf < UpperPerf(front, ranges, cno) {
        hi := Some(op.cno);
      }
      if Ge(ranges, cno, op.cno) && op.t > LowerTime(front, ranges, cno) {
        lo := Some(op.cno);
      }
    }
  }

  /** A recorded combination that is as good covers the point. */
  lemma RecordedCovers(pts: seq<OperatingPoint>, lab: Lab, n: nat, a: Option<nat>, op: OperatingPoint)
    requires AreMeasured(pts, lab, n) && IsRecorded(pts, a) && AsGood(PointOf(lab, a), op)
    ensures Covers([NOTHING] + pts, op)
  {
    var choices := [NOTHING] + pts;
    if a.None? {
      assert choices[0] == NOTHING;
    } else {
      var i :| 0 <= i < |pts| && pts[i].cno == a.value;
      assert IsMeasured(pts[i], lab, n) && choices[i + 1] == pts[i];
    }
  }

  /** The best time, when some point reaches the performance, is that of a recorded combination. */
  lemma BestAttained(pts: seq<OperatingPoint>, lab: Lab, n: nat, perf: real) returns (a: Option<nat>)
    requires AreMeasured(pts, lab, n) && Best([NOTHING] + pts, perf).At?
    ensures IsRecorded(pts, a) && Within(a, n)
    ensures PointOf(lab, a).perf >= perf && PointOf(lab, a).t == Best([NOTHING] + pts, perf).t
  {
    var choices := [NOTHING] + pts;
    BestIsBest(choices, perf);
    var i :| 0 <= i < |choices| && choices[i].perf >= perf && choices[i].t == Best(choices, perf).t;
    if i == 0 {
      a := None;
    } else {
      assert choices[i] == pts[i - 1] && IsMeasured(pts[i - 1], lab, n);
      a := Some(pts[i - 1].cno);
    }
  }

  lemma LowerTimeInRange(lab: Lab, n: nat, lo: Option<nat>)
    requires TimesInRange(lab, n) && Within(lo, n)
    ensures TimeBound(lab, lo) < NO_TIME
  {
  }

  /** In a safe space a skipped combination is beaten by the recorded points. */
  lemma SafeSkipIsCovered(pts: seq<OperatingPoint>, lab: Lab, ranges: seq<nat>, cno: nat)
    requires AllPositive(ranges) && TimesInRange(lab, Combinations(ranges)) && SkipsAreSafe(lab, ranges)
    requires AreMeasured(pts, lab, Combinations(ranges)) && cno < Combinations(ranges) && Skips(pts, ranges, cno)
    ensures Covers([NOTHING] + pts, lab.Measure(cno))
  {
    hide Ge, Combinations, Best, UpperPerf, LowerTime, TimesInRange, IsRecorded, Covers;
    var n, op := Combinations(ranges), lab.Measure(cno);
    var hi, lo := BoundsAttained(pts, lab, ranges, cno);
    LowerTimeInRange(lab, n, lo);
    var a := BestAttained(pts, lab, n, UpperPerf(pts, ranges, cno));
    assert LooksPointless(lab, ranges, cno, a, hi, lo);
    NothingIsRecorded(pts);
    if AsGood(NOTHING, op) {
      RecordedCovers(pts, lab, n, None, op);
    } else if AsGood(PointOf(lab, a), op) {
      RecordedCovers(pts, lab, n, a, op);
    } else if AsGood(PointOf(lab, hi), op) {
      RecordedCovers(pts, lab, n, hi, op);
    } else {
      RecordedCovers(pts, lab, n, lo, op);
    }
  }

  function Listed(lab: Lab, a: Option<nat>): seq<OperatingPoint> {
    if a.Some? then [lab.Measure(a.value)] else []
  }

  /** A recorded point bounds what it is comparable with. */
  lemma {:induction false} BoundsReach(pts: seq<OperatingPoint>, ranges: seq<nat>, cno: nat, i: nat)
    requires AllPositive(ranges) && (forall i :: 0 <= i < |pts| ==> pts[i].cno >= 0) && i < |pts|
    ensures Ge(ranges, pts[i].cno, cno) ==> UpperPerf(pts, ranges, cno) <= pts[i].perf
    ensures Ge(ranges, cno, pts[i].cno) ==> LowerTime(pts, ranges, cno) >= pts[i].t
    decreases |pts|
  {
    hide Ge;
    if i < |pts| - 1 {
      BoundsReach(pts[..|pts| - 1], ranges, cno, i);
    }
  }

  lemma {:induction false} BoundsStart(pts: seq<OperatingPoint>, ranges: seq<nat>, cno: nat)
    requires AllPositive(ranges) && forall i :: 0 <= i < |pts| ==> pts[i].cno >= 0
    ensures UpperPerf(pts, ranges, cno) <= 1.0 && LowerTime(pts, ranges, cno) >= 0.0
    decreases |pts|
  {
    hide Ge;
    if pts != [] {
      BoundsStart(pts[..|pts| - 1], ranges, cno);
    }
  }
  lemma BoundsBelow(pts: seq<OperatingPoint>, lab: Lab, ranges: seq<nat>, cno: nat, hi: Option<nat>, lo: Option<nat>)
    requires AllPositive(ranges) && AreMeasured(pts, lab, Combinations(ranges))
    requires IsRecorded(pts, hi) && IsRecorded(pts, lo)
    requires (hi.Some? ==> Ge(ranges, hi.value, cno)) && (lo.Some? ==> Ge(ranges, cno, lo.value))
    ensures UpperPerf(pts, ranges, cno) <= PerfBound(lab, hi) && TimeBound(lab, lo) <= LowerTime(pts, ranges, cno)
  {
    hide Ge, Combinations;
    BoundsStart(pts, ranges, cno);
    if hi.Some? {
      var i :| 0 <= i < |pts| && pts[i].cno == hi.value;
      assert IsMeasured(pts[i], lab, Combinations(ranges));
      BoundsReach(pts, ranges, cno, i);
    }
    if lo.Some? {
      var i :| 0 <= i < |pts| && pts[i].cno == lo.value;
      assert IsMeasured(pts[i], lab, Combinations(ranges));
      BoundsReach(pts, ranges, cno, i);
    }
  }

  /** A combination that looks pointless for three others is skipped once they have been recorded. */
  lemma PointlessIsSkipped(lab: Lab, ranges: seq<nat>, c: nat, a: Option<nat>, hi: Option<nat>, lo: Option<nat>)
    requires AllPositive(ranges) && LooksPointless(lab, ranges, c, a, hi, lo)
    ensures var pts := Listed(lab, hi) + Listed(lab, lo) + Listed(lab, a);
      AreMeasured(pts, lab, Combinations(ranges)) && Skips(pts, ranges, c)
  {
    hide Ge, Combinations, Best, UpperPerf, LowerTime;
    var pts := Listed(lab, hi) + Listed(lab, lo) + Listed(lab, a);
    var choices := [NOTHING] + pts;
    ListedRecorded(lab, hi, lo, a);
    BoundsBelow(pts, lab, ranges, c, hi, lo);
    var u := UpperPerf(pts, ranges, c);
    BestIsBest(choices, u);
    var i := if a.None? then 0 else |choices| - 1;
    assert choices[i] == PointOf(lab, a);
  }

  lemma ListedRecorded(lab: Lab, hi: Option<nat>, lo: Option<nat>, a: Option<nat>)
    ensures var pts := Listed(lab, hi) + Listed(lab, lo) + Listed(lab, a);
      IsRecorded(pts, hi) && IsRecorded(pts, lo)
  {
    var pts := Listed(lab, hi) + Listed(lab, lo) + Listed(lab, a);
    assert hi.Some? ==> pts[0].cno == hi.value;
    assert lo.Some? ==> pts[|Listed(lab, hi)|].cno == lo.value;
  }

  lemma CoveredByListed(lab: Lab, hi: Option<nat>, lo: Option<nat>, a: Option<nat>, op: OperatingPoint)
    requires Covers([NOTHING] + (Listed(lab, hi) + Listed(lab, lo) + Listed(lab, a)), op)
    ensures IsBeaten(lab, a, hi, lo, op)
  {
  }

  /** A table of measurements is safe exactly when every possible skip is of a beaten combination. */
  lemma SkipsAreSafeCondition(lab: Lab, ranges: seq<nat>)
    requires AllPositive(ranges) && TimesInRange(lab, Combinations(ranges))
    ensures EverySkipIsCovered(lab, ranges) <==> SkipsAreSafe(lab, ranges)
  {
    hide Ge, Combinations, Skips, TimesInRange, Covers, Listed;
    if EverySkipIsCovered(lab, ranges) {
      forall c: nat, a: Option<nat>, hi: Option<nat>, lo: Option<nat> | LooksPointless(lab, ranges, c, a, hi, lo)
        ensures IsBeaten(lab, a, hi, lo, lab.Measure(c))
      {
        PointlessIsSkipped(lab, ranges, c, a, hi, lo);
        CoveredByListed(lab, hi, lo, a, lab.Measure(c));
      }
    }
    if SkipsAreSafe(lab, ranges) {
      forall pts: seq<OperatingPoint>, cno: nat |
        AreMeasured(pts, lab, Combinations(ranges)) && cno < Combinations(ranges) && Skips(pts, ranges, cno)
        ensures Covers([NOTHING] + pts, lab.Measure(cno))
      {
        SafeSkipIsCovered(pts, lab, ranges, cno);
      }
    }
  }

  /** In a monotone space the bounds hold of the measurement that has not been made. */
  lemma {:induction false} BoundsHold(pts: seq<OperatingPoint>, lab: Lab, ranges: seq<nat>, cno: nat)
    requires AllPositive(ranges) && cno < Combinations(ranges)
    requires NonNegativeTimes(lab) && IsMonotone(lab, ranges) && AreMeasured(pts, lab, Combinations(ranges))
    ensures lab.perf(cno) <= UpperPerf(pts, ranges, cno)
    ensures LowerTime(pts, ranges, cno) <= lab.time(cno)
    decreases |pts|
  {
    hide Ge, Combinations;
    if pts != [] {
      var op := pts[|pts| - 1];
      assert IsMeasured(op, lab, Combinations(ranges));
      BoundsHold(pts[..|pts| - 1], lab, ranges, cno);
    } else {
      assert lab.time(cno) >= 0.0;
    }
  }

  /** A monotone space is safe. */
  lemma MonotoneIsSafe(lab: Lab, ranges: seq<nat>)
    requires AllPositive(ranges) && NonNegativeTimes(lab) && IsMonotone(lab, ranges)
    ensures SkipsAreSafe(lab, ranges)
  {
    hide Ge, Combinations;
  }

  // ---------- the pruned run ----------

  lemma OffersMore(a: seq<OperatingPoint>, b: seq<OperatingPoint>, op: OperatingPoint)
    requires Offers(a, b)
    ensures Offers(a, b + [op])
  {
    OffersSubset(b, b + [op]);
    OffersTransitive(a, b, b + [op]);
  }

  lemma OffersCoveredToo(a: seq<OperatingPoint>, b: seq<OperatingPoint>, op: OperatingPoint)
    requires Offers(a, b) && Covers(b, op)
    ensures Offers(a + [op], b)
  {
  }

  /** The recorded points after trying combinations in turn. */
  ghost function Tried(lab: Lab, ranges: seq<nat>, pts: seq<OperatingPoint>, cnos: seq<nat>): (r: seq<OperatingPoint>)
    requires AllPositive(ranges) && forall i :: 0 <= i < |pts| ==> pts[i].cno >= 0
    ensures forall i :: 0 <= i < |r| ==> r[i].cno >= 0
  {
    if cnos == [] then pts
    else
      var before, cno := Tried(lab, ranges, pts, cnos[..|cnos| - 1]), cnos[|cnos| - 1];
      if Skips(before, ranges, cno) then before else before + [lab.Measure(cno)]
  }

  lemma TriedMore(lab: Lab, ranges: seq<nat>, pts: seq<OperatingPoint>, cnos: seq<nat>, cno: nat)
    requires AllPositive(ranges) && forall i :: 0 <= i < |pts| ==> pts[i].cno >= 0
    ensures var before := Tried(lab, ranges, pts, cnos);
      Tried(lab, ranges, pts, cnos + [cno])
      == if Skips(before, ranges, cno) then before else before + [lab.Measure(cno)]
  {
    assert (cnos + [cno])[..|cnos|] == cnos;
  }

  /** What a pruned run offers, running everything it tried offers too. */
  lemma {:induction false} TriedAddsNothing(lab: Lab, ranges: seq<nat>, pts: seq<OperatingPoint>, cnos: seq<nat>)
    requires AllPositive(ranges) && forall i :: 0 <= i < |pts| ==> pts[i].cno >= 0
    ensures Offers([NOTHING] + Tried(lab, ranges, pts, cnos), [NOTHING] + pts + lab.MeasureAll(cnos))
    decreases |cnos|
  {
    hide Skips;
    if cnos == [] {
      OffersSubset([NOTHING] + pts, [NOTHING] + pts + lab.MeasureAll(cnos));
    } else {
      hide Offers;
      var front, cno := cnos[..|cnos| - 1], cnos[|cnos| - 1];
      TriedAddsNothing(lab, ranges, pts, front);
      var before, full := [NOTHING] + Tried(lab, ranges, pts, front), [NOTHING] + pts + lab.MeasureAll(front);
      assert [NOTHING] + pts + lab.MeasureAll(cnos) == full + [lab.Measure(cno)];
      assert [NOTHING] + (Tried(lab, ranges, pts, front) + [lab.Measure(cno)]) == before + [lab.Measure(cno)];
      OffersMore(before, full, lab.Measure(cno));
      OffersWithOne(before, full, lab.Measure(cno));
    }
  }

  ghost predicate AllBelow(cnos: seq<nat>, n: nat) {
    forall x :: 0 <= x < |cnos| ==> cnos[x] < n
  }

  /** In a safe space no skip loses anything: the pruned run offers what running everything would. */
  lemma {:induction false} TriedLosesNothing(lab: Lab, ranges: seq<nat>, pts: seq<OperatingPoint>, cnos: seq<nat>)
    requires AllPositive(ranges) && AllBelow(cnos, Combinations(ranges))
    requires TimesInRange(lab, Combinations(ranges)) && SkipsAreSafe(lab, ranges)
    requires AreMeasured(pts, lab, Combinations(ranges)) && forall i :: 0 <= i < |pts| ==> pts[i].cno >= 0
    ensures AreMeasured(Tried(lab, ranges, pts, cnos), lab, Combinations(ranges))
    ensures Offers([NOTHING] + pts + lab.MeasureAll(cnos), [NOTHING] + Tried(lab, ranges, pts, cnos))
    decreases |cnos|
  {
    hide Combinations, SkipsAreSafe, TimesInRange;
    if cnos == [] {
      OffersSubset([NOTHING] + pts + lab.MeasureAll(cnos), [NOTHING] + pts);
    } else {
      hide Offers, Skips, Covers, Tried, AreMeasured;
      var front, cno := cnos[..|cnos| - 1], cnos[|cnos| - 1];
      assert front + [cno] == cnos;
      TriedLosesNothing(lab, ranges, pts, front);
      TriedMore(lab, ranges, pts, front, cno);
      FullMore(lab, pts, front, cno);
      var done, op := Tried(lab, ranges, pts, front), lab.Measure(cno);
      var before, full := [NOTHING] + done, [NOTHING] + pts + lab.MeasureAll(front);
      if Skips(done, ranges, cno) {
        SafeSkipIsCovered(done, lab, ranges, cno);
        OffersCoveredToo(full, before, op);
      } else {
        MeasuredMore(done, lab, Combinations(ranges), cno);
        assert [NOTHING] + (done + [op]) == before + [op];
        OffersWithOne(full, before, op);
      }
    }
  }

  lemma FullMore(lab: Lab, pts: seq<OperatingPoint>, cnos: seq<nat>, cno: nat)
    ensures [NOTHING] + pts + lab.MeasureAll(cnos + [cno])
      == [NOTHING] + pts + lab.MeasureAll(cnos) + [lab.Measure(cno)]
  {
    assert lab.MeasureAll(cnos + [cno]) == lab.MeasureAll(cnos) + [lab.Measure(cno)];
  }

  lemma MeasuredMore(pts: seq<OperatingPoint>, lab: Lab, n: nat, cno: nat)
    requires AreMeasured(pts, lab, n) && cno < n
    ensures AreMeasured(pts + [lab.Measure(cno)], lab, n)
  {
  }

  /** A run gives for every performance the best time of running everything it tried. */
  ghost predicate LosesNothing(lab: Lab, ranges: seq<nat>, pts: seq<OperatingPoint>, cnos: seq<nat>)
    requires AllPositive(ranges) && forall i :: 0 <= i < |pts| ==> pts[i].cno >= 0
  {
    forall p: real ::
      Best([NOTHING] + Tried(lab, ranges, pts, cnos), p) == Best([NOTHING] + pts + lab.MeasureAll(cnos), p)
  }

  lemma SafeRunLosesNothing(lab: Lab, ranges: seq<nat>, pts: seq<OperatingPoint>, cnos: seq<nat>)
    requires AllPositive(ranges) && AllBelow(cnos, Combinations(ranges))
    requires TimesInRange(lab, Combinations(ranges)) && SkipsAreSafe(lab, ranges)
    requires AreMeasured(pts, lab, Combinations(ranges))
    ensures LosesNothing(lab, ranges, pts, cnos)
  {
    hide Combinations, Offers, SkipsAreSafe, TimesInRange, Best, Tried;
    TriedLosesNothing(lab, ranges, pts, cnos);
    TriedAddsNothing(lab, ranges, pts, cnos);
    forall p: real
      ensures Best([NOTHING] + Tried(lab, ranges, pts, cnos), p) == Best([NOTHING] + pts + lab.MeasureAll(cnos), p)
    {
      MutualOffersSameBest([NOTHING] + Tried(lab, ranges, pts, cnos), [NOTHING] + pts + lab.MeasureAll(cnos), p);
    }
  }

  /** No run loses anything, whatever has been measured before and whatever it tries. */
  ghost predicate NoRunLoses(lab: Lab, ranges: seq<nat>)
    requires AllPositive(ranges)
  {
    forall pts: seq<OperatingPoint>, cnos: seq<nat> ::
      AreMeasured(pts, lab, Combinations(ranges)) && AllBelow(cnos, Combinations(ranges)) ==>
        LosesNothing(lab, ranges, pts, cnos)
  }

  /** Skipping a combination that is not beaten loses its performance at its time. */
  lemma UncoveredSkipLoses(lab: Lab, ranges: seq<nat>, pts: seq<OperatingPoint>, cno: nat)
    requires AllPositive(ranges) && forall i :: 0 <= i < |pts| ==> pts[i].cno >= 0
    requires Skips(pts, ranges, cno) && LosesNothing(lab, ranges, pts, [cno])
    ensures Covers([NOTHING] + pts, lab.Measure(cno))
  {
    hide Skips, Best;
    var op, choices := lab.Measure(cno), [NOTHING] + pts;
    assert [] + [cno] == [cno];
    TriedMore(lab, ranges, pts, [], cno);
    var all := choices + [op];
    assert choices + lab.MeasureAll([cno]) == all && all[|choices|] == op;
    assert Best(choices, op.perf) == Best(all, op.perf);
    BestIsBest(choices, op.perf);
    BestIsBest(all, op.perf);
  }

  /** The exact condition for pruning: no run loses a trade-off if and only if the measurements are safe. */
  lemma PruningCondition(lab: Lab, ranges: seq<nat>)
    requires AllPositive(ranges) && TimesInRange(lab, Combinations(ranges))
    ensures NoRunLoses(lab, ranges) <==> SkipsAreSafe(lab, ranges)
  {
    hide Combinations, Skips, SkipsAreSafe, EverySkipIsCovered, LosesNothing, Covers, TimesInRange;
    if SkipsAreSafe(lab, ranges) {
      forall pts: seq<OperatingPoint>, cnos: seq<nat> |
        AreMeasured(pts, lab, Combinations(ranges)) && AllBelow(cnos, Combinations(ranges))
        ensures LosesNothing(lab, ranges, pts, cnos)
      {
        SafeRunLosesNothing(lab, ranges, pts, cnos);
      }
    }
    if NoRunLoses(lab, ranges) {
      LosingNothingIsSafe(lab, ranges);
    }
  }

  lemma LosingNothingIsSafe(lab: Lab, ranges: seq<nat>)
    requires AllPositive(ranges) && TimesInRange(lab, Combinations(ranges)) && NoRunLoses(lab, ranges)
    ensures SkipsAreSafe(lab, ranges)
  {
    hide Combinations, Skips, SkipsAreSafe, LosesNothing, Covers, TimesInRange;
    forall pts: seq<OperatingPoint>, cno: nat |
      AreMeasured(pts, lab, Combinations(ranges)) && cno < Combinations(ranges) && Skips(pts, ranges, cno)
      ensures Covers([NOTHING] + pts, lab.Measure(cno))
    {
      assert AllBelow([cno], Combinations(ranges));
      UncoveredSkipLoses(lab, ranges, pts, cno);
    }
    SkipsAreSafeCondition(lab, ranges);
  }

  /** Three combinations of which the middle one is faster than the least: not a monotone space. */
  function OddLab(): Lab {
    Lab(c => if c == 0 then 0.95 else if c == 1 then 0.9 else 0.2,
        c => if c == 0 then 1.0 else if c == 1 then 0.5 else 5.0,
        c => "")
  }

  lemma GeOneRange(c1: nat, c2: nat)
    requires c1 < 3 && c2 < 3
    ensures Ge([3], c1, c2) <==> c1 >= c2
  {
    assert [3][1..] == [];
  }

  /** One more recorded point, and what it does to the bounds. */
  lemma BoundsMore(pts: seq<OperatingPoint>, op: OperatingPoint, ranges: seq<nat>, cno: nat)
    requires AllPositive(ranges) && op.cno >= 0 && forall i :: 0 <= i < |pts| ==> pts[i].cno >= 0
    ensures var u := UpperPerf(pts, ranges, cno);
      UpperPerf(pts + [op], ranges, cno) == if Ge(ranges, op.cno, cno) && op.perf < u then op.perf else u
    ensures var l := LowerTime(pts, ranges, cno);
      LowerTime(pts + [op], ranges, cno) == if Ge(ranges, cno, op.cno) && op.t > l then op.t else l
  {
    assert (pts + [op])[..|pts|] == pts;
  }

  lemma NoBounds(cno: nat)
    ensures UpperPerf([], [3], cno) == 1.0 && LowerTime([], [3], cno) == 0.0
  {
  }

  lemma OddFirst()
    ensures !Skips([], [3], 0)
  {
    BestIsUnique([NOTHING] + [], 1.0, Never);
  }

  lemma OddSecond()
    ensures !Skips([OddLab().Measure(0)], [3], 2)
  {
    hide Ge, Best, UpperPerf, LowerTime;
    var p0 := OddLab().Measure(0);
    assert [] + [p0] == [p0];
    NoBounds(2);
    GeOneRange(0, 2);
    GeOneRange(2, 0);
    BoundsMore([], p0, [3], 2);
    BestIsUnique([NOTHING] + [p0], 1.0, Never);
  }

  lemma OddThird()
    ensures Skips([OddLab().Measure(0), OddLab().Measure(2)], [3], 1)
    ensures Best([NOTHING] + [OddLab().Measure(0), OddLab().Measure(2)], 0.9) == At(1.0)
  {
    hide Ge, Best, UpperPerf, LowerTime;
    var p0, p2 := OddLab().Measure(0), OddLab().Measure(2);
    assert [] + [p0] == [p0] && [p0] + [p2] == [p0, p2];
    NoBounds(1);
    GeOneRange(1, 0);
    GeOneRange(0, 1);
    GeOneRange(2, 1);
    GeOneRange(1, 2);
    BoundsMore([], p0, [3], 1);
    BoundsMore([p0], p2, [3], 1);
    var choices := [NOTHING] + [p0, p2];
    assert choices[1] == p0 && choices[2] == p2;
    BestIsUnique(choices, 0.2, At(1.0));
    BestIsUnique(choices, 0.9, At(1.0));
  }

  /** A run that loses: from nothing recorded, the third combination here is never run. */
  lemma SkipsCanLose()
    ensures !SkipsAreSafe(OddLab(), [3])
    ensures Best([NOTHING] + Tried(OddLab(), [3], [], [0, 2, 1]), 0.9) == At(1.0)
    ensures Best([NOTHING] + [] + OddLab().MeasureAll([0, 2, 1]), 0.9) == At(0.5)
  {
    hide Skips, Best, Tried;
    var p0, p1, p2 := OddLab().Measure(0), OddLab().Measure(1), OddLab().Measure(2);
    var all := [NOTHING] + [] + OddLab().MeasureAll([0, 2, 1]);
    assert all == [NOTHING, p0, p2, p1] && all[3].t == 0.5;
    BestIsUnique(all, 0.9, At(0.5));
    OddFirst();
    OddSecond();
    OddThird();
    NoneTried(OddLab(), [3]);
    TriedMore(OddLab(), [3], [], [], 0);
    TriedMore(OddLab(), [3], [], [0], 2);
    TriedMore(OddLab(), [3], [], [0, 2], 1);
    assert [] + [0] == [0] && [0] + [2] == [0, 2] && [0, 2] + [1] == [0, 2, 1];
    assert [] + [p0] == [p0] && [p0] + [p2] == [p0, p2];
    OddLabIsUnsafe();
  }

  lemma OddLabIsUnsafe()
    ensures !SkipsAreSafe(OddLab(), [3])
  {
    hide Ge;
    GeOneRange(2, 1);
    GeOneRange(1, 0);
    assert Combinations([3]) == 3 by { assert [3][1..] == []; }
    assert LooksPointless(OddLab(), [3], 1, Some(0), Some(2), Some(0));
  }

  /** Three useless combinations of which the least is the slowest: not monotone, and yet safe. */
  lemma SafeWithoutMonotony()
    ensures var lab := Lab(c => 0.0, c => if c == 0 then 1.0 else 0.5, c => "");
      !IsMonotone(lab, [3]) && TimesInRange(lab, 3) && SkipsAreSafe(lab, [3])
  {
    hide Ge;
    var lab := Lab(c => 0.0, c => if c == 0 then 1.0 else 0.5, c => "");
    GeOneRange(1, 0);
    assert Combinations([3]) == 3 by { assert [3][1..] == []; }
    assert lab.time(1) < lab.time(0);
  }

  lemma NoneTried(lab: Lab, ranges: seq<nat>)
    requires AllPositive(ranges)
    ensures Tried(lab, ranges, [], []) == []
  {
  }

  /** When every combination is tried, the times offered are those of running every combination. */
  lemma TriedAll(lab: Lab, base: seq<OperatingPoint>, tried: seq<nat>, n: nat, p: real)
    requires |tried| == n && multiset(tried) <= multiset(Identity(n))
    ensures Best(base + lab.MeasureAll(tried), p) == Best(base + lab.MeasureAll(Identity(n)), p)
  {
    var rest := multiset(Identity(n)) - multiset(tried);
    assert |rest| == 0;
    assert multiset(Identity(n)) == multiset(tried) + rest;
    SameElements(tried, Identity(n));
    MeasuredInTurn(lab, base, tried, Identity(n));
    MeasuredInTurn(lab, base, Identity(n), tried);
    MutualOffersSameBest(base + lab.MeasureAll(tried), base + lab.MeasureAll(Identity(n)), p);
  }

  lemma MeasuredInTurn(lab: Lab, base: seq<OperatingPoint>, a: seq<nat>, b: seq<nat>)
    requires forall x :: x in a ==> x in b
    ensures Offers(base + lab.MeasureAll(a), base + lab.MeasureAll(b))
  {
    var x, y := base + lab.MeasureAll(a), base + lab.MeasureAll(b);
    forall pt | pt in x
      ensures pt in y
    {
      if pt !in base {
        var i :| 0 <= i < |a| && lab.MeasureAll(a)[i] == pt;
        assert a[i] in b;
        var j :| 0 <= j < |b| && b[j] == a[i];
        assert y[|base| + j] == pt;
      }
    }
    OffersSubset(x, y);
  }

  /** The measurements are safe, and the points recorded before are among them. */
  ghost predicate IsSafeStart(lab: Lab, ranges: seq<nat>, pts: seq<OperatingPoint>) {
    && AllPositive(ranges) && TimesInRange(lab, Combinations(ranges)) && SkipsAreSafe(lab, ranges)
    && AreMeasured(pts, lab, Combinations(ranges))
  }

  /** Both collections answer every performance with the same time. */
  ghost predicate SameAnswers(a: seq<OperatingPoint>, b: seq<OperatingPoint>) {
    forall p: real :: Best([NOTHING] + a, p) == Best([NOTHING] + b, p)
  }

  lemma SameItself(a: seq<OperatingPoint>)
    ensures SameAnswers(a, a)
  {
  }

  lemma LosingNothingAnswers(lab: Lab, ranges: seq<nat>, pts: seq<OperatingPoint>, tried: seq<nat>)
    requires AllPositive(ranges) && forall i :: 0 <= i < |pts| ==> pts[i].cno >= 0
    requires LosesNothing(lab, ranges, pts, tried)
    ensures SameAnswers(Tried(lab, ranges, pts, tried), pts + lab.MeasureAll(tried))
  {
    hide Best, Tried;
    assert [NOTHING] + (pts + lab.MeasureAll(tried)) == [NOTHING] + pts + lab.MeasureAll(tried);
  }

  lemma AllAnswers(lab: Lab, pts: seq<OperatingPoint>, tried: seq<nat>, n: nat)
    requires |tried| == n && multiset(tried) <= multiset(Identity(n))
    ensures SameAnswers(pts + lab.MeasureAll(tried), pts + lab.MeasureAll(Identity(n)))
  {
    hide Best, Identity;
    assert [NOTHING] + (pts + lab.MeasureAll(tried)) == [NOTHING] + pts + lab.MeasureAll(tried);
    assert [NOTHING] + (pts + lab.MeasureAll(Identity(n))) == [NOTHING] + pts + lab.MeasureAll(Identity(n));
    forall p: real
      ensures Best([NOTHING] + pts + lab.MeasureAll(tried), p) == Best([NOTHING] + pts + lab.MeasureAll(Identity(n)), p)
    {
      TriedAll(lab, [NOTHING] + pts, tried, n, p);
    }
  }

  /** Trying as many combinations as there are gives the answers of running all of them. */
  lemma SafeStartAnswers(lab: Lab, ranges: seq<nat>, pts: seq<OperatingPoint>, tried: seq<nat>)
    requires IsSafeStart(lab, ranges, pts) && AllBelow(tried, Combinations(ranges))
    requires multiset(tried) <= multiset(Identity(Combinations(ranges)))
    ensures var r := Tried(lab, ranges, pts, tried);
      && SameAnswers(r, pts + lab.MeasureAll(tried))
      && (|tried| == Combinations(ranges) ==> SameAnswers(r, pts + lab.MeasureAll(Identity(Combinations(ranges)))))
  {
    hide Combinations, SkipsAreSafe, TimesInRange, Tried, LosesNothing;
    var n, r := Combinations(ranges), Tried(lab, ranges, pts, tried);
    SafeRunLosesNothing(lab, ranges, pts, tried);
    LosingNothingAnswers(lab, ranges, pts, tried);
    if |tried| == n {
      AllAnswers(lab, pts, tried, n);
    }
  }
}
