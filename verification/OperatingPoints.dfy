/**
 The Pareto frontier of auto-tuning (include/faiss/AutoTune.cpp): measured (performance, time)
 points, of which the optimal ones are kept sorted by performance. Doubles are real numbers.
 */
module OperatingPoints {
  datatype OperatingPoint = OperatingPoint(perf: real, t: real, key: string, cno: int)

  /** Doing nothing gives no performance and takes no time. */
  const NOTHING: OperatingPoint := OperatingPoint(0.0, 0.0, "", -1)

  /** The answer 1e50 for a performance that no point reaches. */
  const NO_TIME: real := 100000000000000000000000000000000000000000000000000.0

  // ---------- what a collection of points offers ----------

  datatype MaybeTime = Never | At(t: real) {
    function OrNoTime(): real {
      if Never? then NO_TIME else t
    }
  }

  /** The least time of a point that reaches a performance. */
  function Best(pts: seq<OperatingPoint>, perf: real): MaybeTime
    decreases |pts|
  {
    if pts == [] then Never
    else
      var last, best := pts[|pts| - 1], Best(pts[..|pts| - 1], perf);
      if last.perf >= perf && (best.Never? || last.t < best.t) then At(last.t) else best
  }

  /** The independent reading of Best. */
  ghost predicate IsBest(pts: seq<OperatingPoint>, perf: real, best: MaybeTime) {
    match best
    case Never => forall i :: 0 <= i < |pts| ==> pts[i].perf < perf
    case At(t) =>
      && (exists i :: 0 <= i < |pts| && pts[i].perf >= perf && pts[i].t == t)
      && (forall i :: 0 <= i < |pts| && pts[i].perf >= perf ==> t <= pts[i].t)
  }

  lemma {:induction false} BestIsBest(pts: seq<OperatingPoint>, perf: real)
    ensures IsBest(pts, perf, Best(pts, perf))
    decreases |pts|
  {
    if pts != [] {
      var front, last := pts[..|pts| - 1], pts[|pts| - 1];
      BestIsBest(front, perf);
      match Best(front, perf)
      case Never =>
      case At(t) =>
        var i :| 0 <= i < |front| && front[i].perf >= perf && front[i].t == t;
        assert pts[i] == front[i];
    }
  }

  lemma BestIsUnique(pts: seq<OperatingPoint>, perf: real, best: MaybeTime)
    requires IsBest(pts, perf, best)
    ensures best == Best(pts, perf)
  {
    BestIsBest(pts, perf);
  }

  /** Some point is at least as good as pt in both respects. */
  ghost predicate Covers(pts: seq<OperatingPoint>, pt: OperatingPoint) {
    exists j :: 0 <= j < |pts| && pts[j].perf >= pt.perf && pts[j].t <= pt.t
  }

  /** b offers everything a offers. */
  ghost predicate Offers(a: seq<OperatingPoint>, b: seq<OperatingPoint>) {
    forall pt {:trigger Covers(b, pt)} :: pt in a ==> Covers(b, pt)
  }

  lemma CoversThrough(b: seq<OperatingPoint>, c: seq<OperatingPoint>, pt: OperatingPoint)
    requires Covers(b, pt) && Offers(b, c)
    ensures Covers(c, pt)
  {
    var j :| 0 <= j < |b| && b[j].perf >= pt.perf && b[j].t <= pt.t;
    assert Covers(c, b[j]);
  }

  lemma OffersTransitive(a: seq<OperatingPoint>, b: seq<OperatingPoint>, c: seq<OperatingPoint>)
    requires Offers(a, b) && Offers(b, c)
    ensures Offers(a, c)
  {
    forall pt | pt in a
      ensures Covers(c, pt)
    {
      assert Covers(b, pt);
      CoversThrough(b, c, pt);
    }
  }

  lemma OffersSubset(a: seq<OperatingPoint>, b: seq<OperatingPoint>)
    requires forall pt :: pt in a ==> pt in b
    ensures Offers(a, b)
  {
    forall pt | pt in a
      ensures Covers(b, pt)
    {
      var j :| 0 <= j < |b| && b[j] == pt;
    }
  }

  /** Collections that offer each other's points give every performance the same best time. */
  lemma MutualOffersSameBest(a: seq<OperatingPoint>, b: seq<OperatingPoint>, perf: real)
    requires Offers(a, b) && Offers(b, a)
    ensures Best(a, perf) == Best(b, perf)
  {
    BestIsBest(a, perf);
    BestIsBest(b, perf);
    BestOffered(a, b, perf);
    BestOffered(b, a, perf);
  }

  lemma BestOffered(a: seq<OperatingPoint>, b: seq<OperatingPoint>, perf: real)
    requires Offers(a, b)
    ensures Best(a, perf).At? ==> Best(b, perf).At? && Best(b, perf).t <= Best(a, perf).t
  {
    BestIsBest(a, perf);
    BestIsBest(b, perf);
    if Best(a, perf).At? {
      var i :| 0 <= i < |a| && a[i].perf >= perf && a[i].t == Best(a, perf).t;
      assert Covers(b, a[i]);
    }
  }

  // ---------- the frontier ----------

  ghost predicate PerfIncreases(a: seq<OperatingPoint>) {
    forall i, j :: 0 <= i < j < |a| ==> a[i].perf < a[j].perf
  }

  ghost predicate TimeGrowsFrom(a: seq<OperatingPoint>, from: int) {
    forall i, j :: 0 <= from <= i < j < |a| ==> a[i].t <= a[j].t
  }

  ghost predicate NonNegative(pts: seq<OperatingPoint>) {
    forall i :: 0 <= i < |pts| ==> pts[i].t >= 0.0
  }

  /** Erasing a point that its slower predecessor pays for loses nothing. */
  lemma EraseKeepsOffer(a: seq<OperatingPoint>, i: nat)
    requires 0 < i < |a| && PerfIncreases(a) && TimeGrowsFrom(a, i) && a[i].t < a[i - 1].t
    ensures var b := a[..i - 1] + a[i..];
      PerfIncreases(b) && TimeGrowsFrom(b, i - 1) && Offers(a, b) && Offers(b, a)
  {
    var b := a[..i - 1] + a[i..];
    OffersSubset(b, a);
    forall pt | pt in a
      ensures Covers(b, pt)
    {
      var k :| 0 <= k < |a| && a[k] == pt;
      var j := if k < i - 1 then k else if k == i - 1 then i - 1 else k - 1;
      assert b[j].perf >= pt.perf && b[j].t <= pt.t;
    }
  }

  lemma PushOffers(a: seq<OperatingPoint>, op: OperatingPoint)
    requires PerfIncreases(a) && forall k :: 0 <= k < |a| ==> a[k].perf < op.perf
    ensures PerfIncreases(a + [op])
  {
  }

  /** Writing op over a point of its performance that is slower. */
  lemma ReplaceOffers(a: seq<OperatingPoint>, i: nat, op: OperatingPoint)
    requires i < |a| && PerfIncreases(a) && a[i].perf == op.perf && op.t < a[i].t
    ensures PerfIncreases(a[i := op]) && Offers(a[i := op], a + [op]) && Offers(a + [op], a[i := op])
  {
    OffersSubset(a[i := op], a + [op]);
    forall pt | pt in a + [op]
      ensures Covers(a[i := op], pt)
    {
      var k :| 0 <= k < |a + [op]| && (a + [op])[k] == pt;
      var j := if k == |a| then i else k;
      assert a[i := op][j].perf >= pt.perf && a[i := op][j].t <= pt.t;
    }
  }

  lemma InsertOffers(a: seq<OperatingPoint>, i: nat, op: OperatingPoint)
    requires i < |a| && PerfIncreases(a) && op.perf < a[i].perf
    requires forall k :: 0 <= k < i ==> a[k].perf < op.perf
    ensures var b := a[..i] + [op] + a[i..];
      PerfIncreases(b) && Offers(b, a + [op]) && Offers(a + [op], b)
  {
    var b := a[..i] + [op] + a[i..];
    OffersSubset(b, a + [op]);
    forall pt | pt in a + [op]
      ensures pt in b
    {
      var k :| 0 <= k < |a + [op]| && (a + [op])[k] == pt;
      var j := if k == |a| then i else if k < i then k else k + 1;
      assert b[j] == pt;
    }
    OffersSubset(a + [op], b);
  }

  /** With op, both sides of a mutual offer keep offering each other. */
  lemma OffersWithOne(a: seq<OperatingPoint>, b: seq<OperatingPoint>, op: OperatingPoint)
    requires Offers(a, b)
    ensures Offers(a + [op], b + [op])
  {
    forall pt | pt in a + [op]
      ensures Covers(b + [op], pt)
    {
      if pt in a {
        assert Covers(b, pt);
        var j :| 0 <= j < |b| && b[j].perf >= pt.perf && b[j].t <= pt.t;
        assert (b + [op])[j] == b[j];
      } else {
        assert (b + [op])[|b|] == op;
      }
    }
  }

  lemma OffersCovered(a: seq<OperatingPoint>, op: OperatingPoint)
    requires Covers(a, op)
    ensures Offers(a + [op], a) && Offers(a, a + [op])
  {
    OffersSubset(a, a);
    OffersSubset(a, a + [op]);
  }

  /** Neither the order of the points nor, among equal ones, their number matters to an offer. */
  lemma OrderIrrelevant(a: seq<OperatingPoint>, b: seq<OperatingPoint>, perf: real)
    requires multiset(a) == multiset(b)
    ensures Best(a, perf) == Best(b, perf)
  {
    SameMultisetOffers(a, b);
    SameMultisetOffers(b, a);
    MutualOffersSameBest(a, b, perf);
  }

  lemma SameMultisetOffers(a: seq<OperatingPoint>, b: seq<OperatingPoint>)
    requires multiset(a) == multiset(b)
    ensures Offers(a, b)
  {
    forall pt | pt in a
      ensures pt in b
    {
      assert pt in multiset(a);
      assert pt in multiset(b);
    }
    OffersSubset(a, b);
  }

  class OperatingPoints {
    var allPts: seq<OperatingPoint>
    var optimalPts: seq<OperatingPoint>

    /** The points to choose from: doing nothing, and all recorded ones. */
    ghost function Choices(): seq<OperatingPoint>
      reads this
    {
      [NOTHING] + allPts
    }

    ghost predicate Valid()
      reads this
    {
      && |optimalPts| > 0 && optimalPts[0] == NOTHING
      && PerfIncreases(optimalPts) && TimeGrowsFrom(optimalPts, 0)
      && NonNegative(allPts)
      && Offers(Choices(), optimalPts) && forall pt :: pt in optimalPts ==> pt in Choices()
    }

    constructor ()
      ensures Valid() && allPts == [] && optimalPts == [OperatingPoint(0.0, 0.0, "", -1)]
    {
      allPts, optimalPts := [], [NOTHING];
      new;
      OffersSubset([NOTHING], [NOTHING]);
      assert [NOTHING] + [] == [NOTHING];
    }

    method Clear()
      modifies this
      ensures Valid() && allPts == [] && optimalPts == [OperatingPoint(0.0, 0.0, "", -1)]
    {
      allPts, optimalPts := [], [NOTHING];
      OffersSubset([NOTHING], [NOTHING]);
      assert [NOTHING] + [] == [NOTHING];
    }

    /** Records a point; says whether nothing recorded before was at least as good. */
    method Add(perf: real, t: real, key: string, cno: int) returns (kept: bool)
      requires Valid() && t >= 0.0
      modifies this
      ensures Valid()
      ensures allPts == old(allPts) + [OperatingPoint(perf, t, key, cno)]
      ensures kept <==> !Covers(old(Choices()), OperatingPoint(perf, t, key, cno))
    {
      var op := OperatingPoint(perf, t, key, cno);
      ghost var before, frontier := Choices(), optimalPts;
      allPts := allPts + [op];
      assert Choices() == before + [op];
      CoveredAlike(before, frontier, op);
      if perf == 0.0 {
        KeepFrontier(before, frontier, op);
        return false;
      }
      kept := Insert(op);
      if !kept {
        KeepFrontier(before, frontier, op);
        return;
      }
      hide Offers, Covers;
      EraseDominated(frontier + [op]);
      AddedOffers(before, frontier, optimalPts, op);
    }

    /** Puts a point into the frontier where its performance belongs, unless the frontier covers it. */
    method Insert(op: OperatingPoint) returns (kept: bool)
      requires |optimalPts| > 0 && optimalPts[0] == NOTHING && op.perf != 0.0 && op.t >= 0.0
      requires PerfIncreases(optimalPts) && TimeGrowsFrom(optimalPts, 0) && NonNegative(optimalPts)
      modifies this`optimalPts
      ensures kept <==> !Covers(old(optimalPts), op)
      ensures !kept ==> optimalPts == old(optimalPts)
      ensures kept ==> |optimalPts| > 0 && optimalPts[0] == NOTHING
      ensures kept ==> PerfIncreases(optimalPts) && NonNegative(optimalPts)
      ensures kept ==> var target := old(optimalPts) + [op];
        && Offers(target, optimalPts) && Offers(optimalPts, target)
        && forall pt :: pt in optimalPts ==> pt in target
    {
      hide Offers;
      var last, perf, t := |optimalPts| - 1, op.perf, op.t;
      if perf > optimalPts[last].perf {
        PushOffers(optimalPts, op);
        OffersSubset(optimalPts + [op], optimalPts + [op]);
        optimalPts := optimalPts + [op];
      } else if perf == optimalPts[last].perf {
        if t < optimalPts[last].t {
          ReplaceOffers(optimalPts, last, op);
          optimalPts := optimalPts[last := op];
        } else {
          return false;
        }
      } else {
        var i := 0;
        while optimalPts[i].perf < perf
          invariant 0 <= i <= last
          invariant forall k :: 0 <= k < i ==> optimalPts[k].perf < perf
          decreases last - i
        {
          i := i + 1;
        }
        if t < optimalPts[i].t {
          if optimalPts[i].perf == perf {
            ReplaceOffers(optimalPts, i, op);
            optimalPts := optimalPts[i := op];
          } else {
            InsertOffers(optimalPts, i, op);
            optimalPts := optimalPts[..i] + [op] + optimalPts[i..];
          }
        } else {
          return false;
        }
      }
      return true;
    }

    /** The backward pass that removes the points made pointless by a faster successor. */
    method EraseDominated(ghost target: seq<OperatingPoint>)
      requires |optimalPts| > 0 && optimalPts[0] == NOTHING && PerfIncreases(optimalPts)
      requires NonNegative(optimalPts)
      requires Offers(target, optimalPts) && Offers(optimalPts, target)
      modifies this`optimalPts
      ensures |optimalPts| > 0 && optimalPts[0] == NOTHING
      ensures PerfIncreases(optimalPts) && TimeGrowsFrom(optimalPts, 0)
      ensures Offers(target, optimalPts) && Offers(optimalPts, target)
      ensures forall pt :: pt in optimalPts ==> pt in old(optimalPts)
    {
      hide Offers;
      var i := |optimalPts| - 1;
      while i > 0
        invariant 0 <= i < |optimalPts| && optimalPts[0] == NOTHING
        invariant PerfIncreases(optimalPts) && TimeGrowsFrom(optimalPts, i) && NonNegative(optimalPts)
        invariant Offers(target, optimalPts) && Offers(optimalPts, target)
        invariant forall pt :: pt in optimalPts ==> pt in old(optimalPts)
      {
        if optimalPts[i].t < optimalPts[i - 1].t {
          ghost var b := optimalPts[..i - 1] + optimalPts[i..];
          EraseKeepsOffer(optimalPts, i);
          OffersTransitive(target, optimalPts, b);
          OffersTransitive(b, optimalPts, target);
          optimalPts := optimalPts[..i - 1] + optimalPts[i..];
        }
        i := i - 1;
      }
    }

    /** The time needed for a performance, found by bisection. */
    method TForPerf(perf: real) returns (t: real)
      requires Valid()
      ensures t == Best(Choices(), perf).OrNoTime()
      ensures (forall i :: 0 <= i < |Choices()| ==> Choices()[i].perf < perf) ==>
        t == 100000000000000000000000000000000000000000000000000.0
      ensures (exists i :: 0 <= i < |Choices()| && Choices()[i].perf >= perf) ==>
        && (exists i :: 0 <= i < |Choices()| && Choices()[i].perf >= perf && Choices()[i].t == t)
        && (forall i :: 0 <= i < |Choices()| && Choices()[i].perf >= perf ==> t <= Choices()[i].t)
    {
      var a := optimalPts;
      MutualOffersSameBest(Choices(), a, perf);
      BestIsBest(Choices(), perf);
      if perf > a[|a| - 1].perf {
        BestIsUnique(a, perf, Never);
        return NO_TIME;
      }
      var i0, i1 := -1, |a| - 1;
      while i0 + 1 < i1
        invariant -1 <= i0 < i1 < |a|
        invariant i0 >= 0 ==> a[i0].perf < perf
        invariant a[i1].perf >= perf
        decreases i1 - i0
      {
        var imed := (i0 + i1 + 1) / 2;
        if a[imed].perf < perf {
          i0 := imed;
        } else {
          i1 := imed;
        }
      }
      BestIsUnique(a, perf, At(a[i1].t));
      return a[i1].t;
    }

    /** Adds the other collection's points under prefixed keys and counts those kept. */
    method MergeWith(other: OperatingPoints, prefix: string) returns (nAdd: nat)
      requires Valid() && other != this && NonNegative(other.allPts)
      modifies this
      ensures Valid()
      ensures |allPts| == |old(allPts)| + |other.allPts| && allPts[..|old(allPts)|] == old(allPts)
      ensures forall i :: 0 <= i < |other.allPts| ==>
        var op := other.allPts[i];
        allPts[|old(allPts)| + i] == OperatingPoint(op.perf, op.t, prefix + op.key, op.cno)
      ensures nAdd == |NewPlaces(old(Choices()), allPts[|old(allPts)|..])|
    {
      nAdd := 0;
      ghost var added := Prefixed(other.allPts, prefix);
      for i := 0 to |other.allPts|
        invariant Valid()
        invariant allPts == old(allPts) + added[..i]
        invariant nAdd == |NewPlaces(old(Choices()), added[..i])|
      {
        var op := other.allPts[i];
        assert Choices() == old(Choices()) + added[..i];
        NewPlacesMore(old(Choices()), added[..i], added[i]);
        assert added[..i + 1] == added[..i] + [added[i]];
        var kept := Add(op.perf, op.t, prefix + op.key, op.cno);
        if kept {
          nAdd := nAdd + 1;
        }
      }
      assert added[..|added|] == added;
      assert allPts[|old(allPts)|..] == added;
    }
  }

  function Prefixed(pts: seq<OperatingPoint>, prefix: string): (r: seq<OperatingPoint>)
    ensures |r| == |pts|
  {
    seq(|pts|, i requires 0 <= i < |pts| => pts[i].(key := prefix + pts[i].key))
  }

  /** The points that are not covered by what came before them. */
  ghost function NewPlaces(before: seq<OperatingPoint>, pts: seq<OperatingPoint>): set<nat> {
    set i: nat | i < |pts| && !Covers(before + pts[..i], pts[i])
  }

  lemma NewPlacesMore(before: seq<OperatingPoint>, pts: seq<OperatingPoint>, pt: OperatingPoint)
    ensures |NewPlaces(before, pts + [pt])|
      == |NewPlaces(before, pts)| + if Covers(before + pts, pt) then 0 else 1
  {
    hide Covers;
    var n, more := |pts|, pts + [pt];
    assert more[..n] == pts;
    forall i: nat | i < n
      ensures i in NewPlaces(before, more) <==> i in NewPlaces(before, pts)
    {
      assert more[..i] == pts[..i];
    }
    assert NewPlaces(before, more) == if Covers(before + pts, pt) then NewPlaces(before, pts)
                                      else NewPlaces(before, pts) + {n};
  }

  lemma CoveredAlike(before: seq<OperatingPoint>, frontier: seq<OperatingPoint>, op: OperatingPoint)
    requires Offers(before, frontier) && Offers(frontier, before)
    ensures Covers(before, op) <==> Covers(frontier, op)
  {
    if Covers(before, op) {
      CoversThrough(before, frontier, op);
    }
    if Covers(frontier, op) {
      CoversThrough(frontier, before, op);
    }
  }

  lemma AddedOffers(before: seq<OperatingPoint>, frontier: seq<OperatingPoint>, after: seq<OperatingPoint>,
                    op: OperatingPoint)
    requires Offers(before, frontier) && Offers(frontier, before)
    requires Offers(frontier + [op], after) && Offers(after, frontier + [op])
    ensures Offers(before + [op], after) && Offers(after, before + [op])
  {
    OffersWithOne(before, frontier, op);
    OffersWithOne(frontier, before, op);
    OffersTransitive(before + [op], frontier + [op], after);
    OffersTransitive(after, frontier + [op], before + [op]);
  }

  lemma KeepFrontier(before: seq<OperatingPoint>, frontier: seq<OperatingPoint>, op: OperatingPoint)
    requires Offers(before, frontier) && Offers(frontier, before) && Covers(frontier, op)
    ensures Offers(before + [op], frontier) && Offers(frontier, before + [op])
  {
    OffersCovered(frontier, op);
    AddedOffers(before, frontier, frontier, op);
  }

  /** Merging two collections one way or the other offers the same times. */
  lemma MergeOrderIrrelevant(a: seq<OperatingPoint>, b: seq<OperatingPoint>, prefix: string, perf: real)
    ensures Best([NOTHING] + (a + Prefixed(b, prefix)), perf) == Best([NOTHING] + (b + Prefixed(a, prefix)), perf)
  {
    MergeOffers(a, b, prefix);
    MergeOffers(b, a, prefix);
    MutualOffersSameBest([NOTHING] + (a + Prefixed(b, prefix)), [NOTHING] + (b + Prefixed(a, prefix)), perf);
  }

  lemma MergeOffers(a: seq<OperatingPoint>, b: seq<OperatingPoint>, prefix: string)
    ensures Offers([NOTHING] + (a + Prefixed(b, prefix)), [NOTHING] + (b + Prefixed(a, prefix)))
  {
    var x, y := [NOTHING] + (a + Prefixed(b, prefix)), [NOTHING] + (b + Prefixed(a, prefix));
    forall pt | pt in x
      ensures Covers(y, pt)
    {
      var i :| 0 <= i < |x| && x[i] == pt;
      var j := if i == 0 then 0 else if i - 1 < |a| then 1 + |b| + (i - 1) else i - |a|;
      assert y[j].perf >= pt.perf && y[j].t <= pt.t;
    }
  }
}
