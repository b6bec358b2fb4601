/** The exploration of a parameter space (ParameterSpace in include/faiss/AutoTune.cpp). */
module ParameterSpace {
  import opened MixedRadix
  import opened Multisets
  import opened OperatingPoints
  import opened Pruning
  import opened Shuffle

  class ParameterSpace {
    const ranges: seq<nat>
    var nExperiments: int

    constructor (ranges: seq<nat>)
      ensures this.ranges == ranges && nExperiments == 500
    {
      this.ranges := ranges;
      nExperiments := 500;
    }

    method NCombinations() returns (n: nat)
      ensures n == Combinations(ranges)
    {
      n := 1;
      for i := 0 to |ranges|
        invariant n * Combinations(ranges[i..]) == Combinations(ranges)
      {
        assert ranges[i..][0] == ranges[i] && ranges[i..][1..] == ranges[i + 1..];
        ghost var rest := Combinations(ranges[i + 1..]);
        assert n * (ranges[i] * rest) == n * ranges[i] * rest;
        n := n * ranges[i];
      }
      assert ranges[|ranges|..] == [];
    }

    method CombinationGe(c1: nat, c2: nat) returns (ge: bool)
      requires AllPositive(ranges)
      ensures ge <==> Ge(ranges, c1, c2)
    {
      NoDigitsLeft(ranges[|ranges|..]);
      hide Ge;
      var a, b := c1, c2;
      for i := 0 to |ranges|
        invariant Ge(ranges[i..], a, b) <==> Ge(ranges, c1, c2)
      {
        var nval := ranges[i];
        GeDigit(ranges[i..], a, b);
        assert ranges[i..][0] == nval && ranges[i..][1..] == ranges[i + 1..];
        var j1, j2 := a % nval, b % nval;
        if !(j1 >= j2) {
          return false;
        }
        a, b := a / nval, b / nval;
      }
      return true;
    }

    /** Tightens the two bounds on combination cno by one recorded point. */
    method UpdateBounds(cno: nat, op: OperatingPoint, upperPerf: real, lowerT: real)
      returns (upperPerf': real, lowerT': real)
      requires AllPositive(ranges) && op.cno >= 0
      ensures lowerT' == if Ge(ranges, cno, op.cno) && op.t > lowerT then op.t else lowerT
      ensures upperPerf' == if Ge(ranges, op.cno, cno) && op.perf < upperPerf then op.perf else upperPerf
    {
      upperPerf', lowerT' := upperPerf, lowerT;
      var above := CombinationGe(cno, op.cno);
      if above {
        if op.t > lowerT' {
          lowerT' := op.t;
        }
      }
      var below := CombinationGe(op.cno, cno);
      if below {
        if op.perf < upperPerf' {
          upperPerf' := op.perf;
        }
      }
    }

    method BoundsFor(cno: nat, pts: seq<OperatingPoint>) returns (upperPerf: real, lowerT: real)
      requires AllPositive(ranges) && forall i :: 0 <= i < |pts| ==> pts[i].cno >= 0
      ensures upperPerf == UpperPerf(pts, ranges, cno) && lowerT == LowerTime(pts, ranges, cno)
    {
      hide Ge;
      lowerT, upperPerf := 0.0, 1.0;
      for i := 0 to |pts|
        invariant upperPerf == UpperPerf(pts[..i], ranges, cno) && lowerT == LowerTime(pts[..i], ranges, cno)
      {
        assert pts[..i + 1][..i] == pts[..i];
        upperPerf, lowerT := UpdateBounds(cno, pts[i], upperPerf, lowerT);
      }
      assert pts[..|pts|] == pts;
    }

    /** The order of the experiments: the first and the last combination, then the others at random. */
    method ExperimentOrder(n: nat, draws: seq<nat>) returns (perm: array<nat>)
      requires n >= 1 && ValidDraws(draws, n - 2)
      ensures fresh(perm) && perm.Length == n && perm[0] == 0 && (n > 1 ==> perm[1] == n - 1)
      ensures n > 1 ==> perm[..] == [0, n - 1] + Increment(Shuffled(Identity(n - 2), draws))
      ensures multiset(perm[..]) == multiset(Identity(n))
    {
      hide Shuffled;
      perm := new nat[n](i => 0);
      if n > 1 {
        perm[1] := n - 1;
        RandPerm(perm, 2, n - 2, draws);
        ghost var shuffled := perm[..][2..n];
        for i := 2 to n
          invariant perm[0] == 0 && perm[1] == n - 1
          invariant forall j :: 2 <= j < i ==> perm[j] == shuffled[j - 2] + 1
          invariant forall j :: i <= j < n ==> perm[j] == shuffled[j - 2]
        {
          perm[i] := perm[i] + 1;
        }
        assert perm[..] == [0, n - 1] + Increment(shuffled);
        OrderIsComplete(shuffled, n);
      } else {
        assert perm[..] == Identity(n);
      }
    }

    /** With n_experiments 0, every combination is run. */
    method ExploreAll(lab: Lab, ops: OperatingPoints, nComb: nat)
      requires ops.Valid() && NonNegativeTimes(lab)
      modifies ops
      ensures ops.Valid()
      ensures ops.allPts == old(ops.allPts) + lab.MeasureAll(Identity(nComb))
      ensures |ops.allPts| == |old(ops.allPts)| + nComb && forall c: nat :: c < nComb ==>
        ops.allPts[|old(ops.allPts)| + c] == OperatingPoint(lab.perf(c), lab.time(c), lab.name(c), c)
    {
      assert lab.MeasureAll(Identity(0)) == [];
      for cno := 0 to nComb
        invariant ops.Valid()
        invariant ops.allPts == old(ops.allPts) + lab.MeasureAll(Identity(cno))
      {
        assert lab.time(cno) >= 0.0;
        assert lab.MeasureAll(Identity(cno + 1)) == lab.MeasureAll(Identity(cno)) + [lab.Measure(cno)];
        var keep := ops.Add(lab.perf(cno), lab.time(cno), lab.name(cno), cno);
      }
    }

    /** One experiment: skipped when the time already available is no more than its lower bound. */
    method TryOne(lab: Lab, ops: OperatingPoints, cno: nat)
      requires ops.Valid() && NonNegativeTimes(lab) && AllPositive(ranges)
      requires forall i :: 0 <= i < |ops.allPts| ==> ops.allPts[i].cno >= 0
      modifies ops
      ensures ops.Valid()
      ensures var before := old(ops.allPts);
        ops.allPts == if Skips(before, ranges, cno) then before
                      else before + [OperatingPoint(lab.perf(cno), lab.time(cno), lab.name(cno), cno)]
    {
      hide Best, UpperPerf, LowerTime;
      var upperPerf, lowerT := BoundsFor(cno, ops.allPts);
      var bestT := ops.TForPerf(upperPerf);
      if bestT <= lowerT {
        return;
      }
      assert lab.time(cno) >= 0.0;
      var keep := ops.Add(lab.perf(cno), lab.time(cno), lab.name(cno), cno);
    }

    /**
     Tries combinations in order, the first and the last before all others, and skips those that
     the bounds show to be pointless; `tried` are the combinations run or skipped: as many as
     asked for, and all for 0, a negative number or one that is too large. From a safe
     start the answers are those of running everything tried, and of running every combination
     when as many are tried as there are.
     */
    method Explore(lab: Lab, ops: OperatingPoints, draws: seq<nat>) returns (ok: bool, ghost tried: seq<nat>)
      requires ops.Valid() && NonNegativeTimes(lab)
      requires forall i :: 0 <= i < |ops.allPts| ==> ops.allPts[i].cno >= 0
      requires ValidDraws(draws, Combinations(ranges) - 2)
      modifies ops
      ensures ops.Valid()
      ensures var n := Combinations(ranges);
        ok <==> nExperiments == 0 || n == 1 || (n > 2 && (nExperiments < 0 || nExperiments > 2))
      ensures !ok ==> ops.allPts == old(ops.allPts)
      ensures ok && (nExperiments <= 0 || nExperiments > Combinations(ranges)) ==> |tried| == Combinations(ranges)
      ensures ok && 0 < nExperiments <= Combinations(ranges) ==> |tried| == nExperiments
      ensures ok ==> multiset(tried) <= multiset(Identity(Combinations(ranges)))
      ensures ok && nExperiments == 0 ==> ops.allPts == old(ops.allPts) + lab.MeasureAll(tried)
      ensures ok && nExperiments != 0 ==>
        AllPositive(ranges) && ops.allPts == Tried(lab, ranges, old(ops.allPts), tried)
      ensures var n := Combinations(ranges);
        ok && nExperiments != 0 && n > 1 ==>
          tried <= [0, n - 1] + Increment(Shuffled(Identity(n - 2), draws))
      ensures ok && nExperiments != 0 ==> tried[0] == 0 && (|tried| > 1 ==> tried[1] == Combinations(ranges) - 1)
      ensures ok && nExperiments == 0 ==> tried == Identity(Combinations(ranges))
      ensures ok && IsSafeStart(lab, ranges, old(ops.allPts)) ==>
        SameAnswers(ops.allPts, old(ops.allPts) + lab.MeasureAll(tried))
      ensures ok && IsSafeStart(lab, ranges, old(ops.allPts)) && |tried| == Combinations(ranges) ==>
        SameAnswers(ops.allPts, old(ops.allPts) + lab.MeasureAll(Identity(Combinations(ranges))))
    {
      hide Combinations, Tried, IsSafeStart, SameAnswers, Shuffled, Increment;
      var nComb := NCombinations();
      ghost var pts := ops.allPts;
      if nExperiments == 0 {
        tried := Identity(nComb);
        ExploreAll(lab, ops, nComb);
        SameItself(ops.allPts);
        return true, tried;
      }
      var nExp := nExperiments;
      if nExp < 0 || nExp > nComb {
        nExp := nComb;
      }
      tried := [];
      if !(nComb == 1 || nExp > 2) {
        return false, tried;
      }
      tried := RunFirst(lab, ops, nComb, nExp, draws);
      if IsSafeStart(lab, ranges, pts) {
        SafeStartAnswers(lab, ranges, pts, tried);
      }
      ok := true;
    }

    /** Tries the first nExp combinations of the experiment order. */
    method RunFirst(lab: Lab, ops: OperatingPoints, nComb: nat, nExp: nat, draws: seq<nat>)
      returns (ghost tried: seq<nat>)
      requires ops.Valid() && NonNegativeTimes(lab) && forall i :: 0 <= i < |ops.allPts| ==> ops.allPts[i].cno >= 0
      requires nComb == Combinations(ranges) >= 1 && nExp <= nComb && ValidDraws(draws, nComb - 2)
      modifies ops
      ensures ops.Valid() && AllPositive(ranges) && AllBelow(tried, nComb)
      ensures |tried| == nExp && multiset(tried) <= multiset(Identity(nComb))
      ensures nComb > 1 ==> tried <= [0, nComb - 1] + Increment(Shuffled(Identity(nComb - 2), draws))
      ensures (nExp > 0 ==> tried[0] == 0) && (nExp > 1 ==> tried[1] == nComb - 1)
      ensures ops.allPts == Tried(lab, ranges, old(ops.allPts), tried)
    {
      PositiveFactors(ranges);
      hide Combinations, Tried, Shuffled, Increment;
      var perm := ExperimentOrder(nComb, draws);
      ghost var order := perm[..];
      PermBelow(order, nComb);
      RunExperiments(lab, ops, perm, nExp);
      tried := order[..nExp];
      PrefixMultiset(order, nExp);
    }

    method RunExperiments(lab: Lab, ops: OperatingPoints, perm: array<nat>, nExp: nat)
      requires ops.Valid() && NonNegativeTimes(lab) && AllPositive(ranges) && nExp <= perm.Length
      requires forall i :: 0 <= i < |ops.allPts| ==> ops.allPts[i].cno >= 0
      modifies ops
      ensures ops.Valid() && ops.allPts == Tried(lab, ranges, old(ops.allPts), perm[..nExp])
    {
      hide Skips;
      ghost var pts := ops.allPts;
      assert perm[..0] == [];
      for xp := 0 to nExp
        invariant ops.Valid() && ops.allPts == Tried(lab, ranges, pts, perm[..xp])
      {
        var cno := perm[xp];
        assert perm[..xp + 1] == perm[..xp] + [cno];
        TriedMore(lab, ranges, pts, perm[..xp], cno);
        TryOne(lab, ops, cno);
      }
    }
  }

  lemma PermBelow(order: seq<nat>, n: nat)
    requires multiset(order) == multiset(Identity(n))
    ensures |order| == n && forall i :: 0 <= i < |order| ==> order[i] < n
  {
    SameElements(order, Identity(n));
    forall i | 0 <= i < |order|
      ensures order[i] < n
    {
      assert order[i] in Identity(n);
    }
  }

  lemma PrefixMultiset(order: seq<nat>, k: nat)
    requires k <= |order|
    ensures multiset(order[..k]) <= multiset(order)
  {
    assert order == order[..k] + order[k..];
  }

  function Increment(s: seq<nat>): (r: seq<nat>)
    ensures |r| == |s| && forall i :: 0 <= i < |r| ==> r[i] == s[i] + 1
  {
    seq(|s|, i requires 0 <= i < |s| => s[i] + 1)
  }

  lemma NoIncrements()
    ensures Increment([]) == []
  {
  }

  lemma IncrementMore(s: seq<nat>, e: nat)
    ensures Increment(s + [e]) == Increment(s) + [e + 1]
  {
  }

  lemma {:induction false} IncrementCounts(s: seq<nat>, x: nat)
    ensures multiset(Increment(s))[x] == if x == 0 then 0 else multiset(s)[x - 1]
    decreases |s|
  {
    hide Increment;
    if s == [] {
      NoIncrements();
    } else {
      var front, last := s[..|s| - 1], s[|s| - 1];
      assert s == front + [last];
      IncrementMore(front, last);
      IncrementCounts(front, x);
    }
  }

  lemma SameIncrements(a: seq<nat>, b: seq<nat>)
    requires multiset(a) == multiset(b)
    ensures multiset(Increment(a)) == multiset(Increment(b))
  {
    hide Increment;
    forall x: nat
      ensures multiset(Increment(a))[x] == multiset(Increment(b))[x]
    {
      IncrementCounts(a, x);
      IncrementCounts(b, x);
    }
  }

  /** First, last and the shuffled others are all combinations, once each. */
  lemma OrderIsComplete(shuffled: seq<nat>, n: nat)
    requires n > 1 && multiset(shuffled) == multiset(Identity(n - 2))
    ensures multiset([0, n - 1] + Increment(shuffled)) == multiset(Identity(n))
  {
    var others := Identity(n - 2);
    assert Identity(n) == [0] + Increment(others) + [n - 1];
    hide Increment, Identity;
    SameIncrements(shuffled, others);
    assert multiset([0, n - 1] + Increment(shuffled)) == multiset{0, n - 1} + multiset(Increment(shuffled));
  }
}
