/**
 Refinement with early pruning (include/faiss/IndexFlat.cpp, IndexFlatPanorama::search_subset):
 distances are summed level by level and a candidate is dropped as soon as a Cauchy-Schwarz
 bound puts it behind the worst of the k best. Floats are real numbers.
 */
module Panorama {
  import opened Arithmetic
  import opened TopKHeap

  type Vector = seq<real>

  /** The inner product over the places lo..hi. */
  function Dot(x: Vector, y: Vector, lo: nat, hi: nat): real
    requires lo <= hi <= |x| && hi <= |y|
  {
    if lo == hi then 0.0 else Dot(x, y, lo, hi - 1) + x[hi - 1] * y[hi - 1]
  }

  /** The squared Euclidean distance. */
  function L2(x: Vector, y: Vector, n: nat): real
    requires n <= |x| && n <= |y|
  {
    if n == 0 then 0.0 else L2(x, y, n - 1) + (x[n - 1] - y[n - 1]) * (x[n - 1] - y[n - 1])
  }

  lemma DotLast(x: Vector, y: Vector, lo: nat, hi: nat)
    requires lo < hi <= |x| && hi <= |y|
    ensures Dot(x, y, lo, hi) == Dot(x, y, lo, hi - 1) + x[hi - 1] * y[hi - 1]
  {
  }

  lemma {:induction false} DotSplit(x: Vector, y: Vector, a: nat, b: nat, c: nat)
    requires a <= b <= c <= |x| && c <= |y|
    ensures Dot(x, y, a, c) == Dot(x, y, a, b) + Dot(x, y, b, c)
  {
    if b < c {
      DotSplit(x, y, a, b, c - 1);
    }
  }

  lemma {:induction false} SquareNonNegative(x: Vector, a: nat, b: nat)
    requires a <= b <= |x|
    ensures Dot(x, x, a, b) >= 0.0
  {
    if a < b {
      SquareNonNegative(x, a, b - 1);
    }
  }

  /** The expansion of the squared distance that the search starts from. */
  lemma {:induction false} L2Expanded(x: Vector, y: Vector, n: nat)
    requires n <= |x| && n <= |y|
    ensures L2(x, y, n) == Dot(y, y, 0, n) + Dot(x, x, 0, n) - 2.0 * Dot(x, y, 0, n)
  {
    if n > 0 {
      L2Expanded(x, y, n - 1);
      SquareOfDifference(x[n - 1], y[n - 1]);
    }
  }

  lemma SquareOfDifference(a: real, b: real)
    ensures (a - b) * (a - b) == b * b + a * a - 2.0 * (a * b)
  {
  }

  // ---------- Cauchy-Schwarz ----------

  lemma SquaresGrow(s: real, t: real)
    requires 0.0 <= s < t
    ensures s * s < t * t
  {
    var m := t - s;
    assert m * m > 0.0 && m * s >= 0.0;
    assert t * t == s * s + 2.0 * (m * s) + m * m;
  }

  lemma SquareOrder(s: real, t: real)
    requires s >= 0.0 && t * t <= s * s
    ensures t <= s
  {
    if t > s {
      SquaresGrow(s, t);
    }
  }

  lemma SquareSign(t: real)
    ensures t * t >= 0.0
  {
  }

  lemma MulOrder(a: real, b: real, c: real)
    requires a <= b && c >= 0.0
    ensures a * c <= b * c
  {
  }

  /** The arithmetic of one more coordinate. */
  lemma CauchyStep(p: real, P: real, Q: real, a: real, b: real)
    requires P >= 0.0 && Q >= 0.0 && p * p <= P * Q
    ensures (p + a * b) * (p + a * b) <= (P + a * a) * (Q + b * b)
  {
    var u, v, c := P * (b * b), Q * (a * a), a * b;
    SquareSign(a);
    SquareSign(b);
    SquareSign(c);
    SquareSign(u - v);
    assert u >= 0.0 && v >= 0.0;
    assert u * v == (P * Q) * (c * c) by {
      Regroup(P, Q, a, b);
    }
    MulOrder(p * p, P * Q, c * c);
    var t, s := 2.0 * (p * c), u + v;
    assert t * t == 4.0 * ((p * p) * (c * c)) by {
      SquareOfProduct(p, c);
    }
    assert s * s == (u - v) * (u - v) + 4.0 * (u * v);
    SquareOrder(s, t);
    assert (p + c) * (p + c) == p * p + t + c * c;
    assert (P + a * a) * (Q + b * b) == P * Q + u + v + (a * a) * (b * b);
    assert (a * a) * (b * b) == c * c by {
      SquareOfProduct(a, b);
    }
  }

  lemma SquareOfProduct(a: real, b: real)
    ensures (a * b) * (a * b) == (a * a) * (b * b)
    ensures (2.0 * (a * b)) * (2.0 * (a * b)) == 4.0 * ((a * a) * (b * b))
  {
    assert (a * b) * (a * b) == a * (b * a) * b;
    assert a * (b * a) * b == a * (a * b) * b;
    assert a * (a * b) * b == (a * a) * (b * b);
  }

  lemma Regroup(P: real, Q: real, a: real, b: real)
    ensures (P * (b * b)) * (Q * (a * a)) == (P * Q) * ((a * b) * (a * b))
  {
    SquareOfProduct(a, b);
    var x, y := a * a, b * b;
    assert (P * y) * (Q * x) == (P * Q) * (x * y);
  }

  lemma {:induction false} CauchySchwarz(x: Vector, y: Vector, a: nat, b: nat)
    requires a <= b <= |x| && b <= |y|
    ensures Dot(x, y, a, b) * Dot(x, y, a, b) <= Dot(x, x, a, b) * Dot(y, y, a, b)
  {
    if a < b {
      CauchySchwarz(x, y, a, b - 1);
      SquareNonNegative(x, a, b - 1);
      SquareNonNegative(y, a, b - 1);
      DotLast(x, y, a, b);
      DotLast(x, x, a, b);
      DotLast(y, y, a, b);
      hide Dot;
      CauchyStep(Dot(x, y, a, b - 1), Dot(x, x, a, b - 1), Dot(y, y, a, b - 1), x[b - 1], y[b - 1]);
    }
  }

  /** With the norms of two vectors, the form the search uses. */
  lemma CauchySchwarzNorms(x: Vector, y: Vector, a: nat, b: nat, nx: real, ny: real)
    requires a <= b <= |x| && b <= |y|
    requires nx >= 0.0 && nx * nx == Dot(x, x, a, b) && ny >= 0.0 && ny * ny == Dot(y, y, a, b)
    ensures Dot(x, y, a, b) <= ny * nx
  {
    CauchySchwarz(x, y, a, b);
    SquareOfProduct(ny, nx);
    assert ny * nx >= 0.0;
    SquareOrder(ny * nx, Dot(x, y, a, b));
  }

  // ---------- levels ----------

  /** Subtraction of 64-bit sizes, which wraps around. */
  function WrapSub(a: nat, b: nat): (r: int)
    ensures a < 0x1_0000_0000_0000_0000 && b < 0x1_0000_0000_0000_0000 ==>
      0 <= r < 0x1_0000_0000_0000_0000 && (r + b - a) % 0x1_0000_0000_0000_0000 == 0
  {
    if a >= b then a - b else a - b + 0x1_0000_0000_0000_0000
  }

  function LevelWidth(d: nat, nLevels: nat): nat
    requires nLevels > 0
  {
    (d + nLevels - 1) / nLevels
  }

  /** The number of places read at a level. */
  function ActualWidth(d: nat, width: nat, level: nat): int {
    var rest := WrapSub(d, level * width);
    if width <= rest then width else rest
  }

  /**
   Exactly when every level reads inside the vector. Otherwise the rest of the dimension wraps
   around at the last level and it reads past the end: 5 dimensions in 4 levels, for example.
   */
  lemma LevelsInside(d: nat, nLevels: nat)
    requires nLevels > 0
    ensures var w := LevelWidth(d, nLevels);
      (forall l: nat :: l < nLevels ==> 0 <= ActualWidth(d, w, l) <= d - l * w) <==> (nLevels - 1) * w <= d
  {
    var w := LevelWidth(d, nLevels);
    if (nLevels - 1) * w <= d {
      forall l: nat | l < nLevels
        ensures 0 <= ActualWidth(d, w, l) <= d - l * w
      {
        MulMonotone(l, nLevels - 1, w);
      }
    } else {
      var l: nat := nLevels - 1;
      assert l * w > d;
      assert !(0 <= ActualWidth(d, w, l) <= d - l * w);
    }
  }

  /** Five dimensions in four levels: the last level reads places 6 and 7. */
  lemma LevelsNeedNotFit()
    ensures LevelWidth(5, 4) == 2 && ActualWidth(5, 2, 3) == 2 && 3 * 2 + 2 > 5
  {
  }

  /** The level width is the least one with which the levels cover the dimension. */
  lemma LevelsCover(d: nat, nLevels: nat, w: nat)
    requires nLevels > 0
    ensures nLevels * w >= d <==> w >= LevelWidth(d, nLevels)
  {
    var width := LevelWidth(d, nLevels);
    assert d + nLevels - 1 == width * nLevels + (d + nLevels - 1) % nLevels;
    if w >= width {
      MulMonotone(width, w, nLevels);
    } else {
      MulMonotone(w + 1, width, nLevels);
      assert (w + 1) * nLevels == w * nLevels + nLevels;
    }
  }

  /** Where a level starts, capped at the end of the vector. */
  function LevelStart(d: nat, width: nat, level: nat): (s: nat)
    ensures s <= d
  {
    if level * width <= d then level * width else d
  }

  /** Suffix norms as Panorama computes them: one for each level start and a final zero. */
  ghost predicate AreSuffixNorms(norms: seq<real>, v: Vector, nLevels: nat, width: nat) {
    && |norms| == nLevels + 1
    && (forall l :: 0 <= l <= nLevels ==>
          var s := LevelStart(|v|, width, l);
          norms[l] >= 0.0 && norms[l] * norms[l] == Dot(v, v, s, |v|))
  }

  /** At every level the partial distance less twice the product of the norms is a lower bound. */
  lemma PruningIsSound(x: Vector, y: Vector, s: nat, exact: real, nx: real, ny: real)
    requires |x| == |y| && s <= |x|
    requires exact == Dot(y, y, 0, |y|) + Dot(x, x, 0, |x|) - 2.0 * Dot(x, y, 0, s)
    requires nx >= 0.0 && nx * nx == Dot(x, x, s, |x|) && ny >= 0.0 && ny * ny == Dot(y, y, s, |y|)
    ensures exact - 2.0 * ny * nx <= L2(x, y, |x|)
  {
    L2Expanded(x, y, |x|);
    DotSplit(x, y, 0, s, |x|);
    CauchySchwarzNorms(x, y, s, |x|, nx, ny);
    assert 2.0 * ny * nx == 2.0 * (ny * nx);
  }

  /** fvec_inner_product over `width` places from `start`. */
  method InnerProduct(x: Vector, y: Vector, start: nat, width: nat) returns (r: real)
    requires start + width <= |x| == |y|
    ensures r == Dot(x, y, start, start + width)
  {
    r := 0.0;
    for i := 0 to width
      invariant r == Dot(x, y, start, start + i)
    {
      r := r + x[start + i] * y[start + i];
    }
  }

  /**
   The level loop for one candidate: either the full distance, or a proof that the candidate is
   farther than the top of the heap.
   */
  method Refine(x: Vector, y: Vector, nLevels: nat, qNorms: seq<real>, cumSums: seq<real>, top: Dist)
    returns (pruned: bool, exact: real)
    requires nLevels > 0 && |x| == |y|
    requires (nLevels - 1) * LevelWidth(|x|, nLevels) <= |x|
    requires AreSuffixNorms(qNorms, x, nLevels, LevelWidth(|x|, nLevels))
    requires AreSuffixNorms(cumSums, y, nLevels, LevelWidth(|x|, nLevels))
    ensures !pruned ==> exact == L2(x, y, |x|)
    ensures pruned ==> top.Fin? && L2(x, y, |x|) > top.value
  {
    hide Dot, L2, LevelWidth;
    var d, width := |x|, LevelWidth(|x|, nLevels);
    var cumSum := cumSums[0];
    var queryCumNorm := qNorms[0] * qNorms[0];
    StartNorms(qNorms, x, nLevels, width);
    StartNorms(cumSums, y, nLevels, width);
    exact := cumSum * cumSum + queryCumNorm;
    pruned := false;
    var start := 0;
    DotNothing(x, y);
    assert 0 * width == 0;
    for level := 0 to nLevels
      invariant start == level * width && (level < nLevels ==> start <= d)
      invariant exact == Dot(y, y, 0, d) + Dot(x, x, 0, d) - 2.0 * Dot(x, y, 0, LevelStart(d, width, level))
    {
      MulMonotone(level, nLevels - 1, width);
      LevelsInside(d, nLevels);
      var actualWidth := ActualWidth(d, width, level);
      assert (level + 1) * width == start + width;
      if level + 1 < nLevels {
        MulMonotone(level + 1, nLevels - 1, width);
      }
      var dotProduct := InnerProduct(x, y, start, actualWidth);
      ghost var s := LevelStart(d, width, level + 1);
      assert LevelStart(d, width, level) == start;
      assert s == start + actualWidth;
      DotSplit(x, y, 0, start, s);
      exact := exact - 2.0 * dotProduct;
      var cauchySchwarzBound := 2.0 * cumSums[level + 1] * qNorms[level + 1];
      var lowerBound := exact - cauchySchwarzBound;
      PruningIsSound(x, y, s, exact, qNorms[level + 1], cumSums[level + 1]);
      if top.Fin? && lowerBound > top.value {
        return true, exact;
      }
      start := start + width;
    }
    LevelsCover(d, nLevels, width);
    assert nLevels * width >= d;
    assert LevelStart(d, width, nLevels) == d;
    L2Expanded(x, y, d);
  }

  lemma StartNorms(norms: seq<real>, v: Vector, nLevels: nat, width: nat)
    requires AreSuffixNorms(norms, v, nLevels, width)
    ensures norms[0] * norms[0] == Dot(v, v, 0, |v|)
  {
    assert LevelStart(|v|, width, 0) == 0;
  }

  lemma DotNothing(x: Vector, y: Vector)
    ensures Dot(x, y, 0, 0) == 0.0
  {
  }

  // ---------- the subset search ----------

  /** The candidates with their full distances, without pruning. */
  ghost function FullCandidates(x: Vector, db: seq<Vector>, labels: seq<int>): seq<Entry>
    requires forall i :: 0 <= i < |db| ==> |db[i]| == |x|
    requires forall j :: 0 <= j < |labels| ==> labels[j] < |db|
    decreases |labels|
  {
    if labels == [] then []
    else
      var idx := labels[|labels| - 1];
      FullCandidates(x, db, labels[..|labels| - 1]) + if idx < 0 then [] else [Entry(Fin(L2(x, db[idx], |x|)), idx)]
  }

  /** Every vector of the database is a candidate once per occurrence of its place, at its distance; nothing else is. */
  lemma {:induction false} CandidatesAre(x: Vector, db: seq<Vector>, labels: seq<int>, e: Entry)
    requires forall i :: 0 <= i < |db| ==> |db[i]| == |x|
    requires forall j :: 0 <= j < |labels| ==> labels[j] < |db|
    ensures multiset(FullCandidates(x, db, labels))[e]
      == if 0 <= e.id < |db| && e.dis == Fin(L2(x, db[e.id], |x|)) then multiset(labels)[e.id] else 0
    decreases |labels|
  {
    hide L2;
    if labels != [] {
      var n := |labels| - 1;
      CandidatesAre(x, db, labels[..n], e);
      assert labels == labels[..n] + [labels[n]];
      assert multiset(labels)[e.id] == multiset(labels[..n])[e.id] + if labels[n] == e.id then 1 else 0;
    }
  }

  lemma {:induction false} FullCandidatesLabelled(x: Vector, db: seq<Vector>, labels: seq<int>)
    requires forall i :: 0 <= i < |db| ==> |db[i]| == |x|
    requires forall j :: 0 <= j < |labels| ==> labels[j] < |db|
    ensures Labelled(FullCandidates(x, db, labels))
    decreases |labels|
  {
    if labels != [] {
      FullCandidatesLabelled(x, db, labels[..|labels| - 1]);
    }
  }

  lemma HeapAddAllSnoc(h: seq<Entry>, es: seq<Entry>, e: Entry)
    requires |h| > 0
    ensures HeapAddAll(h, es + [e]) == HeapAdd(HeapAddAll(h, es), e)
  {
    assert (es + [e])[..|es|] == es;
  }

  /** A sub-index that stores its vectors, their suffix norms and the number of levels. */
  datatype PanoramaIndex = PanoramaIndex(d: nat, nLevels: nat, batchSize: nat, db: seq<Vector>,
                                         cumSums: seq<seq<real>>) {
    ghost predicate Valid() {
      && nLevels > 0 && (nLevels - 1) * LevelWidth(d, nLevels) <= d
      && |cumSums| == |db|
      && (forall i :: 0 <= i < |db| ==> |db[i]| == d)
      && (forall i :: 0 <= i < |db| ==> AreSuffixNorms(cumSums[i], db[i], nLevels, LevelWidth(d, nLevels)))
    }

    /** The pruned run over the candidates leaves the heap of the full run. */
    method ScanSubset(x: Vector, qNorms: seq<real>, labels: seq<int>, bh: array<Entry>)
      requires Valid() && |x| == d && AreSuffixNorms(qNorms, x, nLevels, LevelWidth(d, nLevels))
      requires forall j :: 0 <= j < |labels| ==> labels[j] < |db|
      requires bh.Length > 0
      modifies bh
      ensures bh[..] == HeapAddAll(old(bh[..]), FullCandidates(x, db, labels))
    {
      hide AreSuffixNorms, L2, SiftDown, LevelWidth;
      for j := 0 to |labels|
        invariant bh[..] == HeapAddAll(old(bh[..]), FullCandidates(x, db, labels[..j]))
      {
        assert labels[..j + 1][..j] == labels[..j];
        var idx := labels[j];
        ghost var before := FullCandidates(x, db, labels[..j]);
        if idx < 0 {
          assert FullCandidates(x, db, labels[..j + 1]) == before + [] == before;
          continue;
        }
        var pruned, exact := Refine(x, db[idx], nLevels, qNorms, cumSums[idx], bh[0].dis);
        ghost var e := Entry(Fin(L2(x, db[idx], d)), idx);
        assert FullCandidates(x, db, labels[..j + 1]) == before + [e];
        HeapAddAllSnoc(old(bh[..]), before, e);
        if !pruned {
          AddResult(bh, Entry(Fin(exact), idx));
        }
      }
      assert labels[..|labels|] == labels;
    }

    /** The search for one query; None stands for the exceptions on k <= 0 and on batches. */
    method SearchSubset(x: Vector, qNorms: seq<real>, labels: seq<int>, k: int) returns (res: seq<Entry>, ok: bool)
      requires Valid() && |x| == d && AreSuffixNorms(qNorms, x, nLevels, LevelWidth(d, nLevels))
      requires forall j :: 0 <= j < |labels| ==> labels[j] < |db|
      ensures ok <==> k > 0 && batchSize == 1
      ensures ok ==> |res| == k && IsTopKResult(res, FullCandidates(x, db, labels))
    {
      hide AreSuffixNorms, L2, LevelWidth, IsTopK;
      if !(k > 0) || batchSize != 1 {
        return [], false;
      }
      var bh := HeapHeapify(k);
      ghost var all := FullCandidates(x, db, labels);
      ScanSubset(x, qNorms, labels, bh);
      ghost var heap := bh[..];
      EmptyHeapCorrect(k);
      HeapAddAllCorrect(Neutrals(k), [], all);
      assert [] + all == all;
      FullCandidatesLabelled(x, db, labels);
      HeapAddAllLabelled(Neutrals(k), all);
      var nel := HeapReorder(bh);
      ReorderedIsTopK(bh[..], heap, nel, all);
      return bh[..], true;
    }
  }
}
