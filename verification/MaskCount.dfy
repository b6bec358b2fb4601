/** How many masks a search walks: the size of a Hamming ball, a sum of binomial coefficients. */
module MaskCount {
  import opened BitWords
  import opened FlipEnumeration

  function Binomial(n: nat, k: nat): nat {
    if k == 0 then 1 else if n == 0 then 0 else Binomial(n - 1, k) + Binomial(n - 1, k - 1)
  }

  /** The number of n-bit words with at most r ones. */
  function Ball(n: nat, r: nat): nat {
    Binomial(n, r) + if r == 0 then 0 else Ball(n, r - 1)
  }

  lemma {:induction false} BallPascal(n: nat, r: nat)
    requires n > 0 && r > 0
    ensures Ball(n, r) == Ball(n - 1, r) + Ball(n - 1, r - 1)
  {
    if r > 1 {
      BallPascal(n, r - 1);
    }
  }

  lemma {:induction false} BallOfNothing(r: nat)
    ensures Ball(0, r) == 1
  {
    if r > 0 {
      BallOfNothing(r - 1);
    }
  }

  ghost function SetBit(x: Word, n: nat): Word
    requires n < 64
  {
    x[n := true]
  }

  /** All masks, built bit by bit. */
  ghost function AllMasks(n: nat, r: nat): seq<Word>
    requires n <= 64
  {
    if n == 0 || r == 0 then [Zero()]
    else AllMasks(n - 1, r) + SetBitInAll(AllMasks(n - 1, r - 1), n - 1)
  }

  ghost function SetBitInAll(masks: seq<Word>, n: nat): seq<Word>
    requires n < 64
  {
    seq(|masks|, i requires 0 <= i < |masks| => SetBit(masks[i], n))
  }

  lemma {:induction false} AllMasksLength(n: nat, r: nat)
    requires n <= 64
    ensures |AllMasks(n, r)| == Ball(n, r)
  {
    if n == 0 {
      BallOfNothing(r);
    } else if r > 0 {
      AllMasksLength(n - 1, r);
      AllMasksLength(n - 1, r - 1);
      BallPascal(n, r);
    }
  }

  ghost predicate Distinct<T>(s: seq<T>) {
    forall i, j :: 0 <= i < j < |s| ==> s[i] != s[j]
  }

  lemma ClearBitFacts(y: Word, n: nat)
    requires n < 64 && Within(y, n + 1)
    ensures !y[n] ==> Within(y, n) && Weight(y, n + 1) == Weight(y, n)
    ensures y[n] ==> Within(y[n := false], n) && y == SetBit(y[n := false], n)
    ensures y[n] ==> Weight(y[n := false], n) + 1 == Weight(y, n + 1)
  {
    assert y[n := false][..n] == y[..n];
    WeightCongruent(y[n := false], y, n);
  }

  lemma NoWeight(y: Word)
    ensures Weight(y, 0) == 0
  {
  }

  /** With bit n - 1 clear a mask counts among the lower bits, with it set the rest has one flip less. */
  lemma AdmissibleStep(y: Word, n: nat, r: nat)
    requires 0 < n <= 64 && r > 0
    ensures Admissible(y, n, r)
      <==> Admissible(y, n - 1, r) || (Within(y, n) && y[n - 1] && Admissible(y[n - 1 := false], n - 1, r - 1))
  {
    hide Weight;
    if Within(y, n) {
      ClearBitFacts(y, n - 1);
    }
  }

  lemma AllMasksStep(n: nat, r: nat, y: Word)
    requires 0 < n <= 64 && r > 0
    ensures y in AllMasks(n, r) <==> y in AllMasks(n - 1, r) || y in SetBitInAll(AllMasks(n - 1, r - 1), n - 1)
  {
    hide SetBitInAll;
  }

  /** The masks built are the admissible ones. */
  lemma {:induction false} AllMasksAdmissible(n: nat, r: nat, y: Word)
    requires n <= 64
    ensures y in AllMasks(n, r) <==> Admissible(y, n, r)
  {
    hide Weight, SetBitInAll;
    if n == 0 || r == 0 {
      ZeroIsFirst(n, r);
      NoWeight(y);
    } else {
      hide AllMasks;
      var high := AllMasks(n - 1, r - 1);
      forall i | 0 <= i < |high|
        ensures Within(high[i], n - 1)
      {
        AllMasksAdmissible(n - 1, r - 1, high[i]);
      }
      AllMasksAdmissible(n - 1, r, y);
      AllMasksAdmissible(n - 1, r - 1, y[n - 1 := false]);
      AllMasksStep(n, r, y);
      HighMasks(high, n - 1, y);
      AdmissibleStep(y, n, r);
    }
  }

  lemma HighMasks(high: seq<Word>, n: nat, y: Word)
    requires n < 64 && forall i :: 0 <= i < |high| ==> Within(high[i], n)
    ensures y in SetBitInAll(high, n) <==> Within(y, n + 1) && y[n] && y[n := false] in high
  {
    if y in SetBitInAll(high, n) {
      var i :| 0 <= i < |high| && SetBitInAll(high, n)[i] == y;
      assert y[n := false] == high[i];
    }
    if Within(y, n + 1) && y[n] && y[n := false] in high {
      var i :| 0 <= i < |high| && high[i] == y[n := false];
      assert SetBitInAll(high, n)[i] == y;
    }
  }

  lemma {:induction false} AllMasksDistinct(n: nat, r: nat)
    requires n <= 64
    ensures Distinct(AllMasks(n, r))
  {
    if n > 0 && r > 0 {
      var low, high := AllMasks(n - 1, r), AllMasks(n - 1, r - 1);
      AllMasksDistinct(n - 1, r);
      AllMasksDistinct(n - 1, r - 1);
      forall i | 0 <= i < |low|
        ensures Within(low[i], n - 1)
      {
        AllMasksAdmissible(n - 1, r, low[i]);
      }
      forall i | 0 <= i < |high|
        ensures Within(high[i], n - 1)
      {
        AllMasksAdmissible(n - 1, r - 1, high[i]);
      }
      TwoKinds(low, high, n - 1);
    }
  }

  /** Masks without bit n and masks with it make a list without repetition. */
  lemma TwoKinds(low: seq<Word>, high: seq<Word>, n: nat)
    requires n < 64 && Distinct(low) && Distinct(high)
    requires forall i :: 0 <= i < |low| ==> Within(low[i], n)
    requires forall i :: 0 <= i < |high| ==> Within(high[i], n)
    ensures Distinct(low + SetBitInAll(high, n))
  {
    var up := SetBitInAll(high, n);
    forall i, j | 0 <= i < j < |up|
      ensures up[i] != up[j]
    {
      SetBitInjective(high[i], high[j], n);
    }
    forall i, j | 0 <= i < |low| && 0 <= j < |up|
      ensures low[i] != up[j]
    {
      assert up[j][n];
    }
  }

  lemma SetBitInjective(x: Word, y: Word, n: nat)
    requires n < 64 && Within(x, n) && Within(y, n) && x != y
    ensures SetBit(x, n) != SetBit(y, n)
  {
    var i :| 0 <= i < 64 && x[i] != y[i];
    assert SetBit(x, n)[i] == x[i] && SetBit(y, n)[i] == y[i];
  }

  lemma {:induction false} DistinctLength<T>(s: seq<T>)
    requires Distinct(s)
    ensures |set x | x in s| == |s|
  {
    if s != [] {
      var last, front := s[|s| - 1], s[..|s| - 1];
      DistinctLength(front);
      assert (set x | x in s) == (set x | x in front) + {last};
    } else {
      assert (set x | x in s) == {};
    }
  }

  /** A list of all admissible masks without repetition is as long as the ball is large. */
  lemma MasksFillBall(masks: seq<Word>, n: nat, r: nat)
    requires n <= 64 && Distinct(masks)
    requires forall y: Word :: y in masks <==> Admissible(y, n, r)
    ensures |masks| == Ball(n, r)
  {
    var all := AllMasks(n, r);
    AllMasksLength(n, r);
    AllMasksDistinct(n, r);
    forall y: Word
      ensures y in masks <==> y in all
    {
      AllMasksAdmissible(n, r, y);
    }
    assert (set y | y in masks) == (set y | y in all);
    DistinctLength(masks);
    DistinctLength(all);
  }
}
