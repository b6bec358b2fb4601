/**
 The enumerator of bit flips (include/faiss/IndexBinaryHash.cpp): all nbit-wide masks with at
 most maxflip set bits, by increasing weight and, within a weight, by decreasing value.
 */
module FlipEnumeration {
  import opened BitWords

  ghost predicate Within(x: Word, nbit: nat)
    requires nbit <= 64
  {
    forall i :: nbit <= i < 64 ==> !x[i]
  }

  /** The masks to enumerate. */
  ghost predicate Admissible(x: Word, nbit: nat, maxflip: nat)
    requires nbit <= 64
  {
    Within(x, nbit) && Weight(x, nbit) <= maxflip
  }

  /** The promised order: lighter first, then greater first. */
  ghost predicate Precedes(a: Word, b: Word, nbit: nat)
    requires nbit <= 64
  {
    Weight(a, nbit) < Weight(b, nbit)
    || (Weight(a, nbit) == Weight(b, nbit) && Less(b, a, nbit))
  }

  ghost predicate IsFirst(a: Word, nbit: nat, maxflip: nat)
    requires nbit <= 64
  {
    && Admissible(a, nbit, maxflip)
    && forall y: Word :: Admissible(y, nbit, maxflip) ==> !Precedes(y, a, nbit)
  }

  ghost predicate IsSuccessor(a: Word, b: Word, nbit: nat, maxflip: nat)
    requires nbit <= 64
  {
    && Admissible(b, nbit, maxflip)
    && Precedes(a, b, nbit)
    && forall y: Word :: Admissible(y, nbit, maxflip) ==> !(Precedes(a, y, nbit) && Precedes(y, b, nbit))
  }

  ghost predicate IsLast(a: Word, nbit: nat, maxflip: nat)
    requires nbit <= 64
  {
    && Admissible(a, nbit, maxflip)
    && forall y: Word :: Admissible(y, nbit, maxflip) ==> !Precedes(a, y, nbit)
  }

  // ---------- the order is total on the masks ----------

  lemma PrecedesTotal(a: Word, b: Word, nbit: nat)
    requires nbit <= 64 && Within(a, nbit) && Within(b, nbit)
    ensures Precedes(a, b, nbit) || Precedes(b, a, nbit) || a == b
    ensures !(Precedes(a, b, nbit) && Precedes(b, a, nbit))
  {
    LessTotal(a, b, nbit);
    if a[..nbit] == b[..nbit] {
      assert forall i :: 0 <= i < nbit ==> a[i] == a[..nbit][i] == b[..nbit][i] == b[i];
      assert a == b;
    }
  }

  lemma PrecedesTransitive(a: Word, b: Word, c: Word, nbit: nat)
    requires nbit <= 64 && Precedes(a, b, nbit) && Precedes(b, c, nbit)
    ensures Precedes(a, c, nbit)
  {
    if Weight(a, nbit) == Weight(c, nbit) {
      LessTransitive(c, b, a, nbit);
    }
  }

  lemma ZeroIsFirst(nbit: nat, maxflip: nat)
    requires nbit <= 64
    ensures IsFirst(Zero(), nbit, maxflip)
    ensures forall y: Word :: Admissible(y, nbit, maxflip) && Weight(y, nbit) == 0 ==> y == Zero()
  {
    WeightOfZeros(Zero(), 0, nbit);
    forall y: Word | Admissible(y, nbit, maxflip) && Weight(y, nbit) == 0
      ensures y == Zero() && !Precedes(y, Zero(), nbit)
    {
      NoBits(y, nbit);
      assert y == Zero();
      LessIrreflexive(y, nbit);
    }
  }

  lemma {:induction false} NoBits(y: seq<bool>, n: nat)
    requires n <= |y| && Weight(y, n) == 0
    ensures forall i :: 0 <= i < n ==> !y[i]
  {
    if n > 0 {
      NoBits(y, n - 1);
    }
  }

  // ---------- the two kinds of step ----------

  /**
   One step within a weight: x holds r ones at the bottom, zeros up to its next one at p;
   that one moves down by one and the r ones are gathered right below it.
   */
  ghost predicate Moves(x: Word, x': Word, p: nat, r: nat) {
    && r <= p < 64
    && x[p] && !x'[p]
    && (r < p)
    && (forall i :: 0 <= i < p ==> x[i] == (i < r))
    && (forall i :: 0 <= i < p ==> x'[i] == (i >= p - (r + 1)))
    && (forall i :: p < i < 64 ==> x'[i] == x[i])
  }

  lemma MoveKeepsWeight(x: Word, x': Word, p: nat, r: nat, nbit: nat)
    requires Moves(x, x', p, r) && p < nbit <= 64
    ensures Weight(x', nbit) == Weight(x, nbit)
    ensures Less(x', x, nbit)
    ensures Weight(x, p) == r && Weight(x', p) == r + 1
  {
    WeightOfOnes(x, 0, r);
    WeightOfZeros(x, r, p);
    WeightOfZeros(x', 0, p - (r + 1));
    WeightOfOnes(x', p - (r + 1), p);
    WeightAbove(x, x', p + 1, nbit);
    LessBelow(x', x, p + 1, nbit);
  }

  lemma NothingBetweenMove(x: Word, x': Word, y: Word, p: nat, r: nat, nbit: nat)
    requires Moves(x, x', p, r) && p < nbit <= 64
    requires Weight(y, nbit) == Weight(x, nbit) && Less(y, x, nbit)
    ensures !Less(x', y, nbit)
  {
    MoveKeepsWeight(x, x', p, r, nbit);
    LessTotal(x', y, nbit);
    if exists i :: p + 1 <= i < nbit && y[i] != x[i] {
      LessAbove(y, x, x', p + 1, nbit);
    } else {
      WeightAbove(y, x, p + 1, nbit);
      LessBelow(y, x, p + 1, nbit);
      LessBelow(x', y, p + 1, nbit);
      if y[p] {
        LowOnesAreLeast(y, x, p);
      } else {
        HighOnesAreGreatest(y, x', p);
      }
    }
  }

  lemma MoveIsSuccessor(x: Word, x': Word, p: nat, r: nat, nbit: nat, maxflip: nat)
    requires p < nbit <= 64 && Admissible(x, nbit, maxflip) && Moves(x, x', p, r)
    ensures IsSuccessor(x, x', nbit, maxflip)
    ensures Weight(x', nbit) == Weight(x, nbit)
  {
    MoveKeepsWeight(x, x', p, r, nbit);
    forall y: Word | Admissible(y, nbit, maxflip) && Precedes(x, y, nbit) && Precedes(y, x', nbit)
      ensures false
    {
      NothingBetweenMove(x, x', y, p, r, nbit);
    }
  }

  /** The lowest ones are the last mask of their weight. */
  lemma LowMaskEndsWeight(x: Word, y: Word, nflip: nat, nbit: nat)
    requires nflip <= nbit <= 64 && nflip < 64 && x == LowMask(nflip)
    requires Weight(y, nbit) == nflip
    ensures Weight(x, nbit) == nflip && !Less(y, x, nbit)
  {
    WeightOfOnes(x, 0, nflip);
    WeightOfZeros(x, nflip, nbit);
    LowOnesAreLeast(y, x, nbit);
  }

  lemma LowMaskWeight(n: nat, nbit: nat)
    requires n <= nbit <= 63
    ensures Weight(LowMask(n), nbit) == n
  {
    WeightOfOnes(LowMask(n), 0, n);
    WeightOfZeros(LowMask(n), n, nbit);
  }

  lemma HighMaskWeight(n: nat, nbit: nat)
    requires n <= nbit <= 63
    ensures Weight(Shl(LowMask(n), nbit - n), nbit) == n && Within(Shl(LowMask(n), nbit - n), nbit)
  {
    var x := Shl(LowMask(n), nbit - n);
    WeightOfZeros(x, 0, nbit - n);
    WeightOfOnes(x, nbit - n, nbit);
  }

  /** The highest ones are the first mask of their weight. */
  lemma HighMaskStartsWeight(x: Word, y: Word, nflip: nat, nbit: nat)
    requires nflip <= nbit <= 63 && x == Shl(LowMask(nflip), nbit - nflip)
    requires Weight(y, nbit) == nflip
    ensures !Less(x, y, nbit)
  {
    HighOnesAreGreatest(y, x, nbit);
  }

  lemma NothingBetweenWiden(x: Word, x': Word, y: Word, nflip: nat, nbit: nat)
    requires nflip < nbit <= 63
    requires x == LowMask(nflip) && x' == Shl(LowMask(nflip + 1), nbit - (nflip + 1))
    ensures Weight(x, nbit) == nflip && Weight(x', nbit) == nflip + 1
    ensures !(Precedes(x, y, nbit) && Precedes(y, x', nbit))
  {
    hide Less, Shl, LowMask;
    LowMaskWeight(nflip, nbit);
    HighMaskWeight(nflip + 1, nbit);
    if Weight(y, nbit) == nflip {
      LowMaskEndsWeight(x, y, nflip, nbit);
    }
    if Weight(y, nbit) == nflip + 1 {
      HighMaskStartsWeight(x', y, nflip + 1, nbit);
    }
  }

  lemma WidenIsSuccessor(x: Word, x': Word, nflip: nat, nbit: nat, maxflip: nat)
    requires nflip < maxflip <= nbit <= 63
    requires x == LowMask(nflip) && x' == Shl(LowMask(nflip + 1), nbit - (nflip + 1))
    ensures IsSuccessor(x, x', nbit, maxflip)
    ensures Weight(x', nbit) == nflip + 1 && Within(x', nbit)
  {
    hide Less, Shl, LowMask, Weight;
    HighMaskWeight(nflip + 1, nbit);
    LowMaskWeight(nflip, nbit);
    forall y: Word | Admissible(y, nbit, maxflip)
      ensures !(Precedes(x, y, nbit) && Precedes(y, x', nbit))
    {
      NothingBetweenWiden(x, x', y, nflip, nbit);
    }
  }

  lemma LowMaskIsLast(x: Word, nbit: nat, maxflip: nat)
    requires maxflip <= nbit <= 63 && x == LowMask(maxflip)
    ensures IsLast(x, nbit, maxflip)
  {
    WeightOfOnes(x, 0, maxflip);
    WeightOfZeros(x, maxflip, nbit);
    forall y: Word | Admissible(y, nbit, maxflip) && Precedes(x, y, nbit)
      ensures false
    {
      LowMaskEndsWeight(x, y, maxflip, nbit);
    }
  }

  /** A mask that is not the last of its weight has a one above a zero. */
  lemma OneAboveZero(x: Word, n: nat, w: nat)
    requires n <= 64 && w < 64 && Within(x, n) && Weight(x, n) == w
    ensures x == LowMask(w) || exists i, j :: 0 <= i < j < n && !x[i] && x[j]
  {
    if forall i, j :: 0 <= i < j < n && x[j] ==> x[i] {
      OnesAreLow(x, n);
      assert x == LowMask(w);
    }
  }

  lemma {:induction false} OnesAreLow(x: seq<bool>, n: nat)
    requires n <= |x| && forall i, j :: 0 <= i < j < n && x[j] ==> x[i]
    ensures forall i :: 0 <= i < n ==> x[i] == (i < Weight(x, n))
  {
    if n > 0 {
      OnesAreLow(x, n - 1);
      if x[n - 1] {
        WeightOfOnes(x, 0, n - 1);
      }
    }
  }

  lemma SomeOne(x: Word, nbit: nat, w: nat)
    requires w <= nbit <= 63 && Within(x, nbit) && Weight(x, nbit) == w && x != LowMask(w)
    ensures NonZero(x) && CountTrailingZeros(x) < nbit
  {
    OneAboveZero(x, nbit, w);
  }

  /** With its lowest one at i > 0, a mask moves that one down. */
  lemma ShiftMoves(x: Word, nbit: nat)
    requires nbit <= 63 && NonZero(x) && 0 < CountTrailingZeros(x) < nbit
    ensures var i := CountTrailingZeros(x); Moves(x, Xor(x, Shl(Three(), i - 1)), i, 0)
  {
  }

  /** With ones at the bottom, a mask moves the next one down and gathers them below it. */
  lemma GatherMoves(x: Word, nbit: nat, w: nat)
    requires w <= nbit <= 63 && Within(x, nbit) && Weight(x, nbit) == w && x != LowMask(w) && x[0]
    ensures NonZero(Not(x))
    ensures NonZero(ClearTrailing(x))
    ensures var n1, n2 := CountTrailingZeros(Not(x)), CountTrailingZeros(ClearTrailing(x));
      && n1 < n2 < nbit
      && Moves(x, Xor(ClearTrailing(x), Shl(LowMask(n1 + 2), n2 - n1 - 1)), n2, n1)
  {
    OneAboveZero(x, nbit, w);
    var z, o :| 0 <= z < o < nbit && !x[z] && x[o];
    assert Not(x)[z];
    ClearedShape(x, z, o, nbit);
    var high, n1 := ClearTrailing(x), CountTrailingZeros(Not(x));
    var n2 := CountTrailingZeros(high);
    FlippedBits(high, n1, n2);
    GatheredShape(x, high, Xor(high, Shl(LowMask(n1 + 2), n2 - n1 - 1)), n1, n2);
  }

  function ClearTrailing(x: Word): Word
    requires NonZero(Not(x))
  {
    And(x, Shl(Not(Zero()), CountTrailingZeros(Not(x))))
  }

  lemma ClearedShape(x: Word, z: nat, o: nat, nbit: nat)
    requires z < o < nbit <= 63 && !x[z] && x[o] && Within(x, nbit) && NonZero(Not(x))
    ensures NonZero(ClearTrailing(x))
    ensures var high, n1 := ClearTrailing(x), CountTrailingZeros(Not(x));
      var n2 := CountTrailingZeros(high);
      && n1 < n2 < nbit
      && (forall i :: 0 <= i < n1 ==> x[i])
      && (forall i :: 0 <= i < 64 ==> high[i] == (i >= n1 && x[i]))
      && high[n2] && (forall i :: n1 <= i < n2 ==> !high[i])
  {
    var n1 := CountTrailingZeros(Not(x));
    TrailingOnes(x, n1);
    ClearedBits(x, n1);
    var high := ClearTrailing(x);
    assert Not(x)[z];
    assert high[o];
    var n2 := CountTrailingZeros(high);
    assert high[n2] && !high[n1];
    assert forall i :: n1 <= i < n2 ==> !high[i];
  }

  lemma TrailingOnes(x: Word, n1: nat)
    requires NonZero(Not(x)) && n1 == CountTrailingZeros(Not(x))
    ensures !x[n1] && forall i :: 0 <= i < n1 ==> x[i]
  {
    assert Not(x)[n1];
    forall i | 0 <= i < n1
      ensures x[i]
    {
      assert !Not(x)[i];
    }
  }

  lemma ClearedBits(x: Word, n1: nat)
    requires n1 < 64
    ensures forall i :: 0 <= i < 64 ==> And(x, Shl(Not(Zero()), n1))[i] == (i >= n1 && x[i])
  {
  }

  lemma FlippedBits(high: Word, n1: nat, n2: nat)
    requires n1 < n2 < 63
    ensures forall i :: 0 <= i < 64 ==>
      Xor(high, Shl(LowMask(n1 + 2), n2 - n1 - 1))[i] == (high[i] != (n2 - n1 - 1 <= i <= n2))
  {
  }

  lemma GatheredShape(x: Word, high: Word, x': Word, n1: nat, n2: nat)
    requires n1 < n2 < 64
    requires forall i :: 0 <= i < n1 ==> x[i]
    requires forall i :: 0 <= i < 64 ==> high[i] == (i >= n1 && x[i])
    requires high[n2] && forall i :: n1 <= i < n2 ==> !high[i]
    requires forall i :: 0 <= i < 64 ==> x'[i] == (high[i] != (n2 - n1 - 1 <= i <= n2))
    ensures Moves(x, x', n2, n1)
  {
  }

  class FlipEnumerator {
    const nbit: nat
    const maxflip: nat
    var nflip: nat
    var mask: Word
    var x: Word

    ghost predicate Valid()
      reads this
    {
      && nflip <= maxflip <= nbit <= 63
      && mask == LowMask(nflip)
      && Within(x, nbit)
      && Weight(x, nbit) == nflip
    }

    constructor (nbit: nat, maxflip: nat)
      requires maxflip <= nbit <= 63
      ensures Valid() && this.nbit == nbit && this.maxflip == maxflip
      ensures x == Zero() && IsFirst(x, nbit, maxflip)
    {
      this.nbit := nbit;
      this.maxflip := maxflip;
      nflip := 0;
      mask := Zero();
      x := Zero();
      new;
      assert mask == LowMask(0);
      WeightOfZeros(x, 0, nbit);
      ZeroIsFirst(nbit, maxflip);
    }

    /**
     Moves to the immediate successor, or answers false on the last mask. The pair of masks
     of greater weight still allowed and value of x decreases, so repeated calls end.
     */
    method Next() returns (more: bool)
      requires Valid()
      modifies this`nflip, this`mask, this`x
      ensures Valid()
      ensures more ==> IsSuccessor(old(x), x, nbit, maxflip)
      ensures more ==> nflip > old(nflip) || (nflip == old(nflip) && Value(x, nbit) < Value(old(x), nbit))
      ensures !more ==> IsLast(x, nbit, maxflip) && x == old(x) && nflip == old(nflip)
    {
      hide IsSuccessor, IsLast, Precedes, LowMask, Shl;
      if x == mask {
        if nflip == maxflip {
          LowMaskIsLast(x, nbit, maxflip);
          return false;
        }
        WidenIsSuccessor(x, Shl(LowMask(nflip + 1), nbit - (nflip + 1)), nflip, nbit, maxflip);
        nflip := nflip + 1;
        mask := LowMask(nflip);
        x := Shl(mask, nbit - nflip);
        return true;
      }
      SlideDown();
      return true;
    }

    /** The bit tricks that go to the next mask of the same weight. */
    method SlideDown()
      requires Valid() && x != mask
      modifies this`x
      ensures Valid() && IsSuccessor(old(x), x, nbit, maxflip)
      ensures Value(x, nbit) < Value(old(x), nbit)
    {
      hide IsSuccessor, Weight, Less, Xor, And, Shl, Not, LowMask;
      ghost var p, r;
      ghost var before := x;
      SomeOne(x, nbit, nflip);
      var i := CountTrailingZeros(x);
      if i > 0 {
        ShiftMoves(x, nbit);
        p, r := i, 0;
        x := Xor(x, Shl(Three(), i - 1));
        assert Moves(before, x, p, r);
      } else {
        GatherMoves(x, nbit, nflip);
        var n1 := CountTrailingZeros(Not(x));
        x := And(x, Shl(Not(Zero()), n1));
        assert x == ClearTrailing(before);
        var n2 := CountTrailingZeros(x);
        p, r := n2, n1;
        x := Xor(x, Shl(LowMask(n1 + 2), n2 - n1 - 1));
        assert Moves(before, x, p, r);
      }
      MoveKeepsWeight(before, x, p, r, nbit);
      MoveIsSuccessor(before, x, p, r, nbit, maxflip);
      LessIsNumeric(x, before, nbit);
    }
  }

  // ---------- the whole run ----------

  ghost predicate InOrder(masks: seq<Word>, nbit: nat)
    requires nbit <= 64
  {
    forall i, j :: 0 <= i < j < |masks| ==> Precedes(masks[i], masks[j], nbit)
  }

  /** `seen` holds the masks up to and including x. */
  ghost predicate SeenUpTo(seen: seq<Word>, x: Word, nbit: nat, maxflip: nat)
    requires nbit <= 64
  {
    && InOrder(seen, nbit)
    && |seen| > 0 && seen[|seen| - 1] == x
    && forall y: Word :: y in seen <==> Admissible(y, nbit, maxflip) && !Precedes(x, y, nbit)
  }

  lemma SeenStart(nbit: nat, maxflip: nat)
    requires maxflip <= nbit <= 63
    ensures SeenUpTo([Zero()], Zero(), nbit, maxflip)
  {
    ZeroIsFirst(nbit, maxflip);
    LessIrreflexive(Zero(), nbit);
    forall y: Word | Admissible(y, nbit, maxflip) && !Precedes(Zero(), y, nbit)
      ensures y == Zero()
    {
      PrecedesTotal(Zero(), y, nbit);
    }
  }

  lemma SeenStep(seen: seq<Word>, x: Word, x': Word, nbit: nat, maxflip: nat)
    requires maxflip <= nbit <= 63
    requires SeenUpTo(seen, x, nbit, maxflip) && IsSuccessor(x, x', nbit, maxflip)
    ensures SeenUpTo(seen + [x'], x', nbit, maxflip)
    ensures x' !in seen
  {
    assert x in seen;
    forall y: Word
      ensures y in seen + [x'] <==> Admissible(y, nbit, maxflip) && !Precedes(x', y, nbit)
    {
      if Within(y, nbit) {
        PrecedesTotal(x, y, nbit);
        PrecedesTotal(x', y, nbit);
        if Precedes(x', y, nbit) {
          PrecedesTransitive(x, x', y, nbit);
        }
      }
    }
    forall i | 0 <= i < |seen|
      ensures Precedes(seen[i], x', nbit)
    {
      assert seen[i] in seen;
      PrecedesTotal(x, seen[i], nbit);
      if seen[i] != x {
        PrecedesTransitive(seen[i], x, x', nbit);
      }
    }
  }

  lemma SeenEnd(seen: seq<Word>, x: Word, nbit: nat, maxflip: nat)
    requires nbit <= 64
    requires SeenUpTo(seen, x, nbit, maxflip) && IsLast(x, nbit, maxflip)
    ensures forall y: Word :: y in seen <==> Admissible(y, nbit, maxflip)
  {
  }

  lemma InOrderIsInjective(masks: seq<Word>, nbit: nat)
    requires nbit <= 64 && InOrder(masks, nbit)
    ensures forall i, j :: 0 <= i < j < |masks| ==> masks[i] != masks[j]
  {
    forall i, j | 0 <= i < j < |masks|
      ensures masks[i] != masks[j]
    {
      LessIrreflexive(masks[i], nbit);
    }
  }

  /** The do-while loop of the searches: every mask exactly once, in order, and then an end. */
  method EnumerateMasks(nbit: nat, maxflip: nat) returns (masks: seq<Word>)
    requires maxflip <= nbit <= 63
    ensures InOrder(masks, nbit)
    ensures forall y: Word :: y in masks <==> Admissible(y, nbit, maxflip)
    ensures forall i, j :: 0 <= i < j < |masks| ==> masks[i] != masks[j]
  {
    var fe := new FlipEnumerator(nbit, maxflip);
    masks := [fe.x];
    SeenStart(nbit, maxflip);
    var more := fe.Next();
    while more
      invariant fe.Valid() && fe.nbit == nbit && fe.maxflip == maxflip && |masks| > 0
      invariant more ==> SeenUpTo(masks, masks[|masks| - 1], nbit, maxflip)
      invariant more ==> IsSuccessor(masks[|masks| - 1], fe.x, nbit, maxflip)
      invariant !more ==> SeenUpTo(masks, fe.x, nbit, maxflip) && IsLast(fe.x, nbit, maxflip)
      decreases maxflip - fe.nflip, Value(fe.x, nbit), more
    {
      SeenStep(masks, masks[|masks| - 1], fe.x, nbit, maxflip);
      masks := masks + [fe.x];
      more := fe.Next();
    }
    SeenEnd(masks, fe.x, nbit, maxflip);
    InOrderIsInjective(masks, nbit);
  }
}
