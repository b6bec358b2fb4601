/**
 A window of slices over one set of inverted lists (SlidingIndexWindow in include/faiss/IVFlib.cpp).
 The lists hold the ids and the code bytes of all live slices one after the other; the window
 keeps, per list, where each slice ends.
 */
module SlidingWindow {
  import opened Bytes
  import opened Wrappers

  /** The inverted lists of an index: per list its ids and its code bytes. */
  datatype Slice = Slice(codeSize: nat, ids: seq<seq<int>>, codes: seq<seq<Byte>>) {
    ghost predicate Valid() {
      |ids| == |codes| && forall l :: 0 <= l < |ids| ==> |codes[l]| == |ids[l]| * codeSize
    }
  }

  // ---------- the queue of slices ----------

  /** One step of the queue: the oldest slice leaves and a new one joins, either being optional. */
  function After(slices: seq<Slice>, sub: Option<Slice>, removeOldest: bool): seq<Slice>
    requires removeOldest ==> slices != []
  {
    (if removeOldest then slices[1..] else slices) + if sub.Some? then [sub.value] else []
  }

  function JoinIds(slices: seq<Slice>, l: nat): seq<int>
    requires forall s :: 0 <= s < |slices| ==> l < |slices[s].ids|
  {
    if slices == [] then [] else JoinIds(slices[..|slices| - 1], l) + slices[|slices| - 1].ids[l]
  }

  function JoinCodes(slices: seq<Slice>, l: nat): seq<Byte>
    requires forall s :: 0 <= s < |slices| ==> l < |slices[s].codes|
  {
    if slices == [] then [] else JoinCodes(slices[..|slices| - 1], l) + slices[|slices| - 1].codes[l]
  }

  /** Every slice has the window's number of lists. */
  ghost predicate Wide(slices: seq<Slice>, nlist: nat) {
    forall s :: 0 <= s < |slices| ==> |slices[s].ids| == |slices[s].codes| == nlist
  }

  lemma JoinMore(slices: seq<Slice>, sub: Slice, nlist: nat, l: nat)
    requires Wide(slices, nlist) && |sub.ids| == |sub.codes| == nlist && l < nlist
    ensures Wide(slices + [sub], nlist)
    ensures JoinIds(slices + [sub], l) == JoinIds(slices, l) + sub.ids[l]
    ensures JoinCodes(slices + [sub], l) == JoinCodes(slices, l) + sub.codes[l]
  {
    assert (slices + [sub])[..|slices|] == slices && sub == (slices + [sub])[|slices|];
  }

  lemma JoinNone(slices: seq<Slice>, l: nat)
    requires slices == []
    ensures JoinIds(slices, l) == [] && JoinCodes(slices, l) == []
  {
  }

  lemma {:induction false} JoinFirst(slices: seq<Slice>, nlist: nat, l: nat)
    requires Wide(slices, nlist) && slices != [] && l < nlist
    ensures JoinIds(slices, l) == slices[0].ids[l] + JoinIds(slices[1..], l)
    ensures JoinCodes(slices, l) == slices[0].codes[l] + JoinCodes(slices[1..], l)
  {
    hide JoinIds, JoinCodes;
    var n := |slices| - 1;
    var front, last := slices[..n], slices[n];
    assert slices == front + [last];
    JoinMore(front, last, nlist, l);
    if n == 0 {
      JoinNone(front, l);
      JoinNone(slices[1..], l);
    } else {
      JoinFirst(front, nlist, l);
      assert slices[1..] == front[1..] + [last];
      JoinMore(front[1..], last, nlist, l);
    }
  }

  /** What a window holds of a list: the slices' parts of it, each behind those before. */
  lemma {:induction false} JoinAt(slices: seq<Slice>, nlist: nat, l: nat, j: nat)
    requires Wide(slices, nlist) && l < nlist && j < |slices|
    ensures var a, b := |JoinIds(slices[..j], l)|, |JoinIds(slices[..j + 1], l)|;
      a <= b <= |JoinIds(slices, l)| && JoinIds(slices, l)[a..b] == slices[j].ids[l]
    ensures var a, b := |JoinCodes(slices[..j], l)|, |JoinCodes(slices[..j + 1], l)|;
      a <= b <= |JoinCodes(slices, l)| && JoinCodes(slices, l)[a..b] == slices[j].codes[l]
    decreases |slices|
  {
    hide JoinIds, JoinCodes;
    var n := |slices| - 1;
    var front := slices[..n];
    assert slices == front + [slices[n]];
    JoinMore(front, slices[n], nlist, l);
    if j == n {
      assert slices[..j + 1] == slices;
    } else {
      JoinAt(front, nlist, l, j);
      assert front[..j] == slices[..j] && front[..j + 1] == slices[..j + 1];
      Within(JoinIds(front, l), slices[n].ids[l], |JoinIds(slices[..j], l)|, |JoinIds(slices[..j + 1], l)|);
      Within(JoinCodes(front, l), slices[n].codes[l], |JoinCodes(slices[..j], l)|, |JoinCodes(slices[..j + 1], l)|);
    }
  }

  lemma Within<T>(s: seq<T>, t: seq<T>, a: nat, b: nat)
    requires a <= b <= |s|
    ensures (s + t)[a..b] == s[a..b]
  {
  }

  // ---------- one list ----------

  /** List l holds its part of every slice in order, and sizes says where each part ends. */
  ghost predicate ListMatches(slices: seq<Slice>, nlist: nat, l: nat, ids: seq<int>, codes: seq<Byte>, sizes: seq<nat>)
    requires Wide(slices, nlist) && l < nlist
  {
    && ids == JoinIds(slices, l) && codes == JoinCodes(slices, l)
    && |sizes| == |slices| && forall j :: 0 <= j < |slices| ==> sizes[j] == |JoinIds(slices[..j + 1], l)|
  }

  lemma ListAdded(slices: seq<Slice>, sub: Slice, nlist: nat, l: nat, ids: seq<int>, codes: seq<Byte>, sizes: seq<nat>)
    requires Wide(slices, nlist) && |sub.ids| == |sub.codes| == nlist && l < nlist
    requires ListMatches(slices, nlist, l, ids, codes, sizes)
    ensures Wide(slices + [sub], nlist)
    ensures ListMatches(slices + [sub], nlist, l, ids + sub.ids[l], codes + sub.codes[l], sizes + [|ids + sub.ids[l]|])
  {
    hide JoinIds, JoinCodes;
    var all := slices + [sub];
    JoinMore(slices, sub, nlist, l);
    forall j | 0 <= j < |all|
      ensures (sizes + [|ids + sub.ids[l]|])[j] == |JoinIds(all[..j + 1], l)|
    {
      if j < |slices| {
        assert all[..j + 1] == slices[..j + 1];
      } else {
        assert all[..j + 1] == all;
      }
    }
  }

  /** What is left of the sizes when the first slice goes. */
  ghost predicate IsShifted(shifted: seq<nat>, sizes: seq<nat>) {
    |shifted| + 1 == |sizes| && forall j :: 0 <= j < |shifted| ==> shifted[j] + sizes[0] == sizes[j + 1]
  }

  lemma ListRemoved(slices: seq<Slice>, nlist: nat, l: nat, ids: seq<int>, codes: seq<Byte>, sizes: seq<nat>,
                    shifted: seq<nat>)
    requires Wide(slices, nlist) && l < nlist && slices != []
    requires ListMatches(slices, nlist, l, ids, codes, sizes) && IsShifted(shifted, sizes)
    ensures sizes[0] == |slices[0].ids[l]| <= |ids| && |slices[0].codes[l]| <= |codes|
    ensures Wide(slices[1..], nlist)
    ensures ListMatches(slices[1..], nlist, l, ids[sizes[0]..], codes[|slices[0].codes[l]|..], shifted)
  {
    hide JoinIds, JoinCodes;
    FirstPart(slices, nlist, l);
    JoinFirst(slices, nlist, l);
    var rest := slices[1..];
    forall j | 0 <= j < |rest|
      ensures shifted[j] == |JoinIds(rest[..j + 1], l)|
    {
      JoinFirst(slices[..j + 2], nlist, l);
      assert slices[..j + 2][1..] == rest[..j + 1];
      assert slices[..j + 2] == slices[..(j + 1) + 1];
    }
  }

  lemma FirstPart(slices: seq<Slice>, nlist: nat, l: nat)
    requires Wide(slices, nlist) && slices != [] && l < nlist
    ensures JoinIds(slices[..1], l) == slices[0].ids[l]
  {
    JoinFirst(slices[..1], nlist, l);
    assert JoinIds(slices[..1][1..], l) == [];
  }

  /** How much of a list goes with its first slice. */
  lemma RemovalFacts(slices: seq<Slice>, nlist: nat, codeSize: nat, l: nat, ids: seq<int>, codes: seq<Byte>,
                     sizes: seq<nat>)
    requires Wide(slices, nlist) && l < nlist && slices != [] && slices[0].Valid() && slices[0].codeSize == codeSize
    requires ListMatches(slices, nlist, l, ids, codes, sizes)
    ensures |sizes| == |slices| && sizes[0] == |slices[0].ids[l]| <= |ids|
    ensures sizes[0] * codeSize == |slices[0].codes[l]| <= |codes|
    ensures forall j :: 0 <= j < |sizes| ==> sizes[0] <= sizes[j]
  {
    hide JoinIds, JoinCodes;
    FirstPart(slices, nlist, l);
    JoinFirst(slices, nlist, l);
    forall j | 0 <= j < |sizes|
      ensures sizes[0] <= sizes[j]
    {
      JoinFirst(slices[..j + 1], nlist, l);
    }
  }

  // ---------- the number of vectors ----------

  function Total(ids: seq<seq<int>>): nat {
    if ids == [] then 0 else Total(ids[..|ids| - 1]) + |ids[|ids| - 1]|
  }

  lemma {:induction false} TotalUpdate(ids: seq<seq<int>>, l: nat, list: seq<int>)
    requires l < |ids|
    ensures Total(ids[l := list]) == Total(ids) - |ids[l]| + |list|
  {
    var n := |ids| - 1;
    if l == n {
      assert ids[l := list][..n] == ids[..n];
    } else {
      assert ids[l := list][..n] == ids[..n][l := list];
      TotalUpdate(ids[..n], l, list);
    }
  }

  lemma {:induction false} TotalEmpty(ids: seq<seq<int>>)
    requires forall l :: 0 <= l < |ids| ==> ids[l] == []
    ensures Total(ids) == 0
  {
    if ids != [] {
      TotalEmpty(ids[..|ids| - 1]);
    }
  }

  // ---------- operations on a vector ----------

  /** The vector at a new size; new places are filled with a blank. */
  function Resized<T>(v: seq<T>, size: nat, blank: T): seq<T> {
    if size <= |v| then v[..size] else v + seq(size - |v|, i => blank)
  }

  /** Moves the rest of the vector to its front (memmove), resizes it and copies src behind. */
  method ShiftAndAdd<T>(dst: seq<T>, remove: nat, src: seq<T>, blank: T) returns (r: seq<T>)
    requires remove <= |dst|
    ensures r == dst[remove..] + src
  {
    r := dst;
    if remove > 0 {
      r := dst[remove..] + dst[|dst| - remove..];
    }
    var insertPoint := |dst| - remove;
    r := Resized(r, insertPoint + |src|, blank);
    r := r[..insertPoint] + src;
  }

  method RemoveFromBegin<T>(v: seq<T>, remove: nat) returns (r: seq<T>)
    requires remove <= |v|
    ensures r == v[remove..]
  {
    r := v;
    if remove > 0 {
      r := v[remove..];
    }
  }

  /** The in-place loop over the sizes of a list when its first slice goes. */
  method ShiftSizes(sizes: seq<nat>, amount: nat) returns (r: seq<nat>)
    requires |sizes| > 0 && amount == sizes[0] && forall j :: 0 <= j < |sizes| ==> amount <= sizes[j]
    ensures |r| == |sizes| && IsShifted(r[..|sizes| - 1], sizes)
  {
    r := sizes;
    var j := 0;
    while j + 1 < |sizes|
      invariant 0 <= j < |sizes| && |r| == |sizes|
      invariant forall q :: 0 <= q < j ==> r[q] + amount == sizes[q + 1]
      invariant forall q :: j <= q < |sizes| ==> r[q] == sizes[q]
    {
      r := r[j := r[j + 1] - amount];
      j := j + 1;
    }
  }

  // ---------- the window ----------

  class SlidingIndexWindow {
    const nlist: nat
    const codeSize: nat
    var ids: seq<seq<int>>
    var codes: seq<seq<Byte>>
    var sizes: seq<seq<nat>>
    var nSlice: nat
    var ntotal: int
    ghost var slices: seq<Slice>

    ghost predicate Valid()
      reads this
    {
      && |ids| == |codes| == |sizes| == nlist && nSlice == |slices| && ntotal == Total(ids)
      && Wide(slices, nlist) && (forall s :: 0 <= s < |slices| ==> slices[s].Valid() && slices[s].codeSize == codeSize)
      && forall l :: 0 <= l < nlist ==> ListMatches(slices, nlist, l, ids[l], codes[l], sizes[l])
    }

    /** The window of an empty index. */
    constructor (nlist: nat, codeSize: nat)
      ensures Valid() && slices == [] && this.nlist == nlist && this.codeSize == codeSize
    {
      this.nlist, this.codeSize := nlist, codeSize;
      ids, codes, sizes := seq(nlist, l => []), seq(nlist, l => []), seq(nlist, l => []);
      nSlice, ntotal, slices := 0, 0, [];
      new;
      TotalEmpty(ids);
    }

    /** Whether a sub-index fits this one (the part of check_compatible_for_merge that is about shape). */
    predicate Compatible(sub: Slice) {
      |sub.ids| == nlist && sub.codeSize == codeSize
    }

    /** Some lists are those of the new slices, the others still those of the old ones. */
    ghost predicate Half(before: seq<Slice>, after: seq<Slice>, l: nat)
      requires Wide(before, nlist) && Wide(after, nlist) && l <= nlist
      reads this
    {
      && |ids| == |codes| == |sizes| == nlist && ntotal == Total(ids)
      && (forall q :: 0 <= q < l ==> ListMatches(after, nlist, q, ids[q], codes[q], sizes[q]))
      && (forall q :: l <= q < nlist ==> ListMatches(before, nlist, q, ids[q], codes[q], sizes[q]))
    }

    /** One step of the window. It refuses to remove from an empty window and to do nothing at all. */
    method Step(sub: Option<Slice>, removeOldest: bool) returns (ok: bool)
      requires Valid() && (sub.Some? ==> sub.value.Valid())
      modifies this
      ensures Valid()
      ensures ok <==>
        && (!removeOldest || old(slices) != []) && (sub.Some? || removeOldest)
        && (sub.Some? ==> |sub.value.ids| == nlist && sub.value.codeSize == codeSize)
      ensures ok ==>
        slices == (if removeOldest then old(slices)[1..] else old(slices)) + if sub.Some? then [sub.value] else []
      ensures !ok ==> unchanged(this)
    {
      hide ListMatches, Total;
      if removeOldest && nSlice == 0 {
        return false;
      }
      if sub.Some? && !Compatible(sub.value) {
        return false;
      }
      ghost var after := if sub.Some? || removeOldest then After(slices, sub, removeOldest) else slices;
      if removeOldest && sub.Some? {
        for i := 0 to nlist
          invariant Half(old(slices), after, i) && nSlice == old(nSlice) && slices == old(slices)
        {
          SwapList(i, sub.value, after);
        }
      } else if sub.Some? {
        for i := 0 to nlist
          invariant Half(old(slices), after, i) && nSlice == old(nSlice) && slices == old(slices)
        {
          AddToList(i, sub.value, after);
        }
        nSlice := nSlice + 1;
      } else if removeOldest {
        for i := 0 to nlist
          invariant Half(old(slices), after, i) && nSlice == old(nSlice) && slices == old(slices)
        {
          RemoveFromList(i, after);
        }
        nSlice := nSlice - 1;
      } else {
        return false;
      }
      slices := after;
      ok := true;
    }

    method SwapList(i: nat, sub: Slice, ghost after: seq<Slice>)
      requires i < nlist && sub.Valid() && Compatible(sub)
      requires Wide(slices, nlist) && slices != [] && nSlice == |slices|
      requires slices[0].Valid() && slices[0].codeSize == codeSize
      requires after == slices[1..] + [sub] && Wide(after, nlist) && Half(slices, after, i)
      modifies this`ids, this`codes, this`sizes, this`ntotal
      ensures Half(slices, after, i + 1)
    {
      hide ListMatches, JoinIds, JoinCodes;
      var sizesi := sizes[i];
      RemovalFacts(slices, nlist, codeSize, i, ids[i], codes[i], sizesi);
      var amountToRemove := sizesi[0];
      ntotal := ntotal + (|sub.ids[i]| - amountToRemove);
      var newIds := ShiftAndAdd(ids[i], amountToRemove, sub.ids[i], 0);
      var newCodes := ShiftAndAdd(codes[i], amountToRemove * codeSize, sub.codes[i], 0);
      sizesi := ShiftSizes(sizesi, amountToRemove);
      ghost var shifted := sizesi[..nSlice - 1];
      ListRemoved(slices, nlist, i, ids[i], codes[i], sizes[i], shifted);
      ListAdded(slices[1..], sub, nlist, i, ids[i][amountToRemove..], codes[i][amountToRemove * codeSize..], shifted);
      TotalUpdate(ids, i, newIds);
      sizesi := sizesi[nSlice - 1 := |newIds|];
      assert sizesi == shifted + [|newIds|];
      ids, codes, sizes := ids[i := newIds], codes[i := newCodes], sizes[i := sizesi];
    }

    method AddToList(i: nat, sub: Slice, ghost after: seq<Slice>)
      requires i < nlist && sub.Valid() && Compatible(sub) && Wide(slices, nlist)
      requires after == slices + [sub] && Wide(after, nlist) && Half(slices, after, i)
      modifies this`ids, this`codes, this`sizes, this`ntotal
      ensures Half(slices, after, i + 1)
    {
      hide ListMatches, JoinIds, JoinCodes;
      ntotal := ntotal + |sub.ids[i]|;
      var newIds := ShiftAndAdd(ids[i], 0, sub.ids[i], 0);
      var newCodes := ShiftAndAdd(codes[i], 0, sub.codes[i], 0);
      ListAdded(slices, sub, nlist, i, ids[i], codes[i], sizes[i]);
      TotalUpdate(ids, i, newIds);
      ids, codes := ids[i := newIds], codes[i := newCodes];
      sizes := sizes[i := sizes[i] + [|ids[i]|]];
    }

    method RemoveFromList(i: nat, ghost after: seq<Slice>)
      requires i < nlist && Wide(slices, nlist) && slices != [] && nSlice == |slices|
      requires slices[0].Valid() && slices[0].codeSize == codeSize
      requires after == slices[1..] && Wide(after, nlist) && Half(slices, after, i)
      modifies this`ids, this`codes, this`sizes, this`ntotal
      ensures Half(slices, after, i + 1)
    {
      hide ListMatches, JoinIds, JoinCodes;
      RemovalFacts(slices, nlist, codeSize, i, ids[i], codes[i], sizes[i]);
      var amountToRemove := sizes[i][0];
      ntotal := ntotal - amountToRemove;
      var newIds := RemoveFromBegin(ids[i], amountToRemove);
      var newCodes := RemoveFromBegin(codes[i], amountToRemove * codeSize);
      var shifted := ShiftSizes(sizes[i], amountToRemove);
      ListRemoved(slices, nlist, i, ids[i], codes[i], sizes[i], shifted[..nSlice - 1]);
      TotalUpdate(ids, i, newIds);
      ids, codes := ids[i := newIds], codes[i := newCodes];
      sizes := sizes[i := shifted[..|shifted| - 1]];
    }
  }

  // ---------- runs ----------

  datatype StepArgs = StepArgs(sub: Option<Slice>, removeOldest: bool)

  /** The slices after a run, or None when some step is refused because there is nothing to remove. */
  function Run(steps: seq<StepArgs>): Option<seq<Slice>> {
    if steps == [] then Some([])
    else
      var before, last := Run(steps[..|steps| - 1]), steps[|steps| - 1];
      if before.None? || (last.removeOldest && before.value == []) then None
      else Some(After(before.value, last.sub, last.removeOldest))
  }

  /** All slices a run brings in, in order. */
  function Joined(steps: seq<StepArgs>): seq<Slice> {
    if steps == [] then []
    else Joined(steps[..|steps| - 1]) + if steps[|steps| - 1].sub.Some? then [steps[|steps| - 1].sub.value] else []
  }

  /** How many slices a run lets go. */
  function Left(steps: seq<StepArgs>): nat {
    if steps == [] then 0 else Left(steps[..|steps| - 1]) + if steps[|steps| - 1].removeOldest then 1 else 0
  }

  /** First in, first out: the slices alive are those that joined, without the first that left. */
  lemma {:induction false} RunIsQueue(steps: seq<StepArgs>)
    requires Run(steps).Some?
    ensures Left(steps) <= |Joined(steps)| && Run(steps).value == Joined(steps)[Left(steps)..]
  {
    if steps != [] {
      RunIsQueue(steps[..|steps| - 1]);
    }
  }
}
