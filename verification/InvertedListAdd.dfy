/**
 Adding vectors to inverted lists: the batched add that sorts by list
 (include/faiss/IndexIVFFastScan.cpp) and the add that shares the lists out to threads
 (include/faiss/IndexIVF.cpp). Both append as if vectors came one at a time.
 */
module InvertedListAdd {
  import opened Bytes
  import opened Schedule
  import opened Wrappers

  datatype InvList = InvList(ids: seq<int>, codes: seq<Code>) {
    function Add(id: int, code: Code): InvList {
      InvList(ids + [id], codes + [code])
    }
  }

  /** The vectors of one call: the list each is assigned to (negative for none), its code and its id. */
  datatype Batch = Batch(assign: seq<int>, codes: seq<Code>, ids: seq<int>) {
    ghost predicate Valid(nlist: nat) {
      |assign| == |codes| == |ids| && forall i :: 0 <= i < |assign| ==> assign[i] < nlist
    }

    function Prefix(m: nat): Batch
      requires m <= |assign| && m <= |codes| && m <= |ids|
    {
      Batch(assign[..m], codes[..m], ids[..m])
    }
  }

  /** The ids of a call: those given, or numbers on from ntotal. */
  function IdsFor(n: nat, xids: Option<seq<int>>, ntotal: nat): (r: seq<int>)
    requires xids.Some? ==> |xids.value| == n
    ensures |r| == n && forall i :: 0 <= i < n ==> r[i] == if xids.Some? then xids.value[i] else ntotal + i
  {
    if xids.Some? then xids.value else seq(n, i => ntotal + i)
  }

  /** One vector: appended to its list, and skipped when it has none. */
  function AppendOne(lists: seq<InvList>, l: int, id: int, code: Code): (r: seq<InvList>)
    requires l < |lists|
    ensures |r| == |lists|
  {
    if l < 0 then lists else lists[l := lists[l].Add(id, code)]
  }

  /** One vector at a time, in input order. */
  function Appended(lists: seq<InvList>, batch: Batch): (r: seq<InvList>)
    requires batch.Valid(|lists|)
    ensures |r| == |lists|
    decreases |batch.assign|
  {
    if batch.assign == [] then lists
    else
      var n := |batch.assign| - 1;
      AppendOne(Appended(lists, batch.Prefix(n)), batch.assign[n], batch.ids[n], batch.codes[n])
  }

  // ---------- what one list receives ----------

  /** The places assigned to list l, in order. */
  function Places(assign: seq<int>, l: int): (r: seq<nat>)
    ensures forall i: nat :: i in r <==> i < |assign| && assign[i] == l
    decreases |assign|
  {
    if assign == [] then []
    else
      var n := |assign| - 1;
      Places(assign[..n], l) + if assign[n] == l then [n] else []
  }

  function Pick<T>(s: seq<T>, places: seq<nat>): (r: seq<T>)
    requires forall i :: 0 <= i < |places| ==> places[i] < |s|
    ensures |r| == |places| && forall i :: 0 <= i < |r| ==> r[i] == s[places[i]]
  {
    seq(|places|, i requires 0 <= i < |places| => s[places[i]])
  }

  /** A list with the ids and codes of these places behind its own. */
  function Received(il: InvList, batch: Batch, places: seq<nat>): (r: InvList)
    requires forall i :: 0 <= i < |places| ==> places[i] < |batch.ids| && places[i] < |batch.codes|
    ensures il.ids <= r.ids && |r.ids| == |il.ids| + |places|
    ensures il.codes <= r.codes && |r.codes| == |il.codes| + |places|
    ensures forall i :: 0 <= i < |places| ==>
      r.ids[|il.ids| + i] == batch.ids[places[i]] && r.codes[|il.codes| + i] == batch.codes[places[i]]
  {
    InvList(il.ids + Pick(batch.ids, places), il.codes + Pick(batch.codes, places))
  }

  lemma PlacesBelow(assign: seq<int>, l: int)
    ensures forall i :: 0 <= i < |Places(assign, l)| ==> Places(assign, l)[i] < |assign|
  {
    forall i | 0 <= i < |Places(assign, l)|
      ensures Places(assign, l)[i] < |assign|
    {
      assert Places(assign, l)[i] in Places(assign, l);
    }
  }

  ghost predicate Below(places: seq<nat>, n: nat) {
    forall i :: 0 <= i < |places| ==> places[i] < n
  }

  lemma ReceivedMore(il: InvList, batch: Batch, places: seq<nat>, n: nat)
    requires |batch.ids| == |batch.codes| && Below(places, |batch.ids|) && n < |batch.ids|
    ensures Received(il, batch, places + [n]) == Received(il, batch, places).Add(batch.ids[n], batch.codes[n])
  {
    assert Pick(batch.ids, places + [n]) == Pick(batch.ids, places) + [batch.ids[n]];
    assert Pick(batch.codes, places + [n]) == Pick(batch.codes, places) + [batch.codes[n]];
  }

  lemma ReceivedFront(il: InvList, batch: Batch, places: seq<nat>, n: nat)
    requires |batch.ids| == |batch.codes| == |batch.assign| && n <= |batch.ids| && Below(places, n)
    ensures Received(il, batch.Prefix(n), places) == Received(il, batch, places)
  {
    assert Pick(batch.ids[..n], places) == Pick(batch.ids, places);
    assert Pick(batch.codes[..n], places) == Pick(batch.codes, places);
  }

  /** Appending one at a time gives every list the vectors of its places, in input order. */
  lemma {:induction false} AppendedList(lists: seq<InvList>, batch: Batch, l: nat)
    requires batch.Valid(|lists|) && l < |lists|
    ensures Below(Places(batch.assign, l), |batch.assign|)
    ensures Appended(lists, batch)[l] == Received(lists[l], batch, Places(batch.assign, l))
    decreases |batch.assign|
  {
    PlacesBelow(batch.assign, l);
    if batch.assign != [] {
      hide Received;
      var n := |batch.assign| - 1;
      var front, places := batch.Prefix(n), Places(batch.assign[..n], l);
      AppendedList(lists, front, l);
      ReceivedFront(lists[l], batch, places, n);
      ReceivedMore(lists[l], batch, places, n);
    } else {
      assert Pick(batch.ids, []) == [] && Pick(batch.codes, []) == [];
      assert lists[l].ids + [] == lists[l].ids && lists[l].codes + [] == lists[l].codes;
    }
  }

  /** The vectors from place m on. */
  function Rest(batch: Batch, m: nat): Batch
    requires m <= |batch.assign| == |batch.codes| == |batch.ids|
  {
    Batch(batch.assign[m..], batch.codes[m..], batch.ids[m..])
  }

  lemma AppendedLast(lists: seq<InvList>, batch: Batch)
    requires batch.Valid(|lists|) && batch.assign != []
    ensures var n := |batch.assign| - 1;
      Appended(lists, batch)
      == AppendOne(Appended(lists, batch.Prefix(n)), batch.assign[n], batch.ids[n], batch.codes[n])
  {
  }

  lemma NoneAppended(lists: seq<InvList>, batch: Batch)
    requires batch.Valid(|lists|) && batch.assign == []
    ensures Appended(lists, batch) == lists
  {
  }

  /** Two batches one after the other are one batch. */
  lemma {:induction false} AppendedTwice(lists: seq<InvList>, batch: Batch, m: nat)
    requires batch.Valid(|lists|) && m <= |batch.assign|
    ensures Appended(lists, batch) == Appended(Appended(lists, batch.Prefix(m)), Rest(batch, m))
    decreases |batch.assign|
  {
    hide Appended, AppendOne;
    var n := |batch.assign|;
    if m == n {
      assert batch.Prefix(m) == batch;
      NoneAppended(Appended(lists, batch.Prefix(m)), Rest(batch, m));
    } else {
      var front := batch.Prefix(n - 1);
      AppendedTwice(lists, front, m);
      assert front.Prefix(m) == batch.Prefix(m);
      assert Rest(batch, m).Prefix(n - 1 - m) == Rest(front, m);
      AppendedLast(lists, batch);
      AppendedLast(Appended(lists, batch.Prefix(m)), Rest(batch, m));
    }
  }

  // ---------- the stable sort ----------

  ghost predicate IsStableOrder(order: seq<nat>, assign: seq<int>, n: nat)
    requires n <= |assign|
  {
    && |order| == n
    && (forall i :: 0 <= i < n ==> order[i] < n)
    && (forall x: nat :: x < n ==> x in order)
    && (forall i, j :: 0 <= i < j < n ==> Before(order[i], order[j], assign))
  }

  ghost predicate Before(a: nat, b: nat, assign: seq<int>) {
    a < |assign| && b < |assign| && (assign[a] < assign[b] || (assign[a] == assign[b] && a < b))
  }

  /** A stable sort of the places by list number. */
  method StableSort(assign: seq<int>) returns (order: seq<nat>)
    ensures IsStableOrder(order, assign, |assign|)
  {
    order := [];
    for i := 0 to |assign|
      invariant IsStableOrder(order, assign, i)
    {
      var p := i;
      while p > 0 && assign[order[p - 1]] > assign[i]
        invariant 0 <= p <= i
        invariant forall j :: p <= j < i ==> assign[order[j]] > assign[i]
      {
        p := p - 1;
      }
      InsertStable(order, assign, i, p);
      order := order[..p] + [i] + order[p..];
    }
  }

  lemma InsertKeepsAll(order: seq<nat>, n: nat, p: nat)
    requires |order| == n && p <= n && forall x: nat :: x < n ==> x in order
    ensures forall x: nat :: x < n + 1 ==> x in order[..p] + [n] + order[p..]
  {
    var r := order[..p] + [n] + order[p..];
    forall x: nat | x < n + 1
      ensures x in r
    {
      if x == n {
        assert r[p] == n;
      } else {
        assert x in order;
        var k :| 0 <= k < n && order[k] == x;
        assert r[if k < p then k else k + 1] == x;
      }
    }
  }

  lemma InsertStable(order: seq<nat>, assign: seq<int>, n: nat, p: nat)
    requires n < |assign| && IsStableOrder(order, assign, n) && p <= n
    requires forall j :: p <= j < n ==> assign[order[j]] > assign[n]
    requires p > 0 ==> assign[order[p - 1]] <= assign[n]
    ensures IsStableOrder(order[..p] + [n] + order[p..], assign, n + 1)
  {
    var r := order[..p] + [n] + order[p..];
    InsertKeepsAll(order, n, p);
    forall i, j | 0 <= i < j < n + 1
      ensures Before(r[i], r[j], assign)
    {
      if j == p {
        assert i < p - 1 ==> Before(order[i], order[p - 1], assign);
      } else if i != p {
        assert Before(order[if i < p then i else i - 1], order[if j < p then j else j - 1], assign);
      }
    }
  }

  // ---------- a group of the order is the places of a list ----------

  ghost predicate Increasing(s: seq<nat>) {
    forall i, j :: 0 <= i < j < |s| ==> s[i] < s[j]
  }

  lemma {:induction false} PlacesIncrease(assign: seq<int>, l: int)
    ensures Increasing(Places(assign, l))
    decreases |assign|
  {
    if assign != [] {
      var n := |assign| - 1;
      PlacesIncrease(assign[..n], l);
      PlacesBelow(assign[..n], l);
    }
  }

  ghost predicate SamePlaces(a: seq<nat>, b: seq<nat>) {
    forall x: nat :: x in a <==> x in b
  }

  lemma SameFront(a: seq<nat>, b: seq<nat>)
    requires Increasing(a) && Increasing(b) && |a| > 0 && |b| > 0 && SamePlaces(a, b)
    ensures a[|a| - 1] == b[|b| - 1] && SamePlaces(a[..|a| - 1], b[..|b| - 1])
  {
    LastIsGreatest(a, b);
    LastIsGreatest(b, a);
    var frontA, frontB := a[..|a| - 1], b[..|b| - 1];
    forall x: nat
      ensures x in frontA <==> x in frontB
    {
      InFront(a, x);
      InFront(b, x);
    }
  }

  /** An increasing list is determined by its elements. */
  lemma {:induction false} IncreasingUnique(a: seq<nat>, b: seq<nat>)
    requires Increasing(a) && Increasing(b) && SamePlaces(a, b)
    ensures a == b
    decreases |a|
  {
    assert a != [] ==> a[0] in a;
    assert b != [] ==> b[0] in b;
    if a != [] {
      var m, n := |a| - 1, |b| - 1;
      SameFront(a, b);
      IncreasingUnique(a[..m], b[..n]);
      assert a == a[..m] + [a[m]] && b == b[..n] + [b[n]];
    }
  }

  lemma LastIsGreatest(a: seq<nat>, b: seq<nat>)
    requires Increasing(a) && |a| > 0 && |b| > 0 && forall x: nat :: x in b ==> x in a
    ensures b[|b| - 1] <= a[|a| - 1]
  {
    assert b[|b| - 1] in a;
  }

  lemma InFront(a: seq<nat>, x: nat)
    requires Increasing(a) && |a| > 0
    ensures x in a[..|a| - 1] <==> x in a && x != a[|a| - 1]
  {
    if x in a && x != a[|a| - 1] {
      var i :| 0 <= i < |a| && a[i] == x;
      assert a[..|a| - 1][i] == x;
    }
  }

  /** i0..i1 is the whole group of list l in the order. */
  ghost predicate IsGroup(order: seq<nat>, assign: seq<int>, i0: nat, i1: nat, l: int)
    requires IsStableOrder(order, assign, |assign|)
  {
    && i0 <= i1 <= |order|
    && (forall i :: i0 <= i < i1 ==> assign[order[i]] == l)
    && (forall i :: 0 <= i < i0 ==> assign[order[i]] < l)
    && (forall i :: i1 <= i < |order| ==> assign[order[i]] > l)
  }

  lemma GroupIsPlaces(order: seq<nat>, assign: seq<int>, i0: nat, i1: nat, l: int)
    requires IsStableOrder(order, assign, |assign|) && IsGroup(order, assign, i0, i1, l)
    ensures order[i0..i1] == Places(assign, l)
  {
    var g := order[i0..i1];
    PlacesIncrease(assign, l);
    forall i, j | 0 <= i < j < |g|
      ensures g[i] < g[j]
    {
      assert Before(order[i0 + i], order[i0 + j], assign);
    }
    forall x: nat
      ensures x in g <==> x in Places(assign, l)
    {
      if x < |assign| && assign[x] == l {
        assert x in order;
        var i :| 0 <= i < |order| && order[i] == x;
        assert g[i - i0] == x;
      }
    }
    IncreasingUnique(g, Places(assign, l));
  }

  // ---------- the batched add ----------

  const BLOCK: nat := 65536

  /** A list grown by some entries, still to be written. */
  function Resized(il: InvList, more: nat): InvList {
    InvList(il.ids + seq(more, i => 0), il.codes + seq(more, i => []))
  }

  /** Ids and codes go in pairs. */
  ghost predicate Paired(lists: seq<InvList>) {
    forall l :: 0 <= l < |lists| ==> |lists[l].ids| == |lists[l].codes|
  }

  lemma AppendedPaired(lists: seq<InvList>, batch: Batch)
    requires batch.Valid(|lists|) && Paired(lists)
    ensures Paired(Appended(lists, batch))
  {
    forall l | 0 <= l < |lists|
      ensures |Appended(lists, batch)[l].ids| == |Appended(lists, batch)[l].codes|
    {
      AppendedList(lists, batch, l);
    }
  }

  lemma BlockOf(batch: Batch, i0: nat, i1: nat)
    requires i0 <= i1 <= |batch.assign| == |batch.codes| == |batch.ids|
    ensures batch.Prefix(i1).Prefix(i0) == batch.Prefix(i0)
    ensures Rest(batch.Prefix(i1), i0) == Batch(batch.assign[i0..i1], batch.codes[i0..i1], batch.ids[i0..i1])
  {
    assert batch.assign[..i1][..i0] == batch.assign[..i0];
    assert batch.codes[..i1][..i0] == batch.codes[..i0];
    assert batch.ids[..i1][..i0] == batch.ids[..i0];
  }

  /** A group begins at i0. */
  ghost predicate GroupStarts(order: seq<nat>, assign: seq<int>, i0: nat)
    requires IsStableOrder(order, assign, |assign|)
  {
    i0 < |order| && forall i :: 0 <= i < i0 ==> assign[order[i]] < assign[order[i0]]
  }

  lemma GroupEnds(order: seq<nat>, assign: seq<int>, i0: nat, i1: nat)
    requires IsStableOrder(order, assign, |assign|) && GroupStarts(order, assign, i0)
    requires i0 < i1 <= |order| && forall i :: i0 <= i < i1 ==> assign[order[i]] == assign[order[i0]]
    requires i1 < |order| ==> assign[order[i1]] != assign[order[i0]]
    ensures IsGroup(order, assign, i0, i1, assign[order[i0]])
    ensures i1 < |order| ==> GroupStarts(order, assign, i1)
  {
    forall i | i1 <= i < |order|
      ensures assign[order[i]] > assign[order[i0]]
    {
      assert Before(order[i0], order[i1], assign);
      assert i1 < i ==> Before(order[i1], order[i], assign);
    }
  }

  lemma NotBetween(order: seq<nat>, assign: seq<int>, i1: nat, l: int, i: nat)
    requires IsStableOrder(order, assign, |assign|) && i1 <= |order| && i < |order|
    requires forall i :: 0 <= i < i1 ==> assign[order[i]] < l
    requires i1 < |order| ==> assign[order[i1]] > l
    ensures assign[order[i]] != l
  {
    assert i1 < i ==> Before(order[i1], order[i], assign);
  }

  /** A list that lies between two groups has no places. */
  lemma NoPlaces(order: seq<nat>, assign: seq<int>, i1: nat, l: int)
    requires IsStableOrder(order, assign, |assign|) && i1 <= |order|
    requires forall i :: 0 <= i < i1 ==> assign[order[i]] < l
    requires i1 < |order| ==> assign[order[i1]] > l
    ensures Places(assign, l) == []
  {
    if Places(assign, l) != [] {
      var x := Places(assign, l)[0];
      assert x in Places(assign, l) && x in order;
      var i :| 0 <= i < |order| && order[i] == x;
      NotBetween(order, assign, i1, l, i);
    }
  }

  lemma NothingReceived(il: InvList, batch: Batch)
    ensures Received(il, batch, []) == il
  {
  }

  /** The list numbers below the group at i1: those the loop is done with. */
  function Bound(order: seq<nat>, assign: seq<int>, i1: nat, nlist: nat): int
    requires forall i :: 0 <= i < |order| ==> order[i] < |assign|
  {
    if i1 < |order| then assign[order[i1]] else nlist
  }

  /** The lists below the bound hold what they are to receive; the others are as they were. */
  ghost predicate FilledBelow(lists: seq<InvList>, base: seq<InvList>, batch: Batch, bound: int)
    requires batch.Valid(|base|)
  {
    && |lists| == |base|
    && (forall l {:trigger Places(batch.assign, l)} {:trigger lists[l]} :: 0 <= l < |base| ==>
          && Below(Places(batch.assign, l), |batch.assign|)
          && lists[l] == if l < bound then Received(base[l], batch, Places(batch.assign, l)) else base[l])
  }

  lemma NoneFilled(base: seq<InvList>, batch: Batch, order: seq<nat>)
    requires batch.Valid(|base|) && IsStableOrder(order, batch.assign, |batch.assign|)
    ensures FilledBelow(base, base, batch, Bound(order, batch.assign, 0, |base|))
    ensures order != [] ==> GroupStarts(order, batch.assign, 0)
  {
    hide Received;
    forall l: nat | l < |base|
      ensures Below(Places(batch.assign, l), |batch.assign|)
      ensures l < Bound(order, batch.assign, 0, |base|) ==> Received(base[l], batch, Places(batch.assign, l)) == base[l]
    {
      PlacesBelow(batch.assign, l);
      if l < Bound(order, batch.assign, 0, |base|) {
        NoPlaces(order, batch.assign, 0, l);
        NothingReceived(base[l], batch);
      }
    }
  }

  lemma NextFilled(before: seq<InvList>, lists: seq<InvList>, base: seq<InvList>, batch: Batch,
                   order: seq<nat>, i0: nat, i1: nat, listNo: int)
    requires batch.Valid(|base|) && IsStableOrder(order, batch.assign, |batch.assign|)
    requires IsGroup(order, batch.assign, i0, i1, listNo) && i0 < i1 && FilledBelow(before, base, batch, listNo)
    requires i1 < |order| ==> GroupStarts(order, batch.assign, i1)
    requires Below(order[i0..i1], |batch.assign|) && listNo < |base|
    requires lists == if listNo < 0 then before else before[listNo := Received(before[listNo], batch, order[i0..i1])]
    ensures FilledBelow(lists, base, batch, Bound(order, batch.assign, i1, |base|))
  {
    hide Received;
    var bound := Bound(order, batch.assign, i1, |base|);
    GroupIsPlaces(order, batch.assign, i0, i1, listNo);
    forall l: nat | l < |base|
      ensures Below(Places(batch.assign, l), |batch.assign|)
      ensures lists[l] == if l < bound then Received(base[l], batch, Places(batch.assign, l)) else base[l]
    {
      PlacesBelow(batch.assign, l);
      if listNo < l < bound {
        NoPlaces(order, batch.assign, i1, l);
        NothingReceived(base[l], batch);
      }
    }
  }

  lemma AllFilled(lists: seq<InvList>, base: seq<InvList>, batch: Batch)
    requires batch.Valid(|base|) && FilledBelow(lists, base, batch, |base|)
    ensures lists == Appended(base, batch)
  {
    hide Received;
    forall l | 0 <= l < |base|
      ensures lists[l] == Appended(base, batch)[l]
    {
      AppendedList(base, batch, l);
    }
  }

  /** A grown list has its old entries and the first m of the new ones. */
  ghost predicate IsFilled(il: InvList, before: InvList, batch: Batch, places: seq<nat>, m: nat)
    requires |batch.ids| == |batch.codes| && Below(places, |batch.ids|) && |before.ids| == |before.codes|
  {
    var n := |before.ids|;
    && m <= |places| && |il.ids| == |il.codes| == n + |places|
    && il.ids[..n] == before.ids && il.codes[..n] == before.codes
    && forall j :: 0 <= j < m ==> il.ids[n + j] == batch.ids[places[j]] && il.codes[n + j] == batch.codes[places[j]]
  }

  lemma FilledMore(il: InvList, before: InvList, batch: Batch, places: seq<nat>, m: nat)
    requires |batch.ids| == |batch.codes| && Below(places, |batch.ids|) && |before.ids| == |before.codes|
    requires IsFilled(il, before, batch, places, m) && m < |places|
    ensures var at := |before.ids| + m;
      && at < |il.ids| == |il.codes|
      && IsFilled(InvList(il.ids[at := batch.ids[places[m]]], il.codes[at := batch.codes[places[m]]]),
                  before, batch, places, m + 1)
  {
  }

  lemma FilledAll(il: InvList, before: InvList, batch: Batch, places: seq<nat>)
    requires |batch.ids| == |batch.codes| && Below(places, |batch.ids|) && |before.ids| == |before.codes|
    requires IsFilled(il, before, batch, places, |places|)
    ensures il == Received(before, batch, places) && |il.ids| == |il.codes|
  {
    assert il.ids == before.ids + Pick(batch.ids, places);
    assert il.codes == before.codes + Pick(batch.codes, places);
  }

  class IndexIVFFastScan {
    var lists: seq<InvList>
    var ntotal: nat

    constructor (nlist: nat)
      ensures lists == seq(nlist, i => InvList([], [])) && ntotal == 0 && Paired(lists)
    {
      lists := seq(nlist, i => InvList([], []));
      ntotal := 0;
    }

    /**
     Large inputs are added block by block, each block sorted by list; the ids and codes of a
     list still follow the input order.
     */
    method AddWithIds(assign: seq<int>, codes: seq<Code>, xids: Option<seq<int>>)
      requires |assign| == |codes| && (xids.Some? ==> |xids.value| == |assign|) && Paired(lists)
      requires forall i :: 0 <= i < |assign| ==> -1 <= assign[i] < |lists|
      modifies this
      ensures lists == Appended(old(lists), Batch(assign, codes, IdsFor(|assign|, xids, old(ntotal))))
      ensures ntotal == old(ntotal) + |assign| && Paired(lists)
      decreases |assign|
    {
      hide Appended;
      var n := |assign|;
      ghost var batch := Batch(assign, codes, IdsFor(n, xids, ntotal));
      if n > BLOCK {
        var i0 := 0;
        NoneAppended(lists, batch.Prefix(0));
        while i0 < n
          invariant 0 <= i0 <= n && |lists| == |old(lists)| && Paired(lists)
          invariant lists == Appended(old(lists), batch.Prefix(i0)) && ntotal == old(ntotal) + i0
        {
          var i1 := if n < i0 + BLOCK then n else i0 + BLOCK;
          var ids := if xids.Some? then Some(xids.value[i0..i1]) else None;
          BlockOf(batch, i0, i1);
          assert IdsFor(i1 - i0, ids, ntotal) == batch.ids[i0..i1];
          AppendedTwice(old(lists), batch.Prefix(i1), i0);
          AddWithIds(assign[i0..i1], codes[i0..i1], ids);
          i0 := i1;
        }
        assert batch.Prefix(n) == batch;
        return;
      }
      AppendedPaired(lists, batch);
      AddBlock(assign, codes, xids);
      ntotal := ntotal + n;
    }

    /** One block: a stable sort by list, then a group at a time. */
    method AddBlock(assign: seq<int>, codes: seq<Code>, xids: Option<seq<int>>)
      requires |assign| == |codes| && (xids.Some? ==> |xids.value| == |assign|) && Paired(lists)
      requires forall i :: 0 <= i < |assign| ==> -1 <= assign[i] < |lists|
      modifies this`lists
      ensures lists == Appended(old(lists), Batch(assign, codes, IdsFor(|assign|, xids, ntotal)))
    {
      hide Appended, Received, Pick, Places, IsGroup;
      ghost var batch := Batch(assign, codes, IdsFor(|assign|, xids, ntotal));
      var n := |assign|;
      var order := StableSort(assign);
      NoneFilled(lists, batch, order);
      var i0 := 0;
      while i0 < n
        invariant 0 <= i0 <= n && Paired(lists)
        invariant i0 < n ==> GroupStarts(order, assign, i0)
        invariant FilledBelow(lists, old(lists), batch, Bound(order, assign, i0, |old(lists)|))
        decreases n - i0
      {
        var listNo := assign[order[i0]];
        var i1 := i0 + 1;
        while i1 < n && assign[order[i1]] == listNo
          invariant i0 < i1 <= n
          invariant forall i :: i0 <= i < i1 ==> assign[order[i]] == listNo
        {
          i1 := i1 + 1;
        }
        GroupEnds(order, assign, i0, i1);
        ghost var before := lists;
        if listNo == -1 {
          NextFilled(before, lists, old(lists), batch, order, i0, i1, listNo);
          i0 := i1;
          continue;
        }
        FillGroup(codes, xids, order, listNo, i0, i1, batch);
        NextFilled(before, lists, old(lists), batch, order, i0, i1, listNo);
        i0 := i1;
      }
      AllFilled(lists, old(lists), batch);
    }

    /** Grows one list and writes the new entries from the group i0..i1 of the order. */
    method FillGroup(codes: seq<Code>, xids: Option<seq<int>>, order: seq<nat>, listNo: nat, i0: nat, i1: nat,
                     ghost batch: Batch)
      requires listNo < |lists| && i0 < i1 <= |order| && Paired(lists)
      requires (xids.Some? ==> |xids.value| == |codes|) && Below(order, |codes|)
      requires batch.codes == codes && batch.ids == IdsFor(|codes|, xids, ntotal)
      modifies this`lists
      ensures lists == old(lists)[listNo := Received(old(lists)[listNo], batch, order[i0..i1])]
      ensures Paired(lists)
    {
      hide Received, Pick;
      var was := lists[listNo];
      var listSize := |was.ids|;
      var il := Resized(was, i1 - i0);
      ghost var places := order[i0..i1];
      for i := i0 to i1
        invariant lists == old(lists) && IsFilled(il, was, batch, places, i - i0)
      {
        var ofs := listSize + i - i0;
        var id := if xids.Some? then xids.value[order[i]] else ntotal + order[i];
        FilledMore(il, was, batch, places, i - i0);
        il := InvList(il.ids[ofs := id], il.codes[ofs := codes[order[i]]]);
      }
      FilledAll(il, was, batch, places);
      lists := lists[listNo := il];
    }
  }

  // ---------- the add that shares the lists out to threads ----------

  /** Thread l % nt has brought list l up to its place in the input. */
  ghost predicate BroughtUp(lists: seq<InvList>, base: seq<InvList>, batch: Batch, place: seq<nat>)
    requires batch.Valid(|base|) && |place| > 0
  {
    && |lists| == |base|
    && (forall r :: 0 <= r < |place| ==> place[r] <= |batch.assign|)
    && (forall l :: 0 <= l < |base| ==> lists[l] == Appended(base, batch.Prefix(place[l % |place|]))[l])
  }

  /** What vector i does to list l. */
  lemma OneVector(base: seq<InvList>, batch: Batch, i: nat, l: nat)
    requires batch.Valid(|base|) && i < |batch.assign| && l < |base|
    ensures var before := Appended(base, batch.Prefix(i))[l];
      Appended(base, batch.Prefix(i + 1))[l]
      == if batch.assign[i] == l then before.Add(batch.ids[i], batch.codes[i]) else before
  {
    hide Appended;
    BlockOf(batch, i, i + 1);
    AppendedLast(base, batch.Prefix(i + 1));
  }

  class IndexIVF {
    var lists: seq<InvList>
    var ntotal: nat

    constructor (nlist: nat)
      ensures lists == seq(nlist, i => InvList([], [])) && ntotal == 0
    {
      lists := seq(nlist, i => InvList([], []));
      ntotal := 0;
    }

    /** One iteration of one thread: it appends the vector if it owns the vector's list. */
    method ThreadStep(assign: seq<int>, codes: seq<Code>, xids: Option<seq<int>>, nt: nat, rank: nat, i: nat,
                      ghost base: seq<InvList>, ghost place: seq<nat>)
      requires rank < nt == |place| && place[rank] == i < |assign| == |codes|
      requires xids.Some? ==> |xids.value| == |assign|
      requires forall i :: 0 <= i < |assign| ==> assign[i] < |base|
      requires BroughtUp(lists, base, Batch(assign, codes, IdsFor(|assign|, xids, ntotal)), place)
      modifies this`lists
      ensures BroughtUp(lists, base, Batch(assign, codes, IdsFor(|assign|, xids, ntotal)), place[rank := i + 1])
    {
      hide Appended;
      ghost var batch := Batch(assign, codes, IdsFor(|assign|, xids, ntotal));
      var listNo := assign[i];
      if listNo >= 0 && listNo % nt == rank {
        var id := if xids.Some? then xids.value[i] else ntotal + i;
        lists := lists[listNo := lists[listNo].Add(id, codes[i])];
      }
      forall l: nat | l < |base|
        ensures lists[l] == Appended(base, batch.Prefix(place[rank := i + 1][l % nt]))[l]
      {
        OneVector(base, batch, i, l);
      }
    }

    /** One block, by any number of threads in any interleaving. */
    method AddBlock(assign: seq<int>, codes: seq<Code>, xids: Option<seq<int>>, nt: nat)
      requires nt > 0 && |assign| == |codes| && (xids.Some? ==> |xids.value| == |assign|)
      requires forall i :: 0 <= i < |assign| ==> assign[i] < |lists|
      modifies this`lists
      ensures lists == Appended(old(lists), Batch(assign, codes, IdsFor(|assign|, xids, ntotal)))
    {
      hide Appended;
      ghost var batch := Batch(assign, codes, IdsFor(|assign|, xids, ntotal));
      var n := |assign|;
      var place: seq<nat> := seq(nt, r => 0);
      NoneAppended(lists, batch.Prefix(0));
      while exists r :: 0 <= r < nt && place[r] < n
        invariant |place| == nt && BroughtUp(lists, old(lists), batch, place)
        decreases Remaining(place, n)
      {
        var r :| 0 <= r < nt && place[r] < n;
        ThreadStep(assign, codes, xids, nt, r, place[r], old(lists), place);
        RemainingDrops(place, n, r);
        place := place[r := place[r] + 1];
      }
      assert batch.Prefix(n) == batch;
      assert forall l :: 0 <= l < |lists| ==> place[l % nt] == n;
    }

    method AddCore(assign: seq<int>, codes: seq<Code>, xids: Option<seq<int>>, nt: nat)
      requires nt > 0 && |assign| == |codes| && (xids.Some? ==> |xids.value| == |assign|)
      requires forall i :: 0 <= i < |assign| ==> assign[i] < |lists|
      modifies this
      ensures lists == Appended(old(lists), Batch(assign, codes, IdsFor(|assign|, xids, old(ntotal))))
      ensures ntotal == old(ntotal) + |assign|
      decreases |assign|
    {
      hide Appended;
      var n := |assign|;
      ghost var batch := Batch(assign, codes, IdsFor(n, xids, ntotal));
      if n > BLOCK {
        var i0 := 0;
        NoneAppended(lists, batch.Prefix(0));
        while i0 < n
          invariant 0 <= i0 <= n && |lists| == |old(lists)|
          invariant lists == Appended(old(lists), batch.Prefix(i0)) && ntotal == old(ntotal) + i0
        {
          var i1 := if n < i0 + BLOCK then n else i0 + BLOCK;
          var ids := if xids.Some? then Some(xids.value[i0..i1]) else None;
          BlockOf(batch, i0, i1);
          assert IdsFor(i1 - i0, ids, ntotal) == batch.ids[i0..i1];
          AppendedTwice(old(lists), batch.Prefix(i1), i0);
          AddCore(assign[i0..i1], codes[i0..i1], ids, nt);
          i0 := i1;
        }
        assert batch.Prefix(n) == batch;
        return;
      }
      AddBlock(assign, codes, xids, nt);
      ntotal := ntotal + n;
    }
  }
}
