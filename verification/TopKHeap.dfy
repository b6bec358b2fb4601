/**
 The bounded result heap of the searches (include/faiss/utils/Heap.h): a binary max-heap in an
 array whose top is the worst of the k best results so far. The heap is ordered by distance
 and, for equal distances, by label.
 */
module TopKHeap {
  import opened Multisets

  /** A distance; Top is the neutral element that fills an unused place. */
  datatype Dist = Fin(value: real) | Top

  datatype Entry = Entry(dis: Dist, id: int)

  const NEUTRAL: Entry := Entry(Top, -1)

  predicate Lt(a: Dist, b: Dist) {
    a.Fin? && (b.Top? || a.value < b.value)
  }

  /** The tie-breaking comparison of max-heaps. */
  predicate Worse(a: Entry, b: Entry) {
    Lt(b.dis, a.dis) || (a.dis == b.dis && a.id > b.id)
  }

  // ---------- the sift-down of heap_replace_top and heap_pop ----------

  /** Fills the hole at i of the heap h with e, moving the worse child up while e is not worse. */
  function SiftDown(h: seq<Entry>, i: nat, e: Entry): (r: seq<Entry>)
    requires i < |h|
    ensures |r| == |h|
    decreases |h| - i
  {
    var i1, i2 := 2 * i + 1, 2 * i + 2;
    if i1 >= |h| then h[i := e]
    else
      var c := if i2 == |h| || Worse(h[i1], h[i2]) then i1 else i2;
      if Worse(e, h[c]) then h[i := e]
      else SiftDown(h[i := h[c]], c, e)
  }

  function Parent(c: int): int {
    (c - 1) / 2
  }

  ghost predicate IsHeap(h: seq<Entry>) {
    forall c {:trigger Parent(c)} :: 1 <= c < |h| ==> !Worse(h[c], h[Parent(c)])
  }

  /** The heap order holds away from the hole at i, and across it; e fits below i's parent. */
  ghost predicate HoleAt(h: seq<Entry>, i: nat, e: Entry)
    requires i < |h|
  {
    && (forall c {:trigger Parent(c)} :: 1 <= c < |h| && c != i && Parent(c) != i ==> !Worse(h[c], h[Parent(c)]))
    && (i > 0 ==> !Worse(e, h[Parent(i)]))
    && (i > 0 ==> forall c {:trigger Parent(c)} :: 1 <= c < |h| && Parent(c) == i ==> !Worse(h[c], h[Parent(i)]))
  }

  lemma HoleFilled(h: seq<Entry>, i: nat, e: Entry)
    requires i < |h| && HoleAt(h, i, e)
    requires forall c {:trigger Parent(c)} :: 1 <= c < |h| && Parent(c) == i ==> !Worse(h[c], e)
    ensures IsHeap(h[i := e])
  {
    var r := h[i := e];
    forall c {:trigger Parent(c)} | 1 <= c < |r|
      ensures !Worse(r[c], r[Parent(c)])
    {
    }
  }

  lemma HoleMoves(h: seq<Entry>, i: nat, c: nat, e: Entry)
    requires i < c < |h| && HoleAt(h, i, e) && Parent(c) == i && !Worse(e, h[c])
    requires forall b {:trigger Parent(b)} :: 1 <= b < |h| && Parent(b) == i ==> !Worse(h[b], h[c])
    ensures HoleAt(h[i := h[c]], c, e)
  {
    var r := h[i := h[c]];
    forall b {:trigger Parent(b)} | 1 <= b < |r| && b != c && Parent(b) != c
      ensures !Worse(r[b], r[Parent(b)])
    {
    }
    forall b {:trigger Parent(b)} | 1 <= b < |r| && Parent(b) == c
      ensures !Worse(r[b], r[Parent(c)])
    {
    }
  }

  lemma {:induction false} SiftDownHeap(h: seq<Entry>, i: nat, e: Entry)
    requires i < |h| && HoleAt(h, i, e)
    ensures IsHeap(SiftDown(h, i, e))
    decreases |h| - i
  {
    var i1, i2 := 2 * i + 1, 2 * i + 2;
    assert forall b {:trigger Parent(b)} :: Parent(b) == i <==> b == i1 || b == i2;
    if i1 >= |h| {
      HoleFilled(h, i, e);
    } else {
      var c := if i2 == |h| || Worse(h[i1], h[i2]) then i1 else i2;
      if Worse(e, h[c]) {
        HoleFilled(h, i, e);
      } else {
        HoleMoves(h, i, c, e);
        SiftDownHeap(h[i := h[c]], c, e);
      }
    }
  }

  lemma {:induction false} SiftDownMultiset(h: seq<Entry>, i: nat, e: Entry)
    requires i < |h|
    ensures multiset(SiftDown(h, i, e)) + multiset{h[i]} == multiset(h) + multiset{e}
    decreases |h| - i
  {
    var i1, i2 := 2 * i + 1, 2 * i + 2;
    if i1 >= |h| {
      UpdateMultiset(h, i, e);
    } else {
      var c := if i2 == |h| || Worse(h[i1], h[i2]) then i1 else i2;
      if Worse(e, h[c]) {
        UpdateMultiset(h, i, e);
      } else {
        var h1 := h[i := h[c]];
        UpdateMultiset(h, i, h[c]);
        SiftDownMultiset(h1, c, e);
        SwapThrough(multiset(SiftDown(h1, c, e)), multiset(h1), multiset(h), h[i], h[c], e);
      }
    }
  }

  /** Sifting the last element leaves it in the last place. */
  lemma {:induction false} SiftDownLast(h: seq<Entry>, i: nat)
    requires i < |h|
    ensures SiftDown(h, i, h[|h| - 1])[|h| - 1] == h[|h| - 1]
    decreases |h| - i
  {
    var e := h[|h| - 1];
    var i1, i2 := 2 * i + 1, 2 * i + 2;
    if i1 < |h| {
      var c := if i2 == |h| || Worse(h[i1], h[i2]) then i1 else i2;
      if !Worse(e, h[c]) {
        SiftDownLast(h[i := h[c]], c);
      }
    }
  }

  lemma {:induction false} TopIsWorst(h: seq<Entry>, c: nat)
    requires IsHeap(h) && c < |h|
    ensures !Worse(h[c], h[0])
  {
    if c > 0 {
      TopIsWorst(h, Parent(c));
    }
  }

  /** Replacing the top of a heap gives a heap whose content lost the top and gained e. */
  lemma ReplaceTopCorrect(h: seq<Entry>, e: Entry)
    requires |h| > 0 && IsHeap(h)
    ensures IsHeap(SiftDown(h, 0, e))
    ensures multiset(SiftDown(h, 0, e)) == multiset(h) - multiset{h[0]} + multiset{e}
  {
    SiftDownHeap(h, 0, e);
    SiftDownMultiset(h, 0, e);
    assert h[0] in multiset(h);
    assert multiset(SiftDown(h, 0, e)) == multiset(h) + multiset{e} - multiset{h[0]};
  }

  method HeapReplaceTop(bh: array<Entry>, e: Entry)
    requires bh.Length > 0
    modifies bh
    ensures bh[..] == SiftDown(old(bh[..]), 0, e)
  {
    var k, i := bh.Length, 0;
    while true
      invariant 0 <= i < k
      invariant SiftDown(bh[..], i, e) == SiftDown(old(bh[..]), 0, e)
      decreases k - i
    {
      var i1, i2 := 2 * i + 1, 2 * i + 2;
      if i1 >= k {
        break;
      }
      ghost var before := bh[..];
      if i2 == k || Worse(bh[i1], bh[i2]) {
        if Worse(e, bh[i1]) {
          break;
        }
        bh[i] := bh[i1];
        assert bh[..] == before[i := before[i1]];
        i := i1;
      } else {
        if Worse(e, bh[i2]) {
          break;
        }
        bh[i] := bh[i2];
        assert bh[..] == before[i := before[i2]];
        i := i2;
      }
    }
    ghost var last := bh[..];
    bh[i] := e;
    assert bh[..] == last[i := e];
  }

  /** Removes the top of the heap in the first k places; the last of them is left over. */
  method HeapPop(bh: array<Entry>, k: nat)
    requires 0 < k <= bh.Length
    modifies bh
    ensures bh[..k] == SiftDown(old(bh[..k]), 0, old(bh[k - 1]))
    ensures bh[k..] == old(bh[k..])
  {
    var e, i := bh[k - 1], 0;
    while true
      invariant 0 <= i < k
      invariant SiftDown(bh[..k], i, e) == SiftDown(old(bh[..k]), 0, e)
      invariant bh[k..] == old(bh[k..])
      invariant bh[k - 1] == e
      decreases k - i
    {
      var i1, i2 := 2 * i + 1, 2 * i + 2;
      if i1 >= k {
        break;
      }
      ghost var before := bh[..k];
      if i2 == k || Worse(bh[i1], bh[i2]) {
        if Worse(e, bh[i1]) {
          break;
        }
        bh[i] := bh[i1];
        assert bh[..k] == before[i := before[i1]];
        i := i1;
      } else {
        if Worse(e, bh[i2]) {
          break;
        }
        bh[i] := bh[i2];
        assert bh[..k] == before[i := before[i2]];
        i := i2;
      }
    }
    ghost var last := bh[..k];
    bh[i] := bh[k - 1];
    assert bh[..k] == last[i := e];
  }

  lemma PopCorrect(h: seq<Entry>)
    requires |h| > 0 && IsHeap(h)
    ensures IsHeap(SiftDown(h, 0, h[|h| - 1])[..|h| - 1])
    ensures multiset(SiftDown(h, 0, h[|h| - 1])[..|h| - 1]) + multiset{h[0]} == multiset(h)
  {
    var e := h[|h| - 1];
    var s := SiftDown(h, 0, e);
    SiftDownHeap(h, 0, e);
    SiftDownMultiset(h, 0, e);
    SiftDownLast(h, 0);
    DropLast(s, multiset(h), h[0]);
  }

  // ---------- which k results a heap holds ----------

  /** How many entries are at finite distance at most v. */
  function CountLe(s: seq<Entry>, v: real): (n: nat)
    ensures n <= |s|
  {
    if s == [] then 0
    else CountLe(s[1..], v) + if s[0].dis.Fin? && s[0].dis.value <= v then 1 else 0
  }

  function Min(a: nat, b: nat): nat {
    if a <= b then a else b
  }

  /**
   h holds the |h| best of the candidates s: below every distance it has as many entries as s,
   up to its capacity, and its entries at finite distance are candidates.
   */
  ghost predicate IsTopK(h: seq<Entry>, s: seq<Entry>) {
    && (forall v: real :: CountLe(h, v) == Min(|h|, CountLe(s, v)))
    && AreFrom(h, s)
  }

  ghost predicate AreFrom(h: seq<Entry>, s: seq<Entry>) {
    forall e: Entry :: e.dis.Fin? ==> multiset(h)[e] <= multiset(s)[e]
  }

  lemma {:induction false} CountLeConcat(a: seq<Entry>, b: seq<Entry>, v: real)
    ensures CountLe(a + b, v) == CountLe(a, v) + CountLe(b, v)
  {
    if a == [] {
      assert a + b == b;
    } else {
      assert (a + b)[1..] == a[1..] + b;
      CountLeConcat(a[1..], b, v);
    }
  }

  ghost predicate IsRemoval(s: seq<Entry>, e: Entry, i: int, v: real) {
    && 0 <= i < |s| && s[i] == e
    && multiset(s[..i] + s[i + 1..]) == multiset(s) - multiset{e}
    && CountLe(s, v) == CountLe(s[..i] + s[i + 1..], v) + CountLe([e], v)
  }

  lemma CountLeRemove(s: seq<Entry>, e: Entry, v: real)
    requires e in s
    ensures exists i :: IsRemoval(s, e, i, v)
  {
    var i :| 0 <= i < |s| && s[i] == e;
    assert s == s[..i] + [e] + s[i + 1..];
    CountLeConcat(s[..i] + [e], s[i + 1..], v);
    CountLeConcat(s[..i], [e], v);
    CountLeConcat(s[..i], s[i + 1..], v);
    assert multiset(s) == multiset(s[..i]) + multiset{e} + multiset(s[i + 1..]);
    assert IsRemoval(s, e, i, v);
  }

  lemma {:induction false} CountLeMultiset(a: seq<Entry>, b: seq<Entry>, v: real)
    requires multiset(a) == multiset(b)
    ensures CountLe(a, v) == CountLe(b, v)
    decreases |a|
  {
    if a == [] {
      assert |multiset(a)| == |multiset(b)|;
    } else {
      var e := a[0];
      assert a == [e] + a[1..];
      assert e in multiset(b);
      CountLeRemove(b, e, v);
      var i :| IsRemoval(b, e, i, v);
      var rest := b[..i] + b[i + 1..];
      assert multiset(a[1..]) == multiset(rest);
      CountLeMultiset(a[1..], rest, v);
      assert CountLe(b, v) == CountLe(rest, v) + CountLe([e], v);
    }
  }

  /** Nothing in a heap is at finite distance at most v unless the top is past v. */
  lemma {:induction false} CountLeAll(h: seq<Entry>, v: real)
    requires forall i :: 0 <= i < |h| ==> h[i].dis.Fin? && h[i].dis.value <= v
    ensures CountLe(h, v) == |h|
  {
    if h != [] {
      CountLeAll(h[1..], v);
    }
  }

  lemma {:induction false} CountLeNotAll(h: seq<Entry>, i: nat, v: real)
    requires i < |h| && !(h[i].dis.Fin? && h[i].dis.value <= v)
    ensures CountLe(h, v) < |h|
  {
    if i > 0 {
      CountLeNotAll(h[1..], i - 1, v);
    }
  }

  lemma HeapTopCount(h: seq<Entry>, v: real)
    requires |h| > 0 && IsHeap(h)
    ensures CountLe(h, v) == |h| <==> h[0].dis.Fin? && h[0].dis.value <= v
  {
    if h[0].dis.Fin? && h[0].dis.value <= v {
      forall i | 0 <= i < |h|
        ensures h[i].dis.Fin? && h[i].dis.value <= v
      {
        TopIsWorst(h, i);
      }
      CountLeAll(h, v);
    } else {
      CountLeNotAll(h, 0, v);
    }
  }

  /** What the result handlers do with one more candidate. */
  function HeapAdd(h: seq<Entry>, e: Entry): (r: seq<Entry>)
    requires |h| > 0
    ensures |r| == |h|
  {
    if Lt(e.dis, h[0].dis) then SiftDown(h, 0, e) else h
  }

  lemma HeapAddCount(h: seq<Entry>, e: Entry, v: real)
    requires |h| > 0 && IsHeap(h)
    ensures CountLe(HeapAdd(h, e), v) == Min(|h|, CountLe(h, v) + CountLe([e], v))
  {
    HeapTopCount(h, v);
    if Lt(e.dis, h[0].dis) {
      var r := HeapAdd(h, e);
      SiftDownMultiset(h, 0, e);
      assert multiset(r + [h[0]]) == multiset(h + [e]);
      CountLeMultiset(r + [h[0]], h + [e], v);
      CountLeConcat(r, [h[0]], v);
      CountLeConcat(h, [e], v);
    }
  }

  lemma HeapAddFrom(h: seq<Entry>, s: seq<Entry>, e: Entry)
    requires |h| > 0 && AreFrom(h, s)
    ensures AreFrom(HeapAdd(h, e), s + [e])
  {
    var r := HeapAdd(h, e);
    SiftDownMultiset(h, 0, e);
    forall x: Entry | x.dis.Fin?
      ensures multiset(r)[x] <= multiset(s + [e])[x]
    {
      assert (multiset(s) + multiset{e})[x] == multiset(s + [e])[x];
      assert r != h ==> (multiset(r) + multiset{h[0]})[x] == (multiset(h) + multiset{e})[x];
    }
  }

  lemma HeapAddCorrect(h: seq<Entry>, s: seq<Entry>, e: Entry)
    requires |h| > 0 && IsHeap(h) && IsTopK(h, s)
    ensures IsHeap(HeapAdd(h, e)) && IsTopK(HeapAdd(h, e), s + [e])
  {
    hide SiftDown, CountLe, AreFrom;
    SiftDownHeap(h, 0, e);
    HeapAddFrom(h, s, e);
    forall v: real
      ensures CountLe(HeapAdd(h, e), v) == Min(|h|, CountLe(s + [e], v))
    {
      HeapAddCount(h, e, v);
      CountLeConcat(s, [e], v);
    }
  }

  function HeapAddAll(h: seq<Entry>, es: seq<Entry>): (r: seq<Entry>)
    requires |h| > 0
    ensures |r| == |h|
    decreases |es|
  {
    if es == [] then h
    else HeapAdd(HeapAddAll(h, es[..|es| - 1]), es[|es| - 1])
  }

  lemma {:induction false} HeapAddAllCorrect(h: seq<Entry>, s: seq<Entry>, es: seq<Entry>)
    requires |h| > 0 && IsHeap(h) && IsTopK(h, s)
    ensures IsHeap(HeapAddAll(h, es)) && IsTopK(HeapAddAll(h, es), s + es)
    decreases |es|
  {
    if es == [] {
      assert s + es == s;
    } else {
      var front, e := es[..|es| - 1], es[|es| - 1];
      assert s + es == s + front + [e];
      HeapAddAllCorrect(h, s, front);
      HeapAddCorrect(HeapAddAll(h, front), s + front, e);
    }
  }

  function Neutrals(k: nat): seq<Entry> {
    seq(k, i => NEUTRAL)
  }

  lemma {:induction false} CountLeTop(s: seq<Entry>, v: real)
    requires forall i :: 0 <= i < |s| ==> s[i].dis.Top?
    ensures CountLe(s, v) == 0
  {
    if s != [] {
      CountLeTop(s[1..], v);
    }
  }

  lemma EmptyHeapCorrect(k: nat)
    ensures IsHeap(Neutrals(k)) && IsTopK(Neutrals(k), [])
  {
    var h := Neutrals(k);
    forall v: real
      ensures CountLe(h, v) == 0
    {
      CountLeTop(h, v);
    }
    forall e: Entry | e.dis.Fin?
      ensures multiset(h)[e] == 0
    {
      assert e !in h;
    }
    assert AreFrom(h, []);
  }

  ghost predicate IsLe(e: Entry, v: real) {
    e.dis.Fin? && e.dis.value <= v
  }

  lemma {:induction false} CountLeNone(s: seq<Entry>, v: real)
    ensures CountLe(s, v) == 0 <==> forall e: Entry :: IsLe(e, v) ==> multiset(s)[e] == 0
  {
    if s != [] {
      CountLeNone(s[1..], v);
      assert s == [s[0]] + s[1..];
      if IsLe(s[0], v) {
        assert multiset(s)[s[0]] > 0;
      } else {
        assert forall e: Entry :: IsLe(e, v) ==> multiset(s)[e] == multiset(s[1..])[e];
      }
    }
  }

  /** Of the entries at distance at most v, a has no more than b, or as many. */
  ghost predicate AtMost(a: multiset<Entry>, b: multiset<Entry>, v: real) {
    forall e: Entry :: IsLe(e, v) ==> a[e] <= b[e]
  }

  ghost predicate AsMany(a: multiset<Entry>, b: multiset<Entry>, v: real) {
    forall e: Entry :: IsLe(e, v) ==> a[e] == b[e]
  }

  lemma BothLess(a: multiset<Entry>, b: multiset<Entry>, e: Entry, v: real)
    ensures AtMost(a + multiset{e}, b + multiset{e}, v) <==> AtMost(a, b, v)
    ensures AsMany(a + multiset{e}, b + multiset{e}, v) <==> AsMany(a, b, v)
  {
    assert forall x: Entry :: (a + multiset{e})[x] - a[x] == (b + multiset{e})[x] - b[x];
  }

  lemma OneTooFar(a: multiset<Entry>, b: multiset<Entry>, e: Entry, v: real)
    requires !IsLe(e, v)
    ensures AtMost(a + multiset{e}, b, v) <==> AtMost(a, b, v)
    ensures AsMany(a + multiset{e}, b, v) <==> AsMany(a, b, v)
  {
    assert forall x: Entry :: IsLe(x, v) ==> (a + multiset{e})[x] == a[x];
  }

  lemma CountLeFirst(r: seq<Entry>, v: real)
    requires r != []
    ensures CountLe(r, v) == CountLe(r[1..], v) + if IsLe(r[0], v) then 1 else 0
    ensures multiset(r) == multiset(r[1..]) + multiset{r[0]}
  {
    assert r == [r[0]] + r[1..];
  }

  /** Entries taken from s count no more than s, and as much only if all that count were taken. */
  lemma {:induction false} CountLeFrom(r: seq<Entry>, s: seq<Entry>, v: real)
    requires AtMost(multiset(r), multiset(s), v)
    ensures CountLe(r, v) <= CountLe(s, v)
    ensures CountLe(r, v) == CountLe(s, v) <==> AsMany(multiset(r), multiset(s), v)
    decreases |r|
  {
    if r == [] {
      CountLeNone(s, v);
    } else {
      CountLeFirst(r, v);
      var e := r[0];
      if IsLe(e, v) {
        assert e in multiset(s);
        CountLeRemove(s, e, v);
        var i :| IsRemoval(s, e, i, v);
        var rest := s[..i] + s[i + 1..];
        assert multiset(s) == multiset(rest) + multiset{e};
        CountLeFirst([e], v);
        hide AtMost, AsMany, CountLe;
        BothLess(multiset(r[1..]), multiset(rest), e, v);
        CountLeFrom(r[1..], rest, v);
      } else {
        hide AtMost, AsMany, CountLe;
        OneTooFar(multiset(r[1..]), multiset(s), e, v);
        CountLeFrom(r[1..], s, v);
      }
    }
  }

  /** Whatever candidate is left out, no entry of r is farther. */
  ghost predicate LeavesOutNoneNearer(r: seq<Entry>, s: seq<Entry>) {
    forall e: Entry, x :: e.dis.Fin? && multiset(r)[e] < multiset(s)[e] && 0 <= x < |r| ==> !Lt(e.dis, r[x].dis)
  }

  /** The plain reading of IsTopK. */
  lemma TopKMeaning(r: seq<Entry>, s: seq<Entry>)
    ensures IsTopK(r, s) <==> AreFrom(r, s) && LeavesOutNoneNearer(r, s)
  {
    hide CountLe;
    if IsTopK(r, s) {
      forall e: Entry, x | e.dis.Fin? && multiset(r)[e] < multiset(s)[e] && 0 <= x < |r|
        ensures !Lt(e.dis, r[x].dis)
      {
        var v := e.dis.value;
        CountLeFrom(r, s, v);
        assert IsLe(e, v);
        if Lt(e.dis, r[x].dis) {
          CountLeNotAll(r, x, v);
        }
      }
    }
    if AreFrom(r, s) && LeavesOutNoneNearer(r, s) {
      forall v: real
        ensures CountLe(r, v) == Min(|r|, CountLe(s, v))
      {
        CountLeFrom(r, s, v);
        if e: Entry :| IsLe(e, v) && multiset(r)[e] != multiset(s)[e] {
          forall x | 0 <= x < |r|
            ensures IsLe(r[x], v)
          {
            assert !Lt(e.dis, r[x].dis);
          }
          CountLeAll(r, v);
        }
      }
    }
  }

  /**
   Merging: adding the k entries of a heap built from one part of the candidates to a heap
   built from another gives the k best of both parts.
   */
  lemma MergeHeaps(h: seq<Entry>, s: seq<Entry>, h1: seq<Entry>, s1: seq<Entry>)
    requires |h| == |h1| > 0 && IsHeap(h) && IsTopK(h, s) && IsTopK(h1, s1)
    ensures IsHeap(HeapAddAll(h, h1)) && IsTopK(HeapAddAll(h, h1), s + s1)
  {
    var r := HeapAddAll(h, h1);
    HeapAddAllCorrect(h, s, h1);
    forall v: real
      ensures CountLe(r, v) == Min(|r|, CountLe(s + s1, v))
    {
      CountLeConcat(s, s1, v);
      CountLeConcat(s, h1, v);
    }
    forall e: Entry | e.dis.Fin?
      ensures multiset(r)[e] <= multiset(s + s1)[e]
    {
      assert multiset(s + h1)[e] == multiset(s)[e] + multiset(h1)[e];
      assert multiset(s + s1)[e] == multiset(s)[e] + multiset(s1)[e];
    }
  }

  /** The k best do not depend on the order of the candidates. */
  lemma TopKOfPermutation(h: seq<Entry>, s: seq<Entry>, s1: seq<Entry>)
    requires IsTopK(h, s) && multiset(s) == multiset(s1)
    ensures IsTopK(h, s1)
  {
    forall v: real
      ensures CountLe(s, v) == CountLe(s1, v)
    {
      CountLeMultiset(s, s1, v);
    }
  }

  method HeapHeapify(k: nat) returns (bh: array<Entry>)
    ensures fresh(bh) && bh[..] == Neutrals(k)
  {
    bh := new Entry[k](i => NEUTRAL);
  }

  /** One call of a result handler's add. */
  method AddResult(bh: array<Entry>, e: Entry)
    requires bh.Length > 0
    modifies bh
    ensures bh[..] == HeapAdd(old(bh[..]), e)
    ensures e.dis.Fin? && (old(bh[0]).dis.Fin? ==> e.dis.value < old(bh[0]).dis.value) ==>
      bh[..] == SiftDown(old(bh[..]), 0, e)
    ensures e.dis.Top? || (old(bh[0]).dis.Fin? && e.dis.value >= old(bh[0]).dis.value) ==> bh[..] == old(bh[..])
  {
    if Lt(e.dis, bh[0].dis) {
      HeapReplaceTop(bh, e);
    }
  }

  method HeapAddn(bh: array<Entry>, es: seq<Entry>)
    requires bh.Length > 0
    modifies bh
    ensures bh[..] == HeapAddAll(old(bh[..]), es)
  {
    for i := 0 to |es|
      invariant bh[..] == HeapAddAll(old(bh[..]), es[..i])
    {
      AddResult(bh, es[i]);
      assert es[..i + 1][..i] == es[..i];
    }
    assert es[..|es|] == es;
  }

  // ---------- the final order ----------

  /** By increasing distance, entries at the same distance by increasing label. */
  ghost predicate Sorted(s: seq<Entry>) {
    forall i, j :: 0 <= i < j < |s| ==>
      Lt(s[i].dis, s[j].dis) || (s[i].dis == s[j].dis && s[i].id <= s[j].id)
  }

  /**
   r is the sorted form of the heap h: its labelled entries in increasing order, then neutral
   ones up to the capacity.
   */
  ghost predicate IsReordered(r: seq<Entry>, h: seq<Entry>, nel: nat) {
    && |r| == |h| && nel <= |r|
    && Sorted(r[..nel])
    && (forall e: Entry :: multiset(r[..nel])[e] == if e.id == -1 then 0 else multiset(h)[e])
    && (forall i :: nel <= i < |r| ==> r[i] == Entry(Top, -1))
  }

  /** The heap without its top. */
  function Popped(h: seq<Entry>): (r: seq<Entry>)
    requires |h| > 0
    ensures |r| == |h| - 1
  {
    SiftDown(h, 0, h[|h| - 1])[..|h| - 1]
  }

  /** An unlabelled entry is not kept. */
  function KeptAs(e: Entry): seq<Entry> {
    if e.id != -1 then [e] else []
  }

  /** Takes the heap h apart, worst entry first, in front of t. */
  function Unload(h: seq<Entry>, t: seq<Entry>): seq<Entry>
    decreases |h|
  {
    if h == [] then t else Unload(Popped(h), KeptAs(h[0]) + t)
  }

  /** t holds the labelled entries of m. */
  ghost predicate LabelledOf(t: seq<Entry>, m: multiset<Entry>) {
    forall e: Entry :: multiset(t)[e] == if e.id == -1 then 0 else m[e]
  }

  lemma {:induction false} UnloadSorted(h: seq<Entry>, t: seq<Entry>)
    requires IsHeap(h) && Sorted(t) && (|h| > 0 && |t| > 0 ==> !Worse(h[0], t[0]))
    ensures Sorted(Unload(h, t))
    decreases |h|
  {
    if h != [] {
      PopCorrect(h);
      if |Popped(h)| > 0 {
        TopOfPopped(h, Popped(h));
      }
      SortedCons(h[0], t);
      assert [] + t == t;
      UnloadSorted(Popped(h), KeptAs(h[0]) + t);
    }
  }

  lemma {:induction false} UnloadLabelled(h: seq<Entry>, t: seq<Entry>, m: multiset<Entry>)
    requires IsHeap(h) && LabelledOf(t, m)
    ensures LabelledOf(Unload(h, t), multiset(h) + m)
    decreases |h|
  {
    if h == [] {
      assert multiset(h) + m == m;
    } else {
      PopCorrect(h);
      assert multiset(KeptAs(h[0]) + t) == multiset(KeptAs(h[0])) + multiset(t);
      LabelledMore(t, m, h[0]);
      UnloadLabelled(Popped(h), KeptAs(h[0]) + t, m + multiset{h[0]});
      assert multiset(h) + m == multiset(Popped(h)) + (m + multiset{h[0]});
    }
  }

  lemma LabelledMore(t: seq<Entry>, m: multiset<Entry>, e: Entry)
    requires LabelledOf(t, m)
    ensures LabelledOf(KeptAs(e) + t, m + multiset{e})
  {
    assert [] + t == t;
    assert multiset([e] + t) == multiset{e} + multiset(t);
  }

  lemma TopOfPopped(h: seq<Entry>, h': seq<Entry>)
    requires |h| > 0 && |h'| > 0 && IsHeap(h) && multiset(h') + multiset{h[0]} == multiset(h)
    ensures !Worse(h'[0], h[0])
  {
    assert h'[0] in multiset(h') + multiset{h[0]};
    var c :| 0 <= c < |h| && h[c] == h'[0];
    TopIsWorst(h, c);
  }

  /** One turn of heap_reorder: the worst entry leaves the heap for the end of the array. */
  method ReorderOne(bh: array<Entry>, i: nat, ii: nat) returns (ii': nat)
    requires ii <= i < bh.Length
    modifies bh
    ensures ii <= ii' <= i + 1
    ensures bh[..bh.Length - (i + 1)] == Popped(old(bh[..bh.Length - i]))
    ensures bh[bh.Length - ii'..] == KeptAs(old(bh[0])) + old(bh[bh.Length - ii..])
  {
    hide SiftDown;
    var k := bh.Length;
    var e := bh[0];
    ghost var before := bh[..];
    HeapPop(bh, k - i);
    ghost var popped := bh[..];
    bh[k - ii - 1] := e;
    assert bh[..] == popped[k - ii - 1 := e];
    Placed(before, popped, k - i, k - ii, e);
    ii' := if e.id != -1 then ii + 1 else ii;
  }

  lemma Placed<T>(before: seq<T>, popped: seq<T>, p: nat, q: nat, e: T)
    requires |before| == |popped| && 0 < p <= q <= |before| && popped[p..] == before[p..]
    ensures popped[q - 1 := e][..p - 1] == popped[..p][..p - 1]
    ensures popped[q - 1 := e][q..] == before[q..]
    ensures popped[q - 1 := e][q - 1..] == [e] + before[q..]
  {
    assert popped[q..] == popped[p..][q - p..];
    assert before[q..] == before[p..][q - p..];
  }

  /** The loop of heap_reorder: the labelled entries gather at the end of the array. */
  method UnloadHeap(bh: array<Entry>) returns (ii: nat)
    modifies bh
    ensures ii <= bh.Length && bh[bh.Length - ii..] == Unload(old(bh[..]), [])
  {
    hide Popped, KeptAs;
    var k := bh.Length;
    ii := 0;
    assert bh[..k - 0] == bh[..] && bh[k - 0..] == [];
    for i := 0 to k
      invariant 0 <= ii <= i
      invariant Unload(bh[..k - i], bh[k - ii..]) == Unload(old(bh[..]), [])
    {
      ii := ReorderOne(bh, i, ii);
    }
    assert bh[..k - k] == [];
  }

  method HeapReorder(bh: array<Entry>) returns (nel: nat)
    requires IsHeap(bh[..])
    modifies bh
    ensures IsReordered(bh[..], old(bh[..]), nel)
  {
    hide IsHeap, Popped, KeptAs;
    var ii := UnloadHeap(bh);
    nel := ii;
    UnloadSorted(old(bh[..]), []);
    UnloadLabelled(old(bh[..]), [], multiset{});
    assert multiset(old(bh[..])) + multiset{} == multiset(old(bh[..]));
    MoveToFront(bh, ii);
    assert bh[..][..nel] == bh[..nel];
  }

  /** The last nel entries move to the front (memmove) and neutral ones fill the rest. */
  method MoveToFront(bh: array<Entry>, nel: nat)
    requires nel <= bh.Length
    modifies bh
    ensures bh[..nel] == old(bh[bh.Length - nel..])
    ensures forall j :: nel <= j < bh.Length ==> bh[j] == NEUTRAL
  {
    var k, ii := bh.Length, nel;
    ghost var kept := bh[k - nel..];
    forall j | 0 <= j < nel {
      bh[j] := bh[k - nel + j];
    }
    assert bh[..nel] == kept;
    while ii < k
      invariant nel <= ii <= k
      invariant bh[..nel] == kept
      invariant forall j :: nel <= j < ii ==> bh[j] == NEUTRAL
    {
      bh[ii] := NEUTRAL;
      ii := ii + 1;
    }
  }

  lemma SortedCons(e: Entry, t: seq<Entry>)
    requires Sorted(t) && (|t| > 0 ==> !Worse(e, t[0]))
    ensures Sorted([e] + t)
  {
    forall b | 0 <= b < |t|
      ensures !Worse(e, t[b])
    {
      assert b > 0 ==> !Worse(t[0], t[b]);
    }
  }

  /** By increasing distance. */
  ghost predicate SortedByDistance(s: seq<Entry>) {
    forall i, j :: 0 <= i < j < |s| ==> !Lt(s[j].dis, s[i].dis)
  }

  /** The distances, in order, are determined by how many lie below each value. */
  lemma {:induction false} SortedDistancesUnique(a: seq<Entry>, b: seq<Entry>)
    requires |a| == |b| && SortedByDistance(a) && SortedByDistance(b)
    requires forall v: real :: CountLe(a, v) == CountLe(b, v)
    ensures forall i :: 0 <= i < |a| ==> a[i].dis == b[i].dis
  {
    if a != [] {
      FirstIsLeast(a, b);
      FirstIsLeast(b, a);
      forall v: real
        ensures CountLe(a[1..], v) == CountLe(b[1..], v)
      {
        assert CountLe(a, v) == CountLe(b, v);
      }
      SortedDistancesUnique(a[1..], b[1..]);
      forall i | 0 <= i < |a|
        ensures a[i].dis == b[i].dis
      {
        if i > 0 {
          assert a[i] == a[1..][i - 1] && b[i] == b[1..][i - 1];
        }
      }
    }
  }

  lemma FirstIsLeast(a: seq<Entry>, b: seq<Entry>)
    requires |a| > 0 && |b| > 0 && SortedByDistance(b)
    requires forall v: real :: CountLe(a, v) == CountLe(b, v)
    ensures !Lt(a[0].dis, b[0].dis)
  {
    if Lt(a[0].dis, b[0].dis) {
      var v := a[0].dis.value;
      assert CountLe(a, v) > 0;
      NoneLe(b, v);
    }
  }

  lemma {:induction false} NoneLe(b: seq<Entry>, v: real)
    requires forall i :: 0 <= i < |b| ==> Lt(Fin(v), b[i].dis)
    ensures CountLe(b, v) == 0
  {
    if b != [] {
      NoneLe(b[1..], v);
    }
  }

  lemma CountLeReordered(r: seq<Entry>, h: seq<Entry>, nel: nat, v: real)
    requires IsReordered(r, h, nel) && Labelled(h)
    ensures CountLe(r, v) == CountLe(h, v)
  {
    assert r == r[..nel] + r[nel..];
    CountLeConcat(r[..nel], r[nel..], v);
    CountLeTop(r[nel..], v);
    CountLeLabelled(r[..nel], h, v);
  }

  lemma CountLeLabelled(kept: seq<Entry>, h: seq<Entry>, v: real)
    requires forall e: Entry :: multiset(kept)[e] == if e.id == -1 then 0 else multiset(h)[e]
    requires Labelled(h)
    ensures CountLe(kept, v) == CountLe(h, v)
  {
    var unlabelled := Unlabelled(h);
    UnlabelledCorrect(h);
    assert multiset(kept + unlabelled) == multiset(h);
    CountLeMultiset(kept + unlabelled, h, v);
    CountLeConcat(kept, unlabelled, v);
    CountLeTop(unlabelled, v);
  }

  lemma ReorderedIsSorted(r: seq<Entry>, h: seq<Entry>, nel: nat)
    requires IsReordered(r, h, nel) && Padded(h)
    ensures Sorted(r) && Padded(r)
  {
    forall i | 0 <= i < nel
      ensures r[i].dis.Fin?
    {
      assert r[..nel][i] in multiset(r[..nel]);
      assert r[i] in multiset(h);
    }
    forall i, j | 0 <= i < j < |r|
      ensures Lt(r[i].dis, r[j].dis) || (r[i].dis == r[j].dis && r[i].id <= r[j].id)
    {
      if j < nel {
        assert r[..nel][i] == r[i] && r[..nel][j] == r[j];
      }
    }
  }

  ghost function Unlabelled(h: seq<Entry>): seq<Entry> {
    if h == [] then [] else (if h[0].id == -1 then [h[0]] else []) + Unlabelled(h[1..])
  }

  lemma {:induction false} UnlabelledCorrect(h: seq<Entry>)
    ensures forall e: Entry :: multiset(Unlabelled(h))[e] == if e.id == -1 then multiset(h)[e] else 0
    ensures Labelled(h) ==>
      forall i :: 0 <= i < |Unlabelled(h)| ==> Unlabelled(h)[i].dis.Top?
  {
    if h != [] {
      UnlabelledCorrect(h[1..]);
      assert h == [h[0]] + h[1..];
    }
  }

  // ---------- what a search returns ----------

  /** Only an unused place is without a label. */
  ghost predicate Labelled(h: seq<Entry>) {
    forall i :: 0 <= i < |h| && h[i].id == -1 ==> h[i].dis.Top?
  }

  /** An unused place carries the label -1. */
  ghost predicate Padded(h: seq<Entry>) {
    forall i :: 0 <= i < |h| && h[i].dis.Top? ==> h[i].id == -1
  }

  lemma {:induction false} HeapAddAllLabelled(h: seq<Entry>, es: seq<Entry>)
    requires |h| > 0 && Labelled(h) && Padded(h) && Labelled(es)
    ensures Labelled(HeapAddAll(h, es)) && Padded(HeapAddAll(h, es))
    decreases |es|
  {
    if es != [] {
      var front, e := es[..|es| - 1], es[|es| - 1];
      HeapAddAllLabelled(h, front);
      var h1 := HeapAddAll(h, front);
      SiftDownMultiset(h1, 0, e);
      var r := HeapAdd(h1, e);
      forall i | 0 <= i < |r|
        ensures r[i].id == -1 <==> r[i].dis.Top?
      {
        if r != h1 {
          assert r[i] in multiset(r) + multiset{h1[0]};
          assert r[i] in multiset(h1) + multiset{e};
        }
      }
    }
  }

  /** r lists the |r| best of the candidates s in order; places left over are at no distance, labelled -1. */
  ghost predicate IsTopKResult(r: seq<Entry>, s: seq<Entry>) {
    Sorted(r) && IsTopK(r, s) && Padded(r)
  }

  lemma ReorderedIsTopK(r: seq<Entry>, h: seq<Entry>, nel: nat, s: seq<Entry>)
    requires IsReordered(r, h, nel) && Labelled(h) && Padded(h) && IsTopK(h, s)
    ensures IsTopKResult(r, s)
  {
    ReorderedIsSorted(r, h, nel);
    forall v: real
      ensures CountLe(r, v) == Min(|r|, CountLe(s, v))
    {
      CountLeReordered(r, h, nel, v);
    }
    ReorderedFrom(r, h, nel, s);
  }

  lemma ReorderedFrom(r: seq<Entry>, h: seq<Entry>, nel: nat, s: seq<Entry>)
    requires IsReordered(r, h, nel) && AreFrom(h, s)
    ensures AreFrom(r, s)
  {
    assert r == r[..nel] + r[nel..];
    forall e: Entry | e.dis.Fin?
      ensures multiset(r)[e] <= multiset(s)[e]
    {
      assert multiset(r)[e] == multiset(r[..nel])[e] + multiset(r[nel..])[e];
      assert e !in r[nel..];
    }
  }

  /**
   The distances of a result are determined by the candidates: neither the order in which they
   were met nor the way they were spread over heaps matters.
   */
  lemma ResultDistancesUnique(r1: seq<Entry>, s1: seq<Entry>, r2: seq<Entry>, s2: seq<Entry>)
    requires IsTopKResult(r1, s1) && IsTopKResult(r2, s2)
    requires |r1| == |r2| && multiset(s1) == multiset(s2)
    ensures forall i :: 0 <= i < |r1| ==> r1[i].dis == r2[i].dis
  {
    forall v: real
      ensures CountLe(r1, v) == CountLe(r2, v)
    {
      CountLeMultiset(s1, s2, v);
    }
    SortedDistancesUnique(r1, r2);
  }
}
