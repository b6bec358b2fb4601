/**
 Flat codes (include/faiss/IndexFlatCodes.cpp) under an id map, with and without the map from
 ids back to places (include/faiss/IndexIDMap.cpp).
 */
module IdMap {
  import opened Arithmetic
  import opened Bytes
  import opened Wrappers

  // ---------- removal as a filter ----------

  /** The elements of s among its first m whose place does not go. */
  function Kept<T>(s: seq<T>, m: nat, goes: nat -> bool): seq<T>
    requires m <= |s|
  {
    if m == 0 then [] else Kept(s, m - 1, goes) + if goes(m - 1) then [] else [s[m - 1]]
  }

  lemma {:induction false} KeptLength<S, T>(s: seq<S>, t: seq<T>, m: nat, goes: nat -> bool)
    requires m <= |s| && m <= |t|
    ensures |Kept(s, m, goes)| == |Kept(t, m, goes)| <= m
  {
    if m > 0 {
      KeptLength(s, t, m - 1, goes);
    }
  }

  /** The places that do not go, in order. */
  ghost predicate AreStaying(places: seq<nat>, m: nat, goes: nat -> bool) {
    && (forall i: nat :: i in places <==> i < m && !goes(i))
    && (forall x, y :: 0 <= x < y < |places| ==> places[x] < places[y])
  }

  lemma StayingMore(places: seq<nat>, m: nat, goes: nat -> bool)
    requires AreStaying(places, m, goes)
    ensures AreStaying(if goes(m) then places else places + [m], m + 1, goes)
  {
    forall x | 0 <= x < |places|
      ensures places[x] < m
    {
      assert places[x] in places;
    }
  }

  /** kept is what s has at the places. */
  ghost predicate LieAt<T>(kept: seq<T>, s: seq<T>, places: seq<nat>) {
    |kept| == |places| && forall x :: 0 <= x < |places| ==> places[x] < |s| && kept[x] == s[places[x]]
  }

  lemma LieAtMore<T>(kept: seq<T>, s: seq<T>, places: seq<nat>, m: nat)
    requires LieAt(kept, s, places) && m < |s|
    ensures LieAt(kept + [s[m]], s, places + [m])
  {
  }

  lemma NoneKept<T>(s: seq<T>, goes: nat -> bool)
    ensures AreStaying([], 0, goes) && LieAt(Kept(s, 0, goes), s, [])
  {
  }

  /** What is kept is what lies at the places that do not go, in order. */
  lemma {:induction false} KeptPlaces<T>(s: seq<T>, m: nat, goes: nat -> bool) returns (places: seq<nat>)
    requires m <= |s|
    ensures AreStaying(places, m, goes) && LieAt(Kept(s, m, goes), s, places)
  {
    NoneKept(s, goes);
    hide AreStaying, Kept, LieAt;
    if m == 0 {
      places := [];
    } else {
      places := KeptPlaces(s, m - 1, goes);
      StayingMore(places, m - 1, goes);
      KeptMore(s, m - 1, goes);
      if !goes(m - 1) {
        LieAtMore(Kept(s, m - 1, goes), s, places, m - 1);
        places := places + [m - 1];
      }
    }
  }

  lemma {:induction false} KeptOfSize(codes: seq<Code>, m: nat, goes: nat -> bool, size: nat)
    requires m <= |codes| && AllOfSize(codes, size)
    ensures AllOfSize(Kept(codes, m, goes), size)
  {
    if m > 0 {
      KeptOfSize(codes, m - 1, goes, size);
    }
  }

  // ---------- flat codes ----------

  /** A run of bytes written over another. */
  function Overwritten(s: seq<Byte>, pos: nat, d: seq<Byte>): (r: seq<Byte>)
    requires pos + |d| <= |s|
    ensures |r| == |s|
  {
    s[..pos] + d + s[pos + |d|..]
  }

  /** The first codes are those kept so far, the codes from i on are still to be looked at. */
  ghost predicate Compacted(bytes: seq<Byte>, codes: seq<Code>, size: nat, i: nat, goes: nat -> bool)
    requires i <= |codes|
  {
    var j := |Kept(codes, i, goes)|;
    && |bytes| == |codes| * size && j * size <= i * size <= |bytes|
    && bytes[..j * size] == Packed(Kept(codes, i, goes)) && bytes[i * size..] == Packed(codes[i..])
  }

  lemma CompactedStart(codes: seq<Code>, size: nat, goes: nat -> bool)
    requires AllOfSize(codes, size)
    ensures Compacted(Packed(codes), codes, size, 0, goes)
  {
    PackedLength(codes, size);
    assert codes[0..] == codes;
  }

  lemma Front(codes: seq<Code>, size: nat, i: nat)
    requires AllOfSize(codes, size) && i < |codes|
    ensures Packed(codes[i..]) == codes[i] + Packed(codes[i + 1..]) && |codes[i]| == size
    ensures |Packed(codes[i..])| == (|codes| - i) * size
  {
    hide Packed;
    assert codes[i..] == codes[i..][..1] + codes[i + 1..];
    PackedConcat(codes[i..][..1], codes[i + 1..]);
    PackedMore(codes[i..], 0);
    PackedNone();
    assert codes[i..][..0] == [];
    PackedLength(codes[i..], size);
  }

  lemma PackedNone()
    ensures Packed([]) == []
  {
  }

  lemma Times(j: nat, i: nat, n: nat, size: nat)
    requires j <= i < n
    ensures j * size <= i * size && i * size + size == (i + 1) * size <= n * size && j * size + size == (j + 1) * size
    ensures (n - i) * size == n * size - i * size
  {
    MulMonotone(j, i, size);
    MulMonotone(i + 1, n, size);
  }

  lemma KeptMore<T>(s: seq<T>, i: nat, goes: nat -> bool)
    requires i < |s|
    ensures Kept(s, i + 1, goes) == if goes(i) then Kept(s, i, goes) else Kept(s, i, goes) + [s[i]]
  {
  }

  lemma CompactedSkip(bytes: seq<Byte>, codes: seq<Code>, size: nat, i: nat, goes: nat -> bool)
    requires AllOfSize(codes, size) && i < |codes| && Compacted(bytes, codes, size, i, goes) && goes(i)
    ensures Compacted(bytes, codes, size, i + 1, goes)
  {
    hide Packed, Kept;
    Front(codes, size, i);
    KeptLength(codes, codes, i, goes);
    KeptMore(codes, i, goes);
    Times(|Kept(codes, i, goes)|, i, |codes|, size);
    AfterFirst(bytes, i * size, codes[i], Packed(codes[i + 1..]));
  }

  lemma AfterFirst(bytes: seq<Byte>, b: nat, code: Code, rest: seq<Byte>)
    requires b + |code| <= |bytes| && bytes[b..] == code + rest
    ensures bytes[b..b + |code|] == code && bytes[b + |code|..] == rest
  {
    assert bytes[b..b + |code|] == bytes[b..][..|code|];
    assert bytes[b + |code|..] == bytes[b..][|code|..];
  }

  lemma MovedDown(bytes: seq<Byte>, after: seq<Byte>, a: nat, b: nat, code: Code, kept: seq<Byte>, rest: seq<Byte>)
    requires a <= b && b + |code| <= |bytes| && bytes[..a] == kept && bytes[b..] == code + rest
    requires after == Overwritten(bytes, a, code) || (a == b && after == bytes)
    ensures |after| == |bytes| && after[..a + |code|] == kept + code && after[b + |code|..] == rest
  {
    AfterFirst(bytes, b, code, rest);
    assert after[..a + |code|] == bytes[..a] + code;
    assert after[b + |code|..] == bytes[b + |code|..];
  }

  /** Code i joins those kept; it moves down, never over one that is still to be looked at. */
  lemma CompactedKeep(bytes: seq<Byte>, after: seq<Byte>, codes: seq<Code>, size: nat, i: nat, goes: nat -> bool)
    requires AllOfSize(codes, size) && i < |codes| && Compacted(bytes, codes, size, i, goes) && !goes(i)
    requires i * size + size <= |bytes|
    requires var j := |Kept(codes, i, goes)|;
      after == (if i > j then Overwritten(bytes, j * size, bytes[i * size..i * size + size]) else bytes)
    ensures Compacted(after, codes, size, i + 1, goes)
  {
    hide Packed, Kept, Overwritten, Compacted;
    var kept := Kept(codes, i, goes);
    CompactedFacts(bytes, codes, size, i, goes);
    KeptMore(codes, i, goes);
    PackedSnoc(kept, codes[i]);
    AfterFirst(bytes, i * size, codes[i], Packed(codes[i + 1..]));
    MovedDown(bytes, after, |kept| * size, i * size, codes[i], Packed(kept), Packed(codes[i + 1..]));
    CompactedNext(after, codes, size, i, goes);
  }

  lemma CompactedFacts(bytes: seq<Byte>, codes: seq<Code>, size: nat, i: nat, goes: nat -> bool)
    requires AllOfSize(codes, size) && i < |codes| && Compacted(bytes, codes, size, i, goes)
    ensures var j := |Kept(codes, i, goes)|;
      && j <= i && |codes[i]| == size && |bytes| == |codes| * size && j * size <= i * size && i * size + size <= |bytes|
      && bytes[..j * size] == Packed(Kept(codes, i, goes)) && bytes[i * size..] == codes[i] + Packed(codes[i + 1..])
  {
    hide Packed, Kept;
    Front(codes, size, i);
    KeptLength(codes, codes, i, goes);
    Times(|Kept(codes, i, goes)|, i, |codes|, size);
  }

  lemma CompactedNext(bytes: seq<Byte>, codes: seq<Code>, size: nat, i: nat, goes: nat -> bool)
    requires i < |codes| && |bytes| == |codes| * size && i * size + size <= |bytes| && !goes(i)
    requires var j := |Kept(codes, i, goes)|;
      j <= i && j * size + size <= |bytes|
      && bytes[..j * size + size] == Packed(Kept(codes, i + 1, goes))
      && bytes[i * size + size..] == Packed(codes[i + 1..])
    ensures Compacted(bytes, codes, size, i + 1, goes)
  {
    hide Packed, Kept;
    KeptMore(codes, i, goes);
    Times(|Kept(codes, i, goes)|, i, |codes|, size);
  }

  lemma CompactedEnd(bytes: seq<Byte>, codes: seq<Code>, size: nat, goes: nat -> bool)
    requires Compacted(bytes, codes, size, |codes|, goes)
    ensures var j := |Kept(codes, |codes|, goes)|;
      j * size <= |bytes| && bytes[..j * size] == Packed(Kept(codes, |codes|, goes))
  {
  }

  /** Growing a buffer by blanks and writing codes over them appends the codes. */
  lemma Appending(list: seq<Code>, more: seq<Code>, size: nat)
    requires AllOfSize(list, size) && AllOfSize(more, size)
    ensures |Packed(list)| == |list| * size <= (|list| + |more|) * size
    ensures |list| * size + |Packed(more)| == (|list| + |more|) * size && AllOfSize(list + more, size)
    ensures var grown := Packed(list) + seq((|list| + |more|) * size - |Packed(list)|, k => 0);
      Overwritten(grown, |list| * size, Packed(more)) == Packed(list + more)
  {
    hide Packed;
    PackedLength(list, size);
    PackedLength(more, size);
    PackedConcat(list, more);
    assert (|list| + |more|) * size == |list| * size + |more| * size;
  }

  class IndexFlatCodes {
    const codeSize: nat
    var ntotal: nat
    var codes: seq<Byte>
    ghost var list: seq<Code>

    ghost predicate Valid()
      reads this
    {
      ntotal == |list| && AllOfSize(list, codeSize) && codes == Packed(list)
    }

    constructor (codeSize: nat)
      ensures Valid() && list == [] && this.codeSize == codeSize
    {
      this.codeSize := codeSize;
      ntotal, codes, list := 0, [], [];
    }

    /** Adds vectors, given by their codes; the buffer grows and they are encoded into its end. */
    method Add(newCodes: seq<Code>)
      requires Valid() && AllOfSize(newCodes, codeSize)
      modifies this
      ensures Valid() && list == old(list) + newCodes
    {
      hide Packed;
      var n := |newCodes|;
      if n == 0 {
        assert list + newCodes == list;
        return;
      }
      Appending(list, newCodes, codeSize);
      codes := codes + seq((ntotal + n) * codeSize - |codes|, k => 0);
      codes := Overwritten(codes, ntotal * codeSize, Packed(newCodes));
      ntotal := ntotal + n;
      list := list + newCodes;
    }

    method Reset()
      modifies this
      ensures Valid() && list == []
    {
      codes, ntotal, list := [], 0, [];
    }

    /** The in-place loop over the codes: those that stay move to the front. */
    method CompactCodes(sel: nat -> bool) returns (j: nat)
      requires Valid()
      modifies this`codes
      ensures j == |Kept(list, |list|, sel)| <= |list| && Compacted(codes, list, codeSize, |list|, sel)
    {
      hide Packed, Kept, Compacted, Overwritten;
      j := 0;
      CompactedStart(list, codeSize, sel);
      KeptNone(list, sel);
      for i := 0 to ntotal
        invariant j == |Kept(list, i, sel)| <= i && Compacted(codes, list, codeSize, i, sel)
      {
        CompactedFits(codes, list, codeSize, i, sel);
        KeptMore(list, i, sel);
        if sel(i) {
          CompactedSkip(codes, list, codeSize, i, sel);
        } else {
          ghost var before := codes;
          if i > j {
            codes := Overwritten(codes, j * codeSize, codes[i * codeSize..i * codeSize + codeSize]);
          }
          CompactedKeep(before, codes, list, codeSize, i, sel);
          j := j + 1;
        }
      }
    }

    /** Removes the codes at the places the selector names, moving the others down in place. */
    method RemoveIds(sel: nat -> bool) returns (nremove: nat)
      requires Valid()
      modifies this
      ensures Valid() && list == Kept(old(list), |old(list)|, sel) && nremove == |old(list)| - |list|
    {
      hide Packed, Kept, Compacted;
      var j := CompactCodes(sel);
      nremove := ntotal - j;
      CompactedEnd(codes, list, codeSize, sel);
      KeptOfSize(list, ntotal, sel, codeSize);
      ghost var kept := Kept(list, ntotal, sel);
      if nremove > 0 {
        ntotal := j;
        codes := codes[..ntotal * codeSize];
      } else {
        KeptAll(codes, list, codeSize, sel);
      }
      list := kept;
    }

    /** Takes over the codes of another index, unless ids are to be shifted or the codes differ in size. */
    method MergeFrom(other: IndexFlatCodes, addId: int) returns (ok: bool)
      requires Valid() && other.Valid() && other != this
      modifies this, other
      ensures Valid() && other.Valid()
      ensures ok <==> addId == 0 && other.codeSize == codeSize
      ensures ok ==> list == old(list) + old(other.list) && other.list == []
      ensures !ok ==> unchanged(this) && unchanged(other)
    {
      if addId != 0 || other.codeSize != codeSize {
        return false;
      }
      hide Packed, Overwritten;
      Appending(list, other.list, codeSize);
      codes := codes + seq((ntotal + other.ntotal) * codeSize - |codes|, k => 0);
      codes := Overwritten(codes, ntotal * codeSize, other.codes);
      ntotal := ntotal + other.ntotal;
      list := list + other.list;
      other.Reset();
      ok := true;
    }

    /** The code at a place; None is the exception for a place that is not in the index. */
    method Reconstruct(key: int) returns (r: Option<Code>)
      requires Valid()
      ensures r == if 0 <= key < ntotal then Some(list[key]) else None
    {
      if !(key >= 0 && key + 1 <= ntotal) {
        return None;
      }
      CodeAt(list, codeSize, key);
      r := Some(codes[key * codeSize..key * codeSize + codeSize]);
    }
  }

  lemma KeptNone<T>(s: seq<T>, goes: nat -> bool)
    ensures Kept(s, 0, goes) == []
  {
  }

  lemma CompactedFits(bytes: seq<Byte>, codes: seq<Code>, size: nat, i: nat, goes: nat -> bool)
    requires AllOfSize(codes, size) && i < |codes| && Compacted(bytes, codes, size, i, goes)
    ensures i * size + size <= |bytes| && |Kept(codes, i, goes)| * size <= i * size
  {
    KeptLength(codes, codes, i, goes);
    Times(i, i, |codes|, size);
  }

  /** When nothing goes the buffer is as it was. */
  lemma KeptAll(bytes: seq<Byte>, codes: seq<Code>, size: nat, goes: nat -> bool)
    requires Compacted(bytes, codes, size, |codes|, goes) && |Kept(codes, |codes|, goes)| == |codes|
    ensures bytes == Packed(Kept(codes, |codes|, goes))
  {
    assert bytes[..|codes| * size] == bytes;
  }

  // ---------- pairs of id and code ----------

  type Pair = (int, Code)

  function Zip(ids: seq<int>, codes: seq<Code>): (r: seq<Pair>)
    requires |ids| == |codes|
    ensures |r| == |ids| && forall i :: 0 <= i < |r| ==> r[i].0 == ids[i] && r[i].1 == codes[i]
  {
    seq(|ids|, i requires 0 <= i < |ids| => (ids[i], codes[i]))
  }

  /** The pairs whose id the selector does not name. */
  function Without(pairs: seq<Pair>, sel: int -> bool): seq<Pair> {
    if pairs == [] then []
    else Without(pairs[..|pairs| - 1], sel) + if sel(pairs[|pairs| - 1].0) then [] else [pairs[|pairs| - 1]]
  }

  /** The ids moved by a constant. */
  function Shifted(ids: seq<int>, addId: int): (r: seq<int>)
    ensures |r| == |ids| && forall i :: 0 <= i < |r| ==> r[i] - ids[i] == addId
  {
    seq(|ids|, i requires 0 <= i < |ids| => ids[i] + addId)
  }

  /** Removal by id takes out every pair under a named id, leaves the others as often as they were ... */
  lemma {:induction false} WithoutHolds(pairs: seq<Pair>, sel: int -> bool, e: Pair)
    ensures multiset(Without(pairs, sel))[e] == if sel(e.0) then 0 else multiset(pairs)[e]
  {
    if pairs != [] {
      var n := |pairs| - 1;
      WithoutHolds(pairs[..n], sel, e);
      assert pairs == pairs[..n] + [pairs[n]];
    }
  }

  /** ... and keeps their order. */
  lemma {:induction false} WithoutJoin(pairs: seq<Pair>, more: seq<Pair>, sel: int -> bool)
    ensures Without(pairs + more, sel) == Without(pairs, sel) + Without(more, sel)
    decreases |more|
  {
    if more == [] {
      assert pairs + more == pairs;
    } else {
      var n := |more| - 1;
      assert (pairs + more)[..|pairs| + n] == pairs + more[..n];
      WithoutJoin(pairs, more[..n], sel);
    }
  }

  /** A selector of ids as one of places (IDSelectorTranslated). */
  function Translated(ids: seq<int>, sel: int -> bool): nat -> bool {
    (i: nat) => i < |ids| && sel(ids[i])
  }

  /** Removing by place from ids and codes alike is removing pairs by id. */
  lemma {:induction false} KeptIsWithout(ids: seq<int>, codes: seq<Code>, sel: int -> bool, m: nat)
    requires m <= |ids| == |codes|
    ensures var goes := Translated(ids, sel);
      |Kept(ids, m, goes)| == |Kept(codes, m, goes)|
      && Zip(Kept(ids, m, goes), Kept(codes, m, goes)) == Without(Zip(ids, codes)[..m], sel)
  {
    var goes := Translated(ids, sel);
    KeptLength(ids, codes, m, goes);
    if m > 0 {
      KeptIsWithout(ids, codes, sel, m - 1);
      KeptLength(ids, codes, m - 1, goes);
      var all := Zip(ids, codes);
      assert all[..m][..m - 1] == all[..m - 1] && all[..m][m - 1] == (ids[m - 1], codes[m - 1]);
    }
  }

  lemma ZipJoin(ids: seq<int>, codes: seq<Code>, moreIds: seq<int>, moreCodes: seq<Code>)
    requires |ids| == |codes| && |moreIds| == |moreCodes|
    ensures Zip(ids + moreIds, codes + moreCodes) == Zip(ids, codes) + Zip(moreIds, moreCodes)
  {
  }

  /** The in-place loop over the ids: those that stay move to the front. */
  method CompactIds(idMap: seq<int>, sel: int -> bool) returns (r: seq<int>, j: nat)
    ensures |r| == |idMap| && j <= |r| && r[..j] == Kept(idMap, |idMap|, Translated(idMap, sel))
  {
    hide Kept;
    r, j := idMap, 0;
    ghost var goes := Translated(idMap, sel);
    KeptNone(idMap, goes);
    for i := 0 to |idMap|
      invariant |r| == |idMap| && j <= i && r[..j] == Kept(idMap, i, goes)
      invariant forall q :: i <= q < |r| ==> r[q] == idMap[q]
    {
      KeptMore(idMap, i, goes);
      if !sel(r[i]) {
        ghost var before := r;
        r := r[j := r[i]];
        assert r[..j + 1] == before[..j] + [idMap[i]];
        j := j + 1;
      }
    }
  }

  class IndexIDMap {
    const index: IndexFlatCodes
    var idMap: seq<int>
    var ntotal: nat

    ghost predicate Valid()
      reads this, index
    {
      index.Valid() && |idMap| == ntotal == index.ntotal
    }

    ghost function Pairs(): (r: seq<Pair>)
      requires Valid()
      reads this, index
    {
      Zip(idMap, index.list)
    }

    /** An id map over an empty index. */
    constructor (index: IndexFlatCodes)
      requires index.Valid() && index.list == []
      ensures Valid() && this.index == index && Pairs() == []
    {
      this.index := index;
      idMap, ntotal := [], 0;
    }

    method AddWithIds(newCodes: seq<Code>, xids: seq<int>)
      requires Valid() && |xids| == |newCodes| && AllOfSize(newCodes, index.codeSize)
      modifies this, index
      ensures Valid() && Pairs() == old(Pairs()) + Zip(xids, newCodes)
      ensures idMap == old(idMap) + xids
    {
      hide Packed;
      index.Add(newCodes);
      for i := 0 to |xids|
        invariant idMap == old(idMap) + xids[..i]
        modifies this`idMap
      {
        idMap := idMap + [xids[i]];
      }
      assert xids[..|xids|] == xids;
      ntotal := index.ntotal;
      ZipJoin(old(idMap), old(index.list), xids, newCodes);
    }

    method Reset()
      requires Valid()
      modifies this, index
      ensures Valid() && Pairs() == [] && idMap == []
    {
      index.Reset();
      idMap, ntotal := [], 0;
    }

    /** Removes the pairs whose id is named: first in the index, then in the map of ids, both in place. */
    method RemoveIds(sel: int -> bool) returns (nremove: nat)
      requires Valid()
      modifies this, index
      ensures Valid() && Pairs() == Without(old(Pairs()), sel) && nremove == |old(idMap)| - |idMap|
    {
      hide Packed, Kept, Without;
      var sel2 := Translated(idMap, sel);
      KeptIsWithout(idMap, index.list, sel, ntotal);
      KeptLength(idMap, index.list, ntotal, sel2);
      assert Zip(idMap, index.list)[..ntotal] == Zip(idMap, index.list);
      nremove := index.RemoveIds(sel2);
      var j;
      idMap, j := CompactIds(idMap, sel);
      assert j == index.ntotal;
      ntotal := j;
      idMap := idMap[..ntotal];
    }

    /** Takes over the pairs of another map, their ids shifted. */
    method MergeFrom(other: IndexIDMap, addId: int) returns (ok: bool)
      requires Valid() && other.Valid() && other != this && other.index != index
      modifies this, index, other, other.index
      ensures Valid() && other.Valid()
      ensures ok <==> other.index.codeSize == index.codeSize
      ensures ok ==> Pairs() == old(Pairs()) + Zip(Shifted(old(other.idMap), addId), old(other.index.list))
      ensures ok ==> idMap == old(idMap) + Shifted(old(other.idMap), addId) && other.Pairs() == [] && other.idMap == []
      ensures !ok ==> unchanged(this) && unchanged(index) && unchanged(other) && unchanged(other.index)
    {
      hide Packed;
      ok := index.MergeFrom(other.index, 0);
      if !ok {
        return;
      }
      ghost var moved := Shifted(other.idMap, addId);
      for i := 0 to |other.idMap|
        invariant idMap == old(idMap) + moved[..i]
        modifies this`idMap
      {
        idMap := idMap + [other.idMap[i] + addId];
      }
      assert moved[..|moved|] == moved;
      other.idMap := [];
      ntotal := index.ntotal;
      other.ntotal := 0;
      ZipJoin(old(idMap), old(index.list), moved, old(other.index.list));
    }
  }

  // ---------- the map back ----------

  /** Every id that occurs, and no other, is mapped to its last place. */
  ghost predicate IsRevMap(m: map<int, nat>, ids: seq<int>) {
    && (forall id :: id in m <==> id in ids)
    && (forall id :: id in m ==> IsLastPlace(ids, id, m[id]))
  }

  ghost predicate IsLastPlace(ids: seq<int>, id: int, p: nat) {
    p < |ids| && ids[p] == id && forall i :: p < i < |ids| ==> ids[i] != id
  }

  lemma RevMapMore(m: map<int, nat>, ids: seq<int>, id: int)
    requires IsRevMap(m, ids)
    ensures IsRevMap(m[id := |ids|], ids + [id])
  {
    var more := m[id := |ids|];
    forall x
      ensures x in more <==> x in ids + [id]
      ensures x in more ==> IsLastPlace(ids + [id], x, more[x])
    {
      if x in m && x != id {
        assert IsLastPlace(ids, x, m[x]);
      }
    }
  }

  /** The code of the last pair with a given id. */
  function Lookup(pairs: seq<Pair>, key: int): Option<Code> {
    if pairs == [] then None
    else if pairs[|pairs| - 1].0 == key then Some(pairs[|pairs| - 1].1)
    else Lookup(pairs[..|pairs| - 1], key)
  }

  lemma {:induction false} LookupLast(pairs: seq<Pair>, key: int, p: nat)
    requires p < |pairs| && pairs[p].0 == key && forall i :: p < i < |pairs| ==> pairs[i].0 != key
    ensures Lookup(pairs, key) == Some(pairs[p].1)
    decreases |pairs|
  {
    if p < |pairs| - 1 {
      LookupLast(pairs[..|pairs| - 1], key, p);
    }
  }

  lemma {:induction false} LookupNone(pairs: seq<Pair>, key: int)
    requires forall i :: 0 <= i < |pairs| ==> pairs[i].0 != key
    ensures Lookup(pairs, key) == None
  {
    if pairs != [] {
      LookupNone(pairs[..|pairs| - 1], key);
    }
  }

  ghost predicate Distinct(ids: seq<int>) {
    forall i, j :: 0 <= i < j < |ids| ==> ids[i] != ids[j]
  }

  /** With distinct ids a key leads to the one code stored under it. */
  lemma LookupDistinct(pairs: seq<Pair>, i: nat)
    requires i < |pairs| && forall a, b :: 0 <= a < b < |pairs| ==> pairs[a].0 != pairs[b].0
    ensures Lookup(pairs, pairs[i].0) == Some(pairs[i].1)
  {
    LookupLast(pairs, pairs[i].0, i);
  }

  /** A key that was removed is not found any more; the others are found as before. */
  lemma {:induction false} LookupWithout(pairs: seq<Pair>, sel: int -> bool, key: int)
    ensures Lookup(Without(pairs, sel), key) == if sel(key) then None else Lookup(pairs, key)
  {
    if pairs != [] {
      var front, last := pairs[..|pairs| - 1], pairs[|pairs| - 1];
      LookupWithout(front, sel, key);
      if sel(last.0) {
        assert Without(front, sel) + [] == Without(front, sel);
      } else {
        assert (Without(front, sel) + [last])[..|Without(front, sel)|] == Without(front, sel);
      }
    }
  }

  /** A key that was added is found with its new code; the others are found as before. */
  lemma {:induction false} LookupJoined(pairs: seq<Pair>, more: seq<Pair>, key: int)
    ensures Lookup(pairs + more, key) == if Lookup(more, key).Some? then Lookup(more, key) else Lookup(pairs, key)
    decreases |more|
  {
    if more == [] {
      assert pairs + more == pairs;
    } else {
      assert (pairs + more)[..|pairs| + |more| - 1] == pairs + more[..|more| - 1];
      LookupJoined(pairs, more[..|more| - 1], key);
    }
  }

  function Elements(ids: seq<int>): set<int> {
    set id | id in ids
  }

  lemma {:induction false} DistinctSize(ids: seq<int>)
    requires Distinct(ids)
    ensures |Elements(ids)| == |ids|
  {
    if ids != [] {
      var front, last := ids[..|ids| - 1], ids[|ids| - 1];
      DistinctSize(front);
      assert Elements(ids) == Elements(front) + {last};
    }
  }

  lemma DistinctPlaces(m: map<int, nat>, ids: seq<int>)
    requires IsRevMap(m, ids)
    ensures Distinct(ids) <==> forall i :: 0 <= i < |ids| ==> ids[i] in m && m[ids[i]] == i
    ensures Distinct(ids) ==> |m| == |ids|
  {
    if Distinct(ids) {
      forall i | 0 <= i < |ids|
        ensures ids[i] in m && m[ids[i]] == i
      {
        assert ids[i] in ids;
        assert IsLastPlace(ids, ids[i], m[ids[i]]);
      }
      DistinctSize(ids);
      forall id
        ensures id in m.Keys <==> id in Elements(ids)
      {
        assert id in m <==> id in ids;
      }
      assert m.Keys == Elements(ids);
    }
  }

  class IndexIDMap2 {
    const base: IndexIDMap
    var revMap: map<int, nat>

    ghost predicate Valid()
      reads this, base, base.index
    {
      base.Valid() && IsRevMap(revMap, base.idMap)
    }

    constructor (base: IndexIDMap)
      requires base.Valid() && base.idMap == []
      ensures Valid() && this.base == base
    {
      this.base := base;
      revMap := map[];
    }

    /** Maps the ids from place first on. */
    method MapFrom(first: nat)
      requires base.Valid() && first <= base.ntotal && IsRevMap(revMap, base.idMap[..first])
      modifies this
      ensures Valid()
    {
      hide IsRevMap;
      for i := first to base.ntotal
        invariant IsRevMap(revMap, base.idMap[..i])
      {
        RevMapMore(revMap, base.idMap[..i], base.idMap[i]);
        assert base.idMap[..i + 1] == base.idMap[..i] + [base.idMap[i]];
        revMap := revMap[base.idMap[i] := i];
      }
      assert base.idMap[..base.ntotal] == base.idMap;
    }

    method AddWithIds(newCodes: seq<Code>, xids: seq<int>)
      requires Valid() && |xids| == |newCodes| && AllOfSize(newCodes, base.index.codeSize)
      modifies this, base, base.index
      ensures Valid() && base.Pairs() == old(base.Pairs()) + Zip(xids, newCodes)
    {
      hide IsRevMap;
      var prevNtotal := base.ntotal;
      base.AddWithIds(newCodes, xids);
      assert base.idMap[..prevNtotal] == old(base.idMap);
      MapFrom(prevNtotal);
    }

    method MergeFrom(other: IndexIDMap2, addId: int) returns (ok: bool)
      requires Valid() && other.Valid() && other != this && other.base != base && other.base.index != base.index
      modifies this, base, base.index, other, other.base, other.base.index
      ensures Valid() && other.Valid()
      ensures ok <==> other.base.index.codeSize == base.index.codeSize
      ensures ok ==>
        base.Pairs() == old(base.Pairs()) + Zip(Shifted(old(other.base.idMap), addId), old(other.base.index.list))
      ensures ok ==> other.base.Pairs() == []
      ensures !ok ==> base.Pairs() == old(base.Pairs()) && other.base.Pairs() == old(other.base.Pairs())
    {
      var prevNtotal := base.ntotal;
      ok := base.MergeFrom(other.base, addId);
      if !ok {
        return;
      }
      assert base.idMap[..prevNtotal] == old(base.idMap);
      MapFrom(prevNtotal);
      other.revMap := map[];
    }

    method ConstructRevMap()
      requires base.Valid()
      modifies this
      ensures Valid()
    {
      revMap := map[];
      assert base.idMap[..0] == [];
      MapFrom(0);
    }

    method RemoveIds(sel: int -> bool) returns (nremove: nat)
      requires Valid()
      modifies this, base, base.index
      ensures Valid() && base.Pairs() == Without(old(base.Pairs()), sel) && nremove == |old(base.idMap)| - |base.idMap|
    {
      nremove := base.RemoveIds(sel);
      ConstructRevMap();
    }

    /** The code stored last under a key; None is the exception for a key that is not found. */
    method Reconstruct(key: int) returns (r: Option<Code>)
      requires Valid()
      ensures r == Lookup(base.Pairs(), key)
    {
      if key !in revMap {
        LookupNone(base.Pairs(), key);
        return None;
      }
      assert IsLastPlace(base.idMap, key, revMap[key]);
      LookupLast(base.Pairs(), key, revMap[key]);
      r := base.index.Reconstruct(revMap[key]);
    }

    /** Succeeds exactly when no id occurs twice. */
    method CheckConsistency() returns (ok: bool)
      requires Valid()
      ensures ok <==> Distinct(base.idMap)
    {
      DistinctPlaces(revMap, base.idMap);
      if |revMap| != |base.idMap| || |base.idMap| != base.ntotal {
        return false;
      }
      for i := 0 to base.ntotal
        invariant forall q :: 0 <= q < i ==> base.idMap[q] in revMap && revMap[base.idMap[q]] == q
      {
        if base.idMap[i] !in revMap || revMap[base.idMap[i]] != i {
          return false;
        }
      }
      return true;
    }
  }
}
