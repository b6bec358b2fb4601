/**
 The codes of a two-layer index: the list number in as few bytes as will do, then the payload
 (include/faiss/Index2Layer.cpp, and Level1Quantizer in include/faiss/IndexIVF.cpp).
 */
module TwoLayerCodec {
  import opened Arithmetic
  import opened Bytes
  import opened InvertedListAdd
  import opened Wrappers

  // ---------- list numbers ----------

  function Pow256(m: nat): (r: nat)
    ensures r > 0
  {
    if m == 0 then 1 else 256 * Pow256(m - 1)
  }

  const MAX_U64: nat := 0xFFFF_FFFF_FFFF_FFFF

  /** nlist - 1 in the arithmetic of size_t. */
  function LastList(nlist: nat): nat {
    if nlist == 0 then MAX_U64 else nlist - 1
  }

  /** The bytes it takes to write nl. */
  function ByteCount(nl: nat): nat {
    if nl == 0 then 0 else 1 + ByteCount(nl / 256)
  }

  /** The least number of bytes that will do. */
  lemma {:induction false} ByteCountLeast(nl: nat, m: nat)
    ensures nl < Pow256(m) <==> ByteCount(nl) <= m
    decreases m
  {
    if nl > 0 && m > 0 {
      ByteCountLeast(nl / 256, m - 1);
    }
  }

  method CoarseCodeSize(nlist: nat) returns (nbyte: nat)
    ensures nbyte == ByteCount(LastList(nlist))
  {
    var nl := LastList(nlist);
    nbyte := 0;
    while nl > 0
      invariant nbyte + ByteCount(nl) == ByteCount(LastList(nlist))
    {
      nbyte := nbyte + 1;
      nl := nl / 256;
    }
  }

  /** The m low bytes of x, least first. A negative number has those of its two's complement. */
  function Digits(x: int, m: nat): (r: seq<Byte>)
    ensures |r| == m
    decreases m
  {
    if m == 0 then [] else [x % 256] + Digits(x / 256, m - 1)
  }

  /** Byte i is digit number i in base 256. */
  lemma {:induction false} DigitsAt(x: nat, m: nat, i: nat)
    requires i < m
    ensures Digits(x, m)[i] == x / Pow256(i) % 256
  {
    if i > 0 {
      DigitsAt(x / 256, m - 1, i - 1);
      assert Digits(x, m)[i] == Digits(x / 256, m - 1)[i - 1];
      QuotientTwice(x, 256, Pow256(i - 1));
    }
  }

  /** The number a run of bytes denotes, least first. */
  function Number(d: seq<Byte>): nat {
    if d == [] then 0 else d[0] + 256 * Number(d[1..])
  }

  lemma {:induction false} NumberOfDigits(x: nat, m: nat)
    requires x < Pow256(m)
    ensures Number(Digits(x, m)) == x
  {
    if m > 0 {
      NumberOfDigits(x / 256, m - 1);
      assert Digits(x, m)[1..] == Digits(x / 256, m - 1);
    }
  }

  lemma {:induction false} NumberMore(d: seq<Byte>, b: Byte)
    ensures Number(d + [b]) == Number(d) + b * Pow256(|d|)
  {
    if d == [] {
      assert [b][1..] == [];
    } else {
      NumberMore(d[1..], b);
      assert b * (256 * Pow256(|d| - 1)) == 256 * (b * Pow256(|d| - 1));
      assert (d + [b])[1..] == d[1..] + [b];
    }
  }

  /** The list numbers of an index fit the bytes they are given. */
  lemma ListNumberFits(nlist: nat, listNo: nat)
    requires listNo < nlist
    ensures listNo < Pow256(ByteCount(LastList(nlist)))
  {
    ByteCountLeast(LastList(nlist), ByteCount(LastList(nlist)));
  }

  lemma DigitsFirst(x: int, m: nat)
    requires m > 0
    ensures Digits(x, m) == [x % 256] + Digits(x / 256, m - 1)
  {
  }

  lemma ByteCountMore(nl: nat)
    ensures ByteCount(nl) == if nl > 0 then 1 + ByteCount(nl / 256) else 0
  {
  }

  /** The bytes pos..code are the first of the m of x; the rest of those is what y still has to give. */
  ghost predicate IsBegun(s: seq<Byte>, s0: seq<Byte>, pos: nat, code: nat, m: nat, x: int, y: int) {
    && pos <= code <= pos + m <= |s| == |s0| && s[..pos] == s0[..pos] && s[pos + m..] == s0[pos + m..]
    && Digits(x, m) == s[pos..code] + Digits(y, pos + m - code)
  }

  lemma OneByteWritten(s: seq<Byte>, s0: seq<Byte>, pos: nat, code: nat, m: nat, x: int, y: int)
    requires IsBegun(s, s0, pos, code, m, x, y) && code < pos + m
    ensures IsBegun(s[code := y % 256], s0, pos, code + 1, m, x, y / 256)
  {
    hide Digits;
    DigitsFirst(y, pos + m - code);
    var t := s[code := y % 256];
    assert t[..pos] == s[..pos] && t[pos + m..] == s[pos + m..] && t[pos..code + 1] == s[pos..code] + [y % 256];
  }

  lemma AllWritten(s: seq<Byte>, s0: seq<Byte>, pos: nat, m: nat, x: int, y: int)
    requires IsBegun(s, s0, pos, pos + m, m, x, y)
    ensures s == s0[..pos] + Digits(x, m) + s0[pos + m..]
  {
    assert s == s[..pos] + s[pos..pos + m] + s[pos + m..];
  }

  /** Writes the bytes of a list number at pos, with a moving pointer. */
  method EncodeListno(nlist: nat, listNo0: int, bytes: array<Byte>, pos: nat)
    requires pos + ByteCount(LastList(nlist)) <= bytes.Length
    modifies bytes
    ensures var m := ByteCount(LastList(nlist));
      bytes[..] == old(bytes[..pos]) + Digits(listNo0, m) + old(bytes[pos + m..])
  {
    var nl, listNo, code := LastList(nlist), listNo0, pos;
    ghost var m, s0 := ByteCount(nl), bytes[..];
    assert IsBegun(s0, s0, pos, pos, m, listNo0, listNo0);
    hide Digits, ByteCount, LastList, IsBegun;
    ByteCountMore(nl);
    while nl > 0
      invariant pos <= code && code + ByteCount(nl) == pos + m && (nl == 0 ==> code == pos + m)
      invariant IsBegun(bytes[..], s0, pos, code, m, listNo0, listNo)
    {
      ghost var before := bytes[..];
      ByteCountMore(nl);
      ByteCountMore(nl / 256);
      OneByteWritten(before, s0, pos, code, m, listNo0, listNo);
      bytes[code] := listNo % 256;
      assert bytes[..] == before[code := listNo % 256];
      code := code + 1;
      listNo := listNo / 256;
      nl := nl / 256;
    }
    AllWritten(bytes[..], s0, pos, m, listNo0, listNo);
  }

  /** Reads a list number; None is the exception for a number that is not that of a list. */
  method DecodeListno(nlist: nat, code: seq<Byte>) returns (r: Option<nat>)
    requires |code| >= ByteCount(LastList(nlist))
    ensures var x := Number(code[..ByteCount(LastList(nlist))]);
      r == if x < 0x8000_0000_0000_0000 && x < nlist then Some(x) else None
  {
    var nl, p, listNo, weight := LastList(nlist), 0, 0, 1;
    while nl > 0
      invariant p + ByteCount(nl) == ByteCount(LastList(nlist))
      invariant weight == Pow256(p) && listNo == Number(code[..p])
    {
      NumberMore(code[..p], code[p]);
      assert code[..p + 1] == code[..p] + [code[p]];
      // the bytes below are already written, so the or of the source is a sum
      listNo := listNo + code[p] * weight;
      p := p + 1;
      weight := 256 * weight;
      nl := nl / 256;
    }
    r := if listNo < 0x8000_0000_0000_0000 && listNo < nlist then Some(listNo) else None;
  }

  /** What is written for a list is read back, by the decoder and by a plain copy of the bytes. */
  lemma ListNumberReadBack(nlist: nat, listNo: nat)
    requires listNo < nlist
    ensures Number(Digits(listNo, ByteCount(LastList(nlist)))) == listNo
  {
    ListNumberFits(nlist, listNo);
    NumberOfDigits(listNo, ByteCount(LastList(nlist)));
  }

  // ---------- the constructor's code size ----------

  const MOST_LISTS: nat := 0x1_0000_0000_0000

  lemma PowersOf256()
    ensures Pow256(0) == 1 && Pow256(1) == 0x100 && Pow256(2) == 0x1_0000 && Pow256(3) == 0x100_0000
    ensures Pow256(4) == 0x1_0000_0000 && Pow256(5) == 0x100_0000_0000 && Pow256(6) == MOST_LISTS
    ensures Pow256(7) == 0x100_0000_0000_0000 && Pow256(8) == MAX_U64 + 1
  {
    assert Pow256(2) == 0x1_0000;
    assert Pow256(4) == 0x1_0000_0000;
    assert Pow256(6) == MOST_LISTS;
  }

  /** The least number of bytes, up to six, whose values number at least nlist. */
  ghost predicate IsCodeSize1(nlist: nat, r: Option<nat>) {
    && (r.Some? <==> nlist <= MOST_LISTS)
    && (r.Some? ==> nlist <= Pow256(r.value) && (r.value > 0 ==> Pow256(r.value - 1) < nlist))
  }

  /** The constructor's loop; None when it ends without a size, which the field then keeps from before. */
  method CodeSize1(nlist: nat) returns (r: Option<nat>)
    ensures IsCodeSize1(nlist, r)
  {
    PowersOf256();
    for nbyte := 0 to 7
      invariant nbyte > 0 ==> Pow256(nbyte - 1) < nlist
    {
      if Pow256(nbyte) >= nlist {
        return Some(nbyte);
      }
    }
    return None;
  }

  /** The constructor's size is the number of bytes written exactly when there are lists and at most 2^48. */
  lemma CodeSizesAgree(nlist: nat, r: Option<nat>)
    requires nlist <= MAX_U64 && IsCodeSize1(nlist, r)
    ensures r == Some(ByteCount(LastList(nlist))) <==> 1 <= nlist <= MOST_LISTS
  {
    var count := ByteCount(LastList(nlist));
    if nlist == 0 {
      PowersOf256();
      ByteCountLeast(MAX_U64, 7);
      assert r.value == 0;
    } else if r.Some? {
      ByteCountLeast(nlist - 1, r.value);
      if r.value > 0 {
        ByteCountLeast(nlist - 1, r.value - 1);
      }
    }
  }

  // ---------- the in-place widening ----------

  /** The codes as they are to be: each list number in m bytes, then its payload. */
  function Encoded(listNos: seq<int>, payloads: seq<Code>, m: nat): seq<Byte>
    requires |listNos| == |payloads|
  {
    if listNos == [] then [] else Digits(listNos[0], m) + payloads[0] + Encoded(listNos[1..], payloads[1..], m)
  }

  lemma {:induction false} EncodedLength(listNos: seq<int>, payloads: seq<Code>, m: nat, size: nat)
    requires |listNos| == |payloads| && AllOfSize(payloads, size)
    ensures |Encoded(listNos, payloads, m)| == |payloads| * (m + size)
  {
    hide Encoded;
    if payloads == [] {
      NothingEncoded(listNos, payloads, m);
    } else {
      EncodedFirst(listNos, payloads, m);
      EncodedLength(listNos[1..], payloads[1..], m, size);
      assert |payloads| * (m + size) == (|payloads| - 1) * (m + size) + (m + size);
    }
  }

  /** Moves len bytes from src to dst; the places may overlap. */
  method MemMove(bytes: array<Byte>, dst: nat, src: nat, len: nat)
    requires dst + len <= bytes.Length && src + len <= bytes.Length
    modifies bytes
    ensures bytes[..] == old(bytes[..dst]) + old(bytes[src..src + len]) + old(bytes[dst + len..])
  {
    forall k | 0 <= k < len {
      bytes[dst + k] := bytes[src + k];
    }
    assert bytes[..dst] == old(bytes[..dst]) && bytes[dst + len..] == old(bytes[dst + len..]);
    assert bytes[dst..dst + len] == old(bytes[src..src + len]);
    assert bytes[..] == bytes[..dst] + bytes[dst..dst + len] + bytes[dst + len..];
  }

  ghost predicate IsMoved(after: seq<Byte>, before: seq<Byte>, dst: nat, src: nat, len: nat) {
    && dst + len <= |before| && src + len <= |before|
    && after == before[..dst] + before[src..src + len] + before[dst + len..]
  }

  ghost predicate IsWritten(after: seq<Byte>, before: seq<Byte>, pos: nat, d: seq<Byte>) {
    pos + |d| <= |before| && after == before[..pos] + d + before[pos + |d|..]
  }

  lemma MovedFacts(after: seq<Byte>, before: seq<Byte>, dst: nat, src: nat, len: nat)
    requires IsMoved(after, before, dst, src, len)
    ensures |after| == |before| && after[..dst] == before[..dst] && after[dst + len..] == before[dst + len..]
    ensures after[dst..dst + len] == before[src..src + len]
  {
  }

  lemma WrittenFacts(after: seq<Byte>, before: seq<Byte>, pos: nat, d: seq<Byte>)
    requires IsWritten(after, before, pos, d)
    ensures |after| == |before| && after[..pos] == before[..pos] && after[pos + |d|..] == before[pos + |d|..]
    ensures after[pos..pos + |d|] == d
  {
  }

  /** Sequences that agree up to hi agree on every part before it. */
  lemma PrefixSame(s: seq<Byte>, t: seq<Byte>, hi: nat, w: nat, x: nat)
    requires w <= x <= hi <= |s| == |t| && s[..hi] == t[..hi]
    ensures s[w..x] == t[w..x]
  {
    assert s[..hi][w..x] == s[w..x] && t[..hi][w..x] == t[w..x];
  }

  lemma Glued(s: seq<Byte>, x: nat, a: seq<Byte>, b: seq<Byte>, c: seq<Byte>)
    requires x + |a| + |b| + |c| <= |s| && s[x..x + |a|] == a
    requires s[x + |a|..x + |a| + |b|] == b && s[x + |a| + |b|..x + |a| + |b| + |c|] == c
    ensures s[x..x + |a| + |b| + |c|] == a + b + c
  {
  }

  /** Sequences that agree from lo on agree from any later place on. */
  lemma SuffixSame(s: seq<Byte>, t: seq<Byte>, lo: nat, x: nat)
    requires lo <= x <= |s| == |t| && s[lo..] == t[lo..]
    ensures s[x..] == t[x..] && s[lo..x] == t[lo..x]
  {
    assert s[lo..][x - lo..] == s[x..] && t[lo..][x - lo..] == t[x..];
    assert s[lo..][..x - lo] == s[lo..x] && t[lo..][..x - lo] == t[lo..x];
  }

  lemma TwoParts(s: seq<Byte>, x: nat, y: nat, a: seq<Byte>, b: seq<Byte>)
    requires x + |a| == y && y + |b| <= |s| && s[x..y + |b|] == a + b
    ensures s[x..y] == a && s[y..y + |b|] == b
  {
    assert s[x..y + |b|][..|a|] == s[x..y] && s[x..y + |b|][|a|..] == s[y..y + |b|];
  }

  /** What a move and a write behind it leave alone: everything before both and everything after the move. */
  lemma WidenFrame(s: seq<Byte>, s1: seq<Byte>, s2: seq<Byte>, src: nat, c: nat, digits: seq<Byte>, len: nat)
    requires IsMoved(s1, s, c + |digits|, src, len) && IsWritten(s2, s1, c, digits)
    ensures |s2| == |s| && c + |digits| + len <= |s| && src + len <= |s|
    ensures s2[..c] == s[..c] && s2[c + |digits| + len..] == s[c + |digits| + len..]
    ensures s2[c..c + |digits|] == digits && s2[c + |digits|..c + |digits| + len] == s[src..src + len]
  {
    var m := |digits|;
    assert c + m + len <= |s| && src + len <= |s|;
    hide IsMoved, IsWritten;
    MovedFacts(s1, s, c + m, src, len);
    WrittenFacts(s2, s1, c, digits);
    PrefixSame(s1, s, c + m, 0, c);
    SuffixSame(s2, s1, c + m, c + m + len);
  }

  /**
   One step: the last payload of the packed part moves to its place and its list number is
   written before it. As its place begins no earlier than it lay, the packed part left of it
   stays, and so does all that was moved before.
   */
  lemma WidenStep(s: seq<Byte>, s1: seq<Byte>, s2: seq<Byte>, off: nat, a: nat, b: nat, n: nat,
                  packed: seq<Byte>, digits: seq<Byte>, payload: seq<Byte>, tail: seq<Byte>)
    requires |packed| == a <= b && b + |digits| + |payload| + |tail| == n && off + n <= |s|
    requires s[off..off + a + |payload|] == packed + payload && s[off + b + |digits| + |payload|..off + n] == tail
    requires IsMoved(s1, s, off + b + |digits|, off + a, |payload|) && IsWritten(s2, s1, off + b, digits)
    ensures |s2| == |s| && s2[..off] == s[..off] && s2[off + n..] == s[off + n..]
    ensures s2[off..off + a] == packed && s2[off + b..off + n] == digits + payload + tail
  {
    hide IsMoved, IsWritten;
    var m, len, c := |digits|, |payload|, off + b;
    WidenFrame(s, s1, s2, off + a, c, digits, len);
    PrefixSame(s2, s, c, 0, off);
    PrefixSame(s2, s, c, off, off + a);
    SuffixSame(s2, s, c + m + len, off + n);
    TwoParts(s, off, off + a, packed, payload);
    Glued(s2, c, digits, payload, tail);
  }

  /** The vectors from i on are widened, those before are still packed. */
  ghost predicate WidenedFrom(s: seq<Byte>, s0: seq<Byte>, off: nat, listNos: seq<int>, payloads: seq<Code>, m: nat,
                              size: nat, i: nat)
    requires i <= |listNos| == |payloads|
  {
    var n := |payloads| * (m + size);
    && |s| == |s0| && off + n <= |s| && s[..off] == s0[..off] && s[off + n..] == s0[off + n..]
    && i * size <= i * (m + size) <= n
    && s[off..off + i * size] == Packed(payloads[..i])
    && s[off + i * (m + size)..off + n] == Encoded(listNos[i..], payloads[i..], m)
  }

  lemma Sizes(t: nat, n: nat, m: nat, size: nat)
    requires t <= n
    ensures t * size <= t * (m + size) <= n * (m + size)
    ensures (t + 1) * size == t * size + size && (t + 1) * (m + size) == t * (m + size) + m + size
  {
    MulMonotone(t, n, m + size);
    MulMonotone(size, m + size, t);
    assert size * t == t * size && (m + size) * t == t * (m + size);
  }

  lemma WidenedStep(s: seq<Byte>, s1: seq<Byte>, s2: seq<Byte>, s0: seq<Byte>, off: nat, listNos: seq<int>,
                    payloads: seq<Code>,
                    m: nat, size: nat, t: nat)
    requires t < |listNos| == |payloads| && AllOfSize(payloads, size)
    requires WidenedFrom(s, s0, off, listNos, payloads, m, size, t + 1)
    requires IsMoved(s1, s, off + t * (m + size) + m, off + t * size, size)
    requires IsWritten(s2, s1, off + t * (m + size), Digits(listNos[t], m))
    ensures WidenedFrom(s2, s0, off, listNos, payloads, m, size, t)
  {
    hide Digits, IsMoved, IsWritten, Encoded, Packed;
    var n := |payloads|;
    Sizes(t, n, m, size);
    Sizes(t + 1, n, m, size);
    PackedLength(payloads[..t], size);
    PackedMore(payloads, t);
    EncodedLess(listNos, payloads, m, t);
    EncodedLength(listNos[t..], payloads[t..], m, size);
    assert |payloads[t..]| * (m + size) == n * (m + size) - t * (m + size);
    WidenStep(s, s1, s2, off, t * size, t * (m + size), n * (m + size),
              Packed(payloads[..t]), Digits(listNos[t], m), payloads[t],
              Encoded(listNos[t + 1..], payloads[t + 1..], m));
  }

  lemma EncodedLess(listNos: seq<int>, payloads: seq<Code>, m: nat, t: nat)
    requires t < |listNos| == |payloads|
    ensures Encoded(listNos[t..], payloads[t..], m)
      == Digits(listNos[t], m) + payloads[t] + Encoded(listNos[t + 1..], payloads[t + 1..], m)
  {
    assert listNos[t..][1..] == listNos[t + 1..] && payloads[t..][1..] == payloads[t + 1..];
  }

  /** The product quantizer writes the payloads side by side. */
  method ComputeCodes(bytes: array<Byte>, off: nat, payloads: seq<Code>)
    requires off + |Packed(payloads)| <= bytes.Length
    modifies bytes
    ensures IsWritten(bytes[..], old(bytes[..]), off, Packed(payloads))
  {
    var p := Packed(payloads);
    forall k | 0 <= k < |p| {
      bytes[off + k] := p[k];
    }
    assert bytes[off..off + |p|] == p;
    assert bytes[..] == bytes[..off] + bytes[off..off + |p|] + bytes[off + |p|..];
  }

  lemma WidenedStart(s: seq<Byte>, s0: seq<Byte>, off: nat, listNos: seq<int>, payloads: seq<Code>, m: nat, size: nat)
    requires |listNos| == |payloads| && AllOfSize(payloads, size) && off + |payloads| * (m + size) <= |s0|
    requires IsWritten(s, s0, off, Packed(payloads))
    ensures WidenedFrom(s, s0, off, listNos, payloads, m, size, |payloads|)
  {
    var n := |payloads|;
    PackedLength(payloads, size);
    Sizes(n, n, m, size);
    assert payloads[..n] == payloads;
    assert s[off..off + n * size] == Packed(payloads);
    var end := off + n * (m + size);
    assert s[end..] == s0[end..];
    assert s[end..end] == Encoded(listNos[n..], payloads[n..], m);
  }

  lemma WidenedEnd(s: seq<Byte>, s0: seq<Byte>, off: nat, listNos: seq<int>, payloads: seq<Code>, m: nat, size: nat)
    requires |listNos| == |payloads| && AllOfSize(payloads, size)
    requires WidenedFrom(s, s0, off, listNos, payloads, m, size, 0)
    ensures IsWritten(s, s0, off, Encoded(listNos, payloads, m))
  {
    var n := |payloads|;
    EncodedLength(listNos, payloads, m, size);
    assert listNos[0..] == listNos && payloads[0..] == payloads;
    assert s == s[..off] + s[off..off + n * (m + size)] + s[off + n * (m + size)..];
  }

  /** The list numbers are those of lists, and the payloads have their size. */
  ghost predicate Encodable(nlist: nat, listNos: seq<int>, payloads: seq<Code>, size: nat) {
    && |listNos| == |payloads| && AllOfSize(payloads, size)
    && forall i :: 0 <= i < |listNos| ==> 0 <= listNos[i] < nlist
  }

  /** Moves one payload from src to its place and writes its list number before it. */
  method WidenAt(nlist: nat, codeSize1: nat, codeSize2: nat, bytes: array<Byte>, code: nat, src: nat, listNo: int)
    returns (ghost s1: seq<Byte>)
    requires codeSize1 == ByteCount(LastList(nlist))
    requires code + codeSize1 + codeSize2 <= bytes.Length && src + codeSize2 <= bytes.Length
    modifies bytes
    ensures IsMoved(s1, old(bytes[..]), code + codeSize1, src, codeSize2)
    ensures IsWritten(bytes[..], s1, code, Digits(listNo, codeSize1))
  {
    hide Digits, ByteCount;
    MemMove(bytes, code + codeSize1, src, codeSize2);
    s1 := bytes[..];
    EncodeListno(nlist, listNo, bytes, code);
  }

  lemma PlacesFit(s: seq<Byte>, s0: seq<Byte>, off: nat, listNos: seq<int>, payloads: seq<Code>, m: nat, size: nat,
                  i: nat)
    requires i < |listNos| == |payloads| && WidenedFrom(s, s0, off, listNos, payloads, m, size, i + 1)
    ensures off + i * (m + size) + m + size <= |s| && off + i * size + size <= |s|
  {
    Sizes(i, |payloads|, m, size);
    Sizes(i + 1, |payloads|, m, size);
  }

  method WidenVector(nlist: nat, codeSize1: nat, codeSize2: nat, bytes: array<Byte>, off: nat, listNos: seq<int>,
                     payloads: seq<Code>,
                     i: nat, ghost s0: seq<Byte>)
    requires Encodable(nlist, listNos, payloads, codeSize2) && codeSize1 == ByteCount(LastList(nlist)) && i < |payloads|
    requires WidenedFrom(bytes[..], s0, off, listNos, payloads, codeSize1, codeSize2, i + 1)
    modifies bytes
    ensures WidenedFrom(bytes[..], s0, off, listNos, payloads, codeSize1, codeSize2, i)
  {
    hide Encoded, Packed, Digits, IsMoved, IsWritten, WidenedFrom, ByteCount;
    PlacesFit(bytes[..], s0, off, listNos, payloads, codeSize1, codeSize2, i);
    ghost var s := bytes[..];
    var codeSize := codeSize1 + codeSize2;
    ghost var s1 := WidenAt(nlist, codeSize1, codeSize2, bytes, off + i * codeSize, off + i * codeSize2, listNos[i]);
    WidenedStep(s, s1, bytes[..], s0, off, listNos, payloads, codeSize1, codeSize2, i);
  }

  /** One block: the payloads are packed, then widened from the last to the first. */
  method EncodeBlock(nlist: nat, codeSize1: nat, codeSize2: nat, bytes: array<Byte>, off: nat, listNos: seq<int>,
                     payloads: seq<Code>)
    requires Encodable(nlist, listNos, payloads, codeSize2) && codeSize1 == ByteCount(LastList(nlist))
    requires off + |payloads| * (codeSize1 + codeSize2) <= bytes.Length
    modifies bytes
    ensures IsWritten(bytes[..], old(bytes[..]), off, Encoded(listNos, payloads, codeSize1))
  {
    hide Encoded, Packed, Digits, IsWritten, IsMoved, WidenedFrom;
    var n, codeSize := |payloads|, codeSize1 + codeSize2;
    ghost var s0 := bytes[..];
    PackedLength(payloads, codeSize2);
    Sizes(n, n, codeSize1, codeSize2);
    ComputeCodes(bytes, off, payloads);
    WidenedStart(bytes[..], s0, off, listNos, payloads, codeSize1, codeSize2);
    var i := n - 1;
    while i >= 0
      invariant -1 <= i < n
      invariant WidenedFrom(bytes[..], s0, off, listNos, payloads, codeSize1, codeSize2, i + 1)
    {
      WidenVector(nlist, codeSize1, codeSize2, bytes, off, listNos, payloads, i, s0);
      i := i - 1;
    }
    WidenedEnd(bytes[..], s0, off, listNos, payloads, codeSize1, codeSize2);
  }

  const BLOCK: nat := 32768

  lemma {:induction false} EncodedTwice(listNos: seq<int>, payloads: seq<Code>, m: nat, i0: nat, i1: nat)
    requires i0 <= i1 <= |listNos| == |payloads|
    ensures Encoded(listNos[..i1], payloads[..i1], m)
      == Encoded(listNos[..i0], payloads[..i0], m) + Encoded(listNos[i0..i1], payloads[i0..i1], m)
    decreases i0
  {
    hide Encoded;
    if i0 > 0 {
      var ls, ps := listNos[1..], payloads[1..];
      EncodedTwice(ls, ps, m, i0 - 1, i1 - 1);
      EncodedFirst(listNos[..i1], payloads[..i1], m);
      EncodedFirst(listNos[..i0], payloads[..i0], m);
      assert listNos[..i1][1..] == ls[..i1 - 1] && payloads[..i1][1..] == ps[..i1 - 1];
      assert listNos[..i0][1..] == ls[..i0 - 1] && payloads[..i0][1..] == ps[..i0 - 1];
      assert listNos[i0..i1] == ls[i0 - 1..i1 - 1] && payloads[i0..i1] == ps[i0 - 1..i1 - 1];
    } else {
      NothingEncoded(listNos[..i0], payloads[..i0], m);
      assert listNos[..i1] == listNos[0..i1] && payloads[..i1] == payloads[0..i1];
    }
  }

  lemma NothingEncoded(listNos: seq<int>, payloads: seq<Code>, m: nat)
    requires listNos == [] && payloads == []
    ensures Encoded(listNos, payloads, m) == []
  {
  }

  lemma EncodedFirst(listNos: seq<int>, payloads: seq<Code>, m: nat)
    requires |listNos| == |payloads| > 0
    ensures Encoded(listNos, payloads, m)
      == Digits(listNos[0], m) + payloads[0] + Encoded(listNos[1..], payloads[1..], m)
  {
  }

  lemma WrittenTwice(s: seq<Byte>, s1: seq<Byte>, s2: seq<Byte>, pos: nat, d1: seq<Byte>, d2: seq<Byte>)
    requires IsWritten(s1, s, pos, d1) && IsWritten(s2, s1, pos + |d1|, d2)
    ensures IsWritten(s2, s, pos, d1 + d2)
  {
    assert s1[..pos + |d1|] == s[..pos] + d1;
    assert s1[pos + |d1| + |d2|..] == s[pos + |d1| + |d2|..];
  }

  /** sa_encode: in blocks, each into its part of the buffer. */
  method SaEncode(nlist: nat, codeSize1: nat, codeSize2: nat, bytes: array<Byte>, off: nat, listNos: seq<int>,
                  payloads: seq<Code>)
    requires Encodable(nlist, listNos, payloads, codeSize2) && codeSize1 == ByteCount(LastList(nlist))
    requires off + |payloads| * (codeSize1 + codeSize2) <= bytes.Length
    modifies bytes
    ensures IsWritten(bytes[..], old(bytes[..]), off, Encoded(listNos, payloads, codeSize1))
    decreases |payloads|
  {
    hide Encoded, IsWritten;
    var n, codeSize := |payloads|, codeSize1 + codeSize2;
    if n > BLOCK {
      var i0 := 0;
      ghost var s0 := bytes[..];
      NothingWritten(s0, off, listNos[..0], payloads[..0], codeSize1);
      while i0 < n
        invariant 0 <= i0 <= n
        invariant IsWritten(bytes[..], s0, off, Encoded(listNos[..i0], payloads[..i0], codeSize1))
      {
        var i1 := if i0 + BLOCK < n then i0 + BLOCK else n;
        ghost var s1 := bytes[..];
        BlockFits(i0, i1, n, codeSize);
        EncodedLength(listNos[..i0], payloads[..i0], codeSize1, codeSize2);
        SaEncode(nlist, codeSize1, codeSize2, bytes, off + i0 * codeSize, listNos[i0..i1], payloads[i0..i1]);
        EncodedTwice(listNos, payloads, codeSize1, i0, i1);
        WrittenTwice(s0, s1, bytes[..], off, Encoded(listNos[..i0], payloads[..i0], codeSize1),
                     Encoded(listNos[i0..i1], payloads[i0..i1], codeSize1));
        i0 := i1;
      }
      assert listNos[..n] == listNos && payloads[..n] == payloads;
      return;
    }
    EncodeBlock(nlist, codeSize1, codeSize2, bytes, off, listNos, payloads);
  }

  lemma NothingWritten(s: seq<Byte>, off: nat, listNos: seq<int>, payloads: seq<Code>, m: nat)
    requires listNos == [] && payloads == [] && off <= |s|
    ensures IsWritten(s, s, off, Encoded(listNos, payloads, m))
  {
    assert s == s[..off] + [] + s[off..];
  }

  lemma BlockFits(i0: nat, i1: nat, n: nat, codeSize: nat)
    requires i0 <= i1 <= n
    ensures i0 * codeSize + (i1 - i0) * codeSize == i1 * codeSize <= n * codeSize
  {
    MulMonotone(i1, n, codeSize);
    assert (i1 - i0) * codeSize == i1 * codeSize - i0 * codeSize;
  }

  // ---------- reading codes ----------

  /** The list number at vector i, by a plain copy of its bytes. */
  function ListAt(bytes: seq<Byte>, m: nat, size: nat, i: nat): nat
    requires i * (m + size) + m <= |bytes|
  {
    Number(bytes[i * (m + size)..i * (m + size) + m])
  }

  function PayloadAt(bytes: seq<Byte>, m: nat, size: nat, i: nat): Code
    requires i * (m + size) + m + size <= |bytes|
  {
    bytes[i * (m + size) + m..i * (m + size) + m + size]
  }

  lemma VectorFits(bytes: seq<Byte>, m: nat, size: nat, n: nat, i: nat)
    requires |bytes| == n * (m + size) && i < n
    ensures i * (m + size) + m + size <= |bytes|
  {
    Sizes(i, n, m, size);
    Sizes(i + 1, n, m, size);
  }

  /** Vector i of the buffer names a list. */
  ghost predicate NamesList(nlist: nat, bytes: seq<Byte>, m: nat, size: nat, i: nat) {
    && i * (m + size) + m + size <= |bytes| && ListAt(bytes, m, size, i) < nlist
    && ListAt(bytes, m, size, i) < 0x8000_0000_0000_0000
  }

  /** The list number and the payload of vector i. */
  function VectorAt(bytes: seq<Byte>, m: nat, size: nat, i: nat): (nat, Code) {
    if i * (m + size) + m + size <= |bytes| then (ListAt(bytes, m, size, i), PayloadAt(bytes, m, size, i)) else (0, [])
  }

  /** Reads the vector that begins at a place of the buffer. */
  method ReadAt(nlist: nat, codeSize1: nat, codeSize2: nat, bytes: seq<Byte>, start: nat)
    returns (r: Option<(nat, Code)>)
    requires codeSize1 == ByteCount(LastList(nlist)) && start + codeSize1 + codeSize2 <= |bytes|
    ensures var x := Number(bytes[start..start + codeSize1]);
      r == if x >= 0x8000_0000_0000_0000 || x >= nlist then None
           else Some((x, bytes[start + codeSize1..start + codeSize1 + codeSize2]))
  {
    hide Number, ByteCount, LastList;
    var code := bytes[start..];
    assert code[..codeSize1] == bytes[start..start + codeSize1];
    assert code[codeSize1..codeSize1 + codeSize2] == bytes[start + codeSize1..start + codeSize1 + codeSize2];
    var listNo := DecodeListno(nlist, code);
    r := if listNo.Some? then Some((listNo.value, code[codeSize1..codeSize1 + codeSize2])) else None;
  }

  method ReadVector(nlist: nat, codeSize1: nat, codeSize2: nat, i: nat, bytes: seq<Byte>)
    returns (r: Option<(nat, Code)>)
    requires codeSize1 == ByteCount(LastList(nlist)) && i * (codeSize1 + codeSize2) + codeSize1 + codeSize2 <= |bytes|
    ensures r.Some? <==> NamesList(nlist, bytes, codeSize1, codeSize2, i)
    ensures r.Some? ==> r.value == VectorAt(bytes, codeSize1, codeSize2, i)
  {
    hide Number, ByteCount, LastList;
    r := ReadAt(nlist, codeSize1, codeSize2, bytes, i * (codeSize1 + codeSize2));
  }

  /** sa_decode, up to the decoding of payload and centroid; None is the exception for a bad list number. */
  method SaDecode(nlist: nat, codeSize1: nat, codeSize2: nat, n: nat, bytes: seq<Byte>)
    returns (r: Option<seq<(nat, Code)>>)
    requires codeSize1 == ByteCount(LastList(nlist)) && |bytes| == n * (codeSize1 + codeSize2)
    ensures r.Some? <==> forall i: nat :: i < n ==> NamesList(nlist, bytes, codeSize1, codeSize2, i)
    ensures r.Some? ==> |r.value| == n
    ensures r.Some? ==> forall i: nat {:trigger r.value[i]} :: i < n ==>
      r.value[i] == VectorAt(bytes, codeSize1, codeSize2, i)
  {
    hide NamesList, ListAt, PayloadAt, ByteCount, LastList;
    var out: seq<(nat, Code)> := [];
    for i := 0 to n
      invariant |out| == i
      invariant forall q: nat :: q < i ==> NamesList(nlist, bytes, codeSize1, codeSize2, q)
      invariant forall q: nat {:trigger out[q]} :: q < i ==> out[q] == VectorAt(bytes, codeSize1, codeSize2, q)
    {
      VectorFits(bytes, codeSize1, codeSize2, n, i);
      var read := ReadVector(nlist, codeSize1, codeSize2, i, bytes);
      if read.None? {
        return None;
      }
      out := out + [read.value];
    }
    r := Some(out);
  }

  /** Where the parts of a vector lie in the encoding. */
  lemma EncodedParts(listNos: seq<int>, payloads: seq<Code>, m: nat, size: nat, i: nat)
    requires |listNos| == |payloads| && AllOfSize(payloads, size) && i < |payloads|
    ensures var bytes := Encoded(listNos, payloads, m); var at := i * (m + size);
      && |bytes| == |payloads| * (m + size) && at + m + size <= |bytes|
      && bytes[at..at + m] == Digits(listNos[i], m) && bytes[at + m..at + m + size] == payloads[i]
  {
    hide Encoded, Digits;
    var n := |payloads|;
    EncodedLength(listNos, payloads, m, size);
    VectorFits(Encoded(listNos, payloads, m), m, size, n, i);
    EncodedTwice(listNos, payloads, m, i, n);
    assert listNos[..n] == listNos && payloads[..n] == payloads;
    assert listNos[i..n] == listNos[i..] && payloads[i..n] == payloads[i..];
    EncodedLength(listNos[..i], payloads[..i], m, size);
    EncodedLess(listNos, payloads, m, i);
    Sliced(Encoded(listNos[..i], payloads[..i], m), Digits(listNos[i], m), payloads[i],
           Encoded(listNos[i + 1..], payloads[i + 1..], m));
  }

  /** Reading what was encoded gives back list number and payload of every vector. */
  lemma RoundTrip(nlist: nat, listNos: seq<int>, payloads: seq<Code>, size: nat, i: nat)
    requires Encodable(nlist, listNos, payloads, size) && i < |payloads|
    ensures var m := ByteCount(LastList(nlist)); var bytes := Encoded(listNos, payloads, m);
      && i * (m + size) + m + size <= |bytes|
      && ListAt(bytes, m, size, i) == listNos[i] && PayloadAt(bytes, m, size, i) == payloads[i]
  {
    hide Encoded, Digits, Number, LastList, ByteCount;
    EncodedParts(listNos, payloads, ByteCount(LastList(nlist)), size, i);
    ListNumberReadBack(nlist, listNos[i]);
  }

  lemma Sliced(a: seq<Byte>, b: seq<Byte>, c: seq<Byte>, d: seq<Byte>)
    ensures var s := a + (b + c + d); s[|a|..|a| + |b|] == b && s[|a| + |b|..|a| + |b| + |c|] == c
  {
  }

  lemma EncodedIsRead(nlist: nat, listNos: seq<int>, payloads: seq<Code>, size: nat, i: nat)
    requires Encodable(nlist, listNos, payloads, size) && i < |payloads|
    ensures var m := ByteCount(LastList(nlist)); var bytes := Encoded(listNos, payloads, m);
      && (NamesList(nlist, bytes, m, size, i) <==> listNos[i] < 0x8000_0000_0000_0000)
      && VectorAt(bytes, m, size, i) == (listNos[i], payloads[i])
  {
    hide Encoded, Digits, Number;
    RoundTrip(nlist, listNos, payloads, size, i);
  }

  /** sa_encode, then sa_decode: the vectors that went in come out, unless some list number takes 64 bits. */
  method EncodeAndDecode(nlist: nat, codeSize1: nat, codeSize2: nat, listNos: seq<int>, payloads: seq<Code>)
    returns (r: Option<seq<(nat, Code)>>)
    requires Encodable(nlist, listNos, payloads, codeSize2) && codeSize1 == ByteCount(LastList(nlist))
    ensures r.Some? <==> forall i :: 0 <= i < |listNos| ==> listNos[i] < 0x8000_0000_0000_0000
    ensures r.Some? ==> |r.value| == |payloads|
    ensures r.Some? ==> forall i :: 0 <= i < |payloads| ==> r.value[i] == (listNos[i], payloads[i])
  {
    hide Encoded, ByteCount, LastList, NamesList, VectorAt;
    var n, codeSize := |payloads|, codeSize1 + codeSize2;
    var bytes := new Byte[n * codeSize](k => 0);
    EncodedLength(listNos, payloads, codeSize1, codeSize2);
    SaEncode(nlist, codeSize1, codeSize2, bytes, 0, listNos, payloads);
    assert bytes[..] == Encoded(listNos, payloads, codeSize1);
    r := SaDecode(nlist, codeSize1, codeSize2, n, bytes[..]);
    forall i | 0 <= i < n
      ensures NamesList(nlist, bytes[..], codeSize1, codeSize2, i) <==> listNos[i] < 0x8000_0000_0000_0000
      ensures VectorAt(bytes[..], codeSize1, codeSize2, i) == (listNos[i], payloads[i])
    {
      EncodedIsRead(nlist, listNos, payloads, codeSize2, i);
    }
    assert forall i: nat :: i < n ==>
      (NamesList(nlist, bytes[..], codeSize1, codeSize2, i) <==> listNos[i] < 0x8000_0000_0000_0000);
  }

  // ---------- the index ----------

  class Index2Layer {
    const nlist: nat
    const codeSize1: nat
    const codeSize2: nat
    var ntotal: nat
    var codes: array<Byte>
    ghost var listNos: seq<int>
    ghost var payloads: seq<Code>

    ghost predicate Valid()
      reads this, codes
    {
      && ntotal == |payloads| && Encodable(nlist, listNos, payloads, codeSize2)
      && codes[..] == Encoded(listNos, payloads, codeSize1)
    }

    /** before is what the memory of the code size held; it stays there for too many lists. */
    constructor (nlist: nat, codeSize2: nat, before: nat)
      requires nlist <= MAX_U64
      ensures Valid() && listNos == [] && payloads == [] && this.nlist == nlist && this.codeSize2 == codeSize2
      ensures nlist > MOST_LISTS ==> codeSize1 == before
      ensures nlist <= MOST_LISTS ==> (codeSize1 == ByteCount(LastList(nlist)) <==> nlist > 0)
    {
      var size := CodeSize1(nlist);
      CodeSizesAgree(nlist, size);
      this.nlist, this.codeSize2 := nlist, codeSize2;
      codeSize1 := if size.Some? then size.value else before;
      codes := new Byte[0];
      ntotal, listNos, payloads := 0, [], [];
    }

    /** Adds vectors, given by the list each is assigned to and the payload of its residual. */
    method Add(newLists: seq<int>, newPayloads: seq<Code>)
      requires Valid() && codeSize1 == ByteCount(LastList(nlist)) && Encodable(nlist, newLists, newPayloads, codeSize2)
      modifies this
      ensures Valid() && listNos == old(listNos) + newLists && payloads == old(payloads) + newPayloads
    {
      hide Encoded;
      var n := |newPayloads|;
      if n == 0 {
        assert listNos + newLists == listNos && payloads + newPayloads == payloads;
        return;
      }
      var codeSize := codeSize1 + codeSize2;
      EncodedLength(listNos, payloads, codeSize1, codeSize2);
      var bytes := new Byte[(ntotal + n) * codeSize](i => 0);
      Lengths(ntotal, n, codeSize);
      forall k | 0 <= k < codes.Length {
        bytes[k] := codes[k];
      }
      ghost var was := bytes[..];
      assert was[..ntotal * codeSize] == codes[..];
      SaEncode(nlist, codeSize1, codeSize2, bytes, ntotal * codeSize, newLists, newPayloads);
      EncodedLength(newLists, newPayloads, codeSize1, codeSize2);
      EncodedJoin(listNos, payloads, newLists, newPayloads, codeSize1);
      assert bytes[..] == codes[..] + Encoded(newLists, newPayloads, codeSize1);
      codes := bytes;
      ntotal := ntotal + n;
      listNos, payloads := listNos + newLists, payloads + newPayloads;
    }

    /** Hands all vectors over to an empty inverted file of the same shape. */
    method TransferToIVFPQ(otherNlist: nat, otherCodeSize: nat, otherNtotal: nat, lists: seq<InvList>)
      returns (ok: bool, filled: seq<InvList>, ntotalNow: nat)
      requires Valid() && codeSize1 == ByteCount(LastList(nlist)) && |lists| == otherNlist
      ensures ok <==> otherNlist == nlist && otherCodeSize == codeSize2 && otherNtotal == 0
      ensures !ok ==> filled == lists && ntotalNow == otherNtotal
      ensures ok ==> filled == Appended(lists, Batch(listNos, payloads, seq(ntotal, i => i))) && ntotalNow == ntotal
    {
      hide Encoded, Appended, Number, ByteCount, LastList;
      filled, ntotalNow, ok := lists, otherNtotal, false;
      if otherNlist != nlist || otherCodeSize != codeSize2 || otherNtotal != 0 {
        return;
      }
      ok := true;
      ghost var batch := Batch(listNos, payloads, seq(ntotal, i => i));
      EncodedLength(listNos, payloads, codeSize1, codeSize2);
      NoneAppended(lists, batch.Prefix(0));
      var rp := 0;
      for i := 0 to ntotal
        invariant rp == i * (codeSize1 + codeSize2)
        invariant filled == Appended(lists, batch.Prefix(i))
      {
        EntryAt(nlist, listNos, payloads, codeSize1, codeSize2, codes[..], rp, i);
        var key := Number(codes[rp..rp + codeSize1]);
        rp := rp + codeSize1;
        NextAppended(lists, batch, i);
        filled := filled[key := filled[key].Add(i, codes[rp..rp + codeSize2])];
        rp := rp + codeSize2;
      }
      assert batch.Prefix(ntotal) == batch;
      ntotalNow := ntotal;
    }
  }

  lemma EntryAt(nlist: nat, listNos: seq<int>, payloads: seq<Code>, m: nat, size: nat, bytes: seq<Byte>, rp: nat,
                i: nat)
    requires Encodable(nlist, listNos, payloads, size) && m == ByteCount(LastList(nlist)) && i < |payloads|
    requires bytes == Encoded(listNos, payloads, m) && rp == i * (m + size)
    ensures rp + m + size == (i + 1) * (m + size) && rp + m + size <= |bytes|
    ensures Number(bytes[rp..rp + m]) == listNos[i] && bytes[rp + m..rp + m + size] == payloads[i]
  {
    RoundTrip(nlist, listNos, payloads, size, i);
  }

  lemma Lengths(ntotal: nat, n: nat, codeSize: nat)
    ensures (ntotal + n) * codeSize == ntotal * codeSize + n * codeSize
  {
  }

  lemma EncodedJoin(listNos: seq<int>, payloads: seq<Code>, moreLists: seq<int>, morePayloads: seq<Code>, m: nat)
    requires |listNos| == |payloads| && |moreLists| == |morePayloads|
    ensures Encoded(listNos + moreLists, payloads + morePayloads, m)
      == Encoded(listNos, payloads, m) + Encoded(moreLists, morePayloads, m)
  {
    hide Encoded;
    var ls, ps := listNos + moreLists, payloads + morePayloads;
    EncodedTwice(ls, ps, m, |listNos|, |ls|);
    assert ls[..|ls|] == ls && ps[..|ls|] == ps && ls[..|listNos|] == listNos && ps[..|listNos|] == payloads;
    assert ls[|listNos|..|ls|] == moreLists && ps[|listNos|..|ls|] == morePayloads;
  }

  lemma NextAppended(lists: seq<InvList>, batch: Batch, i: nat)
    requires batch.Valid(|lists|) && i < |batch.assign|
    ensures Appended(lists, batch.Prefix(i + 1))
      == AppendOne(Appended(lists, batch.Prefix(i)), batch.assign[i], batch.ids[i], batch.codes[i])
  {
    hide Appended;
    BlockOf(batch, i, i + 1);
    AppendedLast(lists, batch.Prefix(i + 1));
  }
}
