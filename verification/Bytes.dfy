/** Bytes, and codes laid out in a run of them. */
module Bytes {
  type Byte = x: int | 0 <= x < 256

  type Code = seq<Byte>

  /** Codes laid out one after the other. */
  function Packed(codes: seq<Code>): seq<Byte> {
    if codes == [] then [] else Packed(codes[..|codes| - 1]) + codes[|codes| - 1]
  }

  ghost predicate AllOfSize(codes: seq<Code>, size: nat) {
    forall i :: 0 <= i < |codes| ==> |codes[i]| == size
  }

  lemma {:induction false} PackedLength(codes: seq<Code>, size: nat)
    requires AllOfSize(codes, size)
    ensures |Packed(codes)| == |codes| * size
  {
    if codes != [] {
      PackedLength(codes[..|codes| - 1], size);
      assert |codes| * size == (|codes| - 1) * size + size;
    }
  }

  lemma PackedMore(codes: seq<Code>, t: nat)
    requires t < |codes|
    ensures Packed(codes[..t + 1]) == Packed(codes[..t]) + codes[t]
  {
    assert codes[..t + 1][..t] == codes[..t];
  }

  lemma PackedSnoc(codes: seq<Code>, code: Code)
    ensures Packed(codes + [code]) == Packed(codes) + code
  {
    assert (codes + [code])[..|codes|] == codes;
  }

  lemma {:induction false} PackedConcat(a: seq<Code>, b: seq<Code>)
    ensures Packed(a + b) == Packed(a) + Packed(b)
    decreases |b|
  {
    if b == [] {
      assert a + b == a;
    } else {
      assert (a + b)[..|a| + |b| - 1] == a + b[..|b| - 1];
      PackedConcat(a, b[..|b| - 1]);
    }
  }

  /** The code at place i. */
  lemma CodeAt(codes: seq<Code>, size: nat, i: nat)
    requires AllOfSize(codes, size) && i < |codes|
    ensures i * size + size <= |Packed(codes)| && Packed(codes)[i * size..i * size + size] == codes[i]
  {
    hide Packed;
    PackedLength(codes[..i], size);
    PackedMore(codes, i);
    assert codes == codes[..i + 1] + codes[i + 1..];
    PackedConcat(codes[..i + 1], codes[i + 1..]);
  }
}
