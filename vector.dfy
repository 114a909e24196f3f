/**
 * The `Vector` value type: a fixed-length, ordered sequence of doubles, its
 * byte codec (`__bytes__` / `from_bytes`), structural equality (`__eq__`) and
 * the XOR-fold hash (`__hash__`).
 */
module Vectors {
  import opened Wrappers
  import opened Doubles

  /**
   * A vector. `__init__` copies its argument into an `array('d')` that is
   * never replaced afterwards, so a vector is modelled as an immutable value.
   */
  datatype Vector = Vector(components: seq<Double>) {
    /** `__len__`: the number of components. */
    function Len(): nat { |components| }
  }

  /** The exceptions raised by the operations modelled here. */
  datatype Error =
    | IndexError               // a position outside the vector, or `octets[0]` of an empty buffer
    | TypeError                // a key that is neither a slice nor an integer; a payload `cast` refuses
    | ValueError               // a slice whose step is zero
    | AttributeMissing         // AttributeError: the object has no such attribute
    | ReadOnlyAttribute        // AttributeError: writing one of x, y, z, t
    | ProtectedNamespace       // AttributeError: writing another single lowercase letter
    | UnmodelledTypeCode(code: byte) // a type tag other than 'd' (left out)

  /** The type code of `array('d')`: `ord('d')`. */
  const TYPE_CODE: byte := 0x64

  // ---------------------------------------------------------------------
  // Byte codec

  /** `bytes(self._components)`: every component's 8 bytes, in storage order. */
  function EncodeComponents(cs: seq<Double>): (r: seq<byte>)
    ensures |r| == ITEM_SIZE * |cs|
  {
    if cs == [] then [] else EncodeItem(cs[0]) + EncodeComponents(cs[1..])
  }

  /** `__bytes__`: the type tag followed by the components' bytes. */
  function Encode(v: Vector): (r: seq<byte>)
    ensures |r| == 1 + ITEM_SIZE * v.Len() && r[0] == TYPE_CODE
  {
    [TYPE_CODE] + EncodeComponents(v.components)
  }

  /** `memoryview(payload).cast('d')`, once the length is known to fit. */
  function DecodeComponents(bs: seq<byte>): (cs: seq<Double>)
    requires |bs| % ITEM_SIZE == 0
    ensures ITEM_SIZE * |cs| == |bs|
  {
    if bs == [] then [] else [DecodeItem(bs[..ITEM_SIZE])] + DecodeComponents(bs[ITEM_SIZE..])
  }

  /**
   * `from_bytes`: byte 0 is the type tag (an empty buffer has none, so
   * `octets[0]` raises IndexError); a payload whose length is not a multiple
   * of 8 is refused by `memoryview.cast` with a TypeError.
   */
  function Decode(octets: seq<byte>): (r: Result<Vector, Error>)
    ensures r.Success? <==> |octets| >= 1 && octets[0] == TYPE_CODE && (|octets| - 1) % ITEM_SIZE == 0
    ensures r.Success? ==> 1 + ITEM_SIZE * r.value.Len() == |octets|
  {
    if |octets| == 0 then Failure(IndexError)
    else if octets[0] != TYPE_CODE then Failure(UnmodelledTypeCode(octets[0]))
    else if (|octets| - 1) % ITEM_SIZE != 0 then Failure(TypeError)
    else Success(Vector(DecodeComponents(octets[1..])))
  }

  lemma {:induction false} EncodeComponentsAt(cs: seq<Double>, i: nat)
    requires i < |cs|
    ensures EncodeComponents(cs)[ITEM_SIZE * i .. ITEM_SIZE * i + ITEM_SIZE] == EncodeItem(cs[i])
  {
    var r := EncodeComponents(cs);
    if i == 0 {
      assert r[..ITEM_SIZE] == EncodeItem(cs[0]);
    } else {
      EncodeComponentsAt(cs[1..], i - 1);
      var tail := EncodeComponents(cs[1..]);
      assert r == EncodeItem(cs[0]) + tail;
      assert r[ITEM_SIZE * i .. ITEM_SIZE * i + ITEM_SIZE]
          == tail[ITEM_SIZE * (i - 1) .. ITEM_SIZE * (i - 1) + ITEM_SIZE];
    }
  }

  /**
   * The wire layout: `1 + 8 * len(v)` bytes, byte 0 is `ord('d')`, and bytes
   * `1 + 8i .. 8 + 8i` are component i.
   */
  lemma EncodeLayout(v: Vector, i: nat)
    requires i < v.Len()
    ensures |Encode(v)| == 1 + ITEM_SIZE * v.Len()
    ensures Encode(v)[0] == TYPE_CODE
    ensures Encode(v)[1 + ITEM_SIZE * i .. 1 + ITEM_SIZE * i + ITEM_SIZE] == EncodeItem(v.components[i])
  {
    EncodeComponentsAt(v.components, i);
    var r := Encode(v);
    assert r[1..] == EncodeComponents(v.components);
    assert r[1 + ITEM_SIZE * i .. 1 + ITEM_SIZE * i + ITEM_SIZE]
        == r[1..][ITEM_SIZE * i .. ITEM_SIZE * i + ITEM_SIZE];
  }

  lemma {:induction false} DecodeEncodeComponents(cs: seq<Double>)
    ensures DecodeComponents(EncodeComponents(cs)) == cs
  {
    if cs != [] {
      var bs := EncodeComponents(cs);
      assert bs[..ITEM_SIZE] == EncodeItem(cs[0]);
      assert bs[ITEM_SIZE..] == EncodeComponents(cs[1..]);
      DecodeItemOfEncodeItem(cs[0]);
      DecodeEncodeComponents(cs[1..]);
    }
  }

  lemma {:induction false} EncodeDecodeComponents(bs: seq<byte>)
    requires |bs| % ITEM_SIZE == 0
    ensures EncodeComponents(DecodeComponents(bs)) == bs
  {
    if bs != [] {
      var cs := DecodeComponents(bs);
      assert cs[1..] == DecodeComponents(bs[ITEM_SIZE..]);
      EncodeItemOfDecodeItem(bs[..ITEM_SIZE]);
      EncodeDecodeComponents(bs[ITEM_SIZE..]);
      assert bs == bs[..ITEM_SIZE] + bs[ITEM_SIZE..];
    }
  }

  /** Round trip: `Vector.from_bytes(bytes(v))` has v's components, in order. */
  lemma DecodeEncode(v: Vector)
    ensures Decode(Encode(v)) == Success(v)
  {
    DecodeEncodeComponents(v.components);
    assert Encode(v)[1..] == EncodeComponents(v.components);
  }

  /** The other direction: a buffer that decodes is the encoding of its result. */
  lemma EncodeDecode(octets: seq<byte>)
    requires Decode(octets).Success?
    ensures Encode(Decode(octets).value) == octets
  {
    EncodeDecodeComponents(octets[1..]);
    assert octets == [octets[0]] + octets[1..];
  }

  /** The error paths of `from_bytes`. */
  lemma DecodeErrors(octets: seq<byte>)
    ensures |octets| == 0 ==> Decode(octets) == Failure(IndexError)
    ensures (|octets| >= 1 && octets[0] == TYPE_CODE && (|octets| - 1) % ITEM_SIZE != 0)
      ==> Decode(octets) == Failure(TypeError)
    ensures octets == [TYPE_CODE] ==> Decode(octets) == Success(Vector([]))
  {
  }

  // ---------------------------------------------------------------------
  // Equality

  /**
   * `all(a == b for a, b in zip(xs, ys))`: the aligned pairs, up to the end
   * of the shorter sequence, are equal under the comparison `eq`.
   */
  function AllPairsEqual<T>(xs: seq<Double>, ys: seq<T>, eq: (Double, T) -> bool): bool
  {
    if xs == [] || ys == [] then true
    else eq(xs[0], ys[0]) && AllPairsEqual(xs[1..], ys[1..], eq)
  }

  /**
   * `__eq__` against any sized sequence: another vector's components, or a
   * list of floats or ints. The comparison of a float with an element of the
   * other sequence is the parameter `eq`; nothing is assumed of it, since NaN
   * differs from itself.
   */
  function Equal<T>(v: Vector, other: seq<T>, eq: (Double, T) -> bool): bool
  {
    v.Len() == |other| && AllPairsEqual(v.components, other, eq)
  }

  lemma {:induction false} AllPairsEqualIff<T>(xs: seq<Double>, ys: seq<T>, eq: (Double, T) -> bool)
    requires |xs| == |ys|
    ensures AllPairsEqual(xs, ys, eq) <==> forall i :: 0 <= i < |xs| ==> eq(xs[i], ys[i])
  {
    if xs != [] {
      AllPairsEqualIff(xs[1..], ys[1..], eq);
      assert forall i :: 1 <= i < |xs| ==> xs[i] == xs[1..][i - 1] && ys[i] == ys[1..][i - 1];
    }
  }

  /** Equality holds exactly when the lengths match and every aligned pair is equal. */
  lemma EqualIff<T>(v: Vector, other: seq<T>, eq: (Double, T) -> bool)
    ensures Equal(v, other, eq) <==>
      v.Len() == |other| && forall i :: 0 <= i < |other| ==> eq(v.components[i], other[i])
  {
    if v.Len() == |other| {
      AllPairsEqualIff(v.components, other, eq);
    }
  }

  /** Equality is symmetric whenever float `==` is. */
  lemma EqualSymmetric(v: Vector, w: Vector, eq: (Double, Double) -> bool)
    requires forall a, b :: eq(a, b) == eq(b, a)
    ensures Equal(v, w.components, eq) == Equal(w, v.components, eq)
  {
    EqualIff(v, w.components, eq);
    EqualIff(w, v.components, eq);
  }

  /**
   * A vector equals itself exactly when each component equals itself; a
   * component that is NaN makes `v == v` false.
   */
  lemma EqualSelf(v: Vector, eq: (Double, Double) -> bool)
    ensures Equal(v, v.components, eq) <==> forall i :: 0 <= i < v.Len() ==> eq(v.components[i], v.components[i])
  {
    EqualIff(v, v.components, eq);
  }

  /**
   * After a round trip through bytes the decoded vector compares equal to the
   * original exactly when every component compares equal to itself.
   */
  lemma RoundTripEqual(v: Vector, eq: (Double, Double) -> bool)
    ensures Decode(Encode(v)).Success?
    ensures Equal(Decode(Encode(v)).value, v.components, eq)
        <==> forall i :: 0 <= i < v.Len() ==> eq(v.components[i], v.components[i])
  {
    DecodeEncode(v);
    EqualSelf(v, eq);
  }

  // ---------------------------------------------------------------------
  // Hash

  /**
   * `functools.reduce(operator.xor, (hash(x) for x in xs), 0)`, folded from
   * the left. Element hashes are the parameter `h`; a Python hash is a
   * machine-word integer, and it is modelled by its 64-bit two's-complement
   * pattern, on which Python's `^` of ints and `bv64` XOR agree.
   */
  function XorFold(xs: seq<Double>, h: Double -> bv64): bv64
  {
    if xs == [] then 0 else XorFold(xs[..|xs| - 1], h) ^ h(xs[|xs| - 1])
  }

  /** `__hash__`. */
  function Hash(v: Vector, h: Double -> bv64): bv64
  {
    XorFold(v.components, h)
  }

  /** The empty vector hashes to the fold's start value 0. */
  lemma HashEmpty(h: Double -> bv64)
    ensures Hash(Vector([]), h) == 0
  {
  }

  lemma XorSwap(a: bv64, b: bv64, c: bv64)
    ensures (a ^ b) ^ c == (a ^ c) ^ b
  {
  }

  /** Removing position j < |xs| - 1 keeps the last element last. */
  lemma RemoveKeepsLast(xs: seq<Double>, j: nat)
    requires j < |xs| - 1
    ensures var rest := xs[..j] + xs[j + 1..];
      && |rest| == |xs| - 1
      && rest[..|rest| - 1] == xs[..|xs| - 1][..j] + xs[..|xs| - 1][j + 1..]
      && rest[|rest| - 1] == xs[|xs| - 1]
  {
  }

  /** Removing the last position leaves the prefix. */
  lemma DropLast(xs: seq<Double>)
    requires xs != []
    ensures xs[..|xs| - 1] + xs[|xs|..] == xs[..|xs| - 1]
  {
  }

  /** Taking out any one element leaves the fold XOR-ed with that element's hash. */
  lemma {:induction false} XorFoldRemove(xs: seq<Double>, j: nat, h: Double -> bv64)
    requires j < |xs|
    ensures XorFold(xs, h) == XorFold(xs[..j] + xs[j + 1..], h) ^ h(xs[j])
    decreases |xs|, 1
  {
    if j == |xs| - 1 {
      DropLast(xs);
    } else {
      XorFoldRemoveInner(xs, j, h);
    }
  }

  /** XorFoldRemove for a position before the last one. */
  lemma {:induction false} XorFoldRemoveInner(xs: seq<Double>, j: nat, h: Double -> bv64)
    requires j < |xs| - 1
    ensures XorFold(xs, h) == XorFold(xs[..j] + xs[j + 1..], h) ^ h(xs[j])
    decreases |xs|, 0
  {
    var n := |xs|;
    var init := xs[..n - 1];
    XorFoldRemove(init, j, h);
    RemoveKeepsLast(xs, j);
    XorSwap(XorFold(init[..j] + init[j + 1..], h), h(xs[j]), h(xs[n - 1]));
  }

  /** Taking out position j removes one occurrence of its element. */
  lemma MultisetRemove(xs: seq<Double>, j: nat)
    requires j < |xs|
    ensures multiset(xs[..j] + xs[j + 1..]) == multiset(xs) - multiset{xs[j]}
  {
    assert xs == xs[..j] + [xs[j]] + xs[j + 1..];
  }

  /** The fold depends only on the multiset of elements, not their order. */
  lemma {:induction false} XorFoldPermutation(xs: seq<Double>, ys: seq<Double>, h: Double -> bv64)
    requires multiset(xs) == multiset(ys)
    ensures XorFold(xs, h) == XorFold(ys, h)
  {
    if xs != [] {
      var n := |xs|;
      var last := xs[n - 1];
      MultisetRemove(xs, n - 1);
      DropLast(xs);
      assert last in multiset(ys);
      var j :| 0 <= j < |ys| && ys[j] == last;
      MultisetRemove(ys, j);
      XorFoldPermutation(xs[..n - 1], ys[..j] + ys[j + 1..], h);
      XorFoldRemove(ys, j, h);
    } else {
      assert |ys| == |multiset(ys)| == 0;
    }
  }

  /** Permuting a vector's components leaves its hash unchanged. */
  lemma HashPermutation(v: Vector, w: Vector, h: Double -> bv64)
    requires multiset(v.components) == multiset(w.components)
    ensures Hash(v, h) == Hash(w, h)
  {
    XorFoldPermutation(v.components, w.components, h);
  }

  lemma {:induction false} XorFoldRespects(xs: seq<Double>, ys: seq<Double>, h: Double -> bv64)
    requires |xs| == |ys|
    requires forall i :: 0 <= i < |xs| ==> h(xs[i]) == h(ys[i])
    ensures XorFold(xs, h) == XorFold(ys, h)
  {
    if xs != [] {
      var n := |xs|;
      XorFoldRespects(xs[..n - 1], ys[..n - 1], h);
    }
  }

  /**
   * Hash agrees with equality: when equal floats hash alike, equal vectors
   * hash alike.
   */
  lemma HashConsistentWithEqual(v: Vector, w: Vector, eq: (Double, Double) -> bool, h: Double -> bv64)
    requires forall a, b :: eq(a, b) ==> h(a) == h(b)
    requires Equal(v, w.components, eq)
    ensures Hash(v, h) == Hash(w, h)
  {
    EqualIff(v, w.components, eq);
    XorFoldRespects(v.components, w.components, h);
  }
}
