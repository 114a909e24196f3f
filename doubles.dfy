/**
 * The components of a vector are double-precision floats. The model does not
 * interpret them as numbers: a component is known by its 64-bit IEEE-754 bit
 * pattern, and the only thing the codec needs is that pattern's 8-byte
 * machine encoding. The machine's native byte order is taken to be
 * little-endian.
 */
module Doubles {

  type byte = x: nat | x < 256

  /** 256^n: one more than the largest number n bytes can hold. */
  function Pow256(n: nat): (p: nat)
    ensures p >= 1
  {
    if n == 0 then 1 else 256 * Pow256(n - 1)
  }

  const ITEM_SIZE: nat := 8

  type Bits64 = x: nat | x < 0x1_0000_0000_0000_0000

  /** A double-precision float, identified by its bit pattern. */
  datatype Double = Double(bits: Bits64)

  /** The n low-order bytes of x, least significant first. */
  function LittleEndian(x: nat, n: nat): (r: seq<byte>)
    ensures |r| == n
  {
    if n == 0 then [] else [(x % 256) as byte] + LittleEndian(x / 256, n - 1)
  }

  /** The number whose little-endian bytes are bs. */
  function FromLittleEndian(bs: seq<byte>): (x: nat)
    ensures x < Pow256(|bs|)
  {
    if bs == [] then 0 else bs[0] + 256 * FromLittleEndian(bs[1..])
  }

  lemma {:induction false} FromLittleEndianOfLittleEndian(x: nat, n: nat)
    requires x < Pow256(n)
    ensures FromLittleEndian(LittleEndian(x, n)) == x
  {
    if n > 0 {
      var q := x / 256;
      assert q < Pow256(n - 1);
      FromLittleEndianOfLittleEndian(q, n - 1);
      var bs := LittleEndian(x, n);
      assert bs[1..] == LittleEndian(q, n - 1);
    }
  }

  lemma {:induction false} LittleEndianOfFromLittleEndian(bs: seq<byte>)
    ensures LittleEndian(FromLittleEndian(bs), |bs|) == bs
  {
    if bs != [] {
      var x := FromLittleEndian(bs);
      var rest := FromLittleEndian(bs[1..]);
      assert x % 256 == bs[0] && x / 256 == rest;
      LittleEndianOfFromLittleEndian(bs[1..]);
    }
  }

  /** The 8 bytes a double occupies in memory (`bytes(array('d', [d]))`). */
  function EncodeItem(d: Double): (r: seq<byte>)
    ensures |r| == ITEM_SIZE
  {
    LittleEndian(d.bits, ITEM_SIZE)
  }

  /** Reinterprets 8 bytes as a double (one item of `memoryview.cast('d')`). */
  function DecodeItem(bs: seq<byte>): (d: Double)
    requires |bs| == ITEM_SIZE
  {
    assert Pow256(ITEM_SIZE) == 0x1_0000_0000_0000_0000;
    Double(FromLittleEndian(bs))
  }

  lemma DecodeItemOfEncodeItem(d: Double)
    ensures DecodeItem(EncodeItem(d)) == d
  {
    assert Pow256(ITEM_SIZE) == 0x1_0000_0000_0000_0000;
    FromLittleEndianOfLittleEndian(d.bits, ITEM_SIZE);
  }

  lemma EncodeItemOfDecodeItem(bs: seq<byte>)
    requires |bs| == ITEM_SIZE
    ensures EncodeItem(DecodeItem(bs)) == bs
  {
    LittleEndianOfFromLittleEndian(bs);
  }

  /** Distinct doubles occupy distinct bytes: the encoding is injective. */
  lemma EncodeItemInjective(d: Double, e: Double)
    ensures EncodeItem(d) == EncodeItem(e) <==> d == e
  {
    if EncodeItem(d) == EncodeItem(e) {
      DecodeItemOfEncodeItem(d);
      DecodeItemOfEncodeItem(e);
    }
  }
}
