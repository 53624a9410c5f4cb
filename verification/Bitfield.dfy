// The bitfield of btor/butils.cpp: a vector of bytes as a set of piece numbers, from
// the high bit of each byte to the low bit (the bitfield message of BEP 3).
module Bitfield {

  // Bit k of a byte, counting from the highest.
  predicate Bit(b: bv8, k: nat)
    requires k < 8
  {
    (b >> (7 - k)) & 1 == 1
  }

  // The set of numbers that a bitfield stands for.
  function Members(bytes: seq<bv8>): set<nat> {
    set j: nat | j < 8 * |bytes| && Bit(bytes[j / 8], j % 8)
  }

  function Mask(k: nat): bv8
    requires k < 8
  {
    0x80 >> k
  }

  // Bit 0 of a byte is the one of value 0x80.
  lemma HighBitFirst(b: bv8)
    ensures (Bit(b, 0) <==> b & 0x80 != 0) && (Bit(b, 1) <==> b & 0x40 != 0)
    ensures (Bit(b, 2) <==> b & 0x20 != 0) && (Bit(b, 3) <==> b & 0x10 != 0)
    ensures (Bit(b, 4) <==> b & 0x08 != 0) && (Bit(b, 5) <==> b & 0x04 != 0)
    ensures (Bit(b, 6) <==> b & 0x02 != 0) && (Bit(b, 7) <==> b & 0x01 != 0)
  {
  }

  // The first number is the highest bit of the first byte, the last one the lowest bit
  // of the last.
  lemma FirstAndLast(n: nat)
    requires n > 0
    ensures Members([0x80] + seq(n, _ => 0)) == {0}
    ensures Members(seq(n, _ => 0) + [0x01]) == {8 * n + 7}
  {
    NoBits(0);
    assert forall k | 0 <= k < 8 :: Bit(0x80, k) <==> k == 0;
    assert forall k | 0 <= k < 8 :: Bit(0x01, k) <==> k == 7;
    hide Bit;
  }

  lemma NoBits(k: nat)
    ensures forall k | 0 <= k < 8 :: !Bit(0, k)
  {
  }

  lemma MaskTests(b: bv8, k: nat)
    requires k < 8
    ensures b & Mask(k) != 0 <==> Bit(b, k)
  {
  }

  lemma MaskSets(b: bv8, k: nat, i: nat)
    requires k < 8 && i < 8
    ensures Bit(b | Mask(k), i) <==> Bit(b, i) || i == k
  {
    hide Bit, Mask;
    BitOfOr(b, Mask(k), i);
    BitOfMask(k, i);
  }

  lemma BitOfOr(b: bv8, c: bv8, i: nat)
    requires i < 8
    ensures Bit(b | c, i) <==> Bit(b, i) || Bit(c, i)
  {
    var n := (7 - i) as bv4;
    ShiftOfOr(b, c, n);
    assert Bit(b | c, i) <==> ((b | c) >> n) & 1 == 1;
    assert Bit(b, i) <==> (b >> n) & 1 == 1;
    assert Bit(c, i) <==> (c >> n) & 1 == 1;
  }

  lemma ShiftOfOr(b: bv8, c: bv8, n: bv4)
    requires n < 8
    ensures ((b | c) >> n) & 1 == 1 <==> (b >> n) & 1 == 1 || (c >> n) & 1 == 1
  {
  }

  lemma BitOfMask(k: nat, i: nat)
    requires k < 8 && i < 8
    ensures Bit(Mask(k), i) <==> i == k
  {
  }

  predicate IsBitInBitfieldSet(bitfield: seq<bv8>, bit: nat): (found: bool)
    requires bit < 8 * |bitfield|
    ensures found <==> bit in Members(bitfield)
  {
    MaskTests(bitfield[bit / 8], bit % 8);
    bitfield[bit / 8] & Mask(bit % 8) != 0
  }

  function WithBit(bytes: seq<bv8>, bit: nat): (after: seq<bv8>)
    requires bit < 8 * |bytes|
    ensures |after| == |bytes| && Members(after) == Members(bytes) + {bit}
  {
    OneMore(bytes, bit);
    bytes[bit / 8 := bytes[bit / 8] | Mask(bit % 8)]
  }

  method SetBitInBitfield(bitfield: array<bv8>, bit: nat)
    requires bit < 8 * bitfield.Length
    modifies bitfield
    ensures bitfield[..] == WithBit(old(bitfield[..]), bit)
  {
    var targetByte, bitOffset := bit / 8, bit % 8;
    bitfield[targetByte] := bitfield[targetByte] | Mask(bitOffset);
  }

  lemma OneMore(bytes: seq<bv8>, bit: nat)
    requires bit < 8 * |bytes|
    ensures Members(bytes[bit / 8 := bytes[bit / 8] | Mask(bit % 8)]) == Members(bytes) + {bit}
  {
    hide Bit, Mask;
    var after := bytes[bit / 8 := bytes[bit / 8] | Mask(bit % 8)];
    forall j: nat | j < 8 * |bytes|
      ensures Bit(after[j / 8], j % 8) <==> Bit(bytes[j / 8], j % 8) || j == bit
    {
      MaskSets(bytes[bit / 8], bit % 8, j % 8);
    }
  }

  // The bitfield after a run of calls.
  function WithBits(bytes: seq<bv8>, bits: seq<nat>): (after: seq<bv8>)
    requires forall i | 0 <= i < |bits| :: bits[i] < 8 * |bytes|
    ensures |after| == |bytes|
  {
    if bits == [] then bytes else WithBit(WithBits(bytes, bits[..|bits| - 1]), bits[|bits| - 1])
  }

  lemma {:induction false} SetBitsAreFound(bytes: seq<bv8>, bits: seq<nat>, j: nat)
    requires forall i | 0 <= i < |bits| :: bits[i] < 8 * |bytes|
    requires j < 8 * |bytes|
    ensures IsBitInBitfieldSet(WithBits(bytes, bits), j) <==> IsBitInBitfieldSet(bytes, j) || j in bits
  {
    hide Bit, Mask, Members, WithBit, IsBitInBitfieldSet;
    if bits != [] {
      var k := |bits| - 1;
      SetBitsAreFound(bytes, bits[..k], j);
      assert bits == bits[..k] + [bits[k]];
    }
  }
}
