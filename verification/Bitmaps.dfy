/** kernel/bitmap.cc: a bitmap over a byte buffer, most significant bit first. */
module Bitmaps {

  /** The mask `0b10000000 >> bit` that selects one bit of a byte. */
  function BitIndexer(bit: nat): (mask: bv8)
    requires bit < 8
  {
    match bit
    case 0 => 0x80
    case 1 => 0x40
    case 2 => 0x20
    case 3 => 0x10
    case 4 => 0x08
    case 5 => 0x04
    case 6 => 0x02
    case _ => 0x01
  }

  predicate TestBit(byte: bv8, bit: nat)
    requires bit < 8
  {
    byte & BitIndexer(bit) > 0
  }

  /** The byte that `Bitmap.Set` writes back. */
  function WriteBit(byte: bv8, bit: nat, value: bool): bv8
    requires bit < 8
  {
    var cleared := byte & !BitIndexer(bit);
    if value then cleared | BitIndexer(bit) else cleared
  }

  /** The bits of a byte are counted from its most significant one: shifting them up by one moves each to the index
      before it, and the first is set from 128 on. */
  lemma MostSignificantFirst(byte: bv8, bit: nat)
    requires bit < 7
    ensures TestBit(byte, 0) <==> byte >= 0x80
    ensures TestBit(byte << 1, bit) <==> TestBit(byte, bit + 1)
    ensures !TestBit(byte << 1, 7)
  {
  }

  /** Writing one bit of a byte changes that bit only. */
  lemma WriteBitChangesOneBit(byte: bv8, bit: nat, value: bool, other: nat)
    requires bit < 8 && other < 8
    ensures TestBit(WriteBit(byte, bit, value), other) == if other == bit then value else TestBit(byte, other)
  {
  }

  predicate BitAt(bytes: seq<bv8>, index: nat)
    requires index < 8 * |bytes|
  {
    TestBit(bytes[index / 8], index % 8)
  }

  /** `bits` lists the bits of a buffer in index order. */
  ghost predicate StandsFor(bits: seq<bool>, bytes: seq<bv8>) {
    && |bits| == 8 * |bytes|
    && forall i {:trigger BitAt(bytes, i)} :: 0 <= i < 8 * |bytes| ==> bits[i] == BitAt(bytes, i)
  }

  lemma StandsForOne(bits: seq<bool>, other: seq<bool>, bytes: seq<bv8>)
    requires StandsFor(bits, bytes) && StandsFor(other, bytes)
    ensures bits == other
  {
    forall i | 0 <= i < |bits|
      ensures bits[i] == other[i]
    {
      assert bits[i] == BitAt(bytes, i);
    }
  }

  /** The bits that a buffer of bytes stands for. They are chosen by their property, so that users
      of a bitmap reason about booleans and not about masks. */
  ghost function BitsOf(bytes: seq<bv8>): (bits: seq<bool>)
    ensures |bits| == 8 * |bytes|
    ensures StandsFor(bits, bytes)
  {
    var all := seq(8 * |bytes|, (i: nat) requires i < 8 * |bytes| => BitAt(bytes, i));
    assert StandsFor(all, bytes);
    var bits :| StandsFor(bits, bytes);
    bits
  }

  lemma WriteBitUpdatesBits(bytes: seq<bv8>, index: nat, value: bool)
    requires index < 8 * |bytes|
    ensures BitsOf(bytes[index / 8 := WriteBit(bytes[index / 8], index % 8, value)]) == BitsOf(bytes)[index := value]
  {
    var after := bytes[index / 8 := WriteBit(bytes[index / 8], index % 8, value)];
    forall i | 0 <= i < 8 * |bytes|
      ensures BitsOf(bytes)[index := value][i] == BitAt(after, i)
    {
      assert BitsOf(bytes)[i] == BitAt(bytes, i);
      if i / 8 == index / 8 {
        WriteBitChangesOneBit(bytes[i / 8], index % 8, value, i % 8);
        assert i % 8 == index % 8 <==> i == index;
      }
    }
    StandsForOne(BitsOf(after), BitsOf(bytes)[index := value], after);
  }

  lemma ZeroBytesBits(bytes: seq<bv8>)
    requires forall j :: 0 <= j < |bytes| ==> bytes[j] == 0
    ensures BitsOf(bytes) == seq(8 * |bytes|, i => false)
  {
    forall i | 0 <= i < 8 * |bytes|
      ensures !BitAt(bytes, i)
    {
    }
    StandsForOne(BitsOf(bytes), seq(8 * |bytes|, i => false), bytes);
  }

  /** What `Bitmap::get` answers about a list of bits: false beyond the end. */
  predicate Get(bits: seq<bool>, index: nat) {
    index < |bits| && bits[index]
  }

  /** The two byte updates at the end of `Bitmap::set`. */
  method WriteByte(buffer: array<bv8>, byteIndex: nat, bitIndexer: bv8, value: bool)
    requires byteIndex < buffer.Length
    modifies buffer
    ensures buffer[..] == old(buffer[..])[byteIndex := if value then (old(buffer[byteIndex]) & !bitIndexer) | bitIndexer
                                                       else old(buffer[byteIndex]) & !bitIndexer]
  {
    buffer[byteIndex] := buffer[byteIndex] & !bitIndexer;
    if value {
      buffer[byteIndex] := buffer[byteIndex] | bitIndexer;
    }
  }

  class Bitmap {
    var buffer: array<bv8>

    /** The abstract value: one boolean per bit of the buffer. */
    ghost function Bits(): (bits: seq<bool>)
      reads this, buffer
      ensures |bits| == 8 * buffer.Length
    {
      BitsOf(buffer[..])
    }

    constructor ()
      ensures fresh(buffer) && buffer.Length == 0
    {
      buffer := new bv8[0];
    }

    /** `memory` is the region that the source's caller passes as base address. */
    method Init(memory: array<bv8>)
      modifies this, memory
      ensures buffer == memory
      ensures Bits() == seq(8 * memory.Length, i => false)
    {
      buffer := memory;
      for i := 0 to memory.Length
        invariant buffer == memory
        invariant forall j :: 0 <= j < i ==> memory[j] == 0
      {
        memory[i] := 0;
      }
      ZeroBytesBits(memory[..]);
    }

    /** The size in bytes, which is what the source calls the length. */
    function Length(): nat
      reads this
    {
      buffer.Length
    }

    method Test(index: nat) returns (r: bool)
      ensures r == Get(Bits(), index)
    {
      var byteIndex := index / 8;
      if byteIndex >= buffer.Length {
        return false;
      }
      assert Bits()[index] == BitAt(buffer[..], index);
      r := TestBit(buffer[byteIndex], index % 8);
    }

    method Set(index: nat, value: bool) returns (inRange: bool)
      modifies buffer
      ensures inRange == (index < |old(Bits())|)
      ensures Bits() == if inRange then old(Bits())[index := value] else old(Bits())
    {
      var byteIndex := index / 8;
      if byteIndex >= buffer.Length {
        return false;
      }
      ghost var before := buffer[..];
      WriteByte(buffer, byteIndex, BitIndexer(index % 8), value);
      WriteBitUpdatesBits(before, index, value);
      inRange := true;
    }
  }
}
