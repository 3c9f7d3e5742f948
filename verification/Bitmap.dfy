// The bit set over a byte buffer (rizzos/src/utils/bitmap.c).
module Bitmaps {
  import opened Bits

  predicate BitAt(bytes: seq<Byte>, index: nat)
    requires index / 8 < |bytes|
  {
    Digit(bytes[index / 8], index % 8) == 1
  }

  /** The set as one Boolean for each bit. */
  ghost function BitsOf(bytes: seq<Byte>, size: nat): (bits: seq<bool>)
    requires size <= |bytes|
    ensures |bits| == 8 * size
    ensures forall i :: 0 <= i < 8 * size ==> bits[i] == BitAt(bytes, i)
  {
    seq(8 * size, i requires 0 <= i < 8 * size => BitAt(bytes, i))
  }

  class Bitmap {
    var size: nat
    var buffer: array<Byte>

    constructor ()
      ensures size == 0 && fresh(buffer)
    {
      size := 0;
      buffer := new Byte[0];
    }

    ghost predicate Valid()
      reads this
    {
      size <= buffer.Length
    }

    ghost function Contents(): (bits: seq<bool>)
      requires Valid()
      reads this, buffer
      ensures |bits| == 8 * size
    {
      BitsOf(buffer[..], size)
    }

    /** The bytes behind the set that the buffer has. */
    ghost function Behind(): seq<Byte>
      requires Valid()
      reads this, buffer
    {
      buffer[size..]
    }

    /** Nothing is promised for an index past the buffer: the source reads whatever lies there. */
    method Get(index: nat) returns (r: bool)
      requires Valid()
      ensures index < 8 * size ==> r == Contents()[index]
      ensures index < 8 * buffer.Length ==> r == BitAt(buffer[..], index)
    {
      hide And;
      var byteIndex := index / 8;
      var bitIndex := index % 8;
      var bitMask := Pow2(bitIndex);
      var byte: Byte := *;
      if byteIndex < buffer.Length {
        byte := buffer[byteIndex];
      }
      AndPow2(byte, bitIndex);
      if And(byte, bitMask) > 0 {
        return true;
      }
      return false;
    }

    /**
     * Fails past the end of the bit set.  The source's test lets one index too many
     * through: for the index that equals the number of bits it writes the byte behind
     * the set, if memory has one, and reports success.
     */
    method Set(index: nat, value: bool) returns (done: bool)
      requires Valid() && (index == 8 * size ==> size < buffer.Length)
      modifies buffer
      ensures done == (index <= 8 * size)
      ensures Contents() == if index < 8 * size then old(Contents())[index := value] else old(Contents())
      ensures index != 8 * size ==> Behind() == old(Behind())
      ensures index <= 8 * size ==>
        buffer[..] == old(buffer[..])[index / 8 := PutDigit(old(buffer[index / 8]), index % 8, value)]
    {
      hide And, Or, PutDigit, Pow2, Digit;
      if index > size * 8 {
        return false;
      }
      var byteIndex := index / 8;
      var bitIndex := index % 8;
      ghost var before := buffer[..];
      ByteMasks(buffer[byteIndex], bitIndex);
      var bitMask := Pow2(bitIndex);
      buffer[byteIndex] := And(buffer[byteIndex], Not(bitMask, 8));
      if value {
        buffer[byteIndex] := Or(buffer[byteIndex], bitMask);
      }
      assert buffer[..] == before[byteIndex := PutDigit(before[byteIndex], bitIndex, value)];
      assert index < 8 * size ==> buffer[size..] == before[size..];
      WrittenByte(before, buffer[..], size, index, value);
      return true;
    }
  }

  lemma WrittenByte(before: seq<Byte>, after: seq<Byte>, size: nat, index: nat, value: bool)
    requires size <= |before| && index <= 8 * size && index / 8 < |before|
    requires PutDigit(before[index / 8], index % 8, value) < 0x100
    requires after == before[index / 8 := PutDigit(before[index / 8], index % 8, value)]
    ensures BitsOf(after, size) == if index < 8 * size then BitsOf(before, size)[index := value] else BitsOf(before, size)
  {
    hide PutDigit;
    if index < 8 * size {
      WrittenBit(before, after, size, index, value);
    } else {
      assert BitsOf(after, size) == BitsOf(before, size) by {
        hide Digit;
        assert forall i :: 0 <= i < 8 * size ==> BitAt(after, i) == BitAt(before, i);
      }
    }
  }

  lemma ByteMasks(b: Byte, k: nat)
    requires k < 8
    ensures Pow2(8) == 0x100 && Pow2(k) < Pow2(8)
    ensures And(b, Not(Pow2(k), 8)) == PutDigit(b, k, false) < 0x100
    ensures Or(PutDigit(b, k, false), Pow2(k)) == PutDigit(b, k, true) < 0x100
  {
    hide And, Or;
    Pow2IsShift(8);
    ShlEight(1, 0);
    AndNotPow2(b, k, 8);
    OrPow2(PutDigit(b, k, false), k);
    PutDigitTwice(b, k, false, true);
    PutDigitFits(b, k, false, 8);
    PutDigitFits(b, k, true, 8);
  }

  lemma WrittenBit(before: seq<Byte>, after: seq<Byte>, size: nat, index: nat, value: bool)
    requires size <= |before| && index < 8 * size
    requires PutDigit(before[index / 8], index % 8, value) < 0x100
    requires after == before[index / 8 := PutDigit(before[index / 8], index % 8, value)]
    ensures BitsOf(after, size) == BitsOf(before, size)[index := value]
  {
    hide Digit, PutDigit;
    forall i | 0 <= i < 8 * size
      ensures BitAt(after, i) == if i == index then value else BitAt(before, i)
    {
      if i / 8 == index / 8 {
        PutDigitMeaning(before[index / 8], index % 8, value, i % 8);
      }
    }
  }
}
