// Page-directory entries (rizzos/src/paging/paging.c).
//
// An entry is a 64-bit word: flags in the low 12 bits, the number of a 4 KiB frame
// in bits 12 to 51, and further flags above.
module Paging {
  import opened Bits

  const MEM_FRAME_SIZE: nat := 0x1000

  /** Frame numbers have 40 bits. */
  const FRAME_LIMIT: nat := 0x100_0000_0000

  type Word = w: nat | w < U64_LIMIT

  /** A flag is the number of its bit in the entry (enum PT_Flag). */
  type Flag = f: nat | f < 64

  const PT_PRESENT: Flag := 0
  const PT_READWRITE: Flag := 1
  const PT_LARGEPAGES: Flag := 7

  predicate HasFlag(w: Word, f: Flag) {
    Digit(w, f) == 1
  }

  function WithFlag(w: Word, f: Flag, enabled: bool): (r: Word) {
    SizeConstants();
    PutDigitFits(w, f, enabled, 64);
    PutDigit(w, f, enabled)
  }

  /** The word that keeps bits 0 to 11 and 52 to 63 and has address in between. */
  function WithAddress(w: Word, address: Word): Word {
    w % MEM_FRAME_SIZE + MEM_FRAME_SIZE * (address % FRAME_LIMIT)
    + 0x10_0000_0000_0000 * (w / 0x10_0000_0000_0000)
  }

  function AddressOf(w: Word): (f: nat)
    ensures f < FRAME_LIMIT
  {
    w / MEM_FRAME_SIZE % FRAME_LIMIT
  }

  class PageDirEntry {
    var value: Word

    constructor (value: Word)
      ensures this.value == value
    {
      this.value := value;
    }

    method SetFlag(flag: Flag, enabled: bool)
      modifies this
      ensures value == WithFlag(old(value), flag, enabled)
    {
      hide And, Or, PutDigit, Digit;
      SizeConstants();
      Pow2Smaller(flag, 64);
      var bitMask := Pow2(flag);
      AndNotPow2(value, flag, 64);
      PutDigitFits(value, flag, false, 64);
      PutDigitFits(value, flag, true, 64);
      PutDigitTwice(value, flag, false, true);
      OrPow2(PutDigit(value, flag, false), flag);
      value := And(value, Not(bitMask, 64));
      if enabled {
        value := Or(value, bitMask);
      }
    }

    method GetFlag(flag: Flag) returns (r: bool)
      ensures r == HasFlag(value, flag)
    {
      hide And, Or, PutDigit, Digit;
      AndPow2(value, flag);
      var bitMask := Pow2(flag);
      r := if And(value, bitMask) > 0 then true else false;
    }

    method SetAddress(address: Word)
      modifies this
      ensures value == WithAddress(old(value), address)
    {
      hide And, Or;
      ghost var lo, hi := value % MEM_FRAME_SIZE, value / 0x10_0000_0000_0000;
      WordParts(value);
      OuterMask(lo, AddressOf(value), hi);
      LowMask(address % FRAME_LIMIT, address / FRAME_LIMIT);
      PutField(lo, address % FRAME_LIMIT, hi);
      var field := And(address, 0x0000_00ff_ffff_ffff);
      value := And(value, 0xfff0_0000_0000_0fff);
      value := Or(value, field * MEM_FRAME_SIZE);
    }

    method GetAddress() returns (address: Word)
      ensures address == AddressOf(value)
    {
      hide And, Or;
      WordParts(value);
      FieldMask(value % MEM_FRAME_SIZE, AddressOf(value), value / 0x10_0000_0000_0000);
      address := And(value, 0x000f_ffff_ffff_f000) / MEM_FRAME_SIZE;
    }
  }

  // ----- the address masks

  /** A word is its 12 low bits, its 40 address bits and its 12 high bits. */
  lemma WordParts(w: Word)
    ensures w == w % MEM_FRAME_SIZE + MEM_FRAME_SIZE * (AddressOf(w) + FRAME_LIMIT * (w / 0x10_0000_0000_0000))
    ensures w / 0x10_0000_0000_0000 < 0x1000
  {
  }

  lemma LowMask(r: nat, q: nat)
    requires r < FRAME_LIMIT
    ensures And(r + FRAME_LIMIT * q, 0xff_ffff_ffff) == r
  {
    hide And, Or;
    AndJoin40(r, 0xff_ffff_ffff, q, 0);
    AndOnes40(r);
    AndZero(q);
  }

  lemma OuterMask(lo: nat, mid: nat, hi: nat)
    requires lo < 0x1000 && mid < FRAME_LIMIT && hi < 0x1000
    ensures And(lo + 0x1000 * (mid + FRAME_LIMIT * hi), 0xfff0_0000_0000_0fff) == lo + 0x1000 * (FRAME_LIMIT * hi)
  {
    hide And, Or;
    AndJoin12(lo, 0xfff, mid + FRAME_LIMIT * hi, FRAME_LIMIT * 0xfff);
    AndOnes12(lo);
    AndJoin40(mid, 0, hi, 0xfff);
    AndZero(mid);
    AndOnes12(hi);
  }

  lemma PutField(lo: nat, field: nat, hi: nat)
    requires lo < 0x1000 && field < FRAME_LIMIT
    ensures Or(lo + 0x1000 * (FRAME_LIMIT * hi), 0x1000 * field) == lo + 0x1000 * (field + FRAME_LIMIT * hi)
  {
    hide And, Or;
    OrJoin12(lo, 0, FRAME_LIMIT * hi, field);
    OrZero(lo);
    OrJoin40(0, field, hi, 0);
    OrFromZero(field);
    OrZero(hi);
  }

  lemma FieldMask(lo: nat, mid: nat, hi: nat)
    requires lo < 0x1000 && mid < FRAME_LIMIT
    ensures And(lo + 0x1000 * (mid + FRAME_LIMIT * hi), 0x000f_ffff_ffff_f000) == 0x1000 * mid
  {
    hide And, Or;
    AndJoin12(lo, 0, mid + FRAME_LIMIT * hi, 0xff_ffff_ffff);
    AndZero(lo);
    LowMask(mid, hi);
  }

  // ----- what the flag and address operations mean

  /** Setting a flag gives that bit its new value and leaves the 63 others. */
  lemma FlagMeaning(w: Word, f: Flag, enabled: bool, g: Flag)
    ensures HasFlag(WithFlag(w, f, enabled), g) <==> if g == f then enabled else HasFlag(w, g)
  {
    PutDigitMeaning(w, f, enabled, g);
  }

  /** Where the flags in use are: the two lowest bits, and the one of weight 128. */
  lemma FlagBits(w: Word)
    ensures HasFlag(w, PT_PRESENT) <==> w % 2 == 1
    ensures HasFlag(w, PT_READWRITE) <==> w / 2 % 2 == 1
    ensures HasFlag(w, PT_LARGEPAGES) <==> w / 0x80 % 2 == 1
  {
    hide Digit;
    FirstDigit(w);
    FirstDigit(w / 2);
    LaterDigit(w, 0);
    LaterDigit(w, 6);
    LaterDigit(w / 2, 5);
    LaterDigit(w / 2 / 2, 4);
    LaterDigit(w / 2 / 2 / 2, 3);
    LaterDigit(w / 2 / 2 / 2 / 2, 2);
    LaterDigit(w / 2 / 2 / 2 / 2 / 2, 1);
    LaterDigit(w / 2 / 2 / 2 / 2 / 2 / 2, 0);
    FirstDigit(w / 2 / 2 / 2 / 2 / 2 / 2 / 2);
    SevenHalves(w);
  }

  lemma FirstDigit(w: nat)
    ensures Digit(w, 0) == w % 2
  {
  }

  lemma LaterDigit(w: nat, k: nat)
    ensures Digit(w, k + 1) == Digit(w / 2, k)
  {
  }

  lemma SevenHalves(w: nat)
    ensures w / 2 / 2 / 2 / 2 / 2 / 2 / 2 == w / 0x80
  {
    assert w / 2 / 2 == w / 4 && w / 4 / 2 == w / 8 && w / 8 / 2 == w / 0x10 && w / 0x10 / 2 == w / 0x20;
  }

  /** A digit below the 12th depends on the 12 low bits only. */
  lemma LowDigits(w: nat, k: nat)
    requires k < 12
    ensures Digit(w, k) == Digit(w % MEM_FRAME_SIZE, k)
  {
    hide Digit, Shl;
    Shl12(w / MEM_FRAME_SIZE);
    DigitJoin(w % MEM_FRAME_SIZE, w / MEM_FRAME_SIZE, 12, k);
  }

  /** Setting the address replaces the 40 address bits and leaves the 24 others. */
  lemma AddressMeaning(w: Word, address: Word)
    ensures AddressOf(WithAddress(w, address)) == address % FRAME_LIMIT
    ensures WithAddress(w, address) % MEM_FRAME_SIZE == w % MEM_FRAME_SIZE
    ensures WithAddress(w, address) / 0x10_0000_0000_0000 == w / 0x10_0000_0000_0000
  {
  }
}
