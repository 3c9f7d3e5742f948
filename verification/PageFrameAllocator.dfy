// The page frame allocator (rizzos/src/paging/page_frame_allocator.c).
module PageFrameAllocators {
  import opened Bits
  import opened Paging
  import opened Bitmaps
  import opened MemoryMaps
  import opened PageFrames
  import opened BootFrames
  import opened Storages

  /** The length up to the end of its last word. */
  function RoundToWords(num: nat): (r: nat)
    ensures num <= r < num + 8 && r % 8 == 0
  {
    num + (8 - num % 8) % 8
  }

  predicate AllZero(bytes: seq<Byte>) {
    forall b <- bytes :: b == 0
  }

  /** MEM_Set64 (rizzos/src/memory.c) with value 0: it writes eight bytes at a time. */
  method ZeroBytes(bytes: array<Byte>, num: nat)
    requires RoundToWords(num) <= bytes.Length
    modifies bytes
    ensures forall i :: 0 <= i < RoundToWords(num) ==> bytes[i] == 0
    ensures forall i :: RoundToWords(num) <= i < bytes.Length ==> bytes[i] == old(bytes[i])
  {
    var i := 0;
    while i < num
      invariant i % 8 == 0 && i <= RoundToWords(num)
      invariant forall j :: i <= j < bytes.Length ==> bytes[j] == old(bytes[j])
      invariant forall j :: 0 <= j < i ==> bytes[j] == 0
      decreases num - i
    {
      forall k | 0 <= k < 8 {
        bytes[i + k] := 0;
      }
      i := i + 8;
    }
  }

  /** What MEM_GetTotalSize will answer. */
  function KnownTotal(cache: SizeCache, mmap: seq<Descriptor>): nat
    reads cache
  {
    if cache.memorySize > 0 then cache.memorySize else TotalSize(mmap, |mmap|)
  }

  /** The search for the place of the bit set: the first of the largest usable ranges. */
  method FindLargest(mmap: seq<Descriptor>) returns (largestFreeMem: nat)
    ensures largestFreeMem == LargestUsable(mmap, |mmap|).0
  {
    hide Wrap;
    var largestFreeMemSize := 0;
    largestFreeMem := 0;
    for i := 0 to |mmap|
      invariant (largestFreeMem, largestFreeMemSize) == LargestUsable(mmap, i)
    {
      var desc := mmap[i];
      if desc.kind == 7 {
        if Wrap(desc.numPages * MEM_FRAME_SIZE) > largestFreeMemSize {
          largestFreeMem := desc.physAddr;
          largestFreeMemSize := Wrap(desc.numPages * MEM_FRAME_SIZE);
        }
      }
    }
  }

  class PageFrameAllocator {
    var freeMemory: nat
    var reservedMemory: nat
    var usedMemory: nat
    var initialized: bool
    const bitmap: Bitmap
    /** The physical address that g_pageBitmap.buffer points to. */
    var bufferAddress: nat
    var lastReservedPage: nat

    constructor ()
      ensures Valid() && fresh(bitmap) && fresh(bitmap.buffer)
      ensures !initialized && State() == Frames([], 0, 0, 0, 0)
    {
      freeMemory, reservedMemory, usedMemory := 0, 0, 0;
      initialized := false;
      bitmap := new Bitmap();
      bufferAddress := 0;
      lastReservedPage := 0;
    }

    ghost predicate Valid()
      reads this, bitmap
    {
      bitmap.Valid() && lastReservedPage <= 8 * bitmap.size
    }

    ghost function State(): (s: Frames)
      requires Valid()
      reads this, bitmap, bitmap.buffer
      ensures |s.bits| == 8 * bitmap.size && s.hint == lastReservedPage
    {
      Frames(bitmap.Contents(), lastReservedPage, freeMemory, reservedMemory, usedMemory)
    }

    /** What the operations on frames leave alone, with the bytes behind the bit set. */
    ghost function Rest(): (bool, nat, seq<Byte>)
      requires Valid()
      reads this, bitmap, bitmap.buffer
    {
      (initialized, bufferAddress, bitmap.Behind())
    }

    /** The frames of memory that hold the bit set. */
    function Storage(): FrameRange
      reads this, bitmap
    {
      if bitmap.size == 0 then FrameRange(0, 0) else StorageFrames(bufferAddress, bitmap.size)
    }

    method LockPage(address: nat)
      requires Valid() && address / MEM_FRAME_SIZE != 8 * bitmap.size
      modifies this, bitmap.buffer
      ensures Valid() && State() == LockFrame(old(State()), address / MEM_FRAME_SIZE)
      ensures Rest() == old(Rest())
    {
      hide Bitmap.Contents, Bitmap.Behind, Wrap;
      var index := address / MEM_FRAME_SIZE;
      var taken := bitmap.Get(index);
      if taken {
        return;
      }
      var done := bitmap.Set(index, true);
      assert bitmap.Contents() == State().bits;
      if done {
        freeMemory := Wrap(freeMemory - MEM_FRAME_SIZE);
        usedMemory := Wrap(usedMemory + MEM_FRAME_SIZE);
      }
    }

    method LockPages(address: nat, pageCount: nat)
      requires Valid() && !Within(8 * bitmap.size, address / MEM_FRAME_SIZE, pageCount)
      modifies this, bitmap.buffer
      ensures Valid() && State() == LockRange(old(State()), address / MEM_FRAME_SIZE, pageCount)
      ensures Rest() == old(Rest())
    {
      hide State, Valid, LockFrame;
      for i := 0 to pageCount
        invariant Valid() && State() == LockRange(old(State()), address / MEM_FRAME_SIZE, i)
        invariant Rest() == old(Rest())
      {
        LockPage(address + i * MEM_FRAME_SIZE);
      }
    }

    method FreePage(address: nat)
      requires Valid() && address / MEM_FRAME_SIZE != 8 * bitmap.size
      modifies this, bitmap.buffer
      ensures Valid() && State() == FreeFrame(old(State()), address / MEM_FRAME_SIZE)
      ensures Rest() == old(Rest())
    {
      hide Bitmap.Contents, Bitmap.Behind, Wrap;
      var index := address / MEM_FRAME_SIZE;
      var taken := bitmap.Get(index);
      if !taken {
        return;
      }
      var done := bitmap.Set(index, false);
      assert bitmap.Contents() == State().bits;
      if done {
        freeMemory := Wrap(freeMemory + MEM_FRAME_SIZE);
        usedMemory := Wrap(usedMemory - MEM_FRAME_SIZE);
        if lastReservedPage > index {
          lastReservedPage := index;
        }
      }
    }

    method FreePages(address: nat, pageCount: nat)
      requires Valid() && !Within(8 * bitmap.size, address / MEM_FRAME_SIZE, pageCount)
      modifies this, bitmap.buffer
      ensures Valid() && State() == FreeRange(old(State()), address / MEM_FRAME_SIZE, pageCount)
      ensures Rest() == old(Rest())
    {
      hide State, Valid, FreeFrame;
      for i := 0 to pageCount
        invariant Valid() && State() == FreeRange(old(State()), address / MEM_FRAME_SIZE, i)
        invariant Rest() == old(Rest())
      {
        FreePage(address + i * MEM_FRAME_SIZE);
      }
    }

    /** Returns 0, the null pointer, when the search finds nothing. */
    method RequestPage() returns (address: nat)
      requires Valid()
      modifies this, bitmap.buffer
      ensures Valid() && (State(), address) == RequestFrame(old(State()))
      ensures Rest() == old(Rest())
    {
      hide Bitmap.Contents, LockFrame;
      ghost var s := State();
      var index := lastReservedPage;
      while index < bitmap.size * 8
        invariant lastReservedPage <= index <= 8 * bitmap.size
        invariant FirstClear(s.bits, s.hint) == FirstClear(s.bits, index)
        invariant State() == s
        invariant Rest() == old(Rest())
      {
        var taken := bitmap.Get(index);
        if taken {
          index := index + 1;
          continue;
        }
        assert FirstClear(s.bits, s.hint) == index;
        LockPage(index * MEM_FRAME_SIZE);
        lastReservedPage := index;
        return index * MEM_FRAME_SIZE;
      }
      return 0;
    }

    method UnreservePage(address: nat)
      requires Valid() && address / MEM_FRAME_SIZE != 8 * bitmap.size
      modifies this, bitmap.buffer
      ensures Valid() && State() == UnreserveFrame(old(State()), address / MEM_FRAME_SIZE)
      ensures Rest() == old(Rest())
    {
      hide Bitmap.Contents, Bitmap.Behind, Wrap;
      var index := address / MEM_FRAME_SIZE;
      var taken := bitmap.Get(index);
      if !taken {
        return;
      }
      var done := bitmap.Set(index, false);
      assert bitmap.Contents() == State().bits;
      if done {
        freeMemory := Wrap(freeMemory + MEM_FRAME_SIZE);
        reservedMemory := Wrap(reservedMemory - MEM_FRAME_SIZE);
        if lastReservedPage > index {
          lastReservedPage := index;
        }
      }
    }

    method UnreservePages(address: nat, pageCount: nat)
      requires Valid() && !Within(8 * bitmap.size, address / MEM_FRAME_SIZE, pageCount)
      modifies this, bitmap.buffer
      ensures Valid() && State() == UnreserveRange(old(State()), address / MEM_FRAME_SIZE, pageCount)
      ensures Rest() == old(Rest())
    {
      hide State, Valid, UnreserveFrame;
      for i := 0 to pageCount
        invariant Valid() && State() == UnreserveRange(old(State()), address / MEM_FRAME_SIZE, i)
        invariant Rest() == old(Rest())
      {
        UnreservePage(address + i * MEM_FRAME_SIZE);
      }
    }

    method ReservePage(address: nat)
      requires Valid() && address / MEM_FRAME_SIZE != 8 * bitmap.size
      modifies this, bitmap.buffer
      ensures Valid() && State() == ReserveFrame(old(State()), address / MEM_FRAME_SIZE)
      ensures Rest() == old(Rest())
    {
      hide Bitmap.Contents, Bitmap.Behind, Wrap;
      var index := address / MEM_FRAME_SIZE;
      var taken := bitmap.Get(index);
      if taken {
        return;
      }
      var done := bitmap.Set(index, true);
      assert bitmap.Contents() == State().bits;
      if done {
        freeMemory := Wrap(freeMemory - MEM_FRAME_SIZE);
        reservedMemory := Wrap(reservedMemory + MEM_FRAME_SIZE);
      }
    }

    method ReservePages(address: nat, pageCount: nat)
      requires Valid() && !Within(8 * bitmap.size, address / MEM_FRAME_SIZE, pageCount)
      modifies this, bitmap.buffer
      ensures Valid() && State() == ReserveRange(old(State()), address / MEM_FRAME_SIZE, pageCount)
      ensures Rest() == old(Rest())
    {
      hide State, Valid, ReserveFrame;
      for i := 0 to pageCount
        invariant Valid() && State() == ReserveRange(old(State()), address / MEM_FRAME_SIZE, i)
        invariant Rest() == old(Rest())
      {
        ReservePage(address + i * MEM_FRAME_SIZE);
      }
    }

    /**
     * PFA_InitEfiMemoryMap.  `field` is the address of the variable
     * g_pageBitmap.buffer itself, which the last call locks.
     */
    method InitEfiMemoryMap(mmap: seq<Descriptor>, cache: SizeCache, field: nat)
      requires Valid() && lastReservedPage == 0
      requires !initialized ==> BootInRange(mmap, KnownTotal(cache, mmap), field)
      modifies this, bitmap, cache
      ensures Valid() && initialized
      ensures old(initialized) ==>
        State() == old(State()) && cache.memorySize == old(cache.memorySize) && Rest() == old(Rest())
      ensures !old(initialized) ==>
        && cache.memorySize == old(KnownTotal(cache, mmap))
        && State() == BootState(old(State()), mmap, cache.memorySize, field)
        && bufferAddress == LargestUsable(mmap, |mmap|).0
        && fresh(bitmap.buffer)
        && bitmap.buffer.Length == RoundToWords(BitmapSize(cache.memorySize)) && AllZero(bitmap.Behind())
    {
      hide ReserveRange, LockRange, UnreserveRange, LockFrame, ReserveFrame, UnreserveFrame, Bitmap.Contents, Wrap;
      hide LargestUsable, TotalSize, BitsOf, FirstClear, InUsable, UnreserveUsable, AllZero, Bitmap.Behind;
      hide RoundToWords;
      if initialized {
        return;
      }
      initialized := true;
      var largestFreeMem := FindLargest(mmap);
      var totalMemorySize := cache.GetTotalSize(mmap);
      freeMemory := totalMemorySize;
      var bitmapSize := totalMemorySize / (MEM_FRAME_SIZE * 8) + 1;
      InitBitmap(bitmapSize, largestFreeMem);
      ReservePages(0, totalMemorySize / MEM_FRAME_SIZE + 1);
      UnreserveUsablePages(mmap);
      ReservePages(0, 0x100);
      LockPages(field, bitmap.size / MEM_FRAME_SIZE + 1);
    }

    /** The loop that gives the usable ranges back. */
    method UnreserveUsablePages(mmap: seq<Descriptor>)
      requires Valid() && !InUsable(mmap, |mmap|, 8 * bitmap.size)
      modifies this, bitmap.buffer
      ensures Valid() && State() == UnreserveUsable(old(State()), mmap, |mmap|)
      ensures Rest() == old(Rest())
    {
      hide State, Valid, UnreserveRange;
      for i := 0 to |mmap|
        invariant Valid() && State() == UnreserveUsable(old(State()), mmap, i)
        invariant Rest() == old(Rest())
      {
        var desc := mmap[i];
        if desc.kind == 7 {
          assert !InDescriptor(desc, 8 * bitmap.size);
          UnreservePages(desc.physAddr, desc.numPages);
        }
      }
    }

    method InitBitmap(bitmapSize: nat, bufferAddress: nat)
      requires Valid() && lastReservedPage == 0
      modifies this, bitmap
      ensures Valid() && bitmap.size == bitmapSize && fresh(bitmap.buffer)
      ensures State() == old(State()).(bits := seq(8 * bitmapSize, _ => false))
      ensures this.bufferAddress == bufferAddress && initialized == old(initialized)
      ensures bitmap.buffer.Length == RoundToWords(bitmapSize) && AllZero(bitmap.Behind())
    {
      bitmap.size := bitmapSize;
      this.bufferAddress := bufferAddress;
      // The storage at that address, as far as MEM_Set64 writes.
      bitmap.buffer := new Byte[RoundToWords(bitmapSize)];
      ZeroBytes(bitmap.buffer, bitmapSize);
      assert bitmap.Contents() == seq(8 * bitmapSize, _ => false) by {
        hide Digit;
        ZeroDigits();
      }
    }
  }

  lemma ZeroDigits()
    ensures forall k {:trigger Digit(0, k)} :: k < 8 ==> Digit(0, k) == 0
  {
    forall k: nat | k < 8
      ensures Digit(0, k) == 0
    {
      ZeroDigit(k);
    }
  }
}
