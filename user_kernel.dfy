/** The memory side of the user kernel: the address-offset constants that
    boot derives from the processor's page size, and the global list of
    free physical pages with its two operations. The Java class keeps these
    as static fields; here they are the fields of one UserKernel object. */
module Kernel {
  import opened JavaInt
  import opened FreePages

  class UserKernel {
    /** Number of offset bits in a virtual address. */
    var offLength: int32
    /** offLength one-bits: the mask that extracts a page offset. */
    var offMask: int32
    /** Free physical page numbers, in the order newPage hands them out. */
    var availablePages: seq<int32>

    /** A kernel before boot: the fields hold Java's default values for the
        static fields, so the list is empty and every offset is 0. */
    constructor ()
      ensures Valid()
      ensures offLength == 0 && offMask == 0 && availablePages == []
    {
      offLength, offMask, availablePages := 0, 0, [];
    }

    /** The offset constants as initialize leaves them. */
    ghost predicate Valid()
      reads this
    {
      0 <= offLength < 31 && offMask as int == Pow2(offLength as nat) - 1
    }

    /** Boot: find offLength with pageSize >> offLength == 1, derive the mask,
        and queue every physical page in ascending order. The search ends for
        every positive page size, at the floor of its base-2 logarithm; only
        for a power of two is the mask pageSize - 1. */
    method Initialize(pageSize: int32, numPhysPages: int32)
      requires 0 < pageSize
      modifies this
      ensures Valid()
      ensures ShiftRight(pageSize, offLength as int) == 1
      ensures Pow2(offLength as nat) <= pageSize as int < Pow2(offLength as nat + 1)
      ensures IsPowerOfTwo(pageSize as int) <==> pageSize as int == Pow2(offLength as nat)
      ensures IsPowerOfTwo(pageSize as int) ==> offMask == pageSize - 1
      ensures availablePages == Ascending(numPhysPages)
    {
      offLength := 0;
      while true
        invariant 0 <= offLength && Pow2(offLength as nat) <= pageSize as int
        decreases pageSize as int - Pow2(offLength as nat)
      {
        assert offLength < 31 by {
          if offLength >= 31 {
            Pow2Exceeds31(offLength as nat);
          }
        }
        ShiftIsOne(pageSize, offLength as nat);
        if ShiftRight(pageSize, offLength as int) == 1 {
          // 1 << offLength does not wrap for offLength < 31
          offMask := (Pow2(offLength as nat) - 1) as int32;
          break;
        }
        offLength := offLength + 1;
      }
      PowerOfTwoInOctave(pageSize as int, offLength as nat);

      ghost var length, mask := offLength, offMask;
      availablePages := [];
      var i: int32 := 0;
      while i < numPhysPages
        invariant offLength == length && offMask == mask
        invariant 0 <= i && (i <= numPhysPages || i == 0)
        invariant availablePages == Ascending(i)
      {
        availablePages := availablePages + [i];
        i := i + 1;
      }
    }

    /** The offset of an address within its page: its offLength low bits,
        which for a negative address too is its remainder modulo the page size. */
    function GetOffset(virtualAddr: int32): (r: int32)
      reads this
      requires Valid()
      ensures 0 <= r as int < Pow2(offLength as nat)
      ensures r as int == virtualAddr as int % Pow2(offLength as nat)
    {
      LowBitsMask(virtualAddr as int, offLength as nat);
      BitAnd(virtualAddr as int, offMask as int) as int32
    }

    /** Take the page at the head of the free list, or report exhaustion
        with NoPage and leave the list alone. */
    method NewPage() returns (pageNumber: int32)
      modifies this`availablePages
      ensures old(availablePages) == [] ==> pageNumber == NoPage && availablePages == []
      ensures old(availablePages) != [] ==>
        pageNumber == old(availablePages)[0] && availablePages == old(availablePages)[1..]
      ensures TakeFirst(old(availablePages)) == Taken(pageNumber, availablePages)
    {
      pageNumber := NoPage;
      if |availablePages| > 0 {
        pageNumber := availablePages[0];
        availablePages := availablePages[1..];
      }
    }

    /** Queue a page at the tail of the free list, without a range or
        duplicate check; always reports success. */
    method DeletePage(pageNumber: int32) returns (isPageDeleted: bool)
      modifies this`availablePages
      ensures isPageDeleted
      ensures availablePages == old(availablePages) + [pageNumber]
    {
      availablePages := availablePages + [pageNumber];
      isPageDeleted := true;
    }
  }

  /** Taking the offset of an offset changes nothing. */
  lemma GetOffsetIdempotent(k: UserKernel, virtualAddr: int32)
    requires k.Valid()
    ensures k.GetOffset(k.GetOffset(virtualAddr)) == k.GetOffset(virtualAddr)
  {
    var p := Pow2(k.offLength as nat);
    var r := k.GetOffset(virtualAddr);
    ModUnique(r as int, p, 0, r as int);
  }

  /** With 1024-byte pages (offLength 10) the offset of 0x4FF is 0xFF, and
      that of -1 is 0x3FF: the mask keeps low bits of the two's complement. */
  lemma GetOffsetWith1024BytePages(k: UserKernel)
    requires k.Valid() && k.offLength == 10
    ensures k.GetOffset(0x4FF) == 0xFF
    ensures k.GetOffset(-1) == 0x3FF
  {
    assert Pow2(10) == 0x400;
    ModUnique(0x4FF, 0x400, 1, 0xFF);
    ModUnique(-1, 0x400, -1, 0x3FF);
  }
}
