/**
 Pointers and sizes stored shifted to the left, so that every stored word, whatever it is,
 decodes to something in bounds; and the accesses computed from them.
 */
module SandboxBounds {
  import opened Words

  const GB: nat := 0x4000_0000
  const BOUNDED_SIZE_SHIFT: nat := 29
  const MAX_SAFE_BUFFER_SIZE: nat := 32 * GB - 1
  const GUARD_REGION_SIZE: nat := 32 * GB + (MAX_SAFE_BUFFER_SIZE + 1)
  const ADDITIONAL_TRAILING_GUARD_REGION_SIZE: nat := 288 * GB - GUARD_REGION_SIZE

  /** A sandbox of 2^log2 bytes that, with its guard regions, fits the address space. */
  datatype Sandbox = Sandbox(base: Word, log2: nat) {

    function Size(): nat {
      Shl(1, log2)
    }

    predicate Fits() {
      log2 <= 64 && base + Size() + 288 * GB <= TWO_64
    }

    predicate Contains(pointer: nat) {
      base <= pointer < base + Size()
    }

    function Shift(): nat
      requires log2 <= 64
    {
      64 - log2
    }

    function ReadPointer(stored: Word): Word
      requires log2 <= 64
    {
      (base + Shr(stored, Shift())) % TWO_64
    }

    /** `WriteSandboxedPointerField`, which insists on a pointer into the sandbox. */
    function WritePointer(pointer: nat): Word
      requires log2 <= 64 && Contains(pointer)
    {
      Shl(pointer - base, Shift()) % TWO_64
    }
  }

  function ReadBoundedSize(stored: Word): nat {
    Shr(stored, BOUNDED_SIZE_SHIFT)
  }

  function WriteBoundedSize(value: nat): Word {
    Shl(value, BOUNDED_SIZE_SHIFT) % TWO_64
  }

  lemma OffsetBound(s: Sandbox, stored: Word)
    requires s.log2 <= 64
    ensures Shr(stored, s.Shift()) < s.Size()
  {
    Shl64();
    ShrBound(stored, s.Shift(), s.log2);
  }

  /** Any stored word is a pointer into the sandbox. */
  lemma EveryWordPointsInside(s: Sandbox, stored: Word)
    requires s.Fits()
    ensures s.Contains(s.ReadPointer(stored))
    ensures s.ReadPointer(stored) == s.base + Shr(stored, s.Shift())
  {
    OffsetBound(s, stored);
  }

  lemma WriteHasRoom(s: Sandbox, pointer: nat)
    requires s.Fits() && s.Contains(pointer)
    ensures s.WritePointer(pointer) == Shl(pointer - s.base, s.Shift())
  {
    Shl64();
    ShlBound(pointer - s.base, s.Shift(), s.log2);
  }

  /** What is written is read back. */
  lemma PointerRoundTrip(s: Sandbox, pointer: nat)
    requires s.Fits() && s.Contains(pointer)
    ensures s.ReadPointer(s.WritePointer(pointer)) == pointer
  {
    var stored := s.WritePointer(pointer);
    assert Shr(stored, s.Shift()) == pointer - s.base by {
      WriteHasRoom(s, pointer);
      ShlZero(s.Shift());
      Together(pointer - s.base, 0, s.Shift());
    }
    EveryWordPointsInside(s, stored);
  }

  /** What is read and written back is the stored word without the bits that the shift drops. */
  lemma WordRoundTrip(s: Sandbox, stored: Word)
    requires s.Fits()
    ensures s.ReadPointer(stored) >= s.base && s.Contains(s.ReadPointer(stored))
    ensures s.WritePointer(s.ReadPointer(stored)) == stored - Low(stored, s.Shift())
  {
    EveryWordPointsInside(s, stored);
    WriteHasRoom(s, s.ReadPointer(stored));
    Apart(stored, s.Shift());
  }

  lemma BoundedSizeLimit()
    ensures Shl(1, 35) == 32 * GB
  {
    Shl32(1);
    ShlAdd(1, 32, 3);
    assert Shl(TWO_32, 0) == TWO_32 && Shl(TWO_32, 1) == 2 * TWO_32 && Shl(TWO_32, 2) == 4 * TWO_32;
    assert Shl(TWO_32, 3) == 2 * Shl(TWO_32, 2);
  }

  /** Any stored word is a size within the limit. */
  lemma EveryWordIsBounded(stored: Word)
    ensures ReadBoundedSize(stored) <= MAX_SAFE_BUFFER_SIZE
  {
    BoundedSizeLimit();
    Shl64();
    ShrBound(stored, BOUNDED_SIZE_SHIFT, 35);
  }

  lemma BoundedSizeReadBack(value: nat)
    requires value <= MAX_SAFE_BUFFER_SIZE
    ensures ReadBoundedSize(WriteBoundedSize(value)) == value
  {
    assert WriteBoundedSize(value) == Shl(value, BOUNDED_SIZE_SHIFT) by {
      BoundedSizeLimit();
      Shl64();
      ShlBound(value, BOUNDED_SIZE_SHIFT, 35);
    }
    ShlZero(BOUNDED_SIZE_SHIFT);
    Together(value, 0, BOUNDED_SIZE_SHIFT);
  }

  /** A size is read back if and only if it is within the limit. */
  lemma BoundedSizeRoundTrip(value: nat)
    ensures ReadBoundedSize(WriteBoundedSize(value)) == value <==> value <= MAX_SAFE_BUFFER_SIZE
  {
    EveryWordIsBounded(WriteBoundedSize(value));
    if value <= MAX_SAFE_BUFFER_SIZE {
      BoundedSizeReadBack(value);
    }
  }

  // ---------------------------------------------------------------- accesses

  /** `base + offset + index * element_size`, base and offset as stored. */
  function ElementAddress(s: Sandbox, pointer: Word, offset: Word, index: nat, size: nat): nat
    requires s.log2 <= 64
  {
    s.ReadPointer(pointer) + ReadBoundedSize(offset) + index * size
  }

  /** With a pointer and an offset that were stored, the address is theirs plus the scaled
      index. */
  lemma ElementAddressOfStored(s: Sandbox, pointer: nat, offset: nat, index: nat, size: nat)
    requires s.Fits() && s.Contains(pointer) && offset <= MAX_SAFE_BUFFER_SIZE
    ensures ElementAddress(s, s.WritePointer(pointer), WriteBoundedSize(offset), index, size) == pointer + offset + index * size
  {
    PointerRoundTrip(s, pointer);
    BoundedSizeReadBack(offset);
  }

  /** The guard region is as small as it can be, up to two bytes: the last byte of the
      sandbox, the largest offset and the largest index reach that far. */
  lemma GuardIsNeeded(s: Sandbox, last: nat)
    requires s.Fits() && last + 1 == s.base + s.Size()
    ensures s.Contains(last)
    ensures ElementAddress(s, s.WritePointer(last), WriteBoundedSize(MAX_SAFE_BUFFER_SIZE), TWO_32 - 1, 8) + 8
            == s.base + s.Size() + GUARD_REGION_SIZE - 2
  {
    ShlZero(s.log2);
    ElementAddressOfStored(s, last, MAX_SAFE_BUFFER_SIZE, TWO_32 - 1, 8);
  }

  lemma Scaled(index: nat, size: nat, limit: nat)
    requires index < limit && 0 < size <= 8
    ensures index * size + size <= 8 * limit
  {
    assert index * size + size == (index + 1) * size;
    assert (index + 1) * size <= (index + 1) * 8;
  }

  lemma AccessWithin(s: Sandbox, pointer: Word, offset: Word, index: nat, size: nat, limit: nat)
    requires s.Fits() && 0 < size <= 8 && index < limit
    ensures s.base <= ElementAddress(s, pointer, offset, index, size)
    ensures ElementAddress(s, pointer, offset, index, size) + size <= s.base + s.Size() + 32 * GB + 8 * limit
  {
    var scaled: nat := index * size;
    assert scaled + size <= 8 * limit by {
      Scaled(index, size, limit);
    }
    assert s.base <= s.ReadPointer(pointer) < s.base + s.Size() by {
      EveryWordPointsInside(s, pointer);
    }
    assert ReadBoundedSize(offset) < 32 * GB by {
      EveryWordIsBounded(offset);
    }
  }

  /** Whatever is stored in the two fields: an element of at most 8 bytes at a 32-bit index
      lies inside the sandbox or its guard region. */
  lemma AccessStaysGuarded(s: Sandbox, pointer: Word, offset: Word, index: nat, size: nat)
    requires s.Fits() && 0 < size <= 8 && index < TWO_32
    ensures s.base <= ElementAddress(s, pointer, offset, index, size)
    ensures ElementAddress(s, pointer, offset, index, size) + size <= s.base + s.Size() + GUARD_REGION_SIZE
  {
    AccessWithin(s, pointer, offset, index, size, TWO_32);
  }

  /** At an index up to the largest buffer size, it lies inside the trailing 288 GB. */
  lemma AccessStaysTrailing(s: Sandbox, pointer: Word, offset: Word, index: nat, size: nat)
    requires s.Fits() && 0 < size <= 8 && index <= MAX_SAFE_BUFFER_SIZE
    ensures s.base <= ElementAddress(s, pointer, offset, index, size)
    ensures ElementAddress(s, pointer, offset, index, size) + size
            <= s.base + s.Size() + GUARD_REGION_SIZE + ADDITIONAL_TRAILING_GUARD_REGION_SIZE
  {
    AccessWithin(s, pointer, offset, index, size, 32 * GB);
  }
}
