/**
 Entries of the external-pointer table and of the CppHeap-pointer table: pointer, type
 tag and mark bit in one 64-bit word, and the readers that check the tag.
 */
module PointerTables {
  import opened Words
  import opened TagRanges

  // ---------------------------------------------------------------- external pointers

  const EXTERNAL_TAG_SHIFT: nat := 49
  const EXTERNAL_TAG_MASK: Word := 0x00fe_0000_0000_0000
  const EXTERNAL_PAYLOAD_MASK: Word := 0xff00_ffff_ffff_ffff
  const EXTERNAL_MARK_BIT: Word := 0x0001_0000_0000_0000

  function ExternalTag(entry: Word): nat {
    Shr(BitAnd(entry, EXTERNAL_TAG_MASK), EXTERNAL_TAG_SHIFT)
  }

  function ExternalPayload(entry: Word): nat {
    BitAnd(entry, EXTERNAL_PAYLOAD_MASK)
  }

  function ReadExternalPointer(entry: Word, range: TagRange): nat {
    var tag := ExternalTag(entry);
    if tag < TAG_LIMIT && range.Contains(tag) then ExternalPayload(entry) else 0
  }

  /** `TaggedPayload::Tag` with the external table's layout, and then the mark bit. */
  function TagExternal(pointer: Word, tag: Tag, marked: bool): nat {
    var word := BitOr(pointer, Shl(tag, EXTERNAL_TAG_SHIFT));
    if marked then BitOr(word, EXTERNAL_MARK_BIT) else word
  }

  /** What a word of the table means: the pointer's top byte and lowest 48 bits, and the
      tag and mark bit in the byte between them. */
  datatype ExternalEntry = ExternalEntry(top: nat, tag: nat, marked: bool, low: nat) {

    predicate Fits() {
      top < 0x100 && tag < 0x80 && low < TWO_48
    }

    function Middle(): nat {
      2 * tag + (if marked then 1 else 0)
    }

    function ToWord(): (w: nat)
      ensures Fits() ==> w < TWO_64
    {
      (0x100 * top + Middle()) * TWO_48 + low
    }

    function Pointer(): nat {
      0x100 * top * TWO_48 + low
    }
  }

  /** Every word is such an entry. */
  lemma EveryWordIsEntry(w: Word) returns (e: ExternalEntry)
    ensures e.Fits() && e.ToWord() == w
  {
    var high, low := w / TWO_48, w % TWO_48;
    assert w == high * TWO_48 + low && high < TWO_16;
    var top, middle := high / 0x100, high % 0x100;
    e := ExternalEntry(top, middle / 2, middle % 2 == 1, low);
  }

  /** And only one. */
  lemma EntryIsUnique(e: ExternalEntry, f: ExternalEntry)
    requires e.Fits() && f.Fits() && e.ToWord() == f.ToWord()
    ensures e == f
  {
    EntryParts(e);
    EntryParts(f);
    assert e.top == f.top && e.Middle() == f.Middle();
  }

  /** A word cut at bit 48, and the byte above it cut off. */
  lemma EntryParts(e: ExternalEntry)
    requires e.Fits()
    ensures e.ToWord() == Shl(0x100 * e.top + e.Middle(), 48) + e.low
    ensures Shr(e.ToWord(), 48) == 0x100 * e.top + e.Middle() && Low(e.ToWord(), 48) == e.low
  {
    Shl48(0x100 * e.top + e.Middle());
    Shl48(1);
    Together(0x100 * e.top + e.Middle(), e.low, 48);
  }

  lemma ByteParts(top: nat, byte: nat)
    requires byte < 0x100
    ensures Shr(0x100 * top + byte, 8) == top && Low(0x100 * top + byte, 8) == byte
  {
    Shl8(top);
    Shl8(1);
    Together(top, byte, 8);
  }

  /** A mask with a field above bit 48 selects the two parts of an entry apart. */
  lemma EntryMask(e: ExternalEntry, high: nat, low: nat)
    requires e.Fits() && low < TWO_48
    ensures BitAnd(e.ToWord(), high * TWO_48 + low) ==
            BitAnd(0x100 * e.top + e.Middle(), high) * TWO_48 + BitAnd(e.low, low)
  {
    EntryParts(e);
    Shl48(high);
    Shl48(1);
    AndParts(0x100 * e.top + e.Middle(), high, e.low, low, 48);
    Shl48(BitAnd(0x100 * e.top + e.Middle(), high));
  }

  lemma MaskByte(top: nat, byte: nat, mask: nat)
    requires byte < 0x100 && mask < 0x100
    ensures BitAnd(0x100 * top + byte, mask) == BitAnd(byte, mask)
  {
    Shl8(top);
    Shl8(1);
    MaskLow(top, byte, mask, 8);
  }

  lemma LowByteMask(top: nat, byte: nat)
    requires byte < 0x100
    ensures BitAnd(0x100 * top + byte, 0xfe) == byte - byte % 2
  {
    MaskByte(top, byte, 0xfe);
    EvenMask(byte);
  }

  lemma HighByteMask(top: nat, byte: nat)
    requires top < 0x100 && byte < 0x100
    ensures BitAnd(0x100 * top + byte, 0xff00) == 0x100 * top
  {
    ByteParts(top, byte);
    Shl8(0xff);
    MaskHigh(0x100 * top + byte, 0xff, 8);
    ByteKept(top);
    Shl8(top);
  }

  lemma ByteKept(byte: nat)
    requires byte < 0x100
    ensures BitAnd(byte, 0xff) == byte
  {
    Shl8(1);
    OnesValue(8);
    FieldKept(byte, 8);
  }

  lemma EvenMask(byte: nat)
    requires byte < 0x100
    ensures BitAnd(byte, 0xfe) == byte - byte % 2
  {
    AndStep(byte, 0xfe);
    assert Shl(1, 7) == 128 && Ones(7) == 127;
    FieldKept(byte / 2, 7);
  }

  lemma EntryHighMask(e: ExternalEntry, high: nat)
    requires e.Fits()
    ensures BitAnd(e.ToWord(), high * TWO_48) == BitAnd(0x100 * e.top + e.Middle(), high) * TWO_48
  {
    EntryParts(e);
    Shl48(high);
    MaskHigh(e.ToWord(), high, 48);
    Shl48(BitAnd(0x100 * e.top + e.Middle(), high));
  }

  lemma MaskedTag(e: ExternalEntry)
    requires e.Fits()
    ensures BitAnd(e.ToWord(), EXTERNAL_TAG_MASK) == 2 * e.tag * TWO_48
  {
    EntryHighMask(e, 0xfe);
    LowByteMask(e.top, e.Middle());
  }

  /** The tag field reads back, whatever the pointer and the mark bit. */
  lemma ExternalTagOf(e: ExternalEntry)
    requires e.Fits()
    ensures ExternalTag(e.ToWord()) == e.tag
  {
    MaskedTag(e);
    Shl48(e.tag);
    Shl48(1);
    Together(e.tag, 0, 49);
  }

  lemma LowKept(low: nat)
    requires low < TWO_48
    ensures BitAnd(low, TWO_48 - 1) == low
  {
    OnesValue(48);
    Shl48(1);
    FieldKept(low, 48);
  }

  /** The pointer reads back, whatever the tag and the mark bit. */
  lemma ExternalPayloadOf(e: ExternalEntry)
    requires e.Fits()
    ensures ExternalPayload(e.ToWord()) == e.Pointer()
  {
    EntryMask(e, 0xff00, TWO_48 - 1);
    HighByteMask(e.top, e.Middle());
    LowKept(e.low);
  }

  /** For every entry, marked or not, and every range: the pointer if the range accepts
      the tag, and null otherwise. */
  lemma ReadExternalIsExact(e: ExternalEntry, range: TagRange)
    requires e.Fits()
    ensures ReadExternalPointer(e.ToWord(), range) == if range.Contains(e.tag) then e.Pointer() else 0
  {
    ExternalTagOf(e);
    ExternalPayloadOf(e);
  }

  /** Setting bits in the byte above bit 48. */
  lemma EntryOr(high: nat, byte: nat, low: nat)
    requires low < TWO_48
    ensures BitOr(high * TWO_48 + low, byte * TWO_48) == BitOr(high, byte) * TWO_48 + low
  {
    Shl48(1);
    Shl48(high);
    Shl48(byte);
    OrSplit(high, byte, low, 0, 48);
    assert BitOr(low, 0) == low;
    Shl48(BitOr(high, byte));
  }

  lemma OrByte(top: nat, byte: nat)
    requires byte < 0x100
    ensures BitOr(0x100 * top, byte) == 0x100 * top + byte
  {
    Shl8(top);
    Shl8(1);
    OrDisjoint(top, byte, 8);
  }

  lemma OrLowestBit(half: nat)
    ensures BitOr(2 * half, 1) == 2 * half + 1
  {
    Shl8(half);
    OrDisjoint(half, 1, 1);
  }

  lemma TaggedUnmarked(e: ExternalEntry)
    requires e.Fits() && !e.marked
    ensures BitOr(e.Pointer(), Shl(e.tag, 49)) == e.ToWord()
  {
    EntryOr(0x100 * e.top, 2 * e.tag, e.low);
    Shl48(e.tag);
    OrByte(e.top, 2 * e.tag);
  }

  lemma MarkedEntry(e: ExternalEntry)
    requires e.Fits() && e.marked
    ensures BitOr(e.(marked := false).ToWord(), EXTERNAL_MARK_BIT) == e.ToWord()
  {
    EntryOr(0x100 * e.top + 2 * e.tag, 1, e.low);
    OrLowestBit(0x80 * e.top + e.tag);
  }

  /** Tagging a pointer whose bits 48 to 55 are clear, and marking it. */
  lemma TagExternalIsEntry(e: ExternalEntry)
    requires e.Fits()
    ensures TagExternal(e.Pointer(), e.tag, e.marked) == e.ToWord()
  {
    TaggedUnmarked(e.(marked := false));
    if e.marked {
      MarkedEntry(e);
    }
  }

  /** Storing a pointer under a tag and reading it back gives the pointer if and only if
      the range contains the tag, and null otherwise, marked or not. */
  lemma ExternalRoundTrip(e: ExternalEntry, range: TagRange)
    requires e.Fits()
    ensures var entry := TagExternal(e.Pointer(), e.tag, e.marked);
            entry < TWO_64 && ReadExternalPointer(entry, range) == if range.Contains(e.tag) then e.Pointer() else 0
  {
    TagExternalIsEntry(e);
    ReadExternalIsExact(e, range);
  }

  // ---------------------------------------------------------------- CppHeap pointers

  const CPPHEAP_TAG_MASK: Word := 0xfffe

  /** The table's own reader. */
  function UntagCppHeap(entry: Word, range: TagRange): nat {
    var tag := Shr(BitAnd(entry, CPPHEAP_TAG_MASK), 1);
    if tag < TAG_LIMIT && range.Contains(tag) then Shr(entry, 16) else 0
  }

  /** The reader that is inlined into bindings: it compares the tag together with the mark
      bit against a shifted range. */
  function ReadCppHeapPointer(entry: Word, range: TagRange): nat {
    var actual := entry % TWO_16;
    var first := Shl(range.first, 1) % TWO_32;
    var last := (Shl(range.last, 1) + 1) % TWO_32;
    if first <= actual <= last then Shr(entry, 16) else 0
  }

  function TagCppHeap(pointer: nat, tag: Tag, marked: bool): nat
    requires pointer < TWO_48
  {
    var word := BitOr(Shl(pointer, 16), Shl(tag, 1));
    if marked then BitOr(word, 1) else word
  }

  datatype CppHeapEntry = CppHeapEntry(pointer: nat, tag: nat, marked: bool) {

    predicate Fits() {
      pointer < TWO_48 && tag < 0x8000
    }

    function Low16(): nat {
      2 * tag + (if marked then 1 else 0)
    }

    function ToWord(): (w: nat)
      ensures Fits() ==> w < TWO_64
    {
      pointer * TWO_16 + Low16()
    }
  }

  lemma EveryWordIsCppHeapEntry(w: Word) returns (e: CppHeapEntry)
    ensures e.Fits() && e.ToWord() == w
  {
    var high, low := w / TWO_16, w % TWO_16;
    assert w == high * TWO_16 + low && high < TWO_48;
    e := CppHeapEntry(high, low / 2, low % 2 == 1);
  }

  lemma CppHeapParts(e: CppHeapEntry)
    requires e.Fits()
    ensures Shr(e.ToWord(), 16) == e.pointer && Low(e.ToWord(), 16) == e.Low16()
    ensures e.ToWord() % TWO_16 == e.Low16()
  {
    Shl16(e.pointer);
    Shl16(1);
    Together(e.pointer, e.Low16(), 16);
  }

  lemma EvenMask16(x: nat)
    requires x < TWO_16
    ensures BitAnd(x, CPPHEAP_TAG_MASK) == x - x % 2
  {
    AndStep(x, CPPHEAP_TAG_MASK);
    Ones15();
    FieldKept(x / 2, 15);
  }

  lemma Ones15()
    ensures Shl(1, 15) == 0x8000 && Ones(15) == 0x7fff
  {
    Shl16(1);
    assert Shl(1, 16) == 2 * Shl(1, 15);
    OnesValue(15);
  }

  lemma MaskLow16(hi: nat, lo: nat, mask: nat)
    requires lo < TWO_16 && mask < TWO_16
    ensures BitAnd(hi * TWO_16 + lo, mask) == BitAnd(lo, mask)
  {
    Shl16(hi);
    Shl16(1);
    MaskLow(hi, lo, mask, 16);
  }

  lemma MaskedCppHeapTag(e: CppHeapEntry)
    requires e.Fits()
    ensures BitAnd(e.ToWord(), CPPHEAP_TAG_MASK) == 2 * e.tag
  {
    MaskLow16(e.pointer, e.Low16(), CPPHEAP_TAG_MASK);
    EvenMask16(e.Low16());
  }

  lemma CppHeapTagOf(e: CppHeapEntry)
    requires e.Fits()
    ensures Shr(BitAnd(e.ToWord(), CPPHEAP_TAG_MASK), 1) == e.tag
  {
    MaskedCppHeapTag(e);
    Shr1(2 * e.tag);
  }

  lemma UntagIsExact(e: CppHeapEntry, range: TagRange)
    requires e.Fits()
    ensures UntagCppHeap(e.ToWord(), range) == if range.Contains(e.tag) then e.pointer else 0
  {
    CppHeapTagOf(e);
    CppHeapParts(e);
  }

  /** The inlined reader, on every entry and every range: the two-sided test on the tag,
      which never accepts on a range written the wrong way round. */
  lemma InlinedIsExact(e: CppHeapEntry, range: TagRange)
    requires e.Fits()
    ensures ReadCppHeapPointer(e.ToWord(), range) == if range.first <= e.tag <= range.last then e.pointer else 0
  {
    CppHeapParts(e);
    Shl8(range.first);
    Shl8(range.last);
  }

  /** For every entry and every well-formed range: the pointer if the range accepts the
      tag, whatever the mark bit, and null otherwise. */
  lemma ReadCppHeapIsExact(e: CppHeapEntry, range: TagRange)
    requires e.Fits() && range.WellFormed()
    ensures ReadCppHeapPointer(e.ToWord(), range) == if range.Contains(e.tag) then e.pointer else 0
  {
    InlinedIsExact(e, range);
    ContainsIsBetween(range, e.tag);
  }

  ghost predicate ReadersAgree(entry: Word, range: TagRange) {
    ReadCppHeapPointer(entry, range) == UntagCppHeap(entry, range)
  }

  /** The inlined reader and the table's reader give the same pointer for every entry if
      and only if the range is not written the wrong way round. */
  lemma ReadersAgreeIff(range: TagRange)
    ensures (forall entry: Word :: ReadersAgree(entry, range)) <==> range.WellFormed()
  {
    if range.WellFormed() {
      forall entry: Word ensures ReadersAgree(entry, range) {
        var e := EveryWordIsCppHeapEntry(entry);
        ReadCppHeapIsExact(e, range);
        UntagIsExact(e, range);
      }
    } else {
      ReadersDisagree(range);
    }
  }

  lemma ReadersDisagree(range: TagRange)
    requires !range.WellFormed()
    ensures !ReadersAgree(TWO_16, range)
  {
    var e := CppHeapEntry(1, 0, false);
    assert e.ToWord() == TWO_16;
    UntagIsExact(e, range);
    InlinedIsExact(e, range);
    ContainsIsBetween(range, 0);
  }

  /** The null handle's entry reads as null under every range. */
  lemma NullEntryIsNull(range: TagRange)
    ensures ReadCppHeapPointer(0, range) == 0 && UntagCppHeap(0, range) == 0
  {
    var e := CppHeapEntry(0, 0, false);
    UntagIsExact(e, range);
    InlinedIsExact(e, range);
  }

  lemma TagCppHeapIsEntry(e: CppHeapEntry)
    requires e.Fits()
    ensures TagCppHeap(e.pointer, e.tag, e.marked) == e.ToWord()
  {
    Shl16(e.pointer);
    Shl16(1);
    Shl8(e.tag);
    OrDisjoint(e.pointer, 2 * e.tag, 16);
    if e.marked {
      OrLowestBit(e.pointer * 0x8000 + e.tag);
    }
  }

  lemma CppHeapRoundTrip(e: CppHeapEntry, range: TagRange)
    requires e.Fits() && range.WellFormed()
    ensures var entry := TagCppHeap(e.pointer, e.tag, e.marked);
            entry < TWO_64 && ReadCppHeapPointer(entry, range) == if range.Contains(e.tag) then e.pointer else 0
  {
    TagCppHeapIsEntry(e);
    ReadCppHeapIsExact(e, range);
  }

  // ---------------------------------------------------------------- table indices

  const ENTRY_SIZE: nat := 8

  /** Index shift and reservation size, by platform. */
  datatype Platform = Android | Ios | Other {

    function IndexShift(): nat {
      match this
      case Android => 7
      case Ios => 8
      case Other => 6
    }

    function ReservationSize(): nat {
      match this
      case Android => 256 * 1024 * 1024
      case Ios => 128 * 1024 * 1024
      case Other => 512 * 1024 * 1024
    }
  }

  /** Every 32-bit handle, whatever its value, leads to an entry inside the reservation. */
  lemma EveryHandleInTable(handle: nat, p: Platform)
    requires handle < TWO_32
    ensures (Shr(handle, p.IndexShift()) + 1) * ENTRY_SIZE <= p.ReservationSize()
  {
    Shl32(1);
    ShrBound(handle, p.IndexShift(), 32 - p.IndexShift());
    TableSize(p);
  }

  lemma TableSize(p: Platform)
    ensures Shl(1, 32 - p.IndexShift()) * ENTRY_SIZE == p.ReservationSize()
  {
    Shl8(0x1_0000);
    Shl8(1);
    Shl16(1);
    ShlAdd(1, 16, 8);
    assert Shl(1, 25) == 2 * Shl(1, 24) && Shl(1, 26) == 2 * Shl(1, 25);
  }
}
