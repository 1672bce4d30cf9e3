/**
 Compressed tagged values, and the slot through which a callback returns a number: which
 number the slot holds after each of the integer setters.
 */
module ReturnValues {
  import opened Basics
  import opened Words
  import opened SmiTagging

  // ---------------------------------------------------------------- pointer compression

  const CAGE_MASK: Word := 0xffff_ffff_0000_0000

  function CageBase(address: Word): nat {
    BitAnd(address, CAGE_MASK)
  }

  function Compress(value: Word): (c: nat)
    ensures c < TWO_32
  {
    value % TWO_32
  }

  function Decompress(address: Word, compressed: nat): nat
    requires compressed < TWO_32
  {
    (CageBase(address) + compressed) % TWO_64
  }

  predicate SameCage(x: Word, y: Word) {
    x / TWO_32 == y / TWO_32
  }

  lemma HalfKept(half: nat)
    requires half < TWO_32
    ensures BitAnd(half, 0xffff_ffff) == half
  {
    Shl32(1);
    OnesValue(32);
    FieldKept(half, 32);
  }

  lemma CageBaseIsAligned(address: Word)
    ensures CageBase(address) == address / TWO_32 * TWO_32
  {
    var half := address / TWO_32;
    assert half < TWO_32;
    Shl32(0xffff_ffff);
    Shr32(address);
    MaskHigh(address, 0xffff_ffff, 32);
    HalfKept(half);
    Shl32(half);
  }

  /** The upper half is the cage's, the lower half the value's. */
  lemma DecompressHalves(address: Word, value: Word)
    ensures var r := Decompress(address, Compress(value));
            r < TWO_64 && r / TWO_32 == address / TWO_32 && r % TWO_32 == value % TWO_32
  {
    CageBaseIsAligned(address);
    var high, low := address / TWO_32, value % TWO_32;
    assert high < TWO_32;
    assert Decompress(address, low) == high * TWO_32 + low;
  }

  /** A value comes back whole if and only if it lies in the cage of the address it is
      decompressed with. */
  lemma DecompressIsInverseIff(address: Word, value: Word)
    ensures Decompress(address, Compress(value)) == value <==> SameCage(address, value)
  {
    DecompressHalves(address, value);
    var r := Decompress(address, Compress(value));
    assert r == r / TWO_32 * TWO_32 + r % TWO_32;
    assert value == value / TWO_32 * TWO_32 + value % TWO_32;
  }

  // ---------------------------------------------------------------- integers as doubles

  const TWO_53: nat := 0x20_0000_0000_0000

  /** The spacing of the doubles around `n`. */
  function Quantum(n: nat): (q: nat)
    ensures q > 0
  {
    if n < TWO_53 then 1 else 2 * Quantum(n / 2)
  }

  /** Nearest multiple of the spacing, ties to the even one. */
  function RoundTo(n: nat, q: nat): nat
    requires q > 0
  {
    var m, r := n / q, n % q;
    if 2 * r > q || (2 * r == q && m % 2 == 1) then (m + 1) * q else m * q
  }

  function ToDouble(value: int): int {
    if value < 0 then -(RoundTo(-value, Quantum(-value)) as int) else RoundTo(value, Quantum(value))
  }

  function Magnitude(value: int): nat {
    if value < 0 then -value else value
  }

  /** The numbers that a double's 53 bits and exponent can express. */
  ghost predicate Representable(n: nat) {
    exists m: nat, k: nat :: m < TWO_53 && n == Shl(m, k)
  }

  lemma RoundIsExactIff(n: nat, q: nat)
    requires q > 0
    ensures RoundTo(n, q) == n <==> n % q == 0
  {
    var m, r := n / q, n % q;
    assert n == m * q + r;
    assert (m + 1) * q == m * q + q;
  }

  /** The spacing is that of numbers with 53 bits. */
  lemma {:induction false} QuantumSpacing(n: nat)
    requires n >= TWO_53
    ensures TWO_53 / 2 * Quantum(n) <= n < TWO_53 * Quantum(n)
  {
    if n / 2 < TWO_53 {
      assert Quantum(n / 2) == 1;
    } else {
      QuantumSpacing(n / 2);
    }
  }

  /** Rounding goes to a multiple of the spacing, and no multiple is nearer. */
  lemma RoundIsNearest(n: nat, q: nat)
    requires q > 0
    ensures RoundTo(n, q) == n / q * q || RoundTo(n, q) == (n / q + 1) * q
    ensures 2 * Magnitude(RoundTo(n, q) - n) <= q
  {
    var m, r := n / q, n % q;
    assert n == m * q + r;
    assert (m + 1) * q == m * q + q;
  }

  /** A number halfway between two multiples goes to the even one. */
  lemma TiesToEven(n: nat, q: nat)
    requires q > 0 && 2 * (n % q) == q
    ensures RoundTo(n, q) % (2 * q) == 0
  {
    var m := n / q;
    assert m * q % (2 * q) == 0 <== m % 2 == 0 by {
      if m % 2 == 0 {
        EvenTimes(m, q);
      }
    }
    assert (m + 1) * q % (2 * q) == 0 <== m % 2 == 1 by {
      if m % 2 == 1 {
        EvenTimes(m + 1, q);
      }
    }
  }

  lemma EvenTimes(m: nat, q: nat)
    requires q > 0 && m % 2 == 0
    ensures m * q % (2 * q) == 0
  {
    assert m * q == 2 * q * (m / 2) + 0 by {
      assert m == 2 * (m / 2);
    }
    DivUnique(m * q, 2 * q, m / 2, 0);
  }

  /** Quotient and remainder are unique. */
  lemma SameQuotient(q: nat, d: nat, r: nat, e: nat, s: nat)
    requires q * d + r == q * e + s && r < q && s < q
    ensures d == e && r == s
  {
    if d < e {
      Multiples(q, d, e - d);
    } else if e < d {
      Multiples(q, e, d - e);
    }
  }

  lemma Multiples(q: nat, d: nat, more: nat)
    requires more > 0
    ensures q * (d + more) >= q * d + q
  {
    assert q * (d + more) == q * d + q * more;
    assert q * more == q + q * (more - 1);
  }

  lemma DivUnique(x: nat, q: nat, d: nat, r: nat)
    requires x == q * d + r && r < q
    ensures x / q == d && x % q == r
  {
    assert q * (x / q) + x % q == x;
    SameQuotient(q, d, r, x / q, x % q);
  }

  lemma EvenMultiple(n: nat, q: nat)
    requires q > 0
    ensures n % (2 * q) == 0 <==> n % 2 == 0 && n / 2 % q == 0
  {
    var d, r := n / (2 * q), n % (2 * q);
    assert n == 2 * (q * d) + r by {
      assert n == 2 * q * d + r;
    }
    assert n / 2 == q * d + r / 2;
    DivUnique(n / 2, q, d, r / 2);
  }

  /** The multiples of their spacing are the numbers with a 53-bit significand. */
  lemma {:induction false} MultipleIsRepresentable(n: nat)
    requires n % Quantum(n) == 0
    ensures Representable(n)
  {
    if n < TWO_53 {
      assert n == Shl(n, 0);
    } else {
      EvenMultiple(n, Quantum(n / 2));
      MultipleIsRepresentable(n / 2);
      var m: nat, k: nat :| m < TWO_53 && n / 2 == Shl(m, k);
      assert n == Shl(m, k + 1);
    }
  }

  lemma {:induction false} RepresentableIsMultiple(n: nat, m: nat, k: nat)
    requires m < TWO_53 && n == Shl(m, k)
    ensures n % Quantum(n) == 0
    decreases k
  {
    if n < TWO_53 {
    } else {
      assert n / 2 == Shl(m, k - 1);
      RepresentableIsMultiple(n / 2, m, k - 1);
      EvenMultiple(n, Quantum(n / 2));
    }
  }

  /** An integer is a double if and only if it has a 53-bit significand, and so whenever it
      is at most 2^53. */
  lemma DoubleIsExactIff(value: int)
    ensures ToDouble(value) == value <==> Representable(Magnitude(value))
    ensures Magnitude(value) <= TWO_53 ==> ToDouble(value) == value
  {
    var n := Magnitude(value);
    RoundIsExactIff(n, Quantum(n));
    if n % Quantum(n) == 0 {
      MultipleIsRepresentable(n);
    }
    if m: nat, k: nat :| m < TWO_53 && n == Shl(m, k) {
      RepresentableIsMultiple(n, m, k);
    }
    if n == TWO_53 {
      assert Shl(TWO_53 / 2, 0) == TWO_53 / 2 && n == Shl(TWO_53 / 2, 1);
      assert Representable(n);
    }
  }

  /** From 2^53 on the nearest double is less than one part in 2^53 away. */
  lemma DoubleIsNear(value: int)
    requires Magnitude(value) >= TWO_53
    ensures TWO_53 * Magnitude(ToDouble(value) - value) <= Magnitude(value)
  {
    var n := Magnitude(value);
    RoundIsNearest(n, Quantum(n));
    QuantumSpacing(n);
    HalfSpacing(Magnitude(RoundTo(n, Quantum(n)) - n), Quantum(n), n);
  }

  lemma HalfSpacing(distance: nat, q: nat, n: nat)
    requires 2 * distance <= q && TWO_53 / 2 * q <= n
    ensures TWO_53 * distance <= n
  {}

  // ---------------------------------------------------------------- numbers on the heap

  class Heap {
    const build: Build
    /** The upper half of the addresses in the main cage. */
    const cage: nat
    var numbers: map<Word, int>

    constructor (build: Build, cage: nat)
      requires cage < TWO_32
      ensures Valid() && this.build == build && this.cage == cage && numbers == map[]
    {
      this.build, this.cage := build, cage;
      numbers := map[];
    }

    ghost predicate Valid()
      reads this
    {
      cage < TWO_32 && forall a <- numbers :: Room(a)
    }

    /** Where a number can be: tagged as a heap object and inside the cage. */
    predicate Room(address: Word) {
      address < build.WordLimit() && HasHeapObjectTag(address) && (build.Build64With31? ==> address / TWO_32 == cage)
    }

    /** The integer that a word stands for. */
    ghost function Meaning(w: Word): Option<int>
      reads this
    {
      if HasSmiTag(w) then Some(SmiToInt(build, w))
      else if w in numbers then Some(numbers[w])
      else None
    }

    /** `Factory::NewNumber`: a Smi if possible, otherwise a heap number in the room the
        allocator found. */
    method NewNumber(value: int, room: Word) returns (w: Word)
      requires Valid() && Room(room) && room !in numbers
      modifies this
      ensures Valid() && Meaning(w) == Some(value)
      ensures build.InRange(value) ==> numbers == old(numbers) && w == IntegralToSmi(build, value)
      ensures !build.InRange(value) ==> numbers == old(numbers)[room := value] && w == room
    {
      if build.InRange(value) {
        w := IntegralToSmi(build, value);
        SmiIsNoHeapObject(build, value);
        SmiRoundTrip(build, value);
      } else {
        numbers := numbers[room := value];
        w := room;
        TagBit(room);
        TwoTagBits(room);
      }
    }
  }

  // ---------------------------------------------------------------- the return slot

  /** What storing `value` makes of the slot's word. */
  function Stored(staticRoots: bool, slot: Word, value: Word): (r: Word)
  {
    if staticRoots then Decompress(slot, Compress(value)) else value
  }

  lemma LowestBit(x: nat, y: nat)
    requires x % TWO_32 == y % TWO_32
    ensures HasSmiTag(x) <==> HasSmiTag(y)
  {
    Parity(x);
    Parity(y);
    TagBit(x);
    TagBit(y);
  }

  lemma Parity(x: nat)
    ensures x % TWO_32 % 2 == x % 2
  {
    assert x == 2 * (TWO_32 / 2 * (x / TWO_32)) + x % TWO_32;
  }

  /** A Smi survives the store with any word in the slot. */
  lemma StoredSmi(b: Build, staticRoots: bool, slot: Word, value: int)
    requires b.InRange(value) && (staticRoots ==> b.Build64With31?)
    ensures var r := Stored(staticRoots, slot, IntegralToSmi(b, value));
            r < b.WordLimit() && HasSmiTag(r) && SmiToInt(b, r) == value
  {
    var w: Word := IntegralToSmi(b, value);
    SmiIsNoHeapObject(b, value);
    SmiRoundTrip(b, value);
    if staticRoots {
      DecompressHalves(slot, w);
      LowestBit(w, Stored(staticRoots, slot, w));
    }
  }

  class ReturnValue {
    const heap: Heap
    const staticRoots: bool
    var slot: Word

    constructor (heap: Heap, staticRoots: bool, slot: Word)
      requires heap.Valid() && slot < heap.build.WordLimit()
      requires staticRoots ==> heap.build.Build64With31? && slot / TWO_32 == heap.cage
      ensures Valid() && this.heap == heap && this.staticRoots == staticRoots && this.slot == slot
    {
      this.heap, this.staticRoots, this.slot := heap, staticRoots, slot;
    }

    ghost predicate Valid()
      reads this, heap
    {
      && heap.Valid()
      && slot < heap.build.WordLimit()
      && (staticRoots ==> heap.build.Build64With31? && slot / TWO_32 == heap.cage)
    }

    /** The number the callback returns. */
    ghost function Meaning(): Option<int>
      reads this, heap
    {
      heap.Meaning(slot)
    }

    method SetInternal(value: Word)
      requires Valid() && value < heap.build.WordLimit()
      modifies this`slot
      ensures Valid() && slot == Stored(staticRoots, old(slot), value)
      ensures staticRoots ==> slot / TWO_32 == old(slot) / TWO_32 && slot % TWO_32 == value % TWO_32
      ensures !staticRoots ==> slot == value
    {
      DecompressHalves(slot, value);
      slot := if staticRoots then Decompress(slot, Compress(value)) else value;
    }

    /** `Set(int16_t)` and `Set(uint16_t)`: stored without a check. */
    method SetInt16(value: int, ghost t: IntType)
      requires Valid() && t.bits == 16 && t.Holds(value)
      modifies this`slot
      ensures Valid() && Meaning() == Some(value)
    {
      StoredSmi(heap.build, staticRoots, slot, value);
      SetInternal(IntegralToSmi(heap.build, value));
    }

    method SetBoxed(value: int, room: Word)
      requires Valid() && heap.Room(room) && room !in heap.numbers
      modifies this`slot, heap
      ensures Valid() && Meaning() == Some(value)
      ensures heap.numbers == if heap.build.InRange(value) then old(heap.numbers) else old(heap.numbers)[room := value]
    {
      var w := heap.NewNumber(value, room);
      if heap.build.InRange(value) {
        StoredSmi(heap.build, staticRoots, slot, value);
      } else {
        DecompressIsInverseIff(slot, room);
      }
      SetInternal(w);
    }

    /** `Set(int32_t)` and `Set(uint32_t)`. */
    method SetInt32(value: int, t: IntType, room: Word)
      requires Valid() && t.bits == 32 && t.Holds(value)
      requires heap.Room(room) && room !in heap.numbers
      modifies this`slot, heap
      ensures Valid() && Meaning() == Some(value)
      ensures heap.numbers == if heap.build.InRange(value) then old(heap.numbers) else old(heap.numbers)[room := value]
    {
      ValidIsInRange(heap.build, t, value);
      var result := TryIntegralToSmi(heap.build, t, value);
      if result.Some? {
        StoredSmi(heap.build, staticRoots, slot, value);
        SetInternal(result.value);
        return;
      }
      SetBoxed(value, room);
    }

    /** `Set(int64_t)` and `Set(uint64_t)`: a value that is no Smi goes through a double. */
    method SetInt64(value: int, t: IntType, room: Word)
      requires Valid() && t.bits == 64 && t.Holds(value)
      requires heap.Room(room) && room !in heap.numbers
      modifies this`slot, heap
      ensures Valid() && Meaning() == Some(ToDouble(value))
      ensures Meaning() == Some(value) <==> Representable(Magnitude(value))
      ensures forall a <- old(heap.numbers) :: a in heap.numbers && heap.numbers[a] == old(heap.numbers)[a]
    {
      ValidIsInRange(heap.build, t, value);
      DoubleIsExactIff(value);
      var result := TryIntegralToSmi(heap.build, t, value);
      if result.Some? {
        StoredSmi(heap.build, staticRoots, slot, value);
        SetInternal(result.value);
        return;
      }
      SetBoxed(ToDouble(value), room);
    }
  }
}
