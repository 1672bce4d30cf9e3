/**
 Small integers encoded in pointer-sized words, in every build that the tagging scheme has.
 */
module SmiTagging {
  import opened Basics
  import opened Words

  /** Word size and Smi width. A 32-bit build and a 64-bit build with compressed pointers
      have 31-bit Smis; a 64-bit build without compression has 32-bit ones unless asked
      otherwise. */
  datatype Build = Build32 | Build64With31 | Build64With32 {

    function WordLimit(): (r: nat)
      ensures r == TWO_32 || r == TWO_64
    {
      if this.Build32? then TWO_32 else TWO_64
    }

    function Shift(): nat {
      if this.Build64With32? then 32 else 1
    }

    /** What the encoding holds: 31 or 32 bits, signed. */
    function Max(): nat {
      if this.Build64With32? then 0x7fff_ffff else 0x3fff_ffff
    }

    function Min(): int {
      -(Max() as int) - 1
    }

    predicate InRange(value: int) {
      Min() <= value <= Max()
    }
  }

  /** The integer types that are encoded. */
  datatype IntType = IntType(signed: bool, bits: nat) {

    predicate WellFormed() {
      bits == 8 || bits == 16 || bits == 32 || bits == 64
    }

    function Limit(): nat {
      if bits == 8 then 0x100 else if bits == 16 then TWO_16 else if bits == 32 then TWO_32 else TWO_64
    }

    predicate Holds(value: int) {
      if signed then -(Limit() as int) <= 2 * value < Limit() else 0 <= value < Limit()
    }
  }

  /** Conversion to an unsigned type with `limit` values. */
  function ToUnsigned(value: int, limit: nat): (w: nat)
    requires limit > 0
    ensures w < limit
  {
    value % limit
  }

  /** Conversion of an unsigned value to the signed type of the same width. */
  function ToSigned(w: nat, limit: nat): int {
    if 2 * w < limit then w else w - limit
  }

  /** The word whose arithmetic the check runs in: pointer-sized, but 64 bits for 64-bit values. */
  function CheckLimit(b: Build, t: IntType): nat {
    if t.bits == 64 then TWO_64 else b.WordLimit()
  }

  predicate IsValidSmi(b: Build, t: IntType, value: int) {
    if !t.signed then value <= b.Max()
    else if b.Build64With32? then b.Min() <= value && value <= b.Max()
    else
      var limit := CheckLimit(b, t);
      var min := ToUnsigned(b.Min(), limit);
      ToUnsigned(ToUnsigned(value, limit) - min, limit) <= ToUnsigned(ToUnsigned(b.Max(), limit) - min, limit)
  }

  function AddressToSmi(b: Build, address: nat): (w: nat)
    ensures w < b.WordLimit()
  {
    ToUnsigned(Shl(address, b.Shift()), b.WordLimit())
  }

  function IntegralToSmi(b: Build, value: int): (w: nat)
    ensures w < b.WordLimit()
  {
    AddressToSmi(b, ToUnsigned(value, b.WordLimit()))
  }

  function TryIntegralToSmi(b: Build, t: IntType, value: int): Option<nat> {
    if IsValidSmi(b, t, value) then Some(IntegralToSmi(b, value)) else None
  }

  /** An arithmetic shift to the right rounds down, as division here does. */
  function SmiToInt(b: Build, w: nat): int {
    if b.Build64With32? then ToSigned(ToUnsigned(ToSigned(w, TWO_64) / TWO_32, TWO_32), TWO_32)
    else ToSigned(ToUnsigned(w, TWO_32), TWO_32) / 2
  }

  predicate HasHeapObjectTag(w: nat) {
    BitAnd(w, 3) == 1
  }

  predicate HasSmiTag(w: nat) {
    BitAnd(w, 1) == 0
  }

  // ---------------------------------------------------------------- the range check

  /** Conversion of values that are at most one wrap-around away. */
  lemma Wrapped(x: int, limit: nat)
    requires limit == TWO_32 || limit == TWO_64
    requires -(limit as int) <= x < limit
    ensures ToUnsigned(x, limit) == if x < 0 then x + limit else x
  {
    assert x < 0 ==> (x + limit) % limit == x + limit;
  }

  lemma WrappedDifference(x: int, y: int, limit: nat)
    requires limit == TWO_32 || limit == TWO_64
    requires -(limit as int) <= 2 * x < limit && -(limit as int) <= 2 * y <= 0
    ensures ToUnsigned(ToUnsigned(x, limit) - ToUnsigned(y, limit), limit) == if x < y then x - y + limit else x - y
  {
    Wrapped(x, limit);
    Wrapped(y, limit);
    Wrapped(ToUnsigned(x, limit) - ToUnsigned(y, limit), limit);
  }

  /** The wrapped-around comparison, for every value of every integer type, is the plain
      two-sided one. */
  lemma ValidIsInRange(b: Build, t: IntType, value: int)
    requires t.WellFormed() && t.Holds(value)
    ensures IsValidSmi(b, t, value) <==> b.InRange(value)
  {
    if t.signed && !b.Build64With32? {
      WrappedDifference(value, b.Min(), CheckLimit(b, t));
      WrappedDifference(b.Max(), b.Min(), CheckLimit(b, t));
    }
  }

  // ---------------------------------------------------------------- encoding and decoding

  lemma EncodedHalf(b: Build, value: int)
    requires !b.Build64With32? && b.InRange(value)
    ensures ToUnsigned(IntegralToSmi(b, value), TWO_32) == ToUnsigned(2 * value, TWO_32)
  {
    Wrapped(value, b.WordLimit());
    Shl8(ToUnsigned(value, b.WordLimit()));
    Wrapped(2 * value, TWO_32);
    if value < 0 {
      var limit := b.WordLimit();
      assert IntegralToSmi(b, value) == 2 * value + limit;
    }
  }

  lemma EncodedWhole(b: Build, value: int)
    requires b.Build64With32? && b.InRange(value)
    ensures IntegralToSmi(b, value) == if value < 0 then TWO_32 * (value + TWO_32) else TWO_32 * value
  {
    Wrapped(value, TWO_64);
    var u := ToUnsigned(value, TWO_64);
    Shl32(u);
    if value < 0 {
      assert TWO_32 * u == TWO_32 * (value + TWO_32) + (TWO_32 - 1) * TWO_64;
    }
  }

  /** The whole word of an encoded integer, read as a signed number, is the integer moved up
      by the shift: the sign fills the upper half. */
  lemma EncodedWord(b: Build, value: int)
    requires b.InRange(value)
    ensures ToSigned(IntegralToSmi(b, value), b.WordLimit()) == (if b.Build64With32? then TWO_32 else 2) * value
  {
    if b.Build64With32? {
      EncodedWhole(b, value);
    } else {
      Wrapped(value, b.WordLimit());
      Shl8(ToUnsigned(value, b.WordLimit()));
      if value < 0 {
        assert IntegralToSmi(b, value) == 2 * value + b.WordLimit();
      }
    }
  }

  lemma WholeRoundTrip(b: Build, value: int)
    requires b.Build64With32? && b.InRange(value)
    ensures SmiToInt(b, IntegralToSmi(b, value)) == value
  {
    EncodedWhole(b, value);
    assert ToSigned(IntegralToSmi(b, value), TWO_64) == TWO_32 * value;
    Wrapped(value, TWO_32);
  }

  lemma HalfRoundTrip(b: Build, value: int)
    requires !b.Build64With32? && b.InRange(value)
    ensures SmiToInt(b, IntegralToSmi(b, value)) == value
  {
    EncodedHalf(b, value);
    Wrapped(2 * value, TWO_32);
  }

  /** Every value in range is decoded from its encoding. */
  lemma SmiRoundTrip(b: Build, value: int)
    requires b.InRange(value)
    ensures SmiToInt(b, IntegralToSmi(b, value)) == value
  {
    if b.Build64With32? {
      WholeRoundTrip(b, value);
    } else {
      HalfRoundTrip(b, value);
    }
  }

  /** A value of any type is encoded exactly when it is in range, and then reads back. */
  lemma TryRoundTrip(b: Build, t: IntType, value: int)
    requires t.WellFormed() && t.Holds(value)
    ensures var r := TryIntegralToSmi(b, t, value);
            (r.Some? <==> b.InRange(value)) && (r.Some? ==> SmiToInt(b, r.value) == value)
  {
    ValidIsInRange(b, t, value);
    if b.InRange(value) {
      SmiRoundTrip(b, value);
    }
  }

  /** Decoding always gives a value in range. */
  lemma DecodedInRange(b: Build, w: nat)
    requires w < b.WordLimit()
    ensures b.InRange(SmiToInt(b, w))
  {}

  /** So encoding then decoding is the identity exactly where the check says so. */
  lemma RoundTripIffValid(b: Build, t: IntType, value: int)
    requires t.WellFormed() && t.Holds(value)
    ensures SmiToInt(b, IntegralToSmi(b, value)) == value <==> IsValidSmi(b, t, value)
  {
    ValidIsInRange(b, t, value);
    DecodedInRange(b, IntegralToSmi(b, value));
    if b.InRange(value) {
      SmiRoundTrip(b, value);
    }
  }

  lemma SmiInjective(b: Build, x: int, y: int)
    requires b.InRange(x) && b.InRange(y) && IntegralToSmi(b, x) == IntegralToSmi(b, y)
    ensures x == y
  {
    SmiRoundTrip(b, x);
    SmiRoundTrip(b, y);
  }

  // ---------------------------------------------------------------- tags

  lemma TagBit(w: nat)
    ensures BitAnd(w, 1) == w % 2
  {
    AndOnes(w, 1);
    assert Ones(0) == 0;
    Shr1(w);
  }

  lemma TwoTagBits(w: nat)
    ensures BitAnd(w, 3) == w % 4
  {
    AndStep(w, 3);
    TagBit(w / 2);
  }

  /** The two tests read the lowest bits: a heap object ends in 01, a Smi in 0. */
  lemma TagsAreLowBits(w: nat)
    ensures HasHeapObjectTag(w) <==> w % 4 == 1
    ensures HasSmiTag(w) <==> w % 2 == 0
  {
    TagBit(w);
    TwoTagBits(w);
  }

  lemma EncodedIsEven(b: Build, value: int)
    ensures IntegralToSmi(b, value) % 2 == 0
  {
    var u := ToUnsigned(value, b.WordLimit());
    var half := Shl(u, b.Shift() - 1);
    assert Shl(u, b.Shift()) == 2 * half;
    EvenRemainder(half, b.WordLimit());
  }

  lemma EvenRemainder(half: nat, limit: nat)
    requires limit == TWO_32 || limit == TWO_64
    ensures ToUnsigned(2 * half, limit) % 2 == 0
  {
    var q := 2 * half / limit;
    assert 2 * half == limit * q + 2 * half % limit;
    assert limit == TWO_32 ==> 2 * half % limit == 2 * (half - TWO_32 / 2 * q);
    assert limit == TWO_64 ==> 2 * half % limit == 2 * (half - TWO_64 / 2 * q);
  }

  /** No encoded integer, in range or not, can be taken for a heap object. */
  lemma SmiIsNoHeapObject(b: Build, value: int)
    ensures HasSmiTag(IntegralToSmi(b, value)) && !HasHeapObjectTag(IntegralToSmi(b, value))
  {
    var w := IntegralToSmi(b, value);
    EncodedIsEven(b, value);
    EvenHasSmiTag(w);
  }

  lemma EvenHasSmiTag(w: nat)
    requires w % 2 == 0
    ensures HasSmiTag(w) && !HasHeapObjectTag(w)
  {
    TagBit(w);
    TwoTagBits(w);
  }
}
