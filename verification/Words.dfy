/**
 Machine words as natural numbers: bitwise operations defined bit by bit, and how they
 take words apart and put them together.
 */
module Words {

  const TWO_16: nat := 0x1_0000
  const TWO_32: nat := 0x1_0000_0000
  const TWO_48: nat := 0x1_0000_0000_0000
  const TWO_64: nat := 0x1_0000_0000_0000_0000

  type Word = w: nat | w < TWO_64

  function BitAnd(x: nat, y: nat): nat {
    if x == 0 then 0
    else 2 * BitAnd(x / 2, y / 2) + (if x % 2 == 0 then 0 else y % 2)
  }

  function BitOr(x: nat, y: nat): nat
    decreases x + y
  {
    if x == 0 then y else if y == 0 then x
    else 2 * BitOr(x / 2, y / 2) + (if x % 2 == 1 || y % 2 == 1 then 1 else 0)
  }

  /** `x << s` on unbounded numbers. */
  function Shl(x: nat, s: nat): nat {
    if s == 0 then x else 2 * Shl(x, s - 1)
  }

  /** `x >> s`. */
  function Shr(x: nat, s: nat): (r: nat)
    ensures r <= x
  {
    if s == 0 then x else Shr(x / 2, s - 1)
  }

  /** The lowest `s` bits. */
  function Low(x: nat, s: nat): nat {
    if s == 0 then 0 else 2 * Low(x / 2, s - 1) + x % 2
  }

  function Ones(n: nat): nat {
    if n == 0 then 0 else 2 * Ones(n - 1) + 1
  }

  /** Bit `i` of the conjunction is set if it is set in both. */
  lemma {:induction false} AndBit(x: nat, y: nat, i: nat)
    ensures Shr(BitAnd(x, y), i) % 2 == 1 <==> Shr(x, i) % 2 == 1 && Shr(y, i) % 2 == 1
    decreases i
  {
    AndStep(x, y);
    if i == 0 {
    } else {
      AndBit(x / 2, y / 2, i - 1);
    }
  }

  /** Bit `i` of the disjunction is set if it is set in either. */
  lemma {:induction false} OrBit(x: nat, y: nat, i: nat)
    ensures Shr(BitOr(x, y), i) % 2 == 1 <==> Shr(x, i) % 2 == 1 || Shr(y, i) % 2 == 1
    decreases i
  {
    OrStep(x, y);
    if i == 0 {
    } else {
      OrBit(x / 2, y / 2, i - 1);
    }
  }

  // ---------------------------------------------------------------- taking apart and putting together

  lemma {:induction false} Apart(x: nat, s: nat)
    ensures x == Shl(Shr(x, s), s) + Low(x, s)
    ensures Low(x, s) < Shl(1, s)
    decreases s
  {
    if s == 0 {
    } else {
      Apart(x / 2, s - 1);
    }
  }

  lemma {:induction false} Together(hi: nat, lo: nat, s: nat)
    requires lo < Shl(1, s)
    ensures Shr(Shl(hi, s) + lo, s) == hi
    ensures Low(Shl(hi, s) + lo, s) == lo
    decreases s
  {
    if s == 0 {
    } else {
      Together(hi, lo / 2, s - 1);
      assert (Shl(hi, s) + lo) / 2 == Shl(hi, s - 1) + lo / 2;
    }
  }

  lemma {:induction false} ShlAdd(x: nat, s: nat, t: nat)
    ensures Shl(x, s + t) == Shl(Shl(x, s), t)
    decreases t
  {
    if t == 0 {
    } else {
      ShlAdd(x, s, t - 1);
    }
  }

  lemma {:induction false} LowBound(x: nat, s: nat)
    requires x < Shl(1, s)
    ensures Low(x, s) == x && Shr(x, s) == 0
    decreases s
  {
    if s == 0 {
    } else {
      LowBound(x / 2, s - 1);
    }
  }

  /** Shifting out `s` of `s + t` bits leaves `t`. */
  lemma {:induction false} ShrBound(x: nat, s: nat, t: nat)
    requires x < Shl(1, s + t)
    ensures Shr(x, s) < Shl(1, t)
    decreases s
  {
    if s == 0 {
    } else {
      ShrBound(x / 2, s - 1, t);
    }
  }

  lemma {:induction false} ShlBound(x: nat, s: nat, t: nat)
    requires x < Shl(1, t)
    ensures Shl(x, s) < Shl(1, s + t)
    decreases s
  {
    if s == 0 {
    } else {
      ShlBound(x, s - 1, t);
    }
  }

  // ---------------------------------------------------------------- masks

  lemma {:induction false} AndZero(x: nat)
    ensures BitAnd(x, 0) == 0
  {
    if x == 0 {
    } else {
      AndZero(x / 2);
    }
  }

  lemma AndStep(x: nat, y: nat)
    ensures BitAnd(x, y) == 2 * BitAnd(x / 2, y / 2) + (if x % 2 == 0 then 0 else y % 2)
  {}

  /** Two words are masked above and below any bit apart. */
  lemma {:induction false} AndParts(hi: nat, hi': nat, lo: nat, lo': nat, s: nat)
    requires lo < Shl(1, s) && lo' < Shl(1, s)
    ensures BitAnd(Shl(hi, s) + lo, Shl(hi', s) + lo') == Shl(BitAnd(hi, hi'), s) + BitAnd(lo, lo')
    decreases s
  {
    if s == 0 {
    } else {
      AndParts(hi, hi', lo / 2, lo' / 2, s - 1);
      AndStep(Shl(hi, s) + lo, Shl(hi', s) + lo');
      AndStep(lo, lo');
    }
  }

  lemma {:induction false} ShlZero(s: nat)
    ensures Shl(0, s) == 0 && Shl(1, s) > 0
  {
    if s == 0 {
    } else {
      ShlZero(s - 1);
    }
  }

  /** A mask below a bit looks at the bits below only. */
  lemma MaskLow(hi: nat, lo: nat, mask: nat, s: nat)
    requires lo < Shl(1, s) && mask < Shl(1, s)
    ensures BitAnd(Shl(hi, s) + lo, mask) == BitAnd(lo, mask)
  {
    AndParts(hi, 0, lo, mask, s);
    AndZero(hi);
    ShlZero(s);
  }

  /** A mask above a bit looks at the bits above only. */
  lemma {:induction false} MaskHigh(x: nat, hi: nat, s: nat)
    ensures BitAnd(x, Shl(hi, s)) == Shl(BitAnd(Shr(x, s), hi), s)
    decreases s
  {
    if s == 0 {
    } else {
      MaskHigh(x / 2, hi, s - 1);
      AndStep(x, Shl(hi, s));
    }
  }

  lemma {:induction false} AndOnes(x: nat, n: nat)
    ensures BitAnd(x, Ones(n)) == Low(x, n)
    decreases n
  {
    if n == 0 {
      AndZero(x);
    } else {
      AndOnes(x / 2, n - 1);
      AndStep(x, Ones(n));
    }
  }

  /** A mask of ones keeps a field it covers. */
  lemma FieldKept(field: nat, n: nat)
    requires field < Shl(1, n)
    ensures BitAnd(field, Ones(n)) == field
  {
    AndOnes(field, n);
    LowBound(field, n);
  }

  lemma OrStep(x: nat, y: nat)
    ensures BitOr(x, y) == 2 * BitOr(x / 2, y / 2) + (if x % 2 == 1 || y % 2 == 1 then 1 else 0)
  {
    if x == 0 {
      assert BitOr(0, y / 2) == y / 2;
    }
  }

  /** Two words without a common bit are put side by side. */
  lemma {:induction false} OrDisjoint(hi: nat, lo: nat, s: nat)
    requires lo < Shl(1, s)
    ensures BitOr(Shl(hi, s), lo) == Shl(hi, s) + lo
    ensures BitOr(lo, Shl(hi, s)) == Shl(hi, s) + lo
    decreases s
  {
    if s == 0 {
    } else {
      OrDisjoint(hi, lo / 2, s - 1);
      OrStep(Shl(hi, s), lo);
      OrStep(lo, Shl(hi, s));
    }
  }

  // ---------------------------------------------------------------- as multiplication and division

  lemma Shl8(x: nat)
    ensures Shl(x, 1) == 2 * x && Shl(x, 8) == 0x100 * x
  {
    assert Shl(x, 0) == x && Shl(x, 1) == 2 * x && Shl(x, 2) == 4 * x;
    ShlAdd(x, 2, 2);
    assert Shl(4 * x, 0) == 4 * x && Shl(4 * x, 1) == 8 * x && Shl(4 * x, 2) == 16 * x;
    ShlAdd(x, 4, 4);
    ShlAdd(16 * x, 2, 2);
    assert Shl(16 * x, 0) == 16 * x && Shl(16 * x, 1) == 32 * x && Shl(16 * x, 2) == 64 * x;
    assert Shl(64 * x, 0) == 64 * x && Shl(64 * x, 1) == 128 * x && Shl(64 * x, 2) == 256 * x;
  }

  lemma Shl16(x: nat)
    ensures Shl(x, 16) == TWO_16 * x
  {
    ShlAdd(x, 8, 8);
    Shl8(x);
    Shl8(0x100 * x);
  }

  lemma Shl32(x: nat)
    ensures Shl(x, 32) == TWO_32 * x
  {
    ShlAdd(x, 16, 16);
    Shl16(x);
    Shl16(TWO_16 * x);
  }

  lemma Shl48(x: nat)
    ensures Shl(x, 48) == TWO_48 * x && Shl(x, 49) == 2 * TWO_48 * x && Shl(x, 56) == 0x100 * TWO_48 * x
  {
    ShlAdd(x, 32, 16);
    Shl32(x);
    Shl16(TWO_32 * x);
    ShlAdd(x, 48, 1);
    ShlAdd(x, 48, 8);
    Shl8(TWO_48 * x);
  }

  lemma Shl64()
    ensures Shl(1, 64) == TWO_64
  {
    ShlAdd(1, 32, 32);
    Shl32(1);
    Shl32(TWO_32);
  }

  lemma Shr32(x: nat)
    ensures Shr(x, 32) == x / TWO_32 && Low(x, 32) == x % TWO_32
  {
    Apart(x, 32);
    Shl32(Shr(x, 32));
    Shl32(1);
  }

  lemma {:induction false} OnesValue(n: nat)
    ensures Ones(n) == Shl(1, n) - 1
  {
    if n == 0 {
    } else {
      OnesValue(n - 1);
    }
  }

  /** Two words are combined above and below any bit apart. */
  lemma {:induction false} OrSplit(hi: nat, hi': nat, lo: nat, lo': nat, s: nat)
    requires lo < Shl(1, s) && lo' < Shl(1, s)
    ensures BitOr(Shl(hi, s) + lo, Shl(hi', s) + lo') == Shl(BitOr(hi, hi'), s) + BitOr(lo, lo')
    decreases s
  {
    if s == 0 {
    } else {
      OrSplit(hi, hi', lo / 2, lo' / 2, s - 1);
      OrStep(Shl(hi, s) + lo, Shl(hi', s) + lo');
      OrStep(lo, lo');
    }
  }

  lemma Shr1(x: nat)
    ensures Shr(x, 1) == x / 2 && Low(x, 1) == x % 2
  {
    assert Shr(x / 2, 0) == x / 2 && Low(x / 2, 0) == 0;
  }
}
