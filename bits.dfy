/**
 * Unsigned 32-bit words (`u32` in the source) as integers in [0, 2^32), with
 * the bitwise operators defined bit by bit on natural numbers: bit 0 of a
 * number is `x % 2` and the remaining bits are `x / 2`.
 *
 * `Or`, `And`, `Shl` and `Shr` are the source's `|`, `&`, `<<` and `>>`.
 * `Shl` does not wrap; `ShlWord` is the wrapping 32-bit `<<`.
 */
module Bits {

  type Word = x: int | 0 <= x < 0x1_0000_0000
  type Byte = x: int | 0 <= x < 256
  /** `u64`, the type of the hash values. */
  type U64 = x: int | 0 <= x < 0x1_0000_0000_0000_0000

  /** A field length or offset that the source's 32-bit arithmetic accepts. */
  type Width = n: nat | n < 32

  /** 2^n. */
  function Pow2(n: nat): (r: nat)
    ensures r >= 1
  {
    if n == 0 then 1 else 2 * Pow2(n - 1)
  }

  /** Bitwise OR. */
  function Or(a: nat, b: nat): nat
    decreases a + b
  {
    if a == 0 && b == 0 then 0
    else 2 * Or(a / 2, b / 2) + (if a % 2 == 1 || b % 2 == 1 then 1 else 0)
  }

  /** Bitwise AND. */
  function And(a: nat, b: nat): nat
    decreases a + b
  {
    if a == 0 && b == 0 then 0
    else 2 * And(a / 2, b / 2) + (if a % 2 == 1 && b % 2 == 1 then 1 else 0)
  }

  /** `x << n` without losing high bits, that is x * 2^n. */
  function Shl(x: nat, n: nat): nat
  {
    if n == 0 then x else 2 * Shl(x, n - 1)
  }

  /** `x >> n`, that is x / 2^n. */
  function Shr(x: nat, n: nat): nat
  {
    if n == 0 then x else Shr(x, n - 1) / 2
  }

  /** The 32-bit `x << n` of the source: bits shifted past bit 31 are lost. */
  function ShlWord(x: Word, n: Width): Word
  {
    Shl(x, n) % 0x1_0000_0000
  }

  /** `2u32.pow(n) - 1`: the lowest n bits set. */
  function LowMask(n: nat): nat { Pow2(n) - 1 }

  /** The bits occupied by a field of `len` bits starting at bit `off`. */
  function FieldMask(len: nat, off: nat): nat { Shl(LowMask(len), off) }

  /** The value held in the field of `len` bits at bit `off` of `x`: `(x >> off) & mask`. */
  function FieldValue(x: nat, len: nat, off: nat): nat { And(Shr(x, off), LowMask(len)) }

  // ---------------------------------------------------------------------------
  // One-bit steps

  /** OR works bit by bit: its lowest bit and the rest. */
  lemma OrStep(a: nat, b: nat)
    ensures Or(a, b) % 2 == (if a % 2 == 1 || b % 2 == 1 then 1 else 0)
    ensures Or(a, b) / 2 == Or(a / 2, b / 2)
  {
    var bit := if a % 2 == 1 || b % 2 == 1 then 1 else 0;
    if a == 0 && b == 0 {
      assert Or(a / 2, b / 2) == 0;
    }
    assert Or(a, b) == 2 * Or(a / 2, b / 2) + bit;
  }

  /** AND works bit by bit: its lowest bit and the rest. */
  lemma AndStep(a: nat, b: nat)
    ensures And(a, b) % 2 == (if a % 2 == 1 && b % 2 == 1 then 1 else 0)
    ensures And(a, b) / 2 == And(a / 2, b / 2)
  {
    var bit := if a % 2 == 1 && b % 2 == 1 then 1 else 0;
    if a == 0 && b == 0 {
      assert And(a / 2, b / 2) == 0;
    }
    assert And(a, b) == 2 * And(a / 2, b / 2) + bit;
  }

  /** Two numbers with the same lowest bit and the same higher bits are equal. */
  lemma SameBits(x: nat, y: nat)
    requires x % 2 == y % 2 && x / 2 == y / 2
    ensures x == y
  {}

  // ---------------------------------------------------------------------------
  // Algebra of OR and AND

  lemma {:induction false} OrZero(a: nat)
    ensures Or(a, 0) == a
    decreases a
  {
    if a > 0 {
      OrStep(a, 0);
      OrZero(a / 2);
      SameBits(Or(a, 0), a);
    }
  }

  /** 0 is the identity of OR on either side. */
  lemma ZeroOr(a: nat)
    ensures Or(0, a) == a
  {
    OrComm(0, a);
    OrZero(a);
  }

  lemma {:induction false} OrComm(a: nat, b: nat)
    ensures Or(a, b) == Or(b, a)
    decreases a + b
  {
    if a + b > 0 {
      OrStep(a, b);
      OrStep(b, a);
      OrComm(a / 2, b / 2);
      SameBits(Or(a, b), Or(b, a));
    }
  }

  lemma {:induction false} OrAssoc(a: nat, b: nat, c: nat)
    ensures Or(Or(a, b), c) == Or(a, Or(b, c))
    decreases a + b + c
  {
    if a + b + c > 0 {
      OrStep(a, b);
      OrStep(b, c);
      OrStep(Or(a, b), c);
      OrStep(a, Or(b, c));
      OrAssoc(a / 2, b / 2, c / 2);
      SameBits(Or(Or(a, b), c), Or(a, Or(b, c)));
    }
  }

  lemma {:induction false} AndZero(a: nat)
    ensures And(a, 0) == 0
    decreases a
  {
    if a > 0 {
      AndStep(a, 0);
      AndZero(a / 2);
      SameBits(And(a, 0), 0);
    }
  }

  lemma {:induction false} AndComm(a: nat, b: nat)
    ensures And(a, b) == And(b, a)
    decreases a + b
  {
    if a + b > 0 {
      AndStep(a, b);
      AndStep(b, a);
      AndComm(a / 2, b / 2);
      SameBits(And(a, b), And(b, a));
    }
  }

  lemma {:induction false} AndAssoc(a: nat, b: nat, c: nat)
    ensures And(And(a, b), c) == And(a, And(b, c))
    decreases a + b + c
  {
    if a + b + c > 0 {
      AndStep(a, b);
      AndStep(b, c);
      AndStep(And(a, b), c);
      AndStep(a, And(b, c));
      AndAssoc(a / 2, b / 2, c / 2);
      SameBits(And(And(a, b), c), And(a, And(b, c)));
    }
  }

  /** Exchanging the last two operands of a chain of ORs. */
  lemma OrSwap(p: nat, x: nat, q: nat)
    ensures Or(Or(p, x), q) == Or(Or(p, q), x)
  {
    OrAssoc(p, x, q);
    OrComm(x, q);
    OrAssoc(p, q, x);
  }

  /** Masking distributes over OR. */
  lemma {:induction false} AndOr(x: nat, y: nat, m: nat)
    ensures And(Or(x, y), m) == Or(And(x, m), And(y, m))
    decreases x + y + m
  {
    if x + y + m > 0 {
      OrStep(x, y);
      AndStep(Or(x, y), m);
      AndStep(x, m);
      AndStep(y, m);
      OrStep(And(x, m), And(y, m));
      AndOr(x / 2, y / 2, m / 2);
      SameBits(And(Or(x, y), m), Or(And(x, m), And(y, m)));
    }
  }

  /** If `x` lies inside `f` and `f` avoids `m`, then `x` avoids `m`. */
  lemma InsideAvoids(x: nat, f: nat, m: nat)
    requires And(x, f) == x && And(f, m) == 0
    ensures And(x, m) == 0
  {
    AndAssoc(x, f, m);
    AndZero(x);
  }

  // ---------------------------------------------------------------------------
  // Bounds

  lemma {:induction false} Pow2Monotone(a: nat, b: nat)
    requires a <= b
    ensures Pow2(a) <= Pow2(b)
    decreases b
  {
    if a < b { Pow2Monotone(a, b - 1); }
  }

  lemma Pow2Plus4(n: nat)
    ensures Pow2(n + 4) == 16 * Pow2(n)
  {
    assert Pow2(n + 4) == 2 * Pow2(n + 3);
    assert Pow2(n + 3) == 2 * Pow2(n + 2);
  }

  lemma Pow2Of32()
    ensures Pow2(32) == 0x1_0000_0000
  {
    Pow2Plus4(0); Pow2Plus4(4); Pow2Plus4(8); Pow2Plus4(12);
    Pow2Plus4(16); Pow2Plus4(20); Pow2Plus4(24); Pow2Plus4(28);
  }

  /** `2u32.pow(n)` does not overflow for n < 32. */
  lemma Pow2Word(n: Width)
    ensures Pow2(n) < 0x1_0000_0000
  {
    Pow2Monotone(n, 31);
    Pow2Of32();
  }

  /** OR of two numbers below 2^n is below 2^n. */
  lemma {:induction false} OrBelow(a: nat, b: nat, n: nat)
    requires a < Pow2(n) && b < Pow2(n)
    ensures Or(a, b) < Pow2(n)
    decreases n
  {
    OrStep(a, b);
    if n == 0 {
      assert a == 0 && b == 0;
    } else {
      OrBelow(a / 2, b / 2, n - 1);
    }
  }

  /** OR of two words is a word. */
  lemma OrWord(a: Word, b: Word)
    ensures Or(a, b) < 0x1_0000_0000
  {
    Pow2Of32();
    OrBelow(a, b, 32);
  }

  /** `|` on two words. */
  function WordOr(a: Word, b: Word): Word
  {
    OrWord(a, b);
    Or(a, b)
  }

  /** 2^n has no bit below bit n. */
  lemma {:induction false} Pow2AndLowMask(n: nat)
    ensures And(Pow2(n), LowMask(n)) == 0
    decreases n
  {
    if n == 0 {
      AndZero(1);
    } else {
      AndStep(Pow2(n), LowMask(n));
      Pow2AndLowMask(n - 1);
      SameBits(And(Pow2(n), LowMask(n)), 0);
    }
  }

  /** AND never exceeds either operand. */
  lemma {:induction false} AndAtMost(a: nat, b: nat)
    ensures And(a, b) <= a && And(a, b) <= b
    decreases a + b
  {
    if a + b > 0 {
      AndStep(a, b);
      AndAtMost(a / 2, b / 2);
    }
  }

  /** Masking with `2^n - 1` leaves a value below 2^n. */
  lemma {:induction false} AndLowMaskBelow(x: nat, n: nat)
    ensures And(x, LowMask(n)) < Pow2(n)
    decreases n
  {
    if n == 0 {
      AndAtMost(x, 0);
    } else {
      AndStep(x, LowMask(n));
      AndLowMaskBelow(x / 2, n - 1);
    }
  }

  /** A value is below 2^n exactly when masking it with `2^n - 1` leaves it alone. */
  lemma {:induction false} FitsIffBelowPow2(v: nat, n: nat)
    ensures v < Pow2(n) <==> And(v, LowMask(n)) == v
    decreases n
  {
    AndLowMaskBelow(v, n);
    if n == 0 {
      AndZero(v);
    } else {
      AndStep(v, LowMask(n));
      FitsIffBelowPow2(v / 2, n - 1);
      if v < Pow2(n) {
        SameBits(And(v, LowMask(n)), v);
      }
    }
  }

  /** `x >> n` never exceeds `x`. */
  lemma {:induction false} ShrAtMost(x: nat, n: nat)
    ensures Shr(x, n) <= x
    decreases n
  {
    if n > 0 { ShrAtMost(x, n - 1); }
  }

  /** A value below 2^len shifted by `off` is below 2^(off + len). */
  lemma {:induction false} ShlBelow(v: nat, len: nat, off: nat)
    requires v < Pow2(len)
    ensures Shl(v, off) < Pow2(off + len)
    decreases off
  {
    if off > 0 { ShlBelow(v, len, off - 1); }
  }

  /** Shifting a value that fits a field lying inside the word loses no bit. */
  lemma ShlWordExact(v: Word, len: nat, off: Width)
    requires v < Pow2(len) && off + len <= 32
    ensures ShlWord(v, off) == Shl(v, off)
  {
    ShlBelow(v, len, off);
    Pow2Monotone(off + len, 32);
    Pow2Of32();
  }

  // ---------------------------------------------------------------------------
  // Shifts

  lemma {:induction false} ShrZero(n: nat)
    ensures Shr(0, n) == 0
    decreases n
  {
    if n > 0 { ShrZero(n - 1); }
  }

  /** Shifting down distributes over OR. */
  lemma {:induction false} ShrOr(a: nat, b: nat, n: nat)
    ensures Shr(Or(a, b), n) == Or(Shr(a, n), Shr(b, n))
    decreases n
  {
    if n > 0 {
      ShrOr(a, b, n - 1);
      OrStep(Shr(a, n - 1), Shr(b, n - 1));
    }
  }

  /** Shifting down distributes over AND. */
  lemma {:induction false} ShrAnd(a: nat, b: nat, n: nat)
    ensures Shr(And(a, b), n) == And(Shr(a, n), Shr(b, n))
    decreases n
  {
    if n > 0 {
      ShrAnd(a, b, n - 1);
      AndStep(Shr(a, n - 1), Shr(b, n - 1));
    }
  }

  /** Shifting up distributes over AND. */
  lemma {:induction false} ShlAnd(a: nat, b: nat, n: nat)
    ensures And(Shl(a, n), Shl(b, n)) == Shl(And(a, b), n)
    decreases n
  {
    if n > 0 {
      ShlAnd(a, b, n - 1);
      var x, y := Shl(a, n - 1), Shl(b, n - 1);
      AndStep(2 * x, 2 * y);
      SameBits(And(2 * x, 2 * y), 2 * And(x, y));
    }
  }

  /** `(2 * y) >> n` is `y >> (n - 1)`. */
  lemma {:induction false} ShrDouble(y: nat, n: nat)
    requires n > 0
    ensures Shr(2 * y, n) == Shr(y, n - 1)
    decreases n
  {
    if n > 1 { ShrDouble(y, n - 1); }
  }

  /** Shifting up and back down gives the value back. */
  lemma {:induction false} ShrShl(v: nat, n: nat)
    ensures Shr(Shl(v, n), n) == v
    decreases n
  {
    if n > 0 {
      ShrDouble(Shl(v, n - 1), n);
      ShrShl(v, n - 1);
    }
  }

  // ---------------------------------------------------------------------------
  // Fields

  /** What a field holds is below 2^len. */
  lemma FieldValueFits(x: nat, len: nat, off: nat)
    ensures FieldValue(x, len, off) < Pow2(len)
  {
    AndLowMaskBelow(Shr(x, off), len);
  }

  /** A field of a word holds a word. */
  lemma FieldValueWord(x: Word, len: nat, off: nat)
    ensures FieldValue(x, len, off) <= x
  {
    ShrAtMost(x, off);
    AndAtMost(Shr(x, off), LowMask(len));
  }

  /** Reading a field distributes over OR. */
  lemma FieldValueOr(a: nat, b: nat, len: nat, off: nat)
    ensures FieldValue(Or(a, b), len, off) == Or(FieldValue(a, len, off), FieldValue(b, len, off))
  {
    ShrOr(a, b, off);
    AndOr(Shr(a, off), Shr(b, off), LowMask(len));
  }

  /** A value that fits a field ends up inside that field when shifted into place. */
  lemma ShiftedInField(v: nat, len: nat, off: nat)
    requires v < Pow2(len)
    ensures And(Shl(v, off), FieldMask(len, off)) == Shl(v, off)
  {
    FitsIffBelowPow2(v, len);
    ShlAnd(v, LowMask(len), off);
  }

  /** Shifting a fitting value into a field and reading that field gives the value back. */
  lemma ShiftRoundTrip(v: nat, len: nat, off: nat)
    requires v < Pow2(len)
    ensures FieldValue(Shl(v, off), len, off) == v
  {
    ShrShl(v, off);
    FitsIffBelowPow2(v, len);
  }

  /** A number with no bit in a field reads zero there. */
  lemma FieldZero(x: nat, len: nat, off: nat)
    requires And(x, FieldMask(len, off)) == 0
    ensures FieldValue(x, len, off) == 0
  {
    ShrAnd(x, FieldMask(len, off), off);
    ShrShl(LowMask(len), off);
    ShrZero(off);
  }

  /** A fitting value shifted into a field that avoids `m` has no bit in `m`. */
  lemma ShiftedAvoids(v: nat, len: nat, off: nat, m: nat)
    requires v < Pow2(len) && And(FieldMask(len, off), m) == 0
    ensures And(Shl(v, off), m) == 0
  {
    ShiftedInField(v, len, off);
    InsideAvoids(Shl(v, off), FieldMask(len, off), m);
  }

  /** A fitting value shifted into one field reads zero in a field disjoint from it. */
  lemma ShiftedOutsideDisjoint(v: nat, len: nat, off: nat, len2: nat, off2: nat)
    requires v < Pow2(len)
    requires And(FieldMask(len, off), FieldMask(len2, off2)) == 0
    ensures FieldValue(Shl(v, off), len2, off2) == 0
  {
    ShiftedAvoids(v, len, off, FieldMask(len2, off2));
    FieldZero(Shl(v, off), len2, off2);
  }
}
