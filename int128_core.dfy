/** The 128-bit two's-complement integer `Int128` of src/int128.cpp: its one
    field `m_data` is a `std::bitset<128>`, and every operation works on those
    bits. This module holds the representation, the constants, construction from
    and narrowing to 64 bits, `+=`, unary and binary `-`, and the comparisons. */
module Int128Core {
  import opened Arith
  import opened Bits

  /** 2^128 and 2^127. */
  const MODULUS: int := 0x1_0000_0000_0000_0000_0000_0000_0000_0000
  const HALF: int := 0x8000_0000_0000_0000_0000_0000_0000_0000

  /** `std::int64_t`. */
  type Int64 = v: int | -0x8000_0000_0000_0000 <= v < 0x8000_0000_0000_0000

  /** An `Int128` is its bit set `m_data`; bit 127 is the sign. */
  type Int128 = s: seq<bool> | |s| == 128 witness Zeros(128)

  /** `std::bitset<128>(n)`: the low 128 bits of n. */
  function BitSet(n: nat): (r: Int128)
    ensures Unsigned(r) == n % MODULUS
  {
    Pow2Values();
    FromNatValue(n, 128);
    assert |FromNat(n, 128)| == 128 && Unsigned(FromNat(n, 128)) == n % MODULUS;
    forall s: seq<bool>, t: seq<bool> | |s| == 128 && |t| == 128 && Unsigned(s) == n % MODULUS && Unsigned(t) == n % MODULUS
      ensures s == t
    {
      UnsignedInjective(s, t);
    }
    var r: seq<bool> :| |r| == 128 && Unsigned(r) == n % MODULUS;
    r
  }

  lemma UnsignedBound(x: Int128)
    ensures Unsigned(x) < MODULUS
  {
    UnsignedBelow(x);
    Pow2Of128();
  }

  /** The value `m_data` denotes when bit 127 is read as the sign (two's complement). */
  function Signed(x: Int128): (v: int)
    ensures -HALF <= v < HALF
    ensures v < 0 <==> x[127]
  {
    TopBit(x);
    UnsignedBound(x);
    Pow2Values();
    if x[127] then Unsigned(x) - MODULUS else Unsigned(x)
  }

  /** The integer in [-2^127, 2^127) congruent to i modulo 2^128. */
  function Wrap(i: int): (v: int)
    ensures -HALF <= v < HALF
    ensures -HALF <= i < HALF ==> v == i
  {
    (i + HALF) % MODULUS - HALF
  }

  lemma WrapShift(i: int, k: int)
    ensures Wrap(i + k * MODULUS) == Wrap(i)
  {
  }

  lemma SignedIsWrap(x: Int128)
    ensures Signed(x) == Wrap(Unsigned(x))
  {
    UnsignedBound(x);
    if x[127] {
      WrapShift(Signed(x), 1);
    }
  }

  /** Adding unsigned readings wraps to the sum of the signed ones. */
  lemma WrapUnsignedSum(a: Int128, b: Int128)
    ensures Wrap(Unsigned(a) + Unsigned(b)) == Wrap(Signed(a) + Signed(b))
  {
    if a[127] && b[127] {
      WrapShift(Signed(a) + Signed(b), 2);
    } else if a[127] || b[127] {
      WrapShift(Signed(a) + Signed(b), 1);
    }
  }

  /** 2^128 minus the unsigned reading wraps to the negated signed one. */
  lemma WrapComplement(a: Int128)
    ensures Wrap(MODULUS - Unsigned(a)) == Wrap(-Signed(a))
  {
    if !a[127] {
      WrapShift(-Signed(a), 1);
    }
  }

  lemma SignedBitSet(n: nat)
    ensures Signed(BitSet(n)) == Wrap(n)
  {
    var m := MODULUS;
    assert n == n % m + (n / m) * m;
    WrapShift(n % m, n / m);
    SignedIsWrap(BitSet(n));
  }

  /** Two patterns with the same signed value are the same pattern. */
  lemma SignedInjective(x: Int128, y: Int128)
    requires Signed(x) == Signed(y)
    ensures x == y
  {
    UnsignedInjective(x, y);
  }

  // ---------------------------------------------------------------------
  // The arithmetic the operators implement, as functions of the values.

  /** Binary `+` (a copy of the left operand, then `+=`): the bit set of the
      sum of the unsigned readings. */
  function Plus(a: Int128, b: Int128): Int128
  {
    BitSet(Unsigned(a) + Unsigned(b))
  }

  /** Read as signed values, `+` is addition wrapped into [-2^127, 2^127). */
  lemma PlusSigned(a: Int128, b: Int128)
    ensures Signed(Plus(a, b)) == Wrap(Signed(a) + Signed(b))
  {
    var n := Unsigned(a) + Unsigned(b);
    assert Plus(a, b) == BitSet(n);
    SignedBitSet(n);
    WrapUnsignedSum(a, b);
  }

  /** Unary `-`: the bit set of 2^128 minus the unsigned reading. */
  function Neg(a: Int128): Int128
  {
    UnsignedBound(a);
    BitSet(MODULUS - Unsigned(a))
  }

  /** Read as a signed value, `-` is negation wrapped into [-2^127, 2^127). */
  lemma NegSigned(a: Int128)
    ensures Signed(Neg(a)) == Wrap(-Signed(a))
  {
    UnsignedBound(a);
    SignedBitSet(MODULUS - Unsigned(a));
    WrapComplement(a);
  }

  /** The sum's bit set holds the sum of the unsigned readings modulo 2^128. */
  lemma PlusUnsigned(a: Int128, b: Int128)
    ensures Unsigned(Plus(a, b)) == (Unsigned(a) + Unsigned(b)) % MODULUS
    ensures var sum := Unsigned(a) + Unsigned(b);
            Unsigned(Plus(a, b)) == if sum >= MODULUS then sum - MODULUS else sum
  {
    UnsignedBound(a);
    UnsignedBound(b);
    ModOnce(Unsigned(a) + Unsigned(b), MODULUS);
  }

  /** Negation yields (2^128 - x) mod 2^128. */
  lemma NegUnsigned(a: Int128)
    ensures Unsigned(Neg(a)) == (MODULUS - Unsigned(a)) % MODULUS
    ensures Unsigned(Neg(a)) == if Unsigned(a) == 0 then 0 else MODULUS - Unsigned(a)
  {
    UnsignedBound(a);
    if Unsigned(a) == 0 {
      DivModUnique(MODULUS, MODULUS, 1, 0);
    } else {
      ModSmall(MODULUS - Unsigned(a), MODULUS);
    }
  }

  /** Binary `-` is `a + (-b)`. */
  function Minus(a: Int128, b: Int128): Int128
  {
    Plus(a, Neg(b))
  }

  lemma MinusSigned(a: Int128, b: Int128)
    ensures Signed(Minus(a, b)) == Wrap(Signed(a) - Signed(b))
  {
    PlusSigned(a, Neg(b));
    NegSigned(b);
    NegWrapSum(Signed(a), Signed(b));
  }

  lemma NegWrapSum(i: int, j: int)
    requires -HALF <= i < HALF && -HALF <= j < HALF
    ensures Wrap(i + Wrap(-j)) == Wrap(i - j)
  {
    if j == -HALF {
      WrapShift(-j, -1);
      WrapShift(i - j, -1);
    }
  }

  /** The constructor from `std::int64_t`: the bit set of |v|, negated when v < 0. */
  function FromInt64(v: Int64): (r: Int128)
    ensures Signed(r) == v
  {
    var m: int := v;
    var n: nat := if m < 0 then -m else m;
    SignedBitSet(n);
    if m < 0 then Neg(BitSet(n)) else BitSet(n)
  }

  /** The process-wide constants of the source. */
  const ZERO: Int128 := FromInt64(0)
  const ONE: Int128 := FromInt64(1)
  const M_ONE: Int128 := FromInt64(-1)
  const TEN: Int128 := FromInt64(10)

  /** The most negative value, -2^127 (bit 127 alone). */
  function MinValue(): (r: Int128)
    ensures Signed(r) == -HALF
  {
    SignedBitSet(HALF);
    WrapShift(-HALF, 1);
    BitSet(HALF)
  }

  /** Narrowing to `std::int64_t`: the low 64 bits, read as a signed 64-bit value. */
  function ToInt64(x: Int128): (r: Int64)
    ensures Unsigned(x[..64]) == r % 0x1_0000_0000_0000_0000
  {
    var u := Unsigned(x[..64]);
    assert u < 0x1_0000_0000_0000_0000 by {
      UnsignedBelow(x[..64]);
      Pow2Of64();
    }
    if u >= 0x8000_0000_0000_0000 then
      u - 0x1_0000_0000_0000_0000
    else
      u
  }

  /** `get_64bit(pos)`: word `pos` of `m_data` as an unsigned 64-bit value. */
  function Get64(x: Int128, pos: nat): (r: nat)
    requires pos == 0 || pos == 1
    ensures r < 0x1_0000_0000_0000_0000
    ensures pos == 0 ==> r == Unsigned(x) % 0x1_0000_0000_0000_0000
    ensures pos == 1 ==> r == Unsigned(x) / 0x1_0000_0000_0000_0000
  {
    Get64Meaning(x, pos);
    Unsigned(ShiftRight(x, 64 * pos)[..64])
  }

  lemma Get64Meaning(x: Int128, pos: nat)
    requires pos == 0 || pos == 1
    ensures var r := Unsigned(ShiftRight(x, 64 * pos)[..64]);
            r < 0x1_0000_0000_0000_0000
            && (pos == 0 ==> r == Unsigned(x) % 0x1_0000_0000_0000_0000)
            && (pos == 1 ==> r == Unsigned(x) / 0x1_0000_0000_0000_0000)
  {
    Pow2Values();
    if pos == 0 {
      assert ShiftRight(x, 0) == x;
      UnsignedSplit(x, 64);
    } else {
      HighWordValue(x);
    }
  }

  lemma HighWordValue(x: Int128)
    ensures Unsigned(ShiftRight(x, 64)[..64]) == Unsigned(x) / 0x1_0000_0000_0000_0000
    ensures Unsigned(x) / 0x1_0000_0000_0000_0000 < 0x1_0000_0000_0000_0000
  {
    Pow2Values();
    UnsignedBound(x);
    var shifted := ShiftRight(x, 64);
    assert shifted[..64] == x[64..];
    UnsignedSplit(x, 64);
  }

  // ---------------------------------------------------------------------
  // Comparisons.

  /** `==` compares the bit sets. */
  function Equal(lhs: Int128, rhs: Int128): (r: bool)
    ensures r <==> Signed(lhs) == Signed(rhs)
  {
    if Signed(lhs) == Signed(rhs) then SignedInjective(lhs, rhs); lhs == rhs else lhs == rhs
  }

  /** `!=` is `!(rhs == lhs)`. */
  function NotEqual(lhs: Int128, rhs: Int128): (r: bool)
    ensures r <==> Signed(lhs) != Signed(rhs)
  {
    !Equal(rhs, lhs)
  }

  /** The low 127 bits, read as an unsigned number. */
  function Low(x: Int128): nat
  {
    Unsigned(x[..127])
  }

  /** What `operator<` computes: a set sign bit ranks below a clear one; for
      equal sign bits the low 127 bits are compared, in reverse when both are
      negative. */
  function LessThan(lhs: Int128, rhs: Int128): bool
  {
    if lhs[127] != rhs[127] then lhs[127]
    else if rhs[127] then Low(rhs) < Low(lhs)
    else Low(lhs) < Low(rhs)
  }

  /** `>` is `rhs < lhs`. */
  function Greater(lhs: Int128, rhs: Int128): bool
  {
    LessThan(rhs, lhs)
  }

  /** `<=` is `!(rhs < lhs)`. */
  function LessOrEqual(lhs: Int128, rhs: Int128): bool
  {
    !LessThan(rhs, lhs)
  }

  /** `>=` is `!(lhs < rhs)`. */
  function GreaterOrEqual(lhs: Int128, rhs: Int128): bool
  {
    !LessThan(lhs, rhs)
  }

  lemma LowOfSigned(x: Int128)
    ensures Low(x) == Signed(x) + (if x[127] then HALF else 0)
  {
    Pow2Values();
    UnsignedSplit(x, 127);
    assert x[127..] == [x[127]];
  }

  /** The order `<` implements: every negative value below every non-negative
      one, non-negative values in numeric order, and negative values in the
      reverse of numeric order (so -2 < -1 is false). */
  lemma LessThanMeaning(a: Int128, b: Int128)
    ensures Signed(a) < 0 <= Signed(b) ==> LessThan(a, b) && !LessThan(b, a)
    ensures 0 <= Signed(a) && 0 <= Signed(b) ==> (LessThan(a, b) <==> Signed(a) < Signed(b))
    ensures Signed(a) < 0 && Signed(b) < 0 ==> (LessThan(a, b) <==> Signed(b) < Signed(a))
  {
    LowOfSigned(a);
    LowOfSigned(b);
  }

  /** `<` is nevertheless a strict total order: irreflexive, transitive, and
      exactly one of `a < b`, `a == b`, `b < a` holds. */
  lemma LessThanStrictTotalOrder(a: Int128, b: Int128, c: Int128)
    ensures !LessThan(a, a)
    ensures LessThan(a, b) && LessThan(b, c) ==> LessThan(a, c)
    ensures Equal(a, b) ==> !LessThan(a, b) && !LessThan(b, a)
    ensures !Equal(a, b) ==> (LessThan(a, b) <==> !LessThan(b, a))
  {
    LessThanMeaning(a, a);
    LessThanMeaning(a, b);
    LessThanMeaning(b, a);
    LessThanMeaning(b, c);
    LessThanMeaning(a, c);
  }

  /** `>`, `<=` and `>=` are the duals of `<` and `==`. */
  lemma ComparisonDuals(a: Int128, b: Int128)
    ensures Greater(a, b) <==> LessThan(b, a)
    ensures LessOrEqual(a, b) <==> LessThan(a, b) || Equal(a, b)
    ensures GreaterOrEqual(a, b) <==> Greater(a, b) || Equal(a, b)
  {
    LessThanStrictTotalOrder(a, b, b);
  }

  /** Against zero, `<` is the numeric comparison (which `str()` relies on). */
  lemma LessThanZero(x: Int128)
    ensures LessThan(x, ZERO) <==> Signed(x) < 0
  {
    LessThanMeaning(x, ZERO);
  }

  // ---------------------------------------------------------------------
  // Properties of the arithmetic.

  lemma NegInvolutive(x: Int128)
    ensures Neg(Neg(x)) == x
  {
    NegSigned(x);
    NegSigned(Neg(x));
    if Signed(x) == -HALF {
      WrapShift(HALF, -1);
    }
    SignedInjective(Neg(Neg(x)), x);
  }

  /** Negation maps the most negative value to itself; it and zero are the only fixed points. */
  lemma NegFixedPoints(x: Int128)
    ensures Neg(x) == x <==> x == ZERO || x == MinValue()
  {
    var v := Signed(x);
    NegSigned(x);
    assert Wrap(HALF) == -HALF by {
      WrapShift(HALF, -1);
    }
    if Neg(x) == x {
      assert Wrap(-v) == v;
      if v == -HALF {
        SignedInjective(x, MinValue());
      } else {
        assert v == 0;
        SignedInjective(x, ZERO);
      }
    } else if x == ZERO {
      assert Signed(Neg(x)) == 0;
      SignedInjective(Neg(x), x);
    } else if x == MinValue() {
      assert Signed(Neg(x)) == -HALF;
      SignedInjective(Neg(x), x);
    }
  }

  lemma PlusNeg(x: Int128)
    ensures Plus(x, Neg(x)) == ZERO
    ensures Minus(x, x) == ZERO
  {
    PlusSigned(x, Neg(x));
    NegSigned(x);
    NegWrapSum(Signed(x), Signed(x));
    SignedInjective(Plus(x, Neg(x)), ZERO);
  }

  lemma PlusCommutative(a: Int128, b: Int128)
    ensures Plus(a, b) == Plus(b, a)
  {
    SignedInjective(Plus(a, b), Plus(b, a));
  }

  lemma PlusZero(a: Int128)
    ensures Plus(a, ZERO) == a
  {
    assert Unsigned(ZERO) == 0;
    UnsignedBound(a);
    ModSmall(Unsigned(a), MODULUS);
    UnsignedInjective(Plus(a, ZERO), a);
  }

  /** Wrap-around addition is associative. */
  lemma PlusAssociative(a: Int128, b: Int128, c: Int128)
    ensures Plus(Plus(a, b), c) == Plus(a, Plus(b, c))
  {
    var ua, ub, uc := Unsigned(a), Unsigned(b), Unsigned(c);
    PlusUnsigned(a, b);
    PlusUnsigned(Plus(a, b), c);
    PlusUnsigned(b, c);
    PlusUnsigned(a, Plus(b, c));
    ModAddLeft(ua + ub, uc, MODULUS);
    ModAddRight(ua, ub + uc, MODULUS);
    UnsignedInjective(Plus(Plus(a, b), c), Plus(a, Plus(b, c)));
  }

  // ---------------------------------------------------------------------
  // The loops of the source.

  /** One position of the ripple-carry adder: with p the weight of position i,
      the sum bit and the carry out weigh what the two input bits and the carry in do. */
  lemma AdderStep(r: int, a: int, b: int, p: int, x: bool, y: bool, c: bool)
    requires r + (if c then p else 0) == a + b
    ensures var s := (x != y) != c;
            var c' := if x == y then x else c;
            (r + (if s then p else 0)) + (if c' then 2 * p else 0)
            == (a + (if x then p else 0)) + (b + (if y then p else 0))
  {
  }

  /** `operator+=`: a 128-step ripple-carry loop over `m_data`. After step i
      the low i bits hold (a + b) mod 2^i and `carry` is the carry out of bit i - 1. */
  method AddAssign(a: Int128, b: Int128) returns (r: Int128)
    ensures r == Plus(a, b)
  {
    r := a;
    var carry := false;
    var i := 0;
    while i < 128
      invariant 0 <= i <= 128
      invariant r[i..] == a[i..]
      invariant Unsigned(r[..i]) + (if carry then Pow2(i) else 0) == Unsigned(a[..i]) + Unsigned(b[..i])
    {
      AdderInvariantStep(a, b, r, carry, i);
      var newVal := (r[i] != b[i]) != carry;
      if r[i] == b[i] {
        carry := r[i];
      }
      r := r[i := newVal];
      i := i + 1;
    }
    assert r[..128] == r && a[..128] == a && b[..128] == b;
    AdderResult(a, b, r, carry);
  }

  /** One round of the adder keeps its invariant. */
  lemma AdderInvariantStep(a: Int128, b: Int128, r: Int128, carry: bool, i: nat)
    requires i < 128 && r[i..] == a[i..]
    requires Unsigned(r[..i]) + (if carry then Pow2(i) else 0) == Unsigned(a[..i]) + Unsigned(b[..i])
    ensures var newVal := (r[i] != b[i]) != carry;
            var carry' := if r[i] == b[i] then r[i] else carry;
            var r' := r[i := newVal];
            r'[i + 1..] == a[i + 1..] &&
            Unsigned(r'[..i + 1]) + (if carry' then Pow2(i + 1) else 0) == Unsigned(a[..i + 1]) + Unsigned(b[..i + 1])
  {
    assert r[i] == a[i] by {
      assert r[i..][0] == a[i..][0];
    }
    var newVal := (r[i] != b[i]) != carry;
    var r' := r[i := newVal];
    assert r'[..i] == r[..i];
    assert r'[i + 1..] == a[i + 1..] by {
      assert r'[i + 1..] == r[i + 1..];
      assert r[i + 1..] == r[i..][1..];
      assert a[i + 1..] == a[i..][1..];
    }
    UnsignedPrefixStep(r', i);
    UnsignedPrefixStep(a, i);
    UnsignedPrefixStep(b, i);
    AdderStep(Unsigned(r[..i]), Unsigned(a[..i]), Unsigned(b[..i]), Pow2(i), a[i], b[i], carry);
  }

  lemma AdderResult(a: Int128, b: Int128, r: Int128, carry: bool)
    requires Unsigned(r) + (if carry then Pow2(128) else 0) == Unsigned(a) + Unsigned(b)
    ensures r == Plus(a, b)
  {
    Pow2Of128();
    UnsignedBound(r);
    PlusUnsigned(a, b);
    UnsignedInjective(r, Plus(a, b));
  }

  /** Unary `operator-`: flip every bit, then add one. */
  method Negate(a: Int128) returns (r: Int128)
    ensures r == Neg(a)
  {
    r := AddAssign(Flip(a), ONE);
    FlipPlusOne(a);
  }

  /** Flipping every bit and adding one is two's-complement negation. */
  lemma FlipPlusOne(a: Int128)
    ensures Plus(Flip(a), ONE) == Neg(a)
  {
    var f := Flip(a);
    assert Unsigned(f) + 1 == MODULUS - Unsigned(a) by {
      FlipValue(a);
      Pow2Of128();
    }
    OneValue();
    PlusByValue(f, ONE, MODULUS - Unsigned(a));
  }

  lemma OneValue()
    ensures Unsigned(ONE) == 1
  {
    ModSmall(1, MODULUS);
  }

  /** `+` depends only on the sum of the unsigned readings. */
  lemma PlusByValue(a: Int128, b: Int128, n: nat)
    requires Unsigned(a) + Unsigned(b) == n
    ensures Plus(a, b) == BitSet(n)
  {
  }

  /** `operator-=`: adds the negation. */
  method SubAssign(a: Int128, b: Int128) returns (r: Int128)
    ensures r == Minus(a, b)
  {
    var nb := Negate(b);
    r := AddAssign(a, nb);
  }

  /** `less_unsigned`: scans from bit 127 down for the first difference. */
  method LessUnsigned(x: Int128, value: Int128) returns (r: bool)
    ensures r <==> Unsigned(x) < Unsigned(value)
  {
    var i := 128;
    while i > 0
      invariant 0 <= i <= 128
      invariant x[i..] == value[i..]
    {
      if value[i - 1] && !x[i - 1] {
        FirstDifference(x, value, i - 1);
        return true;
      }
      if !value[i - 1] && x[i - 1] {
        FirstDifference(value, x, i - 1);
        return false;
      }
      assert x[i - 1..] == [x[i - 1]] + x[i..];
      assert value[i - 1..] == [value[i - 1]] + value[i..];
      i := i - 1;
    }
    assert x == x[0..] && value == value[0..];
    return false;
  }

  /** `operator<`: settles differing sign bits, then scans bits 126 down to 0. */
  method Less(lhs: Int128, rhs: Int128) returns (r: bool)
    ensures r == LessThan(lhs, rhs)
  {
    if rhs[127] && !lhs[127] {
      return false;
    }
    if !rhs[127] && lhs[127] {
      return true;
    }
    var reverse := rhs[127];
    var a, b := lhs[..127], rhs[..127];
    var i := 127;
    while i > 0
      invariant 0 <= i <= 127
      invariant a[i..] == b[i..]
    {
      assert a[i - 1] == lhs[i - 1] && b[i - 1] == rhs[i - 1];
      if rhs[i - 1] && !lhs[i - 1] {
        FirstDifference(a, b, i - 1);
        return !reverse;
      }
      if !rhs[i - 1] && lhs[i - 1] {
        FirstDifference(b, a, i - 1);
        return reverse;
      }
      assert a[i - 1..] == [a[i - 1]] + a[i..];
      assert b[i - 1..] == [b[i - 1]] + b[i..];
      i := i - 1;
    }
    assert a == a[0..] && b == b[0..];
    return false;
  }

  /** The evidently intended `operator<`: the same scan without the reversal,
      which is numeric order on the signed values. */
  method LessSigned(lhs: Int128, rhs: Int128) returns (r: bool)
    ensures r <==> Signed(lhs) < Signed(rhs)
  {
    LowOfSigned(lhs);
    LowOfSigned(rhs);
    if rhs[127] && !lhs[127] {
      return false;
    }
    if !rhs[127] && lhs[127] {
      return true;
    }
    var a, b := lhs[..127], rhs[..127];
    var i := 127;
    while i > 0
      invariant 0 <= i <= 127
      invariant a[i..] == b[i..]
    {
      assert a[i - 1] == lhs[i - 1] && b[i - 1] == rhs[i - 1];
      if rhs[i - 1] && !lhs[i - 1] {
        FirstDifference(a, b, i - 1);
        return true;
      }
      if !rhs[i - 1] && lhs[i - 1] {
        FirstDifference(b, a, i - 1);
        return false;
      }
      assert a[i - 1..] == [a[i - 1]] + a[i..];
      assert b[i - 1..] == [b[i - 1]] + b[i..];
      i := i - 1;
    }
    assert a == a[0..] && b == b[0..];
    return false;
  }

  /** As written, `-2 < -1` is false although -2 is the smaller value. */
  lemma LessThanNegativesCounterexample()
    ensures Signed(FromInt64(-2)) < Signed(FromInt64(-1))
    ensures !LessThan(FromInt64(-2), FromInt64(-1))
  {
    LessThanMeaning(FromInt64(-2), FromInt64(-1));
  }

  // ---------------------------------------------------------------------
  // Construction from and narrowing to 64 bits.

  /** Narrowing undoes construction: `int64(Int128(v)) == v`. */
  lemma ToInt64FromInt64(v: Int64)
    ensures ToInt64(FromInt64(v)) == v
  {
    Narrow(FromInt64(v), v);
  }

  /** Any pattern holding a 64-bit value narrows to it. */
  lemma Narrow(x: Int128, v: Int64)
    requires Signed(x) == v
    ensures ToInt64(x) == v
  {
    var w := 0x1_0000_0000_0000_0000;
    var u := Unsigned(x);
    assert Unsigned(x[..64]) == u % w by {
      Pow2Of64();
      UnsignedSplit(x, 64);
    }
    if v >= 0 {
      ModSmall(v, w);
    } else {
      assert u == v + MODULUS;
      DivModUnique(u, w, w - 1, v + w);
    }
  }

  /** Construction sign-extends: the high 64 bits all equal the sign. */
  lemma FromInt64SignExtends(v: Int64)
    ensures forall i :: 64 <= i < 128 ==> FromInt64(v)[i] == (v < 0)
  {
    HighHalf(FromInt64(v), v);
  }

  /** The high word of a pattern holding a 64-bit value is all sign bits. */
  lemma HighHalf(x: Int128, v: Int64)
    requires Signed(x) == v
    ensures forall i :: 64 <= i < 128 ==> x[i] == (v < 0)
  {
    var fill := SignWord(x, v);
    forall i | 64 <= i < 128
      ensures x[i] == (v < 0)
    {
      assert x[i] == fill[i - 64];
    }
  }

  lemma SignWord(x: Int128, v: Int64) returns (fill: seq<bool>)
    requires Signed(x) == v
    ensures x[64..] == fill && |fill| == 64
    ensures forall i :: 0 <= i < 64 ==> fill[i] == (v < 0)
  {
    var n: nat := |x| - 64;
    fill := if v < 0 then Flip(Zeros(n)) else Zeros(n);
    var w := 0x1_0000_0000_0000_0000;
    Pow2Of64();
    UnsignedSplit(x, 64);
    if v < 0 {
      assert Unsigned(x) == v + MODULUS;
      FlipValue(Zeros(n));
      DivModUnique(Unsigned(x), w, w - 1, v + w);
    } else {
      DivModUnique(Unsigned(x), w, 0, v);
    }
    UnsignedInjective(x[64..], fill);
  }
}
