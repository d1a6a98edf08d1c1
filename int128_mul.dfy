/** `operator*=` of src/int128.cpp: both operands are made non-negative by
    flip-plus-one, their magnitudes are multiplied with 64- and 32-bit pieces in
    unsigned 64-bit arithmetic, and the product is negated when its bit 127
    differs from the expected sign. */
module Int128Mul {
  import opened Arith
  import opened Bits
  import opened Int128Core

  /** 2^64 and 2^32. */
  const WORD: int := 0x1_0000_0000_0000_0000
  const HALF_WORD: int := 0x1_0000_0000

  /** `std::uint64_t` multiplication and addition, which wrap modulo 2^64. */
  function Mul64(x: nat, y: nat): (r: nat)
    ensures r < WORD
  {
    (x * y) % WORD
  }

  function Add64(x: nat, y: nat): (r: nat)
    ensures r < WORD
  {
    (x + y) % WORD
  }

  /** The operand after `if (m_data[127]) { flip; += ONE }`. */
  function Abs(x: Int128): Int128
  {
    if x[127] then Neg(x) else x
  }

  /** The unsigned reading of `Abs(x)`: |x|, where |MIN| is 2^127. */
  function Magnitude(x: Int128): (m: nat)
    ensures m == if Signed(x) < 0 then -Signed(x) else Signed(x)
    ensures m <= HALF
  {
    MagnitudeMeaning(x);
    Unsigned(Abs(x))
  }

  lemma MagnitudeMeaning(x: Int128)
    ensures Unsigned(Abs(x)) == if Signed(x) < 0 then -Signed(x) else Signed(x)
  {
    if x[127] {
      NegUnsigned(x);
      assert Signed(x) == Unsigned(x) - MODULUS;
    }
  }

  /** The sign fixup shared by `*=` and `div_mod`: negate when bit 127
      disagrees with the sign the result should have. */
  function SignFixup(x: Int128, sign: bool): Int128
  {
    if x[127] != sign then Neg(x) else x
  }

  /** What `operator*=` computes: the low 128 bits of |a|·|b|, negated when
      their bit 127 disagrees with the sign the product should have. */
  function Times(a: Int128, b: Int128): Int128
  {
    var sign := a[127] != b[127];
    SignFixup(RawProduct(a, b), sign)
  }

  /** The pattern before the sign fixup: |a|·|b| mod 2^128. */
  function RawProduct(a: Int128, b: Int128): (r: Int128)
    ensures Unsigned(r) == (Magnitude(a) * Magnitude(b)) % MODULUS
  {
    MulNonNegative(Magnitude(a), Magnitude(b));
    BitSet(Magnitude(a) * Magnitude(b))
  }

  /** Whenever the exact product is representable, `*` yields it. */
  lemma TimesExact(a: Int128, b: Int128)
    requires -HALF <= Signed(a) * Signed(b) < HALF
    ensures Signed(Times(a, b)) == Signed(a) * Signed(b)
  {
    var sa, sb := Signed(a), Signed(b);
    var p := Magnitude(a) * Magnitude(b);
    var sign := a[127] != b[127];
    SignedProduct(sa, sb);
    assert p == if sign then -(sa * sb) else sa * sb;
    ModSmall(p, MODULUS);
    FixupExact(RawProduct(a, b), sign, p);
  }

  /** The sign fixup applied to the pattern of a magnitude p that fits. */
  lemma FixupExact(raw: Int128, sign: bool, p: nat)
    requires Unsigned(raw) == p && (p < HALF || (sign && p == HALF))
    ensures Signed(SignFixup(raw, sign)) == if sign then -(p as int) else p
  {
    assert Signed(raw) == Wrap(p) by {
      SignedIsWrap(raw);
    }
    if p == HALF {
      WrapShift(-HALF, 1);
    }
  }

  /** (|x| |y|) is the product with the sign removed. */
  lemma SignedProduct(x: int, y: int)
    ensures (if x < 0 then -x else x) * (if y < 0 then -y else y)
            == if (x < 0) != (y < 0) then -(x * y) else x * y
  {
  }

  lemma TimesCommutative(a: Int128, b: Int128)
    ensures Times(a, b) == Times(b, a)
  {
    MulComm(Magnitude(a), Magnitude(b));
  }

  /** The magnitude the sign fixup leaves for a pattern reading u mod 2^128:
      u itself up to 2^127, and its complement above. */
  function Fold(u: int): (m: nat)
    ensures m <= HALF
  {
    var q := u % MODULUS;
    if q <= HALF then q else MODULUS - q
  }

  /** m with the sign a negative flag gives it. */
  function WithSign(sign: bool, m: nat): int
  {
    if sign then -(m as int) else m as int
  }

  /** The fixup gives the folded magnitude, negated (and wrapped) for a negative sign. */
  lemma FixupFold(raw: Int128, sign: bool)
    ensures Signed(SignFixup(raw, sign)) == Wrap(WithSign(sign, Fold(Unsigned(raw))))
  {
    var u := Unsigned(raw);
    UnsignedBound(raw);
    ModSmall(u, MODULUS);
    if u <= HALF {
      assert Fold(u) == u;
      FixupWrap(raw, sign, u);
    } else {
      SignedIsWrap(raw);
      assert Signed(raw) == u - MODULUS;
      if !sign {
        NegSigned(raw);
      }
    }
  }

  /** The sign fixup applied to a pattern of magnitude p at most 2^127. */
  lemma FixupWrap(raw: Int128, sign: bool, p: nat)
    requires Unsigned(raw) == p && p <= HALF
    ensures Signed(SignFixup(raw, sign)) == Wrap(if sign then -(p as int) else p)
  {
    if p < HALF || sign {
      FixupExact(raw, sign, p);
    } else {
      SignedIsWrap(raw);
      WrapShift(-HALF, 1);
      NegSigned(raw);
      WrapShift(-HALF, 1);
    }
  }

  /** A product is the folded product of the magnitudes, carrying the XOR of the signs. */
  lemma TimesFold(a: Int128, b: Int128)
    ensures Signed(Times(a, b)) == Wrap(WithSign(a[127] != b[127], Fold(Magnitude(a) * Magnitude(b))))
  {
    var raw := RawProduct(a, b);
    ReducedFold(Unsigned(raw), Magnitude(a) * Magnitude(b));
    FixupFold(raw, a[127] != b[127]);
  }

  /** Folding ignores a reduction modulo 2^128 made beforehand. */
  lemma ReducedFold(u: int, p: int)
    requires u == p % MODULUS
    ensures Fold(u) == Fold(p)
  {
    ModSmall(u, MODULUS);
  }

  /** Reading back the magnitude and the sign bit of Wrap(±m). */
  lemma SignedFold(r: Int128, sign: bool, m: nat)
    requires m <= HALF && Signed(r) == Wrap(WithSign(sign, m))
    ensures Magnitude(r) == m
    ensures r[127] == if sign then m > 0 else m == HALF
  {
    if !sign && m == HALF {
      WrapShift(-HALF, 1);
    }
  }

  /** Folding is compatible with multiplication: a factor may be folded first. */
  lemma FoldMul(x: nat, y: nat)
    ensures Fold(Fold(x) * y) == Fold(x * y)
  {
    var q := x % MODULUS;
    MulNonNegative(x, y);
    var r := (x * y) % MODULUS;
    assert (q * y) % MODULUS == r by {
      ModMulLeft(x, y, MODULUS);
    }
    if q > HALF {
      assert ((MODULUS - q) * y) % MODULUS == (MODULUS - r) % MODULUS by {
        ModComplementMul(q, y, MODULUS);
      }
      if r == 0 {
        DivModUnique(MODULUS, MODULUS, 1, 0);
      } else {
        ModSmall(MODULUS - r, MODULUS);
      }
    }
  }

  /** Folding 2^127 · y leaves 0 or 2^127. */
  lemma FoldHalf(y: nat)
    ensures Fold(HALF * y) == 0 || Fold(HALF * y) == HALF
  {
    HalfMultiple(HALF, y);
  }

  /** Wrap(±m) for a folded magnitude: the sign is irrelevant at 0 and 2^127. */
  lemma SameFold(s1: bool, s2: bool, m: nat)
    requires m <= HALF && (s1 == s2 || m == 0 || m == HALF)
    ensures Wrap(WithSign(s1, m)) == Wrap(WithSign(s2, m))
  {
    if m == HALF {
      WrapShift(-HALF, 1);
    }
  }

  /** (a * b) * c folds the product of the three magnitudes and carries the XOR of the three signs. */
  lemma LeftGrouping(a: Int128, b: Int128, c: Int128, m: nat)
    requires m == Fold(Magnitude(a) * Magnitude(b) * Magnitude(c))
    ensures Signed(Times(Times(a, b), c)) == Wrap(WithSign((a[127] != b[127]) != c[127], m))
  {
    var ma, mb, mc := Magnitude(a), Magnitude(b), Magnitude(c);
    var ab := Times(a, b);
    var x := (ma as int) * (mb as int);
    MulNonNegative(ma, mb);
    var mab := Fold(x);
    TimesFold(a, b);
    SignedFold(ab, a[127] != b[127], mab);
    TimesFold(ab, c);
    CombineSigns(a[127] != b[127], c[127], ab[127], x, mab, mc, m);
  }

  /** The sign of a partial product matters only where the whole product does
      not fold to 0 or 2^127, and there it is the XOR of the operand signs. */
  lemma CombineSigns(sab: bool, sc: bool, bit: bool, x: int, mab: nat, mc: nat, m: nat)
    requires x >= 0 && mab == Fold(x) && m == Fold(x * mc)
    requires bit == if sab then mab > 0 else mab == HALF
    ensures Wrap(WithSign(bit != sc, Fold(mab * mc))) == Wrap(WithSign(sab != sc, m))
  {
    FoldMul(x, mc);
    if mab == 0 {
      assert mab * mc == 0;
    } else if mab == HALF {
      FoldHalf(mc);
    }
    SameFold(bit != sc, sab != sc, m);
  }

  /** The product of three magnitudes, regrouped. */
  lemma Regroup(x: nat, y: nat, z: nat)
    ensures x * y * z == y * z * x
  {
    MulAssoc(x, y, z);
    MulComm(x, y * z);
  }

  /** `*` is associative, overflow included: both groupings fold the product of
      the three magnitudes the same way and carry the XOR of the three signs. */
  lemma TimesAssociative(a: Int128, b: Int128, c: Int128)
    ensures Times(Times(a, b), c) == Times(a, Times(b, c))
  {
    var ma, mb, mc := Magnitude(a), Magnitude(b), Magnitude(c);
    var m := Fold((ma as int) * (mb as int) * (mc as int));
    LeftGrouping(a, b, c, m);
    Regroup(ma, mb, mc);
    LeftGrouping(b, c, a, m);
    TimesCommutative(a, Times(b, c));
    SignedInjective(Times(Times(a, b), c), Times(a, Times(b, c)));
  }

  /** After the fixup, bit 127 is the sign asked for, unless the result is 0
      or the minimum, whose patterns the fixup cannot give the other sign. */
  lemma FixupSign(raw: Int128, sign: bool)
    requires Signed(SignFixup(raw, sign)) != 0 && Signed(SignFixup(raw, sign)) != -HALF
    ensures SignFixup(raw, sign)[127] == sign
  {
    FixupFold(raw, sign);
    SignedFold(SignFixup(raw, sign), sign, Fold(Unsigned(raw)));
    if !sign && Fold(Unsigned(raw)) == HALF {
      WrapShift(-HALF, 1);
    }
  }

  /** The product's sign bit is the XOR of the operands' sign bits, unless the
      product is 0 or the minimum. */
  lemma TimesSign(a: Int128, b: Int128)
    requires Signed(Times(a, b)) != 0 && Signed(Times(a, b)) != -HALF
    ensures Times(a, b)[127] == (a[127] != b[127])
  {
    FixupSign(RawProduct(a, b), a[127] != b[127]);
  }

  /** An overflowing product: 2^64 · (2^63 + 1) is 2^127 + 2^64, whose low 128
      bits have bit 127 set while the expected sign is positive, so the fixup
      negates them to 2^127 - 2^64 rather than giving the wrapped product. */
  lemma TimesOverflowExample(a: Int128, b: Int128)
    requires Signed(a) == 0x1_0000_0000_0000_0000 && Signed(b) == 0x8000_0000_0000_0001
    ensures Signed(Times(a, b)) == 0x7FFF_FFFF_FFFF_FFFF_0000_0000_0000_0000
  {
    TimesFold(a, b);
    assert Magnitude(a) * Magnitude(b) == 0x8000_0000_0000_0001_0000_0000_0000_0000;
  }

  // ---------------------------------------------------------------------
  // The 32-bit split.

  lemma SmallProduct(x: nat, y: nat, p: nat, q: nat)
    requires x < p && y < q
    ensures x * y < p * q
  {
    if y > 0 {
      MulStrict(x, p, y);
      MulMonotone(y, q, p);
      MulComm(p, y);
    } else {
      assert p * q > 0;
    }
  }

  /** The schoolbook sum modulo 2^128: the high word wraps modulo 2^64 and the
      a1·b1 term falls off entirely. */
  lemma SplitProduct(a: nat, b: nat, a1: nat, a0: nat, b1: nat, b0: nat,
                     a32: nat, a00: nat, b32: nat, b00: nat, hi: nat)
    requires a == a1 * WORD + a0 && a0 == a32 * HALF_WORD + a00
    requires b == b1 * WORD + b0 && b0 == b32 * HALF_WORD + b00
    requires hi == (a1 * b0 + a0 * b1 + a32 * b32) % WORD
    ensures (a * b) % MODULUS
            == (hi * WORD + a00 * b00 + a32 * b00 * HALF_WORD + a00 * b32 * HALF_WORD) % MODULUS
  {
    var x := a1 * b0 + a0 * b1 + a32 * b32;
    var y := a00 * b00 + a32 * b00 * HALF_WORD + a00 * b32 * HALF_WORD;
    assert a0 * b0 == a32 * b32 * WORD + a32 * b00 * HALF_WORD + a00 * b32 * HALF_WORD + a00 * b00 by {
      assert a0 * b0 == (a32 * HALF_WORD + a00) * (b32 * HALF_WORD + b00);
    }
    assert a * b == a1 * b1 * MODULUS + x * WORD + y by {
      assert a * b == (a1 * WORD + a0) * (b1 * WORD + b0);
    }
    ModShift(x * WORD + y, a1 * b1, MODULUS);
    var q := x / WORD;
    assert x == q * WORD + hi;
    assert x * WORD + y == hi * WORD + y + q * MODULUS by {
      assert x * WORD == (q * WORD + hi) * WORD;
    }
    ModShift(hi * WORD + y, q, MODULUS);
  }

  /** The high word as the source computes it, in wrapping 64-bit arithmetic. */
  lemma HighWord(a1: nat, b0: nat, a0: nat, b1: nat, a32: nat, b32: nat)
    ensures Add64(Add64(Mul64(a1, b0), Mul64(a0, b1)), Mul64(a32, b32))
            == (a1 * b0 + a0 * b1 + a32 * b32) % WORD
  {
    MulNonNegative(a1, b0);
    MulNonNegative(a0, b1);
    MulNonNegative(a32, b32);
    ModSumOfThree(a1 * b0, a0 * b1, a32 * b32, WORD);
  }

  /** Shifting a value left within 128 bits is exact when nothing reaches past bit 127. */
  lemma ShiftLeftExact(x: Int128, k: nat, m: nat)
    requires Unsigned(x) * Pow2(k) < MODULUS && m == Pow2(k)
    ensures Unsigned(ShiftLeft(x, k)) == Unsigned(x) * m
  {
    ShiftLeftValue(x, k);
    Pow2Of128();
    MulNonNegative(Unsigned(x), Pow2(k));
    ModSmall(Unsigned(x) * Pow2(k), MODULUS);
  }

  /** `bitset<128>(x * y)` for 32-bit x and y holds the exact product. */
  lemma SmallMul64(x: nat, y: nat)
    requires x < HALF_WORD && y < HALF_WORD
    ensures Mul64(x, y) == x * y && Unsigned(BitSet(Mul64(x, y))) == x * y
    ensures x * y < WORD
  {
    MulNonNegative(x, y);
    SmallProduct(x, y, HALF_WORD, HALF_WORD);
    ModSmall(x * y, WORD);
    ModSmall(x * y, MODULUS);
  }

  /** `bitset<128>(w) <<= 64` for a 64-bit w. */
  lemma HighPartValue(w: nat)
    requires w < WORD
    ensures Unsigned(ShiftLeft(BitSet(w), 64)) == w * WORD && w * WORD < MODULUS
  {
    ModSmall(w, MODULUS);
    SmallProduct(w, WORD, WORD, WORD + 1);
    Pow2Values();
    ShiftLeftExact(BitSet(w), 64, WORD);
  }

  /** A 32-bit partial product placed 32 bits up: `bitset<128>(x * y) <<= 32`. */
  lemma PartialValue(x: nat, y: nat)
    requires x < HALF_WORD && y < HALF_WORD
    ensures Unsigned(ShiftLeft(BitSet(Mul64(x, y)), 32)) == x * y * HALF_WORD
  {
    SmallMul64(x, y);
    SmallProduct(x * y, HALF_WORD, WORD, HALF_WORD + 1);
    Pow2Values();
    ShiftLeftExact(BitSet(Mul64(x, y)), 32, HALF_WORD);
  }

  /** The sum the body of `*=` accumulates once the high word `hi` and the
      32-bit halves of the low words are known (src/int128.cpp:66-78). */
  function Assemble(hi: nat, a32: nat, a00: nat, b32: nat, b00: nat): Int128
  {
    var high := ShiftLeft(BitSet(hi), 64);
    var low := Plus(high, BitSet(Mul64(a00, b00)));
    var mid := Plus(low, ShiftLeft(BitSet(Mul64(a32, b00)), 32));
    Plus(mid, ShiftLeft(BitSet(Mul64(a00, b32)), 32))
  }

  lemma AddStep(p: Int128, q: Int128, acc: nat, v: nat)
    requires Unsigned(p) == acc % MODULUS && Unsigned(q) == v
    ensures Unsigned(Plus(p, q)) == (acc + v) % MODULUS
  {
    PlusUnsigned(p, q);
    ModAddLeft(acc, v, MODULUS);
  }

  /** Three wrapping additions accumulate the sum of four values mod 2^128. */
  lemma SumOfFour(w: Int128, x: Int128, y: Int128, z: Int128, h: nat, p0: nat, p1: nat, p2: nat)
    requires h < MODULUS && Unsigned(w) == h && Unsigned(x) == p0
    requires Unsigned(y) == p1 && Unsigned(z) == p2
    ensures Unsigned(Plus(Plus(Plus(w, x), y), z)) == (h + p0 + p1 + p2) % MODULUS
  {
    ModSmall(h, MODULUS);
    AddStep(w, x, h, p0);
    AddStep(Plus(w, x), y, h + p0, p1);
    AddStep(Plus(Plus(w, x), y), z, h + p0 + p1, p2);
  }

  lemma AssembleValue(hi: nat, a32: nat, a00: nat, b32: nat, b00: nat,
                      p0: nat, p1: nat, p2: nat)
    requires hi < WORD && a32 < HALF_WORD && a00 < HALF_WORD && b32 < HALF_WORD && b00 < HALF_WORD
    requires p0 == a00 * b00 && p1 == a32 * b00 * HALF_WORD && p2 == a00 * b32 * HALF_WORD
    ensures Unsigned(Assemble(hi, a32, a00, b32, b00)) == (hi * WORD + p0 + p1 + p2) % MODULUS
  {
    PiecesValue(hi, a32, a00, b32, b00, p0, p1, p2);
    SumOfFour(ShiftLeft(BitSet(hi), 64), BitSet(Mul64(a00, b00)),
              ShiftLeft(BitSet(Mul64(a32, b00)), 32), ShiftLeft(BitSet(Mul64(a00, b32)), 32),
              hi * WORD, p0, p1, p2);
  }

  /** The four terms `*=` adds up. */
  lemma PiecesValue(hi: nat, a32: nat, a00: nat, b32: nat, b00: nat,
                    p0: nat, p1: nat, p2: nat)
    requires hi < WORD && a32 < HALF_WORD && a00 < HALF_WORD && b32 < HALF_WORD && b00 < HALF_WORD
    requires p0 == a00 * b00 && p1 == a32 * b00 * HALF_WORD && p2 == a00 * b32 * HALF_WORD
    ensures Unsigned(ShiftLeft(BitSet(hi), 64)) == hi * WORD && hi * WORD < MODULUS
    ensures Unsigned(BitSet(Mul64(a00, b00))) == p0
    ensures Unsigned(ShiftLeft(BitSet(Mul64(a32, b00)), 32)) == p1
    ensures Unsigned(ShiftLeft(BitSet(Mul64(a00, b32)), 32)) == p2
  {
    HighPartValue(hi);
    SmallMul64(a00, b00);
    PartialValue(a32, b00);
    PartialValue(a00, b32);
  }

  /** The bit pattern the body of `*=` assembles from the words of the
      magnitudes before the sign fixup (src/int128.cpp:58-78). */
  function Schoolbook(x: Int128, y: Int128): Int128
  {
    Split(Get64(x, 1), Get64(x, 0), Get64(y, 1), Get64(y, 0))
  }

  /** The product from the words a1·2^64 + a0 and b1·2^64 + b0: the high word
      in wrapping 64-bit arithmetic, then the low words in 32-bit halves. */
  function Split(a1: nat, a0: nat, b1: nat, b0: nat): Int128
  {
    var hi := Add64(Add64(Mul64(a1, b0), Mul64(a0, b1)), Mul64(a0 / HALF_WORD, b0 / HALF_WORD));
    Assemble(hi, a0 / HALF_WORD, a0 % HALF_WORD, b0 / HALF_WORD, b0 % HALF_WORD)
  }

  /** The 32-bit split computes x·y mod 2^128. */
  lemma SchoolbookValue(x: Int128, y: Int128)
    ensures Schoolbook(x, y) == BitSet(Unsigned(x) * Unsigned(y))
  {
    var u, v := Unsigned(x), Unsigned(y);
    OperandWords(x);
    OperandWords(y);
    SplitValue(u, v, Get64(x, 1), Get64(x, 0), Get64(y, 1), Get64(y, 0));
    MulNonNegative(u, v);
    UnsignedInjective(Schoolbook(x, y), BitSet(u * v));
  }

  lemma SplitValue(u: nat, v: nat, a1: nat, a0: nat, b1: nat, b0: nat)
    requires u == a1 * WORD + a0 && a0 < WORD
    requires v == b1 * WORD + b0 && b0 < WORD
    ensures Unsigned(Split(a1, a0, b1, b0)) == (u * v) % MODULUS
  {
    var hi, a32, a00, b32, b00 := SplitPieces(a1, a0, b1, b0);
    AssembledProduct(u, v, a1, a0, b1, b0, hi, a32, a00, b32, b00);
  }

  /** The 32-bit halves of the low words and the high word of the product. */
  lemma SplitPieces(a1: nat, a0: nat, b1: nat, b0: nat) returns (hi: nat, a32: nat, a00: nat, b32: nat, b00: nat)
    requires a0 < WORD && b0 < WORD
    ensures Split(a1, a0, b1, b0) == Assemble(hi, a32, a00, b32, b00)
    ensures a0 == a32 * HALF_WORD + a00 && b0 == b32 * HALF_WORD + b00
    ensures a32 < HALF_WORD && a00 < HALF_WORD && b32 < HALF_WORD && b00 < HALF_WORD
    ensures hi == Add64(Add64(Mul64(a1, b0), Mul64(a0, b1)), Mul64(a32, b32))
  {
    a32, a00 := a0 / HALF_WORD, a0 % HALF_WORD;
    b32, b00 := b0 / HALF_WORD, b0 % HALF_WORD;
    HalfWords(a0);
    HalfWords(b0);
    hi := Add64(Add64(Mul64(a1, b0), Mul64(a0, b1)), Mul64(a32, b32));
  }

  lemma AssembledProduct(u: nat, v: nat, a1: nat, a0: nat, b1: nat, b0: nat,
                         hi: nat, a32: nat, a00: nat, b32: nat, b00: nat)
    requires u == a1 * WORD + a0 && v == b1 * WORD + b0
    requires a0 == a32 * HALF_WORD + a00 && b0 == b32 * HALF_WORD + b00
    requires a32 < HALF_WORD && a00 < HALF_WORD && b32 < HALF_WORD && b00 < HALF_WORD
    requires hi == Add64(Add64(Mul64(a1, b0), Mul64(a0, b1)), Mul64(a32, b32))
    ensures Unsigned(Assemble(hi, a32, a00, b32, b00)) == (u * v) % MODULUS
  {
    var p0, p1, p2 := a00 * b00, a32 * b00 * HALF_WORD, a00 * b32 * HALF_WORD;
    Products(a32, a00, b32, b00);
    AssembleValue(hi, a32, a00, b32, b00, p0, p1, p2);
    ProductChain(u, v, a1, a0, b1, b0, a32, a00, b32, b00, hi, p0, p1, p2,
                 Unsigned(Assemble(hi, a32, a00, b32, b00)));
  }

  lemma HalfWords(w: nat)
    requires w < WORD
    ensures w == (w / HALF_WORD) * HALF_WORD + w % HALF_WORD
    ensures w / HALF_WORD < HALF_WORD && w % HALF_WORD < HALF_WORD
  {
    DivModUnique(w, HALF_WORD, w / HALF_WORD, w % HALF_WORD);
  }

  /** The words `*=` reads from an operand. */
  lemma OperandWords(x: Int128)
    ensures Unsigned(x) == Get64(x, 1) * WORD + Get64(x, 0)
  {
    UnsignedBound(x);
    DivModUnique(Unsigned(x), WORD, Unsigned(x) / WORD, Unsigned(x) % WORD);
  }

  /** The arithmetic of the 32-bit split, free of bit patterns. */
  lemma ProductChain(u: nat, v: nat, a1: nat, a0: nat, b1: nat, b0: nat,
                     a32: nat, a00: nat, b32: nat, b00: nat, hi: nat, p0: nat, p1: nat, p2: nat, t: nat)
    requires u == a1 * WORD + a0 && a0 == a32 * HALF_WORD + a00
    requires v == b1 * WORD + b0 && b0 == b32 * HALF_WORD + b00
    requires hi == Add64(Add64(Mul64(a1, b0), Mul64(a0, b1)), Mul64(a32, b32))
    requires p0 == a00 * b00 && p1 == a32 * b00 * HALF_WORD && p2 == a00 * b32 * HALF_WORD
    requires t == (hi * WORD + p0 + p1 + p2) % MODULUS
    ensures t == (u * v) % MODULUS
  {
    HighWord(a1, b0, a0, b1, a32, b32);
    SplitProduct(u, v, a1, a0, b1, b0, a32, a00, b32, b00, hi);
  }

  lemma Products(a32: nat, a00: nat, b32: nat, b00: nat)
    ensures a00 * b00 >= 0 && a32 * b00 * HALF_WORD >= 0 && a00 * b32 * HALF_WORD >= 0
  {
    MulNonNegative(a00, b00);
    MulNonNegative(a32 * b00, HALF_WORD);
    MulNonNegative(a00 * b32, HALF_WORD);
  }

  /** `if (m_data[127]) { flip; += ONE }`: an operand made non-negative. */
  method AbsAssign(x: Int128) returns (r: Int128)
    ensures r == Abs(x)
  {
    r := x;
    if r[127] {
      FlipPlusOne(r);
      r := AddAssign(Flip(r), ONE);
    }
  }

  /** `operator*=`. */
  method MulAssign(a: Int128, right: Int128) returns (r: Int128)
    ensures r == Times(a, right)
  {
    var sign := a[127] != right[127];
    r := AbsAssign(a);
    var y := AbsAssign(right);
    ghost var x := r;
    var a1, a0 := Get64(r, 1), Get64(r, 0);
    var b1, b0 := Get64(y, 1), Get64(y, 0);
    var a32, a00 := a0 / HALF_WORD, a0 % HALF_WORD;
    var b32, b00 := b0 / HALF_WORD, b0 % HALF_WORD;
    r := BitSet(Add64(Add64(Mul64(a1, b0), Mul64(a0, b1)), Mul64(a32, b32)));
    r := ShiftLeft(r, 64);
    r := AddAssign(r, BitSet(Mul64(a00, b00)));
    var carry := ShiftLeft(BitSet(Mul64(a32, b00)), 32);
    r := AddAssign(r, carry);
    carry := ShiftLeft(BitSet(Mul64(a00, b32)), 32);
    r := AddAssign(r, carry);
    FixupInput(a, right, x, y, r);
    if r[127] != sign {
      FlipPlusOne(r);
      r := AddAssign(Flip(r), ONE);
    }
  }

  lemma FixupInput(a: Int128, b: Int128, x: Int128, y: Int128, r: Int128)
    requires x == Abs(a) && y == Abs(b) && r == Schoolbook(x, y)
    ensures r == RawProduct(a, b)
  {
    SchoolbookValue(x, y);
  }
}
