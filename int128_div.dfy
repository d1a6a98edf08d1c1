/** `div_mod` of src/int128.cpp, shared by `/` and `%`: both operands are made
    non-negative, two special cases are settled directly, and otherwise a
    restoring shift-subtract division runs over the magnitudes; the quotient
    gets the sign fixup of `*=`, the remainder is returned as it is. */
module Int128Div {
  import opened Arith
  import opened Bits
  import opened Int128Core
  import opened Int128Mul

  // ---------------------------------------------------------------------
  // `count_sig_bits`.

  /** The number of significant bits: one past the highest set bit, 0 when no bit is set. */
  function SigBits(s: seq<bool>): (n: nat)
    ensures n <= |s|
  {
    if |s| == 0 then 0 else if s[|s| - 1] then |s| else SigBits(s[..|s| - 1])
  }

  /** 0 for zero, otherwise the n with 2^(n-1) <= x < 2^n. */
  lemma {:induction false} SigBitsBounds(s: seq<bool>)
    ensures SigBits(s) == 0 <==> Unsigned(s) == 0
    ensures SigBits(s) > 0 ==> Pow2(SigBits(s) - 1) <= Unsigned(s) < Pow2(SigBits(s))
  {
    if |s| > 0 {
      var k := |s| - 1;
      TopBitWeight(s);
      if !s[k] {
        SigBitsBounds(s[..k]);
        if SigBits(s[..k]) > 0 {
          Pow2Monotone(SigBits(s[..k]), k);
        }
      }
    }
  }

  /** The top bit of a pattern adds 2^(n-1) to the value of the bits below it. */
  lemma TopBitWeight(s: seq<bool>)
    requires |s| > 0
    ensures Unsigned(s) == Unsigned(s[..|s| - 1]) + (if s[|s| - 1] then Pow2(|s| - 1) else 0)
    ensures Unsigned(s[..|s| - 1]) < Pow2(|s| - 1) && Pow2(|s|) == 2 * Pow2(|s| - 1)
  {
    var k := |s| - 1;
    assert s[..k + 1] == s;
    UnsignedPrefixStep(s, k);
    UnsignedBelow(s[..k]);
  }

  /** A smaller value has no more significant bits. */
  lemma SigBitsMonotone(s: seq<bool>, t: seq<bool>)
    requires Unsigned(s) <= Unsigned(t)
    ensures SigBits(s) <= SigBits(t)
  {
    SigBitsBounds(s);
    SigBitsBounds(t);
    if SigBits(s) > SigBits(t) && SigBits(t) > 0 {
      Pow2Monotone(SigBits(t), SigBits(s) - 1);
    }
  }

  /** `count_sig_bits`: scans from bit 127 down and stops at the first set bit. */
  method CountSigBits(x: Int128) returns (r: nat)
    ensures r == SigBits(x)
  {
    var i := 128;
    assert x[..128] == x;
    while i > 0
      invariant 0 <= i <= 128
      invariant SigBits(x[..i]) == SigBits(x)
    {
      assert x[..i][i - 1] == x[i - 1];
      if x[i - 1] {
        return i;
      }
      assert x[..i][..i - 1] == x[..i - 1];
      i := i - 1;
    }
    return 0;
  }

  // ---------------------------------------------------------------------
  // What `div_mod` computes.

  /** The quotient register after k rounds with a zero divisor: every round
      shifts it left (dropping bit 127) and sets bit 0. */
  function AllOnes(k: nat): (r: nat)
    ensures r < MODULUS
  {
    if k == 0 then 0 else (2 * AllOnes(k - 1)) % MODULUS + 1
  }

  /** With a zero divisor the quotient is 2^k - 1, saturating at 128 ones. */
  lemma {:induction false} AllOnesValue(k: nat)
    ensures AllOnes(k) == (if k <= 128 then Pow2(k) else MODULUS) - 1
  {
    if k > 0 {
      AllOnesValue(k - 1);
      Pow2Of128();
      if k <= 128 {
        Pow2Monotone(k, 128);
        ModSmall(2 * AllOnes(k - 1), MODULUS);
      } else {
        var a := AllOnes(k - 1);
        if k - 1 == 128 {
          assert a == MODULUS - 1;
        }
        DivModUnique(2 * a, MODULUS, 1, MODULUS - 2);
      }
    }
  }

  /** The quotient the shift-subtract loop leaves: n div d, and for d == 0
      one set bit per round. */
  function Quotient(l: Int128, r: Int128): nat
  {
    if Unsigned(r) == 0 then AllOnes(SigBits(l) + 1)
    else DivIsNat(Unsigned(l), Unsigned(r)); Unsigned(l) / Unsigned(r)
  }

  /** The remainder the loop leaves: n mod d, and n itself for d == 0. */
  function Remainder(l: Int128, r: Int128): nat
  {
    if Unsigned(r) == 0 then Unsigned(l) else Unsigned(l) % Unsigned(r)
  }

  /** What `div_mod(left, right, is_div)` returns. */
  function DivMod(left: Int128, right: Int128, isDiv: bool): Int128
  {
    var sign := left[127] != right[127];
    var l, r := Abs(left), Abs(right);
    if r == l then
      if isDiv then (if sign then M_ONE else ONE) else ZERO
    else if Unsigned(l) < Unsigned(r) then
      if isDiv then ZERO else l
    else if isDiv then
      SignFixup(BitSet(Quotient(l, r)), sign)
    else
      BitSet(Remainder(l, r))
  }

  /** `operator/`. */
  function Div(a: Int128, b: Int128): Int128
  {
    DivMod(a, b, true)
  }

  /** `operator%`. */
  function Mod(a: Int128, b: Int128): Int128
  {
    DivMod(a, b, false)
  }

  // ---------------------------------------------------------------------
  // The loop.

  /** The state of the shift-subtract loop before round i, over the unsigned
      readings: n the dividend, d the divisor, a the quotient register, l the
      running remainder, rt the shifted divisor and u the weight of the next
      quotient bit. */
  ghost predicate DivInv(n: nat, d: nat, delta: nat, i: nat, a: nat, l: nat, rt: nat, u: nat)
  {
    i <= delta + 1
    && (d == 0 ==> l == n && rt == 0 && a == AllOnes(i))
    && (d > 0 ==> n == a * u + l && l < u && u == d * Pow2(delta + 1 - i)
                  && (i <= delta ==> rt == d * Pow2(delta - i)))
  }

  lemma DoubleWeight(d: nat, k: nat)
    ensures d * Pow2(k + 1) == 2 * (d * Pow2(k))
    ensures (d * Pow2(k + 1)) / 2 == d * Pow2(k)
  {
    MulAssoc(d, 2, Pow2(k));
    MulComm(d, 2);
    MulAssoc(2, d, Pow2(k));
  }

  /** One round of restoring division: subtract the shifted divisor when it fits. */
  lemma DivideRound(n: nat, a: nat, l: nat, rt: nat)
    requires n == a * (2 * rt) + l && l < 2 * rt
    ensures l >= rt ==> n == (2 * a + 1) * rt + (l - rt) && l - rt < rt
    ensures l < rt ==> n == (2 * a) * rt + l
  {
    MulAssoc(a, 2, rt);
    MulComm(a, 2);
  }

  /** A round with the quotient register a < 2^127 shifts it without loss. */
  lemma QuotientRoom(n: nat, a: nat, l: nat, u: nat)
    requires n < MODULUS && n == a * u + l && u >= 2
    ensures (2 * a) % MODULUS == 2 * a
  {
    MulMonotone(2, u, a);
    MulComm(2, a);
    MulComm(u, a);
    ModSmall(2 * a, MODULUS);
  }

  lemma DivStep(n: nat, d: nat, delta: nat, i: nat, a: nat, l: nat, rt: nat, u: nat,
                a2: nat, l2: nat, rt2: nat)
    requires DivInv(n, d, delta, i, a, l, rt, u) && i <= delta && n < MODULUS
    requires a2 == (2 * a) % MODULUS + (if l >= rt then 1 else 0)
    requires l2 == if l >= rt then l - rt else l
    requires rt2 == rt / 2
    ensures DivInv(n, d, delta, i + 1, a2, l2, rt2, rt)
  {
    if d > 0 {
      var k := delta - i;
      DoubleWeight(d, k);
      assert u == 2 * rt;
      assert rt >= 1 by {
        MulMonotone(1, Pow2(k), d);
      }
      QuotientRoom(n, a, l, u);
      DivideRound(n, a, l, rt);
      if i + 1 <= delta {
        DoubleWeight(d, k - 1);
      }
    }
  }

  /** After the last round the registers hold the quotient and the remainder. */
  lemma DivDone(n: nat, d: nat, delta: nat, a: nat, l: nat, rt: nat, u: nat)
    requires DivInv(n, d, delta, delta + 1, a, l, rt, u)
    ensures d == 0 ==> a == AllOnes(delta + 1) && l == n
    ensures d > 0 ==> a == n / d && l == n % d
  {
    if d > 0 {
      DivModUnique(n, d, a, l);
    }
  }

  /** The loop starts in its invariant once the divisor is aligned with the
      dividend's highest bit. */
  lemma DivStart(n: nat, d: nat, ls: nat, rs: nat, rt: nat)
    requires rs <= ls <= 128 && n < Pow2(ls)
    requires d == 0 ==> rs == 0 && rt == 0
    requires d > 0 ==> rs > 0 && Pow2(rs - 1) <= d && rt == d * Pow2(ls - rs)
    ensures DivInv(n, d, ls - rs, 0, 0, n, rt, d * Pow2(ls - rs + 1))
  {
    AllOnesValue(0);
    if d > 0 {
      var delta := ls - rs;
      MulMonotone(Pow2(rs - 1), d, Pow2(delta + 1));
      Pow2Add(rs - 1, delta + 1);
      assert rs - 1 + (delta + 1) == ls;
    }
  }

  /** Aligning the divisor: `right <<= delta` keeps every bit. */
  lemma AlignDivisor(r: Int128, ls: nat)
    requires SigBits(r) <= ls <= 128
    ensures Unsigned(ShiftLeft(r, ls - SigBits(r))) == Unsigned(r) * Pow2(ls - SigBits(r))
  {
    var rs := SigBits(r);
    var k := ls - rs;
    var d, pk, prs := Unsigned(r), Pow2(k), Pow2(rs);
    assert d < prs by {
      SigBitsBounds(r);
      if rs == 0 {
        assert d == 0;
      }
    }
    assert prs * pk <= MODULUS by {
      Pow2Add(rs, k);
      assert rs + k == ls;
      Pow2Monotone(ls, 128);
      Pow2Of128();
    }
    MulStrict(d, prs, pk);
    ShiftLeftExact(r, k, pk);
  }

  /** `ans <<= 1` doubles the quotient register, wrapping at 2^128, and clears bit 0. */
  lemma ShiftInZero(x: Int128, y: Int128)
    requires y == ShiftLeft(x, 1)
    ensures Unsigned(y) == (2 * Unsigned(x)) % MODULUS && !y[0]
  {
    var u, w := Unsigned(x), |x|;
    ShiftLeftValue(x, 1);
    assert Pow2(1) == 2 && Pow2(w) == MODULUS by {
      Pow2Of128();
    }
    assert u * 2 == 2 * u;
  }

  /** `left -= right` when right does not exceed left: exact subtraction. */
  lemma SubtractExact(l: Int128, r: Int128)
    requires Unsigned(r) <= Unsigned(l)
    ensures Unsigned(Minus(l, r)) == Unsigned(l) - Unsigned(r)
  {
    UnsignedBound(l);
    NegUnsigned(r);
    PlusUnsigned(l, Neg(r));
  }

  /** The shift-subtract loop of `div_mod`: `delta + 1` rounds, each shifting
      the quotient left, subtracting the aligned divisor when it fits and
      shifting the divisor right. */
  method ShiftSubtract(left0: Int128, right0: Int128, delta: nat, ghost d: nat)
    returns (ans: Int128, left: Int128)
    requires DivInv(Unsigned(left0), d, delta, 0, 0, Unsigned(left0), Unsigned(right0), d * Pow2(delta + 1))
    ensures d == 0 ==> Unsigned(ans) == AllOnes(delta + 1) && Unsigned(left) == Unsigned(left0)
    ensures d > 0 ==> Unsigned(ans) == Unsigned(left0) / d && Unsigned(left) == Unsigned(left0) % d
  {
    ghost var n := Unsigned(left0);
    left := left0;
    var right: Int128 := right0;
    ans := ZERO;
    MulNonNegative(d, Pow2(delta + 1));
    ghost var u: nat := d * Pow2(delta + 1);
    UnsignedBound(left0);
    var i := 0;
    while i <= delta
      invariant DivInv(n, d, delta, i, Unsigned(ans), Unsigned(left), Unsigned(right), u)
    {
      ghost var a, l, rt := Unsigned(ans), Unsigned(left), Unsigned(right);
      ans, left, right := DivRound(ans, left, right);
      DivStep(n, d, delta, i, a, l, rt, u, Unsigned(ans), Unsigned(left), Unsigned(right));
      u := rt;
      i := i + 1;
    }
    DivDone(n, d, delta, Unsigned(ans), Unsigned(left), Unsigned(right), u);
  }

  /** One round of the loop of `div_mod`: shift a zero into the quotient, and
      where the divisor fits, subtract it and set the new quotient bit; then
      halve the divisor. */
  method DivRound(ans0: Int128, left0: Int128, right0: Int128) returns (ans: Int128, left: Int128, right: Int128)
    ensures var fits := Unsigned(right0) <= Unsigned(left0);
            Unsigned(ans) == (2 * Unsigned(ans0)) % MODULUS + (if fits then 1 else 0)
            && Unsigned(left) == (if fits then Unsigned(left0) - Unsigned(right0) else Unsigned(left0))
            && Unsigned(right) == Unsigned(right0) / 2
  {
    left := left0;
    var shifted: Int128 := ShiftLeft(ans0, 1);
    ShiftInZero(ans0, shifted);
    ans := shifted;
    var lt := LessUnsigned(left, right0);
    if !lt {
      SubtractExact(left, right0);
      left := SubAssign(left, right0);
      SetLowBit(ans);
      ans := ans[0 := true];
    }
    ShiftRightValue(right0, 1);
    right := ShiftRight(right0, 1);
  }

  /** `div_mod`. */
  method LongDivide(left0: Int128, right0: Int128, isDiv: bool) returns (res: Int128)
    ensures res == DivMod(left0, right0, isDiv)
  {
    var sign := left0[127] != right0[127];
    var left: Int128 := AbsAssign(left0);
    var right: Int128 := AbsAssign(right0);
    if right == left {
      return if isDiv then (if sign then M_ONE else ONE) else ZERO;
    }
    var below := LessUnsigned(left, right);
    if below {
      return if isDiv then ZERO else left;
    }
    var ls := CountSigBits(left);
    var rs := CountSigBits(right);
    Align(left, right, ls, rs);
    var delta := ls - rs;
    var aligned: Int128 := ShiftLeft(right, delta);
    var ans: Int128, rem: Int128 := ShiftSubtract(left, aligned, delta, Unsigned(right));
    DivResult(left0, right0, left, right, ans, rem, sign);
    if ans[127] != sign {
      FlipPlusOne(ans);
      ans := AddAssign(Flip(ans), ONE);
    }
    res := if isDiv then ans else rem;
  }

  /** `delta = ls - rs`, together with the facts that start the loop. */
  lemma Align(left: Int128, right: Int128, ls: nat, rs: nat)
    requires Unsigned(right) <= Unsigned(left) && ls == SigBits(left) && rs == SigBits(right)
    ensures rs <= ls && (Unsigned(right) == 0 ==> rs == 0)
    ensures DivInv(Unsigned(left), Unsigned(right), ls - rs, 0, 0, Unsigned(left),
                   Unsigned(ShiftLeft(right, ls - rs)), Unsigned(right) * Pow2(ls - rs + 1))
  {
    SigBitsMonotone(right, left);
    var delta := ls - rs;
    AlignDivisor(right, ls);
    SigBitsBounds(left);
    SigBitsBounds(right);
    DivStart(Unsigned(left), Unsigned(right), ls, rs, Unsigned(ShiftLeft(right, delta)));
  }

  /** The registers the loop leaves are the quotient and remainder `DivMod` names. */
  lemma DivResult(left0: Int128, right0: Int128, l: Int128, r: Int128, ans: Int128, rem: Int128, sign: bool)
    requires l == Abs(left0)
    requires r == Abs(right0)
    requires r != l
    requires Unsigned(r) <= Unsigned(l)
    requires sign == (left0[127] != right0[127])
    requires Unsigned(r) == 0 ==> Unsigned(ans) == AllOnes(SigBits(l) + 1)
    requires Unsigned(r) == 0 ==> Unsigned(rem) == Unsigned(l)
    requires Unsigned(r) > 0 ==> Unsigned(ans) == Unsigned(l) / Unsigned(r)
    requires Unsigned(r) > 0 ==> Unsigned(rem) == Unsigned(l) % Unsigned(r)
    ensures DivMod(left0, right0, true) == SignFixup(ans, sign)
    ensures DivMod(left0, right0, false) == rem
  {
    Register(ans, Quotient(l, r));
    Register(rem, Remainder(l, r));
    DivModGeneral(left0, right0);
  }

  /** An Int128 holding a number below 2^128 is that number's bit pattern. */
  lemma Register(x: Int128, n: nat)
    requires Unsigned(x) == n
    ensures x == BitSet(n)
  {
    UnsignedBound(x);
    ModSmall(n, MODULUS);
    UnsignedInjective(x, BitSet(n));
  }

  /** The third branch of `DivMod`: past the equal and smaller cases, the result is the loop's outcome. */
  lemma DivModGeneral(left0: Int128, right0: Int128)
    requires Abs(right0) != Abs(left0) && Unsigned(Abs(right0)) <= Unsigned(Abs(left0))
    ensures DivMod(left0, right0, true)
         == SignFixup(BitSet(Quotient(Abs(left0), Abs(right0))), left0[127] != right0[127])
    ensures DivMod(left0, right0, false) == BitSet(Remainder(Abs(left0), Abs(right0)))
  {
  }

  /** `operator/=`. */
  method DivAssign(x: Int128, a: Int128) returns (r: Int128)
    ensures r == Div(x, a)
  {
    r := LongDivide(x, a, true);
  }

  // ---------------------------------------------------------------------
  // What `/` and `%` mean.

  /** C++ division of integers: the quotient of the magnitudes, truncated
      toward zero, with the sign of the product. */
  function TruncDiv(x: int, y: int): (q: int)
    requires y != 0
  {
    var m, n := if x < 0 then -x else x, if y < 0 then -y else y;
    if (x < 0) != (y < 0) then -(m / n) else m / n
  }

  /** Away from a zero divisor, `/` is C++ integer division, wrapped to 128
      bits (only MIN / -1 wraps). */
  lemma DivValue(a: Int128, b: Int128)
    requires Signed(b) != 0
    ensures Signed(Div(a, b)) == Wrap(TruncDiv(Signed(a), Signed(b)))
  {
    var l, r := Abs(a), Abs(b);
    var n, d := Magnitude(a), Magnitude(b);
    DivIsNat(n, d);
    var q: nat := n / d;
    assert TruncDiv(Signed(a), Signed(b)) == if a[127] != b[127] then -(q as int) else q as int;
    if r == l {
      DivEqual(a, b, q);
    } else if n < d {
      ModSmall(n, d);
    } else {
      DivLarge(a, b, q);
    }
  }

  /** Equal magnitudes: the early exit returns 1 or -1. */
  lemma DivEqual(a: Int128, b: Int128, q: nat)
    requires Signed(b) != 0 && Abs(a) == Abs(b) && q == Magnitude(a) / Magnitude(b)
    ensures Signed(Div(a, b)) == Wrap(if a[127] != b[127] then -(q as int) else q as int)
  {
    DivModUnique(Magnitude(a), Magnitude(b), 1, 0);
  }

  /** The loop's quotient, sign-fixed. */
  lemma DivLarge(a: Int128, b: Int128, q: nat)
    requires Signed(b) != 0 && Abs(a) != Abs(b) && Magnitude(b) <= Magnitude(a)
    requires q == Magnitude(a) / Magnitude(b)
    ensures Signed(Div(a, b)) == Wrap(if a[127] != b[127] then -(q as int) else q as int)
  {
    DivIsNat(Magnitude(a), Magnitude(b));
    ModSmall(q, MODULUS);
    FixupWrap(BitSet(q), a[127] != b[127], q);
  }

  /** Away from a zero divisor, `%` is the remainder of the magnitudes: never
      negative, whatever the signs of the operands. */
  lemma ModValue(a: Int128, b: Int128)
    requires Signed(b) != 0
    ensures Signed(Mod(a, b)) == Magnitude(a) % Magnitude(b)
    ensures 0 <= Signed(Mod(a, b)) < Magnitude(b)
  {
    var l, r := Abs(a), Abs(b);
    var n, d := Magnitude(a), Magnitude(b);
    if r == l {
      DivModUnique(n, d, 1, 0);
    } else if n < d {
      ModSmall(n, d);
      SignedIsWrap(l);
    } else {
      var m := n % d;
      ModSmall(m, MODULUS);
      SignedBitSet(m);
    }
  }

  /** |a / b| == |a| div |b|, even for MIN / -1, whose result MIN has magnitude 2^127. */
  lemma DivMagnitude(a: Int128, b: Int128)
    requires Signed(b) != 0
    ensures Magnitude(Div(a, b)) == Magnitude(a) / Magnitude(b)
  {
    DivValue(a, b);
    QuotientMagnitude(Signed(a), Signed(b), Div(a, b));
  }

  lemma QuotientMagnitude(x: int, y: int, q: Int128)
    requires y != 0 && -HALF <= x < HALF && -HALF <= y < HALF
    requires Signed(q) == Wrap(TruncDiv(x, y))
    ensures Magnitude(q) == (if x < 0 then -x else x) / (if y < 0 then -y else y)
  {
    var n: nat, d: nat := if x < 0 then -x else x, if y < 0 then -y else y;
    DivIsNat(n, d);
    var k: nat := n / d;
    if k == HALF {
      WrapShift(-HALF, 1);
    }
  }

  /** The division identity on magnitudes: |a| == |a / b| * |b| + a % b. */
  lemma DivModIdentity(a: Int128, b: Int128)
    requires Signed(b) != 0
    ensures Magnitude(a) == Magnitude(Div(a, b)) * Magnitude(b) + Signed(Mod(a, b))
  {
    DivMagnitude(a, b);
    ModValue(a, b);
    Euclid(Magnitude(a), Magnitude(b), Magnitude(Div(a, b)), Signed(Mod(a, b)));
  }

  lemma Euclid(n: int, d: int, q: int, m: int)
    requires d > 0 && q == n / d && m == n % d
    ensures n == q * d + m
  {
  }

  /** With a zero divisor the loop still runs: the quotient collects one set
      bit per round, 2^(k+1) - 1 for a dividend of k significant bits, with
      the dividend's sign. */
  lemma DivByZero(a: Int128)
    requires Signed(a) != 0 && -HALF / 2 < Signed(a) < HALF / 2
    ensures var k := SigBits(Abs(a));
            Signed(Div(a, ZERO)) == if Signed(a) < 0 then -(Pow2(k + 1) - 1) else Pow2(k + 1) - 1
  {
    var l := Abs(a);
    assert Unsigned(l) == Magnitude(a);
    OnesBelowHalf(l);
    ZeroDivisor(a, AllOnes(SigBits(l) + 1));
  }

  /** For a dividend below 2^126 the register of ones stays below 2^127. */
  lemma OnesBelowHalf(l: Int128)
    requires Unsigned(l) < HALF / 2
    ensures AllOnes(SigBits(l) + 1) == Pow2(SigBits(l) + 1) - 1 < HALF
  {
    var k := SigBits(l);
    assert Pow2(126) == HALF / 2 by {
      Pow2Values();
      assert Pow2(127) == 2 * Pow2(126);
    }
    FewSigBits(l, 126);
    Pow2Monotone(k + 1, 127);
    Pow2Values();
    AllOnesValue(k + 1);
  }

  /** A value below 2^w has at most w significant bits. */
  lemma FewSigBits(s: seq<bool>, w: nat)
    requires Unsigned(s) < Pow2(w)
    ensures SigBits(s) <= w
  {
    SigBitsBounds(s);
    if SigBits(s) > w {
      Pow2Monotone(w, SigBits(s) - 1);
    }
  }

  /** With |a| below 2^127 the quotient register q of a zero divisor gets the dividend's sign. */
  lemma ZeroDivisor(a: Int128, q: nat)
    requires Signed(a) != 0 && q < HALF && q == AllOnes(SigBits(Abs(a)) + 1)
    ensures Signed(Div(a, ZERO)) == if Signed(a) < 0 then -(q as int) else q
  {
    DivZeroShape(a, ZERO);
    ModSmall(q, MODULUS);
    FixupExact(BitSet(q), a[127], q);
  }

  /** A zero divisor skips both early exits of `div_mod`. */
  lemma DivZeroShape(a: Int128, z: Int128)
    requires Signed(a) != 0 && Signed(z) == 0
    ensures Div(a, z) == SignFixup(BitSet(AllOnes(SigBits(Abs(a)) + 1)), a[127])
  {
    assert !z[127];
    assert Abs(z) == z;
    UnsignedBound(z);
    assert Unsigned(z) == 0 by {
      SignedIsWrap(z);
    }
    assert Unsigned(Abs(a)) == Magnitude(a);
    assert Abs(a) != z;
  }

  /** MIN / 0: the quotient register fills with ones and reads as -1. */
  lemma MinDivZero()
    ensures Div(MinValue(), ZERO) == M_ONE
  {
    SaturatedQuotient(MinValue(), ZERO, M_ONE);
  }

  /** Dividing MIN by zero, stated over any operands holding those values. */
  lemma SaturatedQuotient(a: Int128, z: Int128, m: Int128)
    requires Signed(a) == -HALF && Signed(z) == 0 && Signed(m) == -1
    ensures Div(a, z) == m
  {
    var l := Abs(a);
    MinQuotient(a, z);
    OnesAreMinusOne(m);
    assert l != z && !(Unsigned(l) < Unsigned(z));
  }

  /** |MIN| keeps all 128 bits significant, so dividing it by zero fills 129 ones. */
  lemma MinQuotient(a: Int128, z: Int128)
    requires Signed(a) == -HALF && Signed(z) == 0
    ensures Signed(Abs(a)) == -HALF && Unsigned(z) == 0
    ensures Quotient(Abs(a), z) == AllOnes(129)
  {
    var l := Abs(a);
    NegSigned(a);
    WrapShift(-HALF, 1);
    SignedIsWrap(z);
    SigBitsBounds(l);
    assert SigBits(l) == 128 by {
      Pow2Values();
    }
  }

  /** The saturated register of 128 ones is the bit pattern of -1. */
  lemma OnesAreMinusOne(m: Int128)
    requires Signed(m) == -1
    ensures BitSet(AllOnes(129)) == m
  {
    var q := AllOnes(129);
    AllOnesValue(129);
    assert q == -1 + 1 * MODULUS;
    SignedBitSet(q);
    WrapShift(-1, 1);
    ModSmall(HALF - 1, MODULUS);
    SignedInjective(BitSet(q), m);
  }

  /** 0 / 0 is the equal-operands case: 1. */
  lemma ZeroDivZero()
    ensures Div(ZERO, ZERO) == ONE
  {
  }

  /** `%` by zero returns the dividend's magnitude. */
  lemma ModByZero(a: Int128)
    ensures Mod(a, ZERO) == Abs(a)
  {
    var l := Abs(a);
    assert Unsigned(ZERO) == 0;
    if l != ZERO {
      UnsignedBound(l);
      ModSmall(Unsigned(l), MODULUS);
      UnsignedInjective(l, BitSet(Unsigned(l)));
    }
  }

  /** Equal magnitudes give a quotient of ±1 and a remainder of 0 (0 / 0 included). */
  lemma EqualMagnitudes(a: Int128, b: Int128)
    requires Magnitude(a) == Magnitude(b)
    ensures Signed(Div(a, b)) == if a[127] != b[127] then -1 else 1
    ensures Signed(Mod(a, b)) == 0
  {
    MagnitudeMeaning(a);
    MagnitudeMeaning(b);
    UnsignedInjective(Abs(a), Abs(b));
  }

  /** A dividend of smaller magnitude gives a quotient of 0 and its own magnitude as remainder. */
  lemma SmallerMagnitude(a: Int128, b: Int128)
    requires Magnitude(a) < Magnitude(b)
    ensures Signed(Div(a, b)) == 0
    ensures Signed(Mod(a, b)) == Magnitude(a)
  {
    MagnitudeMeaning(a);
    MagnitudeMeaning(b);
    var l := Abs(a);
    assert Unsigned(l) < HALF;
    SignedIsWrap(l);
  }

  /** -7 / 2 == -3: truncation toward zero. */
  lemma DivExample(a: Int128, b: Int128)
    requires Signed(a) == -7 && Signed(b) == 2
    ensures Signed(Div(a, b)) == -3
  {
    DivValue(a, b);
  }

  /** -7 % 2 == 1 and 7 % -2 == 1: the remainder carries no sign. */
  lemma ModExample(a: Int128, b: Int128)
    requires (Signed(a) == -7 && Signed(b) == 2) || (Signed(a) == 7 && Signed(b) == -2)
    ensures Signed(Mod(a, b)) == 1
  {
    ModValue(a, b);
  }

  /** 5 / 0 == 15: three significant bits, four rounds, four ones. */
  lemma DivByZeroExample(a: Int128)
    requires Signed(a) == 5
    ensures Signed(Div(a, ZERO)) == 15
  {
    var l := Abs(a);
    assert Unsigned(l) == 5 by {
      SignedIsWrap(a);
    }
    SigBitsOfFive(l);
    DivByZero(a);
    assert Pow2(4) == 16;
  }

  lemma SigBitsOfFive(l: seq<bool>)
    requires Unsigned(l) == 5
    ensures SigBits(l) == 3
  {
    SigBitsBounds(l);
    var k := SigBits(l);
    assert Pow2(2) == 4 && Pow2(3) == 8;
    if k < 3 {
      Pow2Monotone(k, 2);
    } else if k > 3 {
      Pow2Monotone(3, k - 1);
    }
  }
}
