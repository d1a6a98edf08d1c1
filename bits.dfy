/** A fixed-size bit set, bit 0 least significant, as `std::bitset` provides
    it: the unsigned value of a bit pattern, construction from an unsigned
    number, and the library operations `flip`, `<<=` and `>>=`. */
module Bits {
  import opened Arith

  function Pow2(n: nat): (r: int)
    ensures r >= 1
  {
    if n == 0 then 1 else 2 * Pow2(n - 1)
  }

  lemma {:induction false} Pow2Add(a: nat, b: nat)
    ensures Pow2(a + b) == Pow2(a) * Pow2(b)
  {
    if a > 0 {
      Pow2Add(a - 1, b);
    }
  }

  lemma Pow2Of16()
    ensures Pow2(16) == 0x1_0000
  {
    assert Pow2(4) == 16 by { Pow2Add(2, 2); }
    assert Pow2(8) == 256 by { Pow2Add(4, 4); }
    Pow2Add(8, 8);
  }

  lemma Pow2Of64()
    ensures Pow2(32) == 0x1_0000_0000
    ensures Pow2(64) == 0x1_0000_0000_0000_0000
  {
    Pow2Of16();
    Pow2Add(16, 16);
    Pow2Add(32, 32);
  }

  lemma Pow2Of128()
    ensures Pow2(128) == 0x1_0000_0000_0000_0000_0000_0000_0000_0000
  {
    Pow2Of64();
    Pow2Add(64, 64);
  }

  /** The powers of two the 64- and 128-bit code relies on. */
  lemma Pow2Values()
    ensures Pow2(32) == 0x1_0000_0000
    ensures Pow2(63) == 0x8000_0000_0000_0000
    ensures Pow2(64) == 0x1_0000_0000_0000_0000
    ensures Pow2(127) == 0x8000_0000_0000_0000_0000_0000_0000_0000
    ensures Pow2(128) == 0x1_0000_0000_0000_0000_0000_0000_0000_0000
  {
    Pow2Of64();
    Pow2Add(64, 64);
    assert Pow2(128) == 2 * Pow2(127);
    assert Pow2(64) == 2 * Pow2(63);
  }

  lemma {:induction false} Pow2Monotone(a: nat, b: nat)
    requires a <= b
    ensures Pow2(a) <= Pow2(b)
  {
    if a < b {
      Pow2Monotone(a, b - 1);
    }
  }

  function Bit(b: bool): nat
  {
    if b then 1 else 0
  }

  /** The unsigned number a bit pattern denotes; s[0] is the least significant bit. */
  function Unsigned(s: seq<bool>): nat
  {
    if |s| == 0 then 0 else Bit(s[0]) + 2 * Unsigned(s[1..])
  }

  /** A pattern of width n denotes a number below 2^n. */
  lemma {:induction false} UnsignedBelow(s: seq<bool>)
    ensures Unsigned(s) < Pow2(|s|)
  {
    if |s| > 0 {
      UnsignedBelow(s[1..]);
    }
  }

  lemma {:induction false} UnsignedConcat(a: seq<bool>, b: seq<bool>)
    ensures Unsigned(a + b) == Unsigned(a) + Pow2(|a|) * Unsigned(b)
  {
    if |a| > 0 {
      var a' := a[1..];
      assert (a + b)[0] == a[0];
      assert (a + b)[1..] == a' + b;
      UnsignedConcat(a', b);
      var ua, ub, p := Unsigned(a'), Unsigned(b), Pow2(|a'|);
      assert Pow2(|a|) == 2 * p;
      assert Unsigned(a + b) == Bit(a[0]) + 2 * (ua + p * ub);
      MulAssoc(2, p, ub);
      assert Unsigned(a) == Bit(a[0]) + 2 * ua;
    } else {
      assert a + b == b;
    }
  }

  /** The low k bits of a pattern hold its value mod 2^k, the rest its value div 2^k. */
  lemma UnsignedSplit(s: seq<bool>, k: nat)
    requires k <= |s|
    ensures Unsigned(s) == Unsigned(s[..k]) + Pow2(k) * Unsigned(s[k..])
    ensures Unsigned(s[..k]) == Unsigned(s) % Pow2(k)
    ensures Unsigned(s[k..]) == Unsigned(s) / Pow2(k)
  {
    assert s == s[..k] + s[k..];
    UnsignedConcat(s[..k], s[k..]);
    UnsignedBelow(s[..k]);
    var lo, hi, p := Unsigned(s[..k]), Unsigned(s[k..]), Pow2(k);
    MulComm(p, hi);
    DivModUnique(Unsigned(s), p, hi, lo);
  }

  /** Extending a prefix by one bit adds that bit's weight. */
  lemma UnsignedPrefixStep(s: seq<bool>, i: nat)
    requires i < |s|
    ensures Unsigned(s[..i + 1]) == Unsigned(s[..i]) + (if s[i] then Pow2(i) else 0)
  {
    var p := s[..i + 1];
    assert p == s[..i] + [s[i]];
    UnsignedConcat(s[..i], [s[i]]);
  }

  /** The most significant bit is set exactly when the value reaches 2^(n-1). */
  lemma TopBit(s: seq<bool>)
    requires |s| > 0
    ensures s[|s| - 1] <==> Unsigned(s) >= Pow2(|s| - 1)
  {
    var n := |s| - 1;
    UnsignedSplit(s, n);
    assert s[n..] == [s[n]];
  }

  /** Bit i of a pattern is bit i of its value. */
  lemma TestBit(s: seq<bool>, i: nat)
    requires i < |s|
    ensures s[i] <==> (Unsigned(s) / Pow2(i)) % 2 == 1
  {
    UnsignedSplit(s, i);
    var t := s[i..];
    assert t[0] == s[i];
    assert Unsigned(t) % 2 == Bit(s[i]) by {
      DivModUnique(Unsigned(t), 2, Unsigned(t[1..]), Bit(t[0]));
    }
  }

  /** The pattern of width w that holds n mod 2^w, as `std::bitset<w>(n)`
      (see `FromNatValue`). */
  function FromNat(n: nat, w: nat): (r: seq<bool>)
    ensures |r| == w
  {
    if w == 0 then [] else [n % 2 == 1] + FromNat(n / 2, w - 1)
  }

  lemma {:induction false} FromNatValue(n: nat, w: nat)
    ensures Unsigned(FromNat(n, w)) == n % Pow2(w)
  {
    if w > 0 {
      var r := FromNat(n, w);
      assert r[1..] == FromNat(n / 2, w - 1);
      FromNatValue(n / 2, w - 1);
      ModTwoStep(n, Pow2(w - 1));
    }
  }

  /** A pattern is determined by its width and its value. */
  lemma {:induction false} FromNatUnsigned(s: seq<bool>)
    ensures FromNat(Unsigned(s), |s|) == s
  {
    if |s| > 0 {
      var u := Unsigned(s);
      DivModUnique(u, 2, Unsigned(s[1..]), Bit(s[0]));
      FromNatUnsigned(s[1..]);
      assert FromNat(u, |s|) == [s[0]] + s[1..];
    }
  }

  lemma UnsignedInjective(s: seq<bool>, t: seq<bool>)
    requires |s| == |t| && Unsigned(s) == Unsigned(t)
    ensures s == t
  {
    FromNatUnsigned(s);
    FromNatUnsigned(t);
  }

  function Zeros(n: nat): (r: seq<bool>)
    ensures |r| == n && Unsigned(r) == 0
    ensures forall i :: 0 <= i < n ==> !r[i]
  {
    if n == 0 then [] else [false] + Zeros(n - 1)
  }

  /** `bitset::flip`: every bit inverted. */
  function Flip(s: seq<bool>): (r: seq<bool>)
    ensures |r| == |s|
    ensures forall i :: 0 <= i < |s| ==> r[i] == !s[i]
  {
    if |s| == 0 then [] else [!s[0]] + Flip(s[1..])
  }

  lemma {:induction false} FlipValue(s: seq<bool>)
    ensures Unsigned(Flip(s)) == Pow2(|s|) - 1 - Unsigned(s)
  {
    if |s| > 0 {
      assert Flip(s)[1..] == Flip(s[1..]);
      FlipValue(s[1..]);
    }
  }

  /** `bitset <<= n`: bit i of the result is bit i - n of s, the low n bits are clear. */
  function ShiftLeft(s: seq<bool>, n: nat): (r: seq<bool>)
    ensures |r| == |s|
  {
    if n >= |s| then Zeros(|s|) else Zeros(n) + s[..|s| - n]
  }

  lemma ShiftLeftValue(s: seq<bool>, n: nat)
    ensures Unsigned(ShiftLeft(s, n)) == (Unsigned(s) * Pow2(n)) % Pow2(|s|)
  {
    if n >= |s| {
      MultipleOfPow2(Unsigned(s), n, |s|);
    } else {
      ShiftLeftInRange(s, n);
    }
  }

  lemma MultipleOfPow2(u: nat, n: nat, w: nat)
    requires w <= n
    ensures (u * Pow2(n)) % Pow2(w) == 0
  {
    var e, m := Pow2(n - w), Pow2(w);
    Pow2Add(n - w, w);
    assert Pow2(n) == e * m;
    MultipleMod(u, e, m);
  }

  lemma ShiftLeftInRange(s: seq<bool>, n: nat)
    requires n < |s|
    ensures Unsigned(ShiftLeft(s, n)) == (Unsigned(s) * Pow2(n)) % Pow2(|s|)
  {
    var k := |s| - n;
    var u, pk, pn := Unsigned(s), Pow2(k), Pow2(n);
    ShiftedLow(s, n);
    LowBits(s, k);
    assert Pow2(|s|) == pk * pn by {
      Pow2Add(k, n);
    }
    ShiftArith(Unsigned(ShiftLeft(s, n)), u, pn, pk, Unsigned(s[..k]), Pow2(|s|));
  }

  /** The arithmetic of a left shift: pn * (u mod pk) == (u * pn) mod (pk * pn). */
  lemma ShiftArith(v: nat, u: nat, pn: nat, pk: nat, low: nat, m: nat)
    requires pn > 0 && pk > 0 && v == pn * low && low == u % pk && m == pk * pn
    ensures v == (u * pn) % m
  {
    MulModShift(u, pn, pk);
    MulComm(pn, low);
  }

  /** Shifting left by n < |s| keeps the low |s| - n bits, n places up. */
  lemma ShiftedLow(s: seq<bool>, n: nat)
    requires n < |s|
    ensures Unsigned(ShiftLeft(s, n)) == Pow2(n) * Unsigned(s[..|s| - n])
  {
    UnsignedConcat(Zeros(n), s[..|s| - n]);
  }

  lemma LowBits(s: seq<bool>, k: nat)
    requires k <= |s|
    ensures Unsigned(s[..k]) == Unsigned(s) % Pow2(k)
  {
    UnsignedSplit(s, k);
  }

  /** `bitset >>= n`: bit i of the result is bit i + n of s, the high n bits are clear. */
  function ShiftRight(s: seq<bool>, n: nat): (r: seq<bool>)
    ensures |r| == |s|
  {
    if n >= |s| then Zeros(|s|) else s[n..] + Zeros(n)
  }

  lemma ShiftRightValue(s: seq<bool>, n: nat)
    ensures Unsigned(ShiftRight(s, n)) == Unsigned(s) / Pow2(n)
  {
    if n >= |s| {
      Pow2Monotone(|s|, n);
      UnsignedBelow(s);
      ModSmall(Unsigned(s), Pow2(n));
    } else {
      UnsignedConcat(s[n..], Zeros(n));
      UnsignedSplit(s, n);
    }
  }

  /** Setting the lowest bit of a pattern whose lowest bit is clear adds one. */
  lemma SetLowBit(s: seq<bool>)
    requires |s| > 0 && !s[0]
    ensures Unsigned(s[0 := true]) == Unsigned(s) + 1
  {
    assert s[0 := true][1..] == s[1..];
  }

  /** Two patterns that agree above position k and differ at k are ordered by
      their bit k. */
  lemma FirstDifference(s: seq<bool>, t: seq<bool>, k: nat)
    requires |s| == |t| && k < |s|
    requires s[k + 1..] == t[k + 1..] && !s[k] && t[k]
    ensures Unsigned(s) < Unsigned(t)
  {
    var w := Unsigned(s[k + 1..]);
    assert Unsigned(s[k..]) == 2 * w by {
      assert s[k..][1..] == s[k + 1..];
    }
    assert Unsigned(t[k..]) == 1 + 2 * w by {
      assert t[k..][1..] == t[k + 1..];
    }
    assert Unsigned(s) == Unsigned(s[..k]) + Pow2(k) * (2 * w) by {
      assert s == s[..k] + s[k..];
      UnsignedConcat(s[..k], s[k..]);
    }
    assert Unsigned(t) == Unsigned(t[..k]) + Pow2(k) * (1 + 2 * w) by {
      assert t == t[..k] + t[k..];
      UnsignedConcat(t[..k], t[k..]);
    }
    UnsignedBelow(s[..k]);
    HigherDigitWins(Unsigned(s[..k]), Unsigned(t[..k]), Pow2(k), w);
  }
}
