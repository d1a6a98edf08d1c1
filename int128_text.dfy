/** Decimal text in src/int128.cpp: the string constructor, which scans right
    to left accumulating digit * 10^k, and `str()`, which peels digits off
    with `% TEN` and `/= TEN`. Characters are those of `std::string`, with
    `isspace` and `isdigit` of the "C" locale. */
module Int128Text {
  import opened Arith
  import opened Bits
  import opened Int128Core
  import opened Int128Mul
  import opened Int128Div

  /** `isspace` in the "C" locale: space, and tab through carriage return. */
  predicate IsSpace(c: char)
  {
    c == ' ' || 9 <= c as int <= 13
  }

  predicate IsDigit(c: char)
  {
    '0' <= c <= '9'
  }

  /** `ch - '0'` for a digit. */
  function DigitValue(c: char): (d: nat)
    requires IsDigit(c)
    ensures d <= 9
  {
    c as int - '0' as int
  }

  /** `'0' + x` for a digit value x. */
  function DigitChar(d: nat): (c: char)
    requires d <= 9
    ensures IsDigit(c) && DigitValue(c) == d
  {
    ('0' as int + d) as char
  }

  // ---------------------------------------------------------------------
  // Parsing.

  /** The string constructor on the characters s (the ones not yet scanned),
      with the value `acc` and the multiplier `mult` accumulated so far over
      the characters to their right. */
  function Scan(s: string, acc: Int128, mult: Int128): Int128
  {
    if |s| == 0 then acc
    else
      var c := s[|s| - 1];
      if IsSpace(c) then Scan(s[..|s| - 1], acc, mult)
      else if c == '-' then Neg(acc)
      else if IsDigit(c) then
        Scan(s[..|s| - 1], Plus(acc, Times(FromInt64(DigitValue(c)), mult)), Times(mult, TEN))
      else acc
  }

  /** `Int128(std::string_view)`: starts from zero with multiplier one. */
  function Parse(s: string): Int128
  {
    Scan(s, ZERO, ONE)
  }

  method FromString(s: string) returns (r: Int128)
    ensures r == Parse(s)
  {
    var multiplier := ONE;
    r := ZERO;
    var i := |s|;
    ghost var target := Parse(s);
    assert s[..i] == s;
    while i > 0
      invariant 0 <= i <= |s|
      invariant Scan(s[..i], r, multiplier) == target
    {
      var ch := s[i - 1];
      if IsSpace(ch) {
        ScanSpace(s, i, r, multiplier);
        i := i - 1;
        continue;
      }
      if ch == '-' {
        r := MinusAt(s, i, r, multiplier);
        return;
      }
      if IsDigit(ch) {
        r, multiplier := DigitAt(s, i, r, multiplier);
      } else {
        ScanOther(s, i, r, multiplier);
        return;
      }
      i := i - 1;
    }
  }

  /** `-`: flip and add one, then stop. */
  method MinusAt(s: string, i: nat, acc: Int128, mult: Int128) returns (r: Int128)
    requires 0 < i <= |s| && s[i - 1] == '-'
    ensures r == Scan(s[..i], acc, mult)
  {
    ScanMinus(s, i, acc, mult);
    FlipPlusOne(acc);
    r := AddAssign(Flip(acc), ONE);
  }

  /** A digit: add it at the current multiplier and move the multiplier up. */
  method DigitAt(s: string, i: nat, acc: Int128, mult: Int128) returns (r: Int128, next: Int128)
    requires 0 < i <= |s| && IsDigit(s[i - 1])
    ensures Scan(s[..i - 1], r, next) == Scan(s[..i], acc, mult)
  {
    ScanDigitAt(s, i, acc, mult);
    r, next := AddDigit(acc, mult, DigitValue(s[i - 1]));
  }

  /** `*this += (ch - '0') * multiplier; multiplier *= TEN;` */
  method AddDigit(acc: Int128, mult: Int128, d: Int64) returns (r: Int128, next: Int128)
    ensures r == Plus(acc, Times(FromInt64(d), mult)) && next == Times(mult, TEN)
  {
    var term := MulAssign(FromInt64(d), mult);
    r := AddAssign(acc, term);
    next := MulAssign(mult, TEN);
  }

  // One step of the scan of s[..i], by the character s[i - 1] it looks at.

  lemma ScanSpace(s: string, i: nat, acc: Int128, mult: Int128)
    requires 0 < i <= |s| && IsSpace(s[i - 1])
    ensures Scan(s[..i], acc, mult) == Scan(s[..i - 1], acc, mult)
  {
    assert s[..i][..i - 1] == s[..i - 1];
  }

  lemma ScanMinus(s: string, i: nat, acc: Int128, mult: Int128)
    requires 0 < i <= |s| && s[i - 1] == '-'
    ensures Scan(s[..i], acc, mult) == Neg(acc)
  {
    assert s[..i][i - 1] == '-';
  }

  lemma ScanDigitAt(s: string, i: nat, acc: Int128, mult: Int128)
    requires 0 < i <= |s| && IsDigit(s[i - 1])
    ensures Scan(s[..i], acc, mult)
         == Scan(s[..i - 1], Plus(acc, Times(FromInt64(DigitValue(s[i - 1])), mult)), Times(mult, TEN))
  {
    assert s[..i][..i - 1] == s[..i - 1];
  }

  lemma ScanOther(s: string, i: nat, acc: Int128, mult: Int128)
    requires 0 < i <= |s| && !IsSpace(s[i - 1]) && s[i - 1] != '-' && !IsDigit(s[i - 1])
    ensures Scan(s[..i], acc, mult) == acc
  {
    assert s[..i][i - 1] == s[i - 1];
  }

  /** The scan stops at the first character from the right that is neither
      a digit, a space nor `-`: everything left of it is ignored. */
  lemma {:induction false} StopsAtInvalid(p: string, c: char, t: string, acc: Int128, mult: Int128)
    requires !IsSpace(c) && !IsDigit(c) && c != '-'
    requires forall i :: 0 <= i < |t| ==> IsSpace(t[i])
    ensures Scan(p + [c] + t, acc, mult) == acc
  {
    if |t| > 0 {
      var s := p + [c] + t;
      assert s[..|s| - 1] == p + [c] + t[..|t| - 1];
      StopsAtInvalid(p, c, t[..|t| - 1], acc, mult);
    } else {
      assert (p + [c] + t)[..|p| + 1 - 1] == p;
    }
  }

  /** Whitespace is skipped wherever it stands. */
  function RemoveSpaces(s: string): (r: string)
    ensures forall i :: 0 <= i < |r| ==> !IsSpace(r[i])
  {
    if |s| == 0 then []
    else if IsSpace(s[|s| - 1]) then RemoveSpaces(s[..|s| - 1])
    else RemoveSpaces(s[..|s| - 1]) + [s[|s| - 1]]
  }

  lemma {:induction false} SpacesIgnored(s: string, acc: Int128, mult: Int128)
    ensures Scan(s, acc, mult) == Scan(RemoveSpaces(s), acc, mult)
  {
    if |s| > 0 {
      var c := s[|s| - 1];
      var p := s[..|s| - 1];
      if IsSpace(c) {
        SpacesIgnored(p, acc, mult);
      } else {
        var r := RemoveSpaces(p) + [c];
        assert r[..|r| - 1] == RemoveSpaces(p);
        if IsDigit(c) {
          SpacesIgnored(p, Plus(acc, Times(FromInt64(DigitValue(c)), mult)), Times(mult, TEN));
        }
      }
    }
  }

  // ---------------------------------------------------------------------
  // Printing.

  /** The decimal digits of n, most significant first, without leading zeros. */
  function Digits(n: nat): (s: string)
    ensures |s| > 0 && forall i :: 0 <= i < |s| ==> IsDigit(s[i])
  {
    if n < 10 then [DigitChar(n)] else Digits(n / 10) + [DigitChar(n % 10)]
  }

  /** The canonical decimal form of an integer. */
  function Decimal(v: int): string
  {
    if v < 0 then "-" + Digits(-v) else Digits(v)
  }

  /** `std::reverse`. */
  function Reverse(s: string): (r: string)
    ensures |r| == |s|
  {
    if |s| == 0 then [] else Reverse(s[1..]) + [s[0]]
  }

  lemma {:induction false} ReverseAppend(s: string, c: char)
    ensures Reverse(s + [c]) == [c] + Reverse(s)
  {
    if |s| > 0 {
      assert (s + [c])[1..] == s[1..] + [c];
      ReverseAppend(s[1..], c);
    } else {
      assert s + [c] == [c];
    }
  }

  /** Digits(n) never starts with a zero unless n is zero. */
  lemma {:induction false} NoLeadingZero(n: nat)
    ensures Digits(n)[0] == '0' <==> n == 0
  {
    if n >= 10 {
      NoLeadingZero(n / 10);
    }
  }

  /** `str()`. */
  method Str(x: Int128) returns (result: string)
    ensures result == Decimal(Signed(x))
  {
    var temp := x;
    var sign := Less(temp, ZERO);
    LessThanZero(temp);
    result := [];
    if Equal(temp, ZERO) {
      result := "0";
      ZeroText(x);
      return;
    }
    ghost var n := Magnitude(x);
    StartText(x, n);
    while NotEqual(temp, ZERO)
      invariant Signed(temp) != 0 ==> Digits(n) == Digits(Magnitude(temp)) + Reverse(result)
      invariant Signed(temp) == 0 ==> Digits(n) == Reverse(result)
      decreases Magnitude(temp)
    {
      temp, result := EmitDigit(temp, result, n);
    }
    ghost var digits := result;
    if sign {
      result := result + ['-'];
    }
    SignedText(x, sign, digits, result);
    result := Reverse(result);
  }

  lemma ZeroText(x: Int128)
    requires x == ZERO
    ensures Decimal(Signed(x)) == "0"
  {
  }

  /** Before the first round no digit has been emitted. */
  lemma StartText(x: Int128, n: nat)
    requires Signed(x) != 0 && n == Magnitude(x)
    ensures Digits(n) == Digits(Magnitude(x)) + Reverse([])
  {
    assert Digits(n) + [] == Digits(n);
  }

  /** Appending `-` for a negative value and reversing gives the decimal form. */
  lemma SignedText(x: Int128, sign: bool, digits: string, result: string)
    requires Signed(x) != 0 && (sign <==> Signed(x) < 0)
    requires Digits(Magnitude(x)) == Reverse(digits)
    requires result == if sign then digits + ['-'] else digits
    ensures Reverse(result) == Decimal(Signed(x))
  {
    if sign {
      ReverseAppend(digits, '-');
    }
  }

  /** One round of `str()`'s loop: `result += '0' + temp % TEN; temp /= TEN`. */
  method EmitDigit(temp0: Int128, result0: string, ghost n: nat) returns (temp: Int128, result: string)
    requires Signed(temp0) != 0 && Digits(n) == Digits(Magnitude(temp0)) + Reverse(result0)
    ensures Magnitude(temp) < Magnitude(temp0)
    ensures Signed(temp) != 0 ==> Digits(n) == Digits(Magnitude(temp)) + Reverse(result)
    ensures Signed(temp) == 0 ==> Digits(n) == Reverse(result)
  {
    ghost var m := Magnitude(temp0);
    MagnitudePositive(temp0);
    var rem := LongDivide(temp0, TEN, false);
    var digit := ToInt64(rem);
    TenDigit(temp0, rem, digit);
    PeelDigit(n, m, result0);
    result := result0 + [DigitChar(digit)];
    temp := DivAssign(temp0, TEN);
    TenQuotient(temp0, temp);
  }

  /** Emitting the last digit of m moves it from the digits still to come
      to the (reversed) buffer. */
  lemma PeelDigit(n: nat, m: nat, result: string)
    requires m > 0 && Digits(n) == Digits(m) + Reverse(result)
    ensures m >= 10 ==> Digits(n) == Digits(m / 10) + Reverse(result + [DigitChar(m % 10)])
    ensures m < 10 ==> Digits(n) == Reverse(result + [DigitChar(m % 10)])
  {
    ReverseAppend(result, DigitChar(m % 10));
    if m >= 10 {
      MoveDigit(Digits(n), Digits(m / 10), DigitChar(m % 10), Reverse(result));
    } else {
      assert Digits(m) == [DigitChar(m % 10)];
    }
  }

  lemma MoveDigit(all: string, high: string, c: char, tail: string)
    requires all == high + [c] + tail
    ensures all == high + ([c] + tail)
  {
  }

  lemma MagnitudePositive(x: Int128)
    ensures Signed(x) != 0 <==> Magnitude(x) > 0
  {
  }

  /** `static_cast<std::int64_t>(temp % TEN)` is the last decimal digit of |temp|. */
  lemma TenDigit(temp: Int128, rem: Int128, digit: Int64)
    requires Signed(temp) != 0 && rem == Mod(temp, TEN) && digit == ToInt64(rem)
    ensures 0 <= digit <= 9 && digit == Magnitude(temp) % 10
  {
    TenValue();
    ModValue(temp, TEN);
    var d := Magnitude(temp) % 10;
    SignedInjective(rem, FromInt64(d));
    ToInt64FromInt64(d);
  }

  /** `temp /= TEN` divides the magnitude by ten. */
  lemma TenQuotient(t: Int128, q: Int128)
    requires Signed(t) != 0 && q == Div(t, TEN)
    ensures Magnitude(q) == Magnitude(t) / 10 && (Signed(q) == 0 <==> Magnitude(t) < 10)
  {
    TenValue();
    DivMagnitude(t, TEN);
  }

  lemma TenValue()
    ensures Signed(TEN) == 10 && Magnitude(TEN) == 10
  {
  }

  // ---------------------------------------------------------------------
  // Round trip.

  function Pow10(j: nat): (r: nat)
    ensures r >= 1
  {
    if j == 0 then 1 else 10 * Pow10(j - 1)
  }

  /** n * 10^j, written without a product of two unknowns. */
  function Scale(n: nat, j: nat): nat
  {
    if j == 0 then n else 10 * Scale(n, j - 1)
  }

  lemma {:induction false} ScaleProduct(n: nat, j: nat)
    ensures Scale(n, j) == n * Pow10(j)
  {
    if j > 0 {
      ScaleProduct(n, j - 1);
      MulAssoc(n, 10, Pow10(j - 1));
      MulComm(n, 10);
      MulAssoc(10, n, Pow10(j - 1));
    }
  }

  /** A string the scan cannot look past: empty, or ending in a character that
      is neither a space nor a digit. */
  predicate Terminal(p: string)
  {
    |p| == 0 || (!IsSpace(p[|p| - 1]) && !IsDigit(p[|p| - 1]))
  }

  /** What the scan leaves once it reaches a terminal string: the value, negated on `-`. */
  function Finish(p: string, v: Int128): Int128
  {
    if |p| > 0 && p[|p| - 1] == '-' then Neg(v) else v
  }

  lemma TerminalScan(p: string, acc: Int128, mult: Int128)
    requires Terminal(p)
    ensures Scan(p, acc, mult) == Finish(p, acc)
  {
  }

  /** Scanning the digits of n, entered with multiplier 10^j and value acc,
      adds n * 10^j exactly as long as the total stays within 2^127. */
  lemma {:induction false} ScanNumber(p: string, n: nat, j: nat, acc: Int128, mult: Int128, total: nat)
    requires Terminal(p)
    requires Signed(mult) == Pow10(j)
    requires total == Scale(n, j) + Unsigned(acc) <= HALF
    ensures Scan(p + Digits(n), acc, mult) == Finish(p, BitSet(total))
    decreases n
  {
    if n < 10 {
      LastStep(p, n, j, acc, mult, total);
    } else {
      var acc2, mult2 := HighStep(p, n, j, acc, mult);
      ScanNumber(p, n / 10, j + 1, acc2, mult2, total);
    }
  }

  /** The last digit to scan (the leading digit of n) completes the total. */
  lemma LastStep(p: string, n: nat, j: nat, acc: Int128, mult: Int128, total: nat)
    requires Terminal(p) && n < 10
    requires Signed(mult) == Pow10(j)
    requires total == Scale(n, j) + Unsigned(acc) <= HALF
    ensures Scan(p + Digits(n), acc, mult) == Finish(p, BitSet(total))
  {
    var acc2, mult2 := Plus(acc, Times(FromInt64(n % 10), mult)), Times(mult, TEN);
    StepText(p, n, acc, mult);
    StepSum(n, j, acc, mult);
    Register(acc2, total);
    TerminalScan(p, acc2, mult2);
  }

  /** One step of the scan over the digits of n with digits still to come: the
      last digit is added exactly at 10^j and the multiplier becomes 10^(j+1). */
  lemma HighStep(p: string, n: nat, j: nat, acc: Int128, mult: Int128) returns (acc2: Int128, mult2: Int128)
    requires n >= 10
    requires Signed(mult) == Pow10(j)
    requires Scale(n, j) + Unsigned(acc) <= HALF
    ensures Scan(p + Digits(n), acc, mult) == Scan(p + Digits(n / 10), acc2, mult2)
    ensures Scale(n / 10, j + 1) + Unsigned(acc2) == Scale(n, j) + Unsigned(acc)
    ensures Signed(mult2) == Pow10(j + 1)
  {
    acc2, mult2 := Plus(acc, Times(FromInt64(n % 10), mult)), Times(mult, TEN);
    StepText(p, n, acc, mult);
    StepSum(n, j, acc, mult);
    StepMultiplier(n, j, acc, mult);
  }

  lemma StepText(p: string, n: nat, acc: Int128, mult: Int128)
    ensures Scan(p + Digits(n), acc, mult)
         == Scan(if n < 10 then p else p + Digits(n / 10),
                 Plus(acc, Times(FromInt64(n % 10), mult)), Times(mult, TEN))
  {
    LastDigit(p, n);
    ScanDigit(if n < 10 then p else p + Digits(n / 10), DigitChar(n % 10), acc, mult);
  }

  lemma StepSum(n: nat, j: nat, acc: Int128, mult: Int128)
    requires Signed(mult) == Pow10(j)
    requires Scale(n, j) + Unsigned(acc) <= HALF
    ensures var acc2 := Plus(acc, Times(FromInt64(n % 10), mult));
            (n < 10 ==> Unsigned(acc2) == Scale(n, j) + Unsigned(acc))
            && (n >= 10 ==> Scale(n / 10, j + 1) + Unsigned(acc2) == Scale(n, j) + Unsigned(acc))
  {
    var d := n % 10;
    var dp, total := d * Pow10(j), Scale(n, j);
    assert Scale(n / 10, j + 1) + dp == total && dp <= total by {
      ScaleProduct(n, j);
      ScaleProduct(n / 10, j + 1);
      PlaceValue(n, j);
    }
    assert n < 10 ==> Scale(n / 10, j + 1) == 0 by {
      ScaleZero(j + 1);
    }
    BelowHalf(d, j);
    var term := Times(FromInt64(d), mult);
    DigitTerm(d, mult, j);
    Accumulate(acc, term, dp);
  }

  lemma {:induction false} ScaleZero(j: nat)
    ensures Scale(0, j) == 0
  {
    if j > 0 {
      ScaleZero(j - 1);
    }
  }

  lemma StepMultiplier(n: nat, j: nat, acc: Int128, mult: Int128)
    requires Signed(mult) == Pow10(j) && n >= 10
    requires Scale(n, j) + Unsigned(acc) <= HALF
    ensures Signed(Times(mult, TEN)) == Pow10(j + 1)
  {
    var k, q := n / 10, Pow10(j + 1);
    assert k * q <= HALF by {
      ScaleProduct(n, j);
      PlaceValue(n, j);
      MulNonNegative(n % 10, Pow10(j));
    }
    BelowHalf(k, j + 1);
    MulMonotone(1, k, q);
    NextMultiplier(mult, j);
  }

  /** The digits of n end in the digit n mod 10, after the digits of n / 10. */
  lemma LastDigit(p: string, n: nat)
    ensures p + Digits(n) == (if n < 10 then p else p + Digits(n / 10)) + [DigitChar(n % 10)]
  {
    if n >= 10 {
      var high := Digits(n / 10);
      assert Digits(n) == high + [DigitChar(n % 10)];
      assert p + (high + [DigitChar(n % 10)]) == p + high + [DigitChar(n % 10)];
    } else {
      assert n % 10 == n;
    }
  }

  /** A digit at the right end is added at the current multiplier. */
  lemma ScanDigit(q: string, c: char, acc: Int128, mult: Int128)
    requires IsDigit(c)
    ensures Scan(q + [c], acc, mult)
         == Scan(q, Plus(acc, Times(FromInt64(DigitValue(c)), mult)), Times(mult, TEN))
  {
    assert (q + [c])[..|q|] == q;
  }

  /** The place values of n: its last digit at 10^j, the rest at 10^(j+1). */
  lemma PlaceValue(n: nat, j: nat)
    ensures n * Pow10(j) == (n / 10) * Pow10(j + 1) + (n % 10) * Pow10(j)
    ensures (n % 10) * Pow10(j) <= n * Pow10(j)
  {
    var q, d, p := n / 10, n % 10, Pow10(j);
    assert n == 10 * q + d;
    Distribute(10 * q, d, p);
    MulAssoc(q, 10, p);
    MulComm(q, 10);
    MulMonotone(d, n, p);
  }

  /** 2^127 is not a multiple of 10, so k * 10^j never equals it (j > 0). */
  lemma BelowHalf(k: nat, j: nat)
    ensures k * Pow10(j) <= HALF && (j > 0 || k < HALF) ==> k * Pow10(j) < HALF
  {
    if j > 0 && k * Pow10(j) == HALF {
      var r := 2 * Pow10(j - 1);
      assert Pow10(j) == r * 5;
      MultipleMod(k, r, 5);
    }
  }

  /** `(ch - '0') * multiplier` is exact while the term stays below 2^127. */
  lemma DigitTerm(d: nat, mult: Int128, j: nat)
    requires d <= 9 && Signed(mult) == Pow10(j) && d * Pow10(j) < HALF
    ensures Unsigned(Times(FromInt64(d), mult)) == d * Pow10(j)
  {
    var t := Times(FromInt64(d), mult);
    MulNonNegative(d, Pow10(j));
    TimesExact(FromInt64(d), mult);
    NonNegative(t);
  }

  /** `multiplier *= TEN` is exact while 10^(j+1) stays below 2^127. */
  lemma NextMultiplier(mult: Int128, j: nat)
    requires Signed(mult) == Pow10(j) && Pow10(j + 1) < HALF
    ensures Signed(Times(mult, TEN)) == Pow10(j + 1)
  {
    TenValue();
    TimesExact(mult, TEN);
    MulComm(Pow10(j), 10);
  }

  lemma NonNegative(x: Int128)
    requires Signed(x) >= 0
    ensures Unsigned(x) == Signed(x)
  {
  }

  /** `*this += term` without overflow. */
  lemma Accumulate(acc: Int128, term: Int128, v: nat)
    requires Unsigned(term) == v && Unsigned(acc) + v < MODULUS
    ensures Unsigned(Plus(acc, term)) == Unsigned(acc) + v
  {
    PlusUnsigned(acc, term);
    ModSmall(Unsigned(acc) + v, MODULUS);
  }

  /** Parsing the text `str()` prints gives back the value, for every value,
      MIN included (its digits accumulate to the pattern 2^127, which `-` leaves alone). */
  lemma RoundTrip(x: Int128)
    ensures Parse(Decimal(Signed(x))) == x
  {
    var v := Signed(x);
    var n: nat := if v < 0 then -v else v;
    var p := if v < 0 then "-" else "";
    assert Decimal(v) == p + Digits(n);
    ParseNumber(p, n);
    Reread(x, n, p);
  }

  lemma Reread(x: Int128, n: nat, p: string)
    requires n == (if Signed(x) < 0 then -Signed(x) else Signed(x))
    requires p == if Signed(x) < 0 then "-" else ""
    ensures Finish(p, BitSet(n)) == x
  {
    var b := BitSet(n);
    SignedBitSet(n);
    if Signed(x) < 0 {
      NegSigned(b);
      if n == HALF {
        WrapShift(-HALF, 1);
      }
      SignedInjective(Neg(b), x);
    } else {
      SignedInjective(b, x);
    }
  }

  /** `str()` is canonical: "0" for zero, otherwise an optional `-` and digits
      without a leading zero. */
  lemma DecimalCanonical(v: int)
    ensures var s := Decimal(v);
            var t := if v < 0 then s[1..] else s;
            (s == "0" <==> v == 0)
            && (s[0] == '-' <==> v < 0)
            && |t| > 0 && (forall i :: 0 <= i < |t| ==> IsDigit(t[i]))
            && (t[0] == '0' ==> v == 0)
  {
    var n: nat := if v < 0 then -v else v;
    NoLeadingZero(n);
    if v < 0 {
      assert Decimal(v)[1..] == Digits(n);
    }
    if Decimal(v) == "0" {
      assert Digits(n)[0] == '0';
    }
  }

  /** The scan stops at the rightmost invalid character: "42abc" reads as 0. */
  lemma TrailingGarbage(s: string)
    requires s == "42abc"
    ensures Parse(s) == ZERO
  {
    assert s == "42ab" + ['c'] + [];
    StopsAtInvalid("42ab", 'c', [], ZERO, ONE);
  }

  /** Digits after a terminal prefix are read as their number, negated when the
      prefix ends in `-`. */
  lemma ReadNumber(p: string, n: nat)
    requires Terminal(p) && n < HALF
    ensures Signed(Parse(p + Digits(n))) == if |p| > 0 && p[|p| - 1] == '-' then -(n as int) else n as int
  {
    ParseNumber(p, n);
    FinishSigned(p, BitSet(n), n);
  }

  /** Parsing digits after a terminal prefix yields their number's bit pattern. */
  lemma ParseNumber(p: string, n: nat)
    requires Terminal(p) && n <= HALF
    ensures Parse(p + Digits(n)) == Finish(p, BitSet(n))
  {
    assert Unsigned(ZERO) == 0 && Signed(ONE) == Pow10(0);
    ScanNumber(p, n, 0, ZERO, ONE, n);
  }

  lemma FinishSigned(p: string, b: Int128, n: nat)
    requires n < HALF && b == BitSet(n)
    ensures Signed(Finish(p, b)) == if |p| > 0 && p[|p| - 1] == '-' then -(n as int) else n as int
  {
    SignedBitSet(n);
    if |p| > 0 && p[|p| - 1] == '-' {
      NegSigned(b);
    }
  }

  /** ... and a number after the garbage is read: "abc42" reads as 42. */
  lemma LeadingGarbage(s: string)
    requires s == "abc42"
    ensures Signed(Parse(s)) == 42
  {
    GarbageDigits(s);
    ReadNumber("abc", 42);
  }

  lemma GarbageDigits(s: string)
    requires s == "abc42"
    ensures s == "abc" + Digits(42)
  {
    assert Digits(42) == "42";
  }

  /** "-123" reads as -123, and spaces anywhere are skipped. */
  lemma NegativeWithSpaces(s: string)
    requires s == " - 1 23 "
    ensures Signed(Parse(s)) == -123
  {
    SpacesIgnored(s, ZERO, ONE);
    SpacedDigits(s);
    ReadNumber("-", 123);
  }

  lemma SpacedDigits(s: string)
    requires s == " - 1 23 "
    ensures RemoveSpaces(s) == "-" + Digits(123)
  {
    DigitsOf123();
    var d := " - 1";
    SpacedPrefix(d);
    var e := " - 1 ";
    assert RemoveSpaces(e) == "-1" by { assert e[..4] == d; }
    var f := " - 1 2";
    assert RemoveSpaces(f) == "-12" by { assert f[..5] == e; }
    var g := " - 1 23";
    assert RemoveSpaces(g) == "-123" by { assert g[..6] == f; }
    assert s[..7] == g;
  }

  lemma SpacedPrefix(d: string)
    requires d == " - 1"
    ensures RemoveSpaces(d) == "-1"
  {
    var a := " ";
    assert RemoveSpaces(a) == "" by { assert a[..0] == ""; }
    var b := " -";
    assert RemoveSpaces(b) == "-" by { assert b[..1] == a; }
    var c := " - ";
    assert RemoveSpaces(c) == "-" by { assert c[..2] == b; }
    assert d[..3] == c;
  }

  lemma DigitsOf123()
    ensures Digits(123) == "123"
  {
    assert Digits(12) == "12" by { assert Digits(1) == "1"; }
    assert Digits(123) == Digits(12) + "3";
  }
}
