# Int128 and expression trees in Dafny

A model of a C++ 128-bit two's-complement integer type, `Int128`, and of the
small expression tree evaluated with it. Both are verified in Dafny.

`Int128` stores its value as one `std::bitset<128> m_data`, and every
operation works bit by bit on that set. The model follows that layout:

- `Int128` is a `seq<bool>` of length 128, with index 0 the least significant bit.
- `Bits.Unsigned` reads the bits as a natural number below 2^128.
- `Int128Core.Signed` reads them as a two's-complement value in [-2^127, 2^127).

Each loop of the C++ code is a Dafny `method` with a `while` loop:

- `+=`, the ripple-carry adder;
- `<` and `less_unsigned`, the bit-scanning comparisons;
- `count_sig_bits`;
- `div_mod`, the restoring shift-subtract division;
- the right-to-left string constructor;
- `str()`.

`*=`, the 32-bit-split schoolbook multiply, has no loop in the C++ code. It is a straight-line
method (`Int128Mul.MulAssign`), step for step as in the source.

Each method is proved equal to a specification function, such as
`Plus`, `LessThan`, `SigBits`, `Times`, `DivMod`, `Parse` or `Decimal`.
What the code promises is then proved about those functions as lemmas. The
copy-based wrappers (`+`, binary and unary `-`, `*`, `/`, `%`, `==`, `!=`,
`>`, `<=`, `>=`, `get_64bit`) are functions.

`Int128` is a value type: every operator works on a copy. The in-place bit
updates are therefore updates of local sequences inside the methods, and there
is no aliasing to model.

Modules:

- `Arith`: Euclidean division and multiplication facts.
- `Bits`: unsigned readings of bit sequences, powers of two, and the `bitset` operations `flip`, `<<=` and `>>=`.
- `Int128Core`: representation, addition, negation, subtraction, the 64-bit conversions, `get_64bit` and the comparisons.
- `Int128Mul`: `*=` and `*`.
- `Int128Div`: `count_sig_bits`, `div_mod`, `/`, `%` and `/=`.
- `Int128Text`: the string constructor and `str()`.
- `Expression`: the node types with `eval` and `str`, and the builder operators.

The code differs from a word-based two-limb design in several ways, and the
model follows the code:

- the value is one bit set, not two 64-bit words;
- no public shift operator exists;
- `%` returns |a| mod |b|, which is never negative;
- division by zero is not guarded;
- the parser stops at the rightmost invalid character, so `"42abc"` reads as 0, not 42;
- `<` reverses the order of two negative values (see Findings).

## Model

| member | source | states |
|---|---|---|
| Int128Core.BitSet | src/int128.cpp:69-76 | `std::bitset<128>(n)`, as built from a 64-bit value here and at lines 99, 141 and 165, holds n mod 2^128 |
| Int128Core.Signed | include/int128.h:8 | the signed reading lies in [-2^127, 2^127) and is negative exactly when bit 127 is set |
| Int128Core.SignedInjective | include/int128.h:8 | two bit sets with the same signed value are equal, so each value has exactly one encoding |
| Int128Core.AddAssign | src/int128.cpp:123-134 | the 128-step ripple-carry loop computes `Plus(a, b)`; its carry invariant is that the low i result bits plus the carry into bit i equal the low i bits of a plus those of b |
| Int128Core.PlusUnsigned | src/int128.cpp:123-134 | the sum's unsigned reading is (a + b) mod 2^128, which is a + b, or a + b - 2^128 when the sum overflows |
| Int128Core.Plus | src/int128.cpp:106-110 | definition of binary `+`: the bit set of the sum of the unsigned readings; PlusUnsigned and PlusSigned state what it means |
| Int128Core.PlusSigned | src/int128.cpp:106-110 | binary `+` is signed addition wrapped into [-2^127, 2^127) |
| Int128Core.PlusCommutative | src/int128.cpp:106-110 | a + b == b + a on the bit sets |
| Int128Core.PlusZero | src/int128.cpp:106-110 | a + 0 == a |
| Int128Core.PlusAssociative | src/int128.cpp:106-110 | (a + b) + c == a + (b + c) on the bit sets, overflow included |
| Int128Core.Neg | src/int128.cpp:112-117 | definition of unary `-`: the bit set of 2^128 minus the unsigned reading; NegUnsigned and NegSigned state what it means |
| Int128Core.Negate | src/int128.cpp:112-117 | unary `-` (flip, then `+= ONE`) computes `Neg(a)` |
| Int128Core.FlipPlusOne | src/int128.cpp:112-117 | flipping every bit and adding one gives `Neg(a)` |
| Int128Core.NegUnsigned | src/int128.cpp:112-117 | the negation's unsigned reading is (2^128 - x) mod 2^128 |
| Int128Core.NegSigned | src/int128.cpp:112-117 | the negation is the signed negation, wrapped |
| Int128Core.NegInvolutive | src/int128.cpp:112-117 | -(-x) == x |
| Int128Core.NegFixedPoints | src/int128.cpp:112-117 | -x == x exactly for 0 and for the minimum -2^127 |
| Int128Core.PlusNeg | src/int128.cpp:119-122 | x + (-x) == 0 and x - x == 0 |
| Int128Core.Minus | src/int128.cpp:119-122 | definition of binary `-`: a + (-b) |
| Int128Core.MinusSigned | src/int128.cpp:119-122 | binary `-` is a + (-b), which is signed subtraction wrapped |
| Int128Core.SubAssign | src/int128.cpp:135-138 | `-=` computes `Minus(a, b)` |
| Int128Core.FromInt64 | src/int128.cpp:98-104 | the int64 constructor yields the bit set whose signed reading is v |
| Int128Core.FromInt64SignExtends | src/int128.cpp:98-104 | bits 64 to 127 of the constructed value all equal the sign of v |
| Int128Core.ToInt64 | src/int128.cpp:139-142 | narrowing keeps the low 64 bits: the result is congruent to them modulo 2^64 |
| Int128Core.ToInt64FromInt64 | src/int128.cpp:139-142 | narrowing a value built by the int64 constructor (lines 98-104) gives back v |
| Int128Core.Narrow | src/int128.cpp:139-142 | any Int128 whose signed value fits in 64 bits narrows to that value |
| Int128Core.Get64 | src/int128.cpp:163-166 | word 0 is the unsigned value mod 2^64 and word 1 the value div 2^64, both below 2^64 |
| Int128Core.Get64Meaning | src/int128.cpp:163-166 | shifting right by 64·pos and keeping 64 bits gives exactly those two words |
| Int128Core.Equal | src/int128.cpp:155-158 | `==` holds exactly when the signed values are equal |
| Int128Core.NotEqual | src/int128.cpp:159-162 | `!=` holds exactly when the signed values differ |
| Int128Core.LessThan | src/int128.cpp:175-193 | definition of `<`: with different sign bits, lhs is below exactly when it is the negative one; with equal sign bits the low 127 bits are compared, in reverse when rhs is negative; LessThanMeaning states the resulting order |
| Int128Core.Less | src/int128.cpp:175-193 | the bit-scanning loop of `<` computes `LessThan` |
| Int128Core.LessThanMeaning | src/int128.cpp:175-193 | a negative is below a non-negative; two non-negatives compare numerically; two negatives compare in reverse numeric order |
| Int128Core.LessThanStrictTotalOrder | src/int128.cpp:175-193 | `<` is irreflexive and transitive, and exactly one of `<`, `==` and `>` holds |
| Int128Core.LessThanZero | src/int128.cpp:175-193 | x < ZERO holds exactly for negative x, which is what `str()` relies on |
| Int128Core.LessThanNegativesCounterexample | src/int128.cpp:183-190 | -2 < -1 numerically, yet `<` as written says false |
| Int128Core.LessSigned | src/int128.cpp:175-193 | the corrected scan returns exactly signed `<` |
| Int128Core.Greater | src/int128.cpp:206-209 | definition of `>`: rhs < lhs |
| Int128Core.LessOrEqual | src/int128.cpp:210-213 | definition of `<=`: not rhs < lhs |
| Int128Core.GreaterOrEqual | src/int128.cpp:214-217 | definition of `>=`: not lhs < rhs |
| Int128Core.ComparisonDuals | src/int128.cpp:206-217 | `>` is `<` swapped; `<=` is `<` or `==`; `>=` is `>` or `==` |
| Int128Core.LessUnsigned | src/int128.cpp:194-205 | `less_unsigned` returns exactly unsigned `<` on the bit patterns |
| Int128Mul.Magnitude | src/int128.cpp:48-56 | the magnitude is the absolute value of the signed reading and is at most 2^127 |
| Int128Mul.MagnitudeMeaning | src/int128.cpp:48-56 | flip-plus-one of a negative operand reads unsigned as its absolute value, so the minimum gives 2^127 |
| Int128Mul.AbsAssign | src/int128.cpp:49-52 | the conditional negation of an operand computes `Abs(x)` |
| Int128Mul.OperandWords | src/int128.cpp:58-63 | the two `get_64bit` words recompose the operand as hi·2^64 + lo |
| Int128Mul.HighWord | src/int128.cpp:69 | the `uint64_t` sum of three products equals their exact sum mod 2^64 |
| Int128Mul.SplitValue | src/int128.cpp:65-78 | the 32-bit split with its three shifted additions yields u·v mod 2^128 |
| Int128Mul.SchoolbookValue | src/int128.cpp:58-78 | the schoolbook steps compute the unsigned product mod 2^128 |
| Int128Mul.RawProduct | src/int128.cpp:37-78 | the product before the sign fixup reads as abs(a)·abs(b) mod 2^128 |
| Int128Mul.Times | src/int128.cpp:37-86 | definition of `*=` and `*`: the low 128 bits of abs(a)·abs(b), negated when bit 127 differs from the XOR of the operand signs; TimesFold and TimesExact state what it means |
| Int128Mul.MulAssign | src/int128.cpp:37-86 | `*=` computes `Times(a, right)` |
| Int128Mul.TimesExact | src/int128.cpp:37-86 | when the exact product lies in [-2^127, 2^127) the result is a·b |
| Int128Mul.TimesCommutative | src/int128.cpp:10-14 | a * b == b * a |
| Int128Mul.TimesFold | src/int128.cpp:37-86 | for all operands, overflow included: with p = abs(a)·abs(b) mod 2^128, the result has magnitude p when p <= 2^127 and 2^128 - p above, and carries the XOR of the signs, wrapped (so a magnitude 2^127 gives MIN either way) |
| Int128Mul.TimesAssociative | src/int128.cpp:37-86 | (a * b) * c == a * (b * c) for all operands, overflow included |
| Int128Mul.FixupExact | src/int128.cpp:80-83 | the fixup turns a magnitude p into p, or into -p when the signs differ |
| Int128Mul.FixupSign | src/int128.cpp:80-83 | after the fixup, bit 127 equals the expected sign unless the result is 0 or the minimum |
| Int128Mul.TimesSign | src/int128.cpp:80-83 | the product's sign bit is the XOR of the operand signs unless the result is 0 or the minimum |
| Int128Mul.TimesOverflowExample | src/int128.cpp:80-83 | 2^64 · (2^63 + 1) gives 2^127 - 2^64, not the wrapped product |
| Int128Div.SigBitsBounds | src/int128.cpp:265-275 | SigBits is 0 exactly for zero, and otherwise the n with 2^(n-1) <= x < 2^n |
| Int128Div.CountSigBits | src/int128.cpp:265-275 | the top-down scan of `count_sig_bits` returns `SigBits(x)` |
| Int128Div.SigBitsOfFive | src/int128.cpp:265-275 | 5 has three significant bits |
| Int128Div.SigBitsMonotone | src/int128.cpp:240-243 | a smaller unsigned value has no more significant bits, so `delta_bits` does not underflow |
| Int128Div.AlignDivisor | src/int128.cpp:243-245 | shifting the divisor left by `delta_bits` multiplies it by 2^delta without overflow |
| Int128Div.Align | src/int128.cpp:240-247 | after the alignment the loop invariant holds for round 0 |
| Int128Div.DivStart | src/int128.cpp:240-247 | the aligned divisor and the empty quotient satisfy the loop invariant |
| Int128Div.DivStep | src/int128.cpp:249-256 | one round (double the quotient, subtract if it fits, halve the divisor) keeps n == ans·(2·right) + left with left < 2·right |
| Int128Div.DivRound | src/int128.cpp:250-255 | one round's bit operations have the arithmetic effect DivStep relies on |
| Int128Div.ShiftSubtract | src/int128.cpp:249-256 | the loop leaves quotient n / d and remainder n mod d, or an all-ones quotient and n when d is 0 |
| Int128Div.DivDone | src/int128.cpp:249-256 | after delta + 1 rounds the invariant gives the quotient and the remainder |
| Int128Div.AllOnesValue | src/int128.cpp:249-256 | the quotient register after k rounds with a zero divisor (shift left, set bit 0) is 2^k - 1, and 2^128 - 1 once k passes 128 |
| Int128Div.DivMod | src/int128.cpp:223-264 | definition of `div_mod` on the magnitudes l and r: equal magnitudes give ±1 by the signs, or 0 for `%`; l < r gives 0, or l; otherwise the loop's quotient with the sign fixup, or its remainder (the branches DivModGeneral, EqualMagnitudes and SmallerMagnitude state) |
| Int128Div.LongDivide | src/int128.cpp:223-264 | `div_mod` computes `DivMod(left, right, is_div)` |
| Int128Div.EqualMagnitudes | src/int128.cpp:233-234 | equal magnitudes give ±1 (by the signs) and remainder 0 |
| Int128Div.SmallerMagnitude | src/int128.cpp:236-237 | a smaller magnitude gives quotient 0 and remainder abs(a) |
| Int128Div.Div | src/int128.cpp:167-170 | definition of `/`: `div_mod(a, b, true)`; DivValue states what it means |
| Int128Div.Mod | src/int128.cpp:171-174 | definition of `%`: `div_mod(a, b, false)`; ModValue states what it means |
| Int128Div.DivValue | src/int128.cpp:167-170 | for b ≠ 0, a / b is the quotient truncated toward zero, wrapped (so MIN / -1 == MIN) |
| Int128Div.DivMagnitude | src/int128.cpp:167-170 | for b ≠ 0, the magnitude of a / b is abs(a) div abs(b) |
| Int128Div.ModValue | src/int128.cpp:171-174 | for b ≠ 0, a % b is abs(a) mod abs(b), which is non-negative and below abs(b) |
| Int128Div.DivModIdentity | src/int128.cpp:223-264 | abs(a) equals abs(a / b) · abs(b) + a % b |
| Int128Div.DivAssign | src/int128.cpp:218-222 | `/=` computes `Div(x, a)` |
| Int128Div.DivExample | src/int128.cpp:167-170 | -7 / 2 == -3 |
| Int128Div.ModExample | src/int128.cpp:171-174 | -7 % 2 == 1 and 7 % -2 == 1 |
| Int128Div.ZeroDivZero | src/int128.cpp:233-234 | 0 / 0 == 1, through the equal-operands branch |
| Int128Div.DivByZero | src/int128.cpp:240-261 | for 0 < abs(a) < 2^126, a / 0 is ±(2^(k+1) - 1), with k the significant bits of abs(a) and the sign of a |
| Int128Div.DivByZeroExample | src/int128.cpp:240-261 | 5 / 0 == 15 |
| Int128Div.MinDivZero | src/int128.cpp:240-261 | MIN / 0 == -1: the all-ones quotient register reads as -1 |
| Int128Div.ModByZero | src/int128.cpp:223-264 | a % 0 == abs(a) |
| Int128Text.Scan | src/int128.cpp:15-36 | definition of the string constructor, scanning right to left: whitespace is skipped; `-` negates the value read so far and stops; a digit adds its value times the multiplier, which is then multiplied by ten; any other character stops with the value unchanged |
| Int128Text.Parse | src/int128.cpp:15-17 | the scan starts from zero with multiplier one |
| Int128Text.FromString | src/int128.cpp:15-36 | the right-to-left parsing loop computes `Parse(s)` |
| Int128Text.AddDigit | src/int128.cpp:29-30 | one digit step adds digit · multiplier and multiplies the multiplier by ten |
| Int128Text.DigitAt | src/int128.cpp:28-31 | a digit step leaves the same scan result on the shorter prefix |
| Int128Text.MinusAt | src/int128.cpp:23-27 | `-` flips, adds one and stops: the scan result is the negated accumulator |
| Int128Text.ScanSpace | src/int128.cpp:20-22 | a whitespace character is skipped |
| Int128Text.ScanDigitAt | src/int128.cpp:28-31 | a digit adds its value times the multiplier, and the scan goes on with ten times the multiplier |
| Int128Text.StopsAtInvalid | src/int128.cpp:32-34 | everything left of the rightmost invalid character (past trailing spaces) is ignored |
| Int128Text.SpacesIgnored | src/int128.cpp:18-22 | removing every whitespace character does not change the result |
| Int128Text.ReadNumber | src/int128.cpp:15-36 | the canonical decimal digits of n (no leading zeros), for n < 2^127, read as n, or as -n after a `-`, whatever lies to the left (ended by an invalid character, `-` or nothing) |
| Int128Text.TrailingGarbage | src/int128.cpp:15-36 | "42abc" reads as 0 |
| Int128Text.LeadingGarbage | src/int128.cpp:15-36 | "abc42" reads as 42 |
| Int128Text.NegativeWithSpaces | src/int128.cpp:15-36 | " - 1 23 " reads as -123 |
| Int128Text.DigitChar | src/int128.cpp:287 | `'0' + x` is the digit character whose value is x |
| Int128Text.TenDigit | src/int128.cpp:286-287 | for non-zero temp, `int64(temp % TEN)` is the last decimal digit of its magnitude |
| Int128Text.TenQuotient | src/int128.cpp:288 | `temp /= TEN` divides the magnitude by ten and reaches 0 exactly below ten |
| Int128Text.EmitDigit | src/int128.cpp:285-289 | one loop round shrinks the magnitude and moves its last digit into the reversed text |
| Int128Text.Decimal | src/int128.cpp:276-295 | definition of the text `str()` returns: `-` and the digits of the magnitude for a negative value, the digits otherwise; DecimalCanonical states its form |
| Int128Text.Str | src/int128.cpp:276-295 | `str()` returns `Decimal(Signed(x))`: "0", or an optional `-` and the digits of the magnitude |
| Int128Text.NoLeadingZero | src/int128.cpp:285-289 | the generated digits start with '0' exactly for 0 |
| Int128Text.DecimalCanonical | src/int128.cpp:276-295 | the text is "0" exactly for 0, starts with `-` exactly for negatives, and is otherwise digits with no leading zero |
| Int128Text.RoundTrip | src/int128.cpp:15-36 | parsing the text of `str()` (lines 276-295) gives back x, including the minimum |
| Expression.Eval | src/expression.cpp:12-31 | evaluation succeeds exactly when every variable of the tree is bound; a constant yields its value in any environment and a variable its binding (LeafEval) |
| Expression.EvalLocal | src/expression.cpp:28-31 | evaluation depends only on the bindings of the tree's own variables |
| Expression.AddCase | src/expression.cpp:63-66 | an `Add` node evaluates to the wrapped sum of its children's exact values |
| Expression.SubtractCase | src/expression.cpp:84-87 | a `Subtract` node evaluates to the wrapped difference |
| Expression.NegateCase | src/expression.cpp:143-146 | a `Negate` node evaluates to the wrapped negation |
| Expression.AdditiveEval | src/expression.cpp:63-87 | a tree of constants, bound variables, `+`, `-` and unary `-` evaluates to its exact integer value reduced into [-2^127, 2^127) |
| Expression.Str | src/expression.cpp:20-53 | definition of `str()`: a constant prints as `Int128::str()`, a variable as its name, a binary node as "(" left " " op " " right ")" with the symbols of lines 71-134, and a negation as "(-" operand ")" (lines 151-154); ConstStr and StrBalanced state what it means |
| Expression.ConstStr | src/expression.cpp:20-23 | a constant prints as text that parses back to its value |
| Expression.StrBalanced | src/expression.cpp:50-53 | every rendering has balanced parentheses, and every non-leaf rendering is enclosed by one outer pair |
| Expression.BinaryEnclosed | src/expression.cpp:50-53 | "(l op r)" is one enclosed group when l and r are balanced |
| Expression.OpAdd | src/expression.cpp:160-163 | `a + b` builds a node over the same variables that evaluates to the `Int128` sum and prints as "(a + b)" |
| Expression.OpSubtract | src/expression.cpp:164-167 | `a - b` builds a node that evaluates to the difference and prints as "(a - b)" |
| Expression.OpNegate | src/expression.cpp:168-171 | `-a` builds a node that evaluates to the negation and prints as "(-a)" |
| Expression.OpMultiply | src/expression.cpp:172-175 | `a * b` builds a node that evaluates to the product and prints as "(a * b)" |
| Expression.OpDivide | src/expression.cpp:176-179 | `a / b` builds a node that evaluates to the quotient and prints as "(a / b)" |

## Left out

- `operator double` (src/int128.cpp:143-154): floating point is not modelled.
- The stream `operator<<` (src/int128.cpp:93-96, src/expression.cpp:3-6): output I/O, whose text is `str()`, which is modelled.
- `clone()`, `shared_ptr` ownership and virtual dispatch in the expression classes: the tree is an immutable datatype, so memory management has nothing to model.
- `isspace` and `isdigit` are taken in the C locale: ASCII space, `\t`, `\n`, `\v`, `\f`, `\r`, and `'0'` to `'9'`.
- `std::bitset` operations are given their standard meaning (`flip`, `<<=`, `>>=`, `to_ullong`) rather than being re-verified.
- The int64 constructor negates `INT64_MIN` (src/int128.cpp:99), which is undefined behaviour in C++. The model treats the constructor as plain sign extension.
- The mismatches between include/int128.h and src/int128.cpp cause compile errors, not behaviour: the `*` and `*=` signatures differ, and the constants and `count_sig_bits` are missing from the header. bin_exprs.inl is not part of this model.
- `Variable::eval` throws `std::out_of_range` through `map::at` for an unbound name. Evaluation returns `None` instead: no exception type or message is modelled.
- DivByZero: the closed form for a / 0 covers 0 < abs(a) < 2^126, plus the minimum (MinDivZero). For 2^126 <= abs(a) < 2^127 the all-ones register reads as -1 and the fixup yields ±1. That range is covered only by the general DivMod and LongDivide contracts, not by a closed-form lemma.
- AdditiveEval: the exact-integer reading covers `+`, `-` and unary minus. Trees with `*` and `/` are covered node by node by OpMultiply and OpDivide, not by one exact-value lemma, because the multiply's sign fixup does not wrap.
- StrBalanced: variable names are required to contain no parentheses. The C++ prints any name verbatim.

## Findings

| source | as written | input that shows it | evidently intended | confidence | as-written member | corrected member |
|---|---|---|---|---|---|---|
| src/int128.cpp:183-190 | for two negative operands the bit scan returns `!reverse` / `reverse` with `reverse` true, so it ranks them by the reverse of their low 127 bits | lhs = -2, rhs = -1: `-2 < -1` evaluates to false | two's-complement bit patterns of negatives order the same way as their values, so no reversal is needed | high; not executed | Int128Core.LessThanNegativesCounterexample | Int128Core.LessSigned |

`str()` uses `<` only to compare against ZERO, which is unaffected
(LessThanZero). The model of the other operations therefore keeps the code's
`<` (`Int128Core.Less`). `LessSigned` is the corrected comparison, for callers
that need numeric order.
