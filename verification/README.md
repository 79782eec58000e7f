# A verified model of PuTTY's integer library and its neighbours

This project models, in Dafny, the multiprecision integer library of PuTTY, the elliptic-curve and
primality code built on it, its marshalling and key-file formats, and three small state machines
that stand on their own: agent forwarding, the splitter for a proxy's standard error, and the queue
of deferred callbacks. For each it proves the mathematical statement that the code is there to meet,
for every input and every word size of 32 or 64 bits.

`dafny verify dfyconfig.toml` checks everything.

## How it is laid out

Layers, lowest first; each file is one module.

- `Arithmetic`, `Words`: powers, congruences, and the number that a little-endian sequence of words
  denotes. `Primes`, `Binomial`: what the algorithms need of number theory (Fermat's little theorem,
  Wilson's theorem, Euler's criterion, the binomial theorem), proved here from scratch.
- `MpInt`, `AddSub`, `Multiply`, `Karatsuba`, `Shifts`, `SafeShifts`: an `mp_int` is a window on an
  array of words, so that aliases and scratch pools overlap as they do in the program, and every
  operation says which words it writes. Each is a loop over words proved equal to one line of
  arithmetic modulo a power of the word base.
- `Hensel`, `Newton`, `Seed` and `Division`, `Montgomery`, `Stein` and `Bezout`, `Gcd`, `NthRoot`, `ModSqrt`,
  `MillerRabin`, `DigitSum` and `Decimal`: the algorithms, with their correctness arguments on plain numbers
  and methods on words that refine them.
- `Fields`, `Weierstrass`, `WeierstrassLaw`, `MontgomeryCurve`, `Edwards`, `EdwardsGroup`, `CubicGroup`,
  `CurveGroups`, `Ladders`: the curve formulas against the affine group law. That law is itself proved to
  make an abelian group, associativity included: for nonsingular cubics b y^2 = x^3 + a2 x^2 + a4 x + a6,
  of which the Weierstrass and Montgomery curves are cases, and for complete Edwards curves.
- `Bytes`, `Marshal`, `Wire`, `Ber`, `KeyFiles`, `KeyNumbers`, `Sshcom`: printers and parsers, and their round
  trips. `Reads` and `Encodings` describe the formats by their bytes alone and prove that each read accepts
  exactly its own; `KeyFormats` says with those reads what key blobs and key files hold, and which of them the
  readers accept.
- `AgentForward`, `ProxyStderr`, `Callbacks`: classes whose `Valid` predicates are invariants over
  every run.

Masks and exclusive-ors that select a value are conditionals here. The width of a word is a constant
of which the proofs know only that it is 32 or 64.

## Where the code and its description differ

- `mp_divmod_into` asserts that the divisor is not zero (`_LEGACY/mpint.c:1961`), while
  `_LEGACY/mpint.h:252` promises a result. The model follows the code.
- The comment in `mp_divmod_into` suspects that one correction is enough. It is: `Division.Estimate`
  shows that the raw quotient is exact, or one too small and only when the divisor divides the
  number.
- `recip_approx_32` is accurate according to an exhaustive search that its comment reports. `Seed` proves
  the accuracy that division needs, and that no line overflows.
- `monty_reduce_internal` needs its intermediate value to be below 2m, not 2r as its comment says
  (`_LEGACY/mpint.c:1454`); `Montgomery.Redc` proves the former.
- `monty_pow` keeps its running square in as many words as the base has. `Montgomery.MontyPow` is
  exact if the base's words can hold every residue, or the forms of those squares that are used;
  `Montgomery.NarrowPower` and `Montgomery.NarrowSquare` say exactly when the first that may not fit does
  no harm, and `Montgomery.NarrowBaseFails` gives cases where it does.
  `miller_rabin_find_potential_primitive_root` shrinks the base before calling it.
- `mp_gcd_into` promises a * A - b * B = gcd (`_LEGACY/mpint.h:288-290`). With a = 0 and b positive no
  such natural A and B exist, and it delivers 1 and -1 reduced to the size of its registers:
  `Stein.OutcomeIsExact` has the exact condition.
- `mp_gcd` returns as many words as the shorter number has. With one number zero the result is the
  other one cut to that size: `Gcd.GcdWithZero` has the exact condition, `Gcd.Coprime` that for the
  answer of `mp_coprime`, and `Gcd.CoprimeWithZeroFails` an instance.
- For two zeros `mp_gcd_into` looks for a set bit in a number that has none, and counts down from 0
  to the largest `size_t` (`Gcd.SharedShift`). The result is 0 all the same.
- `mp_get_decimal` folds its sum of bytes before it can overflow, it says. The bound that decides when
  is folded like the sum, and is no bound afterwards. `DigitSum.DigitIsRight` shows that all numbers of
  up to 7017245 words of 32 bits, or 1052612 words of 64 bits, come out right, and that some number of
  any larger size does not.
- `ecc_weierstrass_add` asserts that the numerator of the slope is not 0, though its comment speaks of
  x coordinates. It therefore stops for two different points with the same y
  (`Weierstrass.AddPointsCorrect`, and `WeierstrassLaw.AddPointsStops` for an instance).
- `ecc_weierstrass_add_general`, given the same finite point twice, takes the tangent over the
  denominator of the first only. `Weierstrass.AddGeneralDoubles` has the exact condition under which
  the result is right, which the denominator 1 meets, and `WeierstrassLaw.AddGeneralFails` an instance
  in which it is not.
- The choice of a square root by parity returns p itself, unreduced, when the root is 0 and an odd one
  is asked for (`WeierstrassLaw.ChooseRootCorrect`).
- All three ladders return the point itself, not the identity, for a multiplier of 0
  (`Ladders.Multiply`).
- `ecc_weierstrass_multiply` is to work for a multiplier less than the order of the point
  (`_LEGACY/ecc.h:91-96`). Because of that assertion it can stop all the same: `Ladders.WeierstrassMultiply` has
  the exact condition, and `WeierstrassLaw.MultiplyStops` an instance that stops for every multiplier.
- `ecc_montgomery_multiply` returns (0 : 0), which is no point, for most multiples of a base point at infinity
  or at x = 0. `Ladders.MontgomeryMultiply` has the exact condition.
- `put_mp_ssh2` writes 0 as one byte, which `get_mp_ssh2` refuses (`Wire.Ssh2RoundTrip`).
- After deletion an idempotent callback keeps its flag, and is not queued when next asked for
  (`Callbacks.DeletedAndAskedForAgain`). `Callbacks.AgreesExactly` has the exact condition on the
  events of a run under which flag and entry still agree, and `Callbacks.PerformAll` shows that the queue
  does what those events say.

## Model

| member | source | states |
|---|---|---|
| `MpInts.Alias` | _LEGACY/mpint.c:653-669 | an alias is a window of the same memory, clipped to what there is |
| `MpInts.AliasValue` | _LEGACY/mpint.c:653-669 | the number in a window of x is x divided by a power of the base and reduced modulo another |
| `MpInts.AllocFromScratch` | _LEGACY/mpint.c:685-691 | the window taken and the pool that is left have no word in common |
| `MpInts.CopyInto` | _LEGACY/mpint.c:115-120 | the destination holds the source modulo its size, and no other word changes |
| `MpInts.SelectInto` | _LEGACY/mpint.c:142-150 | one of two numbers, resized, is copied, for every overlap that the reading order tolerates |
| `MpInts.CondSwap` | _LEGACY/mpint.c:152-161 | two numbers that do not overlap trade values, or neither changes |
| `MpInts.CondClear` | _LEGACY/mpint.c:168-173 | the number becomes 0, or does not change |
| `MpInts.AddMaskedInto` | _LEGACY/mpint.c:708-720 | the one carry loop behind addition and subtraction: the words written and the carry out account for the sum of a, b masked and flipped, and the carry in |
| `MpInts.Adc` | _LEGACY/mpint_i.h:226-236 | a word and a carry make up the sum of two words and a carry |
| `AddSub.AddIntoCarry` | _LEGACY/mpint.c:725-728 | the sum modulo the size of the output, and a carry exactly when it does not fit |
| `AddSub.AddInto` | _LEGACY/mpint.c:730-733 | a + b modulo the size of the output, for operands of any sizes |
| `AddSub.SubInto` | _LEGACY/mpint.c:735-738 | a - b modulo the size of the output |
| `AddSub.CondAddInto` | _LEGACY/mpint.c:855-859 | a + b or a |
| `AddSub.CondSubInto` | _LEGACY/mpint.c:861-865 | a - b or a |
| `AddSub.NegInto` | _LEGACY/mpint.c:916-921 | -a modulo the size of the output |
| `AddSub.CopyIntegerInto` | _LEGACY/mpint.c:122-128 | the words of a C integer, one shift at a time, denote it modulo the size |
| `AddSub.AddIntegerInto` | _LEGACY/mpint.c:804-807 | a + n modulo the size, with the words of n produced on the fly |
| `AddSub.SubIntegerInto` | _LEGACY/mpint.c:809-813 | a - n modulo the size |
| `AddSub.CmpHs` | _LEGACY/mpint.c:871-875 | true just when a is at least b, for numbers of different sizes |
| `AddSub.CmpEq` | _LEGACY/mpint.c:896-902 | true just when the numbers are equal, for different sizes |
| `AddSub.EqInteger` | _LEGACY/mpint.c:904-914 | true just when the number equals a C integer, including one with more words than it |
| `Multiply.MulAdd2` | _LEGACY/mpint_i.h:255-266 | two words make up a * b + c + d, which always fits |
| `Multiply.MulAddSimple` | _LEGACY/mpint.c:941-958 | the schoolbook loop adds a * b to r modulo the size of r |
| `Multiply.MulIntegerInto` | _LEGACY/mpint.c:845-853 | a times a sixteen-bit number, if it fits; in place as well |
| `Karatsuba.MulInternal` | _LEGACY/mpint.c:1000-1102 | r is a * b modulo its size for all sizes of r, a and b; the recursion ends and its scratch space suffices |
| `Karatsuba.DivideAndConquer` | _LEGACY/mpint.c:1018-1101 | the recursive case, inside six times the input length of scratch words |
| `Karatsuba.MiddleCoefficient` | _LEGACY/mpint.c:1044-1085 | (u0 + u1)(v0 + v1) less the outer products is added at the middle place |
| `Karatsuba.MulInto` | _LEGACY/mpint.c:1104-1109 | a * b modulo the size of r |
| `Karatsuba.Mul` | _LEGACY/mpint.c:1111-1116 | the whole product |
| `Shifts.RightShifted` | _LEGACY/mpint.c:1138-1150 | words made of pairs of neighbours denote the number divided by a power of two |
| `Shifts.RshiftFixedInto` | _LEGACY/mpint.c:1138-1150 | a / 2^bits, cut to the size, in place as well |
| `Shifts.LshiftFixedInto` | _LEGACY/mpint.c:1118-1136 | a * 2^bits modulo the size, in place as well |
| `Shifts.ReduceMod2To` | _LEGACY/mpint.c:1260-1268 | x modulo 2^p for every p |
| `Shifts.GetBit` | _LEGACY/mpint.c:291-295 | bit i of the number, also beyond its end |
| `Bezout.SetBit` | _LEGACY/mpint.c:305-314 | one bit of the number changes |
| `Bezout.BitsOfWithBit` | _LEGACY/mpint.c:305-314 | setting a bit leaves every other bit as it was |
| `SafeShifts.RshiftSafeInPlace` | _LEGACY/mpint.c:1177-1206 | x / 2^bits for every shift count, from conditional shifts by powers of two |
| `SafeShifts.RshiftSafe` | _LEGACY/mpint.c:1208-1213 | the same, of a copy |
| `SafeShifts.LshiftSafeInPlace` | _LEGACY/mpint.c:1221-1252 | x * 2^bits modulo the size, for every shift count |
| `SafeShifts.GetNbits` | _LEGACY/mpint.c:364-397 | the number of significant bits, 0 for 0, by a scan and a binary search |
| `SafeShifts.BitsUnique` | _LEGACY/mpint.c:364-397 | a number has one number of significant bits |
| `Hensel.Lift` | _LEGACY/mpint.c:1274-1366 | an inverse modulo 2^b becomes one modulo 2^(2b) |
| `Hensel.Pass` | _LEGACY/mpint.c:1307-1357 | one pass does that on words, for widths below and above a word, within its scratch space |
| `Hensel.InvertMod2To` | _LEGACY/mpint.c:1274-1366 | x * r is 1 modulo 2^p and r is below 2^p, for every odd x and p > 0 |
| `Newton.NewtonStep` | _LEGACY/mpint.c:2180-2194 | one iteration doubles the accuracy of the reciprocal, less one bit, until it is exact to the divisor; the next value never exceeds R / d |
| `Newton.QuotientError` | _LEGACY/mpint.c:2201-2216 | with that accuracy the remainder of the raw quotient lies between 0 and d |
| `Newton.RawQuotientIsClose` | _LEGACY/mpint.c:2218-2229 | the raw quotient is exact, or one too small and then d divides n; it is exact just when the remainder is below d |
| `Newton.SeedAccuracy` | _LEGACY/mpint.c:2066-2174 | the 32-bit seed, scaled, is good to 20 bits |
| `Division.FindTopWord` | _LEGACY/mpint.c:343-362 | the index of the top word and the 128 bits below its top, by a scan that does not stop |
| `Division.Normalise` | _LEGACY/mpint.c:2039-2060 | the 128 bits are shifted to the top, and the count of places is returned |
| `Seed.RecipApprox32` | _LEGACY/mpint.c:1921-1957 | the polynomial in fixed point fits in 32 bits and is within 2047 of 2^63 / x, for every x with its top bit set |
| `Seed.FirstSevenExact` | _LEGACY/mpint.c:1948-1955 | no line of it but the last can overflow or go below zero |
| `Seed.AlwaysSmall` | _LEGACY/mpint.c:1931-1940 | without roundings it is within 1150 of 2^63 / x, from Taylor bounds on pieces of the interval |
| `Seed.Roundings` | _LEGACY/mpint.c:1947-1955 | its roundings come to less than 897 either way |
| `Seed.DeliveredFits` | _LEGACY/mpint.c:1955-1956 | the last line does not overflow 32 bits, not even for 2^31 |
| `Division.MakeSeed` | _LEGACY/mpint.c:2030-2142 | the seed is placed so that it is good to 20 bits |
| `Division.Reciprocal` | _LEGACY/mpint.c:2096-2194 | the loop delivers a reciprocal accurate enough for any dividend of the given size |
| `Division.Estimate` | _LEGACY/mpint.c:2201-2216 | the raw quotient is n / d, or one less only if d divides n; the remainder fits in the words of d |
| `Division.DivMod` | _LEGACY/mpint.c:1959-2246 | quotient and remainder, for every n and every d > 0 |
| `Division.DivModInto` | _LEGACY/mpint.c:1959-2246 | the same, cut to the sizes of the outputs, which may lie in one array |
| `Division.Div` | _LEGACY/mpint.c:2248-2253 | the quotient |
| `Division.Mod` | _LEGACY/mpint.c:2255-2260 | the remainder |
| `Division.ModMul` | _LEGACY/mpint.c:2338-2344 | x * y modulo the modulus |
| `Montgomery.Redc` | _LEGACY/mpint.c:1414-1460 | the multiple of m added makes x divisible by r, the quotient is below 2m, and one subtraction leaves x / r modulo m |
| `Montgomery.ReduceInternal` | _LEGACY/mpint.c:1414-1460 | x / r modulo m for every x below m * r, within its scratch space |
| `Montgomery.MontyNew` | _LEGACY/mpint.c:1373-1398 | for any odd modulus, a valid context |
| `Montgomery.MontyMulInto` | _LEGACY/mpint.c:1462-1473 | x * y / r modulo m, cut to the size of the output, also when that overlaps an input |
| `Montgomery.FormOfProduct` | _LEGACY/mpint.c:1462-1473 | the Montgomery product of two forms is the form of the product |
| `Montgomery.FormOfSum` | _LEGACY/mpint.c:2371-2377 | one conditional subtraction makes the sum of two forms the form of the sum |
| `Montgomery.FormOfDifference` | _LEGACY/mpint.c:2379-2385 | and one conditional addition the difference |
| `Montgomery.MontyAdd` | _LEGACY/mpint.c:2371-2390 | the form of the sum, on words, carry included |
| `Montgomery.MontySub` | _LEGACY/mpint.c:2379-2395 | the form of the difference |
| `Montgomery.FormInjective` | _LEGACY/mpint.c:1502-1543 | two forms are equal just when the numbers are congruent |
| `Montgomery.FormExported` | _LEGACY/mpint.c:1519-1536 | exporting a form gives the residue back |
| `Montgomery.MontyImport` | _LEGACY/mpint.c:1507-1510 | the form of any number |
| `Montgomery.MontyExportInto` | _LEGACY/mpint.c:1523-1529 | x / r modulo m, cut to the size of the output |
| `Montgomery.WidePowers` | _LEGACY/mpint.c:1545-1575 | if the base's words hold every residue, the accumulator is the form of the power |
| `Montgomery.FittingPowers` | _LEGACY/mpint.c:1545-1575 | as long as the forms of b^(2^i) fit in the words of the base, the accumulator is the form of the power |
| `Montgomery.FittingResult` | _LEGACY/mpint.c:1545-1575 | so the result is right if they fit below the top bit of the exponent, however many bits are read after it |
| `Montgomery.NarrowPower` | _LEGACY/mpint.c:1545-1575 | if the first form that may not fit belongs to the top bit of the exponent, and the other factor has an inverse, the result is right just when it does fit |
| `Montgomery.NarrowSquare` | _LEGACY/mpint.c:1545-1575 | a square comes out right just when its form fits, for any number of bits of the exponent |
| `Montgomery.NarrowBaseFails` | _LEGACY/mpint.c:1545-1575 | a family of moduli, one for each word size, for which it does not |
| `Montgomery.MontyPow` | _LEGACY/mpint.c:1545-1575 | the value for a base of any width; the form of b^e, for every e, if the base is wide enough, or if the squares that are needed fit |
| `Montgomery.ModPow` | _LEGACY/mpint.c:1577-1590 | base^exponent modulo any odd modulus |
| `Montgomery.MontyInvert` | _LEGACY/mpint.c:1492-1500 | the form of the inverse |
| `Stein.CommonDivisorsKept` | _LEGACY/mpint.c:1698-1733 | a reduction step keeps the common divisors |
| `Stein.ProductHalves` | _LEGACY/mpint.c:1698-1733 | and at least halves the product |
| `Stein.RunEnds` | _LEGACY/mpint.c:1658-1733 | 2n steps turn numbers below 2^n, not both even, into 0 and their greatest common divisor |
| `Stein.UndoInverts` | _LEGACY/mpint.c:1784-1824 | the recorded step undoes the reduction |
| `Stein.UnwoundGood` | _LEGACY/mpint.c:1762-1824 | unwinding keeps ac * a - bc * b at 1 or -1 on the numbers divided by their gcd, within bounds |
| `Stein.UnwoundWithZero` | _LEGACY/mpint.c:1698-1824 | with a zero, the run leaves the other number, and the unwinding stays at its start |
| `Stein.BezoutResult` | _LEGACY/mpint.c:1762-1839 | the coefficients satisfy A * a - B * b = gcd with 0 <= B < a/d and 0 <= A <= b/d, and A = b/d only if b = d |
| `Stein.OutcomeIsExact` | _LEGACY/mpint.h:288-290 | A * a - B * b is the gcd, as promised, just when a is positive or b is 0, and always modulo the size of the registers |
| `Bezout.ReduceAll` | _LEGACY/mpint.c:1698-1733 | the loop on words performs the run and records every step |
| `Bezout.UnwindAll` | _LEGACY/mpint.c:1784-1824 | the loop on words performs the unwinding from the record |
| `Bezout.BezoutInto` | _LEGACY/mpint.c:1670-1857 | gcd and coefficients of two numbers, not both even unless both are 0, cut to the sizes of the outputs, which may overlap the inputs: minimal coefficients for positive numbers, and exact ones for zeros |
| `Bezout.Invert` | _LEGACY/mpint.c:1859-1864 | x times the result is the gcd modulo m, hence the inverse if they are coprime, for x = 0 as well; for m = 0, 1 or 0 cut to size |
| `Gcd.AndNegation` | _LEGACY/mpint.c:1876-1885 | a word and its negation share the lowest set bit only |
| `Gcd.LowestOfEither` | _LEGACY/mpint.c:1868-1887 | the lowest bit set in either number gives the largest power of two that divides both |
| `Gcd.SharedShift` | _LEGACY/mpint.c:1868-1887 | the exponent of the largest power of two that divides both numbers; for two zeros, the largest size_t |
| `Gcd.GcdScaled` | _LEGACY/mpint.c:1889-1903 | taking out a common factor divides the gcd by it |
| `Gcd.GcdInto` | _LEGACY/mpint.c:1866-1904 | gcd and coefficients of any two numbers, zeros included, cut to the sizes of the outputs |
| `Gcd.Gcd` | _LEGACY/mpint.c:1906-1911 | the gcd of any two numbers, cut to the words of the shorter, which hold it if both are positive |
| `Gcd.Coprime` | _LEGACY/mpint.c:1913-1919 | the answer is right just when both numbers are positive or what is left of the other one is 1 only if it is 1 |
| `Gcd.GcdWithZero` | _LEGACY/mpint.c:1906-1911 | with a zero, right just when the other number fits in the words of the shorter |
| `Gcd.CoprimeWithZeroFails` | _LEGACY/mpint.c:1913-1919 | an instance that is taken for coprime |
| `NthRoot.TrialFits` | _LEGACY/mpint.c:2262-2336 | no power that is tried overflows one word more than y has, for n up to 18 |
| `NthRoot.RootStep` | _LEGACY/mpint.c:2288-2323 | trying a bit leaves the root exact to that bit |
| `NthRoot.NextBinomial` | _LEGACY/mpint.c:2309-2314 | the running coefficient is the next binomial coefficient, and fits in sixteen bits |
| `NthRoot.NewPower` | _LEGACY/mpint.c:2293-2315 | the sum of terms is (x + 2^s)^i exactly |
| `NthRoot.NthRoot` | _LEGACY/mpint.c:2262-2336 | the largest x with x^n <= y, and y - x^n, for 1 <= n <= 18 and every y |
| `NthRoot.RootSize` | _LEGACY/mpint.c:2328-2329 | the root fits in the words allocated for it |
| `NthRoot.CoefficientsFit` | _LEGACY/mpint.c:2309-2314 | the assertion on the coefficients holds just when n is at most 18 |
| `Primes.RootsOfOne` | _LEGACY/millerrabin.c:18-24 | modulo a prime the only square roots of 1 are 1 and -1 |
| `Primes.Fermat` | _LEGACY/millerrabin.c:12-16 | Fermat's little theorem |
| `Primes.EulerNonSquare` | _LEGACY/mpint.c:2508-2521 | a nonsquare has -1 for its ((p-1)/2)th power |
| `Primes.EulerSquare` | _LEGACY/mpint.c:2508-2521 | a nonzero square has 1 |
| `ModSqrt.FirstTest` | _LEGACY/mpint.c:2582-2593 | the first test, or being 0, tells the squares from the nonsquares |
| `ModSqrt.Correct` | _LEGACY/mpint.c:2594-2602 | a correction keeps root^2 = x * u and moves u one subgroup down |
| `ModSqrt.ModsqrtContext.constructor` | _LEGACY/mpint.c:2442-2466 | p - 1 = k * 2^e with k odd |
| `ModSqrt.LowestBit` | _LEGACY/mpint.c:2451-2456 | the lowest set bit of p - 1 |
| `ModSqrt.LazySetup` | _LEGACY/mpint.c:2468-2472 | z^k is computed once and kept |
| `ModSqrt.CorrectAll` | _LEGACY/mpint.c:2581-2603 | the iterations end with u = 1 if x is a nonzero square |
| `ModSqrt.MontyModsqrt` | _LEGACY/mpint.c:2554-2605 | succeeds just when x is a square modulo the prime, 0 included, and then the result's square is x |
| `ModSqrt.Modsqrt` | _LEGACY/mpint.c:2488-2496 | the same outside Montgomery form |
| `MillerRabin.MillerRabinNew` | _LEGACY/millerrabin.c:104-125 | p - 1 = q * 2^k with q odd |
| `MillerRabin.TestInner` | _LEGACY/millerrabin.c:143-176 | passes just when the chain starts with 1 or contains -1, and reports a potential primitive root just when its last number is -1; the chain starts with w^q if the witness is wide enough, or if the squares that are needed fit |
| `MillerRabin.PrimesPass` | _LEGACY/millerrabin.c:33-48 | a prime passes for every witness |
| `MillerRabin.PassImpliesFermat` | _LEGACY/millerrabin.c:12-16 | whatever passes has w^(p-1) = 1 |
| `MillerRabin.AcceptedChain` | _LEGACY/millerrabin.c:33-48 | an accepted chain shows no square root of 1 but 1 and -1 |
| `MillerRabin.RootsAreNonSquares` | _LEGACY/millerrabin.c:158-171 | for a prime the potential primitive roots are exactly the nonsquares |
| `Decimal.FromDecimal` | _LEGACY/mpint.c:213-235 | the value of any string of digits; no step overflows the words set aside |
| `Decimal.DigitsAre` | _LEGACY/mpint.c:213-235 | which digit is which |
| `Decimal.DigitsToBits` | _LEGACY/mpint.c:215-222 | 196/59 bits a digit suffice |
| `Decimal.BitsToDigits` | _LEGACY/mpint.c:462-469 | 146/485 digits a bit suffice |
| `DigitSum.ReduceDigitCorrect` | _LEGACY/mpint.c:508-520 | multiplying by 2^32/10 and one trial subtraction give the residue modulo 10 |
| `DigitSum.FoldResidue` | _LEGACY/mpint.c:498-502 | a fold keeps the residue modulo 10 |
| `DigitSum.WithinLimit` | _LEGACY/mpint.c:490-506 | up to the limit, the running bound bounds the sum in every pass between folds, and the sum has the residue of the bytes |
| `DigitSum.CulpritIsWrong` | _LEGACY/mpint.c:490-506 | one word above the limit, a number for which the sum wraps and the digit comes out wrong |
| `DigitSum.DigitIsRight` | _LEGACY/mpint.c:478-520 | the digit is right for all numbers of a size just when that is at most 7017245 words of 32 bits, or 1052612 of 64 |
| `Decimal.LowDigit` | _LEGACY/mpint.c:478-520 | the loop computes that digit for every number, and it is the residue up to the limit |
| `Decimal.DivideBy10` | _LEGACY/mpint.c:523-530 | subtraction, a shift and a multiplication by the inverse of 5 divide by ten exactly |
| `Decimal.MakeInverseOf5` | _LEGACY/mpint.c:451-460 | the constant built word by word is an inverse of 5 |
| `Decimal.TrimLeadingZeroes` | _LEGACY/mpint.c:407-438 | passes of swaps move the string left by exactly the number of leading zeros |
| `Decimal.GetDecimal` | _LEGACY/mpint.c:447-539 | the canonical decimal representation up to the limit; above it, the last character is still the digit that the loop finds |
| `Decimal.DecimalIsRight` | _LEGACY/mpint.c:447-539 | which is that of the number, for all numbers of a size, just when the size is within the limit |
| `Decimal.DecimalBothWays` | _LEGACY/mpint.c:213-240 | printing and reading are inverse to each other, on numbers and on canonical strings |
| `Weierstrass.EpilogueCorrect` | _LEGACY/ecc.c:218-253 | from points over a common denominator and a slope, the third intersection, reflected |
| `Weierstrass.DoubleCorrect` | _LEGACY/ecc.c:357-369 | the tangent's third intersection, for a point of any denominator |
| `Weierstrass.DoubleToInfinity` | _LEGACY/ecc.c:357-369 | doubling a point with y = 0 or the identity gives Z = 0 |
| `Weierstrass.SlopeTests` | _LEGACY/ecc.c:262-294 | the slope's numerator and denominator vanish just when y and x agree |
| `Weierstrass.AddPointsCorrect` | _LEGACY/ecc.c:296-324 | the assertion fails just when the y coordinates agree; otherwise the result is the sum |
| `WeierstrassLaw.AddPointsStops` | _LEGACY/ecc.c:296-324 | two different points with the same y, for which it stops |
| `WeierstrassLaw.MultiplyStops` | _LEGACY/ecc.c:434-469 | a point and its double with the same y, for which every multiplication stops |
| `Weierstrass.AddGeneralCorrect` | _LEGACY/ecc.c:380-432 | the sum for identities, opposite points and points with different x, and the identity always as (0, 0, 0) |
| `Weierstrass.AddGeneralDoubles` | _LEGACY/ecc.c:380-432 | for a finite point and itself, right just when the tangent's scale fits, as it does for Z = 1 |
| `WeierstrassLaw.AddGeneralFails` | _LEGACY/ecc.c:380-432 | an instance in which it does not |
| `WeierstrassLaw.ChordOnCurve` | _LEGACY/ecc.c:211-217 | the sum of two points with different x is on the curve |
| `WeierstrassLaw.TangentOnCurve` | _LEGACY/ecc.c:326-333 | so is the double of a point |
| `WeierstrassLaw.SumExists` | _LEGACY/ecc.c:211-217 | any two points of the curve have a sum in the reference law |
| `CubicGroup.Generic` | _LEGACY/ecc.c:211-217 | chords and tangents are associative where no sum is at infinity and the third point has an x of its own: the two lines on either side belong to one function, which four zeros determine |
| `CubicGroup.AddsAssociative` | _LEGACY/ecc.c:211-217 | they are associative in every case, on any nonsingular b y^2 = x^3 + a2 x^2 + a4 x + a6 modulo an odd prime |
| `CubicGroup.CubicGroupLaw` | _LEGACY/ecc.c:211-217 | so the points are an abelian group |
| `CubicGroup.MultipleSum` | _LEGACY/ecc.c:434-469 | in which multiples by repeated addition add up |
| `CurveGroups.AddsIsSum` | _LEGACY/ecc.c:211-217 | on a Weierstrass curve that law is the reference law of the formulas above |
| `CurveGroups.WeierstrassValid` | _LEGACY/ecc.c:52-67 | a Weierstrass curve is nonsingular if 4a^3 + 27b^2 is not 0 |
| `CurveGroups.AddAtInfinity` | _LEGACY/ecc.c:296-324 | two points at infinity make the addition stop, one whose Y is not 0 does not |
| `CurveGroups.DoubleOfOrderTwo` | _LEGACY/ecc.c:357-369 | the double of a point of order 2 has such a Y |
| `WeierstrassLaw.PointValidCorrect` | _LEGACY/ecc.c:508-543 | the projective equation holds just when the point is on the curve |
| `WeierstrassLaw.NormaliseCorrect` | _LEGACY/ecc.c:481-493 | afterwards X and Y are the affine coordinates and Z is 1 |
| `WeierstrassLaw.ChooseRootCorrect` | _LEGACY/ecc.c:182-189 | a root of the parity asked for, which is p and so unreduced just when the root is 0 and an odd one is asked for |
| `MontgomeryCurve.DifferentialAddition` | _LEGACY/ecc.c:665-674 | the relation between x(P+Q), x(P-Q), x(P) and x(Q), from the affine group law |
| `MontgomeryCurve.DoublingWithoutY` | _LEGACY/ecc.c:710-731 | the formula for the double without y, from the tangent |
| `MontgomeryCurve.DiffAddCorrect` | _LEGACY/ecc.c:658-703 | the projective form gives the coordinate of the sum, or Z = 0 just when the points have the same x or their difference is at x = 0 |
| `MontgomeryCurve.DoubleXZCorrect` | _LEGACY/ecc.c:705-755 | the projective form gives the coordinate of the double, or Z = 0 just when that is the identity |
| `CurveGroups.DoublesPoint` | _LEGACY/ecc.c:705-755 | the x coordinate of the double, for every point of a Montgomery curve, with (X : 0) for infinity on either side |
| `CurveGroups.AddsPoints` | _LEGACY/ecc.c:658-703 | the x coordinate of M + N for points that differ by D, wherever the three are, if D is finite and not at x = 0 |
| `CurveGroups.MontgomeryValid` | _LEGACY/ecc.c:572-594 | a Montgomery curve is nonsingular if b is not 0 and a^2 is not 4 |
| `CurveGroups.ExceptionalSum` | _LEGACY/ecc.c:658-703 | three times a base point at infinity or at x = 0 comes out as (0 : 0) |
| `CurveGroups.NullStays` | _LEGACY/ecc.c:658-755 | and nothing comes of (0 : 0) but (0 : 0) |
| `Edwards.EdwardsAddCorrect` | _LEGACY/ecc.c:1024-1083 | the extended coordinates of the sum, T included, when neither denominator vanishes |
| `Edwards.SumOnCurve` | _LEGACY/ecc.c:1031-1048 | the sum is on the curve |
| `Edwards.Complete` | _LEGACY/ecc.c:1031-1048 | if a is a square and d is not, no denominator vanishes for any two points |
| `Edwards.EdwardsEqCorrect` | _LEGACY/ecc.c:1132-1155 | the comparison is that of the affine coordinates |
| `EdwardsGroup.CrossProducts` | _LEGACY/ecc.c:1031-1048 | the numerator of the x coordinate of (P + Q) + R times the denominator for P + (Q + R), and the other way round, agree on the curve |
| `EdwardsGroup.AdditionAssociative` | _LEGACY/ecc.c:1031-1048 | the affine rule is associative on a complete curve, in both coordinates |
| `EdwardsGroup.GroupLaw` | _LEGACY/ecc.c:1031-1048 | the points of a complete curve are an abelian group under the affine rule, with (0, 1) neutral and (-x, y) opposite |
| `Ladders.Multiply` | _LEGACY/ecc.c:434-469 | the ladder common to the three curves, over any operations that double and add: it holds k and k + 1 times the base for each prefix k of n, stops just when one of its additions does, and returns the base itself for n = 0 |
| `Ladders.WeierstrassMultiply` | _LEGACY/ecc.c:434-469 | for n less than the order of the point, as its description asks: it stops just when two neighbours that it adds have the same y, or the point is at infinity, and otherwise returns n times the point, by repeated addition in the group |
| `Ladders.MontgomeryMultiply` | _LEGACY/ecc.c:766-824 | the x coordinate of n times the point, for every point of a nonsingular curve and every n, except just when the point is at infinity or x = 0 and n is neither 0 nor a power of 2; then (0 : 0) |
| `Ladders.EdwardsTimesSum` | _LEGACY/ecc.c:1096-1130 | on a complete Edwards curve multiples by repeated addition add up |
| `Ladders.EdwardsMultiply` | _LEGACY/ecc.c:1096-1130 | n times the point, by repeated addition, for every point of a complete Edwards curve and every n > 0 |
| `Reads.Sticky` | _LEGACY/marshal.c:104-283 | an error survives any run of reads, of integers and BER items too, and freezes the position |
| `Encodings.OneCheckAtTheEnd` | _LEGACY/marshal.c:104-283 | so, if there is no error at the end of a run of reads, each of them delivered what the bytes between two positions encode |
| `Encodings.AcceptsExactly` | _LEGACY/marshal.c:104-283 | each of the ten reads succeeds exactly if what is left begins with bytes of its format, which is described without reference to it |
| `Encodings.Sound` | _LEGACY/marshal.c:104-283 | what it then delivers is what the bytes that it consumed encode |
| `Encodings.Complete` | _LEGACY/marshal.c:104-283 | and bytes of the format are read as what they encode, and exactly consumed, whatever follows; a line with CR LF, LF or the end of the data after it included |
| `Encodings.FailsExactly` | _LEGACY/marshal.c:104-283 | otherwise it delivers nothing, or the characters before the end of the data, with the error and the position that this leaves |
| `Encodings.NothingAfterError` | _LEGACY/marshal.c:104-114 | after an error nothing is delivered at all |
| `Marshal.BinarySource.Avail` | _LEGACY/marshal.c:104-114 | the test that sets the error, and only the first time |
| `Marshal.BinarySource.ReadData` | _LEGACY/marshal.c:123-129 | bytes, or none on error |
| `Marshal.BinarySource.ReadString` | _LEGACY/marshal.c:186-201 | a string with a length in front |
| `Marshal.BinarySource.ReadPstring` | _LEGACY/marshal.c:268-283 | a string with a one-byte length in front |
| `Marshal.BinarySource.ReadAsciz` | _LEGACY/marshal.c:203-219 | a zero-terminated string |
| `Marshal.BinarySource.ReadChars` | _LEGACY/marshal.c:221-243 | the longest run of bytes in, or not in, a set; the end of the data is an error |
| `Marshal.BinarySource.ReadChompedLine` | _LEGACY/marshal.c:245-266 | a line without its newline and one carriage return |
| `Reads.RewindReplays` | _LEGACY/marshal.c:285-294 | going back after any run of reads, failed or not, restores the source, so that the same reads deliver the same values |
| `Reads.RewindTooFar` | _LEGACY/marshal.c:285-294 | going past the end is an error, and no later read delivers anything |
| `Marshal.BinarySink.PutPadding` | _LEGACY/marshal.c:18-27 | so many copies of a byte, in blocks |
| `Marshal.GetUintBack` | _LEGACY/marshal.c:40-59 | a fixed-size integer is read back |
| `Marshal.GetStringBack` | _LEGACY/marshal.c:61-69 | a string is read back, and exactly it is consumed |
| `Marshal.GetPstringBack` | _LEGACY/marshal.c:92-100 | so is a string of at most 255 bytes |
| `Marshal.GetAscizBack` | _LEGACY/marshal.c:87-90 | so is a zero-terminated one |
| `Wire.GetByteOf` | _LEGACY/mpint.c:285-289 | byte i of the number |
| `Wire.FromBytesBe` | _LEGACY/mpint.c:179-199 | the number in a string of bytes, by or-ing bytes into words |
| `Wire.PutMpSsh2` | _LEGACY/mpint.c:596-603 | the writer appends the encoding |
| `Wire.PutMpSsh1` | _LEGACY/mpint.c:585-594 | so does the one for SSH-1 |
| `Wire.Ssh1CountsBits` | _LEGACY/mpint.c:585-594 | the bits of the number are counted exactly |
| `Wire.ReadMpSsh2` | _LEGACY/mpint.c:624-639 | the reader delivers the value and leaves the source as specified |
| `Wire.ReadMpSsh1` | _LEGACY/mpint.c:605-622 | so does the one for SSH-1 |
| `Wire.Ssh2RoundTrip` | _LEGACY/mpint.c:596-639 | reading back gives x and consumes exactly the encoding, for every x > 0; 0 is refused |
| `Wire.Ssh2Unique` | _LEGACY/mpint.c:624-639 | one string is accepted for each number, the one that is written for it |
| `Wire.Ssh1RoundTrip` | _LEGACY/mpint.c:585-622 | reading back gives x, for every x of fewer than 65536 bits |
| `Wire.PutMpSsh2FromString` | _LEGACY/import.c:331-346 | the writer appends the encoding of a string of bytes |
| `Wire.FromStringRoundTrip` | _LEGACY/import.c:331-346 | any string, of zeros as well, becomes an integer that is accepted, with its value |
| `Ber.PutBerIdLen` | _LEGACY/import.c:223-264 | the header for any identifier below 2^28 and length below 2^24 |
| `Encodings.IdBytesShortest` | _LEGACY/import.c:223-245 | an identifier is written in the shortest way |
| `Encodings.LengthBytesShortest` | _LEGACY/import.c:246-264 | so is a length: one byte below 128, and otherwise no zero in front |
| `Ber.ReadBer` | _LEGACY/import.c:275-307 | the reader, with the loops for long identifiers and lengths |
| `Ber.BerRoundTrip` | _LEGACY/import.c:223-307 | identifier, flags and content are read back, and exactly they are consumed |
| `KeyFiles.PemWrite` | _LEGACY/import.c:942-949 | a SEQUENCE of INTEGERs |
| `KeyFiles.PemReadIntegers` | _LEGACY/import.c:724-768 | the loop that reorders the integers into PuTTY's blobs |
| `KeyFiles.PemRoundTrip` | _LEGACY/import.c:843-949 | an RSA or DSA key written and read back gives the same blobs, the two numbers dropped notwithstanding |
| `KeyFiles.RsaIntegers` | _LEGACY/import.c:874-907 | the nine integers of an RSA key, in the order of PKCS #1; the reduced exponents are below p - 1 and q - 1, and congruent to d modulo them |
| `KeyFiles.ReducedExponentsServe` | _LEGACY/import.c:874-884 | they do to a number modulo each prime what d does |
| `KeyNumbers.Reduced` | _LEGACY/import.c:874-899 | d modulo p - 1 on mp_ints, as bytes with room for a sign |
| `KeyNumbers.PemNumbersOf` | _LEGACY/import.c:857-935 | the integers of a key taken out of its blobs |
| `KeyNumbers.PemWriteKey` | _LEGACY/import.c:842-949 | the payload of a key, from its blobs |
| `KeyFormats.KeyBlobs` | _LEGACY/import.c:857-935 | the blobs of a key, read with the reads of a BinarySource, hold its name and its numbers, and nothing else |
| `KeyFormats.PemIsSequence` | _LEGACY/import.c:942-948 | what is written is one constructed SEQUENCE of universal INTEGERs with these contents, and nothing else |
| `KeyFormats.PemReadExactly` | _LEGACY/import.c:623-780 | a payload is accepted exactly if it begins with a SEQUENCE of enough INTEGERs of which the first is 0; the blobs then hold the others in their places |
| `KeyFiles.PutMpSshcomFromString` | _LEGACY/import.c:1899-1914 | the search for the top bit ends at it |
| `KeyFiles.SshcomEncodes` | _LEGACY/import.c:1899-1914 | an integer is written as the count of its bits and its bytes without leading zeros; the counts for zero and for the empty string |
| `KeyNumbers.SshcomNumbersOf` | _LEGACY/import.c:2176-2230 | the integers of a key taken out of its blobs |
| `KeyFiles.SshcomPayloadBack` | _LEGACY/import.c:2072-2122 | the payload alone, with padding after it, gives the same blobs |
| `Sshcom.SshcomWrite` | _LEGACY/import.c:2236-2285 | header, types, and a payload padded and encrypted or not, with the three lengths filled in last |
| `KeyFormats.SshcomBlobHolds` | _LEGACY/import.c:2236-2268 | the blob that is written, read back: the magic number, its whole length, the names of type and cipher, and a payload of a size for the cipher |
| `KeyFormats.SshcomPayloadHolds` | _LEGACY/import.c:2195-2252 | the payload holds the numbers of the key in the order of ssh.com |
| `KeyFormats.SshcomLoadExactly` | _LEGACY/import.c:1967-2058 | for which headers a blob is refused, and when a failure means a wrong passphrase |
| `KeyFormats.SshcomReadExactly` | _LEGACY/import.c:2054-2122 | a payload is accepted exactly if it is a string with the integers of a key in it; the blobs then hold them in their places |
| `Sshcom.SshcomRoundTrip` | _LEGACY/import.c:1967-2122 | what was written is read back, with a passphrase or without, for any cipher that decryption inverts; p and q are swapped twice |
| `AgentForward.FramesOfEncoded` | _LEGACY/agentf.c:65-97 | messages taken off the front of a stream are determined by the stream |
| `AgentForward.FrontIs` | _LEGACY/agentf.c:66-91 | when the buffer begins with a message, with too long a one, or with less: by its first four bytes and the limit of 256 kilobytes |
| `AgentForward.AgentForwarder.TryForward` | _LEGACY/agentf.c:40-128 | what it writes: a response for each answer, in order; then, if idle, a failure and EOF for an overlong message, or EOF after the peer's; and nothing else. One request at a time, none while one is pending or input is unwanted. At an EOF every complete message received has been passed on and answered |
| `AgentForward.EofMeansFinished` | _LEGACY/agentf.c:112-128 | over a whole run: at the moment of each EOF, which the events above stamp with their own state, all complete messages received by then had been passed on and answered |
| `AgentForward.AgentForwarder.Callback` | _LEGACY/agentf.c:130-142 | a late answer is passed on, and the next request submitted; outputs as above |
| `AgentForward.AgentForwarder.Send` | _LEGACY/agentf.c:199-216 | the bytes are added to those received, which stay the requests submitted and then the buffer; what is returned is the backlog; outputs as above |
| `AgentForward.AgentForwarder.SendEof` | _LEGACY/agentf.c:218-229 | the peer's EOF is remembered, and answered at once or later; outputs as above |
| `AgentForward.AgentForwarder.SetInputWanted` | _LEGACY/agentf.c:236-249 | throttling stops requests, and its end resumes them; outputs as above |
| `AgentForward.RequestsAreFrames` | _LEGACY/agentf.c:24-142 | the requests are the first messages received, all of them if idle; the responses are the answers in order, with 00 00 00 01 05 for none |
| `AgentForward.ChunkingDoesNotMatter` | _LEGACY/agentf.c:199-216 | the pieces in which bytes arrive make no difference |
| `ProxyStderr.CutUnique` | _LEGACY/be_misc.c:75-88 | there is one way to cut the input into lines and full buffers |
| `ProxyStderr.ProxyStderrBuf.Drain` | _LEGACY/be_misc.c:102-147 | restores the invariant after the buffer is filled: what is logged is the cut of all input, the rest is at the front, and there is room |
| `ProxyStderr.ProxyStderrBuf.TrimEnd` | _LEGACY/be_misc.c:114-117 | trailing carriage returns are dropped |
| `ProxyStderr.ProxyStderrBuf.LogProxyStderr` | _LEGACY/be_misc.c:70-154 | the log is that of the one way to cut all input so far, each text up to its first zero byte, and the buffer has room between calls |
| `ProxyStderr.LogIs` | _LEGACY/be_misc.c:94-138 | each message is its piece of the input: up to the carriage returns before the newline, or a full buffer, and nothing from a zero byte on |
| `ProxyStderr.LineLogged` | _LEGACY/be_misc.c:104-121 | a line of text is logged as that text, whatever carriage returns precede its newline |
| `ProxyStderr.ChunkingDoesNotMatter` | _LEGACY/be_misc.c:75-83 | messages depend on the concatenated input only |
| `Callbacks.CallbackQueue.Queue` | _LEGACY/callback.c:72-100 | an entry goes to the tail, and the front end is told just when nothing was pending |
| `Callbacks.CallbackQueue.QueueIdempotent` | _LEGACY/callback.c:36-42 | at most one entry for each idempotent callback, and an entry implies the flag |
| `Callbacks.CallbackQueue.TakeApart` | _LEGACY/callback.c:48-64 | the nodes that are kept are linked to one another in their order |
| `Callbacks.CallbackQueue.DeleteForContext` | _LEGACY/callback.c:44-70 | deletion is a stable filter: ordinary entries with the context go, and idempotent callbacks that are it or have it, and no others; flag and entry stay in step exactly otherwise |
| `Callbacks.FilteredMembers` | _LEGACY/callback.c:52-54 | what is left is what does not concern the context |
| `Callbacks.EntriesLeft` | _LEGACY/callback.c:52-54 | the same of the list |
| `Callbacks.FilteredAppend` | _LEGACY/callback.c:44-70 | entries are treated one by one, so that order and multiplicity stay |
| `Callbacks.CallbackQueue.Begin` | _LEGACY/callback.c:102-121 | the oldest entry is run, and the tail is null exactly when the list is empty |
| `Callbacks.CallbackQueue.End` | _LEGACY/callback.c:121-127 | nothing is pending afterwards just when the queue is empty |
| `Callbacks.Perform` | _LEGACY/callback.c:36-127 | each operation has the effect of an event on entries and flags, and keeps the two in step but for a deletion that removes an entry |
| `Callbacks.PerformAll` | _LEGACY/callback.c:36-127 | any run of operations has the effect of its events, begins what they begin, and leaves a callback in step just when no deletion for it came while it was queued |
| `Callbacks.AgreesExactly` | _LEGACY/callback.c:36-127 | that condition, of the events themselves: both ways, for every run |
| `Callbacks.FirstComeFirstServed` | _LEGACY/callback.c:36-127 | in a run without deletions what was queued is what has begun, in order, and what is left |
| `Callbacks.NothingLost` | _LEGACY/callback.c:36-127 | in any run each entry queued has begun, has been deleted or is left, once |
| `Callbacks.DeletedAndAskedForAgain` | _LEGACY/callback.c:36-70 | what happens otherwise: a flag without an entry, and a request that is not queued |

## Left out

- Timing: that the code takes the same time for all inputs of a size, and the masks by which it does so.
- Memory: allocation, freeing, wiping, and the limits that `size_t` puts on sizes.
- Words of 16 bits, and the compiler intrinsics and assembler forms of the word operations.
- Random numbers, key generation, and the probability with which a composite number passes the test.
- `_LEGACY/mpint.c`: hexadecimal conversion, `mp_modadd`, `mp_modsub`, `mp_min` and `mp_max`.
- `_LEGACY/ecc.c` works on numbers in Montgomery form; the curve modules work on residues, which `Montgomery.FormOfProduct`, `Montgomery.FormOfSum`, `Montgomery.FormOfDifference` and `Montgomery.FormInjective` justify. What is stored where is not modelled.
- Ladders.WeierstrassMultiply: asks that the multiplier is less than the order of the point, as the description of the code does.
- Montgomery.NarrowPower: says nothing of a running square that is cut before the top bit of the exponent is reached, or of a factor without an inverse.
- Bezout.Invert: asks for numbers that are not both even, as `mp_bezout_into` does.
- Division.DivModInto: asks for a positive divisor, as the assertion in the code does, and for at least one word in the dividend.
- Decimal.FromDecimal: asks for digits. The code does not look.
- Decimal.GetDecimal: above the limit only the last character is specified.
- Ber.ReadBer: an identifier grows without limit where the code's `int` would overflow.
- Ber.PutBerIdLen: identifiers below 2^28 and lengths below 2^24, where the code's buffer and shifts suffice.
- KeyFiles.PemRoundTrip: the payload of the file only. Base64, encryption, headers and the formats for elliptic curves are not modelled.
- Sshcom.SshcomRoundTrip: the key blob. Its base64 form, the comment and the header lines of the file are not modelled, and triple DES is a parameter.
- MillerRabin.TestInner: one witness. The choice of witnesses and the loop over them are not modelled.
- AgentForward.AgentForwarder.Refuse: after refusing an overlong message the code asks for the channel to be closed, and how it comes to be closed is not modelled.
- ProxyStderr.ProxyStderrBuf.LogLine: a message is a kind and its text, without the prefix.
- Callbacks.CallbackQueue.Begin: a callback that itself runs the queue is not modelled.
- The terminal, line discipline, bidirectional text, configuration, the SSH transport, the user interfaces and everything platform-specific.
