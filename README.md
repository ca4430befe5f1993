# Project-Euler solver: verified model of the integer core

The repository is a desktop Project-Euler solver. A tkinter front end lets the
user pick a problem and a parameter. A worker process then runs one of the
routines in `Features/` and shows its answer. This project models those
routines in Dafny and proves what they compute. They are exact integer and
sequence computations:

- the prime engine: an odd-only sieve, a primality test that combines trial
  division with Miller–Rabin, factorisation, and the Lucas–Lehmer scan for
  Mersenne exponents;
- digit utilities: binary search, modular exponentiation, digit lists,
  reversal and concatenation;
- the puzzle routines built on the two groups above: path counts, continued
  fractions, coin change, factorial-base permutations, recurring decimals,
  the Gregorian calendar, figurate and Fibonacci numbers, divisors and
  amicable numbers, Collatz trajectories, palindromes, the triangle
  maximum-path problem, grid window products and Pythagorean triples.

There is one Dafny module per source file:

| module | file |
|---|---|
| `PrimeNumbers` | prime_numbers.dfy |
| `MyUtils` | my_utils.dfy |
| `MathOperations` | math_operations.dfy |
| `NumberOperations` | number_operations.dfy |
| `Sequences` | sequences.dfy |
| `Dividers` | dividers.dfy |
| `Collatz` | collatz.dfy |
| `Palindromes` | palindromes.dfy |
| `TableOperations` | table_operations.dfy |
| `Navigation` | navigation.dfy |
| `Pythagorean` | pythagorean.dfy |

Shared definitions have modules of their own:

- `Wrappers`: `Option`.
- `Arith`: powers, factorials, sums, products and the integer square root.
- `NumberTheory`: primality and divisibility.
- `Sorting`: a reference sort and the sortedness and permutation facts about it.
- `PrimeCertificates`: the primality proofs for the large constants.
- `Fermat`: binomial coefficients, Fermat's little theorem and the square roots of 1 modulo a prime, on which the Miller–Rabin acceptance of primes rests.

The model takes each routine in the form its source has:

- Loops become methods with loop invariants, proved against a
  specification function.
- In-place updates become `array` or class updates. These are the sieve's
  bit array, `dp` in coin change, the in-place sorts of `name_score` and
  `list_filter`, and the Collatz memo cache.
- Expressions become functions, with lemmas stating what they mean.

Python's `//` and `%` are Dafny's `/` and `%` wherever the divisor is
positive, as it is everywhere in the core. A Python exception becomes
`None` for the caller, so a raising case is visible in the contract and not
excluded by it.

Several docstring examples disagree with the code. The model follows the code
and proves what the code gives:

- `find_friendly_numbers(300)` gives [284, 220], not [220, 284].
- `check_divisors('>', [10, 12, 15, 16], 4)` drops 15.
- `find_longest_collatz(10)` is (20, 9), not (7, 9).
- `diagonal_1` on the example gives 24, not 2.
- `pythagorean_triple_1(12)`, `pythagorean_triple_2(25)` and
  `whole_right_triangles(12)` find nothing.

The rows of "Model" below name each of these examples.

## Model

| member | source | states |
|---|---|---|
| PrimeNumbers.PrimeNum | Features/PrimeNumbers.py:71-89 | `prime_num(max_num)` equals the list specification: the primes strictly below max_num, ascending, and [2] whenever max_num ≤ 2 |
| PrimeNumbers.PrimeListMembers | Features/PrimeNumbers.py:78-89 | that list holds exactly the primes below max_num for max_num > 2, is [2] otherwise, and is strictly ascending |
| PrimeNumbers.PrimesBelowSound | Features/PrimeNumbers.py:80-88 | only primes below the bound are listed, once each, ascending |
| PrimeNumbers.PrimesBelowComplete | Features/PrimeNumbers.py:80-88 | every prime below the bound is listed |
| PrimeNumbers.PrimesBelowMembers | Features/PrimeNumbers.py:80-88 | membership in the list is being a prime below the bound |
| PrimeNumbers.PrimesBelowOddStep | Features/PrimeNumbers.py:82-84 | one step of p over the odd numbers appends p exactly when p is prime |
| PrimeNumbers.CrossOutBelowRoot | Features/PrimeNumbers.py:78-87 | after the first loop and the rounding of `sqrt` to odd, the collected list is the primes below `sqrt` and the odd flags from 3 to max_num are set exactly for the odd primes |
| PrimeNumbers.SieveBelowRoot | Features/PrimeNumbers.py:81-85 | the first loop collects the primes below p and leaves an odd flag set exactly when no odd prime below p crossed it |
| PrimeNumbers.SieveStep | Features/PrimeNumbers.py:83-85 | one round of the first loop: a p still flagged is prime, is collected and crosses its odd multiples from p² |
| PrimeNumbers.ClearMultiples | Features/PrimeNumbers.py:85 | `prime[p*p::p*2] = False` clears exactly the indices p² + 2pk and changes nothing else |
| PrimeNumbers.CrossedStep | Features/PrimeNumbers.py:82-85 | a number is crossed by the primes below p + 2 exactly when crossed below p or by p itself |
| PrimeNumbers.SieveCorrect | Features/PrimeNumbers.py:82-88 | an odd x below p² is uncrossed exactly when it is prime |
| PrimeNumbers.SieveDone | Features/PrimeNumbers.py:82-88 | once the loop passes ⌊√max_num⌋, the odd flags are exactly the odd primes |
| PrimeNumbers.OddLeastFactor | Features/PrimeNumbers.py:85 | an odd composite number is its least prime factor q times an odd cofactor at least q, so q crossed it |
| PrimeNumbers.IsPrimeTest | Features/PrimeNumbers.py:33-68 | `is_prime` with the five witnesses given: the reference predicate, exact primality below 10^6, and a prime is never rejected whatever witnesses in [2, n − 2] are drawn |
| PrimeNumbers.ProbablyPrime | Features/PrimeNumbers.py:40-68 | the answer of `is_prime` (false for n ≤ 1, true for 2 and 3, false for even n > 2, trial division below 10^6, the Miller–Rabin rounds above) accepts only 2 and odd numbers ≥ 3 |
| PrimeNumbers.ProbablyPrimeAcceptsPrimes | Features/PrimeNumbers.py:33-68 | `is_prime` returns True for every prime, below 10^6 by trial division and above it whatever witnesses in [2, n − 2] are drawn |
| PrimeNumbers.MillerRabinAcceptsPrimes | Features/PrimeNumbers.py:53-68 | `MillerRabin` (n − 1 = d · 2^s from the halving loop, every drawn round passes) holds for an odd prime n ≥ 5: every round with a witness in [2, n − 2] passes, so the loop never returns False |
| PrimeNumbers.RoundPassesForPrime | Features/PrimeNumbers.py:59-67 | for a prime n, n − 1 = d · 2^s with s ≥ 1 and a witness in [2, n − 2], the round hits 1 or n − 1 at once or meets n − 1 within s − 1 squarings |
| PrimeNumbers.SquaringsPow | Features/PrimeNumbers.py:60-63 | j squarings mod n of a^e mod n give a^(e · 2^j) mod n, so the squaring loop walks a^d, a^(2d), …, a^(n−1) |
| PrimeNumbers.ChainReachesMinusOne | Features/PrimeNumbers.py:62-67 | modulo a prime, a squaring chain from x ∉ {1, n − 1} that is 1 after k + 1 squarings meets n − 1 within the first k, so the `else: return False` is not reached |
| Fermat.BinomPrime | Features/PrimeNumbers.py:59-67 | a prime p divides C(p, k) for 0 < k < p |
| Fermat.BinomialTheorem | Features/PrimeNumbers.py:59-67 | (a + 1)^n is the sum of C(n, k) · a^k for k = 0..n |
| Fermat.FreshmansDream | Features/PrimeNumbers.py:59-67 | (a + 1)^p and a^p + 1 agree modulo a prime p |
| Fermat.FermatPow | Features/PrimeNumbers.py:59-67 | a^p and a agree modulo a prime p for every a ≥ 0 |
| Fermat.FermatLittle | Features/PrimeNumbers.py:59-67 | a^(p−1) is 1 modulo a prime p that does not divide a, which makes the last of the squarings 1 |
| Fermat.SquareRootsOfOne | Features/PrimeNumbers.py:62-64 | modulo a prime p, the only x in [0, p) with x² ≡ 1 are 1 and p − 1 |
| PrimeNumbers.ProbablyPrimeExactBelowLimit | Features/PrimeNumbers.py:40-51 | below 10^6 the test is exactly primality whatever the witnesses: false for n ≤ 1 and even n > 2, true for 2 and 3, trial division otherwise |
| PrimeNumbers.TrialDivision | Features/PrimeNumbers.py:47-51 | trial division by the odd i up to ⌊√n⌋ says true exactly for a prime |
| PrimeNumbers.OddTrialComplete | Features/PrimeNumbers.py:48-51 | an odd n with no odd divisor up to its square root is prime |
| PrimeNumbers.TwoAdic | Features/PrimeNumbers.py:53-56 | m = d · 2^s with d odd |
| PrimeNumbers.HalveOut | Features/PrimeNumbers.py:53-56 | the halving loop ends with n − 1 = d · 2^s and d odd |
| PrimeNumbers.MillerRabinRound | Features/PrimeNumbers.py:59-67 | one round passes when a^d mod n is 1 or n − 1, or when one of the s − 1 squarings reaches n − 1 |
| PrimeNumbers.PrimeDivisor | Features/PrimeNumbers.py:92-109 | `prime_divisor(num)` is the list of distinct primes dividing num, ascending; [] for num ≤ 1 |
| PrimeNumbers.PrimeFactorsMembers | Features/PrimeNumbers.py:99-109 | for num ≥ 1 that list holds exactly the primes dividing num and is strictly ascending |
| PrimeNumbers.DivideOut | Features/PrimeNumbers.py:101-106 | the while loop keeps its invariant (the factors found are primes dividing num, what remains has no factor below `count`) and ends with count² > n |
| PrimeNumbers.FactorEnd | Features/PrimeNumbers.py:107-109 | what remains above 1 is the last prime factor, and sorting gives the prime factors of num |
| PrimeNumbers.FactorStep | Features/PrimeNumbers.py:102-104 | dividing n by its least factor keeps the loop invariant |
| PrimeNumbers.NextCandidate | Features/PrimeNumbers.py:106 | stepping the candidate 2, 3, 5, 7, … skips only even numbers, which cannot divide what remains |
| PrimeNumbers.LeastFactorPrime | Features/PrimeNumbers.py:102-103 | a divisor with no divisor below it but 1 is prime |
| PrimeNumbers.Mersenne | Features/PrimeNumbers.py:486 | 2^p − 1 is positive for p ≥ 1 and at least 3 for p ≥ 2 |
| PrimeNumbers.LucasLehmerTest | Features/PrimeNumbers.py:477-493 | with m_p = 2^p the test runs p − 2 steps of s := (s² − 2) mod (2^p − 1) from 4 and reports s = 0; for p ≤ 2 no step runs and the answer is false |
| PrimeNumbers.LucasLehmerSmall | Features/PrimeNumbers.py:484-493 | 2 is never reported; 3, 5 and 7 pass; 11 fails (2047 = 23 · 89) |
| PrimeNumbers.ProcCenter | Features/PrimeNumbers.py:496-513 | `proc_center` returns the order-preserving sublist of exponents that pass Lucas–Lehmer when the shifts p − previous are never negative, and fails (None) otherwise |
| PrimeNumbers.ShiftStep | Features/PrimeNumbers.py:506-512 | one loop turn: `m_p` becomes 2^p, the shift is valid when p does not decrease, and a passing p is appended |
| PrimeNumbers.MersenneExponentsMembers | Features/PrimeNumbers.py:510-511 | the result keeps exactly the passing elements and is no longer than the input |
| PrimeNumbers.MersenneExponentsConcat | Features/PrimeNumbers.py:510-511 | the filter distributes over concatenation |
| PrimeNumbers.ScanSlicesSpan | Features/PrimeNumbers.py:526-530 | scanning the slices between the boundaries and concatenating gives one scan of the whole stretch |
| PrimeNumbers.PartitionIndependent | Features/PrimeNumbers.py:524-530 | for any boundary list from 0 to len(primes), non-decreasing, the concatenated scans equal one scan of the whole list, so neither values nor order depend on the partition |
| PrimeNumbers.MersennePrimes | Features/PrimeNumbers.py:516-530 | `mersenne_primes` with the slices scanned in sequence is the Lucas–Lehmer filter of `prime_num(maxi)` |
| PrimeNumbers.ScanSlicesStep | Features/PrimeNumbers.py:527-530 | one more boundary appends the scan of one more slice |
| PrimeNumbers.SliceShiftsValid | Features/PrimeNumbers.py:528 | every slice of the ascending prime list has valid shifts, so no slice fails |
| PrimeNumbers.SumConsecutivePrimeNumbers | Features/PrimeNumbers.py:200-228 | `sum_consecutive_prime_numbers` as written: the sliding-window scan from `result = 2`, so each reported total is 3 below the sum of its window |
| PrimeNumbers.SlidingWindowScan | Features/PrimeNumbers.py:213-226 | the while loop computes the scan: drop the first prime while the total exceeds max_num, otherwise record a prime total with a longer window and add the next prime |
| PrimeNumbers.ConsecutiveScanSound | Features/PrimeNumbers.py:213-226 | every recorded total is a prime equal to the sum of its window minus the starting lag |
| PrimeNumbers.SumConsecutivePrimeNumbersIntended | Features/PrimeNumbers.py:200-228 | corrected, starting from the sum of the first window: the reported prime is the sum of max_counts consecutive primes |
| PrimeNumbers.ConsecutiveLagExample | Features/PrimeNumbers.py:210-226 | for max_num 6 the code reports (2, 2), the intended scan (5, 2) |
| PrimeNumbers.AllCutsPrime | Features/PrimeNumbers.py:25-29 | the `for … else` keeps p exactly when every left and right truncation is prime |
| PrimeNumbers.DropFirstFour | Features/PrimeNumbers.py:22 | `prime_num(n)[4:]` holds exactly the primes from 11 up to n, exclusive |
| PrimeNumbers.CollectTruncatable | Features/PrimeNumbers.py:22-30 | the ascending list of the truncatable primes from 11 below the bound, and their sum |
| PrimeNumbers.TruncatablePrimes | Features/PrimeNumbers.py:13-30 | `truncatable_primes(n)` as written clamps n to 739397 and searches below it, so 739397 is never found |
| PrimeNumbers.TruncatablePrimesIntended | Features/PrimeNumbers.py:13-30 | corrected: 739397 is found when n exceeds it |
| PrimeNumbers.TruncatableCapTruncatable | Features/PrimeNumbers.py:20-21 | 739397 is prime and every truncation of it is prime |
| PrimeNumbers.CollectRotations | Features/PrimeNumbers.py:147-156 | for a prime with no even digit the set holds the prime and its rotations up to the first that fails |
| PrimeNumbers.CircularPrimes | Features/PrimeNumbers.py:137-157 | `circular_primes` as written returns, ascending, every listed prime with no digit 2, 4, 6 or 8 together with its rotations up to the first one that fails the test; the prime and those rotations stay even when a later rotation fails |
| PrimeNumbers.RotationsAllPrime | Features/PrimeNumbers.py:150-155 | corrected inner loop: true exactly when every rotation passes |
| PrimeNumbers.CircularPrimesIntended | Features/PrimeNumbers.py:137-157 | corrected: exactly the primes below max_num, with no digit 2, 4, 6 or 8, all of whose rotations are prime |
| PrimeNumbers.NineteenNotCircular | Features/PrimeNumbers.py:147-156 | 19 is reported although its rotation 91 = 7 · 13 is not prime, and the corrected search leaves it out |
| MyUtils.Digits | Features/my_utils.py:64-75 | the digit list of n holds digits 0..9, is empty exactly when n ≤ 0, and does not start with 0 |
| MyUtils.FromDigitsOfDigits | Features/my_utils.py:64-75 | reading the digits of n back gives n |
| MyUtils.FromDigitsConcat | Features/my_utils.py:40 | the number spelled by two digit lists in a row is the first times 10^(length of the second) plus the second |
| MyUtils.FromDigitsBounds | Features/my_utils.py:101-110 | k digits spell a number below 10^k, and at least 10^(k−1) without a leading zero |
| MyUtils.DigitsOfFromDigits | Features/my_utils.py:64-75 | a digit list without a leading zero is the digit list of the number it spells |
| MyUtils.DigitsLength | Features/my_utils.py:101-110 | a positive n has k digits exactly when 10^(k−1) ≤ n < 10^k |
| MyUtils.DigitsDropLow | Features/my_utils.py:98 | dividing by 10^k drops the k low digits |
| MyUtils.GetDigits | Features/my_utils.py:64-75 | `get_digits(n)` is the decimal digit list of n, most significant first, [] for n ≤ 0 |
| MyUtils.Reverse | Features/my_utils.py:86 | `[::-1]` keeps the length and puts entry i at position len − 1 − i |
| MyUtils.ReverseReverse | Features/my_utils.py:86 | reversing twice gives the list back |
| MyUtils.ReverseNumber | Features/my_utils.py:134-145 | `reverse_number(n)` is the number spelled by n's digits in reverse, 0 for n ≤ 0 |
| MyUtils.ReversedStep | Features/my_utils.py:142-144 | reversing n puts its low digit in front of the reversal of n // 10 |
| MyUtils.ReversedInvolutive | Features/my_utils.py:134-145 | `reverse_number(reverse_number(n)) == n` for positive n not ending in 0 |
| MyUtils.ReversedDropsTrailingZero | Features/my_utils.py:134-145 | a trailing zero vanishes: 10n reverses like n |
| MyUtils.ReversedSmaller | Features/my_utils.py:134-145 | a positive number ending in 0 reverses to a smaller one, so reversal is not an involution there |
| MyUtils.PalindromeIffReverseFixed | Features/my_utils.py:78-86 | for positive n, `is_palindrome(n)` holds exactly when `reverse_number(n) == n` |
| MyUtils.NumberLen | Features/my_utils.py:101-110 | `number_len(n)` is at least 1 and, for n ≠ 0, the k with 10^(k−1) ≤ abs(n) < 10^k |
| MyUtils.NumConcatenate | Features/my_utils.py:32-40 | for positive numbers the digits of the result are those of first then second; a second argument of 0 adds one digit 0 |
| MyUtils.ConcatDigits | Features/my_utils.py:40 | `first * 10 ** number_len(second) + second` writes second's digits after first's |
| MyUtils.MassiveConcatenate | Features/my_utils.py:7-14 | `reduce(num_concatenate, xs)` fails exactly on an empty list; on positive numbers its digits are all their digits in order |
| MyUtils.GetDigitByPosition | Features/my_utils.py:89-98 | `get_digit_by_position(n, i)` is a digit, entry i of `get_digits(n)` for positive n, and 0 for n = 0 |
| MyUtils.DigitAt | Features/my_utils.py:98 | `(n // 10 ** (len − i − 1)) % 10` picks digit i from the left |
| MyUtils.BinarySearch | Features/my_utils.py:43-61 | a returned index holds num; on a sorted list `None` means num is absent |
| MyUtils.ModExp | Features/my_utils.py:113-131 | `mod_exp(b, e, m)` is b^e mod m for e > 0, and 1 (unreduced, so 1 even for m = 1) for e ≤ 0 |
| MyUtils.SquareStep | Features/my_utils.py:125-129 | one round of the loop keeps result · base^exp fixed modulo m |
| MathOperations.LatticePathsFactorials | Features/MathOperations.py:29-45 | the number of right/down paths through an r × c grid times r! c! is (r + c)! |
| MathOperations.PathsStep | Features/MathOperations.py:29-45 | the path count recurrence carries the factorial identity one step |
| MathOperations.CountPathsInTable | Features/MathOperations.py:29-45 | `count_paths_in_table(n)` is the number of lattice paths of an n × n grid, (2n)! / (n!)², and 1 for n ≤ 0 (n! is captured when x reaches n) |
| MathOperations.ReduceAdd | Features/MathOperations.py:56 | folding `+` from an accumulator adds the sum of the rest |
| MathOperations.ReduceSub | Features/MathOperations.py:56 | folding `-` from an accumulator subtracts the sum of the rest |
| MathOperations.ReduceMul | Features/MathOperations.py:56 | folding `*` from an accumulator multiplies by the product of the rest |
| MathOperations.PerformActionAdd | Features/MathOperations.py:48-56 | `perform_action("+", xs)` on a non-empty list is its sum |
| MathOperations.PerformActionSub | Features/MathOperations.py:48-56 | `perform_action("-", xs)` subtracts the rest from the first number |
| MathOperations.PerformActionMul | Features/MathOperations.py:48-56 | `perform_action("*", xs)` on a non-empty list is its product |
| MathOperations.PerformActionUnknown | Features/MathOperations.py:48-56 | any operator other than +, -, * and / leaves a one-element list alone (the lambda is never called) and raises `KeyError` otherwise; an empty list raises whatever the operator |
| MathOperations.Squares | Features/MathOperations.py:89-90 | `x ** 2` for every element, in order |
| MathOperations.GaussSum | Features/MathOperations.py:78 | twice the sum of 1..n is n(n + 1) |
| MathOperations.SquareSum | Features/MathOperations.py:89 | six times the sum of the squares of 1..n is n(n + 1)(2n + 1) |
| MathOperations.ClosedFormsAgree | Features/MathOperations.py:70-90 | for a number n, the closed forms of `square_of_sum` and `sum_of_squares` give what the list 1, 2, …, n gives (n itself included, although the docstrings say "less than") |
| MathOperations.FilterParityMembers | Features/MathOperations.py:102 | the comprehension keeps exactly the elements of the requested parity |
| MathOperations.FilterParityConcat | Features/MathOperations.py:102 | filtering commutes with concatenation, so the input order is kept |
| MathOperations.FilterParitySplit | Features/MathOperations.py:101-102 | the odd part and the even part together are the whole list, as multisets |
| MathOperations.FilterEvenOddMeaning | Features/MathOperations.py:93-102 | `filter_even_odd` keeps exactly the odd elements for "!=" and the even ones for any other string; the two results together make up the input |
| MathOperations.Dedup | Features/MathOperations.py:114-115 | `set(...)` holds each element once and exactly the elements of the list |
| MathOperations.KeepByMembershipMeaning | Features/MathOperations.py:116-119 | filtering a repeat-free list by membership in another keeps exactly the elements whose membership matches, without repeats |
| MathOperations.CompareNumbersMeaning | Features/MathOperations.py:105-119 | `compare_numbers` returns, without repeats, set₁ \ set₂ for "!=" and set₁ ∩ set₂ otherwise, a single number counting as a one-element list |
| MathOperations.CalculateOwnDegrees | Features/MathOperations.py:122-134 | `calculate_own_degrees(m, d)` is (1¹ + 2² + … + (m − 1)^(m − 1)) mod 10^d |
| MathOperations.PeriodApprox | Features/MathOperations.py:224-242 | `period_approx(a0, period)` returns the numerator and the denominator of the last convergent of [a0; period], the continuants K(a0, period) and K(period); (a0, 1) for an empty period |
| MathOperations.ContinuantFront | Features/MathOperations.py:238 | the recurrence p_k = a p_(k−1) + p_(k−2) also holds from the front |
| MathOperations.ContinuantPositive | Features/MathOperations.py:238 | with positive terms every continuant is at least 1 and grows along the list |
| MathOperations.ConvergentIsFraction | Features/MathOperations.py:233-242 | the forward recurrence gives the same fraction as evaluating the continued fraction from the back |
| MathOperations.ConvergentDeterminant | Features/MathOperations.py:233-242 | neighbouring convergents satisfy p_n q_(n−1) − p_(n−1) q_n = (−1)^(n+1), so each convergent is in lowest terms |
| MathOperations.EWrittenTerms | Features/MathOperations.py:147 | `islice(cycle(pattern), n)` gives n terms, term k being pattern entry k mod 12 |
| MathOperations.ETerms | Features/MathOperations.py:147 | the true partial quotients of e after 2 are 1, 2, 1, 1, 4, 1, 1, 6, … |
| MathOperations.EApprox | Features/MathOperations.py:137-148 | `e_approx(n)` is the n-th convergent of [2; cycled pattern]; a count n − 1 below 0 makes `islice` raise |
| MathOperations.EApproxIntended | Features/MathOperations.py:137-148 | the same convergents over the true expansion of e |
| MathOperations.ETermsBlocks | Features/MathOperations.py:147 | e's quotients come in blocks 1, 2j, 1; the cycled pattern agrees with them on the first thirteen only |
| MathOperations.EApproxDiverges | Features/MathOperations.py:147-148 | from the fifteenth convergent on, the cycled pattern gives a smaller numerator than e's expansion |
| MathOperations.LastTermGrows | Features/MathOperations.py:238 | raising the last partial quotient raises the continuant |
| MathOperations.StepReduced | Features/MathOperations.py:184-186 | one step of the `sqrt_approx` loop takes a reduced state (0 < d, d divides num − m², bounds on m and d) to a reduced one |
| MathOperations.Next | Features/MathOperations.py:183-187 | one loop turn of `sqrt_approx` stays among reduced states and produces a quotient in 1..2a0 |
| MathOperations.TermBounds | Features/MathOperations.py:186 | the quotient of a reduced state lies in 1..2a0 |
| MathOperations.SqrtApprox | Features/MathOperations.py:167-189 | `sqrt_approx(num)` is (isqrt(num), the period terms), and raises for a negative num |
| MathOperations.PeriodLoop | Features/MathOperations.py:178-189 | the while loop collects the quotients until an (m, d, a) state repeats; the bounded set of reduced states makes it terminate |
| MathOperations.OrbitStep | Features/MathOperations.py:182-187 | from an unseen state the loop emits the next quotient and continues from the next state with the state marked as seen |
| MathOperations.OrbitTerms | Features/MathOperations.py:182-187 | every collected quotient lies in 1..2a0 |
| MathOperations.OrbitStart | Features/MathOperations.py:178-187 | for a non-square the loop collects at least two quotients, the first ⌊2a0 / (num − a0²)⌋ |
| MathOperations.SqrtPeriodMeaning | Features/MathOperations.py:174-189 | a perfect square gives an empty period; otherwise the period is non-empty, starts with ⌊2a0 / (num − a0²)⌋ and has every term in 1..2a0 |
| MathOperations.DigitBagOfDigits | Features/MathOperations.py:293 | the digit bag of c is the multiset of `get_digits(c)` |
| MathOperations.CubeStep | Features/MathOperations.py:303 | `curr_cub += 3a² + 3a + 1` turns a³ into (a + 1)³ |
| MathOperations.NoGroupStep | Features/MathOperations.py:299-304 | a cube whose group is not of size x extends the stretch with no group of size x |
| MathOperations.CubPermutations | Features/MathOperations.py:274-304 | `cub_permutations(x)` returns the group of the first cube b whose group reaches x cubes, all cubes from 2³ to b³ with its digits, and no earlier cube's group did; no result when the budget runs out |
| MathOperations.FileCube | Features/MathOperations.py:293-296 | appending a³ under its sorted digits keeps the dictionary equal to the cube groups of 2..a, and the group appended to is that of a³ |
| MathOperations.HistStep | Features/MathOperations.py:296 | the list under a³'s key, with a³ appended, is a³'s group |
| MathOperations.HistGroupsStep | Features/MathOperations.py:293-296 | after filing a³ the dictionary describes the cubes of 2..a |
| MathOperations.OtherGroupUnchanged | Features/MathOperations.py:296 | a group with another sorted key does not gain a³ |
| MathOperations.CubesWithDigitsMembers | Features/MathOperations.py:289-300 | a group holds exactly the cubes b³, 2 ≤ b below the bound, with its digits |
| MathOperations.CubesWithDigitsSorted | Features/MathOperations.py:296 | a group is strictly ascending |
| MathOperations.SortedDigitsKey | Features/MathOperations.py:293 | two numbers get the same dictionary key exactly when their digits are permutations of each other |
| NumberOperations.CountWaysToMakeChange | Features/NumberOperations.py:10-25 | `count_ways_to_make_change(coins, t)` is None for a negative target (`dp[0]` fails) and for a negative coin (the inner loop indexes past `dp`); otherwise it is 2^z times the number of multisets of the positive coins that sum to t, z the number of coins 0, and for positive coins exactly the number of multisets |
| NumberOperations.ApplyCoin | Features/NumberOperations.py:21-23 | one outer turn for a coin that is not negative takes the counts for the coins before it to the counts with it |
| NumberOperations.DoubleCounts | Features/NumberOperations.py:22-23 | for a coin 0, `dp[i] += dp[i - 0]` doubles every entry |
| NumberOperations.ZeroCoinStep | Features/NumberOperations.py:21-23 | a coin 0 doubles the count for every amount |
| NumberOperations.PositivePartOfPositive | Features/NumberOperations.py:10-25 | with positive coins only, the doubling count is the plain multiset count |
| NumberOperations.AddCoin | Features/NumberOperations.py:21-23 | one pass of the inner loop for a positive coin turns the counts for the coins so far into the counts with one more coin, each count keeping the factor the coins 0 contribute |
| NumberOperations.WaysWithCoin | Features/NumberOperations.py:23 | `dp[i] += dp[i - coin]`: paying i with the new coin is paying it without, or using the coin once more |
| NumberOperations.WaysZero | Features/NumberOperations.py:19 | the empty sum is paid in exactly one way, so `dp[0]` stays 1 |
| NumberOperations.WaysSingleCoin | Features/NumberOperations.py:21-23 | a single coin c pays t in one way when c divides t and in none otherwise |
| NumberOperations.WaysLastButOne | Features/NumberOperations.py:21-23 | with two trailing coins the count splits on whether the first of them is used |
| NumberOperations.WaysSwap | Features/NumberOperations.py:21-23 | swapping two adjacent coins leaves the count unchanged, so the result does not depend on the coin order |
| NumberOperations.MonthLengths | Features/NumberOperations.py:159-169 | a year has twelve month lengths |
| NumberOperations.MonthLengthsAt | Features/NumberOperations.py:163-169 | month m has 30 days for April, June, September and November, `feb` for February and 31 otherwise |
| NumberOperations.YearIsTwelveMonths | Features/NumberOperations.py:163-171 | after the twelve months the day counter has advanced by the length of the year, 365 or 366 |
| NumberOperations.LeapPeriod | Features/NumberOperations.py:160 | the Gregorian leap rule (divisible by 4 and not by 100, or by 400) repeats every 400 years |
| NumberOperations.CountingSundays | Features/NumberOperations.py:148-177 | `counting_sundays` counts, over the years min_year ≤ y < max_year, the months whose end brings the running day number to a multiple of 7 |
| NumberOperations.CountYear | Features/NumberOperations.py:159-173 | one year of the outer loop: the hits of that year and the day number at its end |
| NumberOperations.CountMonths | Features/NumberOperations.py:163-173 | the month loop counts the months ending on a multiple of 7 and advances the day by every month |
| NumberOperations.MonthStep | Features/NumberOperations.py:171-173 | one month counts its day when it falls on a multiple of 7 and leaves the rest of the year to count |
| NumberOperations.HitsBound | Features/NumberOperations.py:171-173 | a list of months has at most one hit per month |
| NumberOperations.SundaysBound | Features/NumberOperations.py:157-177 | the count is at most 12 · (max_year − min_year), and 0 when min_year ≥ max_year |
| NumberOperations.SundaysWeekShift | Features/NumberOperations.py:171-172 | only the starting day modulo 7 matters |
| NumberOperations.SundaysPeriod | Features/NumberOperations.py:158-175 | shifting both years by 400 does not change the count |
| NumberOperations.SundaysSplit | Features/NumberOperations.py:158-175 | counting over two consecutive ranges of years is counting over their union, the second one starting from the day the first ends on |
| NumberOperations.ListFilter | Features/NumberOperations.py:258-268 | `list_filter` sorts its argument in place and returns, ascending, exactly the elements x with min_num ≤ x < max_num, each as often as in the input |
| NumberOperations.FilterSlice | Features/NumberOperations.py:268 | on a sorted list the slice between the two `bisect_left` points is sorted and holds exactly the elements in [min_num, max_num) |
| NumberOperations.SliceParts | Features/NumberOperations.py:268 | the two cut points split a sorted list into the part below min_num, the part in [min_num, max_num) and the part from max_num on |
| NumberOperations.ThreeParts | Features/NumberOperations.py:268 | the middle part holds each value in range as often as the whole list |
| NumberOperations.StrLeTotalOrder | Features/NumberOperations.py:129 | Python's string comparison is a total order, so `names.sort()` has one result |
| NumberOperations.StrLeAntisymmetric | Features/NumberOperations.py:129 | two strings each at most the other are equal |
| NumberOperations.LetterSumBounds | Features/NumberOperations.py:132 | with 'A' = 1, a name in capital letters scores between its length and 26 times its length |
| NumberOperations.LetterSumColin | Features/NumberOperations.py:132 | "COLIN" is worth 53 |
| NumberOperations.NameScore | Features/NumberOperations.py:122-135 | `name_score` sorts `names` in place (a sorted permutation) and returns Σ (i + 1) · value(names[i]) over the sorted list |
| NumberOperations.SortNames | Features/NumberOperations.py:129 | `names.sort()` leaves the array sorted and a permutation of its old contents |
| NumberOperations.ScoreStep | Features/NumberOperations.py:131-133 | one loop turn adds the letter value of the next name times its 1-based position |
| NumberOperations.ScoreIgnoresInputOrder | Features/NumberOperations.py:129-135 | two lists with the same names score the same, whatever order they arrive in |
| NumberOperations.DistinctPowersCount | Features/NumberOperations.py:54-66 | `distinct_powers_count` returns, ascending and once each, exactly the values a^b with a and b in [min_num, max_num], and their number |
| NumberOperations.PowersRowDone | Features/NumberOperations.py:64-65 | finishing the inner loop for one base adds all its powers |
| NumberOperations.PowersAllDone | Features/NumberOperations.py:63-66 | after the outer loop the set holds exactly the powers in range |
| NumberOperations.RemIsPowerResidue | Features/NumberOperations.py:87 | the remainder after i steps of `remainder * 10 % d` from 1 is 10^i mod d |
| NumberOperations.RemRange | Features/NumberOperations.py:87 | every remainder lies in [0, d) |
| NumberOperations.Pigeonhole | Features/NumberOperations.py:85-88 | distinct values in 1..hi − 1 number at most hi − 1 |
| NumberOperations.FreshBound | Features/NumberOperations.py:85-88 | while the division has not stopped after n steps, n < d, so the inner loop runs at most d times |
| NumberOperations.Stop | Features/NumberOperations.py:85-88 | the remainder loop stops, at a zero or repeated remainder, after fewer than d steps |
| NumberOperations.StopUnique | Features/NumberOperations.py:85-88 | the stopping step is unique |
| NumberOperations.CycleLenMeaning | Features/NumberOperations.py:85-91 | the cycle length is below d; when positive the remainders repeat with that period from the start of the cycle on, when 0 the decimal of 1/d terminates |
| NumberOperations.CycleOfSeven | Features/NumberOperations.py:85-91 | 1/7 has a cycle of 6 |
| NumberOperations.RecurringCycle | Features/NumberOperations.py:81-91 | the inner loop of `fraction` yields the cycle length of 1/d, 0 for a terminating decimal |
| NumberOperations.Fraction | Features/NumberOperations.py:69-96 | `fraction(maximum)` returns the maximal cycle length over 2 ≤ d < maximum and the first d attaining it (strict >), or (0, 0) when no cycle is found |
| NumberOperations.SetList | Features/NumberOperations.py:107 | `list(set(nums))` holds each element once, ascending (CPython's order for small non-negative ints) |
| NumberOperations.RemoveAtMultiset | Features/NumberOperations.py:116 | `del nums[index]` removes exactly one occurrence of that element |
| NumberOperations.KthPermutationIsPermutation | Features/NumberOperations.py:111-116 | the k-th factorial-base unranking of a list is a permutation of it |
| NumberOperations.KthPermutationIncreasing | Features/NumberOperations.py:111-116 | on an ascending list, k1 < k2 < n! gives lexicographically smaller permutations, so the k-th result is the k-th permutation in dictionary order |
| NumberOperations.KthPermutationFirst | Features/NumberOperations.py:111-116 | index 0 gives the list itself |
| NumberOperations.KthPermutationExample | Features/NumberOperations.py:111-116 | permutation 3 of [0, 1, 2] is [1, 2, 0] |
| NumberOperations.JoinOfDigits | Features/NumberOperations.py:116 | for single digits `''.join(map(str, ready))` has one character per element, the digit's character, in order |
| NumberOperations.JoinDigitsExample | Features/NumberOperations.py:111-116 | permutation 3 of [0, 1, 2] joins to "120" |
| NumberOperations.KthUnfold | Features/NumberOperations.py:112-116 | one loop turn takes element k / (n − 1)! out and continues with k mod (n − 1)! |
| NumberOperations.DictionaryPermutations | Features/NumberOperations.py:99-119 | `dictionary_permutations` returns the joined numerals of permutation `desired` of the distinct ascending values when desired < n!, and None otherwise |
| NumberOperations.Unrank | Features/NumberOperations.py:111-116 | the while loop builds the unranked permutation one factorial block at a time |
| NumberOperations.PowersFromMembers | Features/NumberOperations.py:203-206 | the inner loop appends exactly the powers p^k ≤ max_num with k from the starting exponent on |
| NumberOperations.AllPowersMembers | Features/NumberOperations.py:199-206 | `multiples` holds exactly the prime powers p^k ≤ max_num, k ≥ 1, over the primes of `prime_num(max_num)` |
| NumberOperations.LeastMultiple | Features/NumberOperations.py:192-208 | `least_multiple` returns the product of all those prime powers and their sorted list, as written |
| NumberOperations.AppendPowers | Features/NumberOperations.py:203-206 | the inner loop appends prime, prime², … while at most max_num |
| NumberOperations.PowersStep | Features/NumberOperations.py:202-206 | each outer turn extends `multiples` by the powers of the next prime |
| NumberOperations.LeastMultipleMissesLastPrime | Features/NumberOperations.py:200 | for max_num = 3 the product is 2, which 3 does not divide |
| NumberOperations.LeastMultipleRepeatsPowers | Features/NumberOperations.py:204-208 | for max_num = 4 the product is 24 although 12 is already a common multiple of 1..4 |
| NumberOperations.LeastMultipleCorrected | Features/NumberOperations.py:192-208 | corrected: primes up to and including max_num, only the top power of each |
| NumberOperations.TopPower | Features/NumberOperations.py:203-206 | the corrected inner loop finds the largest power of the prime within max_num |
| NumberOperations.TopFromIs | Features/NumberOperations.py:203-206 | that power is p^e with p^e ≤ max_num < p^(e+1) |
| NumberOperations.TopsCoprime | Features/NumberOperations.py:208 | a prime outside the list does not divide the product of the top powers |
| NumberOperations.TopsProductDivides | Features/NumberOperations.py:208 | a number every top power divides is divisible by their product |
| NumberOperations.IntendedLcmDividesUpTo | Features/NumberOperations.py:192-208 | every k in 1..max_num divides the corrected product |
| NumberOperations.SplitPrimePower | Features/NumberOperations.py:192-208 | k ≥ 2 is the full power of a prime times a smaller cofactor prime to it |
| NumberOperations.IntendedLcmIsLcm | Features/NumberOperations.py:192-208 | the corrected product is lcm(1, …, max_num): a common multiple that divides every common multiple |
| NumberOperations.LeastMultipleCorrectedOnFour | Features/NumberOperations.py:192-208 | for 4 the corrected factors are [4, 3], product 12 |
| NumberOperations.AllFactorsCovered | Features/NumberOperations.py:349-354 | the `for … else` is true exactly when every digit of k · num, k = 6..2, is a digit of num |
| NumberOperations.QualifierAbove | Features/NumberOperations.py:345-354 | above any number there is another that passes the test, so the while loop ends |
| NumberOperations.AllDigits | Features/NumberOperations.py:345-354 | the digits 1..9 followed by 0 |
| NumberOperations.MultiplesRearrangedDigits | Features/NumberOperations.py:331-356 | `multiples_rearranged_digits(maxi)` returns, ascending, the first maxi positive numbers whose multiples 2..6 use only their digits (a subset check, not a permutation check), with none skipped |
| Sequences.CornersFromSquare | Features/Sequences.py:18 | the four corners of the ring of side s are s², s² − (s − 1), s² − 2(s − 1) and s² − 3(s − 1) |
| Sequences.SpiralDiagonalsSum | Features/Sequences.py:8-19 | `spiral_diagonals_sum(m)` is the sum of the corners of the rings of odd side 3..m, the centre 1 left out |
| Sequences.RingAdded | Features/Sequences.py:17-18 | one pass of the loop adds the four corners of the ring of side size |
| Sequences.RingOf | Features/Sequences.py:18 | the sum the loop adds is the four corners of the ring |
| Sequences.SpiralDiagonalsClosedForm | Features/Sequences.py:16-19 | for odd m, six times the result is 4m³ + 3m² + 8m − 15 |
| Sequences.RingStep | Features/Sequences.py:18 | one ring of side m carries the closed form for m − 2 to the closed form for m |
| Sequences.TriClosedForm | Features/Sequences.py:74 | the k-th triangular number is k(k + 1)/2 |
| Sequences.TriStrictlyIncreasing | Features/Sequences.py:30-35 | triangular numbers increase strictly |
| Sequences.TriangularNumbers | Features/Sequences.py:22-35 | `triangular_numbers(m)` lists T_1, T_2, … in order, each below m, and the next one is at least m |
| Sequences.TriPrefixStep | Features/Sequences.py:32-34 | appending the last value plus the counter extends the list of T_0, T_1, … |
| Sequences.TriPrefixEnd | Features/Sequences.py:35 | `triangular_nums[1:-1]` after the loop is T_1, … up to the last triangular number below m |
| Sequences.TriangularNumbersExact | Features/Sequences.py:22-35 | the list holds exactly the triangular numbers T_k, k ≥ 1, below m, and is empty when m ≤ 1 |
| Sequences.FibMonotone | Features/Sequences.py:45-47 | from F_1 on, Fibonacci numbers do not decrease |
| Sequences.Fibonacci | Features/Sequences.py:38-50 | `fibonacci(m)` is F_0, F_1, … up to the last one not above m (the first above m is popped), at least [0] |
| Sequences.FibAppend | Features/Sequences.py:47 | appending the sum of the last two extends the Fibonacci prefix |
| Sequences.FibonacciRecurrence | Features/Sequences.py:47 | every element after the first two is the sum of the two before it |
| Sequences.WordValueBounds | Features/Sequences.py:79-81 | an upper-case word's value lies between its length and 26 times its length |
| Sequences.TriangularWordCountBound | Features/Sequences.py:90-91 | the number of triangular words is at most the number of words |
| Sequences.SkyIsTriangular | Features/Sequences.py:79-88 | "SKY" has value 55, a triangular number |
| Sequences.TriangularMemo.constructor | Features/Sequences.py:63-69 | the memo list starts as [1] with n = 2 |
| Sequences.TriangularMemo.Extend | Features/Sequences.py:72-77 | extending keeps the memo list T_1, T_2, … and only grows it; afterwards its last element reaches the query, and when it grew, the one before is still below the query |
| Sequences.TriangularMemo.IsTriangularWord | Features/Sequences.py:83-88 | the membership test after extension answers exactly whether the word's value is triangular; the memo list then reaches the value, its previous last entry is below it when it grew, and it is unchanged when it already reached it |
| Sequences.MemoMembership | Features/Sequences.py:86-88 | the list T_1, …, T_K with T_K at least v holds v exactly when v is triangular |
| Sequences.CountTriangularWords | Features/Sequences.py:53-91 | `count_triangular_words` counts exactly the words with a triangular value, at most the number of words |
| Dividers.DivisorSumBelow | Features/Dividers.py:39 | the sum of the divisors of n below k is never negative |
| Dividers.CofactorLarge | Features/Dividers.py:17-22 | the cofactor `number // potential_divisor` of a candidate up to the root is itself a divisor, at least the root, and above it unless the candidate is the root |
| Dividers.CofactorStrict | Features/Dividers.py:20 | of two divisors, the smaller one has the larger cofactor |
| Dividers.CollectedNext | Features/Dividers.py:17-22 | one more candidate adds exactly that candidate and its cofactor when it divides the number |
| Dividers.CollectedApart | Features/Dividers.py:17-22 | values collected before candidate pd are below pd or above both the root and pd's cofactor, so no value is appended twice |
| Dividers.DivisorStep | Features/Dividers.py:18-22 | one loop iteration keeps the collected list free of repeats and equal, as a set, to the divisors found from the candidates so far |
| Dividers.CollectedIsDivisor | Features/Dividers.py:17-22 | everything the loop collects divides the number |
| Dividers.DivisorIsCollected | Features/Dividers.py:17-22 | every divisor of the number is collected once the candidates reach its integer square root |
| Dividers.SortedDivisorList | Features/Dividers.py:23 | a strictly increasing list of exactly the divisors below k has the divisor count below k as its length and the divisor sum below k as its sum |
| Dividers.FindDivisors | Features/Dividers.py:6-23 | `find_divisors` returns the divisors of the number, strictly increasing, as many as the number has; empty exactly for 0; otherwise ending with the number itself, the rest summing to the aliquot sum |
| Dividers.ProperDivisors | Features/Dividers.py:39 | dropping the last element of the sorted divisor list leaves the proper divisors, whose sum is the aliquot sum |
| Dividers.DivisorsOfTwentyEight | Features/Dividers.py:13-14 | the divisors of 28 are 1, 2, 4, 7, 14 and 28, as documented |
| Dividers.ProperDivisorSum | Features/Dividers.py:39 | `sum(find_divisors(number)[:-1])` is the aliquot sum (0 for 0) |
| Dividers.FindFriendlyNumbers | Features/Dividers.py:26-46 | the list holds exactly the numbers up to max_limit whose aliquot sum is a different number up to max_limit with them as its own aliquot sum; it is a run of (larger, smaller) pairs |
| Dividers.FriendlySkip | Features/Dividers.py:40-43 | a number that fails the tests leaves the list, and its meaning, as they are |
| Dividers.FriendlyListed | Features/Dividers.py:38 | a number already listed is the larger of its pair, so skipping it loses nothing |
| Dividers.FriendlyFound | Features/Dividers.py:43-45 | appending `divisors_sum, number` for a new amicable number keeps the list paired and exactly the amicable numbers seen so far |
| Dividers.CompareOp | Features/MathOperations.py:19-26 | `operators_co` has a comparison for exactly the six keys `==`, `!=`, `<`, `<=`, `>`, `>=` |
| Dividers.KeptMembers | Features/Dividers.py:64-67 | a number is kept exactly when it is in the input and its divisor count satisfies the comparison; the result is no longer than the input |
| Dividers.Counts | Features/Dividers.py:65-68 | entry i is the divisor count of number i |
| Dividers.Zip | Features/Dividers.py:69 | `zip` pairs the two lists position by position |
| Dividers.CheckDivisors | Features/Dividers.py:49-69 | the result is the kept numbers in input order, their divisor counts and the pairs of both; an unknown operator raises `KeyError` exactly when the list is not empty |
| Dividers.CheckDivisorsExample | Features/Dividers.py:59-60 | the counts of 10, 12, 15, 16 are 4, 6, 4, 5, so `check_divisors('>', [10, 12, 15, 16], 4)` keeps [12, 16], not the documented [12, 15, 16] |
| Collatz.Orbit | Features/Collatz.py:36-44 | the trajectory prefix of k steps has k + 1 entries, entry i being the value after i steps of the `x // 2` / `3 * x + 1` rule |
| Collatz.IterShift | Features/Collatz.py:39-41 | k + 1 steps from x are k steps from the successor of x |
| Collatz.StepsToOneIsFirstHit | Features/Collatz.py:39-42 | a loop count reported within the budget is the first time the trajectory reaches 1; no count means 1 is never reached within the budget |
| Collatz.FirstHitIsStepsToOne | Features/Collatz.py:39-42 | conversely, the first time 1 is reached, if within budget, is exactly the count reported, whatever the budget |
| Collatz.FuelMonotone | Features/Collatz.py:39-42 | a budget that suffices gives the same answer when raised |
| Collatz.CollatzResultMeaning | Features/Collatz.py:26-44 | the pair returned by `collatz` has the trajectory's length first; the trajectory starts at the argument, follows the step rule, ends at the first 1 and contains no earlier 1 |
| Collatz.ZeroNeverStops | Features/Collatz.py:39-40 | `collatz(0)` never terminates: no budget yields a result |
| Collatz.CollatzOfFive | Features/Collatz.py:33-34 | the documented example `collatz(5) == (6, [5, 16, 8, 4, 2, 1])` |
| Collatz.OrbitOfFive | Features/Collatz.py:33-34 | the five-step trajectory from 5 is 5, 16, 8, 4, 2, 1 |
| Collatz.OneStep | Features/Collatz.py:39-42 | one step back along a trajectory adds one loop iteration |
| Collatz.Collatz | Features/Collatz.py:26-44 | the while loop returns exactly the pair the trajectory definition gives, or no result when the budget runs out |
| Collatz.CollatzMemo.constructor | Features/Collatz.py:12 | the memo starts with an empty cache |
| Collatz.CollatzMemo.Call | Features/Collatz.py:14-19 | the memoised call returns the same value as an uncached `collatz`, leaves the cache alone on a hit, and adds exactly the new entry on a miss |
| Collatz.FindLongestCollatz | Features/Collatz.py:47-66 | the result is the largest trajectory length over 2 ≤ n < max_limit together with the smallest n reaching it (a later tie does not replace it), or (0, 0) when that range is empty; the cache only grows |
| Collatz.LongestBelowTen | Features/Collatz.py:54-55 | the lengths for 2..9 are 2, 8, 3, 6, 9, 17, 4, 20, so `find_longest_collatz(10)` is (20, 9), not the documented (7, 9) |
| Collatz.StepsBelowTen | Features/Collatz.py:39-42 | the loop counts for 2..9 are 1, 7, 2, 5, 8, 16, 3, 19 |
| Palindromes.DigitString | Features/Palindromes.py:20 | `str(h)` of a non-negative half has at least one digit |
| Palindromes.HalfShapes | Features/Palindromes.py:20-28 | a positive half h gives the odd palindrome with digits h followed by h reversed without its last digit, and the even one with digits h followed by h reversed |
| Palindromes.MirrorFixedEven | Features/Palindromes.py:28 | a digit list followed by its reverse reads the same both ways |
| Palindromes.MirrorFixedOdd | Features/Palindromes.py:23 | a digit list followed by the reverse of all but its last digit reads the same both ways |
| Palindromes.HalvesArePalindromes | Features/Palindromes.py:20-30 | every number built from a half, 0 included, is a decimal palindrome |
| Palindromes.HalvesApart | Features/Palindromes.py:19-30 | odd and even palindromes of positive halves never coincide, and different halves give different palindromes, so no value is gathered twice |
| Palindromes.LeadingHalfBounds | Features/Palindromes.py:16-17 | the leading digits of a positive number spell a number from 1 to the number |
| Palindromes.MirrorSplit | Features/Palindromes.py:23-28 | a palindromic digit list is its leading half followed by the mirrored half, without the middle digit when the length is odd |
| Palindromes.PalindromeHalf | Features/Palindromes.py:19-30 | every positive palindrome p is built from a half between 1 and p, so the halves 1 .. max_num − 1 cover all palindromes below max_num |
| Palindromes.ZeroHalf | Features/Palindromes.py:20-28 | the half 0 gives 0 both ways |
| Palindromes.SingleDigitHalf | Features/Palindromes.py:20-28 | a one-digit half h gives h and 11h |
| Palindromes.TwoDigitHalfOdd | Features/Palindromes.py:23 | a two-digit half ab gives aba |
| Palindromes.TwoDigitHalfEven | Features/Palindromes.py:28 | a two-digit half ab gives abba |
| Palindromes.MinHalf | Features/Palindromes.py:14-16 | `m_pal` lies between 0 and min_num |
| Palindromes.MinHalfPositive | Features/Palindromes.py:16 | a positive min_num has a positive `m_pal` |
| Palindromes.HalfStep | Features/Palindromes.py:22-30 | the loop body appends exactly those of the half's two palindromes that are below max_num |
| Palindromes.CollectStep | Features/Palindromes.py:19-30 | one loop turn keeps the gathered list equal to the palindromes of the halves done, below max_num, without repeats for positive halves |
| Palindromes.CollectHalves | Features/Palindromes.py:19-30 | the loop gathers exactly the palindromes below max_num built from the halves m_pal .. mx_pal − 1; no repeats when m_pal ≥ 1; the half 0 gives 0 twice |
| Palindromes.AddHalf | Features/Palindromes.py:22-30 | the loop body appends the odd palindrome, then the even one, each only when below max_num |
| Palindromes.GeneratedNext | Features/Palindromes.py:19 | one more half adds exactly its two palindromes |
| Palindromes.FreshHalf | Features/Palindromes.py:19-30 | a palindrome from an earlier positive half differs from both palindromes of the current half |
| Palindromes.BisectSlice | Features/Palindromes.py:33 | the slice from `bisect_left(list, min_num)` of a sorted list is exactly its values of at least min_num, still sorted |
| Palindromes.SortedFrom | Features/Palindromes.py:32-33 | sorting and slicing from min_num gives exactly the values of at least min_num, ascending, and strictly so when there were no repeats |
| Palindromes.ZerosFirst | Features/Palindromes.py:32-33 | two gathered zeros are the first two values after sorting |
| Palindromes.FindPalindromes | Features/Palindromes.py:4-33 | `find_palindromes(max, min)` is ascending and holds exactly the palindromes from the halves m_pal .. mx_pal − 1 with min ≤ x < max; strictly ascending for min ≥ 1; it starts 0, 0 for min = 0 and max > 0 |
| Palindromes.Kept | Features/Palindromes.py:32-33 | sorting and slicing keep what the loop gathered from min_num on, in order |
| Palindromes.KeptStrict | Features/Palindromes.py:32-33 | from a positive min_num the result ascends strictly |
| Palindromes.KeptZeros | Features/Palindromes.py:32-33 | from min_num 0 the two zeros of the half 0 lead the result |
| Palindromes.KeptMembers | Features/Palindromes.py:33 | the slice keeps exactly the gathered palindromes of at least min_num |
| Palindromes.FindPalindromesCorrected | Features/Palindromes.py:4-33 | with the halves 1 .. max_num − 1 the result is every positive palindrome in [min_num, max_num), once each, ascending; for min_num = 0 the palindrome 0 is not in it |
| Palindromes.FindPalindromesMisses121 | Features/Palindromes.py:16-19 | for (123, 100) the halves are 10 and 11, so 121, a palindrome in range, is missing |
| Palindromes.FindPalindromesMisses11 | Features/Palindromes.py:16-19 | for (100, 5) the halves start at 5, so 11, a palindrome in range, is missing |
| Palindromes.FindPalindromesZeroTwice | Features/Palindromes.py:16-19 | for (5, 0) the halves start at 0, which gives 0 twice |
| Palindromes.KeepMembers | Features/Palindromes.py:47-49 | filtering keeps exactly the values that pass the test |
| Palindromes.KeepSorted | Features/Palindromes.py:47-49 | filtering a sorted (strictly sorted) list leaves it sorted (strictly sorted) |
| Palindromes.DoubleBasePalindromes | Features/Palindromes.py:36-51 | `double_base_palindromes` is the order-preserving sublist of `find_palindromes` whose binary form is a palindrome too |
| Palindromes.DoubleBase585 | Features/Palindromes.py:48 | 585, binary 1001001001, is a palindrome in both bases |
| Palindromes.PalindromeAtValue | Features/Palindromes.py:73-74 | one reverse-and-add turn takes the k-th value to the (k + 1)-th |
| Palindromes.NoPalindromeWithin | Features/Palindromes.py:72-76 | a number with no palindrome in any of its first iters turns does not reach one within iters |
| Palindromes.ReverseAddTurn | Features/Palindromes.py:73-76 | one turn of the inner loop adds the reversal and reports the step count exactly when it first gives a palindrome |
| Palindromes.StepsToPalindrome | Features/Palindromes.py:71-76 | the inner loop returns the first step, 1 ≤ k ≤ iters, whose value is a palindrome, or 0 exactly when no step within iters gives one |
| Palindromes.ListedSnoc | Features/Palindromes.py:75 | appending a pair lists its number too |
| Palindromes.LychrelNumbers | Features/Palindromes.py:54-77 | `lychrel_numbers` lists (n, k), with k the first step to a palindrome, for exactly the n in [1, max_num) that reach one within iters, ascending in n |
| TableOperations.LineBreakIsSpace | Features/TableOperations.py:15-17 | every character that `splitlines` breaks at is also whitespace for `split` |
| TableOperations.WordLength | Features/TableOperations.py:17 | the first word of a text is a run of non-whitespace characters ended by whitespace or by the end of the text |
| TableOperations.Split | Features/TableOperations.py:17 | `str.split()` yields non-empty words that contain no whitespace |
| TableOperations.SplitConcat | Features/TableOperations.py:17 | splitting two texts joined by a whitespace character gives the words of each in turn |
| TableOperations.SplitWord | Features/TableOperations.py:17 | a single word splits into itself |
| TableOperations.SplitJoin | Features/TableOperations.py:17 | words joined by whitespace split back into the same words |
| TableOperations.ShowNat | Features/TableOperations.py:53 | `str` of a non-negative number is a non-empty string of digits |
| TableOperations.Show | Features/TableOperations.py:53 | `str(n)` is a non-empty numeral without whitespace or line breaks |
| TableOperations.ParseShow | Features/TableOperations.py:17 | `int(str(n)) == n` for every integer |
| TableOperations.ReadEach | Features/TableOperations.py:17 | a list comprehension over `int` reads every item, keeping the count, or raises |
| TableOperations.ReadEachMeaning | Features/TableOperations.py:17 | the list is read exactly when every item reads, and then entry k is item k's value |
| TableOperations.ReadEachConcat | Features/TableOperations.py:17 | reading two lists together is reading each and concatenating, failing when either fails |
| TableOperations.LineLength | Features/TableOperations.py:15-16 | the first line of a text runs up to its first line boundary |
| TableOperations.ParseNat | Features/TableOperations.py:17 | `int` of an unsigned token succeeds exactly on ASCII digits grouped by single underscores, and on plain digits gives their decimal value |
| TableOperations.GroupedExamples | Features/TableOperations.py:17 | `int("1_0")` is 10 and `int("-1_0")` is −10 |
| TableOperations.ParseAllGrouped | Features/TableOperations.py:17 | the comprehension `int(num) for num in tab.split()` reads the tokens "1_0", "2" as [10, 2] |
| TableOperations.GroupedRejects | Features/TableOperations.py:17 | `int` raises ValueError on "_1", "1_" and "1__0" |
| TableOperations.TableRows | Features/TableOperations.py:5-18 | `table` of a first row of numerals followed by a line break and more text gives all numbers in order and the first row's width, or fails when a later token is not a numeral `int` reads (digits with an optional sign, possibly grouped as in "1_0") |
| TableOperations.TableRow | Features/TableOperations.py:5-18 | a single row of numerals reads back as its numbers and their count |
| TableOperations.TableExample | Features/TableOperations.py:12-13 | the documented `table("1 2 3\n4 5 6") == ([1, 2, 3, 4, 5, 6], 3)` |
| TableOperations.TableSquareExample | Features/TableOperations.py:4-23 | `table("1 2\n3 4") == ([1, 2, 3, 4], 2)` |
| TableOperations.LeadingSpaces | Features/TableOperations.py:31 | the whitespace a text starts with ends at its first non-whitespace character |
| TableOperations.TrailingSpaces | Features/TableOperations.py:31 | the whitespace a text ends with starts after its last non-whitespace character |
| TableOperations.StripMeaning | Features/TableOperations.py:31 | `strip()` leaves a part of the text that neither starts nor ends with whitespace, with only whitespace cut on each side |
| TableOperations.StripBounds | Features/TableOperations.py:31 | the cut points of `strip()`: whitespace before the first and from the second on, non-whitespace at both ends of what remains |
| TableOperations.StripUnpadded | Features/TableOperations.py:31 | a text that neither starts nor ends with whitespace is its own strip |
| TableOperations.IndexOf | Features/TableOperations.py:31 | the first occurrence of a character, or the length when there is none |
| TableOperations.SplitAt | Features/TableOperations.py:31 | `split("\n")` yields at least one piece, none containing the separator |
| TableOperations.JoinSplitAt | Features/TableOperations.py:31 | joining the pieces of `split(sep)` with sep gives the text back |
| TableOperations.SplitAtJoin | Features/TableOperations.py:31 | pieces free of the separator, joined with it, split back into themselves |
| TableOperations.ParseTriangle | Features/TableOperations.py:31 | the parsed triangle has at least one row |
| TableOperations.ParseRendered | Features/TableOperations.py:31 | rows of numbers written one per line with single spaces parse back into the same rows, when the top and bottom rows are not empty |
| TableOperations.PathAtMostMax | Features/TableOperations.py:21-37 | no downward path through adjacent entries has a larger sum than the best path value |
| TableOperations.BestPath | Features/TableOperations.py:21-37 | some downward path through adjacent entries attains the best path value |
| TableOperations.ConsPath | Features/TableOperations.py:36 | a step down to column j or j + 1 followed by a path is a path, whose sum adds the entry |
| TableOperations.NextBestSums | Features/TableOperations.py:34-36 | one pass of the inner loop turns the best sums of the row below into the best sums of this row |
| TableOperations.AddBest | Features/TableOperations.py:34-36 | the inner loop adds to entry j the larger of entries j and j + 1 of the row below |
| TableOperations.BestFromRows | Features/TableOperations.py:32-37 | the bottom-up loop returns the best path sum from the apex, and fails (`IndexError`) exactly when the top row is empty or some row is not longer than the row above |
| TableOperations.Triangle | Features/TableOperations.py:21-37 | `triangle` fails on a token that `int` does not read (an optional sign, then digits possibly grouped as in "1_0") or on a badly shaped triangle, and otherwise returns the largest sum of a path from the apex down through adjacent entries |
| TableOperations.TriangleExampleRows | Features/TableOperations.py:28-29 | the documented triangle's best path is 3 + 7 + 4 + 9 = 23 |
| TableOperations.TriangleExample | Features/TableOperations.py:28-29 | the documented `triangle("3\n7 4\n2 4 6\n8 5 9 3") == 23` |
| Navigation.UpBound | Features/Navigation.py:44 | a slice bound for a positive step lies in 0..len; a bound inside the list is kept and a negative one counts from the end |
| Navigation.DownBound | Features/Navigation.py:95 | a slice bound for a negative step lies in -1..len-1; an index is kept and a negative one counts from the end |
| Navigation.SliceUpMeaning | Features/Navigation.py:61 | `num_list[start:end:step]` with a positive step holds exactly the entries start + k·step below end, in order |
| Navigation.SliceDownMeaning | Features/Navigation.py:95 | a slice with a negative step holds exactly the entries start − k·step above end, in order |
| Navigation.SliceUnit | Features/Navigation.py:44 | a slice with step 1 is the contiguous run between its bounds |
| Navigation.SliceContiguous | Features/Navigation.py:44 | `num_list[start:end]` with bounds inside the list is the run from start to end |
| Navigation.HorizonFold | Features/Navigation.py:31-44 | `horizon` applies `perform_action` to the run between the clipped bounds, empty when end comes first |
| Navigation.HorizonProduct | Features/Navigation.py:31-44 | a horizontal product is the product of the run between the bounds, and fails (`reduce` of an empty list) when the run is empty |
| Navigation.VerticalProduct | Features/Navigation.py:47-61 | a vertical product is the product of the column entries start, start + step, … before end |
| Navigation.ZeroStride | Features/Navigation.py:61-95 | row length 0 makes `vertical` fail, 1 makes `diagonal_1` fail and −1 makes `diagonal_2` fail: a slice step of 0 raises `ValueError` |
| Navigation.DescendingSlice | Features/Navigation.py:78-95 | a negative stride never fails and reads the entries from start down to just above end |
| Navigation.DirectionExamples | Features/Navigation.py:41-93 | `horizon`, `vertical` and `diagonal_2` give the documented 2, 3 and 4 on [1, 2, 3, 4]; `diagonal_1` gives 24, not the documented 2 |
| Navigation.Selections | Features/Navigation.py:20-26 | a loop index that does not fail yields exactly four products, one per direction |
| Navigation.RunningMaxStep | Features/Navigation.py:23-26 | `max(running, product)` keeps the running maximum of one direction over the indices visited so far |
| Navigation.BestOfFour | Features/Navigation.py:28 | the largest of the four running maxima bounds every product seen and, unless it is 0, is one of them |
| Navigation.NavigateResult | Features/Navigation.py:19-28 | once every index has been visited, the largest maximum bounds the products at every index and is attained at one of them unless it is 0 |
| Navigation.MostNavigate | Features/Navigation.py:5-28 | `most_navigate` fails exactly when some product at some visited index fails; otherwise it returns a value at least 0 that bounds every product at every index from selection_length on, and is one of those products unless it is 0 |
| Navigation.HorizontalRunsSkipLast | Features/Navigation.py:19-23 | every horizontal run the loop takes ends before the last list entry, so that entry never enters a horizontal product |
| Navigation.SelectionsAtTwo | Features/Navigation.py:19-26 | on [1, 2, 3, 4] with row length 2, index 2 yields the products 2, 3, 24, 4 |
| Navigation.SelectionsAtThree | Features/Navigation.py:19-26 | on the same list, index 3 yields 6, 8, 24, 2 |
| Navigation.NavigateExample | Features/Navigation.py:13-14 | `most_navigate` on the text "1 2\n3 4" with selection length 2 reads [1, 2, 3, 4] with rows of 2 and gives 24, not the documented 8; the documented call passes the list [[1, 2], [3, 4]], on which `tab.splitlines()` in `table` raises AttributeError |
| Navigation.NavigateOnExample | Features/Navigation.py:13-28 | on [1, 2, 3, 4] with row length 2, the contract of `most_navigate` leaves only the answer 24 |
| Pythagorean.FirstLegMeaning | Features/Pythagorean.py:18-22 | the inner loop stops at the first b in its range that closes a right triangle, or finds none exactly when no b in the range does |
| Pythagorean.LegUnique | Features/Pythagorean.py:19-22 | at most one b closes a triangle for a given a and perimeter, so the `break` loses nothing |
| Pythagorean.Found | Features/Pythagorean.py:18-21 | what the inner loop appends for a has a as its short leg |
| Pythagorean.ClosingLeg | Features/Pythagorean.py:18-22 | the inner loop returns the first closing b from a + 1 up to (num − a) // 2, exclusive |
| Pythagorean.PythagoreanTriple1 | Features/Pythagorean.py:4-23 | `pythagorean_triple_1` returns the search with the bound as written |
| Pythagorean.TriplesBelowValid | Features/Pythagorean.py:14-23 | every listed triple is a right triangle with leg order a < b and perimeter num |
| Pythagorean.TriplesBelowAscending | Features/Pythagorean.py:15-22 | the triples come in strictly ascending order of a, at most one per a |
| Pythagorean.FoundExactly | Features/Pythagorean.py:18-21 | a right triangle with short leg a is appended exactly when its leg b is below the inner loop's bound |
| Pythagorean.TriplesExactly | Features/Pythagorean.py:14-23 | the search lists a right triangle with perimeter num exactly when its leg b is below the inner bound |
| Pythagorean.TriplesAsWritten | Features/Pythagorean.py:18 | as written, the search lists exactly the right triangles of perimeter num whose hypotenuse is at least two more than the long leg |
| Pythagorean.TriplesCorrected | Features/Pythagorean.py:18 | with the bound (num − a + 1) // 2 the search lists every right triangle with perimeter num |
| Pythagorean.PerimeterTwelve | Features/Pythagorean.py:11-12 | (3, 4, 5) has perimeter 12, yet `pythagorean_triple_1(12)` is [] rather than the documented [(3, 4, 5)]; the corrected search gives [(3, 4, 5)] |
| Pythagorean.FirstPartnerMeaning | Features/Pythagorean.py:41-44 | the inner loop stops at the first b with a² + b² equal to the argument, or finds none exactly when no b in range works |
| Pythagorean.SquareUnique | Features/Pythagorean.py:41-44 | two non-negative numbers with the same square are equal, so at most one b works for each a |
| Pythagorean.PairsBelowExactly | Features/Pythagorean.py:39-45 | the pairs are exactly the (a, b) with 1 ≤ a below the outer bound, a ≤ b below the inner bound and a² + b² equal to the argument, each once |
| Pythagorean.PythagoreanTriple2 | Features/Pythagorean.py:26-45 | `pythagorean_triple_2` fails on a negative argument (`int` of a complex root) and otherwise returns the pairs for a up to isqrt(num) // 2 |
| Pythagorean.PairsAsWritten | Features/Pythagorean.py:36-45 | as written, a pair (a, b) is listed exactly when 1 ≤ a < isqrt(num) // 2, a ≤ b and a² + b² is num itself, not num² |
| Pythagorean.LegsExactly | Features/Pythagorean.py:26-35 | the corrected search lists exactly the legs 1 ≤ a ≤ b with a² + b² = num², as documented |
| Pythagorean.HypotenuseTwentyFive | Features/Pythagorean.py:33-34 | `pythagorean_triple_2(25)` is [] where the documentation says [(7, 24)]; (7, 24) is among the corrected legs of 25 |
| Pythagorean.FirstLongestMeaning | Features/Pythagorean.py:62 | `max(..., key=len)` picks a perimeter at least as long as every other and, of those, the first |
| Pythagorean.SearchesKeepPerimeter | Features/Pythagorean.py:14-23 | both searches return only triangles of the perimeter they are given |
| Pythagorean.WholeRightTrianglesMeaning | Features/Pythagorean.py:48-65 | `whole_right_triangles` fails on an empty range (`max` of nothing); otherwise it returns the list of the first perimeter with the most triangles, its length, and that perimeter (0 when the list is empty) |
| Pythagorean.WholeRightTrianglesTwelve | Features/Pythagorean.py:59-60 | as written, `whole_right_triangles(12)` is ([], 0, 0), not the documented ([(3, 4, 5)], 1, 12) |
| Pythagorean.CorrectedWholeRightTrianglesTwelve | Features/Pythagorean.py:59-60 | with the corrected search the documented ([(3, 4, 5)], 1, 12) comes out |
| Pythagorean.CorrectedLongestTwelve | Features/Pythagorean.py:62 | of the perimeters 1..12, 12 is the first with the most triangles under the corrected search |
| Pythagorean.SmallPerimeter | Features/Pythagorean.py:14-23 | no perimeter below 12 has a right triangle, and perimeter 12 has none under the bound as written |
| Pythagorean.NoSmallTriangle | Features/Pythagorean.py:14-23 | the only right triangle with a perimeter of at most 12 is (3, 4, 5) |

## Left out

- The tkinter interface, the application bootstrap, the worker process that runs a routine with a time limit, the JSON cache writer, the configuration singleton and the console input handler are not part of this model: they are UI, concurrency and file I/O.
- `Features/Figure_numbers.py` is not part of this model: its membership tests go through floating-point `math.sqrt(...).is_integer()`. For the same reason `triangular_pentagonal_hexagonal` and `cyclic_figur_nums` in `Features/Sequences.py`, which depend on it, are left out.
- `generate_multiples`, `sqrts_odd_period`, `diophantine_equation` and `approximations_square_root` in `Features/MathOperations.py` are outside the modelled core. `sum_fifth_powers_digits`, `sum_digit_factorial`, `sum_of_digits_of_degree`, `multiplication_check`, `list_set`, `list_sort` and `max_sum_digits` in `Features/NumberOperations.py` are left out for the same reason. `list_filter`, which contains `list_sort`, is modelled.
- `combinatorial_samples`, `spiral_primes`, and `perform_action` with `"/"` produce or compare floats and are left out.
- `different_prime_factors`, `combining_pair_prime`, `replacing_prime` and `quadratic_primes` are unbounded searches with no termination argument in the source, and are left out.
- `sel_num_sum_1` and `sel_num_sum_2` call `MathOperations.action`, which does not exist, so they always raise; they are left out.
- `time_it` measures wall-clock time and is left out.
- `logarithmic_partition` computes its boundaries with floating-point `math.log`. `PrimeNumbers.MersennePrimes` takes the boundary list as a parameter instead, and is proved for every boundary list that partitions the prime list.
- The `multiprocessing.Pool` and `np.concatenate` of `mersenne_primes` become a sequential loop over the slices that concatenates the results. Parallelism is not modelled.
- The random Miller–Rabin witnesses become an explicit list of five witnesses. `circular_primes` uses one list for all its tests, where the source draws fresh ones each call. `truncatable_primes` only tests numbers below 10^6, where no witness is used.
- gmpy2 `mpz` and Python `int` are Dafny's unbounded `int`. The bit array of `prime_num` is an `array<bool>`.
- Floating-point square roots `x ** 0.5` are the exact integer square root `Arith.Isqrt`. The source's float root can be off for numbers near 2^53 and above.
- `number_len` uses `math.log10`, which can be off by one just below large powers of ten. The model counts the digits exactly (`MyUtils.NumberLen`).
- The float divisions `min_num / 10 ** k` in `find_palindromes` are integer divisions, which agree for non-negative operands of moderate size.
- Where the digits of `str()` are used as numbers, `str()` of a number is its list of decimal digits (`MyUtils.Digits`). Where the text of a numeral is used (`table`, `triangle`, the join in `dictionary_permutations`), `TableOperations.Show` writes it, with a `-` sign for a negative number. Unicode digits are not modelled; string routines take ASCII text. `int` of a token accepts ASCII digits grouped by single underscores, as Python does.
- Collatz.Collatz and Collatz.StepsToOne: termination of the Collatz loop is an open problem, so the trajectory is computed within a step budget (`fuel`); exhausting it gives `None`. This says nothing about inputs that need more steps than the budget.
- MathOperations.CubPermutations: the search for a cube group of size x has no termination proof, so it runs within a budget of candidate cubes and returns `None` when the budget runs out.
- MathOperations.CompareNumbers: the order of Python's `set` iteration is not modelled. The model keeps the first-occurrence order, and its contract states only membership and the absence of repeats.
- NumberOperations.SetList: `list(set(nums))` is taken to be ascending. CPython gives that order only while every value is non-negative and below the size of the set's hash table (so `list(set([10, 2]))` is [10, 2]); it is not a language guarantee.
- TableOperations.Triangle: the source updates `triangle_list[i][j]` in place. The model works on a sequence of rows, and each pass (`TableOperations.AddBest`) returns a new row. No mutation or aliasing is modelled.
- Navigation.MostNavigate takes the already-parsed list and the row length instead of the input text; `Navigation.NavigateExample` parses the text with `TableOperations.Table` first.
- PrimeNumbers.IsPrimeTest: the model proves that a prime is never rejected and ties every other answer to the Miller–Rabin reference predicate; it does not bound the probability that a composite passes the random rounds.
- PrimeNumbers.PrimeNum: requires max_num ≥ 0. In the source max_num ≤ −2 makes `bitarray(max_num + 1)` raise; max_num = −1 passes it, and `int((-1) ** 0.5)` of the complex root raises instead. The callers of `prime_num` inherit this requires, and for a negative argument the source raises inside `prime_num`: SumConsecutivePrimeNumbers, TruncatablePrimes, CircularPrimes (with their Intended versions), LeastMultiple and LeastMultipleCorrected.
- PrimeNumbers.SumConsecutivePrimeNumbers: requires max_num ≥ 0, inherited from PrimeNumbers.PrimeNum; for a negative max_num the source raises inside `prime_num(max_num)`.
- PrimeNumbers.SumConsecutivePrimeNumbersIntended: requires max_num ≥ 0, inherited from PrimeNumbers.PrimeNum; for a negative max_num the source raises inside `prime_num(max_num)`.
- PrimeNumbers.TruncatablePrimes: requires n ≥ 0, inherited from PrimeNumbers.PrimeNum; for a negative n the source raises inside `prime_num(n)`.
- PrimeNumbers.TruncatablePrimesIntended: requires n ≥ 0, inherited from PrimeNumbers.PrimeNum; for a negative n the source raises inside `prime_num(n)`.
- PrimeNumbers.CircularPrimes: requires max_num ≥ 0, inherited from PrimeNumbers.PrimeNum; for a negative max_num the source raises inside `prime_num(max_num)`.
- PrimeNumbers.CircularPrimesIntended: requires max_num ≥ 0, inherited from PrimeNumbers.PrimeNum; for a negative max_num the source raises inside `prime_num(max_num)`.
- NumberOperations.LeastMultiple: requires max_num ≥ 0, inherited from PrimeNumbers.PrimeNum; for a negative max_num the source raises inside `prime_num(max_num)`.
- NumberOperations.LeastMultipleCorrected: requires max_num ≥ 0, inherited from PrimeNumbers.PrimeNum; for a negative max_num the source raises inside `prime_num(max_num)`.
- Palindromes.FindPalindromes: requires min_num ≥ 0; the source's handling of a negative minimum goes through `math.log10` of its absolute value and is not modelled.
- MyUtils.ModExp: requires mod ≥ 1; a zero modulus raises in the source, and a negative modulus is not modelled.
- MyUtils.GetDigitByPosition: requires 0 ≤ position < number_len(n); outside that range the source computes with a negative power of ten (a float) and is not modelled.
- Dividers.FindDivisors: requires number ≥ 0; for a negative number the source's `number ** 0.5` is complex and `int()` raises. `Dividers.CheckDivisors` and `Dividers.ProperDivisorSum` take non-negative numbers for the same reason.
- NumberOperations.DistinctPowersCount: requires min_num ≥ 0; negative exponents give floats in the source.
- NumberOperations.DictionaryPermutations: requires desired ≥ 0; a negative index selects from the end of the list in the source, and this is not modelled.
- MathOperations.CalculateOwnDegrees takes `digits` as a natural number; a negative `digits` makes the modulus a float in the source.

## Findings

Each finding below comes from reading the code and proving what it computes; none was executed.

| source | as written | input that shows it | evidently intended | confidence | as-written member | corrected member |
|---|---|---|---|---|---|---|
| Features/PrimeNumbers.py:210 | `end = result = 2` starts the running total at 2 while the window is primes[0:2], whose sum is 5, so every total it checks is 3 below its window's sum | `sum_consecutive_prime_numbers(6)` returns (2, 2), but 2 is not a sum of two consecutive primes | start the total at the window's sum, giving (5, 2) = 2 + 3 | high, not executed | PrimeNumbers.ConsecutiveLagExample | PrimeNumbers.SumConsecutivePrimeNumbersIntended |
| Features/PrimeNumbers.py:20-22 | n is clamped to 739397 and then `prime_num(n)` lists primes strictly below n | `truncatable_primes(10**6)` misses 739397, the largest truncatable prime | clamp to 739398, so that 739397 is searched | high, not executed | PrimeNumbers.TruncatablePrimes | PrimeNumbers.TruncatablePrimesIntended |
| Features/PrimeNumbers.py:148-156 | the prime and its rotations are added as they pass, and stay when a later rotation fails | `circular_primes(20)` contains 19, although its rotation 91 = 7 · 13 | add a prime only when every rotation is prime | high, not executed | PrimeNumbers.NineteenNotCircular | PrimeNumbers.CircularPrimesIntended |
| Features/MathOperations.py:147 | the partial quotients of e are taken from a cycled twelve-term pattern | `e_approx(15)`: its 14th term is 2 where e has 10, so the numerator is too small | the quotients 1, 2k, 1 of e for k = 1, 2, 3, … | high, not executed | MathOperations.EApproxDiverges | MathOperations.EApproxIntended |
| Features/NumberOperations.py:200 | `prime_num(max_num)` excludes max_num itself | `least_multiple(3)` gives 2, which 3 does not divide | the primes up to and including max_num | high, not executed | NumberOperations.LeastMultipleMissesLastPrime | NumberOperations.IntendedLcmIsLcm |
| Features/NumberOperations.py:204-206 | every power p, p², … up to max_num is multiplied in | `least_multiple(4)` gives 2 · 4 · 3 = 24, but lcm(1..4) = 12 | only the largest power of each prime | high, not executed | NumberOperations.LeastMultipleRepeatsPowers | NumberOperations.LeastMultipleCorrected |
| Features/Palindromes.py:16-19 | the halves run from the leading half of min_num up to, but not including, the leading half of max_num | `find_palindromes(123, 100)` misses 121, whose half 12 is never reached | every palindrome in [min_num, max_num) | high, not executed | Palindromes.FindPalindromesMisses121 | Palindromes.FindPalindromesCorrected |
| Features/Palindromes.py:16 | the first half is min_num's leading half, which can exceed the half of a larger palindrome of more digits | `find_palindromes(100, 5)` misses 11, 22, 33 and 44 | every palindrome in [min_num, max_num) | high, not executed | Palindromes.FindPalindromesMisses11 | Palindromes.FindPalindromesCorrected |
| Features/Pythagorean.py:18 | the bound `b < (num - a) // 2` excludes the triangles whose hypotenuse is one more than the long leg | `pythagorean_triple_1(12)` is [], missing (3, 4, 5) | `b < (num - a + 1) // 2`, i.e. b < c | high, not executed | Pythagorean.TriplesAsWritten | Pythagorean.TriplesCorrected |
| Features/Pythagorean.py:40-43 | `num` is replaced by its square root, and the pairs are compared with the original num as a² + b², not num² | `pythagorean_triple_2(25)` is [], where the documentation gives [(7, 24)] | legs a ≤ b with a² + b² = num² | medium, not executed | Pythagorean.PairsAsWritten | Pythagorean.LegsExactly |
