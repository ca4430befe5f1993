/** The prime engine of `Features/PrimeNumbers.py`: the odd-only sieve,
    the primality test (trial division below 10^6, Miller-Rabin above),
    factorisation by trial division, the Lucas-Lehmer scan for Mersenne
    exponents, and the puzzle routines built on them. */
module PrimeNumbers {
  import opened Wrappers
  import opened Arith
  import opened Sorting
  import opened NumberTheory
  import opened MyUtils
  import opened PrimeCertificates
  import opened Fermat

  // ---------------------------------------------------------------------
  // prime_num: the sieve

  /** The primes below n, ascending. */
  function PrimesBelow(n: int): seq<int>
    decreases n
  {
    if n <= 2 then []
    else
      PrimesBelow(n - 1) + (if IsPrime(n - 1) then [n - 1] else [])
  }

  /** Only primes below n are listed, each once, in increasing order. */
  lemma {:induction false} PrimesBelowSound(n: int)
    ensures forall i :: 0 <= i < |PrimesBelow(n)| ==> IsPrime(PrimesBelow(n)[i]) && PrimesBelow(n)[i] < n
    ensures StrictlySorted(PrimesBelow(n))
    decreases n
  {
    if n > 2 {
      PrimesBelowSound(n - 1);
    }
  }

  /** Every prime below n is listed. */
  lemma {:induction false} PrimesBelowComplete(n: int, x: int)
    requires IsPrime(x) && x < n
    ensures x in PrimesBelow(n)
    decreases n
  {
    if x < n - 1 {
      PrimesBelowComplete(n - 1, x);
    }
  }

  /** Membership in `PrimesBelow(n)` is being a prime below n. */
  lemma PrimesBelowMembers(n: int)
    ensures forall x :: x in PrimesBelow(n) <==> IsPrime(x) && x < n
  {
    PrimesBelowSound(n);
    forall x | IsPrime(x) && x < n
      ensures x in PrimesBelow(n)
    {
      PrimesBelowComplete(n, x);
    }
  }

  /** What `prime_num(max_num)` returns: the list always starts with 2. */
  function PrimeList(maxNum: int): seq<int>
  {
    if maxNum <= 2 then [2] else PrimesBelow(maxNum)
  }

  /** `prime_num(max_num)` lists, in increasing order, exactly the primes
      below max_num, except that it is `[2]` whenever max_num <= 2. */
  lemma PrimeListMembers(maxNum: int)
    ensures maxNum <= 2 ==> PrimeList(maxNum) == [2]
    ensures maxNum > 2 ==> forall x :: x in PrimeList(maxNum) <==> IsPrime(x) && x < maxNum
    ensures StrictlySorted(PrimeList(maxNum))
  {
    PrimesBelowMembers(maxNum);
    PrimesBelowSound(maxNum);
  }

  lemma PrimesBelowOddStep(p: int)
    requires p >= 3 && p % 2 == 1
    ensures PrimesBelow(p + 2) == PrimesBelow(p) + (if IsPrime(p) then [p] else [])
  {
    EvenNotPrime(p + 1);
  }

  /** The odd x that the sieve has cleared by the time it reaches p: those
      of the form q*q + 2*k*q for an odd prime q below p. */
  ghost predicate Crossed(x: int, p: int)
  {
    exists q :: 3 <= q < p && IsPrime(q) && q * q <= x && (x - q * q) % (2 * q) == 0
  }

  lemma CrossedStep(x: int, p: int)
    requires p >= 3 && p % 2 == 1
    ensures Crossed(x, p + 2) <==> Crossed(x, p) || (IsPrime(p) && p * p <= x && (x - p * p) % (2 * p) == 0)
  {
    EvenNotPrime(p + 1);
    if Crossed(x, p + 2) {
      var q :| 3 <= q < p + 2 && IsPrime(q) && q * q <= x && (x - q * q) % (2 * q) == 0;
      assert q == p ==> IsPrime(p) && p * p <= x && (x - p * p) % (2 * p) == 0;
    }
  }

  /** A crossed number is a multiple of the prime that crossed it. */
  lemma CrossingDivides(x: int, q: int)
    requires q >= 1 && q * q <= x
    ensures (x - q * q) % (2 * q) == 0 ==> x % q == 0
  {
    if (x - q * q) % (2 * q) == 0 {
      var t := (x - q * q) / (2 * q);
      assert x - q * q == t * (2 * q);
      assert x == q * (q + 2 * t);
      MultipleMod(q, q + 2 * t);
    }
  }

  /** Once every odd prime whose square is at most x has crossed out its
      odd multiples, an odd x is uncrossed exactly when it is prime. */
  lemma SieveCorrect(x: int, p: int)
    requires x >= 3 && x % 2 == 1 && p >= 3 && x < p * p
    ensures Crossed(x, p) <==> !IsPrime(x)
  {
    if IsPrime(x) {
      PrimeNotCrossed(x, p);
    } else {
      CompositeCrossed(x, p);
    }
  }

  lemma PrimeNotCrossed(x: int, p: int)
    requires IsPrime(x)
    ensures !Crossed(x, p)
  {
    forall q | 3 <= q < p && IsPrime(q) && q * q <= x
      ensures (x - q * q) % (2 * q) != 0
    {
      NotCrossedBy(x, q);
    }
  }

  /** A prime x is not crossed by a smaller prime q with q * q <= x. */
  lemma NotCrossedBy(x: int, q: int)
    requires IsPrime(x) && q >= 3 && q * q <= x
    ensures (x - q * q) % (2 * q) != 0
  {
    assert q < x by {
      assert q * 1 < q * q;
    }
    assert x % q != 0;
    CrossingDivides(x, q);
  }

  lemma CompositeCrossed(x: int, p: int)
    requires x >= 3 && x % 2 == 1 && p >= 3 && x < p * p && !IsPrime(x)
    ensures Crossed(x, p)
  {
    var q, m := OddLeastFactor(x);
    SquareBelow(q, p, x);
    OddCofactorCrossing(x, q, m);
    assert 3 <= q < p && IsPrime(q) && q * q <= x && (x - q * q) % (2 * q) == 0;
  }

  /** An odd composite number is its least prime factor q times an odd
      cofactor of at least q. */
  lemma OddLeastFactor(x: int) returns (q: int, m: int)
    requires x >= 3 && x % 2 == 1 && !IsPrime(x)
    ensures IsPrime(q) && q >= 3 && q * q <= x && x == q * m && q <= m
    ensures q % 2 == 1 && m % 2 == 1
  {
    q := LeastDivisorFrom(x, 2);
    CompositeLeastDivisor(x);
    LeastDivisorIsPrime(x);
    m := DivExact(x, q);
    assert q != 2;
    assert q % 2 != 0;
    DividesTrans(x, m, 2);
  }

  lemma SquareBelow(q: int, p: int, x: int)
    requires q >= 1 && p >= 1 && q * q <= x < p * p
    ensures q < p
  {
    if q >= p {
      MulLeft(q, p, q);
      MulLeft(p, p, q);
    }
  }

  lemma OddCofactorCrossing(x: int, q: int, m: int)
    requires q >= 1 && x == q * m && q <= m && q % 2 == 1 && m % 2 == 1
    ensures (x - q * q) % (2 * q) == 0
  {
    var t := (m - q) / 2;
    assert m - q == 2 * t;
    assert x - q * q == q * (m - q);
    assert x - q * q == t * (2 * q);
    ModUnique(x - q * q, t, 0, 2 * q);
  }

  lemma IsqrtPositive(n: nat)
    ensures n >= 1 ==> Isqrt(n) >= 1
    ensures n <= 3 ==> Isqrt(n) <= 1
  {
    IsqrtSquare(n);
  }

  /** The first odd number at or above a bound. */
  lemma OddRounding(p: int, a: int, s: int)
    requires p % 2 == 1 && p >= a
    requires s == if a % 2 == 0 then a + 1 else a
    ensures p <= a + 1 ==> p == s
  {
  }

  lemma IsqrtBelow(n: int)
    requires n >= 2
    ensures Isqrt(n) + 2 <= n + 1
  {
    IsqrtSquare(n);
    var r := Isqrt(n);
    if r >= n {
      MulLeft(r, 2, r);
    }
  }

  /** `prime_num`: an odd-only sieve over an array of flags. The bound is
      exclusive and the list always starts with 2. */
  method PrimeNum(maxNum: int) returns (primes: seq<int>)
    requires maxNum >= 0
    ensures primes == PrimeList(maxNum)
  {
    var prime := new bool[maxNum + 1](_ => true);
    var sqrt;
    primes, sqrt := CrossOutBelowRoot(prime, maxNum);
    var x := sqrt;
    while x < maxNum
      invariant x % 2 == 1 && x >= sqrt
      invariant maxNum >= 3 ==> 3 <= x <= maxNum + 1 && primes == PrimesBelow(x)
      invariant maxNum <= 2 ==> primes == [2]
      invariant forall y :: 3 <= y <= maxNum && y % 2 == 1 ==> (prime[y] <==> IsPrime(y))
    {
      CollectStep(primes, x, prime[x]);
      if prime[x] {
        primes := primes + [x];
      }
      x := x + 2;
    }
    CollectEnd(primes, x, maxNum);
  }

  lemma CollectStep(primes: seq<int>, x: int, flag: bool)
    requires x >= 3 && x % 2 == 1 && primes == PrimesBelow(x) && (flag <==> IsPrime(x))
    ensures (if flag then primes + [x] else primes) == PrimesBelow(x + 2)
  {
    PrimesBelowOddStep(x);
  }

  lemma CollectEnd(primes: seq<int>, x: int, maxNum: int)
    requires maxNum >= 3 ==> maxNum <= x <= maxNum + 1 && x % 2 == 1 && primes == PrimesBelow(x)
    requires maxNum <= 2 ==> primes == [2]
    ensures primes == PrimeList(maxNum)
  {
    if maxNum >= 3 && x == maxNum + 1 {
      EvenNotPrime(maxNum);
    }
  }

  /** The first phase of `prime_num`: every odd p below the rounded-up
      square root that is still marked is a prime, is appended, and clears
      p*p, p*p + 2p, ...; the bound is then made odd. Afterwards the odd
      flags from 3 up are exactly the odd primes. */
  method CrossOutBelowRoot(prime: array<bool>, maxNum: int) returns (primes: seq<int>, sqrt: int)
    requires maxNum >= 0 && prime.Length == maxNum + 1
    requires forall x :: 0 <= x < prime.Length ==> prime[x]
    modifies prime
    ensures sqrt % 2 == 1 && sqrt >= 1
    ensures maxNum >= 3 ==> 3 <= sqrt <= maxNum + 1 && primes == PrimesBelow(sqrt)
    ensures maxNum <= 2 ==> primes == [2] && sqrt >= maxNum
    ensures forall y :: 3 <= y <= maxNum && y % 2 == 1 ==> (prime[y] <==> IsPrime(y))
  {
    sqrt := Isqrt(maxNum) + 1;
    IsqrtPositive(maxNum);
    var p;
    primes, p := SieveBelowRoot(prime, maxNum, sqrt);
    ghost var root := sqrt;
    if sqrt % 2 == 0 {
      sqrt := sqrt + 1;
    }
    OddRounding(p, root, sqrt);
    SieveDone(prime, maxNum, p);
    if maxNum >= 2 {
      IsqrtBelow(maxNum);
    }
  }

  /** The `for p in range(3, sqrt, 2)` loop of `prime_num`: it stops at
      the first odd p at or above sqrt, with the primes below p collected
      and the multiples of those primes crossed out. */
  method SieveBelowRoot(prime: array<bool>, maxNum: int, sqrt: int) returns (primes: seq<int>, p: int)
    requires maxNum >= 0 && prime.Length == maxNum + 1 && sqrt == Isqrt(maxNum) + 1
    requires forall x :: 0 <= x < prime.Length ==> prime[x]
    modifies prime
    ensures p >= 3 && p % 2 == 1 && p >= sqrt && primes == PrimesBelow(p)
    ensures maxNum >= 1 ==> p <= sqrt + 1
    ensures maxNum <= 2 ==> p == 3
    ensures forall x :: 3 <= x <= maxNum && x % 2 == 1 ==> (prime[x] <==> !Crossed(x, p))
  {
    IsqrtPositive(maxNum);
    primes := [2];
    p := 3;
    while p < sqrt
      invariant p >= 3 && p % 2 == 1
      invariant maxNum >= 1 ==> p <= sqrt + 1
      invariant maxNum <= 2 ==> p == 3
      invariant primes == PrimesBelow(p)
      invariant forall x :: 3 <= x <= maxNum && x % 2 == 1 ==> (prime[x] <==> !Crossed(x, p))
    {
      BelowRootSquare(maxNum, p);
      primes := SieveStep(prime, maxNum, p, primes);
      p := p + 2;
    }
  }

  /** One round of the first loop: a p still flagged is prime, is
      collected and has its odd multiples from p * p cleared. */
  method SieveStep(prime: array<bool>, maxNum: int, p: int, primes: seq<int>) returns (next: seq<int>)
    requires prime.Length == maxNum + 1 && p >= 3 && p % 2 == 1 && p * p <= maxNum
    requires primes == PrimesBelow(p)
    requires forall x :: 3 <= x <= maxNum && x % 2 == 1 ==> (prime[x] <==> !Crossed(x, p))
    modifies prime
    ensures next == PrimesBelow(p + 2)
    ensures forall x :: 3 <= x <= maxNum && x % 2 == 1 ==> (prime[x] <==> !Crossed(x, p + 2))
  {
    SquareAbove(p);
    SieveCorrect(p, p);
    PrimesBelowOddStep(p);
    next := primes;
    if prime[p] {
      next := primes + [p];
      ClearMultiples(prime, p);
    }
    forall x | 3 <= x <= maxNum && x % 2 == 1
      ensures prime[x] <==> !Crossed(x, p + 2)
    {
      CrossedStep(x, p);
    }
  }

  lemma SquareAbove(p: int)
    requires p >= 3
    ensures p < p * p
  {
    MulLeft(p, 2, p);
  }

  /** An odd p below isqrt(maxNum) + 1 has its square within maxNum. */
  lemma BelowRootSquare(maxNum: int, p: int)
    requires maxNum >= 0 && 1 <= p < Isqrt(maxNum) + 1
    ensures p * p <= maxNum
  {
    IsqrtSquare(maxNum);
    MulMonotone(p, Isqrt(maxNum));
  }

  /** The slice assignment `prime[p * p::p * 2] = False`. */
  method ClearMultiples(prime: array<bool>, p: int)
    requires p >= 1
    modifies prime
    ensures forall j :: 0 <= j < prime.Length ==>
      prime[j] == (old(prime[j]) && !(p * p <= j && (j - p * p) % (2 * p) == 0))
  {
    forall j | 0 <= j < prime.Length && p * p <= j && (j - p * p) % (2 * p) == 0 {
      prime[j] := false;
    }
  }

  /** Once the first loop stops, p * p is above maxNum, so the odd flags
      from 3 up are exactly the odd primes. */
  lemma SieveDone(prime: array<bool>, maxNum: int, p: int)
    requires prime.Length == maxNum + 1 && maxNum >= 0 && p >= 3 && p >= Isqrt(maxNum) + 1
    requires forall x :: 3 <= x <= maxNum && x % 2 == 1 ==> (prime[x] <==> !Crossed(x, p))
    ensures forall y :: 3 <= y <= maxNum && y % 2 == 1 ==> (prime[y] <==> IsPrime(y))
  {
    assert p * p > maxNum by {
      IsqrtSquare(maxNum);
      MulMonotone(Isqrt(maxNum) + 1, p);
    }
    forall y | 3 <= y <= maxNum && y % 2 == 1
      ensures prime[y] <==> IsPrime(y)
    {
      SieveCorrect(y, p);
    }
  }

  // ---------------------------------------------------------------------
  // is_prime: trial division below 10^6, Miller-Rabin above

  /** Below this bound `is_prime` decides by trial division. */
  const TrialLimit := 1000000

  /** The decomposition m == d * 2^s with d odd, for m > 0. */
  function TwoAdic(m: int): (r: (int, nat))
    requires m > 0
    ensures r.0 > 0 && r.0 % 2 == 1 && m == r.0 * Pow(2, r.1)
    decreases m
  {
    if m % 2 == 0 then
      var (d, s) := TwoAdic(m / 2);
      assert m == 2 * (d * Pow(2, s)) == d * Pow(2, s + 1);
      (d, s + 1)
    else (m, 0)
  }

  /** Whether one of k successive squarings mod n, starting from x, meets
      n - 1. */
  function SquareChainHits(x: int, n: int, k: nat): bool
    requires n > 0
    decreases k
  {
    if k == 0 then false
    else
      var y := (x * x) % n;
      y == n - 1 || SquareChainHits(y, n, k - 1)
  }

  /** One Miller-Rabin round with witness a, where n - 1 == d * 2^s. */
  predicate RoundPasses(n: int, a: int, d: nat, s: nat)
    requires n > 0
  {
    var x := Pow(a, d) % n;
    x == 1 || x == n - 1 || SquareChainHits(x, n, if s >= 1 then s - 1 else 0)
  }

  /** Every round passes. */
  predicate MillerRabin(n: int, witnesses: seq<int>)
    requires n >= 2
  {
    var (d, s) := TwoAdic(n - 1);
    forall i :: 0 <= i < |witnesses| ==> RoundPasses(n, witnesses[i], d, s)
  }

  /** The answer of `is_prime(n)` when its rounds draw `witnesses`. */
  predicate ProbablyPrime(n: int, witnesses: seq<int>): (r: bool)
    ensures r ==> n == 2 || (n >= 3 && n % 2 == 1)
  {
    if n <= 1 then false
    else if n == 2 || n == 3 then true
    else if n % 2 == 0 then false
    else if n < TrialLimit then IsPrime(n)
    else MillerRabin(n, witnesses)
  }

  /** What the random draw `randint(2, n - 2)` may produce, five times. */
  predicate ValidWitnesses(n: int, witnesses: seq<int>)
  {
    |witnesses| == 5 && forall i :: 0 <= i < |witnesses| ==> 2 <= witnesses[i] <= n - 2
  }

  /** Below 10^6 the test is exact, whatever the witnesses. */
  lemma ProbablyPrimeExactBelowLimit(n: int, witnesses: seq<int>)
    requires n < TrialLimit
    ensures ProbablyPrime(n, witnesses) <==> IsPrime(n)
  {
    if n >= 4 && n % 2 == 0 {
      EvenNotPrime(n);
    }
  }

  /** j successive squarings mod n, starting from x. */
  function Squarings(x: int, n: int, j: nat): int
    requires n > 0
    decreases j
  {
    if j == 0 then x else Squarings((x * x) % n, n, j - 1)
  }

  /** Squaring a^e mod n j times gives a^f mod n, where f == e * 2^j. */
  lemma {:induction false} SquaringsPow(a: int, e: nat, n: int, j: nat, f: nat)
    requires n > 0 && f == e * Pow(2, j)
    ensures Squarings(Pow(a, e) % n, n, j) == Pow(a, f) % n
    decreases j
  {
    if j > 0 {
      var x := Pow(a, e) % n;
      MulMod(Pow(a, e), Pow(a, e), n);
      PowAdd(a, e, e);
      assert (x * x) % n == Pow(a, 2 * e) % n;
      assert f == (2 * e) * Pow(2, j - 1);
      SquaringsPow(a, 2 * e, n, j - 1, f);
    }
  }

  /** Modulo a prime n, a chain of squarings from x != 1, n - 1 that ends
      at 1 after k + 1 steps meets n - 1 within its first k steps. */
  lemma {:induction false} ChainReachesMinusOne(x: int, n: int, k: nat)
    requires IsPrime(n) && 0 <= x < n
    ensures Squarings(x, n, k + 1) == 1 && x != 1 && x != n - 1 ==> SquareChainHits(x, n, k)
    decreases k
  {
    var y := (x * x) % n;
    SquareRootsOfOne(n, x);
    if k > 0 {
      ChainReachesMinusOne(y, n, k - 1);
    }
  }

  /** A Miller-Rabin round passes for a prime n and any witness in
      [2, n - 2]. */
  lemma RoundPassesForPrime(n: int, a: int, d: nat, s: nat)
    requires IsPrime(n) && 2 <= a <= n - 2
    requires s >= 1 && n - 1 == d * Pow(2, s)
    ensures RoundPasses(n, a, d, s)
  {
    ModUnique(a, 0, a, n);
    FermatLittle(n, a);
    SquaringsPow(a, d, n, s, n - 1);
    ChainReachesMinusOne(Pow(a, d) % n, n, s - 1);
  }

  /** The Miller-Rabin branch never rejects a prime. */
  lemma MillerRabinAcceptsPrimes(n: int, witnesses: seq<int>)
    requires IsPrime(n) && n >= 5 && n % 2 == 1
    requires forall i :: 0 <= i < |witnesses| ==> 2 <= witnesses[i] <= n - 2
    ensures MillerRabin(n, witnesses)
  {
    var (d, s) := TwoAdic(n - 1);
    assert s >= 1;
    forall i | 0 <= i < |witnesses|
      ensures RoundPasses(n, witnesses[i], d, s)
    {
      RoundPassesForPrime(n, witnesses[i], d, s);
    }
  }

  /** `is_prime` accepts every prime, whatever witnesses it draws. */
  lemma ProbablyPrimeAcceptsPrimes(n: int, witnesses: seq<int>)
    requires n >= TrialLimit ==> ValidWitnesses(n, witnesses)
    ensures IsPrime(n) ==> ProbablyPrime(n, witnesses)
  {
    if n < TrialLimit {
      ProbablyPrimeExactBelowLimit(n, witnesses);
    } else if IsPrime(n) {
      assert n % 2 != 0;
      MillerRabinAcceptsPrimes(n, witnesses);
    }
  }

  /** `is_prime`. The random witnesses of the Miller-Rabin rounds are a
      parameter. */
  method IsPrimeTest(n: int, witnesses: seq<int>) returns (r: bool)
    requires n >= TrialLimit ==> ValidWitnesses(n, witnesses)
    ensures r == ProbablyPrime(n, witnesses)
    ensures n < TrialLimit ==> (r <==> IsPrime(n))
    ensures IsPrime(n) ==> r
  {
    ProbablyPrimeAcceptsPrimes(n, witnesses);
    if n < TrialLimit {
      ProbablyPrimeExactBelowLimit(n, witnesses);
    }
    if n <= 1 {
      return false;
    }
    if n == 2 || n == 3 {
      return true;
    }
    if n % 2 == 0 {
      return false;
    }
    if n < TrialLimit {
      r := TrialDivision(n);
      return;
    }
    var d, s := HalveOut(n - 1);
    var i := 0;
    while i < |witnesses|
      invariant 0 <= i <= |witnesses|
      invariant forall j :: 0 <= j < i ==> RoundPasses(n, witnesses[j], d, s)
    {
      var pass := MillerRabinRound(n, witnesses[i], d, s);
      if !pass {
        return false;
      }
      i := i + 1;
    }
    return true;
  }

  /** The trial-division branch: odd candidates 3, 5, ... up to the
      integer square root. */
  method TrialDivision(n: int) returns (r: bool)
    requires n >= 5 && n % 2 == 1
    ensures r <==> IsPrime(n)
  {
    var root := Isqrt(n);
    var i := 3;
    while i <= root
      invariant i >= 3 && i % 2 == 1 && i <= root + 2
      invariant NoOddDivisorBelow(n, i)
    {
      if n % i == 0 {
        IsqrtBelow(n);
        DivisorNotPrime(n, i);
        return false;
      }
      NoOddDivisorStep(n, i);
      i := i + 2;
    }
    OddTrialComplete(n, i, root);
    return true;
  }

  /** No odd number from 3 up to i - 1 divides n. */
  predicate NoOddDivisorBelow(n: int, i: int)
  {
    forall j :: 3 <= j < i && j % 2 == 1 ==> n % j != 0
  }

  lemma NoOddDivisorStep(n: int, i: int)
    requires i % 2 == 1 && NoOddDivisorBelow(n, i) && n % i != 0
    ensures NoOddDivisorBelow(n, i + 2)
  {
    forall j | 3 <= j < i + 2 && j % 2 == 1
      ensures n % j != 0
    {
      if j >= i {
        assert j == i;
      }
    }
  }

  /** No odd divisor up to the square root of an odd n makes n prime. */
  lemma OddTrialComplete(n: int, i: int, root: nat)
    requires n >= 5 && n % 2 == 1 && root == Isqrt(n) && root < i
    requires NoOddDivisorBelow(n, i)
    ensures IsPrime(n)
  {
    forall j | 2 <= j < root + 1
      ensures n % j != 0
    {
      if j % 2 == 0 {
        DividesTrans(n, j, 2);
      }
    }
    IsqrtSquare(n);
    NoSmallDivisorPrime(n, root + 1);
  }

  /** The halving loop: strip the factors 2 from m. */
  method HalveOut(m: int) returns (d: int, s: nat)
    requires m > 0
    ensures (d, s) == TwoAdic(m)
    ensures m == d * Pow(2, s) && d % 2 == 1
  {
    d, s := m, 0;
    while d % 2 == 0
      invariant d > 0
      invariant TwoAdic(m) == (TwoAdic(d).0, TwoAdic(d).1 + s)
      decreases d
    {
      d := d / 2;
      s := s + 1;
    }
  }

  /** One round of the Miller-Rabin loop. */
  method MillerRabinRound(n: int, a: int, d: nat, s: nat) returns (pass: bool)
    requires n >= 2
    ensures pass == RoundPasses(n, a, d, s)
  {
    var x := ModExp(a, d, n);
    ghost var x0 := x;
    if x == 1 || x == n - 1 {
      return true;
    }
    var k := 0;
    ghost var steps: nat := if s >= 1 then s - 1 else 0;
    while k < s - 1
      invariant 0 <= k <= steps
      invariant SquareChainHits(x0, n, steps) == SquareChainHits(x, n, steps - k)
    {
      x := (x * x) % n;
      if x == n - 1 {
        return true;
      }
      k := k + 1;
    }
    return false;
  }

  // ---------------------------------------------------------------------
  // prime_divisor: factorisation by trial division

  /** The primes below k that divide n, ascending. */
  function PrimeFactorsBelow(n: int, k: int): seq<int>
    decreases k
  {
    if k <= 2 then []
    else PrimeFactorsBelow(n, k - 1) + (if IsPrime(k - 1) && n % (k - 1) == 0 then [k - 1] else [])
  }

  /** The distinct prime factors of n, ascending; none for n <= 1. */
  function PrimeFactors(n: int): seq<int>
  {
    if n <= 1 then [] else PrimeFactorsBelow(n, n + 1)
  }

  lemma {:induction false} PrimeFactorsBelowMembers(n: int, k: int)
    ensures forall x :: x in PrimeFactorsBelow(n, k) <==> IsPrime(x) && n % x == 0 && x < k
    ensures StrictlySorted(PrimeFactorsBelow(n, k))
    decreases k
  {
    if k > 2 {
      PrimeFactorsBelowMembers(n, k - 1);
      var t := PrimeFactorsBelow(n, k - 1);
      forall i | 0 <= i < |t|
        ensures t[i] < k - 1
      {
        assert t[i] in t;
      }
    }
  }

  /** For n >= 1, `PrimeFactors(n)` lists exactly the primes dividing n,
      in increasing order. */
  lemma PrimeFactorsMembers(n: int)
    ensures n >= 1 ==> forall x :: x in PrimeFactors(n) <==> IsPrime(x) && n % x == 0
    ensures StrictlySorted(PrimeFactors(n))
  {
    PrimeFactorsBelowMembers(n, n + 1);
    if n >= 1 {
      forall x | IsPrime(x) && n % x == 0
        ensures x < n + 1
      {
        DivisorAtMost(n, x);
      }
    }
  }

  /** A positive divisor of a positive number is at most the number. */
  lemma DivisorAtMost(n: int, x: int)
    requires n >= 1 && x >= 1 && n % x == 0
    ensures x <= n
  {
    var q := n / x;
    assert n == x * q;
    assert q >= 1;
    MulLeft(x, 1, q);
  }

  /** What the factorisation loop keeps: n is what is left of num, the
      list holds distinct prime factors of num, every other prime factor
      of num still divides n, and n has no factor in 2..count-1. */
  ghost predicate FactorLoop(num: int, n: int, count: int, divList: seq<int>)
  {
    && count >= 2 && (count == 2 || count % 2 == 1)
    && (num <= 1 ==> n == num && divList == [])
    && (num >= 1 ==> n >= 1 && num % n == 0)
    && Distinct(divList)
    && (forall x :: x in divList ==> IsPrime(x) && num % x == 0)
    && (forall p :: IsPrime(p) && num % p == 0 ==> p in divList || n % p == 0)
    && NoDivisorBelow(n, count)
  }

  /** No number in 2..c-1 divides n. */
  predicate NoDivisorBelow(n: int, c: int)
  {
    forall d :: 2 <= d < c ==> n % d != 0
  }

  /** From an odd candidate c the next one is c + 2: c + 1 is even and so
      cannot divide n once 2 does not. */
  lemma NoDivisorNext(n: int, count: int)
    requires count >= 2 && (count == 2 || count % 2 == 1)
    requires NoDivisorBelow(n, count) && n % count != 0
    ensures NoDivisorBelow(n, if count == 2 then 3 else count + 2)
  {
    if count != 2 {
      DividesTrans(n, count + 1, 2);
      forall d | 2 <= d < count + 2
        ensures n % d != 0
      {
        if d == count + 1 {
          assert (count + 1) % 2 == 0;
        }
      }
    }
  }

  /** `prime_divisor`: divide out each factor found, stepping the candidate
      2, 3, 5, 7, ...; what remains above 1 is the last prime factor. */
  method PrimeDivisor(num: int) returns (r: seq<int>)
    ensures r == PrimeFactors(num)
  {
    var n, count, divList := DivideOut(num);
    FactorEnd(num, n, count, divList);
    if n > 1 {
      divList := SetAdd(divList, n);
    }
    r := Sort(divList);
  }

  /** The `while count * count <= n` loop of `prime_divisor`. */
  method DivideOut(num: int) returns (n: int, count: int, divList: seq<int>)
    ensures FactorLoop(num, n, count, divList) && count * count > n
  {
    divList := [];
    n := num;
    count := 2;
    while count * count <= n
      invariant FactorLoop(num, n, count, divList)
      decreases n, n - count
    {
      CandidateBelow(count, n);
      if n % count == 0 {
        FactorStep(num, n, count, divList);
        divList := SetAdd(divList, count);
        n := n / count;
      } else {
        NextCandidate(num, n, count, divList);
        count := if count == 2 then 3 else count + 2;
      }
    }
  }

  /** A candidate whose square is at most n is below n. */
  lemma CandidateBelow(count: int, n: int)
    requires count >= 2 && count * count <= n
    ensures count < n
  {
    assert count * count >= 2 * count;
  }

  /** Stepping from an odd candidate to the next odd one skips only an
      even number, which cannot divide n once 2 does not. */
  lemma NextCandidate(num: int, n: int, count: int, divList: seq<int>)
    requires FactorLoop(num, n, count, divList) && n % count != 0
    ensures FactorLoop(num, n, if count == 2 then 3 else count + 2, divList)
  {
    NoDivisorNext(n, count);
  }

  /** After the loop, what remains of n is 1 or the last prime factor, and
      sorting the list gives the prime factors of num. */
  lemma FactorEnd(num: int, n: int, count: int, divList: seq<int>)
    requires FactorLoop(num, n, count, divList) && count * count > n
    ensures Sort(if n > 1 then SetAdd(divList, n) else divList) == PrimeFactors(num)
  {
    var after := if n > 1 then SetAdd(divList, n) else divList;
    if n > 1 {
      NoSmallDivisorPrime(n, count);
      forall p | IsPrime(p) && n % p == 0
        ensures p == n
      {
        PrimeDividesPrime(p, n);
      }
    }
    assert num >= 1 ==> forall x :: x in after <==> IsPrime(x) && num % x == 0;
    SortDistinct(after);
    PrimeFactorsMembers(num);
    StrictlySortedUnique(Sort(after), PrimeFactors(num));
  }

  /** Dividing n by its least factor `count` keeps every loop fact. */
  lemma FactorStep(num: int, n: int, count: int, divList: seq<int>)
    requires FactorLoop(num, n, count, divList) && count * count <= n && n % count == 0
    ensures FactorLoop(num, n / count, count, SetAdd(divList, count))
    ensures 0 < n / count < n
  {
    var m := n / count;
    QuotientFacts(n, count);
    LeastFactorPrime(n, count);
    forall d | 2 <= d < count
      ensures m % d != 0
    {
      DividesTrans(n, m, d);
    }
    if num >= 1 {
      DividesTrans(num, n, count);
      DividesTrans(num, n, m);
    }
    forall p | IsPrime(p) && n % p == 0
      ensures p == count || m % p == 0
    {
      CofactorPrime(p, count, m);
    }
  }

  lemma QuotientFacts(n: int, count: int)
    requires count >= 2 && count * count <= n && n % count == 0
    ensures n == count * (n / count)
    ensures count <= n / count < n && n % (n / count) == 0
  {
    var m := n / count;
    assert n == count * m;
    assert m >= count by {
      if m < count {
        MulLeft(count, m, count - 1);
      }
    }
    assert n % m == 0 by {
      ModUnique(n, count, 0, m);
    }
  }

  /** A divisor with no divisor below it but 1 is prime. */
  lemma LeastFactorPrime(n: int, count: int)
    requires count >= 2 && n % count == 0
    requires forall d :: 2 <= d < count ==> n % d != 0
    ensures IsPrime(count)
  {
    forall d | 2 <= d < count
      ensures count % d != 0
    {
      DividesTrans(n, count, d);
    }
  }

  /** A prime dividing the product of the prime `count` and m is `count`
      or divides m. */
  lemma CofactorPrime(p: int, count: int, m: int)
    requires IsPrime(p) && IsPrime(count) && m >= 1 && (count * m) % p == 0
    ensures p == count || m % p == 0
  {
    Euclid(p, count, m);
    PrimeDividesPrime(p, count);
  }

  // ---------------------------------------------------------------------
  // lucas_lehmer_test, proc_center, mersenne_primes

  /** The Lucas-Lehmer residue after k steps s := (s*s - 2) mod M from 4,
      with Python's modulo. */
  function LucasLehmerResidue(k: nat, modulus: int): int
    requires modulus != 0
  {
    if k == 0 then 4
    else
      var s := LucasLehmerResidue(k - 1, modulus);
      PyMod(s * s - 2, modulus)
  }

  /** The Mersenne number 2^p - 1, positive for p >= 1. */
  function Mersenne(p: nat): (r: int)
    ensures p >= 1 ==> r >= 1
    ensures p >= 2 ==> r >= 3
  {
    PowOfTwoBounds(p);
    Pow(2, p) - 1
  }

  lemma PowOfTwoBounds(p: nat)
    ensures p >= 1 ==> Pow(2, p) >= 2
    ensures p >= 2 ==> Pow(2, p) >= 4
  {
    if p >= 1 {
      PowStrictlyIncreasing(2, 0, p);
      if p >= 2 {
        PowStrictlyIncreasing(2, 1, p);
      }
    }
  }

  /** p is reported by the scan: at least 3, and p - 2 Lucas-Lehmer steps
      modulo 2^p - 1 reach 0. */
  predicate LucasLehmerPasses(p: int)
  {
    p > 2 && LucasLehmerResidue(p - 2, Mersenne(p)) == 0
  }

  /** `lucas_lehmer_test(p, m_p)`: the caller passes m_p == 2^p and the test
      works modulo m_p - 1. A zero modulus is a division by zero in the
      source, so it is excluded when a step runs. */
  method LucasLehmerTest(p: int, mp: int) returns (r: bool)
    requires p <= 2 || mp != 1
    ensures r <==> p > 2 && LucasLehmerResidue(p - 2, mp - 1) == 0
  {
    var s := 4;
    var modulus := mp - 1;
    var i := 0;
    while i < p - 2
      invariant 0 <= i <= if p > 2 then p - 2 else 0
      invariant i > 0 ==> modulus != 0 && s == LucasLehmerResidue(i, modulus)
      invariant i == 0 ==> s == 4
    {
      s := PyMod(s * s - 2, modulus);
      i := i + 1;
    }
    return s == 0;
  }

  /** Exponent 2 is never reported; on the first exponents the scan agrees
      with the known Mersenne primes 7, 31, 127 and the composite
      2047 = 23 * 89. */
  lemma LucasLehmerSmall()
    ensures !LucasLehmerPasses(2)
    ensures LucasLehmerPasses(3) && LucasLehmerPasses(5) && LucasLehmerPasses(7)
    ensures !LucasLehmerPasses(11)
  {
    assert Mersenne(3) == 7 && Mersenne(5) == 31 && Mersenne(7) == 127 && Mersenne(11) == 2047;
    assert LucasLehmerResidue(1, 7) == 0;
    assert LucasLehmerResidue(1, 31) == 14;
    assert LucasLehmerResidue(2, 31) == 8;
    assert LucasLehmerResidue(3, 31) == 0;
    assert LucasLehmerResidue(1, 127) == 14;
    assert LucasLehmerResidue(2, 127) == 67;
    assert LucasLehmerResidue(3, 127) == 42;
    assert LucasLehmerResidue(4, 127) == 111;
    assert LucasLehmerResidue(5, 127) == 0;
    assert LucasLehmerResidue(1, 2047) == 14;
    assert LucasLehmerResidue(2, 2047) == 194;
    assert LucasLehmerResidue(3, 2047) == 788;
    assert LucasLehmerResidue(4, 2047) == 701;
    assert LucasLehmerResidue(5, 2047) == 119;
    assert LucasLehmerResidue(6, 2047) == 1877;
    assert LucasLehmerResidue(7, 2047) == 240;
    assert LucasLehmerResidue(8, 2047) == 282;
    assert LucasLehmerResidue(9, 2047) == 1736;
  }

  /** The order-preserving sublist of exponents that pass. */
  function MersenneExponents(ps: seq<int>): seq<int>
  {
    if ps == [] then []
    else
      MersenneExponents(ps[..|ps| - 1])
      + (if LucasLehmerPasses(ps[|ps| - 1]) then [ps[|ps| - 1]] else [])
  }

  /** `MersenneExponents` keeps exactly the passing elements, in order. */
  lemma {:induction false} MersenneExponentsMembers(ps: seq<int>)
    ensures forall x :: x in MersenneExponents(ps) <==> x in ps && LucasLehmerPasses(x)
    ensures |MersenneExponents(ps)| <= |ps|
    decreases |ps|
  {
    if ps != [] {
      MersenneExponentsMembers(ps[..|ps| - 1]);
      assert ps == ps[..|ps| - 1] + [ps[|ps| - 1]];
    }
  }

  /** Filtering distributes over concatenation. */
  lemma {:induction false} MersenneExponentsConcat(a: seq<int>, b: seq<int>)
    ensures MersenneExponents(a + b) == MersenneExponents(a) + MersenneExponents(b)
    decreases |b|
  {
    if b == [] {
      assert a + b == a;
    } else {
      var b' := b[..|b| - 1];
      assert (a + b)[..|a + b| - 1] == a + b';
      MersenneExponentsConcat(a, b');
    }
  }

  /** The shifts `p - previous` are never negative: starting from 0 the
      exponents do not decrease. */
  predicate ShiftsValid(ps: seq<int>)
  {
    Sorted(ps) && (|ps| > 0 ==> ps[0] >= 0)
  }

  /** `proc_center`: m_p is kept equal to 2^p by shifting it left by the
      gap to the previous exponent, and each exponent is tested. A negative
      shift is a ValueError in the source and gives None. */
  method ProcCenter(primes: seq<int>) returns (r: Option<seq<int>>)
    ensures r.Some? <==> ShiftsValid(primes)
    ensures r.Some? ==> r.value == MersenneExponents(primes)
  {
    var res: seq<int> := [];
    var mp := 1;
    var previous: nat := 0;
    var i := 0;
    while i < |primes|
      invariant 0 <= i <= |primes|
      invariant previous == if i == 0 then 0 else primes[i - 1]
      invariant mp == Pow(2, previous)
      invariant ShiftsValid(primes[..i])
      invariant res == MersenneExponents(primes[..i])
    {
      var p := primes[i];
      ShiftStep(primes, i);
      if p - previous < 0 {
        return None;
      }
      var pass;
      mp, pass := ShiftAndTest(p, previous, mp);
      if pass {
        res := res + [p];
      }
      previous := p;
      i := i + 1;
    }
    assert primes[..i] == primes;
    return Some(res);
  }

  /** One more exponent: the shift condition and the filter extend, and a
      negative shift makes the whole list invalid. */
  /** One step of `proc_center`: `m_p <<= p - previous`, then the
      Lucas-Lehmer test of p. */
  method ShiftAndTest(p: int, previous: nat, mp: int) returns (mp': int, pass: bool)
    requires previous <= p && mp == Pow(2, previous)
    ensures mp' == Pow(2, p) && (pass <==> LucasLehmerPasses(p))
  {
    PowAdd(2, previous, p - previous);
    mp' := mp * Pow(2, p - previous);
    PowOfTwoBounds(p);
    pass := LucasLehmerTest(p, mp');
  }

  lemma ShiftStep(ps: seq<int>, i: int)
    requires 0 <= i < |ps| && ShiftsValid(ps[..i])
    ensures ShiftsValid(ps[..i + 1]) <==> (if i == 0 then 0 else ps[i - 1]) <= ps[i]
    ensures (if i == 0 then 0 else ps[i - 1]) > ps[i] ==> !ShiftsValid(ps)
    ensures MersenneExponents(ps[..i + 1])
      == MersenneExponents(ps[..i]) + (if LucasLehmerPasses(ps[i]) then [ps[i]] else [])
  {
    assert ps[..i + 1][..i] == ps[..i];
    assert ps[..i + 1][i] == ps[i];
    if ShiftsValid(ps) {
      assert i > 0 ==> ps[i - 1] <= ps[i];
    }
    if i > 0 && ps[i - 1] <= ps[i] {
      var t := ps[..i + 1];
      forall k, l | 0 <= k < l < |t|
        ensures t[k] <= t[l]
      {
        assert t[k] == ps[..i][k];
        if l < i {
          assert t[l] == ps[..i][l];
        } else if k < i - 1 {
          assert t[i - 1] == ps[..i][i - 1];
        }
      }
    }
  }

  /** Boundaries as `logarithmic_partition(0, n, procs)` produces them:
      from 0 to n, never decreasing. */
  predicate Partition(bounds: seq<int>, n: int)
  {
    && |bounds| >= 1 && bounds[0] == 0 && bounds[|bounds| - 1] == n
    && forall i, j :: 0 <= i < j < |bounds| ==> bounds[i] <= bounds[j]
  }

  /** The exponents found slice by slice, concatenated: what the pool's
      `map` followed by `np.concatenate` yields. */
  function ScanSlices(ps: seq<int>, bounds: seq<int>): seq<int>
    requires |bounds| >= 1 && forall i :: 0 <= i < |bounds| ==> 0 <= bounds[i] <= |ps|
    requires forall i, j :: 0 <= i < j < |bounds| ==> bounds[i] <= bounds[j]
    decreases |bounds|
  {
    if |bounds| == 1 then []
    else
      var k := |bounds| - 1;
      ScanSlices(ps, bounds[..k]) + MersenneExponents(ps[bounds[k - 1]..bounds[k]])
  }

  /** Scanning the slices between the first and the last boundary finds
      what one scan of that stretch finds. */
  lemma {:induction false} ScanSlicesSpan(ps: seq<int>, bounds: seq<int>)
    requires |bounds| >= 1 && forall i :: 0 <= i < |bounds| ==> 0 <= bounds[i] <= |ps|
    requires forall i, j :: 0 <= i < j < |bounds| ==> bounds[i] <= bounds[j]
    ensures ScanSlices(ps, bounds) == MersenneExponents(ps[bounds[0]..bounds[|bounds| - 1]])
    decreases |bounds|
  {
    var k := |bounds| - 1;
    if k > 0 {
      ScanSlicesSpan(ps, bounds[..k]);
      var a, b, c := bounds[0], bounds[k - 1], bounds[k];
      assert ps[a..c] == ps[a..b] + ps[b..c];
      MersenneExponentsConcat(ps[a..b], ps[b..c]);
    }
  }

  /** The partition does not change the result: any two partitions give
      the scan of the whole list, values and order alike. */
  lemma PartitionIndependent(ps: seq<int>, bounds1: seq<int>, bounds2: seq<int>)
    requires Partition(bounds1, |ps|) && Partition(bounds2, |ps|)
    ensures ScanSlices(ps, bounds1) == MersenneExponents(ps)
    ensures ScanSlices(ps, bounds1) == ScanSlices(ps, bounds2)
  {
    PartitionInRange(bounds1, |ps|);
    PartitionInRange(bounds2, |ps|);
    ScanSlicesSpan(ps, bounds1);
    ScanSlicesSpan(ps, bounds2);
    assert ps[0..|ps|] == ps;
  }

  lemma PartitionInRange(bounds: seq<int>, n: int)
    requires Partition(bounds, n)
    ensures forall i :: 0 <= i < |bounds| ==> 0 <= bounds[i] <= n
  {
    forall i | 0 <= i < |bounds|
      ensures 0 <= bounds[i] <= n
    {
      if 0 < i < |bounds| - 1 {
        assert bounds[0] <= bounds[i] <= bounds[|bounds| - 1];
      }
    }
  }

  /** `mersenne_primes`, with the pool replaced by a sequential loop over
      the slices and the boundary list as a parameter. */
  method MersennePrimes(maxi: int, bounds: seq<int>) returns (r: seq<int>)
    requires maxi >= 0 && Partition(bounds, |PrimeList(maxi)|)
    ensures r == ScanSlices(PrimeList(maxi), bounds)
    ensures r == MersenneExponents(PrimeList(maxi))
  {
    var primes := PrimeNum(maxi);
    PrimeListSound(maxi);
    PartitionInRange(bounds, |primes|);
    r := [];
    var i := 0;
    while i < |bounds| - 1
      invariant 0 <= i <= |bounds| - 1
      invariant r == ScanSlices(primes, bounds[..i + 1])
    {
      var slice := primes[bounds[i]..bounds[i + 1]];
      SliceShiftsValid(primes, bounds[i], bounds[i + 1]);
      var part := ProcCenter(slice);
      ScanSlicesStep(primes, bounds, i);
      r := r + part.value;
      i := i + 1;
    }
    assert bounds[..i + 1] == bounds;
    PartitionIndependent(primes, bounds, bounds);
  }

  /** One more boundary adds the scan of one more slice. */
  lemma ScanSlicesStep(ps: seq<int>, bounds: seq<int>, i: int)
    requires Partition(bounds, |ps|) && 0 <= i < |bounds| - 1
    requires forall k :: 0 <= k < |bounds| ==> 0 <= bounds[k] <= |ps|
    ensures ScanSlices(ps, bounds[..i + 2])
      == ScanSlices(ps, bounds[..i + 1]) + MersenneExponents(ps[bounds[i]..bounds[i + 1]])
  {
    var t := bounds[..i + 2];
    assert t[..i + 1] == bounds[..i + 1];
    assert t[i] == bounds[i] && t[i + 1] == bounds[i + 1];
  }

  /** The sieve's list is made of primes in increasing order. */
  lemma PrimeListSound(maxNum: int)
    ensures StrictlySorted(PrimeList(maxNum))
    ensures forall i :: 0 <= i < |PrimeList(maxNum)| ==> IsPrime(PrimeList(maxNum)[i])
  {
    PrimesBelowSound(maxNum);
  }

  /** Every slice of an increasing list of primes has valid shifts. */
  lemma SliceShiftsValid(ps: seq<int>, lo: int, hi: int)
    requires StrictlySorted(ps) && forall i :: 0 <= i < |ps| ==> IsPrime(ps[i])
    requires 0 <= lo <= hi <= |ps|
    ensures ShiftsValid(ps[lo..hi])
  {
    if lo < hi {
      assert ps[lo..hi][0] == ps[lo];
    }
  }

  // ---------------------------------------------------------------------
  // sum_consecutive_prime_numbers: a sliding-window scan

  predicate AllPositive(s: seq<int>)
  {
    forall i :: 0 <= i < |s| ==> s[i] > 0
  }

  /** The scan from the state (start, stop, total, counts, best): while
      stop is inside the list, shrink the window from the left when the
      running total exceeds maxNum, otherwise record a total that is in the
      list when its window is longer than the best so far, then widen. (An
      empty window never has a total above maxNum; the guard start < stop
      only makes the definition total.) */
  function ConsecutiveScan(primes: seq<int>, maxNum: int, start: int, stop: int,
                           total: int, counts: int, best: int): (int, int)
    requires 0 <= start <= stop
    decreases |primes| - stop, stop - start
  {
    if stop >= |primes| then (best, counts)
    else if total > maxNum && start < stop then
      ConsecutiveScan(primes, maxNum, start + 1, stop, total - primes[start], counts, best)
    else if total > maxNum then (best, counts)
    else
      var longer := total in primes && stop - start > counts;
      ConsecutiveScan(primes, maxNum, start, stop + 1, total + primes[stop],
                      if longer then stop - start else counts,
                      if longer then total else best)
  }

  lemma WindowDropFirst(s: seq<int>, start: int, stop: int)
    requires 0 <= start <= stop <= |s| && AllPositive(s)
    ensures start < stop ==> Sum(s[start + 1..stop]) == Sum(s[start..stop]) - s[start]
    ensures start == stop ==> Sum(s[start..stop]) == 0
  {
    if start < stop {
      assert s[start..stop] == [s[start]] + s[start + 1..stop];
      SumCons(s[start], s[start + 1..stop]);
    }
  }

  lemma WindowAddLast(s: seq<int>, start: int, stop: int)
    requires 0 <= start <= stop < |s|
    ensures Sum(s[start..stop + 1]) == Sum(s[start..stop]) + s[stop]
  {
    assert s[start..stop + 1][..stop - start] == s[start..stop];
  }

  /** What a reported pair means: nothing was found, or best is in the list
      and equals the sum of counts consecutive elements minus lag. */
  ghost predicate Reported(primes: seq<int>, best: int, counts: int, lag: int)
  {
    (counts == 0 && best == 0)
    || (counts > 0 && best in primes
        && exists s :: 0 <= s <= |primes| - counts && best == WindowSum(primes, s, counts) - lag)
  }

  /** The sum of the k elements from index s. */
  function WindowSum(primes: seq<int>, s: int, k: int): int
  {
    if 0 <= s && 0 <= k && s + k <= |primes| then Sum(primes[s..s + k]) else 0
  }

  /** Every total the scan records is the sum of its window minus the lag
      the running total started with. */
  lemma {:induction false} ConsecutiveScanSound(primes: seq<int>, maxNum: int, start: int, stop: int,
                                             total: int, counts: int, best: int, lag: int)
    requires maxNum >= 0 && AllPositive(primes) && 0 <= start <= stop && lag >= 0
    requires stop <= |primes| ==> total == Sum(primes[start..stop]) - lag
    requires Reported(primes, best, counts, lag)
    ensures Reported(primes, ConsecutiveScan(primes, maxNum, start, stop, total, counts, best).0,
                     ConsecutiveScan(primes, maxNum, start, stop, total, counts, best).1, lag)
    decreases |primes| - stop, stop - start
  {
    if stop < |primes| {
      WindowDropFirst(primes, start, stop);
      if total > maxNum && start < stop {
        ConsecutiveScanSound(primes, maxNum, start + 1, stop, total - primes[start], counts, best, lag);
      } else if total <= maxNum {
        var longer := total in primes && stop - start > counts;
        WindowAddLast(primes, start, stop);
        if longer {
          assert total == WindowSum(primes, start, stop - start) - lag;
        }
        ConsecutiveScanSound(primes, maxNum, start, stop + 1, total + primes[stop],
                             if longer then stop - start else counts,
                             if longer then total else best, lag);
      }
    }
  }

  /** The loop of `sum_consecutive_prime_numbers`, from the window
      primes[0..2] with the given running total. */
  method SlidingWindowScan(primes: seq<int>, maxNum: int, total0: int) returns (maxPrime: int, maxCounts: int)
    requires maxNum >= 0 && AllPositive(primes)
    requires 2 <= |primes| ==> total0 <= Sum(primes[0..2])
    ensures (maxPrime, maxCounts) == ConsecutiveScan(primes, maxNum, 0, 2, total0, 0, 0)
  {
    var stop, total := 2, total0;
    var start := 0;
    maxCounts, maxPrime := 0, 0;
    while stop < |primes|
      invariant 0 <= start <= stop
      invariant stop <= |primes| ==> total <= Sum(primes[start..stop])
      invariant ConsecutiveScan(primes, maxNum, start, stop, total, maxCounts, maxPrime)
             == ConsecutiveScan(primes, maxNum, 0, 2, total0, 0, 0)
      decreases |primes| - stop, stop - start
    {
      if total > maxNum {
        WindowDropFirst(primes, start, stop);
        total := total - primes[start];
        start := start + 1;
        continue;
      }
      if total in primes {
        var long := stop - start;
        if long > maxCounts {
          maxCounts := long;
          maxPrime := total;
        }
      }
      WindowAddLast(primes, start, stop);
      total := total + primes[stop];
      stop := stop + 1;
    }
  }

  lemma PrimeListPositive(maxNum: int)
    ensures AllPositive(PrimeList(maxNum))
  {
    PrimeListSound(maxNum);
  }

  /** `sum_consecutive_prime_numbers` as written: the running total starts
      at 2 although the first window is primes[0..2] = [2, 3], so every
      total it tests is 3 less than the sum of its window. */
  method SumConsecutivePrimeNumbers(maxNum: int) returns (maxPrime: int, maxCounts: int)
    requires maxNum >= 0
    ensures (maxPrime, maxCounts) == ConsecutiveScan(PrimeList(maxNum), maxNum, 0, 2, 2, 0, 0)
    ensures Reported(PrimeList(maxNum), maxPrime, maxCounts, 3)
  {
    var primes := PrimeNum(maxNum);
    PrimeListPositive(maxNum);
    if 2 <= |primes| {
      PrimeListStart(maxNum);
      assert primes[0..2] == [2, 3];
      SumPair(2, 3);
    }
    maxPrime, maxCounts := SlidingWindowScan(primes, maxNum, 2);
    if 2 <= |primes| {
      ConsecutiveScanSound(primes, maxNum, 0, 2, 2, 0, 0, 3);
    }
  }

  /** The intended scan starts from the sum of its first window; then each
      reported prime is the sum of maxCounts consecutive primes. */
  method SumConsecutivePrimeNumbersIntended(maxNum: int) returns (maxPrime: int, maxCounts: int)
    requires maxNum >= 0
    ensures Reported(PrimeList(maxNum), maxPrime, maxCounts, 0)
  {
    var primes := PrimeNum(maxNum);
    PrimeListPositive(maxNum);
    var total0 := if |primes| >= 2 then primes[0] + primes[1] else 0;
    if 2 <= |primes| {
      assert primes[0..2] == [primes[0], primes[1]];
      SumPair(primes[0], primes[1]);
      ConsecutiveScanSound(primes, maxNum, 0, 2, total0, 0, 0, 0);
    }
    maxPrime, maxCounts := SlidingWindowScan(primes, maxNum, total0);
  }

  /** Above 3 the sieve's list starts 2, 3. */
  lemma PrimeListStart(maxNum: int)
    requires |PrimeList(maxNum)| >= 2
    ensures PrimeList(maxNum)[0] == 2 && PrimeList(maxNum)[1] == 3
  {
    PrimeListMembers(maxNum);
    PrimeListSound(maxNum);
    var ps := PrimeList(maxNum);
    assert ps[0] in ps && ps[1] in ps;
    assert IsPrime(ps[0]) && ps[1] > ps[0] >= 2;
    assert IsPrime(2) && IsPrime(3);
    assert 2 in ps && 3 in ps;
    var i :| 0 <= i < |ps| && ps[i] == 2;
    var j :| 0 <= j < |ps| && ps[j] == 3;
    SortedMonotone(ps, 0, i);
    assert ps[0] == 2 && j != 0;
    SortedMonotone(ps, 1, j);
  }

  /** A strictly sorted list never decreases along its indices. */
  lemma SortedMonotone(s: seq<int>, a: int, b: int)
    requires StrictlySorted(s) && 0 <= a <= b < |s|
    ensures s[a] <= s[b]
  {
    if a < b {
      assert s[a] < s[b];
    }
  }

  /** For max_num = 6 the list is [2, 3, 5]. The scan as written reports 2
      as the sum of 2 consecutive primes (its window [2, 3] sums to 5);
      started from the window's sum it reports 5 = 2 + 3. */
  lemma ConsecutiveLagExample()
    ensures PrimeList(6) == [2, 3, 5]
    ensures ConsecutiveScan(PrimeList(6), 6, 0, 2, 2, 0, 0) == (2, 2)
    ensures ConsecutiveScan(PrimeList(6), 6, 0, 2, 5, 0, 0) == (5, 2)
  {
    assert IsPrime(2) && IsPrime(3);
    assert !IsPrime(4) by {
      assert 4 % 2 == 0;
    }
    PrimeByOddTrial(5, 1);
    assert PrimesBelow(3) == [2];
    assert PrimesBelow(4) == [2, 3];
    assert PrimesBelow(5) == [2, 3];
    assert PrimesBelow(6) == [2, 3, 5];
  }

  // ---------------------------------------------------------------------
  // truncatable_primes

  /** The bound at which `truncatable_primes` clamps its argument. */
  const TruncatableCap := 739397

  /** Python's `lst[k:]`, which is empty when the list is too short. */
  function DropFirst(s: seq<int>, k: nat): seq<int>
  {
    if |s| <= k then [] else s[k..]
  }

  /** Cutting `left` digits off the right of ds, and `left` digits off
      its left, leaves a prime both times. */
  predicate CutsPrime(ds: seq<int>, left: int)
  {
    1 <= left < |ds| && IsPrime(FromDigits(ds[..|ds| - left])) && IsPrime(FromDigits(ds[left..]))
  }

  /** p stays prime however many of its digits (but not all) are cut from
      its left, or from its right. */
  predicate Truncatable(p: int)
  {
    forall left :: 1 <= left < |Digits(p)| ==> CutsPrime(Digits(p), left)
  }

  /** A truncation spells a number between 0 and p. */
  lemma CutsBelow(p: int, k: int)
    requires p >= 0 && 0 <= k <= |Digits(p)|
    ensures 0 <= FromDigits(Digits(p)[..k]) <= p
    ensures 0 <= FromDigits(Digits(p)[k..]) <= p
  {
    var ds := Digits(p);
    var a, b := ds[..k], ds[k..];
    assert ds == a + b;
    FromDigitsConcat(a, b);
    FromDigitsOfDigits(p);
    FromDigitsBounds(a);
    FromDigitsBounds(b);
    PowPositive(10, |b|);
    MulLeft(FromDigits(a), 1, Pow(10, |b|));
  }

  /** Every cut of fewer than `left` digits leaves primes. */
  predicate CutsPrimeBelow(ds: seq<int>, left: int)
  {
    forall l :: 1 <= l < left && l < |ds| ==> CutsPrime(ds, l)
  }

  lemma CutsPrimeStep(ds: seq<int>, left: int)
    requires CutsPrimeBelow(ds, left) && CutsPrime(ds, left)
    ensures CutsPrimeBelow(ds, left + 1)
  {
  }

  /** Once `left` has passed every cut, p is truncatable; a failing cut
      shows that it is not. */
  lemma CutsPrimeEnd(p: int, left: int)
    requires left >= |Digits(p)|
    ensures CutsPrimeBelow(Digits(p), left) <==> Truncatable(p)
  {
  }

  lemma CutFails(p: int, left: int)
    requires 1 <= left < |Digits(p)| && !CutsPrime(Digits(p), left)
    ensures !Truncatable(p)
  {
  }

  /** The inner loop of `truncatable_primes`: the for/else that adds p to
      the result only when no truncation fails `is_prime`. */
  method AllCutsPrime(p: int) returns (ok: bool)
    requires 0 <= p < TrialLimit
    ensures ok <==> Truncatable(p)
  {
    var ds := Digits(p);
    var left := 1;
    while left < |ds|
      invariant 1 <= left
      invariant CutsPrimeBelow(ds, left)
    {
      CutsBelow(p, |ds| - left);
      CutsBelow(p, left);
      var kept := IsPrimeTest(FromDigits(ds[..|ds| - left]), []);
      if !kept {
        CutFails(p, left);
        return false;
      }
      kept := IsPrimeTest(FromDigits(ds[left..]), []);
      if !kept {
        CutFails(p, left);
        return false;
      }
      CutsPrimeStep(ds, left);
      left := left + 1;
    }
    CutsPrimeEnd(p, left);
    return true;
  }

  /** The primes listed by `prime_num(m)[4:]` are the primes from 11 up to
      m, exclusive. */
  lemma DropFirstFour(m: int)
    ensures forall x :: x in DropFirst(PrimeList(m), 4) <==> IsPrime(x) && 11 <= x < m
  {
    if m > 2 {
      PrimesBelowEleven();
      if m < 11 {
        PrimesBelowExtends(m, 11);
      } else {
        PrimesBelowExtends(11, m);
        forall x
          ensures x in PrimesBelow(m)[4..] <==> IsPrime(x) && 11 <= x < m
        {
          DropFirstFourMember(m, x);
        }
      }
    }
  }

  lemma DropFirstFourMember(m: int, x: int)
    requires m >= 11 && |PrimesBelow(m)| >= 4 && PrimesBelow(m)[..4] == [2, 3, 5, 7]
    ensures x in PrimesBelow(m)[4..] <==> IsPrime(x) && 11 <= x < m
  {
    var s := PrimesBelow(m);
    assert s[3] == 7 by {
      assert s[..4][3] == 7;
    }
    if x in s[4..] {
      PrimesBelowSound(m);
      TailAbove(s, 3, x);
      PrimeAboveSeven(x);
    }
    if IsPrime(x) && 11 <= x < m {
      PrimesBelowComplete(m, x);
      var i :| 0 <= i < |s| && s[i] == x;
      assert i >= 4 by {
        assert s[..4][0] == 2 && s[..4][1] == 3 && s[..4][2] == 5 && s[..4][3] == 7;
        assert s[0] == 2 && s[1] == 3 && s[2] == 5 && s[3] == 7;
      }
      assert s[4..][i - 4] == x;
    }
  }

  /** In a strictly increasing list, what follows index k exceeds s[k]. */
  lemma TailAbove(s: seq<int>, k: int, x: int)
    requires StrictlySorted(s) && 0 <= k < |s| && x in s[k + 1..]
    ensures x > s[k]
  {
    var i :| k + 1 <= i < |s| && s[i] == x;
  }

  lemma PrimeAboveSeven(x: int)
    ensures IsPrime(x) && x > 7 ==> x >= 11
  {
    if x == 8 || x == 10 {
      assert x % 2 == 0;
    } else if x == 9 {
      assert x % 3 == 0;
    }
  }

  /** The primes below a lead the primes below any larger b. */
  lemma {:induction false} PrimesBelowExtends(a: int, b: int)
    requires a <= b
    ensures |PrimesBelow(a)| <= |PrimesBelow(b)|
    ensures PrimesBelow(b)[..|PrimesBelow(a)|] == PrimesBelow(a)
    decreases b - a
  {
    if a < b {
      PrimesBelowExtends(a, b - 1);
      if b > 2 {
        assert PrimesBelow(b)[..|PrimesBelow(b - 1)|] == PrimesBelow(b - 1);
      }
    }
  }

  lemma PrimesBelowEleven()
    ensures PrimesBelow(11) == [2, 3, 5, 7]
  {
    PrimeByOddTrial(3, 1);
    PrimeByOddTrial(5, 1);
    PrimeByOddTrial(7, 1);
    assert !IsPrime(4) && !IsPrime(6) && !IsPrime(8) && !IsPrime(10) by {
      assert 4 % 2 == 0 && 6 % 2 == 0 && 8 % 2 == 0 && 10 % 2 == 0;
    }
    assert !IsPrime(9) by {
      assert 9 % 3 == 0;
    }
    assert PrimesBelow(5) == [2, 3];
    assert PrimesBelow(8) == [2, 3, 5, 7];
  }

  /** The search shared by `truncatable_primes` and its corrected form:
      the truncatable primes in `prime_num(bound)[4:]`, ascending, with
      their sum. */
  method CollectTruncatable(bound: int) returns (total: int, found: seq<int>)
    requires 0 <= bound <= TrialLimit
    ensures StrictlySorted(found)
    ensures forall x :: x in found <==> 11 <= x < bound && IsPrime(x) && Truncatable(x)
    ensures total == Sum(found)
  {
    var primes := PrimeNum(bound);
    var candidates := DropFirst(primes, 4);
    DropFirstFour(bound);
    var result: seq<int> := [];
    var i := 0;
    while i < |candidates|
      invariant 0 <= i <= |candidates|
      invariant Distinct(result)
      invariant forall x :: x in result <==> x in candidates[..i] && Truncatable(x)
    {
      var p := candidates[i];
      assert p in candidates;
      var ok := AllCutsPrime(p);
      if ok {
        result := SetAdd(result, p);
      }
      assert candidates[..i + 1] == candidates[..i] + [p];
      i := i + 1;
    }
    assert candidates[..i] == candidates;
    SortDistinct(result);
    found := Sort(result);
    total := Sum(found);
  }

  /** `truncatable_primes(n)` as written: it clamps n to 739397 and then
      searches below it, so 739397 itself is never found. */
  method TruncatablePrimes(n: int) returns (total: int, found: seq<int>)
    requires n >= 0
    ensures StrictlySorted(found)
    ensures forall x :: x in found <==>
      11 <= x < (if n > TruncatableCap then TruncatableCap else n) && IsPrime(x) && Truncatable(x)
    ensures total == Sum(found)
    ensures TruncatableCap !in found
  {
    var bound := n;
    if bound > TruncatableCap {
      bound := TruncatableCap;
    }
    total, found := CollectTruncatable(bound);
  }

  /** The evident intent: the clamp keeps 739397 in range, so every
      truncatable prime below n and at most 739397 is found. */
  method TruncatablePrimesIntended(n: int) returns (total: int, found: seq<int>)
    requires n >= 0
    ensures StrictlySorted(found)
    ensures forall x :: x in found <==>
      11 <= x < (if n > TruncatableCap then TruncatableCap + 1 else n) && IsPrime(x) && Truncatable(x)
    ensures total == Sum(found)
    ensures n > TruncatableCap ==> TruncatableCap in found
  {
    var bound := n;
    if bound > TruncatableCap {
      bound := TruncatableCap + 1;
    }
    total, found := CollectTruncatable(bound);
    TruncatableCapTruncatable();
  }

  /** 739397 is a prime that stays prime under every truncation:
      73939, 7393, 739, 73, 7 and 39397, 9397, 397, 97, 7. */
  lemma TruncatableCapTruncatable()
    ensures IsPrime(TruncatableCap) && Truncatable(TruncatableCap)
  {
    CapTruncationsPrime();
    CapDigits();
    var ds := Digits(739397);
    forall left | 1 <= left < |ds|
      ensures CutsPrime(ds, left)
    {
      if left == 1 {
        assert ds[..5] == [7, 3, 9, 3, 9] && ds[1..] == [3, 9, 3, 9, 7];
      } else if left == 2 {
        assert ds[..4] == [7, 3, 9, 3] && ds[2..] == [9, 3, 9, 7];
      } else if left == 3 {
        assert ds[..3] == [7, 3, 9] && ds[3..] == [3, 9, 7];
      } else if left == 4 {
        assert ds[..2] == [7, 3] && ds[4..] == [9, 7];
      } else {
        assert ds[..1] == [7] && ds[5..] == [7];
      }
    }
  }

  /** The digits of 739397, and the numbers that its truncations spell. */
  lemma CapDigits()
    ensures Digits(739397) == [7, 3, 9, 3, 9, 7]
    ensures FromDigits([7]) == 7 && FromDigits([7, 3]) == 73 && FromDigits([7, 3, 9]) == 739
    ensures FromDigits([7, 3, 9, 3]) == 7393 && FromDigits([7, 3, 9, 3, 9]) == 73939
    ensures FromDigits([9, 7]) == 97 && FromDigits([3, 9, 7]) == 397
    ensures FromDigits([9, 3, 9, 7]) == 9397 && FromDigits([3, 9, 3, 9, 7]) == 39397
  {
    SpellsPrefixes();
    SpellsSuffixes();
    DigitsOfFromDigits([7, 3, 9, 3, 9, 7]);
  }

  lemma SpellsPrefixes()
    ensures FromDigits([7]) == 7 && FromDigits([7, 3]) == 73 && FromDigits([7, 3, 9]) == 739
    ensures FromDigits([7, 3, 9, 3]) == 7393 && FromDigits([7, 3, 9, 3, 9]) == 73939
    ensures FromDigits([7, 3, 9, 3, 9, 7]) == 739397
  {
    FromDigitsOne(7);
    FromDigitsTwo(7, 3);
    FromDigitsThree(7, 3, 9);
    FromDigitsFour(7, 3, 9, 3);
    FromDigitsFive(7, 3, 9, 3, 9);
    FromDigitsSix(7, 3, 9, 3, 9, 7);
  }

  lemma SpellsSuffixes()
    ensures FromDigits([9, 7]) == 97 && FromDigits([3, 9, 7]) == 397
    ensures FromDigits([9, 3, 9, 7]) == 9397 && FromDigits([3, 9, 3, 9, 7]) == 39397
  {
    FromDigitsTwo(9, 7);
    FromDigitsThree(3, 9, 7);
    FromDigitsFour(9, 3, 9, 7);
    FromDigitsFive(3, 9, 3, 9, 7);
  }

  // ---------------------------------------------------------------------
  // circular_primes

  /** `all(d not in str(p) for d in "2468")` on the digits of p. */
  predicate NoEvenDigit(ds: seq<int>)
  {
    forall i :: 0 <= i < |ds| ==> ds[i] != 2 && ds[i] != 4 && ds[i] != 6 && ds[i] != 8
  }

  /** `int(s[k:] + s[:k])`: the number that the k-th left rotation of the
      digit string spells (a leading zero is dropped). */
  function Rotation(ds: seq<int>, k: int): int
    requires 0 <= k <= |ds|
  {
    FromDigits(ds[k..] + ds[..k])
  }

  /** The rotations 1..k of ds all pass the primality test. */
  predicate RotationsPass(ds: seq<int>, k: int, witnesses: seq<int>)
  {
    forall j :: 1 <= j <= k && j < |ds| ==> ProbablyPrime(Rotation(ds, j), witnesses)
  }

  /** What testing the prime p adds to the result of `circular_primes`:
      p itself, and every rotation reached before the first one that
      fails the test, provided p has no even digit. */
  predicate Contributes(p: int, y: int, witnesses: seq<int>)
  {
    var ds := Digits(p);
    NoEvenDigit(ds) &&
    (y == p || exists j :: 1 <= j < |ds| && RotationsPass(ds, j, witnesses) && y == Rotation(ds, j))
  }

  /** The random draws of every Miller-Rabin test in the search, fixed:
      five witnesses that are valid for any number from 10^6 on. */
  predicate SearchWitnesses(witnesses: seq<int>)
  {
    |witnesses| == 5 && forall i :: 0 <= i < |witnesses| ==> 2 <= witnesses[i] <= TrialLimit - 2
  }

  /** The set of `circular_primes` after the rotations 1..num-1 of p have
      been tested and passed: p and those rotations. */
  ghost predicate Collected(result: seq<int>, p: int, num: int, witnesses: seq<int>)
  {
    var ds := Digits(p);
    forall y :: y in result <==>
      y == p || exists j :: 1 <= j < num && j < |ds| && RotationsPass(ds, j, witnesses) && y == Rotation(ds, j)
  }

  lemma RotationsStart(p: int, witnesses: seq<int>)
    ensures Collected([p], p, 1, witnesses)
  {
  }

  lemma RotationsStep(result: seq<int>, p: int, num: int, witnesses: seq<int>)
    requires 1 <= num < |Digits(p)| && Collected(result, p, num, witnesses)
    requires RotationsPass(Digits(p), num, witnesses)
    ensures Collected(SetAdd(result, Rotation(Digits(p), num)), p, num + 1, witnesses)
  {
    var ds := Digits(p);
    var r := SetAdd(result, Rotation(ds, num));
    forall y
      ensures y in r <==>
        y == p || exists j :: 1 <= j < num + 1 && j < |ds| && RotationsPass(ds, j, witnesses) && y == Rotation(ds, j)
    {
      if y == Rotation(ds, num) {
        assert 1 <= num < num + 1 && num < |ds| && RotationsPass(ds, num, witnesses);
      }
    }
  }

  /** Once the rotations run out, or one fails, the set holds exactly the
      numbers p contributes. */
  lemma RotationsEnd(result: seq<int>, p: int, num: int, witnesses: seq<int>)
    requires num >= |Digits(p)| && Collected(result, p, num, witnesses)
    ensures NoEvenDigit(Digits(p)) ==> forall y :: y in result <==> Contributes(p, y, witnesses)
  {
  }

  lemma RotationsFail(result: seq<int>, p: int, num: int, witnesses: seq<int>)
    requires 1 <= num < |Digits(p)| && Collected(result, p, num, witnesses)
    requires !ProbablyPrime(Rotation(Digits(p), num), witnesses)
    ensures NoEvenDigit(Digits(p)) ==> forall y :: y in result <==> Contributes(p, y, witnesses)
  {
    var ds := Digits(p);
    forall j | num <= j < |ds|
      ensures !RotationsPass(ds, j, witnesses)
    {
      assert !ProbablyPrime(Rotation(ds, num), witnesses);
    }
  }

  /** The inner loop of `circular_primes` for one prime p: the set started
      as `{prime}`, to which the rotations are added until one fails. */
  method CollectRotations(p: int, witnesses: seq<int>) returns (result: seq<int>)
    requires SearchWitnesses(witnesses)
    ensures Distinct(result)
    ensures NoEvenDigit(Digits(p)) ==> forall y :: y in result <==> Contributes(p, y, witnesses)
  {
    var ds := Digits(p);
    result := [p];
    RotationsStart(p, witnesses);
    var num := 1;
    while num < |ds|
      invariant 1 <= num
      invariant Distinct(result)
      invariant RotationsPass(ds, num - 1, witnesses)
      invariant Collected(result, p, num, witnesses)
    {
      var numb := FromDigits(ds[num..] + ds[..num]);
      var prime := IsPrimeTest(numb, witnesses);
      if !prime {
        RotationsFail(result, p, num, witnesses);
        return;
      }
      assert RotationsPass(ds, num, witnesses);
      RotationsStep(result, p, num, witnesses);
      result := SetAdd(result, numb);
      num := num + 1;
    }
    RotationsEnd(result, p, num, witnesses);
  }

  /** `circular_primes(max_num)` as written: every prime below max_num with
      no even digit is reported together with the rotations tested before
      the first failure, even when that failure shows that it is not a
      circular prime. */
  method CircularPrimes(maxNum: int, witnesses: seq<int>) returns (r: seq<int>)
    requires maxNum >= 0 && SearchWitnesses(witnesses)
    ensures StrictlySorted(r)
    ensures forall y :: y in r <==> exists p :: p in PrimeList(maxNum) && Contributes(p, y, witnesses)
  {
    var primes := PrimeNum(maxNum);
    var finalResult: seq<int> := [];
    var i := 0;
    while i < |primes|
      invariant 0 <= i <= |primes|
      invariant Distinct(finalResult)
      invariant forall y :: y in finalResult <==> exists p :: p in primes[..i] && Contributes(p, y, witnesses)
    {
      var p := primes[i];
      assert primes[..i + 1] == primes[..i] + [p];
      if NoEvenDigit(Digits(p)) {
        var result := CollectRotations(p, witnesses);
        finalResult := SetUnion(finalResult, result);
      }
      i := i + 1;
    }
    assert primes[..i] == primes;
    SortDistinct(finalResult);
    r := Sort(finalResult);
  }

  /** Every rotation of p passes the test. */
  predicate AllRotationsPass(p: int, witnesses: seq<int>)
  {
    RotationsPass(Digits(p), |Digits(p)| - 1, witnesses)
  }

  /** The loop of the intended `circular_primes` for one prime: a for/else
      that reports p only when no rotation fails. */
  method RotationsAllPrime(p: int, witnesses: seq<int>) returns (ok: bool)
    requires SearchWitnesses(witnesses)
    ensures ok <==> AllRotationsPass(p, witnesses)
  {
    var ds := Digits(p);
    var num := 1;
    while num < |ds|
      invariant 1 <= num
      invariant RotationsPass(ds, num - 1, witnesses)
    {
      var prime := IsPrimeTest(FromDigits(ds[num..] + ds[..num]), witnesses);
      if !prime {
        assert !ProbablyPrime(Rotation(ds, num), witnesses);
        return false;
      }
      num := num + 1;
    }
    return true;
  }

  /** The evident intent: report exactly the primes below max_num (with
      no even digit) all of whose rotations are prime. */
  method CircularPrimesIntended(maxNum: int, witnesses: seq<int>) returns (r: seq<int>)
    requires maxNum >= 0 && SearchWitnesses(witnesses)
    ensures StrictlySorted(r)
    ensures forall y :: y in r <==>
      y in PrimeList(maxNum) && NoEvenDigit(Digits(y)) && AllRotationsPass(y, witnesses)
  {
    var primes := PrimeNum(maxNum);
    var finalResult: seq<int> := [];
    var i := 0;
    while i < |primes|
      invariant 0 <= i <= |primes|
      invariant Distinct(finalResult)
      invariant forall y :: y in finalResult <==>
        y in primes[..i] && NoEvenDigit(Digits(y)) && AllRotationsPass(y, witnesses)
    {
      var p := primes[i];
      assert primes[..i + 1] == primes[..i] + [p];
      if NoEvenDigit(Digits(p)) {
        var ok := RotationsAllPrime(p, witnesses);
        if ok {
          finalResult := SetAdd(finalResult, p);
        }
      }
      i := i + 1;
    }
    assert primes[..i] == primes;
    SortDistinct(finalResult);
    r := Sort(finalResult);
  }

  /** 19 is reported by `circular_primes(20)` although its rotation
      91 = 7 * 13 is not prime; the intended search leaves it out. */
  lemma NineteenNotCircular(witnesses: seq<int>)
    ensures 19 in PrimeList(20) && Contributes(19, 19, witnesses)
    ensures Rotation(Digits(19), 1) == 91 && !IsPrime(91)
    ensures !AllRotationsPass(19, witnesses)
  {
    NineteenListed(witnesses);
    NineteenRotation();
    NinetyOneFails(witnesses);
    assert !RotationsPass(Digits(19), 1, witnesses);
  }

  lemma NineteenListed(witnesses: seq<int>)
    ensures 19 in PrimeList(20) && Contributes(19, 19, witnesses)
  {
    PrimeByOddTrial(19, 3);
    PrimesBelowComplete(20, 19);
    NineteenDigits();
  }

  lemma NineteenRotation()
    ensures |Digits(19)| == 2 && Rotation(Digits(19), 1) == 91
  {
    NineteenDigits();
    var ds := Digits(19);
    assert ds[1..] + ds[..1] == [9, 1];
  }

  lemma NinetyOneFails(witnesses: seq<int>)
    ensures !IsPrime(91) && !ProbablyPrime(91, witnesses)
  {
    DivisorNotPrime(91, 7);
  }

  lemma NineteenDigits()
    ensures Digits(19) == [1, 9] && FromDigits([9, 1]) == 91
  {
    FromDigitsTwo(1, 9);
    DigitsOfFromDigits([1, 9]);
    FromDigitsTwo(9, 1);
  }
}
