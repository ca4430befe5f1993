/** Primality and divisibility facts that the prime routines rely on:
    the definition of a prime, least divisors, and Euclid's lemma. */
module NumberTheory {
  import opened Arith

  /** n is prime: at least 2, and no number in 2..n-1 divides it. */
  predicate IsPrime(n: int)
  {
    n >= 2 && forall d :: 2 <= d < n ==> n % d != 0
  }

  /** The least divisor of n that is at least d. */
  function LeastDivisorFrom(n: int, d: int): (r: int)
    requires 2 <= d <= n
    ensures d <= r <= n && n % r == 0
    ensures forall k :: d <= k < r ==> n % k != 0
    decreases n - d
  {
    if n % d == 0 then d else LeastDivisorFrom(n, d + 1)
  }

  /** Divisibility is transitive (stated as an implication so that it can
      be used without a case split). */
  lemma DividesTrans(a: int, b: int, c: int)
    requires b > 0 && c > 0
    ensures a % b == 0 && b % c == 0 ==> a % c == 0
  {
    if a % b == 0 && b % c == 0 {
      var x, y := a / b, b / c;
      assert a == b * x;
      assert b == c * y;
      assert a == c * (y * x);
      ModUnique(a, y * x, 0, c);
    }
  }

  /** Every multiple of d is divisible by d. */
  lemma MultipleMod(d: int, k: int)
    requires d > 0
    ensures (d * k) % d == 0
  {
    ModUnique(d * k, k, 0, d);
  }

  /** The least divisor of n above 1 is prime. */
  lemma LeastDivisorIsPrime(n: int)
    requires n >= 2
    ensures IsPrime(LeastDivisorFrom(n, 2))
  {
    var r := LeastDivisorFrom(n, 2);
    forall k | 2 <= k < r
      ensures r % k != 0
    {
      DividesTrans(n, r, k);
    }
  }

  /** A number that is not prime has its least divisor at or below its
      square root. */
  lemma CompositeLeastDivisor(n: int)
    requires n >= 2 && !IsPrime(n)
    ensures LeastDivisorFrom(n, 2) < n
    ensures LeastDivisorFrom(n, 2) * LeastDivisorFrom(n, 2) <= n
    ensures n % (n / LeastDivisorFrom(n, 2)) == 0
    ensures LeastDivisorFrom(n, 2) <= n / LeastDivisorFrom(n, 2)
  {
    var r := LeastDivisorFrom(n, 2);
    assert r < n by {
      var d :| 2 <= d < n && n % d == 0;
    }
    var m := n / r;
    assert n == r * m;
    assert m >= 2 by {
      assert m <= 1 ==> n <= r * 1;
    }
    assert n % m == 0 by {
      ModUnique(n, r, 0, m);
    }
    assert r <= m;
    assert r * r <= n by {
      MulLeft(r, r, m);
    }
  }

  /** Euclid's lemma: a prime dividing a product divides a factor. */
  lemma Euclid(p: int, a: int, b: int)
    requires IsPrime(p) && a >= 0 && (a * b) % p == 0
    ensures a % p == 0 || b % p == 0
    decreases a
  {
    if a % p != 0 {
      if a >= p {
        ReduceFactor(p, a, b);
        Euclid(p, a % p, b);
        assert (a % p) % p == a % p by {
          ModUnique(a % p, 0, a % p, p);
        }
      } else if a >= 2 {
        SwapFactor(p, a, b);
        Euclid(p, p % a, b);
        assert (p % a) % p == p % a by {
          ModUnique(p % a, 0, p % a, p);
        }
      }
    }
  }

  /** Replacing a by a % p keeps p dividing the product. */
  lemma ReduceFactor(p: int, a: int, b: int)
    requires p > 0 && (a * b) % p == 0
    ensures ((a % p) * b) % p == 0
  {
    assert a * b == ((a / p) * b) * p + (a % p) * b;
    ModAddMultiple((a % p) * b, (a / p) * b, p);
  }

  /** For 0 < a < p with p dividing a * b, p also divides (p % a) * b. */
  lemma SwapFactor(p: int, a: int, b: int)
    requires 0 < a < p && (a * b) % p == 0
    ensures ((p % a) * b) % p == 0
  {
    var q, r := p / a, p % a;
    var t := (a * b) / p;
    assert a * b == t * p;
    assert r * b == (b - q * t) * p by {
      assert p == q * a + r;
      assert r * b == p * b - q * (a * b);
    }
    MultipleMod(p, b - q * t);
    assert p * (b - q * t) == (b - q * t) * p;
  }

  /** A number with a divisor strictly between 1 and itself is not prime. */
  lemma DivisorNotPrime(n: int, d: int)
    requires 2 <= d < n && n % d == 0
    ensures !IsPrime(n)
  {
  }

  /** An even number above 2 is not prime. */
  lemma EvenNotPrime(n: int)
    requires n >= 4 && n % 2 == 0
    ensures !IsPrime(n)
  {
    assert n % 2 == 0;
  }

  /** A number with no divisor in 2..c-1, where c * c exceeds it, is prime. */
  lemma NoSmallDivisorPrime(n: int, c: int)
    requires n >= 2 && c >= 2 && c * c > n
    requires forall d :: 2 <= d < c ==> n % d != 0
    ensures IsPrime(n)
  {
    forall d | 2 <= d < n
      ensures n % d != 0
    {
      if d >= c {
        Cofactor(n, d, c);
      }
    }
  }

  /** If d divides n and c <= d with c * c > n, the cofactor n / d lies in
      2..c-1 and also divides n. */
  lemma Cofactor(n: int, d: int, c: int)
    requires 2 <= c <= d < n && c * c > n
    ensures n % d == 0 ==> 2 <= n / d < c && n % (n / d) == 0
  {
    if n % d == 0 {
      var e := n / d;
      assert n == d * e;
      assert e >= 2 by {
        assert e <= 1 ==> n <= d * 1;
      }
      assert e < c by {
        assert e >= c ==> d * e >= c * c by {
          if e >= c {
            MulLeft(d, c, e);
            MulLeft(c, c, d);
          }
        }
      }
      ModUnique(n, d, 0, e);
    }
  }

  /** Two primes that divide one another are equal. */
  lemma PrimeDividesPrime(p: int, q: int)
    requires IsPrime(p) && IsPrime(q)
    ensures q % p == 0 ==> p == q
  {
    if p > q {
      ModUnique(q, 0, q, p);
    }
  }

  /** No odd number k in 3..d with k of the same parity as d divides n:
      trial division by odd candidates, which the verifier can evaluate on
      constants. */
  function NoOddDivisorUpTo(n: int, d: int): bool
    decreases d
  {
    d < 3 || (n % d != 0 && NoOddDivisorUpTo(n, d - 2))
  }

  lemma {:induction false} NoOddDivisorUpToMeans(n: int, d: int)
    requires NoOddDivisorUpTo(n, d)
    ensures forall k :: 3 <= k <= d && k % 2 == d % 2 ==> n % k != 0
    decreases d
  {
    if d >= 3 {
      NoOddDivisorUpToMeans(n, d - 2);
    }
  }

  /** A primality certificate for an odd n: no odd divisor up to the odd
      bound c, where c + 2 squared exceeds n. */
  lemma PrimeByOddTrial(n: int, c: int)
    requires n >= 3 && n % 2 == 1 && c >= 1 && c % 2 == 1
    requires (c + 2) * (c + 2) > n && NoOddDivisorUpTo(n, c)
    ensures IsPrime(n)
  {
    NoOddDivisorUpToMeans(n, c);
    forall d | 2 <= d < c + 2
      ensures n % d != 0
    {
      if d % 2 == 0 {
        DividesTrans(n, d, 2);
      }
    }
    NoSmallDivisorPrime(n, c + 2);
  }
  // Divisibility of prime powers, for least common multiples.

  /** d divides n. */
  predicate Divides(d: int, n: int)
  {
    d != 0 && n % d == 0
  }

  /** A divisor of a divides every multiple a * b. */
  lemma DividesProduct(a: int, b: int, d: int)
    requires d > 0 && a % d == 0
    ensures (a * b) % d == 0
  {
    var q := a / d;
    assert a == d * q;
    assert a * b == d * (q * b);
    MultipleMod(d, q * b);
  }

  /** p^a divides p^e when a <= e. */
  lemma PowDividesPow(p: int, a: nat, e: nat)
    requires p >= 1 && a <= e
    ensures Pow(p, a) >= 1 && Divides(Pow(p, a), Pow(p, e))
  {
    PowPositive(p, a);
    PowAdd(p, a, e - a);
    MultipleMod(Pow(p, a), Pow(p, e - a));
  }

  /** Cancelling a common positive factor p from p * y | p * z. */
  lemma CancelFactor(p: int, y: int, z: int)
    requires p > 0 && y > 0 && (p * z) % (p * y) == 0
    ensures z % y == 0
  {
    var q, r := z / y, z % y;
    assert z == y * q + r;
    assert p * z == q * (p * y) + p * r;
    MulLeft(p, r + 1, y);
    MulLeft(p, 0, r);
    ModUnique(p * z, q, p * r, p * y);
    if r > 0 {
      MulLeft(p, 1, r);
    }
  }

  /** If p^a divides x * c and the prime p does not divide x, then p^a
      divides c. */
  lemma {:induction false} PrimePowerDividesCofactor(p: int, a: nat, x: int, c: int)
    requires IsPrime(p) && x >= 1 && x % p != 0 && c >= 0
    requires Divides(Pow(p, a), x * c)
    ensures Divides(Pow(p, a), c)
    decreases a
  {
    PowPositive(p, a);
    if a > 0 {
      var q := Pow(p, a - 1);
      PowPositive(p, a - 1);
      var c' := PeelPrime(p, q, x, c);
      PrimePowerDividesCofactor(p, a - 1, x, c');
      var d := c' / q;
      assert c' == q * d;
      assert c == p * (q * d);
      assert p * (q * d) == (p * q) * d;
      MultipleMod(Pow(p, a), d);
    }
  }

  /** One factor p of p * q | x * c, with p prime not dividing x, comes
      out of c. */
  lemma PeelPrime(p: int, q: int, x: int, c: int) returns (c': int)
    requires IsPrime(p) && q >= 1 && x >= 1 && x % p != 0 && c >= 0
    requires Divides(p * q, x * c)
    ensures c' >= 0 && c == p * c' && Divides(q, x * c')
  {
    MultipleMod(p, q);
    DividesTrans(x * c, p * q, p);
    Euclid(p, x, c);
    c' := c / p;
    assert c == p * c';
    assert x * c == p * (x * c');
    CancelFactor(p, q, x * c');
  }

  /** p^a and x, with the prime p not dividing x, both divide m: so does
      their product. */
  lemma CoprimeProductDivides(p: int, a: nat, x: int, m: int)
    requires IsPrime(p) && x >= 1 && x % p != 0 && m >= 0
    requires Divides(x, m) && Divides(Pow(p, a), m)
    ensures Divides(Pow(p, a) * x, m) && Divides(x * Pow(p, a), m)
  {
    PowPositive(p, a);
    var c := m / x;
    assert m == x * c;
    assert c >= 0;
    PrimePowerDividesCofactor(p, a, x, c);
    var d := c / Pow(p, a);
    assert c == Pow(p, a) * d;
    assert m == (Pow(p, a) * x) * d;
    MultipleMod(Pow(p, a) * x, d);
  }

  /** A prime does not divide a power of another prime. */
  lemma {:induction false} PrimeNotDividingPower(p: int, q: int, e: nat)
    requires IsPrime(p) && IsPrime(q) && p != q
    ensures Pow(q, e) % p != 0
  {
    if e == 0 {
      ModUnique(1, 0, 1, p);
    } else {
      PrimeNotDividingPower(p, q, e - 1);
      PowPositive(q, e - 1);
      if Pow(q, e) % p == 0 {
        Euclid(p, q, Pow(q, e - 1));
        PrimeDividesPrime(p, q);
      }
    }
  }

  /** k = p^a * m with p not dividing m, and a >= 1 when p divides k. */
  lemma {:induction false} ExtractPower(p: int, k: int) returns (a: nat, m: int)
    requires p >= 2 && k >= 1
    ensures m >= 1 && m % p != 0 && k == Pow(p, a) * m
    ensures k % p == 0 ==> a >= 1
    decreases k
  {
    if k % p != 0 {
      a, m := 0, k;
    } else {
      var k' := k / p;
      assert k == p * k';
      assert k' >= 1;
      MulLeft(k', 2, p);
      var a', m' := ExtractPower(p, k');
      a, m := a' + 1, m';
      assert p * (Pow(p, a') * m') == (p * Pow(p, a')) * m';
    }
  }
}
