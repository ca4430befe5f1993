/** Fermat's little theorem and the square roots of 1 modulo a prime: the
    facts that make a Miller-Rabin round accept every prime. Fermat's
    theorem is proved from the binomial expansion of (a + 1)^p, whose
    middle coefficients a prime p divides. */
module Fermat {
  import opened Arith
  import opened NumberTheory

  /** The binomial coefficient, by Pascal's rule. */
  function Binom(n: nat, k: nat): nat
    decreases n
  {
    if k == 0 then 1
    else if n == 0 then 0
    else Binom(n - 1, k - 1) + Binom(n - 1, k)
  }

  lemma {:induction false} BinomAbove(n: nat, k: nat)
    requires k > n
    ensures Binom(n, k) == 0
    decreases n
  {
    if n > 0 {
      BinomAbove(n - 1, k - 1);
      BinomAbove(n - 1, k);
    }
  }

  lemma {:induction false} BinomDiagonal(n: nat)
    ensures Binom(n, n) == 1
    decreases n
  {
    if n > 0 {
      BinomDiagonal(n - 1);
      BinomAbove(n - 1, n);
    }
  }

  /** Absorption: k * C(n, k) == n * C(n - 1, k - 1). */
  lemma {:induction false} Absorption(n: nat, k: nat)
    requires n >= 1 && k >= 1
    ensures k * Binom(n, k) == n * Binom(n - 1, k - 1)
    decreases n
  {
    if n == 1 {
      if k >= 2 {
        BinomAbove(0, k - 1);
        BinomAbove(0, k);
      }
    } else {
      var c := Binom(n - 1, k - 1);
      var e := Binom(n - 1, k);
      assert Binom(n, k) == c + e;
      Absorption(n - 1, k);
      assert k * e == (n - 1) * Binom(n - 2, k - 1);
      if k == 1 {
        assert c == 1 && Binom(n - 2, 0) == 1;
      } else {
        Absorption(n - 1, k - 1);
        assert (k - 1) * c == (n - 1) * Binom(n - 2, k - 2);
        assert c == Binom(n - 2, k - 2) + Binom(n - 2, k - 1);
        AbsorptionStep(n, k, c, e, Binom(n - 2, k - 2), Binom(n - 2, k - 1));
      }
    }
  }

  lemma AbsorptionStep(n: int, k: int, c: int, e: int, u: int, v: int)
    requires k * e == (n - 1) * v && (k - 1) * c == (n - 1) * u && c == u + v
    ensures k * (c + e) == n * c
  {
    assert k * (c + e) == c + (k - 1) * c + k * e;
    assert (n - 1) * u + (n - 1) * v == (n - 1) * c;
  }

  /** A prime p divides every C(p, k) with 0 < k < p. */
  lemma BinomPrime(p: int, k: int)
    requires IsPrime(p) && 0 < k < p
    ensures Binom(p, k) % p == 0
  {
    Absorption(p, k);
    MultipleMod(p, Binom(p - 1, k - 1));
    Euclid(p, k, Binom(p, k));
    ModUnique(k, 0, k, p);
  }

  /** The first k terms of the binomial expansion of (a + 1)^n. */
  function BinomSum(n: nat, a: int, k: nat): int
  {
    if k == 0 then 0 else BinomSum(n, a, k - 1) + Binom(n, k - 1) * Pow(a, k - 1)
  }

  /** Pascal's rule carried through the partial sums. */
  lemma {:induction false} BinomSumStep(n: nat, a: int, k: nat)
    ensures BinomSum(n + 1, a, k + 1) == BinomSum(n, a, k + 1) + a * BinomSum(n, a, k)
    decreases k
  {
    if k > 0 {
      BinomSumStep(n, a, k - 1);
      var t := Pow(a, k - 1);
      assert Pow(a, k) == a * t;
      assert Binom(n + 1, k) == Binom(n, k - 1) + Binom(n, k);
      SumStepAlgebra(BinomSum(n, a, k), BinomSum(n, a, k - 1), Binom(n, k - 1), Binom(n, k), a, t);
    }
  }

  lemma SumStepAlgebra(sk: int, sk1: int, b1: int, b: int, a: int, t: int)
    ensures sk + a * sk1 + (b1 + b) * (a * t) == (sk + b * (a * t)) + a * (sk1 + b1 * t)
  {
  }

  /** Terms beyond the n-th add nothing. */
  lemma {:induction false} BinomSumFull(n: nat, a: int, k: nat)
    requires k > n
    ensures BinomSum(n, a, k) == BinomSum(n, a, n + 1)
    decreases k
  {
    if k > n + 1 {
      BinomSumFull(n, a, k - 1);
      BinomAbove(n, k - 1);
      ZeroTerm(Binom(n, k - 1), Pow(a, k - 1));
    }
  }

  lemma ZeroTerm(b: int, t: int)
    requires b == 0
    ensures b * t == 0
  {
  }

  /** The binomial theorem for (a + 1)^n. */
  lemma {:induction false} BinomialTheorem(n: nat, a: int)
    ensures Pow(a + 1, n) == BinomSum(n, a, n + 1)
    decreases n
  {
    if n > 0 {
      var x := BinomSum(n - 1, a, n);
      BinomialTheorem(n - 1, a);
      assert Pow(a + 1, n) == (a + 1) * Pow(a + 1, n - 1);
      BinomSumStep(n - 1, a, n);
      BinomSumFull(n - 1, a, n + 1);
      assert BinomSum(n, a, n + 1) == x + a * x;
      PullFactor(x, a);
    }
  }

  lemma PullFactor(x: int, a: int)
    ensures x + a * x == (a + 1) * x
  {
  }

  /** Up to the last term, the expansion for a prime p is 1 modulo p. */
  lemma {:induction false} BinomSumPrime(p: int, a: int, k: nat)
    requires IsPrime(p) && 1 <= k <= p
    ensures BinomSum(p, a, k) % p == 1
    decreases k
  {
    if k == 1 {
      assert BinomSum(p, a, 1) == 1;
      ModUnique(1, 0, 1, p);
    } else {
      BinomSumPrime(p, a, k - 1);
      var c := BinomQuotient(p, k - 1);
      BinomSumTermVanishes(p, a, k, c);
    }
  }

  /** C(p, k) is a multiple of the prime p for 0 < k < p. */
  lemma BinomQuotient(p: int, k: int) returns (c: int)
    requires IsPrime(p) && 0 < k < p
    ensures Binom(p, k) == c * p
  {
    BinomPrime(p, k);
    c := Binom(p, k) / p;
  }

  /** A term that is a multiple of p leaves the partial sum's residue alone. */
  lemma BinomSumTermVanishes(p: int, a: int, k: nat, c: int)
    requires p > 0 && k >= 1 && Binom(p, k - 1) == c * p
    ensures BinomSum(p, a, k) % p == BinomSum(p, a, k - 1) % p
  {
    MultipleTermVanishes(BinomSum(p, a, k - 1), Binom(p, k - 1), Pow(a, k - 1), c, p);
  }

  lemma MultipleTermVanishes(x: int, b: int, t: int, c: int, p: int)
    requires p > 0 && b == c * p
    ensures (x + b * t) % p == x % p
  {
    assert b * t == (c * t) * p;
    ModAddMultiple(x, c * t, p);
  }

  /** The freshman's dream: (a + 1)^p and a^p + 1 agree modulo a prime p. */
  lemma FreshmansDream(p: int, a: int)
    requires IsPrime(p)
    ensures Pow(a + 1, p) % p == (Pow(a, p) + 1) % p
  {
    BinomialTheorem(p, a);
    BinomDiagonal(p);
    BinomSumPrime(p, a, p);
    var b := BinomSum(p, a, p);
    assert Pow(a + 1, p) == b + Pow(a, p);
    AddMod(b, Pow(a, p), p);
    AddMod(1, Pow(a, p), p);
    ModUnique(1, 0, 1, p);
  }

  /** Fermat's little theorem, first form: a^p and a agree modulo p. */
  lemma {:induction false} FermatPow(p: int, a: int)
    requires IsPrime(p) && a >= 0
    ensures Pow(a, p) % p == a % p
    decreases a
  {
    if a == 0 {
      ZeroPow(p);
    } else {
      FermatPow(p, a - 1);
      FreshmansDream(p, a - 1);
      AddMod(Pow(a - 1, p), 1, p);
      AddMod(a - 1, 1, p);
    }
  }

  lemma ZeroPow(e: nat)
    requires e >= 1
    ensures Pow(0, e) == 0
  {
  }

  /** Fermat's little theorem: a^(p-1) is 1 modulo p when p does not divide a. */
  lemma FermatLittle(p: int, a: int)
    requires IsPrime(p) && a >= 0 && a % p != 0
    ensures Pow(a, p - 1) % p == 1
  {
    FermatPow(p, a);
    var x := Pow(a, p - 1);
    assert Pow(a, p) == a * x;
    SameResidue(a * x, a, p);
    assert a * (x - 1) == a * x - a;
    Euclid(p, a, x - 1);
    var q := (x - 1) / p;
    assert x == q * p + 1;
    ModUnique(x, q, 1, p);
  }

  /** Equal residues differ by a multiple of m. */
  lemma SameResidue(x: int, y: int, m: int)
    requires m > 0 && x % m == y % m
    ensures (x - y) % m == 0
  {
    assert x - y == (x / m - y / m) * m;
    ModUnique(x - y, x / m - y / m, 0, m);
  }

  /** Modulo a prime, 1 has only the square roots 1 and p - 1. */
  lemma SquareRootsOfOne(p: int, x: int)
    requires IsPrime(p) && 0 <= x < p
    ensures (x * x) % p == 1 ==> x == 1 || x == p - 1
  {
    assert (0 * 0) % p == 0;
    if (x * x) % p == 1 {
      var q := (x * x) / p;
      assert x * x == q * p + 1;
      assert (x + 1) * (x - 1) == p * q;
      MultipleMod(p, q);
      Euclid(p, x + 1, x - 1);
      assert x >= 1;
      ModUnique(x - 1, 0, x - 1, p);
      if x + 1 < p {
        ModUnique(x + 1, 0, x + 1, p);
      }
    }
  }
}
