/** Exact integer arithmetic shared by the feature modules: powers,
    factorials, the integer square root that stands for `int(x ** 0.5)`,
    sums and products of sequences. */
module Arith {

  function Min(a: int, b: int): int
  {
    if a <= b then a else b
  }

  function Max(a: int, b: int): int
  {
    if a >= b then a else b
  }

  function Pow(b: int, e: nat): int
  {
    if e == 0 then 1 else b * Pow(b, e - 1)
  }

  lemma {:induction false} PowAdd(b: int, e1: nat, e2: nat)
    ensures Pow(b, e1 + e2) == Pow(b, e1) * Pow(b, e2)
  {
    if e1 > 0 {
      PowAdd(b, e1 - 1, e2);
      calc {
        Pow(b, e1 + e2);
        b * Pow(b, e1 - 1 + e2);
        b * (Pow(b, e1 - 1) * Pow(b, e2));
        (b * Pow(b, e1 - 1)) * Pow(b, e2);
      }
    }
  }

  lemma {:induction false} PowPositive(b: int, e: nat)
    requires b > 0
    ensures Pow(b, e) > 0
  {
    if e > 0 {
      PowPositive(b, e - 1);
    }
  }

  /** For a base of at least 2 the powers grow strictly. */
  lemma {:induction false} PowStrictlyIncreasing(b: int, e1: nat, e2: nat)
    requires b >= 2 && e1 < e2
    ensures 0 < Pow(b, e1) < Pow(b, e2)
  {
    PowPositive(b, e1);
    if e2 == e1 + 1 {
      assert Pow(b, e2) == b * Pow(b, e1);
    } else {
      PowStrictlyIncreasing(b, e1, e2 - 1);
      assert Pow(b, e2) == b * Pow(b, e2 - 1);
    }
  }

  lemma {:induction false} PowOfProduct(a: int, b: int, e: nat)
    ensures Pow(a * b, e) == Pow(a, e) * Pow(b, e)
  {
    if e > 0 {
      PowOfProduct(a, b, e - 1);
      Rearrange(a, b, Pow(a, e - 1), Pow(b, e - 1));
    }
  }

  lemma Rearrange(a: int, b: int, x: int, y: int)
    ensures (a * b) * (x * y) == (a * x) * (b * y)
  {
  }

  lemma {:induction false} PowOfPow(b: int, e1: nat, e2: nat)
    ensures Pow(Pow(b, e1), e2) == Pow(b, e1 * e2)
  {
    if e2 > 0 {
      PowOfPow(b, e1, e2 - 1);
      PowAdd(b, e1, e1 * (e2 - 1));
      assert e1 + e1 * (e2 - 1) == e1 * e2;
    }
  }

  lemma {:induction false} PowMod(b: int, e: nat, m: int)
    requires m > 0
    ensures Pow(b % m, e) % m == Pow(b, e) % m
  {
    if e > 0 {
      PowMod(b, e - 1, m);
      ModUnique(b % m, 0, b % m, m);
      MulCongruent(b % m, b, Pow(b % m, e - 1), Pow(b, e - 1), m);
    }
  }

  lemma MulCongruent(x: int, x': int, y: int, y': int, m: int)
    requires m > 0 && x % m == x' % m && y % m == y' % m
    ensures (x * y) % m == (x' * y') % m
  {
    MulMod(x, y, m);
    MulMod(x', y', m);
  }

  /** Reducing the factors before multiplying does not change the residue. */
  lemma MulMod(x: int, y: int, m: int)
    requires m > 0
    ensures (x * y) % m == ((x % m) * (y % m)) % m
  {
    var qx, rx := x / m, x % m;
    var qy, ry := y / m, y % m;
    assert x == qx * m + rx;
    assert y == qy * m + ry;
    assert x * y == (qx * qy * m + qx * ry + rx * qy) * m + rx * ry;
    ModAddMultiple(rx * ry, qx * qy * m + qx * ry + rx * qy, m);
  }

  lemma ModAddMultiple(r: int, k: int, m: int)
    requires m > 0
    ensures (k * m + r) % m == r % m
  {
    var q, s := r / m, r % m;
    assert k * m + r == (k + q) * m + s;
    ModUnique(k * m + r, k + q, s, m);
  }

  /** Quotient and remainder are determined by the division equation. */
  lemma ModUnique(x: int, a: int, s: int, m: int)
    requires m > 0 && 0 <= s < m && x == a * m + s
    ensures x % m == s && x / m == a
  {
    var q := x / m;
    assert x == q * m + x % m;
    assert (a - q) * m == x % m - s;
    assert a - q >= 1 ==> (a - q) * m >= 1 * m;
    assert a - q <= -1 ==> (q - a) * m >= 1 * m;
  }

  /** Python's `x % m` for m != 0: the remainder takes the sign of m (for
      a positive m it is Dafny's `%`). */
  function PyMod(x: int, m: int): (r: int)
    requires m != 0
    ensures m > 0 ==> 0 <= r < m
    ensures m < 0 ==> m < r <= 0
    ensures (x - r) % m == 0
  {
    if m > 0 then
      PyModPositive(x, m);
      x % m
    else
      PyModNegative(x, m);
      -((-x) % (-m))
  }

  lemma PyModPositive(x: int, m: int)
    requires m > 0
    ensures (x - x % m) % m == 0
  {
    assert x - x % m == (x / m) * m;
    ModUnique(x - x % m, x / m, 0, m);
  }

  lemma PyModNegative(x: int, m: int)
    requires m < 0
    ensures m < -((-x) % (-m)) <= 0
    ensures (x + (-x) % (-m)) % m == 0
  {
    var r := -((-x) % (-m));
    var q := (-x) / (-m);
    assert -x == q * (-m) + (-x) % (-m);
    assert x - r == q * m;
    MultipleOfNegative(q, m);
  }

  /** A multiple of a negative m leaves remainder 0. */
  lemma MultipleOfNegative(q: int, m: int)
    requires m < 0
    ensures (q * m) % m == 0
  {
    var x := q * m;
    assert x == (x / m) * m + x % m;
    assert 0 <= x % m < -m;
    var k := q - x / m;
    assert k * m == x % m;
    assert k >= 1 ==> k * m <= m;
    assert k <= -1 ==> k * m >= -m;
  }

  lemma AddMod(x: int, y: int, m: int)
    requires m > 0
    ensures (x + y) % m == ((x % m) + (y % m)) % m
  {
    assert x + y == (x / m + y / m) * m + (x % m + y % m);
    ModAddMultiple(x % m + y % m, x / m + y / m, m);
  }

  function Factorial(n: nat): (r: nat)
    ensures r >= 1
  {
    if n == 0 then 1 else n * Factorial(n - 1)
  }

  /** The integer square root: the value that `int(n ** 0.5)` is meant to have. */
  function Isqrt(n: nat): nat
  {
    if n == 0 then 0
    else
      var s := Isqrt(n - 1);
      if (s + 1) * (s + 1) <= n then s + 1 else s
  }

  /** `Isqrt(n)` is the largest r with r * r <= n. */
  lemma {:induction false} IsqrtSquare(n: nat)
    ensures Isqrt(n) * Isqrt(n) <= n < (Isqrt(n) + 1) * (Isqrt(n) + 1)
  {
    if n > 0 {
      IsqrtSquare(n - 1);
      var s := Isqrt(n - 1);
      if (s + 1) * (s + 1) > n {
        assert (s + 1) * (s + 1) > n - 1;
      } else {
        assert (s + 2) * (s + 2) == (s + 1) * (s + 1) + 2 * s + 3;
      }
    }
  }

  lemma IsqrtUnique(n: nat, r: nat)
    requires r * r <= n < (r + 1) * (r + 1)
    ensures r == Isqrt(n)
  {
    IsqrtSquare(n);
    var s := Isqrt(n);
    if r < s {
      MulMonotone(r + 1, s);
    } else if s < r {
      MulMonotone(s + 1, r);
    }
  }

  /** Multiplying by a non-negative factor keeps an inequality. */
  lemma MulLeft(k: nat, x: int, y: int)
    requires x <= y
    ensures k * x <= k * y
  {
  }

  /** A positive factor can be cancelled from a strict inequality. */
  lemma CancelStrict(k: int, a: int, b: int)
    requires k > 0 && k * a < k * b
    ensures a < b
  {
  }

  lemma MulMonotone(a: nat, b: nat)
    requires a <= b
    ensures a * a <= b * b
  {
    assert a * a <= a * b <= b * b;
  }

  function Sum(s: seq<int>): int
  {
    if s == [] then 0 else Sum(s[..|s| - 1]) + s[|s| - 1]
  }

  lemma {:induction false} SumConcat(a: seq<int>, b: seq<int>)
    ensures Sum(a + b) == Sum(a) + Sum(b)
  {
    if b == [] {
      assert a + b == a;
    } else {
      SumConcat(a, b[..|b| - 1]);
      assert (a + b)[..|a + b| - 1] == a + b[..|b| - 1];
    }
  }

  lemma SumPair(a: int, b: int)
    ensures Sum([a, b]) == a + b
  {
    var s := [a, b];
    assert s[..|s| - 1] == [a];
    assert Sum([a]) == a by {
      assert [a][..0] == [];
    }
  }

  lemma SumCons(x: int, s: seq<int>)
    ensures Sum([x] + s) == x + Sum(s)
  {
    SumConcat([x], s);
    assert [x][..0] == [];
  }

  function Product(s: seq<int>): int
  {
    if s == [] then 1 else Product(s[..|s| - 1]) * s[|s| - 1]
  }

  lemma {:induction false} ProductConcat(a: seq<int>, b: seq<int>)
    ensures Product(a + b) == Product(a) * Product(b)
  {
    if b == [] {
      assert a + b == a;
    } else {
      ProductConcat(a, b[..|b| - 1]);
      assert (a + b)[..|a + b| - 1] == a + b[..|b| - 1];
    }
  }

  lemma ProductCons(x: int, s: seq<int>)
    ensures Product([x] + s) == x * Product(s)
  {
    ProductConcat([x], s);
    assert [x][..0] == [];
  }

  /** The integers lo, lo+1, ..., hi-1. */
  function Range(lo: int, hi: int): (r: seq<int>)
    ensures |r| == if lo <= hi then hi - lo else 0
    ensures forall i :: 0 <= i < |r| ==> r[i] == lo + i
    decreases hi - lo
  {
    if hi <= lo then [] else Range(lo, hi - 1) + [hi - 1]
  }

  /** An exact quotient: d e / d = e. */
  lemma DivOfProduct(x: int, d: int, e: int)
    requires d > 0 && x == d * e
    ensures x / d == e
  {
    ModUnique(x, e, 0, d);
  }

  /** An exact division: x = d (x / d). */
  lemma DivExact(x: int, d: int) returns (k: int)
    requires d > 0 && x % d == 0
    ensures k == x / d && x == d * k
  {
    k := x / d;
  }

  /** The division equation: x = d (x / d) + x % d. */
  lemma DivSplit(x: int, d: int) returns (r: int)
    requires d > 0
    ensures r == x % d && x == d * (x / d) + r && 0 <= r < d
  {
    r := x % d;
  }

  /** A quotient of a non-negative number lies between 0 and the number. */
  lemma DivBounds(x: int, d: int)
    requires x >= 0 && d >= 1
    ensures 0 <= x / d <= x
  {
    var q := x / d;
    var r := DivSplit(x, d);
    if q < 0 {
      MulLeft(d, q, -1);
    } else {
      MulLeft(q, 1, d);
    }
  }
}
