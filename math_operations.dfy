/** The arithmetic puzzles of `Features/MathOperations.py`: lattice-path
    counting, the closed forms for sums of the first n numbers and their
    squares, parity and membership filters, self-power sums, continued
    fractions (convergents, the expansion of e, the period of a square
    root) and the search for cubes whose digits are permutations of each
    other. */
module MathOperations {
  import opened Wrappers
  import opened Arith
  import opened Sorting
  import opened MyUtils

  // ---------------------------------------------------------------------
  // count_paths_in_table

  /** The number of paths from one corner of an r x c grid to the
      opposite corner that only go down or right. */
  function LatticePaths(r: nat, c: nat): nat
  {
    if r == 0 || c == 0 then 1 else LatticePaths(r - 1, c) + LatticePaths(r, c - 1)
  }

  /** The paths are counted by the binomial coefficient (r + c)! / (r! c!). */
  lemma {:induction false} LatticePathsFactorials(r: nat, c: nat)
    ensures LatticePaths(r, c) * (Factorial(r) * Factorial(c)) == Factorial(r + c)
  {
    if r > 0 && c > 0 {
      LatticePathsFactorials(r - 1, c);
      LatticePathsFactorials(r, c - 1);
      PathsStep(LatticePaths(r - 1, c), LatticePaths(r, c - 1), r, c,
        Factorial(r - 1), Factorial(c - 1), Factorial(r + c - 1));
    }
  }

  /** The arithmetic of one step: with a = P(r-1, c), b = P(r, c-1),
      fr = (r-1)!, fc = (c-1)! and f = (r+c-1)!. */
  lemma PathsStep(a: int, b: int, r: int, c: int, fr: int, fc: int, f: int)
    requires a * (fr * (c * fc)) == f && b * ((r * fr) * fc) == f
    ensures (a + b) * ((r * fr) * (c * fc)) == (r + c) * f
  {
    var x := fr * fc;
    assert a * (fr * (c * fc)) == c * (a * x);
    assert b * ((r * fr) * fc) == r * (b * x);
    assert (r * fr) * (c * fc) == (r * c) * x;
    assert (a + b) * ((r * c) * x) == r * (c * (a * x)) + c * (r * (b * x));
  }

  /** `count_paths_in_table(size)`: one loop computes (2n)!, remembering n!
      on the way, and divides (2n)! by n! squared. */
  method CountPathsInTable(size: int) returns (r: int)
    ensures size >= 0 ==> r == LatticePaths(size, size)
    ensures size >= 0 ==> r == Factorial(2 * size) / (Factorial(size) * Factorial(size))
    ensures size < 0 ==> r == 1
  {
    var doubleFactorial := 1;
    var factorial := 1;
    var x := 1;
    while x <= size * 2
      invariant size >= 0 ==> 1 <= x <= 2 * size + 1
      invariant size < 0 ==> x == 1
      invariant doubleFactorial == Factorial(x - 1)
      invariant factorial == if x > size >= 1 then Factorial(size) else 1
    {
      assert Factorial(x) == x * Factorial(x - 1);
      doubleFactorial := doubleFactorial * x;
      if x == size {
        factorial := doubleFactorial;
      }
      x := x + 1;
    }
    r := doubleFactorial / (factorial * factorial);
    if size >= 0 {
      LatticePathsFactorials(size, size);
      ModUnique(Factorial(2 * size), LatticePaths(size, size), 0, Factorial(size) * Factorial(size));
    }
  }

  // ---------------------------------------------------------------------
  // perform_action

  /** The entries '+', '-' and '*' of `operators_ac`. Its fourth entry,
      '/', is true division, which yields a float and is not part of this
      model, so it maps to `None` here as well; any other string is missing
      from the dictionary (`None`). */
  function ApplyOperator(op: string, x: int, y: int): Option<int>
  {
    if op == "+" then Some(x + y)
    else if op == "-" then Some(x - y)
    else if op == "*" then Some(x * y)
    else None
  }

  /** `reduce` of the operator over the rest of the list, from acc. */
  function Reduce(op: string, acc: int, rest: seq<int>): Option<int>
    decreases |rest|
  {
    if rest == [] then Some(acc)
    else
      match ApplyOperator(op, acc, rest[0])
      case None => None
      case Some(v) => Reduce(op, v, rest[1..])
  }

  /** `perform_action(op, numbers)`: a left fold, which fails on an empty
      list and looks the operator up only when there are two numbers. */
  function PerformAction(op: string, numbers: seq<int>): Option<int>
  {
    if numbers == [] then None else Reduce(op, numbers[0], numbers[1..])
  }

  lemma {:induction false} ReduceAdd(acc: int, rest: seq<int>)
    ensures Reduce("+", acc, rest) == Some(acc + Sum(rest))
    decreases |rest|
  {
    if rest != [] {
      ReduceAdd(acc + rest[0], rest[1..]);
      assert rest == [rest[0]] + rest[1..];
      SumCons(rest[0], rest[1..]);
    }
  }

  lemma {:induction false} ReduceSub(acc: int, rest: seq<int>)
    ensures Reduce("-", acc, rest) == Some(acc - Sum(rest))
    decreases |rest|
  {
    if rest != [] {
      ReduceSub(acc - rest[0], rest[1..]);
      assert rest == [rest[0]] + rest[1..];
      SumCons(rest[0], rest[1..]);
    }
  }

  lemma {:induction false} ReduceMul(acc: int, rest: seq<int>)
    ensures Reduce("*", acc, rest) == Some(acc * Product(rest))
    decreases |rest|
  {
    if rest != [] {
      var x, tail := rest[0], rest[1..];
      ReduceMul(acc * x, tail);
      assert rest == [x] + tail;
      ProductCons(x, tail);
      MulAssoc(acc, x, Product(tail));
    }
  }

  /** `perform_action("+", numbers)` is the sum of the list. */
  lemma PerformActionAdd(numbers: seq<int>)
    requires numbers != []
    ensures PerformAction("+", numbers) == Some(Sum(numbers))
  {
    var x, rest := numbers[0], numbers[1..];
    assert numbers == [x] + rest;
    ReduceAdd(x, rest);
    SumCons(x, rest);
  }

  /** `perform_action("-", numbers)` subtracts the rest from the first number. */
  lemma PerformActionSub(numbers: seq<int>)
    requires numbers != []
    ensures PerformAction("-", numbers) == Some(numbers[0] - Sum(numbers[1..]))
  {
    ReduceSub(numbers[0], numbers[1..]);
  }

  /** `perform_action("*", numbers)` is the product of the list. */
  lemma PerformActionMul(numbers: seq<int>)
    requires numbers != []
    ensures PerformAction("*", numbers) == Some(Product(numbers))
  {
    var x, rest := numbers[0], numbers[1..];
    assert numbers == [x] + rest;
    ReduceMul(x, rest);
    ProductConcat([x], rest);
    assert Product([x]) == x by {
      assert [x][..0] == [];
    }
  }

  /** An operator missing from the dictionary fails as soon as it is
      applied, that is, unless the list has a single number; an empty list
      fails whatever the operator. */
  lemma PerformActionUnknown(op: string, numbers: seq<int>)
    requires op != "+" && op != "-" && op != "*" && op != "/"
    ensures PerformAction(op, numbers) == if |numbers| == 1 then Some(numbers[0]) else None
  {
  }

  // ---------------------------------------------------------------------
  // square_of_sum, sum_of_squares

  /** An argument that is either one integer or a list of integers. */
  datatype Numbers = Scalar(n: int) | Items(items: seq<int>)

  function SquareOfSum(numbers: Numbers): int
  {
    match numbers
    case Scalar(n) => (n * (n + 1) / 2) * (n * (n + 1) / 2)
    case Items(s) => Sum(s) * Sum(s)
  }

  /** `x ** 2` for every element. */
  function Squares(s: seq<int>): (r: seq<int>)
    ensures |r| == |s|
    ensures forall i :: 0 <= i < |s| ==> r[i] == s[i] * s[i]
  {
    if s == [] then [] else Squares(s[..|s| - 1]) + [s[|s| - 1] * s[|s| - 1]]
  }

  function SumOfSquares(numbers: Numbers): int
  {
    match numbers
    case Scalar(n) => n * (n + 1) * (2 * n + 1) / 6
    case Items(s) => Sum(Squares(s))
  }

  lemma {:induction false} GaussSum(n: nat)
    ensures Sum(Range(1, n + 1)) * 2 == n * (n + 1)
  {
    if n > 0 {
      GaussSum(n - 1);
      assert Range(1, n + 1) == Range(1, n) + [n];
      SumLast(Range(1, n), n);
      GaussStep(Sum(Range(1, n)), n);
    }
  }

  lemma GaussStep(t: int, n: int)
    requires t * 2 == (n - 1) * n
    ensures (t + n) * 2 == n * (n + 1)
  {
  }

  lemma {:induction false} SquareSum(n: nat)
    ensures Sum(Squares(Range(1, n + 1))) * 6 == n * (n + 1) * (2 * n + 1)
  {
    if n > 0 {
      SquareSum(n - 1);
      assert Squares(Range(1, n + 1)) == Squares(Range(1, n)) + [n * n];
      SumLast(Squares(Range(1, n)), n * n);
      var t := Sum(Squares(Range(1, n)));
      assert t * 6 == (n - 1) * n * (2 * n - 1);
      CubicStep(n);
    }
  }

  lemma CubicStep(n: int)
    ensures (n - 1) * n * (2 * n - 1) + 6 * (n * n) == n * (n + 1) * (2 * n + 1)
  {
    assert (n - 1) * n * (2 * n - 1) == 2 * (n * n * n) - 3 * (n * n) + n;
    assert n * (n + 1) * (2 * n + 1) == 2 * (n * n * n) + 3 * (n * n) + n;
  }

  lemma SumLast(s: seq<int>, x: int)
    ensures Sum(s + [x]) == Sum(s) + x
  {
    assert (s + [x])[..|s|] == s;
  }

  /** For a number n the closed forms agree with the list 1, 2, ..., n
      (n itself included, although the docstrings say "less than"). */
  lemma ClosedFormsAgree(n: nat)
    ensures SquareOfSum(Scalar(n)) == SquareOfSum(Items(Range(1, n + 1)))
    ensures SumOfSquares(Scalar(n)) == SumOfSquares(Items(Range(1, n + 1)))
  {
    GaussSum(n);
    SquareSum(n);
    ModUnique(n * (n + 1), Sum(Range(1, n + 1)), 0, 2);
    ModUnique(n * (n + 1) * (2 * n + 1), Sum(Squares(Range(1, n + 1))), 0, 6);
  }

  // ---------------------------------------------------------------------
  // filter_even_odd

  /** The elements of s whose remainder modulo 2 is `parity`, in order. */
  function FilterParity(s: seq<int>, parity: int): seq<int>
  {
    if s == [] then []
    else FilterParity(s[..|s| - 1], parity) + (if s[|s| - 1] % 2 == parity then [s[|s| - 1]] else [])
  }

  /** `filter_even_odd(numbers, type_str)`: the odd numbers for "!=", the
      even ones for any other string. */
  function FilterEvenOdd(numbers: seq<int>, typeStr: string): seq<int>
  {
    FilterParity(numbers, if typeStr == "!=" then 1 else 0)
  }

  lemma {:induction false} FilterParityMembers(s: seq<int>, parity: int)
    ensures forall x :: x in FilterParity(s, parity) <==> x in s && x % 2 == parity
  {
    if s != [] {
      FilterParityMembers(s[..|s| - 1], parity);
      assert s == s[..|s| - 1] + [s[|s| - 1]];
    }
  }

  /** Filtering is compatible with concatenation, so the order of the
      input is kept. */
  lemma {:induction false} FilterParityConcat(a: seq<int>, b: seq<int>, parity: int)
    ensures FilterParity(a + b, parity) == FilterParity(a, parity) + FilterParity(b, parity)
  {
    if b == [] {
      assert a + b == a;
    } else {
      FilterParityConcat(a, b[..|b| - 1], parity);
      assert (a + b)[..|a + b| - 1] == a + b[..|b| - 1];
    }
  }

  /** The odd and the even part together are the whole list. */
  lemma {:induction false} FilterParitySplit(s: seq<int>)
    ensures multiset(FilterParity(s, 0)) + multiset(FilterParity(s, 1)) == multiset(s)
  {
    if s != [] {
      var init, x := s[..|s| - 1], s[|s| - 1];
      FilterParitySplit(init);
      assert s == init + [x];
      FilterParityLast(init, x, 0);
      FilterParityLast(init, x, 1);
      SplitStep(multiset(FilterParity(init, 0)), multiset(FilterParity(init, 1)), multiset(init), x);
    }
  }

  lemma FilterParityLast(init: seq<int>, x: int, parity: int)
    ensures multiset(FilterParity(init + [x], parity))
      == multiset(FilterParity(init, parity)) + (if x % 2 == parity then multiset{x} else multiset{})
  {
    assert (init + [x])[..|init + [x]| - 1] == init;
  }

  lemma SplitStep(e: multiset<int>, o: multiset<int>, whole: multiset<int>, x: int)
    requires e + o == whole
    ensures (e + (if x % 2 == 0 then multiset{x} else multiset{})) + (o + (if x % 2 == 1 then multiset{x} else multiset{}))
      == whole + multiset{x}
  {
  }

  lemma FilterEvenOddMeaning(numbers: seq<int>, typeStr: string)
    ensures forall x :: x in FilterEvenOdd(numbers, typeStr) <==>
      x in numbers && (if typeStr == "!=" then x % 2 == 1 else x % 2 == 0)
    ensures multiset(FilterEvenOdd(numbers, "!=")) + multiset(FilterEvenOdd(numbers, "")) == multiset(numbers)
  {
    FilterParityMembers(numbers, if typeStr == "!=" then 1 else 0);
    FilterParitySplit(numbers);
  }

  // ---------------------------------------------------------------------
  // compare_numbers

  /** A scalar argument stands for a one-element list. */
  function AsList(x: Numbers): seq<int>
  {
    match x
    case Scalar(n) => [n]
    case Items(s) => s
  }

  /** `set(s)`, kept in the order of first occurrence. */
  function Dedup(s: seq<int>): (r: seq<int>)
    ensures Distinct(r)
    ensures forall y :: y in r <==> y in s
  {
    if s == [] then [] else SetAdd(Dedup(s[..|s| - 1]), s[|s| - 1])
  }

  /** The elements x of s for which `x in t` is `inT`. */
  function KeepByMembership(s: seq<int>, t: seq<int>, inT: bool): (r: seq<int>)
  {
    if s == [] then []
    else
      KeepByMembership(s[..|s| - 1], t, inT) + (if (s[|s| - 1] in t) == inT then [s[|s| - 1]] else [])
  }

  lemma {:induction false} KeepByMembershipMeaning(s: seq<int>, t: seq<int>, inT: bool)
    requires Distinct(s)
    ensures Distinct(KeepByMembership(s, t, inT))
    ensures forall y :: y in KeepByMembership(s, t, inT) <==> y in s && (y in t) == inT
  {
    if s != [] {
      var init := s[..|s| - 1];
      KeepByMembershipMeaning(init, t, inT);
      assert s == init + [s[|s| - 1]];
      assert s[|s| - 1] !in init;
    }
  }

  /** `compare_numbers(a, type_str, b)`: the elements of a that are not in
      b for "!=", those that are in b otherwise. Python iterates the set
      in an order of its own; here it is the order of first occurrence. */
  function CompareNumbers(a: Numbers, typeStr: string, b: Numbers): seq<int>
  {
    KeepByMembership(Dedup(AsList(a)), Dedup(AsList(b)), typeStr != "!=")
  }

  lemma CompareNumbersMeaning(a: Numbers, typeStr: string, b: Numbers)
    ensures Distinct(CompareNumbers(a, typeStr, b))
    ensures typeStr == "!=" ==>
      forall y :: y in CompareNumbers(a, typeStr, b) <==> y in AsList(a) && y !in AsList(b)
    ensures typeStr != "!=" ==>
      forall y :: y in CompareNumbers(a, typeStr, b) <==> y in AsList(a) && y in AsList(b)
  {
    KeepByMembershipMeaning(Dedup(AsList(a)), Dedup(AsList(b)), typeStr != "!=");
  }

  // ---------------------------------------------------------------------
  // calculate_own_degrees

  /** 1^1 + 2^2 + ... + (k - 1)^(k - 1). */
  function SelfPowerSum(k: int): int
    decreases k
  {
    if k <= 1 then 0 else SelfPowerSum(k - 1) + Pow(k - 1, k - 1)
  }

  /** `calculate_own_degrees(max_exponent, digits)`: the last `digits`
      digits of the sum of b^b for b below max_exponent, each term
      reduced by the three-argument `pow`. */
  method CalculateOwnDegrees(maxExponent: int, digits: nat) returns (r: int)
    ensures r == SelfPowerSum(maxExponent) % Pow10(digits)
    ensures 0 <= r < Pow10(digits)
  {
    var m := Pow10(digits);
    var totalSum := 0;
    var base := 1;
    while base < maxExponent
      invariant 1 <= base
      invariant base <= if maxExponent >= 1 then maxExponent else 1
      invariant totalSum % m == SelfPowerSum(base) % m
    {
      var currentValue := Pow(base, base) % m;
      AddMod(totalSum, currentValue, m);
      AddMod(SelfPowerSum(base), Pow(base, base), m);
      ModUnique(currentValue, 0, currentValue, m);
      totalSum := totalSum + currentValue;
      base := base + 1;
    }
    r := totalSum % m;
  }

  // ---------------------------------------------------------------------
  // period_approx, e_approx

  /** The continuant of a list of partial quotients: K([]) = 1, K([x]) = x
      and K(s + [a]) = a * K(s) + K(s without its last element). It is the
      numerator of the continued fraction [s0; s1, ..., sn], whose
      denominator is the continuant of s1, ..., sn. */
  function Continuant(s: seq<int>): int
    decreases |s|
  {
    if s == [] then 1
    else if |s| == 1 then s[0]
    else s[|s| - 1] * Continuant(s[..|s| - 1]) + Continuant(s[..|s| - 2])
  }

  /** `period_approx(a0, period)`: runs the recurrence for the numerators
      p and the denominators q of the convergents of [a0; period]. */
  method PeriodApprox(a0: int, period: seq<int>) returns (p: int, q: int)
    ensures p == Continuant([a0] + period)
    ensures q == Continuant(period)
  {
    q, p := 1, a0;
    var prevQ2, prevQ := 0, 1;
    var prevP2, prevP := 1, a0;
    ghost var full := [a0] + period;
    for i := 0 to |period|
      invariant p == prevP == Continuant(full[..i + 1])
      invariant q == prevQ == Continuant(period[..i])
      invariant i == 0 ==> prevP2 == 1 && prevQ2 == 0
      invariant i > 0 ==> prevP2 == Continuant(full[..i]) && prevQ2 == Continuant(period[..i - 1])
    {
      var a := period[i];
      assert full[..i + 2][..i + 1] == full[..i + 1];
      assert full[..i + 2][..i] == full[..i];
      assert period[..i + 1][..i] == period[..i];
      if i > 0 {
        assert period[..i + 1][..i - 1] == period[..i - 1];
      }
      p, q := a * prevP + prevP2, a * prevQ + prevQ2;
      prevP2, prevP := prevP, p;
      prevQ2, prevQ := prevQ, q;
    }
    assert full[..|period| + 1] == full;
    assert period[..|period|] == period;
  }

  /** The continuant also satisfies the recurrence from the front:
      K([x] + s) = x * K(s) + K(s without its first element). */
  lemma {:induction false} ContinuantFront(x: int, s: seq<int>)
    requires s != []
    ensures Continuant([x] + s) == x * Continuant(s) + Continuant(s[1..])
    decreases |s|
  {
    if |s| == 1 {
      FrontOne(x, s[0]);
      assert s == [s[0]] && s[1..] == [];
    } else if |s| == 2 {
      FrontTwo(x, s[0], s[1]);
      assert s == [s[0], s[1]] && s[1..] == [s[1]];
    } else {
      var u := s[..|s| - 1];
      var v := s[..|s| - 2];
      var w := s[1..];
      var a := s[|s| - 1];
      ContinuantFront(x, u);
      ContinuantFront(x, v);
      FrontSlices(x, s, u, v, w);
      ContinuantSplit([x] + s, [x] + u, [x] + v, a);
      ContinuantSplit(s, u, v, a);
      ContinuantSplit(w, u[1..], v[1..], a);
      FrontAlgebra(x, a, Continuant([x] + s), Continuant([x] + u), Continuant([x] + v),
        Continuant(s), Continuant(u), Continuant(v), Continuant(w), Continuant(u[1..]), Continuant(v[1..]));
    }
  }

  /** The front recurrence for a single term. */
  lemma FrontOne(x: int, a: int)
    ensures Continuant([x] + [a]) == x * Continuant([a]) + Continuant([])
  {
    assert [x] + [a] == [x, a];
    ContinuantSplit([x, a], [x], [], a);
    assert Continuant([x]) == x && Continuant([a]) == a && Continuant([]) == 1;
  }

  /** The front recurrence for two terms. */
  lemma FrontTwo(x: int, a: int, b: int)
    ensures Continuant([x] + [a, b]) == x * Continuant([a, b]) + Continuant([b])
  {
    assert [x] + [a, b] == [x, a, b];
    ContinuantSplit([x, a, b], [x, a], [x], b);
    ContinuantSplit([x, a], [x], [], a);
    ContinuantSplit([a, b], [a], [], b);
    TwoAlgebra(x, a, b, Continuant([x, a, b]), Continuant([x, a]), Continuant([a, b]),
      Continuant([x]), Continuant([a]), Continuant([b]), Continuant([]));
  }

  lemma TwoAlgebra(x: int, a: int, b: int, kxab: int, kxa: int, kab: int, kx: int, ka: int, kb: int, k0: int)
    requires kxab == b * kxa + kx && kxa == a * kx + k0 && kab == b * ka + k0
    requires kx == x && ka == a && kb == b && k0 == 1
    ensures kxab == x * kab + kb
  {
    assert b * (a * x + 1) + x == x * (b * a + 1) + b;
  }

  /** How [x] + s, s without its head and the two prefixes of s line up. */
  lemma FrontSlices(x: int, s: seq<int>, u: seq<int>, v: seq<int>, w: seq<int>)
    requires |s| >= 3 && u == s[..|s| - 1] && v == s[..|s| - 2] && w == s[1..]
    ensures [x] + u == ([x] + s)[..|[x] + s| - 1] && [x] + v == ([x] + s)[..|[x] + s| - 2]
    ensures s[|s| - 1] == ([x] + s)[|[x] + s| - 1]
    ensures u[1..] == w[..|w| - 1] && v[1..] == w[..|w| - 2] && s[|s| - 1] == w[|w| - 1]
  {
  }

  /** The recurrence that defines the continuant, for two terms or more,
      with the list split into its first |s| - 1 and |s| - 2 terms and its
      last term. */
  lemma ContinuantSplit(s: seq<int>, init: seq<int>, prev: seq<int>, last: int)
    requires |s| >= 2 && init == s[..|s| - 1] && prev == s[..|s| - 2] && last == s[|s| - 1]
    ensures Continuant(s) == last * Continuant(init) + Continuant(prev)
  {
  }

  /** The algebra of one step of `ContinuantFront`: the back recurrences
      of t, s and s without its head, combined with the front recurrence
      for the two shorter lists. */
  lemma FrontAlgebra(x: int, a: int, kt: int, k1: int, k2: int, ks: int, ku: int, kv: int,
                     ks1: int, ku1: int, kv1: int)
    requires kt == a * k1 + k2 && k1 == x * ku + ku1 && k2 == x * kv + kv1
    requires ks == a * ku + kv && ks1 == a * ku1 + kv1
    ensures kt == x * ks + ks1
  {
    assert a * (x * ku + ku1) + (x * kv + kv1) == x * (a * ku + kv) + (a * ku1 + kv1);
  }

  /** Partial quotients after the first are at least 1. */
  predicate PositiveTerms(s: seq<int>)
  {
    forall i :: 0 <= i < |s| ==> s[i] >= 1
  }

  /** With positive terms every continuant is at least 1, and it grows
      along the list. */
  lemma {:induction false} ContinuantPositive(s: seq<int>)
    requires PositiveTerms(s)
    ensures Continuant(s) >= 1
    ensures |s| >= 1 ==> Continuant(s) >= Continuant(s[..|s| - 1])
    decreases |s|
  {
    if |s| >= 2 {
      var u := s[..|s| - 1];
      ContinuantPositive(u);
      ContinuantPositive(s[..|s| - 2]);
      assert u[..|u| - 1] == s[..|s| - 2];
      ScaleUp(s[|s| - 1], Continuant(u));
    }
  }

  lemma ScaleUp(a: int, k: int)
    requires a >= 1 && k >= 0
    ensures a * k >= k
  {
  }

  /** The continued fraction [s0; s1, ..., sn] evaluated from the back, as
      a numerator and a denominator: [x] is x / 1, and x + 1 / (n / d) is
      (x * n + d) / n. */
  function CfFraction(s: seq<int>): (int, int)
    requires s != []
    decreases |s|
  {
    if |s| == 1 then (s[0], 1)
    else
      var nd := CfFraction(s[1..]);
      (s[0] * nd.0 + nd.1, nd.0)
  }

  /** The forward recurrence of `period_approx` computes the same fraction
      as evaluating the continued fraction from the back. */
  lemma {:induction false} ConvergentIsFraction(s: seq<int>)
    requires s != []
    ensures CfFraction(s) == (Continuant(s), Continuant(s[1..]))
    decreases |s|
  {
    if |s| == 1 {
      assert s[1..] == [];
    } else {
      var t := s[1..];
      ConvergentIsFraction(t);
      ContinuantFront(s[0], t);
      assert [s[0]] + t == s;
    }
  }

  /** Neighbouring convergents satisfy p_n q_(n-1) - p_(n-1) q_n = (-1)^(n+1),
      so every convergent is in lowest terms. */
  lemma {:induction false} ConvergentDeterminant(s: seq<int>)
    requires |s| >= 2
    ensures Continuant(s) * Continuant(s[1..|s| - 1]) - Continuant(s[..|s| - 1]) * Continuant(s[1..])
      == Pow(-1, |s|)
    decreases |s|
  {
    if |s| == 2 {
      DeterminantTwo(s[0], s[1]);
      assert s == [s[0], s[1]] && s[..1] == [s[0]] && s[1..] == [s[1]] && s[1..1] == [];
    } else {
      var u := s[..|s| - 1];
      var a := s[|s| - 1];
      var w := s[1..];
      ConvergentDeterminant(u);
      DeterminantSlices(s, u, w);
      ContinuantSplit(s, u, u[..|u| - 1], a);
      ContinuantSplit(w, u[1..], u[1..|u| - 1], a);
      ContinuantEq(s[1..|s| - 1], u[1..]);
      DeterminantAlgebra(a, Continuant(s), Continuant(u), Continuant(u[..|u| - 1]),
        Continuant(s[1..|s| - 1]), Continuant(u[1..]), Continuant(u[1..|u| - 1]), Continuant(w),
        Pow(-1, |u|), Pow(-1, |s|));
    }
  }

  /** The determinant of [a, b]: (a b + 1) * 1 - a * b = 1. */
  lemma DeterminantTwo(a: int, b: int)
    ensures Continuant([a, b]) * Continuant([]) - Continuant([a]) * Continuant([b]) == Pow(-1, 2)
  {
    ContinuantSplit([a, b], [a], [], b);
    assert Continuant([a]) == a && Continuant([b]) == b && Continuant([]) == 1;
  }

  /** How s, its prefix u = s without its last term and its suffix w = s
      without its head line up. */
  lemma DeterminantSlices(s: seq<int>, u: seq<int>, w: seq<int>)
    requires |s| >= 3 && u == s[..|s| - 1] && w == s[1..]
    ensures |u| == |s| - 1 && u[..|u| - 1] == s[..|s| - 2] && s[|s| - 1] == w[|w| - 1]
    ensures u[1..] == w[..|w| - 1] && u[1..|u| - 1] == w[..|w| - 2] && s[1..|s| - 1] == u[1..]
  {
  }

  lemma ContinuantEq(s: seq<int>, t: seq<int>)
    requires s == t
    ensures Continuant(s) == Continuant(t)
  {
  }

  /** The algebra of one step of `ConvergentDeterminant`, given the back
      recurrences of s and of s without its head. */
  lemma DeterminantAlgebra(a: int, ks: int, ku: int, ku2: int, kg: int, kv: int, kv2: int, kt: int,
                           sign: int, p: int)
    requires ks == a * ku + ku2 && kt == a * kv + kv2 && kg == kv
    requires ku * kv2 - ku2 * kv == sign && p == -1 * sign
    ensures ks * kg - ku * kt == p
  {
    DeterminantStep(a, ku, ku2, kv, kv2, sign);
  }

  lemma DeterminantStep(a: int, ku: int, ku2: int, kv: int, kv2: int, sign: int)
    requires ku * kv2 - ku2 * kv == sign
    ensures (a * ku + ku2) * kv - ku * (a * kv + kv2) == -1 * sign
  {
  }

  /** The twelve partial quotients that `e_approx` repeats. */
  const EPattern: seq<int> := [1, 2, 1, 1, 4, 1, 1, 6, 1, 1, 8, 1]

  /** The partial quotients after the leading 2 as written: the twelve
      pattern entries, cycled. */
  function EWrittenTerms(n: nat): (r: seq<int>)
    ensures |r| == n
    ensures forall k :: 0 <= k < n ==> r[k] == EPattern[k % 12]
  {
    seq(n, k requires 0 <= k => EPattern[k % 12])
  }

  /** The k-th partial quotient after the leading 2 in the expansion of e,
      which continues 1, 2, 1, 1, 4, 1, 1, 6, 1, ..., 1, 2j, 1, ... */
  function ETerm(k: nat): int
  {
    if k % 3 == 1 then 2 * (k / 3 + 1) else 1
  }

  function ETerms(n: nat): (r: seq<int>)
    ensures |r| == n
    ensures forall k :: 0 <= k < n ==> r[k] == ETerm(k)
  {
    seq(n, k requires 0 <= k => ETerm(k))
  }

  /** `e_approx(n)` as written: the n-th convergent of [2; cycled pattern];
      `islice` with a negative count raises, so n <= 0 fails. */
  method EApprox(n: int) returns (r: Option<(int, int)>)
    ensures n <= 0 ==> r == None
    ensures n >= 1 ==> r == Some((Continuant([2] + EWrittenTerms(n - 1)), Continuant(EWrittenTerms(n - 1))))
  {
    if n <= 0 {
      return None;
    }
    var p, q := PeriodApprox(2, EWrittenTerms(n - 1));
    r := Some((p, q));
  }

  /** The same convergents over the true expansion of e. */
  method EApproxIntended(n: int) returns (r: Option<(int, int)>)
    ensures n <= 0 ==> r == None
    ensures n >= 1 ==> r == Some((Continuant([2] + ETerms(n - 1)), Continuant(ETerms(n - 1))))
  {
    if n <= 0 {
      return None;
    }
    var p, q := PeriodApprox(2, ETerms(n - 1));
    r := Some((p, q));
  }

  /** The true quotients come in blocks 1, 2j, 1, and the cycled pattern
      agrees with them only on the first thirteen. */
  lemma ETermsBlocks(j: nat)
    ensures ETerm(3 * j) == 1 && ETerm(3 * j + 1) == 2 * (j + 1) && ETerm(3 * j + 2) == 1
    ensures forall k :: 0 <= k < 13 ==> EPattern[k % 12] == ETerm(k)
    ensures EPattern[13 % 12] != ETerm(13)
  {
    assert (3 * j + 1) / 3 == j;
  }

  /** From the fifteenth convergent on the written pattern gives a wrong
      numerator: the fourteenth quotient is 2 where e has 10. */
  lemma EApproxDiverges()
    ensures Continuant([2] + EWrittenTerms(14)) < Continuant([2] + ETerms(14))
  {
    ETermsBlocks(4);
    var common := [2] + EWrittenTerms(13);
    assert EWrittenTerms(13) == ETerms(13);
    assert [2] + EWrittenTerms(14) == common + [2];
    assert [2] + ETerms(14) == common + [10];
    assert PositiveTerms(common);
    LastTermGrows(common, 2, 10);
  }

  /** Raising the last quotient raises the continuant. */
  lemma LastTermGrows(c: seq<int>, x: int, y: int)
    requires c != [] && PositiveTerms(c) && x < y
    ensures Continuant(c + [x]) < Continuant(c + [y])
  {
    ContinuantPositive(c);
    assert (c + [x])[..|c|] == c && (c + [y])[..|c|] == c;
    assert (c + [x])[..|c| - 1] == c[..|c| - 1] && (c + [y])[..|c| - 1] == c[..|c| - 1];
    MulLess(x, y, Continuant(c));
  }

  lemma MulLess(x: int, y: int, k: int)
    requires x < y && k >= 1
    ensures x * k < y * k
  {
  }

  // ---------------------------------------------------------------------
  // sqrt_approx

  // The expansion of sqrt(n) for a non-square n walks through states
  // (m, d, a) that stand for the numbers (m + sqrt(n)) / d with partial
  // quotient a. After the first step every state is reduced: in integer
  // terms, with a0 = isqrt(n), the inequalities below hold, which keep
  // all states in a finite box and so make the loop terminate.

  /** A reduced state (m + sqrt(n)) / d: d divides n - m^2, m < sqrt(n),
      d - m < sqrt(n) and sqrt(n) < m + d. */
  predicate Reduced(n: int, a0: int, m: int, d: int)
  {
    d > 0 && (n - m * m) % d == 0 && m <= a0 && d - m <= a0 && m + d >= a0 + 1
  }

  /** n lies strictly between a0^2 and (a0 + 1)^2: a0 = isqrt(n) and n is
      not a perfect square. */
  predicate NonSquareRoot(n: int, a0: int)
  {
    a0 >= 0 && a0 * a0 < n < (a0 + 1) * (a0 + 1)
  }

  /** A state the loop can reach: the initial one (0, 1, a0) or a reduced
      one, with a the floor of (a0 + m) / d. */
  predicate Reachable(n: int, a0: int, st: (int, int, int))
  {
    && NonSquareRoot(n, a0)
    && ((st.0 == 0 && st.1 == 1) || Reduced(n, a0, st.0, st.1))
    && st.2 == (a0 + st.0) / st.1
  }

  /** The states a reachable state can take. */
  function Box(a0: int): set<(int, int, int)>
  {
    set m: int, d: int, a: int | 0 <= m <= a0 && 1 <= d <= 2 * a0 && 0 <= a <= 2 * a0 :: (m, d, a)
  }

  lemma ReachableInBox(n: int, a0: int, st: (int, int, int))
    requires Reachable(n, a0, st)
    ensures st in Box(a0)
  {
    RootPositive(n, a0);
    var m, d, a := st.0, st.1, st.2;
    DivBounds(a0 + m, d);
    assert (m, d, a) in Box(a0);
  }

  lemma RootPositive(n: int, a0: int)
    requires NonSquareRoot(n, a0)
    ensures a0 >= 1
  {
  }

  /** The first step leaves the initial state for the reduced state
      (a0, n - a0^2). */
  lemma FirstStepReduced(n: int, a0: int)
    requires NonSquareRoot(n, a0)
    ensures Reduced(n, a0, a0, n - a0 * a0)
  {
    var d := n - a0 * a0;
    assert (a0 + 1) * (a0 + 1) == a0 * a0 + 2 * a0 + 1;
    ModUnique(d, 1, 0, d);
  }

  /** One step from a reduced state gives a reduced state. */
  lemma StepReduced(n: int, a0: int, m: int, d: int, a: int, m': int, d': int)
    requires NonSquareRoot(n, a0) && Reduced(n, a0, m, d)
    requires a == (a0 + m) / d && m' == d * a - m && d' == (n - m' * m') / d
    ensures Reduced(n, a0, m', d')
  {
    var k := DivExact(n - m * m, d);
    var r := DivSplit(a0 + m, d);
    TermBounds(n, a0, m, d);
    var e := StepWitness(n, a0, m, d, k, a, r, m');
    DivOfProduct(n - m' * m', d, e);
    ReducedSame(n, a0, m', e, m', d');
  }

  /** Reduced states are equal when their components are. */
  lemma ReducedSame(n: int, a0: int, m: int, d: int, m': int, d': int)
    requires Reduced(n, a0, m, d) && m' == m && d' == d
    ensures Reduced(n, a0, m', d')
  {
  }

  /** The step with the divisions written out, n - m^2 = d k and
      a0 + m = d a + r: it returns the next denominator e, with
      n - m'^2 = d e. */
  lemma StepWitness(n: int, a0: int, m: int, d: int, k: int, a: int, r: int, m': int) returns (e: int)
    requires NonSquareRoot(n, a0) && d > 0 && m <= a0 && n - m * m == d * k
    requires a0 + m == d * a + r && 0 <= r < d && a >= 1 && m' == d * a - m
    ensures n - m' * m' == d * e && Reduced(n, a0, m', e)
  {
    ScaleUp(a, d);
    StepShape(a0, m, d, a * d, d * a, r, m');
    e := StepDivides(n, m, d, k, a, m');
    StepCore(n, a0, d, m', e, r);
  }

  /** The linear part of the step, with the product d a written p: m' is
      a0 - r, and d - m' stays at most a0. */
  lemma StepShape(a0: int, m: int, d: int, p: int, p': int, r: int, m': int)
    requires p == p' && p >= d && m <= a0
    requires a0 + m == p' + r && m' == p' - m
    ensures m' == a0 - r && d - m' <= a0
  {
  }

  lemma StepCore(n: int, a0: int, d: int, m': int, d': int, r: int)
    requires NonSquareRoot(n, a0) && d > 0 && 0 <= r < d && m' == a0 - r && d - m' <= a0
    requires n - m' * m' == d * d'
    ensures Reduced(n, a0, m', d')
  {
    LowerBound(n, a0, m', d, d', r);
    UpperBound(n, a0, m', d, d', r);
    ModUnique(n - m' * m', d, 0, d');
  }

  /** d still divides n - m'^2 after the step. */
  lemma StepDivides(n: int, m: int, d: int, k: int, a: int, m': int) returns (e: int)
    requires n - m * m == d * k && m' + m == d * a
    ensures n - m' * m' == d * e
  {
    e := k - (m' - m) * a;
    assert m' * m' - m * m == (m' - m) * (m' + m);
    assert (m' - m) * (d * a) == d * ((m' - m) * a);
  }

  /** sqrt(n) - m' < d', in integers. */
  lemma LowerBound(n: int, a0: int, m': int, d: int, d': int, r: int)
    requires NonSquareRoot(n, a0) && d > 0 && 0 <= r < d && m' == a0 - r
    requires n - m' * m' == d * d' && d - m' <= a0
    ensures d' >= r + 1
  {
    assert a0 * a0 - m' * m' == r * (a0 + m');
    if d' <= r {
      MulLeft(d, d', r);
      if r > 0 {
        assert r * (a0 + m') < r * d;
        MulLeftStrict(r, a0 + m', d);
      }
    }
  }

  /** d' < m' + sqrt(n), in integers. */
  lemma UpperBound(n: int, a0: int, m': int, d: int, d': int, r: int)
    requires NonSquareRoot(n, a0) && d > 0 && 0 <= r < d && m' == a0 - r
    requires n - m' * m' == d * d' && d - m' <= a0
    ensures d' <= a0 + m'
  {
    var k := a0 + m' + 1;
    assert (a0 + 1) * (a0 + 1) - m' * m' == (a0 + 1 - m') * k;
    if d' >= k {
      MulLeft(d, k, d');
      assert d * k < (a0 + 1 - m') * k;
      MulRightStrict(d, a0 + 1 - m', k);
    }
  }

  lemma MulLeftStrict(k: int, x: int, y: int)
    requires k > 0 && k * x < k * y
    ensures x < y
  {
    if x >= y {
      MulLeft(k, y, x);
    }
  }

  lemma MulRightStrict(x: int, y: int, k: int)
    requires k > 0 && x * k < y * k
    ensures x < y
  {
    MulLeftStrict(k, x, y);
  }

  /** One turn of the loop body of `sqrt_approx`. */
  function Next(n: int, a0: int, st: (int, int, int)): (r: (int, int, int))
    requires Reachable(n, a0, st)
    ensures Reachable(n, a0, r) && Reduced(n, a0, r.0, r.1)
    ensures 1 <= r.2 <= 2 * a0
  {
    var (m, d, a) := st;
    var m' := d * a - m;
    var d' := (n - m' * m') / d;
    NextReduced(n, a0, m, d, a, m', d');
    TermBounds(n, a0, m', d');
    (m', d', (a0 + m') / d')
  }

  /** The state after a reachable one is reduced. */
  lemma NextReduced(n: int, a0: int, m: int, d: int, a: int, m': int, d': int)
    requires Reachable(n, a0, (m, d, a))
    requires m' == d * a - m && d' == (n - m' * m') / d
    ensures Reduced(n, a0, m', d')
  {
    if m == 0 && d == 1 {
      FirstStepReduced(n, a0);
      FirstStepIs(n, a0, a, m', d');
      ReducedSame(n, a0, a0, n - a0 * a0, m', d');
    } else {
      StepReduced(n, a0, m, d, a, m', d');
    }
  }

  /** The first step, from (0, 1, a0), goes to m' = a0 and d' = n - a0^2. */
  lemma FirstStepIs(n: int, a0: int, a: int, m': int, d': int)
    requires a == (a0 + 0) / 1 && m' == 1 * a - 0 && d' == (n - m' * m') / 1
    ensures m' == a0 && d' == n - a0 * a0
  {
  }

  /** The loop body of `sqrt_approx`, written out, computes `Next`. */
  lemma NextIs(n: int, a0: int, m: int, d: int, a: int, m': int, d': int)
    requires Reachable(n, a0, (m, d, a))
    requires m' == d * a - m && d' == (n - m' * m') / d
    ensures Reduced(n, a0, m', d') && Next(n, a0, (m, d, a)) == (m', d', (a0 + m') / d')
  {
    NextReduced(n, a0, m, d, a, m', d');
  }

  /** The partial quotient of a reduced state lies in 1..2 a0. */
  lemma TermBounds(n: int, a0: int, m: int, d: int)
    requires NonSquareRoot(n, a0) && Reduced(n, a0, m, d)
    ensures 1 <= (a0 + m) / d <= 2 * a0
  {
    DivBounds(a0 + m, d);
    ModUnique(a0 + m, (a0 + m) / d, (a0 + m) % d, d);
  }

  /** The quotients the loop appends from state st on, with the states in
      seen already visited: it stops at the first repeated state. */
  function SqrtOrbit(n: int, a0: int, st: (int, int, int), seen: set<(int, int, int)>): seq<int>
    requires Reachable(n, a0, st) && seen <= Box(a0)
    decreases Box(a0) - seen
  {
    if st in seen then []
    else
      ReachableInBox(n, a0, st);
      var nx := Next(n, a0, st);
      [nx.2] + SqrtOrbit(n, a0, nx, seen + {st})
  }

  /** The period of the expansion of sqrt(num): nothing for a perfect
      square, otherwise the quotients up to the first repeated state with
      the last one dropped. */
  function SqrtPeriod(num: nat): seq<int>
  {
    var a0 := Isqrt(num);
    if a0 * a0 == num then []
    else
      IsqrtSquare(num);
      var o := SqrtOrbit(num, a0, (0, 1, a0), {});
      if o == [] then [] else o[..|o| - 1]
  }

  /** `sqrt_approx(num)`: `math.isqrt` rejects a negative number. */
  method SqrtApprox(num: int) returns (r: Option<(int, seq<int>)>)
    ensures num < 0 ==> r == None
    ensures num >= 0 ==> r == Some((Isqrt(num), SqrtPeriod(num)))
  {
    if num < 0 {
      return None;
    }
    var a0 := Isqrt(num);
    if a0 * a0 == num {
      return Some((a0, []));
    }
    IsqrtSquare(num);
    var period := PeriodLoop(num, a0);
    r := Some((a0, if period == [] then [] else period[..|period| - 1]));
  }

  /** The `while` loop of `sqrt_approx` for a non-square num: it collects
      the quotients until a state repeats. */
  method PeriodLoop(num: int, a0: int) returns (period: seq<int>)
    requires NonSquareRoot(num, a0)
    ensures period == SqrtOrbit(num, a0, (0, 1, a0), {})
  {
    var m, d, a := 0, 1, a0;
    var seen: set<(int, int, int)> := {};
    period := [];
    while (m, d, a) !in seen
      invariant Reachable(num, a0, (m, d, a)) && seen <= Box(a0)
      invariant period + SqrtOrbit(num, a0, (m, d, a), seen) == SqrtOrbit(num, a0, (0, 1, a0), {})
      decreases Box(a0) - seen
    {
      OrbitStep(num, a0, (m, d, a), seen);
      ghost var st := (m, d, a);
      seen := seen + {(m, d, a)};
      m := d * a - m;
      d := (num - m * m) / d;
      NextIs(num, a0, st.0, st.1, st.2, m, d);
      a := (a0 + m) / d;
      period := period + [a];
    }
    assert period + [] == period;
  }

  /** The orbit from an unvisited state: its next quotient, then the orbit
      of the next state. */
  lemma OrbitStep(n: int, a0: int, st: (int, int, int), seen: set<(int, int, int)>)
    requires Reachable(n, a0, st) && seen <= Box(a0) && st !in seen
    ensures st in Box(a0)
    ensures SqrtOrbit(n, a0, st, seen) == [Next(n, a0, st).2] + SqrtOrbit(n, a0, Next(n, a0, st), seen + {st})
  {
    ReachableInBox(n, a0, st);
  }

  /** Every quotient of the orbit lies in 1..2 a0. */
  lemma {:induction false} OrbitTerms(n: int, a0: int, st: (int, int, int), seen: set<(int, int, int)>)
    requires Reachable(n, a0, st) && seen <= Box(a0)
    ensures forall x :: x in SqrtOrbit(n, a0, st, seen) ==> 1 <= x <= 2 * a0
    decreases Box(a0) - seen
  {
    if st !in seen {
      ReachableInBox(n, a0, st);
      var nx := Next(n, a0, st);
      OrbitTerms(n, a0, nx, seen + {st});
    }
  }

  /** The orbit from the initial state holds at least two quotients, the
      first floor(2 a0 / (n - a0^2)). */
  lemma OrbitStart(n: int, a0: int)
    requires NonSquareRoot(n, a0)
    ensures |SqrtOrbit(n, a0, (0, 1, a0), {})| >= 2
    ensures SqrtOrbit(n, a0, (0, 1, a0), {})[0] == 2 * a0 / (n - a0 * a0)
  {
    var s0 := (0, 1, a0);
    var s1 := (a0, n - a0 * a0, 2 * a0 / (n - a0 * a0));
    FirstNext(n, a0);
    OrbitStep(n, a0, s0, {});
    RootPositive(n, a0);
    assert {} + {s0} == {s0};
    assert s1 !in {s0};
    OrbitStep(n, a0, s1, {s0});
  }

  /** The state after (0, 1, a0). */
  lemma FirstNext(n: int, a0: int)
    requires NonSquareRoot(n, a0)
    ensures Next(n, a0, (0, 1, a0)) == (a0, n - a0 * a0, 2 * a0 / (n - a0 * a0))
  {
    assert Reachable(n, a0, (0, 1, a0));
    NextIs(n, a0, 0, 1, a0, a0, n - a0 * a0);
  }

  /** A perfect square has no period; otherwise the period is not empty,
      starts with floor(2 a0 / (num - a0^2)), and every quotient in it lies
      in 1..2 a0. */
  lemma SqrtPeriodMeaning(num: nat)
    ensures Isqrt(num) * Isqrt(num) == num ==> SqrtPeriod(num) == []
    ensures Isqrt(num) * Isqrt(num) != num ==>
      && SqrtPeriod(num) != []
      && SqrtPeriod(num)[0] == 2 * Isqrt(num) / (num - Isqrt(num) * Isqrt(num))
      && forall x :: x in SqrtPeriod(num) ==> 1 <= x <= 2 * Isqrt(num)
  {
    var a0 := Isqrt(num);
    if a0 * a0 != num {
      IsqrtSquare(num);
      PeriodOfNonSquare(num, a0);
    }
  }

  lemma PeriodOfNonSquare(num: nat, a0: int)
    requires a0 == Isqrt(num) && NonSquareRoot(num, a0)
    ensures SqrtPeriod(num) != []
    ensures SqrtPeriod(num)[0] == 2 * a0 / (num - a0 * a0)
    ensures forall x :: x in SqrtPeriod(num) ==> 1 <= x <= 2 * a0
  {
    OrbitStart(num, a0);
    OrbitTerms(num, a0, (0, 1, a0), {});
    var o := SqrtOrbit(num, a0, (0, 1, a0), {});
    assert SqrtPeriod(num) == o[..|o| - 1];
    PrefixBounds(o, |o| - 1, 1, 2 * a0);
  }

  /** A prefix keeps the bounds of the sequence it is cut from. */
  lemma PrefixBounds(o: seq<int>, k: nat, lo: int, hi: int)
    requires k <= |o| && forall x :: x in o ==> lo <= x <= hi
    ensures forall x :: x in o[..k] ==> lo <= x <= hi
  {
    assert forall x :: x in o[..k] ==> x in o;
  }

  // ---------------------------------------------------------------------
  // cub_permutations

  function Cube(b: int): int
  {
    b * b * b
  }

  /** The digits of c as a multiset: two numbers have the same one exactly
      when their digits are permutations of each other. */
  function DigitBag(c: int): multiset<int>
    decreases c
  {
    if c <= 0 then multiset{} else DigitBag(c / 10) + multiset{c % 10}
  }

  /** The bag holds the decimal digits of c. */
  lemma {:induction false} DigitBagOfDigits(c: int)
    ensures DigitBag(c) == multiset(Digits(c))
    decreases c
  {
    if c > 0 {
      DigitBagOfDigits(c / 10);
      assert Digits(c) == Digits(c / 10) + [c % 10];
    }
  }

  /** The cubes b^3 with 2 <= b < hi whose digits form the multiset ms,
      ascending. */
  function CubesWithDigits(ms: multiset<int>, hi: int): seq<int>
    decreases hi
  {
    if hi <= 2 then []
    else CubesWithDigits(ms, hi - 1) + (if DigitBag(Cube(hi - 1)) == ms then [Cube(hi - 1)] else [])
  }

  /** The group of b^3 as it stands when the search reaches b: the cubes
      up to b^3 that are digit permutations of it. */
  function GroupAt(b: int): seq<int>
  {
    CubesWithDigits(DigitBag(Cube(b)), b + 1)
  }

  lemma CubeStep(a: int)
    ensures Cube(a) + 3 * (a * a) + 3 * a + 1 == Cube(a + 1)
  {
  }

  /** No group reaches x cubes while the search runs through 2..b-1. */
  ghost predicate NoGroupBefore(x: int, b: int)
  {
    forall c :: 2 <= c < b ==> |GroupAt(c)| != x
  }

  lemma NoGroupStep(x: int, b: int)
    requires NoGroupBefore(x, b) && |GroupAt(b)| != x
    ensures NoGroupBefore(x, b + 1)
  {
  }

  /** `cub_permutations(x)`: the first group of x cubes with the same
      digits; the dictionary is keyed by the sorted digit list. The Python
      loop has no bound; here it stops after `fuel` cubes and then reports
      `None`. */
  method CubPermutations(x: int, fuel: nat) returns (r: Option<seq<int>>)
    ensures r.Some? ==> exists b :: 2 <= b < 2 + fuel && r.value == GroupAt(b) && |GroupAt(b)| == x &&
                                 NoGroupBefore(x, b)
    ensures r.None? ==> NoGroupBefore(x, 2 + fuel)
  {
    var a := 2;
    var currCub := a * a * a;
    var hist: map<seq<int>, seq<int>> := map[];
    while a < 2 + fuel
      invariant 2 <= a <= 2 + fuel && currCub == Cube(a)
      invariant HistGroups(hist, a)
      invariant NoGroupBefore(x, a)
    {
      var group;
      hist, group := FileCube(hist, a, currCub);
      if |group| == x {
        return Some(group);
      }
      NoGroupStep(x, a);
      CubeStep(a);
      currCub := currCub + 3 * (a * a) + 3 * a + 1;
      a := a + 1;
    }
    return None;
  }

  /** One turn of the search: the cube is appended to the list under its
      sorted digits. */
  method FileCube(hist: map<seq<int>, seq<int>>, a: int, currCub: int)
    returns (hist': map<seq<int>, seq<int>>, group: seq<int>)
    requires a >= 2 && currCub == Cube(a) && HistGroups(hist, a)
    ensures group == GroupAt(a) && HistGroups(hist', a + 1)
  {
    var digits := GetDigits(currCub);
    var key := Sort(digits);
    DigitBagOfDigits(currCub);
    group := (if key in hist then hist[key] else []) + [currCub];
    HistStep(hist, a, key);
    HistGroupsStep(hist, a, key);
    hist' := hist[key := group];
  }

  /** `hist_dict` once the cubes of 2..a-1 are filed: each key is a sorted
      digit list and maps to the cubes with those digits; a sorted list
      that is not a key has no cube. */
  ghost predicate HistGroups(hist: map<seq<int>, seq<int>>, a: int)
  {
    && (forall k {:trigger hist[k]} {:trigger k in hist} :: k in hist ==> Sorted(k) && hist[k] == CubesWithDigits(multiset(k), a))
    && (forall k {:trigger CubesWithDigits(multiset(k), a)} :: Sorted(k) && k !in hist ==> CubesWithDigits(multiset(k), a) == [])
  }

  /** Filing a^3 under its sorted digits appends it to its group. */
  lemma HistStep(hist: map<seq<int>, seq<int>>, a: int, key: seq<int>)
    requires a >= 2 && HistGroups(hist, a) && Sorted(key) && multiset(key) == DigitBag(Cube(a))
    ensures (if key in hist then hist[key] else []) + [Cube(a)] == GroupAt(a)
  {
    var ms := DigitBag(Cube(a));
    GroupGrows(ms, a);
    if key in hist {
      assert hist[key] == CubesWithDigits(ms, a);
    } else {
      assert CubesWithDigits(ms, a) == [];
    }
  }

  /** After filing a^3 the dictionary describes the cubes of 2..a. */
  lemma HistGroupsStep(hist: map<seq<int>, seq<int>>, a: int, key: seq<int>)
    requires a >= 2 && HistGroups(hist, a) && Sorted(key) && multiset(key) == DigitBag(Cube(a))
    ensures HistGroups(hist[key := GroupAt(a)], a + 1)
  {
    var hist' := hist[key := GroupAt(a)];
    forall k | k in hist'
      ensures Sorted(k) && hist'[k] == CubesWithDigits(multiset(k), a + 1)
    {
      if k != key {
        OtherGroupUnchanged(k, key, Cube(a), a);
      }
    }
    forall k | Sorted(k) && k !in hist'
      ensures CubesWithDigits(multiset(k), a + 1) == []
    {
      OtherGroupUnchanged(k, key, Cube(a), a);
    }
    HistGroupsIntro(hist', a + 1);
  }

  lemma GroupGrows(ms: multiset<int>, a: int)
    requires a >= 2 && DigitBag(Cube(a)) == ms
    ensures CubesWithDigits(ms, a + 1) == CubesWithDigits(ms, a) + [Cube(a)]
  {
  }

  /** A group with another sorted key does not gain a^3. */
  lemma OtherGroupUnchanged(k: seq<int>, key: seq<int>, c: int, a: int)
    requires Sorted(k) && Sorted(key) && k != key && c == Cube(a) && multiset(key) == DigitBag(c)
    ensures CubesWithDigits(multiset(k), a + 1) == CubesWithDigits(multiset(k), a)
  {
    if multiset(k) == multiset(key) {
      SortedEqual(k, key);
    }
  }

  lemma HistGroupsIntro(hist: map<seq<int>, seq<int>>, a: int)
    requires forall k :: k in hist ==> Sorted(k) && hist[k] == CubesWithDigits(multiset(k), a)
    requires forall k :: Sorted(k) && k !in hist ==> CubesWithDigits(multiset(k), a) == []
    ensures HistGroups(hist, a)
  {
  }

  /** A group holds exactly the cubes below hi with those digits. */
  lemma CubesWithDigitsMembers(ms: multiset<int>, hi: int)
    ensures forall y :: y in CubesWithDigits(ms, hi) <==>
      exists b :: 2 <= b < hi && y == Cube(b) && DigitBag(y) == ms
  {
    forall y ensures y in CubesWithDigits(ms, hi) <==>
      exists b :: 2 <= b < hi && y == Cube(b) && DigitBag(y) == ms
    {
      if y in CubesWithDigits(ms, hi) {
        var b := CubeInGroup(ms, hi, y);
      }
      if exists b :: 2 <= b < hi && y == Cube(b) && DigitBag(y) == ms {
        var b :| 2 <= b < hi && y == Cube(b) && DigitBag(y) == ms;
        GroupHasCube(ms, hi, b);
      }
    }
  }

  /** Every value of a group is such a cube. */
  lemma {:induction false} CubeInGroup(ms: multiset<int>, hi: int, y: int) returns (b: int)
    requires y in CubesWithDigits(ms, hi)
    ensures 2 <= b < hi && y == Cube(b) && DigitBag(y) == ms
    decreases hi
  {
    if y in CubesWithDigits(ms, hi - 1) {
      b := CubeInGroup(ms, hi - 1, y);
    } else {
      b := hi - 1;
    }
  }

  /** Every such cube is in the group. */
  lemma GroupHasCube(ms: multiset<int>, hi: int, b: int)
    requires 2 <= b < hi && DigitBag(Cube(b)) == ms
    ensures Cube(b) in CubesWithDigits(ms, hi)
  {
    GroupGrows(ms, b);
    assert Cube(b) in CubesWithDigits(ms, b + 1);
    GroupKeeps(ms, b + 1, hi, Cube(b));
  }

  /** A group keeps its values as the bound grows. */
  lemma {:induction false} GroupKeeps(ms: multiset<int>, lo: int, hi: int, y: int)
    requires 2 < lo <= hi && y in CubesWithDigits(ms, lo)
    ensures y in CubesWithDigits(ms, hi)
    decreases hi - lo
  {
    if lo < hi {
      GroupKeeps(ms, lo, hi - 1, y);
    }
  }

  /** A group is ascending. */
  lemma {:induction false} CubesWithDigitsSorted(ms: multiset<int>, hi: int)
    ensures StrictlySorted(CubesWithDigits(ms, hi))
    decreases hi
  {
    if hi > 2 {
      CubesWithDigitsSorted(ms, hi - 1);
      CubesWithDigitsMembers(ms, hi - 1);
      var g := CubesWithDigits(ms, hi - 1);
      forall y | y in g
        ensures y < Cube(hi - 1)
      {
        var b :| 2 <= b < hi - 1 && y == Cube(b);
        CubeLess(b, hi - 1);
      }
      StrictlySortedSnoc(g, Cube(hi - 1));
    }
  }

  lemma StrictlySortedSnoc(g: seq<int>, c: int)
    requires StrictlySorted(g) && forall y :: y in g ==> y < c
    ensures StrictlySorted(g + [c])
  {
    forall i, j | 0 <= i < j < |g| + 1
      ensures (g + [c])[i] < (g + [c])[j]
    {
      if j == |g| {
        assert g[i] in g;
      }
    }
  }

  lemma CubeLess(b: int, c: int)
    requires 0 <= b < c
    ensures Cube(b) < Cube(c)
  {
    MulLeft(b, b, c);
    MulLeft(b * b, b, c);
    MulLeft(c, b, c);
    assert b * b <= b * c <= c * c;
    assert b * b * c < c * c * c by {
      MulLess(b * b, c * c, c);
    }
  }

  /** The dictionary key (sorted digits) of two numbers is the same exactly
      when their digits are permutations of each other. */
  lemma SortedDigitsKey(y: int, z: int)
    ensures Sort(Digits(y)) == Sort(Digits(z)) <==> DigitBag(y) == DigitBag(z)
  {
    DigitBagOfDigits(y);
    DigitBagOfDigits(z);
    if DigitBag(y) == DigitBag(z) {
      SortedEqual(Sort(Digits(y)), Sort(Digits(z)));
    }
  }
}
