/** The divisor routines of `Features/Dividers.py`: the divisors of a
    number by trial division up to its square root, amicable numbers, and
    the filter of a list by the number of divisors. */
module Dividers {
  import opened Wrappers
  import opened Arith
  import opened Sorting

  // ---------------------------------------------------------------------
  // find_divisors

  /** x is a positive divisor of n (for n = 0: none, since the candidates
      stop at n). */
  predicate IsDivisor(n: int, x: int)
  {
    1 <= x <= n && n % x == 0
  }

  /** What the loop has collected once every candidate below pd has been
      tried: the small divisors and their cofactors. */
  ghost predicate Collected(n: int, pd: int, x: int)
  {
    (1 <= x < pd && n % x == 0) || (exists d :: 1 <= d < pd && n % d == 0 && x == n / d)
  }

  /** The number of divisors of n below k. */
  function DivisorCountBelow(n: int, k: int): nat
    decreases k
  {
    if k <= 1 then 0 else DivisorCountBelow(n, k - 1) + (if n % (k - 1) == 0 then 1 else 0)
  }

  /** The sum of the divisors of n below k. */
  function DivisorSumBelow(n: int, k: int): (r: int)
    ensures r >= 0
    decreases k
  {
    if k <= 1 then 0 else DivisorSumBelow(n, k - 1) + (if n % (k - 1) == 0 then k - 1 else 0)
  }

  /** The number of positive divisors of n. */
  function DivisorCount(n: int): nat
  {
    DivisorCountBelow(n, n + 1)
  }

  /** The sum of the divisors of n below n (sigma(n) - n for n >= 1). */
  function AliquotSum(n: int): int
  {
    DivisorSumBelow(n, n)
  }

  /** A cofactor n / d of a divisor d <= r, with r * r <= n, is a divisor
      of at least r, and above r when d < r. */
  lemma CofactorLarge(n: int, r: int, d: int)
    requires 1 <= d <= r && r * r <= n && n % d == 0
    ensures n / d >= r && (d < r ==> n / d > r)
    ensures IsDivisor(n, n / d)
  {
    var q := DivExact(n, d);
    CofactorBounds(n, r, d, q);
    ModUnique(n, d, 0, q);
  }

  /** The same bounds on a cofactor q given by n = d q. */
  lemma CofactorBounds(n: int, r: int, d: int, q: int)
    requires 1 <= d <= r && r * r <= n && n == d * q
    ensures q >= r && (d < r ==> q > r) && 1 <= q <= n
  {
    assert q >= 0;
    MulLeft(q, d, r);
    assert r * r <= r * q;
    CancelStrict(r, r - 1, q);
    if d < r {
      MulLeft(q, d, r - 1);
      assert r * (r - 1) < (r - 1) * q;
      CancelStrict(r - 1, r, q);
    }
    MulLeft(q, 1, d);
  }

  /** Of two divisors of n, the smaller has the larger cofactor. */
  lemma CofactorStrict(n: int, d1: int, d2: int)
    requires n >= 1 && 1 <= d1 < d2 && n % d1 == 0 && n % d2 == 0
    ensures n / d1 > n / d2
  {
    var q1, q2 := n / d1, n / d2;
    assert n == d1 * q1 && n == d2 * q2;
    assert q2 >= 1;
    MulLeft(q2, d1 + 1, d2);
    assert d1 * q2 < d1 * q1;
    CancelStrict(d1, q2, q1);
  }

  /** Trying the candidate pd adds pd and its cofactor when pd divides n. */
  lemma CollectedNext(n: int, pd: int, x: int)
    requires pd >= 1
    ensures Collected(n, pd + 1, x) <==> Collected(n, pd, x) || (n % pd == 0 && (x == pd || x == n / pd))
  {
    if Collected(n, pd + 1, x) && !(1 <= x < pd + 1 && n % x == 0) {
      var d :| 1 <= d < pd + 1 && n % d == 0 && x == n / d;
      assert d < pd || d == pd;
    }
    if n % pd == 0 && x == n / pd {
      assert 1 <= pd < pd + 1 && n % pd == 0 && x == n / pd;
    }
  }

  /** Before candidate pd <= isqrt(n), every collected value is below pd
      or above both the root and the cofactor of pd. */
  lemma CollectedApart(n: int, r: int, pd: int, x: int)
    requires 1 <= pd <= r && r * r <= n && n % pd == 0 && Collected(n, pd, x)
    ensures x < pd || (x > r && x > n / pd)
  {
    if !(1 <= x < pd && n % x == 0) {
      var d :| 1 <= d < pd && n % d == 0 && x == n / d;
      MulLeft(r, 1, r);
      CofactorLarge(n, r, d);
      CofactorStrict(n, d, pd);
    }
  }

  /** One candidate pd <= r: adding pd when it divides n, and its
      cofactor when different, keeps the list free of repeats and makes
      it the collection below pd + 1. */
  lemma DivisorStep(n: int, r: int, pd: int, collected: seq<int>, next: seq<int>)
    requires 1 <= pd <= r && r * r <= n
    requires Distinct(collected)
    requires forall x :: x in collected <==> Collected(n, pd, x)
    requires next == if n % pd != 0 then collected
                     else if pd != n / pd then collected + [pd] + [n / pd]
                     else collected + [pd]
    ensures Distinct(next)
    ensures forall x :: x in next <==> Collected(n, pd + 1, x)
  {
    forall x ensures x in next <==> Collected(n, pd + 1, x) {
      CollectedNext(n, pd, x);
    }
    if n % pd == 0 {
      var q := n / pd;
      CofactorLarge(n, r, pd);
      forall x | x in collected ensures x != pd && x != q {
        CollectedApart(n, r, pd, x);
      }
      var withPd := SetAdd(collected, pd);
      assert withPd == collected + [pd];
      if pd != q {
        assert SetAdd(withPd, q) == next;
      }
    }
  }

  /** What the loop collects are divisors. */
  lemma CollectedIsDivisor(n: int, r: int, x: int)
    requires 0 <= r && r * r <= n && Collected(n, r + 1, x)
    ensures IsDivisor(n, x)
  {
    MulLeft(r, 1, r);
    if !(1 <= x < r + 1 && n % x == 0) {
      var d :| 1 <= d < r + 1 && n % d == 0 && x == n / d;
      CofactorLarge(n, r, d);
    }
  }

  /** Every divisor is collected once the candidates reach isqrt(n): a
      divisor above the root is the cofactor of one below it. */
  lemma DivisorIsCollected(n: int, r: int, x: int)
    requires 0 <= r && r * r <= n < (r + 1) * (r + 1) && IsDivisor(n, x)
    ensures Collected(n, r + 1, x)
  {
    if x > r {
      var d := n / x;
      assert n == x * d && d >= 1;
      MulLeft(r + 1, r + 1, x);
      assert x * d < x * (r + 1);
      CancelStrict(x, d, r + 1);
      ModUnique(n, x, 0, d);
      assert 1 <= d < r + 1 && n % d == 0 && x == n / d;
    }
  }

  /** The divisors of n below k, as a membership condition. */
  ghost predicate DivisorsBelow(l: seq<int>, n: int, k: int)
  {
    forall x :: x in l <==> 1 <= x < k && n % x == 0
  }

  /** A strictly increasing list of exactly the divisors of n below k
      has DivisorCountBelow(n, k) elements summing to DivisorSumBelow(n, k). */
  lemma {:induction false} SortedDivisorList(l: seq<int>, n: int, k: int)
    requires StrictlySorted(l) && DivisorsBelow(l, n, k)
    ensures |l| == DivisorCountBelow(n, k) && Sum(l) == DivisorSumBelow(n, k)
    decreases k
  {
    if k <= 1 {
      EmptyTogether(l, []);
    } else if n % (k - 1) == 0 {
      var init := DropLastDivisor(l, n, k);
      SortedDivisorList(init, n, k - 1);
      assert init == l[..|l| - 1];
    } else {
      NotDivisorBelow(l, n, k);
      SortedDivisorList(l, n, k - 1);
    }
  }

  /** When k - 1 divides n, it is the last of the divisors below k. */
  lemma DropLastDivisor(l: seq<int>, n: int, k: int) returns (init: seq<int>)
    requires k >= 2 && n % (k - 1) == 0
    requires StrictlySorted(l) && DivisorsBelow(l, n, k)
    ensures l != [] && init == l[..|l| - 1] && l[|l| - 1] == k - 1
    ensures StrictlySorted(init) && DivisorsBelow(init, n, k - 1)
  {
    assert k - 1 in l;
    StrictlySortedLast(l);
    assert l[|l| - 1] in l;
    init := l[..|l| - 1];
    forall x ensures x in init <==> 1 <= x < k - 1 && n % x == 0 {
      assert x in l <==> 1 <= x < k && n % x == 0;
    }
  }

  /** When k - 1 does not divide n, the divisors below k are those below k - 1. */
  lemma NotDivisorBelow(l: seq<int>, n: int, k: int)
    requires k >= 2 && n % (k - 1) != 0 && DivisorsBelow(l, n, k)
    ensures DivisorsBelow(l, n, k - 1)
  {
    forall x ensures x in l <==> 1 <= x < k - 1 && n % x == 0 {
      assert x in l <==> 1 <= x < k && n % x == 0;
    }
  }

  /** `find_divisors`: the candidates 1..isqrt(number) with their
      cofactors, sorted. */
  method FindDivisors(number: int) returns (divisors: seq<int>)
    requires number >= 0
    ensures StrictlySorted(divisors)
    ensures forall x :: x in divisors <==> IsDivisor(number, x)
    ensures |divisors| == DivisorCount(number)
    ensures number == 0 <==> divisors == []
    ensures divisors != [] ==> divisors[|divisors| - 1] == number && Sum(divisors[..|divisors| - 1]) == AliquotSum(number)
  {
    var collected: seq<int> := [];
    var root := Isqrt(number);
    IsqrtSquare(number);
    var potentialDivisor := 1;
    while potentialDivisor <= root
      invariant 1 <= potentialDivisor <= root + 1
      invariant Distinct(collected)
      invariant forall x :: x in collected <==> Collected(number, potentialDivisor, x)
    {
      ghost var before := collected;
      if number % potentialDivisor == 0 {
        collected := collected + [potentialDivisor];
        var pairedDivisor := number / potentialDivisor;
        if potentialDivisor != pairedDivisor {
          collected := collected + [pairedDivisor];
        }
      }
      DivisorStep(number, root, potentialDivisor, before, collected);
      potentialDivisor := potentialDivisor + 1;
    }
    forall x ensures x in collected <==> IsDivisor(number, x) {
      if x in collected {
        CollectedIsDivisor(number, root, x);
      }
      if IsDivisor(number, x) {
        DivisorIsCollected(number, root, x);
      }
    }
    SortDistinct(collected);
    divisors := Sort(collected);
    SortedDivisorList(divisors, number, number + 1);
    if number >= 1 {
      ProperDivisors(divisors, number);
    }
    assert divisors != [] ==> divisors[0] in divisors;
  }

  /** Without its last element n, the sorted divisor list holds the
      divisors below n. */
  lemma ProperDivisors(l: seq<int>, n: int)
    requires n >= 1 && StrictlySorted(l)
    requires forall x :: x in l <==> IsDivisor(n, x)
    ensures l != [] && l[|l| - 1] == n && Sum(l[..|l| - 1]) == AliquotSum(n)
  {
    assert IsDivisor(n, n) by {
      ModUnique(n, 1, 0, n);
    }
    StrictlySortedLast(l);
    assert l[|l| - 1] in l;
    assert l[|l| - 1] == n;
    forall x ensures x in l[..|l| - 1] <==> 1 <= x < n && n % x == 0 {
      assert x in l <==> IsDivisor(n, x);
    }
    SortedDivisorList(l[..|l| - 1], n, n);
  }

  /** The divisors of 28 are 1, 2, 4, 7, 14, 28. */
  lemma DivisorsOfTwentyEight(x: int)
    ensures IsDivisor(28, x) <==> x in [1, 2, 4, 7, 14, 28]
  {
  }

  // ---------------------------------------------------------------------
  // find_friendly_numbers

  /** `sum(find_divisors(number)[:-1])`. */
  method ProperDivisorSum(number: int) returns (s: int)
    requires number >= 0
    ensures s == AliquotSum(number)
  {
    var divisors := FindDivisors(number);
    s := Sum(if divisors == [] then [] else divisors[..|divisors| - 1]);
  }

  /** x is one of an amicable pair x, y = s(x), x != y, s(y) = x, both
      within the limit. Perfect numbers (s(x) = x) are not amicable. */
  predicate Amicable(x: int, maxLimit: int)
  {
    1 <= x <= maxLimit && AliquotSum(x) <= maxLimit && AliquotSum(x) != x && AliquotSum(AliquotSum(x)) == x
  }

  /** y, x is an amicable pair listed as the code appends it: the larger
      partner first. */
  predicate FriendlyPair(y: int, x: int)
  {
    x < y && AliquotSum(x) == y && AliquotSum(y) == x
  }

  predicate Paired(s: seq<int>)
  {
    |s| % 2 == 0 && forall i :: 0 <= i < |s| - 1 && i % 2 == 0 ==> FriendlyPair(s[i], s[i + 1])
  }

  /** `find_friendly_numbers`: for each number 1..max_limit not yet listed,
      appends its partner and itself when they form an amicable pair
      within the limit. */
  method FindFriendlyNumbers(maxLimit: int) returns (friendlyNumbers: seq<int>)
    ensures forall z :: z in friendlyNumbers <==> Amicable(z, maxLimit)
    ensures Paired(friendlyNumbers)
    ensures forall z :: z in friendlyNumbers ==> 1 <= z <= maxLimit && AliquotSum(z) != z
  {
    friendlyNumbers := [];
    var number := 1;
    while number <= maxLimit
      invariant 1 <= number && (number <= maxLimit + 1 || number == 1)
      invariant Paired(friendlyNumbers)
      invariant forall z :: z in friendlyNumbers <==> Amicable(z, maxLimit) && Min(z, AliquotSum(z)) < number
    {
      if number !in friendlyNumbers {
        var divisorsSum := ProperDivisorSum(number);
        if divisorsSum > maxLimit || divisorsSum == number {
          FriendlySkip(friendlyNumbers, number, maxLimit);
          number := number + 1;
          continue;
        }
        var counterpartDivisorsSum := ProperDivisorSum(divisorsSum);
        if counterpartDivisorsSum == number && number != divisorsSum {
          ghost var before := friendlyNumbers;
          friendlyNumbers := friendlyNumbers + [divisorsSum];
          friendlyNumbers := friendlyNumbers + [number];
          FriendlyFound(before, number, maxLimit, friendlyNumbers);
        } else {
          FriendlySkip(friendlyNumbers, number, maxLimit);
        }
      } else {
        FriendlyListed(friendlyNumbers, number, maxLimit);
      }
      number := number + 1;
    }
  }

  /** A number that is not the smaller of a new pair leaves the list as
      it is. */
  lemma FriendlySkip(r: seq<int>, number: int, maxLimit: int)
    requires number >= 1 && number !in r
    requires forall z :: z in r <==> Amicable(z, maxLimit) && Min(z, AliquotSum(z)) < number
    requires AliquotSum(number) > maxLimit || AliquotSum(number) == number || AliquotSum(AliquotSum(number)) != number
    ensures forall z :: z in r <==> Amicable(z, maxLimit) && Min(z, AliquotSum(z)) < number + 1
  {

  }

  /** A number already listed is the larger of its pair. */
  lemma FriendlyListed(r: seq<int>, number: int, maxLimit: int)
    requires number >= 1 && number in r
    requires forall z :: z in r <==> Amicable(z, maxLimit) && Min(z, AliquotSum(z)) < number
    ensures forall z :: z in r <==> Amicable(z, maxLimit) && Min(z, AliquotSum(z)) < number + 1
  {

  }

  /** A number not yet listed that is amicable is the smaller of its pair:
      its partner and itself are appended. */
  lemma FriendlyFound(r: seq<int>, number: int, maxLimit: int, next: seq<int>)
    requires 1 <= number <= maxLimit && number !in r && Paired(r)
    requires forall z :: z in r <==> Amicable(z, maxLimit) && Min(z, AliquotSum(z)) < number
    requires AliquotSum(number) <= maxLimit && AliquotSum(number) != number && AliquotSum(AliquotSum(number)) == number
    requires next == r + [AliquotSum(number), number]
    ensures Paired(next)
    ensures forall z :: z in next <==> Amicable(z, maxLimit) && Min(z, AliquotSum(z)) < number + 1
  {
    var y := AliquotSum(number);
    assert Amicable(number, maxLimit);
    assert y > number;
    FriendlyPairedAppend(r, y, number);
    assert Amicable(y, maxLimit);
    forall z | Amicable(z, maxLimit) && Min(z, AliquotSum(z)) == number
      ensures z in next
    {
      if z != number {
        assert AliquotSum(z) == number;
        assert z == y;
      }
    }
  }

  /** Appending an amicable pair, larger partner first, keeps the list paired. */
  lemma FriendlyPairedAppend(r: seq<int>, y: int, x: int)
    requires Paired(r) && FriendlyPair(y, x)
    ensures Paired(r + [y, x])
  {
    var next := r + [y, x];
    forall i | 0 <= i < |next| - 1 && i % 2 == 0
      ensures FriendlyPair(next[i], next[i + 1])
    {
      if i < |r| {
        assert next[i] == r[i] && next[i + 1] == r[i + 1];
      }
    }
  }

  // ---------------------------------------------------------------------
  // check_divisors

  /** The keys of `operators_co`. */
  predicate KnownOperator(op: string)
  {
    op in ["==", "!=", "<", "<=", ">", ">="]
  }

  /** `operators_co[op](a, b)`; None for an operator that is not a key. */
  function CompareOp(op: string, a: int, b: int): (r: Option<bool>)
    ensures r.Some? <==> KnownOperator(op)
  {
    if op == "==" then Some(a == b)
    else if op == "!=" then Some(a != b)
    else if op == "<" then Some(a < b)
    else if op == "<=" then Some(a <= b)
    else if op == ">" then Some(a > b)
    else if op == ">=" then Some(a >= b)
    else None
  }

  /** The numbers whose divisor count satisfies the comparison, in order. */
  function Kept(op: string, numbers: seq<int>, divisorCount: int): seq<int>
  {
    if numbers == [] then []
    else
      var x := numbers[|numbers| - 1];
      Kept(op, numbers[..|numbers| - 1], divisorCount) +
      (if CompareOp(op, DivisorCount(x), divisorCount) == Some(true) then [x] else [])
  }

  /** A number is kept exactly when it occurs and its divisor count
      satisfies the comparison. */
  lemma {:induction false} KeptMembers(op: string, numbers: seq<int>, divisorCount: int)
    ensures forall x :: x in Kept(op, numbers, divisorCount) <==>
      x in numbers && CompareOp(op, DivisorCount(x), divisorCount) == Some(true)
    ensures |Kept(op, numbers, divisorCount)| <= |numbers|
  {
    if numbers != [] {
      var init := numbers[..|numbers| - 1];
      KeptMembers(op, init, divisorCount);
      assert numbers == init + [numbers[|numbers| - 1]];
    }
  }

  function Counts(xs: seq<int>): (r: seq<nat>)
    ensures |r| == |xs| && forall i :: 0 <= i < |xs| ==> r[i] == DivisorCount(xs[i])
  {
    if xs == [] then [] else Counts(xs[..|xs| - 1]) + [DivisorCount(xs[|xs| - 1])]
  }

  function Zip(a: seq<int>, b: seq<int>): (r: seq<(int, int)>)
    requires |a| == |b|
    ensures |r| == |a| && forall i :: 0 <= i < |a| ==> r[i] == (a[i], b[i])
  {
    if a == [] then [] else Zip(a[..|a| - 1], b[..|b| - 1]) + [(a[|a| - 1], b[|b| - 1])]
  }

  /** `check_divisors`: the kept numbers, their divisor counts, and the
      pairs of both; None (a KeyError) when the operator is unknown and
      the list is not empty. */
  method CheckDivisors(comparisonOperator: string, numbers: seq<int>, divisorCount: int)
    returns (r: Option<(seq<int>, seq<int>, seq<(int, int)>)>)
    requires forall i :: 0 <= i < |numbers| ==> numbers[i] >= 0
    ensures r.None? <==> numbers != [] && !KnownOperator(comparisonOperator)
    ensures r.Some? ==> r.value.0 == Kept(comparisonOperator, numbers, divisorCount)
    ensures r.Some? ==> r.value.1 == Counts(r.value.0) && r.value.2 == Zip(r.value.0, r.value.1)
  {
    var result: seq<int> := [];
    var divisorLengths: seq<int> := [];
    var i := 0;
    while i < |numbers|
      invariant 0 <= i <= |numbers|
      invariant result == Kept(comparisonOperator, numbers[..i], divisorCount)
      invariant divisorLengths == Counts(result)
      invariant i > 0 ==> KnownOperator(comparisonOperator)
    {
      var number := numbers[i];
      var divisors := FindDivisors(number);
      var length := |divisors|;
      var holds := CompareOp(comparisonOperator, length, divisorCount);
      if holds.None? {
        return None;
      }
      assert numbers[..i + 1][..i] == numbers[..i];
      if holds.value {
        result := result + [number];
        divisorLengths := divisorLengths + [length];
      }
      i := i + 1;
    }
    assert numbers[..|numbers|] == numbers;
    return Some((result, divisorLengths, Zip(result, divisorLengths)));
  }

  /** The divisor counts in the example [10, 12, 15, 16]: 4, 6, 4, 5. So
      with '>' and 4 the code keeps [12, 16]: 15, with exactly 4 divisors,
      is not greater than 4. */
  lemma CheckDivisorsExample()
    ensures Counts([10, 12, 15, 16]) == [4, 6, 4, 5]
    ensures Kept(">", [10, 12, 15, 16], 4) == [12, 16]
  {
    DivisorCountTen();
    DivisorCountTwelve();
    DivisorCountFifteen();
    DivisorCountSixteen();
    var s := [10, 12, 15, 16];
    assert s[..3] == [10, 12, 15];
    assert s[..3][..2] == [10, 12];
    assert s[..3][..2][..1] == [10];
    assert [10][..0] == [];
    assert Kept(">", [10], 4) == [];
    assert Kept(">", [10, 12], 4) == [12];
    assert Kept(">", [10, 12, 15], 4) == [12];
  }

  lemma DivisorCountTen()
    ensures DivisorCount(10) == 4
  {
  }

  lemma DivisorCountTwelve()
    ensures DivisorCount(12) == 6
  {
  }

  lemma DivisorCountFifteen()
    ensures DivisorCount(15) == 4
  {
    assert DivisorCountBelow(15, 2) == 1;
    assert DivisorCountBelow(15, 3) == 1;
    assert DivisorCountBelow(15, 4) == 2;
    assert DivisorCountBelow(15, 5) == 2;
    assert DivisorCountBelow(15, 6) == 3;
    assert DivisorCountBelow(15, 7) == 3;
    assert DivisorCountBelow(15, 8) == 3;
    assert DivisorCountBelow(15, 9) == 3;
    assert DivisorCountBelow(15, 10) == 3;
    assert DivisorCountBelow(15, 11) == 3;
    assert DivisorCountBelow(15, 12) == 3;
    assert DivisorCountBelow(15, 13) == 3;
    assert DivisorCountBelow(15, 14) == 3;
    assert DivisorCountBelow(15, 15) == 3;
    assert DivisorCountBelow(15, 16) == 4;
  }

  lemma DivisorCountSixteen()
    ensures DivisorCount(16) == 5
  {
    assert DivisorCountBelow(16, 2) == 1;
    assert DivisorCountBelow(16, 3) == 2;
    assert DivisorCountBelow(16, 4) == 2;
    assert DivisorCountBelow(16, 5) == 3;
    assert DivisorCountBelow(16, 6) == 3;
    assert DivisorCountBelow(16, 7) == 3;
    assert DivisorCountBelow(16, 8) == 3;
    assert DivisorCountBelow(16, 9) == 4;
    assert DivisorCountBelow(16, 10) == 4;
    assert DivisorCountBelow(16, 11) == 4;
    assert DivisorCountBelow(16, 12) == 4;
    assert DivisorCountBelow(16, 13) == 4;
    assert DivisorCountBelow(16, 14) == 4;
    assert DivisorCountBelow(16, 15) == 4;
    assert DivisorCountBelow(16, 16) == 4;
    assert DivisorCountBelow(16, 17) == 5;
  }
}
