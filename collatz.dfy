/** The Collatz routines of `Features/Collatz.py`: the trajectory of a
    number down to 1, a memoising wrapper around it, and the start below a
    limit with the longest trajectory.

    Whether every trajectory reaches 1 is open, so the loop is given a
    step budget `fuel`: running out of it stands for the source's loop
    that does not stop (as it does for 0). */
module Collatz {
  import opened Wrappers

  /** One Collatz step: halve an even number, else 3x + 1. Python's `//`
      and `%` by 2 agree with Dafny's on even numbers and on the parity
      test. */
  function Next(x: int): int
  {
    if x % 2 == 0 then x / 2 else 3 * x + 1
  }

  /** x after k steps. */
  function Iter(x: int, k: nat): int
  {
    if k == 0 then x else Next(Iter(x, k - 1))
  }

  /** The first k values x, Next(x), ..., Iter(x, k). */
  function Orbit(x: int, k: nat): (r: seq<int>)
    ensures |r| == k + 1 && forall i :: 0 <= i <= k ==> r[i] == Iter(x, i)
  {
    if k == 0 then [x] else Orbit(x, k - 1) + [Iter(x, k)]
  }

  /** k is the first step at which x reaches 1. */
  ghost predicate FirstHit(x: int, k: nat)
  {
    Iter(x, k) == 1 && forall j :: 0 <= j < k ==> Iter(x, j) != 1
  }

  /** The number of steps x needs to reach 1, if it does so within fuel
      steps. */
  function StepsToOne(x: int, fuel: nat): Option<nat>
    decreases fuel
  {
    if x == 1 then Some(0)
    else if fuel == 0 then None
    else Shift(StepsToOne(Next(x), fuel - 1), 1)
  }

  /** Adds k to a step count, if there is one. */
  function Shift(o: Option<nat>, k: nat): Option<nat>
  {
    if o.None? then None else Some(o.value + k)
  }

  /** `collatz(x)` when the loop stops within fuel steps: the length and
      the trajectory. */
  function CollatzResult(x: int, fuel: nat): Option<(int, seq<int>)>
  {
    match StepsToOne(x, fuel)
    case None => None
    case Some(k) => Some((k + 1, Orbit(x, k)))
  }

  lemma {:induction false} IterShift(x: int, k: nat)
    ensures Iter(x, k + 1) == Iter(Next(x), k)
  {
    if k > 0 {
      IterShift(x, k - 1);
    }
  }

  /** StepsToOne is the first hitting time of 1, in both directions. */
  lemma {:induction false} StepsToOneIsFirstHit(x: int, fuel: nat)
    ensures StepsToOne(x, fuel).Some? ==>
      StepsToOne(x, fuel).value <= fuel && FirstHit(x, StepsToOne(x, fuel).value)
    ensures StepsToOne(x, fuel).None? ==> forall j :: 0 <= j <= fuel ==> Iter(x, j) != 1
    decreases fuel
  {
    if x != 1 && fuel > 0 {
      StepsToOneIsFirstHit(Next(x), fuel - 1);
      forall j | 1 <= j <= fuel
        ensures Iter(x, j) == Iter(Next(x), j - 1)
      {
        IterShift(x, j - 1);
      }
    }
  }

  /** Conversely, a first hit within the budget is what StepsToOne finds:
      extra fuel changes nothing. */
  lemma {:induction false} FirstHitIsStepsToOne(x: int, k: nat, fuel: nat)
    requires FirstHit(x, k) && k <= fuel
    ensures StepsToOne(x, fuel) == Some(k)
    decreases k
  {
    if k > 0 {
      assert Iter(x, 0) != 1;
      forall j | 0 <= j <= k - 1
        ensures Iter(Next(x), j) == Iter(x, j + 1)
      {
        IterShift(x, j);
      }
      FirstHitIsStepsToOne(Next(x), k - 1, fuel - 1);
    }
  }

  /** A budget that suffices keeps giving the same answer when raised. */
  lemma FuelMonotone(x: int, fuel: nat, more: nat)
    requires StepsToOne(x, fuel).Some? && fuel <= more
    ensures StepsToOne(x, more) == StepsToOne(x, fuel)
  {
    StepsToOneIsFirstHit(x, fuel);
    FirstHitIsStepsToOne(x, StepsToOne(x, fuel).value, more);
  }

  /** Everything `collatz(x)` promises: the trajectory starts at x, steps
      by Next, ends at the first 1, and the length is its size. */
  lemma CollatzResultMeaning(x: int, fuel: nat)
    ensures CollatzResult(x, fuel).Some? ==>
      var (length, s) := CollatzResult(x, fuel).value;
      length == |s| && s[0] == x && s[|s| - 1] == 1 &&
      (forall i :: 0 <= i < |s| - 1 ==> s[i] != 1 && s[i + 1] == Next(s[i]))
    ensures CollatzResult(x, fuel).None? ==> forall j :: 0 <= j <= fuel ==> Iter(x, j) != 1
  {
    StepsToOneIsFirstHit(x, fuel);
  }

  /** 0 is a fixed point of the step, so `collatz(0)` runs forever. */
  lemma {:induction false} ZeroNeverStops(fuel: nat)
    ensures CollatzResult(0, fuel) == None
  {
    if fuel > 0 {
      ZeroNeverStops(fuel - 1);
    }
  }

  /** The example: `collatz(5)` is (6, [5, 16, 8, 4, 2, 1]), for any
      budget of at least the 5 steps it takes. */
  lemma CollatzOfFive(fuel: nat)
    requires fuel >= 5
    ensures CollatzResult(5, fuel) == Some((6, [5, 16, 8, 4, 2, 1]))
  {
    StepsOfFive(fuel);
    OrbitOfFive();
  }

  lemma OrbitOfFive()
    ensures Orbit(5, 5) == [5, 16, 8, 4, 2, 1]
  {
    assert Iter(5, 1) == 16 && Iter(5, 2) == 8 && Iter(5, 3) == 4;
    assert Iter(5, 4) == 2 && Iter(5, 5) == 1;
    var o := Orbit(5, 5);
    assert o[0] == 5 && o[1] == 16 && o[2] == 8 && o[3] == 4 && o[4] == 2 && o[5] == 1;
  }

  /** One step back along a trajectory adds one step. */
  lemma OneStep(x: int, fuel: nat, k: nat)
    requires x != 1 && StepsToOne(Next(x), fuel) == Some(k)
    ensures StepsToOne(x, fuel + 1) == Some(k + 1)
  {
  }

  /** `collatz`: the while loop, given at most fuel steps. */
  method Collatz(startingNumber: int, fuel: nat) returns (r: Option<(int, seq<int>)>)
    ensures r == CollatzResult(startingNumber, fuel)
  {
    var current := startingNumber;
    var sequence := [startingNumber];
    var length := 1;
    var remaining := fuel;
    while current != 1
      invariant length >= 1 && current == Iter(startingNumber, length - 1)
      invariant sequence == Orbit(startingNumber, length - 1)
      invariant StepsToOne(startingNumber, fuel) == Shift(StepsToOne(current, remaining), length - 1)
      decreases remaining
    {
      if remaining == 0 {
        return None;
      }
      current := Next(current);
      sequence := sequence + [current];
      length := length + 1;
      remaining := remaining - 1;
    }
    return Some((length, sequence));
  }

  /** `memoize(collatz)`: a cache from arguments to results. The budget is
      fixed for the cache, so every cached value is the result for that
      budget. */
  class CollatzMemo {
    const fuel: nat
    var memoCache: map<int, (int, seq<int>)>

    ghost predicate Valid()
      reads this
    {
      forall num :: num in memoCache ==> CollatzResult(num, fuel) == Some(memoCache[num])
    }

    constructor (fuel: nat)
      ensures this.fuel == fuel && memoCache == map[] && Valid()
    {
      this.fuel := fuel;
      memoCache := map[];
    }

    /** The wrapped call: a cached value is returned as it is; otherwise
        the result is computed, and cached when the loop stops. */
    method Call(num: int) returns (r: Option<(int, seq<int>)>)
      requires Valid()
      modifies this
      ensures Valid()
      ensures r == CollatzResult(num, fuel)
      ensures old(num in memoCache) ==> memoCache == old(memoCache)
      ensures !old(num in memoCache) ==>
        memoCache == if r.Some? then old(memoCache)[num := r.value] else old(memoCache)
    {
      if num in memoCache {
        return Some(memoCache[num]);
      }
      r := Collatz(num, fuel);
      if r.Some? {
        memoCache := memoCache[num := r.value];
      }
    }
  }

  /** The length of the trajectory of n within the budget (0 if it does
      not reach 1). */
  function Length(n: int, fuel: nat): int
  {
    var steps := StepsToOne(n, fuel);
    if steps.None? then 0 else steps.value + 1
  }

  /** `find_longest_collatz`: the longest trajectory among the starts
      2 .. max_limit - 1, and its smallest start; (0, 0) when there is no
      start. None when some trajectory does not reach 1 within the
      budget. */
  method FindLongestCollatz(maxLimit: int, memo: CollatzMemo) returns (r: Option<(int, int)>)
    requires memo.Valid()
    modifies memo
    ensures memo.Valid() && old(memo.memoCache).Keys <= memo.memoCache.Keys
    ensures r.None? <==> exists n :: 2 <= n < maxLimit && CollatzResult(n, memo.fuel).None?
    ensures r.Some? && maxLimit <= 2 ==> r.value == (0, 0)
    ensures r.Some? && maxLimit > 2 ==>
      var (maxLength, start) := r.value;
      2 <= start < maxLimit && maxLength == Length(start, memo.fuel) &&
      (forall n :: 2 <= n < maxLimit ==> Length(n, memo.fuel) <= maxLength) &&
      (forall n :: 2 <= n < start ==> Length(n, memo.fuel) < maxLength)
  {
    var maxLength := 0;
    var startingNumberWithMaxLength := 0;
    var number := 2;
    while number < maxLimit
      invariant 2 <= number && (number <= maxLimit || number == 2)
      invariant memo.Valid() && old(memo.memoCache).Keys <= memo.memoCache.Keys
      invariant forall n :: 2 <= n < number ==> CollatzResult(n, memo.fuel).Some?
      invariant number == 2 ==> maxLength == 0 && startingNumberWithMaxLength == 0
      invariant number > 2 ==>
        2 <= startingNumberWithMaxLength < number &&
        maxLength == Length(startingNumberWithMaxLength, memo.fuel) &&
        (forall n :: 2 <= n < number ==> Length(n, memo.fuel) <= maxLength) &&
        (forall n :: 2 <= n < startingNumberWithMaxLength ==> Length(n, memo.fuel) < maxLength)
    {
      var result := memo.Call(number);
      if result.None? {
        return None;
      }
      var length := result.value.0;
      CollatzResultMeaning(number, memo.fuel);
      if length > maxLength {
        maxLength := length;
        startingNumberWithMaxLength := number;
      }
      number := number + 1;
    }
    return Some((maxLength, startingNumberWithMaxLength));
  }

  /** The trajectory lengths of 2 .. 9: 9 has the longest, 20, so
      `find_longest_collatz(10)` is (20, 9) and not (7, 9), for any
      budget of at least the 19 steps 9 takes. */
  lemma LongestBelowTen(fuel: nat)
    requires fuel >= 19
    ensures Length(2, fuel) == 2 && Length(3, fuel) == 8 && Length(4, fuel) == 3 && Length(5, fuel) == 6
    ensures Length(6, fuel) == 9 && Length(7, fuel) == 17 && Length(8, fuel) == 4 && Length(9, fuel) == 20
    ensures forall n :: 2 <= n < 10 ==> Length(n, fuel) <= 20
    ensures forall n :: 2 <= n < 9 ==> Length(n, fuel) < 20
  {
    StepsBelowTen(fuel);
    LengthOfSteps(2, fuel);
    LengthOfSteps(3, fuel);
    LengthOfSteps(4, fuel);
    LengthOfSteps(5, fuel);
    LengthOfSteps(6, fuel);
    LengthOfSteps(7, fuel);
    LengthOfSteps(8, fuel);
    LengthOfSteps(9, fuel);
  }

  lemma LengthOfSteps(n: int, fuel: nat)
    requires StepsToOne(n, fuel).Some?
    ensures Length(n, fuel) == StepsToOne(n, fuel).value + 1
  {
  }

  lemma StepsBelowTen(fuel: nat)
    requires fuel >= 19
    ensures StepsToOne(2, fuel) == Some(1) && StepsToOne(3, fuel) == Some(7)
    ensures StepsToOne(4, fuel) == Some(2) && StepsToOne(5, fuel) == Some(5)
    ensures StepsToOne(6, fuel) == Some(8) && StepsToOne(7, fuel) == Some(16)
    ensures StepsToOne(8, fuel) == Some(3) && StepsToOne(9, fuel) == Some(19)
  {
    StepsOfTwo(fuel);
    StepsOfFour(fuel);
    StepsOfEight(fuel);
    StepsOfFive(fuel);
    StepsOfThree(fuel);
    StepsOfSix(fuel);
    StepsOfSeven(fuel);
    StepsOfNine(fuel);
  }

  lemma StepsOfTwo(fuel: nat)
    requires fuel >= 1
    ensures StepsToOne(2, fuel) == Some(1)
  {
    OneStep(2, fuel - 1, 0);
  }

  lemma StepsOfFour(fuel: nat)
    requires fuel >= 2
    ensures StepsToOne(4, fuel) == Some(2)
  {
    StepsOfTwo(fuel - 1);
    OneStep(4, fuel - 1, 1);
  }

  lemma StepsOfEight(fuel: nat)
    requires fuel >= 3
    ensures StepsToOne(8, fuel) == Some(3)
  {
    StepsOfFour(fuel - 1);
    OneStep(8, fuel - 1, 2);
  }

  lemma StepsOfFive(fuel: nat)
    requires fuel >= 5
    ensures StepsToOne(5, fuel) == Some(5)
  {
    StepsOfEight(fuel - 2);
    OneStep(16, fuel - 2, 3);
    OneStep(5, fuel - 1, 4);
  }

  lemma StepsOfTen(fuel: nat)
    requires fuel >= 6
    ensures StepsToOne(10, fuel) == Some(6)
  {
    StepsOfFive(fuel - 1);
    OneStep(10, fuel - 1, 5);
  }

  lemma StepsOfThree(fuel: nat)
    requires fuel >= 7
    ensures StepsToOne(3, fuel) == Some(7)
  {
    StepsOfTen(fuel - 1);
    OneStep(3, fuel - 1, 6);
  }

  lemma StepsOfSix(fuel: nat)
    requires fuel >= 8
    ensures StepsToOne(6, fuel) == Some(8)
  {
    StepsOfThree(fuel - 1);
    OneStep(6, fuel - 1, 7);
  }

  lemma StepsOfSeven(fuel: nat)
    requires fuel >= 16
    ensures StepsToOne(7, fuel) == Some(16)
  {
    StepsOfTen(fuel - 10);
    OneStep(20, fuel - 10, 6);
    OneStep(40, fuel - 9, 7);
    OneStep(13, fuel - 8, 8);
    OneStep(26, fuel - 7, 9);
    OneStep(52, fuel - 6, 10);
    OneStep(17, fuel - 5, 11);
    OneStep(34, fuel - 4, 12);
    OneStep(11, fuel - 3, 13);
    OneStep(22, fuel - 2, 14);
    OneStep(7, fuel - 1, 15);
  }

  lemma StepsOfNine(fuel: nat)
    requires fuel >= 19
    ensures StepsToOne(9, fuel) == Some(19)
  {
    StepsOfSeven(fuel - 3);
    OneStep(14, fuel - 3, 16);
    OneStep(28, fuel - 2, 17);
    OneStep(9, fuel - 1, 18);
  }
}
