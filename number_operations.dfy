/** The counting and list routines of `Features/NumberOperations.py`:
    coin change by dynamic programming, the longest recurring decimal
    cycle, lexicographic permutations, Sundays on the first of a month,
    range filtering, the prime-power least common multiple, name scores,
    digit-preserving multiples and distinct powers. */
module NumberOperations {
  import opened Wrappers
  import opened Arith
  import opened Sorting
  import opened NumberTheory
  import opened MyUtils
  import opened PrimeNumbers
  import opened MathOperations
  import TableOperations

  // ---------------------------------------------------------------------
  // count_ways_to_make_change

  predicate PositiveCoins(coins: seq<int>)
  {
    forall i :: 0 <= i < |coins| ==> coins[i] > 0
  }

  /** The number of ways to pay t with the coins of `coins`, each usable any
      number of times, counted without regard to order: either the last
      coin is never used, or it is used at least once. */
  function Ways(coins: seq<int>, t: int): nat
    requires PositiveCoins(coins)
    decreases |coins|, t
  {
    if t < 0 then 0
    else if coins == [] then (if t == 0 then 1 else 0)
    else Ways(coins[..|coins| - 1], t) + Ways(coins, t - coins[|coins| - 1])
  }

  /** The empty sum can be paid in exactly one way (`dp[0]` stays 1). */
  lemma {:induction false} WaysZero(coins: seq<int>)
    requires PositiveCoins(coins)
    ensures Ways(coins, 0) == 1
    decreases |coins|
  {
    if coins != [] {
      WaysZero(coins[..|coins| - 1]);
    }
  }

  /** A single coin c pays t exactly when c divides t. */
  lemma {:induction false} WaysSingleCoin(c: int, t: int)
    requires c > 0 && t >= 0
    ensures Ways([c], t) == if t % c == 0 then 1 else 0
    decreases t
  {
    assert [c][..0] == [];
    if t >= c {
      WaysSingleCoin(c, t - c);
      ModAddMultiple(t - c, 1, c);
    } else {
      ModUnique(t, 0, t, c);
    }
  }

  /** With coins p + [a, b], paying t splits into: no coin a at all, or at
      least one coin a. */
  lemma {:induction false} WaysLastButOne(p: seq<int>, a: int, b: int, t: int)
    requires PositiveCoins(p) && a > 0 && b > 0
    ensures PositiveCoins(p + [a, b]) && PositiveCoins(p + [b])
    ensures Ways(p + [a, b], t) == Ways(p + [b], t) + Ways(p + [a, b], t - a)
    decreases t
  {
    var ab, pa, pb := p + [a, b], p + [a], p + [b];
    assert ab[..|ab| - 1] == pa;
    assert pa[..|pa| - 1] == p;
    assert pb[..|pb| - 1] == p;
    if t >= 0 {
      WaysLastButOne(p, a, b, t - b);
      // Ways(ab, t) = Ways(pa, t) + Ways(ab, t - b)
      //             = Ways(p, t) + Ways(pa, t - a) + Ways(pb, t - b) + Ways(ab, t - b - a)
      if t - a >= 0 {
        assert Ways(ab, t - a) == Ways(pa, t - a) + Ways(ab, t - a - b);
      }
    }
  }

  /** The count does not depend on the order of the coins: swapping two
      adjacent coins changes nothing, so any reordering changes nothing. */
  lemma {:induction false} WaysSwap(p: seq<int>, a: int, b: int, t: int)
    requires PositiveCoins(p) && a > 0 && b > 0
    ensures PositiveCoins(p + [a, b]) && PositiveCoins(p + [b, a])
    ensures Ways(p + [a, b], t) == Ways(p + [b, a], t)
    decreases t
  {
    WaysLastButOne(p, a, b, t);
    var ba, pb := p + [b, a], p + [b];
    assert ba[..|ba| - 1] == pb;
    if t >= 0 {
      WaysSwap(p, a, b, t - a);
    }
  }

  /** The coins above 0, in order. */
  function PositivePart(coins: seq<int>): (r: seq<int>)
    ensures PositiveCoins(r)
  {
    if coins == [] then []
    else PositivePart(coins[..|coins| - 1]) + (if coins[|coins| - 1] > 0 then [coins[|coins| - 1]] else [])
  }

  /** How many coins are 0. */
  function ZeroCoins(coins: seq<int>): nat
  {
    if coins == [] then 0
    else ZeroCoins(coins[..|coins| - 1]) + (if coins[|coins| - 1] == 0 then 1 else 0)
  }

  predicate HasNegativeCoin(coins: seq<int>)
  {
    exists i :: 0 <= i < |coins| && coins[i] < 0
  }

  /** What `count_ways_to_make_change` computes coin by coin: a coin of 0
      runs `dp[i] += dp[i - 0]` over the whole list and doubles every
      count, so each one doubles the result. */
  function ChangeCount(coins: seq<int>, t: int): int
  {
    Pow(2, ZeroCoins(coins)) * Ways(PositivePart(coins), t)
  }

  /** `count_ways_to_make_change`: `dp[i]` holds the number of ways to pay
      i with the coins seen so far. A negative target leaves `dp` empty and
      the access `dp[0]` fails; a negative coin c makes the inner loop reach
      i = target_sum, where `dp[i - c]` lies past the end (if an earlier
      negative index has not failed already). Both failures are `None`. */
  method CountWaysToMakeChange(coins: seq<int>, targetSum: int) returns (r: Option<int>)
    ensures targetSum < 0 || HasNegativeCoin(coins) ==> r == None
    ensures targetSum >= 0 && !HasNegativeCoin(coins) ==> r == Some(ChangeCount(coins, targetSum))
    ensures targetSum >= 0 && PositiveCoins(coins) ==> r == Some(Ways(coins, targetSum))
  {
    if targetSum < 0 {
      return None;
    }
    var dp := new int[targetSum + 1](i => if i == 0 then 1 else 0);
    forall i | 0 <= i <= targetSum
      ensures dp[i] == ChangeCount([], i)
    {
    }
    var k := 0;
    while k < |coins|
      invariant 0 <= k <= |coins|
      invariant forall j :: 0 <= j < k ==> coins[j] >= 0
      invariant forall i :: 0 <= i <= targetSum ==> dp[i] == ChangeCount(coins[..k], i)
    {
      if coins[k] < 0 {
        return None;
      }
      ApplyCoin(dp, coins, k);
      k := k + 1;
    }
    assert coins[..|coins|] == coins;
    if PositiveCoins(coins) {
      PositivePartOfPositive(coins);
    }
    return Some(dp[targetSum]);
  }

  /** One turn of the outer loop, for a coin that is not negative. */
  method ApplyCoin(dp: array<int>, coins: seq<int>, k: int)
    requires 0 <= k < |coins| && coins[k] >= 0
    requires forall i :: 0 <= i < dp.Length ==> dp[i] == ChangeCount(coins[..k], i)
    modifies dp
    ensures forall i :: 0 <= i < dp.Length ==> dp[i] == ChangeCount(coins[..k + 1], i)
  {
    ghost var done := coins[..k];
    CoinSplit(coins, k);
    if coins[k] == 0 {
      DoubleCounts(dp);
      forall i | 0 <= i < dp.Length
        ensures dp[i] == ChangeCount(coins[..k + 1], i)
      {
        ZeroCoinStep(coins, k, i);
      }
    } else {
      AddCoin(dp, coins[k], PositivePart(done), Pow(2, ZeroCoins(done)));
      forall i | 0 <= i < dp.Length
        ensures dp[i] == ChangeCount(coins[..k + 1], i)
      {
        PositiveCoinStep(coins, k, i);
      }
    }
  }

  lemma ZeroCoinStep(coins: seq<int>, k: int, i: int)
    requires 0 <= k < |coins| && coins[k] == 0
    ensures ChangeCount(coins[..k + 1], i) == 2 * ChangeCount(coins[..k], i)
  {
    CoinSplit(coins, k);
    var p := PositivePart(coins[..k]);
    assert PositivePart(coins[..k + 1]) == p;
    DoubledScale(ZeroCoins(coins[..k]), Ways(p, i));
  }

  lemma PositiveCoinStep(coins: seq<int>, k: int, i: int)
    requires 0 <= k < |coins| && coins[k] > 0
    ensures ChangeCount(coins[..k + 1], i)
      == Pow(2, ZeroCoins(coins[..k])) * Ways(PositivePart(coins[..k]) + [coins[k]], i)
  {
    CoinSplit(coins, k);
  }

  /** One more coin: the positive part and the count of zeros grow by it. */
  lemma CoinSplit(coins: seq<int>, k: int)
    requires 0 <= k < |coins|
    ensures coins[..k + 1] == coins[..k] + [coins[k]]
    ensures PositivePart(coins[..k + 1]) == PositivePart(coins[..k]) + (if coins[k] > 0 then [coins[k]] else [])
    ensures ZeroCoins(coins[..k + 1]) == ZeroCoins(coins[..k]) + (if coins[k] == 0 then 1 else 0)
  {
    assert coins[..k + 1][..k] == coins[..k];
  }

  lemma DoubledScale(z: nat, w: int)
    ensures 2 * (Pow(2, z) * w) == Pow(2, z + 1) * w
  {
  }

  /** With positive coins only, the model is the plain count. */
  lemma {:induction false} PositivePartOfPositive(coins: seq<int>)
    requires PositiveCoins(coins)
    ensures PositivePart(coins) == coins && ZeroCoins(coins) == 0
  {
    if coins != [] {
      var init := coins[..|coins| - 1];
      assert PositiveCoins(init) by {
        forall i | 0 <= i < |init| ensures init[i] > 0 {
          assert init[i] == coins[i];
        }
      }
      PositivePartOfPositive(init);
      assert coins == init + [coins[|coins| - 1]];
    }
  }

  /** The inner loop for a coin of 0: `dp[i] += dp[i - 0]` for every i. */
  method DoubleCounts(dp: array<int>)
    modifies dp
    ensures forall j :: 0 <= j < dp.Length ==> dp[j] == 2 * old(dp[j])
  {
    var i := 0;
    while i < dp.Length
      invariant 0 <= i <= dp.Length
      invariant forall j :: 0 <= j < i ==> dp[j] == 2 * old(dp[j])
      invariant forall j :: i <= j < dp.Length ==> dp[j] == old(dp[j])
    {
      dp[i] := dp[i] + dp[i - 0];
      i := i + 1;
    }
  }

  /** The inner loop of `count_ways_to_make_change` for a positive coin: in
      ascending order, `dp[i] += dp[i - coin]` turns the counts for the
      coins so far into the counts with one more coin (each count scaled by
      the same factor, which the coins of 0 so far contribute). */
  method AddCoin(dp: array<int>, coin: int, ghost done: seq<int>, ghost scale: int)
    requires PositiveCoins(done) && coin > 0
    requires forall j :: 0 <= j < dp.Length ==> dp[j] == scale * Ways(done, j)
    modifies dp
    ensures PositiveCoins(done + [coin])
    ensures forall j :: 0 <= j < dp.Length ==> dp[j] == scale * Ways(done + [coin], j)
  {
    ghost var next := done + [coin];
    WaysWithCoin(done, coin, 0);
    var i := if coin < dp.Length then coin else dp.Length;
    forall j | 0 <= j < i
      ensures dp[j] == scale * Ways(next, j)
    {
      BelowCoin(done, coin, j, scale);
    }
    while i < dp.Length
      invariant 0 <= i <= dp.Length
      invariant forall j :: 0 <= j < i ==> dp[j] == scale * Ways(next, j)
      invariant forall j :: i <= j < dp.Length ==> dp[j] == scale * Ways(done, j)
    {
      AddCoinStep(done, coin, i, scale, dp[i], dp[i - coin]);
      dp[i] := dp[i] + dp[i - coin];
      i := i + 1;
    }
  }

  /** Amounts below the new coin keep their counts. */
  lemma BelowCoin(done: seq<int>, coin: int, j: int, scale: int)
    requires PositiveCoins(done) && coin > 0 && 0 <= j < coin
    ensures PositiveCoins(done + [coin])
    ensures scale * Ways(done + [coin], j) == scale * Ways(done, j)
  {
    WaysWithCoin(done, coin, j);
  }

  /** `dp[i] += dp[i - coin]` on scaled counts. */
  lemma AddCoinStep(done: seq<int>, coin: int, i: int, scale: int, x: int, y: int)
    requires PositiveCoins(done) && coin > 0 && i >= coin
    requires PositiveCoins(done + [coin])
    requires x == scale * Ways(done, i) && y == scale * Ways(done + [coin], i - coin)
    ensures x + y == scale * Ways(done + [coin], i)
  {
    WaysWithCoin(done, coin, i);
    ScaledSum(scale, Ways(done, i), Ways(done + [coin], i - coin));
  }

  lemma ScaledSum(m: int, a: int, b: int)
    ensures m * a + m * b == m * (a + b)
  {
  }

  /** Paying t with one more coin: without it, or with it at least once. */
  lemma WaysWithCoin(done: seq<int>, coin: int, t: int)
    requires PositiveCoins(done) && coin > 0 && t >= 0
    ensures PositiveCoins(done + [coin])
    ensures Ways(done + [coin], t) == Ways(done, t) + Ways(done + [coin], t - coin)
  {
    assert (done + [coin])[..|done|] == done;
  }

  // ---------------------------------------------------------------------
  // counting_sundays

  /** The Gregorian leap-year rule. */
  predicate IsLeap(year: int)
  {
    (year % 4 == 0 && year % 100 != 0) || year % 400 == 0
  }

  /** The length of each month, as the `if`/`elif` chain gives it. */
  function MonthDays(year: int, month: int): int
  {
    if month == 4 || month == 6 || month == 9 || month == 11 then 30
    else if month == 2 then (if IsLeap(year) then 29 else 28)
    else 31
  }

  /** The twelve month lengths of `year`. */
  function MonthLengths(year: int): (r: seq<int>)
    ensures |r| == 12
  {
    Calendar(if IsLeap(year) then 29 else 28)
  }

  /** The month lengths of a year whose February has `feb` days. */
  function Calendar(feb: int): (r: seq<int>)
    ensures |r| == 12
  {
    [31, feb, 31, 30, 31, 30, 31, 31, 30, 31, 30, 31]
  }

  lemma MonthLengthsAt(year: int, month: int)
    requires 1 <= month <= 12
    ensures MonthLengths(year)[month - 1] == MonthDays(year, month)
  {
  }

  function YearDays(year: int): int
  {
    if IsLeap(year) then 366 else 365
  }

  /** Starting from day number `day` and adding the month lengths `lens`
      one by one: how many of the day numbers reached are divisible by 7. */
  function Hits(day: int, lens: seq<int>): nat
    decreases |lens|
  {
    if lens == [] then 0
    else (if (day + lens[0]) % 7 == 0 then 1 else 0) + Hits(day + lens[0], lens[1..])
  }

  /** The day number reached after adding the month lengths `lens`. */
  function After(day: int, lens: seq<int>): int
    decreases |lens|
  {
    if lens == [] then day else After(day + lens[0], lens[1..])
  }

  /** The count over the years minYear..maxYear-1, starting from `day`. */
  function Sundays(minYear: int, maxYear: int, day: int): nat
    decreases maxYear - minYear
  {
    if minYear >= maxYear then 0
    else Hits(day, MonthLengths(minYear)) + Sundays(minYear + 1, maxYear, After(day, MonthLengths(minYear)))
  }

  /** The twelve months make up the year. */
  lemma YearIsTwelveMonths(year: int, day: int)
    ensures After(day, MonthLengths(year)) == day + YearDays(year)
  {
    CalendarDays(if IsLeap(year) then 29 else 28, day);
  }

  lemma CalendarDays(feb: int, day: int)
    ensures After(day, Calendar(feb)) == day + 337 + feb
  {
    var q1, q2, q3, q4 := [31, feb, 31], [30, 31, 30], [31, 31, 30], [31, 30, 31];
    assert Calendar(feb) == q1 + q2 + q3 + q4;
    AfterConcat(day, q1 + q2 + q3, q4);
    AfterConcat(day, q1 + q2, q3);
    AfterConcat(day, q1, q2);
    QuarterDays(day, 31, feb, 31);
    QuarterDays(day + 62 + feb, 30, 31, 30);
    QuarterDays(day + 153 + feb, 31, 31, 30);
    QuarterDays(day + 245 + feb, 31, 30, 31);
  }

  lemma QuarterDays(day: int, a: int, b: int, c: int)
    ensures After(day, [a, b, c]) == day + a + b + c
  {
    var s := [a, b, c];
    assert s[1..] == [b, c] && [b, c][1..] == [c] && [c][1..] == [];
    assert After(day + a + b, [c]) == day + a + b + c;
    assert After(day + a, [b, c]) == day + a + b + c;
  }

  lemma {:induction false} AfterConcat(day: int, a: seq<int>, b: seq<int>)
    ensures After(day, a + b) == After(After(day, a), b)
    decreases |a|
  {
    if a != [] {
      assert (a + b)[1..] == a[1..] + b;
      AfterConcat(day + a[0], a[1..], b);
    } else {
      assert a + b == b;
    }
  }

  lemma AfterDrop(day: int, lens: seq<int>, k: int)
    requires 0 <= k < |lens|
    ensures After(day, lens[k..]) == After(day + lens[k], lens[k + 1..])
    ensures Hits(day, lens[k..]) == (if (day + lens[k]) % 7 == 0 then 1 else 0) + Hits(day + lens[k], lens[k + 1..])
  {
    assert lens[k..][1..] == lens[k + 1..];
  }

  lemma MonthsStart(day: int, lens: seq<int>)
    ensures 0 + Hits(day, lens[0..]) == Hits(day, lens) && After(day, lens[0..]) == After(day, lens)
  {
    assert lens[0..] == lens;
  }

  lemma MonthsDone(day: int, lens: seq<int>, d: int, hits: int, k: int)
    requires k == |lens|
    requires hits + Hits(d, lens[k..]) == Hits(day, lens) && After(d, lens[k..]) == After(day, lens)
    ensures hits == Hits(day, lens) && d == After(day, lens)
  {
    assert lens[k..] == [];
  }

  /** One month of the loop: its day is counted when it falls on a
      multiple of 7, and the rest of the year is what remains to count. */
  lemma MonthStep(day: int, lens: seq<int>, d: int, hits: int, k: int, days: int)
    requires 0 <= k < |lens| && days == lens[k]
    requires hits + Hits(d, lens[k..]) == Hits(day, lens) && After(d, lens[k..]) == After(day, lens)
    ensures (if (d + days) % 7 == 0 then hits + 1 else hits) + Hits(d + days, lens[k + 1..]) == Hits(day, lens)
    ensures After(d + days, lens[k + 1..]) == After(day, lens)
  {
    AfterDrop(d, lens, k);
  }

  lemma {:induction false} HitsBound(day: int, lens: seq<int>)
    ensures Hits(day, lens) <= |lens|
    decreases |lens|
  {
    if lens != [] {
      HitsBound(day + lens[0], lens[1..]);
    }
  }

  /** At most one first-of-month Sunday per month, and none for an empty
      range of years. */
  lemma {:induction false} SundaysBound(minYear: int, maxYear: int, day: int)
    ensures Sundays(minYear, maxYear, day) <= if minYear < maxYear then 12 * (maxYear - minYear) else 0
    decreases maxYear - minYear
  {
    if minYear < maxYear {
      HitsBound(day, MonthLengths(minYear));
      SundaysBound(minYear + 1, maxYear, After(day, MonthLengths(minYear)));
    }
  }

  lemma {:induction false} HitsShift(day: int, lens: seq<int>, k: int)
    ensures Hits(day + 7 * k, lens) == Hits(day, lens)
    ensures After(day + 7 * k, lens) == After(day, lens) + 7 * k
    decreases |lens|
  {
    if lens != [] {
      HitsShift(day + lens[0], lens[1..], k);
      ModAddMultiple(day + lens[0], k, 7);
    }
  }

  /** Only the weekday of the starting day matters. */
  lemma {:induction false} SundaysWeekShift(minYear: int, maxYear: int, day: int, k: int)
    ensures Sundays(minYear, maxYear, day + 7 * k) == Sundays(minYear, maxYear, day)
    decreases maxYear - minYear
  {
    if minYear < maxYear {
      HitsShift(day, MonthLengths(minYear), k);
      SundaysWeekShift(minYear + 1, maxYear, After(day, MonthLengths(minYear)), k);
    }
  }

  lemma LeapPeriod(year: int)
    ensures IsLeap(year + 400) == IsLeap(year)
  {
    ModAddMultiple(year, 100, 4);
    ModAddMultiple(year, 4, 100);
    ModAddMultiple(year, 1, 400);
  }

  /** The Gregorian calendar repeats every 400 years. */
  lemma {:induction false} SundaysPeriod(minYear: int, maxYear: int, day: int)
    ensures Sundays(minYear + 400, maxYear + 400, day) == Sundays(minYear, maxYear, day)
    decreases maxYear - minYear
  {
    if minYear < maxYear {
      LeapPeriod(minYear);
      assert MonthLengths(minYear + 400) == MonthLengths(minYear);
      SundaysPeriod(minYear + 1, maxYear, After(day, MonthLengths(minYear)));
    }
  }

  /** The day number after the years a..b-1. */
  function DayAfterYears(a: int, b: int, day: int): int
    decreases b - a
  {
    if a >= b then day else DayAfterYears(a + 1, b, day + YearDays(a))
  }

  /** Counting over two consecutive ranges of years is counting over their
      union, the second range starting where the first one ends. */
  lemma {:induction false} SundaysSplit(a: int, b: int, c: int, day: int)
    requires a <= b <= c
    ensures Sundays(a, c, day) == Sundays(a, b, day) + Sundays(b, c, DayAfterYears(a, b, day))
    decreases b - a
  {
    if a < b {
      YearIsTwelveMonths(a, day);
      SundaysSplit(a + 1, b, c, After(day, MonthLengths(a)));
    }
  }

  /** `counting_sundays`: a month is counted when the day number reached
      after adding its length is divisible by 7. */
  method CountingSundays(maxYear: int, minYear: int, day: int) returns (sundayCount: int)
    ensures sundayCount == Sundays(minYear, maxYear, day)
  {
    sundayCount := 0;
    var year, d := minYear, day;
    while year < maxYear
      invariant sundayCount + Sundays(year, maxYear, d) == Sundays(minYear, maxYear, day)
      decreases maxYear - year
    {
      var hits;
      hits, d := CountYear(year, d);
      sundayCount := sundayCount + hits;
      year := year + 1;
    }
  }

  /** One pass of the month loop of `counting_sundays` over `year`. */
  method CountYear(year: int, day: int) returns (hits: int, d: int)
    ensures hits == Hits(day, MonthLengths(year))
    ensures d == After(day, MonthLengths(year))
  {
    forall m | 1 <= m <= 12
      ensures MonthLengths(year)[m - 1] == MonthDays(year, m)
    {
      MonthLengthsAt(year, m);
    }
    hits, d := CountMonths(year, day, MonthLengths(year));
  }

  /** The month loop itself, against any list of twelve lengths that the
      `if`/`elif` chain gives. */
  method CountMonths(year: int, day: int, ghost lens: seq<int>) returns (hits: int, d: int)
    requires |lens| == 12 && forall m :: 1 <= m <= 12 ==> lens[m - 1] == MonthDays(year, m)
    ensures hits == Hits(day, lens) && d == After(day, lens)
  {
    MonthsStart(day, lens);
    hits, d := 0, day;
    var month := 1;
    while month < 13
      invariant 1 <= month <= 13
      invariant hits + Hits(d, lens[month - 1..]) == Hits(day, lens)
      invariant After(d, lens[month - 1..]) == After(day, lens)
    {
      var days := MonthDays(year, month);
      MonthStep(day, lens, d, hits, month - 1, days);
      d := d + days;
      if d % 7 == 0 {
        hits := hits + 1;
      }
      month := month + 1;
    }
    MonthsDone(day, lens, d, hits, month - 1);
  }

  // ---------------------------------------------------------------------
  // list_filter

  /** Python's `s[lo:hi]` for 0 <= lo, hi <= |s|: empty when lo > hi. */
  function Slice(s: seq<int>, lo: nat, hi: nat): seq<int>
    requires lo <= |s| && hi <= |s|
  {
    if lo <= hi then s[lo..hi] else []
  }

  /** `list_filter`: sorts the list in place, then cuts out the run of
      elements in [minNum, maxNum) between the two bisection points. */
  method ListFilter(numList: array<int>, maxNum: int, minNum: int) returns (r: seq<int>)
    modifies numList
    ensures numList[..] == Sort(old(numList[..]))
    ensures Sorted(r)
    ensures forall x :: multiset(r)[x] == if minNum <= x < maxNum then multiset(old(numList[..]))[x] else 0
  {
    var sorted := Sort(numList[..]);
    forall i | 0 <= i < numList.Length {
      numList[i] := sorted[i];
    }
    assert numList[..] == sorted;
    var lo := BisectLeft(numList[..], minNum);
    var hi := BisectLeft(numList[..], maxNum);
    r := Slice(numList[..], lo, hi);
    FilterSlice(sorted, minNum, maxNum);
  }

  lemma FilterSlice(s: seq<int>, minNum: int, maxNum: int)
    requires Sorted(s)
    ensures var r := Slice(s, BisectLeft(s, minNum), BisectLeft(s, maxNum));
      Sorted(r) && forall x :: multiset(r)[x] == if minNum <= x < maxNum then multiset(s)[x] else 0
  {
    var lo, hi := BisectLeft(s, minNum), BisectLeft(s, maxNum);
    if lo <= hi {
      SliceParts(s, lo, hi, minNum, maxNum);
      ThreeParts(s, s[..lo], s[lo..hi], s[hi..], minNum, maxNum);
    } else {
      assert s[hi] >= maxNum && s[hi] < minNum;
    }
  }

  /** The cut points split a sorted list into the part below minNum, the
      sorted part in [minNum, maxNum) and the part from maxNum on. */
  lemma SliceParts(s: seq<int>, lo: int, hi: int, minNum: int, maxNum: int)
    requires Sorted(s) && 0 <= lo <= hi <= |s|
    requires forall j :: 0 <= j < lo ==> s[j] < minNum
    requires forall j :: lo <= j < |s| ==> s[j] >= minNum
    requires forall j :: 0 <= j < hi ==> s[j] < maxNum
    requires forall j :: hi <= j < |s| ==> s[j] >= maxNum
    ensures s == s[..lo] + s[lo..hi] + s[hi..]
    ensures Sorted(s[lo..hi])
    ensures forall i :: 0 <= i < |s[..lo]| ==> s[..lo][i] < minNum
    ensures forall i :: 0 <= i < |s[lo..hi]| ==> minNum <= s[lo..hi][i] < maxNum
    ensures forall i :: 0 <= i < |s[hi..]| ==> s[hi..][i] >= maxNum
  {
    assert s == s[..lo] + s[lo..hi] + s[hi..];
    var r := s[lo..hi];
    forall a, b | 0 <= a < b < |r| ensures r[a] <= r[b] {
      assert r[a] == s[lo + a] && r[b] == s[lo + b];
    }
  }

  /** Splitting a list into the part below a range, the part inside it and
      the part above it: the middle part keeps every element of the range
      as often as the whole list has it. */
  lemma ThreeParts(s: seq<int>, a: seq<int>, r: seq<int>, b: seq<int>, minNum: int, maxNum: int)
    requires s == a + r + b
    requires forall i :: 0 <= i < |a| ==> a[i] < minNum
    requires forall i :: 0 <= i < |r| ==> minNum <= r[i] < maxNum
    requires forall i :: 0 <= i < |b| ==> b[i] >= maxNum
    ensures forall x :: multiset(r)[x] == if minNum <= x < maxNum then multiset(s)[x] else 0
  {
    forall x ensures multiset(r)[x] == if minNum <= x < maxNum then multiset(s)[x] else 0 {
      if minNum <= x < maxNum {
        assert x !in a && x !in b;
        assert multiset(a)[x] == 0 && multiset(b)[x] == 0;
      } else {
        assert x !in r;
      }
    }
  }

  // ---------------------------------------------------------------------
  // name_score

  /** Python's `<=` on strings: lexicographic by code point, a prefix
      before any longer string. */
  predicate StrLe(a: string, b: string)
    decreases |a|
  {
    a == [] || (b != [] && (a[0] < b[0] || (a[0] == b[0] && StrLe(a[1..], b[1..]))))
  }

  lemma {:induction false} StrLeTotal(a: string, b: string)
    ensures StrLe(a, b) || StrLe(b, a)
    decreases |a|
  {
    if a != [] && b != [] && a[0] == b[0] {
      StrLeTotal(a[1..], b[1..]);
    }
  }

  lemma {:induction false} StrLeTrans(a: string, b: string, c: string)
    requires StrLe(a, b) && StrLe(b, c)
    ensures StrLe(a, c)
    decreases |a|
  {
    if a != [] && a[0] == b[0] && b[0] == c[0] {
      StrLeTrans(a[1..], b[1..], c[1..]);
    }
  }

  lemma {:induction false} StrLeAntisymmetric(a: string, b: string)
    requires StrLe(a, b) && StrLe(b, a)
    ensures a == b
    decreases |a|
  {
    if a != [] {
      StrLeAntisymmetric(a[1..], b[1..]);
      assert a == [a[0]] + a[1..] && b == [b[0]] + b[1..];
    }
  }

  /** String comparison is a total order, so sorting names is well defined. */
  lemma StrLeTotalOrder()
    ensures TotalOrder(StrLe)
  {
    forall a, b ensures StrLe(a, b) || StrLe(b, a) {
      StrLeTotal(a, b);
    }
    forall a, b, c | StrLe(a, b) && StrLe(b, c) ensures StrLe(a, c) {
      StrLeTrans(a, b, c);
    }
    forall a, b | StrLe(a, b) && StrLe(b, a) ensures a == b {
      StrLeAntisymmetric(a, b);
    }
  }

  /** The value of a name: 'A' counts 1, 'B' 2, and so on. */
  function LetterSum(name: string): int
  {
    if name == [] then 0 else (name[0] as int - 'A' as int + 1) + LetterSum(name[1..])
  }

  predicate IsUpperName(name: string)
  {
    forall i :: 0 <= i < |name| ==> 'A' <= name[i] <= 'Z'
  }

  /** Every capital letter is worth 1 to 26. */
  lemma {:induction false} LetterSumBounds(name: string)
    requires IsUpperName(name)
    ensures |name| <= LetterSum(name) <= 26 * |name|
  {
    if name != [] {
      LetterSumBounds(name[1..]);
    }
  }

  lemma LetterSumColin()
    ensures LetterSum("COLIN") == 53
  {
    assert "COLIN"[1..] == "OLIN" && "OLIN"[1..] == "LIN" && "LIN"[1..] == "IN";
    assert "IN"[1..] == "N" && "N"[1..] == "";
  }

  /** Each name's value weighted by its 1-based position. */
  function Score(names: seq<string>): int
  {
    if names == [] then 0
    else Score(names[..|names| - 1]) + |names| * LetterSum(names[|names| - 1])
  }

  /** The order the names arrive in does not matter: two lists with the
      same names sort to the same list and so score the same. */
  lemma ScoreIgnoresInputOrder(a: seq<string>, b: seq<string>)
    requires multiset(a) == multiset(b)
    ensures Score(SortBy(a, StrLe)) == Score(SortBy(b, StrLe))
  {
    StrLeTotalOrder();
    SortBySorted(a, StrLe);
    SortBySorted(b, StrLe);
    SortedUnique(SortBy(a, StrLe), SortBy(b, StrLe), StrLe);
  }

  /** `name_score`: sorts `names` in place, then adds up the position-
      weighted letter values. */
  method NameScore(names: array<string>) returns (totalScore: int)
    modifies names
    ensures names[..] == SortBy(old(names[..]), StrLe)
    ensures SortedBy(names[..], StrLe) && multiset(names[..]) == multiset(old(names[..]))
    ensures totalScore == Score(names[..])
  {
    SortNames(names);
    var sorted := names[..];
    totalScore := 0;
    var index := 0;
    while index < names.Length
      invariant 0 <= index <= names.Length
      invariant names[..] == sorted
      invariant totalScore == Score(sorted[..index])
    {
      ScoreStep(sorted, index);
      totalScore := totalScore + LetterSum(names[index]) * (index + 1);
      index := index + 1;
    }
    assert sorted[..names.Length] == sorted;
  }

  lemma ScoreStep(names: seq<string>, index: int)
    requires 0 <= index < |names|
    ensures Score(names[..index + 1]) == Score(names[..index]) + LetterSum(names[index]) * (index + 1)
  {
    assert names[..index + 1][..index] == names[..index];
  }

  /** `names.sort()`. */
  method SortNames(names: array<string>)
    modifies names
    ensures names[..] == SortBy(old(names[..]), StrLe)
    ensures SortedBy(names[..], StrLe) && multiset(names[..]) == multiset(old(names[..]))
  {
    var sorted := SortBy(names[..], StrLe);
    StrLeTotalOrder();
    SortBySorted(names[..], StrLe);
    forall i | 0 <= i < names.Length {
      names[i] := sorted[i];
    }
    assert names[..] == sorted;
  }

  // ---------------------------------------------------------------------
  // distinct_powers_count

  /** v is a^b for some a and b in lo..hi. */
  ghost predicate IsPowerIn(v: int, lo: int, hi: int)
  {
    exists a, b :: lo <= a <= hi && 0 <= lo <= b <= hi && v == Pow(a, b)
  }

  ghost predicate PowersSoFar(result: seq<int>, lo: int, hi: int, num: int, power: int)
  {
    forall v :: v in result <==>
      (exists a, b :: lo <= a < num && 0 <= lo <= b <= hi && v == Pow(a, b))
      || (exists b :: lo <= b < power && 0 <= b && v == Pow(num, b))
  }

  /** `distinct_powers_count`: every a^b with a, b in minNum..maxNum, once
      each, ascending, and how many there are. */
  method DistinctPowersCount(maxNum: int, minNum: int) returns (powers: seq<int>, count: int)
    requires minNum >= 0
    ensures StrictlySorted(powers)
    ensures forall v :: v in powers <==> IsPowerIn(v, minNum, maxNum)
    ensures count == |powers|
  {
    var result: seq<int> := [];
    var num := minNum;
    while num <= maxNum
      invariant minNum <= num && (minNum <= maxNum ==> num <= maxNum + 1)
      invariant maxNum < minNum ==> num == minNum
      invariant Distinct(result)
      invariant PowersSoFar(result, minNum, maxNum, num, minNum)
    {
      var power := minNum;
      while power <= maxNum
        invariant minNum <= power <= maxNum + 1
        invariant Distinct(result)
        invariant PowersSoFar(result, minNum, maxNum, num, power)
      {
        result := SetAdd(result, Pow(num, power));
        power := power + 1;
      }
      PowersRowDone(result, minNum, maxNum, num);
      num := num + 1;
    }
    PowersAllDone(result, minNum, maxNum, num);
    SortDistinct(result);
    powers := Sort(result);
    count := |result|;
  }

  lemma PowersRowDone(result: seq<int>, lo: int, hi: int, num: int)
    requires 0 <= lo <= num && PowersSoFar(result, lo, hi, num, hi + 1)
    ensures PowersSoFar(result, lo, hi, num + 1, lo)
  {
    forall v | v in result
      ensures exists a, b :: lo <= a < num + 1 && 0 <= lo <= b <= hi && v == Pow(a, b)
    {
      if exists b :: lo <= b < hi + 1 && 0 <= b && v == Pow(num, b) {
        var b :| lo <= b < hi + 1 && 0 <= b && v == Pow(num, b);
        assert lo <= num < num + 1 && 0 <= lo <= b <= hi && v == Pow(num, b);
      } else {
        var a, b :| lo <= a < num && 0 <= lo <= b <= hi && v == Pow(a, b);
        assert lo <= a < num + 1;
      }
    }
    forall a, b | lo <= a < num + 1 && 0 <= lo <= b <= hi
      ensures Pow(a, b) in result
    {
      if a == num {
        assert lo <= b < hi + 1 && 0 <= b && Pow(a, b) == Pow(num, b);
      } else {
        assert lo <= a < num && 0 <= lo <= b <= hi && Pow(a, b) == Pow(a, b);
      }
    }
  }

  lemma PowersAllDone(result: seq<int>, lo: int, hi: int, num: int)
    requires PowersSoFar(result, lo, hi, num, lo)
    requires lo <= num && (lo <= hi ==> num == hi + 1) && (hi < lo ==> num == lo)
    ensures forall v :: v in result <==> IsPowerIn(v, lo, hi)
  {
  }

  // ---------------------------------------------------------------------
  // fraction

  /** The remainder after i steps of the long division of 1 by d. */
  function Rem(d: int, i: nat): int
    requires d >= 2
  {
    if i == 0 then 1 else (Rem(d, i - 1) * 10) % d
  }

  /** The remainders are those of the powers of ten. */
  lemma {:induction false} RemIsPowerResidue(d: int, i: nat)
    requires d >= 2
    ensures Rem(d, i) == Pow(10, i) % d
  {
    if i == 0 {
      ModUnique(1, 0, 1, d);
    } else {
      RemIsPowerResidue(d, i - 1);
      ModUnique(Pow(10, i - 1) % d, 0, Pow(10, i - 1) % d, d);
      MulCongruent(Rem(d, i - 1), Pow(10, i - 1), 10, 10, d);
    }
  }

  /** A remainder stays in [0, d). */
  lemma RemRange(d: int, i: nat)
    requires d >= 2
    ensures 0 <= Rem(d, i) < d
  {
    if i == 0 {
    }
  }

  /** The first n remainders. */
  function Rems(d: int, n: nat): (r: seq<int>)
    requires d >= 2
    ensures |r| == n && forall i :: 0 <= i < n ==> r[i] == Rem(d, i)
  {
    if n == 0 then [] else Rems(d, n - 1) + [Rem(d, n - 1)]
  }

  /** The first n remainders are nonzero and pairwise different: the
      division has neither ended nor started repeating. */
  predicate Fresh(d: int, n: nat)
    requires d >= 2
  {
    (forall i :: 0 <= i < n ==> Rem(d, i) != 0)
    && (forall i, j :: 0 <= i < j < n ==> Rem(d, i) != Rem(d, j))
  }

  /** The division stops at step n: the remainder reached is zero or one
      seen before. */
  predicate StopsAt(d: int, n: nat)
    requires d >= 2
  {
    Fresh(d, n) && (Rem(d, n) == 0 || Rem(d, n) in Rems(d, n))
  }

  /** s without x. */
  function Without(s: seq<int>, x: int): (r: seq<int>)
    ensures forall y :: y in r <==> y in s && y != x
    ensures x !in s ==> r == s
    ensures Distinct(s) ==> Distinct(r) && |r| >= |s| - 1
  {
    if s == [] then []
    else if s[0] == x then Without(s[1..], x)
    else
      var t := Without(s[1..], x);
      assert Distinct(s) ==> s[0] !in s[1..];
      [s[0]] + t
  }

  /** The pigeonhole principle: distinct values in 1..hi-1 number at most hi - 1. */
  lemma {:induction false} Pigeonhole(s: seq<int>, hi: int)
    requires Distinct(s) && forall i :: 0 <= i < |s| ==> 1 <= s[i] < hi
    ensures |s| <= if hi >= 1 then hi - 1 else 0
    decreases hi
  {
    if s != [] {
      var t := Without(s, hi - 1);
      forall i | 0 <= i < |t| ensures 1 <= t[i] < hi - 1 {
        assert t[i] in t;
      }
      assert s[0] in s;
      Pigeonhole(t, hi - 1);
    }
  }

  /** A division that has not stopped after n steps has used n distinct
      nonzero remainders below d, so n < d. */
  lemma FreshBound(d: int, n: nat)
    requires d >= 2 && Fresh(d, n)
    ensures n <= d - 1
  {
    var s := Rems(d, n);
    forall i | 0 <= i < n ensures 1 <= s[i] < d {
      RemRange(d, i);
    }
    Pigeonhole(s, d);
  }

  function StopFrom(d: int, n: nat): (r: nat)
    requires d >= 2 && Fresh(d, n)
    ensures n <= r < d && StopsAt(d, r)
    decreases d - n
  {
    FreshBound(d, n);
    if Rem(d, n) == 0 || Rem(d, n) in Rems(d, n) then n
    else
      assert Fresh(d, n + 1) by {
        forall i | 0 <= i < n ensures Rem(d, i) != Rem(d, n) {
          assert Rems(d, n)[i] == Rem(d, i);
        }
      }
      FreshBound(d, n + 1);
      StopFrom(d, n + 1)
  }

  /** The step at which the long division of 1/d stops. */
  function Stop(d: int): (r: nat)
    requires d >= 2
    ensures r < d && StopsAt(d, r)
  {
    StopFrom(d, 0)
  }

  /** There is only one such step. */
  lemma StopUnique(d: int, n: nat)
    requires d >= 2 && StopsAt(d, n)
    ensures n == Stop(d)
  {
  }

  function IndexOf(s: seq<int>, x: int): (r: nat)
    requires x in s
    ensures r < |s| && s[r] == x && forall j :: 0 <= j < r ==> s[j] != x
  {
    if s[0] == x then 0 else 1 + IndexOf(s[1..], x)
  }

  /** The length of the recurring cycle of 1/d: 0 when the division ends. */
  function CycleLen(d: int): nat
    requires d >= 2
  {
    var n := Stop(d);
    if Rem(d, n) == 0 then 0 else n - IndexOf(Rems(d, n), Rem(d, n))
  }

  /** The cycle is shorter than d, and once the division has entered it the
      remainders repeat with that period; when there is no cycle the
      remainders stay 0 from the stopping step on (a terminating decimal). */
  lemma CycleLenMeaning(d: int)
    requires d >= 2
    ensures 0 <= CycleLen(d) < d
    ensures CycleLen(d) > 0 ==> forall i :: Stop(d) - CycleLen(d) <= i ==> Rem(d, i + CycleLen(d)) == Rem(d, i)
    ensures CycleLen(d) == 0 ==> forall i :: Stop(d) <= i ==> Rem(d, i) == 0
  {
    var n, len := Stop(d), CycleLen(d);
    if len > 0 {
      var start := n - len;
      assert Rem(d, start + len) == Rem(d, start);
      forall i | start <= i ensures Rem(d, i + len) == Rem(d, i) {
        Periodic(d, start, len, i);
      }
    } else {
      forall i | n <= i ensures Rem(d, i) == 0 {
        StaysZero(d, n, i);
      }
    }
  }

  lemma {:induction false} Periodic(d: int, start: nat, len: nat, i: nat)
    requires d >= 2 && start <= i && Rem(d, start + len) == Rem(d, start)
    ensures Rem(d, i + len) == Rem(d, i)
    decreases i - start
  {
    if i > start {
      Periodic(d, start, len, i - 1);
      assert i + len - 1 == (i - 1) + len;
    }
  }

  lemma {:induction false} StaysZero(d: int, n: nat, i: nat)
    requires d >= 2 && n <= i && Rem(d, n) == 0
    ensures Rem(d, i) == 0
    decreases i - n
  {
    if i > n {
      StaysZero(d, n, i - 1);
    }
  }

  /** 1/7 = 0.(142857). */
  lemma CycleOfSeven()
    ensures CycleLen(7) == 6
  {
    assert Rem(7, 0) == 1 && Rem(7, 1) == 3 && Rem(7, 2) == 2 && Rem(7, 3) == 6;
    assert Rem(7, 4) == 4 && Rem(7, 5) == 5 && Rem(7, 6) == 1;
    assert Rems(7, 6) == [1, 3, 2, 6, 4, 5];
    StopUnique(7, 6);
  }

  /** The inner loop of `fraction` for one denominator: it records where
      each remainder first appeared and stops at zero or at a repeat. */
  method RecurringCycle(denominator: int) returns (cycleLength: int)
    requires denominator >= 2
    ensures cycleLength == CycleLen(denominator)
  {
    var d := denominator;
    var remainders: map<int, int> := map[];
    var remainder := 1;
    var position := 0;
    while remainder != 0 && remainder !in remainders
      invariant Fresh(d, position) && position < d
      invariant remainder == Rem(d, position)
      invariant forall k :: k in remainders <==> k in Rems(d, position)
      invariant forall i :: 0 <= i < position ==> Rem(d, i) in remainders && remainders[Rem(d, i)] == i
      decreases d - position
    {
      assert Fresh(d, position + 1) by {
        forall i | 0 <= i < position ensures Rem(d, i) != Rem(d, position) {
          assert Rems(d, position)[i] == Rem(d, i);
        }
      }
      FreshBound(d, position + 1);
      assert Rems(d, position + 1) == Rems(d, position) + [remainder];
      remainders := remainders[remainder := position];
      remainder := (remainder * 10) % d;
      position := position + 1;
    }
    StopUnique(d, position);
    if remainder != 0 && remainder in remainders {
      var j := IndexOf(Rems(d, position), remainder);
      assert remainders[Rem(d, j)] == j;
      cycleLength := position - remainders[remainder];
    } else {
      cycleLength := 0;
    }
  }

  /** `fraction`: the first denominator in 2..maximum-1 whose reciprocal
      has the longest recurring cycle, and that length; (0, 0) when no
      reciprocal recurs. */
  method Fraction(maximum: int) returns (bestDenominator: int, maxLength: int)
    ensures forall d :: 2 <= d < maximum ==> CycleLen(d) <= maxLength
    ensures bestDenominator == 0 ==> maxLength == 0
    ensures bestDenominator != 0 ==>
      && 2 <= bestDenominator < maximum && maxLength > 0
      && CycleLen(bestDenominator) == maxLength
      && forall d :: 2 <= d < bestDenominator ==> CycleLen(d) < maxLength
  {
    maxLength, bestDenominator := 0, 0;
    var denominator := 2;
    while denominator < maximum
      invariant 2 <= denominator && (bestDenominator != 0 ==> denominator <= maximum)
      invariant forall d :: 2 <= d < denominator ==> CycleLen(d) <= maxLength
      invariant bestDenominator == 0 ==> maxLength == 0
      invariant bestDenominator != 0 ==>
        && 2 <= bestDenominator < denominator && maxLength > 0
        && CycleLen(bestDenominator) == maxLength
        && forall d :: 2 <= d < bestDenominator ==> CycleLen(d) < maxLength
    {
      var cycleLength := RecurringCycle(denominator);
      if cycleLength > maxLength {
        maxLength := cycleLength;
        bestDenominator := denominator;
      }
      denominator := denominator + 1;
    }
  }

  // ---------------------------------------------------------------------
  // dictionary_permutations

  /** `list(set(nums))`: the distinct values, ascending (the order CPython
      gives a set of small non-negative integers). */
  function SetList(nums: seq<int>): (r: seq<int>)
    ensures StrictlySorted(r)
    ensures forall x :: x in r <==> x in nums
  {
    var distinct := SetUnion([], nums);
    SortDistinct(distinct);
    Sort(distinct)
  }

  /** `del s[i]`. */
  function RemoveAt(s: seq<int>, i: nat): (r: seq<int>)
    requires i < |s|
    ensures |r| == |s| - 1
  {
    s[..i] + s[i + 1..]
  }

  lemma RemoveAtMultiset(s: seq<int>, i: nat)
    requires i < |s|
    ensures multiset(RemoveAt(s, i)) + multiset{s[i]} == multiset(s)
  {
    assert s == s[..i] + [s[i]] + s[i + 1..];
  }

  lemma QuotientBelow(k: nat, f: nat, n: nat)
    requires f > 0 && k < n * f
    ensures k / f < n && k % f < f
  {
  }

  /** The k-th (from 0) permutation of s when the permutations are listed
      block by block: (|s|-1)! of them start with s[0], then as many with
      s[1], and so on. */
  function KthPermutation(s: seq<int>, k: nat): (r: seq<int>)
    requires k < Factorial(|s|)
    decreases |s|
  {
    if s == [] then []
    else
      var f := Factorial(|s| - 1);
      QuotientBelow(k, f, |s|);
      var i := k / f;
      [s[i]] + KthPermutation(RemoveAt(s, i), k % f)
  }

  /** Each of them is a permutation of s. */
  lemma {:induction false} KthPermutationIsPermutation(s: seq<int>, k: nat)
    requires k < Factorial(|s|)
    ensures multiset(KthPermutation(s, k)) == multiset(s)
    decreases |s|
  {
    if s != [] {
      var i, r := KthUnfold(s, k);
      KthPermutationIsPermutation(RemoveAt(s, i), r);
      RemoveAtMultiset(s, i);
    }
  }

  /** Lexicographic order on lists of equal length. */
  predicate LexLess(a: seq<int>, b: seq<int>)
    decreases |a|
  {
    a != [] && b != [] && (a[0] < b[0] || (a[0] == b[0] && LexLess(a[1..], b[1..])))
  }

  lemma RemoveAtSorted(s: seq<int>, i: nat)
    requires StrictlySorted(s) && i < |s|
    ensures StrictlySorted(RemoveAt(s, i))
  {
    var r := RemoveAt(s, i);
    forall a, b | 0 <= a < b < |r| ensures r[a] < r[b] {
      var a', b' := if a < i then a else a + 1, if b < i then b else b + 1;
      assert r[a] == s[a'] && r[b] == s[b'];
    }
  }

  /** Comparing two numbers written as i * f + r with 0 <= r < f. */
  lemma MixedRadixOrder(i1: nat, r1: nat, i2: nat, r2: nat, f: nat)
    requires r1 < f && r2 < f && i1 * f + r1 < i2 * f + r2
    ensures i1 <= i2 && (i1 == i2 ==> r1 < r2)
  {
    if i1 > i2 {
      MulLeft(f, i2 + 1, i1);
    }
  }

  /** On a strictly increasing list the permutations come out in strictly
      increasing lexicographic order, so `KthPermutation(s, k)` is the k-th
      permutation in dictionary order. */
  lemma {:induction false} KthPermutationIncreasing(s: seq<int>, k1: nat, k2: nat)
    requires StrictlySorted(s) && k1 < k2 < Factorial(|s|)
    ensures LexLess(KthPermutation(s, k1), KthPermutation(s, k2))
    decreases |s|
  {
    var i1, r1, i2, r2 := KthUnfoldPair(s, k1, k2);
    if i1 == i2 {
      var t := RemoveAt(s, i1);
      RemoveAtSorted(s, i1);
      KthPermutationIncreasing(t, r1, r2);
    }
    LexFromParts(s[i1], s[i2], KthPermutation(RemoveAt(s, i1), r1), KthPermutation(RemoveAt(s, i2), r2));
  }

  /** The first steps of `KthPermutation` for two indices k1 < k2: the
      block of k1 is not after that of k2, and within one block k1 stays
      before k2. */
  lemma KthUnfoldPair(s: seq<int>, k1: nat, k2: nat) returns (i1: nat, r1: nat, i2: nat, r2: nat)
    requires s != [] && k1 < k2 < Factorial(|s|)
    ensures i1 < |s| && i2 < |s| && r1 < Factorial(|s| - 1) && r2 < Factorial(|s| - 1)
    ensures i1 <= i2 && (i1 == i2 ==> r1 < r2)
    ensures KthPermutation(s, k1) == [s[i1]] + KthPermutation(RemoveAt(s, i1), r1)
    ensures KthPermutation(s, k2) == [s[i2]] + KthPermutation(RemoveAt(s, i2), r2)
  {
    i1, r1 := KthUnfold(s, k1);
    i2, r2 := KthUnfold(s, k2);
    MixedRadixOrder(i1, r1, i2, r2, Factorial(|s| - 1));
  }

  lemma LexFromParts(x: int, y: int, a: seq<int>, b: seq<int>)
    requires x < y || (x == y && LexLess(a, b))
    ensures LexLess([x] + a, [y] + b)
  {
    assert ([x] + a)[1..] == a && ([y] + b)[1..] == b;
  }

  /** One step of `KthPermutation`: the block index i and the index r
      inside the block. */
  lemma KthUnfold(s: seq<int>, k: nat) returns (i: nat, r: nat)
    requires s != [] && k < Factorial(|s|)
    ensures i < |s| && r < Factorial(|s| - 1) && k == i * Factorial(|s| - 1) + r
    ensures i == k / Factorial(|s| - 1) && r == k % Factorial(|s| - 1)
    ensures KthPermutation(s, k) == [s[i]] + KthPermutation(RemoveAt(s, i), r)
  {
    QuotientBelow(k, Factorial(|s| - 1), |s|);
    i, r := k / Factorial(|s| - 1), k % Factorial(|s| - 1);
  }

  /** Index 0 is the list itself, the first permutation in dictionary order. */
  lemma {:induction false} KthPermutationFirst(s: seq<int>)
    ensures KthPermutation(s, 0) == s
    decreases |s|
  {
    if s != [] {
      assert RemoveAt(s, 0) == s[1..];
      KthPermutationFirst(s[1..]);
    }
  }

  lemma KthPermutationExample()
    ensures KthPermutation([0, 1, 2], 3) == [1, 2, 0]
  {
    FactorialsToTwo();
    KthAt([0, 1, 2], 3, 1, 1);
    assert RemoveAt([0, 1, 2], 1) == [0, 2];
    KthAt([0, 2], 1, 1, 0);
    assert RemoveAt([0, 2], 1) == [0];
    KthAt([0], 0, 0, 0);
    assert RemoveAt([0], 0) == [];
  }

  lemma FactorialsToTwo()
    ensures Factorial(0) == 1 && Factorial(1) == 1 && Factorial(2) == 2
  {
  }

  /** The unranking step with the block i and the offset r in it given. */
  lemma KthAt(s: seq<int>, k: nat, i: nat, r: nat)
    requires i < |s| && r < Factorial(|s| - 1) && k == i * Factorial(|s| - 1) + r
    ensures k < Factorial(|s|)
    ensures KthPermutation(s, k) == [s[i]] + KthPermutation(RemoveAt(s, i), r)
  {
    var f := Factorial(|s| - 1);
    assert Factorial(|s|) == |s| * f;
    MulLeft(f, i + 1, |s|);
    var i', r' := KthUnfold(s, k);
    ModUnique(k, i, r, f);
  }

  /** The strings of ts, one after another. */
  function Flatten(ts: seq<string>): string
  {
    if ts == [] then "" else Flatten(ts[..|ts| - 1]) + ts[|ts| - 1]
  }

  /** `''.join(map(str, xs))`: the numerals of the elements, one after
      another. */
  function JoinNumerals(xs: seq<int>): string
  {
    Flatten(TableOperations.Shows(xs))
  }

  /** Strings of one character each flatten to the string of those
      characters. */
  lemma {:induction false} FlattenSingles(ts: seq<string>)
    requires forall k :: 0 <= k < |ts| ==> |ts[k]| == 1
    ensures |Flatten(ts)| == |ts|
    ensures forall k :: 0 <= k < |ts| ==> Flatten(ts)[k] == ts[k][0]
  {
    if ts != [] {
      var init := ts[..|ts| - 1];
      FlattenSingles(init);
      forall k | 0 <= k < |ts|
        ensures Flatten(ts)[k] == ts[k][0]
      {
        if k < |init| {
          assert ts[k] == init[k];
        }
      }
    }
  }

  /** For single digits the join is the digit string: one character per
      element, in order. */
  lemma JoinOfDigits(xs: seq<int>)
    requires forall k :: 0 <= k < |xs| ==> 0 <= xs[k] <= 9
    ensures |JoinNumerals(xs)| == |xs|
    ensures forall k :: 0 <= k < |xs| ==> JoinNumerals(xs)[k] == TableOperations.DigitChar(xs[k])
  {
    var ts := TableOperations.Shows(xs);
    forall k | 0 <= k < |xs|
      ensures ts[k] == [TableOperations.DigitChar(xs[k])]
    {
      TableOperations.ShowDigit(xs[k]);
    }
    FlattenSingles(ts);
  }

  /** Permutation 3 of the digits 0, 1, 2 reads "120". */
  lemma JoinDigitsExample()
    ensures JoinNumerals(KthPermutation([0, 1, 2], 3)) == "120"
  {
    KthPermutationExample();
    JoinedExample([1, 2, 0]);
  }

  lemma JoinedExample(xs: seq<int>)
    requires xs == [1, 2, 0]
    ensures JoinNumerals(xs) == "120"
  {
    JoinOfDigits(xs);
    ThreeDigitChars();
    ThreeChars(JoinNumerals(xs));
  }

  lemma ThreeDigitChars()
    ensures TableOperations.DigitChar(1) == '1' && TableOperations.DigitChar(2) == '2'
    ensures TableOperations.DigitChar(0) == '0'
  {
  }

  lemma ThreeChars(t: string)
    requires |t| == 3 && t[0] == '1' && t[1] == '2' && t[2] == '0'
    ensures t == "120"
  {
  }

  /** `dictionary_permutations`: picks one element per factorial block,
      deleting it from the list, while the list is not empty, and joins the
      numerals of the picks; `None` when the index is not below n!. */
  method DictionaryPermutations(nums: seq<int>, desired: int) returns (r: Option<string>)
    requires desired >= 0
    ensures desired < Factorial(|SetList(nums)|) ==> r == Some(JoinNumerals(KthPermutation(SetList(nums), desired)))
    ensures desired >= Factorial(|SetList(nums)|) ==> r == None
  {
    var rest := SetList(nums);
    if Factorial(|rest|) > desired {
      var ready := Unrank(rest, desired);
      return Some(JoinNumerals(ready));
    }
    return None;
  }

  /** The loop of `dictionary_permutations`: one element per factorial
      block, removed from the list, until the list is empty. */
  method Unrank(s: seq<int>, desired: nat) returns (ready: seq<int>)
    requires desired < Factorial(|s|)
    ensures ready == KthPermutation(s, desired)
  {
    var rest := s;
    ready := [];
    var k: nat := desired;
    while rest != []
      invariant k < Factorial(|rest|)
      invariant ready + KthPermutation(rest, k) == KthPermutation(s, desired)
      decreases |rest|
    {
      var diapason := Factorial(|rest| - 1);
      var index := k / diapason;
      ghost var i, r := KthUnfold(rest, k);
      assert index == i && k - index * diapason == r;
      assert ready + KthPermutation(rest, k) == (ready + [rest[i]]) + KthPermutation(RemoveAt(rest, i), r);
      ready := ready + [rest[index]];
      k := k - index * diapason;
      rest := RemoveAt(rest, index);
    }
    assert KthPermutation(rest, k) == [];
  }

  // ---------------------------------------------------------------------
  // least_multiple

  /** pp, pp * p, pp * p^2, ... while at most maxNum. */
  function PowersFrom(p: int, pp: int, maxNum: int): seq<int>
    decreases maxNum - pp
  {
    if p < 2 || pp < 1 || pp > maxNum then [] else [pp] + PowersFrom(p, pp * p, maxNum)
  }

  /** The list `multiples` that `least_multiple` builds: every power p^k
      with k >= 1 and p^k <= maxNum, for each p of `primes` in turn. */
  function AllPowers(primes: seq<int>, maxNum: int): seq<int>
  {
    if primes == [] then []
    else AllPowers(primes[..|primes| - 1], maxNum) + PowersFrom(primes[|primes| - 1], primes[|primes| - 1], maxNum)
  }

  lemma PrimeListAtLeastTwo(maxNum: int)
    ensures forall i :: 0 <= i < |PrimeList(maxNum)| ==> PrimeList(maxNum)[i] >= 2
  {
    PrimeListSound(maxNum);
  }

  /** y is p^k <= maxNum for some exponent k >= j. */
  ghost predicate PowerAtLeast(p: int, j: nat, y: int, maxNum: int)
  {
    exists k: nat :: j <= k && y == Pow(p, k) && y <= maxNum
  }

  /** The powers of p of exponent at least j up to maxNum. */
  lemma {:induction false} PowersFromMembers(p: int, j: nat, maxNum: int)
    requires p >= 2
    ensures Pow(p, j) >= 1
    ensures forall y :: y in PowersFrom(p, Pow(p, j), maxNum) <==> PowerAtLeast(p, j, y, maxNum)
    decreases maxNum - Pow(p, j)
  {
    PowPositive(p, j);
    var pp := Pow(p, j);
    if pp <= maxNum {
      assert pp * p == Pow(p, j + 1);
      PowStrictlyIncreasing(p, j, j + 1);
      PowersFromMembers(p, j + 1, maxNum);
      var tail := PowersFrom(p, Pow(p, j + 1), maxNum);
      assert PowersFrom(p, pp, maxNum) == [pp] + tail;
      forall y ensures y in PowersFrom(p, pp, maxNum) <==> PowerAtLeast(p, j, y, maxNum) {
        if PowerAtLeast(p, j, y, maxNum) {
          var k: nat :| j <= k && y == Pow(p, k) && y <= maxNum;
          if k > j {
            assert PowerAtLeast(p, j + 1, y, maxNum);
          }
        }
        if y in tail {
          var k: nat :| j + 1 <= k && y == Pow(p, k) && y <= maxNum;
          assert j <= k;
        }
        if y == pp {
          assert j <= j && y == Pow(p, j) && y <= maxNum;
        }
      }
    } else {
      forall y ensures !PowerAtLeast(p, j, y, maxNum) {
        if PowerAtLeast(p, j, y, maxNum) {
          var k: nat :| j <= k && y == Pow(p, k) && y <= maxNum;
          if k > j {
            PowStrictlyIncreasing(p, j, k);
          }
        }
      }
    }
  }

  /** `multiples` holds exactly the prime powers p^k <= maxNum with k >= 1
      over the primes p that `prime_num(maxNum)` lists. */
  lemma {:induction false} AllPowersMembers(primes: seq<int>, maxNum: int)
    requires forall i :: 0 <= i < |primes| ==> primes[i] >= 2
    ensures forall y :: y in AllPowers(primes, maxNum) <==>
      exists p :: p in primes && PowerAtLeast(p, 1, y, maxNum)
    decreases |primes|
  {
    if primes != [] {
      var init, p := primes[..|primes| - 1], primes[|primes| - 1];
      AllPowersMembers(init, maxNum);
      assert Pow(p, 1) == p;
      PowersFromMembers(p, 1, maxNum);
      assert AllPowers(primes, maxNum) == AllPowers(init, maxNum) + PowersFrom(p, Pow(p, 1), maxNum);
      forall y ensures y in AllPowers(primes, maxNum) <==>
        exists q :: q in primes && PowerAtLeast(q, 1, y, maxNum)
      {
        if exists q :: q in primes && PowerAtLeast(q, 1, y, maxNum) {
          var q :| q in primes && PowerAtLeast(q, 1, y, maxNum);
          if q != p {
            assert q in init;
          }
        }
        if y in AllPowers(init, maxNum) {
          var q :| q in init && PowerAtLeast(q, 1, y, maxNum);
          assert q in primes;
        }
        assert p in primes;
      }
    }
  }

  /** `least_multiple`: the product of `multiples` (through
      `perform_action`, so `None` when the list is empty) and the list
      sorted. */
  method LeastMultiple(maxNum: int) returns (product: Option<int>, multiples: seq<int>)
    requires maxNum >= 0
    ensures product == PerformAction("*", AllPowers(PrimeList(maxNum), maxNum))
    ensures multiples == Sort(AllPowers(PrimeList(maxNum), maxNum))
  {
    var collected: seq<int> := [];
    var primes := PrimeNum(maxNum);
    PrimeListAtLeastTwo(maxNum);
    var i := 0;
    while i < |primes|
      invariant 0 <= i <= |primes|
      invariant collected == AllPowers(primes[..i], maxNum)
    {
      collected := AppendPowers(primes[i], maxNum, collected);
      PowersStep(primes, i, maxNum);
      i := i + 1;
    }
    assert primes[..|primes|] == primes;
    product := PerformAction("*", collected);
    multiples := Sort(collected);
  }

  /** The inner loop of `least_multiple`: appends prime, prime^2, ...
      while they stay at most max_num. */
  method AppendPowers(prime: int, maxNum: int, collected: seq<int>) returns (next: seq<int>)
    requires prime >= 2
    ensures next == collected + PowersFrom(prime, prime, maxNum)
  {
    next := collected;
    var primePower := prime;
    while primePower <= maxNum
      invariant primePower >= 1
      invariant next + PowersFrom(prime, primePower, maxNum) == collected + PowersFrom(prime, prime, maxNum)
      decreases maxNum - primePower
    {
      PowerGrows(primePower, prime);
      assert PowersFrom(prime, primePower, maxNum) == [primePower] + PowersFrom(prime, primePower * prime, maxNum);
      assert next + PowersFrom(prime, primePower, maxNum) == (next + [primePower]) + PowersFrom(prime, primePower * prime, maxNum);
      next := next + [primePower];
      primePower := primePower * prime;
    }
  }

  lemma PowerGrows(pp: int, p: int)
    requires pp >= 1 && p >= 2
    ensures pp * p > pp
  {
    MulLeft(pp, 2, p);
  }

  lemma PowersStep(primes: seq<int>, i: int, maxNum: int)
    requires 0 <= i < |primes|
    ensures AllPowers(primes[..i + 1], maxNum) == AllPowers(primes[..i], maxNum) + PowersFrom(primes[i], primes[i], maxNum)
  {
    assert primes[..i + 1][..i] == primes[..i];
  }
  /** `least_multiple` as written leaves out max_num itself when it is
      prime: `prime_num(3)` is `[2]`, so the result for 3 is 2, which 3
      does not divide. */
  lemma LeastMultipleMissesLastPrime()
    ensures AllPowers(PrimeList(3), 3) == [2]
    ensures PerformAction("*", AllPowers(PrimeList(3), 3)) == Some(2) && !Divides(3, 2)
  {
    assert PrimeList(3) == [2] by {
      assert IsPrime(2);
      assert PrimesBelow(2) == [];
    }
    assert AllPowers([2], 3) == [2] by {
      assert PowersFrom(2, 4, 3) == [];
      assert PowersFrom(2, 2, 3) == [2];
      assert AllPowers([2], 3) == [] + [2];
    }
    assert PerformAction("*", [2]) == Some(2) by {
      PerformActionMul([2]);
      assert [2][..0] == [];
    }
  }

  /** `least_multiple` as written multiplies every power p, p^2, ... of a
      prime, not only the largest: for 4 it gives 2 * 4 * 3 = 24, while 12
      is already a common multiple of 1..4. */
  lemma LeastMultipleRepeatsPowers()
    ensures AllPowers(PrimeList(4), 4) == [2, 4, 3]
    ensures PerformAction("*", AllPowers(PrimeList(4), 4)) == Some(24)
    ensures 12 < 24 && forall k :: 1 <= k <= 4 ==> Divides(k, 12)
  {
    PrimesBelowFour();
    PowersToFour();
    PerformActionMul([2, 4, 3]);
    ProductTwoFourThree();
  }

  lemma PowersToFour()
    ensures AllPowers([2, 3], 4) == [2, 4, 3]
  {
    assert PowersFrom(3, 3, 4) == [3] by {
      assert PowersFrom(3, 9, 4) == [];
    }
    assert PowersFrom(2, 2, 4) == [2, 4] by {
      assert PowersFrom(2, 8, 4) == [];
      assert PowersFrom(2, 4, 4) == [4];
    }
    assert AllPowers([2], 4) == [2, 4] by {
      assert AllPowers([], 4) == [];
      assert [2][..0] == [];
    }
    assert [2, 3][..1] == [2];
    assert AllPowers([2, 3], 4) == [2, 4] + [3];
  }

  lemma ProductTwoFourThree()
    ensures Product([2, 4, 3]) == 24
  {
    assert [2, 4, 3][..2] == [2, 4];
    assert [2, 4][..1] == [2];
    assert [2][..0] == [];
  }

  lemma PrimesBelowFour()
    ensures PrimeList(4) == [2, 3]
  {
    assert IsPrime(2);
    assert IsPrime(3) by {
      assert 3 % 2 != 0;
    }
    assert PrimesBelow(2) == [];
    assert PrimesBelow(3) == [2];
  }

  // The evidently intended `least_multiple`: the primes up to and
  // including max_num, each raised to its largest power within max_num,
  // so that the product is lcm(1, ..., max_num).

  /** The largest power of p that is at most maxNum, climbing from pp. */
  function TopFrom(p: int, pp: int, maxNum: int): (r: int)
    requires p >= 2 && 1 <= pp <= maxNum
    ensures pp <= r <= maxNum
    decreases maxNum - pp
  {
    if pp * p > maxNum then pp else TopFrom(p, pp * p, maxNum)
  }

  /** The climb ends at p^e with p^e <= maxNum < p^(e+1). */
  lemma {:induction false} TopFromIs(p: int, j: nat, maxNum: int) returns (e: nat)
    requires p >= 2 && 1 <= Pow(p, j) <= maxNum
    ensures j <= e && TopFrom(p, Pow(p, j), maxNum) == Pow(p, e)
    ensures Pow(p, e) <= maxNum < Pow(p, e + 1)
    decreases maxNum - Pow(p, j)
  {
    assert Pow(p, j + 1) == Pow(p, j) * p;
    if Pow(p, j) * p > maxNum {
      e := j;
    } else {
      PowStrictlyIncreasing(p, j, j + 1);
      e := TopFromIs(p, j + 1, maxNum);
    }
  }

  /** The largest power within maxNum of each prime of `primes` that is at
      most maxNum, in the order of `primes`. */
  function Tops(primes: seq<int>, maxNum: int): seq<int>
  {
    if primes == [] then []
    else
      var p := primes[|primes| - 1];
      Tops(primes[..|primes| - 1], maxNum) + (if 2 <= p <= maxNum then [TopFrom(p, p, maxNum)] else [])
  }

  /** The product of the top powers grows by the top power of the last
      prime, when that prime is within maxNum. */
  lemma TopsLast(primes: seq<int>, maxNum: int)
    requires primes != []
    ensures var p := primes[|primes| - 1];
      Product(Tops(primes, maxNum)) ==
      Product(Tops(primes[..|primes| - 1], maxNum)) * (if 2 <= p <= maxNum then TopFrom(p, p, maxNum) else 1)
  {
    var p, t := primes[|primes| - 1], Tops(primes[..|primes| - 1], maxNum);
    if 2 <= p <= maxNum {
      var r := t + [TopFrom(p, p, maxNum)];
      assert r[..|r| - 1] == t;
    } else {
      assert Tops(primes, maxNum) == t;
    }
  }

  /** What the corrected `least_multiple` multiplies. */
  function IntendedLcm(maxNum: int): int
  {
    Product(Tops(PrimeList(maxNum + 1), maxNum))
  }

  lemma {:induction false} TopsBounds(primes: seq<int>, maxNum: int)
    ensures forall i :: 0 <= i < |Tops(primes, maxNum)| ==> 2 <= Tops(primes, maxNum)[i] <= maxNum
    ensures forall t :: t in Tops(primes, maxNum) ==> 2 <= t <= maxNum
  {
    if primes != [] {
      TopsBounds(primes[..|primes| - 1], maxNum);
    }
  }

  lemma {:induction false} TopsMember(primes: seq<int>, p: int, maxNum: int)
    requires p in primes && 2 <= p <= maxNum
    ensures TopFrom(p, p, maxNum) in Tops(primes, maxNum)
  {
    var init := primes[..|primes| - 1];
    if p != primes[|primes| - 1] {
      assert primes == init + [primes[|primes| - 1]];
      TopsMember(init, p, maxNum);
    }
  }

  /** The product of the top powers is positive, and a prime outside the
      list does not divide it. */
  lemma {:induction false} TopsCoprime(primes: seq<int>, p: int, maxNum: int)
    requires forall i :: 0 <= i < |primes| ==> IsPrime(primes[i])
    requires IsPrime(p) && p !in primes
    ensures Product(Tops(primes, maxNum)) >= 1
    ensures Product(Tops(primes, maxNum)) % p != 0
  {
    if primes == [] {
      ModUnique(1, 0, 1, p);
    } else {
      var init, q := primes[..|primes| - 1], primes[|primes| - 1];
      assert q in primes;
      TopsCoprime(init, p, maxNum);
      TopsLast(primes, maxNum);
      var x := Product(Tops(init, maxNum));
      if 2 <= q <= maxNum {
        var e := TopFromIs(q, 1, maxNum);
        var t := TopFrom(q, q, maxNum);
        PrimeNotDividingPower(p, q, e);
        if (x * t) % p == 0 {
          Euclid(p, x, t);
        }
        MulLeft(x, 1, t);
      }
    }
  }

  /** A number that every top power divides is divisible by their
      product, since the powers belong to distinct primes. */
  lemma {:induction false} TopsProductDivides(primes: seq<int>, maxNum: int, m: nat)
    requires forall i :: 0 <= i < |primes| ==> IsPrime(primes[i])
    requires StrictlySorted(primes)
    requires forall t :: t in Tops(primes, maxNum) ==> Divides(t, m)
    ensures Divides(Product(Tops(primes, maxNum)), m)
  {
    if primes == [] {
      assert m % 1 == 0;
    } else {
      var init, q := primes[..|primes| - 1], primes[|primes| - 1];
      var rest := Tops(init, maxNum);
      assert rest <= Tops(primes, maxNum);
      TopsProductDivides(init, maxNum, m);
      TopsLast(primes, maxNum);
      if 2 <= q <= maxNum {
        assert Pow(q, 1) == q;
        var e := TopFromIs(q, 1, maxNum);
        var t := TopFrom(q, q, maxNum);
        assert t == Pow(q, e);
        assert t in Tops(primes, maxNum);
        assert q !in init;
        TopsCoprime(init, q, maxNum);
        var x := Product(rest);
        CoprimeProductDivides(q, e, x, m);
        assert Product(Tops(primes, maxNum)) == x * Pow(q, e);
      } else {
        assert Product(Tops(primes, maxNum)) == Product(rest);
      }
    }
  }

  /** An element of a list of positive numbers divides its product. */
  lemma {:induction false} ElementDividesProduct(s: seq<int>, i: int)
    requires forall j :: 0 <= j < |s| ==> s[j] >= 1
    requires 0 <= i < |s|
    ensures Divides(s[i], Product(s))
  {
    var init := s[..|s| - 1];
    if i == |s| - 1 {
      MultipleMod(s[i], Product(init));
    } else {
      ElementDividesProduct(init, i);
      DividesProduct(Product(init), s[|s| - 1], s[i]);
    }
  }

  /** Every k in 1..maxNum divides the intended product: split off the
      full power of the least prime factor p of k, which divides the top
      power of p, and the rest, which is smaller than k. */
  lemma {:induction false} IntendedLcmDividesUpTo(maxNum: int, k: int)
    requires 1 <= k <= maxNum
    ensures Divides(k, IntendedLcm(maxNum))
    decreases k
  {
    if k == 1 {
      assert IntendedLcm(maxNum) % 1 == 0;
    } else {
      var p, a, m := SplitPrimePower(k);
      IntendedLcmDividesUpTo(maxNum, m);
      PrimePowerDividesLcm(maxNum, p, a);
      TopsPositive(PrimeList(maxNum + 1), maxNum);
      CoprimeProductDivides(p, a, m, IntendedLcm(maxNum));
    }
  }

  /** k >= 2 is the full power of its least prime factor times a smaller
      cofactor prime to it. */
  lemma SplitPrimePower(k: int) returns (p: int, a: nat, m: int)
    requires k >= 2
    ensures IsPrime(p) && a >= 1 && 1 <= Pow(p, a) <= k
    ensures 1 <= m < k && m % p != 0 && k == Pow(p, a) * m
  {
    p := LeastDivisorFrom(k, 2);
    LeastDivisorIsPrime(k);
    a, m := ExtractPower(p, k);
    PowStrictlyIncreasing(p, 0, a);
    CofactorSmaller(Pow(p, a), m, k);
  }

  lemma CofactorSmaller(x: int, m: int, k: int)
    requires x >= 2 && m >= 1 && k == x * m
    ensures 1 <= x <= k && m < k
  {
    MulLeft(m, 2, x);
    MulLeft(x, 1, m);
  }

  /** A power of a prime that is at most maxNum divides the top power of
      that prime, which is a factor of the intended product. */
  lemma PrimePowerDividesLcm(maxNum: int, p: int, a: nat)
    requires IsPrime(p) && a >= 1 && Pow(p, a) <= maxNum
    ensures Divides(Pow(p, a), IntendedLcm(maxNum))
  {
    var tops := Tops(PrimeList(maxNum + 1), maxNum);
    var e := TopPowerIn(maxNum, p, a);
    ExponentBelowTop(p, a, e, maxNum);
    PowDividesPow(p, a, e);
    TopsBounds(PrimeList(maxNum + 1), maxNum);
    var i :| 0 <= i < |tops| && tops[i] == Pow(p, e);
    ElementDividesProduct(tops, i);
    DividesTrans(IntendedLcm(maxNum), Pow(p, e), Pow(p, a));
  }

  /** The top power of a prime p <= maxNum is among the factors. */
  lemma TopPowerIn(maxNum: int, p: int, a: nat) returns (e: nat)
    requires IsPrime(p) && a >= 1 && Pow(p, a) <= maxNum
    ensures Pow(p, e) in Tops(PrimeList(maxNum + 1), maxNum)
    ensures Pow(p, e) <= maxNum < Pow(p, e + 1)
  {
    assert Pow(p, 1) == p;
    if a > 1 {
      PowStrictlyIncreasing(p, 1, a);
    }
    PrimesBelowMembers(maxNum + 1);
    assert p in PrimeList(maxNum + 1);
    TopsMember(PrimeList(maxNum + 1), p, maxNum);
    e := TopFromIs(p, 1, maxNum);
  }

  /** An exponent whose power stays at most maxNum is at most the top one. */
  lemma ExponentBelowTop(p: int, a: nat, e: nat, maxNum: int)
    requires p >= 2 && Pow(p, a) <= maxNum < Pow(p, e + 1)
    ensures a <= e
  {
    if a > e + 1 {
      PowStrictlyIncreasing(p, e + 1, a);
    }
  }

  lemma {:induction false} TopsPositive(primes: seq<int>, maxNum: int)
    ensures Product(Tops(primes, maxNum)) >= 1
  {
    if primes != [] {
      var init, q := primes[..|primes| - 1], primes[|primes| - 1];
      TopsPositive(init, maxNum);
      TopsLast(primes, maxNum);
      if 2 <= q <= maxNum {
        MulLeft(Product(Tops(init, maxNum)), 1, TopFrom(q, q, maxNum));
      }
    }
  }
  /** The corrected `least_multiple`: the primes up to and including
      maxNum (`prime_num(maxNum + 1)`), and for each prime only its largest
      power within maxNum. */
  method LeastMultipleCorrected(maxNum: int) returns (product: Option<int>, multiples: seq<int>)
    requires maxNum >= 0
    ensures product == PerformAction("*", Tops(PrimeList(maxNum + 1), maxNum))
    ensures multiples == Sort(Tops(PrimeList(maxNum + 1), maxNum))
  {
    var collected: seq<int> := [];
    var primes := PrimeNum(maxNum + 1);
    PrimeListAtLeastTwo(maxNum + 1);
    var i := 0;
    while i < |primes|
      invariant 0 <= i <= |primes|
      invariant collected == Tops(primes[..i], maxNum)
    {
      var prime := primes[i];
      TopsStep(primes, i, maxNum);
      if prime <= maxNum {
        var primePower := TopPower(prime, maxNum);
        collected := collected + [primePower];
      }
      i := i + 1;
    }
    assert primes[..|primes|] == primes;
    product := PerformAction("*", collected);
    multiples := Sort(collected);
  }

  /** The inner `while prime_power * prime <= max_num` loop of the
      corrected version: the largest power of prime within maxNum. */
  method TopPower(prime: int, maxNum: int) returns (primePower: int)
    requires 2 <= prime <= maxNum
    ensures primePower == TopFrom(prime, prime, maxNum)
  {
    primePower := prime;
    while primePower * prime <= maxNum
      invariant 1 <= primePower <= maxNum
      invariant TopFrom(prime, primePower, maxNum) == TopFrom(prime, prime, maxNum)
      decreases maxNum - primePower
    {
      MulLeft(primePower, 2, prime);
      primePower := primePower * prime;
    }
  }

  /** The top powers of a prefix grow by the top power of its next prime. */
  lemma TopsStep(primes: seq<int>, i: int, maxNum: int)
    requires 0 <= i < |primes| && primes[i] >= 2
    ensures Tops(primes[..i + 1], maxNum)
      == Tops(primes[..i], maxNum) + (if primes[i] <= maxNum then [TopFrom(primes[i], primes[i], maxNum)] else [])
  {
    assert primes[..i + 1][..i] == primes[..i];
  }

  /** The corrected product is lcm(1, ..., maxNum): every k in 1..maxNum
      divides it, and it divides every common multiple of 1..maxNum. */
  lemma IntendedLcmIsLcm(maxNum: int)
    requires maxNum >= 2
    ensures PerformAction("*", Tops(PrimeList(maxNum + 1), maxNum)) == Some(IntendedLcm(maxNum))
    ensures forall k :: 1 <= k <= maxNum ==> Divides(k, IntendedLcm(maxNum))
    ensures forall m: nat :: (forall k :: 1 <= k <= maxNum ==> Divides(k, m)) ==> Divides(IntendedLcm(maxNum), m)
  {
    var primes := PrimeList(maxNum + 1);
    PrimeListMembers(maxNum + 1);
    assert IsPrime(2);
    TopsMember(primes, 2, maxNum);
    PerformActionMul(Tops(primes, maxNum));
    forall k | 1 <= k <= maxNum
      ensures Divides(k, IntendedLcm(maxNum))
    {
      IntendedLcmDividesUpTo(maxNum, k);
    }
    forall m: nat | forall k :: 1 <= k <= maxNum ==> Divides(k, m)
      ensures Divides(IntendedLcm(maxNum), m)
    {
      TopsBounds(primes, maxNum);
      PrimeListSound(maxNum + 1);
      TopsProductDivides(primes, maxNum, m);
    }
  }

  /** For 4 the corrected product is 12. */
  lemma LeastMultipleCorrectedOnFour()
    ensures Tops(PrimeList(5), 4) == [4, 3] && IntendedLcm(4) == 12
  {
    PrimeListFive();
    TopsOfTwoThree();
    assert Product([4, 3]) == 12 by {
      assert [4, 3][..1] == [4];
      assert [4][..0] == [];
    }
  }

  lemma PrimeListFive()
    ensures PrimeList(5) == [2, 3]
  {
    PrimesBelowFour();
    assert !IsPrime(4) by {
      assert 4 % 2 == 0;
    }
  }

  lemma TopsOfTwoThree()
    ensures Tops([2, 3], 4) == [4, 3]
  {
    assert TopFrom(2, 2, 4) == 4;
    assert TopFrom(3, 3, 4) == 3;
    assert Tops([2], 4) == [4] by {
      assert [2][..0] == [];
    }
    assert [2, 3][..1] == [2];
  }
  // ---------------------------------------------------------------------
  // multiples_rearranged_digits

  /** Every digit of num * factor occurs among the digits of num. */
  predicate DigitsWithin(num: int, factor: int)
  {
    forall d :: d in Digits(num * factor) ==> d in Digits(num)
  }

  /** num passes the test of `multiples_rearranged_digits`: for each factor
      6, 5, 4, 3, 2 the digits of num * factor are among those of num. */
  predicate SameDigitMultiples(num: int)
  {
    forall factor :: 2 <= factor <= 6 ==> DigitsWithin(num, factor)
  }

  /** The inner `for factor in factors` loop with its `else`: false at the
      first factor whose product shows a new digit, true otherwise. */
  method AllFactorsCovered(num: int) returns (covered: bool)
    ensures covered == SameDigitMultiples(num)
  {
    var digits := GetDigits(num);
    var origDigits := set d | d in digits;
    var factor := 6;
    while factor > 1
      invariant 1 <= factor <= 6
      invariant forall f :: factor < f <= 6 ==> DigitsWithin(num, f)
    {
      var multipliedDigits := GetDigits(num * factor);
      if exists d :: d in multipliedDigits && d !in origDigits {
        assert !DigitsWithin(num, factor);
        return false;
      }
      factor := factor - 1;
    }
    return true;
  }

  /** A number above num that contains every decimal digit passes the
      test: num followed by the digits 1234567890. So the search always
      finds another number. */
  lemma QualifierAbove(num: int) returns (w: int)
    requires num >= 0
    ensures w > num && SameDigitMultiples(w)
  {
    var tail := AllDigits();
    var ds := Digits(num) + tail;
    assert IsDigitList(ds);
    w := FromDigits(ds);
    DigitsOfFromDigits(ds);
    FromDigitsConcat(Digits(num), tail);
    FromDigitsOfDigits(num);
    FromDigitsBounds(tail);
    PowPositive(10, |tail|);
    MulLeft(num, 1, Pow(10, |tail|));
    assert forall d :: 0 <= d <= 9 ==> d in Digits(w);
  }

  /** The digits 1, 2, ..., 9, 0. */
  function AllDigits(): (r: seq<int>)
    ensures |r| == 10 && r[0] == 1 && IsDigitList(r)
    ensures forall d :: 0 <= d <= 9 ==> d in r
  {
    var r := [1, 2, 3, 4, 5, 6, 7, 8, 9, 0];
    assert r[9] == 0 && forall i :: 0 <= i < 9 ==> r[i] == i + 1;
    r
  }

  /** `multiples_rearranged_digits`: the first maxi numbers (from 1 up)
      that pass the test, in increasing order. */
  method MultiplesRearrangedDigits(maxi: int) returns (results: seq<int>)
    ensures |results| == if maxi > 0 then maxi else 0
    ensures StrictlySorted(results)
    ensures forall i :: 0 <= i < |results| ==> results[i] >= 1 && SameDigitMultiples(results[i])
    ensures results != [] ==> forall x :: 1 <= x <= results[|results| - 1] && SameDigitMultiples(x) ==> x in results
  {
    results := [];
    var num := 0;
    ghost var target := QualifierAbove(0);
    while |results| < maxi
      invariant |results| <= if maxi > 0 then maxi else 0
      invariant num >= 0 && StrictlySorted(results)
      invariant forall i :: 0 <= i < |results| ==> 1 <= results[i] <= num && SameDigitMultiples(results[i])
      invariant forall x :: 1 <= x <= num && SameDigitMultiples(x) ==> x in results
      invariant num < target && SameDigitMultiples(target)
      decreases maxi - |results|, target - num
    {
      num := num + 1;
      var covered := AllFactorsCovered(num);
      if covered {
        results := results + [num];
        target := QualifierAbove(num);
      }
    }
  }
}
