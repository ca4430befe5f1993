/** The palindrome routines of `Features/Palindromes.py`: decimal
    palindromes in a range built from their first halves, those that are
    also binary palindromes, and the reverse-and-add steps to a
    palindrome. */
module Palindromes {
  import opened Arith
  import opened Sorting
  import opened MyUtils

  // ---------------------------------------------------------------------
  // Palindromes from halves

  /** `str(h)` as digits: "0" for 0. */
  function DigitString(h: int): (r: seq<int>)
    requires h >= 0
    ensures r != []
  {
    if h == 0 then [0] else Digits(h)
  }

  /** `int(str(h) + str(h)[-2::-1])`: h followed by its digits but the
      last, reversed. */
  function OddPalindrome(h: int): int
    requires h >= 0
  {
    var s := DigitString(h);
    FromDigits(s + Reverse(s[..|s| - 1]))
  }

  /** `int(str(h) + str(h)[::-1])`. */
  function EvenPalindrome(h: int): int
    requires h >= 0
  {
    var s := DigitString(h);
    FromDigits(s + Reverse(s))
  }

  /** x is built from some half in lo .. hi - 1. */
  ghost predicate Generated(lo: int, hi: int, x: int)
  {
    exists h :: 0 <= lo <= h < hi && (x == OddPalindrome(h) || x == EvenPalindrome(h))
  }

  /** A digit list that is a well-formed digit list followed by reversed
      digits is itself well formed. */
  lemma MirrorIsDigitList(d: seq<int>, tail: seq<int>)
    requires IsDigitList(d) && d != []
    requires forall i :: 0 <= i < |tail| ==> 0 <= tail[i] <= 9
    ensures IsDigitList(d + tail)
  {
  }

  /** The digits of the palindromes built from a positive half h. */
  lemma HalfShapes(h: int)
    requires h >= 1
    ensures Digits(OddPalindrome(h)) == Digits(h) + Reverse(Digits(h)[..|Digits(h)| - 1])
    ensures Digits(EvenPalindrome(h)) == Digits(h) + Reverse(Digits(h))
    ensures OddPalindrome(h) >= 1 && EvenPalindrome(h) >= 1
  {
    var d := Digits(h);
    var odd := d + Reverse(d[..|d| - 1]);
    var even := d + Reverse(d);
    MirrorIsDigitList(d, Reverse(d[..|d| - 1]));
    MirrorIsDigitList(d, Reverse(d));
    DigitsOfFromDigits(odd);
    DigitsOfFromDigits(even);
    FromDigitsBounds(odd);
    FromDigitsBounds(even);
    assert Pow(10, |odd| - 1) >= 1 by {
      PowPositive(10, |odd| - 1);
    }
    assert Pow(10, |even| - 1) >= 1 by {
      PowPositive(10, |even| - 1);
    }
  }

  lemma ReverseConcat(a: seq<int>, b: seq<int>)
    ensures Reverse(a + b) == Reverse(b) + Reverse(a)
  {
    var l, r := Reverse(a + b), Reverse(b) + Reverse(a);
    assert |l| == |r|;
    forall i | 0 <= i < |l|
      ensures l[i] == r[i]
    {
      if i < |b| {
        assert r[i] == Reverse(b)[i];
      } else {
        assert r[i] == Reverse(a)[i - |b|];
      }
    }
  }

  /** A list followed by its mirror reads the same both ways. */
  lemma MirrorFixedEven(d: seq<int>)
    ensures d + Reverse(d) == Reverse(d + Reverse(d))
  {
    ReverseConcat(d, Reverse(d));
    ReverseReverse(d);
  }

  /** So does a list followed by the mirror of all but its last value. */
  lemma MirrorFixedOdd(e: seq<int>, c: int)
    ensures (e + [c]) + Reverse(e) == Reverse((e + [c]) + Reverse(e))
  {
    ReverseConcat(e + [c], Reverse(e));
    ReverseConcat(e, [c]);
    ReverseReverse(e);
    assert Reverse([c]) == [c];
  }

  /** Every number built from a half is a palindrome (0 included, as the
      half 0 gives 0). */
  lemma HalvesArePalindromes(h: int)
    requires h >= 0
    ensures IsPalindrome(OddPalindrome(h)) && IsPalindrome(EvenPalindrome(h))
    ensures OddPalindrome(h) >= 0 && EvenPalindrome(h) >= 0
  {
    if h == 0 {
      ZeroHalf();
      assert Digits(0) == [];
    } else {
      HalfShapes(h);
      var d := Digits(h);
      MirrorFixedEven(d);
      MirrorFixedOdd(d[..|d| - 1], d[|d| - 1]);
      assert d == d[..|d| - 1] + [d[|d| - 1]];
    }
  }

  /** Positive halves give pairwise different palindromes: an odd one has
      an odd number of digits, an even one an even number, and the half is
      the leading part of the digits. */
  lemma HalvesApart(h1: int, h2: int)
    requires h1 >= 1 && h2 >= 1
    ensures OddPalindrome(h1) != EvenPalindrome(h2)
    ensures h1 != h2 ==> OddPalindrome(h1) != OddPalindrome(h2) && EvenPalindrome(h1) != EvenPalindrome(h2)
  {
    HalfShapes(h1);
    HalfShapes(h2);
    var d1, d2 := Digits(h1), Digits(h2);
    FromDigitsOfDigits(h1);
    FromDigitsOfDigits(h2);
    if OddPalindrome(h1) == OddPalindrome(h2) {
      var s := Digits(OddPalindrome(h1));
      assert |d1| == |d2|;
      assert s[..|d1|] == d1 && s[..|d2|] == d2;
    }
    if EvenPalindrome(h1) == EvenPalindrome(h2) {
      var s := Digits(EvenPalindrome(h1));
      assert |d1| == |d2|;
      assert s[..|d1|] == d1 && s[..|d2|] == d2;
    }
  }

  /** Each digit of a palindromic list past position m mirrors one
      before it. */
  lemma MirroredTail(d: seq<int>, m: nat)
    requires d == Reverse(d) && m <= |d|
    ensures forall i :: 0 <= i < |d| - m ==> d[m..][i] == d[|d| - 1 - m - i]
  {
    forall i | 0 <= i < |d| - m
      ensures d[m..][i] == d[|d| - 1 - m - i]
    {
      assert d[m..][i] == Reverse(d)[m + i];
    }
  }

  /** A list of odd length whose digits past the middle mirror those
      before it is its leading half followed by that half mirrored without
      the middle digit. */
  lemma MirroredOdd(d: seq<int>, m: nat)
    requires |d| % 2 == 1 && m == (|d| + 1) / 2
    requires forall i :: 0 <= i < |d| - m ==> d[m..][i] == d[|d| - 1 - m - i]
    ensures d[m..] == Reverse(d[..m][..m - 1])
  {
    var half := d[..m][..m - 1];
    assert |d[m..]| == |Reverse(half)|;
    forall i | 0 <= i < |d| - m
      ensures d[m..][i] == Reverse(half)[i]
    {
    }
  }

  /** The same for an even length, without dropping a middle digit. */
  lemma MirroredEven(d: seq<int>, m: nat)
    requires |d| % 2 == 0 && m == (|d| + 1) / 2
    requires forall i :: 0 <= i < |d| - m ==> d[m..][i] == d[|d| - 1 - m - i]
    ensures d[m..] == Reverse(d[..m])
  {
    var half := d[..m];
    assert |d[m..]| == |Reverse(half)|;
    forall i | 0 <= i < |d| - m
      ensures d[m..][i] == Reverse(half)[i]
    {
    }
  }

  /** The leading half of a positive digit list spells a number from 1 to
      the whole number. */
  lemma LeadingHalfBounds(p: int, m: nat)
    requires p >= 1 && 1 <= m <= |Digits(p)|
    ensures IsDigitList(Digits(p)[..m])
    ensures 1 <= FromDigits(Digits(p)[..m]) <= p
  {
    var d := Digits(p);
    var half, tail := d[..m], d[m..];
    FromDigitsOfDigits(p);
    assert d == half + tail;
    FromDigitsConcat(half, tail);
    FromDigitsBounds(tail);
    FromDigitsBounds(half);
    PowPositive(10, |tail|);
    PowPositive(10, m - 1);
    MulLeft(FromDigits(half), 1, Pow(10, |tail|));
  }

  /** A palindromic digit list is its leading half followed by the
      mirrored half, without the middle digit for an odd length. */
  lemma MirrorSplit(d: seq<int>, m: nat)
    requires m == (|d| + 1) / 2
    requires forall i :: 0 <= i < |d| - m ==> d[m..][i] == d[|d| - 1 - m - i]
    ensures |d| % 2 == 1 ==> d == d[..m] + Reverse(d[..m][..m - 1])
    ensures |d| % 2 == 0 ==> d == d[..m] + Reverse(d[..m])
  {
    if |d| % 2 == 1 {
      MirroredOdd(d, m);
    } else {
      MirroredEven(d, m);
    }
    assert d == d[..m] + d[m..];
  }

  /** Every positive palindrome p is built from its leading half, which
      lies in 1 .. p. */
  lemma PalindromeHalf(p: int) returns (h: int)
    requires p >= 1 && IsPalindrome(p)
    ensures 1 <= h <= p && (p == OddPalindrome(h) || p == EvenPalindrome(h))
  {
    var d := Digits(p);
    var m := (|d| + 1) / 2;
    LeadingHalfBounds(p, m);
    h := FromDigits(d[..m]);
    DigitsOfFromDigits(d[..m]);
    assert DigitString(h) == d[..m];
    FromDigitsOfDigits(p);
    MirroredTail(d, m);
    MirrorSplit(d, m);
  }

  lemma DigitsOfOneDigit(a: int)
    requires 1 <= a <= 9
    ensures Digits(a) == [a]
  {
    assert a / 10 == 0 && a % 10 == a;
  }

  lemma DigitsOfTwoDigits(a: int, b: int)
    requires 1 <= a <= 9 && 0 <= b <= 9
    ensures Digits(10 * a + b) == [a, b]
  {
    ModUnique(10 * a + b, a, b, 10);
    DigitsOfOneDigit(a);
  }

  /** The half 0 gives 0 both ways. */
  lemma ZeroHalf()
    ensures OddPalindrome(0) == 0 && EvenPalindrome(0) == 0
  {
    assert [0][..0] == [];
    assert [0] + Reverse<int>([]) == [0];
    assert Reverse([0]) == [0];
    FromDigitsTwo(0, 0);
  }

  /** A single-digit half h gives h and 11 * h. */
  lemma SingleDigitHalf(h: int)
    requires 1 <= h <= 9
    ensures OddPalindrome(h) == h && EvenPalindrome(h) == 11 * h
  {
    DigitsOfOneDigit(h);
    assert [h][..0] == [];
    assert [h] + Reverse<int>([]) == [h];
    assert Reverse([h]) == [h];
    FromDigitsTwo(h, h);
  }

  /** A two-digit half ab gives aba and abba. */
  lemma TwoDigitHalfOdd(a: int, b: int)
    requires 1 <= a <= 9 && 0 <= b <= 9
    ensures OddPalindrome(10 * a + b) == 101 * a + 10 * b
  {
    DigitsOfTwoDigits(a, b);
    assert [a, b][..1] == [a];
    assert Reverse([a]) == [a];
    assert [a, b] + [a] == [a, b, a];
    FromDigitsThree(a, b, a);
  }

  lemma TwoDigitHalfEven(a: int, b: int)
    requires 1 <= a <= 9 && 0 <= b <= 9
    ensures EvenPalindrome(10 * a + b) == 1001 * a + 110 * b
  {
    DigitsOfTwoDigits(a, b);
    assert Reverse([a, b]) == [b, a];
    assert [a, b] + [b, a] == [a, b, b, a];
    FromDigitsFour(a, b, b, a);
  }

  // ---------------------------------------------------------------------
  // find_palindromes

  /** `m_pal`: min_num without its low `m_length // 2` digits (both
      branches of the source compute the same). */
  function MinHalf(minNum: int): (r: int)
    requires minNum >= 0
    ensures 0 <= r <= minNum
  {
    var p := Pow10(NumberLen(minNum) / 2);
    DivBounds(minNum, p);
    minNum / p
  }

  /** `mx_pal`: max_num without its low `mx_length // 2` digits, times 10
      for an even length; `int(a / b)` truncates toward zero. */
  function MaxHalf(maxNum: int): int
  {
    var p := Pow10(NumberLen(maxNum) / 2);
    var q := if maxNum >= 0 then maxNum / p else -((-maxNum) / p);
    if NumberLen(maxNum) % 2 == 0 then q * 10 else q
  }

  /** A positive min_num keeps at least one digit, so its half is
      positive. */
  lemma MinHalfPositive(minNum: int)
    requires minNum >= 1
    ensures MinHalf(minNum) >= 1
  {
    var k := NumberLen(minNum) / 2;
    assert NumberLen(minNum) == |Digits(minNum)|;
    DigitsDropLow(minNum, k);
  }

  /** What the loop of `find_palindromes` has gathered once the halves
      lo .. h - 1 are done. */
  ghost predicate Collected(lo: int, h: int, maxNum: int, list: seq<int>)
  {
    && (forall x :: x in list <==> x < maxNum && Generated(lo, h, x))
    && (lo >= 1 ==> Distinct(list))
    && (lo == 0 < h && maxNum > 0 ==> |list| >= 2 && list[0] == 0 && list[1] == 0)
  }

  /** The palindromes of half h that are below max_num, as the loop
      appends them. */
  function HalfStep(h: int, maxNum: int): (r: seq<int>)
    requires h >= 0
    ensures forall x :: x in r <==> x < maxNum && (x == OddPalindrome(h) || x == EvenPalindrome(h))
  {
    (if OddPalindrome(h) < maxNum then [OddPalindrome(h)] else []) +
    (if EvenPalindrome(h) < maxNum then [EvenPalindrome(h)] else [])
  }

  lemma HalfStepMembers(lo: int, h: int, maxNum: int, before: seq<int>)
    requires 0 <= lo <= h
    requires forall x :: x in before <==> x < maxNum && Generated(lo, h, x)
    ensures forall x :: x in before + HalfStep(h, maxNum) <==> x < maxNum && Generated(lo, h + 1, x)
  {
    var step := HalfStep(h, maxNum);
    forall x ensures x in before + step <==> x < maxNum && Generated(lo, h + 1, x) {
      assert x in before + step <==> x in before || x in step;
      GeneratedNext(lo, h, x);
    }
  }

  lemma HalfStepDistinct(lo: int, h: int, maxNum: int, before: seq<int>)
    requires 1 <= lo <= h && Distinct(before)
    requires forall x :: x in before ==> Generated(lo, h, x)
    ensures Distinct(before + HalfStep(h, maxNum))
  {
    var odd, even := OddPalindrome(h), EvenPalindrome(h);
    forall x | x in before
      ensures x != odd && x != even
    {
      FreshHalf(lo, h, x);
    }
    HalvesApart(h, h);
    var mid := before + (if odd < maxNum then [odd] else []);
    if odd < maxNum {
      DistinctSnoc(before, odd);
    }
    if even < maxNum {
      DistinctSnoc(mid, even);
    }
    assert before + HalfStep(h, maxNum) == mid + (if even < maxNum then [even] else []);
  }

  lemma HalfZero(maxNum: int)
    requires maxNum > 0
    ensures HalfStep(0, maxNum) == [0, 0]
  {
    ZeroHalf();
  }

  /** The two zeros of the half 0 stay at the front. */
  lemma HalfStepZeros(lo: int, h: int, maxNum: int, before: seq<int>)
    requires 0 <= lo <= h && Collected(lo, h, maxNum, before)
    ensures lo == 0 < h + 1 && maxNum > 0 ==>
      |before + HalfStep(h, maxNum)| >= 2 && (before + HalfStep(h, maxNum))[0] == 0 && (before + HalfStep(h, maxNum))[1] == 0
  {
    if lo == 0 && h == 0 && maxNum > 0 {
      EmptyTogether(before, []);
      HalfZero(maxNum);
    }
  }

  /** One turn of the loop keeps what it has gathered accounted for. */
  lemma CollectStep(lo: int, h: int, maxNum: int, before: seq<int>)
    requires 0 <= lo <= h && Collected(lo, h, maxNum, before)
    ensures Collected(lo, h + 1, maxNum, before + HalfStep(h, maxNum))
  {
    HalfStepMembers(lo, h, maxNum, before);
    if lo >= 1 {
      HalfStepDistinct(lo, h, maxNum, before);
    }
    HalfStepZeros(lo, h, maxNum, before);
  }

  /** The loop of `find_palindromes` over the halves lo .. hi - 1, keeping
      the palindromes below max_num. */
  method CollectHalves(lo: int, hi: int, maxNum: int) returns (palindromes: seq<int>)
    requires lo >= 0
    ensures forall x :: x in palindromes <==> x < maxNum && Generated(lo, hi, x)
    ensures forall x :: x in palindromes ==> x >= 0 && IsPalindrome(x)
    ensures lo >= 1 ==> Distinct(palindromes)
    ensures lo == 0 < hi && maxNum > 0 ==> |palindromes| >= 2 && palindromes[0] == 0 && palindromes[1] == 0
  {
    palindromes := [];
    var halfPalindrome := lo;
    CollectedStart(lo, maxNum);
    while halfPalindrome < hi
      invariant lo <= halfPalindrome && (halfPalindrome <= hi || halfPalindrome == lo)
      invariant Collected(lo, halfPalindrome, maxNum, palindromes)
    {
      CollectStep(lo, halfPalindrome, maxNum, palindromes);
      palindromes := AddHalf(halfPalindrome, maxNum, palindromes);
      halfPalindrome := halfPalindrome + 1;
    }
    CollectedDone(lo, halfPalindrome, hi, maxNum, palindromes);
    GeneratedPalindromes(lo, hi, maxNum, palindromes);
  }

  lemma CollectedStart(lo: int, maxNum: int)
    requires lo >= 0
    ensures Collected(lo, lo, maxNum, [])
  {
  }

  /** When the loop stops at hi, or never starts because hi <= lo, the
      halves done are exactly lo .. hi - 1. */
  lemma CollectedDone(lo: int, h: int, hi: int, maxNum: int, list: seq<int>)
    requires 0 <= lo && Collected(lo, h, maxNum, list) && (h == hi || (h == lo && hi <= lo))
    ensures forall x :: x in list <==> x < maxNum && Generated(lo, hi, x)
    ensures lo >= 1 ==> Distinct(list)
    ensures lo == 0 < hi && maxNum > 0 ==> |list| >= 2 && list[0] == 0 && list[1] == 0
  {
  }

  /** The loop body: append the odd and then the even palindrome of the
      half h, each when it is below max_num. */
  method AddHalf(h: int, maxNum: int, palindromes: seq<int>) returns (next: seq<int>)
    requires h >= 0
    ensures next == palindromes + HalfStep(h, maxNum)
  {
    var oddPalindrome := OddPalindrome(h);
    var evenPalindrome := EvenPalindrome(h);
    var step: seq<int> := [];
    if oddPalindrome < maxNum {
      step := [oddPalindrome];
    }
    if evenPalindrome < maxNum {
      step := step + [evenPalindrome];
    }
    next := palindromes + step;
  }

  lemma GeneratedPalindromes(lo: int, hi: int, maxNum: int, list: seq<int>)
    requires forall x :: x in list ==> Generated(lo, hi, x)
    ensures forall x :: x in list ==> x >= 0 && IsPalindrome(x)
  {
    forall x | x in list
      ensures x >= 0 && IsPalindrome(x)
    {
      var h :| 0 <= lo <= h < hi && (x == OddPalindrome(h) || x == EvenPalindrome(h));
      HalvesArePalindromes(h);
    }
  }

  /** Adding the half h adds exactly its two palindromes. */
  lemma GeneratedNext(lo: int, h: int, x: int)
    requires 0 <= lo <= h
    ensures Generated(lo, h + 1, x) <==> Generated(lo, h, x) || x == OddPalindrome(h) || x == EvenPalindrome(h)
  {
    if Generated(lo, h + 1, x) {
      var h' :| 0 <= lo <= h' < h + 1 && (x == OddPalindrome(h') || x == EvenPalindrome(h'));
      assert h' < h || h' == h;
    }
  }

  /** A palindrome from an earlier positive half differs from both of
      the half h. */
  lemma FreshHalf(lo: int, h: int, x: int)
    requires 1 <= lo <= h && Generated(lo, h, x)
    ensures x != OddPalindrome(h) && x != EvenPalindrome(h)
  {
    var h' :| 0 <= lo <= h' < h && (x == OddPalindrome(h') || x == EvenPalindrome(h'));
    HalvesApart(h', h);
    HalvesApart(h, h');
  }

  /** The slice from `bisect_left` of a sorted list holds exactly its
      values of at least x, in order. */
  lemma BisectSlice(s: seq<int>, x: int)
    requires Sorted(s)
    ensures Sorted(s[BisectLeft(s, x)..])
    ensures StrictlySorted(s) ==> StrictlySorted(s[BisectLeft(s, x)..])
    ensures forall y :: y in s[BisectLeft(s, x)..] <==> y in s && y >= x
  {
    var i := BisectLeft(s, x);
    forall y ensures y in s[i..] <==> y in s && y >= x {
      if y in s && y >= x {
        var j :| 0 <= j < |s| && s[j] == y;
        assert s[i..][j - i] == y;
      }
    }
  }

  /** `list.sort()` and the slice from `bisect_left(list, min_num)`: the
      values of at least min_num, ascending. */
  function SortedFrom(list: seq<int>, minNum: int): (r: seq<int>)
    ensures Sorted(r)
    ensures forall x :: x in r <==> x in list && x >= minNum
    ensures Distinct(list) ==> StrictlySorted(r)
  {
    var s := Sort(list);
    assert forall x :: x in s <==> x in list by {
      assert forall x :: x in s <==> x in multiset(s);
    }
    assert Distinct(list) ==> StrictlySorted(s) by {
      if Distinct(list) {
        SortDistinct(list);
      }
    }
    BisectSlice(s, minNum);
    s[BisectLeft(s, minNum)..]
  }

  /** A sorted list of non-negative numbers holding 0 at least twice
      starts 0, 0. */
  lemma SortedTwoZeros(s: seq<int>)
    requires Sorted(s) && multiset(s)[0] >= 2
    requires forall x :: x in s ==> x >= 0
    ensures |s| >= 2 && s[0] == 0 && s[1] == 0
  {
    assert 0 in multiset(s);
    var j :| 0 <= j < |s| && s[j] == 0;
    assert s[0] in s && s[0] <= s[j];
    assert s == [s[0]] + s[1..];
    assert multiset(s[1..])[0] >= 1;
    var k :| 0 <= k < |s[1..]| && s[1..][k] == 0;
    assert s[1] <= s[k + 1];
  }

  /** Two leading zeros of a list of non-negative numbers are the first
      two values once it is sorted. */
  lemma ZerosFirst(list: seq<int>)
    requires |list| >= 2 && list[0] == 0 && list[1] == 0
    requires forall x :: x in list ==> x >= 0
    ensures |SortedFrom(list, 0)| >= 2 && SortedFrom(list, 0)[0] == 0 && SortedFrom(list, 0)[1] == 0
  {
    var s := Sort(list);
    assert list == [0, 0] + list[2..];
    assert multiset(s)[0] >= 2;
    forall x | x in s
      ensures x >= 0
    {
      assert x in multiset(s);
      assert x in multiset(list);
      assert x in list;
    }
    SortedTwoZeros(s);
    assert BisectLeft(s, 0) == 0;
  }

  /** `find_palindromes(max_num, min_num)`: the palindromes from the halves
      m_pal .. mx_pal - 1 that are below max_num, sorted, from min_num on.
      (Python's `int(str(h) + ...)` on a negative half raises; such halves
      arise only for a negative min_num, which is excluded.) */
  method FindPalindromes(maxNum: int, minNum: int) returns (r: seq<int>)
    requires minNum >= 0
    ensures Sorted(r)
    ensures forall x :: x in r <==> minNum <= x < maxNum && Generated(MinHalf(minNum), MaxHalf(maxNum), x)
    ensures forall x :: x in r ==> IsPalindrome(x)
    ensures minNum >= 1 ==> StrictlySorted(r)
    ensures minNum == 0 && maxNum > 0 && MaxHalf(maxNum) > 0 ==> |r| >= 2 && r[0] == 0 && r[1] == 0
  {
    var mPal := MinHalf(minNum);
    var mxPal := MaxHalf(maxNum);
    var listPalindromes := CollectHalves(mPal, mxPal, maxNum);
    r := SortedFrom(listPalindromes, minNum);
    Kept(listPalindromes, r, mPal, mxPal, minNum, maxNum);
  }

  /** What the sorted slice from min_num keeps of the gathered palindromes. */
  lemma Kept(list: seq<int>, r: seq<int>, lo: int, hi: int, minNum: int, maxNum: int)
    requires minNum >= 0 && lo == MinHalf(minNum) && hi == MaxHalf(maxNum)
    requires r == SortedFrom(list, minNum)
    requires forall x :: x in list <==> x < maxNum && Generated(lo, hi, x)
    requires forall x :: x in list ==> x >= 0 && IsPalindrome(x)
    requires lo >= 1 ==> Distinct(list)
    requires lo == 0 < hi && maxNum > 0 ==> |list| >= 2 && list[0] == 0 && list[1] == 0
    ensures Sorted(r)
    ensures forall x :: x in r <==> minNum <= x < maxNum && Generated(lo, hi, x)
    ensures forall x :: x in r ==> IsPalindrome(x)
    ensures minNum >= 1 ==> StrictlySorted(r)
    ensures minNum == 0 && maxNum > 0 && hi > 0 ==> |r| >= 2 && r[0] == 0 && r[1] == 0
  {
    KeptMembers(list, r, lo, hi, minNum, maxNum);
    KeptStrict(list, r, minNum, lo);
    KeptZeros(list, r, minNum, maxNum, lo, hi);
  }

  /** From a positive min_num on, the halves are positive, so no value is
      gathered twice and the slice ascends strictly. */
  lemma KeptStrict(list: seq<int>, r: seq<int>, minNum: int, lo: int)
    requires minNum >= 0 && lo == MinHalf(minNum) && r == SortedFrom(list, minNum)
    requires lo >= 1 ==> Distinct(list)
    ensures minNum >= 1 ==> StrictlySorted(r)
  {
    if minNum >= 1 {
      MinHalfPositive(minNum);
    }
  }

  /** From 0 on, the half 0 gives 0 twice, and both lead the slice. */
  lemma KeptZeros(list: seq<int>, r: seq<int>, minNum: int, maxNum: int, lo: int, hi: int)
    requires minNum >= 0 && lo == MinHalf(minNum) && hi == MaxHalf(maxNum)
    requires r == SortedFrom(list, minNum)
    requires forall x :: x in list ==> x >= 0
    requires lo == 0 < hi && maxNum > 0 ==> |list| >= 2 && list[0] == 0 && list[1] == 0
    ensures minNum == 0 && maxNum > 0 && hi > 0 ==> |r| >= 2 && r[0] == 0 && r[1] == 0
  {
    if minNum == 0 && maxNum > 0 && hi > 0 {
      FindPalindromesZeroTwice();
      ZerosFirst(list);
    }
  }

  /** What the slice from min_num keeps of the gathered palindromes. */
  lemma KeptMembers(list: seq<int>, r: seq<int>, lo: int, hi: int, minNum: int, maxNum: int)
    requires forall x :: x in list <==> x < maxNum && Generated(lo, hi, x)
    requires forall x :: x in list ==> x >= 0 && IsPalindrome(x)
    requires forall x :: x in r <==> x in list && x >= minNum
    ensures forall x :: x in r <==> minNum <= x < maxNum && Generated(lo, hi, x)
    ensures forall x :: x in r ==> IsPalindrome(x)
  {
  }

  /** With the halves 1 .. max_num - 1, which cover every palindrome below
      max_num, the result is every positive palindrome in
      [min_num, max_num), once each, ascending. */
  method FindPalindromesCorrected(maxNum: int, minNum: int) returns (r: seq<int>)
    requires minNum >= 0
    ensures StrictlySorted(r)
    ensures forall x :: x in r <==> 1 <= x && minNum <= x < maxNum && IsPalindrome(x)
  {
    var listPalindromes := CollectHalves(1, maxNum, maxNum);
    forall x ensures x in listPalindromes <==> 1 <= x < maxNum && IsPalindrome(x) {
      if x in listPalindromes {
        var h :| 0 <= 1 <= h < maxNum && (x == OddPalindrome(h) || x == EvenPalindrome(h));
        HalfShapes(h);
      }
      if 1 <= x < maxNum && IsPalindrome(x) {
        var h := PalindromeHalf(x);
        assert 0 <= 1 <= h < maxNum && (x == OddPalindrome(h) || x == EvenPalindrome(h));
      }
    }
    r := SortedFrom(listPalindromes, minNum);
  }

  /** For (123, 100) the halves are 10 and 11 only, so 121, a palindrome
      in range, is missing: the upper bound leaves out the half 12. */
  lemma FindPalindromesMisses121()
    ensures MinHalf(100) == 10 && MaxHalf(123) == 12
    ensures IsPalindrome(121) && 100 <= 121 < 123
    ensures !Generated(10, 12, 121)
  {
    HalvesOf123();
    Palindrome121();
    Missing121();
  }

  lemma Palindrome121()
    ensures IsPalindrome(121)
  {
    FromDigitsThree(1, 2, 1);
    DigitsOfFromDigits([1, 2, 1]);
    assert Reverse([1, 2, 1]) == [1, 2, 1];
  }

  /** The halves 10 and 11 give 101, 1001, 111 and 1111 only. */
  lemma Missing121()
    ensures !Generated(10, 12, 121)
  {
    forall h | 10 <= h < 12
      ensures OddPalindrome(h) != 121 && EvenPalindrome(h) != 121
    {
      HalfOfOneTwoOne(h);
    }
  }

  lemma HalfOfOneTwoOne(h: int)
    requires 10 <= h < 12
    ensures OddPalindrome(h) != 121 && EvenPalindrome(h) != 121
  {
    if h == 10 {
      HalfTen();
    } else {
      assert h == 11;
      HalfEleven();
    }
  }

  lemma HalvesOf123()
    ensures MinHalf(100) == 10 && MaxHalf(123) == 12
  {
    assert NumberLen(100) == 3 && NumberLen(123) == 3;
    assert Pow10(1) == 10;
  }

  lemma HalfTen()
    ensures OddPalindrome(10) == 101 && EvenPalindrome(10) == 1001
  {
    TwoDigitHalfOdd(1, 0);
    TwoDigitHalfEven(1, 0);
  }

  lemma HalfEleven()
    ensures OddPalindrome(11) == 111 && EvenPalindrome(11) == 1111
  {
    TwoDigitHalfOdd(1, 1);
    TwoDigitHalfEven(1, 1);
  }

  /** For (100, 5) the halves start at 5, so 11, 22, 33 and 44, whose
      halves 1 .. 4 come before, are missing. */
  lemma FindPalindromesMisses11()
    ensures MinHalf(5) == 5 && MaxHalf(100) == 10
    ensures IsPalindrome(11) && 5 <= 11 < 100
    ensures !Generated(5, 10, 11)
  {
    assert NumberLen(5) == 1 && NumberLen(100) == 3;
    assert Digits(11) == [1, 1];
    forall h | 5 <= h < 10
      ensures OddPalindrome(h) != 11 && EvenPalindrome(h) != 11
    {
      SingleDigitHalf(h);
    }
  }

  /** For (5, 0) the half 0 gives 0 twice, so the result starts 0, 0. */
  lemma FindPalindromesZeroTwice()
    ensures MinHalf(0) == 0 && MaxHalf(5) == 5
  {
    assert NumberLen(5) == 1;
  }

  // ---------------------------------------------------------------------
  // double_base_palindromes

  /** The binary digits of n, most significant first; `bin(0)[2:]` is
      "0", and [] is as much a palindrome. */
  function Bits(n: int): (r: seq<int>)
    decreases n
  {
    if n <= 0 then [] else Bits(n / 2) + [n % 2]
  }

  predicate IsBinaryPalindrome(n: int)
  {
    Bits(n) == Reverse(Bits(n))
  }

  /** The values of s that satisfy keep, in order. */
  function Keep(s: seq<int>, keep: int -> bool): seq<int>
  {
    if s == [] then []
    else Keep(s[..|s| - 1], keep) + (if keep(s[|s| - 1]) then [s[|s| - 1]] else [])
  }

  /** The kept values are those of s that satisfy keep. */
  lemma {:induction false} KeepMembers(s: seq<int>, keep: int -> bool)
    ensures forall x :: x in Keep(s, keep) <==> x in s && keep(x)
  {
    if s != [] {
      var init := s[..|s| - 1];
      KeepMembers(init, keep);
      assert s == init + [s[|s| - 1]];
    }
  }

  /** Appending a value no smaller (larger) than all others keeps a list
      sorted (strictly sorted). */
  lemma SortedSnoc(t: seq<int>, x: int)
    ensures Sorted(t) && (forall y :: y in t ==> y <= x) ==> Sorted(t + [x])
    ensures StrictlySorted(t) && (forall y :: y in t ==> y < x) ==> StrictlySorted(t + [x])
  {
    assert forall i :: 0 <= i < |t| ==> t[i] in t;
  }

  /** Keeping some values of a sorted (strictly sorted) list leaves it
      sorted (strictly sorted). */
  lemma {:induction false} KeepSorted(s: seq<int>, keep: int -> bool)
    ensures Sorted(s) ==> Sorted(Keep(s, keep))
    ensures StrictlySorted(s) ==> StrictlySorted(Keep(s, keep))
  {
    if s != [] {
      var init, last := s[..|s| - 1], s[|s| - 1];
      KeepSorted(init, keep);
      KeepMembers(init, keep);
      assert Sorted(s) ==> Sorted(init);
      assert StrictlySorted(s) ==> StrictlySorted(init);
      assert forall y :: y in init ==> exists i :: 0 <= i < |init| && init[i] == y && s[i] == y;
      SortedSnoc(Keep(init, keep), last);
    }
  }

  /** `double_base_palindromes`: the palindromes of `find_palindromes`
      whose binary form is a palindrome too, in the same order. */
  method DoubleBasePalindromes(maxNum: int, minNum: int) returns (r: seq<int>)
    requires minNum >= 0
    ensures Sorted(r)
    ensures minNum >= 1 ==> StrictlySorted(r)
    ensures forall x :: x in r <==>
      minNum <= x < maxNum && Generated(MinHalf(minNum), MaxHalf(maxNum), x) && IsBinaryPalindrome(x)
    ensures forall x :: x in r ==> IsPalindrome(x)
  {
    var palindromesList := FindPalindromes(maxNum, minNum);
    r := [];
    var i := 0;
    while i < |palindromesList|
      invariant 0 <= i <= |palindromesList|
      invariant r == Keep(palindromesList[..i], IsBinaryPalindrome)
    {
      var palindrome := palindromesList[i];
      assert palindromesList[..i + 1][..i] == palindromesList[..i];
      if IsBinaryPalindrome(palindrome) {
        r := r + [palindrome];
      }
      i := i + 1;
    }
    assert palindromesList[..i] == palindromesList;
    KeepMembers(palindromesList, IsBinaryPalindrome);
    KeepSorted(palindromesList, IsBinaryPalindrome);
  }

  /** 585 is 1001001001 in binary: a palindrome in both bases. */
  lemma DoubleBase585()
    ensures IsPalindrome(585) && IsBinaryPalindrome(585)
  {
    Decimal585();
    Binary585();
  }

  lemma Decimal585()
    ensures IsPalindrome(585)
  {
    assert Digits(585) == [5, 8, 5];
  }

  lemma BitsOf73()
    ensures Bits(73) == [1, 0, 0, 1, 0, 0, 1]
  {
    assert Bits(9) == [1, 0, 0, 1];
    assert Bits(18) == Bits(9) + [0];
    assert Bits(36) == Bits(18) + [0];
    assert Bits(73) == Bits(36) + [1];
  }

  lemma BitsOf585()
    ensures Bits(585) == [1, 0, 0, 1, 0, 0, 1, 0, 0, 1]
  {
    BitsOf73();
    assert Bits(146) == Bits(73) + [0];
    assert Bits(292) == Bits(146) + [0];
    assert Bits(585) == Bits(292) + [1];
  }

  lemma Binary585()
    ensures IsBinaryPalindrome(585)
  {
    BitsOf585();
    MirrorTen(1, 0, 0, 1, 0);
  }

  /** A ten-element list that is its own mirror image is its own reverse. */
  lemma MirrorTen(a: int, b: int, c: int, d: int, e: int)
    ensures Reverse([a, b, c, d, e, e, d, c, b, a]) == [a, b, c, d, e, e, d, c, b, a]
  {
    var s := [a, b, c, d, e, e, d, c, b, a];
    assert Reverse(s) == s by {
      forall i | 0 <= i < 10 ensures Reverse(s)[i] == s[i] {
      }
    }
  }

  // ---------------------------------------------------------------------
  // lychrel_numbers

  /** One reverse-and-add step. */
  function ReverseAdd(n: int): int
  {
    n + Reversed(n)
  }

  /** n after k reverse-and-add steps. */
  function ReverseAddIter(n: int, k: nat): int
  {
    if k == 0 then n else ReverseAdd(ReverseAddIter(n, k - 1))
  }

  /** k reverse-and-add steps from n give a palindrome. */
  ghost predicate PalindromeAt(n: int, k: nat)
  {
    IsPalindrome(ReverseAddIter(n, k))
  }

  /** k is the first of 1 .. iters steps that gives a palindrome. */
  ghost predicate FirstPalindromeStep(n: int, k: int, iters: int)
  {
    1 <= k <= iters && PalindromeAt(n, k) &&
    forall j :: 1 <= j < k ==> !PalindromeAt(n, j)
  }

  /** Some step within 1 .. iters gives a palindrome. */
  ghost predicate ReachesPalindrome(n: int, iters: int)
  {
    exists k :: 1 <= k <= iters && PalindromeAt(n, k)
  }

  /** None of the steps 1 .. k gives a palindrome. */
  ghost predicate NoPalindromeUpTo(n: int, k: int)
  {
    forall j :: 1 <= j <= k ==> !PalindromeAt(n, j)
  }

  lemma PalindromeFound(n: int, k: nat, iters: int)
    requires k < iters && PalindromeAt(n, k + 1) && NoPalindromeUpTo(n, k)
    ensures FirstPalindromeStep(n, k + 1, iters) && ReachesPalindrome(n, iters)
  {
  }

  lemma PalindromeAtValue(n: int, k: nat, x: int)
    requires x == ReverseAddIter(n, k)
    ensures x + Reversed(x) == ReverseAddIter(n, k + 1)
    ensures PalindromeAt(n, k + 1) == IsPalindrome(x + Reversed(x))
  {
  }

  lemma NoPalindromeNext(n: int, k: nat)
    requires NoPalindromeUpTo(n, k) && !PalindromeAt(n, k + 1)
    ensures NoPalindromeUpTo(n, k + 1)
  {
  }

  lemma NoPalindromeWithin(n: int, k: int, iters: int)
    requires NoPalindromeUpTo(n, k) && k >= iters
    ensures !ReachesPalindrome(n, iters)
  {
  }

  /** One turn of the inner loop: reverse-and-add, then the palindrome
      test; the step count is returned when it passes, 0 otherwise. */
  method ReverseAddTurn(ghost number: int, iters: int, iteration: nat, current: int) returns (next: int, steps: int)
    requires iteration < iters && current == ReverseAddIter(number, iteration)
    requires NoPalindromeUpTo(number, iteration)
    ensures next == ReverseAddIter(number, iteration + 1)
    ensures steps == 0 ==> NoPalindromeUpTo(number, iteration + 1)
    ensures steps != 0 ==> FirstPalindromeStep(number, steps, iters) && ReachesPalindrome(number, iters)
  {
    var reversed := ReverseNumber(current);
    next := current + reversed;
    PalindromeAtValue(number, iteration, current);
    if IsPalindrome(next) {
      PalindromeFound(number, iteration, iters);
      steps := iteration + 1;
    } else {
      NoPalindromeNext(number, iteration);
      steps := 0;
    }
  }

  /** The inner loop of `lychrel_numbers`: the first step within iters
      that gives a palindrome, or 0 when none does. */
  method StepsToPalindrome(number: int, iters: int) returns (steps: int)
    ensures steps == 0 || FirstPalindromeStep(number, steps, iters)
    ensures steps == 0 <==> !ReachesPalindrome(number, iters)
  {
    var newNumber := number;
    var iteration := 0;
    steps := 0;
    while iteration < iters && steps == 0
      invariant 0 <= iteration && (iteration <= iters || iteration == 0)
      invariant newNumber == ReverseAddIter(number, iteration)
      invariant steps == 0 ==> NoPalindromeUpTo(number, iteration)
      invariant steps != 0 ==> FirstPalindromeStep(number, steps, iters) && ReachesPalindrome(number, iters)
    {
      newNumber, steps := ReverseAddTurn(number, iters, iteration, newNumber);
      iteration := iteration + 1;
    }
    if steps == 0 {
      NoPalindromeWithin(number, iteration, iters);
    }
  }

  /** n is one of the numbers of results. */
  ghost predicate Listed(results: seq<(int, int)>, n: int)
  {
    exists i :: 0 <= i < |results| && results[i].0 == n
  }

  lemma ListedSnoc(results: seq<(int, int)>, entry: (int, int), n: int)
    ensures Listed(results + [entry], n) <==> Listed(results, n) || entry.0 == n
  {
    var longer := results + [entry];
    if Listed(results, n) {
      var i :| 0 <= i < |results| && results[i].0 == n;
      assert longer[i].0 == n;
    }
    if entry.0 == n {
      assert longer[|results|].0 == n;
    }
    if Listed(longer, n) {
      var i :| 0 <= i < |longer| && longer[i].0 == n;
      if i < |results| {
        assert results[i].0 == n;
      }
    }
  }

  /** `lychrel_numbers`: for each number 1 .. max_num - 1 that reaches a
      palindrome within iters steps, the number and its first such step,
      in ascending order of the number; the others are left out. */
  method LychrelNumbers(maxNum: int, iters: int) returns (results: seq<(int, int)>)
    ensures forall i :: 0 <= i < |results| ==>
      1 <= results[i].0 < maxNum && FirstPalindromeStep(results[i].0, results[i].1, iters)
    ensures forall i, j :: 0 <= i < j < |results| ==> results[i].0 < results[j].0
    ensures forall n :: 1 <= n < maxNum ==> (ReachesPalindrome(n, iters) <==> Listed(results, n))
  {
    results := [];
    var number := 1;
    while number < maxNum
      invariant 1 <= number && (number <= maxNum || number == 1)
      invariant forall i :: 0 <= i < |results| ==>
        1 <= results[i].0 < number && FirstPalindromeStep(results[i].0, results[i].1, iters)
      invariant forall i, j :: 0 <= i < j < |results| ==> results[i].0 < results[j].0
      invariant forall n :: 1 <= n < number ==> (ReachesPalindrome(n, iters) <==> Listed(results, n))
    {
      var steps := StepsToPalindrome(number, iters);
      if steps != 0 {
        forall n ensures Listed(results + [(number, steps)], n) <==> Listed(results, n) || n == number {
          ListedSnoc(results, (number, steps), n);
        }
        results := results + [(number, steps)];
      } else {
        assert !Listed(results, number);
      }
      number := number + 1;
    }
  }
}
